/** The message-oriented view of one TCP connection that both sides read from.
    The peer's sends arrive as a finite sequence of deliveries; a delivery is received whole by
    one `recv(n)` when it holds at most `n` bytes, otherwise `recv(n)` takes its first `n` bytes
    and leaves the rest for the next call. Separate sends are never merged. An empty delivery,
    like the end of the sequence, is the peer closing the connection. */
module Transport {
  import opened Utf8

  datatype Recv =
    | Data(bytes: seq<byte>)  // what `recv` returned; empty when the peer has closed
    | Timeout                 // `socket.timeout` raised by `recv`
    | Failure                 // any other error raised by `recv` (reset, aborted, ...)

  function DataBytes(r: Recv): seq<byte> {
    if r.Data? then r.bytes else []
  }

  /** All payload bytes still to be delivered, in order. */
  function StreamBytes(incoming: seq<Recv>): seq<byte> {
    if incoming == [] then [] else DataBytes(incoming[0]) + StreamBytes(incoming[1..])
  }

  /** A measure that every `recv` on a non-empty sequence decreases. */
  function Weight(incoming: seq<Recv>): nat {
    if incoming == [] then 0 else 1 + |DataBytes(incoming[0])| + Weight(incoming[1..])
  }

  /** One `recv(n)`: the value it returns and the deliveries left after it. */
  function Take(incoming: seq<Recv>, n: nat): (r: (Recv, seq<Recv>))
    requires n > 0
    ensures r.0.Data? ==> |r.0.bytes| <= n
    ensures incoming == [] ==> r == (Data([]), [])
    ensures incoming != [] ==> Weight(r.1) < Weight(incoming)
  {
    if incoming == [] then (Data([]), [])
    else match incoming[0]
      case Data(b) =>
        if |b| > n then
          var rest := [Data(b[n..])] + incoming[1..];
          assert rest[1..] == incoming[1..];
          (Data(b[..n]), rest)
        else (incoming[0], incoming[1..])
      case _ => (incoming[0], incoming[1..])
  }

  /** A `recv` neither loses nor reorders bytes: what it returns followed by what is left is
      everything that was still to be delivered. */
  lemma TakePreservesStream(incoming: seq<Recv>, n: nat)
    requires n > 0
    ensures DataBytes(Take(incoming, n).0) + StreamBytes(Take(incoming, n).1) == StreamBytes(incoming)
  {
    if incoming != [] && incoming[0].Data? && |incoming[0].bytes| > n {
      var b := incoming[0].bytes;
      var rest := Take(incoming, n).1;
      assert rest[1..] == incoming[1..];
      assert b[..n] + b[n..] == b;
    }
  }

  /** A delivery of at most `n` bytes is received whole, as the protocol's framing assumes. */
  lemma TakeWhole(incoming: seq<Recv>, n: nat)
    requires n > 0 && incoming != []
    requires incoming[0].Data? ==> |incoming[0].bytes| <= n
    ensures Take(incoming, n) == (incoming[0], incoming[1..])
  {
  }
}
