/** The per-connection request handler of server.py (`handle_client`, lines 78-148) with its
    helpers `get_file_list` and the ratio of `compress_file`.

    A connection is observed as a trace of events: what each `recv` returned, what each `send`
    put on the wire, each call of `log_to_db` (the audit sink, append-only) and each attempt to
    remove the temporary archive, ending with the `conn.close()` of the `finally` clause.
    `Serve` is the trace the handler produces for a given sequence of deliveries from the client
    and given answers of the file system (`Env`); `Handler.HandleClient` is the handler's loop,
    proved to produce exactly that trace. */
module Server {
  import opened Wrappers
  import opened Utf8
  import opened Text
  import opened Transport
  import opened Protocol
  import opened FileList
  import opened Archive

  /** One row of the `download_log` table (its id and timestamp are the database's). The
      `compression_ratio` column is always the ratio of the two sizes, so it is derived here
      rather than stored. */
  datatype AuditEntry = AuditEntry(clientIp: string, filename: string, originalSize: nat,
                                   compressedSize: nat)
  {
    function Ratio(): real {
      CompressionRatio(originalSize, compressedSize)
    }
  }

  /** What one `conn.send` carries, by send site: the file list, the offer (built from the two
      sizes of the archive), the archive's size, one of the two `ERROR|` replies, a slice of the
      archive, or the end marker. */
  datatype Outbound =
    | FileListReply(listing: Option<seq<DirEntry>>)
    | Offer(originalSize: nat, compressedSize: nat)
    | SizeReply(size: nat)
    | NotFound
    | Failed(fault: Fault)
    | Chunk(bytes: seq<byte>)
    | FileEnd

  datatype Event =
    | Received(reading: Reading)       // what a `conn.recv(1024).decode('utf-8')` gave
    | Sent(out: Outbound)              // a `conn.send`
    | Logged(entry: AuditEntry)        // `log_to_db`
    | Removed(path: string, ok: bool)  // `os.remove(zip_path)`, and whether it succeeded
    | Closed                           // `conn.close()`

  /** The file system as the handler sees it while serving its k-th command: the directory
      listing (`None` when enumeration raises), the outcome of compressing a file (`None` when
      the file is missing or compression raises), and whether removing the archive succeeds. */
  datatype Env = Env(listing: nat -> Option<seq<DirEntry>>,
                     compress: (nat, string) -> Option<Archive>,
                     removeOk: nat -> bool)

  /** How the command loop dispatches on a received command. */
  datatype Command = Quit | ListFiles | Download(request: string) | Ignored

  function ParseCommand(text: string): (c: Command)
    ensures c.Quit? <==> text == "" || text == ExitCommand
    ensures c.ListFiles? <==> text == ListCommand
    ensures c.Download? <==> StartsWith(text, DownloadPrefix)
    ensures c.Download? ==> c.request == text
  {
    if text == "" then Quit
    else if text == ListCommand then ListFiles
    else if StartsWith(text, DownloadPrefix) then Download(text)
    else if text == ExitCommand then Quit
    else Ignored
  }

  /** The exceptions the download branch's `except Exception` catches: the unpacking of
      `command.split("|")` into two names, and a `recv` or UTF-8 decoding that raises. */
  datatype Fault = Unpack(fields: nat) | ReceiveFailed | NotUtf8

  /** `str(e)` for the fault; the texts of the last two stand for the socket's and the codec's
      own messages. */
  function FaultText(f: Fault): string {
    match f
    case Unpack(n) => if n < 2 then TooFewText() + Decimal(n) + ")" else TooManyText()
    case ReceiveFailed => ReceiveFailedText()
    case NotUtf8 => NotUtf8Text()
  }

  // The fixed texts of the error messages. None holds an `E`, so none can hold `ERROR|`. They are
  // functions rather than constants so that each `'E' !in` fact is proved once, next to its literal.

  function TooFewText(): (m: string)
    ensures 'E' !in m
  {
    var words, count := "not enough values to unpack", " (expected 2, got ";
    assert 'E' !in words && 'E' !in count;
    words + count
  }

  function TooManyText(): (m: string)
    ensures 'E' !in m
  {
    "too many values to unpack (expected 2)"
  }

  function ReceiveFailedText(): (m: string)
    ensures 'E' !in m
  {
    "connection error"
  }

  function NotUtf8Text(): (m: string)
    ensures 'E' !in m
  {
    "'utf-8' codec can't decode"
  }

  /** The message after `ERROR|` when the file is missing or cannot be compressed. */
  function NotFoundText(): (m: string)
    ensures 'E' !in m
  {
    "Файл не найден или ошибка сжатия"
  }

  const NotFoundReply := ErrorPrefix + NotFoundText()

  /** What the download branch's exception handler puts before `str(e)`. */
  function FailureText(): (m: string)
    ensures 'E' !in m
  {
    "Ошибка обработки запроса: "
  }

  function FaultReply(f: Fault): (s: string)
    ensures StartsWith(s, ErrorPrefix)
  {
    ErrorPrefix + FailureText() + FaultText(f)
  }

  /** The text of a reply sent with `.encode('utf-8')` (chunks and the end marker are raw bytes). */
  function ReplyText(o: Outbound): string
    requires !o.Chunk? && !o.FileEnd?
  {
    match o
    case FileListReply(listing) => EncodeFileList(listing)
    case Offer(originalSize, compressedSize) =>
      OfferText(originalSize, CompressionRatio(originalSize, compressedSize))
    case SizeReply(size) => Decimal(size)
    case NotFound => NotFoundReply
    case Failed(f) => FaultReply(f)
  }

  /** The bytes one send puts on the wire. */
  function WireBytes(o: Outbound): seq<byte> {
    match o
    case Chunk(b) => b
    case FileEnd => FileEndMarker
    case _ => Encode(ReplyText(o))
  }

  /** `conn.recv(1024).decode('utf-8')`: the text, or the fault it raises. */
  datatype Reading = Text(text: string) | Raised(fault: Fault)

  function Read(r: Recv): Reading {
    match r
    case Data(b) => (match Decode(b) case Some(t) => Text(t) case None => Raised(NotUtf8))
    case _ => Raised(ReceiveFailed)
  }

  /** The sends of the chunk loop, appended in order to the trace `acc`. */
  function Streamed(acc: seq<Event>, chunks: seq<seq<byte>>): seq<Event>
    decreases |chunks|
  {
    if chunks == [] then acc else Streamed(acc + [Sent(Chunk(chunks[0]))], chunks[1..])
  }

  /** Steps 5-8 once `SIZE_RECEIVED` has arrived, after the trace `acc`: every chunk, the end
      marker, the audit record and the removal attempt, in that order. */
  function Transfer(acc: seq<Event>, env: Env, clientIp: string, k: nat, filename: string,
                    a: Archive): seq<Event>
  {
    Streamed(acc, Chunks(a.data))
      + [Sent(FileEnd)]
      + [Logged(AuditEntry(clientIp, filename, a.originalSize, |a.data|))]
      + [Removed(a.path, env.removeOk(k))]
  }

  /** From the `recv` that awaits `SIZE_RECEIVED` on: the trace and the deliveries left. */
  function AfterSize(acc: seq<Event>, env: Env, clientIp: string, k: nat, filename: string,
                     a: Archive, rest: seq<Recv>): (x: (seq<Event>, seq<Recv>))
    ensures Weight(x.1) <= Weight(rest)
  {
    var (ack, rest') := Take(rest, ControlReadSize);
    var acc' := acc + [Received(Read(ack))];
    match Read(ack)
    case Raised(f) => (acc' + [Sent(Failed(f))], rest')
    case Text(t) => (if t == SizeReceived then Transfer(acc', env, clientIp, k, filename, a) else acc', rest')
  }

  /** Steps 2-8 for an archive the oracle produced: the offer, then `READY`, the size and the
      transfer. */
  function Handshake(acc: seq<Event>, env: Env, clientIp: string, k: nat, filename: string,
                     a: Archive, rest: seq<Recv>): (x: (seq<Event>, seq<Recv>))
    ensures Weight(x.1) <= Weight(rest)
  {
    var offered := acc + [Sent(Offer(a.originalSize, |a.data|))];
    var (response, rest1) := Take(rest, ControlReadSize);
    var answered := offered + [Received(Read(response))];
    match Read(response)
    case Raised(f) => (answered + [Sent(Failed(f))], rest1)
    case Text(t) =>
      if t != Ready then (answered, rest1)
      else AfterSize(answered + [Sent(SizeReply(|a.data|))], env, clientIp, k, filename, a, rest1)
  }

  /** The `DOWNLOAD` branch for the k-th command. */
  function Exchange(acc: seq<Event>, env: Env, clientIp: string, k: nat, request: string,
                    rest: seq<Recv>): (x: (seq<Event>, seq<Recv>))
    ensures Weight(x.1) <= Weight(rest)
  {
    var fields := Split(request, '|');
    if |fields| != 2 then (acc + [Sent(Failed(Unpack(|fields|)))], rest)
    else
      match env.compress(k, fields[1])
      case None => (acc + [Sent(NotFound)], rest)
      case Some(a) => Handshake(acc, env, clientIp, k, fields[1], a, rest)
  }

  /** One turn of the command loop after the k-th command was read as `m` (already on `acc`):
      the trace, and the deliveries left if the loop goes on (`None` when it closes). */
  function Step(acc: seq<Event>, env: Env, clientIp: string, k: nat, m: Recv,
                rest: seq<Recv>): (x: (seq<Event>, Option<seq<Recv>>))
    ensures x.1.Some? ==> Weight(x.1.value) <= Weight(rest) && m != Data([])
  {
    match Read(m)
    case Raised(_) => (acc + [Closed], None)
    case Text(command) =>
      assert m == Data([]) ==> command == "" by {
        if m == Data([]) { assert Decode([]) == Some([]); }
      }
      match ParseCommand(command)
      case Quit => (acc + [Closed], None)
      case ListFiles => (acc + [Sent(FileListReply(env.listing(k)))], Some(rest))
      case Download(request) =>
        var (t, rest') := Exchange(acc, env, clientIp, k, request, rest);
        (t, Some(rest'))
      case Ignored => (acc, Some(rest))
  }

  /** The whole trace of a connection after the trace `acc`, when the next command read from
      `inbound` is the k-th. */
  function Serve(acc: seq<Event>, env: Env, clientIp: string, k: nat, inbound: seq<Recv>): seq<Event>
    decreases Weight(inbound)
  {
    var (m, rest) := Take(inbound, ControlReadSize);
    var (t, next) := Step(acc + [Received(Read(m))], env, clientIp, k, m, rest);
    if next.Some? then Serve(t, env, clientIp, k + 1, next.value) else t
  }

  /** The trace of a whole connection. */
  function Connection(env: Env, clientIp: string, inbound: seq<Recv>): seq<Event> {
    Serve([], env, clientIp, 0, inbound)
  }

  /** One connection being served: the socket's undelivered input, the trace so far and the
      number of commands read. */
  class Handler {
    const env: Env
    const clientIp: string
    var incoming: seq<Recv>
    var trace: seq<Event>
    var commands: nat

    constructor (env: Env, clientIp: string, incoming: seq<Recv>)
      ensures this.env == env && this.clientIp == clientIp
      ensures this.incoming == incoming && trace == [] && commands == 0
    {
      this.env := env;
      this.clientIp := clientIp;
      this.incoming := incoming;
      trace := [];
      commands := 0;
    }

    /** `conn.recv(1024)`. */
    method Receive() returns (r: Recv)
      modifies this
      ensures (r, incoming) == Take(old(incoming), ControlReadSize)
      ensures trace == old(trace) + [Received(Read(r))] && commands == old(commands)
    {
      var taken := Take(incoming, ControlReadSize);
      r := taken.0;
      incoming := taken.1;
      trace := trace + [Received(Read(r))];
    }

    /** `conn.send(...)`. */
    method Send(o: Outbound)
      modifies this
      ensures trace == old(trace) + [Sent(o)]
      ensures incoming == old(incoming) && commands == old(commands)
    {
      trace := trace + [Sent(o)];
    }

    /** The chunk loop: `file_data[i:i + 8192]` for each `i` in `range(0, file_size, 8192)`,
        summing what was sent into `total_sent`. */
    method SendChunks(data: seq<byte>) returns (totalSent: nat)
      modifies this
      ensures trace == Streamed(old(trace), Chunks(data))
      ensures totalSent == |data|
      ensures incoming == old(incoming) && commands == old(commands)
    {
      totalSent := 0;
      var i := 0;
      while i < |data|
        invariant 0 <= totalSent <= |data| && totalSent <= i
        invariant totalSent < |data| ==> i == totalSent
        invariant Streamed(trace, Chunks(data[totalSent..])) == Streamed(old(trace), Chunks(data))
        invariant incoming == old(incoming) && commands == old(commands)
      {
        var end := if i + ChunkSize <= |data| then i + ChunkSize else |data|;
        var chunk := data[i..end];
        StreamedStep(trace, data, i);
        Send(Chunk(chunk));
        totalSent := totalSent + |chunk|;
        i := i + ChunkSize;
      }
      assert data[totalSent..] == [];
    }

    /** Steps 5-8 of the handshake once `SIZE_RECEIVED` has arrived. */
    method CompleteTransfer(filename: string, a: Archive)
      modifies this
      ensures trace == Transfer(old(trace), env, clientIp, commands, filename, a)
      ensures incoming == old(incoming) && commands == old(commands)
    {
      var sent := SendChunks(a.data);
      Send(FileEnd);
      trace := trace + [Logged(AuditEntry(clientIp, filename, a.originalSize, |a.data|))];
      var removed := env.removeOk(commands);
      trace := trace + [Removed(a.path, removed)];
    }

    /** Step 4 onwards: wait for `SIZE_RECEIVED`, then transfer; a failed read is answered
        with an `ERROR|` reply and any other reply abandons the transfer. */
    method AwaitAcknowledgement(filename: string, a: Archive)
      modifies this
      ensures (trace, incoming) == AfterSize(old(trace), env, clientIp, commands, filename, a, old(incoming))
      ensures commands == old(commands)
    {
      var ack := Receive();
      match Read(ack)
      case Raised(f) =>
        Send(Failed(f));
      case Text(t) =>
        if t == SizeReceived {
          CompleteTransfer(filename, a);
        }
    }

    /** Steps 2-8: offer, wait for `READY`, send the size, then await the acknowledgement. */
    method OfferArchive(filename: string, a: Archive)
      modifies this
      ensures (trace, incoming) == Handshake(old(trace), env, clientIp, commands, filename, a, old(incoming))
      ensures commands == old(commands)
    {
      Send(Offer(a.originalSize, |a.data|));
      var response := Receive();
      match Read(response)
      case Raised(f) =>
        Send(Failed(f));
      case Text(t) =>
        if t == Ready {
          Send(SizeReply(|a.data|));
          AwaitAcknowledgement(filename, a);
        }
    }

    /** The `DOWNLOAD` branch: split the request into two fields, compress, then the handshake. */
    method HandleDownload(request: string)
      modifies this
      ensures (trace, incoming) == Exchange(old(trace), env, clientIp, commands, request, old(incoming))
      ensures commands == old(commands)
    {
      var fields := Split(request, '|');
      if |fields| != 2 {
        Send(Failed(Unpack(|fields|)));
        return;
      }
      var archive := env.compress(commands, fields[1]);
      if archive.None? {
        Send(NotFound);
        return;
      }
      OfferArchive(fields[1], archive.value);
    }

    /** Dispatch on a command that was just read. */
    method HandleCommand(m: Recv) returns (goOn: bool)
      modifies this
      ensures var x := Step(old(trace), env, clientIp, commands, m, old(incoming));
              trace == x.0 && goOn == x.1.Some? && (goOn ==> incoming == x.1.value)
      ensures commands == old(commands)
    {
      goOn := true;
      match Read(m)
      case Raised(_) =>
        trace := trace + [Closed];
        goOn := false;
      case Text(command) =>
        match ParseCommand(command)
        case Quit =>
          trace := trace + [Closed];
          goOn := false;
        case ListFiles =>
          Send(FileListReply(env.listing(commands)));
        case Download(request) =>
          HandleDownload(request);
        case Ignored =>
    }

    /** One iteration of the command loop: read a command, dispatch on it, count it. */
    method Turn() returns (goOn: bool)
      modifies this
      ensures goOn ==> Serve(old(trace), env, clientIp, old(commands), old(incoming))
                       == Serve(trace, env, clientIp, commands, incoming)
      ensures !goOn ==> trace == Serve(old(trace), env, clientIp, old(commands), old(incoming))
      ensures goOn ==> Weight(incoming) < Weight(old(incoming))
    {
      var m := Receive();
      goOn := HandleCommand(m);
      if goOn {
        commands := commands + 1;
      }
    }

    /** `handle_client`: read commands until the client closes, sends `EXIT`, or a read fails;
        then close the connection. */
    method HandleClient()
      modifies this
      ensures trace == Serve(old(trace), env, clientIp, old(commands), old(incoming))
    {
      var goOn := true;
      while goOn
        invariant goOn ==> Serve(old(trace), env, clientIp, old(commands), old(incoming))
                           == Serve(trace, env, clientIp, commands, incoming)
        invariant !goOn ==> trace == Serve(old(trace), env, clientIp, old(commands), old(incoming))
        decreases if goOn then Weight(incoming) + 1 else 0
      {
        goOn := Turn();
      }
    }
  }

  /** One step of the chunk loop: the chunk at offset `i` is the next one streamed. */
  lemma StreamedStep(acc: seq<Event>, data: seq<byte>, i: nat)
    requires i < |data|
    ensures var end := if i + ChunkSize <= |data| then i + ChunkSize else |data|;
            Streamed(acc, Chunks(data[i..]))
            == Streamed(acc + [Sent(Chunk(data[i..end]))], Chunks(data[end..]))
  {
    var end := if i + ChunkSize <= |data| then i + ChunkSize else |data|;
    var chunk := data[i..end];
    var cs := Chunks(data[i..]);
    assert cs == [chunk] + Chunks(data[end..]) by {
      if |data[i..]| <= ChunkSize {
        assert chunk == data[i..] && data[end..] == [];
      } else {
        assert data[i..][..ChunkSize] == chunk && data[i..][ChunkSize..] == data[end..];
      }
    }
    assert cs[0] == chunk && cs[1..] == Chunks(data[end..]);
  }
}
