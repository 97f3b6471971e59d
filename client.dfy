/** The client's side (client.py): refreshing the file table over the listing connection
    (`get_files`), the `stop` flag set by `start_download` / `cancel_download`, and the download
    engine `download`, which runs the handshake on a connection of its own, writes the payload
    into a file of the output directory and ends cancelled, refused, failed or downloaded.

    The user's clicks on "Cancel" come from another thread; they are an oracle: before each
    check of `stop`, the next entry of `clicks` says whether `cancel_download` ran since the
    previous check. The output directory is a map from path to contents. */
module Client {
  import opened Wrappers
  import opened Utf8
  import opened Text
  import opened Transport
  import opened Protocol
  import opened FileList

  /** One TCP connection as the client uses it: what is still to arrive, the text messages
      sent so far, whether `close` was called, and, for every `recv` so far, the size asked
      and what it returned. */
  class Socket {
    var incoming: seq<Recv>
    var sent: seq<string>
    var closed: bool
    ghost var requests: seq<nat>
    ghost var returned: seq<Recv>

    constructor (incoming: seq<Recv>)
      ensures this.incoming == incoming && sent == [] && !closed && requests == [] && returned == []
    {
      this.incoming := incoming;
      sent := [];
      closed := false;
      requests := [];
      returned := [];
    }

    /** `sock.send(text.encode('utf-8'))`. */
    method Send(text: string)
      modifies this
      ensures sent == old(sent) + [text]
      ensures incoming == old(incoming) && closed == old(closed)
      ensures requests == old(requests) && returned == old(returned)
    {
      sent := sent + [text];
    }

    /** `sock.recv(n)`. */
    method Receive(n: nat) returns (r: Recv)
      requires n > 0
      modifies this
      ensures (r, incoming) == Take(old(incoming), n)
      ensures requests == old(requests) + [n] && returned == old(returned) + [r]
      ensures sent == old(sent) && closed == old(closed)
    {
      var taken := Take(incoming, n);
      r, incoming := taken.0, taken.1;
      requests := requests + [n];
      returned := returned + [r];
    }

    /** `sock.close()`. */
    method Close()
      modifies this
      ensures closed
      ensures incoming == old(incoming) && sent == old(sent)
      ensures requests == old(requests) && returned == old(returned)
    {
      closed := true;
    }
  }

  /** A control reply as `download` sees it: the decoded text, a `socket.timeout`, or any other
      error raised by `recv` or by the decoding. */
  datatype Reply = Got(text: string) | RecvTimedOut | Broken(problem: Problem)

  /** The exceptions that end a download with the "Error" status. */
  datatype Problem =
    | ConnectionLost                            // `recv` raised something other than a timeout
    | NotText                                   // the reply is not UTF-8
    | BadOffer                                  // `int(...)` or `float(...)` on an offer field raised
    | InvalidSize(text: string)                 // `Invalid size: ...`
    | SizeMismatch(expected: nat, actual: nat)  // `Size error: expected ..., got ...`

  function Decoded(r: Recv): Reply {
    match r
    case Timeout => RecvTimedOut
    case Failure => Broken(ConnectionLost)
    case Data(b) => match Decode(b) case Some(t) => Got(t) case None => Broken(NotText)
  }

  /** The figures of an offer: original size, compressed size and ratio. */
  datatype Offer = Offer(original: int, compressed: int, ratio: real)
  {
    /** `saved = orig - comp`. */
    function Saved(): int {
      original - compressed
    }
  }

  datatype OfferReply =
    | Accept(offer: Offer)      // `SUCCESS...`: the download goes on
    | Refuse(message: string)   // anything else: the error text shown to the user
    | Malformed                 // a `SUCCESS` offer whose fields do not convert

  /** How `download` reads the reply to its request. */
  function ParseOffer(response: string): (r: OfferReply)
    ensures r.Refuse? <==> !StartsWith(response, SuccessPrefix)
    ensures r.Refuse? ==> r.message == ReplaceAll(response, ErrorPrefix, "")
    ensures StartsWith(response, SuccessPrefix) && |Split(response, '|')| < 4 ==> r == Accept(Offer(0, 0, 0.0))
  {
    if StartsWith(response, SuccessPrefix) then
      var parts := Split(response, '|');
      if |parts| >= 4 then
        match (ParseInt(parts[1]), ParseInt(parts[2]), ParseFloat(parts[3]))
        case (Some(original), Some(compressed), Some(ratio)) => Accept(Offer(original, compressed, ratio))
        case _ => Malformed
      else Accept(Offer(0, 0, 0.0))
    else Refuse(ReplaceAll(response, ErrorPrefix, ""))
  }

  /** `size_data.isdigit()` followed by `int(size_data)`. */
  function ValidSize(text: string): (r: Option<nat>)
    ensures r.Some? <==> IsDecimal(text)
  {
    if IsDecimal(text) then Some(DigitsValue(text)) else None
  }

  /** The three messages a download sends, in order. */
  function Requests(filename: string): seq<string> {
    [DownloadPrefix + "|" + filename, Ready, SizeReceived]
  }

  /** Whether the receive loop ran to the declared size, or why it stopped early. */
  datatype LoopExit = Complete | StopSeen | PeerClosed | ReceiveError

  /** `min(8192, remaining)`: how many bytes one turn of the receive loop asks for. */
  function ChunkWant(missing: int): int {
    if missing < ChunkSize then missing else ChunkSize
  }

  /** How many payload bytes the first `n` of the reads `rs` returned. */
  function Received(rs: seq<Recv>, n: nat): nat
    requires n <= |rs|
  {
    if n == 0 then 0 else Received(rs, n - 1) + |DataBytes(rs[n - 1])|
  }

  /** Later reads do not change what the earlier ones returned. */
  lemma {:induction false} ReceivedOfPrefix(rs: seq<Recv>, more: seq<Recv>, n: nat)
    requires n <= |rs|
    ensures Received(rs + more, n) == Received(rs, n)
  {
    if n > 0 {
      ReceivedOfPrefix(rs, more, n - 1);
      assert (rs + more)[n - 1] == rs[n - 1];
    }
  }

  /** Dropping the first `k` elements commutes with appending one. */
  lemma SliceOfSnoc<T>(s: seq<T>, k: nat, x: T, t: seq<T>)
    requires k <= |s| && t == s + [x]
    ensures t[k..] == s[k..] + [x]
  {
  }

  /** Each of the first `n` requests `asks` asked for `min(8192, total - r)` bytes, where `r`
      counts the bytes the reads before it returned; `rs` are the results, one per request. */
  ghost predicate AskedForMissing(rs: seq<Recv>, asks: seq<int>, total: nat, n: nat)
    requires n <= |rs| && n <= |asks|
  {
    n > 0 ==>
      && AskedForMissing(rs, asks, total, n - 1)
      && asks[n - 1] == ChunkWant(total - Received(rs, n - 1))
  }

  /** What `AskedForMissing` says, request by request. */
  lemma {:induction false} AskedForEach(rs: seq<Recv>, asks: seq<int>, total: nat, n: nat)
    requires n <= |rs| && n <= |asks| && AskedForMissing(rs, asks, total, n)
    ensures forall i :: 0 <= i < n ==> asks[i] == ChunkWant(total - Received(rs, i))
  {
    if n > 0 {
      AskedForEach(rs, asks, total, n - 1);
    }
  }

  /** Later requests do not change what the earlier ones asked for. */
  lemma {:induction false} AskedOfPrefix(rs: seq<Recv>, asks: seq<int>, total: nat, r: Recv, w: int, n: nat)
    requires n <= |rs| && n <= |asks| && AskedForMissing(rs, asks, total, n)
    ensures AskedForMissing(rs + [r], asks + [w], total, n)
  {
    if n > 0 {
      AskedOfPrefix(rs, asks, total, r, w, n - 1);
      ReceivedOfPrefix(rs, [r], n - 1);
      assert (asks + [w])[n - 1] == asks[n - 1];
    }
  }

  /** One more request for what is still missing, and its result. */
  lemma AskedOneMore(rs: seq<Recv>, asks: seq<int>, total: nat, r: Recv)
    requires |rs| == |asks| && AskedForMissing(rs, asks, total, |rs|)
    ensures AskedForMissing(rs + [r], asks + [ChunkWant(total - Received(rs, |rs|))], total, |rs| + 1)
    ensures Received(rs + [r], |rs| + 1) == Received(rs, |rs|) + |DataBytes(r)|
  {
    AskedOfPrefix(rs, asks, total, r, ChunkWant(total - Received(rs, |rs|)), |rs|);
    ReceivedOfPrefix(rs, [r], |rs|);
  }

  /** A `recv` result that ends the receive loop: an empty read or an error other than a timeout. */
  predicate Ends(r: Recv) {
    r == Data([]) || r.Failure?
  }

  datatype Outcome =
    | Cancelled                  // "Cancelled"
    | Refused(message: string)   // the error box with the server's message
    | TimedOut                   // "Timeout"
    | Failed(problem: Problem)   // "Error"
    | Downloaded(offer: Offer, size: nat)

  /** `f"{filename}_{time_str}.zip"`, the file a download is saved to; the time stamp comes from
      the clock. */
  function SaveName(filename: string, stamp: string): string {
    filename + "_" + stamp + ".zip"
  }

  /** Whether the check of `stop` made next sees it set. */
  function NextCheck(stop: bool, clicks: seq<bool>): bool {
    stop || (clicks != [] && clicks[0])
  }

  /** The clicks still to come once a check has happened. */
  function Rest(clicks: seq<bool>): seq<bool> {
    if clicks == [] then [] else clicks[1..]
  }

  /** The clicks still to come after `n` more checks. */
  function Drop(clicks: seq<bool>, n: nat): seq<bool>
    decreases n
  {
    if n == 0 then clicks else Drop(Rest(clicks), n - 1)
  }

  /** Whether `stop` is set after `n` more checks. */
  function StopAfter(stop: bool, clicks: seq<bool>, n: nat): bool
    decreases n
  {
    if n == 0 then stop else StopAfter(NextCheck(stop, clicks), Rest(clicks), n - 1)
  }

  /** One more check at the end. */
  lemma {:induction false} StopAfterStep(stop: bool, clicks: seq<bool>, n: nat)
    ensures StopAfter(stop, clicks, n + 1) == NextCheck(StopAfter(stop, clicks, n), Drop(clicks, n))
    ensures Drop(clicks, n + 1) == Rest(Drop(clicks, n))
    decreases n
  {
    if n > 0 {
      StopAfterStep(NextCheck(stop, clicks), Rest(clicks), n - 1);
    }
  }

  /** One more check at the start. */
  lemma FirstCheck(stop: bool, clicks: seq<bool>, n: nat)
    ensures StopAfter(stop, clicks, n + 1) == StopAfter(NextCheck(stop, clicks), Rest(clicks), n)
    ensures Drop(clicks, n + 1) == Drop(Rest(clicks), n)
  {
  }

  /** After `n` checks, `stop` is set exactly when it was set before or "Cancel" was clicked
      before one of them. */
  lemma {:induction false} StopAfterClicked(stop: bool, clicks: seq<bool>, n: nat)
    ensures StopAfter(stop, clicks, n) <==> stop || true in clicks[..if n < |clicks| then n else |clicks|]
    decreases n
  {
    if n > 0 {
      StopAfterClicked(NextCheck(stop, clicks), Rest(clicks), n - 1);
      if clicks != [] {
        var m := if n < |clicks| then n else |clicks|;
        assert clicks[..m] == [clicks[0]] + Rest(clicks)[..m - 1];
      }
    }
  }

  /** The reply to the request a download starts with, read from what the connection will deliver. */
  function FirstReply(incoming: seq<Recv>): Reply {
    Decoded(Take(incoming, ControlReadSize).0)
  }

  /** Bytes moved from the connection to the file keep their place in the stream. */
  lemma StreamRegroup(all: seq<byte>, written: seq<byte>, got: seq<byte>, rest: seq<byte>, before: seq<byte>)
    requires all == written + before && before == got + rest
    ensures all == (written + got) + rest
  {
  }

  /** What the file holds after the loop is the start of what was to arrive. */
  lemma PrefixOfStream(all: seq<byte>, written: seq<byte>, rest: seq<byte>)
    requires all == written + rest
    ensures |written| <= |all| && written == all[..|written|]
  {
  }

  class FileDownloaderClient {
    /** The rows of the file table. */
    var tree: seq<Row>
    var stop: bool
    /** Whether "Cancel" is clicked before each of the coming checks of `stop`. */
    var clicks: seq<bool>
    /** The output directory. */
    var files: map<string, seq<byte>>
    /** How many times `stop` has been checked. */
    ghost var checks: nat
    /** `self.socket`, the connection used for `LIST`. */
    const listing: Socket

    constructor (listing: Socket, clicks: seq<bool>, files: map<string, seq<byte>>)
      ensures this.listing == listing && this.clicks == clicks && this.files == files
      ensures tree == [] && !stop && checks == 0
    {
      this.listing := listing;
      this.clicks := clicks;
      this.files := files;
      tree := [];
      stop := false;
      checks := 0;
    }

    /** `get_files`: send `LIST`, read the reply and fill the table from it. `found` is the
        count shown, or `None` when an error was reported. */
    method GetFiles() returns (found: Option<nat>)
      modifies this, listing
      ensures listing.sent == old(listing.sent) + [ListCommand]
      ensures var (r, rest) := Take(old(listing.incoming), ListReadSize);
              listing.incoming == rest
              && match Decoded(r)
                 case Got(data) =>
                   var parsed := ParseFileList(data);
                   tree == parsed.rows && found == (if parsed.complete then Some(|tree|) else None)
                 case _ => tree == old(tree) && found == None
      ensures listing.closed == old(listing.closed)
      ensures stop == old(stop) && clicks == old(clicks) && files == old(files)
    {
      listing.Send(ListCommand);
      var r := listing.Receive(ListReadSize);
      var reply := Decoded(r);
      if !reply.Got? {
        found := None;
        return;
      }
      found := FillTable(reply.text);
    }

    /** The table refresh proper: clear the table, then insert a row for every `name|size`
        item, counting them; an item with more than one `|` ends the refresh with an error and
        leaves the rows inserted before it. An empty reply shows "No files". */
    method FillTable(data: string) returns (found: Option<nat>)
      modifies this
      ensures tree == ParseFileList(data).rows
      ensures found == if ParseFileList(data).complete then Some(|tree|) else None
      ensures stop == old(stop) && clicks == old(clicks) && files == old(files)
    {
      tree := [];
      if data == "" {
        found := Some(0);
        return;
      }
      var items := Split(data, ';');
      var count := 0;
      var i := 0;
      while i < |items|
        invariant 0 <= i <= |items|
        invariant count == |tree|
        invariant ParseItems(items) == ListResult(tree + ParseItems(items[i..]).rows, ParseItems(items[i..]).complete)
        invariant stop == old(stop) && clicks == old(clicks) && files == old(files)
      {
        var item := items[i];
        assert items[i..][0] == item && items[i..][1..] == items[i + 1..];
        if '|' in item {
          var fields := Split(item, '|');
          if |fields| != 2 {
            found := None;
            return;
          }
          tree := tree + [Row(fields[0], fields[1])];
          count := count + 1;
        }
        i := i + 1;
      }
      assert items[i..] == [];
      found := Some(count);
    }

    /** `start_download`: with no row selected, only a warning; otherwise clear `stop` and
        start downloading the selected row's file. */
    method StartDownload(selected: Option<nat>) returns (filename: Option<string>)
      requires selected.Some? ==> selected.value < |tree|
      modifies this
      ensures tree == old(tree) && clicks == old(clicks) && files == old(files)
      ensures selected.None? ==> filename.None? && stop == old(stop)
      ensures selected.Some? ==> filename == Some(tree[selected.value].name) && !stop
    {
      if selected.None? {
        filename := None;
        return;
      }
      filename := Some(tree[selected.value].name);
      stop := false;
    }

    /** `cancel_download`. */
    method CancelDownload()
      modifies this
      ensures stop
      ensures tree == old(tree) && clicks == old(clicks) && files == old(files) && checks == old(checks)
    {
      stop := true;
    }

    /** One check of `stop`: the clicks since the previous check land first. */
    method CheckStop() returns (s: bool)
      modifies this
      ensures s == stop && stop == NextCheck(old(stop), old(clicks))
      ensures clicks == Rest(old(clicks)) && checks == old(checks) + 1
      ensures tree == old(tree) && files == old(files)
    {
      if clicks != [] {
        if clicks[0] {
          CancelDownload();
        }
        clicks := clicks[1..];
      }
      checks := checks + 1;
      s := stop;
    }

    /** The receive loop: while fewer than `total` bytes arrived, check `stop`, ask for at most
        8192 of the bytes still missing, and append what comes to the file; a timeout retries.
        The file and what is left on the connection together are exactly what was to arrive,
        and the checks and reads are as `LoopRecord` says. */
    method ReceivePayload(total: nat, savePath: string, sock: Socket) returns (received: nat, exit: LoopExit)
      requires savePath in files && files[savePath] == []
      modifies this, sock
      ensures savePath in files && |files[savePath]| == received <= total
      ensures files == old(files)[savePath := files[savePath]]
      ensures StreamBytes(old(sock.incoming)) == files[savePath] + StreamBytes(sock.incoming)
      ensures received <= |StreamBytes(old(sock.incoming))| && files[savePath] == StreamBytes(old(sock.incoming))[..received]
      ensures exit.Complete? <==> received == total
      ensures LoopRecord(sock, exit, total, received, old(stop), old(clicks), old(checks), |old(sock.returned)|, |old(sock.requests)|)
      ensures sock.sent == old(sock.sent) && sock.closed == old(sock.closed) && tree == old(tree)
    {
      ghost var stop0, clicks0, checks0 := stop, clicks, checks;
      ghost var returned0, requests0, stream := |sock.returned|, |sock.requests|, StreamBytes(sock.incoming);
      ghost var files0, sent0, closed0, tree0 := files, sock.sent, sock.closed, tree;
      received := 0;
      exit := Complete;
      NothingChecked(stop, clicks);
      LogEmpty(sock.returned[returned0..], sock.requests[requests0..], total);
      while received < total
        invariant savePath in files && |files[savePath]| == received <= total
        invariant files == files0[savePath := files[savePath]]
        invariant stream == files[savePath] + StreamBytes(sock.incoming)
        invariant exit == Complete
        invariant LoopRecord(sock, exit, total, received, stop0, clicks0, checks0, returned0, requests0)
        invariant sock.sent == sent0 && sock.closed == closed0 && tree == tree0
        decreases Weight(sock.incoming)
      {
        var got;
        got, exit := LoopTurn(total, received, savePath, sock, stop0, clicks0, checks0, returned0, requests0);
        if exit != Complete {
          break;
        }
        received := received + got;
      }
      PrefixOfStream(StreamBytes(old(sock.incoming)), files[savePath], StreamBytes(sock.incoming));
    }

    /** What the receive loop did, counted from the state at its start (`stop0`, `clicks0`,
        `checks0`, and the lengths `returned0` and `requests0` of the socket's logs): `stop` and
        the clicks are as its checks left them; every check that saw `stop` clear was followed
        by one `recv` of `min(8192, total - r)` bytes, `r` being the bytes the loop's earlier reads
        returned; and the loop stopped early exactly at the first check
        that saw `stop` (`StopSeen`), or at the first `recv` that returned nothing
        (`PeerClosed`) or failed (`ReceiveError`). */
    ghost predicate LoopRecord(sock: Socket, exit: LoopExit, total: nat, received: nat, stop0: bool,
                               clicks0: seq<bool>, checks0: nat, returned0: nat, requests0: nat)
      reads this, sock
    {
      && ChecksRecord(exit, stop0, clicks0, checks0)
      && returned0 <= |sock.returned| && requests0 <= |sock.requests|
      && ReadsRecord(sock.returned[returned0..], sock.requests[requests0..], exit, total, checks - checks0, received)
    }

    /** The record of the loop, from its two halves. */
    lemma Recorded(sock: Socket, exit: LoopExit, total: nat, received: nat, stop0: bool, clicks0: seq<bool>,
                   checks0: nat, returned0: nat, requests0: nat, rs: seq<Recv>, asks: seq<nat>)
      requires Checked(stop, clicks, checks - checks0, exit, stop0, clicks0)
      requires returned0 <= |sock.returned| && requests0 <= |sock.requests|
      requires sock.returned[returned0..] == rs && sock.requests[requests0..] == asks
      requires ReadsRecord(rs, asks, exit, total, checks - checks0, received)
      ensures LoopRecord(sock, exit, total, received, stop0, clicks0, checks0, returned0, requests0)
    {
    }

    /** The `stop` checks made since the loop began: `stop` as the clicks left it, and the loop
        left on a cancel exactly when the last check saw one. */
    ghost predicate ChecksRecord(exit: LoopExit, stop0: bool, clicks0: seq<bool>, checks0: nat)
      reads this
    {
      Checked(stop, clicks, checks - checks0, exit, stop0, clicks0)
    }

    /** After `n` checks from `stop0` and `clicks0`: `stop` and `clicks` are what the checks left,
        and the loop left on a cancel exactly when the last check, and no earlier one, saw one. */
    static ghost predicate Checked(stop: bool, clicks: seq<bool>, n: int, exit: LoopExit, stop0: bool, clicks0: seq<bool>)
    {
      && n >= 0
      && stop == StopAfter(stop0, clicks0, n)
      && clicks == Drop(clicks0, n)
      && (exit.StopSeen? <==> n > 0 && stop)
      && (exit.StopSeen? ==> n == 1 || !StopAfter(stop0, clicks0, n - 1))
    }

    /** One more check after the loop, however it ended. */
    static lemma CheckedThenOnce(stop0: bool, clicks0: seq<bool>, n: int, exit: LoopExit, stop: bool, clicks: seq<bool>,
                                 stop': bool, clicks': seq<bool>)
      requires Checked(stop, clicks, n, exit, stop0, clicks0)
      requires stop' == NextCheck(stop, clicks) && clicks' == Rest(clicks)
      ensures stop' == StopAfter(stop0, clicks0, n + 1) && clicks' == Drop(clicks0, n + 1)
      ensures exit.StopSeen? ==> stop'
    {
      StopAfterStep(stop0, clicks0, n);
    }

    /** Before the first check. */
    static lemma NothingChecked(stop: bool, clicks: seq<bool>)
      ensures Checked(stop, clicks, 0, Complete, stop, clicks)
    {
    }

    /** One more check, after `n` that all saw `stop` clear. */
    static lemma CheckedOnce(stop0: bool, clicks0: seq<bool>, n: int, stop: bool, clicks: seq<bool>,
                             stop': bool, clicks': seq<bool>, exit: LoopExit)
      requires Checked(stop, clicks, n, Complete, stop0, clicks0)
      requires stop' == NextCheck(stop, clicks) && clicks' == Rest(clicks) && (exit.StopSeen? <==> stop')
      ensures Checked(stop', clicks', n + 1, exit, stop0, clicks0)
    {
      StopAfterStep(stop0, clicks0, n);
    }

    /** The receives made since the loop began, after `turns` turns: the results `rs` of the
        requests `asks`, one per turn that was not cancelled, each asking for `min(8192, total - r)`
        bytes where `r` counts what the earlier reads returned, `received` bytes in all, and
        only the last one ending the loop. */
    static ghost predicate ReadsRecord(rs: seq<Recv>, asks: seq<nat>, exit: LoopExit, total: nat, turns: int,
                                       received: nat)
    {
      && |rs| == turns - (if exit.StopSeen? then 1 else 0)
      && (forall i :: 0 <= i < |rs| ==> (Ends(rs[i]) <==> i == |rs| - 1 && (exit.PeerClosed? || exit.ReceiveError?)))
      && (exit.PeerClosed? ==> |rs| > 0 && rs[|rs| - 1] == Data([]))
      && (exit.ReceiveError? ==> |rs| > 0 && rs[|rs| - 1] == Failure)
      && (forall i :: 0 <= i < |asks| ==> 0 < asks[i] <= ChunkSize)
      && |asks| == |rs| && AskedForMissing(rs, asks, total, |rs|)
      && Received(rs, |rs|) == received
    }

    /** Before the first read. */
    static lemma LogEmpty(rs: seq<Recv>, asks: seq<nat>, total: nat)
      requires rs == [] && asks == []
      ensures ReadsRecord(rs, asks, Complete, total, 0, 0)
    {
    }

    /** A turn that saw `stop` adds nothing to the logs. */
    static lemma LogCancelled(rs: seq<Recv>, asks: seq<nat>, total: nat, turns: int, received: nat, after: int)
      requires ReadsRecord(rs, asks, Complete, total, turns, received) && after == turns + 1
      ensures ReadsRecord(rs, asks, StopSeen, total, after, received)
    {
    }

    /** A turn that read `r` after asking for what was still missing logs both. */
    static lemma LogRead(rs: seq<Recv>, asks: seq<nat>, total: nat, turns: int, r: Recv, exit: LoopExit,
                         received: nat, rs': seq<Recv>, asks': seq<nat>, after: int)
      requires ReadsRecord(rs, asks, Complete, total, turns, received) && received < total
      requires !exit.StopSeen? && (exit.Complete? <==> !Ends(r))
      requires exit.PeerClosed? <==> r == Data([])
      requires rs' == rs + [r] && asks' == asks + [ChunkWant(total - received)] && after == turns + 1
      ensures ReadsRecord(rs', asks', exit, total, after, received + |DataBytes(r)|)
    {
      AskedOneMore(rs, asks, total, r);
    }

    /** One turn of the receive loop, as the loop's record sees it. */
    method LoopTurn(total: nat, received: nat, savePath: string, sock: Socket, ghost stop0: bool,
                    ghost clicks0: seq<bool>, ghost checks0: nat, ghost returned0: nat, ghost requests0: nat)
      returns (got: nat, exit: LoopExit)
      requires savePath in files && received < total
      requires LoopRecord(sock, Complete, total, received, stop0, clicks0, checks0, returned0, requests0)
      modifies this, sock
      ensures LoopRecord(sock, exit, total, received + got, stop0, clicks0, checks0, returned0, requests0)
      ensures checks > checks0
      ensures exit != Complete ==> got == 0 && files == old(files)
      ensures exit == Complete ==> got <= total - received && Weight(sock.incoming) < Weight(old(sock.incoming))
      ensures savePath in files && |files[savePath]| == |old(files[savePath])| + got
      ensures files == old(files)[savePath := files[savePath]]
      ensures old(files[savePath]) + StreamBytes(old(sock.incoming)) == files[savePath] + StreamBytes(sock.incoming)
      ensures sock.sent == old(sock.sent) && sock.closed == old(sock.closed) && tree == old(tree)
    {
      ghost var turns := checks - checks0;
      ghost var returned, requests := sock.returned, sock.requests;
      ghost var rs, asks := returned[returned0..], requests[requests0..];
      ghost var incoming := sock.incoming;
      ghost var stopBefore, clicksBefore := stop, clicks;
      got, exit := ReceiveChunk(total - received, savePath, sock);
      CheckedOnce(stop0, clicks0, turns, stopBefore, clicksBefore, stop, clicks, exit);
      if exit.StopSeen? {
        LogCancelled(rs, asks, total, turns, received, checks - checks0);
        Recorded(sock, exit, total, received, stop0, clicks0, checks0, returned0, requests0, rs, asks);
      } else {
        ghost var r := Take(incoming, ChunkWant(total - received)).0;
        ghost var rs', asks' := rs + [r], asks + [ChunkWant(total - received)];
        SliceOfSnoc(returned, returned0, r, sock.returned);
        SliceOfSnoc(requests, requests0, ChunkWant(total - received), sock.requests);
        LogRead(rs, asks, total, turns, r, exit, received, rs', asks', checks - checks0);
        Recorded(sock, exit, total, received + got, stop0, clicks0, checks0, returned0, requests0, rs', asks');
      }
    }

    /** One turn of the receive loop with `missing` bytes still to come: check `stop`, then
        `recv(min(8192, missing))` and append what arrives. */
    method ReceiveChunk(missing: nat, savePath: string, sock: Socket) returns (got: nat, exit: LoopExit)
      requires savePath in files && missing > 0
      modifies this, sock
      ensures stop == NextCheck(old(stop), old(clicks)) && clicks == Rest(old(clicks)) && checks == old(checks) + 1
      ensures exit.StopSeen? <==> stop
      ensures exit.StopSeen? ==>
                got == 0 && files == old(files) && sock.incoming == old(sock.incoming)
                && sock.requests == old(sock.requests) && sock.returned == old(sock.returned)
      ensures !exit.StopSeen? ==>
                var want := ChunkWant(missing);
                var r := Take(old(sock.incoming), want).0;
                sock.requests == old(sock.requests) + [want] && sock.returned == old(sock.returned) + [r]
                && (exit.Complete? <==> !Ends(r)) && (exit.PeerClosed? <==> r == Data([]))
                && got == |DataBytes(r)|
      ensures exit != Complete ==> got == 0 && files == old(files)
      ensures exit == Complete ==> got <= missing && Weight(sock.incoming) < Weight(old(sock.incoming))
      ensures savePath in files && |files[savePath]| == |old(files[savePath])| + got
      ensures files == old(files)[savePath := files[savePath]]
      ensures old(files[savePath]) + StreamBytes(old(sock.incoming)) == files[savePath] + StreamBytes(sock.incoming)
      ensures sock.sent == old(sock.sent) && sock.closed == old(sock.closed) && tree == old(tree)
    {
      got, exit := 0, Complete;
      var s := CheckStop();
      if s {
        exit := StopSeen;
        return;
      }
      got, exit := ReceiveInto(ChunkWant(missing), savePath, sock);
    }

    /** `data = sock.recv(want)`: a timeout appends nothing and the loop goes on, an empty read
        or another error ends the loop, and data is appended to the file. */
    method ReceiveInto(want: nat, savePath: string, sock: Socket) returns (got: nat, exit: LoopExit)
      requires savePath in files && want > 0
      modifies this, sock
      ensures var r := Take(old(sock.incoming), want).0;
              && sock.requests == old(sock.requests) + [want] && sock.returned == old(sock.returned) + [r]
              && (exit.Complete? <==> !Ends(r))
              && (exit.PeerClosed? <==> r == Data([]))
              && (exit.ReceiveError? <==> r.Failure?)
              && savePath in files && files[savePath] == old(files[savePath]) + DataBytes(r)
              && got == |DataBytes(r)|
      ensures exit != Complete ==> got == 0 && files == old(files)
      ensures exit == Complete ==> got <= want && Weight(sock.incoming) < Weight(old(sock.incoming))
      ensures savePath in files && |files[savePath]| == |old(files[savePath])| + got
      ensures files == old(files)[savePath := files[savePath]]
      ensures old(files[savePath]) + StreamBytes(old(sock.incoming)) == files[savePath] + StreamBytes(sock.incoming)
      ensures sock.sent == old(sock.sent) && sock.closed == old(sock.closed)
      ensures tree == old(tree) && stop == old(stop) && clicks == old(clicks) && checks == old(checks)
    {
      got, exit := 0, Complete;
      TakePreservesStream(sock.incoming, want);
      ghost var written := files[savePath];
      var r := sock.Receive(want);
      StreamRegroup(written + StreamBytes(old(sock.incoming)), written, DataBytes(r), StreamBytes(sock.incoming), StreamBytes(old(sock.incoming)));
      match r
      case Timeout =>
      case Failure =>
        exit := ReceiveError;
      case Data(b) =>
        if b == [] {
          exit := PeerClosed;
          return;
        }
        files := files[savePath := files[savePath] + b];
        got := |b|;
    }

    /** The part of `download` after an accepted offer: send `READY`, read and check the size,
        send `SIZE_RECEIVED`, receive the payload into a new file, read the end marker, and then
        either delete the file (when `stop` is set by now), report a size error, or succeed.
        The file always holds exactly the first payload bytes that followed the size reply. */
    method FetchFile(offer: Offer, savePath: string, sock: Socket) returns (outcome: Outcome)
      modifies this, sock
      ensures |old(sock.sent)| < |sock.sent| <= |old(sock.sent)| + 2
      ensures sock.sent == old(sock.sent) + [Ready, SizeReceived][..|sock.sent| - |old(sock.sent)|]
      ensures sock.closed == old(sock.closed) && tree == old(tree)
      ensures var sizeReply := Decoded(Take(old(sock.incoming), ControlReadSize).0);
              var payload := StreamBytes(Take(old(sock.incoming), ControlReadSize).1);
              && (|sock.sent| == |old(sock.sent)| + 2 <==> sizeReply.Got? && ValidSize(sizeReply.text).Some?)
              && (|sock.sent| == |old(sock.sent)| + 1 ==>
                   files == old(files) && checks == old(checks)
                   && outcome == match sizeReply
                                 case RecvTimedOut => TimedOut
                                 case Broken(p) => Failed(p)
                                 case Got(text) => Failed(InvalidSize(text)))
              && (outcome.Downloaded? ==>
                   outcome.offer == offer && sizeReply.Got?
                   && Some(outcome.size) == ValidSize(sizeReply.text)
                   && savePath in files && outcome.size <= |payload| && files[savePath] == payload[..outcome.size]
                   && files == old(files)[savePath := files[savePath]])
              && (outcome.Failed? && outcome.problem.SizeMismatch? ==>
                   sizeReply.Got? && Some(outcome.problem.expected) == ValidSize(sizeReply.text)
                   && outcome.problem.actual < outcome.problem.expected
                   && savePath in files && outcome.problem.actual <= |payload|
                   && files[savePath] == payload[..outcome.problem.actual]
                   && files == old(files)[savePath := files[savePath]])
      ensures checks >= old(checks)
      ensures stop == StopAfter(old(stop), old(clicks), checks - old(checks))
      ensures clicks == Drop(old(clicks), checks - old(checks))
      ensures |sock.sent| == |old(sock.sent)| + 2 ==> (outcome.Cancelled? <==> stop)
      ensures outcome.Cancelled? ==> |sock.sent| == |old(sock.sent)| + 2 && files == old(files) - {savePath} && stop
      ensures outcome.Downloaded? ==> !stop
      ensures !outcome.Refused?
      ensures outcome.TimedOut? || (outcome.Failed? && !outcome.problem.SizeMismatch?) ==> |sock.sent| == |old(sock.sent)| + 1
    {
      sock.Send(Ready);
      var r := sock.Receive(ControlReadSize);
      var sizeText: string;
      match Decoded(r)
      case RecvTimedOut =>
        outcome := TimedOut;
        return;
      case Broken(p) =>
        outcome := Failed(p);
        return;
      case Got(text) =>
        sizeText := text;
      var total := ValidSize(sizeText);
      if total.None? {
        outcome := Failed(InvalidSize(sizeText));
        return;
      }
      outcome := ReceiveFile(offer, total.value, savePath, sock);
    }

    /** From `SIZE_RECEIVED` on, with `total` bytes declared: open the file, run the receive
        loop, read the end marker, then check `stop` once more: when it is set by now (even when
        every byte arrived) the file is deleted and the download is cancelled; otherwise a short
        file is a size error (the file is kept), and a complete one a success. */
    method ReceiveFile(offer: Offer, total: nat, savePath: string, sock: Socket) returns (outcome: Outcome)
      modifies this, sock
      ensures sock.sent == old(sock.sent) + [SizeReceived]
      ensures sock.closed == old(sock.closed) && tree == old(tree)
      ensures outcome.Cancelled? || outcome.Downloaded? || (outcome.Failed? && outcome.problem.SizeMismatch?)
      ensures var payload := StreamBytes(old(sock.incoming));
              && (outcome.Downloaded? ==>
                   outcome == Downloaded(offer, total)
                   && savePath in files && total <= |payload| && files[savePath] == payload[..total]
                   && files == old(files)[savePath := files[savePath]])
              && (outcome.Failed? ==>
                   outcome.problem.expected == total && outcome.problem.actual < total
                   && savePath in files && outcome.problem.actual <= |payload|
                   && files[savePath] == payload[..outcome.problem.actual]
                   && files == old(files)[savePath := files[savePath]])
      ensures checks > old(checks)
      ensures stop == StopAfter(old(stop), old(clicks), checks - old(checks))
      ensures clicks == Drop(old(clicks), checks - old(checks))
      ensures outcome.Cancelled? <==> stop
      ensures outcome.Cancelled? ==> files == old(files) - {savePath}
      ensures !outcome.Cancelled? ==> checks - old(checks) == |sock.requests| - |old(sock.requests)|
    {
      sock.Send(SizeReceived);
      files := files[savePath := []];
      var received, exit := ReceivePayload(total, savePath, sock);
      ghost var n := checks - old(checks);
      ghost var asked := |sock.requests| - |old(sock.requests)|;
      ghost var stopped, clicksLeft := stop, clicks;
      assert asked == n - (if exit.StopSeen? then 1 else 0);
      assert Checked(stopped, clicksLeft, n, exit, old(stop), old(clicks));
      outcome := EndTransfer(offer, total, savePath, sock);
      CheckedThenOnce(old(stop), old(clicks), n, exit, stopped, clicksLeft, stop, clicks);
      assert checks - old(checks) == n + 1;
    }

    /** After the receive loop: read the end marker (whatever it holds), check `stop` once
        more, and then delete the file and cancel, or report a short file as a size error, or
        succeed. */
    method EndTransfer(offer: Offer, total: nat, savePath: string, sock: Socket) returns (outcome: Outcome)
      requires savePath in files
      modifies this, sock
      ensures stop == NextCheck(old(stop), old(clicks)) && clicks == Rest(old(clicks)) && checks == old(checks) + 1
      ensures sock.requests == old(sock.requests) + [ControlReadSize]
      ensures sock.sent == old(sock.sent) && sock.closed == old(sock.closed) && tree == old(tree)
      ensures outcome.Cancelled? <==> stop
      ensures outcome.Cancelled? ==> files == old(files) - {savePath}
      ensures !outcome.Cancelled? ==>
                files == old(files)
                && outcome == if |files[savePath]| == total then Downloaded(offer, total)
                              else Failed(SizeMismatch(total, |files[savePath]|))
    {
      var _ := sock.Receive(ControlReadSize);
      var s := CheckStop();
      if s {
        files := files - {savePath};
        outcome := Cancelled;
        return;
      }
      var actual := |files[savePath]|;
      if actual != total {
        outcome := Failed(SizeMismatch(total, actual));
        return;
      }
      outcome := Downloaded(offer, total);
    }

    /** `download(filename)` on a connected socket `sock`, with the clock's time stamp `stamp`:
        request the file, read the reply, and go on as `HandleResponse` does. Only the three
        requests are sent, in order and each only after its predecessor succeeded; nothing is
        written before `SIZE_RECEIVED` is sent; a cancel seen at the first check closes the
        connection having sent only the request; a cancel seen at the last check deletes the
        file; a download succeeds only with the file holding exactly the declared number of
        bytes that followed the size reply. */
    method Download(filename: string, stamp: string, sock: Socket) returns (outcome: Outcome)
      modifies this, sock
      ensures |old(sock.sent)| < |sock.sent| <= |old(sock.sent)| + 3
      ensures sock.sent == old(sock.sent) + Requests(filename)[..|sock.sent| - |old(sock.sent)|]
      ensures |sock.sent| < |old(sock.sent)| + 3 ==> files == old(files)
      ensures tree == old(tree)
      ensures var reply := FirstReply(old(sock.incoming));
              && (reply.RecvTimedOut? ==> outcome == TimedOut)
              && (reply.Broken? ==> outcome == Failed(reply.problem))
              && (reply.Got? && NextCheck(old(stop), old(clicks)) ==>
                   outcome == Cancelled && sock.closed && |sock.sent| == |old(sock.sent)| + 1)
              && (|sock.sent| > |old(sock.sent)| + 1 ==>
                   reply.Got? && !NextCheck(old(stop), old(clicks)) && ParseOffer(reply.text).Accept?)
              && (reply.Got? && !NextCheck(old(stop), old(clicks)) && ParseOffer(reply.text).Accept? ==>
                   |sock.sent| > |old(sock.sent)| + 1)
              && (reply.Got? && !NextCheck(old(stop), old(clicks)) && ParseOffer(reply.text).Malformed? ==>
                   outcome == Failed(BadOffer))
              && (outcome.Refused? <==> reply.Got? && !NextCheck(old(stop), old(clicks)) && ParseOffer(reply.text).Refuse?)
              && (outcome.Refused? ==> outcome.message == ParseOffer(reply.text).message && sock.closed)
      ensures var rest := Take(old(sock.incoming), ControlReadSize).1;
              var sizeReply := Decoded(Take(rest, ControlReadSize).0);
              var payload := StreamBytes(Take(rest, ControlReadSize).1);
              var reply := FirstReply(old(sock.incoming));
              outcome.Downloaded? ==>
                |sock.sent| == |old(sock.sent)| + 3 && sock.closed
                && reply.Got? && ParseOffer(reply.text).Accept? && outcome.offer == ParseOffer(reply.text).offer
                && sizeReply.Got? && Some(outcome.size) == ValidSize(sizeReply.text)
                && SaveName(filename, stamp) in files && outcome.size <= |payload|
                && files[SaveName(filename, stamp)] == payload[..outcome.size]
                && files == old(files)[SaveName(filename, stamp) := files[SaveName(filename, stamp)]]
      ensures checks >= old(checks)
      ensures stop == StopAfter(old(stop), old(clicks), checks - old(checks))
      ensures clicks == Drop(old(clicks), checks - old(checks))
      ensures |sock.sent| == |old(sock.sent)| + 3 ==> (outcome.Cancelled? <==> stop)
      ensures outcome.Downloaded? ==> !stop
      ensures outcome.Cancelled? && |sock.sent| == |old(sock.sent)| + 3 ==>
                files == old(files) - {SaveName(filename, stamp)} && sock.closed == old(sock.closed)
      ensures outcome.Failed? && outcome.problem.SizeMismatch? ==>
                SaveName(filename, stamp) in files && |files[SaveName(filename, stamp)]| == outcome.problem.actual
                && sock.closed == old(sock.closed)
      ensures outcome.TimedOut? || (outcome.Failed? && !outcome.problem.SizeMismatch?) ==>
                files == old(files) && sock.closed == old(sock.closed)
    {
      sock.Send(DownloadPrefix + "|" + filename);
      var r := sock.Receive(ControlReadSize);
      match Decoded(r)
      case RecvTimedOut =>
        outcome := TimedOut;
      case Broken(p) =>
        outcome := Failed(p);
      case Got(text) =>
        ghost var sent := sock.sent;
        outcome := HandleResponse(text, filename, stamp, sock);
        assert sock.sent == old(sock.sent) + Requests(filename)[..|sock.sent| - |old(sock.sent)|] by {
          assert sock.sent == sent + [Ready, SizeReceived][..|sock.sent| - |sent|];
        }
    }

    /** What `download` does with the reply `response` to its request: check `stop` (a cancel
        closes the connection), then refuse (showing the message, closing the connection), fail
        on a malformed offer, or fetch the file and close the connection on success. */
    method HandleResponse(response: string, filename: string, stamp: string, sock: Socket) returns (outcome: Outcome)
      modifies this, sock
      ensures |old(sock.sent)| <= |sock.sent| <= |old(sock.sent)| + 2
      ensures sock.sent == old(sock.sent) + [Ready, SizeReceived][..|sock.sent| - |old(sock.sent)|]
      ensures |sock.sent| < |old(sock.sent)| + 2 ==> files == old(files)
      ensures tree == old(tree)
      ensures NextCheck(old(stop), old(clicks)) ==> outcome == Cancelled && sock.closed && sock.sent == old(sock.sent)
      ensures |sock.sent| > |old(sock.sent)| <==> !NextCheck(old(stop), old(clicks)) && ParseOffer(response).Accept?
      ensures !NextCheck(old(stop), old(clicks)) && ParseOffer(response).Malformed? ==> outcome == Failed(BadOffer)
      ensures outcome.Refused? <==> !NextCheck(old(stop), old(clicks)) && ParseOffer(response).Refuse?
      ensures outcome.Refused? ==> outcome.message == ParseOffer(response).message && sock.closed
      ensures var sizeReply := Decoded(Take(old(sock.incoming), ControlReadSize).0);
              var payload := StreamBytes(Take(old(sock.incoming), ControlReadSize).1);
              outcome.Downloaded? ==>
                |sock.sent| == |old(sock.sent)| + 2 && sock.closed
                && ParseOffer(response).Accept? && outcome.offer == ParseOffer(response).offer
                && sizeReply.Got? && Some(outcome.size) == ValidSize(sizeReply.text)
                && SaveName(filename, stamp) in files && outcome.size <= |payload|
                && files[SaveName(filename, stamp)] == payload[..outcome.size]
                && files == old(files)[SaveName(filename, stamp) := files[SaveName(filename, stamp)]]
      ensures checks > old(checks)
      ensures stop == StopAfter(old(stop), old(clicks), checks - old(checks))
      ensures clicks == Drop(old(clicks), checks - old(checks))
      ensures |sock.sent| == |old(sock.sent)| + 2 ==> (outcome.Cancelled? <==> stop)
      ensures outcome.Downloaded? ==> !stop
      ensures outcome.Cancelled? && |sock.sent| == |old(sock.sent)| + 2 ==>
                files == old(files) - {SaveName(filename, stamp)} && sock.closed == old(sock.closed)
      ensures outcome.Failed? && outcome.problem.SizeMismatch? ==>
                SaveName(filename, stamp) in files && |files[SaveName(filename, stamp)]| == outcome.problem.actual
                && sock.closed == old(sock.closed)
      ensures outcome.TimedOut? || (outcome.Failed? && !outcome.problem.SizeMismatch?) ==>
                files == old(files) && sock.closed == old(sock.closed)
    {
      var s := CheckStop();
      ghost var checked := checks;
      if s {
        sock.Close();
        outcome := Cancelled;
        FirstCheck(old(stop), old(clicks), 0);
        return;
      }
      match ParseOffer(response)
      case Malformed =>
        outcome := Failed(BadOffer);
        FirstCheck(old(stop), old(clicks), 0);
      case Refuse(message) =>
        sock.Close();
        outcome := Refused(message);
        FirstCheck(old(stop), old(clicks), 0);
      case Accept(offer) =>
        outcome := FetchFile(offer, SaveName(filename, stamp), sock);
        if outcome.Downloaded? {
          sock.Close();
        }
        FirstCheck(old(stop), old(clicks), checks - checked);
        assert checks - old(checks) == checks - checked + 1;
    }
  }
}
