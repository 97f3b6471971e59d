/** The server's side of the download protocol as an automaton over connection events, stated
    independently of how `handle_client` (server.py:78-148) is written: which event may follow
    which, what the offer, the size, the chunks and the audit record must carry. Every trace the
    handler produces is accepted (`ConnectionConforms`), and the ordering guarantees of the
    handshake are read off the automaton as lemmas about any trace it accepts. */
module ServerProtocol {
  import opened Wrappers
  import opened Utf8
  import opened Text
  import opened Transport
  import opened Protocol
  import opened Archive
  import opened Server

  datatype Phase =
    | Idle                                                        // awaiting a command
    | Closing                                                     // the loop has ended
    | Listing                                                     // a `LIST` awaits its reply
    | Requested(request: string)                                  // a `DOWNLOAD` command was read
    | Offered(filename: string, originalSize: nat, size: nat)     // the offer awaits `READY`
    | ErrorDue                                                    // a handshake read raised
    | Accepted(filename: string, originalSize: nat, size: nat)    // `READY` arrived
    | SizeDeclared(filename: string, originalSize: nat, size: nat)
    | Streaming(filename: string, originalSize: nat, size: nat, sent: nat)
    | Finished(filename: string, originalSize: nat, size: nat)    // `FILE_END` was sent
    | Audited                                                     // the download was logged
    | Done                                                        // the connection is closed

  /** Where a command read from `Idle` leads. */
  function Dispatch(r: Reading): Phase {
    match r
    case Raised(_) => Closing
    case Text(command) =>
      match ParseCommand(command)
      case Quit => Closing
      case ListFiles => Listing
      case Download(request) => Requested(request)
      case Ignored => Idle
  }

  /** A handshake read: the expected word leads on, a failed read owes an `ERROR|` reply, and
      anything else returns to the command loop. */
  function Expect(r: Reading, word: string, next: Phase): Phase {
    match r
    case Raised(_) => ErrorDue
    case Text(t) => if t == word then next else Idle
  }

  /** The allowed first replies to a `DOWNLOAD` request. */
  function Answer(request: string, o: Outbound): Option<Phase> {
    var fields := Split(request, '|');
    match o
    case Failed(Unpack(n)) => if n == |fields| && n != 2 then Some(Idle) else None
    case NotFound => if |fields| == 2 then Some(Idle) else None
    case Offer(originalSize, size) =>
      if |fields| == 2 then Some(Offered(fields[1], originalSize, size)) else None
    case _ => None
  }

  function Next(clientIp: string, p: Phase, e: Event): Option<Phase> {
    match (p, e)
    case (Idle, Received(r)) => Some(Dispatch(r))
    case (Closing, Closed) => Some(Done)
    case (Listing, Sent(FileListReply(_))) => Some(Idle)
    case (Requested(request), Sent(o)) => Answer(request, o)
    case (Offered(f, o, c), Received(r)) => Some(Expect(r, Ready, Accepted(f, o, c)))
    case (ErrorDue, Sent(Failed(fault))) => if fault.Unpack? then None else Some(Idle)
    case (Accepted(f, o, c), Sent(SizeReply(n))) => if n == c then Some(SizeDeclared(f, o, c)) else None
    case (SizeDeclared(f, o, c), Received(r)) => Some(Expect(r, SizeReceived, Streaming(f, o, c, 0)))
    case (Streaming(f, o, c, s), Sent(Chunk(b))) =>
      if 0 < |b| <= ChunkSize && s % ChunkSize == 0 && s + |b| <= c
      then Some(Streaming(f, o, c, s + |b|)) else None
    case (Streaming(f, o, c, s), Sent(FileEnd)) => if s == c then Some(Finished(f, o, c)) else None
    case (Finished(f, o, c), Logged(entry)) =>
      if entry == AuditEntry(clientIp, f, o, c) then Some(Audited) else None
    case (Audited, Removed(_, _)) => Some(Idle)
    case _ => None
  }

  /** The phase reached after the events `t` from `Idle`, or `None` if some event is not allowed. */
  function Run(clientIp: string, t: seq<Event>): Option<Phase>
    decreases |t|
  {
    if t == [] then Some(Idle)
    else match Run(clientIp, t[..|t| - 1])
      case None => None
      case Some(p) => Next(clientIp, p, t[|t| - 1])
  }

  lemma RunSnoc(clientIp: string, t: seq<Event>, e: Event)
    ensures Run(clientIp, t + [e]) == if Run(clientIp, t).Some? then Next(clientIp, Run(clientIp, t).value, e) else None
  {
    assert (t + [e])[..|t|] == t;
  }

  lemma RunStep(clientIp: string, t: seq<Event>, i: nat)
    requires 0 < i <= |t|
    ensures Run(clientIp, t[..i]) == if Run(clientIp, t[..i - 1]).Some? then Next(clientIp, Run(clientIp, t[..i - 1]).value, t[i - 1]) else None
  {
    assert t[..i][..i - 1] == t[..i - 1];
  }

  /** Every prefix of an allowed trace is allowed. */
  lemma {:induction false} RunPrefix(clientIp: string, t: seq<Event>, i: nat)
    requires Run(clientIp, t).Some? && i <= |t|
    ensures Run(clientIp, t[..i]).Some?
    decreases |t| - i
  {
    if i == |t| {
      assert t[..i] == t;
    } else {
      RunPrefix(clientIp, t, i + 1);
      RunStep(clientIp, t, i + 1);
    }
  }

  // ---- The handler's traces conform -------------------------------------------------------

  lemma {:induction false} StreamedConforms(clientIp: string, acc: seq<Event>, data: seq<byte>,
                                           f: string, o: nat, s: nat)
    requires s <= |data| && (s == |data| || s % ChunkSize == 0)
    requires Run(clientIp, acc) == Some(Streaming(f, o, |data|, s))
    ensures Run(clientIp, Streamed(acc, Chunks(data[s..]))) == Some(Streaming(f, o, |data|, |data|))
    decreases |data| - s
  {
    if s == |data| {
      assert data[s..] == [];
    } else {
      var end := if s + ChunkSize <= |data| then s + ChunkSize else |data|;
      StreamedStep(acc, data, s);
      ChunkConforms(clientIp, acc, data, f, o, s, end);
      StreamedConforms(clientIp, acc + [Sent(Chunk(data[s..end]))], data, f, o, end);
    }
  }

  /** One chunk of the loop is allowed and ends on a chunk boundary or at the end. */
  lemma ChunkConforms(clientIp: string, acc: seq<Event>, data: seq<byte>, f: string, o: nat, s: nat, end: nat)
    requires s < |data| && s % ChunkSize == 0
    requires end == if s + ChunkSize <= |data| then s + ChunkSize else |data|
    requires Run(clientIp, acc) == Some(Streaming(f, o, |data|, s))
    ensures Run(clientIp, acc + [Sent(Chunk(data[s..end]))]) == Some(Streaming(f, o, |data|, end))
    ensures end == |data| || end % ChunkSize == 0
  {
    RunSnoc(clientIp, acc, Sent(Chunk(data[s..end])));
    assert (s + ChunkSize) % ChunkSize == 0 by {
      assert s == (s / ChunkSize) * ChunkSize;
      assert s + ChunkSize == (s / ChunkSize + 1) * ChunkSize;
    }
  }

  /** The three events that close a transfer lead from a finished stream back to `Idle`. */
  lemma FinishConforms(clientIp: string, t: seq<Event>, f: string, o: nat, c: nat, path: string, ok: bool)
    requires Run(clientIp, t) == Some(Streaming(f, o, c, c))
    ensures Run(clientIp, t + [Sent(FileEnd)] + [Logged(AuditEntry(clientIp, f, o, c))] + [Removed(path, ok)])
            == Some(Idle)
  {
    RunSnoc(clientIp, t, Sent(FileEnd));
    RunSnoc(clientIp, t + [Sent(FileEnd)], Logged(AuditEntry(clientIp, f, o, c)));
    RunSnoc(clientIp, t + [Sent(FileEnd)] + [Logged(AuditEntry(clientIp, f, o, c))], Removed(path, ok));
  }

  lemma TransferConforms(clientIp: string, acc: seq<Event>, env: Env, k: nat, filename: string, a: Archive)
    requires Run(clientIp, acc) == Some(Streaming(filename, a.originalSize, |a.data|, 0))
    ensures Run(clientIp, Transfer(acc, env, clientIp, k, filename, a)) == Some(Idle)
  {
    assert a.data[0..] == a.data;
    StreamedConforms(clientIp, acc, a.data, filename, a.originalSize, 0);
    FinishConforms(clientIp, Streamed(acc, Chunks(a.data)), filename, a.originalSize, |a.data|,
                   a.path, env.removeOk(k));
  }

  lemma AfterSizeConforms(clientIp: string, acc: seq<Event>, env: Env, k: nat, filename: string,
                          a: Archive, rest: seq<Recv>)
    requires Run(clientIp, acc) == Some(SizeDeclared(filename, a.originalSize, |a.data|))
    ensures Run(clientIp, AfterSize(acc, env, clientIp, k, filename, a, rest).0) == Some(Idle)
  {
    var (ack, rest') := Take(rest, ControlReadSize);
    RunSnoc(clientIp, acc, Received(Read(ack)));
    var acc' := acc + [Received(Read(ack))];
    match Read(ack)
    case Raised(f) =>
      RunSnoc(clientIp, acc', Sent(Failed(f)));
    case Text(t) =>
      if t == SizeReceived {
        TransferConforms(clientIp, acc', env, k, filename, a);
      }
  }

  /** The reply to the offer, from `Offered` on. */
  lemma ResponseConforms(clientIp: string, acc: seq<Event>, env: Env, k: nat, filename: string,
                         a: Archive, response: Recv, rest: seq<Recv>)
    requires Run(clientIp, acc) == Some(Offered(filename, a.originalSize, |a.data|))
    ensures var answered := acc + [Received(Read(response))];
            Run(clientIp, match Read(response)
                          case Raised(f) => answered + [Sent(Failed(f))]
                          case Text(t) =>
                            if t != Ready then answered
                            else AfterSize(answered + [Sent(SizeReply(|a.data|))], env, clientIp, k, filename, a, rest).0)
            == Some(Idle)
  {
    var answered := acc + [Received(Read(response))];
    RunSnoc(clientIp, acc, Received(Read(response)));
    match Read(response)
    case Raised(f) =>
      RunSnoc(clientIp, answered, Sent(Failed(f)));
    case Text(t) =>
      if t == Ready {
        RunSnoc(clientIp, answered, Sent(SizeReply(|a.data|)));
        AfterSizeConforms(clientIp, answered + [Sent(SizeReply(|a.data|))], env, k, filename, a, rest);
      }
  }

  lemma HandshakeConforms(clientIp: string, acc: seq<Event>, env: Env, k: nat, request: string,
                          a: Archive, rest: seq<Recv>)
    requires |Split(request, '|')| == 2
    requires Run(clientIp, acc) == Some(Requested(request))
    ensures Run(clientIp, Handshake(acc, env, clientIp, k, Split(request, '|')[1], a, rest).0) == Some(Idle)
  {
    var filename := Split(request, '|')[1];
    RunSnoc(clientIp, acc, Sent(Offer(a.originalSize, |a.data|)));
    var (response, rest1) := Take(rest, ControlReadSize);
    ResponseConforms(clientIp, acc + [Sent(Offer(a.originalSize, |a.data|))], env, k, filename, a, response, rest1);
  }

  lemma ExchangeConforms(clientIp: string, acc: seq<Event>, env: Env, k: nat, request: string,
                         rest: seq<Recv>)
    requires Run(clientIp, acc) == Some(Requested(request))
    ensures Run(clientIp, Exchange(acc, env, clientIp, k, request, rest).0) == Some(Idle)
  {
    var fields := Split(request, '|');
    if |fields| != 2 {
      RunSnoc(clientIp, acc, Sent(Failed(Unpack(|fields|))));
    } else {
      match env.compress(k, fields[1])
      case None =>
        RunSnoc(clientIp, acc, Sent(NotFound));
      case Some(a) =>
        HandshakeConforms(clientIp, acc, env, k, request, a, rest);
    }
  }

  lemma StepConforms(clientIp: string, acc: seq<Event>, env: Env, k: nat, m: Recv, rest: seq<Recv>)
    requires Run(clientIp, acc) == Some(Dispatch(Read(m)))
    ensures var x := Step(acc, env, clientIp, k, m, rest);
            Run(clientIp, x.0) == Some(if x.1.Some? then Idle else Done)
  {
    match Read(m)
    case Raised(_) =>
      RunSnoc(clientIp, acc, Closed);
    case Text(command) =>
      match ParseCommand(command)
      case Quit =>
        RunSnoc(clientIp, acc, Closed);
      case ListFiles =>
        RunSnoc(clientIp, acc, Sent(FileListReply(env.listing(k))));
      case Download(request) =>
        ExchangeConforms(clientIp, acc, env, k, request, rest);
      case Ignored =>
  }

  lemma {:induction false} ServeConforms(clientIp: string, acc: seq<Event>, env: Env, k: nat, inbound: seq<Recv>)
    requires Run(clientIp, acc) == Some(Idle)
    ensures Run(clientIp, Serve(acc, env, clientIp, k, inbound)) == Some(Done)
    decreases Weight(inbound)
  {
    var (m, rest) := Take(inbound, ControlReadSize);
    RunSnoc(clientIp, acc, Received(Read(m)));
    StepConforms(clientIp, acc + [Received(Read(m))], env, k, m, rest);
    var (t, next) := Step(acc + [Received(Read(m))], env, clientIp, k, m, rest);
    if next.Some? {
      ServeConforms(clientIp, t, env, k + 1, next.value);
    }
  }

  /** Every connection the handler serves follows the protocol to the end. */
  lemma ConnectionConforms(env: Env, clientIp: string, inbound: seq<Recv>)
    ensures Run(clientIp, Connection(env, clientIp, inbound)) == Some(Done)
  {
    ServeConforms(clientIp, [], env, 0, inbound);
  }

  // ---- What an allowed trace guarantees ----------------------------------------------------

  /** A `recv` in the trace that returned the given word. */
  predicate IsReply(e: Event, word: string) {
    e.Received? && e.reading == Text(word)
  }

  predicate IsChunk(e: Event) {
    e.Sent? && e.out.Chunk?
  }

  /** The archive bytes carried by the chunk sends among `t`, in order. */
  function Payload(t: seq<Event>): seq<byte>
    decreases |t|
  {
    if t == [] then [] else Payload(t[..|t| - 1]) + (if IsChunk(t[|t| - 1]) then t[|t| - 1].out.bytes else [])
  }

  lemma PayloadSnoc(t: seq<Event>, e: Event)
    ensures Payload(t + [e]) == Payload(t) + (if IsChunk(e) then e.out.bytes else [])
  {
    assert (t + [e])[..|t|] == t;
  }

  /** The chunk loop puts exactly the archive on the wire. */
  lemma {:induction false} StreamedPayload(acc: seq<Event>, chunks: seq<seq<byte>>)
    ensures Payload(Streamed(acc, chunks)) == Payload(acc) + Flatten(chunks)
    decreases |chunks|
  {
    if chunks != [] {
      PayloadSnoc(acc, Sent(Chunk(chunks[0])));
      StreamedPayload(acc + [Sent(Chunk(chunks[0]))], chunks[1..]);
    }
  }

  lemma TransferPayload(acc: seq<Event>, env: Env, clientIp: string, k: nat, filename: string, a: Archive)
    ensures Payload(Transfer(acc, env, clientIp, k, filename, a)) == Payload(acc) + a.data
  {
    StreamedPayload(acc, Chunks(a.data));
    FlattenChunks(a.data);
    var t1 := Streamed(acc, Chunks(a.data));
    PayloadSnoc(t1, Sent(FileEnd));
    PayloadSnoc(t1 + [Sent(FileEnd)], Logged(AuditEntry(clientIp, filename, a.originalSize, |a.data|)));
    PayloadSnoc(t1 + [Sent(FileEnd)] + [Logged(AuditEntry(clientIp, filename, a.originalSize, |a.data|))],
                Removed(a.path, env.removeOk(k)));
  }

  // Which phase and event lead into a phase.

  lemma IntoStreaming(clientIp: string, p: Phase, e: Event, f: string, o: nat, c: nat, s: nat)
    requires Next(clientIp, p, e) == Some(Streaming(f, o, c, s))
    ensures IsChunk(e) ==> |e.out.bytes| <= s && p == Streaming(f, o, c, s - |e.out.bytes|)
    ensures !IsChunk(e) ==> s == 0 && p == SizeDeclared(f, o, c) && IsReply(e, SizeReceived)
  {
  }

  lemma IntoSizeDeclared(clientIp: string, p: Phase, e: Event, f: string, o: nat, c: nat)
    requires Next(clientIp, p, e) == Some(SizeDeclared(f, o, c))
    ensures p == Accepted(f, o, c) && e == Sent(SizeReply(c))
  {
  }

  lemma IntoOffered(clientIp: string, p: Phase, e: Event, f: string, o: nat, c: nat)
    requires Next(clientIp, p, e) == Some(Offered(f, o, c))
    ensures p.Requested? && e == Sent(Offer(o, c))
  {
  }

  lemma IntoAccepted(clientIp: string, p: Phase, e: Event, f: string, o: nat, c: nat)
    requires Next(clientIp, p, e) == Some(Accepted(f, o, c))
    ensures p == Offered(f, o, c) && IsReply(e, Ready)
  {
  }

  lemma IntoFinished(clientIp: string, p: Phase, e: Event, f: string, o: nat, c: nat)
    requires Next(clientIp, p, e) == Some(Finished(f, o, c))
    ensures p == Streaming(f, o, c, c) && e == Sent(FileEnd)
  {
  }

  lemma IntoAudited(clientIp: string, p: Phase, e: Event)
    requires Next(clientIp, p, e) == Some(Audited)
    ensures p.Finished? && e == Logged(AuditEntry(clientIp, p.filename, p.originalSize, p.size))
  {
  }

  lemma IntoClosing(clientIp: string, p: Phase, e: Event)
    requires Next(clientIp, p, e) == Some(Closing)
    ensures p == Idle && e.Received? && Dispatch(e.reading) == Closing
  {
  }

  /** Which phase accepts an event of each kind. */
  lemma Accepting(clientIp: string, p: Phase, e: Event)
    requires Next(clientIp, p, e).Some?
    ensures IsChunk(e) ==> p.Streaming?
    ensures e == Sent(FileEnd) ==> p.Streaming? && p.sent == p.size
    ensures e.Logged? ==> p.Finished? && Next(clientIp, p, e) == Some(Audited)
    ensures e.Removed? ==> p == Audited
    ensures e == Closed ==> p == Closing && Next(clientIp, p, e) == Some(Done)
    ensures p != Done
  {
  }

  /** The size declaration is preceded by `READY`, which answered the offer of that size. */
  lemma DeclaredOrigin(clientIp: string, u: seq<Event>, f: string, o: nat, c: nat)
    requires Run(clientIp, u) == Some(SizeDeclared(f, o, c))
    ensures 3 <= |u| && u[|u| - 1] == Sent(SizeReply(c)) && IsReply(u[|u| - 2], Ready)
    ensures u[|u| - 3] == Sent(Offer(o, c))
  {
    var v := u[..|u| - 1];
    IntoSizeDeclared(clientIp, Run(clientIp, v).value, u[|u| - 1], f, o, c);
    var w := v[..|v| - 1];
    IntoAccepted(clientIp, Run(clientIp, w).value, v[|v| - 1], f, o, c);
    IntoOffered(clientIp, Run(clientIp, w[..|w| - 1]).value, w[|w| - 1], f, o, c);
  }

  /** A stream in progress began with the offer, `READY`, the size and `SIZE_RECEIVED`, in that
      order, and has carried only chunks since then, `sent` bytes in all. */
  lemma {:induction false} StreamOrigin(clientIp: string, u: seq<Event>, f: string, o: nat, c: nat, s: nat)
    returns (j: nat)
    requires Run(clientIp, u) == Some(Streaming(f, o, c, s))
    ensures 3 <= j < |u|
    ensures u[j - 3] == Sent(Offer(o, c))
    ensures IsReply(u[j - 2], Ready) && u[j - 1] == Sent(SizeReply(c)) && IsReply(u[j], SizeReceived)
    ensures forall l :: j < l < |u| ==> IsChunk(u[l])
    ensures |Payload(u)| == |Payload(u[..j + 1])| + s
    decreases |u|
  {
    var v, e := u[..|u| - 1], u[|u| - 1];
    IntoStreaming(clientIp, Run(clientIp, v).value, e, f, o, c, s);
    if IsChunk(e) {
      j := StreamOrigin(clientIp, v, f, o, c, s - |e.out.bytes|);
      assert v[..j + 1] == u[..j + 1];
    } else {
      DeclaredOrigin(clientIp, v, f, o, c);
      j := |u| - 1;
      assert u[..j + 1] == u;
    }
  }

  /** No chunk is sent unless an offer was sent, `READY` was read in answer to it, the size the
      offer announced was sent and `SIZE_RECEIVED` was read, in that order, with nothing but
      chunks between that last reply and this chunk. */
  lemma ChunkFollowsAcknowledgement(clientIp: string, t: seq<Event>, i: nat) returns (j: nat)
    requires Run(clientIp, t).Some? && i < |t| && IsChunk(t[i])
    ensures 3 <= j < i
    ensures t[j - 3].Sent? && t[j - 3].out.Offer?
    ensures IsReply(t[j - 2], Ready) && t[j - 1] == Sent(SizeReply(t[j - 3].out.compressedSize))
    ensures IsReply(t[j], SizeReceived)
    ensures forall l :: j < l < i ==> IsChunk(t[l])
  {
    var f, o, c, sent := StreamBefore(clientIp, t, i);
    j := StreamOrigin(clientIp, t[..i], f, o, c, sent);
    forall l | j < l < i
      ensures IsChunk(t[l])
    {
      assert t[..i][l] == t[l];
    }
  }

  /** An audit record follows `FILE_END`, which follows the whole payload: exactly as many chunk
      bytes as the record's compressed size, sent after the offer of the record's two sizes,
      `READY`, the size and `SIZE_RECEIVED`. */
  lemma AuditFollowsPayload(clientIp: string, t: seq<Event>, i: nat) returns (j: nat)
    requires Run(clientIp, t).Some? && i < |t| && t[i].Logged?
    ensures t[i].entry.clientIp == clientIp
    ensures 3 <= j < i - 1 && t[i - 1] == Sent(FileEnd)
    ensures t[j - 3] == Sent(Offer(t[i].entry.originalSize, t[i].entry.compressedSize))
    ensures IsReply(t[j - 2], Ready) && t[j - 1] == Sent(SizeReply(t[i].entry.compressedSize))
    ensures IsReply(t[j], SizeReceived)
    ensures forall l :: j < l < i - 1 ==> IsChunk(t[l])
    ensures |Payload(t[..i - 1])| == |Payload(t[..j + 1])| + t[i].entry.compressedSize
  {
    var f, o, c := AuditedStream(clientIp, t, i);
    j := StreamOrigin(clientIp, t[..i - 1], f, o, c, c);
    assert t[..i - 1][..j + 1] == t[..j + 1];
    assert t[..i - 1][j - 3] == t[j - 3];
    forall l | j < l < i - 1
      ensures IsChunk(t[l])
    {
      assert t[..i - 1][l] == t[l];
    }
  }

  /** `FILE_END` follows the whole payload: exactly as many chunk bytes as the offer announced,
      sent after that offer, `READY`, the size and `SIZE_RECEIVED`, with nothing but chunks
      between that last reply and `FILE_END`. */
  lemma FileEndFollowsPayload(clientIp: string, t: seq<Event>, i: nat) returns (j: nat)
    requires Run(clientIp, t).Some? && i < |t| && t[i] == Sent(FileEnd)
    ensures 3 <= j < i
    ensures t[j - 3].Sent? && t[j - 3].out.Offer?
    ensures IsReply(t[j - 2], Ready) && t[j - 1] == Sent(SizeReply(t[j - 3].out.compressedSize))
    ensures IsReply(t[j], SizeReceived)
    ensures forall l :: j < l < i ==> IsChunk(t[l])
    ensures |Payload(t[..i])| == |Payload(t[..j + 1])| + t[j - 3].out.compressedSize
  {
    var f, o, c := FinishedStream(clientIp, t, i);
    j := StreamOrigin(clientIp, t[..i], f, o, c, c);
    assert t[..i][..j + 1] == t[..j + 1];
    assert t[..i][j - 3] == t[j - 3];
    forall l | j < l < i
      ensures IsChunk(t[l])
    {
      assert t[..i][l] == t[l];
    }
  }

  /** `FILE_END` is sent only when a stream has carried all the bytes it declared. */
  lemma FinishedStream(clientIp: string, t: seq<Event>, i: nat) returns (f: string, o: nat, c: nat)
    requires Run(clientIp, t).Some? && i < |t| && t[i] == Sent(FileEnd)
    ensures Run(clientIp, t[..i]) == Some(Streaming(f, o, c, c))
  {
    RunPrefix(clientIp, t, i + 1);
    RunStep(clientIp, t, i + 1);
    var p := Run(clientIp, t[..i]).value;
    Accepting(clientIp, p, t[i]);
    f, o, c := p.filename, p.originalSize, p.size;
  }

  /** A chunk is sent only while a stream is in progress. */
  lemma StreamBefore(clientIp: string, t: seq<Event>, i: nat) returns (f: string, o: nat, c: nat, sent: nat)
    requires Run(clientIp, t).Some? && i < |t| && IsChunk(t[i])
    ensures Run(clientIp, t[..i]) == Some(Streaming(f, o, c, sent))
  {
    RunPrefix(clientIp, t, i + 1);
    RunStep(clientIp, t, i + 1);
    var p := Run(clientIp, t[..i]).value;
    Accepting(clientIp, p, t[i]);
    f, o, c, sent := p.filename, p.originalSize, p.size, p.sent;
  }

  /** An audit record is written right after `FILE_END` ended a whole stream of the sizes it records. */
  lemma AuditedStream(clientIp: string, t: seq<Event>, i: nat) returns (f: string, o: nat, c: nat)
    requires Run(clientIp, t).Some? && i < |t| && t[i].Logged?
    ensures 1 <= i && t[i] == Logged(AuditEntry(clientIp, f, o, c)) && t[i - 1] == Sent(FileEnd)
    ensures Run(clientIp, t[..i - 1]) == Some(Streaming(f, o, c, c))
  {
    RunPrefix(clientIp, t, i + 1);
    RunStep(clientIp, t, i + 1);
    var p := Run(clientIp, t[..i]).value;
    Accepting(clientIp, p, t[i]);
    IntoAudited(clientIp, p, t[i]);
    RunStep(clientIp, t, i);
    f, o, c := p.filename, p.originalSize, p.size;
    IntoFinished(clientIp, Run(clientIp, t[..i - 1]).value, t[i - 1], f, o, c);
  }

  /** Removal of the archive is attempted only right after its audit record. */
  lemma RemovalFollowsAudit(clientIp: string, t: seq<Event>, i: nat)
    requires Run(clientIp, t).Some? && i < |t| && t[i].Removed?
    ensures 2 <= i && t[i - 1].Logged? && t[i - 2] == Sent(FileEnd)
  {
    RunPrefix(clientIp, t, i + 1);
    RunStep(clientIp, t, i + 1);
    Accepting(clientIp, Run(clientIp, t[..i]).value, t[i]);
    RunStep(clientIp, t, i);
    var p := Run(clientIp, t[..i - 1]).value;
    IntoAudited(clientIp, p, t[i - 1]);
    RunStep(clientIp, t, i - 1);
    IntoFinished(clientIp, Run(clientIp, t[..i - 2]).value, t[i - 2], p.filename, p.originalSize, p.size);
  }

  /** The phases in which a `DOWNLOAD` command is being handled. */
  predicate InFlight(p: Phase) {
    p.Requested? || p.Offered? || p.ErrorDue? || p.Accepted? || p.SizeDeclared? || p.Streaming? || p.Finished?
  }

  /** The number of `DOWNLOAD` commands read in `t`. */
  function Downloads(t: seq<Event>): nat
    decreases |t|
  {
    if t == [] then 0
    else Downloads(t[..|t| - 1]) + (if t[|t| - 1].Received? && Dispatch(t[|t| - 1].reading).Requested? then 1 else 0)
  }

  /** The number of audit records in `t`. */
  function Audits(t: seq<Event>): nat
    decreases |t|
  {
    if t == [] then 0 else Audits(t[..|t| - 1]) + (if t[|t| - 1].Logged? then 1 else 0)
  }

  /** Each `DOWNLOAD` command yields at most one audit record, counting the one being handled. */
  lemma {:induction false} AuditsPerDownload(clientIp: string, t: seq<Event>)
    requires Run(clientIp, t).Some?
    ensures Audits(t) + (if InFlight(Run(clientIp, t).value) then 1 else 0) <= Downloads(t)
    decreases |t|
  {
    if t != [] {
      AuditsPerDownload(clientIp, t[..|t| - 1]);
    }
  }

  /** `Closed` is the last event and follows a read that ends the loop. */
  lemma CloseEndsTrace(clientIp: string, t: seq<Event>, i: nat)
    requires Run(clientIp, t).Some? && i < |t| && t[i] == Closed
    ensures i == |t| - 1 && 1 <= i && t[i - 1].Received? && Dispatch(t[i - 1].reading) == Closing
  {
    RunPrefix(clientIp, t, i + 1);
    RunStep(clientIp, t, i + 1);
    Accepting(clientIp, Run(clientIp, t[..i]).value, t[i]);
    if i + 1 < |t| {
      RunPrefix(clientIp, t, i + 2);
      RunStep(clientIp, t, i + 2);
      Accepting(clientIp, Run(clientIp, t[..i + 1]).value, t[i + 1]);
    }
    RunStep(clientIp, t, i);
    IntoClosing(clientIp, Run(clientIp, t[..i - 1]).value, t[i - 1]);
  }

  /** The loop ends exactly on an empty read (the client closed), `EXIT`, or a read that raised. */
  lemma ClosingReads(r: Reading)
    ensures Dispatch(r) == Closing <==> r.Raised? || r == Text("") || r == Text(ExitCommand)
  {
  }

  /** Over a whole connection: it ends with `Closed`, and there are no more audit records than
      `DOWNLOAD` commands. */
  lemma ConnectionSummary(env: Env, clientIp: string, inbound: seq<Recv>)
    ensures var t := Connection(env, clientIp, inbound);
            t != [] && t[|t| - 1] == Closed && Audits(t) <= Downloads(t)
  {
    var t := Connection(env, clientIp, inbound);
    ConnectionConforms(env, clientIp, inbound);
    AuditsPerDownload(clientIp, t);
    RunStep(clientIp, t, |t|);
    assert t[..|t|] == t;
    IntoDone(clientIp, Run(clientIp, t[..|t| - 1]).value, t[|t| - 1]);
  }

  lemma IntoDone(clientIp: string, p: Phase, e: Event)
    requires Next(clientIp, p, e) == Some(Done)
    ensures e == Closed
  {
  }

  /** A `DOWNLOAD` whose request does not split into two fields, or whose file cannot be
      compressed, is answered with one `ERROR|` reply and nothing else, and the loop goes on. */
  lemma RefusedDownload(acc: seq<Event>, env: Env, clientIp: string, k: nat, m: Recv, rest: seq<Recv>)
    requires Dispatch(Read(m)).Requested?
    requires var fields := Split(Dispatch(Read(m)).request, '|');
             |fields| != 2 || env.compress(k, fields[1]).None?
    ensures var x := Step(acc, env, clientIp, k, m, rest);
            x.1 == Some(rest) && |x.0| == |acc| + 1 && x.0[..|acc|] == acc
            && x.0[|acc|].Sent? && (x.0[|acc|].out.Failed? || x.0[|acc|].out.NotFound?)
            && StartsWith(ReplyText(x.0[|acc|].out), ErrorPrefix)
  {
    var x := Step(acc, env, clientIp, k, m, rest);
    assert x.0[..|acc|] == acc;
    assert StartsWith(NotFoundReply, ErrorPrefix) by {
      assert NotFoundReply[..|ErrorPrefix|] == ErrorPrefix;
    }
  }
}
