/** How the client reads what the server sends, and the server what the client sends: the
    request a download starts with, the offer, the error replies, the size reply and the
    listing, each followed from one side's encoding through the other side's decoding. */
module Interop {
  import opened Wrappers
  import opened Utf8
  import opened Text
  import opened Transport
  import opened Protocol
  import opened FileList
  import opened Archive
  import S = Server
  import C = Client

  /** The request `DOWNLOAD|name` is a download command to the server; it unpacks into the
      command word and exactly the requested name unless the name itself holds `|`, in which
      case the unpacking into two fields fails and the server answers with an error. */
  lemma RequestReachesServer(filename: string)
    ensures var request := C.Requests(filename)[0];
            && S.ParseCommand(request) == S.Download(request)
            && ('|' !in filename ==> Split(request, '|') == [DownloadPrefix, filename])
            && ('|' in filename ==> |Split(request, '|')| > 2)
  {
    var request := C.Requests(filename)[0];
    assert request == DownloadPrefix + ['|'] + filename;
    assert request[..|DownloadPrefix|] == DownloadPrefix;
    SplitAtSep(DownloadPrefix, filename, '|');
    if '|' in filename {
      SplitOnSep(filename, '|');
    } else {
      SplitNoSep(filename, '|');
    }
  }

  /** This server's offer has three fields (no compressed size), so the client takes the
      branch for short offers and shows zero sizes and a zero ratio, whatever the archive. */
  lemma OfferReadsAsDefaults(originalSize: nat, compressedSize: nat)
    ensures C.ParseOffer(S.ReplyText(S.Offer(originalSize, compressedSize))) == C.Accept(C.Offer(0, 0, 0.0))
  {
    var ratio := CompressionRatio(originalSize, compressedSize);
    var offer := OfferText(originalSize, ratio);
    OfferFields(originalSize, ratio);
    assert offer[..|SuccessPrefix|] == SuccessPrefix;
  }

  /** An offer of four or more fields, `SUCCESS|original|compressed|ratio` with the ratio written
      as `f"{ratio:.2f}"` and any further fields after it, is read field by field: the two sizes
      exactly, the ratio as its two-decimal rounding. */
  lemma FullOfferReadsFigures(original: int, compressed: int, ratio: real, tail: string)
    requires tail == [] || tail[0] == '|'
    ensures C.ParseOffer(SuccessPrefix + "|" + IntText(original) + "|" + IntText(compressed) + "|" + RatioText(ratio) + tail)
            == C.Accept(C.Offer(original, compressed, ShownRatio(ratio)))
  {
    var o, c, r := IntText(original), IntText(compressed), RatioText(ratio);
    var offer := SuccessPrefix + "|" + o + "|" + c + "|" + r + tail;
    NoBarInIntText(original);
    NoBarInIntText(compressed);
    FourFields(SuccessPrefix, o, c, r, tail);
    assert offer[..|SuccessPrefix|] == SuccessPrefix;
    ParseIntText(original);
    ParseIntText(compressed);
    RatioTextReads(ratio);
  }

  /** Four `|`-free fields joined by `|`, followed by nothing or by more `|`-led fields, split
      back into those four fields first. */
  lemma FourFields(a: string, b: string, c: string, d: string, tail: string)
    requires '|' !in a && '|' !in b && '|' !in c && '|' !in d
    requires tail == [] || tail[0] == '|'
    ensures var parts := Split(a + "|" + b + "|" + c + "|" + d + tail, '|');
            |parts| >= 4 && parts[0] == a && parts[1] == b && parts[2] == c && parts[3] == d
  {
    assert a + "|" + b + "|" + c + "|" + d + tail == a + ['|'] + (b + ['|'] + (c + ['|'] + (d + tail)));
    SplitAtSep(a, b + ['|'] + (c + ['|'] + (d + tail)), '|');
    SplitAtSep(b, c + ['|'] + (d + tail), '|');
    SplitAtSep(c, d + tail, '|');
    if tail == [] {
      assert d + tail == d;
      SplitNoSep(d, '|');
    } else {
      assert d + tail == d + ['|'] + tail[1..];
      SplitAtSep(d, tail[1..], '|');
    }
  }

  lemma NoBarInIntText(i: int)
    ensures '|' !in IntText(i)
  {
    assert IsDigits(Decimal(if i < 0 then -i else i));
  }

  /** Text without an `E` holds no `ERROR|`. */
  lemma NoErrorMarker(m: string)
    requires 'E' !in m
    ensures !Occurs(ErrorPrefix, m)
  {
    forall i | 0 <= i <= |m|
      ensures !StartsWith(m[i..], ErrorPrefix)
    {
      if i < |m| {
        assert m[i..][0] == m[i];
      }
    }
  }

  /** The server's error replies are refusals, and the client shows the server's message with
      the leading `ERROR|` removed. */
  lemma RefusalShowsMessage(o: S.Outbound)
    requires o.NotFound? || o.Failed?
    ensures var reply := S.ReplyText(o);
            && StartsWith(reply, ErrorPrefix)
            && C.ParseOffer(reply) == C.Refuse(reply[|ErrorPrefix|..])
  {
    var reply := S.ReplyText(o);
    var message := ErrorMessage(o);
    assert reply[|ErrorPrefix|..] == message;
    assert StartsWith(reply, ErrorPrefix);
    assert !StartsWith(reply, SuccessPrefix) by {
      assert reply[0] == 'E' && SuccessPrefix[0] == 'S';
    }
    NoErrorMarker(message);
    ReplaceLeading(message, ErrorPrefix);
  }

  /** The text after `ERROR|` in an error reply; it has no `E`. */
  function ErrorMessage(o: S.Outbound): (m: string)
    requires o.NotFound? || o.Failed?
    ensures S.ReplyText(o) == ErrorPrefix + m
    ensures 'E' !in m
  {
    if o.NotFound? then
      S.NotFoundText()
    else
      var f := S.FaultText(o.fault);
      assert 'E' !in f by { NoEInFault(o.fault); }
      assert S.FaultReply(o.fault) == ErrorPrefix + (S.FailureText() + f);
      S.FailureText() + f
  }

  lemma NoEInFault(f: S.Fault)
    ensures 'E' !in S.FaultText(f)
  {
    if f.Unpack? && f.fields < 2 {
      assert IsDigits(Decimal(f.fields));
    }
  }

  /** The size reply arrives as the decimal text of the archive's size, which passes the
      client's check and converts back to that size. */
  lemma SizeReplyAccepted(size: nat)
    ensures C.Decoded(Data(S.WireBytes(S.SizeReply(size)))) == C.Got(Decimal(size))
    ensures C.ValidSize(Decimal(size)) == Some(size)
  {
    DecodeEncode(Decimal(size));
    DigitsValueDecimal(size);
  }

  /** The reply to `LIST` puts no bytes on the wire exactly when the directory could not be
      read or lists no regular file: the client's read of such a reply has nothing to return
      until the server closes the connection. */
  lemma EmptyListingSendsNothing(listing: Option<seq<DirEntry>>)
    ensures S.WireBytes(S.FileListReply(listing)) == [] <==> listing.None? || Items(listing.value) == []
    ensures listing.None? || RegularFiles(listing.value) == [] ==> S.WireBytes(S.FileListReply(listing)) == []
  {
    var text := EncodeFileList(listing);
    DecodeEncode(text);
    if listing.Some? && RegularFiles(listing.value) == [] {
      NoRegularNoItems(listing.value);
    }
  }

  /** A listing that arrives as one delivery of at most 4096 bytes fills the client's table
      with one row per regular file, in the server's order, and the refresh completes. */
  lemma ListingReachesTable(entries: seq<DirEntry>, incoming: seq<Recv>)
    requires forall i :: 0 <= i < |entries| ==> PlainName(entries[i].name)
    requires incoming != [] && incoming[0] == Data(S.WireBytes(S.FileListReply(Some(entries))))
    requires |S.WireBytes(S.FileListReply(Some(entries)))| <= ListReadSize
    ensures C.Decoded(Take(incoming, ListReadSize).0) == C.Got(EncodeFileList(Some(entries)))
    ensures ParseFileList(EncodeFileList(Some(entries))) == ListResult(RowsOf(entries), true)
  {
    TakeWhole(incoming, ListReadSize);
    DecodeEncode(EncodeFileList(Some(entries)));
    ListRoundTrip(entries);
  }
}
