# Save_files download protocol, modelled in Dafny

The project models a small TCP file-download service. The server (`server.py`) lists the regular
files of its directory and compresses a requested file into a ZIP archive. It offers the
archive with its original size and compression ratio, waits for `READY`, sends the archive's
size and waits for `SIZE_RECEIVED`. It then streams the archive in 8192-byte chunks followed
by `FILE_END`, writes an audit record and removes the temporary archive. The client
(`client.py`) fills its file table from the `LIST` reply. Its `download` runs the other half
of the handshake, writes the payload to a time-stamped file and can be cancelled through a
`stop` flag.

Modules:

- `Utf8`: the UTF-8 codec both sides use for control text, with `Decode(Encode(s)) == Some(s)`.
- `Text`: `split`, `join`, `replace`, `startswith`, `isdigit`, `int` and `float` on strings.
- `Transport`: what `recv(n)` returns from the peer's sends, and the conservation of the byte
  stream across reads.
- `Protocol`: the shared command words, the read sizes and the chunking of the archive.
- `FileList`: the `LIST` reply (`get_file_list`) and the client's parsing of it.
- `Archive`: the compression ratio and the offer text.
- `Server`:
  - `Serve` gives the trace of events (reads, sends, audit records, removals, the close) that
    one connection produces, for given client input and file-system answers;
  - the class `Handler`, whose `HandleClient` loop is proved to produce exactly that trace.
- `ServerProtocol`: an automaton over those events, written independently of the handler. Every
  connection's trace is proved to be accepted by it, and the ordering guarantees of the
  handshake are proved about every accepted trace.
- `Client`: the class `FileDownloaderClient`, with its table rows, its `stop` flag and the
  output directory as a map from file names to contents. `Download` is proved against the
  bytes the connection delivers.
- `Interop`: each message is followed from one side's encoding through the other side's
  decoding.

The system's design calls for a four-field offer (`SUCCESS|orig|comp|ratio`) and an audit
record that includes the save path. The code sends three fields
(`SUCCESS|orig|ratio`, server.py:101) and logs no path (server.py:122). The model follows the
code. The client accepts both offer forms: a three-field offer is read as zero sizes and a zero
ratio (`Interop.OfferReadsAsDefaults`).

## Model

| member | source | states |
|---|---|---|
| Utf8.DecodeEncode | server.py:84 | decoding the UTF-8 encoding of any text gives the text back, so control messages survive the wire |
| Utf8.EncodeInjective | client.py:185 | different texts never encode to the same bytes |
| Transport.Take | server.py:84 | `recv(n)` returns at most `n` bytes; an exhausted connection reads as closed; every read makes progress |
| Transport.TakePreservesStream | client.py:245-250 | a `recv` neither loses nor reorders bytes: what it returns followed by what is left is everything still to come |
| Transport.TakeWhole | client.py:119 | a delivery of at most `n` bytes is received whole by `recv(n)` |
| Protocol.Chunks | server.py:112-118 | every chunk is non-empty and at most 8192 bytes, all but the last exactly 8192, and the chunk count is the least that covers the archive |
| Protocol.FlattenChunks | server.py:114-116 | the chunks joined in order are exactly the archive |
| Protocol.ChunkCount | server.py:114 | there are ceil(size / 8192) chunks |
| Protocol.ChunkAt | server.py:115 | the k-th chunk is `file_data[k*8192 : k*8192 + 8192]` |
| Protocol.TwentyThousandBytes | server.py:112-118 | 20000 bytes travel as 8192, 8192 and 3616 bytes |
| FileList.Items | server.py:45-49 | at most one item per directory entry, each of the form `name|size` |
| FileList.EncodeFileList | server.py:41-53 | the reply is empty exactly when enumeration failed or the directory holds no regular file |
| FileList.ItemFields | server.py:49 | an item splits on `\|` into the name and the decimal size |
| FileList.ParseItems | client.py:127-131 | the refresh inserts at most one row per item |
| FileList.FirstBad | client.py:127-129 | the item at which the refresh raises: no item before it is bad, and it holds `\|` without splitting into exactly two fields |
| FileList.ParseItemsComplete | client.py:127-131 | the refresh runs to the end exactly when every item holding `\|` splits into exactly two fields |
| FileList.ParseItemsRows | client.py:127-131 | the rows inserted are the two fields of each item holding `\|`, in order, up to the first bad item; the refresh completes exactly when no item is bad |
| FileList.ParseItemsOfEntries | client.py:125-131 | the client's loop over the server's items inserts one row per regular file, in order, without error, when no file name holds `\|` or `;` |
| FileList.ListRoundTrip | server.py:41-53 | what the server lists, the client's table shows: one row per regular file with its name and size, and the refresh completes, when no file name holds `\|` or `;` |
| FileList.EmptyListing | client.py:124-137 | a failed enumeration and an empty directory both read as an empty, complete listing |
| Archive.CompressionRatio | server.py:68-71 | the ratio is the percentage of bytes saved; it is 0 for an empty original, at most 100, and non-negative exactly when the archive is no larger than the original |
| Archive.SixtyPercent | server.py:69 | 1000 bytes compressed to 400 give a ratio of 60 |
| Archive.RatioText | server.py:101 | the ratio text is non-empty and holds no `\|` |
| Archive.Hundredths | server.py:101 | the ratio's magnitude in hundredths, rounded to the nearest hundredth |
| Archive.ShownRatio | server.py:101 | the value the ratio text shows is within half a hundredth of the ratio |
| Archive.RatioTextReads | server.py:101 | `float` of the ratio text is the ratio rounded to two decimals, sign kept |
| Archive.OfferFields | server.py:101 | the offer splits into exactly three fields: `SUCCESS`, the original size and the ratio |
| Server.ParseCommand | server.py:84-97 | the loop stops exactly on an empty read or `EXIT`; `LIST` exactly on the word `LIST`; a download exactly on text starting with `DOWNLOAD` |
| Server.FaultReply | server.py:135-137 | every reply of the download branch's exception handler starts with `ERROR\|` |
| Server.Step | server.py:84-142 | the loop goes on only after a non-empty read, and never with more input than before |
| Server.Handler.Receive | server.py:84 | one `recv(1024)`: the input is consumed as `Take` says and the read is appended to the trace |
| Server.Handler.SendChunks | server.py:112-118 | the chunk loop appends exactly the chunk sends of the archive, and `total_sent` equals the archive's size |
| Server.Handler.CompleteTransfer | server.py:112-127 | after `SIZE_RECEIVED`: the chunks, `FILE_END`, the audit record with the client's address, name and both sizes, then the removal attempt |
| Server.Handler.AwaitAcknowledgement | server.py:110-129 | waits for `SIZE_RECEIVED` and transfers only on it; a failed read is answered with `ERROR\|` |
| Server.Handler.OfferArchive | server.py:101-111 | offer, then the size only after `READY`, then the acknowledgement step |
| Server.Handler.HandleDownload | server.py:95-138 | a request that does not split into two fields gets an unpacking error, a file that cannot be compressed gets the not-found error, and otherwise the handshake runs |
| Server.Handler.HandleCommand | server.py:84-142 | dispatch: close on an empty read, `EXIT` or a failed read; reply to `LIST`; handle `DOWNLOAD`; ignore anything else |
| Server.Handler.Turn | server.py:83-142 | one turn of the loop keeps the rest of the connection's trace unchanged and consumes input |
| Server.Handler.HandleClient | server.py:78-148 | the handler's whole trace is `Serve` of the input, ending with the close |
| ServerProtocol.RunPrefix | server.py:78-148 | every prefix of an allowed trace is allowed |
| ServerProtocol.StreamedConforms | server.py:112-118 | the chunk loop is accepted by the automaton and ends with the whole archive sent |
| ServerProtocol.TransferConforms | server.py:112-127 | a transfer returns the automaton to awaiting a command |
| ServerProtocol.HandshakeConforms | server.py:101-129 | every handshake outcome returns the automaton to awaiting a command |
| ServerProtocol.ExchangeConforms | server.py:95-138 | every answer to a `DOWNLOAD` returns the automaton to awaiting a command |
| ServerProtocol.StepConforms | server.py:84-142 | each turn of the loop is allowed and either returns to awaiting a command or closes |
| ServerProtocol.ServeConforms | server.py:83-148 | the rest of a connection is allowed and ends closed |
| ServerProtocol.ConnectionConforms | server.py:78-148 | every connection's trace is accepted by the protocol automaton and ends in `Done` |
| ServerProtocol.TransferPayload | server.py:112-119 | the chunk sends of a transfer carry exactly the archive's bytes |
| ServerProtocol.StreamOrigin | server.py:101-116 | a stream in progress was preceded by the offer, `READY`, the offered size and `SIZE_RECEIVED`, in that order, with only chunks since |
| ServerProtocol.DeclaredOrigin | server.py:101-109 | the size is sent right after `READY`, which was read right after the offer of that size |
| ServerProtocol.ChunkFollowsAcknowledgement | server.py:101-116 | no chunk is sent unless an offer was sent, `READY` was read in answer to it, the size the offer announced was sent and `SIZE_RECEIVED` was read, in that order, with only chunks since |
| ServerProtocol.FileEndFollowsPayload | server.py:101-119 | `FILE_END` is sent only after an offer, `READY` read in answer to it, the size that offer announced and `SIZE_RECEIVED`, in that order, followed by nothing but chunks carrying exactly the announced number of bytes |
| ServerProtocol.FinishedStream | server.py:114-119 | `FILE_END` is sent only when the stream has carried all the bytes it declared |
| ServerProtocol.AuditFollowsPayload | server.py:101-122 | an audit record carries the client's address; it directly follows `FILE_END`, which follows the offer of the recorded sizes, `READY`, the size reply, `SIZE_RECEIVED` and exactly as many payload bytes as the declared size |
| ServerProtocol.RemovalFollowsAudit | server.py:121-127 | removal of the archive is attempted only right after its audit record, which follows `FILE_END` |
| ServerProtocol.Accepting | server.py:112-127 | chunks come only while streaming, audit records only after `FILE_END`, removals only after an audit record, and the close only after the loop ends |
| ServerProtocol.AuditsPerDownload | server.py:95-122 | each `DOWNLOAD` command yields at most one audit record |
| ServerProtocol.CloseEndsTrace | server.py:144-147 | the close is the last event and follows a read that ends the loop |
| ServerProtocol.ClosingReads | server.py:84-86 | the loop ends exactly on an empty read, `EXIT` or a read that raised |
| ServerProtocol.ConnectionSummary | server.py:78-148 | a connection ends with the close and has no more audit records than `DOWNLOAD` commands |
| ServerProtocol.RefusedDownload | server.py:130-138 | a request that does not unpack into two fields, or a file that cannot be compressed, gets exactly one `ERROR\|` reply and nothing else, and the loop goes on |
| Client.Socket.Receive | client.py:186 | one `recv(n)` on the client's connection: the result and the remaining input are as `Take` says |
| Client.ParseOffer | client.py:193-213 | a reply not starting with `SUCCESS` is a refusal, shown with every `ERROR\|` removed; a `SUCCESS` reply with fewer than four fields gives zero sizes and ratio |
| Client.ValidSize | client.py:228-232 | a size is accepted exactly when the text is all decimal digits |
| Client.FileDownloaderClient.GetFiles | client.py:114-143 | sends `LIST`, reads up to 4096 bytes and, on a decoded reply, shows exactly the parsed rows and their count; on an error the table is kept |
| Client.FileDownloaderClient.FillTable | client.py:121-137 | the table holds exactly the rows of the reply's `name\|size` items, and the count is shown only when no item had more than one `\|` |
| Client.FileDownloaderClient.StartDownload | client.py:145-161 | with no selection only a warning; otherwise `stop` is cleared and the selected row's name is downloaded |
| Client.FileDownloaderClient.CancelDownload | client.py:172-174 | sets `stop` and changes nothing else |
| Client.FileDownloaderClient.CheckStop | client.py:188-191 | a check sees `stop` as set exactly when it was set or the next click is a cancel, and consumes that click |
| Client.StopAfterClicked | client.py:172-174 | after any number of checks, `stop` is set exactly when it was set at the start or one of the clicks those checks consumed was a cancel |
| Client.StopAfterStep | client.py:237-239 | one more check of `stop` advances the record of checks by exactly the next click |
| Client.FileDownloaderClient.ReceivePayload | client.py:235-261 | the file holds exactly the first `received` bytes of the incoming stream and at most the declared size; the loop completes exactly when every byte arrived; it ends on `stop` exactly when the last check saw `stop` (no earlier check did), on a closed connection exactly when the last read was empty, on an error exactly when it failed; no earlier read ended the loop; every read asks for between 1 and 8192 bytes, namely `min(8192, total - r)` where `r` counts the bytes the loop's earlier reads returned, and `received` counts the bytes all its reads returned |
| Client.FileDownloaderClient.LogRead | client.py:241-250 | a turn that asks for `min(8192, total - received)` bytes and reads `r` keeps the loop's record: one more read and request are logged, and the bytes received grow by exactly what `r` carried |
| Client.AskedForEach | client.py:241-244 | in the loop's record, read by read: the `i`-th request asked for `min(8192, total - r)` bytes, `r` being what the reads before it returned |
| Client.FileDownloaderClient.CheckedOnce | client.py:237-239 | one more check of `stop` after checks that all saw it clear keeps the record of checks, and the loop stops exactly when this check sees `stop` |
| Client.FileDownloaderClient.ReceiveChunk | client.py:237-261 | one turn checks `stop` once, consuming one click; it stops exactly when that check sees `stop` and then reads nothing; otherwise it asks for `min(8192, remaining)` bytes, appends what arrives, and the loop goes on exactly when the read was neither empty nor an error |
| Client.FileDownloaderClient.ReceiveInto | client.py:244-261 | one `recv(chunk)`: a timeout appends nothing and the loop goes on; the loop ends as closed exactly on an empty read and as failed exactly on another error; data is appended in arrival order |
| Client.FileDownloaderClient.FetchFile | client.py:226-281 | sends `READY`, then `SIZE_RECEIVED` only for an all-digit size; a timed-out, broken or invalid size reply ends the download with no file written and no check of `stop`; after the transfer the download is cancelled exactly when the last check saw `stop`; a finished download holds exactly the declared number of bytes that followed the size reply, and `stop` is clear |
| Client.FileDownloaderClient.ReceiveFile | client.py:233-281 | after the loop and the end-marker read: the download is cancelled exactly when the last check saw `stop`, and then the file is deleted; a short file is a size error and is kept; otherwise the file is exactly the first declared bytes of the stream |
| Client.FileDownloaderClient.EndTransfer | client.py:263-281 | reads the end marker and checks `stop` once; cancelled exactly when that check sees `stop`, deleting the file; otherwise a success exactly when the file has the declared size, else a size error with the actual size and the file kept |
| Client.FileDownloaderClient.Download | client.py:176-314 | sends only `DOWNLOAD\|name`, `READY` and `SIZE_RECEIVED`, each only after its predecessor; `READY` is sent exactly when the reply was a `SUCCESS` offer and the first check saw no cancel; a cancel at the first check closes having sent only the request; a malformed offer fails; refusals show the server's message and close; success closes and leaves the first `size` bytes after the size reply, `size` being that reply's value; after the transfer the download is cancelled exactly when the last check saw `stop`, deleting the file; nothing is written before `SIZE_RECEIVED` |
| Client.FileDownloaderClient.HandleResponse | client.py:188-307 | what follows the reply: a cancel at the first check closes with nothing more sent; `READY` is sent exactly when that check saw no cancel and the reply is an offer; a malformed offer fails; a refusal exactly on a reply not starting with `SUCCESS`, shown with `ERROR\|` removed, then the connection is closed; a success closes the connection |
| Interop.RequestReachesServer | client.py:185 | the client's request is a download command to the server, and unpacks into the command word and the name unless the name holds `\|` |
| Interop.OfferReadsAsDefaults | client.py:193-213 | the server's three-field offer is accepted, and read as zero sizes and a zero ratio |
| Interop.FullOfferReadsFigures | client.py:193-198 | an offer of four or more fields, with the ratio written to two decimals, is read field by field: both sizes exactly, the ratio as its two-decimal rounding |
| Interop.RefusalShowsMessage | client.py:302-305 | each of the server's `ERROR\|` replies is a refusal, and the client shows the text after `ERROR\|` |
| Interop.SizeReplyAccepted | client.py:228-232 | the server's size reply passes the client's check and converts back to the archive's size |
| Interop.ListingReachesTable | client.py:118-131 | a listing delivered in one read of at most 4096 bytes fills the table with one row per regular file, in the server's order, when no file name holds `\|` or `;` |
| Interop.EmptyListingSendsNothing | server.py:41-53 | the `LIST` reply puts no bytes on the wire exactly when the directory could not be read or has no items, and so for every empty or unreadable directory |
| Text.SplitJoin | server.py:49 | splitting on `;` the `;`-join of pieces that hold no `;` gives the pieces back, so the client sees the server's items |
| Text.ReplaceLeading | client.py:303 | removing `ERROR\|` from a text that begins with it and holds no other occurrence leaves the rest |
| Text.ParseIntText | client.py:196-197 | `int` reads back the decimal text of any integer |
| Text.ParseFloatDecimal | client.py:198 | `float` reads back the decimal text of any natural number |
| Text.DigitsValueDecimal | client.py:232 | `int` reads back the decimal text of any size |
| Text.TwoPlaces | client.py:198 | `float` reads a text with two fractional digits as its whole part plus its hundredths |
| Text.TwoDigitsValue | client.py:198 | two decimal digits read back as the number they write |

## Left out

- The Tk user interface, message boxes, status texts, the progress bar and `update_info`/`update_progress` (client.py:316 onwards) are not part of this model.
- Threads: `download` runs on its own thread and `cancel_download` from the GUI. The model has no concurrency. It records the clicks before each check of `stop` as a sequence that the checks consume.
- The SQLite database written by `log_to_db` (server.py:14-39): a call of `log_to_db` is an audit event in the trace. Database errors are caught by `log_to_db` and have no effect on the protocol.
- Server.ReceiveFailedText, Server.NotUtf8Text: the texts `connection error` and `'utf-8' codec can't decode` stand for the messages of the exceptions that a failed `recv` and a failed decoding raise, which `str(e)` puts into the `ERROR|` reply (server.py:135-136). Python's real messages depend on the error and are not modelled; only their lack of an `E` is relied on.
- ZIP compression, `os.path.exists`/`getsize`/`listdir`/`isfile`, the archive read and `os.remove` are oracles, indexed by the number of the command on the connection. The logged compressed size is the size of the archive that was sent.
- Opening sockets, `connect`, `settimeout`, `accept` and the server's thread per connection: the model starts with connected sockets. The 30-second timeout appears only as the `Timeout` result of a read. Every input sequence is finite and an exhausted one reads as a closed connection, so a peer that stalls forever is not represented; in the program such a peer keeps the receive loop retrying timeouts until a cancel (client.py:257-258).
- Failures of `send` on either side are assumed not to happen.
- TCP may merge or split sends. The model assumes each send arrives as one delivery, which the protocol's framing relies on; a delivery longer than a read is split across reads.
- An empty or unreadable directory makes `get_file_list` return the empty string (server.py:50, 53), and sending it puts no bytes on the wire (`Interop.EmptyListingSendsNothing`). The listing connection has no timeout (client.py:107), so the client's `recv(4096)` (client.py:119) then blocks until the server closes the connection, and its empty-table branch is reached only then. The model's deliveries are free input: `FileList.EmptyListing` states what the client's parser makes of an empty reply, not that one arrives.
- File names from `os.listdir` that are not valid UTF-8 make `encode('utf-8')` of the listing raise (server.py:92); the connection handler's outer `except` then closes the connection (server.py:144-148). Model strings hold only Unicode scalar values, so every listing encodes and this path is not modelled.
- The archive read (server.py:106-107) and `os.path.getsize` after the transfer (server.py:121) can raise, and the download branch's handler then sends `ERROR|...` in the middle of the handshake or after `FILE_END`. These oracles always succeed in the model, so those replies do not occur.
- Interop.ListingReachesTable: assumes that the listing fits in one `recv(4096)`; longer listings are cut off by the client's read.
- FileList.ListRoundTrip, FileList.ParseItemsOfEntries, Interop.ListingReachesTable: hold only when no file name holds `|` or `;`, which the server does not check. A name with a `;` is split by `data.split(";")` (client.py:125), and only its part after the last `;` becomes a row. A name with a `|` makes `name, size = file_info.split("|")` raise (client.py:129), which ends the refresh with the rows inserted so far and shows an error. `FileList.ParseItemsRows` and `FileList.ParseItemsComplete` state what the parser does with any reply, such names included.
- Archive.RatioText: rounds halves up to two decimals, where Python's `:.2f` rounds the binary float to nearest even. The client's `saved_text` in KB/MB and all other float formatting are left out.
- The save name's time stamp comes from the clock and is a parameter. `OUTPUT_DIR` is left out: files are keyed by their save name.
- `isdigit`, `int` and `float` accept only ASCII digits (with a sign for `int`, and a decimal point for `float`); Unicode digits, whitespace, underscores and exponents are not modelled.
- Failures of `os.remove` on cancel and of `open`/`os.path.getsize` on the client are assumed not to happen.
- Client.FileDownloaderClient.StartDownload: the name is taken from the row as text; Tk's conversion of numeric names (such as `007` read as `7`) is not modelled.
- The progress computation and `print` diagnostics are not modelled. The end-marker read is modelled, but its content is only logged by the client.
