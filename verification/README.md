# Verification of the OP2 browser's protocols

A Dafny model of five parts of the OP2 browser, with proofs about every input and every run.

* **MIME sniffer** (`Mime*.dfy`, `NetworkRequest.dfy`). It guesses a type from the first bytes of a response and a
  hint, and says whether it has seen enough. `MimeSniffer` holds the loops over a byte buffer, each proved to compute
  a function of the bytes (`MimeSpec`). The other modules prove what those functions promise: when "enough" is final
  and when it is not, which orders of tables and phases matter, and what repeated sniffing does.
* **Keyed mailbox** (`MailboxProtocol.dfy`, `MessageQueue.dfy`). `addMsg` and `getMsg` run one statement at a time
  under one lock and one wait set, with lists shared by reference; `MessageQueues` holds the same bodies as a class.
* **Frame embedding** (`FrameProtocol.dfy`, `FrameView.dfy`). A frame swaps one embedded window for another while the
  container answers its requests at any later time.
* **Downloads** (`DownloadFraming.dfy`, `Downloads.dfy`). Web apps frame downloads as messages, and the storage
  process turns the interleaved messages back into files.
* **Asynchronous writes** (`AioProtocol.dfy`, `AIOHelper.dfy`). Control blocks and buffers are allocated, handed to a
  kernel that may finish any request at any time, and reclaimed by a loop that erases from the list it walks.

Where the source updates fields or arrays in place the model is a class or a method over an array, and its `ensures`
ties the new state to a function; the lemmas are about those functions. Where threads, a window system or a kernel act
on their own, the model is a transition system (`Enabled`, `Step`, `Legal`, `After`) and the theorems range over all
legal runs. Where such a state carries a history, a theorem says what the history is in terms of the actions of the run
(`HistoriesOfRun`, `ShowAccounting`, `RoundTrip`, `Ownership`, `GcPass`).

`FrameViews.FrameView.Abs` maps the frame object to its protocol state, and every method equals a protocol step. What
`MessageQueues` computes is shown to be what runs of the mailbox protocol do (`CallIsARun`, `GetMsgIsARun`). The other
two classes share functions with their protocols: `Downloads` has `Packet`, `Chunk` and `WriteFile`, and `AIOHelpers`
has `Keep`. `dafny verify dfyconfig.toml` checks everything.

Two neighbours of these parts are modelled because a theorem needs them. The receiving end of a download
(`DownloadFraming.WriteFile`, `Downloads.Storage`) follows `storage/Storage.cpp:126-193`, called for each message in
order from `storage/StorageManager.cpp:73-91`. `NetworkRequests.NetworkRequest` follows `network/Network.cpp:150-163`
and `:215-228`: it keeps the whole body or at least its first 512 bytes, and `Finish` shows that the type sniffed from
what was kept is the type that the whole body would have got.

## What the code does not do

The header says that the sniffer returns true if it has enough content to guess the type
(`network/mime_sniffer.h:51`). `EnoughIsFinal` gives the exact condition under which more content can still change a
verdict that came with "enough". It fails in three regions, each reached by a concrete input (`RegionsAreReached`):

* hint text/plain, 42 to 511 bytes without a byte order mark, a binary byte or a magic number for text/plain: a later
  binary byte changes the type. Content that begins with a text magic number such as "From" is final even then,
  because the magic number gives the same type;
* a hint that is neither text/plain nor XML, and 2 to 10 bytes of "%!PS-Adobe-": "%!" is already reported as text;
* an XML hint, and a tag cut off by the end of the data: it is rejected at once although it may become a
  declaration or a recognised opening tag. As the fifth tag an unfinished declaration matters only at byte 299, and
  an unfinished opening tag matters only if all of it fits into the first 300 bytes.

Feeding the answer back as the hint is not always a fixpoint either: `OneRoundFixpoint` says exactly when, and
`SecondRoundNeeded` gives content that goes from XML to RSS to a bitmap, and `SecondRoundNeededWithoutHint` content of
unknown type that goes to XML and then to RSS.

The window of the latest `handleEmbed` call is not always embedded in the end. The frame asks the container for a
window only at a call made while it has no client and whenever its window has gone, and the container refuses window 0.
`Convergence` gives the exact condition: a latest window other than 0 is embedded if and only if the frame has not asked
for window 0 only since its window last went. If it has, calls with non-zero clients never recover (`StalledForever`).
This happens when the first call names window 0, and also when a later call names window 0 and the previous window goes
away before the next call (`ZeroWindowStalls`). `WebView::handleEmbed` refuses zero ids (`op-ui/webview.cpp:104-105`),
but the call at `op-ui/webview.cpp:238` passes them on. With non-zero ids the right window always wins
(`NonZeroCallsConverge`).

A finished download is complete only if its reply holds no unread bytes when `finished` fires, because that slot does
not read them. `RoundTrip` states the exact loss, in terms of the run, and `FinishLosesUnreadBytes` gives a run with one; it needs `finished`
to fire without a `readyRead` for the last bytes, which the source neither shows nor excludes.

The name of a download survives the trip exactly if the receiver's decoding of the first message gives the name back.
The web app sends the raw Latin-1 bytes (`webapp/op2-nox/OpDownloader.cpp:88`), while the storage process reads them
as an encoded QVariant (`storage/Storage.cpp:136-139`). `RoundTrip` holds for every decoder `decode`: a file opened
with the name `name` is called `decode(name)`. Two more things can change a name even where the decoding gives back what
was sent: characters outside Latin-1 become question marks (`Latin1RoundTrip`), and the receiving end chooses the name
anew by the same rule (`storage/Storage.cpp:143-153`), which changes it once more if the path ends in something like
"a.." or ".a." (`FileNameIsStable`).

## Model

| member | source | states |
|---|---|---|
| MimeSniffer.StrNCaseEqualIsPrefix | network/mime_sniffer.cc:266-271 | strncasecmp on NUL-terminated strings, with its early stop, is the plain test that the content is long enough and agrees ignoring case |
| MimeSniffer.MatchMagicNumber | network/mime_sniffer.cc:251-282 | returns true exactly if the content is at least as long as the entry and agrees with all of it; writes the type only then |
| MimeSniffer.CheckForMagicNumbers | network/mime_sniffer.cc:284-294 | the first matching entry decides found and type; otherwise result is untouched |
| MimeSniffer.SniffForHTML | network/mime_sniffer.cc:296-312 | searches the tag table from the first byte that is no whitespace |
| MimeSniffer.SniffForMagicNumbers | network/mime_sniffer.cc:314-322 | searches the large table from the first byte |
| MimeSniffer.SniffXML | network/mime_sniffer.cc:342-389 | the loop with its five rounds, 300-byte cut and two skips computes the verdict of XmlScan |
| MimeSniffer.ScanForBinary | network/mime_sniffer.cc:419-440 | LooksBinary: true exactly if there is no byte order mark and some byte looks binary |
| MimeSniffer.CheckUnknownMimeType | network/mime_sniffer.cc:442-469 | true exactly for the four listed hints and for hints without a slash |
| MimeSniffer.SniffMimeType | network/mime_sniffer.cc:518-587 | flag and type together equal the verdict function, for every hint and buffer, though the size is cut and result overwritten on the way |
| MimeMatching.MatchIgnoresCase | network/mime_sniffer.cc:251-282 | a string entry matches exactly the content that starts with its letters in either case, and nothing else is ignored; any other entry matches its exact bytes |
| MimeMatching.TypeOfIsFirst | network/mime_sniffer.cc:284-294 | a search gives the type of the one entry that matches with no match before it, and none if nothing matches |
| MimeTables.ControlCharacters | network/mime_sniffer.cc:398-417 | a byte looks binary exactly if it is a control character other than tab, line feed, form feed, carriage return and escape; white space is space and three of these |
| MimeTables.UnknownTypes | network/mime_sniffer.cc:442-469 | the hints taken as unknown are the three named ones and whatever has no slash |
| MimePolicy.HtmlAfterWhitespace | network/mime_sniffer.cc:296-312 | all leading white space and nothing else is skipped before the tags are tried |
| MimePolicy.LooksBinaryExactly | network/mime_sniffer.cc:419-440 | binary evidence is a control character other than those five, in content that starts with none of the three byte order marks |
| MimePolicy.ShoutedHtml | network/mime_sniffer.cc:268-271 | " <HTML" without a hint is text/html, at once |
| MimePolicy.EnoughExactly | network/mime_sniffer.cc:518-587 | for every hint and content, exactly when the sniffer says "enough": by kind of hint, from 42 bytes on, on a tag, a magic number or a decided XML scan, and always from 512 bytes on |
| MimeMatching.FirstMatchStable | network/mime_sniffer.cc:287-293 | if every earlier entry is a definite miss, the same entry is found in every extension of the content |
| MimeMatching.EnoughForMagic | network/mime_sniffer.cc:149-151 | from 42 bytes on every table gives the same answer for the content and all its extensions |
| MimeOrder.TwoMagicNumbersMatch | network/mime_sniffer.cc:167-216 | no content matches two magic numbers except PostScript and its prefix "%!" |
| MimeOrder.FirstMatchIsLongest | network/mime_sniffer.cc:167-216 | the entry found in kMagicNumbers is at least as long as every other entry that matches |
| MimeOrder.TagOrderIrrelevant | network/mime_sniffer.cc:225-249 | any rearrangement of kSniffableTags gives the same type for all content |
| MimeOrder.XmlTagOrderIrrelevant | network/mime_sniffer.cc:325-334 | any rearrangement of kMagicXML gives the same type for all content |
| MimeOrder.MagicNumberOrder | network/mime_sniffer.cc:167-216 | a rearrangement of kMagicNumbers gives the same types for all content if and only if PostScript stays before "%!" |
| MimeOrder.MagicExcludesHtml | network/mime_sniffer.cc:296-322 | once a magic number has matched, no extension of the content matches a sniffable tag |
| MimeOrder.PhasesCommute | network/mime_sniffer.cc:539-584 | for an unknown hint, trying the magic numbers before the HTML tags gives the same verdict on all content |
| MimeXmlScan.ScanDecidesOnFirstPlainTag | network/mime_sniffer.cc:349-383 | the scan decides on a tag exactly if it is the first one in 300 bytes that opens no declaration, with fewer than five tags before it |
| MimeXmlScan.FirstPlainTagType | network/mime_sniffer.cc:372-382 | at that tag the answer is the type of the opening tag that fits into the 300 bytes, and a rejection exactly if none of the three does |
| MimeXmlScan.ScanGivesUpAfterFive | network/mime_sniffer.cc:356-388 | without such a tag the scan is decided exactly if five declarations come first and more of the 300 bytes follow them |
| MimeXmlScan.ReachIsExact | network/mime_sniffer.cc:356-370 | a declaration at byte 299 is recognised only with its last byte, the 308th |
| MimeXmlScan.ScanResumes | network/mime_sniffer.cc:356-383 | the scan of an extension reaches the tag that ended the scan of the prefix, in the same round |
| MimeXmlScan.SniffXmlIsLocal | network/mime_sniffer.cc:342-389 | flag and type of the XML scan depend on the first 308 bytes only |
| MimeXmlScan.FeedIsFinal | network/mime_sniffer.cc:372-375 | a recognised opening tag gives the same result on every extension, through the skipped declarations and the 300-byte cut |
| MimeXmlScan.RejectedStable | network/mime_sniffer.cc:361-382 | a rejected tag that can no longer become a declaration or a feed is rejected with the same verdict in every extension |
| MimeStability.BinaryIsMonotone | network/mime_sniffer.cc:392-440 | content that looks binary looks binary in every extension, so a byte order mark cannot be completed afterwards |
| MimeStability.EnoughIsFinal | network/mime_sniffer.h:43-51 | when the sniffer says "enough", no further bytes can change flag or type if and only if the content lies outside the three regions |
| MimeStability.BinaryByteDecides | network/mime_sniffer.cc:549-557 | for text/plain, an extension changes the verdict exactly if the region holds and a binary byte is among its first 512 |
| MimeStability.PostScriptDecides | network/mime_sniffer.cc:569-572 | in the "%!" region, an extension changes the verdict exactly if it completes the PostScript entry |
| MimeStability.TagDecides | network/mime_sniffer.cc:356-388 | in the cut-off tag's region, an extension changes the verdict exactly if the tag becomes a recognised opening tag, or a declaration after which such a tag follows or the scan stays undecided below 512 bytes |
| MimeStability.RegionsAreReached | network/mime_sniffer.cc:552-586 | each of the three regions contains content on which the sniffer says "enough" |
| MimePolicy.WindowBound | network/mime_sniffer.cc:530-534 | the verdict depends on the first 512 bytes only and is always "enough" once there are 512 |
| MimePolicy.HintPolicy | network/mime_sniffer.cc:539-587 | which types each kind of hint can turn into; never an unknown type, and never HTML or XML from text/plain or octet-stream |
| MimePolicy.OneRoundFixpoint | network/mime_sniffer.cc:518-587 | sniffing again with the answer as hint gives the same type if and only if neither of two named cases holds |
| MimePolicy.TwoRoundsFixpoint | network/mime_sniffer.cc:518-587 | for every hint and content the type is stable from the second round on |
| MimePolicy.SecondRoundNeeded | network/mime_sniffer.cc:559-572 | content for which the second round does change the type of an XML hint |
| MimePolicy.SecondRoundNeededWithoutHint | network/mime_sniffer.cc:539-567 | content for which the second round does change the type of an empty hint |
| MailboxProtocol.StepInv | shared_java/message/MessageQueue.java:52-82 | every statement of every thread keeps the invariant: one list per key, current references, mutual exclusion, no lost wake-up, conservation |
| MailboxProtocol.MailboxSafety | shared_java/message/MessageQueue.java:52-82 | in every run remove() never meets an empty list, each key's messages are those delivered followed by those queued in order, and a parked thread sees an empty list unless its notification is due |
| MailboxProtocol.NothingCrossesKeys | shared_java/message/MessageQueue.java:64-82 | every delivered message was added and carries the value that was asked for |
| MailboxProtocol.HistoriesOfRun | shared_java/message/MessageQueue.java:52-82 | over every run, what has been added is what the calls of addMsg have brought, in lock order, but for the holder's own message; each thread has been served exactly for the keys that it asked for, in order, but for the one it is waiting for |
| MailboxProtocol.HolderAdvances | shared_java/message/MessageQueue.java:52-82 | the lock holder can always run its next statement and gets nearer to releasing the lock |
| MailboxProtocol.LockIsFreed | shared_java/message/MessageQueue.java:52-82 | at most three statements of the holder free the lock |
| MailboxProtocol.ConsumerIsServed | shared_java/message/MessageQueue.java:72-81 | with the lock free and a message queued, every consumer waiting for that key is awake, and three steps deliver the oldest message to it |
| MailboxProtocol.KeyIsServed | shared_java/message/MessageQueue.java:52-82 | in every reachable state with a thread waiting for a key that has messages, whoever holds the lock, at most six steps deliver the oldest of them to a thread that asked for that key |
| MailboxProtocol.AddMsgCall | shared_java/message/MessageQueue.java:52-62 | an undisturbed addMsg appends under its value, changes nothing else and leaves nobody parked |
| MailboxProtocol.GetMsgCall | shared_java/message/MessageQueue.java:64-82 | an undisturbed getMsg on a key with messages delivers the oldest and removes only it |
| MailboxProtocol.GetMsgWaits | shared_java/message/MessageQueue.java:72-75 | getMsg on a key without messages parks under that key, releases the lock and changes no contents |
| MessageQueues.MessageQueue.AddMsg | shared_java/message/MessageQueue.java:52-62 | the body over the map of shared lists has the effect that AddMsgCall gives, and never replaces a list |
| MessageQueues.MessageQueue.GetMsg | shared_java/message/MessageQueue.java:64-82 | the loop around wait(), with other threads' calls in between, returns and leaves what Getting says |
| MessageQueues.GetMsgReturnsAtFirstMessage | shared_java/message/MessageQueue.java:72-81 | getMsg sleeps through exactly the waits that leave its key empty and then takes the oldest message |
| MessageQueues.CallIsARun | shared_java/message/MessageQueue.java:52-82 | a call of another thread, run to its end or until it waits, is a legal run of the protocol with the effect that the class model gives it |
| MessageQueues.GetMsgIsARun | shared_java/message/MessageQueue.java:64-82 | for every state and every sequence of waits there is a run of the protocol that delivers the message and leaves the contents that the class's getMsg gives |
| FrameProtocol.NonZeroClientsAskWhenIdle | op-ui/frameview.cpp:97-112 | calls with non-zero clients, with any windows and events in between, never ask the container while it is occupied or owes an answer |
| FrameProtocol.RunInv | op-ui/frameview.cpp:97-130 | over every run, with any ids: with nothing outstanding the container is empty, or holds the wanted window, which has been shown, unless window 0 is wanted; otherwise one embedding or discarding is outstanding |
| FrameProtocol.SettlesInDistance | op-ui/frameview.cpp:114-130 | from any such state the container's answers end after exactly the number of steps that Distance gives |
| FrameProtocol.CallSettles | op-ui/frameview.cpp:97-130 | a call takes exactly one answer for the window that has to go and one for the window that comes, whatever was outstanding before it |
| FrameProtocol.IdleAfterAskingForZero | op-ui/frameview.cpp:97-118 | over every run the frame has nothing embedded and nothing outstanding exactly if it has asked for window 0 only since its window last went |
| FrameProtocol.Convergence | op-ui/frameview.cpp:97-130 | after any run, with any ids, at most three answers leave nothing outstanding; a non-zero window of the latest call is then embedded, and its client told to show itself, if and only if the frame has not asked for window 0 only since its window last went |
| FrameProtocol.NonZeroCallsConverge | op-ui/frameview.cpp:97-130 | with non-zero ids the latest call's window is embedded and shown at most three answers later |
| FrameProtocol.OneZeroIsEnough | op-ui/frameview.cpp:97-118 | with non-zero clients that condition fails exactly if the first call names window 0, or a window goes while the latest call names it |
| FrameProtocol.StalledForever | op-ui/frameview.cpp:97-112 | a frame with a client, an empty container and nothing outstanding stays so under all calls with non-zero clients |
| FrameProtocol.ZeroWindowStalls | op-ui/frameview.cpp:97-118 | two runs that stall: window 0 in the first call, and window 0 while the previous window goes away |
| FrameProtocol.CloseAccounting | op-ui/frameview.cpp:72-112 | over any run ended by destruction, with any ids, the clients closed are the non-zero clients embedded, in order, once each; a call's close directly follows its container update |
| FrameProtocol.StepShows | op-ui/frameview.cpp:120-154 | of all steps, only the embedding of the window wanted now sends a show message: one, to the client in charge, if it is not 0 |
| FrameProtocol.ShowAccounting | op-ui/frameview.cpp:120-154 | over every run, with any ids, the show messages are those of such embeddings, in order |
| FrameViews.FrameView.HandleEmbed | op-ui/frameview.cpp:97-112 | updates ids, container, old client and request as the step of the protocol |
| FrameViews.FrameView.SetClientIds | op-ui/frameview.cpp:90-95 | stores both ids and announces the new client |
| FrameViews.FrameView.OnEmbedded | op-ui/frameview.cpp:120-130 | the embedded event and its slot: show the wanted window, discard any other |
| FrameViews.FrameView.OnClosed | op-ui/frameview.cpp:114-118 | the closed event and its slot: embed the window wanted now |
| FrameViews.FrameView.Destroy | op-ui/frameview.cpp:72-78 | closes the last client, if there is one |
| DownloadFraming.ReceiveDemultiplexes | webapp/op2-nox/OpDownloader.cpp:85-134 | however downloads interleave, each file depends on its own messages alone |
| DownloadFraming.ParseOfStream | webapp/op2-nox/OpDownloader.cpp:85-146 | what any stream means, framed or not: the first message names the file, the messages up to the first empty one are its contents, and nothing after that changes it |
| DownloadFraming.ParseOfFramed | webapp/op2-nox/OpDownloader.cpp:85-146 | with any decoder of names, parsing a name, non-empty chunks and a terminator gives the decoded name, the concatenated chunks and a closed file |
| DownloadFraming.StepInv | webapp/op2-nox/OpDownloader.cpp:50-146 | every construction, arrival, read and finish keeps every download's stream framed and its ids unused by others |
| DownloadFraming.FilesMatchDownloads | webapp/op2-nox/OpDownloader.cpp:72-146 | in every reachable state the storage process has exactly the files of the downloads, closed when finished, each lacking just what its reply holds unread; every stream is framed |
| DownloadFraming.DownloadOfRun | webapp/op2-nox/OpDownloader.cpp:50-146 | the name, the bytes received, the bytes unread and the end of each download are what the run has done to it since its construction |
| DownloadFraming.RoundTrip | webapp/op2-nox/OpDownloader.cpp:50-146 | over every interleaving and for every decoder of names, each construction without error makes one file, under the decoded name; file and unread rest together are what the reply held at construction and all that arrived since; it is closed exactly if the reply has finished; there are no other files |
| DownloadFraming.FinishLosesUnreadBytes | webapp/op2-nox/OpDownloader.cpp:127-146 | a run whose file is closed without a byte that had arrived |
| DownloadFraming.KeysAreDistinct | webapp/op2-nox/OpDownloader.cpp:48-61 | no two constructions of a run have the same web app and request id, even with failed ones in between |
| Downloads.OpDownloader.constructor | webapp/op2-nox/OpDownloader.cpp:50-93 | takes a new id; for a reply in error sends nothing, otherwise sends the file's name and then what the reply already holds |
| Downloads.PartsOfFile | webapp/op2-nox/OpDownloader.cpp:113-115 | base name and suffix are the last part of the path, split at its last dot |
| Downloads.FileNameCases | webapp/op2-nox/OpDownloader.cpp:113-124 | the name sent is the last part of the path, except that an empty name becomes "unknown", a name whose only dot comes first gets "unknown" in front, and a dot at the end is dropped |
| Downloads.FileNameIsStable | webapp/op2-nox/OpDownloader.cpp:113-124 | choosing the name again changes nothing, exactly if what is left after dropping a final dot neither ends in a dot nor has its only dot first |
| Downloads.Latin1RoundTrip | webapp/op2-nox/OpDownloader.cpp:88 | a name survives as Latin-1 exactly if all its characters are Latin-1; the others become question marks |
| Downloads.OpDownloader.GetFileName | webapp/op2-nox/OpDownloader.cpp:113-124 | reassigning both parts gives the name of FileNameCases |
| Downloads.OpDownloader.DownloadReadyRead | webapp/op2-nox/OpDownloader.cpp:127-134 | drains the reply and sends what it held unless that was nothing |
| Downloads.OpDownloader.Finished | webapp/op2-nox/OpDownloader.cpp:140-146 | sends the empty terminator only if a name was sent |
| AioProtocol.Ownership | kernel/AIOHelper.cpp:93-158 | over every interleaving of writes, passes and completions the accepted requests are the writes for which aio_write gave 0, in order; the live blocks are the distinct contents of the list, each with the file, the length and a buffer of its own holding the payload of its write; and each accepted request is freed once and only after its completion, even if freed addresses are handed out again |
| AioProtocol.CompletionIsReported | kernel/AIOHelper.cpp:99-103 | a completion makes aio_error report its error for that block alone, and changes nothing else of the process |
| AioProtocol.GcPass | kernel/AIOHelper.cpp:99-117 | whatever completes within a pass, the list it found is filtered in order by the status that each block had at its own turn, and everything complete when the pass began has been freed |
| AioProtocol.PassStep | kernel/AIOHelper.cpp:99-117 | within a pass nothing is submitted, and each turn takes the status of the next block of the list that the pass found and frees exactly that block's submission if it is not in progress |
| AioProtocol.FilterTurn | kernel/AIOHelper.cpp:99-117 | erasing at the iterator, or advancing it, extends the filtered prefix by one visited block |
| AioProtocol.GcTerminates | kernel/AIOHelper.cpp:99-117 | each turn is possible and shortens what is left, whatever the statuses |
| AIOHelpers.AIOHelper.Write | kernel/AIOHelper.cpp:121-158 | on success remembers a new block with a private copy of the payload; on failure frees both allocations and changes nothing |
| AIOHelpers.AIOHelper.Gc | kernel/AIOHelper.cpp:99-117 | the in-place erasing loop equals the filter, and exactly the removed blocks and their buffers are freed |

## Left out

- The sniffer's `ShouldSniffMimeType`, histograms and debug checks: a list lookup and comments.
- Reads beyond the buffer in the XML scan (`network/mime_sniffer.cc:361`): the buffer is taken to end in a NUL, so a declaration cut off by the end of the data does not match.
- Byte order in strings and signedness of `char`: bytes are 0 to 255, as memcmp and the binary table see them.
- Interrupts in `getMsg`: threads are not interrupted while they wait.
- Fairness of the scheduler and of the lock: progress is stated as what can always happen next, not as what must.
- MessageQueues.MessageQueue.GetMsg: the other threads' calls during a wait are a parameter, and each runs to its end or until it waits; single statements interleave in MailboxProtocol.
- X11 failures: an embed request is assumed to be answered; window 0 is refused as the container does.
- FrameProtocol.Convergence: what the container does with a request that meets an outstanding one, or with a window that meets one it holds, is an assumption, since the source does not say. The model lets the later request or window take the earlier one's place. A second discard, made by a call while the first still owes its answer, is in the same way answered once with the first. Apart from such discards, calls with non-zero clients never get there.
- Truncation of window ids to int in the frame: X11 ids are small.
- DownloadFraming.RoundTrip: how the storage process makes a file name of the first message (QVariant, QDataStream) is a parameter.
- Qt signals: a slot is called when the model's event says so.
- File names already in use, files that cannot be opened, and the progress messages to the user interface in `storage/Storage.cpp`.
- Downloads.OpDownloader.constructor: a null reply is not modelled (the source dereferences it, `webapp/op2-nox/OpDownloader.cpp:74-76`), and a reply in error is taken to send no more signals before its object is deleted.
- The header and URL parsing in `getFileName` before it has a path; QFileInfo is taken to split the last part of the path at its last dot.
- Overflow of the int counter of request ids: it is unbounded in the model.
- The Apple branch, the singleton, the error text and the handling of short writes in `kernel/AIOHelper.cpp`; nothing is claimed about the order of asynchronous writes and the synchronous fallback.
