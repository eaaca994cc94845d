# Verified model of the vishaya capture pipeline

This project models, in Dafny, the parts of vishaya whose correctness spans several functions or a
whole run, and proves what they promise:

| module | what it models |
|---|---|
| `Correlation` | the kernel-side maps that join a syscall's enter and exit, as a state machine and as a class with the map and counters |
| `SocketTracking` | the network handlers: the same machine plus the map of socket descriptors that gates read, write and close |
| `DnsName`, `DnsMessage` | the DNS name parser with compression pointers, and the message decoder on top of it |
| `HttpRequest`, `HttpHost` | the plaintext HTTP/1.x status-line and request decoder, and what it makes of the Host header |
| `EventLog` | the write-ahead log writer, the session that counts events, and the chunked log reader |
| `ArtifactCollector` | the bounded, deduplicating, content-addressed file collector |
| `ProcessTree`, `TreeWalk`, `TreeWays` | the reconstruction of the process tree, the walks over trees that may be corrupt, and what they print, told by the ways down from the root |
| `Manifest`, `Bundle`, `BundleWriter` | the manifest and its signing payloads, the reader that verifies a bundle, and the writer |
| `Basics`, `NetworkEvent` | optional values and results; the event kinds and fields the network modules share |

Code that updates state step by step is modelled by classes and by methods with loops. Each is proved
against a function (`Next`, `Parse`, `Decode`, `Feed`, `Step`, `Walk`, `Written`, ...), and the theorems
are proved about that function over all inputs or all runs. Besides the theorems that span several
operations, the laws named `...Iff` and `...Say(s)` give each operation's answers by its inputs alone, with
the constants written out. Code the model cannot see is a parameter: the hash, the JSON dumps and parser, the signer and the verifier, the archive's entries and chunks, the
answers of the file system and of every system call, the gates, reservations and map updates of the
kernel side. What is assumed of them stands in the `requires` clause of the theorem that needs it
(`Manifest.Lawful`, `BundleWriter.LibsLawful`, `BundleWriter.Honest`, `Bundle.Injective`).

Check everything with `dafny verify dfyconfig.toml`.

## Findings

Five things the source says or suggests do not hold of the code; the model follows the code, and each
has a theorem that says, for all inputs, exactly when the code does meet it.

- `dns_parse_name` is documented to return the empty string on malformed input. It does so if and only if
  no label precedes a pointer on the way (`DnsName.MalformedIsEmptyIff`); `DnsMessage.MalformedNotEmpty` is
  a family of captures on which it does not.
- If the event gate changes between a call's entry and its exit, the stale entry can collide with the next
  call of the kind, whose exit then submits the older call's arguments. A record belongs to its own call if
  and only if no earlier entry was still open when the call began (`Correlation.PairsIff`);
  `Correlation.GateFlipMispairs` is a run where one was.
- The HTTP decoder looks for each spelling of the Host header followed by exactly one space, which is more
  than section 3.2 of RFC 7230 demands of a header: `HttpHost.HostRecoveredIff` and
  `HttpHost.UnobscuredHostIff` say when the host is recovered, `HttpHost.NoSpaceLosesHost` is a request for
  which it is not.
- The decoder searches the whole capture for each spelling in turn, so a body can overshadow the header
  (`HttpHost.HostPlaceIff`, `HttpHost.BodyOvershadowsHeader`).
- The 1000-hop search for orphans is exact with up to 999 records besides the root, and misses a process if
  and only if its chain first arrives at hop 1000 or later (`TreeWalk.MissedIff`,
  `TreeWalk.ThousandHopsCanMiss`).

## Model

| member | source | states |
|---|---|---|
| `Correlation.Probe.SaveEnterState` | bpf/vishaya_common.bpf.h:1083-1119 | an enter payload is stored unless the key is taken (counted as a collision) or the update fails (counted as a save failure); an entry already there is never overwritten |
| `Correlation.Probe.OnEnter` | bpf/vishaya_file.bpf.c:11-72 | the enter handlers make exactly the Enter step of the state machine, branch by branch, drop counters included |
| `Correlation.Probe.EmitExitEvent` | bpf/vishaya_common.bpf.h:1149-1197 | the exit path makes exactly the Exit step of the machine, for which RecordSays and StepSays say what is recorded and counted; the entry is deleted on every path |
| `Correlation.Probe.OnExit` | bpf/vishaya_syscall.bpf.c:46-58 | the gated exit handler makes exactly the Exit step |
| `Correlation.Probe.OnEvict` | bpf/vishaya_common.bpf.h:226-231 | eviction from the LRU map makes exactly the Evict step |
| `Correlation.Conservation` | bpf/vishaya_common.bpf.h:1083-1197 | over every run: gated entries, stored entries and gated exits are each split exactly into their outcomes, and the reserve-failure counter is the sum of both kinds |
| `Correlation.NoExtraLosses` | bpf/vishaya_file.bpf.c:11-72 | for the file and syscall handlers the two extra loss terms of Conservation are zero, which leaves the three plain equations |
| `Correlation.OriginExplainsPending` | bpf/vishaya_common.bpf.h:1083-1119 | over every run: a key is pending iff some step stored it, with that step's payload, and no gated exit or eviction of the key has come since |
| `Correlation.SubmittedHasOrigin` | bpf/vishaya_common.bpf.h:1149-1197 | over every run: each submitted record completes the payload of a stored entry of the same key, and adds nothing else to the ring buffer |
| `Correlation.StepSays` | bpf/vishaya_common.bpf.h:1083-1197 | over every run: each counter and the number of records grow by one exactly on the inputs the protocol names, whatever came before |
| `Correlation.RecordSays` | bpf/vishaya_common.bpf.h:1149-1197 | over every run: a submitted record has the key and time of its exit, as return value all 64 bits for a syscall event and for the others the signed 32-bit number congruent to it (the value itself when it fits), and the arguments of the entry that was pending |
| `Correlation.EmittedOnce` | bpf/vishaya_common.bpf.h:1149-1197 | over every run: two submissions never share the stored entry they complete |
| `Correlation.PendingIffOpen` | bpf/vishaya_common.bpf.h:1083-1197 | over every run, whatever the gates do: a key is pending iff some passing entry of it has met neither a gated exit nor an eviction since, which the steps alone decide |
| `Correlation.CollidesIff` | bpf/vishaya_common.bpf.h:1086-1092 | over every run: an entry collides iff it holds its reservation and finds its key open in that sense |
| `Correlation.CollisionsCounted` | bpf/vishaya_common.bpf.h:1086-1092 | over every run: the collision counter is the number of such entries |
| `Correlation.PairsIff` | bpf/vishaya_common.bpf.h:1149-1197 | in a run whose entries and exits alternate, whatever the gates do: an exit submits a record iff its key is open, and the record completes the entry of its own call iff no earlier entry was still open when that call began |
| `Correlation.OpenIsCurrent` | bpf/vishaya_common.bpf.h:1149-1197 | when the gate also answers alike at an entry and its exit, the only entry that can be open is that of the call in progress |
| `Correlation.PendingIsOpenCall` | bpf/vishaya_common.bpf.h:1083-1119 | in a well-paired run a key is pending iff its call is open, the entry met no failure, and it has not been evicted since |
| `Correlation.Pairing` | bpf/vishaya_common.bpf.h:1149-1197 | in a well-paired run, under any interleaving, eviction and failure, an exit submits a record iff its own entry got stored and survived, and the record carries that entry's arguments and this exit's return value |
| `Correlation.NoCollision` | bpf/vishaya_common.bpf.h:1086-1092 | in a well-paired run no collision is ever counted |
| `Correlation.GateFlipMispairs` | bpf/vishaya_common.bpf.h:459-464 | a run that fails the condition of PairsIff: the gate closes inside a call, and the next exit submits the older call's arguments |
| `SocketTracking.NetworkProbe.AddSocketFd` | bpf/vishaya_common.bpf.h:1199-1207 | adds exactly the descriptor under the caller's tgid, or nothing when the update fails |
| `SocketTracking.NetworkProbe.DeleteSocketFd` | bpf/vishaya_common.bpf.h:1209-1214 | removes exactly that descriptor of the tgid |
| `SocketTracking.NetworkProbe.OnEnter` | bpf/vishaya_network.bpf.c:632-663 | an enter handler makes exactly the machine's step; the read/write family and close are admitted iff the descriptor is in the map |
| `SocketTracking.NetworkProbe.TrackSockets` | bpf/vishaya_common.bpf.h:1264-1305 | the record's descriptor fields and the new socket map, per kind and return value |
| `SocketTracking.NetworkProbe.OnExit` | bpf/vishaya_common.bpf.h:1226-1242 | the exit handler makes exactly the machine's step, socket map included |
| `SocketTracking.NetworkProbe.OnEvict` | bpf/vishaya_common.bpf.h:270-275 | eviction makes exactly the machine's step |
| `SocketTracking.NetworkRefinesCorrelation` | bpf/vishaya_common.bpf.h:1226-1371 | every network run is a correlation run with the same pending entries, counters and records, so all run theorems carry over |
| `SocketTracking.NetworkPairing` | bpf/vishaya_common.bpf.h:1226-1242 | in a well-paired network run a submitted record carries the (truncated) descriptor and result pointer of exactly the entry whose exit supplied its return value |
| `SocketTracking.NetworkRecordSays` | bpf/vishaya_common.bpf.h:1264-1305 | in a well-paired network run the descriptor fields of a submitted record, kind by kind: the new descriptor of socket in fd, of accept and accept4 in peer_fd next to the listening one, both members of socketpair, and for every other or failed call the descriptor of its own entry |
| `SocketTracking.SocketsSay` | bpf/vishaya_common.bpf.h:1264-1305 | the socket map after an exit, kind by kind and with failing updates: what socket, accept, accept4 and socketpair add, what close removes, and that nothing else changes it |
| `SocketTracking.KeyOfDescriptor` | bpf/vishaya_common.bpf.h:1199-1223 | the map is keyed by tgid and descriptor, whatever the thread and the kind |
| `SocketTracking.NetworkNoCollision` | bpf/vishaya_common.bpf.h:1126-1134 | in a well-paired network run no collision is counted |
| `SocketTracking.SocketMapIsLiveSockets` | bpf/vishaya_common.bpf.h:1199-1305 | for a tgid whose calls do not overlap and for which nothing fails, the map holds after every run exactly the descriptors handed out and not closed since, whatever close returned; handed out are, said kind by kind, the return values of socket, accept and accept4 and both members of socketpair; other tgids are free |
| `SocketTracking.EmittedForLiveSockets` | bpf/vishaya_network.bpf.c:632-996 | for such a tgid, an exit of the read/write family or close submits a record iff its descriptor is a live socket; any other exit always does |
| `DnsName.DnsParseName` | src/capture/protocol_decoder.cpp:34-78 | the loop with its cursor and recursion computes Parse of the first plen bytes only, and terminates by depth, then by what is left |
| `DnsName.NameBounds` | src/capture/protocol_decoder.cpp:34-78 | on arbitrary bytes, pointer loops included: the cursor moves forward only and stays inside, and the name has at most 17 times plen characters |
| `DnsName.ParseByLevel` | src/capture/protocol_decoder.cpp:34-78 | the accumulating parser equals the level-by-level reading of labels and pointers |
| `DnsName.ParseCorrect` | src/capture/protocol_decoder.cpp:34-78 | a name that resolves (sections 3.1 and 4.1.4 of RFC 1035) through at most 16 pointers is returned as its labels joined by dots, with the cursor just past its zero byte or first pointer |
| `DnsName.EncodedResolves` | src/capture/protocol_decoder.cpp:34-78 | an encoded label list resolves to those labels wherever it is placed |
| `DnsName.DecodeEncoded` | src/capture/protocol_decoder.cpp:34-78 | decoding inverts encoding for every label list and every text before and after it |
| `DnsName.DecodeCompressed` | src/capture/protocol_decoder.cpp:49-60 | the same for labels that end in a pointer to a name that resolves |
| `DnsName.SixteenPointers` | src/capture/protocol_decoder.cpp:34-60 | of a name that resolves, exactly the labels along the first 16 pointers are returned, which is the whole name when no more are needed |
| `DnsName.BrokenNameIsEmpty` | src/capture/protocol_decoder.cpp:63-74 | a reserved length byte or a label running past the end makes the whole name empty, whatever labels came before |
| `DnsName.MalformedIsEmptyIff` | src/capture/protocol_decoder.cpp:30-33 | a name that does not resolve gives the empty string iff no label precedes a pointer on the way; the comment there promises the empty string always |
| `DnsMessage.FormatRdataAt` | src/capture/protocol_decoder.cpp:109-130 | the rendering of one record's data depends on the captured bytes only |
| `DnsMessage.TryDecodeDns` | src/capture/protocol_decoder.cpp:165-271 | the gate on kind, transport and port, then the decoding of the first min(payload_len, 128) bytes and nothing else |
| `DnsMessage.DecodeAnswers` | src/capture/protocol_decoder.cpp:230-258 | the answer loop equals the recursive reading of records; a failed owner name does not stop it |
| `DnsMessage.ReadAnswer` | src/capture/protocol_decoder.cpp:234-255 | one turn of the answer loop: a record and the cursor after it, or the end of the loop |
| `DnsMessage.AnswersBounded` | src/capture/protocol_decoder.cpp:233-256 | on arbitrary bytes at most (plen - pos)/10 records, even after failed name parses |
| `DnsMessage.NameRdata` | src/capture/protocol_decoder.cpp:117-125 | CNAME, NS and PTR data that resolves is rendered as the joined name |
| `DnsMessage.MalformedNotEmpty` | src/capture/protocol_decoder.cpp:30-33 | the failing family: for a question of some labels and a pointer past the end of the capture no name resolves, yet an event with those labels as its name is reported |
| `DnsMessage.FittingIsLongest` | src/capture/protocol_decoder.cpp:233-256 | the reported number of records is the longest prefix lying wholly within the cut |
| `DnsMessage.ReadRecord` | src/capture/protocol_decoder.cpp:233-256 | an A or AAAA record (section 4.1.3 of RFC 1035) lying wholly inside is read back exactly, TTL included |
| `DnsMessage.CutRecord` | src/capture/protocol_decoder.cpp:233-256 | a record that does not lie wholly inside ends the loop |
| `DnsMessage.AnswersOfCut` | src/capture/protocol_decoder.cpp:230-258 | records read from a cut message are exactly the longest prefix that fits, in order |
| `DnsMessage.CutResponse` | src/capture/protocol_decoder.cpp:190-257 | a one-question response cut anywhere past its question is decoded to that question and exactly the longest prefix of records lying wholly within the cut |
| `DnsMessage.CutQuery` | src/capture/protocol_decoder.cpp:190-265 | a one-question message with the top flag bit clear, whatever its other flags, cut anywhere past its question, is decoded to a query of that name, type and class, without answers |
| `DnsMessage.CutQuestion` | src/capture/protocol_decoder.cpp:211-222 | a capture that ends inside the question gives no event |
| `DnsMessage.NoQuestionNoEvent` | src/capture/protocol_decoder.cpp:211-222 | a header that counts no question gives no event, nor does a question for the root |
| `DnsMessage.DnsGateIff` | src/capture/protocol_decoder.cpp:165-188 | which flows are decoded, by the numbers of the event kinds, transport and ports |
| `DnsMessage.RdataSays` | src/capture/protocol_decoder.cpp:109-130 | an address is rendered iff it has the length of its type, and types other than A, NS, CNAME, PTR and AAAA never are |
| `DnsMessage.FailedOwnerReadOn` | src/capture/protocol_decoder.cpp:233-256 | after an owner name that fails on a reserved byte the record is read on from that very byte, with an empty name |
| `HttpRequest.FindIsFirst` | src/capture/protocol_decoder.cpp:318-330 | the substring search returns the first occurrence, or says that there is none |
| `HttpRequest.TryDecodeHttp` | src/capture/protocol_decoder.cpp:297-406 | the gate on length, kind and port, then the decoding of the first min(payload_len, 128) bytes and nothing else |
| `HttpRequest.RecoverRequest` | src/capture/protocol_decoder.cpp:352-406 | the request branch with its early returns computes DecodeRequest |
| `HttpRequest.RecoverHost` | src/capture/protocol_decoder.cpp:375-389 | the three searches for the Host header compute HostValue |
| `HttpRequest.StatusLineRecovered` | src/capture/protocol_decoder.cpp:318-350 | a captured status line (section 3.1.2 of RFC 7230) gives an event iff its code is between 100 and 599, with version, code and captured reason exact |
| `HttpRequest.VerbIsFound` | src/capture/protocol_decoder.cpp:283-295 | a payload that starts with a supported method and a space is recognised as that method, and never as a response |
| `HttpRequest.RequestLineRecovered` | src/capture/protocol_decoder.cpp:352-374 | any capture containing the request line (section 3.1.1 of RFC 7230) yields its method, path and version exactly |
| `HttpRequest.ResponseIff` | src/capture/protocol_decoder.cpp:318-350 | exactly: a capture of at least 12 bytes that starts with "HTTP/1." is decoded to a response iff it starts with a status line of a code from 100 to 599, and then to that version, code and captured reason |
| `HttpRequest.RequestIff` | src/capture/protocol_decoder.cpp:352-406 | exactly: any other capture is decoded to a request iff it starts with a request line of a known method with a nonempty path and an "HTTP/" version, and then to these |
| `HttpRequest.KindByPrefix` | src/capture/protocol_decoder.cpp:276-353 | a capture gives a response only if it looks like one, and a request only if it does not |
| `HttpRequest.MethodIff` | src/capture/protocol_decoder.cpp:283-295 | the nine known methods |
| `HttpRequest.HttpGateIff` | src/capture/protocol_decoder.cpp:297-316 | which flows are looked at, by the numbers of the event kinds and ports |
| `HttpHost.PlaceIff` | src/capture/protocol_decoder.cpp:375-389 | the decoder reads at the first occurrence of the first-tried spelling that occurs in the capture, and nowhere iff none does |
| `HttpHost.MarkersIn` | src/capture/protocol_decoder.cpp:375-389 | up to the end of the Host header (section 3.2 of RFC 7230: name in any case, optional blanks around the value) a search string occurs only at the header's start, and there iff the spelling is its own, a space follows the colon, and it was captured |
| `HttpHost.HostPlaceIff` | src/capture/protocol_decoder.cpp:375-389 | the host is read at its true place iff the header is so written, its search string was captured, and no spelling tried earlier occurs in the capture |
| `HttpHost.HostRecoveredIff` | src/capture/protocol_decoder.cpp:375-389 | from any cut of any request with one Host header (section 5.4 of RFC 7230): the captured part of the true host is reported iff the true place is read and one space alone follows the colon and no trailing blank was captured, or no search string occurs and none of the value was captured, or another place that is read says the same |
| `HttpHost.UnobscuredHostIff` | src/capture/protocol_decoder.cpp:375-389 | with no search string after the header: the host is recovered iff its name is a tried spelling, exactly one space follows the colon, and no trailing blank was captured |
| `HttpHost.RequestRecovered` | src/capture/protocol_decoder.cpp:297-406 | from any cut after the version: method, path and version exactly, and the host exactly when HostRecoveredIff says |
| `HttpHost.UsualHostRecovered` | src/capture/protocol_decoder.cpp:297-406 | with the name "Host", one space and no trailing blank the whole request is recovered from any cut, without further condition |
| `HttpHost.NoSpaceLosesHost` | src/capture/protocol_decoder.cpp:375-389 | a request with "Host:a" for which no host is reported |
| `HttpHost.BodyOvershadowsHeader` | src/capture/protocol_decoder.cpp:375-389 | a failing family: whenever the first search string does not start the header and the body starts with a "Host: " line, what that line says is reported as host |
| `EventLog.SoftErrorsAreHarmless` | src/capture/wal_writer.cpp:17-32 | short writes and interruptions alone never lose a byte |
| `EventLog.AttemptSays` | src/capture/wal_writer.cpp:17-32 | a write goes through the answers of write(2) call by call: it ends when they have taken all bytes, or at the first failure or write of nothing before that, with exactly the bytes taken until there in the file |
| `EventLog.AttemptFailsIff` | src/capture/wal_writer.cpp:17-32 | a line is lost iff a failure or a write of nothing is met while bytes are left |
| `EventLog.WalWriter.WriteAll` | src/capture/wal_writer.cpp:17-32 | everything gets written or, on a hard error, a proper prefix |
| `EventLog.WalWriter.WriteLine` | src/capture/wal_writer.cpp:49-64 | the line and its newline are appended and counted; an empty line is ignored; a closed writer refuses |
| `EventLog.WalWriter.Close` | src/capture/wal_writer.cpp:66-70 | the writer is closed, and closing again changes nothing |
| `EventLog.Session.OnRawEvent` | src/capture/session.cpp:106-141 | a decoded event appends and counts its lines up to the first that fails, and is counted as dropped if one does; an undecodable one is counted as dropped and nothing else changes |
| `EventLog.WriteLinesSays` | src/capture/session.cpp:106-141 | the lines of an event are written one after the other, each with its newline, up to the first that fails, and nothing after that one is tried |
| `EventLog.HandledSays` | src/capture/session.cpp:106-141 | an event counts as dropped, once, iff it cannot be decoded or not all its lines got written; the lines before the failure stay |
| `EventLog.PolledAppend` | src/capture/session.cpp:82-85 | polling goes on after a dropped event: the second part of a batch makes what it makes of the answers the first part leaves |
| `EventLog.Session.Poll` | src/capture/session.cpp:82-85 | whatever the writes do, polling appends and counts exactly the lines Polled says, in order, and counts the rest as dropped; after stop it does nothing |
| `EventLog.PolledInFull` | src/capture/session.cpp:106-141 | without a hard write error that is every line of every decodable event, and only the undecodable events are dropped |
| `EventLog.Session.Stop` | src/capture/session.cpp:87-104 | the kernel drop count is added once, however often stop is called; log and counters stay as they were |
| `EventLog.ForEachEvent` | src/bundle/reader.cpp:136-186 | the chunked reader with its overflow state gives what the concatenated bytes give: chunk boundaries do not matter |
| `EventLog.FlushLine` | src/bundle/reader.cpp:153-163 | the end of a line delivers it, skips it, or counts it as malformed |
| `EventLog.SplitRebuilds` | src/bundle/reader.cpp:136-186 | the lines the reader is judged by hold no newline and rebuild the text |
| `EventLog.ReaderState` | src/bundle/reader.cpp:136-186 | at every point the state is that of the finished lines plus the open one, of which at most the cap and one byte are buffered |
| `EventLog.ReaderDelivers` | src/bundle/reader.cpp:136-186 | on arbitrary bytes the callbacks are exactly the parseable lines within the cap, in order, and every other nonempty line counts as malformed |
| `EventLog.LogRoundTrip` | src/bundle/reader.cpp:136-186 | nonempty, newline-free, parseable lines within 8 MiB come back exactly once each, in order, for every chunking |
| `EventLog.TornLog` | src/capture/wal_writer.cpp:17-64 | whatever the writes did, hard failures included: the file has one line for each line written in full, behind the bytes torn lines left since the last whole one, and ends in what was torn after the last |
| `EventLog.TornLogAccounts` | src/bundle/reader.cpp:136-186 | nothing is lost silently: of such a log callbacks and malformed lines together are the lines written, and the torn end if there is one; a written line is read as it was iff no torn bytes stand before it |
| `EventLog.CaptureThenRead` | src/cli/capture_cmd.cpp:227-249 | a capture of any number of polls, then read back: callbacks and malformed lines account for the events counted as written, and without hard write errors there is one callback per event, each for its own line |
| `ArtifactCollector.InsertKeepsOrder` | src/capture/artifact_collector.cpp:29-57 | the candidate set stays ordered and gains exactly the path |
| `ArtifactCollector.LessIff` | src/capture/artifact_collector.cpp:29-57 | the order of the candidates is by the first byte that differs, a prefix first |
| `ArtifactCollector.ProposedIff` | src/capture/artifact_collector.cpp:31-57 | an event proposes a path iff it succeeded, opened it with one of the three write-intent flags or renamed to it, and the buffer up to its first NUL is an absolute path |
| `ArtifactCollector.CopyBounds` | src/capture/artifact_collector.cpp:126-165 | a successful copy is within the per-file bound and no longer than what was read |
| `ArtifactCollector.CopyIsFaithful` | src/capture/artifact_collector.cpp:126-165 | a successful copy is the file's bytes: interruptions and short writes change nothing |
| `ArtifactCollector.DrainFailsIff` | src/capture/artifact_collector.cpp:126-165 | a chunk fails to be written iff some write fails before its bytes are all taken |
| `ArtifactCollector.CopyDecides` | src/capture/artifact_collector.cpp:126-165 | without hard errors a file is copied whole iff it fits the limit, and is too large otherwise |
| `ArtifactCollector.CopySays` | src/capture/artifact_collector.cpp:126-165 | every copy, with errors or without: it ends at the first chunk that is neither an interruption nor data that drains and fits, and its outcome is told by that chunk |
| `ArtifactCollector.Collector.Observe` | src/capture/artifact_collector.cpp:31-57 | a path becomes a candidate iff the event proposes it and the cap is not reached; past the cap only the truncation is noted |
| `ArtifactCollector.Collector.CopyToTemp` | src/capture/artifact_collector.cpp:126-165 | the read, write and hash loop computes Copy, and the temporary file holds exactly the bytes hashed |
| `ArtifactCollector.Collector.CollectOne` | src/capture/artifact_collector.cpp:71-202 | one turn of the loop computes Step: every status, the merge of duplicates, the totals and the staged files |
| `ArtifactCollector.StatusIff` | src/capture/artifact_collector.cpp:71-202 | each of the seven statuses is given iff the file system or a bound answers as it says, one equivalence a status; a copy whose content is known gets no record of its own |
| `ArtifactCollector.RecordSays` | src/capture/artifact_collector.cpp:71-202 | the size, mode and hash of a candidate's own record |
| `ArtifactCollector.Collector.Finalize` | src/capture/artifact_collector.cpp:59-209 | the loop computes Collect over the candidates in order, and no temporary file remains |
| `ArtifactCollector.KeptFits` | src/capture/artifact_collector.cpp:96-105 | what is kept fits the count and the per-file bound and, unless the file grew after lstat, the total |
| `ArtifactCollector.GoodFilesAreKept` | src/capture/artifact_collector.cpp:59-209 | a regular file within the per-file bound that finds room at its turn, and whose opens, reads, writes and rename succeed, ends in an ok record that lists its path and has the hash of exactly the bytes the reads delivered, staged under it; it stays so until the end of finalize |
| `ArtifactCollector.RoomForAll` | src/capture/artifact_collector.cpp:59-209 | when the candidates together fit the bounds and none grows, every such file is kept |
| `ArtifactCollector.KeptBytes` | src/capture/artifact_collector.cpp:166-202 | what is staged for a kept file has the hash of its bytes, so it is the file unless two contents collide |
| `ArtifactCollector.StagedThroughout` | src/capture/artifact_collector.cpp:166-202 | throughout finalize, under any bounds: by_sha indexes exactly the ok records, and each one's bytes, of its size and hash, are staged under that hash |
| `ArtifactCollector.BudgetThroughout` | src/capture/artifact_collector.cpp:59-202 | throughout finalize: at most max_count ok records, each within max_file_bytes; total_bytes is their sum, at most max_total + max_file, and at most max_total when no file grows |
| `ArtifactCollector.PathsConserved` | src/capture/artifact_collector.cpp:70-208 | the candidate paths and the source paths of all records are the same multiset |
| `ArtifactCollector.EachPathOnce` | src/capture/artifact_collector.cpp:70-208 | every candidate path occurs in exactly one record, exactly once, and no other path occurs |
| `ProcessTree.ReconstructTree` | src/bundle/process_tree.cpp:51-146 | the records are exactly those of the fold with its edges resolved, strictly ascending by start time and tgid; malformed lines are counted |
| `ProcessTree.ResolveEdges` | src/bundle/process_tree.cpp:113-128 | the deferred edges are applied in order |
| `ProcessTree.SortedRecords` | src/bundle/process_tree.cpp:135-143 | whatever order the hash map is walked in, the output is the strictly ascending sequence of its records |
| `ProcessTree.RecordPerTgid` | src/bundle/process_tree.cpp:69-111 | there is a record for t iff t is nonzero and has a process event |
| `ProcessTree.MalformedCounted` | src/bundle/process_tree.cpp:75-83 | the malformed count is the number of lines that do not parse, wherever they stand |
| `ProcessTree.RecordSays` | src/bundle/process_tree.cpp:33-111 | a record's identity and start come from the process's first event, its end and exit code from its last exit, its program from its last exec, its comm from the first of them that has one |
| `ProcessTree.ChildrenAreSpawned` | src/bundle/process_tree.cpp:100-128 | c is a child of p iff a fork, clone, clone3 or vfork event of p names c, c is neither zero nor p, and c was itself observed; no duplicates |
| `ProcessTree.ChildrenInOrder` | src/bundle/process_tree.cpp:113-128 | children stand in the order in which the log first names them: every beginning of the log that names the later of two names the earlier |
| `ProcessTree.PermutationIrrelevant` | src/bundle/process_tree.cpp:61-128 | permuting the log changes neither the processes nor who is whose child |
| `ProcessTree.InterleavingIrrelevant` | src/bundle/process_tree.cpp:33-111 | a scanned record depends only on the process's own events, in their order |
| `ProcessTree.OrderIsUnique` | src/bundle/process_tree.cpp:135-143 | two strictly ascending sequences of the same records are equal, so hash-map order cannot show |
| `TreeWalk.Printer.PrintNode` | src/inspect/tree.cpp:27-75 | on any graph: nesting stays below 512, the nodes being expanded are pairwise distinct and are exactly the visited set, which returns to its entry value; the output is Walk |
| `TreeWalk.DepthIsUnique` | src/inspect/tree.cpp:27-75 | in a forest a node lies at one depth below the root only |
| `TreeWalk.WalkPrints` | src/inspect/tree.cpp:27-75 | in a forest the walk from any node prints each recorded node within reach once and no other, without cycle markers |
| `TreeWalk.EachNodeOnce` | src/inspect/tree.cpp:27-75 | in a forest each recorded node within 511 edges of the root is printed exactly once, any other not at all, with no cycle marker |
| `TreeWays.WalkByWays` | src/inspect/tree.cpp:27-75 | on any graph, corrupt ones included: one line for each way down that repeats no node before its end and takes at most 511 steps (or 512 to a first child), in lexicographic order of the steps; the line tells a recorded node, a repeated one, a missing one or the depth limit |
| `TreeWalk.PrintTree` | src/inspect/summary.cpp:76-94 | the loop with its by-reference budget computes Print |
| `TreeWalk.BudgetSpent` | src/inspect/summary.cpp:76-94 | on any graph exactly as many node lines are printed as budget is spent |
| `TreeWalk.PrintTreeWithinBudget` | src/inspect/summary.cpp:76-94 | on any graph, cyclic ones included, at most the budget of node lines is printed |
| `TreeWays.PrintByWays` | src/inspect/summary.cpp:76-94 | on any graph: the node lines are the first ways through recorded nodes in that order, as many as the budget allows and all of them if any is left, followed by one ellipsis for each node on the last way that has children to come |
| `TreeWalk.IsReachable` | src/inspect/tree.cpp:134-143 | the hop loop answers whether the root is met within 1000 hops of the ppid chain |
| `TreeWalk.NearIff` | src/inspect/tree.cpp:134-143 | that is so iff a chain of at most 1000 pids, each the nonzero ppid of the recorded one before it, leads from the process to the root |
| `TreeWalk.IndexSays` | src/inspect/tree.cpp:110-111 | of records with the same tgid the last one is looked up |
| `TreeWalk.FindOrphans` | src/inspect/tree.cpp:131-145 | the orphans are the recorded processes other than the root from which the walk does not meet it, in record order |
| `TreeWalk.OrphansInOrder` | src/inspect/tree.cpp:131-145 | the orphans come in record order, one for each record that is one |
| `TreeWalk.ThousandHopsSuffice` | src/inspect/tree.cpp:135-142 | pigeonhole: with at most 999 other records, 1000 hops decide reachability |
| `TreeWalk.OrphansAreUnreachable` | src/inspect/tree.cpp:131-145 | with at most 999 other records a process is called an orphan iff its ppid chain never reaches the root |
| `TreeWalk.MissedIff` | src/inspect/tree.cpp:135-142 | on any records a process whose chain reaches the root is called an orphan iff the chain first arrives at hop 1000 or later |
| `TreeWalk.ThousandHopsCanMiss` | src/inspect/tree.cpp:135-142 | with 1000 other records that happens |
| `Manifest.ManifestBack` | src/bundle/manifest.cpp:75-120 | every field of an accepted manifest that is serialized is read back |
| `Manifest.ManifestRoundTrip` | src/bundle/manifest.cpp:155-259 | parsing the serialization of a manifest with an accepted schema major gives it back |
| `Manifest.WhereFieldsStand` | src/bundle/manifest.cpp:75-120 | the format: the place of each hash and of each field of the signature block |
| `Manifest.WhereCountsStand` | src/bundle/manifest.cpp:75-120 | the same for the counts and the tool |
| `Manifest.WhereCaptureStands` | src/bundle/manifest.cpp:75-120 | the same for the capture times and the host section |
| `Manifest.WhereHostStands` | src/bundle/manifest.cpp:75-120 | the same for the host |
| `Manifest.WhereTargetStands` | src/bundle/manifest.cpp:75-120 | the same for the target |
| `Manifest.WhereCoverageStands` | src/bundle/manifest.cpp:75-120 | the same for isolation and coverage |
| `Manifest.NewerMajorRefused` | src/bundle/manifest.cpp:176-186 | a version that starts with a number is accepted iff that number is zero: every newer major is refused, every minor of this one accepted |
| `Manifest.NoVersionRefused` | src/bundle/manifest.cpp:155-186 | a manifest without a version, with one of another type, or with one that starts with no number is refused |
| `Manifest.AbsentSectionsAreEmpty` | src/bundle/manifest.cpp:188-259 | sections that are absent are read as empty |
| `Manifest.FieldsAreTyped` | src/bundle/manifest.cpp:155-259 | a field of the wrong type is refused; a number is cut to its field, which changes it by a multiple of the width only |
| `Manifest.AbsentFieldIsEmpty` | src/bundle/manifest.cpp:155-259 | an absent field is read as empty |
| `Manifest.ListsAreTyped` | src/bundle/manifest.cpp:155-259 | a list is read iff all its members are strings, and then to these; what is no list is read as empty |
| `Manifest.PayloadsAgree` | src/bundle/manifest.cpp:128-153 | the writer's signing payload equals the reader's canonical payload of the serialized text, whatever the sig block holds |
| `Manifest.PayloadDetermines` | src/bundle/manifest.cpp:128-153 | the signed payload determines every field of the manifest but the signature block |
| `Manifest.UnmodelledKeyIsSigned` | src/bundle/manifest.cpp:134-153 | an unmodelled top-level key leaves the parsed manifest as it was but changes the canonical payload |
| `Bundle.IndexBack` | src/bundle/artifacts.cpp:11-59 | parsing the artifact index gives back the records written |
| `Bundle.IndexSays` | src/bundle/artifacts.h:10-30 | what the index says of a collected record, with the seven status texts |
| `Bundle.FindEntry` | src/bundle/reader.cpp:49-65 | the archive walk finds the first entry of that name, or reports a broken archive |
| `Bundle.ReadEntryBytes` | src/bundle/reader.cpp:76-93 | an entry is read whole, up to the 256 MiB cap |
| `Bundle.TextIff` | src/bundle/reader.cpp:49-93 | a metadata text is that of the first entry of the name, which must be readable and of at most 256 MiB |
| `Bundle.EventsIff` | src/bundle/reader.cpp:136-150 | the events are those of the first entry "events.ndjson", of any size |
| `Bundle.TreeIff` | src/bundle/reader.cpp:110-121 | the tree delivered is what tree_from_json makes of the first entry of that name |
| `Bundle.IndexTextIff` | src/bundle/artifacts.cpp:28-59 | an index text is read iff it is an array of objects whose fields have their types, and then to these |
| `Bundle.IndexIff` | src/bundle/reader.cpp:123-134 | the index delivered is empty iff the archive read to its end has none, else that of the first entry of the name |
| `Bundle.ValidShaIff` | src/bundle/writer.cpp:43-50 | a packed name is 64 of the 16 lowercase hexadecimal digits |
| `Bundle.StreamHash` | src/bundle/reader.cpp:188-215 | the streamed hash is the hash of the entry's bytes, however chunked |
| `Bundle.ScanArtifacts` | src/bundle/reader.cpp:275-323 | the artifact pass with its seen set finds every entry well-named, expected and matching its hash, and every expected hash present |
| `Bundle.Reader.ProcessTree` | src/bundle/reader.cpp:110-121 | the tree of the archive, cached |
| `Bundle.Reader.Artifacts` | src/bundle/reader.cpp:123-134 | the index of the archive, cached; empty when there is none |
| `Bundle.Reader.ForEachEvent` | src/bundle/reader.cpp:136-186 | the events entry through the streaming reader |
| `Bundle.Reader.VerifyIntegrity` | src/bundle/reader.cpp:188-233 | true iff events and tree hash to what the manifest says; an error when either is missing |
| `Bundle.IntegrityIff` | src/bundle/reader.cpp:188-233 | when that is an error, and when it is true, by the two texts and their hashes |
| `Bundle.Reader.VerifyArtifacts` | src/bundle/reader.cpp:235-323 | the index and content verdicts, with the early exits for no index, a missing one and a malformed one |
| `Bundle.ArtifactFlags` | src/bundle/reader.cpp:235-275 | no declared index checks nothing; a missing one fails both flags, a malformed one the content flag, without an error |
| `Bundle.Reader.Verify` | src/bundle/reader.cpp:325-375 | the whole report, the signature checked over the payload its scope names |
| `Bundle.SignatureIff` | src/bundle/reader.cpp:340-372 | a report finds a signature present iff the manifest names an algorithm, and good iff that is Ed25519 and the signature verifies over the text it must cover: the parsed manifest text without its sig block for scope "manifest-v1", else the two hashes, each with a newline; a full pass implies it |
| `Bundle.VerifiedIff` | src/bundle/reader.cpp:325-375 | the verdict, exactly: an archive that opens passes in full iff its events and tree hash to what the manifest says, its index and artifacts hold (told entry by entry and record by record), and the manifest is unsigned or so signed |
| `Bundle.TamperingDetected` | src/bundle/sign.cpp:202-231 | under a key that signed one manifest only, a bundle with another manifest text, unmodelled keys included, never passes, whatever its signature block holds |
| `Bundle.ContentOrCollision` | src/bundle/reader.cpp:188-323 | two archives with the same manifest text that both verify deliver the same events, tree, index and artifacts, whatever other or duplicate entries they contain, or two different texts that verification hashed have the same hash |
| `Bundle.VerificationDeterminesContent` | src/bundle/reader.cpp:188-323 | with an injective hash the first alternative always holds |
| `BundleWriter.WriteBundle` | src/bundle/writer.cpp:134-249 | the writer fills the manifest in place and produces exactly the entries of Written, in their order, or fails |
| `BundleWriter.AddArtifacts` | src/bundle/writer.cpp:234-243 | the packed artifacts are the staged files of the captured records with a valid hash, in record order |
| `BundleWriter.PackFailsIff` | src/bundle/writer.cpp:234-243 | packing fails iff a captured record with a valid hash has no staged file |
| `BundleWriter.FilledSays` | src/bundle/writer.cpp:152-175 | the fields the writer fills in, hash by hash, and that it leaves all others as they were |
| `BundleWriter.SignedSays` | src/bundle/writer.cpp:176-196 | with a key the manifest carries the key's signature of the dumped manifest without its sig block, under scope "manifest-v1"; without one the block stays as it was |
| `BundleWriter.EntriesSay` | src/bundle/writer.cpp:197-243 | the entries by name, content and order |
| `BundleWriter.WriteFailsIff` | src/bundle/writer.cpp:134-249 | a write fails iff the tree cannot be rebuilt, what is signed or the manifest cannot be dumped, or packing fails |
| `BundleWriter.SignatureChecks` | src/bundle/writer.cpp:176-196 | a signature the writer made verifies over the payload the reader recomputes |
| `BundleWriter.ExpectedHashes` | src/bundle/writer.cpp:160-175 | the hashes the reader expects from the index are exactly those of the captured records |
| `BundleWriter.ArtifactsCheck` | src/bundle/reader.cpp:275-323 | the artifacts the writer packed pass the reader's content check |
| `BundleWriter.IndexChecks` | src/bundle/reader.cpp:235-323 | the index the writer packed passes the reader's index check |
| `BundleWriter.WriteThenVerify` | src/bundle/writer.cpp:152-243 | a bundle successfully written, signed or not, opens and verifies in full, provided manifest, tree and index fit the entry cap |
| `BundleWriter.WriteThenRead` | src/bundle/reader.cpp:136-186 | a written bundle delivers one event per line of the log, in order, and its artifacts are exactly the captured records' staged files |
| `BundleWriter.WrittenIsDelivered` | src/bundle/reader.cpp:110-134 | the tree and the index of a written bundle are delivered as they were written, but for text that is not UTF-8 |
| `BundleWriter.SessionAccounts` | src/bundle/reader.cpp:136-186 | for any session's log, whatever its writes did: events delivered and malformed lines together are the events counted as written, and the torn end if there is one |
| `BundleWriter.SessionReadsBack` | src/bundle/reader.cpp:136-186 | for a session whose writes never failed hard that is one event per event counted as written |
| `BundleWriter.FinalizeStagesByHash` | src/capture/artifact_collector.cpp:59-209 | every outcome of finalize has its captured records staged under their hash |
| `BundleWriter.CollectedBundleVerifies` | src/bundle/writer.cpp:152-243 | the same for every outcome of finalize: files missing, symlinked, oversized, duplicated or over bound, under any configuration |
| `BundleWriter.CollectedNeverMissing` | src/bundle/writer.cpp:234-243 | packing what finalize left never fails for want of a staged file |

## Left out

- Each kernel-side handler is one atomic step; an eviction on another CPU between one handler's lookup and
  its delete is not a separate step.
- The drop counters are unbounded naturals, not per-CPU 64-bit words; map capacities are not enforced
  (eviction and failed updates are free choices of the environment instead).
- Network exit handlers: payload capture, socket addresses, socket options, byte counts and the flow id;
  the port filter, which is always open; descriptors left behind by a process that exits without closing.
- Process handlers, cgroup and namespace set-up, launching the target, signals, clocks and /proc enrichment.
- SocketTracking.SocketMapIsLiveSockets: assumes that the calls of one tgid do not overlap and that nothing
  fails for it, because the map itself promises no more; reuse of a tgid is outside it.
- DNS: the text of addresses and of numeric types and classes, and the event envelope around an answer.
- HTTP: the event envelope; requests with several Host headers, or none.
- JSON text, SHA-256, Ed25519, base64 and libarchive are parameters with laws. The JSON library's
  behaviour on floating-point numbers and on duplicate keys is not modelled.
- The schema version's number is read digit by digit without the overflow of sscanf.
- Wrong-typed fields of an event, on which the tree reconstruction throws, and a log file that cannot be
  opened. The JSON form of the tree is a parameter of the reader and the writer.
- std::sort and the hash maps are replaced by insertion in any order; the output is proved unique.
- System calls answer from finite scripts, so an endless run of interruptions is not modelled.
- EventLog.Session.OnRawEvent: takes the event's lines to be nonempty, as serialized JSON is; for an empty
  line the source counts an event that is not written.
- ArtifactCollector.Collector.Finalize: takes unlinking and the staging directory itself to work, and a
  hash never to be the name of the temporary file.
- ArtifactCollector.BudgetThroughout: needs max_total + 2 * max_file below 2^64, since the bound is tested in
  wrapping arithmetic; what is staged is right without it (ArtifactCollector.StagedThroughout).
- BundleWriter.WriteBundle: reads the event log once; the source reads the file for the hash and again for the
  archive, and the model takes both to see the same bytes. On failure the manifest's contents are not stated.
- BundleWriter.WriteThenVerify: assumes that the caller's manifest carries no signature yet and, without
  artifact capture, no index hash, as the capture command's does.
- The legacy bundle probe, the configuration loader, command dispatch, and all tables, timelines, JSON views
  and terminal rendering.
