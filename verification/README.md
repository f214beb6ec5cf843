# Verified models of an SMTP server, queue and client

This project models the parts of kannader that are hardest to get right, and proves what they are for.

* **The DATA codec** (`DataFormat`, `DataReader`, `DataUnescaper`, `WriterState`, `DataWriter`, `RoundTrip`): the transparency
  procedure of section 4.5.2 of RFC 5321. The writer that doubles dots, the reader that finds the end of the data and
  the unescaper that works in place are classes with the fields of the source. They are proved against whole-stream
  definitions: the wire form of a message, the shortest terminated prefix of a stream, and the decoding of a stream.
* **The mail queue** (`QueueModel`, `QueueSafety`, `QueueSolo`, `QueueHistory`, `QueueStories`, `QueueCleanup`, `QueueRuns`): a
  state machine. Every step is one file-system operation, one answer of the transport or of the retry policy, or the start
  or crash of a process. The theorems are about every state of every run, and speak of what the run has done by its
  actions; what the code does not promise is shown by runs.
* **The server** (`Framing`, `ReadBuffers`, `SessionSpec`, `SessionRules`, `SessionProperties`, `Server`): the fixed read buffer
  with its window, the hand-over to the DATA reader and back, and the session. A session is a sequence of steps on the bytes
  received, in which the state is read off the history. What the network has to do with a step is an argument of it: the
  frame that the parser made of some first part of the stream, whether more had arrived with it, and the pieces in which a
  mail handler got its data. The class `Server` keeps its state in fields and is proved to take exactly such steps.
  `SessionRules` writes the protocol down a second time, from the answers: what every entry of the history says that the
  client has sent and the hooks have said.
* **The grammars** (`Automata`, `Combinators`, `Utf8`, `Expressions`, `ReplySyntax`, `ReplyReading`, `AddressSyntax`,
  `CommandSyntax`, `CommandSpelling`, `CommandReading`, `CommandNormalForm`, `GrammarStability`, `CommandFraming`): streaming
  parsers with three outcomes, and the printers they undo. Regular expressions are automata, run for their longest match;
  `Expressions` says in words about characters what each of them accepts. `CommandSpelling` and `CommandReading` say which
  lines are which command, in both directions. The last two modules say what more bytes can change in what a parser says,
  and so when the network makes a difference to the server.
* **The client** (`Client`): waiting for a reply, on the same buffer.

Streams deliver and accept any non-empty part of what is asked for, so what is proved holds for every chunking. What comes
from outside is a parameter or an arbitrary choice: the hooks of the server configuration are functions of the history, the
command parser of the server is any one that consumes what it accepts, the retry policy and the transport may answer anything, and reading IP
addresses and encoding international host names are predicates.

Where the code and its documentation disagree, the model follows the code:

* DATA without recipients drops the transaction: it is taken out of the session before the check
  (smtp-server/src/lib.rs:654-660), so a client has to send MAIL again. `SessionSpec.EndsMail` says so.
* The range `+-/` in the expression for local parts stands for five characters, comma and dot among them
  (smtp-message/src/misc.rs:45); `AddressSyntax.AtomByte` has them all.
* A buffer cut inside a character of several bytes makes a parser report an error where it should ask for more
  (smtp-message/src/misc.rs:74-84). `ReplySyntax.ReplyPrefix` and `CommandFraming.CommandDecidesIff` say exactly when;
  `ReplySyntax.CutReplyIsError` gives a reply and `CommandFraming.CutCharacter` a command.
* After a short write over several slices the writer may lose its place in the line (smtp-message/src/data.rs:408-430).
  `WriterState.RebuiltIff` says exactly for which lengths, and `DataWriter.SeveralSlicesGoWrong` gives two lines of which
  the second, sent without its extra dot, ends the data in the middle of the message.
* A mail committed without destinations stays in the data directory for ever (`QueueSafety.NoDestinationStaysForEver`,
  `QueueRuns.EmptyCommit`).
* A temporary schedule file left behind keeps a cleanup from ever ending (`QueueCleanup.CleanupEndsIff`,
  `QueueRuns.CleanupBlocked`).
* A link whose schedule cannot be read when it is listed has no task until the next start (smtp-queue/src/lib.rs:327-328);
  `QueueHistory.EveryLinkHasATask` excepts it, and `QueueRuns.LinkLeftAlone` is such a run.
* Two processes may be sending the same mail (`QueueRuns.TwoSenders`).
* Of the lines of a reply, only the last one's code and enhanced code count (smtp-message/src/reply.rs:500-518), though all
  should have the same: `ReplyReading.ReplyApart`.

## Model

| member | source | states |
|---|---|---|
| `DataFormat.LineStateMeaning` | smtp-message/src/data.rs:342-347 | the line state that writer and unescaper follow is a matter of the last two bytes |
| `DataFormat.StuffedByte` | smtp-message/src/data.rs:433-479 | a dot is doubled just where the message begins and after CR and LF, and no other byte is changed |
| `DataFormat.ScanFindsDataEnd` | smtp-message/src/data.rs:147-189 | the reader's automaton ends exactly on streams with a terminated prefix, a virtual CRLF in front counted |
| `DataFormat.ScanEndIsDataEnd` | smtp-message/src/data.rs:147-189 | the place where the automaton first ends is the shortest terminated prefix, and conversely |
| `DataFormat.DecodeTailIsRest` | smtp-message/src/data.rs:248-339 | the reader's end of data and the decoder's are the same place |
| `DataFormat.WireRoundTrip` | smtp-message/src/lib.rs:171-180 | decoding the wire form of any message gives the message, with CRLF added if it needs one, and leaves what follows |
| `DataFormat.WireLooksGood` | smtp-message/src/lib.rs:106-122 | a wire form ends with the terminator, and every other CRLF and dot in it is followed by a second dot |
| `DataFormat.WireEndsAtItsEnd` | smtp-message/src/data.rs:371-380 | a wire form has its end of data at its end and nowhere before, whatever follows it |
| `DataReader.EscapedDataReader.FinishedAtDataEnd` | smtp-message/src/data.rs:25-92 | what a finished reader has returned is exactly the data of the stream and what is left is exactly the rest; an unfinished one has not met the end |
| `DataReader.EscapedDataReader.PollReadVectored` | smtp-message/src/data.rs:107-194 | one read into any slices: what it returns and what it leaves make up what there was, the bytes after the end given back by either branch; it fails only at a premature end of the stream |
| `DataReader.EscapedDataReader.PollRead` | smtp-message/src/data.rs:99-105 | the same for a single slice |
| `DataReader.EscapedDataReader.Scan` | smtp-message/src/data.rs:146-191 | the nested loops find the first end of data in the slices, and its slice and index |
| `DataReader.EscapedDataReader.GiveBack` | smtp-message/src/data.rs:159-180 | in the reuse branch and in the copy-back branch, the bytes after the end of data come first in what is left |
| `DataReader.EscapedDataReader.GetUnhandled` | smtp-message/src/data.rs:86-92 | the window is available exactly after `complete` |
| `DataUnescaper.FindEscape` | smtp-message/src/data.rs:282-283 | the first window of CR, LF and dot, or that there is none |
| `DataUnescaper.DataUnescaper.Unescape` | smtp-message/src/data.rs:248-339 | in place and on any chunk: the text written, then the decoding of what is left and of whatever comes later, is the decoding of the whole; at most four bytes wait, and writes never pass the unread input |
| `DataUnescaper.DataUnescaper.UnescapeLines` | smtp-message/src/data.rs:282-338 | the same, from the middle of a line on |
| `DataUnescaper.DataUnescaper.UnescapeEnd` | smtp-message/src/data.rs:312-338 | with no window left, only a final CR or CRLF waits |
| `DataWriter.EscapingDataWriter.PollWriteVectored` | smtp-message/src/data.rs:403-481 | for any slices and any part of them taken: what is acknowledged and the line state after; on a writer in order, the wire is then the dot-stuffing of the bytes acknowledged, with at most one dot ahead, and unless the line state is not rebuilt the writer stays in order; a write that acknowledges nothing has just sent that dot |
| `DataWriter.EscapingDataWriter.Offer` | smtp-message/src/data.rs:433-479 | what is offered to the inner writer, and the line state after full and short writes |
| `DataWriter.BooksPoll` | smtp-message/src/data.rs:433-479 | one call of the writer, as a function of what the inner writer takes, keeps the wire right, and the line state exactly where it is rebuilt |
| `DataWriter.EscapingDataWriter.WriteAll` | smtp-message/src/lib.rs:82-100 | offering again what was not acknowledged comes to an end, with everything acknowledged; the wire is right if no short write fell where the line state is not rebuilt, so with one slice or an inner writer that takes all |
| `DataWriter.EscapingDataWriter.Finish` | smtp-message/src/data.rs:371-380 | the wire then is the wire form of the message |
| `DataWriter.NoEndBeforeFinish` | smtp-message/src/data.rs:403-481 | before `finish` nothing on the wire can be taken for the end of data, the pending dot included |
| `WriterState.SetStateUntil` | smtp-message/src/data.rs:408-430 | the two loops compute the function `UntilState` |
| `WriterState.RebuiltIff` | smtp-message/src/data.rs:408-430 | for slices of given lengths and a given number of bytes taken, that is the line state after these bytes, whatever they are, if and only if the lengths meet `Rebuilds` |
| `WriterState.RebuiltIsRight` | smtp-message/src/data.rs:408-430 | the one half of it, from any line state |
| `WriterState.DotLost` | smtp-message/src/data.rs:408-430 | where the lengths do not meet it, there are bytes such that a dot to be doubled comes next and will not be |
| `DataWriter.SeveralSlicesGoWrong` | smtp-message/src/data.rs:403-481 | two writes of two slices put an end of data on the wire in the middle of a message |
| `RoundTrip.Send` | smtp-message/src/lib.rs:77-103 | any list of vectored writes, taken in any parts, puts the wire form of the message on the wire if no short write falls where the line state is not rebuilt |
| `RoundTrip.Receive` | smtp-message/src/lib.rs:124-167 | from any prefilled buffer, with any read sizes and a buffer of five bytes or more: complete exactly when the stream has an end of data, with its decoded text, and the window and the stream hold exactly the rest |
| `RoundTrip.ReceiveText` | smtp-message/src/lib.rs:139-163 | the loop over its turns: it ends with the decoded text at the end of data, or at the end of a stream that has none |
| `RoundTrip.ReceiveChunk` | smtp-message/src/lib.rs:140-163 | one turn of the receiver keeps the text so far, and makes progress |
| `RoundTrip.EscapingThenUnescaping` | smtp-message/src/lib.rs:50-182 | the wire passes the checks of the harness; the whole trip gives back the message, ended by CRLF if it is not empty, and leaves nothing |
| `QueueSafety.InvNext` | smtp-queue/src/lib.rs:273-516 | every step of every task and process keeps the invariant |
| `QueueSafety.NoGarbage` | smtp-queue-fs/src/lib.rs:496-712 | under every interleaving of cleanups the contents go only after all destinations, and while the directory of a mail is there so is a link of one of its destinations |
| `QueueSafety.NoDestinationStaysForEver` | smtp-queue-fs/src/lib.rs:971-1024 | a mail committed without destinations keeps its directory |
| `QueueSolo.SoloInvNext` | smtp-queue/src/lib.rs:289-374 | when processes do not overlap, every step, failed scans included, keeps the invariant about handles, links and counts |
| `QueueSolo.OneSender` | smtp-queue/src/lib.rs:453-516 | two tasks are never sending the same destination, and its link stays in `inflight` meanwhile |
| `QueueHistory.NoMailLost` | smtp-queue-fs/src/lib.rs:393-494 | in every run, with any number of processes and crashes anywhere: from its commit on, a destination is in `queue` or in `inflight`, not both, as it was committed and with metadata, schedule and contents; or the transport has reported success for it, or the retry policy has been asked about it and has given it up; it is in `cleanup` only in the latter case |
| `QueueHistory.EveryLinkHasATask` | smtp-queue/src/lib.rs:323-374 | when processes do not overlap, once the scans are done every link to be sent has a live task in charge of it, unless this process, since its start, failed to read it when it was listed |
| `QueueHistory.AtMostOneDeliveryPerCrash` | smtp-queue/src/lib.rs:453-516 | when processes do not overlap, the transport has reported success for a destination at most once more than there were crashes |
| `QueueHistory.HistoryIsActions` | smtp-queue/src/lib.rs:396-516 | the deliveries counted are the successes of the transport so far, the mails dropped just those for which the policy has said so, the crashes those there were |
| `QueueHistory.CommittedIff` | smtp-queue-fs/src/lib.rs:971-1024 | the destinations committed, and where their links point, are just those of the commits so far |
| `QueueHistory.MailIff` | smtp-queue-fs/src/lib.rs:971-1024 | so are the mails and their destinations |
| `QueueHistory.MissedIff` | smtp-queue/src/lib.rs:327-328 | the links missed by a process are just those that it could not read since it was started |
| `QueueHistory.ExecutionIsActed` | smtp-queue/src/lib.rs:273-516 | every run consists of actions, so what is said of the actions is said of every run |
| `QueueStories.TaskMoves` | smtp-queue/src/lib.rs:396-516 | every step of a task is one of those from one stage of `send`, `try_send` or `cleanup` to the next, with that outcome; it ends exactly where its link is not where it should be or could not be read, or the cleanup is done; and it touches no other task |
| `QueueStories.CameBy` | smtp-queue/src/lib.rs:396-516 | every task, in every run, was brought where it is by such a step, and has stayed there since |
| `QueueStories.SendStory` | smtp-queue/src/lib.rs:453-487 | what is handed to the transport was taken up and read before, by the same task |
| `QueueStories.TransportHasTheMail` | smtp-queue/src/lib.rs:463-487 | when it was read, its link was in `inflight`, as it was committed, and all of the mail was there |
| `QueueStories.FailureStory` | smtp-queue/src/lib.rs:405-411 | a task comes before the policy only after the transport has failed and the mail was put back, by the same task, with nothing else in between |
| `QueueStories.DroppingStory` | smtp-queue/src/lib.rs:411-450 | a task drops its mail only after that, and after the policy has said so |
| `QueueStories.GivenUpStory` | smtp-queue/src/lib.rs:411-450 | a mail given up was so by a decision of the policy, after a failure of the transport in the hands of the same task |
| `QueueStories.LinkGoes` | smtp-queue-fs/src/lib.rs:393-494 | every way of a link: into `queue` by a commit, from one folder to another by the step for it, on the same target, and out only at the end of a cleanup |
| `QueueStories.CleanupStory` | smtp-queue/src/lib.rs:435-500 | a link in `cleanup` was put there by a task that had delivered the mail, or for which it had been given up |
| `QueueStories.ListedWaits` | smtp-queue/src/lib.rs:357-374 | a link listed in `queue` and still there can be read, and comes to be sent |
| `QueueStories.ListedRecovers` | smtp-queue/src/lib.rs:323-345 | a link listed in `inflight` and still there can be read, and comes to be put back |
| `QueueStories.FoundInflightWaits` | smtp-queue/src/lib.rs:334-350 | when processes do not overlap, a link found in `inflight` comes to be sent, back in `queue`, by the next two steps of its task, unless the process crashes |
| `QueueRuns.DeliveryRun` | smtp-queue/src/lib.rs:453-516 | there are runs in which a mail is committed, sent and put up for cleanup |
| `QueueRuns.CleanupBlocked` | smtp-queue-fs/src/lib.rs:331-391 | a run of one process in which a failed rescheduling leaves its temporary file behind, the mail is then sent, and its cleanup can never end |
| `QueueRuns.EmptyCommit` | smtp-queue-fs/src/lib.rs:971-1024 | a run with a mail committed without destinations |
| `QueueRuns.TwoSenders` | smtp-queue/src/lib.rs:289-374 | a run of two processes in which both are sending the same destination |
| `QueueRuns.LinkLeftAlone` | smtp-queue/src/lib.rs:323-374 | a run of one process, restarted after a crash, in which a link in `inflight` has no task once all scans are done |
| `QueueCleanup.FsStorage.Cleanup` | smtp-queue-fs/src/lib.rs:496-712 | removes the destination, the mail when it was the last one, and the link; fails exactly when a temporary file is in the way; tells whether the destination was still there |
| `QueueCleanup.CleanupRestarts` | smtp-queue-fs/src/lib.rs:503-709 | interrupted after any of its operations, any number of times, a cleanup ends in the state of an uninterrupted one |
| `QueueCleanup.LinkGoesLast` | smtp-queue-fs/src/lib.rs:697-709 | wherever it is interrupted, the link is still there or everything is done |
| `QueueCleanup.CleanupEndsIff` | smtp-queue/src/lib.rs:273-279 | the retried cleanup ends if and only if no temporary file is in its destination directory |
| `ReadBuffers.NextCrLf` | smtp-message/src/misc.rs:128-144 | the first CRLF of a piece, of which the CR may have ended the piece before |
| `ReadBuffers.ReadBuffer.AdvanceUntilCrLf` | smtp-server/src/lib.rs:361-385 | over any pieces, drops exactly the first line of what is left, or finds that there is none |
| `ReadBuffers.ReadBuffer.MakeRoom` | smtp-server/src/lib.rs:523-534 | compaction keeps the window; the buffer is full afterwards only if the window is all of it |
| `ReadBuffers.ReadBuffer.Receive` | smtp-server/src/lib.rs:512-564 | parses some first part of what is left, reading as long as the parser cannot tell and there is room; loses no byte |
| `Framing.LineEndIsFirst` | smtp-message/src/misc.rs:123-127 | the end of the first line is its first CRLF |
| `Framing.ResultMeans` | smtp-server/src/lib.rs:512-564 | what each result of the reader means: too long is incomplete in a full buffer, bad is rejected by the parser, cut off is incomplete at the end of the stream |
| `Framing.StableDecides` | smtp-server/src/lib.rs:519-564 | for a stable parser all first parts that it decides on lead to the decision made on all that the buffer can hold |
| `SessionProperties.TooLongIff` | smtp-server/src/lib.rs:535-541 | a line is too long only when its command is incomplete after as many bytes as the buffer holds, and exactly then where the parser takes all first parts of the line for the same |
| `SessionProperties.NetworkIsIrrelevant` | smtp-server/src/lib.rs:512-564 | where at each step the parser takes all first parts for the same, handlers judge by the data and no STARTTLS comes up, every way in which the stream may arrive leads to the same session |
| `SessionProperties.StepConserves` | smtp-server/src/lib.rs:513-564 | for any parser and any arrival, the bytes answered, then the rest, are the stream, after every step |
| `SessionProperties.SessionConserves` | smtp-server/src/lib.rs:512-772 | so they are at every point of every session, however the stream arrives |
| `SessionProperties.MailIsData` | smtp-server/src/lib.rs:668-727 | the bytes of a mail are its DATA command and the data up to the first terminator, whether or not the handler completed |
| `SessionRules.HelloIff` | smtp-server/src/lib.rs:573-597 | the server remembers just the hello accepted last, if TLS has not started since |
| `SessionRules.EncryptedIff` | smtp-server/src/lib.rs:748-754 | the connection counts as encrypted exactly if it was from the start or TLS has started |
| `SessionRules.MailIff` | smtp-server/src/lib.rs:599-660 | there is a transaction exactly if a MAIL was accepted and no mail, RSET, STARTTLS, refused DATA or other MAIL has come since; it has that sender and exactly the recipients accepted since, in order |
| `SessionRules.MailKept` | smtp-server/src/lib.rs:599-758 | which entries end the transaction, begin it, add to it, and leave it as it is |
| `SessionRules.ReactLegal` | smtp-server/src/lib.rs:569-772 | an answer to a command is the one that its hook gave for that command, with the hook's reply and value; a command is refused only for the reason given; a hook is asked only where the command is in order |
| `SessionRules.CollectJudged` | smtp-server/src/lib.rs:694-702 | the replies to a mail are those of the decisions, each in its place; the first that kills ends it, and too many or too few end it in a panic after those there are |
| `SessionRules.HandleJudged` | smtp-server/src/lib.rs:674-727 | so for a handler that has read all and completed; for one that has not, each reply due says that it did not |
| `SessionRules.StepRules` | smtp-server/src/lib.rs:512-772 | every step is by these rules: a new entry that answers what has arrived, or an end for the reason that it gives |
| `SessionProperties.SessionLegal` | smtp-server/src/lib.rs:573-758 | every session, however the stream arrives, keeps to the order of commands and to what the hooks say |
| `SessionProperties.SessionAnswers` | smtp-server/src/lib.rs:512-772 | in every session each entry answers the arrival in its place, and the end is by the last arrival |
| `SessionProperties.TransactionIntegrity` | smtp-server/src/lib.rs:573-672 | a mail handled has the sender that the hook made of its MAIL and exactly the recipients, of which there are some, that the hook made of the RCPT it accepted since; nothing ended the transaction in between, DATA was accepted, and so was a hello before, on the same connection |
| `SessionProperties.TlsAtMostOnce` | smtp-server/src/lib.rs:88-96 | with the default hook TLS starts at most once, and never on a connection that has it |
| `SessionProperties.CollectCount` | smtp-server/src/lib.rs:694-702 | the decisions of a handler are answered one by one exactly when there are as many as expected and none of them kills |
| `SessionProperties.RepliesAreDue` | smtp-server/src/lib.rs:553-557 | one reply for every command and skipped line, and for a mail one more, or one more for each recipient in LMTP |
| `SessionProperties.RepliesInOrder` | smtp-server/src/lib.rs:465-508 | replies stand in the order of what they answer |
| `SessionProperties.EachGetsItsOwn` | smtp-server/src/lib.rs:553-772 | the replies due to an entry stand right after those due before it: the canned one for its reason to a refusal or a skipped line, the hook's to all else, and to a mail then the answers of its handler in order |
| `Server.HandlerReads` | smtp-server/src/lib.rs:163-185 | a mail handler reads on as long as it likes, which may depend on every piece it has got, in pieces of any size; it has read all, or stopped by itself, or met the end of the stream |
| `Server.Drain` | smtp-server/src/lib.rs:707-723 | what the handler leaves is read to the end of the data, or to the end of the stream |
| `Server.Server.TakeData` | smtp-server/src/lib.rs:668-727 | the window handed to the reader and taken back leaves exactly what follows the data |
| `Server.Server.SendDecisions` | smtp-server/src/lib.rs:694-702 | the loop over the decisions, with its panics |
| `Server.Server.OnHello` | smtp-server/src/lib.rs:573-597 | the greeting: what is accepted, refused and remembered |
| `Server.Server.OnMail` | smtp-server/src/lib.rs:599-635 | MAIL |
| `Server.Server.OnRcpt` | smtp-server/src/lib.rs:637-652 | RCPT |
| `Server.Server.OnData` | smtp-server/src/lib.rs:654-669 | DATA, which takes the transaction out of the session before it looks at it |
| `Server.Server.OnRset` | smtp-server/src/lib.rs:733-739 | RSET |
| `Server.Server.OnStarttls` | smtp-server/src/lib.rs:741-758 | STARTTLS, refused when more has been received with it |
| `Server.Server.SwitchToTls` | smtp-server/src/lib.rs:748-754 | the switch happens with an empty buffer, and nothing of the session before it is remembered |
| `Server.Server.Perform` | smtp-server/src/lib.rs:654-758 | after a reaction: going on, ending, reading a mail or switching to TLS, as the session says |
| `Server.Server.Turn` | smtp-server/src/lib.rs:512-772 | one turn of the loop is one step of the session, for an arrival that fits the stream |
| `Server.Server.Interact` | smtp-server/src/lib.rs:391-775 | for any parser that consumes what it accepts: the run is a session, its history legal, each entry the answer to what arrived in its place, the end as the last arrival says, no byte of the stream lost or seen twice, the replies sent exactly those due; and it is the one function of the bytes wherever `NetworkIsIrrelevant` applies |
| `Automata.FindDfa` | smtp-message/src/misc.rs:64-86 | despite its early exit, the length of the longest accepted prefix; without one, whether the automaton is dead |
| `Automata.LongestIsLongest` | smtp-message/src/misc.rs:64-86 | that length is of an accepted prefix, and no longer one is accepted |
| `Automata.ErrorIsStable` | smtp-message/src/misc.rs:88-110 | an error stays one, whatever follows |
| `Automata.TerminatedIsStable` | smtp-message/src/misc.rs:88-115 | a match followed by a byte that no accepting state lives through stays the match |
| `Expressions.ReplyCodeIs` | smtp-message/src/reply.rs:17-20 | the automaton for reply codes accepts exactly a digit from 2 to 5 and two digits |
| `Expressions.EnhancedCodeIs` | smtp-message/src/reply.rs:21-24 | that for enhanced codes exactly 2, 4 or 5 and two numbers of one to three digits, with dots between |
| `Expressions.TextIs` | smtp-message/src/reply.rs:25-28 | that for reply texts exactly tabs and printable characters |
| `Expressions.ParameterNameIs` | smtp-message/src/command.rs:19-26 | that for parameter names exactly letters, digits and dashes, a dash not first |
| `Expressions.ValueIs` | smtp-message/src/command.rs:27-30 | that for parameter values exactly one or more visible characters, none of them `=` |
| `Expressions.HostnameIs` | smtp-message/src/misc.rs:25-32 | that for host names exactly labels with dots between, or an address in brackets |
| `Expressions.LocalpartIs` | smtp-message/src/misc.rs:41-48 | that for local parts exactly one or more of the characters of a dot-string, or a quoted string in which quotes and backslashes are escaped |
| `Expressions.Utf8Is` | smtp-message/src/misc.rs:64-86 | the automaton under the UTF-8 expressions accepts exactly the encodings of sequences of Unicode scalar values, by section 3 of RFC 3629 |
| `Expressions.Utf8ClassesAre` | smtp-message/src/reply.rs:29-32 | the UTF-8 expressions for texts, parameter values and host names accept exactly UTF-8 of which the ASCII characters are of the class |
| `Expressions.LocalpartUtf8Is` | smtp-message/src/misc.rs:53-59 | the same for local parts, quoted or not |
| `ReplySyntax.ReplyText` | smtp-message/src/reply.rs:447-535 | the bytes of a printed reply: each line has the code, a space or, before more lines, a dash, the enhanced code, the text and CRLF |
| `ReplyReading.ReplyApart` | smtp-message/src/reply.rs:401-519 | whatever is read as a reply consists of such lines, with the spaces that may be missing, and is read as their texts with the codes of the last |
| `ReplySyntax.ReplyRoundTrip` | smtp-message/src/reply.rs:495-535 | a printed reply is read back, and what follows it left, if and only if it has an enhanced code or no line reads as having one |
| `ReplySyntax.LinesRead` | smtp-message/src/reply.rs:401-469 | what any printed lines are read as |
| `ReplySyntax.TailEnds` | smtp-message/src/reply.rs:409-436 | how the optional enhanced code and the text of a line are read, up to the end of the line |
| `ReplySyntax.ReplyPrefix` | smtp-message/src/reply.rs:495-519 | a proper first part of a printed reply is incomplete if it is valid UTF-8 and an error if it is cut inside a character |
| `ReplySyntax.AsciiReplyPrefix` | smtp-message/src/reply.rs:495-519 | every proper first part of an ASCII reply is incomplete |
| `ReplySyntax.CutReplyIsError` | smtp-message/src/misc.rs:74-84 | a reply that is read back whole, but taken for an error when cut |
| `Client.PrintedReplyDecides` | smtp-client/src/lib.rs:248-310 | every first part of a printed ASCII reply that fits the buffer, and of what follows it, leads to that reply |
| `Client.ReadReply` | smtp-client/src/lib.rs:248-310 | in any pieces such a reply is received and what follows it is kept; in general, the result is that of some first part of the stream: too long only if incomplete when the buffer is full, a syntax error only if some first part is one, aborted only at the end of the stream |
| `AddressSyntax.HostnameReads` | smtp-message/src/misc.rs:229-329 | a printed host name, international or not, followed by a terminator, is read back |
| `AddressSyntax.LocalpartReads` | smtp-message/src/misc.rs:450-490 | a printed local part, quoted or not, ASCII or not, is read back |
| `AddressSyntax.EmailReads` | smtp-message/src/misc.rs:610-672 | a printed mailbox, with or without host, is read back |
| `AddressSyntax.PathReads` | smtp-message/src/misc.rs:715-750 | a printed source route of any length is read back |
| `AddressSyntax.BracketedReads` | smtp-message/src/misc.rs:753-793 | a printed address in brackets, with or without route, is read back |
| `CommandSpelling.ParametersRead` | smtp-message/src/command.rs:73-145 | any parameters, with any blanks before each and values ASCII or not, are read back |
| `CommandSpelling.MailReads` | smtp-message/src/command.rs:264-290 | the arguments of MAIL in any spelling, the null sender included |
| `CommandSpelling.OtherKeyword` | smtp-message/src/command.rs:203-346 | no keyword is taken for one tried before it |
| `CommandSpelling.SpellingReads` | smtp-message/src/command.rs:198-346 | a command is read from any of its spellings, in any case, with any blanks where they may stand, with or without brackets, whatever follows |
| `CommandSpelling.BareText` | smtp-message/src/command.rs:357-427 | the bytes of DATA, QUIT, RSET and STARTTLS |
| `CommandSpelling.HelloText` | smtp-message/src/command.rs:359-377 | those of EHLO, HELO and LHLO |
| `CommandSpelling.WordText` | smtp-message/src/command.rs:363-431 | those of EXPN, HELP, NOOP and VRFY |
| `CommandSpelling.MailText` | smtp-message/src/command.rs:379-400 | those of MAIL, also with the null sender |
| `CommandSpelling.RcptText` | smtp-message/src/command.rs:408-423 | those of RCPT |
| `CommandSpelling.CommandRoundTrip` | smtp-message/src/command.rs:198-432 | a printed command is read back, and exactly what follows it is left |
| `CommandSpelling.PipelineRoundTrip` | smtp-message/src/command.rs:198-432 | a printed pipeline is read back as the same list of commands |
| `CommandNormalForm.CommandIs` | smtp-message/src/command.rs:198-346 | a text is read as a command, with something left over, if and only if it is one of the spellings of that command followed by it, and the command is one that can be printed |
| `CommandNormalForm.GoodIff` | smtp-message/src/command.rs:198-432 | the commands of which that is proved are exactly those that can be read |
| `CommandNormalForm.ReadPrintedAgain` | smtp-message/src/command.rs:198-432 | a line read as a command, in whatever case and spacing, is read as the same command when printed again |
| `GrammarStability.CommandFollows` | smtp-message/src/command.rs:198-346 | a command stays that command whatever bytes follow, and an error stays an error unless the text ends inside a character of its first line |
| `GrammarStability.CommandIsLine` | smtp-message/src/command.rs:198-346 | a command takes exactly the first line; a whole line is never asked to be continued |
| `GrammarStability.HostnameSteady` | smtp-message/src/misc.rs:229-329 | the same of host names, also where one cut after a dash fails the first expression and is waited for by the second |
| `GrammarStability.LocalpartSteady` | smtp-message/src/misc.rs:450-490 | the same of local parts |
| `CommandFraming.CommandDecidesIff` | smtp-server/src/lib.rs:512-564 | the pieces in which a line arrives make no difference if and only if it is bad anyway or no piece ends inside a character and looks bad |
| `CommandFraming.AsciiDecides` | smtp-server/src/lib.rs:512-564 | they make none if the line is ASCII, whatever follows it |
| `CommandFraming.CutCharacter` | smtp-message/src/misc.rs:74-84 | a hello that is a command when it arrives at once and a bad line when it arrives cut |
| `CommandFraming.StepTakesALine` | smtp-server/src/lib.rs:512-564 | however the stream arrives, a step of the server with this grammar answers exactly the next line, and a mail's its data as well |
| `CommandFraming.CommandTooLong` | smtp-server/src/lib.rs:535-541 | a line is called too long only if it is longer than the buffer |
| `CommandFraming.AsciiSessionIsOne` | smtp-server/src/lib.rs:512-564 | with this grammar, a session whose command lines are ASCII and have no STARTTLS is the same however its bytes arrive |
| `CommandFraming.AsciiStreamsHaveAsciiCommands` | smtp-server/src/lib.rs:512-564 | an ASCII stream is such a session |

## Left out

- PollReadVectored: one read asks for no more bytes than the buffer of the reader holds, as smtp-server/src/lib.rs:163-165 demands.
- Receive: the working buffer holds five bytes or more, as in the harness.
- Interact: hooks return decisions and do not edit the metadata they are given; what a handler does depends on the history, the transaction and the pieces it has got.
- NetworkIsIrrelevant: not for sessions with STARTTLS, which the server refuses when more has arrived along with it.
- HostnameReads: reading IP addresses and encoding international host names are predicates of other libraries, and are not modelled.
- OneSender: when several processes are alive at once it does not hold of the code, as `TwoSenders` shows; with several processes only what `QueueSafety`, `NoMailLost` and `QueueStories` say without `SoloActed` is stated.
- NoMailLost: a successful commit is one step, listings of directories are snapshots and identifiers are fresh.
- The error path of a commit, which may leave links that are already published.
- Polling, wakers, timers and timeouts, and the state of the writer after an error of its inner writer.
- The values of schedules and retry intervals, logging, the serialised form of metadata.
- TLS itself, DNS, TCP, and the order of commands in the client's `Sender::send`; `verify_reply` and the severity of errors, which would only add easy members.
- The classes and numbers inside an enhanced reply code, which are functions of its text.
- kannader, its configuration crates, the dashboard, tests and benchmarks.
