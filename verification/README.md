# ptyrelay, modelled and verified

ptyrelay drives a shell on the far side of a pseudo-terminal. It wraps every command between two markers that carry a
fresh nonce, and recovers output and exit code from whatever bytes come back: echo, noise, any splitting into chunks.
On top of that sit file transfer, a long-lived agent, a router between the two, and a reconnecting websocket.

This project models that stack and proves what it promises.

| files | part of the system |
|---|---|
| `Bytes`, `Decimal` | byte strings, searching, the chunks of a stream; trimming and reading the exit code |
| `Framing` | what a whole stream means: the one-shot definition both parsers are measured against |
| `Sentinel`, `Chunking` | the incremental parser of framed commands; every chunking, the output limit |
| `Streaming`, `Agreement` | the parser that hands output on as it arrives; how the two parsers' results compare |
| `Shell`, `ShellQuote`, `Wrapper`, `Terminal`, `EndToEnd` | a small POSIX shell, quoting, the wrapper text, the terminal's newlines, echo, and the end-to-end theorem |
| `Drive`, `Lease`, `LeaseRuns`, `Freshness`, `Isolation`, `Writer` | the select loops and cancellation; the session as a protocol, its log and its runs; fresh nonces; one queue for many commands; chunked writes |
| `Base64`, `ShellWrite` | base64 whole, wrapped and in pieces; the upload of a file when any command may fail |
| `WebSocket`, `Router`, `Repl`, `Ansi` | reconnecting, fallback, request/response pairing, control sequences |

Classes and loops of the source are classes and loops here, each proved against a specification function; the lemmas
are about those functions. Concurrency is a transition system whose steps are the stretches the source runs under a
lock. A byte is a `char`, so that markers and scripts can be written as string literals; nothing depends on the range.

What the code does not promise, although its documentation does or a caller might expect it:

* Output that ends in CR loses that byte (`EndToEnd.Reported`). If END stands in mid-line the framed parser drops the
  partial line and the streaming parser keeps it (`Agreement.MidLineEnd`).
* With a limit on the output, a command fails exactly when some chunk overfills the buffer before END was seen, bytes
  after END included (`Chunking.TooLongExactly`). So one and the same stream may complete in two chunks and fail in one
  (`Chunking.LimitDependsOnChunking`, with a frame in `EndToEnd.SameFrameTwoVerdicts`); finer chunks never make it
  worse (`Chunking.RefinementKeepsVerdict`).
* streaming.go:14-18 says a marker's worth of bytes is always kept back. The code hands on every complete line at once
  and keeps a marker's worth only of an overlong line. No part of a marker is handed on all the same
  (`Streaming.MarkerNotHandedOn`), since markers hold no newline.
* framed.go:377-378 says that once the session is dead every RunFramed is refused. The flag is tested before the mutex
  is taken: a call is refused exactly when the session died before the call started (`Lease.RejectedExactly`), and one
  already waiting goes on and writes (`Lease.WaitingCallGoesOn`, reached by the run of `Lease.WaitingCallIsReachable`).
* The mutex keeps calls from overlapping in this process, not on the remote: a command may be written while an earlier
  one still runs there exactly when some earlier text was given up on before its END (`Lease.RemoteOverlapExactly`).
* Writes to the channel look at the error and not at the count. A channel that takes a first part of a write and
  reports no error loses the rest, and the caller is told that all is well (`Writer.WriteAll` says exactly when). Pipe's
  stdin writer can then return a count below the payload's length without an error (`Writer.ChannelWriter.Write`).
* A writer returned by Pipe still writes to the channel after the pump has released the session
  (`Lease.StdinWithinLease` says exactly when a write is under the pipe's own lease).
* websocket.go:124-128 says ErrReconnected is returned exactly once per reconnect and at the discontinuity. Two
  reconnects between reads give one signal (`WebSocket.ReconnectsCoalesce`): there is one for each reconnect exactly
  when no reconnect succeeded while a signal was due (`WebSocket.OneSignalPerReconnect`). Fresh bytes can be read before
  it (`WebSocket.FreshBytesFirst`; `WebSocket.SignalAtBoundary` says exactly when they are not). A negative
  MaxReconnects is documented as no limit; the code then never reconnects (`WebSocket.EveryRun`). A read after Close can
  report the channel closed and a later one still return a message that was in flight (`WebSocket.MessageAfterClose`):
  every later read reports it closed exactly when no non-empty message comes in before one (`WebSocket.ClosedSticks`).
* Uploading in pieces decodes each piece on its own, so it works exactly when the piece size is a multiple of four or
  the data fits one piece (`Base64.PiecewiseExactly`, `ShellWrite.Uploader.Write`).
* A shell upload or rename whose target is a directory moves the file into that directory and reports success, with
  the directory still there (`ShellWrite.Uploader.Write` says where the data ends up). The agent refuses such a target,
  so a fallback turns its refusal into a success that is no execution of the operation (`Router.WriteIntoDirectory`,
  `Router.RenameIntoDirectory`).
* Directories that both backends helped to make in one operation can have modes that neither would have left
  (`Router.AgentStopsBetween`; `Router.MixedDirectoryModes` has the exact condition, and `Router.MkdirFallbackExactly`
  the one that can be seen before the call: the modes differ and two or more are missing). Short of these two cases a
  fallback leaves what one execution leaves (`Router.FallbackIsExact`, an equivalence). router.go:65-66 says operations
  probe lazily; an operation before the first probe goes to the shell and leaves the agent unprobed.
* StripANSI applied twice can remove more than applied once: two bytes that a removed sequence kept apart may form one
  when it is gone, be it an ESC and what follows it (`Ansi.NotIdempotent`) or CR and LF (`Ansi.NewLineAppears`). It is
  idempotent on exactly the inputs without such a place (`Ansi.IdempotentExactly`; `Ansi.IdempotentWithoutBackspace`
  is the simpler form for inputs free of backspaces).
  After an unknown escape it keeps only the ESC and looks at the next byte afresh, where its comment says both bytes
  are kept.

## Model

| member | source | states |
|---|---|---|
| `Decimal.ExitCodeRoundTrip` | pkg/session/sentinel.go:156-161 | a printed exit code that fits 64 bits reads back as itself, also with a CR before the line end |
| `Decimal.AtoiExactly` | pkg/session/sentinel.go:156-161 | a text is read as an exit code if and only if it is an optional sign and decimal digits within 64 bits, and then as that number |
| `Decimal.BlanksAreTrimmed` | pkg/session/sentinel.go:156-161 | blanks of any number and kind around a text are trimmed, and nothing of the text |
| `Framing.ParseStable` | pkg/session/sentinel.go:66-70 | once a stream has a verdict, more bytes do not change it |
| `Framing.ExitLineExactly` | pkg/session/sentinel.go:151-167 | a stream is pending if and only if no complete line follows END, malformed if and only if that line is not a 64-bit number with blanks around it, and otherwise done with that number |
| `Framing.TailDrop` | pkg/session/sentinel.go:90-99 | dropping all but a marker's length less one byte of the head loses no possible BEG marker |
| `Framing.ScanForBeg` | pkg/session/sentinel.go:87-114 | the scan finds the BEG line that the one-shot definition finds in the buffer, and otherwise keeps what may still begin one |
| `Framing.BodyOfTail` | pkg/session/sentinel.go:87-114 | scanning the trimmed buffer finds the same body as scanning the whole stream |
| `Sentinel.SentinelParser.Feed` | pkg/session/sentinel.go:66-83 | after any history of chunks, done, error, output, exit code and state are those of the verdict on that history; done is sticky |
| `Sentinel.SentinelParser.Drive` | pkg/session/sentinel.go:71-82 | the loop ends, by the rank of the state, with the verdict the chunk leads to |
| `Sentinel.SentinelParser.UserOutput` | pkg/session/sentinel.go:128-143 | the backward line scan yields the complete lines before END less one newline and one CR |
| `Sentinel.SentinelParser.AdvanceCapturing` | pkg/session/sentinel.go:116-149 | the limit is tested on the whole buffer; the second test in appendOutput never fires |
| `Chunking.CompletionIsExact` | pkg/session/sentinel.go:66-167 | whatever the chunking and the limit, the verdict is the limit error or that of the one-shot definition on the whole stream; two completing runs agree |
| `Chunking.ChunkingInvariance` | pkg/session/sentinel.go:66-167 | without a limit every chunking of every stream gives the one-shot verdict |
| `Chunking.TooLongExactly` | pkg/session/sentinel.go:117-123 | the limit error arises if and only if at some chunk the body so far exceeds the limit with END not seen before it |
| `Chunking.RefinementKeepsVerdict` | pkg/session/sentinel.go:116-149 | if one chunking completes under a limit, every refinement completes with the same result |
| `Chunking.LimitDependsOnChunking` | pkg/session/sentinel.go:116-149 | for every complete stream and every cut of it after END: whole it fails exactly when all of the body exceeds the limit, cut exactly when the body up to the cut does; otherwise both give the one-shot verdict |
| `Streaming.LastNewline` | pkg/session/streaming.go:117 | the last newline of a buffer |
| `Streaming.FlowFlush` | pkg/session/streaming.go:91-128 | a flush, of complete lines or of an overlong line, keeps emitted and kept bytes equal to all bytes received, hands on no byte that may begin END, and splits no CR from its LF |
| `Streaming.MarkerNotHandedOn` | pkg/session/streaming.go:14-18 | in every continuation, an END marker starts after everything handed on |
| `Streaming.FlowClose` | pkg/session/streaming.go:130-148 | at END, what was handed on plus the chopped rest is the body before END, less its newline unless that newline was already handed on |
| `Streaming.StreamingParser.Feed` | pkg/session/streaming.go:48-65 | same verdict and exit code as the one-shot definition; output only grows; while streaming no newline stays buffered and at most max(65536, the chunk, a marker) bytes do; if the reader is gone, what it got is a first part of the body |
| `Streaming.StreamingParser.Flush` | pkg/session/streaming.go:113-128 | the newline and 64 KiB rules: what is written and what is kept; if the write fails the buffer is unchanged and a first part of the body was handed on |
| `Streaming.StreamingParser.AdvanceStreaming` | pkg/session/streaming.go:91-148 | finds END exactly where it is in the whole body and hands on the rest of the output, or a first part of it if the reader is gone |
| `Agreement.StreamingRefinesFramed` | pkg/session/streaming.go:20-28 | for any two chunkings of a well-formed stream the framed parser's verdict is the one-shot one and the streamed bytes are its output, or that and one LF or CRLF, the latter exactly when a chunk ended after that newline |
| `Agreement.MidLineEnd` | pkg/session/streaming.go:134-140 | with END in mid-line the streamed output keeps the partial line and the framed output is a strictly shorter prefix |
| `Agreement.StreamedExactly` | pkg/session/streaming.go:130-148 | for every chunking of a well-formed complete stream the reader of a pipe gets the framed output, or that and the newline, the latter exactly when a chunk ended after it; the exit code is the same |
| `ShellQuote.QuoteAll` | internal/shellquote/shellquote.go:31-40 | the loop and the join compute the quoted arguments separated by single blanks |
| `ShellQuote.QuoteRoundTrip` | internal/shellquote/shellquote.go:11-26 | the shell's word reader takes the quoted form of any string as one word that stands for the string, and leaves the rest |
| `ShellQuote.QuoteAllRoundTrip` | internal/shellquote/shellquote.go:28-40 | splitting the quoted list into words gives back every list of arguments |
| `Shell.HereDocText` | pkg/session/framed.go:565-578 | a line-based here-document reader recovers the text and the rest if and only if no line of the text is the delimiter |
| `Wrapper.HereDocRoundTrip` | pkg/session/framed.go:551-578 | a non-empty stdin is refused exactly when it contains the delimiter; otherwise the wrapper's text holds a here-document from which a line-based reader gets the stdin, with one LF more exactly when it lacked one at the end, and which leaves the END printf |
| `Wrapper.RunHereDocGroup` | pkg/session/framed.go:559-578 | the brace group with a here-document runs the command on the completed stdin and leaves the text after the delimiter line |
| `Wrapper.WrapperRuns` | pkg/session/framed.go:550-585 | executing the wrapper in the small shell prints a newline, BEG, the output of the command run on the stdin (with LF added to a non-empty one that lacks it), a newline, END and the exit code, and reads nothing else |
| `EndToEnd.EchoHasNoMarker` | pkg/session/framed.go:545-549 | neither marker occurs in the echoed wrapper, LF or CRLF, not even across the edges of command and stdin |
| `EndToEnd.NoiseAndEchoHaveNoMarker` | pkg/session/framed.go:545-549 | nor across the edge between earlier noise and the echo |
| `EndToEnd.ParseFrame` | pkg/session/sentinel.go:85-167 | a frame after anything without its BEG marker, and before any bytes, parses to its output and exit code |
| `EndToEnd.ParseTerminal` | pkg/session/sentinel.go:134-143 | the same for a frame whose newlines the terminal turned into CRLF, with CRLF in the output too |
| `EndToEnd.SameFrameTwoVerdicts` | pkg/session/sentinel.go:116-149 | for every nonce, output and exit code, a limit under which the command's frame completes when cut after END and fails when it arrives in one chunk |
| `EndToEnd.CommandResult` | pkg/session/framed.go:397-413 | end to end: noise, echo of the wrapper, what running the wrapper prints, and any trailing bytes, in any chunks, give the output and exit code of the command run on its stdin, completed by LF if need be |
| `EndToEnd.PipeResult` | pkg/session/framed.go:187-236 | end to end for Pipe: noise, echo of the wrapper, what running the wrapper prints, and any trailing bytes, in any chunks, give the command's exit code and its own output, with the wrapper's newline exactly if a chunk ended inside END |
| `Terminal.NormalizeUndoesTty` | pkg/session/ansi.go:85-90 | normalizing line endings undoes the terminal's LF to CRLF translation of any text |
| `Drive.StepReachable` | pkg/session/framed.go:475-539 | one turn of the select loop keeps the bounds on timers, non-read turns and control bytes |
| `Drive.CancelEscalation` | pkg/session/framed.go:455-540 | in every run at most one 0x03 then at most one 0x1c, the latter only after the soft timer; death for want of an answer only after both; at most three non-read turns; a completion after cancel is reported as canceled and kills nothing |
| `Drive.SendDecides` | pkg/session/framed.go:512-538 | at any point of any run: the first turn that is not a read sends 0x03, the second 0x1c, and the loop goes on if and only if the write succeeds, the session being dead otherwise; the third sends nothing and kills the session |
| `Drive.ReadDecides` | pkg/session/framed.go:482-510 | at any point of any run: what each kind of read leads to, the error that is returned, and that only a lost channel kills the session |
| `Drive.ExitIsFinal` | pkg/session/framed.go:455-540 | nothing happens after the loop has returned |
| `Drive.Escalation.OnTimer` | pkg/session/framed.go:524-538 | the timer branch moves the variables as one step of the loop |
| `Drive.DriveParser` | pkg/session/framed.go:455-540 | the loop is such a run, feeds the chunks received in order, and returns a result if and only if the parser's verdict is done, the result being the parser's, and a protocol error if and only if the verdict is one |
| `Drive.PumpLoop` | pkg/session/framed.go:262-328 | the pump's loop is a run of the machine over the chunks received in order; each of its exits has ended the output, cleanly only after a completion, and sent its one result |
| `Drive.PipePump` | pkg/session/framed.go:237-329 | if and only if the pump returns, exactly one result was sent, the channel is closed and the mutex unlocked; the result has no error if and only if the loop ended with a completion that was not canceled, otherwise it names the exit; after any completion it has the stream's exit code, with all the output handed on |
| `Lease.StepConsistent` | pkg/session/framed.go:156-375 | every step of every caller, pump and Close keeps state and log consistent: the duty to unlock is with exactly one thread of the call that holds the mutex |
| `Lease.LeaveConsistent` | pkg/session/framed.go:194-201 | Pipe's deferred release, interleaved with the running pump in any way, unlocks only while `released` is false, and never what the pump is to unlock |
| `Lease.LeaseSafety` | pkg/session/framed.go:156-375 | in every interleaving of calls, pumps, stdin writers and Close, the log of the session is lawful; in particular nothing unlocks an open mutex or uses a closed channel, and a pipe's output is ended cleanly if and only if END was seen |
| `Lease.ReleasedOncePerAcquisition` | pkg/session/framed.go:160-161 | each acquisition is released exactly once, by the returning call or by the pump it handed over to, or is still held; no step panics |
| `Lease.CommandsDoNotOverlap` | pkg/session/framed.go:160-170 | between what one call writes and what another writes, the first has released the mutex |
| `Lease.RemoteOverlapExactly` | pkg/session/framed.go:160-170 | when a text is written, an earlier one may still run on the remote if and only if some earlier text was cut or abandoned before its END |
| `Lease.OneResultThenClosed` | pkg/session/framed.go:237-261 | a pipe whose mutex was given back has sent exactly one result and then closed the channel; at no time are there two |
| `Lease.DeadSessionIsSilent` | pkg/session/framed.go:157-159 | a call started after the session died is rejected and writes nothing, then or later, not even to a pipe's stdin |
| `Lease.RejectedExactly` | pkg/session/framed.go:157-159 | in every run a call is rejected if and only if the session died before the call started |
| `Lease.WaitingCallGoesOn` | pkg/session/framed.go:157-164 | a call already waiting when the session dies takes the mutex and writes |
| `Lease.WaitingCallIsReachable` | pkg/session/framed.go:157-164 | a run from the start in which the session dies between a call's test of the flag and its locking, and the call writes |
| `Lease.DeadIsSticky` | pkg/session/framed.go:369-381 | the dead flag is never cleared |
| `Lease.StdinWithinLease` | pkg/session/framed.go:331-366 | a write to a pipe's stdin is under that pipe's lease if and only if the pump has not yet released it |
| `LeaseRuns.PreludedExactly` | pkg/session/framed.go:163-168 | in every run the session counts as preluded if and only if some prelude completed with exit code 0 and not canceled |
| `LeaseRuns.NoCommandBeforePrelude` | pkg/session/framed.go:163-168 | in every run, before any user command is written a call's prelude has completed with exit code 0 and without having been canceled |
| `LeaseRuns.FailedPreludeWritesNothing` | pkg/session/framed.go:383-395 | a prelude that ends with another exit code, canceled, or without completing leaves the session as preluded as it was, and its call never writes its command in any continuation |
| `LeaseRuns.DeadExactly` | pkg/session/framed.go:369-375 | in every run the session is dead if and only if it was closed or a loop lost the channel, failed to write a control byte, or waited in vain after both |
| `LeaseRuns.ControlBytesAreLogged` | pkg/session/framed.go:512-538 | a turn of any loop that sends a control byte has it on the session's log, and no other turn has one there |
| `LeaseRuns.WritesAreLogged` | pkg/session/framed.go:407-409 | a prelude or command is on the log whole, in part or not at all, as it was written, and a call whose write failed goes no further |
| `LeaseRuns.FramedCallCompletes` | pkg/session/framed.go:156-185 | from any preluded session with a free mutex a framed call can lock, write, complete and unlock, and leaves the session as it was |
| `LeaseRuns.PipeHandsOver` | pkg/session/framed.go:187-236 | likewise a Pipe call returns with the mutex locked and its pump running |
| `LeaseRuns.PumpCompletes` | pkg/session/framed.go:237-301 | a pump that sees END ends the output cleanly, sends its result, closes the channel and unlocks |
| `Freshness.EchoFree` | pkg/session/framed.go:545-549 | the echo of a command holds no other nonce |
| `Freshness.FrameFree` | pkg/session/framed.go:550-585 | the frame of a command holds no other nonce that is not in its output |
| `Isolation.UnseenInPieces` | pkg/session/framed.go:550-585 | a nonce that is in none of the pieces shown after an echo is not in them read as one: for a whole frame, or one cut with no hex digit after it, and an exit code shorter than a nonce |
| `Isolation.HistoryFree` | pkg/session/framed.go:397-413 | nothing shown before a command was written holds its nonce, if neither the text of an earlier command nor what followed its echo does: no echo, and nothing across the edges |
| `Isolation.NoMarkerBefore` | pkg/session/framed.go:397-413 | hence its BEG marker does not occur before its frame, its own echo included, whatever its output shows |
| `Isolation.StopsAtOnce` | pkg/session/framed.go:455-511 | a command stops reading at its first verdict, and at the point where it is abandoned at the latest |
| `Isolation.OneCommand` | pkg/session/framed.go:397-413 | a command, framed or piped, whose frame comes after bytes without its nonce, its echo and other bytes reports its own result, or the limit error if it has a limit, once it has read on to the end, and before that these or nothing; its output may show its nonce, though not END |
| `Isolation.CommandIsolation` | pkg/session/framed.go:455-511 | over any sequence of framed and piped commands on one queue, wherever each earlier one stopped reading and whatever of its frame came, a command with a fresh nonce whose frame comes whole reports its own output and exit code, or the limit error if it has a limit; it reports nothing only if it is itself abandoned |
| `Writer.WriteAll` | pkg/session/framed.go:424-445 | success means that all of the payload reached the channel, in order and in pieces within the limit, if and only if no write was cut short in silence; an error means that a first part did |
| `Writer.ChannelWriter.Write` | pkg/session/framed.go:331-357 | the count is of the bytes that reached the channel; success with a count below the payload's length occurs if and only if some write was cut short in silence |
| `Base64.RoundTrip` | pkg/backend/shell/io.go:80-80 | decoding undoes encoding (section 4 of RFC 4648) |
| `Base64.AlphabetInOrder` | pkg/backend/shell/io.go:80-80 | the 64 characters are those of table 1 of RFC 4648, in its order |
| `Base64.EncodesGroups` | pkg/backend/shell/io.go:80-80 | section 4 of RFC 4648: each group of three octets is four characters, six bits each from the top, and in the last group what stands for no octet is padding |
| `Base64.ReadRoundTrip` | pkg/backend/shell/io.go:43-50 | decoding undoes encoding under any line wrapping, after trailing newlines are trimmed |
| `Base64.PiecewiseExactly` | pkg/backend/shell/io.go:82-106 | decoding each piece on its own and joining gives the data if and only if the piece size is a multiple of four or there is one piece, and otherwise fails |
| `Base64.StagedTextRoundTrip` | pkg/backend/agent/agent.go:157-184 | a request staged as text in pieces of any size decodes to the request |
| `ShellWrite.OnlyTheTempFile` | pkg/backend/shell/io.go:80-133 | whatever fails, staging, touching, digesting and discarding leave every file but the temporary one as it was, at every step |
| `ShellWrite.RenameIsAtomic` | pkg/backend/shell/io.go:138-146 | however far chmod and mv get, the place where mv lands, the target or its entry in a target directory, holds its old file or all of the new one, with the requested mode |
| `ShellWrite.TempsAreApart` | pkg/backend/shell/io.go:222-228 | the temporary file is a sibling of the target, and uploads with different suffixes have different ones |
| `ShellWrite.LandsInside` | pkg/backend/shell/io.go:138-146 | a file moved to a directory keeps its name inside it |
| `ShellWrite.StageProgress` | pkg/backend/shell/io.go:96-104 | after a piece that reports success, the temporary file holds exactly what was sent so far and the text left encodes the rest |
| `ShellWrite.Uploader.StagePieces` | pkg/backend/shell/io.go:85-113 | success means the temporary file holds the data; without faults it succeeds if and only if the pieces fit |
| `ShellWrite.Uploader.VerifyStaged` | pkg/backend/shell/io.go:115-133 | with a digest tool, success means the staged bytes are the data, even if staging lied |
| `ShellWrite.Uploader.Write` | pkg/backend/shell/io.go:56-149 | at every step the landing place is old or entirely new; a nil return means new there, and at the path itself if and only if that is no directory; a failing return whose clean-up succeeds leaves no temporary file; without faults it succeeds if and only if size and pieces fit and neither the temporary path nor the landing place is a directory |
| `ShellWrite.BufferedWriter.Write` | pkg/backend/shell/io.go:192-202 | a write is accepted whole or refused whole, and refused after Close or over the limit |
| `ShellWrite.BufferedWriter.Close` | pkg/backend/shell/io.go:204-210 | the first Close uploads all accepted bytes, at every step leaving the old file or all of the new one; later ones do nothing |
| `WebSocket.StepInv` | pkg/channel/websocket/websocket.go:319-471 | every step of pump, readers and Close keeps the invariant of the channel |
| `WebSocket.EveryRun` | pkg/channel/websocket/websocket.go:319-471 | in every interleaving the bytes read from each connection are a prefix of what it delivered, buffer and reads make up all of the current one's, there is at most one signal per reconnect, and what remains of a positive limit plus the reconnects is the limit |
| `WebSocket.RedialsExactly` | pkg/channel/websocket/websocket.go:319-380 | in every run a broken connection is redialed if and only if the channel is not closed, reconnecting is enabled, and there is no limit or fewer reconnects than the limit were made |
| `WebSocket.RedialOutcome` | pkg/channel/websocket/websocket.go:406-442 | a redial brings a new connection, an empty buffer and a due signal if and only if dialing succeeds on a channel that is not closed; otherwise the pump stops with the old connection's error |
| `WebSocket.BreakIsReported` | pkg/channel/websocket/websocket.go:336-346 | after a break, once the pump has stopped and all was read, reads return end of file if the connection was closed cleanly, and its error otherwise |
| `WebSocket.PayloadOutcome` | pkg/channel/websocket/websocket.go:347-362 | a decoded payload is buffered behind the rest; one that cannot be decoded ends the channel with that error |
| `WebSocket.ReadTakes` | pkg/channel/websocket/websocket.go:459-461 | a read returns as many of the first buffered bytes as it asks for and there are |
| `WebSocket.NoSignalWithoutReconnect` | pkg/channel/websocket/websocket.go:429-430 | between two signals there is a reconnect |
| `WebSocket.OneSignalPerReconnect` | pkg/channel/websocket/websocket.go:124-128 | in every run reconnects less signals, read or due, is the number of reconnects that succeeded while a signal was due; so one signal per reconnect if and only if there was none |
| `WebSocket.NothingLost` | pkg/channel/websocket/websocket.go:459-470 | an error, the end or the signal is returned only when every byte of the current connection was read |
| `WebSocket.SignalAtBoundary` | pkg/channel/websocket/websocket.go:124-128 | the signal precedes a connection's first byte if and only if none had arrived before it was read |
| `WebSocket.TerminalErrorSticks` | pkg/channel/websocket/websocket.go:456-470 | once the pump has stopped and all was read, every read returns the same error, or from Close on that the channel is closed |
| `WebSocket.ClosedSticks` | pkg/channel/websocket/websocket.go:456-470 | from any closed state with nothing left to read, in every run, all later reads of bytes report the channel closed if and only if no non-empty message comes in before one of them |
| `WebSocket.ReconnectsCoalesce` | pkg/channel/websocket/websocket.go:445-449 | a run with two reconnects and one signal |
| `WebSocket.FreshBytesFirst` | pkg/channel/websocket/websocket.go:459-466 | a run that reads a new connection's byte before the signal |
| `WebSocket.MessageAfterClose` | pkg/channel/websocket/websocket.go:358-361 | a run that reads a byte after being told the channel is closed |
| `WebSocket.Channel.AttemptReconnect` | pkg/channel/websocket/websocket.go:406-442 | the lock-holding part of a redial is one step of the machine |
| `WebSocket.Channel.Receive` | pkg/channel/websocket/websocket.go:450-471 | a Read that need not wait is one step of the machine, with its result |
| `Router.Router.Route` | pkg/backend/router/router.go:147-182 | backends invoked, effects, result and health are those of the routing rule |
| `Router.RoutingExactly` | pkg/backend/router/router.go:147-182 | the shell runs alone when the agent is down and the agent alone when it succeeds; when a healthy agent fails, the shell runs too, its result counts and the agent is marked down, if and only if the operation is not a removal, a command or unknown |
| `Router.Router.Probe` | pkg/backend/router/router.go:95-110 | health changes only if the shell's probe succeeds, and then to the agent's |
| `Router.FallbackIsExact` | pkg/backend/router/router.go:163-181 | whether a failing agent call took no, part of or all its effect, a successful fallback leaves what one execution leaves, staging files aside, if and only if the target was no directory and the backends' directories do not mix |
| `Router.MixedDirectoryModes` | pkg/backend/shell/fs.go:205-219 | for every chain, state, failure and mode: directories made by both backends are those of one execution if and only if both give intermediate directories the same mode or the agent had made none or all of the missing ones |
| `Router.MkdirFallbackExactly` | pkg/backend/router/router.go:163-181 | for every chain, state and mode: wherever the agent may stop, every fallback that succeeds is one execution, if and only if the modes agree, or at most one intermediate directory is missing, or a file is in the way |
| `Router.UmaskedDigits` | cmd/ptyrelay-agent/handlers.go:241-252 | a directory the agent makes has the requested mode without the write bits of group and others |
| `Router.AgentStopsBetween` | pkg/backend/shell/fs.go:205-219 | an agent that stops after the first of two missing intermediate directories: the result is of one execution if and only if the modes agree |
| `Router.WriteIntoDirectory` | pkg/backend/shell/io.go:138-146 | writing to a directory: the agent refuses, the shell reports success, the directory stays and the data is inside it under the temporary name |
| `Router.RenameIntoDirectory` | pkg/backend/shell/fs.go:221-232 | renaming a file to a directory: the agent refuses, the shell reports success and the file is inside |
| `Router.NoAgentUntilProbed` | pkg/backend/router/router.go:169-173 | in every run, after the agent fails a fallbackable operation it is not invoked before a successful probe |
| `Router.DownUntilProbed` | pkg/backend/router/router.go:153-157 | from an unhealthy state, so also from the start, no operation reaches the agent before a successful probe |
| `Router.AgentUsedExactly` | pkg/backend/router/router.go:95-110 | in every run an operation reaches the agent if and only if there has been a good probe since which the agent failed no fallbackable operation and no probe found the shell without it |
| `Router.InvocationsOf` | pkg/backend/backend.go:58-72 | in every run a non-idempotent operation invokes exactly one backend, others at most the agent and then the shell |
| `Router.CommandRunsOnce` | pkg/backend/backend.go:58-72 | whatever fails and however, a command is run at most once, and exactly once if the router reports success |
| `Router.RemovesOnlyThat` | pkg/backend/shell/fs.go:233-250 | a removal takes away the file or empty directory and nothing else, or changes nothing |
| `Repl.RunRepl` | cmd/ptyrelay-agent/main.go:71-96 | the agent's loop writes the specified responses |
| `Repl.RepliesInOrder` | cmd/ptyrelay-agent/main.go:71-96 | the k-th response has the k-th request's id and answer, a bye and an undecodable request being answered without an id, and nothing after those |
| `Repl.AnsweredExactly` | cmd/ptyrelay-agent/main.go:71-96 | a request is answered if and only if no bye and nothing undecodable precedes it |
| `Repl.StepInv` | pkg/backend/agent/repl.go:107-200 | every step of callers, Close and the agent keeps at most the holder's request or response in transit |
| `Repl.ResponsesArePaired` | pkg/backend/agent/repl.go:149-157 | in every interleaving no call decodes another's response, so the mismatch branch is unreachable, and a successful call has the answer to its own request |
| `Repl.ReadGetsOwnReply` | pkg/backend/agent/repl.go:140-157 | in every reachable state a call that reads gets the answer to its own request, or the refusal of an agent that could not decode it, and hands on the stream in order |
| `Repl.OtherIdIsMismatch` | pkg/backend/agent/repl.go:149-154 | a response with another call's id is never taken for an answer |
| `Repl.IdsAreUnique` | pkg/backend/agent/repl.go:125-125 | two calls in flight have different ids |
| `Repl.ClosedStreamIsLeftAlone` | pkg/backend/agent/repl.go:121-123 | once a stream is closed, no later call writes to it or reads from it, in any run |
| `Repl.NothingAfterFailure` | pkg/backend/agent/repl.go:136-148 | after a failed write or read, or a finished bye, no call of any continuation touches the stream |
| `Repl.FreshAgentAfterClose` | pkg/backend/agent/repl.go:168-173 | in every run, a call that begins after Close never uses an agent launched before it |
| `Ansi.StripANSI` | pkg/session/ansi.go:20-83 | the nested loops compute the specification and stay in bounds |
| `Ansi.StripsToText` | pkg/session/ansi.go:5-19 | complete CSI, OSC and two-byte sequences at any positions of a text free of ESC, BS and CR leave exactly the text |
| `Ansi.CsiErasedExactly` | pkg/session/ansi.go:29-43 | after ESC [ everything up to the first byte of 0x40-0x7E goes, whatever it is; without one everything goes |
| `Ansi.EscapeExactly` | pkg/session/ansi.go:61-69 | after ESC a byte of 0x40-0x5F other than the brackets goes with it; of any other byte the ESC alone is passed on |
| `Ansi.OscErasedExactly` | pkg/session/ansi.go:44-60 | after ESC ] everything up to the first BEL or ESC \ goes; without one everything goes |
| `Ansi.NotIdempotent` | pkg/session/ansi.go:61-69 | an input on which stripping twice removes more than stripping once |
| `Ansi.IdempotentExactly` | pkg/session/ansi.go:20-83 | for every input: stripping twice is stripping once if and only if the input has no two tokens, not taken back by backspaces, whose bytes form a sequence start or CR LF and between which everything vanishes, being sequences or taken back |
| `Ansi.IdempotentWithoutBackspace` | pkg/session/ansi.go:20-83 | for every input without backspaces: if and only if no such two bytes have only complete sequences, or the CR of a CR LF, between them |
| `Ansi.MetWereApart` | pkg/session/ansi.go:20-83 | bytes that form a pair in the stripped text were apart in the input: something between them vanished or a CR was dropped |
| `Ansi.NewLineAppears` | pkg/session/ansi.go:20-83 | CR and LF around a colour sequence become CR LF, which a second pass makes LF |

## Left out

- The shell beyond what the wrapper and Quote produce: words, quoting, one form of expansion, printf with %d and \n, brace groups, here-documents. The user command is an abstract function from its stdin to output and exit code; it does not read past its input and does not assign the wrapper's variables. Its stdin is empty when none is given, where the real one is the terminal.
- Lease.LeaseSafety: goroutines are program counters of a transition system instead of threads over a shared object, and writes to the channel are log entries.
- Lease.CommandsDoNotOverlap: speaks of preludes, commands, cut texts and control bytes; bytes for a pipe's stdin are the subject of StdinWithinLease.
- Streaming.StreamingParser.Feed: after a failed write to the reader's pipe the parser is not fed again, as the pump returns then; a reader is how many bytes it takes before it closes.
- Streaming.StreamingParser.constructor: asks for a nonce without newline, which the session's hex nonces are.
- Isolation.CommandIsolation: assumes what a fresh nonce is meant to give: sixteen hex digits, different from the earlier commands' nonces, not in their text or in what followed their echoes, and not in the command's own text. What was taken before a command starts was shown before it was written. The chunks left in the queue are those that come, in order; stopping short of a verdict is a number of chunks, not a cause.
- Real time: timers are events, a select is a choice among the enabled ones.
- ShellWrite.Uploader.Write: files are a map from paths to regular files beside a fixed set of directories, and a path has one spelling; the digest is an injective function whose output arrives unaltered; command lines are values instead of text, their quoting being the subject of ShellQuote.
- Router.FallbackIsExact: paths have one spelling, renaming is of files, and times and owners are not modelled; the temporary file of a call that died is left behind, as in the source.
- Repl.ResponsesArePaired: launching the agent with its warm-up exchange is one step, JSON is an opaque codec, and ids are numbers instead of their hexadecimal text.
- WebSocket.EveryRun: dialing, keepalive and socket calls are outcomes of a step; the Encode and Decode hooks are outcomes too.
- Wrapper.WrapperRuns: the nonce is a parameter; random generation is not modelled.
- Stat, List and probe-output parsing: field splitting only.
- Read's size check, the CLI, the MCP server, configuration, logging, tmux and subprocess channels, bootstrap scripts, and length-prefixed frames.
