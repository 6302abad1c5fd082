# BlazeBee verification

BlazeBee is a monitoring agent: a sampling loop and an MQTT connection driver
run as cooperating tasks on one thread and share a versioned watch cell and a
bounded request queue. This project models its core and proves what it promises
over every run, every interleaving and every input.

## How the model is laid out

| file | what it models |
|---|---|
| `Agent.dfy`, `Guarantees.dfy` | driver, scheduler and main as one step system; the properties of all its runs |
| `Connection.dfy`, `Link.dfy` | the connection driver, the states it shows and the watch cell that carries them |
| `Scheduler.dfy` | the sampling loop: pause and resume, cycles, failure accounting |
| `Channel.dfy` | the bounded request queue with its history |
| `Publisher.dfy`, `Mqtt.dfy` | size checks, stream ids, queue effects; MQTT 3.1.1 PUBLISH layout |
| `Framer.dfy`, `Reassembly.dfy` | frame headers and splitting; what a consumer can rebuild |
| `Backoff.dfy`, `Bits.dfy` | capped exponential delays with jitter, their generator and its words as numbers |
| `Env.dfy`, `ConfigTree.dfy` | `${NAME}` substitution in strings and in a parsed configuration |
| `Procfs.dfy`, `ProcFile.dfy`, `Utf8.dfy` | octal unescaping, lines and fields, reading a file into a buffer |
| `Mounts.dfy`, `Filesystem.dfy` | the mount table; the collector with its stuck `statvfs` calls |

The runtime switches tasks only at await points, so the code between two of them
is one atomic step, and a run is any sequence of such steps. Poll results, timer
ticks, collector results, queue pops, signals and random draws are arguments, so
every statement holds for all of them. Each object of the program is a class
whose methods are proved equal to a function on values; the lemmas about these
functions carry the promises. A method marked `returns (ghost …)` names what the
surroundings did during the call.

Text is its UTF-8 bytes, so offsets and lengths are byte counts. Seconds are
reals.

## Where the code and its documentation differ

The model follows the code.

- The filesystem collector promises at most one parked thread per stuck mount.
  A collect that the scheduler's timeout drops while it waits forgets that call,
  and the next collect starts a second one. `CancellationExact` gives the exact
  condition for such a drop. `UncancelledHistory` keeps the promise over any
  history in which no collect is dropped, `HistoryKeepsTracked` also where the
  deadline cannot pass, and `DropForgetsCall` and `SecondCall` break it wherever a
  collect is dropped.
- The kernel does not escape carriage returns and form feeds in mount fields, but
  the parser splits fields at them: `FieldsOfLine` is the exact condition,
  `ReturnBreaksTheLine` an example.
- An octal escape above `\377` does not fit its byte. A release build wraps
  around, as modelled; a debug build stops (`EscapeFitsByte`).
- Payloads are documented to be refused when they would exceed
  `max_packet_size`. The check assumes the longest length field and so refuses a
  few that would fit: `UnframedRejection` is the exact condition.
- The log promises a warning for every 120th failure in a row. The counter
  saturates, and after that no warning comes (`FailureAccounting`).
- The number of skipped cycles in the log counts wake-ups, also those caused by a
  state change (`SkippedCountsWakes`).
- `TransferError::Closed` is documented for publishes after the driver stopped.
  `try_publish` reports a closed queue as a full one.
- `max_packet_size` is documented to keep larger payloads from being sent, but the
  status messages are queued without a size check. `StatusFits` is the exact
  condition on the status topic's length, `StatusTooLarge` a valid configuration
  that breaks it.
- A failed read leaves `read_into` before it cuts off the room it had filled with
  zeros, so the caller's text ends in NULs whose number depends on how the reads
  split and on the buffer's capacity. `SplitShowsExactly` is the exact condition
  for both together, `SplitAloneShows` for the split alone, `HalvesLeaveMoreZeros`
  an example. The callers ignore the text of a failed read.

## Model

| member | source | states |
|---|---|---|
| Guarantees.NoLostWakeUp | src/core/scheduler.rs:96-142 | in every reachable state a paused scheduler that waits while the link is connected has an unseen change, so the early wake is ready and starts a cycle |
| Guarantees.CyclesFollowConnected | src/core/scheduler.rs:112-144 | a cycle begins only on a wake-up that finds the link connected; a link found down while it runs is an unseen change; skipped is positive exactly while paused |
| Guarantees.WakeExact | src/core/scheduler.rs:96-152 | in every reachable state each wake-up of the waiting loop runs a whole cycle if the link is connected, paused before or not, ends the loop after a fatal error and otherwise skips one more cycle, and leaves no change unseen |
| Guarantees.CyclesAreConnectedWakes | src/core/scheduler.rs:96-152 | over any run as many cycles begin as wake-ups find the link connected |
| Guarantees.UntilNextWake | src/core/scheduler.rs:147-152 | between two wake-ups the scheduler only uses up the remaining entries of the running cycle |
| Guarantees.OutageBound | src/core/scheduler.rs:118-129 | over any outage, however long and however often the loop wakes, at most the turns left in the running cycle are taken |
| Guarantees.FatalIsFinal | crates/mqtt/v3/src/connection.rs:246-250 | after a fatal error link, driver and queue never change again, the running cycle is the last and the next wake-up ends the loop |
| Guarantees.ExitStatus | src/main.rs:79-97 | over all runs exit status 1 only after a fatal connection error, and a fatal error leads there from the waiting loop by one wake-up unless a signal comes first |
| Guarantees.SignalShutsDown | src/main.rs:79-84 | a signal drops the scheduler where it stands, tells the driver and means exit status 0, whatever the state |
| Guarantees.ShutdownIsFinal | src/main.rs:79-97 | once begun a shutdown is final over any run: same status, no further turn, and giving up stops the driver |
| Guarantees.ObservableStates | crates/mqtt/v3/src/connection.rs:253-258 | at every await point Disconnected is visible only as "shutdown" after a clean stop, a sleeping driver shows Reconnecting, FatalExit marks exactly the fatal end |
| Guarantees.LinkShowsHistory | crates/mqtt/v3/src/connection.rs:226-260 | while the driver polls or sleeps the link is connected exactly if a success came after the last retried error, reconnecting exactly after such an error, connecting exactly before anything |
| Guarantees.ConnackConnects | crates/mqtt/v3/src/connection.rs:228-241 | in every reachable polling state a successful CONNACK, the first or any later, shows Connected, restarts the delays and offers one online |
| Guarantees.ErrorExact | crates/mqtt/v3/src/connection.rs:244-260 | in every reachable polling state a fatal error stops the driver and shows its reason, any other sends it to sleep on a delay of its band, which the link shows |
| Guarantees.FatalErrors | crates/mqtt/v3/src/connection.rs:313-339 | which errors end the driver and which are retried, one by one |
| Guarantees.FlushEnds | crates/mqtt/v3/src/connection.rs:274-293 | a flushing driver is stopped by the written DISCONNECT, a failed poll or the end of the grace period, and by nothing else |
| Guarantees.TakenInOrder | crates/mqtt/v3/src/connection.rs:85-86 | over all runs nothing queued is lost, overtaken or taken twice |
| Guarantees.StatusMessages | crates/mqtt/v3/src/connection.rs:228-296 | over all runs the queue history reads (sample or online)*, then optionally offline, then optionally DISCONNECT; no more online than successful CONNACKs; the queue holds its tail within capacity |
| Guarantees.Farewell | crates/mqtt/v3/src/connection.rs:268-296 | a shutdown queues offline and DISCONNECT as far as they fit and only from the connected state; it always ends, and the link then shows it exactly if the driver was not asleep |
| Guarantees.DelaysFollowHistory | crates/mqtt/v3/src/connection.rs:251-254 | over all runs the k-th retried error since the last success waits on min(2^(k-1), 60) s within 20 %, always in 0.8 to 72 s, and the link shows that delay |
| Guarantees.CapacityCoversCycle | src/config/mod.rs:136-141 | an unframed cycle that starts on an empty queue never meets a full one while the driver queues no more online messages than capacity exceeds entries, nothing drained |
| Guarantees.CycleCanOverflow | src/config/mod.rs:136-141 | a property of the bounded queue in the untimed model: with one reconnect more (lost connection, delay, CONNACK) and nothing taken out, not even at the failed polls, the last entry of the cycle is refused, so the bound is exact |
| Guarantees.TurnIsPublish | src/core/scheduler.rs:172-179 | an entry's turn succeeds and grows the queue exactly as the publish of its sample does |
| Guarantees.FailureIsolation | src/core/scheduler.rs:172-207 | over all runs an entry's counter is the saturated length of its own current run of failures, whatever other entries do |
| Agent.Reachable | src/main.rs:40-98 | every interleaving of driver, scheduler, main and event loop keeps all invariants on link, loop, queue history and delays |
| Agent.LinkStep | crates/mqtt/v3/src/connection.rs:220-308 | every step keeps the correspondence between the driver's await point and the visible state |
| Agent.ShowStep | crates/mqtt/v3/src/connection.rs:226-260 | every step keeps what the link shows a function of the connection's history |
| Agent.LoopStep | src/core/scheduler.rs:89-169 | every step keeps: a version the scheduler has seen is one whose value it has acted upon |
| Agent.QueueStep | crates/mqtt/v3/src/connection.rs:228-296 | every step keeps the language of status messages and the first-in first-out queue |
| Agent.DelayStep | crates/mqtt/v3/src/connection.rs:231-254 | every step keeps the backoff base a function of the retried errors since the last success |
| Connection.Driver.constructor | crates/mqtt/v3/src/connection.rs:82-95 | a new driver starts connecting, polling, with default backoff and an empty open queue |
| Connection.Driver.HandlePoll | crates/mqtt/v3/src/connection.rs:227-261 | the loop body changes link, backoff and queue as the step function says |
| Connection.Driver.BeginDisconnect | crates/mqtt/v3/src/connection.rs:268-273 | offline and DISCONNECT are tried in this order, only when connected |
| Connection.Driver.Run | crates/mqtt/v3/src/connection.rs:220-296 | the whole loop over any script of await results refines the step function, with draws in [0, 1) |
| Link.Cell.Set | crates/mqtt/v3/src/connection.rs:298-307 | storing an equal state is no change; any other bumps the version |
| Link.VersionCountsChanges | crates/mqtt/v3/src/connection.rs:298-307 | over any sequence of stores the cell holds the last one and its version has grown by the number of changes |
| Scheduler.Scheduler.Wake | src/core/scheduler.rs:96-144 | from wake-up to next await the loop's variables change as the step function says |
| Scheduler.Scheduler.RunEntry | src/core/scheduler.rs:172-207 | one turn queues what fits, changes only its own counter and warns exactly on the logged counts |
| Scheduler.Scheduler.RunCycle | src/core/scheduler.rs:145-152 | the loop over the entries refines the fold of their turns |
| Scheduler.CycleVisitsEveryEntry | src/core/scheduler.rs:144-152 | a cycle gives each entry one turn, advances each counter once by its own result and counts the successes |
| Scheduler.FailureAccounting | src/core/scheduler.rs:193-204 | the counter is the saturated length of the failure run; a run of n has logged 1 + min(n, 2^32 - 1) / 120 warnings |
| Scheduler.SkippedCountsWakes | src/core/scheduler.rs:118-140 | the skipped count is the number of wake-ups in the pause, equal to the ticks exactly if no state change woke the loop |
| Channel.Queue.PushAllExact | crates/mqtt/v3/src/publisher.rs:106-109 | a batch enters as exactly the prefix that fits, in order, and reports success exactly when all of it fitted |
| Channel.Requests.TryPublish | crates/mqtt/v3/src/publisher.rs:88 | a send never waits: it appends or, when full or closed, leaves the queue as it was |
| Publisher.PublishExact | crates/mqtt/v3/src/publisher.rs:55-111 | the queue grows by the prefix of the prepared packets that fits, success exactly when all went in, a refused payload changes nothing |
| Publisher.QueuedPackets | crates/mqtt/v3/src/publisher.rs:66-110 | every packet by which a publish grows the queue has the joined topic and the entry's QoS and retain flag; unframed it is the payload, framed the next frame of the stream in the configured format, and after a success the chunks are the payload |
| Publisher.RefusalExact | crates/mqtt/v3/src/publisher.rs:55-106 | exactly when a publish is refused with each error |
| Publisher.Publisher.PublishValue | crates/mqtt/v3/src/publisher.rs:55-111 | the method realises that effect, uses up a stream id exactly when framing starts and keeps the largest payload size |
| Publisher.WireBound | crates/mqtt/v3/src/publisher.rs:71-109 | every packet that a publish prepares, framed or not, is at most max_packet_size bytes on the wire |
| Publisher.StatusFits | crates/mqtt/v3/src/connection.rs:233-238 | a status message, which no check covers, is within max_packet_size exactly when the joined status topic is short enough |
| Publisher.StatusTooLarge | crates/mqtt/v3/src/connection.rs:271-272 | a valid configuration whose online and offline both exceed it |
| Publisher.UnframedRejection | crates/mqtt/v3/src/publisher.rs:71-86 | the exact condition of a refusal: never for a packet ending more than three bytes below the limit, always above it |
| Publisher.JoinTopicExact | crates/mqtt/v3/src/publisher.rs:114-128 | any number of slashes at the join gives exactly one, and an empty base gives none |
| Mqtt.WireSizeIsLength | crates/mqtt/v3/src/publisher.rs:130-138 | the size used in the bound is the length of the packet laid out by section 3.3 of MQTT 3.1.1 |
| Mqtt.LengthRoundTrip | crates/mqtt/v3/src/publisher.rs:130-138 | the Remaining Length encoding of section 2.2.3 of MQTT 3.1.1 decodes to the length |
| Mqtt.LengthBytes | crates/mqtt/v3/src/publisher.rs:130-138 | it takes one to four bytes exactly up to 268435455 |
| Framer.Encode | crates/mqtt/v3/src/framer.rs:36-46 | the array filled in place is the header's byte layout |
| Framer.HeaderLayout | crates/mqtt/v3/src/framer.rs:3-46 | each field of the layout: magic, version, the format's number, QoS, and big-endian id, index and count |
| Framer.HeaderRoundTrip | crates/mqtt/v3/src/framer.rs:36-68 | decoding a frame recovers its header and chunk, whatever the chunk |
| Framer.DecodeInverse | crates/mqtt/v3/src/framer.rs:49-67 | bytes decode to a header exactly when they start with its encoding |
| Framer.ChunksCover | crates/mqtt/v3/src/framer.rs:87-99 | the announced count is the number of chunks, all but the last are full and they concatenate to the payload |
| Framer.FramesSucceed | crates/mqtt/v3/src/framer.rs:72-93 | splitting succeeds exactly when there is room and the count fits its field, with max(1, ceil(len / room)) frames |
| Framer.FramesExact | crates/mqtt/v3/src/framer.rs:72-114 | frames are within the length limit, numbered consecutively with their common count, and reassemble |
| Reassembly.ReassembleExact | crates/mqtt/v3/src/framer.rs:1-16 | from any mix of genuine frames a stream rebuilds exactly when each of its frames was queued and arrived, and to its own payload |
| Reassembly.NothingIsForged | crates/mqtt/v3/src/publisher.rs:98-110 | over any run, with reordering, repetition and loss, an id rebuilds nothing or the payload published under it |
| Reassembly.SuccessfulPublishesArrive | crates/mqtt/v3/src/publisher.rs:98-110 | if all that was queued arrives, exactly the successful publishes rebuild and streams cut short are recognised |
| Reassembly.CompleteIffPublished | crates/mqtt/v3/src/publisher.rs:106-110 | a publish reports success exactly when its stream is complete in the queue |
| Reassembly.RunsKeepStreams | crates/mqtt/v3/src/publisher.rs:98-109 | over any run the frames in the queue history are the streams one after the other, ids strictly increasing |
| Reassembly.IdsCountPublishes | crates/mqtt/v3/src/publisher.rs:98 | over any run the stream ids count the framed publishes that were started, from one on |
| Backoff.CreateValid | crates/mqtt/v3/src/backoff.rs:26-52 | any factor, maximum and fraction, also not finite, are repaired to a well-formed schedule and valid ones kept |
| Backoff.NextDelayBounds | crates/mqtt/v3/src/backoff.rs:60-70 | a delay lies in the jitter band around the base, applied after the cap, and the schedule stays well-formed |
| Backoff.DelayFollowsDraw | crates/mqtt/v3/src/backoff.rs:65-70 | with jitter a larger draw means a longer delay, from one end of the band to the other, and midpoints of draws give midpoints of delays |
| Backoff.EveryDelayHasItsDraw | crates/mqtt/v3/src/backoff.rs:65-70 | every delay of the band comes from exactly one draw; without jitter the delay is the base |
| Backoff.IteratedCap | crates/mqtt/v3/src/backoff.rs:60-64 | capping at every step equals capping the closed form |
| Backoff.AfterAnyCalls | crates/mqtt/v3/src/backoff.rs:54-70 | after any mix of calls the base is min(initial * factor^k, max) for the k draws since the last reset |
| Backoff.DefaultBase | crates/mqtt/v3/src/backoff.rs:88-93 | with the defaults the cap is reached after exactly six attempts |
| Backoff.XorShiftInvertible | crates/mqtt/v3/src/backoff.rs:77-82 | the generator step is a permutation of 64-bit states that fixes zero |
| Backoff.GeneratorNeverDegenerates | crates/mqtt/v3/src/backoff.rs:77-103 | a non-zero seed never reaches zero and different seeds never meet |
| Backoff.UnitIsQuotient | crates/mqtt/v3/src/backoff.rs:83-84 | the draw is the scrambled word without its lowest eleven bits, divided by 2^53 |
| Backoff.GeneratorExamples | crates/mqtt/v3/src/backoff.rs:77-103 | the next states and draws of two seeds, one of them the seed that replaces zero |
| Backoff.Timer.NextDelay | crates/mqtt/v3/src/backoff.rs:60-70 | the method returns the delay of the step function for the generator's next draw, in [0, 1), and draws only with jitter |
| Env.ExpandString | src/config/env.rs:45-77 | the scanning loop computes the expansion, with rest always the input from offset on |
| Env.ExpandIsMeaning | src/config/env.rs:1-7 | every string splits into plain bytes, escapes and references, and its expansion is their meaning: values verbatim and never rescanned, the first bad reference reported |
| Env.ScanIsMeaning | src/config/env.rs:52-76 | the same from any offset, for any token sequence a reader would accept |
| Env.ErrorsPointAtReferences | src/config/env.rs:59-65 | a malformed offset is that of an invalid reference in the input; an unset name is mentioned there and missing from the lookup |
| Env.NameCharacters | src/config/env.rs:60-66 | names consist of letters, digits and underscores |
| Env.ExpandQuote | src/config/env.rs:55-58 | a string with each reference opener escaped expands to itself, for every string and lookup |
| Env.CompositionLaw | src/config/env.rs:49-76 | expansion is compositional, offsets shifted, after exactly those texts that do not end in a dollar |
| ConfigTree.ExpandTreeExact | src/config/env.rs:19-43 | walking a tree expands its strings in order up to the first failure and keeps keys, order and other values |
| ConfigTree.ExpandLeavesExact | src/config/env.rs:25-40 | strings before the first failing one are replaced, that one and later ones left alone, its error reported |
| ConfigTree.Document.ExpandInPlace | src/config/env.rs:20-43 | the document is rewritten where it stands, also in part when it fails |
| Procfs.UnescapeMountField | src/core/collectors/procfs.rs:130-154 | the indexed scan stays in bounds and computes the decoding |
| Procfs.EscapeRoundTrip | src/core/collectors/procfs.rs:128-154 | decoding undoes the kernel's escaping of any set of bytes with the backslash in it, for every byte string |
| Procfs.DecodeExact | src/core/collectors/procfs.rs:137-152 | text without an escape is copied whatever backslashes it holds; the first escape gives the byte its digits write and the rest follows in the same way |
| Mounts.UnescapedIsText | src/core/collectors/procfs.rs:153 | a field of valid text is unescaped to valid text: the decoded bytes if they are valid, their replacement otherwise |
| Procfs.FieldsExact | src/core/collectors/procfs.rs:122-126 | blanks before a field do not matter and a field ends at the next blank or with the line |
| Procfs.EscapeFitsByte | src/core/collectors/procfs.rs:144-146 | an escape decodes to the number it writes exactly when its first digit is at most three |
| Procfs.DecodeNeverGrows | src/core/collectors/procfs.rs:137-152 | decoding never lengthens and changes a field only by shortening it |
| ProcFile.ReadToEnd | src/core/collectors/procfs.rs:55-64 | the loop, over any way the reads split, delivers the file or, at a failed read, leaves the zeros of the room it was offered; the capacity is that of the split |
| ProcFile.Buffer.ReadInto | src/core/collectors/procfs.rs:50-81 | the text and the result are the outcome of what was delivered, where a read failed and the room it was offered |
| ProcFile.OutcomeExact | src/core/collectors/procfs.rs:55-80 | the old contents stay a prefix and the buffer valid text; success exactly when no read fails and the file by itself is valid UTF-8; an I/O error exactly when one fails and the delivered part is valid, and then zeros are left behind it |
| Utf8.ValidIsCharacters | src/core/collectors/procfs.rs:65-80 | the text test accepts exactly the sequences of characters as section 3 of RFC 3629 defines them |
| ProcFile.SplitShowsExactly | src/core/collectors/procfs.rs:55-67 | the split of the reads and the room in the buffer never show exactly when no read fails or the delivered bytes are not valid text |
| ProcFile.SplitAloneShows | src/core/collectors/procfs.rs:55-62 | for one capacity and an allocator that doubles, two splits of the same delivery can leave different buffers exactly when the smallest doubled capacity that holds it has fewer than CHUNK - 1 bytes to spare, the exactly filled first chunk aside |
| ProcFile.HalvesLeaveMoreZeros | src/core/collectors/procfs.rs:57-60 | the same hundred bytes delivered at once and in halves before a failure leave different buffers |
| ProcFile.NoReallocation | src/core/collectors/procfs.rs:45-49 | with a chunk to spare the buffer is never reallocated and the room left does not depend on the split |
| ProcFile.ReuseKeepsCapacity | src/core/collectors/procfs.rs:45-49 | a file no longer than one read before is read into the reused buffer without reallocation, however both reads split |
| ProcFile.Buffer.Read | src/core/collectors/procfs.rs:36-41 | a reused buffer holds the file and nothing of the previous read, or is empty if the path cannot be opened, and keeps a capacity that was large enough |
| Mounts.ParseMounts | src/core/collectors/filesys.rs:95-129 | the loop with map and order list computes the last entry of each mount point |
| Mounts.LastWinsExact | src/core/collectors/filesys.rs:92-94 | distinct mount points, none lost, in order of first appearance, each with its last entry |
| Mounts.WhatIsKept | src/core/collectors/filesys.rs:104-109 | which entries of the table are measured: a device file, no skipped type, nothing that begins with fuse |
| Mounts.FieldsOfLine | src/core/collectors/filesys.rs:99-103 | the parser finds the fields the kernel wrote exactly when none is empty or contains a carriage return or form feed |
| Mounts.ReturnBreaksTheLine | src/core/collectors/filesys.rs:99-103 | an example of a path with a carriage return that is not found |
| Mounts.TableRoundTrip | src/core/collectors/filesys.rs:95-129 | parsing a table the kernel wrote, each field with its own set of escapes, gives its measured entries, last wins, whatever spaces, newlines or look-alike escapes the paths hold and whatever returns the options hold |
| Filesystem.FilesystemCollector.UsageOf | src/core/collectors/filesys.rs:190-209 | one turn changes handles and outstanding calls as the step function says |
| Filesystem.FilesystemCollector.Collect | src/core/collectors/filesys.rs:212-237 | the loop over the mounts refines the fold of the turns and reports exactly the mounts that answered |
| Filesystem.CollectExact | src/core/collectors/filesys.rs:190-237 | a collect reports, in order, exactly the mounts whose new call answers in time or whose stuck call has returned by their turn, and afterwards exactly the others are stuck; in terms of the state at its start |
| Filesystem.ReportedExactly | src/core/collectors/filesys.rs:215-237 | an entry is reported exactly if its mount is answered for with that result |
| Filesystem.TurnKeepsTracked | src/core/collectors/filesys.rs:190-209 | every outstanding call keeps its handle, and no mount has two even while a new call is awaited |
| Filesystem.UncancelledHistory | src/core/collectors/filesys.rs:3-7 | over any sequence of collects that run to their end no mount ever has two outstanding calls, neither between them nor at any await point of a next one |
| Filesystem.HistoryKeepsTracked | src/core/scheduler.rs:173-174 | the same over any history in which no collect is dropped, and none can be dropped where the deadline cannot pass |
| Filesystem.DropForgetsCall | src/core/collectors/filesys.rs:199-201 | whenever a collect is dropped while it waits for a call, the next collect can start a second one for that mount |
| Filesystem.WaitsOncePerFreshMount | src/core/collectors/filesys.rs:199-207 | a collect waits at most the longest single wait times the mounts not stuck at its start |
| Filesystem.CancellationExact | src/core/scheduler.rs:173-174 | the timeout can interrupt a collect exactly when the mounts not stuck, at the longest wait each, exceed it |
| Filesystem.SecondCall | src/core/collectors/filesys.rs:200-201 | wherever the deadline can pass there is such a drop and the second call that follows |

## Left out

- rumqttc, tokio, serde, the compressors and the TOML parser: they appear as a bounded queue with arbitrary pops, a versioned cell, arbitrary ticks, an arbitrary encoded payload and a value tree.
- TLS, credentials, logging text, signal installation and host name: input and output only.
- The other collectors: each is settled by reading one branch of its parser. `statvfs` itself is an arbitrary result.
- Configuration defaults and range checks: used as preconditions where a bound needs them.
- Dropping the transport without shutting it down: main never does it.
- `skipped` is an unbounded number instead of 64 bits, and the debug totals of a cycle's bytes are not kept.
- Rounding of durations and doubles: delays and draws are real numbers. The draw itself is the leading 53 bits of the scrambled state.
- Guarantees.CycleCanOverflow: the witness holds several reconnect delays inside one cycle and lets failed polls leave the queue alone; the model has no clock that would end a collect after 10 s meanwhile, and a client library that takes waiting requests over when a poll fails rules the witness out.
- Filesystem.CancellationExact: time passes only while the collector waits; whatever the runtime adds is part of the longest single wait.
- The allocator: a function that answers a request for room with at least that much.
- Procfs.UnescapeMountField: the replacement of invalid UTF-8 is an argument that leaves valid text alone.
- ConfigTree.Document.ExpandInPlace: the tree is a value that the document's field is reassigned to, so sharing of subtrees, which its owner cannot have, does not arise.
- Reassembly.NothingIsForged: stated for fewer than 2^64 - 2 actions, after which stream ids repeat.
