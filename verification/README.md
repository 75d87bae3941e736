# Verified core of Redis persistence, blocking, access control and bit operations

A Dafny model of the algorithms at the core of the Redis 7.2.4 server sources, with proofs that hold
for all inputs, all runs or all reachable states. `dafny verify dfyconfig.toml` checks everything.

| files | what they model |
|---|---|
| `AofRewrite`, `AofGaps`, `AofRewriteLimits`, `AofNames`, `AofServer`, `Decimal` | the multi-part append-only file: manifest, background rewrite, history deletion, torn and cut-off writes, crashes and restarts |
| `AofCodec`, `AofLoad`, `AofSelect`, `AofFlush` | the command log: printing, loading cut-off logs, SELECT, flushing under write faults |
| `Blocked`, `BlockedRuns`, `BlockedServing`, `BlockedOutcome`, `BlockedServer` | clients blocked on keys: the two-sided index, signals, serving ready keys |
| `AclRules`, `AclRuns`, `AclMeaning`, `AclRuleString`, `SplitArgs`, `SdsRepr`, `AclSelector` | ACL command rules: bitmap, first arguments and the compacted rule string; splitting and quoting words |
| `Bitmap`, `Popcount`, `BitCount`, `BitSearch`, `BitPos`, `Bitfield`, `BitfieldOps`, `BitOp` | BITCOUNT, BITPOS, BITFIELD and BITOP against bit-by-bit definitions |
| `Crc64`, `CrcPoly`, `CrcJones` | slice-by-8 CRC-64 against the bit-by-bit register, and that against division of polynomials |
| `Bio`, `BioSleep` | background job queues under every interleaving, and who is woken |
| `ConfigParse`, `ConfigRewrite`, `ConfigFile`, `ConfigSettled`, `ConfigAgain` | CONFIG REWRITE from the old file to the new one, and again |
| `Adlist`, `AdlistPass` | the doubly linked list as a heap structure, its iterator, and the pass over waiting clients on it |
| `Collections` | what several of them share |

Code that changes state in place is modelled by classes, arrays and loops. Each such method is proved
against a function on values, and the theorems are about those functions. The machines of `AofRewrite`,
`Bio` and `BioSleep` have one step per disk operation and per critical section, so that a crash or another thread
may come between any two. Commands are arbitrary functions on an arbitrary dataset type; the results of
system calls, the dataset lookups and the outcome of re-run commands are inputs that take every value.

## Where the code departs from what one would expect

Each of these is kept as the code has it, stated as an if-and-only-if beside the theorem it limits, and
shown at one input.

- A signed BITFIELD SET under SAT of a value so far below the field that its distance to the maximum
  exceeds 64 bits stores the maximum (`SetSignedDecides`, `MisjudgedExample`).
- A log cut inside a command while a transaction is open is truncated inside the transaction. What is
  appended afterwards runs only if it brings an EXEC, and then the half transaction runs with it
  (`Reload`, `WrittenAfterOpenCut`, `CutTransactionExample`).
- A new INCR file is opened without append mode, so after a short write that is truncated away the next
  write leaves a gap of zeros, and the file cannot be loaded until a rewrite has replaced it (`CrashSafe`,
  `GapLeft`, `RewriteHeals`, `GapRun`; on bytes `Flush`, `LeaveGap`, `GapExample`).
- A rewrite goes on when its forced flush did not write the whole buffer, and what is left is then
  recovered twice (`LeftoverAppliedTwice`, `LeftoverExample`), or not at all if a command was torn
  (`TornAtTheSwitch`).
- A rewrite made while the append-only file is switched off makes every INCR history, and loading
  then restarts their numbering (`ClosedRewrite`, `ClosedExample`).
- A first-argument ACL rule with a blank or a quote does not survive the rule string (`LogStringSplits`,
  `ArgumentsThatDoNotSplitBack`).
- Unloading a module while a user has a rule naming one of its commands fails an assertion
  (`ReplayOnTable`, `UnloadRefuses`).
- BITCOUNT with two negative bounds in the wrong order counts nothing, even where clamping both would
  select the first unit (`ReversedBounds`, `ReversedExample`).
- CONFIG REWRITE adds an empty line to a file that does not end with one (`RewrittenAgain`,
  `OneLineExample`). With the same calls again it gives another file where, for some
  option, an unforced call that wrote nothing came before a forced one (`RewriteAgain`, `UnforcedThenForced`).
- A second thread draining a worker could take the worker's signal (`NeverMissed`, `TwoDrainersStick`); only
  the main thread drains.

## Model

| member | source | states |
|---|---|---|
| `AofRewrite.CrashSafe` | redis-7.2.4/src/aof.c:2425-2742 | After every run of disk steps, with failures, writes torn inside a command, short writes cut off again, and any number of crashes and restarts between any two steps: each file the on-disk manifest names as BASE or INCR exists; replaying BASE then the INCRs in order gives the dataset of exactly the commands wholly written if and only if none of those files has a gap of zeros, and nothing is recovered otherwise; an idle server holds that dataset plus its buffer |
| `AofGaps.AlwaysRecovers` | redis-7.2.4/src/aof.c:2425-2742 | After every such run in which no write is cut off again, the dataset of the commands wholly written is recovered |
| `AofGaps.GapLeft` | redis-7.2.4/src/aof.c:1174-1187 | A write cut off again and then another write leave a gap, after which nothing is recovered, if and only if a live file already had one or the descriptor is not in append mode or stood past the end before |
| `AofGaps.BaseReplacesGaps` | redis-7.2.4/src/aof.c:2660-2691 | Once a rewrite has adopted its BASE, recovery is right if and only if the INCR opened at its fork has no gap; what earlier files have does not matter |
| `AofGaps.RewriteHeals` | redis-7.2.4/src/aof.c:2582-2742 | Whatever gaps a run has left, a rewrite begun and finished without a further cut-off write brings recovery back |
| `AofGaps.GapRun` | redis-7.2.4/src/aof.c:809 | A fresh server switches to a new INCR, has one write cut off and repeated in full, runs on, and cannot be recovered |
| `AofRewrite.DeletionSafe` | redis-7.2.4/src/aof.c:668-692 | In every reachable state, the history file about to be unlinked is live neither in the manifest on disk nor in the one in memory |
| `AofRewrite.StepKeeps` | redis-7.2.4/src/aof.c:790-853 | Every step of every operation keeps the disk invariant: one BASE, strictly rising INCRs, strictly older history, counters that name the newest files, and files that replay, gaps aside, to the flushed dataset |
| `AofRewrite.TearKeeps` | redis-7.2.4/src/aof.c:1064-1232 | A write that ends inside a command leaves what is replayed as it was: the loader cuts such a tail off, and it can only be in the last file |
| `AofRewrite.RestartKeeps` | redis-7.2.4/src/aof.c:1649-1772 | A restart loads what recovery promised, whether or not the last file ends inside a command |
| `AofRewrite.HistoryNotLive` | redis-7.2.4/src/aof.c:492-522 | No history file is a live one, whatever sequence of renames, failures and restarts led there |
| `AofRewrite.PersistBaseKeeps` | redis-7.2.4/src/aof.c:2660-2691 | Adopting the new manifest after a rewrite keeps what is replayed: the snapshot followed by the INCR opened at the fork is the flushed dataset |
| `AofRewrite.PersistIncrKeeps` | redis-7.2.4/src/aof.c:817-846 | Switching to a new, empty INCR changes nothing that recovery sees, whether or not the fork succeeds |
| `AofRewrite.UnlinkBaseKeeps` | redis-7.2.4/src/aof.c:2664-2676 | When persisting the manifest fails, removing the new BASE leaves every file of the old manifest in place |
| `AofRewrite.ReopenAgain` | redis-7.2.4/src/aof.c:713-768 | A restarted server appends to the last INCR of the loaded manifest, or to a new one, and recovery is unchanged |
| `AofRewriteLimits.ClosedRewrite` | redis-7.2.4/src/aof.c:498-522 | A rewrite made with the file switched off turns every INCR into history, and a start with that history not yet deleted appends to INCR number 1: recovery is then right if and only if the old file of that name has no gap and replaying it changes nothing, and once the history is deleted nothing is recovered at all |
| `AofRewriteLimits.LeftoverAppliedTwice` | redis-7.2.4/src/aof.c:2437-2463 | Through the steps of a rewrite that starts with a buffer not written out: recovery afterwards has those commands applied twice, so it is right if and only if applying them again changes nothing |
| `AofRewriteLimits.TornAtTheSwitch` | redis-7.2.4/src/aof.c:790-853 | If the flush before the switch ended inside a command, the switch alone makes recovery fail |
| `AofRewriteLimits.LeftoverExample` | redis-7.2.4/src/aof.c:2437-2463 | A counter holding one is recovered as two |
| `AofRewriteLimits.ClosedExample` | redis-7.2.4/src/aof.c:498-522 | A counter holding one, restarted as one, is recovered as two from then on |
| `AofNames.TextInjective` | redis-7.2.4/src/aof.c:427-464 | Two manifest entries never share a file name: the printed names are injective |
| `AofNames.FirstNames` | redis-7.2.4/src/aof.c:427-464 | The names of the first BASE, in either format, and of the first INCR |
| `AofServer.AofManifest.NewBaseName` | redis-7.2.4/src/aof.c:427-446 | The previous BASE becomes the head of the history and the new one has the number after the last one given out |
| `AofServer.AofManifest.MarkRewrittenIncr` | redis-7.2.4/src/aof.c:492-522 | The walk from the tail moves all INCRs, or all but the last, to the history: the in-place list surgery is the manifest transition the crash proof uses |
| `AofServer.AofManifest.Dup` | redis-7.2.4/src/aof.c:391-408 | The copy is an independent manifest with the same value |
| `AofServer.Server.Flush` | redis-7.2.4/src/aof.c:1064-1232 | A flush that writes whole commands, tears one or is cut off again is that step of the machine |
| `AofServer.Server.OpenNewIncrForAppend` | redis-7.2.4/src/aof.c:790-853 | Switches file, manifest and descriptor, or none of them |
| `AofServer.Server.RewriteInBackground` | redis-7.2.4/src/aof.c:2425-2493 | For every outcome of the forced flush, whole, torn or cut off again, the effect is the specified switch and fork, and if the whole buffer was written it is a run of machine steps, so the crash theorem covers every intermediate state; it refuses while a child exists |
| `AofServer.Server.RewriteDone` | redis-7.2.4/src/aof.c:2582-2742 | For every combination of child exit, rename and persist results the handler is a run of machine steps |
| `AofServer.FailureMeans` | redis-7.2.4/src/aof.c:2582-2742 | A rewrite that fails, at whatever step, leaves both manifests, the descriptor, the buffer and the dataset as they were, and no file of its own |
| `AofServer.Server.DelHistoryFiles` | redis-7.2.4/src/aof.c:668-692 | The loop removes exactly the history files and then persists the manifest |
| `AofServer.DeletedMeans` | redis-7.2.4/src/aof.c:668-692 | A file is there afterwards exactly if it was there before and is not in the history; BASE and INCRs stay, and the history is empty in memory and, if persisting succeeds, on disk |
| `AofCodec.Cat` | redis-7.2.4/src/aof.c:1268-1291 | The printer appends one well-formed command, whatever bytes the arguments hold |
| `AofCodec.ReadWhole` | redis-7.2.4/src/aof.c:1485-1535 | Every printed command is read back exactly, and reading stops at its last byte |
| `AofCodec.ReadCut` | redis-7.2.4/src/aof.c:1485-1535 | Every proper prefix of a printed command is a short read, never a format error and never another command |
| `AofCodec.NegativeRefused` | redis-7.2.4/src/aof.c:1493-1526 | A negative argument length and an argument count that is not positive are refused, for every number of up to twenty digits |
| `Decimal.SignedRead` | redis-7.2.4/src/aof.c:1495-1517 | A printed number is read back with its sign, after blanks too, up to whatever follows its digits |
| `AofCodec.LoadPrefix` | redis-7.2.4/src/aof.c:1469-1587 | Loading any byte prefix of a log is executing exactly the commands wholly inside it, from any client state and offset |
| `AofLoad.LoadsPrefix` | redis-7.2.4/src/aof.c:1469-1646 | The outcome for any prefix: fine, truncated or refused, according to the cut, the open transaction and the configuration |
| `AofLoad.AnyPrefix` | redis-7.2.4/src/aof.c:1594-1630 | Any log cut at any byte runs exactly the commands that take effect among those wholly inside. If truncating is not allowed, the load fails if the cut is inside a command or a transaction is left open, and succeeds otherwise; if it is allowed, it never fails, and a cut inside a command is truncated to the end of the last whole one |
| `AofLoad.AnnotationSkipped` | redis-7.2.4/src/aof.c:1485-1494 | An annotation line between any two commands changes neither what runs nor whether the load is fine |
| `AofLoad.PlainLog` | redis-7.2.4/src/aof.c:1594-1625 | Without transactions a log cut at any byte executes the whole commands and is truncated at the end of the last one |
| `AofLoad.PlainRoundTrip` | redis-7.2.4/src/aof.c:1469-1587 | Loading the concatenated encodings executes exactly the written commands, in order |
| `AofLoad.OpenTransaction` | redis-7.2.4/src/aof.c:1578-1587 | A log that ends at a command boundary inside a transaction is truncated to before its last MULTI and none of its commands has run |
| `AofLoad.Reload` | redis-7.2.4/src/aof.c:1601-1625 | A log cut inside a command and truncated loads the same commands again, and loads without complaint if and only if no transaction was open at the cut |
| `AofLoad.WrittenAfterOpenCut` | redis-7.2.4/src/aof.c:1548-1587 | What is appended after such a cut is read into the open transaction. Without an EXEC nothing of it runs and the log is cut before its last MULTI; with one, the first EXEC runs the half transaction and everything queued since, and loading goes on from there |
| `AofLoad.HalfTransactionRuns` | redis-7.2.4/src/aof.c:1548-1567 | If only plain commands follow that EXEC, the load reports no problem although half a transaction has run |
| `AofLoad.CutTransactionExample` | redis-7.2.4/src/aof.c:1601-1625 | MULTI, SET a, SET b cut inside the last command: truncated after SET a, not content when loaded again, and SET a runs once a later transaction has been appended |
| `AofLoad.Fgets` | redis-7.2.4/src/aof.c:1485-1491 | The line read is the text up to and including the first newline, at most the buffer size |
| `AofLoad.ReadArguments` | redis-7.2.4/src/aof.c:1506-1535 | The argument loop reads what the recursive reader reads, or fails as it does; lengths are read with blanks and signs as strtol does |
| `AofLoad.LoadSingle` | redis-7.2.4/src/aof.c:1469-1646 | The command loop with its offsets is the specified loader, for every file, command table and truncation setting |
| `AofSelect.LogReplays` | redis-7.2.4/src/aof.c:1320-1359 | Replaying the fed log executes each command in the database it was fed with, from any client whose database the feeder remembers or has forgotten |
| `AofSelect.SelfContained` | redis-7.2.4/src/aof.c:1336-1343 | A file started with the selected database forgotten needs nothing from earlier files: each command fed with a database runs in that database, whatever the loader had selected |
| `AofSelect.LogPrefixReplays` | redis-7.2.4/src/aof.c:1320-1359 | Any first part of the log executes a first part of the commands fed, each in its own database |
| `AofFlush.Rotate` | redis-7.2.4/src/aof.c:2437-2444 | The rewrite forgets the database, flushes and opens the new file; the new file logs exactly what is fed from then on if and only if the flush wrote the whole buffer |
| `AofSelect.Feed` | redis-7.2.4/src/aof.c:1320-1359 | The appended text is the encoding of SELECT where the database changes, then the command; the remembered database is the one selected |
| `AofSelect.SelectText` | redis-7.2.4/src/aof.c:1336-1343 | The hand-printed SELECT is the encoding of the two-argument command |
| `AofFlush.Log.Propagate` | redis-7.2.4/src/aof.c:1320-1359 | The bytes fed are the log of what was propagated, and file plus buffer stay the whole stream |
| `AofFlush.Log.AofWrite` | redis-7.2.4/src/aof.c:1026-1043 | Under any schedule of short writes, interruptions and errors the file grows by the prefix of the buffer the schedule accepts, and that length is returned |
| `AofFlush.Log.Flush` | redis-7.2.4/src/aof.c:1064-1232 | Unless the server exits, file followed by buffer is the byte stream fed and the recorded size is the file length, if and only if the write began at the end of the file or left nothing; with an append-mode descriptor that is always. Otherwise the log has a gap of exactly the earlier truncated bytes |
| `AofFlush.FlushedLogLoads` | redis-7.2.4/src/aof.c:1064-1232 | A file whose buffer has been flushed loads as what was fed, each command in its own database |
| `AofFlush.WrittenPrefixLoads` | redis-7.2.4/src/aof.c:1469-1646 | Stopped at any byte, the file loads: a first part of the commands fed runs, each in its own database, and the file is cut after the last whole command |
| `AofFlush.LeaveGap` | redis-7.2.4/src/aof.c:809 | Without append mode, a short write of k bytes that is cut off again makes the next write leave k zeros, for every log and k; if the file held whole commands, loading it then fails, whatever the command table and the truncation setting |
| `AofFlush.GapExample` | redis-7.2.4/src/aof.c:809 | One byte written and cut off puts a zero in front of a new log, which then cannot be loaded |
| `AofFlush.GapRefused` | redis-7.2.4/src/aof.c:1485-1494 | Whole commands followed by zeros and anything else: the load fails after running those commands |
| `AofLoad.OtherRefused` | redis-7.2.4/src/aof.c:1485-1494 | The same for anything after whole commands that begins neither a command nor an annotation |
| `BlockedRuns.ReachableIsConsistent` | redis-7.2.4/src/blocked.c:88-224 | In every reachable state, with clients connecting, being freed and being served by modules, a client waits on a key exactly when it is in that key's list, once; no list is empty; the wake-on-delete count is present exactly when a waiter wants it and counts them; the totals by type are the true counts; each flagged client is queued once; the ready list and ready set agree |
| `BlockedOutcome.PassAnswers` | redis-7.2.4/src/blocked.c:558-594 | Along a whole pass each client visited ends as its own record and what its visit finds say: its command is run again exactly if it is not a module's and the object there is of the type it waits for or it wants to be woken in any case; a module's callback is called under the matching condition; all other clients are as before |
| `BlockedOutcome.VisitAnswers` | redis-7.2.4/src/blocked.c:583-590 | The same for one visit; for a client passed over the whole state is unchanged |
| `BlockedOutcome.ReleasedMeans` | redis-7.2.4/src/blocked.c:636-675 | A client whose command ran to its end waits on no key and, unless it is a module's own, is queued for reprocessing |
| `BlockedOutcome.SignalsExact` | redis-7.2.4/src/blocked.c:452-499 | After any sequence of signals a key is ready exactly if it was, or one of the signals for it was of a type somebody waits for while somebody waits on the key, for a deletion somebody who wants it |
| `BlockedOutcome.NoneForgotten` | redis-7.2.4/src/blocked.c:331-357 | Every key ready at the start or made ready while serving is served before the two lists are empty |
| `BlockedOutcome.BlockMeans` | redis-7.2.4/src/blocked.c:368-415 | The blocked client is the last to wait on each of its keys; other lists, other clients and the queues are as before |
| `BlockedOutcome.ReleaseMeans` | redis-7.2.4/src/blocked.c:512-545 | The client leaves exactly the given lists, nobody else is moved |
| `BlockedOutcome.UnblockMeans` | redis-7.2.4/src/blocked.c:184-224 | The client is blocked on nothing, is in no list, and is queued once if asked |
| `BlockedOutcome.FreedMeans` | redis-7.2.4/src/networking.c:1546-1606 | Exactly this client is gone, from the queue and from every list |
| `BlockedOutcome.DequeuedMeans` | redis-7.2.4/src/blocked.c:125-155 | The head of the queue leaves it with its flag cleared; nothing else changes |
| `BlockedRuns.StepKeeps` | redis-7.2.4/src/blocked.c:88-675 | Every operation keeps the index, counter and queue invariant |
| `BlockedRuns.NoLostWakeup` | redis-7.2.4/src/blocked.c:452-499 | Signalling a key on which a client waits, while somebody waits for the type of the object, leaves the key queued exactly once; which waiter goes with which object type is written out pair by pair |
| `BlockedRuns.SignalExact` | redis-7.2.4/src/blocked.c:435-499 | The quick returns drop a signal if and only if nobody can be waiting for it, the pairs of waiter and object type written out, and nothing but the key itself is ever queued |
| `BlockedRuns.NeverOvertaken` | redis-7.2.4/src/blocked.c:368-433 | Along every run, as long as a client keeps waiting on a key, nobody gets in front of it: whoever is ahead of it at the end was ahead at the start |
| `BlockedRuns.WakeOnDeleteIsBlocking` | redis-7.2.4/src/blocked.c:512-545 | A key is in the wake-on-delete table exactly when a waiter wants it, and then it is a blocking key |
| `BlockedRuns.CounterMeans` | redis-7.2.4/src/blocked.c:88-99 | A type counter is not zero exactly when some client is blocked on that type |
| `Blocked.UnblockKeeps` | redis-7.2.4/src/blocked.c:184-224 | Unblocking keeps the whole invariant and the client is on no list |
| `Blocked.BlockKeysKeeps` | redis-7.2.4/src/blocked.c:368-415 | Blocking on any set of keys keeps the whole invariant |
| `Blocked.ReleaseKeeps` | redis-7.2.4/src/blocked.c:419-433 | Leaving any subset of its keys keeps index and wake-on-delete counts exact |
| `Blocked.FreedKeeps` | redis-7.2.4/src/networking.c:1546-1606 | Freeing a client, blocked or queued, leaves no trace of it and keeps the whole invariant |
| `BlockedServing.ModuleFacts` | redis-7.2.4/src/blocked.c:681-697 | A module's callback that serves its client leaves every list alone, keeps the invariant, and is never called for that client again |
| `BlockedServing.VisitFacts` | redis-7.2.4/src/blocked.c:636-675 | Serving one client keeps the invariant; the client goes, stays or moves to the end of the list; and either fewer clients are blocked or no key was queued |
| `BlockedServing.WokenKeeps` | redis-7.2.4/src/blocked.c:636-675 | Leaving the signalled key first and then all keys is leaving all keys |
| `BlockedServer.BlockedServer.HandleClientsBlockedOnKey` | redis-7.2.4/src/blocked.c:558-594 | One pass visits exactly the clients waiting at entry, first in first out, once each, although serving unlinks nodes, may delete the list and may append the same client again; every visited client ends as the conditions of the source say, written out, and those released wait nowhere and are queued |
| `AdlistPass.Pass` | redis-7.2.4/src/blocked.c:568-592 | The same pass on the nodes of the list: exactly the nodes there are at the start are visited, in order, and no node that has left; those that stay keep their order and those that wait again follow in the order served |
| `BlockedServer.BlockedServer.HandleClientsBlockedOnKeys` | redis-7.2.4/src/blocked.c:315-359 | Serving ready keys, clients of modules included, terminates, serves every ready key, one whole pass each, and leaves the ready list and the ready set empty |
| `BlockedServer.BlockedServer.ReleaseBlockedEntry` | redis-7.2.4/src/blocked.c:512-545 | One client leaves one list; the list goes when empty, and the wake-on-delete count with it or at zero |
| `BlockedServer.CanRelease` | redis-7.2.4/src/blocked.c:512-545 | The assertions on the way out of a list cannot fail in a consistent state |
| `BlockedServer.BlockedServer.BlockForKeys` | redis-7.2.4/src/blocked.c:368-415 | The loop over the keys, duplicates included, is blocking on their set |
| `BlockedServer.BlockedServer.UnblockClientWaitingData` | redis-7.2.4/src/blocked.c:419-433 | The loop over the client's keys releases all of them and leaves none behind |
| `BlockedServer.BlockedServer.UnblockClient` | redis-7.2.4/src/blocked.c:184-224 | The client is unblocked, uncounted and, if asked, queued once |
| `BlockedServer.BlockedServer.SignalKeyAsReady` | redis-7.2.4/src/blocked.c:452-499 | The code with its early returns is the specified signal and keeps the invariant |
| `BlockedServer.BlockedServer.NextUnblocked` | redis-7.2.4/src/blocked.c:125-155 | Takes the head of the queue, clears its flag, and the queue still holds each flagged client once |
| `BlockedServer.BlockedServer.UnblockClientOnKey` | redis-7.2.4/src/blocked.c:636-675 | Unblocking for a key and re-running the command is the specified visit, for every way the command may end |
| `BlockedServer.BlockedServer.ModuleUnblockClientOnKey` | redis-7.2.4/src/blocked.c:681-697 | Calls the callback once and marks the client when it was served |
| `BlockedServer.BlockedServer.FreeClient` | redis-7.2.4/src/networking.c:1546-1606 | The freed client is unblocked, taken from the queue and forgotten |
| `AclRuns.ReplayIsFaithful` | redis-7.2.4/src/acl.c:733-786 | After any sequence of accepted rules, replaying the compacted log from +@all or -@all, as the reserved bit says, accepts every rule, rebuilds the same bitmap and the same first-argument sets, and leaves the log as it was |
| `AclRuns.ReplayOnTable` | redis-7.2.4/src/acl.c:647-680 | With another command table, after a module was loaded or unloaded: replaying the log is accepted if and only if every logged rule still denotes something; then the log stays as it is and the meaning is that of the log in the new table |
| `AclRuns.LoadAccepts` | redis-7.2.4/src/module.c:12186-12190 | A table with more commands and categories accepts every logged rule |
| `AclRuns.UnloadRefuses` | redis-7.2.4/src/acl.c:670-674 | Unloading the module of a command a user was given by name makes the replay fail |
| `AclRuns.StringRebuilds` | redis-7.2.4/src/acl.c:659-674 | The same for the rule string: split, read word by word and replayed, a clean log rebuilds exactly if it is valid in the table |
| `AclRuns.LastRuleDecides` | redis-7.2.4/src/acl.c:1027-1174 | After any run of rules a command is allowed exactly if the last accepted rule about it, its container or one of its categories allows it, and a first argument exactly if it was added after the last such rule |
| `AclMeaning.CategoryRule` | redis-7.2.4/src/acl.c:629-642 | A category rule is accepted exactly for a known category; then it sets the bits of each command in it with all its subcommands, and of each subcommand in it, and no others, and drops the first arguments of exactly the commands and subcommands in it |
| `AclMeaning.CategoryIdsAre` | redis-7.2.4/src/acl.c:629-642 | Those two sets of ids, from the walk over commands and, inside it, over their subcommands |
| `AclMeaning.CommandRule` | redis-7.2.4/src/acl.c:608-621 | A command rule is accepted exactly for a known command; then it sets its bit and those of its subcommands, no others, and drops its first arguments |
| `AclMeaning.PartRule` | redis-7.2.4/src/acl.c:1106-1168 | A rule with a bar is accepted for a subcommand there is, which alone it sets, or, when allowing, for a first argument of a command without subcommands, which it adds |
| `AclMeaning.LogMeans` | redis-7.2.4/src/acl.c:596-604 | The new rule is the last of the log, and of the old rules exactly those named like it or like a part of it are gone |
| `AclMeaning.ResetWords` | redis-7.2.4/src/acl.c:1027-1040 | The two words that allow everything and the two that forbid everything set all bits or none and drop all rules and first arguments |
| `AclMeaning.DescriptionRebuilds` | redis-7.2.4/src/acl.c:733-786 | The words of a description, the first one included, read on any selector, are accepted and rebuild bitmap, first arguments and log, if the rules hold no blanks and quotes |
| `AclRules.CompactionPreserves` | redis-7.2.4/src/acl.c:596-604 | Dropping the superseded rules and appending the new one has the meaning of the old log followed by the new rule |
| `AclRules.SurvivorsAgree` | redis-7.2.4/src/acl.c:550-592 | A dropped rule changes the meaning at most where the new rule overwrites it |
| `AclRules.SupersededErased` | redis-7.2.4/src/acl.c:550-592 | A rule superseded by name touches only permissions the superseding rule sets |
| `AclRuleString.RemoveRule` | redis-7.2.4/src/acl.c:550-592 | On every string the in-place byte loop removes exactly the pieces named like the new rule or a part of it, and the single spaces that separated them; it terminates |
| `AclRuleString.RemovedFromLog` | redis-7.2.4/src/acl.c:550-592 | On a string that joins rules without spaces the pieces are the rules, and the loop is the filter on the log |
| `AclRuleString.PiecesGlue` | redis-7.2.4/src/acl.c:550-592 | Every string is its pieces joined by single spaces |
| `AclRuns.LogStringSplits` | redis-7.2.4/src/acl.c:756-762 | The rule string splits back into the logged rules if and only if no rule name holds a blank that ends a word or a quote |
| `AclRuns.ArgumentsThatDoNotSplitBack` | redis-7.2.4/src/acl.c:756-762 | A first argument with a space comes back as two words, one in quotes without the quotes |
| `SplitArgs.SplitJoined` | redis-7.2.4/src/sds.c:1008-1116 | Joined words survive splitting if and only if none holds a character the splitter treats specially |
| `SdsRepr.ReprSplits` | redis-7.2.4/src/sds.c:912-936 | Every string of bytes comes back from its quoted and escaped form |
| `SdsRepr.ValueSplits` | redis-7.2.4/src/sds.c:912-936 | It does as the value after a name, too |
| `SdsRepr.CatRepr` | redis-7.2.4/src/sds.c:912-936 | The loop appends that form |
| `SdsRepr.ClosingQuote` | redis-7.2.4/src/sds.c:1049-1053 | A quoted string directly followed by anything but a blank cannot be split |
| `SdsRepr.SingleSplits` | redis-7.2.4/src/sds.c:1060-1074 | A string in single quotes comes back, unless it ends with a backslash |
| `AclRuns.UpdateCompact` | redis-7.2.4/src/acl.c:596-604 | The log never holds a rule superseded by a later one |
| `AclSelector.NumbersMakeValidTable` | redis-7.2.4/src/acl.c:1501-1526 | Numbers given out by the counter make a valid table: distinct for all commands and subcommands, and none is the reserved bit, so that bit always tells the base to replay from |
| `AclSelector.Selector.SetSelector` | redis-7.2.4/src/acl.c:1010-1180 | The specified verdict, selector and rule string for every text; a refused rule changes nothing; the string stays the joined log exactly as long as no accepted rule holds a space |
| `AclSelector.PartVerdict` | redis-7.2.4/src/acl.c:1106-1168 | Which error a rule with a bar gets: unknown command, part of a subcommand, empty part, unknown subcommand |
| `AclSelector.CommandVerdict` | redis-7.2.4/src/acl.c:1097-1105 | A rule without a bar fails only for an unknown command |
| `AclSelector.CategoryVerdict` | redis-7.2.4/src/acl.c:682-691 | A category rule fails only for an unknown category |
| `AclSelector.Selector.ChangePerm` | redis-7.2.4/src/acl.c:608-621 | Sets the bits of the command and its subcommands, no others, and forgets its first arguments |
| `AclSelector.Selector.ChangeCategory` | redis-7.2.4/src/acl.c:629-642 | The loop over all commands and, inside it, over their subcommands sets exactly the bits of the category and drops exactly the first arguments of what is in it, both written out over the table |
| `AclSelector.Selector.AddFirstArg` | redis-7.2.4/src/acl.c:918-944 | Appends the argument to its command's list unless it is there in some spelling |
| `AclSelector.Selector.UpdateRules` | redis-7.2.4/src/acl.c:596-604 | The new string for every rule text, and whether it is still the joined compacted log |
| `AclSelector.Selector.SetCategory` | redis-7.2.4/src/acl.c:682-691 | Unknown categories change nothing; known ones set their commands and are logged |
| `AclSelector.Selector.Describe` | redis-7.2.4/src/acl.c:733-786 | Gives the text if and only if the scratch selector rebuilt from the string has the same bitmap, which it has for every log set with this table that splits back; then the text, read word by word on any selector, rebuilds this one |
| `AclSelector.Selector.Recompute` | redis-7.2.4/src/acl.c:647-680 | Succeeds if and only if every word of the string is accepted in the table there is now; for a log that splits back that is when every rule still denotes something, and then string and log are unchanged and the bitmap is what they mean now |
| `AclSelector.CommandIds.GetId` | redis-7.2.4/src/acl.c:1501-1526 | Numbers are stable and distinct, names are case-insensitive, and the reserved number is skipped |
| `Popcount.RedisPopcount` | redis-7.2.4/src/bitops.c:40-92 | The number of set bits of every string at every address |
| `Popcount.SevenWords` | redis-7.2.4/src/bitops.c:52-87 | Seven words at a time give the sum of 28 bytes through one 32-bit multiplication |
| `Popcount.GatherLanes` | redis-7.2.4/src/bitops.c:80-86 | The multiplication gathers the four lane sums in the top byte, because at most 224 bits are counted |
| `Popcount.FoldValue` | redis-7.2.4/src/bitops.c:66-80 | The three folding steps leave in each byte lane the number of set bits of that byte |
| `BitCount.BitCountCommand` | redis-7.2.4/src/bitops.c:796-874 | The number of set bits the range selects, byte or bit ranges, each bit once even when both edge masks fall into one byte |
| `BitCount.ReversedBounds` | redis-7.2.4/src/bitops.c:816-832 | The reply is the number of set bits between the two clamped bounds if and only if not (both bounds are negative, in the wrong order, reach back to or beyond the start, and the first byte, or for BIT the first bit, has a set bit) |
| `BitCount.ReversedExample` | redis-7.2.4/src/bitops.c:816-820 | One byte of ones from -5 to -10 counts nothing, though both bounds clamp to that byte |
| `BitCount.CountIsCardinality` | redis-7.2.4/src/bitops.c:796-874 | The running count over a range is the size of the set of its set positions |
| `BitCount.CoversMeans` | redis-7.2.4/src/bitops.c:819-841 | Bounds in bytes select from the first bit of the first byte to the last of the last, bounds in bits from the one to the other, and negative ones count from the end |
| `BitCount.BoundMeans` | redis-7.2.4/src/bitops.c:819-841 | A bound counts from the start, a negative one from the end and not further than to the start |
| `BitSearch.RedisBitpos` | redis-7.2.4/src/bitops.c:101-186 | The first position of the bit for every string and address; without one -1 for a set bit and the length for a clear one |
| `BitSearch.FirstBitIs` | redis-7.2.4/src/bitops.c:101-186 | The reference position holds the bit and no earlier one does |
| `BitSearch.LoadBits` | redis-7.2.4/src/bitops.c:151-159 | A word loaded byte by byte has the bits of its bytes in order |
| `BitSearch.MovingBit` | redis-7.2.4/src/bitops.c:168-180 | Masking with the moving bit reads the bits of the word from the most significant on |
| `BitPos.BitPosCommand` | redis-7.2.4/src/bitops.c:877-1003 | For any start, end and unit: the least selected position holding the bit; -1 if there is none or the range is empty; the position after the string only for a clear bit, no end given and a non-empty range |
| `BitPos.SelectsMeans` | redis-7.2.4/src/bitops.c:905-956 | A range in bytes selects whole bytes, one in bits its bits, and one without an end goes on to the end |
| `BitPos.BitPosOfKey` | redis-7.2.4/src/bitops.c:895-903 | A missing key reads as clear bits without end |
| `BitPos.SearchRange` | redis-7.2.4/src/bitops.c:958-1002 | Masked first byte, whole bytes and masked last byte with their early exits find the first hit of the range |
| `Bitfield.SetUnsigned` | redis-7.2.4/src/bitops.c:209-222 | Writes the low bits of the value into the field and changes no bit outside it |
| `Bitfield.GetUnsigned` | redis-7.2.4/src/bitops.c:229-241 | Reads the number its bits spell |
| `Bitfield.GetSigned` | redis-7.2.4/src/bitops.c:243-263 | Reads the two's complement number its bits spell, for widths 1 to 64 |
| `Bitfield.HoldsField` | redis-7.2.4/src/bitops.c:209-241 | A field written with a value reads as its residue modulo the width |
| `Bitfield.WrappedUnique` | redis-7.2.4/src/bitops.c:288-378 | The wrapped value fits, is congruent, and is the only such value |
| `BitfieldOps.UnsignedDecides` | redis-7.2.4/src/bitops.c:288-323 | Overflow is reported exactly when the result does not fit, with the wrapped value or the violated bound |
| `BitfieldOps.SignedDecides` | redis-7.2.4/src/bitops.c:325-378 | The same for INCRBY on signed fields of every width, although the differences compared may wrap |
| `BitfieldOps.SetSignedDecides` | redis-7.2.4/src/bitops.c:325-378 | The same for SET if and only if the policy is not SAT or the distance from the value to the maximum fits 64 bits |
| `BitfieldOps.MisjudgedExample` | redis-7.2.4/src/bitops.c:333 | An i8 field told to hold the smallest 64-bit integer under SAT gets 127 instead of -128 |
| `BitfieldOps.CheckOpDecides` | redis-7.2.4/src/bitops.c:1150-1203 | SET and INCRBY decide as promised exactly outside the misjudged family |
| `BitfieldOps.SatIsNearest` | redis-7.2.4/src/bitops.c:288-378 | Under SAT the promised outcome is nearer to the mathematical result than any other number of the field, signed or unsigned |
| `BitfieldOps.WrapIsCongruent` | redis-7.2.4/src/bitops.c:288-378 | Under WRAP it is the only number of the field congruent to the result |
| `BitfieldOps.InFieldIsStored` | redis-7.2.4/src/bitops.c:288-378 | A result of the field is the outcome whatever the policy, and only FAIL gives none |
| `BitfieldOps.DoneMeans` | redis-7.2.4/src/bitops.c:1136-1216 | What a finished operation means for the field: INCRBY in range adds and replies the sum, SET in range stores and replies the old value, FAIL outside the range leaves the string alone and replies nothing |
| `BitfieldOps.Execute` | redis-7.2.4/src/bitops.c:1136-1216 | Stores the promised outcome, replies the old or the new value or nothing, and touches no other bit; FAIL writes nothing |
| `BitfieldOps.ReadsBack` | redis-7.2.4/src/bitops.c:1136-1216 | A value in range reads back as written, signed or unsigned |
| `BitfieldOps.Get` | redis-7.2.4/src/bitops.c:1218-1250 | Reading through the nine-byte copy is reading the zero-extended string at any offset |
| `BitOp.BitOpCommand` | redis-7.2.4/src/bitops.c:643-771 | The result has the longest source's length and each byte is the operator folded over the zero-extended sources, missing keys included |
| `BitOp.ResultBit` | redis-7.2.4/src/bitops.c:746-770 | A bit of the result is set exactly if it is set in all sources, in some, in an odd number of them, or not in the first |
| `BitOp.LongestSource` | redis-7.2.4/src/bitops.c:643-669 | The length is that of the longest source |
| `BitOp.FastPath` | redis-7.2.4/src/bitops.c:683-743 | The four-words-at-a-time loop computes the naive bytes and hands over at the first one it left |
| `BitOp.SlowByte` | redis-7.2.4/src/bitops.c:746-770 | The byte loop with its early exits computes the full fold |
| `BitOp.Absorbed` | redis-7.2.4/src/bitops.c:750-768 | Once a fold reaches a value nothing changes, the remaining sources do not matter |
| `Crc64.SpeedLittle` | redis-7.2.4/src/crcspeed.c:112-144 | With initialised tables, slice-by-8 is the bit-by-bit checksum for every register, string and alignment |
| `Crc64.SpeedBig` | redis-7.2.4/src/crcspeed.c:183-213 | Byte-reversed tables and big-endian loads give the same value |
| `Crc64.LittleInit` | redis-7.2.4/src/crcspeed.c:33-50 | Entry k,n of the table is the register after k more zero bytes |
| `Crc64.BigInit` | redis-7.2.4/src/crcspeed.c:87-95 | The big-endian table is the byte-reversed little-endian one |
| `Crc64.Bitwise` | redis-7.2.4/src/crc64.c:88-111 | The nested bit and byte loops compute the register definition of the checksum, one bit at a time |
| `Crc64.CrcReflect` | redis-7.2.4/src/crc64.c:69-78 | The reflection loop mirrors the bits |
| `Crc64.CrcConcat` | redis-7.2.4/src/crc64.c:121-123 | The checksum of a concatenation is the checksum of the second part started from the first |
| `Crc64.CrcReflects` | redis-7.2.4/src/crc64.c:88-111 | Mirroring the register turns the bit-by-bit algorithm into the byte-wise one |
| `Crc64.StepsXor` | redis-7.2.4/src/crcspeed.c:117-141 | Register steps are linear over exclusive or, for any number of steps |
| `Crc64.SliceEight` | redis-7.2.4/src/crcspeed.c:123-135 | Sixty-four steps are the exclusive or of eight table entries |
| `Crc64.BigEight` | redis-7.2.4/src/crcspeed.c:193-205 | The same in the byte-reversed world |
| `Crc64.Rev8Facts` | redis-7.2.4/src/crcspeed.c:71-83 | Byte reversal undoes itself and exchanges the two shift directions |
| `Crc64.Crc64Native` | redis-7.2.4/src/crc64.c:116-123 | Initialisation followed by the checksum, on either byte order, is the bit-by-bit definition |
| `CrcJones.RegisterIsRemainder` | redis-7.2.4/src/crc64.c:88-111 | For every start register and string, the register is the remainder of the register and the bits of the string, as a polynomial over GF(2), divided by the Jones polynomial, and the only polynomial of degree below 64 that is |
| `CrcJones.PolyIsJones` | redis-7.2.4/src/crc64.c:33 | The constant holds the exponents of the Jones polynomial below 64 |
| `CrcJones.CheckValue` | redis-7.2.4/src/crc64.c:135-138 | The checksum of the nine digits is the value the source gives for it |
| `CrcPoly.OneRemainder` | redis-7.2.4/src/crc64.c:88-111 | Polynomials of lower degree than the divisor that are remainders of one dividend are equal |
| `CrcPoly.AfterDivides` | redis-7.2.4/src/crc64.c:94-104 | A shift register of any width, over any type with those operations, divides |
| `Bio.ReachableIsSound` | redis-7.2.4/src/bio.c:152-300 | Under every interleaving a counter nobody is updating is the number of queued or running jobs of its type, each worker has completed a prefix of its submissions, in order, and the fsync offset the workers publish has not gone back |
| `Bio.PublishedRises` | redis-7.2.4/src/bio.c:205-300 | Between any two points of a run in which only the workers publish, as while the policy stays everysec between a start and a stop, the published fsync offset does not decrease |
| `Bio.PublishedIsDone` | redis-7.2.4/src/bio.c:259-279 | Nothing is published before an AOF job with that offset was performed |
| `Bio.PublishedIsSynced` | redis-7.2.4/src/bio.c:259-279 | Along every run the published offset is that of the last AOF job whose fsync succeeded, or the initial one if there was none |
| `Bio.DrainMeansDone` | redis-7.2.4/src/bio.c:314-322 | When a drain returns, everything submitted to that worker has completed and its counters are zero |
| `Bio.ApartGoesBack` | redis-7.2.4/src/bio.c:74-79 | With the two AOF job types on separate workers the offset can go back, so sharing one worker is needed |
| `Bio.NextKeeps` | redis-7.2.4/src/bio.c:205-300 | Every single step of every thread keeps the queue, counter, mutex and offset invariant |
| `Bio.WorkerStepKeeps` | redis-7.2.4/src/bio.c:205-300 | The job being processed stays the head of its queue and counters follow the queue through every step |
| `BioSleep.NeverMissed` | redis-7.2.4/src/bio.c:152-160 | With at most one thread draining a worker, under every interleaving, every choice of whom a signal wakes and spurious wake-ups: the worker never sleeps while a job is queued, and a drainer that sleeps has a worker that is awake |
| `BioSleep.DrainEnds` | redis-7.2.4/src/bio.c:314-322 | With nothing further submitted, worker and drainer can only make a bounded number of steps, and when neither can make another the queue is empty and the drain has returned |
| `BioSleep.TwoDrainersStick` | redis-7.2.4/src/bio.c:314-322 | With two or more threads draining, a drainer can take the signal meant for the worker: a job stays queued while the worker sleeps |
| `ConfigFile.NewFile` | redis-7.2.4/src/config.c:1231-1265 | For every old file and every sequence of rewrite calls: a processed option owns exactly the lines emitted for it, in emission order, and what it no longer owns is blank; every comment and every line of another option is where it was, unchanged; nothing is added but lines of processed options and a signature; at most one signature is added, and none to a file that has it |
| `ConfigFile.OrphanedLines` | redis-7.2.4/src/config.c:1624-1649 | After blanking, an option owns exactly the lines written for it |
| `ConfigFile.CollapseOnlyBlanks` | redis-7.2.4/src/config.c:1598-1614 | Gluing keeps all non-blank lines in order and leaves no two blank lines together |
| `ConfigFile.CollapseRun` | redis-7.2.4/src/config.c:1598-1614 | A run of blank lines anywhere is glued as one of them |
| `ConfigFile.CollapseNothing` | redis-7.2.4/src/config.c:1598-1614 | Lines without runs of blank lines are glued as they are |
| `ConfigRewrite.RunKeeps` | redis-7.2.4/src/config.c:1231-1265 | The index always holds the option's unused lines, which are the last of its lines; the used ones are what was emitted |
| `ConfigRewrite.RunKeepsOthers` | redis-7.2.4/src/config.c:1231-1265 | No call touches a line it does not own |
| `ConfigRewrite.RunBudget` | redis-7.2.4/src/config.c:1256-1260 | Signatures written and signatures still owed always sum to the same number |
| `ConfigFile.RewriteState.ReadFile` | redis-7.2.4/src/config.c:1118-1213 | Splitting, trimming and classifying the old file indexes each option's line numbers in order, through aliases and letter case, and notes an existing signature |
| `ConfigAgain.RewriteAgain` | redis-7.2.4/src/config.c:1747-1789 | For every old file and every sequence of calls whose lines read as lines of their options: rewriting again with the same calls gives the same file, but for an empty line at the end, if and only if for no option an unforced call that finds no line to use is followed by a forced one |
| `ConfigAgain.ChosenAgain` | redis-7.2.4/src/config.c:1231-1265 | With the lines written the first time as the old ones, the calls write the same lines for an option under that condition, and more lines otherwise |
| `ConfigAgain.EmittedIs` | redis-7.2.4/src/config.c:1231-1265 | Which calls write a line for an option depends only on how many old lines it has and which calls are forced |
| `ConfigAgain.NewReads` | redis-7.2.4/src/config.c:1118-1213 | Every line of the new file, read again, is a line of the option it was written for, or a comment |
| `ConfigAgain.StringLineReads` | redis-7.2.4/src/config.c:1314-1333 | The line written for a string option, whatever bytes its value holds, reads as a line of that option |
| `ConfigAgain.ValueLineReads` | redis-7.2.4/src/config.c:1159-1206 | A name followed by a quoted value reads as a setting of the option the name stands for, of a name that only files know, or as unknown |
| `ConfigAgain.ForcedIntoEmpty` | redis-7.2.4/src/config.c:1254-1262 | An option forced into an empty file stands under the signature |
| `ConfigAgain.SteadyRun` | redis-7.2.4/src/config.c:1231-1265 | Calls that find exactly their own lines change no line and leave none over |
| `ConfigAgain.RewriteFile` | redis-7.2.4/src/config.c:1747-1789 | Reading, the calls one by one, removing orphans and gluing give that new file |
| `ConfigAgain.UnforcedThenForced` | redis-7.2.4/src/config.c:1491-1516 | An unforced call before a forced one of the same option, on an empty file: the second rewrite gives something else |
| `ConfigParse.ReadAgain` | redis-7.2.4/src/config.c:1150-1181 | The text kept for a line, written out and read again, is itself; what was unknown has become a comment |
| `ConfigParse.SplitLines` | redis-7.2.4/src/sds.c:850-896 | The loop cuts at every newline, the last line perhaps empty |
| `ConfigParse.SdsTrim` | redis-7.2.4/src/sds.c:735-748 | The two loops remove exactly the given characters and zero bytes at both ends |
| `ConfigParse.TrimCuts` | redis-7.2.4/src/sds.c:735-748 | What is cut off at either end is only such characters, and what is left neither begins nor ends with one |
| `ConfigParse.StripsMeans` | redis-7.2.4/src/config.c:1146 | The characters trimmed, by number: four blanks and the zero byte |
| `Collections.LowerMeans` | redis-7.2.4/src/sds.c:798-802 | Of all characters exactly the 26 capital letters are changed, by 32 |
| `Collections.SkipBlanksCuts` | redis-7.2.4/src/sds.c:1014-1016 | What is skipped before a word is blanks only |
| `ConfigSettled.RewrittenAgain` | redis-7.2.4/src/config.c:1598-1614 | A rewrite with nothing to write, applied to its own output, changes nothing if and only if the file was empty or ended with an empty line; otherwise it adds one |
| `ConfigSettled.RewriteSettles` | redis-7.2.4/src/config.c:1598-1614 | From the second time on such a rewrite changes nothing |
| `ConfigSettled.RewriteNothing` | redis-7.2.4/src/config.c:1747-1789 | Reading, removing orphans and gluing, with no option written, is that rewrite |
| `ConfigSettled.OneLineExample` | redis-7.2.4/src/config.c:1598-1614 | A file of one line with its newline gains an empty line |
| `ConfigSettled.UnknownExample` | redis-7.2.4/src/config.c:1162-1182 | A line about no option is kept as a comment |
| `ConfigFile.RewriteState.RewriteLine` | redis-7.2.4/src/config.c:1231-1265 | The in-place update is the specified step and reports whether a line was written |
| `ConfigFile.RewriteState.RemoveOrphaned` | redis-7.2.4/src/config.c:1624-1649 | Clearing option by option, in any order, blanks exactly the orphaned lines |
| `ConfigFile.RewriteState.GetContent` | redis-7.2.4/src/config.c:1598-1614 | The loop with its flag glues the collapsed lines |
| `ConfigFile.RewriteState.AddLineNumberToOption` | redis-7.2.4/src/config.c:1093-1101 | Appends the number to the option's list, creating it if needed |
| `Adlist.List.LinkHead` | redis-7.2.4/src/adlist.c:103-114 | The node becomes the first; links in both directions, ends and length stay consistent |
| `Adlist.List.LinkTail` | redis-7.2.4/src/adlist.c:136-147 | The node becomes the last, likewise |
| `Adlist.List.AddHead` | redis-7.2.4/src/adlist.c:89-98 | One new value in front of the old contents |
| `Adlist.List.AddTail` | redis-7.2.4/src/adlist.c:122-131 | One new value after the old contents |
| `Adlist.List.Insert` | redis-7.2.4/src/adlist.c:149-176 | One new node directly after or before the given one, all others in order |
| `Adlist.List.Unlink` | redis-7.2.4/src/adlist.c:192-206 | Exactly the node is gone, its own links cleared |
| `Adlist.List.Del` | redis-7.2.4/src/adlist.c:182-187 | Exactly the node and its value are gone |
| `Adlist.List.Index` | redis-7.2.4/src/adlist.c:346-358 | The node at the index, counted from the tail when negative, or null outside |
| `Adlist.List.RotateTailToHead` | redis-7.2.4/src/adlist.c:361-373 | The last node becomes the first, order otherwise kept |
| `Adlist.List.RotateHeadToTail` | redis-7.2.4/src/adlist.c:376-388 | The first node becomes the last, order otherwise kept |
| `Adlist.List.Join` | redis-7.2.4/src/adlist.c:392-408 | All nodes of the other list follow, and it is left empty |
| `Adlist.List.Empty` | redis-7.2.4/src/adlist.c:57-72 | The list is empty and consistent |
| `Adlist.Iter.Next` | redis-7.2.4/src/adlist.c:255-266 | Returns the node it stood at, having moved on in its direction |
| `Adlist.Sweep` | redis-7.2.4/src/adlist.c:241-266 | Deleting the node just returned does not disturb a walk from the head: every node is seen once, in order, and exactly the chosen ones are gone |
| `Adlist.SweepBack` | redis-7.2.4/src/adlist.c:241-266 | The same for a walk from the tail, the direction in which rewritten INCR entries are moved to the history |
| `Adlist.Search` | redis-7.2.4/src/adlist.c:321-339 | The first match from the head, or null when there is none |
| `Adlist.Dup` | redis-7.2.4/src/adlist.c:276-310 | A fresh list with the duplicated values in order, or null exactly when a duplication fails; the original is not touched |

## Left out

- AofRewrite.CrashSafe: replacing the manifest file is one atomic step; an error after the rename, when the directory fsync fails, is not modelled. The rewrite is taken to start with the buffer written out; `LeftoverAppliedTwice` and `TornAtTheSwitch` say what happens otherwise. The file stays switched on: `ClosedRewrite` shows that this is needed, and waiting for a first rewrite after it is switched on is not modelled. What the loader makes of a gap inside a command that a torn write left half written is not modelled; it counts as a file that cannot be loaded.
- AofLoad.LoadSingle: a negative argument length counts as a format error, where the source fails to allocate; RDB preambles and other failures of the loading client are not modelled.
- AofCodec.NegativeRefused: counts as a format error what in the source is a failed allocation, and is about numbers of up to twenty digits, which fit the line buffer.
- AofFlush.Log.Flush: starts from a conserved log; fsync scheduling and the choice to postpone are an input.
- AclSelector.Selector.SetSelector: operations on keys and channels are accepted or refused as an input says and leave the commands alone. Rule texts end where a zero byte would end them.
- AclSelector.Selector.AddFirstArg: first arguments are kept in a map by command id; the source keeps them in an array of 1024 entries indexed by an id that is not compared with its size.
- AclSelector.Selector.Describe: the all-commands flag is not rebuilt by replaying and is not claimed to be.
- BlockedServer.BlockedServer.HandleClientsBlockedOnKeys: a re-run command that blocks again and a module's callback that does not serve its client signal no key; otherwise the loop need not end.
- BlockedServer.BlockedServer.HandleClientsBlockedOnKey: names nodes by their clients, each of which is in a list once; `Pass` is the same walk on nodes.
- Bio.ReachableIsSound: a state machine with one step per critical section, not a class; thread start and cancellation are not modelled, and submitted AOF offsets are taken not to decrease.
- Bio.PublishedRises: the main thread's own writes of the offset, when the file is switched off, under the policy always and at a first rewrite, are not steps of this machine.
- BioSleep.NeverMissed: the queue is its length, and what runs under the mutex is one step.
- BitfieldOps.UnsignedDecides: widths up to 63, as the parser admits; the masks of the overflow checks are written as arithmetic modulo powers of two.
- Popcount.RedisPopcount: the 256-entry table is represented by the sum over two half bytes.
- ConfigFile.RewriteState.ReadFile: which names are options, and what aliases stand for, is an input. A line of nothing but vertical tabs and form feeds counts as unknown, where the source looks up a word that is not there; a word of the file holds no zero byte.
- ConfigAgain.ValueLineReads: not in sentinel mode, where the option of a sentinel line is two words.
- SdsRepr.CatRepr: the printable characters are those of ASCII, whatever the locale.
- ConfigFile.RewriteState.RewriteLine: options are given in lower case, as the source's dictionaries compare them without letter case.
- The text format of the manifest file, RDB snapshots and the per-type rewriting of objects.
- Client timeouts, WAIT and WAITAOF acknowledgements.
- ACL passwords, key and channel patterns, the ACL file and log.
- BITOP and BITFIELD argument parsing, wrong-type errors and notifications; SETBIT and GETBIT, which are one-bit fields.
- CRC-16; freeing memory, reference counts and the free callbacks of lists.
- The HTTP service around the vendored sources, sockets, event loop, cluster, defragmentation: wiring or code with smaller invariants than those above.
