# A verified model of DataTrace's analysis core

DataTrace instruments a threaded program, logs its thread, lock, barrier and write events, and at the
end of the run replays the log into linked tables from which it judges the program. This project models
that replay and its deciders in Dafny, and four smaller algorithms of the repository: the tree walk and
the name encoding of the documentation's search page, two cached filters of the bundled selector engine,
the CPU bit-set macros, and the launcher's search of PATH.

`dafny verify dfyconfig.toml` checks everything.

## How the model is laid out

- `Trace`, `Recorder`: the log. An entry's tag string, acting thread and operand become one `Event`;
  the callbacks that look back at the log or number threads are methods of a class.
- `Replay`: what one event does to the tables, as the functions `Step` and `Run` on values. `Analyzer`
  does the same in place, with the loops of `Fini`, and each method is proved to compute it.
- `IndexFacts`, `LockFacts`, `LogFacts`, `LabelFacts`, `TallyFacts`, `CreateTree`: what holds of the tables
  after every log. `LogFacts` reads the lock table off the log, so that the conditions below name log entries.
- `Deciders`, `DeciderFacts`, `Pipeline`, `LockUsers`: grouping loops and deciders, their meaning, and the
  whole analysis stated over the log alone.
- `MutexRuns`, `LockedPrograms`: threads, real mutexes and callbacks interleaved in every way, with tries that
  miss and with writes logged anywhere, inside lock and unlock calls too.
- `SearchWalk`, `SearchIds`, `AncestorWalk`, `NthChild`, `CpuSets`, `Launcher`: the smaller algorithms.
- `Ordered`: the iteration order of a `std::map`. `Basics`: small shared notions.

Modelling choices. Every callback is one atomic step; the source takes its sequence number before it
takes its lock. Thread ids and addresses are opaque numbers; a write is keyed by the address the tool
logs for it. A `std::map` is a Dafny map walked through its ascending keys; `globalmap`, whose keys are
1, 2, 3, ..., is a sequence. The synchronisation fields of a write record form one `Label`; `rw_var`,
which is always 0, is dropped, and `sem_var`, which the index record leaves unset, starts at 0 and is
read only where a semaphore set it. A semaphore unlock does nothing, because the tag the callback logs
(PIN/source/tools/u0.cpp:1109) is not the one the replay tests (PIN/source/tools/u0.cpp:4360). A page or a
document is an ordered tree, an element variable is a position in it. A CPU word is its 64 binary
digits, and memory is little-endian. The launcher's file test, what the memory allocator leaves in a buffer,
the page's query string and the browser's `unescape` are parameters.

Where code and documentation disagree, the model follows the code. The comment on `safety_decider`
(PIN/source/tools/u0.cpp:3661-3664) promises 3 for a totally safe program, but a write is labelled only
while its thread has a lock request unanswered, holds a semaphore or rw-lock on record, or passes a
barrier; `DeciderFacts.VerdictIff` gives the exact condition on the log for each verdict. So for programs
synchronised by mutexes alone the locking that protects a write plays no part: what counts is whether the
write is made inside a call of lock or try-lock (`LockedPrograms.MutexOnlyVerdict`). The tool instruments
library code too and logs writes into a range that starts at the main program's `.bss` section
(PIN/source/tools/u0.cpp:2836, 2944-2979, 3108-3120), so the lock routine's own stores to a mutex that lies
there are such writes. `LockedPrograms.ProtectedProgramVerdict` spells it out for two threads whose every
write is made by the owner of one mutex: they are called totally unsafe if the tool does not log the
stores inside the lock calls, as for a mutex outside that range, partially safe if it also sees these, and
totally safe only if it sees nothing else. A callback after a failed try-lock logs an acquisition all the same;
`MutexRuns.RecordsRealIff` proves that the recorded holds of a mutex are the real ones throughout a run
iff no such return happened to a thread that did not own it. The search encoding keeps prefixes only for
codes below 256 (`SearchIds.EncodeKeepsPrefixesIff`), and `CPU_ALLOC_SIZE` makes room only while its
rounding-up does not wrap (`CpuSets.AllocSizeFits`).

## Model

| member | source | states |
|---|---|---|
| Analyzer.Tool.Replay | PIN/source/tools/u0.cpp:3832-5041 | the in-place replay of any log leaves exactly the tables of `Run`, about which the facts below are proved |
| Analyzer.Tool.Apply | PIN/source/tools/u0.cpp:3858-4912 | one event of any kind changes all five tables as `Step` says and nothing else |
| Analyzer.Tool.ChangeFlags | PIN/source/tools/u0.cpp:4046-4060 | an acquire or unlock changes the flag of every matching record under every key, and no other record |
| Analyzer.Tool.RelabelIndex | PIN/source/tools/u0.cpp:3909-3929 | a barrier relabels the passing thread's records of every variable in the index |
| Analyzer.Tool.CollectMarks | PIN/source/tools/u0.cpp:4747-4815 | the nested scan yields the label and the two flags that the lock table gives a writer |
| Analyzer.Tool.BumpWriteCount | PIN/source/tools/u0.cpp:4821-4857 | one more write bumps one counter of the writer's entry or creates the entry |
| Analyzer.Tool.RecordWrite | PIN/source/tools/u0.cpp:4707-4874 | a write to an address that is no lock-table key enters the write log, the index and the counters together; any other leaves them alone |
| IndexFacts.IndexAgrees | PIN/source/tools/u0.cpp:3887-3929 | after every prefix of every log, each variable's index list is the subsequence of the write log for it, labels included |
| IndexFacts.ProjectBar | PIN/source/tools/u0.cpp:3887-3929 | relabelling both tables by a barrier keeps the one a projection of the other |
| DeciderFacts.IndexClosedForm | PIN/source/tools/u0.cpp:4831-4871 | the index list of a variable in closed form: its tracked writes in log order, each with its final label |
| LockFacts.FlagsMoveForward | PIN/source/tools/u0.cpp:4046-4324 | over any further events a lock record keeps place, thread and address, and its flag only moves along 2-1-0, 2-7 and 2-11 |
| LockFacts.RunWellFiled | PIN/source/tools/u0.cpp:3862-3881 | every record sits under its own address with one of six flags |
| LockFacts.MarksMean | PIN/source/tools/u0.cpp:4747-4815 | the scan's two flags say exactly whether the writer has a record flagged 2, 7 or 11, and one flagged 9 |
| LockFacts.LastMarkWins | PIN/source/tools/u0.cpp:4747-4815 | the label names the writer's last marking record in key order then list order; no label iff there is none |
| LockFacts.MutexField | PIN/source/tools/u0.cpp:4747-4815 | the mutex field is the address of the writer's last record flagged 2, 7 or 9 in that order, or 0 if it has none |
| LockFacts.SemaphoreField | PIN/source/tools/u0.cpp:4768-4778 | the semaphore field is the address of its last record flagged 11, or 0 |
| LockFacts.LabelAroundAcquire | PIN/source/tools/u0.cpp:4046-4236 | the label of a write made after an acquisition, from any table before it: the last record that still marks names it; the requests it answers now name a semaphore or rw-lock, and for a mutex they name nothing |
| LockFacts.HoldNeverEnds | PIN/source/tools/u0.cpp:4311-4437 | a semaphore or rw-lock acquired on record labels every later write of its thread, whatever unlocks follow |
| LogFacts.LocksClosedForm | PIN/source/tools/u0.cpp:3858-4437 | after every log the records under an address are those its requests, tries and barriers filed, in log order, each with its flag; the address is a key iff there is one |
| LogFacts.FlagNowMeans | PIN/source/tools/u0.cpp:4046-4324 | a requested lock's flag is 2 iff no acquisition answered it, 11, 7, or 1 or 0 iff the first answer was of a semaphore, an rw-lock or a mutex |
| LogFacts.SyncedIff | PIN/source/tools/u0.cpp:4747-4815 | a thread has a record flagged 2, 7 or 11 iff some request or try of it is unanswered or first answered as a semaphore or rw-lock |
| LogFacts.BarredIff | PIN/source/tools/u0.cpp:3858-3881 | a thread has a record flagged 9 iff it has passed a barrier |
| LogFacts.SyncFromLog | PIN/source/tools/u0.cpp:4747-4815 | read off the log, the kind of a label is that of the writer's last mark by address then log order: a request unanswered, one first answered as a semaphore or rw-lock, or a barrier; none if it has none |
| LogFacts.MutexFromLog | PIN/source/tools/u0.cpp:4747-4815 | the mutex field names the last such mark that is no semaphore, or is 0 |
| LogFacts.SemaphoreFromLog | PIN/source/tools/u0.cpp:4768-4778 | the semaphore field names the last request first answered as a semaphore, or is 0 |
| LabelFacts.TrackedIff | PIN/source/tools/u0.cpp:4707-4720 | the look-up in the lock table finds an address iff an earlier request, try or barrier in the log names it |
| LabelFacts.WritesClosedForm | PIN/source/tools/u0.cpp:3887-3905 | the whole write log in closed form: the tracked writes in order, each labelled as at its time unless its thread passes a barrier later, whose last one then relabels it |
| LabelFacts.WritesMembers | PIN/source/tools/u0.cpp:4716-4819 | a record is in the write log iff a tracked write with that final label made it |
| LabelFacts.BarrierAfterMeans | PIN/source/tools/u0.cpp:3887-3905 | the barrier that relabels a write is the last one its thread passes after it |
| LabelFacts.UnsyncedIff | PIN/source/tools/u0.cpp:4720-4815 | a write ends up unlabelled iff by the log its thread was not guarded by a request or hold then and passes no barrier before or after |
| LabelFacts.BarrierLabelsThread | PIN/source/tools/u0.cpp:3858-3929 | a thread that passes any barrier has no unlabelled write record, past or future |
| TallyFacts.TalliesCount | PIN/source/tools/u0.cpp:4821-4857 | each thread that wrote a variable has one counter entry; its three counts are the three classes of its writes, with the exact corrections for its first write and for later barriers |
| TallyFacts.WritesAreSets | PIN/source/tools/u0.cpp:4821-4857 | the three classes as numbers of log entries: writes made while guarded, while only past a barrier, while neither |
| TallyFacts.BarriersAreSet | PIN/source/tools/u0.cpp:3930-3950 | the barriers counted are those the thread passes after a tracked write of the variable |
| TallyFacts.TalliesInOrder | PIN/source/tools/u0.cpp:4831-4857 | the entries stand in the order in which their threads first wrote the variable |
| TallyFacts.WroteIff | PIN/source/tools/u0.cpp:4831-4871 | the threads with a counter entry are those with a record in the variable's index list |
| Pipeline.CountersCoverWrites | PIN/source/tools/u0.cpp:4834-4853 | the three classes of writes add up to the thread's records in the index |
| Deciders.Summary.NeighboursDiffer | PIN/source/tools/u0.cpp:5055-5083 | comparing neighbours only still finds any two different writers |
| Deciders.Summary.SplitVariables | PIN/source/tools/u0.cpp:5055-5097 | the shared list is, in ascending order, the variables with two writers; every other variable goes to the local map with its writer |
| DeciderFacts.SharedIff | PIN/source/tools/u0.cpp:5055-5085 | a variable is shared iff two different threads have tracked writes of it in the log |
| DeciderFacts.SplitPartitions | PIN/source/tools/u0.cpp:5055-5097 | shared and local variables partition the index, and a local variable's listed thread is its only writer |
| Deciders.DataAccess | PIN/source/tools/u0.cpp:3783-3828 | which of the three access reports is given |
| DeciderFacts.NeverPartitioned | PIN/source/tools/u0.cpp:3783-3828 | with a shared variable there is always one with two records, so the third report is unreachable |
| Deciders.SafetyDecider | PIN/source/tools/u0.cpp:3665-3711 | the flag-setting loops return 0, 3, 2 or 1 as labelled and unlabelled records of shared variables exist |
| DeciderFacts.VerdictIff | PIN/source/tools/u0.cpp:3661-3711 | the exact condition for each verdict, in requests, tries, acquisitions, barriers and writes of the log |
| DeciderFacts.BarriersMakeSafe | PIN/source/tools/u0.cpp:3665-3711 | if every writer of every shared variable passes some barrier the verdict is 3, or 0 when nothing is shared |
| Deciders.DoesUpdate | PIN/source/tools/u0.cpp:3499-3577 | 1 iff some write event carries the id of a creator that has a record on a shared variable |
| DeciderFacts.UpdateScanRedundant | PIN/source/tools/u0.cpp:3519-3574 | the scan over write events never changes the answer |
| DeciderFacts.DoesUpdateIff | PIN/source/tools/u0.cpp:3499-3577 | in log terms: some thread that created another has a tracked write of a shared variable |
| Deciders.GlobalUpdatesThread | PIN/source/tools/u0.cpp:3583-3642 | the thread's number of records of shared variables, 0.15 standing for zero, although the loop walks the index |
| Pipeline.UpdateCount | PIN/source/tools/u0.cpp:3583-3642 | replay and count together: the number of the thread's tracked writes of shared variables in the log |
| Deciders.Summary.BuildAccessLists | PIN/source/tools/u0.cpp:6378-6426 | the loops build each thread's access list variable by variable, and file no thread without an access |
| Pipeline.AccessLists | PIN/source/tools/u0.cpp:6378-6426 | replay, split and access lists together: a list for exactly the threads that write a shared variable, which holds each shared variable as often as the log has tracked writes of it by the thread, ascending |
| DeciderFacts.AccessListLength | PIN/source/tools/u0.cpp:6403-6426 | the length of a thread's access list equals its access count |
| DeciderFacts.HitsInLog | PIN/source/tools/u0.cpp:3606-3635 | a thread's records of a variable are as many as its tracked writes of it |
| DeciderFacts.AccessCountInLog | PIN/source/tools/u0.cpp:3606-3635 | a thread's access count is the number of its tracked writes of the listed variables |
| DeciderFacts.CountsAddUp | PIN/source/tools/u0.cpp:3606-3635 | the access counts of all threads add up to the number of records of shared variables |
| Pipeline.Analyze | PIN/source/tools/u0.cpp:3832-5097 | replay, split and the three deciders together, in terms of the log alone: every verdict with its exact condition |
| LockUsers.GroupLocks | PIN/source/tools/u0.cpp:5122-5297 | for one variable each lock that a write's label names gets one group, in the order of first naming, whose used slots hold without repeats and in the order of first use exactly the threads that used it, within 50 slots |
| LockUsers.AddToGroup | PIN/source/tools/u0.cpp:5143-5168 | scanning all 50 slots, used or not, adds a thread exactly when it is new, and never runs past the array |
| LockUsers.GroupAll | PIN/source/tools/u0.cpp:5103-5448 | the outer loop: an entry, with its groups, for exactly the variables with a record that names a lock |
| Pipeline.GroupUsers | PIN/source/tools/u0.cpp:5103-5448 | replay and grouping of any log with at most 50 writing threads: which variables get an entry, and which threads each lock's group holds in which order, in requests, tries, acquisitions, barriers and writes of the log |
| MutexRuns.InvAlways | PIN/source/tools/u0.cpp:757-956 | after every step of every interleaving, tries that miss included, each thread has a pending record of a mutex iff it is inside a lock or try-lock call for it, and a held one iff it firmly holds it or a failed try returned to it unowned |
| MutexRuns.RecordedExactly | PIN/source/tools/u0.cpp:2404-2440 | a thread is recorded as holding a mutex iff it owns it outside any call that takes or gives it up, or has an outstanding return of a failed try |
| MutexRuns.RecordsRealIff | PIN/source/tools/u0.cpp:2418-2428 | the recorded holds of a mutex are the real ones in every state of a run iff no try of it returned without it to a thread that did not own it |
| MutexRuns.RecordedExclusive | PIN/source/tools/u0.cpp:4030-4061 | then at most one thread is recorded as holding it in every state of the replay |
| MutexRuns.OneRecordedHolder | PIN/source/tools/u0.cpp:4030-4061 | and if no try of it misses, at most one record is flagged 1 |
| MutexRuns.FailedTryRecorded | PIN/source/tools/u0.cpp:2418-2428 | a run in which a failed try leaves two threads recorded as holding one mutex |
| MutexRuns.TryDecides | PIN/source/tools/u0.cpp:2418-2428 | a try takes the mutex iff it is free and misses iff it is not |
| MutexRuns.TakenTryRecorded | PIN/source/tools/u0.cpp:2418-2428 | a run in which a try takes a free mutex and its thread is recorded as holding it |
| MutexRuns.HandoverRecorded | PIN/source/tools/u0.cpp:2404-2440 | a run in which a thread waits for a held mutex, gets it, and alone is recorded as holding it |
| LockedPrograms.LabelledInsideCalls | PIN/source/tools/u0.cpp:4747-4815 | in every interleaving of a program synchronised by mutexes alone a write record names the mutex whose lock or try-lock call its thread was inside, and is unlabelled iff it was inside none |
| LockedPrograms.MutexOnlyVerdict | PIN/source/tools/u0.cpp:3661-3711 | the verdict on every such interleaving: 0 iff nothing is shared, 3 iff every write of a shared variable is made inside a lock or try-lock call, 1 iff none is, 2 otherwise |
| LockedPrograms.ProtectedProgramVerdict | PIN/source/tools/u0.cpp:3661-3664 | two threads, any writes, all made by the owner of one mutex: 1 iff the tool logs no store inside the lock calls, 3 iff only such stores, 2 iff both, 0 iff nothing is written |
| Recorder.LastFiledIsLatestWait | PIN/source/tools/u0.cpp:1506-1534 | the last matching region names the latest wait's mutex even when it is itself a copying signal |
| Recorder.Log.CondSignal | PIN/source/tools/u0.cpp:1473-1557 | a signal on a nonzero condition stores the mutex of the last wait on it, or else of the last signal on it, or else what was there |
| Recorder.Log.Create | PIN/source/tools/u0.cpp:604-656 | created threads are numbered 1, 2, 3, ...: the new number is one more than the create entries so far |
| CreateTree.ListsHoldEachOnce | PIN/source/tools/u0.cpp:4470-4500 | the lists of the creation map hold each of 1..n exactly once |
| CreateTree.ParentsSmaller | PIN/source/tools/u0.cpp:4470-4500 | if threads create only after being numbered, a parent's id is smaller than its child's |
| CreateTree.DescendsFromRoot | PIN/source/tools/u0.cpp:4470-4500 | every thread descends from thread 0 |
| CreateTree.DescentUnique | PIN/source/tools/u0.cpp:4470-4500 | along exactly one path, so the graph is a tree |
| SearchWalk.FindChildElement | PIN/doc/html/search/search.js:445-479 | the stackless walk ends and returns the first wanted element of the recursive preorder |
| SearchWalk.FindsFirstInDocumentOrder | PIN/doc/html/search/search.js:445-479 | that is the first DIV of class SRChildren in document order among the nodes with only DIVs between them and the start, or nothing if there is none |
| SearchWalk.BelowIff | PIN/doc/html/search/search.js:457-464 | descending through DIVs only means that every node strictly between is a DIV |
| SearchWalk.PrecedesIff | PIN/doc/html/search/search.js:457-476 | document order: an ancestor first, else the earlier branch where the paths part |
| SearchWalk.WalkHolds | PIN/doc/html/search/search.js:457-464 | the preorder visits exactly the nodes reached by descending only through DIVs |
| SearchWalk.WalkInOrder | PIN/doc/html/search/search.js:457-476 | and visits them in document order |
| SearchIds.ConvertToId | PIN/doc/html/search/search.js:32-53 | the loop encodes code by code |
| SearchIds.EncodeEach | PIN/doc/html/search/search.js:38-47 | in its place each small letter or digit stands for itself and every other code is '_' and its hexadecimal digits, two of them below 256 |
| SearchIds.EncodeKeepsPrefixes | PIN/doc/html/search/search.js:32-53 | for codes below 256 one encoding is a prefix of another iff the strings are |
| SearchIds.EncodeKeepsPrefixesIff | PIN/doc/html/search/search.js:32-53 | over codes below n this holds exactly when n is at most 256 |
| SearchIds.EncodeInjective | PIN/doc/html/search/search.js:32-53 | the encoding is injective on codes below 256 |
| SearchIds.SearchResults.Search | PIN/doc/html/search/search.js:502-551 | for a non-empty query the row of a name is shown iff the name starts with its term, for an empty one iff it starts with that of the page's unescaped query string; other rows keep their state; the count is the number of result rows on display |
| SearchIds.TermTrims | PIN/doc/html/search/search.js:511-513 | spaces around the query do not matter, those inside do |
| SearchIds.TermOfSpaces | PIN/doc/html/search/search.js:511-513 | a query of spaces only has the empty term |
| SearchIds.LowerCodeIs | PIN/doc/html/search/search.js:513-513 | capital letters become small ones, the accented ones of Latin-1 too, and nothing else changes |
| SearchIds.StripSrIs | PIN/doc/html/search/search.js:525-526 | of an id that starts with "sr", digits and '_' the rest is kept; any other id stays |
| SearchIds.RowShownIff | PIN/doc/html/search/search.js:526-534 | the row of a name is shown iff the name starts with the search term |
| AncestorWalk.WalkToParents | PIN/doc/html/jquery.js:20 | with a fresh stamp every non-empty slot ends with the first node above the one it held that has the name, by the parent links, or false if none has |
| AncestorWalk.WalkFrom | PIN/doc/html/jquery.js:20 | one walk finds that node, keeps every stamp pointing at a finished slot with the right answer for the stamped node, and stamps exactly the elements it passes |
| NthChild.PassesIff | PIN/doc/html/jquery.js:20 | the remainder-and-quotient test holds iff some non-negative n gives the position, for all a and b |
| NthChild.PositionIs | PIN/doc/html/jquery.js:20 | counting elements on the way gives the number of element siblings up to and including the one at hand |
| NthChild.Nth | PIN/doc/html/jquery.js:20 | one test is right and keeps the cached positions right for the pass; an element without a parent is judged by the index an earlier pass left on it |
| NthChild.FilterNth | PIN/doc/html/jquery.js:20 | a whole pass keeps exactly the elements whose true position is selected, and of those without a parent the ones whose old index is |
| CpuSets.CpuSet | PIN/extras/crt/include/sched.h:107-112 | for any size in bytes adds exactly the named number when in range, else changes nothing; a negative one changes nothing |
| CpuSets.CpuClr | PIN/extras/crt/include/sched.h:114-119 | for any size removes exactly the named number when in range, else changes nothing; a negative one changes nothing |
| CpuSets.CpuIsSet | PIN/extras/crt/include/sched.h:121-127 | membership, false out of range |
| CpuSets.CpuZero | PIN/extras/crt/include/sched.h:105-105 | removes every number below eight times the size, and no other |
| CpuSets.CpuOp | PIN/extras/crt/include/sched.h:131-143 | intersection, union and symmetric difference of the sources on the whole words of the set, even when the destination is one of them; a last word that is cut short stays as it was |
| CpuSets.EqualIff | PIN/extras/crt/include/sched.h:129-129 | equal bytes are equal sets, for any size |
| CpuSets.CpuEqual | PIN/extras/crt/include/sched.h:129-129 | the byte comparison holds iff the sets are equal |
| CpuSets.AllocSizeFits | PIN/extras/crt/include/sched.h:96-97 | room for the count iff the rounding-up does not wrap, and less than one spare word; no room at all when it wraps |
| Launcher.SearchInPath | PIN/source/launcher/utils.c:129-158 | the search returns the first component of PATH that passes the file test, or nothing |
| Launcher.CutAndTest | PIN/source/launcher/utils.c:131-154 | its loop, cutting the copy of PATH in place, ends and stops at a component that passes with none before it passing |
| Launcher.SplitJoin | PIN/source/launcher/utils.c:131-151 | the components, empty ones included, contain no colon and join back to PATH |
| Launcher.SplitUnique | PIN/source/launcher/utils.c:131-151 | no other list of colon-free components joins to PATH |
| Launcher.FirstFoundMeans | PIN/source/launcher/utils.c:138-154 | a result is a component that passes with none before it passing; no result means none passes |
| Launcher.Append3 | PIN/source/launcher/utils.c:36-54 | the concatenation of the arguments that are not null, in a buffer of exactly the needed size |
| Launcher.FindBasePath | PIN/source/launcher/utils.c:165-184 | of a name with a slash the directory before a part without slashes, else the directory found on PATH, else the name itself |

## Left out

- Launcher.Append3: with a null first argument and another one given it is called only on a buffer that happens to start with a terminator; otherwise strcat would run past the buffer's end.
- Launcher.SearchInPath: an unset PATH is not modelled; the copy of a null string has no meaning in C.
- LockUsers.GroupLocks: assumes at most 50 threads, because a 51st would be stored at `tid[50]`, outside the array, and unset slots that hold no thread id, because a thread found in one is taken as already listed.
- MutexRuns.InvAlways: mutexes are not recursive, every lock call succeeds, threads unlock only mutexes they own, and no thread waits on a condition; no semaphore or rw-lock lives at a mutex's address.
- LockedPrograms.ProtectedProgramVerdict: the addresses logged for writes are not the mutex's own; a write logged under a lock's own address gets no record.
- CpuSets.CpuOp: sizes whose eightfold wraps `size_t` are not modelled, and `CPU_COUNT` is not part of this model.
- Recorder.Log.CondSignal: what a signal on the null condition stores is given only by the scan itself (`LastFiled`).
- NthChild.Nth: the first, last and only cases and the parsing of the formula are not modelled.
- AncestorWalk.WalkToParents: the previous-sibling direction, which stamps starting nodes as well, is not modelled.
- SearchIds.SearchResults.Search: lower-casing is exact only for codes below 256.
- Memory layout: `std::list` and `std::map` fields are values that the methods reassign, so iterators and aliasing inside them do not appear.
- `timeList` and the starvation and live-lock numbers: the acquire branch updates the thread's first entry only.
- `gglobalmutmap`, `countmap`, `checkmap`, `signalmap`, `condmap`, `createseqmap`, `signalseqmap`, `exitmap`: filled beside the tables above and read by reports only.
- `mlist`, `blist` and the two barrier groupings: the same loop as the lock grouping, over other keys.
- Read events, malloc, exceptions and exits: they do not change the tables.
- Reports, dot files, knobs, the debugger interpreter, `popen` and the Pin interface: input and output.
- The rest of jQuery, the search box and the launcher's environment set-up: user interface and system calls.
