# Operating-systems course programs: a verified model

The repository holds four small systems programs written in C. This project models the parts of
them that keep state over time, and proves what they keep.

**Paged memory** (`05. Virtual Memory`). A page-fault handler moves pages between a few frames and
a disk, choosing victims at random, first-in first-out, or at random outside a window of recent
loads. `PagedMemory` gives the handler as a function on the whole machine state, `PageFault` proves
what one fault keeps, `FlatMemory` proves that loads and stores cannot tell the machine from one
flat byte array, `Replacement` studies the policies, and `ScanCost`, `FifoLog`, `DeltaCost` and
`DeltaResult` compute what the delta program costs and prints. `Pager` and `Programs` are the same
handler and program with arrays, counters and loops updated in place, proved against those
functions; `LogMeter` tells when the page logs are full.

**Job scheduler** (`04. Job Scheduler`). A shell thread, a scheduler thread and a completion
handler share a job list under a mutex and a condition variable. `Scheduler` is the monitor as a
state machine whose steps are the critical sections, cut where a thread sleeps; `SchedulerRuns`
proves properties of all its runs, and `SchedulerSteps` says what each step does to each part of
the state. `Jobs` has the list operations on sequences and `JobQueue` the same operations on the
linked list.

**Parallel renderer and BMP files** (`03. Parallel Programming`). Workers take bands of rows from a
shared list and paint them. `Bands` is the arithmetic of the cut, `Renderer` the interleaving of the
workers pixel by pixel, `RendererRuns` its runs, `Bitmap.dfy` the pixel buffer and the sequential
renderer, `Bmp` the bytes of the files, `BmpLayout` what is at each place of them.

**SimpleFS** (`06. File Systems`). Mounting computes the free-block map by scanning the inodes.
`SimpleFs` says which blocks are referred to, `FsRuns` what formatting and runs of creations and
deletions do, `FsWords` puts both in terms of the words on the disk, and `FileSystem` is the
program's loops.

## Where the code does not do what it promises

Each is stated as a theorem with its exact condition where there is one.

- The custom policy never evicts page 0 (`Replacement.CustomPinsPageZero`).
- The FIFO array overflows exactly when the closed form of the loads exceeds 4096
  (`DeltaCost.DeltaFifoFits`, `Programs.DeltaProgram`, with `DeltaOverruns` for 400 pages and 100
  frames). The log is unbounded in the functions and has 4096 slots in `Pager`.
- The limit on running jobs is exceeded exactly when it is lowered below their number
  (`SchedulerRuns.LimitBrokenExactly`, over runs `LimitKept`, with `OverLimitRun`).
- A scheduler woken while its list is emptied reads through a null head
  (`SchedulerRuns.CrashExactly`, `DoomExactly`, `CrashingRun`).
- Removing a running job at the head of the list answers 1 and the shell goes on; behind the head
  it answers -1 and the shell exits (`Jobs.RefusedExactly`, `RunningHead`).
- A worker that finds the task list empty inside the lock keeps the lock; a run can then get stuck
  exactly when there are three or more workers (`RendererRuns.StuckExactly`).
- The BMP reader does not skip the padding that the writer adds, so a size survives exactly when
  its width is divisible by four or its height is one (`Bmp.SurviveExactly`).
- Mounting and formatting skip the last inode block, so a block in use can be handed out, exactly
  when that block's inodes refer to the least block past the table that no other inode refers to
  (`SimpleFs.HandsOutReferred`, `EmptyLastBlockIsSafe`, `LostFile`).
- Looking for a free inode, the program reads each inode block over the superblock that holds the
  loop bound, so a disk formatted by the program has 127 usable inodes
  (`FsRuns.CreateStaysInFirst`, `FormattedCapacity`, `FormattedCounts`), where the superblock
  announces 128 for every inode block.
- Deleting inode 0 clears the superblock (`FsRuns.DeleteZeroExactly`, `StepSafeExactly`,
  `DeleteZeroThenTake`).
- getNextBlock does not mark the block it returns, so a second call returns it again
  (`FileSystem.FileSystem.GetNextBlock`, which changes nothing).

## Model

| member | source | states |
|---|---|---|
| FlatMemory.RunRefinesFlat | 05. Virtual Memory/main.c:41-162 | after any prefix of any run, under any policy and any choice of victims, page table, frames and disk together hold exactly the flat byte array that the same loads and stores produce |
| FlatMemory.RunObservesFlat | 05. Virtual Memory/main.c:41-162 | every load of every run reads the byte last stored at that address in the flat array, and every store leaves its own |
| FlatMemory.FlatHoldsLastStore | 05. Virtual Memory/main.c:41-162 | a byte of the flat array is the value of the last store to its address, or what it was at the start |
| FlatMemory.InitialFlat | 05. Virtual Memory/main.c:173-204 | at the start it is the disk, page after page of 4096 bytes |
| FlatMemory.RunLoadsLastStore | 05. Virtual Memory/main.c:41-162 | in every run from the initial state a load reads the value of the last store to its address, or the byte of the disk if there was none |
| FlatMemory.PerformRefines | 05. Virtual Memory/main.c:41-162 | one load changes no byte of the flat array and one store changes exactly one, however many faults it takes |
| FlatMemory.AccessCost | 05. Virtual Memory/main.c:47-48 | a load costs one fault when its page is not resident and none otherwise; a store one for reading and one for writing, each only when missing |
| FlatMemory.PerformEffect | 05. Virtual Memory/main.c:47-158 | what one access does to the resident set, the dirty set, the read counter and the FIFO log |
| FlatMemory.RunConservesCounts | 05. Virtual Memory/main.c:47-158 | at every point of every run the fault counter equals disk reads plus disk writes plus the number of dirty pages |
| FlatMemory.RunKeepsFrames | 05. Virtual Memory/main.c:51-74 | at every point of every run resident pages own different frames inside memory, bits are none, read or read-write, and a clean resident page equals its disk block |
| FlatMemory.RunInv | 05. Virtual Memory/main.c:41-162 | from a state that satisfies the invariant (table, frames, clean pages, counters, and the log of the policy in use), which no step asks for, it holds at every point of every run, by induction over the steps |
| PageFault.FaultKeepsInv | 05. Virtual Memory/main.c:41-162 | every entry into the handler keeps that invariant, for all three policies, free frame or eviction or write upgrade |
| PageFault.FaultKeepsView | 05. Virtual Memory/main.c:69-93 | a fault moves pages between frames and disk but changes the contents of none |
| PageFault.FaultGrants | 05. Virtual Memory/main.c:156-160 | a fault adds the missing permission, reading before writing, counts once, and is without effect on a fully permitted page |
| PageFault.FaultResidents | 05. Virtual Memory/main.c:90-91 | the page comes in; the victim, and only it, goes out, and only when no frame is free |
| PageFault.FaultDirty | 05. Virtual Memory/main.c:133-138 | an upgrade makes the page dirty, an eviction makes the victim clean, nothing else changes the dirty set |
| PageFault.FaultLogs | 05. Virtual Memory/main.c:57-60 | exactly the faults on pages that are not resident read the disk, and under FIFO append the page to the log |
| PageFault.ResidentFault | 05. Virtual Memory/main.c:156-160 | on a resident page a fault counts once and grants read and write, or does nothing; no other field changes |
| PageFault.FreeFault | 05. Virtual Memory/main.c:51-74 | with a free frame: the whole new state, the lowest free frame marked, mapped read-only and filled from disk, the counters, and the page logs with the custom window nframes/3 or nframes/10 |
| PageFault.FullFault | 05. Virtual Memory/main.c:76-152 | without one: the whole new state, the victim written back if dirty and unmapped to frame 0, its frame mapped read-only and filled, the counters, and the page logs |
| PagedMemory.InitialInv | 05. Virtual Memory/main.c:173-194 | the state set up by main satisfies the invariant, whatever disk and memory hold |
| PagedMemory.InvPermits | 05. Virtual Memory/main.c:47-95 | in a state that satisfies the invariant the handler can be carried out for every page; only the choice of a victim has a condition, the policy's own |
| PagedMemory.FullCount | 05. Virtual Memory/main.c:51-52 | the lowest free frame is the number of resident pages, so no frame is free exactly when as many pages as frames are resident |
| PagedMemory.VictimIsResident | 05. Virtual Memory/main.c:96-100 | a page that passes the exit test of any policy's search is resident and mapped inside memory |
| Replacement.FrameOwner | 05. Virtual Memory/main.c:70 | PHYS_FREE of a frame is 1 exactly when some resident page is mapped to it, and otherwise 0 |
| Replacement.VictimIsNotFaultingPage | 05. Virtual Memory/main.c:78-100 | the victim is resident and never the page being loaded |
| Replacement.VictimExactly | 05. Virtual Memory/main.c:78-131 | with all frames taken the search accepts exactly: any resident page (rand); the load nframes loads ago (fifo); any resident page but page 0 and the last loads, fewer than nframes/3 for less than ten frames and nframes/10 otherwise (custom) |
| Replacement.CustomCandidates | 05. Virtual Memory/main.c:120-131 | with all frames taken, the inclusive scan of the custom policy rules out at most nframes/3 resident pages for less than ten frames and nframes/10 otherwise |
| Replacement.VictimExists | 05. Virtual Memory/main.c:114-131 | with all frames taken every policy has a page to evict, and the random ones keep two thirds of the frames to choose from, so their loops can end |
| Replacement.RunExists | 05. Virtual Memory/main.c:41-162 | from every state that satisfies the invariant any list of accesses in range has a run: the handler is never stuck |
| Replacement.FifoExact | 05. Virtual Memory/main.c:95-113 | the live part of the FIFO log lists the resident pages, each once, in load order, and POP_INDEX is max(0, PUSH_INDEX - nframes) |
| Replacement.FifoLifetime | 05. Virtual Memory/main.c:95-113 | a page brought in by load n and not loaded since is resident exactly until load n + nframes |
| Replacement.CustomRecent | 05. Virtual Memory/main.c:140-143 | under the custom policy the last nframes/3 - 1 loaded pages, nframes/10 - 1 from ten frames on, are all still resident |
| Replacement.OnlyVictimsLeave | 05. Virtual Memory/main.c:137 | no page leaves memory except as the victim of a fault that finds no free frame |
| Replacement.CustomPinsPageZero | 05. Virtual Memory/main.c:124-130 | once loaded, page 0 is never evicted under the custom policy, because the inclusive scan also compares with a log slot that still holds 0 |
| ScanCost.WriteScanCost | 05. Virtual Memory/program.c:99-101 | writing every byte once from an empty table takes 2 * npages faults, npages disk reads and npages - nframes disk writes, under every policy and with every choice of victims |
| ScanCost.LoadsKeep | 05. Virtual Memory/program.c:103-110 | loads never make a page dirty, and each of their faults is one disk read |
| FifoLog.RoundsShape | 05. Virtual Memory/program.c:103-110 | what the FIFO log looks like, and how long it is, after any number of up-and-down rounds over more pages than frames |
| DeltaCost.FifoAccess | 05. Virtual Memory/main.c:95-113 | under FIFO an access is a load from disk exactly when its page is not among the last nframes loads |
| DeltaCost.LogAfterRounds | 05. Virtual Memory/program.c:99-110 | the log of the paged machine after each round is the one computed on the plain sequence of touched pages |
| DeltaCost.ProgramExactly | 05. Virtual Memory/program.c:99-110 | the program access by access: byte i is stored i % 256, then each round loads all bytes upwards and all but byte 0 downwards |
| DeltaCost.DeltaAccesses | 05. Virtual Memory/program.c:99-110 | the runs that the theorems about delta speak of perform exactly these accesses |
| DeltaCost.FirstReadSweepCost | 05. Virtual Memory/program.c:103-106 | with fewer frames than pages the first read sweep of delta under FIFO costs npages faults, npages disk reads and nframes disk writes |
| DeltaCost.CleanSweep | 05. Virtual Memory/main.c:102-105 | that sweep leaves no page it has passed dirty |
| DeltaCost.DeltaFifoCost | 05. Virtual Memory/program.c:94-113 | the closed form of the faults, reads and writes of the whole delta program under FIFO, for any number of rounds, when nframes < npages |
| DeltaCost.DeltaFittingCost | 05. Virtual Memory/program.c:94-113 | with a frame for every page the whole program costs 2 * npages faults, npages reads and no write, under every policy |
| DeltaCost.DeltaFifoFits | 05. Virtual Memory/main.c:33 | the FIFO array never overflows during delta exactly when its page loads (the closed form when nframes < npages, npages when they are equal) are at most 4096 |
| DeltaCost.DeltaOverruns | 05. Virtual Memory/main.c:33 | with 400 pages and 100 frames delta pushes 6500 pages into the 4096 slots of FIFO |
| DeltaCost.DeltaRuns | 05. Virtual Memory/program.c:94-113 | the delta program has a run from every initial state under every policy, so the cost theorems are about something |
| DeltaResult.LoadsLowByte | 05. Virtual Memory/program.c:99-110 | every load of delta reads the low byte of its address, through all evictions |
| DeltaResult.DeltaPrints | 05. Virtual Memory/program.c:94-113 | delta prints 10444800 * npages modulo 2^32 under every policy and every choice of victims |
| Pager.Disk.Write | 05. Virtual Memory/disk.c:50-62 | replaces one block; refuses, with nothing changed, exactly the block numbers at which the program aborts |
| Pager.Disk.Read | 05. Virtual Memory/disk.c:64-76 | copies one block into one frame; refuses the same numbers |
| Pager.PageTable.constructor | 05. Virtual Memory/page_table.c:57-98 | all pages start without permission |
| Pager.PageTable.SetEntry | 05. Virtual Memory/page_table.c:110-127 | changes one mapping and its bits; refuses illegal pages and frames |
| Pager.PageTable.GetEntry | 05. Virtual Memory/page_table.c:129-138 | reads one mapping and its bits; refuses illegal pages |
| Pager.Pager.constructor | 05. Virtual Memory/main.c:173-210 | builds a machine in an initial state, for any disk contents |
| Pager.Pager.Record | 05. Virtual Memory/main.c:57-67 | appends to the log of the policy in use and moves the custom window |
| Pager.Pager.FindFree | 05. Virtual Memory/main.c:51-53 | finds the lowest free frame |
| Pager.Pager.Protected | 05. Virtual Memory/main.c:123-130 | the inclusive scan finds exactly page 0 and the pages in the custom window |
| Pager.Pager.DrawVictim | 05. Virtual Memory/main.c:79-85 | drawing random pages ends with one that passes the policy's exit test, if the stream ever offers one |
| Pager.Pager.CoveringIsLucky | 05. Virtual Memory/main.c:82-85 | a stream in which every page number comes up always offers one |
| Pager.Pager.Clear | 05. Virtual Memory/main.c:86-90 | writes a dirty victim back and unmaps it |
| Pager.Pager.HandleFault | 05. Virtual Memory/main.c:41-162 | the handler, updating its arrays and counters in place, takes the machine exactly one fault further |
| Pager.Pager.Touch | 05. Virtual Memory/page_table.c:33-55 | the hardware enters the handler until the access is permitted |
| Pager.Pager.Load | 05. Virtual Memory/page_table.c:33-55 | returns the flat array's byte, changes no byte of it and faults at most once |
| Pager.Pager.Store | 05. Virtual Memory/page_table.c:33-55 | replaces one byte of the flat array and faults at most twice |
| LogMeter.ProgramLog | 05. Virtual Memory/program.c:94-113 | the length of the FIFO log at the end of delta, from the sweeps alone |
| LogMeter.UpFails | 05. Virtual Memory/main.c:57-60 | a sweep that finds the page log full belongs to a program whose loads do not fit in it |
| Programs.TryLoad | 05. Virtual Memory/program.c:105 | one load through the handler; it is refused, with nothing changed, exactly where the handler would write past its page log |
| Programs.TryStore | 05. Virtual Memory/program.c:100 | one store, likewise |
| Programs.Fill | 05. Virtual Memory/program.c:99-101 | the write loop leaves the low byte of every address in memory and the page log of one upward sweep |
| Programs.SumUp | 05. Virtual Memory/program.c:104-106 | the upward loop adds every byte, modulo 2^32, changes none, and leaves the page log of an upward sweep |
| Programs.SumDown | 05. Virtual Memory/program.c:107-109 | the downward loop, which stops before byte 0, adds the same, because byte 0 is 0, and leaves the page log of a downward sweep |
| Programs.Round | 05. Virtual Memory/program.c:103-110 | one round adds 1044480 * npages |
| Programs.DeltaProgram | 05. Virtual Memory/program.c:94-113 | the program, run on the machine with its arrays, returns 10444800 * npages modulo 2^32 under every policy and every random stream; under fifo it gets to its end exactly when the closed form of its loads fits in the 4096 slots, under rand always |
| Jobs.RemoveOutcome | 04. Job Scheduler/jobs.h:177-216 | removal succeeds exactly when the job is in the list and not running, answers -1 exactly for a running job that is not the head, 1 in all other cases, and then leaves the list alone; no running job and no other job is lost |
| Jobs.RemoveExactly | 04. Job Scheduler/jobs.h:177-216 | the list and the code that removal leaves, for each place and state of the job and for a job that is not there |
| Jobs.RefusedExactly | 04. Job Scheduler/jobs.h:184-207 | removing a running job answers -1 exactly when it is not the head; at the head the answer is that for a job that is not there |
| Jobs.RunningHead | 04. Job Scheduler/jobs.h:184-203 | a list on which that happens |
| Jobs.RemoveAt | 04. Job Scheduler/jobs.h:184-214 | a successful removal takes out one job, the one with that id, and keeps the order of the others |
| Jobs.CountNone | 04. Job Scheduler/jobs.h:138-148 | the counters are 0 exactly when no job is in that state |
| Jobs.CountsPositions | 04. Job Scheduler/jobs.h:138-148 | the counters are the numbers of positions of the list that hold a running or a waiting job |
| Scheduler.EditCases | 04. Job Scheduler/jobs.h:67-216 | any step leaves the list alone, appends a new job, drops one job that is not running, launches the first waiting job below the limit, or finishes the running job of the pid that exited |
| Scheduler.ChildIsRunning | 04. Job Scheduler/jobs.h:121-137 | job_complete finds exactly the running job of the child that exited, so no completion is lost |
| Scheduler.RunningStep | 04. Job Scheduler/jobs.h:138-168 | the number of running jobs goes up by one at a launch, down by one at an exit, and stays put at every other step |
| Scheduler.StepKeepsSleep | 04. Job Scheduler/jobs.h:84-91 | no step leaves a thread asleep on a condition that has become true |
| Scheduler.StepKeepsInv | 04. Job Scheduler/jobs.h:46-216 | every step of every thread keeps ids increasing, waiting jobs last, launches in order, pids distinct and the limits |
| Scheduler.InitInv | 04. Job Scheduler/jobs.h:36-43 | the freshly created queue satisfies it |
| SchedulerSteps.SelectExactly | 04. Job Scheduler/jobs.h:149-174 | all ways through the critical section, with the whole new state: nothing at an empty list before waiting, asleep exactly when all slots are taken, the null head after waiting, back to the loop when no job waits, or the first waiting job launched |
| SchedulerSteps.SelectReturns | 04. Job Scheduler/jobs.h:149-174 | an awake scheduler goes back to its loop or to sleep unless it reads through the null head |
| SchedulerSteps.SubmitExactly | 04. Job Scheduler/jobs.h:46-82 | a new job goes to the end, waiting, with the next id, pid and exit status -1, and nothing else changes |
| SchedulerSteps.SetLimitExactly | 04. Job Scheduler/jobs.h:84-91 | a positive limit is set and the sleeping scheduler woken; any other changes nothing |
| SchedulerSteps.ExitExactly | 04. Job Scheduler/jobs.h:121-137 | the first job with the pid is DONE with the status and all sleepers are woken; without such a job only the child is gone |
| SchedulerSteps.KilledExactly | 04. Job Scheduler/jobsched.c:28-30 | a child that did not exit leaves its job as it is |
| SchedulerSteps.RemovalExactly | 04. Job Scheduler/jobsched.c:165-169 | removing changes the list only, and ends the shell on -1 |
| SchedulerSteps.DrainExactly | 04. Job Scheduler/jobsched.c:190-199 | drain sleeps on the first job, from where it is, that is not DONE, and returns when there is none |
| SchedulerSteps.SpuriousExactly | 04. Job Scheduler/jobs.h:156-158 | a sleeper may wake by itself and is then where a broadcast would have it |
| SchedulerSteps.StepsExactly | 04. Job Scheduler/jobsched.c:24-39 | which steps are possible: commands at the prompt, the scheduler unless it sleeps, with a pid never given before, the exit of any live child, a sleeper's wakeup |
| SchedulerSteps.StartExactly | 04. Job Scheduler/jobs.h:36-50 | the initial state: no job, limit 1, ids from 1 |
| SchedulerRuns.ReachableInv | 04. Job Scheduler/jobs.h:36-216 | it holds in every reachable state, over all interleavings |
| SchedulerRuns.NoLostWakeup | 04. Job Scheduler/jobs.h:156-158 | in every reachable state a sleeping scheduler has running >= njobs >= 1 and a sleeping drain looks at a job that is not DONE |
| SchedulerRuns.StartOrder | 04. Job Scheduler/jobs.h:159-169 | jobs are started in submission order over every run with arbitrary removals, and no waiting job precedes a started one in the list |
| SchedulerRuns.PeakLimit | 04. Job Scheduler/jobs.h:156-168 | the number of running jobs never exceeds the largest limit ever set |
| SchedulerRuns.LimitHolds | 04. Job Scheduler/jobs.h:84-91 | if the limit is never lowered it is never exceeded |
| SchedulerRuns.LimitBrokenExactly | 04. Job Scheduler/jobs.h:84-91 | a step goes over the limit exactly when it lowers the limit below the number of running jobs |
| SchedulerRuns.LimitKept | 04. Job Scheduler/jobs.h:84-91 | in every run in which no njobs command goes below the number of jobs then running, the limit is kept at every point |
| SchedulerRuns.OverLimitRun | 04. Job Scheduler/jobs.h:84-91 | a run from the empty queue that ends with two jobs running under limit 1 |
| SchedulerRuns.JobsMoveForward | 04. Job Scheduler/jobs.h:94-137 | each job moves only from WAIT to RUN to DONE, one stage a step, and a running job never leaves the list |
| SchedulerRuns.DrainSpine | 04. Job Scheduler/jobsched.c:186-199 | while the shell drains, the list keeps its jobs and their order |
| SchedulerRuns.DrainEnds | 04. Job Scheduler/jobsched.c:190-199 | drain returns only with every job of the list DONE |
| SchedulerRuns.MeasureStep | 04. Job Scheduler/jobs.h:121-168 | 2 * waiting + running falls by exactly one at each launch, with or without a successful fork, and at each completion, and only submissions and removals move it otherwise |
| SchedulerRuns.Progress | 04. Job Scheduler/jobs.h:149-174 | while it is positive, every running job has its child and the null head is not about to be read, the exit of a child or a launch with a successful fork is possible; a waiting job and a free slot always find the scheduler awake |
| SchedulerRuns.ProgressBound | 04. Job Scheduler/jobs.h:121-174 | any run without submissions and removals contains as many launches and completions as the measure drops |
| SchedulerRuns.RunsDry | 04. Job Scheduler/jobs.h:149-174 | from any healthy state all jobs can be finished in exactly that many exits and launches |
| SchedulerRuns.StepKeepsHealthy | 04. Job Scheduler/jobs.h:94-137 | every step but a failed fork and a killed child, commands included, leaves each running job with its live child |
| SchedulerRuns.ReachableHealthy | 04. Job Scheduler/jobs.h:94-216 | in every run from the empty queue whose forks succeed and whose children exit, each running job has its live child |
| SchedulerRuns.ReachableProgress | 04. Job Scheduler/jobs.h:149-174 | no state that such a run reaches with work left is stuck, unless the shell has quit or the null head is about to be read |
| SchedulerRuns.ReachableRunsDry | 04. Job Scheduler/jobs.h:149-174 | from every such state all jobs can be finished, in as many steps as the measure says |
| SchedulerRuns.DrainReturns | 04. Job Scheduler/jobsched.c:193-198 | once all work is done a drain has returned or returns when it next runs |
| SchedulerRuns.CrashExactly | 04. Job Scheduler/jobs.h:153-160 | a step reads through a null head exactly when a woken scheduler runs with an empty list |
| SchedulerRuns.DoomExactly | 04. Job Scheduler/jobs.h:184-191 | that state is entered exactly by removing the only job, not running, after the scheduler was woken and before it runs |
| SchedulerRuns.CrashingRun | 04. Job Scheduler/jobs.h:156-160 | a run from the empty queue that ends there |
| JobQueue.Node.constructor | 04. Job Scheduler/jobs.h:46-64 | a new job waits, with pid and exit status -1 |
| JobQueue.Queue.constructor | 04. Job Scheduler/jobs.h:36-43 | an empty list with limit 1, the monitor's initial state |
| JobQueue.Queue.QueueJob | 04. Job Scheduler/jobs.h:67-82 | appends the node to the linked list, as the monitor's submit step does |
| JobQueue.Queue.SetNjobs | 04. Job Scheduler/jobs.h:84-91 | takes the monitor through its njobs step, and broadcasts exactly when that step wakes a sleeper |
| JobQueue.Queue.NumJobsRunning | 04. Job Scheduler/jobs.h:138-148 | counts the running jobs of the list |
| JobQueue.Queue.JobComplete | 04. Job Scheduler/jobs.h:121-137 | marks the first job with that pid DONE and broadcasts, or answers 2 and changes nothing; for a live child it is the monitor's exit step, and broadcasts exactly when that step wakes a sleeper |
| JobQueue.Queue.FirstWaiting | 04. Job Scheduler/jobs.h:159-166 | finds the first waiting job, if any |
| JobQueue.Queue.RunJob | 04. Job Scheduler/jobs.h:94-119 | the job becomes RUN in every case; its pid is recorded when the fork succeeded |
| JobQueue.Queue.SelectJob | 04. Job Scheduler/jobs.h:149-174 | one critical section on the linked list is one scheduler step of the monitor: it sleeps, meets the null head, or returns to the loop exactly as the step does, with 0 exactly after a launch whose fork succeeded |
| JobQueue.Queue.FindBehindHead | 04. Job Scheduler/jobs.h:194-199 | finds the first node behind the head with the id, by the node before it |
| JobQueue.Queue.RemoveJob | 04. Job Scheduler/jobs.h:177-216 | the linked list and the return code are those of removal on the sequence of jobs, and of the monitor's remove step, after which a negative code ends the shell |
| JobQueue.Queue.DrainScan | 04. Job Scheduler/jobsched.c:190-198 | the drain loop stops at the first job that is not DONE |
| Bands.BandsTile | 03. Parallel Programming/fractaltask.c:136-142 | every row lies in exactly one band, also with more bands than rows |
| Bands.BandsAdjoin | 03. Parallel Programming/fractaltask.c:138-142 | every band has height / k rows, the last one the remainder too, and they meet end to end from row 0 to the last row |
| Bands.BandInside | 03. Parallel Programming/fractaltask.c:138-142 | no band reaches outside the image |
| Renderer.MakeTasks | 03. Parallel Programming/fractaltask.c:135-152 | the loop leaves the list of all bands, the last one in front |
| Renderer.InitialExactly | 03. Parallel Programming/fractaltask.c:22-24 | the start: any positive number of tasks, the list of their bands, label 1 next, the lock free, any number of workers, any picture |
| Renderer.InitialInv | 03. Parallel Programming/fractaltask.c:154-166 | with all tasks listed and all workers at the start nothing counts as painted |
| Renderer.PopKeeps | 03. Parallel Programming/fractaltask.c:199-209 | taking a task hands its band to one worker only |
| Renderer.PaintKeeps | 03. Parallel Programming/fractaltask.c:227-242 | painting one pixel settles that pixel with its own colour and no other |
| Renderer.StepKeepsInv | 03. Parallel Programming/fractaltask.c:188-249 | every step of every worker keeps the invariant |
| Renderer.EnabledExactly | 03. Parallel Programming/fractaltask.c:199 | only a held lock can stop an unfinished worker; painters never leave the image |
| RendererRuns.CompletedIsSequential | 03. Parallel Programming/fractaltask.c:188-249 | every completed run, for any number of workers and tasks and any interleaving of pixels, has painted the image of the sequential renderer |
| RendererRuns.TasksAreExclusive | 03. Parallel Programming/fractaltask.c:201-206 | in every reachable state two painting workers have different task labels and share no row |
| RendererRuns.LabelExactly | 03. Parallel Programming/fractaltask.c:201-222 | a worker with label l paints band k - l, whose first and last row are given, and stays inside it |
| RendererRuns.StepBurns | 03. Parallel Programming/fractaltask.c:196-246 | each step lowers a measure of the work left |
| RendererRuns.RunsAreFinite | 03. Parallel Programming/fractaltask.c:196-246 | no run is longer than the measure at its start |
| RendererRuns.SomeRunCompletes | 03. Parallel Programming/fractaltask.c:188-249 | with any positive number of workers some run completes |
| RendererRuns.PairNeverSticks | 03. Parallel Programming/fractaltask.c:196-205 | with at most two workers no run gets stuck, although a worker may exit holding the lock |
| RendererRuns.ThreeCanStick | 03. Parallel Programming/fractaltask.c:200 | with three or more workers some run ends with a worker waiting for a lock that nobody gives back |
| RendererRuns.StuckExactly | 03. Parallel Programming/fractaltask.c:200 | a run can get stuck exactly when there are three or more workers |
| RendererRuns.ThreadsExactly | 03. Parallel Programming/fractalthread.c:202-228 | the start of the renderer with one thread per band: thread w at the first pixel of band w |
| RendererRuns.ThreadsAreSequential | 03. Parallel Programming/fractalthread.c:202-228 | the renderer with one thread per band paints the sequential image too, in every interleaving |
| Bitmaps.Bitmap.constructor | 03. Parallel Programming/bitmap.c:14-31 | a buffer of width times height cells |
| Bitmaps.Bitmap.Reset | 03. Parallel Programming/bitmap.c:39-45 | every cell gets the value |
| Bitmaps.Bitmap.Wrap | 03. Parallel Programming/bitmap.c:49-52 | the four loops take both coordinates modulo the size, for every sign |
| Bitmaps.Bitmap.Get | 03. Parallel Programming/bitmap.c:47-55 | the pixel at the wrapped coordinates |
| Bitmaps.Bitmap.Set | 03. Parallel Programming/bitmap.c:57-65 | changes the pixel at the wrapped coordinates and no other |
| Bitmaps.RowsUpdate | 03. Parallel Programming/bitmap.c:64 | different pixels have different cells |
| Bitmaps.PaintRows | 03. Parallel Programming/fractaltask.c:227-242 | a worker's loops paint the rows of the band and leave the other rows as they were |
| Bitmaps.ComputeImage | 03. Parallel Programming/fractal.c:62-85 | the sequential renderer paints every pixel with its own colour |
| Bmp.SplitJoin | 03. Parallel Programming/bitmap.h:18 | joining the bytes of a colour gives the colour, opaque; the three bytes are 0 exactly when the colour is black |
| Bmp.JoinSplit | 03. Parallel Programming/bitmap.h:18-38 | the four masks undo the join |
| Bmp.LittleRoundTrip | 03. Parallel Programming/bitmap.c:82-100 | a header field that fits its bytes is read back from them |
| BmpLayout.ByteHalves | 03. Parallel Programming/bitmap.c:82-100 | a byte is read as a binary number |
| BmpLayout.LittleExactly | 03. Parallel Programming/bitmap.c:82-100 | fields of two and four bytes have their lowest byte first, modulo the size |
| BmpLayout.ColourExactly | 03. Parallel Programming/bitmap.h:18-38 | alpha is the highest byte of a colour, then red, green and blue, for joining and for splitting |
| Bmp.LoadAfterHeader | 03. Parallel Programming/bitmap.c:164-185 | a written header is accepted and gives back width and height, whatever follows it |
| Bmp.PadExactly | 03. Parallel Programming/bitmap.c:130-131 | padding is less than four bytes, rounds the row up to a multiple of four, and is empty exactly for widths divisible by four |
| BmpLayout.HeaderExactly | 03. Parallel Programming/bitmap.c:112-127 | all fifteen fields of a saved file at their places, in literal bytes where they do not depend on the size |
| BmpLayout.LinesFit | 03. Parallel Programming/bitmap.c:129-145 | the size of a saved file, and the place of each line in it |
| BmpLayout.PixelsExactly | 03. Parallel Programming/bitmap.c:135-145 | each pixel is at its place in its line, blue first, and the padding repeats the line from its start |
| BmpLayout.LoadExactly | 03. Parallel Programming/bitmap.c:164-196 | which files are refused, by the first two bytes and by the fields for compression and bits alone; the size read from the others |
| BmpLayout.PastTheEnd | 03. Parallel Programming/bitmap.c:185-195 | a pixel past the end of the file is -1; any other is black with alpha 0 or its three bytes with alpha 255 |
| BmpLayout.FitsExactly | 03. Parallel Programming/bitmap.c:115-123 | the sizes that the round trip is about |
| Bmp.LoadSave | 03. Parallel Programming/bitmap.c:102-199 | loading what was saved gives the same size and the same red, green and blue everywhere, alpha 0 for black and 255 otherwise, for widths divisible by four and for single rows |
| Bmp.SurviveExactly | 03. Parallel Programming/bitmap.c:184-195 | every picture of a size survives saving and loading exactly when the width is divisible by four or there is one row |
| Bmp.PaddingIsRead | 03. Parallel Programming/bitmap.c:184-189 | for the other sizes the reader returns, as the first pixel of the second row, one with the blue of the first pixel of the first row, taken from the padding |
| Bmp.SpotIsLost | 03. Parallel Programming/bitmap.c:144 | a picture of each such size that does not survive |
| Bmp.SaveForgetsAlpha | 03. Parallel Programming/bitmap.c:135-145 | a picture and its opaque copy have the same file, for every size |
| Bmp.SaveLoadSave | 03. Parallel Programming/bitmap.c:102-199 | saving again what was loaded gives identical bytes |
| Bmp.ScanRow | 03. Parallel Programming/bitmap.c:136-142 | fills the scanline with blue, green, red of each pixel |
| Bmp.SaveBitmap | 03. Parallel Programming/bitmap.c:102-151 | writes the header and the padded rows of the bitmap |
| Bmp.LoadBitmap | 03. Parallel Programming/bitmap.c:153-199 | reads back a bitmap, or none from a file that is not a plain 24-bit BMP |
| SimpleFs.PutGetInode | 06. File Systems/fs.c:34-39 | writing one inode of a block leaves the other inodes as they were |
| FsWords.InodeWords | 06. File Systems/fs.c:26-37 | inode j is the eight words from 8 * j on, in the order valid, size, five direct blocks, indirect block |
| FsWords.FileBlocksExactly | 06. File Systems/fs.c:162-177 | a file has the least number of blocks of 4096 bytes that hold it |
| FsWords.UsedExactly | 06. File Systems/fs.c:154-185 | a block is used exactly when the words of some valid inode in blocks 1 up to, but without, word 2 of the superblock refer to it: as its own block, a direct block, the indirect block or a word of it, each within the size |
| SimpleFs.MarksAreUsed | 06. File Systems/fs.c:154-185 | the blocks met by the nested loops are exactly those that some scanned valid inode refers to: its own block, its data blocks, its indirect block |
| FsWords.MapExactly | 06. File Systems/fs.c:147-187 | the map of a mount has 1 at exactly those blocks and 0 elsewhere |
| FsWords.SoundExactly | 06. File Systems/fs.c:146-185 | the disks that mounting can scan, in words |
| SimpleFs.SoundFits | 06. File Systems/fs.c:162-177 | a file has more than five blocks exactly when it is longer than five blocks' bytes, and then its pointers fit the indirect block |
| SimpleFs.MountedNextFree | 06. File Systems/fs.c:411-425 | after a mount getNextBlock returns the least block past the inode table that no scanned inode refers to, and -1 exactly when all are referred to |
| SimpleFs.HandsOutReferred | 06. File Systems/fs.c:154 | mounting and taking a block hands out one that some valid inode of the table refers to exactly when the least block past the table that no scanned inode refers to is one that an inode of the last inode block does |
| SimpleFs.EmptyLastBlockIsSafe | 06. File Systems/fs.c:154 | it never does while the last inode block holds no valid inode |
| SimpleFs.LostFile | 06. File Systems/fs.c:154 | a disk on which that happens |
| FsRuns.FormattedIsEmpty | 06. File Systems/fs.c:41-70 | after formatting no block is in use, whatever the disk held |
| FsWords.FormatExactly | 06. File Systems/fs.c:49-67 | every word that formatting writes: the magic number, the number of blocks, a tenth of it rounded up, 128 inodes for each, and zeros in all inode blocks but the last; all other words stay |
| FsRuns.FirstBlockAfterFormat | 06. File Systems/fs.c:52-57 | format, mount and take a block: the first one after the inode table, if there is one |
| FsRuns.NumberRoundTrip | 06. File Systems/fs.c:190-193 | the number of an inode leads back to its block and slot exactly when it is not the first of its block |
| FsWords.SearchExactly | 06. File Systems/fs.c:208-229 | the search ends at the least invalid inode of the first block with one that it gets to, before a block that word 2 of the block read before excludes, or with a read past the disk |
| FsWords.CreateExactly | 06. File Systems/fs.c:229-241 | creating writes eight words, marks one block and answers 128 * (block - 1) + slot, or changes nothing and answers 0 |
| FsWords.DeleteExactly | 06. File Systems/fs.c:251-280 | deleting answers 1 exactly for a valid inode in bounds and then clears its eight words; otherwise it changes nothing and answers 0 |
| FsWords.SafeExactly | 06. File Systems/fs.c:146-188 | the condition that runs of creations and deletions keep, in words |
| FsRuns.CreateStaysInFirst | 06. File Systems/fs.c:208-243 | when inode 0 holds no block, creation gives the least invalid inode among 1 .. 127 and fails exactly when these are all valid |
| FsRuns.RefersAfter | 06. File Systems/fs.c:229-238 | creating or deleting an inode adds no reference but the one of a new inode to its own block |
| FsRuns.StepKeepsSafe | 06. File Systems/fs.c:195-280 | creation and deletion, of any number but 0, keep every used block marked, and touch no mark past the inode table |
| FsRuns.StepSafeExactly | 06. File Systems/fs.c:251-280 | a step breaks what those runs keep exactly when it deletes number 0 while the first word of the superblock is not 0 |
| FsRuns.RunNeverHandsOutUsed | 06. File Systems/fs.c:195-280 | over every run of creations and deletions, of any number but 0, on a mounted disk the next free block is one that no scanned inode refers to, and always the same one, because deletion gives none back |
| FsRuns.MountCovers | 06. File Systems/fs.c:136-188 | the map that mounting computes leaves no used block unmarked |
| FsRuns.RemountFreesOnly | 06. File Systems/fs.c:136-188 | mounting again after a run only frees blocks |
| FsRuns.CreateThenDelete | 06. File Systems/fs.c:251-280 | an inode just created can be deleted by its number, and the disk is as before if the inode was blank |
| FsRuns.DeleteZeroExactly | 06. File Systems/fs.c:251-275 | deletion leaves the superblock alone exactly when the number is not 0 or the first word of the superblock is 0 |
| FsRuns.DeleteZeroThenTake | 06. File Systems/fs.c:411-425 | after deleting number 0 a freshly formatted and mounted disk hands out its first inode block |
| FsRuns.FormattedIsSafe | 06. File Systems/fs.c:62-67 | formatting and mounting eleven blocks or more establishes it too, with all inodes free |
| FsRuns.FormattedCapacity | 06. File Systems/fs.c:208-212 | on a disk of eleven blocks or more formatted and mounted by the program, creation after any run that does not delete number 0 gives a number of 1 .. 127 or fails with all these taken, however many inodes the superblock announces |
| FsRuns.FormattedCounts | 06. File Systems/fs.c:195-244 | on such a disk creating over and over gives 1, 2, .. 127 and then nothing |
| FileSystem.FileSystem.Format | 06. File Systems/fs.c:41-70 | refuses a mounted disk; otherwise writes the superblock and clears all inode blocks but the last |
| FileSystem.FileSystem.ScanInode | 06. File Systems/fs.c:159-182 | marks the inode's block, its direct blocks, its indirect block and the blocks listed there |
| FileSystem.FileSystem.ScanBlock | 06. File Systems/fs.c:155-184 | marks what the 128 inodes of a block refer to |
| FileSystem.FileSystem.Mount | 06. File Systems/fs.c:136-188 | the map marks a block exactly when a scanned inode refers to it |
| FileSystem.FileSystem.GetNextBlock | 06. File Systems/fs.c:411-425 | the least free block past the inode table or -1; the map is not changed |
| FileSystem.FileSystem.FindSlot | 06. File Systems/fs.c:215-229 | the first invalid inode of a block, never number 0 |
| FileSystem.FileSystem.Create | 06. File Systems/fs.c:195-244 | takes the inode found, marks its block and returns its number; 0 when nothing is mounted or the search ends |
| FileSystem.FileSystem.Delete | 06. File Systems/fs.c:251-280 | clears a valid inode; 0 when it is out of bounds or not valid |
| FileSystem.FileSystem.GetSize | 06. File Systems/fs.c:282-307 | the size of a valid inode, -1 otherwise |

## Left out

Paged memory
- Memory mapping, signals and remap_file_pages: the page-table entry is the model, and an access retries until the entry permits it. PROT_EXEC is never used.
- rand(): in the functions the victim is any page that passes the exit test; in `Pager` the random numbers are a parameter, and the loop is proved to end when the stream offers such a page.
- Pager.Pager.Load: requires room in the 4096 slots of the log in use when the page is not resident, and `Pager.constructor` requires nframes <= 1024, because the program writes past its arrays otherwise. `FlatMemory` has neither bound.
- Programs.DeltaProgram: under the custom policy, whose loads depend on the random numbers, it is proved to get to its end when 21 * npages <= 4096, which is sufficient but not necessary. Each access draws from its own random stream, in which every page number comes up.
- An unknown policy name, which ends the program at the first eviction, and the checks of the command line in main.
- The costs of gamma, and of alpha and beta beyond the initial write scan, which is that of `ScanCost.WriteScanCost`: sorting, random stores and gamma's two interleaved scans add no new behaviour of the handler. `FlatMemory` covers their accesses.
- The cost of delta under rand and custom, which depends on the random numbers.

Job scheduler
- Reading commands, the status and wait commands, output files and exec.
- The signal handler is a step taken when the mutex is free, once per child; coalesced signals, a handler that interrupts a thread holding the mutex, and a wait() that fails are not modelled. Process ids are not reused.
- SchedulerRuns.Progress: assumes that every running job has a live child, which `ReachableHealthy` proves for all runs without failed forks and killed children; such a job stays RUN for ever in the program. Safety is proved with both.
- Fairness of the thread scheduler: progress is proved as possible at every moment and bounded in number, not as inevitable.

Renderer and BMP
- Complex arithmetic: the colour of a pixel is a function of its coordinates. The float products of the band bounds are exact integers here, as they are for images of up to 2^24 rows. Task counts below 1 are not modelled.
- RendererRuns.CompletedIsSequential: is about completed runs with at least one worker; which runs can fail to complete is `RendererRuns.StuckExactly`.
- Opening files and failing writes; files shorter than the 54-byte header; header sizes that are negative as 32-bit integers or whose pixels do not fit in memory.
- Bmp.LoadSave: is for pictures with width * height * 3 below 2^31, beyond which the program's own int products overflow.
- Bitmaps.Bitmap.Get: requires a positive size, because the program's loops do not end otherwise.

SimpleFS
- fs_read, fs_write and fs_debug. fs_write stores no indirect pointer, marks the wrong entry of the map and stops copying at a zero byte, so reading back what was written is not a property of this code.
- FileSystem.FileSystem.Mount: requires that scanned inodes hold block numbers of the disk, because the program indexes its map with them unchecked; reading a block number outside the disk aborts the program. The magic number is not looked at, as in the program.
- FileSystem.FileSystem.Create: requires that the search ends inside the disk and the map, the program aborting or writing outside its map otherwise.
- FileSystem.FileSystem.Delete: requires an inode number that is not negative and whose block is on the disk.
- FsRuns.RunNeverHandsOutUsed: assumes that no indirect block lies in the inode table and that inode 0 holds no block past 1, without which creation takes other blocks for inode blocks, and that number 0 is not deleted (`StepSafeExactly`).
- FsRuns.FormattedCapacity: assumes the same of number 0, and at least eleven blocks; on fewer, formatting clears no inode block, and which inodes are free depends on what the disk held.
- The counts of disk reads and writes.
