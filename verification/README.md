# Four tick-by-tick CPU schedulers

A parent process reads a table of processes (release time, execution time) and plays the CPU scheduler
for them: once per unit of time it reaps the child that finished, forks the children that are due,
decides who runs, takes one off that process's counter and advances the clock. The repository has four
such loops: FIFO, round robin with a quantum of 500 (RR), non-preemptive shortest job first (SJF) and
preemptive shortest job first (PSJF). This project models the four loops and proves what their
schedules have in common, what each of them computes, and how they compare.

## How it is organised

A *schedule* (`Schedules.dfy`) is the list of what held the CPU in each tick, -1 for an idle tick.
Counters, who is running and when the running block began are functions of the jobs and of the ticks so
far. `MayRun` says for each policy, declaratively, what the next tick may be, and `Obeys` that a whole
schedule was filled that way; two schedules of the same length that obey the same policy are equal
(`PolicyIsDeterministic`). `AnyValid` stands for every legal single-CPU schedule, whoever produced it.

- `Processes.dfy`: the process table as an array of rows, the operating-system calls, sorting, releases.
- `Fifo.dfy`, `Sjf.dfy`, `RoundRobin.dfy`, `Psjf.dfy`: the loops, one class each, updating the table in
  place. Each `Run` promises that the ghost trace of the run obeys its policy, that it stops at the first
  clock value at which everything has finished, and which children there are: under FIFO, SJF and RR exactly
  the running child was outside the idle class in every tick, in the class it was woken into, and all
  children are waited for; under PSJF one child has been forked for each row and no other. `TickLoop.dfy`
  holds the invariant that FIFO, SJF and RR share.
- `Workload.dfy`, `Optimality.dfy`, `Accounting.dfy`, `Reordering.dfy`, `Termination.dfy`: theorems about
  all policies. `FifoTheory.dfy`, `SjfTheory.dfy`, `PsjfTheory.dfy`, `RoundRobinTheory.dfy`: theorems
  about one.
- `AnyTable.dfy`: the four loops on tables that promise nothing, by the columns and the finish counter that
  the code tests, and for which tables they end. On good tables these rules and `Obeys` are the same.

## Main results

- PSJF is optimal: at every clock value it has finished at least as many processes as any valid schedule,
  and its total completion time and total waiting time are least. This holds from one input although PSJF
  does not sort its table and the others do (`PsjfFinishesMost`, `FourPoliciesOnSameInput`, `PsjfWaitsLeast`).
- Unfinished released work is the same under all four loops at every clock value, and they exit together
  (`PendingIsBacklog`, `SamePendingOnSameInput`, `FourPoliciesOnSameInput`).
- Under RR a process loses the CPU after a multiple of 500 ticks with another process live, or when it has
  finished, and at no other tick (`BlocksAreQuanta`). No stretch of ticks in which a released, unfinished
  process does without the CPU is longer than (n-1)^2 times 500, whatever arrives or finishes meanwhile
  (`BoundedWaiting`).
- The SJF loop is an event-driven scheduler in disguise (`SjfIsEventDriven`), and the FIFO loop a closed
  form (`FifoClosedForm`, `FifoCompletion`).
- RR with jobs of at most 500 ticks is FIFO; SJF with equal release times is PSJF.
- PSJF switches at most 2n - 1 times (`FewSwitches`).
- For every table, whatever is in it, the loops come to their exit exactly under the conditions listed
  next (`LoopExitsIff`).
- On a table with a zero-length process PSJF starves all others: once that process is released, nothing
  with work left runs again (`ZeroLengthStarvesTheRest`).

## What the loops need of their input

FIFO, SJF and RR come to their exit exactly when there is at least one process, no release time is
negative (a release tests for equality with a clock that starts at 0) and no execution time is below 1.
PSJF does exactly when no release time is negative, no execution time is below 1 (a counter that starts
at 0 or less never reads 0 after a decrement, so its mark is never cleared) and no row but the first is
above 2147483646, one less than the sentinel that the search starts from; the first row is what the search
answers when it sees nothing, so there it does no harm. `AnyTable.LoopExitsIff` proves this for all tables,
of PSJF on the assumption that no row is marked at the start. `FoundOnAnyTable` and `AnyTurn` tie the rules
it is about to what the search methods return on such tables.

main.c:36 leaves the `waiting` column uncleared, and PSJF never clears it either. `PsjfLoop.Run` assumes that
a row that happens to hold 1 there is due at clock value 0; this is sufficient, not necessary. Forks succeed.

Where code and text disagree the code is followed. RR prints "Average waiting time", but what it adds up
is turnaround: the `exec` it subtracts is the remaining counter, 0 by then. `RoundRobinLoop.Run` and
`TotalTurnaround` say exactly by how much the two differ. The repository's README.md says that the table
is sorted by release time first; PSJF does not sort.

## Model

| member | source | states |
|---|---|---|
| Schedules.PolicyIsDeterministic | PSJF.c:32-85 | each policy fixes the schedule: same policy, jobs and length give the same ticks |
| Schedules.ObeysMeans | FIFO.c:120-153 | obeying a policy is, tick by tick, choosing as the policy says after the ticks before |
| Schedules.PolicyIsWorkConserving | RR.c:189-232 | no policy idles while a released process is unfinished, and every choice is released and unfinished |
| Schedules.ValidCounters | FIFO.c:150-152 | no counter goes negative and nothing runs before its release |
| Schedules.FinishedStays | SJF.c:104-121 | a finished process stays finished |
| Schedules.BlockIsMaximal | RR.c:216-222 | the block that `time_last` dates is of one process and cannot be extended to the left |
| Workload.PendingIsBacklog | FIFO.c:120-153 | released unfinished work is the single-server backlog, whatever the policy |
| Workload.PendingAtLeastBacklog | SJF.c:100-253 | no valid schedule has less released work left than that |
| Workload.SamePendingWork | RR.c:189-232 | two policies on the same table have the same released work left at every clock value |
| Workload.DoneIffDrained | FIFO.c:121-127 | whether everything has finished depends on the clock value alone |
| Workload.SameExitClock | SJF.c:118-120 | all work-conserving loops exit at the same clock value |
| Workload.NotDoneSooner | PSJF.c:32-32 | no valid schedule finishes everything earlier |
| Workload.WorkIsConserved | FIFO.c:147-152 | every tick is idle or takes one unit off exactly one counter |
| Workload.IdleOnlyBeforeLastRelease | PSJF.c:50-84 | idle ticks before the end number at most the last release time |
| Workload.ClockBound | RR.c:230-230 | while work is left the clock is below the last release plus the total execution time |
| Workload.ExitClockBounds | FIFO.c:120-153 | the exit clock is between the total execution time and the last release plus it |
| Optimality.TickKeepsDominance | PSJF.c:50-82 | running the process with least left keeps PSJF ahead of any other choice for one tick |
| Optimality.ArrivalsKeepDominance | PSJF.c:34-47 | releases keep PSJF ahead |
| Optimality.ShortestLeftDominates | PSJF.c:32-85 | for every set of released processes some set of that size has no more left under PSJF than under any valid schedule |
| Optimality.PsjfFinishesMost | PSJF.c:32-85 | at every clock value PSJF has finished at least as many processes as any valid schedule |
| Optimality.CompletionIsFirstZero | RR.c:191-199 | completion is the first clock value at which the counter reads 0 |
| Optimality.TotalCompletionIsUnfinishedOverTime | RR.c:195-195 | completion times add up to the number of unfinished processes, summed over the ticks |
| Optimality.PsjfMinimisesTotalCompletion | PSJF.c:32-85 | PSJF has the least total completion time of all valid schedules |
| Accounting.TurnaroundSplits | RR.c:191-201 | completion minus release is ticks waited plus original execution time |
| Accounting.TotalTurnaround | RR.c:195-195 | what `wait` adds up exceeds the true total waiting time by the total execution time |
| Accounting.TotalWaiting | RR.c:234-235 | total waiting differs from total completion time by policy-independent amounts |
| Reordering.RenameObeys | FIFO.c:103-103 | a schedule of the sorted table is a schedule of the table as read, renamed |
| Reordering.RenameFinished | FIFO.c:103-103 | renaming keeps the number of finished processes |
| Reordering.RenamePending | SJF.c:74-74 | renaming keeps the released work left |
| Reordering.PsjfLeadsOnSameInput | PSJF.c:32-85 | from one input, unsorted PSJF leads every schedule of the sorted table in finished processes |
| Reordering.FourPoliciesOnSameInput | main.c:42-57 | from one input PSJF has the least total completion time and all four exit at the same clock value |
| Reordering.SamePendingOnSameInput | main.c:42-57 | from one input all four have the same released work left at every clock value |
| Reordering.PsjfWaitsLeast | main.c:42-57 | from one input PSJF has the least total of true waiting times |
| Termination.SomeTick | SJF.c:190-212 | every policy has a next tick to give after any past |
| Termination.RunToEnd | FIFO.c:120-153 | on good input every policy finishes everything |
| AnyTable.LoopsObey | FIFO.c:87-97 | on good tables the choice by pid, counter and mark is the choice of the policy, tick by tick |
| AnyTable.SamePsjfRule | PSJF.c:144-158 | the search from the sentinel finds the shortest even with a first row at the sentinel |
| AnyTable.ReapsCounts | FIFO.c:121-127 | on any table the finish counter is the number of processes of positive length that have been given all of it |
| AnyTable.PsjfRanMeansSeen | PSJF.c:144-158 | past the first row PSJF never runs a process with negative release or with a length at the sentinel |
| AnyTable.LoopExitsIff | FIFO.c:120-134 | on any table the loops reach their exit exactly under the conditions on the table given above |
| AnyTable.ZeroLengthStarvesTheRest | PSJF.c:50-82 | once a process of length 0 or less is released, PSJF never runs one with work left and is never idle |
| FifoTheory.FifoClosedForm | FIFO.c:87-153 | process k of the sorted table runs exactly from its start to its end by the closed form |
| FifoTheory.FifoCompletion | FIFO.c:101-153 | C_k = max(C_{k-1}, ready_k) + exec_k, and the clock stops at the last of them |
| FifoTheory.ShortJobsSamePick | RR.c:39-46 | with jobs of at most 500 ticks, RR and FIFO make the same choice after the same past |
| FifoTheory.ShortJobsMakeRoundRobinFifo | RR.c:29-49 | with jobs of at most 500 ticks, RR and FIFO run the same index in every tick |
| SjfTheory.NextSlot | SJF.c:190-212 | the event-driven scheduler dispatches a process not yet done, no earlier than now |
| SjfTheory.RunsToCompletion | SJF.c:190-192 | a dispatched process holds the CPU until it has run its execution time |
| SjfTheory.SjfIsEventDriven | SJF.c:100-253 | the ticks of the SJF loop are the rendering of the event-driven schedule |
| SjfTheory.RunsInOneBlock | SJF.c:190-192 | under FIFO and SJF the ticks of a process are one contiguous stretch |
| SjfTheory.SjfNeverPreempts | SJF.c:190-249 | each process runs its original time without interruption, and was shortest by original time when dispatched |
| PsjfTheory.PreemptsOnlyForArrival | PSJF.c:34-82 | an unfinished runner is displaced exactly when a process released now needs less, or as much with a lower index |
| PsjfTheory.StableBetweenReleases | PSJF.c:144-158 | without a release in between the chosen process keeps the CPU |
| PsjfTheory.TogetherMakesSjfPsjf | SJF.c:190-212 | with equal release times SJF and PSJF run the same index in every tick |
| PsjfTheory.TogetherMakesSjfOptimal | SJF.c:190-212 | with equal release times SJF has the least total completion time |
| PsjfTheory.SwitchesArePaidFor | PSJF.c:57-75 | every context switch is paid for by a release or a finish |
| PsjfTheory.LastRunMeans | PSJF.c:56-75 | what `pre_running` stands for: the process of the last tick that was not idle |
| PsjfTheory.SwitchesCounts | PSJF.c:57-58 | the count of switches is the number of ticks that go to another process than ran last |
| PsjfTheory.FewSwitches | PSJF.c:57-75 | a finished PSJF run of n processes has at most 2n - 1 such ticks |
| RoundRobinTheory.LosesOnlyAtQuantum | RR.c:39-46 | after a given past the runner is displaced exactly at a positive multiple of 500 with another live process, and then by the next in cyclic order |
| RoundRobinTheory.BlocksAreQuanta | RR.c:29-49 | at every tick of a run the process that has held the CPU since tick a loses it exactly when it has finished, or t - a is a multiple of 500 with another process live; and who follows |
| RoundRobinTheory.TurnComesNearer | RR.c:39-43 | a tick without a finish brings a waiting process's turn nearer |
| RoundRobinTheory.WaitRankFalls | RR.c:32-46 | so does any tick, with restarts at index 0 after a finish taken into account |
| RoundRobinTheory.BoundedWaiting | RR.c:189-232 | a stretch of ticks in which a process is live and others have the CPU is at most (n-1)^2 times 500 long |
| RoundRobinTheory.WaitsItsDistance | RR.c:39-43 | a stretch of that kind in which no process finishes is at most 500 ticks long per place it is ahead of the holder |
| RoundRobinTheory.SettledAtEnd | RR.c:195-195 | what reaping adds up is, at the end, the sum of completion minus release |
| RoundRobinTheory.LedgerDispatch | RR.c:216-222 | `time_last` is the start of the running block after every choice |
| Processes.Kernel.Fork | PSJF.c:96-123 | a child with a positive pid that no other child holds |
| Processes.Kernel.SetScheduler | FIFO.c:76-85 | the class of an existing child changes; for any other pid the call fails |
| Processes.Kernel.WaitPid | FIFO.c:122-122 | the child is gone |
| Processes.SortByReady | FIFO.c:27-31 | the table is permuted and sorted by release time |
| Processes.PrepareTable | RR.c:162-168 | the table is sorted and every row, name included, is an input row marked as not forked, each used once |
| Processes.ReleaseArrivals | RR.c:203-211 | on any table: exactly the rows due now get a pid, there is one new child for each, in the idle class, and nothing else changes |
| Processes.ForksKeepTrack | RR.c:203-211 | on good tables the children stay the unreaped processes, one of them awake |
| TickLoop.ReapOne | FIFO.c:121-127 | reaping counts one more finished process and removes its child; the last one ends the loop with everything finished |
| TickLoop.SwitchKeepsOneAwake | RR.c:217-219 | waking the next and putting the running one to sleep leaves exactly the next awake, in the class given |
| TickLoop.ForegroundIsRunning | RR.c:225-226 | while a unit of time passes the one child outside the idle class is that of the running process, in the class it was woken into |
| TickLoop.SpendUnit | RR.c:225-229 | the unit of time is logged with who was awake in which class, and only the counter of the runner changes |
| TickLoop.ColumnsRelease | FIFO.c:129-134 | on any table the pid column shows exactly the rows released so far |
| TickLoop.ColumnsTick | FIFO.c:121-152 | on any table the decrement, and the test for 0 that follows, are those of the loop rule |
| TickLoop.UnitPassed | RR.c:225-230 | a unit of time keeps the loop's invariant, with the chosen tick appended to the schedule |
| FifoScheduler.FifoLoop.NextProc | FIFO.c:87-97 | on any table: the running process, or the forked one with counter not 0 released earliest, or -1 |
| FifoScheduler.FoundIsPolicy | FIFO.c:87-97 | on good tables that is the choice of the FIFO policy |
| FifoScheduler.FoundOnAnyTable | FIFO.c:87-97 | on any table it is the choice of the loop rule |
| FifoScheduler.FifoLoop.Dispatch | FIFO.c:136-145 | after the choice the chosen process alone is awake, in SCHED_OTHER |
| FifoScheduler.FifoLoop.Reap | FIFO.c:121-127 | a finished runner is waited for and counted; the loop ends exactly with the last, when everything has finished |
| FifoScheduler.FifoLoop.RunUnit | FIFO.c:147-152 | the chosen process, if any, loses a unit, the clock advances, and the log shows it alone awake |
| FifoScheduler.FifoLoop.Loop | FIFO.c:120-153 | the loop ends, with a schedule that obeys FIFO and finishes everything at its last tick |
| FifoScheduler.FifoLoop.Run | FIFO.c:101-156 | the whole run obeys FIFO on a sorted permutation of the input, ends when everything has finished, in every tick the runner alone awake in SCHED_OTHER, all children reaped, names kept |
| SjfScheduler.SjfLoop.SelectNext | SJF.c:190-212 | on any table: the running process, or the leftmost forked one with the least counter not 0, or -1 |
| SjfScheduler.FoundIsPolicy | SJF.c:190-212 | on good tables that is the choice of the SJF policy |
| SjfScheduler.FoundOnAnyTable | SJF.c:190-212 | on any table it is the choice of the loop rule |
| SjfScheduler.SjfLoop.Dispatch | SJF.c:190-243 | after the choice the chosen process alone is awake, in SCHED_FIFO at priority 99 |
| SjfScheduler.SjfLoop.Loop | SJF.c:100-253 | the loop ends, with a schedule that obeys SJF and finishes everything at its last tick |
| SjfScheduler.SjfLoop.Run | SJF.c:69-255 | the same for SJF, the runner in SCHED_FIFO at priority 99 |
| RoundRobinScheduler.RoundRobinLoop.RrNext | RR.c:29-49 | on any table: the lowest index with work when the CPU is free, the next in cyclic order when the ticks held are a multiple of 500, else the running process |
| RoundRobinScheduler.FoundIsPolicy | RR.c:29-49 | on good tables that is the choice of the RR policy |
| RoundRobinScheduler.FoundOnAnyTable | RR.c:29-49 | on any table it is the choice of the loop rule |
| RoundRobinScheduler.RoundRobinLoop.ScanCycle | RR.c:40-43 | the cyclic scan ends and finds the first selectable index after the running one |
| RoundRobinScheduler.RoundRobinLoop.ScanFromStart | RR.c:32-38 | the first index with a pid and a positive counter, -1 when there is none |
| RoundRobinScheduler.RoundRobinLoop.Reap | RR.c:191-201 | as for FIFO, and `wait` has taken in the turnaround of the reaped process |
| RoundRobinScheduler.RoundRobinLoop.Dispatch | RR.c:214-223 | after the choice the chosen process alone is awake, in SCHED_OTHER, and `time_last` is the start of its block |
| RoundRobinScheduler.RoundRobinLoop.Loop | RR.c:189-232 | the loop ends, with a schedule that obeys RR and finishes everything at its last tick |
| RoundRobinScheduler.RoundRobinLoop.Run | RR.c:130-237 | the same for RR, the runner in SCHED_OTHER, and `wait` ends up as the sum of completion minus release |
| PsjfScheduler.SomeProcessIsReady | PSJF.c:161-171 | true exactly when some row is marked waiting |
| PsjfScheduler.FindMinIndex | PSJF.c:144-158 | the leftmost waiting row with the least counter of those up to 2147483646; 0 when there is none |
| PsjfScheduler.SearchIsPolicy | PSJF.c:50-52 | what the two searches find is the released unfinished process with the least left |
| PsjfScheduler.AnyRelease | PSJF.c:34-47 | on any table the releases set the marks of exactly the rows due now, work left or not |
| PsjfScheduler.AnyTurn | PSJF.c:50-82 | on any table, negative counters included, search, decrement and count are one tick of the loop and its finish counter |
| PsjfScheduler.ForkArrivals | PSJF.c:34-47 | exactly the rows due now get a fresh pid and are marked waiting, with one new child each, at priority 10, and no other child |
| PsjfScheduler.FamilyTick | PSJF.c:57-75 | the children stay the same through a tick, and their priorities move with the CPU: 10 for who has it or never had it, 90 for who lost it |
| PsjfScheduler.FamilyAtEnd | PSJF.c:32-85 | at the end there is one new child for each row and no other; the one that ran last is at priority 10, the rest at 90 |
| PsjfScheduler.SwitchTick | PSJF.c:54-75 | the two pids differ exactly when the process changes |
| PsjfScheduler.PsjfLoop.FindShortest | PSJF.c:50-52 | on any table: nothing if no row is marked, else the least candidate, else row 0 |
| PsjfScheduler.PsjfLoop.RunIndex | PSJF.c:54-81 | the row loses one unit, is unmarked and counted when it reaches 0, and becomes the last to have run; on a switch the last to have run goes to priority 90 and it to 10 |
| PsjfScheduler.PsjfLoop.RunShortest | PSJF.c:50-82 | one tick by the policy keeps table, counters and pids in step with the schedule |
| PsjfScheduler.PsjfLoop.Loop | PSJF.c:32-85 | the loop ends as soon as everything has finished |
| PsjfScheduler.PsjfLoop.Run | PSJF.c:19-87 | the whole run obeys PSJF on the table as read, ends when everything has finished, forks one child per row and no other, keeps the names |

## Left out

- The child's own busy loop and real elapsed time: wall-clock behaviour is not decided by the code, only the parent's counters are modelled.
- 32-bit wrap-around: integers are unbounded; `ExitClockBounds` bounds the clock by the last release plus the total execution time.
- What the kernel does with PSJF's priorities: PSJF.c:61-67 gives the displaced process the larger number, contrary to the bookkeeping. The calls and the classes they leave are modelled; which child the kernel then runs is not.
- Processes.SortByReady: stands in for qsort, which need not be stable; all that is used of it is that the table comes out permuted and sorted.
- FIFO.c:141 and RR.c:219 read the row before the first one when nothing is running; the call is modelled as having no effect in that case.
- Processes.Kernel.Fork: does not model a fork that fails, because then there is nothing to schedule: FIFO and RR leave the pid at -1 and wait forever, PSJF ends at the failing affinity call.
- PsjfScheduler.PsjfLoop.Run: does not cover a row that is marked in uncleared memory and due later than clock value 0; it can run before it is forked, and whether that does harm depends on the run.
- AnyTable.LoopExitsIff: assumes for PSJF that no row is marked in uncleared memory, for the same reason.
- SJF.c:241 sets `t_last`, which SJF never reads.
- Failing sched_setscheduler calls on live children, CPU affinity, getpid and exit.
- main.c input parsing and dispatch on the policy name, printing, the float average at RR.c:234, and the kernel files: input, output and plumbing.
