# Verification of the DRAM simulator and its SPARE-PIM controller

The project models the parts of the simulator whose correctness is not visible from one function body, and
proves what they are meant to guarantee.  Classes stand for the program's objects, with the same loops and
updates; ghost traces, logs and images are the simple things that the program's compressed state is measured
against.

| file | subject |
|---|---|
| `Timing.dfy` | the timing tree: ready clocks and bounded histories against the whole command trace |
| `Ddr4Rank.dfy`, `OpenRows.dfy`, `Ddr4.dfy` | bank states, prerequisites and power books of a rank; which rows the commands so far leave open; a DDR4 device with its constraint list and pending refreshes |
| `Ddr4Gaps.dfy`, `Ddr4Runs.dfy` | the device's constraints by pairs of commands and readiness in terms of them; the runs in which its books get ahead of the clock |
| `GenericController.dfy` | the FR-FCFS controller on top of that device |
| `ActivationLog.dfy`, `SpilloverTable.dfy`, `Graphene.dfy`, `Twice.dfy`, `Hydra.dfy` | three row-activation trackers against the true counts; what the tables with a spillover value share |
| `CounterLayout.dfy`, `HydraRuns.dfy` | where Hydra keeps its row counters, and the runs in which its guarantee ends |
| `Rit.dfy`, `Rrs.dfy`, `RrsQueue.dfy` | the row indirection table, randomized row-swap, and the requests queued before a swap |
| `Bits.dfy`, `AddressMap.dfy` | bit fields and the three linear address mappers, alone and under the indirection |
| `Hbm3.dfy`, `Hbm3Gaps.dfy` | an HBM3 channel: its constraint list, the SPM entries that are rewritten during a run, and the list by pairs of commands |
| `SparePim.dfy`, `SparePimProtocol.dfy`, `SparePimMacs.dfy`, `SparePimController.dfy` | a token's program, what it does to the banks, where its commands go, and the machine that runs it on that channel |
| `BankStorage.dfy`, `Golden.dfy`, `GoldenExact.dfy`, `SparePimFunctional.dfy` | banked storage, the flat attention reference, what it computes in exact arithmetic, and the equality of the two paths |
| `SparePimCells.dfy` | the cells that a token's commands address against those in which keys and values are stored |
| `Fp16.dfy` | half-precision conversion |

## Findings

Where a property that the code suggests does not hold for all inputs, the exact condition is proved instead.

- Cycle accounting of a rank is ahead of the clock exactly if two refreshes of it overlapped, which no entry of the
  DDR4 table prevents (`Ddr4.NoRefreshToRefresh`), or a precharge charged active cycles although the books had the
  rank idle since a later clock than its activate.  The latter takes a precharge of a closed bank first, which only
  requests to close a row can send; by itself such a precharge does no harm to the sum.  Both happen on a new device,
  with every command ready and next when it is issued (`Ddr4Runs.OverlapRun`, `Ddr4Runs.StrayRun`).
- Each of the two books by itself is exact at the end if and only if no time was charged twice, no refresh booked
  refreshing time as idle, and no precharge of a closed bank has just booked the rank idle while another bank is still
  open (`Ddr4.Device.FinalizeRank`).
- An HBM3 precharge or refresh of all banks is addressed to the channel, so the rows of the constraint list that stand
  for it under the pseudochannel are never looked at: it is ready as soon as no activate is newer than two cycles
  (`Hbm3Gaps.AllBankCommandsSkipTheirGaps`).
- `REFab_end` never closes an open bank, because no activate of the rank becomes ready before the refresh has ended.
- Hydra's guarantee holds row by row.  Rows are grouped by shifting, but the counters of a group are started from its
  number times the group size, so in a bank with more than one group of a size that is no power of two some row gets
  its counter from another group than its own (`Hydra.SomeForeign`).  Rows that store counters are always guarded.  Any
  other row is guarded in every reachable state unless it is `Hydra.Unguarded`: the group threshold is not below the
  tracking threshold; or it is negative and some group starts the row's counter; or positive and the row's own group
  does not start it; or zero, another group starts it, and the row's set of the cache has more tags than ways
  (`Hydra.PopulationSize` counts them).  Every such row can reach the tracking threshold with no request
  (`HydraRuns.WorstCase`).  `Hydra.AllGuarded` says when none of these rows is unguarded: with a group threshold from
  zero up to below the tracking threshold a group size that is a power of two will do, and with a threshold of zero so
  will a single group of any size.
- Starting a group's counters writes all their lines only if the group size is a multiple of the counters in a line
  (`CounterLayout.StartIsWritten`).
- With fewer entries than rows Graphene's bound is tight: one activate more defeats it for every eviction order.  With
  at least as many there is no bound on the activates, from a threshold of two on (`Graphene.Graphene.RowIsAlwaysSafe`).
- TWiCe's bound grows with the number of refreshes, and with a positive pruning rate it has to.
- The row-swap tracker can count past a multiple of the threshold without calling for a swap: a row that comes into a
  full tracker starts just above the spillover value.  A row can be activated threshold - 1 plus the spillover times
  unswapped, and no more (`Rrs.RandomizedRowSwap.RowIsSwappedInTime`, `Rrs.WorstCase`).
- Randomized row-swap draws its rows from 0 to the number of rows inclusive, so it can draw a row that does not
  exist, and its double swap can draw the same row twice; these are the only two ways to lose the permutation.  The
  double swap exchanges the contents of its two random rows.  With an odd capacity the table only grows, and the
  swap that finds one entry free ends the program.
- Requests are mapped when they are sent, and a swap's copies overtake them.  A write queued before a swap lands in its
  own row exactly if the swap does not move that row (`RrsQueue.SwapMoves` names the rows that it moves); otherwise it
  lands in another row, and for some contents and values data is lost (`RrsQueue.MovedWriteIsLost`).
- A request buffer still takes a request when it holds exactly its nominal size (`GenericController.Enqueue`).
- A negative `queue_size` of the SPARE-PIM controller is no limit, zero accepts nothing.
- Without ESDM a token's MACs address no open row; the protocol holds exactly under the options named in
  `SparePimProtocol.TokenKeepsProtocol`.
- A token's MACs and SPMs start from the row of its address, the functional path from row 0.  They meet in the same
  cells if and only if that row is a multiple of the rows of a bank (`SparePimCells.MacsReadTheKeys`).
- Conversion to half turns finite magnitudes from 2^16 on into infinity, where rounding towards zero as in
  section 4.3.2 of IEEE 754-2019 would give the largest finite half.

## Conventions

Integers are unbounded; packed keys, shifts and masks are written out with their widths.  C++ division and
remainder are truncating where an operand can be negative (`SparePim.Rem`).  The order in which a hash map is
scanned and the numbers a generator draws are arbitrary choices or parameters.  Floating-point operations in the
attention path are functions about which nothing is assumed; the pruning rate and the watermarks are real numbers.
Commands of the timing tree carry the constraint table in force when they were issued, so a table that is
rewritten during a run, as the HBM3 device does for the SPM latency, is covered.

## Model

| member | source | states |
|---|---|---|
| `Timing.PopulateTimingCons` | src/dram/spec.h:85-98 | the table holds an entry at a level and command exactly if some line of the list asks for it, and nothing else |
| `Timing.TableIsGood` | src/dram/spec.h:85-98 | a table that holds a list of rows with windows of at least one names commands and looks back no further than its histories |
| `Timing.Node.constructor` | src/dram/node.h:40-89 | a fresh subtree agrees with the empty trace: nothing is delayed and no history is kept |
| `Timing.Node.MakeChildren` | src/dram/node.h:73-88 | the children are the nodes one level down, in order, with separate footprints |
| `Timing.Node.UpdateSibling` | src/dram/node.h:138-151 | a node beside the target takes over exactly the sibling entries and still reflects the longer trace |
| `Timing.Node.UpdateTarget` | src/dram/node.h:153-177 | a node on the path takes over exactly the other entries, windowed ones through its bounded history, and reflects the longer trace |
| `Timing.Node.UpdateTiming` | src/dram/node.h:134-188 | after one command every node of the subtree reflects the trace with that command appended |
| `Timing.Node.PassedBy` | src/dram/node.h:138-151 | a command that was turned away at an ancestor asks for nothing further down |
| `Timing.Node.CheckReadyExact` | src/dram/node.h:209-232 | the answer from the ready clocks is true if and only if every constraint of every visited node holds against every earlier command of the trace |
| `Timing.Node.HasThreshold` | src/dram/node.h:209-232 | a node turns a command down before some clock and lets it through from then on |
| `Timing.Node.ReadyFromTrace` | src/dram/node.h:209-232 | that clock is fixed by the trace: the first at which every constraint of every visited node holds |
| `Timing.LegalOneMore` | src/dram/node.h:209-232 | a trace to which a command is added after a positive check is still legal |
| `Timing.RunSafety` | src/dram/node.h:134-232 | in a legal trace every constraint of a visited node separates every pair of commands it relates |
| `Timing.AllowedAfter` | src/dram/node.h:162-177 | an entry without a window holds a command off for its value after any one earlier command |
| `Timing.WindowSafety` | src/dram/node.h:153-177 | with a window entry of w the i-th and (i+w)-th matching commands are at least its value apart |
| `Timing.LegalIsPrefixClosed` | src/dram/node.h:134-232 | every prefix of a legal run is legal |
| `Timing.HitsOneMore` | src/dram/node.h:153-160 | which commands count for a node, one command more |
| `Timing.AllowedOneMore` | src/dram/node.h:162-177 | what a trace allows, one command more: the old trace allows it and the new command does |
| `Ddr4Rank.ScanDecides` | src/dram/lambdas/preq.h:43-70 | the scan asks for a precharge of all banks exactly if some bank is open and every bank before it closed |
| `Ddr4Rank.AllClosedDecides` | src/dram/lambdas/preq.h:43-70 | where no bank is open while another one refreshes, which every reachable rank meets, it asks for it exactly if some bank is open |
| `Ddr4Rank.NextDecides` | src/dram/lambdas/preq.h:12-41 | in every reachable rank the next command is a column access exactly if the bank is open on the row of the request and no other, a precharge exactly if it is open on another row, an activate exactly if it is not open |
| `Ddr4Rank.ActionOpens` | src/dram/lambdas/action.h:14-111 | which rows are open after the next command of a request: the activated one, and those from before unless the command closes their bank or refreshes the rank |
| `Ddr4Rank.PrerequisiteLeadsOn` | src/dram/lambdas/action.h:14-111 | a prerequisite brings the final command closer, two commands at most; the final one leaves its row open, its bank closed or all banks refreshing; other banks stay as they are |
| `Ddr4Rank.CountState` | src/dram/lambdas/power.h:93-136 | the loop counts the banks in a state: the size of that set of banks |
| `Ddr4Rank.ActKeeps` | src/dram/lambdas/power.h:138-151 | an activate that met its prerequisite keeps bank states and power books in step, the active and the idle book each against the clocks it is for |
| `Ddr4Rank.PreKeeps` | src/dram/lambdas/power.h:153-166 | so does a precharge, whatever bank it finds; what it charges a second time is remembered as drift of the active book |
| `Ddr4Rank.PreaKeeps` | src/dram/lambdas/power.h:168-185 | so does a precharge of all banks |
| `Ddr4Rank.RefKeeps` | src/dram/lambdas/power.h:187-199 | so does the start of a refresh; one that starts inside another adds to the drift, of the idle book what it books as idle |
| `Ddr4Rank.StepKeeps` | src/dram/lambdas/power.h:138-199 | every command that the prerequisites let through keeps states and books together, the drift included |
| `Ddr4Rank.NoStrayPrecharge` | src/dram/lambdas/power.h:153-166 | only a request to close a row precharges a closed bank, and as long as none did no time is charged twice |
| `Ddr4Rank.RefEndKeeps` | src/dram/lambdas/power.h:201-210 | the end of a refresh finds no bank open and keeps the books |
| `Ddr4Rank.CyclesConserved` | src/dram/lambdas/power.h:334-346 | outside a refresh, active plus idle cycles plus (nRFC - 1) per completed refresh are the clock plus the drift; the drift is zero if and only if no refresh started inside another and no precharge charged active cycles to books that were idle since a later clock than the activate |
| `Ddr4Rank.BooksApart` | src/dram/lambdas/power.h:334-346 | at the end, at any clock, the active cycles are the clocks at which a bank was open and the idle cycles those at which none was and no refresh was running, up to the drift of each book and a last stretch booked astray; both are exact if and only if all three are zero, as they are without stray precharges and overlaps |
| `Ddr4Rank.OverlapSurplus` | src/dram/lambdas/power.h:187-210 | two overlapping refreshes of a new rank, at any clocks: no active cycles, and the idle book counts the clock of the first and its length too many |
| `Ddr4Rank.StrayPrechargeSurplus` | src/dram/lambdas/power.h:153-166 | an activate, a precharge of a closed bank, the precharge of the open one, at any clocks: up to the last one the books balance in sum, with the open cycles since the stray precharge among the idle ones; afterwards the active book counts those before it twice |
| `OpenRows.OpenOneMore` | src/dram/lambdas/action.h:14-111 | a row is open after one command more exactly if that command opened it, or it was open and the command neither closed nor refreshed its bank |
| `OpenRows.NextFollows` | src/dram/lambdas/preq.h:12-70 | the next command of any request keeps the bank states as the commands so far leave them, and finds its own row open if it is a read or write |
| `Ddr4.KeyEntries` | src/dram/impl/DDR4.cpp:439-491 | the table keeps activates of a bank nRC apart, five of a rank nFAW, and away from a refresh for nRFC |
| `Ddr4.BuildTable` | src/dram/impl/DDR4.cpp:437-492 | the table built from the device's list holds exactly that list and is well formed |
| `Ddr4.NoRefreshToRefresh` | src/dram/impl/DDR4.cpp:466-471 | no entry of the device's table separates two refreshes of one rank |
| `Ddr4.RefreshEnds` | src/dram/impl/DDR4.cpp:232-243 | a due refresh end meets no open bank and keeps the books of every rank |
| `Ddr4.DuesErase` | src/dram/impl/DDR4.cpp:187-193 | erasing one pending entry takes exactly that due date out of its rank's list |
| `Ddr4.Device.constructor` | src/dram/impl/DDR4.cpp:196-208 | a new device satisfies the joint invariant of timing, banks, power books and pending refreshes |
| `Ddr4.Device.ActWaitsForRefresh` | src/dram/impl/DDR4.cpp:471-471 | no activate is ready while a refresh of its rank is pending |
| `Ddr4.Device.ActMeansNoRefresh` | src/dram/impl/DDR4.cpp:471-471 | an activate that may be issued finds no refresh pending in its rank |
| `Ddr4.Device.IssueTiming` | src/dram/impl/DDR4.cpp:210-214 | issuing extends the trace by the command and keeps every node in agreement with it |
| `Ddr4.Device.IssueRank` | src/dram/impl/DDR4.cpp:210-230 | issuing changes one rank, by its state machine, and schedules the end of a refresh nRFC - 1 cycles later |
| `Ddr4.Device.NoStray` | src/dram/lambdas/power.h:153-166 | no command on the way to anything but closing a row precharges a closed bank |
| `Ddr4.Device.Issue` | src/dram/impl/DDR4.cpp:210-230 | a ready command that is the next one towards its request keeps the whole invariant; the new state is stated |
| `Ddr4.Device.OpenMeansOpened` | src/dram/lambdas/action.h:14-111 | in every reachable state a bank is open on a row if and only if a command activated that row there and none has closed or refreshed the bank since |
| `Ddr4.Device.ColumnFindsItsRow` | src/dram/lambdas/preq.h:12-27 | in every reachable state each read and write of the trace has before it an activate of its own row in its own bank, and no precharge or refresh of that bank in between |
| `Ddr4.Device.HandleFuture` | src/dram/impl/DDR4.cpp:186-193 | one step of the backward scan: due entries are handled and erased, no open bank changes and none opens |
| `Ddr4.Device.ScanFuture` | src/dram/impl/DDR4.cpp:186-193 | after the scan nothing due is left and no open bank has changed |
| `Ddr4.Device.Tick` | src/dram/impl/DDR4.cpp:183-194 | one cycle keeps the invariant, touches no open bank and opens none, and counts for each rank whether a bank was open or all was idle |
| `Ddr4.Device.FinalizeRank` | src/dram/lambdas/power.h:334-346 | in every reachable state: active and idle cycles each are the clocks counted for them, if and only if nothing was charged twice, no refreshing time booked idle and the last stretch not booked astray; and outside a refresh the sum is conserved if and only if refreshes never overlapped and nothing was charged twice, with all issued refreshes counted |
| `Ddr4.Device.FourActivateWindow` | src/dram/impl/DDR4.cpp:463-463 | in every reachable state any five activates of one rank span at least nFAW |
| `Ddr4.Device.RowCycle` | src/dram/impl/DDR4.cpp:482-482 | in every reachable state two activates of one bank are at least nRC apart |
| `Ddr4Gaps.TableIsGaps` | src/dram/impl/DDR4.cpp:439-491 | the device asks of every pair of commands, at every level, for exactly the gap stated for the pair, besides the gaps between ranks and the window of four activates |
| `Ddr4Gaps.Spacing` | src/dram/impl/DDR4.cpp:439-491 | in every reachable state any two commands that went to a common node are as far apart as the gap of that level asks: nRCD, nRP, nRAS, nRTP, column and turnaround gaps, refresh and all others |
| `Ddr4Gaps.SpacingOfRanks` | src/dram/impl/DDR4.cpp:455-457 | and so are column accesses of two ranks of the channel |
| `Ddr4Gaps.ReadyExactly` | src/dram/node.h:209-232 | in every reachable state a command is ready if and only if all these gaps to all earlier commands have passed and, for an activate, all activates of its rank but the three newest are nFAW back |
| `Ddr4Runs.BeforePrecharge` | src/dram/impl/DDR4.cpp:482-491 | of activates and precharges only an activate of the same bank holds a precharge off, for nRAS |
| `Ddr4Runs.ReadyIfPassed` | src/dram/node.h:209-232 | a command is ready if every earlier one lets it pass at every node that both go through |
| `Ddr4Runs.OverlapRun` | src/dram/lambdas/power.h:187-210 | from a new device, at any clocks, two refreshes of one rank are issued as ready next commands while the first is running, and at the end no cycle is booked active and the idle book is the clock of the first and its length ahead |
| `Ddr4Runs.StrayRun` | src/dram/lambdas/power.h:153-166 | from a new device, at any clocks that keep nRAS, an activate, the precharge of another bank, which is closed, and the precharge of the open one are issued as ready next commands, and at the end the active book is the cycles between the first two ahead, the idle book exact |
| `GenericController.Controller.ActiveIsReadyToFinish` | src/dram_controller/impl/generic_dram_controller.cpp:342-350 | the next command of an active request is its final column access |
| `GenericController.Controller.RefreshCommands` | src/dram_controller/impl/scheduler/generic_scheduler.cpp:46-48 | every request of the buffer gets the prerequisite the device asks for, and nothing else changes |
| `GenericController.Controller.GetBestRequest` | src/dram_controller/impl/scheduler/generic_scheduler.cpp:41-55 | the choice is a best one: ready before not ready, then earliest arrival, then earliest in the buffer |
| `GenericController.Controller.SetWriteMode` | src/dram_controller/impl/generic_dram_controller.cpp:325-335 | write mode has hysteresis between the two watermarks and follows an empty read buffer |
| `GenericController.Controller.PickRequest` | src/dram_controller/impl/generic_dram_controller.cpp:342-376 | active requests first, then the head of the priority buffer, then reads or writes; what is found is ready and a best one, and nothing is found only if nothing eligible is ready |
| `GenericController.Controller.PickReadOrWrite` | src/dram_controller/impl/generic_dram_controller.cpp:324-375 | writes if no read waits or the write buffer is above both watermarks, reads if below both, in between what was served before; of that buffer a best ready request, or none because none is ready |
| `GenericController.Controller.ScanActive` | src/dram_controller/impl/generic_dram_controller.cpp:379-397 | whether a command touches the bank of an active request, up to wildcards |
| `GenericController.SameBankMeans` | src/dram_controller/impl/generic_dram_controller.cpp:379-397 | the guard matches two addresses exactly if they stand for some bank in common |
| `GenericController.Controller.ScheduleRequest` | src/dram_controller/impl/generic_dram_controller.cpp:342-400 | a closing command is dropped if it touches the bank of an active request |
| `GenericController.Controller.IssueProtects` | src/dram_controller/impl/generic_dram_controller.cpp:198-204 | issuing a scheduled command leaves the open row of every active request open |
| `GenericController.Controller.IssueToDevice` | src/dram_controller/impl/generic_dram_controller.cpp:198-204 | the device after the command, with every active request still protected |
| `GenericController.Controller.Retire` | src/dram_controller/impl/generic_dram_controller.cpp:206-221 | a finished request leaves its buffer, a read joins the pending ones, an opening request becomes active if there is room |
| `GenericController.Controller.RetiredWaiting` | src/dram_controller/impl/generic_dram_controller.cpp:206-221 | all requests stay in the buffers, wherever they move, but the one whose final command was issued |
| `GenericController.Controller.ServedFromOwnRow` | src/dram_controller/impl/generic_dram_controller.cpp:198-213 | in every reachable state of the controller every read and write it issued had its own row opened in its own bank, with no precharge or refresh of the bank in between |
| `GenericController.Controller.PluginsThenServe` | src/dram_controller/impl/generic_dram_controller.cpp:198-221 | the chosen request is served after the plugins have sent theirs: the open rows in use are spared |
| `GenericController.Controller.Tick` | src/dram_controller/impl/generic_dram_controller.cpp:171-225 | in every reachable state each active request has its bank open on its own row, no precharge or refresh reached that bank in this cycle, and it left only by its own column access; nothing is issued only if no active request is ready; of all requests held or newly accepted exactly one whose final command was issued may leave; a read waits for data only by its own read command and is handed back once its time has come; without requests to close rows no precharge goes astray |
| `GenericController.Controller.SettleActive` | src/dram_controller/impl/generic_dram_controller.cpp:215-221 | the request whose activate was issued is protected from then on |
| `GenericController.Controller.PrioritySend` | src/dram_controller/impl/generic_dram_controller.cpp:163-169 | a maintenance request joins the priority buffer unless that already holds more than its nominal size |
| `GenericController.Controller.Send` | src/dram_controller/impl/generic_dram_controller.cpp:113-161 | a read of an address waiting to be written is answered at once; others join their buffer exactly if it holds no more than its nominal size |
| `GenericController.RefreshFindsAllClosed` | src/dram/lambdas/preq.h:43-70 | a refresh is only let through when no bank of the rank is open |
| `ActivationLog.OneMore` | src/dram_controller/impl/plugin/graphene.cpp:88-180 | the true activation counts, one event more |
| `ActivationLog.LoggedActs` | src/dram_controller/impl/plugin/graphene.cpp:158-177 | what an activate, and a request with it, does to every row's count since its last request |
| `ActivationLog.LoggedEpochActs` | src/dram_controller/impl/plugin/rrs.cpp:210-216 | and to every row's count since the last reset |
| `FlatBanks.FlatBankId` | src/dram_controller/impl/plugin/graphene.cpp:103-108 | the loop computes the mixed-radix number of the bank |
| `FlatBanks.FlatIsInjective` | src/dram_controller/impl/plugin/graphene.cpp:103-108 | in-range addresses have in-range bank numbers, equal exactly for the same bank |
| `FlatBanks.RankAndRest` | src/dram_controller/impl/plugin/hydra.cpp:280-288 | with bank groups, the number is rank times banks per rank plus the bank within the rank |
| `Graphene.SpilloverBound` | src/dram_controller/impl/plugin/graphene.cpp:120-156 | spillover times (entries + 1) never exceeds the activates of the bank since the reset |
| `Graphene.NoRowReachesThreshold` | src/dram_controller/impl/plugin/graphene.cpp:158-177 | up to (entries + 1)(threshold - 1) activates, no row has reached the threshold without a refresh request |
| `Graphene.StepCovers` | src/dram_controller/impl/plugin/graphene.cpp:120-178 | one activate keeps every row's true count covered by its entry or by the spillover value, whichever entry is evicted |
| `Graphene.RequestIsDue` | src/dram_controller/impl/plugin/graphene.cpp:158-177 | a refresh is requested only for a row that was truly activated as often as the threshold since its last request, but for the spillover value |
| `Graphene.Graphene.constructor` | src/dram_controller/impl/plugin/graphene.cpp:75-86 | the initial table of dummy keys covers the empty history |
| `Graphene.Graphene.ResetBank` | src/dram_controller/impl/plugin/graphene.cpp:95-97 | a reset zeroes counts and spillover and keeps the keys |
| `SpilloverTable.FindSpilled` | src/dram_controller/impl/plugin/graphene.cpp:127-138 | an entry at the spillover value is found if there is one, in any scan order |
| `SpilloverTable.SumReplace` | src/dram_controller/impl/plugin/graphene.cpp:139-148 | replacing one entry by another changes the sum of the counts by their difference |
| `SpilloverTable.SumAtLeast` | src/dram_controller/impl/plugin/graphene.cpp:127-152 | counts that are not below the spillover value add up to at least their number times that value |
| `Graphene.Graphene.Activated` | src/dram_controller/impl/plugin/graphene.cpp:120-178 | the method takes a step of the table in one bank, leaves the others alone and keeps the invariant; a request is not made too early |
| `Graphene.Graphene.Update` | src/dram_controller/impl/plugin/graphene.cpp:88-181 | a whole cycle, reset included |
| `Graphene.Graphene.RowIsSafe` | src/dram_controller/impl/plugin/graphene.cpp:158-177 | the guarantee in every reachable state |
| `Graphene.WorstCase` | src/dram_controller/impl/plugin/graphene.cpp:120-178 | with fewer entries than rows, one activate more and a row has reached the threshold with no request, for every choice of evictions: the bound is tight |
| `Graphene.StaysRoomy` | src/dram_controller/impl/plugin/graphene.cpp:120-152 | with at least as many entries as rows nothing is ever spilled |
| `Graphene.Graphene.RowIsAlwaysSafe` | src/dram_controller/impl/plugin/graphene.cpp:120-178 | so from a threshold of two on no row of any reachable state reaches it unrequested, after any number of activates |
| `Twice.Bound` | src/dram_controller/impl/plugin/twice.cpp:83-166 | activates since the last request are at most the threshold's slack plus the pruning rate times the refreshes in between, however often the entry was pruned |
| `Twice.ExactIfNeverPruned` | src/dram_controller/impl/plugin/twice.cpp:94-104 | with a pruning rate that is not positive all counts are exact |
| `Twice.RequestIsDue` | src/dram_controller/impl/plugin/twice.cpp:144-152 | a refresh is requested only at an activate that brings the row's true number since its last request to at least the threshold, and to two |
| `Twice.RowIsTracked` | src/dram_controller/impl/plugin/twice.cpp:83-166 | in every reachable state an entry counts at least one and no more than the row's true activates since its last request, and those stay within the bound |
| `Twice.ActivateCovers` | src/dram_controller/impl/plugin/twice.cpp:134-162 | an activate keeps the table covering the true counts, and no count ahead of them |
| `Twice.RefreshCovers` | src/dram_controller/impl/plugin/twice.cpp:94-114 | ageing and pruning keep it too: a pruned entry was behind the rate |
| `Twice.Twice.AgeTable` | src/dram_controller/impl/plugin/twice.cpp:95-113 | exactly the entries behind the rate are erased, the others are one refresh older |
| `Twice.Twice.ActivateBank` | src/dram_controller/impl/plugin/twice.cpp:134-162 | insertion, count and request as the table step says, other banks untouched; a request only at an activate that brings the true number since the last one to at least max(2, threshold) |
| `Twice.Twice.RefreshAll` | src/dram_controller/impl/plugin/twice.cpp:88-114 | a refresh of any rank ages the tables of all banks |
| `Twice.Twice.Update` | src/dram_controller/impl/plugin/twice.cpp:83-166 | a whole cycle |
| `Twice.WorstCase` | src/dram_controller/impl/plugin/twice.cpp:134-162 | with no refresh in between a row is activated max(1, threshold - 1) times with no request, and the next activate brings it |
| `Twice.PrunedForever` | src/dram_controller/impl/plugin/twice.cpp:94-140 | with a positive rate any number of activates can pass without a request: the refresh term cannot be dropped |
| `Hydra.DecodeUndoesSplit` | src/dram_controller/impl/plugin/hydra.cpp:290-293 | bank and row recovered at eviction are those the tag and set were made from |
| `Hydra.SplitUndoesDecode` | src/dram_controller/impl/plugin/hydra.cpp:422-423 | tag and set made from a decoded bank and row are the evicted ones |
| `Hydra.StarterOf` | src/dram_controller/impl/plugin/hydra.cpp:362-369 | the one group that starts a row's counter is the row's number divided by the group size |
| `Hydra.PopulationSize` | src/dram_controller/impl/plugin/hydra.cpp:291-293 | the tags that a set of the cache can hold are as many as its rows with counters, in all banks of the rank |
| `Hydra.GroupSizeBounds` | src/dram_controller/impl/plugin/hydra.cpp:158-162 | a group gets at most as many counters as it has rows, and more than half as many |
| `Hydra.FitsIsPowerOfTwo` | src/dram_controller/impl/plugin/hydra.cpp:290-290 | the rows of every group are those its counters are started for if and only if the group size is a power of two |
| `Hydra.GroupIsSpan` | src/dram_controller/impl/plugin/hydra.cpp:362-369 | with such a size the rows with a group's number are exactly the stretch it starts counters for |
| `Hydra.LastOfGroup` | src/dram_controller/impl/plugin/hydra.cpp:362-369 | with any other size the last row of every group is left out |
| `Hydra.StartedBelow` | src/dram_controller/impl/plugin/hydra.cpp:362-369 | the rows that some group starts are those below the end of the last group's stretch |
| `Hydra.SomeForeign` | src/dram_controller/impl/plugin/hydra.cpp:362-369 | some row of a bank gets its counter from another group if and only if the bank has more than one group and their size is no power of two |
| `Hydra.AllGuarded` | src/dram_controller/impl/plugin/hydra.cpp:349-369 | the exact condition on thresholds, group size, cache and counter rows for no row to be unguarded, the rows that store counters aside |
| `Hydra.BankStepCovers` | src/dram_controller/impl/plugin/hydra.cpp:308-512 | with a fitting group size every activate keeps the counters from undercounting any row by more than the negative part of the group threshold |
| `Hydra.CoveredIsSafe` | src/dram_controller/impl/plugin/hydra.cpp:349-512 | with 0 <= group threshold < tracking threshold a row's true count stays below the tracking threshold |
| `Hydra.LineStaysOk` | src/dram_controller/impl/plugin/hydra.cpp:402-498 | an activate leaves every other cached counter equal to the table's |
| `Hydra.CacheStaysOk` | src/dram_controller/impl/plugin/hydra.cpp:402-498 | the whole cache stays coherent, sixteen entries a set |
| `Hydra.HitIsCounter` | src/dram_controller/impl/plugin/hydra.cpp:474-477 | a cached counter is the row counter of the bank and row its tag decodes to, of an initialized group |
| `Hydra.CountedRow` | src/dram_controller/impl/plugin/hydra.cpp:359-498 | counting through the cache is a step of the tracker without a cache, and keeps the cache coherent |
| `Hydra.CountsAsTable` | src/dram_controller/impl/plugin/hydra.cpp:402-498 | with a coherent cache a count through it is the count of the table |
| `Hydra.ActivateRefines` | src/dram_controller/impl/plugin/hydra.cpp:307-512 | every activate through a coherent cache is a step of the tracker without a cache; the counters keep covering the true counts and the cache stays coherent |
| `Hydra.DecodedIsVictim` | src/dram_controller/impl/plugin/hydra.cpp:410-435 | what a full set gives up, the least counted entry under that policy, is written back to the bank and row it was made from |
| `Hydra.OthersBeside` | src/dram_controller/impl/plugin/hydra.cpp:307-512 | what another row's activate does to a row's counters: at most one more in its group, its group started, and its counter set to the group threshold when the group that starts it is |
| `Hydra.RowItself` | src/dram_controller/impl/plugin/hydra.cpp:307-512 | a row's own activate keeps its counters covering its true count and below the tracking threshold, if it is guarded, for every group size |
| `Hydra.RequestIsDue` | src/dram_controller/impl/plugin/hydra.cpp:307-512 | a refresh is requested only for a row that was truly activated as often as the tracking threshold since its last request, but for the group threshold its counter started with; for rows that store counters exactly at the tracking threshold |
| `Hydra.TrafficBalances` | src/dram_controller/impl/plugin/hydra.cpp:402-470 | besides the writes that start a group there is a counter written exactly if its entry left the cache, and one read exactly if its entry came in |
| `Hydra.RowStays` | src/dram_controller/impl/plugin/hydra.cpp:307-512 | another row's activate does so too, as long as the entry of a row that another group starts is not evicted |
| `Hydra.EntryStays` | src/dram_controller/impl/plugin/hydra.cpp:402-412 | a set that cannot have more tags than ways gives up no entry |
| `Hydra.RowsKeep` | src/dram_controller/impl/plugin/hydra.cpp:307-512 | every activate keeps the counters of all rows of all banks covering them |
| `Hydra.Hydra.InitializeGroup` | src/dram_controller/impl/plugin/hydra.cpp:362-369 | the loop gives the group threshold to the groupSize rows from group number times groupSize on, and to no other |
| `Hydra.Hydra.TagToEvict` | src/dram_controller/impl/plugin/hydra.cpp:524-545 | an entry the policy allows, any one or one of least count; the drawn one whenever it is allowed |
| `Hydra.Hydra.MakeRoom` | src/dram_controller/impl/plugin/hydra.cpp:410-412 | a full set gives up exactly one entry |
| `Hydra.Hydra.CountCached` | src/dram_controller/impl/plugin/hydra.cpp:402-498 | a hit counts on from the cached value, a miss from the table; both go up together and start again at the threshold |
| `Hydra.Hydra.OwnRow` | src/dram_controller/impl/plugin/hydra.cpp:308-338 | rows that hold counters are counted on their own |
| `Hydra.Hydra.CountGroup` | src/dram_controller/impl/plugin/hydra.cpp:503-512 | below the group threshold only the group counter moves |
| `Hydra.Hydra.CountRow` | src/dram_controller/impl/plugin/hydra.cpp:349-498 | the whole new state of bank and set, for every group size: counters started, one entry given up, the count in cache and table; and the counter requests sent, in order: the group's start writes, the write of what was given up, the read on a miss |
| `Hydra.Hydra.Activated` | src/dram_controller/impl/plugin/hydra.cpp:307-512 | one bank and one set take the step and nothing else changes; with a fitting group size it is a step of the simple tracker |
| `Hydra.Hydra.ResetAll` | src/dram_controller/impl/plugin/hydra.cpp:257-272 | a reset empties all tables and the cache |
| `Hydra.Hydra.Update` | src/dram_controller/impl/plugin/hydra.cpp:254-515 | a whole cycle, reset included |
| `Hydra.Hydra.RowIsSafe` | src/dram_controller/impl/plugin/hydra.cpp:254-515 | in every reachable state, for every group size and policy, no row that stores counters and no row that is not unguarded has as many activates as the tracking threshold since its last request |
| `HydraRuns.StarterIsAbove` | src/dram_controller/impl/plugin/hydra.cpp:362-369 | another group that starts a row's counter has a higher number than the row's own |
| `HydraRuns.CountsUp` | src/dram_controller/impl/plugin/hydra.cpp:359-498 | a row that its own group does not start counts on from its entry, or from the table, unrequested below the tracking threshold |
| `HydraRuns.SetBackStep` | src/dram_controller/impl/plugin/hydra.cpp:359-369 | once its entry has left the cache, an activate in the group that starts a row's counter sets the counter to the group threshold |
| `HydraRuns.RivalStep` | src/dram_controller/impl/plugin/hydra.cpp:402-472 | sixteen other tags of its set, from any banks of the rank, push the entry of a row counted once out of the cache |
| `HydraRuns.WorstCase` | src/dram_controller/impl/plugin/hydra.cpp:349-512 | for either policy, every unguarded row reaches the tracking threshold from empty tables with no request for it |
| `CounterLayout.CounterLies` | src/dram_controller/impl/plugin/hydra.cpp:517-522 | for any counter width the named row and column hold the counter's first bit, and the counters of a row lie side by side within it |
| `CounterLayout.CountersAreConsecutive` | src/dram_controller/impl/plugin/hydra.cpp:517-522 | where a line holds a whole number of counters, row and column are the digits of the line's number, so rows share a line exactly when they are in the same stretch |
| `CounterLayout.SendStartWrites` | src/dram_controller/impl/plugin/hydra.cpp:370-385 | the loop sends one write for every whole line of the group's counters, from its first row on |
| `CounterLayout.LinesWritten` | src/dram_controller/impl/plugin/hydra.cpp:370-385 | they name the lines of the first size / counters-per-line stretches from the group's first row on, and no others |
| `CounterLayout.StartIsWritten` | src/dram_controller/impl/plugin/hydra.cpp:370-385 | they cover the counters of the whole group if and only if its size is a multiple of the counters in a line |
| `Rit.PairingIsPermutation` | src/addr_mapper/impl/rit.cpp:66-87 | a table of pairs is its own inverse and sends no two rows to the same place |
| `Rit.InsertKeeps` | src/addr_mapper/impl/rit.cpp:98-111 | inserting a pair of fresh rows keeps a table of locked-alike pairs |
| `Rit.RemoveKeeps` | src/addr_mapper/impl/rit.cpp:117-123 | removing a row with its partner keeps it |
| `Rit.PairingIsEven` | src/addr_mapper/impl/rit.cpp:98-123 | such a table has an even number of entries |
| `Rit.UnlockKeeps` | src/addr_mapper/impl/rit.cpp:89-96 | unlocking changes no destination |
| `Rit.RowIndirectionTable.Check` | src/addr_mapper/impl/rit.cpp:47-53 | in a table of pairs: -1 exactly for a row that is not swapped, otherwise another existing row whose partner is this row |
| `Rit.RowIndirectionTable.InsertEntry` | src/addr_mapper/impl/rit.cpp:98-115 | both directions are stored locked; whether the capacity still holds |
| `Rit.RowIndirectionTable.RemoveEntry` | src/addr_mapper/impl/rit.cpp:117-123 | both directions are erased |
| `Rit.RowIndirectionTable.Unlock` | src/addr_mapper/impl/rit.cpp:89-96 | every entry of every bank is unlocked, nothing else changes |
| `Rit.RowIndirectionTable.GetUnswapPair` | src/addr_mapper/impl/rit.cpp:125-137 | an unlocked pair away from the excluded rows if there is one, otherwise none |
| `Rit.RowIndirectionTable.ApplyIndirection` | src/addr_mapper/impl/rit.cpp:65-87 | the row of a request becomes the row that holds its contents |
| `Rit.RowIndirectionTable.NeverAliases` | src/addr_mapper/impl/rit.cpp:65-87 | different in-range addresses stay different and in range |
| `Rrs.SwapRequestsSwap` | src/dram_controller/impl/plugin/rrs.cpp:364-414 | the copies of a swap, carried out in order, exchange the two rows and leave the buffer empty |
| `Rrs.SwapKeepsPairing` | src/dram_controller/impl/plugin/rrs.cpp:234-339 | with an even capacity every completed swap leaves a fitting table of pairs, except exactly when the two random rows of a double swap coincide |
| `Rrs.SwapKeepsPairingExactly` | src/dram_controller/impl/plugin/rrs.cpp:349-362 | and a random row one past the last is the only other way to spoil it |
| `Rrs.CoincidenceAliases` | src/dram_controller/impl/plugin/rrs.cpp:242-283 | a concrete double swap with the same random row twice sends two rows to one place |
| `Rrs.OddCapacityOverflows` | src/addr_mapper/impl/rit.cpp:111-114 | with an odd capacity no pair is ever given up, every first or double swap adds a pair, and the one that finds one entry free, and no other, exceeds the capacity |
| `Rrs.BothFits` | src/addr_mapper/impl/rit.cpp:111-114 | with any capacity a double swap fits unless the capacity is odd and one entry is free |
| `Rrs.FirstSwapKeepsData` | src/dram_controller/impl/plugin/rrs.cpp:310-339 | a first swap, after an unswap or not, leaves what is read through the table unchanged |
| `Rrs.SwapAgainKeepsData` | src/dram_controller/impl/plugin/rrs.cpp:284-308 | so does swapping a row back and swapping it again in a later epoch |
| `Rrs.DoubleSwapData` | src/dram_controller/impl/plugin/rrs.cpp:242-283 | a double swap exchanges the contents of its two random rows; with the same row twice the partner shows the row's contents, the random row the partner's, and its own are lost; the data survives if and only if the contents that trade places are equal |
| `RrsQueue.SwapMoves` | src/dram_controller/impl/plugin/rrs.cpp:234-362 | a swap redirects exactly the row, its partners, its random rows and the pair that makes room |
| `RrsQueue.SeenCarried` | src/addr_mapper/impl/rit.cpp:65-87 | writes to the rows of a bank are, for the processor, writes to the rows redirected there, for any queue |
| `RrsQueue.LateWrites` | src/memory_system/impl/generic_DRAM_system.cpp:50-53 | writes mapped before a swap and carried out after it land where the two tables take them, and as written if no row of the queue was moved |
| `RrsQueue.MovedWriteIsLost` | src/memory_system/impl/generic_DRAM_system.cpp:50-53 | if a row of the queue was moved, then with some contents and values the processor does not see what it wrote |
| `Rrs.RandomizedRowSwap.Track` | src/dram_controller/impl/plugin/rrs.cpp:158-216 | one activate in the tracker: counts and spillover value add up to the bank's activates in the epoch, cover every row's and are ahead of none by more than the spillover value |
| `Rrs.TrackKeeps` | src/dram_controller/impl/plugin/rrs.cpp:158-216 | so does every step of the tracker, whichever entry is evicted, and since a row's last swap was called for it was activated no more often than the spillover value and its count beyond the last multiple of the threshold |
| `Rrs.HotSpillBound` | src/dram_controller/impl/plugin/rrs.cpp:170-208 | spillover times (entries + 1) never exceeds the activates of the bank in the epoch |
| `Rrs.HotBound` | src/dram_controller/impl/plugin/rrs.cpp:210-234 | a row is activated at most threshold - 1 plus spillover times with no swap called for; its count is its true number of activates in the epoch or at most the spillover ahead; a swap is called for with no fewer than threshold - spillover activates |
| `Rrs.CalledInTime` | src/dram_controller/impl/plugin/rrs.cpp:234-234 | as long as nothing was spilled a swap is called for exactly at every threshold-th activate of a row |
| `Rrs.RandomizedRowSwap.RowIsSwappedInTime` | src/dram_controller/impl/plugin/rrs.cpp:158-234 | the guarantee in every reachable state; with room in the tracker all counts are exact |
| `Rrs.WorstCase` | src/dram_controller/impl/plugin/rrs.cpp:158-234 | for any multiple of the threshold a row reaches that many activates plus threshold - 1 with no swap called for it, the most that the bank's activates allow |
| `Rrs.RandomizedRowSwap.GetRandRow` | src/dram_controller/impl/plugin/rrs.cpp:349-362 | the first drawn row that is neither hot nor swapped nor the row itself |
| `Rrs.RandomizedRowSwap.IssueSwap` | src/dram_controller/impl/plugin/rrs.cpp:364-414 | the four loops issue exactly the copies of a swap |
| `Rrs.RandomizedRowSwap.MakeRoomFor` | src/dram_controller/impl/plugin/rrs.cpp:312-326 | a full table gives up one unlocked pair, or the program ends because there is none |
| `Rrs.RandomizedRowSwap.SwapFirst` | src/dram_controller/impl/plugin/rrs.cpp:310-339 | the first-swap path, its copies and its table |
| `Rrs.RandomizedRowSwap.SwapAgain` | src/dram_controller/impl/plugin/rrs.cpp:284-308 | the later-epoch path |
| `Rrs.RandomizedRowSwap.MovePair` | src/dram_controller/impl/plugin/rrs.cpp:271-279 | the pair goes, and each of its rows gets a new partner |
| `Rrs.RandomizedRowSwap.SwapBoth` | src/dram_controller/impl/plugin/rrs.cpp:242-283 | the same-epoch path |
| `Rrs.RandomizedRowSwap.SwapRow` | src/dram_controller/impl/plugin/rrs.cpp:236-339 | which path is taken, and that the invariant survives it |
| `Rrs.RandomizedRowSwap.NewEpoch` | src/dram_controller/impl/plugin/rrs.cpp:125-131 | counts are cleared and pairs unlocked; the permutation stays |
| `Rrs.RandomizedRowSwap.Update` | src/dram_controller/impl/plugin/rrs.cpp:121-347 | a whole cycle: epoch, tracker, swap; the tracker keeps to what really happened, whatever becomes of the swap |
| `Bits.CalcLog2` | src/base/utils.h:61-70 | the floor of the binary logarithm, and 0 for 0 |
| `Bits.PackUnpack` | src/dram_controller/impl/plugin/hydra.cpp:290-293 | a field packed above low bits can be taken out again |
| `Bits.UnpackPack` | src/dram_controller/impl/plugin/hydra.cpp:422-423 | shifting, masking and packing again restores the number |
| `Bits.XorCancels` | src/addr_mapper/impl/linear_mappers.cpp:113-121 | mixing in the same mask twice changes nothing |
| `AddressMap.MapsIsBijection` | src/addr_mapper/impl/linear_mappers.cpp:64-93 | below the capacity addresses and coordinates determine each other |
| `AddressMap.MapsIsOnto` | src/addr_mapper/impl/linear_mappers.cpp:64-93 | every coordinate vector in range is the image of the address it spells |
| `AddressMap.SameCapacity` | src/addr_mapper/impl/linear_mappers.cpp:64-123 | the three mappers divide up the same number of address bits |
| `AddressMap.MixedTwice` | src/addr_mapper/impl/linear_mappers.cpp:113-121 | the exclusive-or masks depend on the unchanged column alone, so mixing is its own inverse and keeps ranges |
| `AddressMap.MopIsBijection` | src/addr_mapper/impl/linear_mappers.cpp:106-123 | MOP4CLXOR: coordinates in range and addresses below the capacity determine each other |
| `AddressMap.MopInRange` | src/addr_mapper/impl/linear_mappers.cpp:111-112 | the row is in range exactly for addresses below the capacity |
| `AddressMap.LinearMapper.constructor` | src/addr_mapper/impl/linear_mappers.cpp:23-49 | bits per level from the geometry, the column counting whole prefetches |
| `AddressMap.LinearMapper.SliceLowerBits` | src/base/utils.h:80-88 | the address is the rest times 2^n plus a field of n bits |
| `AddressMap.Sliced` | src/base/utils.h:80-88 | one slice more: the fields taken so far and what is left still make up the address |
| `AddressMap.FieldAt` | src/addr_mapper/impl/linear_mappers.cpp:61-123 | a level holds the bits of the address from the width of the levels sliced off before it on |
| `AddressMap.MopFields` | src/addr_mapper/impl/linear_mappers.cpp:104-113 | before mixing: two column bits lowest, then the levels above the row in order, the other column bits, the rest as the row |
| `AddressMap.LinearMapper.ChRaBaRoCo` | src/addr_mapper/impl/linear_mappers.cpp:64-70 | coordinates in range that spell the transaction address, column lowest; each level holds the address bits above those of all later levels |
| `AddressMap.LinearMapper.RoBaRaCoCh` | src/addr_mapper/impl/linear_mappers.cpp:84-93 | the same with channel and column lowest: channel bits from bit 0 on, then the column's, then those of the rank to the row in order |
| `AddressMap.LinearMapper.SliceMop` | src/addr_mapper/impl/linear_mappers.cpp:106-112 | the slices of MOP4CLXOR before mixing |
| `AddressMap.LinearMapper.Mop4ClXor` | src/addr_mapper/impl/linear_mappers.cpp:106-123 | the mixed coordinates from which the inverse recovers the transaction address; each level is its own bits of the address, mixed with the column bits that follow those of the levels before it |
| `AddressMap.MappedAndRedirected` | src/addr_mapper/impl/rit.cpp:160-189 | mapper and row indirection together never send two addresses to one place |
| `AddressMap.MopAndRedirected` | src/addr_mapper/impl/rit.cpp:206-227 | the same for MOP4CLXOR |
| `Hbm3.SpmRows` | src/dram/impl/HBM3.cpp:336-414 | every row of the constraint list that an SPM triggers has the latency nSPM |
| `Hbm3.SpmEntries` | src/dram/impl/HBM3.cpp:386-386 | within a pseudochannel every command of the list waits for an SPM |
| `Hbm3.InitiallyRewritten` | src/dram/impl/HBM3.cpp:336-414 | so rewriting the new table with nSPM changes nothing |
| `Hbm3.RewrittenTwice` | src/dram/impl/HBM3.cpp:186-200 | of several rewrites only the newest counts |
| `Hbm3.RewrittenIsGood` | src/dram/impl/HBM3.cpp:194-199 | a rewritten table is as well formed as before |
| `Hbm3.RewriteTable` | src/dram/impl/HBM3.cpp:194-199 | the loops rewrite every entry that an SPM triggers, and no other |
| `Hbm3.Device.constructor` | src/dram/impl/HBM3.cpp:148-158 | a new device agrees with the empty trace |
| `Hbm3.Device.ReadyWhen` | src/dram/impl/HBM3.cpp:171-174 | the device is ready exactly from a clock on that its trace fixes |
| `Hbm3.Device.Issue` | src/dram/impl/HBM3.cpp:160-164 | a ready command extends the trace, with the table in force, and keeps the whole invariant |
| `Hbm3.Device.Notify` | src/dram/impl/HBM3.cpp:186-200 | the latency is set, at least one cycle, and the invariant kept; the trace is untouched |
| `Hbm3.Device.SpmRunsItsLatency` | src/dram/impl/HBM3.cpp:386-386 | in every reachable state nothing that has to wait for an SPM follows it in its pseudochannel within the latency that was in force at it |
| `Hbm3Gaps.TableIsGaps` | src/dram/impl/HBM3.cpp:336-414 | the device asks of every pair of commands, at every level, for exactly the gaps stated for the pair, besides the window of four activates |
| `Hbm3Gaps.Spacing` | src/dram/impl/HBM3.cpp:336-414 | in every reachable state a command follows an earlier one, other than an SPM, at a common node within its scope by no less than those gaps |
| `Hbm3Gaps.AllBankCommandsSkipTheirGaps` | src/dram/impl/HBM3.cpp:49-52 | a precharge or refresh of all banks is ready if and only if no activate of the channel is newer than two cycles, whatever the list says for the pseudochannel |
| `SparePim.BankNumbers` | src/dram_controller/impl/sparepim_controller.cpp:560-569 | the bank of a number is in range and has that number |
| `SparePim.BankNames` | src/dram_controller/impl/sparepim_controller.cpp:560-569 | and every bank is the bank of its number |
| `SparePim.Chunk` | src/dram_controller/impl/sparepim_controller.cpp:458-460 | a chunk is never empty and never exceeds what is left |
| `SparePim.RowIsConstant` | src/dram_controller/impl/sparepim_controller.cpp:427-441 | the row does not change within a chunk, not even for columns below zero |
| `SparePim.RowsFormula` | src/dram_controller/impl/sparepim_controller.cpp:456-481 | the number of rows is ceil((start mod page + n) / page), and at least one |
| `SparePim.ReadLatencyIsLast` | src/dram_controller/impl/sparepim_controller.cpp:589-593 | reads go out nCCDS apart and the delay lasts until the data of the last one has come |
| `SparePimProtocol.OkMeansPermitted` | src/dram_controller/impl/sparepim_controller.cpp:275-291 | all was allowed if and only if every operation was permitted in the state of the banks it found |
| `SparePimProtocol.ExecPrefix` | src/dram_controller/impl/sparepim_controller.cpp:275-291 | what is allowed to the end was allowed so far |
| `SparePimProtocol.QkChunkRun` | src/dram_controller/impl/sparepim_controller.cpp:457-481 | a chunk leaves all banks as it found them; its MACs found their row open everywhere if and only if it was activated first |
| `SparePimProtocol.QkStageRun` | src/dram_controller/impl/sparepim_controller.cpp:443-482 | the first stage keeps the protocol exactly with ESDM and activation on, or with nothing to do |
| `SparePimProtocol.PvRowRun` | src/dram_controller/impl/sparepim_controller.cpp:503-529 | each SPM runs with the latency configured for its own chunk, on the one open row |
| `SparePimProtocol.TokenKeepsProtocol` | src/dram_controller/impl/sparepim_controller.cpp:319-365 | from closed banks a token ends with closed banks under all options; everything is allowed if and only if the rows used are also opened; the SPM latencies are those of the chunks |
| `SparePimController.RunKeepsProtocol` | src/dram_controller/impl/sparepim_controller.cpp:311-381 | over any run of requests: banks closed at the end, everything allowed exactly if each token opens the rows it uses and no bare MAC or SPM is asked for, and every SPM of a token with the latency of its own chunk |
| `SparePimController.DirectRun` | src/dram_controller/impl/sparepim_controller.cpp:367-381 | a single command from closed banks is allowed exactly if it is no MAC and no SPM |
| `SparePimController.Controller.IssuedKeepsProtocol` | src/dram_controller/impl/sparepim_controller.cpp:262-292 | in every reachable state: if the requests begun keep to the protocol, each operation issued so far was permitted, so every MAC and SPM met its one open row; and if so, the completed requests all keep to it |
| `SparePimController.Controller.SpmsRunTheirChunks` | src/dram_controller/impl/sparepim_controller.cpp:503-529 | in every reachable state the SPMs that the device saw had the latencies of their own chunks, in order |
| `SparePimController.Controller.ChunkTimeIsKept` | src/dram/impl/HBM3.cpp:186-200 | and nothing that has to wait for an SPM follows it in its pseudochannel before its chunk's time has passed |
| `SparePimController.SpmsSeen` | src/dram_controller/impl/sparepim_controller.cpp:637-645 | the SPMs of the device's trace are those of the operations done, with the same latencies |
| `SparePimController.StepOn` | src/dram_controller/impl/sparepim_controller.cpp:275-291 | operations are carried out in program order, none dropped or repeated, and the device sees exactly the commands among them, each with the latency set before it |
| `SparePimController.MaxIsLargest` | src/dram_controller/impl/sparepim_controller.cpp:398-414 | the running maximum is the largest count, or zero |
| `SparePimController.RisesAreRecords` | src/dram_controller/impl/sparepim_controller.cpp:407-413 | the running maximum rises once at every count larger than zero and all counts before it |
| `SparePimController.ReadsCoverCounts` | src/dram_controller/impl/sparepim_controller.cpp:391-396 | the counts are read in as few groups of a bank group's banks as hold them all |
| `SparePimController.SpmCyclesOfToken` | src/dram_controller/impl/sparepim_controller.cpp:503-517 | the SPMs of a token take the fixed cycles for each row and the cycles per value for each value, no row less than one cycle |
| `SparePimController.ProgramServes` | src/dram_controller/impl/sparepim_controller.cpp:319-381 | a request's operations end with its completion and contain no other; their commands address levels that exist and their latencies are at least one |
| `SparePimMacs.ProgramMacs` | src/dram_controller/impl/sparepim_controller.cpp:319-365 | a token's program holds exactly the MACs of its first stage, with and without ESDM |
| `SparePimMacs.ProgramActs` | src/dram_controller/impl/sparepim_controller.cpp:443-529 | with ESDM a token activates every bank once for each row of keys and of values, as far as its options let it, and sends one SPM for each row of values |
| `SparePimController.TokenAsks` | src/dram_controller/impl/sparepim_controller.cpp:443-529 | what a token adds to the counters of rows, hits and skipped SPMs are the commands of its program |
| `SparePimMacs.MacColumns` | src/dram_controller/impl/sparepim_controller.cpp:427-482 | with ESDM the i-th MAC of a token's program goes to all banks at logical column ktCol + i: the row is that of the token plus the keys' first row plus the column divided by the page, around the bank, the column its remainder; without ESDM to the token's own address |
| `SparePimMacs.SpmRows` | src/dram_controller/impl/sparepim_controller.cpp:503-529 | with ESDM there is one SPM for each row that the values lie in, in the order of the rows, the first at the values' first column and the others at column 0 |
| `SparePimMacs.ValueHasSpm` | src/dram_controller/impl/sparepim_controller.cpp:503-529 | whatever column the values start at, each has an SPM on its row |
| `SparePimMacs.AccBanks` | src/dram_controller/impl/sparepim_controller.cpp:360-362 | the i-th accumulation goes to bank number i modulo the number of banks; there are none if there is nothing to accumulate |
| `SparePimMacs.ElemaxTargets` | src/dram_controller/impl/sparepim_controller.cpp:344-346 | the two softmax commands come once each, to all banks at the keys' first column |
| `SparePimMacs.ProgramInTurn` | src/dram_controller/impl/sparepim_controller.cpp:342-364 | all MACs of a token come before its MOV, that before its EMUL, then its SPMs, then its accumulations |
| `SparePimController.TokenMacAt` | src/dram_controller/impl/sparepim_controller.cpp:327-342 | the MACs of a request: as many as it asks for or the configured number, at those columns from the row of its address on, or row 0 if it names none |
| `SparePimController.TokenAccsAndSpms` | src/dram_controller/impl/sparepim_controller.cpp:349-362 | a token that found any values has as many accumulations as it asks for or the configured number, round the banks; one that found none has neither SPMs nor accumulations |
| `SparePimController.DirectTargets` | src/dram_controller/impl/sparepim_controller.cpp:367-381 | a request for one command sends it to its own address, row or column 0 where it names none, and nothing else |
| `SparePimController.AddsUpMore` | src/dram_controller/impl/sparepim_controller.cpp:443-536 | the sums over all tokens begun are kept: SPM cycles are their SPMs' latencies, skipped SPMs the tokens without one, and with ESDM rows and page hits are the MACs, SPMs and activates of their programs |
| `SparePimController.Controller.RowsAreCounted` | src/dram_controller/impl/sparepim_controller.cpp:443-529 | in every reachable state with ESDM, rows plus page hits of the first stage are the MACs the device has seen and those still to be issued, rows of the second stage the SPMs, and the rows opened the activates of all banks, bare commands apart |
| `SparePimController.Controller.CommandsReach` | src/dram_controller/impl/sparepim_controller.cpp:262-292 | in every reachable state the commands of a kind that the device has seen went to the addresses that the programs of the requests begun give, one by one and in order |
| `SparePimController.Controller.Send` | src/dram_controller/impl/sparepim_controller.cpp:229-249 | accepted exactly with a known kind and room, where a negative queue size is no limit |
| `SparePimController.Controller.EnqueuePerBank` | src/dram_controller/impl/sparepim_controller.cpp:579-587 | the three loops name every bank once, in order |
| `SparePimController.Controller.EnqueueQkStage` | src/dram_controller/impl/sparepim_controller.cpp:443-482 | the loops emit the program of the stage, whose columns `SparePimMacs.MacColumns` states; rows plus page hits are the MACs |
| `SparePimController.Controller.EnqueuePvRow` | src/dram_controller/impl/sparepim_controller.cpp:514-526 | one row of the second stage, its latency set before its SPM |
| `SparePimController.Controller.EnqueuePvStage` | src/dram_controller/impl/sparepim_controller.cpp:484-530 | the loops emit the program of the stage; rows plus page hits are the counts; SPM cycles are the sum of the latencies |
| `SparePimController.Controller.EnqueueAccs` | src/dram_controller/impl/sparepim_controller.cpp:360-362 | the loop emits the accumulations, whose banks `SparePimMacs.AccBanks` states |
| `SparePimController.Controller.EnqueueReadDelay` | src/dram_controller/impl/sparepim_controller.cpp:589-607 | the delay of the reads, and what they add to the counters |
| `SparePimController.Controller.ReadVocs` | src/dram_controller/impl/sparepim_controller.cpp:391-425 | maximum, total, number of values and of rises, over bank groups with a short last one |
| `SparePimController.Controller.ExpandToken` | src/dram_controller/impl/sparepim_controller.cpp:319-365 | the operations of one token, and what it adds to every counter of rows, hits, counts, reads and cycles |
| `SparePimController.Controller.ExpandRequest` | src/dram_controller/impl/sparepim_controller.cpp:311-381 | the operations of any accepted request |
| `SparePimController.Controller.TickDelay` | src/dram_controller/impl/sparepim_controller.cpp:624-635 | a delay ends exactly its cycles after it was first looked at |
| `SparePimController.Controller.IssueIfReady` | src/dram_controller/impl/sparepim_controller.cpp:637-645 | a command is issued from the clock on that the device's trace fixes, and that clock does not move while it waits |
| `SparePimController.Controller.Work` | src/dram_controller/impl/sparepim_controller.cpp:275-291 | one cycle's effect on the first operation, whole new state; what was executed and what is left are the programs of the requests begun |
| `SparePimController.Controller.StartNext` | src/dram_controller/impl/sparepim_controller.cpp:265-269 | the first waiting request is expanded; rows plus page hits stay the sum of the largest counts |
| `SparePimController.Controller.AdvanceClock` | src/dram_controller/impl/sparepim_controller.cpp:262-263 | the clock brings the first operation closer |
| `SparePimController.Controller.Tick` | src/dram_controller/impl/sparepim_controller.cpp:262-292 | requests stay in order of acceptance, at most one completes, and unless idle the measure of remaining work falls, with readiness answered by the timing tree |
| `SparePimController.RunUntilCompleted` | src/dram_controller/impl/sparepim_controller.cpp:262-292 | whatever is sent in between, every accepted request completes after finitely many cycles, in order and once |
| `SparePimController.TraceFrontend.Tick` | src/frontend/impl/sparepim/sparepim_trace.cpp:119-143 | the next request of the trace is sent until it is accepted |
| `SparePimController.RunTrace` | src/frontend/impl/sparepim/sparepim_trace.cpp:119-148 | unless the queue has size zero the simulation ends with the completed requests equal to the trace |
| `SparePimController.NeverStarts` | src/frontend/impl/sparepim/sparepim_trace.cpp:137-142 | with size zero it never ends |
| `SparePimController.FrontendAndControllerAgree` | src/frontend/impl/sparepim/sparepim_trace.cpp:315-324 | controller and frontend find the same maximum and total |
| `BankStorage.KeyIsNumber` | src/dram_controller/impl/bank_storage.h:16-25 | the packed key is the number with the cut fields as digits |
| `BankStorage.KeysAgree` | src/dram_controller/impl/bank_storage.h:16-25 | two addresses share a key if and only if they agree in every field, cut to its width |
| `BankStorage.FirstWrite` | src/dram_controller/impl/bank_storage.h:27-31 | a write to the first bank changes what it holds at one cell |
| `BankStorage.LaterWrite` | src/dram_controller/impl/bank_storage.h:27-31 | the same column written to other banks does not disturb it |
| `BankStorage.BankStorage.WriteCol` | src/dram_controller/impl/bank_storage.h:27-31 | exactly sixteen values are stored under the key, cut off or filled up with zeros, and every other key keeps its column |
| `BankStorage.BankStorage.ReadCol` | src/dram_controller/impl/bank_storage.h:33-39 | the stored column, or zeros, which are then stored |
| `Golden.RowIndex` | src/golden/elemax_sdpa.cpp:32-35 | the flat index of a row is its number times the width |
| `Golden.RowDecoded` | src/golden/elemax_sdpa.cpp:29-29 | which rows of keys a query row uses, with grouped heads |
| `Golden.HeadsAreGrouped` | src/golden/elemax_sdpa.cpp:29-29 | head h shares the keys of head g exactly if g * heads <= h * kvHeads < (g + 1) * heads: consecutive heads, in groups of heads / kvHeads where that divides |
| `GoldenExact.ExactOutput` | src/golden/elemax_sdpa.cpp:17-108 | in exact arithmetic every output is the sum over the keys of its group of weight times rectified inner product times value |
| `Golden.ElemaxSdpa.DotProduct` | src/golden/elemax_sdpa.cpp:44-49 | the running sum in the order of the loop |
| `Golden.ElemaxSdpa.ScoreRow` | src/golden/elemax_sdpa.cpp:37-73 | scores, mask bits and weights of one query row at their places |
| `Golden.ElemaxSdpa.SumPv` | src/golden/elemax_sdpa.cpp:76-96 | the sparse sum of one output |
| `Golden.ElemaxSdpa.Compute` | src/golden/elemax_sdpa.cpp:17-108 | the output tensor, element by element |
| `SparePimFunctional.LayoutIsDisjoint` | src/dram_controller/impl/sparepim_controller.cpp:427-441 | what a configuration must meet for all columns to have cells of their own |
| `SparePimFunctional.StoredReadsBack` | src/dram_controller/impl/sparepim_controller.cpp:677-731 | with cells of their own all columns read back as they were stored |
| `SparePimFunctional.SharedCellLosesData` | src/dram_controller/impl/sparepim_controller.cpp:677-731 | and if two columns share a cell, some keys and values do not read back: the condition is exact |
| `SparePimCells.MacCellByDivision` | src/dram_controller/impl/sparepim_controller.cpp:427-482 | as long as rows do not wrap around, the i-th MAC goes to the cell of logical column ktCol + i, by division, as many rows further on as the token's address says |
| `SparePimCells.MacsDiffer` | src/dram_controller/impl/sparepim_controller.cpp:471-474 | so no two MACs of a token go to the same cell |
| `SparePimCells.MacsReadTheKeys` | src/dram_controller/impl/sparepim_controller.cpp:693-710 | the i-th MAC goes to the cell in which the functional path stores column i of the keys if and only if the row of the token's address is a multiple of the rows of a bank |
| `SparePimCells.MacsOnDisjointCells` | src/dram_controller/impl/sparepim_controller.cpp:693-729 | on a layout of disjoint cells they then go to pairwise different cells, none of which holds values |
| `SparePimCells.SpmsReadTheValues` | src/dram_controller/impl/sparepim_controller.cpp:503-529 | column x of the values lies in the row of the SPM whose number is that of its page, under the same condition |
| `SparePimFunctional.SamePv` | src/dram_controller/impl/sparepim_controller.cpp:733-791 | what is computed from the banks is the reference's output, operation by operation |
| `SparePimFunctional.FunctionalPath.constructor` | src/dram_controller/impl/sparepim_controller.cpp:677-731 | setup: the reference output and the stored image |
| `SparePimFunctional.FunctionalPath.WriteAllBanks` | src/dram_controller/impl/sparepim_controller.cpp:703-709 | a column written to every bank, in the first bank's image |
| `SparePimFunctional.FunctionalPath.CollectColumn` | src/dram_controller/impl/sparepim_controller.cpp:693-700 | sixteen elements, the last column filled up with zeros |
| `SparePimFunctional.FunctionalPath.StoreKeys` | src/dram_controller/impl/sparepim_controller.cpp:693-710 | the keys of one position |
| `SparePimFunctional.FunctionalPath.StoreValues` | src/dram_controller/impl/sparepim_controller.cpp:712-729 | the values of one position |
| `SparePimFunctional.FunctionalPath.HwScoreOf` | src/dram_controller/impl/sparepim_controller.cpp:744-762 | one score from the columns read |
| `SparePimFunctional.FunctionalPath.ScoreKeys` | src/dram_controller/impl/sparepim_controller.cpp:744-772 | scores, mask bits and weights of one query |
| `SparePimFunctional.FunctionalPath.HwSum` | src/dram_controller/impl/sparepim_controller.cpp:774-789 | one output from the columns read |
| `SparePimFunctional.FunctionalPath.ExecuteToken` | src/dram_controller/impl/sparepim_controller.cpp:319-325 | the next row is computed; tokens beyond the sequence do nothing |
| `SparePimFunctional.FunctionalPath.HardwareEqualsGolden` | src/dram_controller/impl/sparepim_controller.cpp:677-791 | the rows computed so far equal the reference's exactly |
| `SparePimFunctional.RunTokens` | src/dram_controller/impl/sparepim_controller.cpp:677-791 | setup and any number of tokens on a disjoint layout |
| `Fp16.HalfRounds` | src/golden/fp16.h:17-42 | a finite float becomes a finite half exactly below 2^16 in magnitude, same sign, rounded towards zero; beyond it infinity |
| `Fp16.RoundTowardZero` | src/golden/fp16.h:17-42 | of all finite halves not exceeding the float's magnitude it is the largest (roundTowardZero, section 4.3.2 of IEEE 754-2019) |
| `Fp16.ToHalfIsMonotone` | src/golden/fp16.h:17-42 | larger floats never become smaller halves, negative ones and infinity included |
| `Fp16.SpecialToHalf` | src/golden/fp16.h:26-27 | infinities stay infinities, NaNs stay NaNs |
| `Fp16.Normalize` | src/golden/fp16.h:54-60 | the loop finds the leading bit and keeps the value |
| `Fp16.ToFloat` | src/golden/fp16.h:45-72 | the float has exactly the half's value |
| `Fp16.RoundTrip` | src/golden/fp16.h:17-72 | half to float and back is the identity, NaNs aside |

## Left out

- Ddr4Rank.PrerequisiteLeadsOn: bank states are one table per rank instead of a walk over the node tree (`update_states`, `update_powers`); command counters and energies are not modelled.
- Ddr4.Device.Issue: one channel per device, and nRFC of at least 2; the constraint list is the device's own, timing presets are arbitrary values.
- Ddr4.Device.constructor: every level has at least one node.
- GenericController.Controller.Tick: the refresh manager, row policy and plugins appear as the requests they send between cycles; row-hit statistics are not modelled.
- GenericController.Controller.Send: the source's exception for other request types appears as a rejection.
- Timing.RunSafety: constraints below the scope of the following command are not checked by the source either (PREA and REFab in HBM3 stop at the channel), so none is claimed for them.
- Hydra.Hydra.CountRow: a request of a full priority buffer is lost in the source; here every request is sent.  Keeping the rows that store counters away from programs (`reserve_rows_for_rct`) is not part of this model.
- CounterLayout.CountersAreConsecutive: counters whose width divides 512 bits; with 24-bit counters a counter can straddle two lines, and only `CounterLayout.CounterLies` holds.
- Hydra.Hydra.constructor: the rows of a bank and the sets of the cache are powers of two, as in every device here; the source takes rounded-down logarithms of both.  A tracking threshold of one is excluded, as setup then divides by a counter width of zero.
- Rrs.RandomizedRowSwap.Update: copies are taken to be carried out in the order they are issued, and the priority queue to have room; the source ends the program otherwise.
- RrsQueue.LateWrites: the queued writes are carried out after all copies of the swap; requests already being served between two copies are not modelled.
- Rrs.RandomizedRowSwap.GetRandRow: drawing for ever is running out of a given list of samples.
- AddressMap.LinearMapper.RoBaRaCoCh: the row is the level above the column, as in every device here.
- AddressMap.LinearMapper.Mop4ClXor: the cast of the row to 32 bits is not modelled; it matters only for addresses beyond any device.
- SparePimController.Controller.Work: commands the device has seen are counted by their trace, not by separate counters.
- SparePimController.Controller.IssuedKeepsProtocol: open rows are those of `SparePimProtocol.Machine`, one at most per bank; the row map of a device node is not modelled, nor does anything in the source consult it for these commands.
- Hbm3.Device.constructor: one channel per device.
- Hbm3.Device.SpmRunsItsLatency: a precharge of all banks is checked at the channel only, so it does not wait for an SPM;
  `Hbm3Gaps.AllBankCommandsSkipTheirGaps` says exactly when it is ready.
- SparePimController.RunUntilCompleted: requests put at the front of the queue by `priority_send` are left out; they can delay others for ever.
- SparePimController.RunTrace: frontend and memory tick in turn; other clock ratios, trace parsing and validation are left out.
- SparePimFunctional.RunTokens: the outputs are compared element by element, exactly; the source's comparison allows a tolerance.
- Fp16.ToHalf: the bit operations on disjoint fields are written as sums.
- The other devices' tables, all presets and density checks: data.
- PRAC, BlockHammer, BLISS, AQUA, counter-based TRR, random translation, the gem5 wrapper, statistics output, configuration parsing.
