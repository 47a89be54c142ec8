# A verified model of the building-management bridge and its services

This project models the logic at the core of a building-management system in Dafny and proves
properties of it: the Modbus bridge (block-read planning, register codec, poll loop with backoff), the
alarm engine and its interleavings, device naming, the discovery lifecycle over four stores, and the
text and tree transformations around them. `dafny verify dfyconfig.toml` checks everything.

## What is modelled

**Modbus bridge** (`ModbusTypes`, `BlockPlanner`, `RegisterCodec`, `WordBits`, `DeviceAccess`, `DeviceWrites`,
`DeviceBackoff`, `LivePoints`, `PollLoop`, `PollFlags`, `PollRuns`, `PollHistory`). The planner sorts the points of each register type
and merges them greedily into block reads; a second definition, by runs of the sorted list, says what
that comes to. Main results: the plan is a partition of the points, respects the frame limits of sections
6.1 to 6.4 of the MODBUS Application Protocol Specification V1.1b3, is optimal among all ways to cut the sorted
points into reads within the limits, and among all groupings whatever when range ends never decrease, and block polling returns exactly what polling each point on its own would return, precisely
when no run of a sorted list ends on a point that stops short of an earlier one. A reply of a device is a
parameter: any data of any length, or an error. The poll loop is a class that is proved against a pure step
function, and whole runs of that function are related to the history of attempts: events, down mark, and the value
and fault flag of every point. Writes go through the codec or through a masked write, and are followed by the read.

**Alarm engine** (`AlarmEngine`, `AlarmInterleaving`, `SinkOrder`). One critical section per matching rule is an atomic
step; the sink call that follows it, after the lock is dropped, is a step of its own. The results hold for
every interleaving of any number of calls, and say with how many calls at a time the sink hears them in order.

**Naming** (`Numerals`, `Naming`). Detection and generation of numbered names, down to decimal printing,
zero padding and the backward scan for the last digit run.

**Discovery lifecycle** (`Grouping`, `NodeStores`, `DiscoveryService`, `DiscoveryLifecycle`, `AcceptOrder`, `Regrouping`,
`DiscoveryScans`, `DiscoveryRuns`). Scanning, accepting, un-accepting, ignoring,
regrouping and hydrating, over the device, node, entity and live point stores. The node and
entity stores are tables with their foreign keys: a missing parent makes an insert fail, deleting a node
clears the parent of its children, deleting an entity also removes the references to it. Results about single
commands are stated for any stores. Every run of commands from empty stores, in which devices may be scanned again
and ignored whatever their state, keeps an invariant, from which the results about runs follow.

**Text and trees** (`Text`, `PluginManifest`, `NavTree`, `LayoutPruning`, `MetaBlocks`, `RustLiterals`,
`SupertypeChain`). The plugin manifest printer and its hand-written parser, edits of the navigation tree,
the clean-up of saved layouts, the splitter of xeto meta blocks, the printer of Rust string literals, and
the supertype walk with its cycle guard.

## Properties that turned out to need a condition

Where the code meets a property only sometimes, the condition is stated as an equivalence, except for the optimality
of merging against arbitrary groupings, where it is a sufficient one. Failing inputs are shown where they are not obvious.

- The count of a block is the end of its *last* point, so a range nested inside an earlier one shrinks the
  block (`NestedRangeShrinksBlock`). Coverage and agreement with point polling hold exactly when every run
  ends on the point that reaches furthest (`CoverageExactly`, `PlanCoversExactly`, `BlockPollingAgreesExactly`).
- Greedy merging uses no more reads than any cut of the sorted points. Against groups that are not stretches of the
  sorted points it can lose a read if a range is nested in another (`NestedRangeCostsARead`), and never if range ends
  do not decrease (`MergeIsOptimal`).
- Flagging a point the live store does not know does nothing. All configured points carry DOWN exactly while
  the device is marked down, in every run, if and only if every configured point is in the store from the
  start without that flag (`DownFlagsAgreeExactly`). Hydration is what puts them there
  (`HydrateAddsExactlyTheMissing`).
- Scanning an accepted device again updates its points but not its rows in the other stores. A point that the scan drops
  keeps its rows when the device is un-accepted (`DroppedPointStaysBehind`): nothing is left of a device if and only if every
  row it had was its own or that of a point it still has (`UnacceptLeavesNothingExactly`). A scan leaves a device in its
  group if and only if the scanned kinds have that group (`ScanKeepsGroupedExactly`, `RescanNeedsRegrouping`).
- Ignoring an accepted device leaves its rows in place, and accepting it again with other kinds leaves an empty group
  (`IgnoringMayLeaveEmptyGroup`, `AcceptLeavesNoEmptyGroupExactly`). No group is ever empty and only accepted devices have
  equip nodes, all through a run, if and only if no device is ignored, or taken back, while it is accepted
  (`TidyExactlyWhenCareful`).
- Two devices can be accepted in either order with the same stores as a result, events aside, if and only if they do not
  compete for naming a new group (`AcceptOrderMattersExactly`).
- A holding mapping may ask for fewer registers than its data type writes, or take out bits. Writing and reading
  back is the identity on all in-range integers if and only if it does neither (`WriteThenReadExactly`,
  `ShortReadLosesHalf`).
- A truth value written to a whole register reads back through a bit offset if and only if the device has the registers
  the write takes, the offset is 0, or 8 in little-endian byte order, and the first register is the low one
  (`TruthThroughOffsetExactly`).
- The FC22 masks for setting a bit leave the register as it is, by the formula in section 6.16 of the same
  specification (`SetChangesNothing`). The code comment says the bits are set. A masked write reads back as written
  if and only if it clears or some masked bit was set; where the mapping has a bit offset too, the read looks at that
  bit and not at the mask, and the condition is on that bit (`MaskedWriteReadsBackExactly`, `OffsetOverridesMask`).
- Lock order is not sink order: the sink may hear a clear before its own trigger (`SinkMayHearClearFirst`). It hears
  the log in order in all runs with at most k open calls if and only if k is at most one, and each rule's transitions
  in order in all runs with at most k open calls for one node if and only if k is at most one
  (`SinkHearsInOrderExactly`, `RulesHeardInOrderExactly`).
- Detection continues generation if and only if the increment could be seen in the examples
  (`DetectionContinuesGeneration`).
- For a device that no store knows, un-accepting right after accepting restores the node store if and only if it held no
  empty group before, and the state if and only if the device was not ignored (`UnacceptUndoesAccept`). In every run it
  restores all stores if and only if none knew the device or a point it has, and no group was empty
  (`AcceptUndoneInEveryRun`); the time of acceptance is never taken back, since the store may overwrite it but never clears it
  (crates/bms-store-storage/src/store/discovery_store.rs:896-918).
- One sweep removes all empty groups, in whatever order they are listed, if and only if no group holds nothing
  but empty groups (`SweepLeavesNoEmptyGroupExactly`, `NestedGroupsSurvive`).
- Regrouping reports zero the second time if and only if every processed device has an equip node, and then changes
  nothing if and only if the first one left no empty group (`RegroupConverges`). It leaves none, in whatever order
  groups are listed, if and only if no group will hold nothing but groups without children once the devices are moved,
  which can be read off the stores beforehand (`RegroupLeavesNoEmptyGroupExactly`, `RegroupSettlesExactly`). Nested
  groups can be made through the node routes (crates/bms-store-server/src/api/routes/nodes.rs:197-203), and
  `RegroupMayLeaveEmptyGroup` shows one that is left behind; the service makes none by itself, so in its own runs
  a second regrouping never has work (`RegroupingSettlesInEveryRun`).
- A manifest survives printing and parsing if and only if no string has a newline and no file name has a comma
  (`ParseUndoesSerializeExactly`). Quotes, brackets, `=` and `#` inside the strings do no harm. The parser panics
  if and only if the value of some entry is a lone quote mark, or an array with an item that is one inside any number
  of brackets (`ValuePanicsExactly`, `ParsePanicsExactly`).

## Model

| member | source | states |
|---|---|---|
| BlockPlanner.PlanBlockReads | crates/bms-store-bridges/src/bridge/modbus.rs:344-433 | The planner's loops compute the plan: one sorted list per register type, merged greedily, whatever order the types come in |
| BlockPlanner.GroupByType | crates/bms-store-bridges/src/bridge/modbus.rs:344-355 | Every type's list holds exactly that type's points, in configuration order |
| BlockPlanner.MergeSorted | crates/bms-store-bridges/src/bridge/modbus.rs:377-429 | One pass with a current block appends the greedy merge of a type's points to the blocks of earlier types |
| BlockPlanner.SortSorts | crates/bms-store-bridges/src/bridge/modbus.rs:374-375 | Sorting orders by address and keeps the points as a multiset |
| BlockPlanner.SortIsStable | crates/bms-store-bridges/src/bridge/modbus.rs:374-375 | Members with equal addresses keep increasing indices if they came in that way |
| BlockPlanner.SortedOfIsStable | crates/bms-store-bridges/src/bridge/modbus.rs:344-375 | In the sorted list of every type, points with equal addresses stay in configuration order |
| BlockPlanner.MergeIsRuns | crates/bms-store-bridges/src/bridge/modbus.rs:391-423 | The loop closes exactly one block per maximal run of members that join the one before, and that block holds exactly that run |
| BlockPlanner.MergeKeepsMembers | crates/bms-store-bridges/src/bridge/modbus.rs:400-423 | Merging keeps every member once, in order, at its own address and with its own count |
| BlockPlanner.PlanPartitions | crates/bms-store-bridges/src/bridge/modbus.rs:344-433 | For every order of types, the blocks together hold each configured point exactly once, in a block of its own type, with start plus offset equal to its address |
| BlockPlanner.PlanWithinLimits | crates/bms-store-bridges/src/bridge/modbus.rs:318-323 | If every point can be requested on its own, every block is a request of 1 to 125 registers or 1 to 2000 bits inside the address space |
| BlockPlanner.CoverageExactly | crates/bms-store-bridges/src/bridge/modbus.rs:393-409 | Every member of every block ends inside its block if and only if every run ends on the member that reaches furthest |
| BlockPlanner.CoverageWhenEndsNeverDecrease | crates/bms-store-bridges/src/bridge/modbus.rs:393-409 | Coverage holds whenever range ends never decrease in sorted order |
| BlockPlanner.PlanCoversExactly | crates/bms-store-bridges/src/bridge/modbus.rs:344-433 | The same equivalence for the whole plan: coverage holds if and only if it does for the sorted list of every type |
| BlockPlanner.NestedRangeShrinksBlock | crates/bms-store-bridges/src/bridge/modbus.rs:402 | A one-register range nested in a four-register one shrinks the block from four registers to two and uncovers the first point |
| BlockPlanner.MergeIsOptimal | crates/bms-store-bridges/src/bridge/modbus.rs:377-429 | No assignment of a type's sorted points to reads within the gap and span limits uses fewer reads, if every read is a stretch of the sorted points, or if range ends never decrease |
| BlockPlanner.NestedRangeCostsARead | crates/bms-store-bridges/src/bridge/modbus.rs:393-421 | With a nested range, five register ranges merge into three blocks where an admissible grouping that is not made of stretches needs two |
| BlockPlanner.MergeAttainsOptimum | crates/bms-store-bridges/src/bridge/modbus.rs:377-429 | The greedy blocks are themselves such an assignment into stretches, so the bound is attained |
| RegisterCodec.SwapInPlace | crates/bms-store-bridges/src/bridge/modbus.rs:1938-1943 | The in-place loop swaps the bytes of every register |
| RegisterCodec.AssembleSplit32 | crates/bms-store-bridges/src/bridge/modbus.rs:1949-1957 | Assembling a split 32-bit word gives it back in either word order |
| RegisterCodec.SplitAssemble32 | crates/bms-store-bridges/src/bridge/modbus.rs:1981-1988 | Splitting an assembled pair of registers gives the pair back |
| RegisterCodec.AssembleSplit64 | crates/bms-store-bridges/src/bridge/modbus.rs:1960-1978 | Assembling a split 64-bit word gives it back in either word order |
| RegisterCodec.SplitAssemble64 | crates/bms-store-bridges/src/bridge/modbus.rs:1991-2000 | Splitting four assembled registers gives them back |
| RegisterCodec.DecodeEncode | crates/bms-store-bridges/src/bridge/modbus.rs:1874-1946 | For every integer type, byte order, word order and nonzero scale, decoding an encoded value gives the saturated, truncated number of raw units divided by the scale |
| RegisterCodec.EncodeDecode | crates/bms-store-bridges/src/bridge/modbus.rs:1874-1946 | Encoding a decoded register image gives back the registers, for every integer type, order and nonzero scale |
| RegisterCodec.IntegersRoundTrip | crates/bms-store-bridges/src/bridge/modbus.rs:1874-1946 | At scale one, decode after encode is the identity on in-range integers |
| RegisterCodec.InRangeWriteIsClose | crates/bms-store-bridges/src/bridge/modbus.rs:1926-1933 | Over exact reals, an in-range scaled write reads back within less than 1 / abs(scale) |
| RegisterCodec.OutOfRangeWriteIsClamped | crates/bms-store-bridges/src/bridge/modbus.rs:1926-1933 | An out-of-range write reads back as the type's limit divided by the scale |
| RegisterCodec.BooleansRoundTrip | crates/bms-store-bridges/src/bridge/modbus.rs:1889-1929 | A truth value survives a Boolean register at every nonzero scale |
| RegisterCodec.FloatBitsSurvive | crates/bms-store-bridges/src/bridge/modbus.rs:1934-1943 | The bit pattern of either float type survives split, swap, swap and assemble in all four orders |
| RegisterCodec.DecodedImage | crates/bms-store-bridges/src/bridge/modbus.rs:1874-1917 | For every data type and register image of any length, decoding reads the registers as digits of one number in the byte and word order of the device; the number is a truth value, an unsigned or two's complement integer, or the bits of a float, and is divided by the scale |
| RegisterCodec.EncodedImage | crates/bms-store-bridges/src/bridge/modbus.rs:1919-1946 | For every value, the encoded registers read as digits are the value times the scale: saturated and cut off toward zero for an integer type, one for any truth but zero, the bits of the float for a float type |
| RegisterCodec.FloatsRoundTrip | crates/bms-store-bridges/src/bridge/modbus.rs:1874-1946 | In all four orders and at every nonzero scale, a number written as a float reads back as itself if and only if the bits of the scaled number stand for the scaled number |
| RegisterCodec.FloatImagesRoundTrip | crates/bms-store-bridges/src/bridge/modbus.rs:1874-1946 | A float image whose number has those bits again is encoded as it was |
| DeviceAccess.PlannedPoint | crates/bms-store-bridges/src/bridge/modbus.rs:400-423 | What a block records about a point is the point's own type, address and count |
| DeviceAccess.BlockPollingRefinesPointPolling | crates/bms-store-bridges/src/bridge/modbus.rs:1596-1628 | For every device memory, order and mapping: every planned request succeeds, and slicing, decoding and bit-extracting the block gives a point exactly what reading it alone gives, or a fault if it ends past its block |
| DeviceAccess.BlockPollingAgreesExactly | crates/bms-store-bridges/src/bridge/modbus.rs:1528-1652 | Block polling agrees with per-point polling on all points if and only if every run ends on the point that reaches furthest |
| WordBits.BitsDetermineWord | crates/bms-store-bridges/src/bridge/modbus.rs:1751-1755 | Two registers agree on all sixteen extracted bits if and only if they are equal |
| DeviceAccess.DecodedPoint | crates/bms-store-bridges/src/bridge/modbus.rs:1746-1762 | The registers of a point decode to the binary digit at the bit offset, or to whether a digit is set in both register and mask, or to the codec's value in the data type and scale of the mapping, unsigned and one where it names none |
| DeviceAccess.ReadPointIs | crates/bms-store-bridges/src/bridge/modbus.rs:1769-1810 | A point read on its own gives its bit, or the decoding of as many registers as the mapping asks for, or else as its data type takes; a request the device refuses fails |
| DeviceAccess.BitsIgnoreByteOrder | crates/bms-store-bridges/src/bridge/modbus.rs:1746-1762 | A bit or mask is read off the register as it came over the wire, whatever byte order is configured |
| DeviceWrites.DecodeIgnoresRest | crates/bms-store-bridges/src/bridge/modbus.rs:1874-1917 | A decoder looks at no more registers than its data type occupies |
| DeviceWrites.WriteThenRead | crates/bms-store-bridges/src/bridge/modbus.rs:1812-1853 | A holding-register write reads back as the decoding of the written registers when at least those are read |
| DeviceWrites.CoilCommandExactly | crates/bms-store-bridges/src/bridge/modbus.rs:1826-1836 | A command switches a coil on for a truth, a nonzero integer or a nonzero number, and off otherwise, whatever else the mapping says; it reads back so, and no other bit and no register changes |
| DeviceWrites.InputsRefuseWrites | crates/bms-store-bridges/src/bridge/modbus.rs:1849-1852 | No value can be written to an input register or a discrete input |
| DeviceWrites.HoldingCommandExactly | crates/bms-store-bridges/src/bridge/modbus.rs:1837-1848 | Without a mask, a holding write puts the encoded registers at the address and changes nothing else, if and only if the device has all of them |
| DeviceWrites.WriteThenReadExactly | crates/bms-store-bridges/src/bridge/modbus.rs:1769-1853 | For every readable holding mapping at scale one, write then read is the identity on every in-range integer if and only if the mapping has no bit offset, no mask, and reads at least as many registers as its type writes |
| DeviceWrites.ShortReadLosesHalf | crates/bms-store-bridges/src/bridge/modbus.rs:1866-1872 | With an explicit count that is too small, 65537 does not read back |
| DeviceWrites.SetChangesNothing | crates/bms-store-bridges/src/bridge/modbus.rs:1441-1442 | The masks for setting leave every register unchanged |
| DeviceWrites.ClearClearsOnlyMask | crates/bms-store-bridges/src/bridge/modbus.rs:1443-1445 | After clearing, each of the sixteen bits is set exactly if it was and is not under the mask |
| DeviceWrites.TruthThroughOffsetExactly | crates/bms-store-bridges/src/bridge/modbus.rs:1751-1755 | Without a mask, both truth values read back through a bit offset if and only if the write ends at address 65535 at the latest, the offset is 0, or 8 in little-endian byte order, and the type has one register or little-endian word order |
| DeviceWrites.MaskedWriteElsewhere | crates/bms-store-bridges/src/bridge/modbus.rs:1446-1449 | A masked write leaves every other register and every bit of the device as it was |
| DeviceWrites.ReadAfterMasked | crates/bms-store-bridges/src/bridge/modbus.rs:1430-1470 | What the read after a masked write gives: the bit at the offset if there is one, and otherwise whether any masked bit is set |
| DeviceWrites.MaskedWriteReadsBackExactly | crates/bms-store-bridges/src/bridge/modbus.rs:1430-1470 | A masked write of a truth value reads back as written if and only if it clears or a masked bit was set before; with a bit offset, if and only if that bit was set (for a set), or was clear or is under the mask (for a clear) |
| DeviceWrites.OffsetOverridesMask | crates/bms-store-bridges/src/bridge/modbus.rs:1753-1759 | Bit 3 of a register that holds 8, under mask 1: clearing reads back as true |
| DeviceBackoff.DelayGrows | crates/bms-store-bridges/src/bridge/backoff.rs:33-40 | The delay is min(2^k, 300) seconds in spite of the saturating power, and never decreases in k |
| DeviceBackoff.DeviceBackoff.RecordFailure | crates/bms-store-bridges/src/bridge/backoff.rs:33-40 | Counts one more failure, saturating, and sets the next retry by the new count; the down mark stays |
| DeviceBackoff.DeviceBackoff.RecordSuccess | crates/bms-store-bridges/src/bridge/backoff.rs:28-31 | Forgets the failures and allows an attempt at once; the down mark stays |
| LivePoints.PointStore.SetIfChanged | crates/bms-store-storage/src/store/point_store.rs:97-183 | Skipping an equal value gives the same table as storing it; the flags stay |
| LivePoints.PointStore.SetStatus | crates/bms-store-storage/src/store/point_store.rs:239-263 | Sets one flag of a known point; an unknown point stays unknown |
| LivePoints.PointStore.ClearStatus | crates/bms-store-storage/src/store/point_store.rs:266-290 | Clears one flag of a known point; an unknown point stays unknown |
| PollLoop.Poller.constructor | crates/bms-store-bridges/src/bridge/modbus.rs:1507-1518 | A new loop has planned its blocks, no failures and no events |
| PollLoop.Poller.ApplyBlock | crates/bms-store-bridges/src/bridge/modbus.rs:1596-1647 | Applying a reply is applying the samples of its points, in block order |
| PollLoop.Poller.Wake | crates/bms-store-bridges/src/bridge/modbus.rs:1519-1694 | One wake: nothing before the retry time, otherwise all blocks and then the backoff step |
| PollLoop.Poller.Settle | crates/bms-store-bridges/src/bridge/modbus.rs:1654-1693 | The backoff step: down at the threshold with flags and event, recovered at a clean cycle |
| PollFlags.PlanIndicesDistinct | crates/bms-store-bridges/src/bridge/modbus.rs:344-433 | No point occurs in two places of a plan |
| PollFlags.PlanUpdatesDistinct | crates/bms-store-bridges/src/bridge/modbus.rs:1528-1652 | With distinct point ids, a cycle updates every key at most once |
| PollFlags.CycleFollowsSamples | crates/bms-store-bridges/src/bridge/modbus.rs:1528-1652 | After a cycle a point carries FAULT exactly when its read failed or its slice fell past a short reply; then it keeps its last value, otherwise it has the decoded one; flags other than FAULT and DOWN are untouched |
| PollFlags.CycleDecidesPoint | crates/bms-store-bridges/src/bridge/modbus.rs:1528-1652 | On the store alone: a known point carries FAULT after a cycle if and only if its read failed or the reply ends before the point does, and then keeps its value; otherwise it holds the bit at its place in the reply, or the decoding of its registers there. An unknown point gets an entry only with a value |
| PollHistory.EveryPointIsServed | crates/bms-store-bridges/src/bridge/modbus.rs:344-433 | Every configured point has a place in the plan |
| PollHistory.PointFollowsSample | crates/bms-store-bridges/src/bridge/modbus.rs:1528-1652 | Every configured point follows its own sample in every cycle |
| PollHistory.RunFollowsSamples | crates/bms-store-bridges/src/bridge/modbus.rs:1519-1694 | After every run a configured point holds the value of the last attempt that brought one, carries FAULT exactly when the last attempt did not, and has kept its flags other than FAULT and DOWN |
| PollFlags.CycleLeavesOthers | crates/bms-store-bridges/src/bridge/modbus.rs:1528-1693 | A cycle leaves all keys of other devices and points alone, DOWN included |
| PollFlags.AllFlaggedAt | crates/bms-store-bridges/src/bridge/modbus.rs:1659-1666 | The flagging loop changes the DOWN bit of known configured points and nothing else |
| PollFlags.AllUnflaggedAt | crates/bms-store-bridges/src/bridge/modbus.rs:1677-1684 | The clearing loop changes the DOWN bit of known configured points and nothing else |
| PollRuns.RunIsConsistent | crates/bms-store-bridges/src/bridge/modbus.rs:1519-1694 | After any run with any replies and wake times: failures is the length of the failing streak, the down mark holds exactly for streaks of five or more, and the events are exactly those of the history of attempts |
| PollRuns.EventsAlternate | crates/bms-store-bridges/src/bridge/modbus.rs:1654-1693 | DeviceDown and DeviceRecovered strictly alternate, DeviceDown first, and the log ends on a DeviceDown exactly while a streak of five or more lasts |
| PollRuns.RunEventsAlternate | crates/bms-store-bridges/src/bridge/modbus.rs:1519-1694 | In every run the events alternate, DeviceDown first, and the device is marked down exactly while the last event is DeviceDown, which is while five or more attempts in a row have failed |
| PollRuns.RunKeepsDownFlags | crates/bms-store-bridges/src/bridge/modbus.rs:1654-1693 | If all configured points are known and agree with the down mark, they do after every run |
| PollRuns.DownFlagsAgreeExactly | crates/bms-store-bridges/src/bridge/modbus.rs:1659-1684 | All configured points carry DOWN exactly while the device is down, in all runs, if and only if all are in the store from the start without DOWN |
| PollRuns.UnknownPointMissesDown | crates/bms-store-storage/src/store/point_store.rs:239-263 | Five failing attempts leave a point that the store does not know without DOWN while the device is down |
| PollRuns.SkippedWakesChangeNothing | crates/bms-store-bridges/src/bridge/modbus.rs:1522-1524 | Any number of wakes before the retry time change no state at all |
| PollRuns.RetryTiming | crates/bms-store-bridges/src/bridge/backoff.rs:33-44 | With a fixed sleep, after the k-th consecutive failure the next attempt comes no earlier than min(2^k, 300) seconds and less than one interval after that |
| PollRuns.CleanAttemptIsNotDelayed | crates/bms-store-bridges/src/bridge/backoff.rs:28-31 | After a clean attempt the very next wake attempts again |
| PollRuns.SaturatedDelay | crates/bms-store-bridges/src/bridge/backoff.rs:34-38 | The saturation of the 32-bit failure count does not show in the delay |
| AlarmEngine.AlarmEngine.Evaluate | crates/bms-store-alarms/src/engine.rs:59-106 | Without other calls in between: each matching rule's critical section in rule order, and its sink call |
| AlarmEngine.SectionSpelledOut | crates/bms-store-alarms/src/engine.rs:69-105 | What a critical section does, field by field: a new alarm, a cleared one, or nothing, by the side of the threshold or the band the value is on |
| AlarmEngine.EvaluateVisitsRules | crates/bms-store-alarms/src/engine.rs:59-69 | Evaluating the matching rules is visiting all rules in order and leaving out disabled ones and those of other nodes |
| AlarmEngine.AlarmEngine.AcknowledgeAlarm | crates/bms-store-alarms/src/engine.rs:109-115 | Marks the active alarm of a rule and returns it, or returns nothing and changes nothing |
| AlarmEngine.AcknowledgeMarksOne | crates/bms-store-alarms/src/engine.rs:109-115 | Acknowledging sets status and time of the rule's active alarm, and changes no other field and no other alarm |
| AlarmEngine.AlarmEngine.AddRule | crates/bms-store-alarms/src/engine.rs:45-47 | Appends a rule and changes no alarm |
| AlarmEngine.AlarmEngine.NextAlarmId | crates/bms-store-alarms/src/engine.rs:117-122 | Prints the counter with eight-digit padding and counts on |
| AlarmEngine.AlarmIdInjective | crates/bms-store-alarms/src/engine.rs:117-122 | Different counters print as different ids, past eight digits too |
| AlarmEngine.AlarmIdReads | crates/bms-store-alarms/src/engine.rs:117-122 | An id is `alarm-` and at least eight digits, which parse to the counter |
| AlarmEngine.CriticalKeepsLog | crates/bms-store-alarms/src/engine.rs:69-105 | Every critical section keeps the active alarms in agreement with the log of transitions |
| AlarmEngine.AcknowledgeKeepsLog | crates/bms-store-alarms/src/engine.rs:109-115 | Acknowledging logs nothing and keeps that agreement |
| AlarmEngine.TriggerIdsDistinct | crates/bms-store-alarms/src/engine.rs:117-122 | No two triggers of a log carry the same alarm id |
| AlarmEngine.ActiveFollowsLatest | crates/bms-store-alarms/src/engine.rs:59-106 | With distinct rule ids, after any sequence of events and acknowledgements the active alarms are exactly the enabled rules whose node's latest value trips the condition |
| AlarmInterleaving.RunKeepsInvariant | crates/bms-store-alarms/src/engine.rs:59-115 | Every state of every interleaving keeps the log and delivery invariants |
| AlarmInterleaving.TransitionsAlternate | crates/bms-store-alarms/src/engine.rs:59-115 | Under every interleaving, triggers and clears of a rule alternate in lock order, trigger first; each clear carries the id, time, value and message of its trigger; a rule is active exactly when its last transition is a trigger; alarm ids are distinct |
| AlarmInterleaving.ActiveFollowsLastSection | crates/bms-store-alarms/src/engine.rs:59-106 | Under every interleaving, an alarm is active for a rule id if and only if the last critical section of that id in lock order had a tripping value |
| AlarmInterleaving.DeliveredOnce | crates/bms-store-alarms/src/engine.rs:87-99 | Every transition reaches the sink at most once, and exactly once when all calls have returned |
| AlarmInterleaving.SinkMayHearClearFirst | crates/bms-store-alarms/src/engine.rs:88-99 | There is a run of two calls after which the sink has heard the clear before its trigger |
| SinkOrder.OneCallAtATime | crates/bms-store-alarms/src/engine.rs:59-106 | With at most one open call, what the sink has heard is a prefix of the log, short of its last entry at most |
| SinkOrder.SinkHearsInOrderExactly | crates/bms-store-alarms/src/engine.rs:87-99 | In all runs with at most k open calls in every state the sink hears the log in order, if and only if k is at most one |
| SinkOrder.OneCallPerNode | crates/bms-store-alarms/src/engine.rs:59-106 | With distinct rule ids and at most one open call per node, the transitions of every rule are heard in lock order |
| SinkOrder.RulesHeardInOrderExactly | crates/bms-store-alarms/src/engine.rs:59-106 | In all runs with distinct rule ids and at most k open calls per node every rule's transitions are heard in order, if and only if k is at most one |
| Numerals.ParseOfPaddedPrint | crates/bms-store-bridges/src/discovery/naming.rs:61-65 | Parsing a padded decimal gives the number back, so padded printing is injective |
| Naming.ScanLastRun | crates/bms-store-bridges/src/discovery/naming.rs:126-145 | The backward scan finds the last digit run of a name, or that there is none |
| Naming.ParseOfName | crates/bms-store-bridges/src/discovery/naming.rs:126-164 | A generated name parses into its own prefix, number and suffix, and the padding where it shows |
| Naming.GeneratedName | crates/bms-store-bridges/src/discovery/naming.rs:57-69 | The i-th name is the prefix, exactly as many digits as the padding or the number asks for, and the suffix; the digits parse to the i-th number |
| Naming.ParseNamePartsExactly | crates/bms-store-bridges/src/discovery/naming.rs:126-164 | A name parses into parts if and only if it is those parts around its last digit run, taken as long as it is, with a number of at most 64 bits; the padding is the length of a run with a leading zero |
| Naming.DetectionSpelledOut | crates/bms-store-bridges/src/discovery/naming.rs:22-54 | What is detected from any examples: the step between the first two counted over all of them, or the last example alone where prefix or suffix differ, or nothing |
| Naming.DetectedPattern | crates/bms-store-bridges/src/discovery/naming.rs:22-54 | What is detected from the first k names of a pattern: same prefix and suffix, the visible increment, the next number, and the same number texts from there on |
| Naming.DetectionContinuesGeneration | crates/bms-store-bridges/src/discovery/naming.rs:22-69 | Detecting from the first k generated names and generating n more gives the next n names, for every padding width, if and only if the increment is one, or at least one with two or more examples |
| Grouping.ComputeFingerprint | crates/bms-store-bridges/src/discovery/grouping.rs:44-64 | The nested hashing loops compute the 64-bit FNV-1a hash of the sorted kinds and their number |
| Grouping.FingerprintOfKinds | crates/bms-store-bridges/src/discovery/grouping.rs:39-64 | The fingerprint depends on the multiset of kinds alone: any permutation or renaming of points keeps it |
| Grouping.FingerprintIsFnv1a | crates/bms-store-bridges/src/discovery/grouping.rs:44-64 | The fingerprint is the 64-bit FNV-1a hash, with its published offset and prime, of one byte string: the kind names in alphabetical order, each closed by 0xff, and the number of points in eight little-endian bytes |
| Grouping.BitOfXor | crates/bms-store-bridges/src/discovery/grouping.rs:51 | The mixing step combines hash and byte by exclusive or, bit by bit |
| Grouping.GroupIdReads | crates/bms-store-bridges/src/discovery/grouping.rs:123-125 | A group id is `group-` and sixteen lower-case hexadecimal digits, which read as the fingerprint |
| Grouping.SameGroupExactly | crates/bms-store-bridges/src/discovery/grouping.rs:44-125 | Devices have the same group id if and only if they have the same fingerprint |
| Grouping.AnalogAndBinaryDiffer | crates/bms-store-bridges/src/discovery/grouping.rs:44-125 | A device with one analog point and a device with one binary point have different groups |
| NodeStores.SweepRemoves | crates/bms-store-bridges/src/discovery/service.rs:1035-1045 | In any listing order a sweep removes group nodes only, every group that was empty among them, and leaves all other rows as they are |
| NodeStores.SettledSweep | crates/bms-store-bridges/src/discovery/service.rs:1035-1045 | If no group is hollow, a sweep in any order removes exactly the empty groups and leaves none |
| NodeStores.HollowGroupSurvives | crates/bms-store-bridges/src/discovery/service.rs:1035-1045 | A group listed before the empty groups it consists of is left behind, empty |
| NodeStores.NestedGroupsSurvive | crates/bms-store-bridges/src/discovery/service.rs:1035-1045 | Two nested groups without devices, outer one listed first: the outer one stays, empty |
| NodeStores.SweepLeavesNoEmptyGroupExactly | crates/bms-store-bridges/src/discovery/service.rs:1508-1518 | A sweep leaves no empty group, whatever the order, if and only if no group holds nothing but empty groups |
| NodeStores.DeleteChildless | crates/bms-store-storage/src/store/node_store.rs:1206-1214 | Deleting a node without children removes that row and changes no other |
| NodeStores.DeleteUnmentioned | crates/bms-store-storage/src/store/entity_store.rs:1118-1127 | Deleting an entity that no parent or reference names removes that row and changes no other |
| DiscoveryService.DiscoveryService.UpsertPoints | crates/bms-store-storage/src/store/discovery_store.rs:707-769 | The loops drop the rows of points that were not read, update the rows of known points but for the display name, and add the new ones; a scan that read nothing changes nothing |
| DiscoveryService.DiscoveryService.FindDevice | crates/bms-store-storage/src/store/discovery_store.rs:667-705 | A scan adds a device as Discovered or renames it, whatever its state, and then upserts its points |
| DiscoveryService.DiscoveryService.SetDeviceState | crates/bms-store-storage/src/store/discovery_store.rs:896-918 | Ignoring and taking that back change the state of the device row, or report that there is none |
| DiscoveryService.DiscoveryService.EnsureGroup | crates/bms-store-bridges/src/discovery/service.rs:715-731 | Creates the group node with its point set when it is missing |
| DiscoveryService.DiscoveryService.Accept | crates/bms-store-bridges/src/discovery/service.rs:692-990 | The loops over points and stores compute the accept transaction, error and repeat branches included |
| DiscoveryService.DiscoveryService.Unaccept | crates/bms-store-bridges/src/discovery/service.rs:1009-1054 | The loops compute the un-accept transaction, error branches included |
| DiscoveryService.DiscoveryService.CleanUpEmptyGroups | crates/bms-store-bridges/src/discovery/service.rs:1035-1045 | Visits the listed Space nodes once and deletes each group that has no child then |
| DiscoveryService.DiscoveryService.RegroupAcceptedDevices | crates/bms-store-bridges/src/discovery/service.rs:1458-1521 | The loop moves each accepted device that has points below the group of its kinds, counts the moves, and sweeps |
| DiscoveryService.DiscoveryService.HydratePointStore | crates/bms-store-bridges/src/discovery/service.rs:1526-1556 | The nested loops insert a default entry for each point of each accepted device |
| DiscoveryLifecycle.PointIdsOfDevicesDiffer | crates/bms-store-bridges/src/discovery/service.rs:824 | Point ids of devices without a slash in their id determine device and point |
| DiscoveryLifecycle.EquippedNodesAre | crates/bms-store-bridges/src/discovery/service.rs:710-736 | Accepting first puts the equip node below the kind group, creating the group only if it is missing |
| DiscoveryLifecycle.AcceptBuildsHierarchy | crates/bms-store-bridges/src/discovery/service.rs:692-990 | After accepting, the device has an equip row, field by field, below its kind group; a missing group is created, named after the device, with the printed point set; all earlier node rows are unchanged, and exactly the group, the device and its points are new |
| DiscoveryLifecycle.AcceptKeepsEntities | crates/bms-store-bridges/src/discovery/service.rs:791-959 | After accepting, the equip entity is there, field by field; all earlier entities are unchanged, and exactly the device and its points are new |
| DiscoveryLifecycle.AcceptAddsPoint | crates/bms-store-bridges/src/discovery/service.rs:822-959 | Every point has its node below the device with name, access and binding, and its entity with parent, suggested tags and equipRef, all fields written out |
| DiscoveryLifecycle.AcceptRegistersPoint | crates/bms-store-bridges/src/discovery/service.rs:961-973 | Every point of an accepted device starts at false, 0.0 or 0 by its kind, without flags; no earlier live value changes |
| DiscoveryScans.AcceptKeepsOldRows | crates/bms-store-bridges/src/discovery/service.rs:710-959 | Whatever the stores hold, accepting keeps every row that is there; the entity of a point that was there already only gets its equipRef |
| DiscoveryLifecycle.AcceptKeepsOthersUnknown | crates/bms-store-bridges/src/discovery/service.rs:692-990 | Accepting one device makes no other device known |
| AcceptOrder.AcceptOrderMattersExactly | crates/bms-store-bridges/src/discovery/service.rs:692-990 | Accepting two devices that no store knows in either order gives the same devices, points, entities and live values, and the same nodes if and only if their groups differ, the shared group is there already, or both would create the same group row |
| DiscoveryLifecycle.UnacceptUndoesAccept | crates/bms-store-bridges/src/discovery/service.rs:1009-1054 | For a device no store knows, un-accept after accept restores entities and live points, keeps only the acceptance time and the event, restores the state if and only if the device was not ignored, and the nodes if and only if there was no empty group before |
| DiscoveryLifecycle.OutcomesExactly | crates/bms-store-bridges/src/discovery/service.rs:697-706 | Accepting fails only for an unknown device and does nothing to an accepted one; un-accepting fails for an unknown device and for one that is not accepted; what fails changes nothing |
| Regrouping.RegroupGroups | crates/bms-store-bridges/src/discovery/service.rs:1458-1521 | After regrouping every processed device that has an equip node hangs below the existing group of its kinds, in any listing order and with any nesting of groups; no equip node appears from nothing |
| Regrouping.RegroupMovesExactly | crates/bms-store-bridges/src/discovery/service.rs:1458-1521 | Of a row that stays, regrouping changes only the parent, and only where the device is accepted and has points; a new row is the group of such a device, field by field |
| Regrouping.RegroupCountsMisplaced | crates/bms-store-bridges/src/discovery/service.rs:1490-1505 | If the store lists each accepted device once, the result is the number of devices that were not where their kinds belong |
| Regrouping.RegroupConverges | crates/bms-store-bridges/src/discovery/service.rs:1458-1521 | A second regrouping returns zero if and only if every processed device has an equip node, and then changes nothing if and only if the first left no empty group |
| Regrouping.RegroupLeavesNoEmptyGroupExactly | crates/bms-store-bridges/src/discovery/service.rs:1458-1521 | Regrouping leaves no empty group in any listing order if and only if no group will be hollow: have children after the moves, but only groups below which nothing will hang |
| Regrouping.RegroupSettlesExactly | crates/bms-store-bridges/src/discovery/service.rs:1458-1521 | In all listing orders a second regrouping has nothing to do, if and only if every processed device has an equip node and no group will be hollow |
| Regrouping.RegroupMayLeaveEmptyGroup | crates/bms-store-bridges/src/discovery/service.rs:1508-1518 | No group is empty, a device moves out of the inner one of two nested groups, and the outer one is left behind without children |
| DiscoveryScans.UpsertedRows | crates/bms-store-storage/src/store/discovery_store.rs:707-769 | After a scan that read points, the rows are exactly those of the scanned points, each id once, with the kind, access and binding that was scanned last |
| DiscoveryScans.ScanKeepsName | crates/bms-store-storage/src/store/discovery_store.rs:745-749 | A point that was known keeps its display name |
| DiscoveryScans.ScanDecidesNothing | crates/bms-store-storage/src/store/discovery_store.rs:667-705 | A scan makes a new device Discovered, and of a known one changes the name only, not state, protocol or time of acceptance; other devices and the other stores are as before |
| DiscoveryScans.MarkChangesOnlyState | crates/bms-store-bridges/src/discovery/service.rs:993-1007 | Ignoring a device, and taking that back, change its state, accepted or not, and nothing else |
| DiscoveryScans.ClearForgetsExactly | crates/bms-store-storage/src/store/discovery_store.rs:1176-1201 | Clearing forgets exactly the devices in state Discovered, with their points |
| DiscoveryScans.ScanDecidesGroup | crates/bms-store-storage/src/store/discovery_store.rs:707-769 | After a scan that read distinct points, the group of the device is that of the scanned kinds, whatever rows it had |
| DiscoveryScans.ScanKeepsGroupedExactly | crates/bms-store-bridges/src/discovery/service.rs:203-220 | Scanning a grouped device again leaves it in its group if and only if the scanned kinds have that group |
| DiscoveryScans.UnacceptRemovesExactly | crates/bms-store-bridges/src/discovery/service.rs:1020-1045 | Un-accepting removes the rows of the device and of the points it has now, and, groups aside, no other row |
| DiscoveryScans.UnacceptKeepsOtherNodes | crates/bms-store-bridges/src/discovery/service.rs:1020-1045 | A node that un-accepting leaves is as it was, but for a parent that is deleted |
| DiscoveryScans.UnacceptKeepsOtherEntities | crates/bms-store-bridges/src/discovery/service.rs:1020-1032 | An entity that un-accepting leaves is as it was, but for a parent and references that are deleted |
| DiscoveryScans.UnacceptLeavesNothingExactly | crates/bms-store-bridges/src/discovery/service.rs:1009-1054 | Un-accepting leaves no row that belongs to the device if and only if every such row was that of the device or of a point it has now; live values are always cleared |
| DiscoveryScans.DroppedPointStaysBehind | crates/bms-store-bridges/src/discovery/service.rs:1020-1032 | Accept, scan again without one point, un-accept: the node and the entity of that point are left |
| DiscoveryRuns.AcceptLeavesNoEmptyGroupExactly | crates/bms-store-bridges/src/discovery/service.rs:710-736 | Accepting leaves no empty group if and only if the equip node is new or the group is there already |
| DiscoveryRuns.RunIsSound | crates/bms-store-bridges/src/discovery/service.rs:692-1054 | After every run of scans, profiles, accepting, un-accepting, ignoring, clearing, regrouping and hydrating from empty stores: parents and references exist, Space nodes are groups without a parent, point ids are distinct, and every accepted device has its equip node and entity |
| DiscoveryRuns.RegroupingSettlesInEveryRun | crates/bms-store-bridges/src/discovery/service.rs:1458-1521 | In every run, re-scans included, one regrouping puts every accepted device that has points below the group of its kinds and leaves no empty group; a second one returns zero and changes nothing |
| DiscoveryRuns.RegroupIdlesExactly | crates/bms-store-bridges/src/discovery/service.rs:1458-1521 | Regrouping returns zero if and only if every accepted device that has points is in the group of its kinds, and then changes nothing if and only if no group is empty |
| DiscoveryRuns.RescanNeedsRegrouping | crates/bms-store-bridges/src/discovery/service.rs:203-220 | A run in which an accepted device is scanned again with another kind, after which regrouping has work |
| DiscoveryRuns.TidyExactlyWhenCareful | crates/bms-store-bridges/src/discovery/service.rs:993-1007 | No group is empty and only accepted devices have equip nodes, all through a run, if and only if no device is ignored or taken back while it is accepted |
| DiscoveryRuns.IgnoringMayLeaveEmptyGroup | crates/bms-store-bridges/src/discovery/service.rs:993-999 | A run in which an accepted device is ignored and accepted again with other kinds, after which a group is empty |
| DiscoveryRuns.AcceptUndoneInEveryRun | crates/bms-store-bridges/src/discovery/service.rs:1009-1054 | In every run, un-accepting a device right after accepting it restores all stores, but for state, acceptance time and event, if and only if no store knew the device or a point it has and no group was empty |
| DiscoveryLifecycle.HydrateAddsExactlyTheMissing | crates/bms-store-bridges/src/discovery/service.rs:1523-1556 | Hydration adds an unflagged entry for exactly the missing points of accepted devices and touches no entry that is there |
| DiscoveryLifecycle.HydrateGivesDefaults | crates/bms-store-bridges/src/discovery/service.rs:1526-1556 | A missing entry gets false, 0.0 or 0 by the kind of its point |
| DiscoveryLifecycle.HydrateIsIdempotent | crates/bms-store-bridges/src/discovery/service.rs:1523-1556 | A second hydration changes nothing |
| Text.LinesOfUnlines | crates/bms-store-bridges/src/plugin/archive.rs:308 | Splitting lines that were each ended by a newline gives the lines back |
| Text.LinesOfCrLines | crates/bms-store-bridges/src/plugin/archive.rs:308 | Splitting lines that were each ended by a carriage return and a newline gives the lines back |
| Text.TrimCuts | crates/bms-store-bridges/src/plugin/archive.rs:309 | Trimming cuts off white space on both sides and stops at the first other character |
| PluginManifest.SerializeText | crates/bms-store-bridges/src/plugin/archive.rs:382-411 | The appending printer writes the manifest's lines, leaving out empty optional fields |
| PluginManifest.SerializeSpelledOut | crates/bms-store-bridges/src/plugin/archive.rs:382-411 | The printed text, character by character, with the entries that are left out when empty |
| PluginManifest.ParseText | crates/bms-store-bridges/src/plugin/archive.rs:302-343 | The line loop computes the parse: a manifest, an error, or a panic |
| PluginManifest.ParseSpelledOut | crates/bms-store-bridges/src/plugin/archive.rs:302-343 | A text parses to a manifest if and only if no entry stops the parser and, read line by line, it has the structure: the last section of a name counts, the last value of a key in it, a top-level value of that name replaces the section or is replaced by it, fields may be left out or not |
| PluginManifest.PlainValuesSpelledOut | crates/bms-store-bridges/src/plugin/archive.rs:345-380 | Text between like quote marks is that text, `true` and `false` are truth values, other text is a number if it is one and itself if not |
| PluginManifest.ArraysSpelledOut | crates/bms-store-bridges/src/plugin/archive.rs:351-362 | An array has one value for each piece between its commas, blanks around the piece aside |
| PluginManifest.ValuePanicsExactly | crates/bms-store-bridges/src/plugin/archive.rs:345-362 | Reading a value panics if and only if it is a lone quote mark, or an array one of whose items is one inside any number of brackets |
| PluginManifest.ParsePanicsExactly | crates/bms-store-bridges/src/plugin/archive.rs:308-335 | A text panics if and only if one of its entry lines does, whatever comes before it |
| PluginManifest.ParsedManifestIsClean | crates/bms-store-bridges/src/plugin/archive.rs:302-380 | Whatever the text, a parsed manifest has no newline in any string and no comma in any file name |
| PluginManifest.FilesParse | crates/bms-store-bridges/src/plugin/archive.rs:351-362 | A printed list of file names parses to those names, whatever quotes, brackets or blanks they hold, if none holds a comma |
| PluginManifest.ParseUndoesSerializeExactly | crates/bms-store-bridges/src/plugin/archive.rs:302-411 | Parsing a printed manifest gives it back if and only if its strings have no newline and its file names no comma |
| NavTree.InsertNavChild | crates/bms-store-gui/src/gui/state.rs:394-405 | The recursive loop appends the child below the first node, in document order, that has the parent id |
| NavTree.UpdateNavNode | crates/bms-store-gui/src/gui/state.rs:422-439 | The recursive loop changes label and kind of the first node, in document order, that has the id |
| NavTree.RemoveNavNode | crates/bms-store-gui/src/gui/state.rs:408-419 | The recursive loop removes a node that has the id, looking through a level before the levels below it |
| NavTree.EditFindsExactly | crates/bms-store-gui/src/gui/state.rs:394-439 | Inserting and updating succeed if and only if the id occurs, and otherwise change nothing |
| NavTree.RemoveFindsExactly | crates/bms-store-gui/src/gui/state.rs:408-419 | Removing succeeds if and only if the id occurs, and otherwise changes nothing |
| NavTree.InsertAddsIds | crates/bms-store-gui/src/gui/state.rs:394-405 | A successful insert adds the ids of the child's subtree, with their multiplicities, and no other |
| NavTree.UpdateKeepsIds | crates/bms-store-gui/src/gui/state.rs:422-439 | An update keeps every id as often as it occurred |
| NavTree.FindAfterUpdate | crates/bms-store-gui/src/gui/state.rs:422-485 | A changed label is the one found afterwards; looking up any other id gives the same label as before |
| NavTree.LabelOfFirst | crates/bms-store-gui/src/gui/state.rs:470-485 | The label that is found is that of the first node in document order that has the id |
| NavTree.EditsSpelledOut | crates/bms-store-gui/src/gui/state.rs:394-439 | An update changes label and kind of the first node that has the id and nothing else of it; an insert puts the child behind its children |
| NavTree.RemoveTakesLevelFirst | crates/bms-store-gui/src/gui/state.rs:408-419 | Where an id occurs more than once, a node of the level itself is removed before any deeper one |
| NavTree.EditFirstIsEditAll | crates/bms-store-gui/src/gui/state.rs:394-439 | Where the id occurs at most once, editing the first node that has it is editing every node that has it and no other |
| NavTree.RemoveIsRemoveAll | crates/bms-store-gui/src/gui/state.rs:408-419 | Where the id occurs at most once, removing is filtering it out at every level |
| NavTree.RemoveUndoesInsert | crates/bms-store-gui/src/gui/state.rs:394-419 | Removing a child whose id is new restores the forest exactly, repeated ids elsewhere included, and reports what the insert reported |
| LayoutPruning.PruneLegacyNodes | crates/bms-store-gui/src/gui/state.rs:533-553 | Filtering a level and then pruning the children of what is left computes the pruned layout |
| LayoutPruning.PruneIsClean | crates/bms-store-gui/src/gui/state.rs:533-553 | No node of a removed kind is left at any depth |
| LayoutPruning.PruneFixesExactlyTheClean | crates/bms-store-gui/src/gui/state.rs:533-553 | Pruning leaves a layout as it is if and only if it holds no node of a removed kind |
| LayoutPruning.PruneIsIdempotent | crates/bms-store-gui/src/gui/state.rs:533-553 | Pruning twice is pruning once |
| LayoutPruning.PruneKeepsTheRest | crates/bms-store-gui/src/gui/state.rs:533-553 | A node survives if and only if neither it nor a node above it is of a removed kind; survivors keep order, place and all other fields |
| LayoutPruning.RemovedKinds | crates/bms-store-gui/src/gui/state.rs:536-545 | A node without children is dropped if and only if its kind is the text Folder or Page, or an object with the key Device |
| MetaBlocks.SplitMetaEntries | crates/bms-haystack/build.rs:416-445 | The scanning loop returns the entries between top-level commas, without a blank tail |
| MetaBlocks.JoinOfSplit | crates/bms-haystack/build.rs:416-445 | The entries and the tail joined by commas give the text back |
| MetaBlocks.SplitExactly | crates/bms-haystack/build.rs:416-445 | Splitting gives the one way to write the text as comma-joined entries that close their quotes and brackets and have no top-level comma |
| MetaBlocks.TakeMeta | crates/bms-haystack/build.rs:350-386 | Cuts a line at the first place where the angle brackets close, outside quotes; gives up when there is none |
| MetaBlocks.BlockClosesExactly | crates/bms-haystack/build.rs:350-386 | The opening bracket is matched right after the inner text if and only if that text is balanced |
| MetaBlocks.BlockReadsBack | crates/bms-haystack/build.rs:350-445 | A block written from balanced entries is taken off the line as a whole and splits into those entries |
| MetaBlocks.BracketsHideCommas | crates/bms-haystack/build.rs:416-445 | A pair of brackets of any of the four kinds keeps the commas between them from separating entries |
| RustLiterals.RustStr | crates/bms-haystack/build.rs:537-553 | The appending loop prints the opening quote, every character escaped, and the closing quote |
| RustLiterals.ReadUndoesPrint | crates/bms-haystack/build.rs:537-553 | Read as a Rust string literal, the printed text denotes the original string, for every string |
| RustLiterals.LiteralSpelledOut | crates/bms-haystack/build.rs:537-553 | A literal is the characters between quote marks, in order, each by itself, by its letter, or by the shortest hexadecimal number |
| RustLiterals.LiteralsDiffer | crates/bms-haystack/build.rs:537-553 | Different strings print as different literals |
| RustLiterals.LiteralIsPrintable | crates/bms-haystack/build.rs:542-548 | No control character below 0x20 is printed as it is |
| SupertypeChain.FindSpec | crates/bms-haystack/src/ontology/codegen.rs:33-35 | Gives the first row with the name, or that there is none |
| SupertypeChain.IdentifierPrefix | crates/bms-haystack/src/ontology/codegen.rs:63-69 | Gives the longest prefix of identifier characters |
| SupertypeChain.Chain | crates/bms-haystack/src/ontology/codegen.rs:44-61 | The guarded walk ends on every table, cyclic ones included; it never repeats a row, links each row to its parent, and stops only without a parent or at one already seen |
| SupertypeChain.ChainFollowsAncestors | crates/bms-haystack/src/ontology/codegen.rs:44-61 | The k-th row of the chain is the k-th ancestor |
| SupertypeChain.ChainHoldsEveryAncestor | crates/bms-haystack/src/ontology/codegen.rs:44-61 | Every ancestor, however many steps up, is in the chain |
| SupertypeChain.EndsAtRootExactly | crates/bms-haystack/src/ontology/codegen.rs:44-61 | The walk stops for want of a parent if and only if climbing without the guard would end |
| SupertypeChain.ChainIsUnique | crates/bms-haystack/src/ontology/codegen.rs:44-61 | The description of the chain determines it |
| SupertypeChain.ParentIsFirstName | crates/bms-haystack/src/ontology/codegen.rs:54-69 | The parent is the first row with the name a supertype starts with, up to the first character that is no letter, digit, underscore or colon |

## Modelling decisions

- Registers are integers below 65536. The 16-bit sums of the planner are kept in range by a condition on the
  points (`Addressable`); the request limits also need each point to be readable on its own (`Readable`).
- Bitwise operations on registers are defined bit by bit (`WordBits`).
- The order in which the hash map of the planner yields its types is quantified over. An order lists all four
  types; a type without points yields no block.
- Scaled values are exact reals, a scale is not zero, and the conversions between floats and their bit patterns are
  parameters. A bit offset is below 16, as the shift needs.
- Casts to integers truncate toward zero and saturate, as Rust's do.
- Times of the poll loop are milliseconds of an ideal clock, handed in at each wake.
- Text is a sequence of Unicode scalar values; trimming uses Unicode white space. Device names are ASCII, so that
  character positions are byte positions.
- Tag suggestions, group names, the printed point set and the listing orders of the stores are parameters of the
  discovery service. Device ids that are accepted do not start with `group-`; where two devices meet, their ids hold
  no slash. Point rows are listed in the order in which they came; the store lists them by display name, on which
  the group and the ids of the added rows do not depend.
- A write past address 65535 is refused by the device, as a read is.

## Left out

- LivePoints.PointStore.SetIfChanged: timestamps, history and version numbers of the store are left out, so that skipping an equal value and storing it come to the same
- PollRuns.RetryTiming: models a loop that sleeps a fixed interval and polls in no time; the time spent on reading is left out
- PluginManifest.ParseText: whether an unquoted text is a number is a parameter
- MetaBlocks.SplitMetaEntries: the bracket depth is unbounded, so overflow of the 32-bit counter is left out
- NavTree.InsertNavChild: takes and returns the forest as a value; update in place and the cloning of the child are not captured
- NavTree.UpdateNavNode: takes and returns the forest as a value; update in place is not captured
- NavTree.RemoveNavNode: takes and returns the forest as a value; removal in place is not captured
- Transports, unit-id scanning, register probing and the other function codes: network input and output over other libraries; a read is an arbitrary reply, short reply or error
- The first read of all blocks at start-up of the bridge, and storing the value read back after a write: they use the same planner and decoder
- IEEE 754 rounding, NaN and infinities
- Wrap-around of the 64-bit counter of alarm ids, of generated numbers and of timestamps
- Rendering of alarm messages and severities: the rendered text is a parameter and is carried through unchanged
- Values read together with their timestamps, history and subscriptions of the live point store
- SQLite itself, asynchronous scheduling of the stores, creation and update times of rows, tag provenance, the property an atlas match adds, and the hot cache of nodes
- Renaming devices and points, units and state labels: they change display texts in rows that exist, and no id, parent, state or kind
- Spatial references of a device and the search for related groups by similarity: single passes over a list whose claims would only add easy members
- The key and value parsing inside a meta block entry, documentation clean-up and default values of the generator
- Archive extraction, file persistence, users, permissions, web server and user interface
