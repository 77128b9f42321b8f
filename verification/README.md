# Verified models of the Mark6 reader in DiFX

Mark6 recorders scatter one VDIF recording over many files: each *member* file
is a list of blocks, each block a tag and a run of packets. `vdifuse` gathers
the members of a recording and presents them as one seekable *virtual file*, the
packets of all members in time order, without ever building that list. This
project models the code that does so and proves what it promises, together with
the metadata cache that names the members, the bisection that finds clock jumps,
and the day-number conversion of the monitor.

## Structure

| file | models |
|---|---|
| `Timeline.dfy` | the specification: members, cuts through time, the merged order and the virtual file |
| `SgLayout.dfy` | the layout of a scatter-gather file: normal blocks, one short block, normal blocks, a short end block |
| `SgIndex.dfy` | the constant-time lookups of `sg_access.c` by packet number, block number and offset |
| `SgAnalysis.dfy` | recovering that layout from the bytes of a file (class `Analysis`) |
| `Slots.dfy`, `Member.dfy`, `Window.dfy` | sorting the slots of a stripe, moving one member, and what it means for a stripe to be a window on the time order |
| `Rounds.dfy` | backward motion in strict rotation: where the windows lie, and what becomes of a request read from its end |
| `Stripe.dfy` | the stripe machine of `vdifsg2.c` (class `Stripe`, whose methods update its arrays and counters in place) |
| `Samples.dfy` | small recordings whose files are spelled out, and runs of the stripe machine on them that fail |
| `Cache.dfy`, `Hierarchy.dfy` | the growing metadata cache, its continuation chains, and building the directory tree |
| `Bisect.dfy` | the search for clock jumps of `exthdr.c` (class `SrchState`) |
| `Blind.dfy` | the same search when some packets have no valid reading, as `check_search` drives it |
| `Calendar.dfy` | `mjd2cal` |

`dafny verify dfyconfig.toml` checks everything. Offsets are products and quotients
`Mul`, `Quot` and `Rem`, defined by repeated addition and subtraction; `MulIsProduct`
and `QuotIsQuotient` say that they are the usual ones.

## What is proved

**The virtual file.** `Timeline.Virtual` is the concatenation of all blocks of
all members, each exactly once, in increasing time; it is the only byte string of
that description (`VirtualIsTimeMerge`). The stripe machine never forms it. Its
state is an array with the current block of each member, an array of sorted
slots, and the counters `zero`, `sgap`, `bybs`, `byis`, `byas`. The invariant
`InWindow` says that the slots are in time order, that slots `zero..sgap-1` hold
consecutive blocks of the recording, that members below `zero` have ended before
them, that members from `sgap` on sit on their earliest block after them, that no
further slot follows, and that the counters are the bytes before, in and behind the
window. It is established by opening a sequence from the first blocks, and kept by
a forward walk, by placing the stripe at any block numbers, by jumping and by
reading. From it follows that a read returns exactly the requested slice of the
virtual file, trimmed at its end (`ReadSeq`), and that reading a sequence through in
pieces of any size yields the virtual file and never needs a backward walk
(`ReadThrough`).

While blocks alternate in strict rotation (`Window.Rotates`), the motion backward
is followed too. From every window that has bytes behind it a backward walk undoes
a forward walk (`WalkForthAndBack`): no member has ended there (`NoneEnded`), so the
window holds a block of each (`RotationFills`). The backward seek ends on the first
window, going back, that starts before the end of the request (`SeekBack`). A
request that starts before the window and ends in it is read exactly if
`Rounds.BackwardEnd` comes to `Filled`, a condition on the start of the request
and the starts of the windows before (`StripeRdbw`, see below). `ReadRotating` puts
these together: every read in the file, forward or backward, is complete, refused or
leaves the first window, and the request and the window that it seeks from say which
(`Rounds.ComesFrom`). That window is the current one or, for a distant request, the one
where the jump lands. A jump aims, in every member, at the block nearest to where
the middle of the request is in the virtual file, and lands in front of the earliest of
these (`Landed`); in a sequence of one member it lands on that block (`LandsOnNearest`).
In particular a read of some bytes that is not longer than any block is always
complete, with or without a jump (`ShortReads`, `ReadRotating`).

Assumed of a recording (`Timeline.WellTimed`): the packets of a block have
increasing times, the blocks of a member follow each other, and blocks of different
members do not overlap. Times are integer ticks, seconds times 10^8 plus frame, which
order packets as the seconds and frames in their headers do (`TickOrder`): in the
virtual file no packet comes before one that is earlier (`HeadersInOrder`).

**The layout.** For a file laid out in the four regions, whose packet signatures
occur only at packet starts and whose payload does not imitate a block size where
the search probes, the analysis ends with the exact index of the layout if and
only if the layout is `Recoverable`, a condition on the block sizes alone: the
file holds four packets, neither the first block nor the end block is a single packet,
and an end block is at least two packets shorter than a normal block and, together with
a short block right before it, holds either at least as many packets as a normal block
or, behind some normal block, at least two fewer. What is assumed of the words of
the file is said in terms of the words (`Laid`), and every layout whose sizes fit
has such a file (`LaidExists`). The lookups on that
index are proved against the layout, and to agree with each other.

**Chains, tree, bisection, calendar.** Appending to a parent's chain adds to its
children and to nobody else's, whatever the interleaving, and listing returns the
children in the order they were added. Building the tree attaches each path to
the entry of its directory, made before, and makes sequences of sequences and
directories of directories; in a tree entered by the names of fragments
that is its true directory (`TrueParent`). The bisection ends and locates only real
jumps. It loses the packet it is started on. If equal data come from one run it goes
through all its intervals exactly if there is no jump right behind its first middle, and
locates every jump it was asked about exactly if there is none behind the packet lost,
and that is so or bisecting either side of that middle leaves only adjacent packets for
later (`RunLocatesAll`). When some packets cannot be read (`Blind.CheckSearch`) it steps
away from a middle without a reading, ends at once if that is the first middle, and
otherwise in one of the two ways it ends when all can be read; an interval done with
then either tells two neighbours that differ, or has a half in which nothing can be
read. Which jumps it reports with the time of a packet that is
not at the jump is likewise decided by the data (`StrayStamps`). `mjd2cal` counts
Gregorian days from 17 November 1858.

## Where the code does less than it says

- `do_read_sgv2_seq` refuses with an I/O error a request that starts before the
  window and ends behind it, although its bytes exist. `ReadSeq` states exactly
  when, in terms of the window sought; `Samples.ReadAcross` opens a file of three
  blocks and makes it happen. A request that is not longer than any block is never
  refused.
- `stripe_rdbw` (vdifsg2.c:1518-1519) sizes the pieces after the first by the
  distance from the start of the request to the window, where the distance from
  the window to what has been read is meant. When the window starts before the
  request the difference is negative, wraps around and is cut down to all that
  is left, which is right. When the window starts where the request starts the
  piece is empty, and one window further back the read fails, or leaves the first
  window (`NearBackward`; `Samples.ReadFromBoundary` and `Samples.ReadFromStart` are
  runs in which that happens). When the window starts behind the request, the piece is
  read if it lies in the window, and the next window is asked for the rest. Behind the
  first round, where the windows abut, that succeeds exactly if the starts of the
  windows halve what is left of the request until one starts before it
  (`FilledHalves`); `Samples.ReadHalved` reads a request over three windows.
- An empty read at the start of the file makes the backward seek leave the first
  window (`SeekBack`).
- `sg_first_packet` (sg_access.c:303-358) looks for two packets in a row behind the
  first tags. When the first block is a single packet the second is not there: either
  the scan fails, or the payload happens to agree at another alignment, which is taken
  for a packet offset (`FirstPacket`). `OnePacketFirst` is such a layout.
- `ehs_begin` (exthdr.c:187-202) allocates, and allocating forgets the reading that has
  just been made (exthdr.c:171). The case falls through to `ehs_first`, which finds
  no valid reading and steps on. So the packet a search is started on is always lost,
  and a jump right behind it is never located (`FirstJumpLost`, `FirstPacketLost`).
- `update_ehs_his` (exthdr.c:204-222) says that it counts repeated visits; the
  count goes to the entry behind the one repeated and is overwritten, so every
  kept count is 1 (`Bisect.SrchState.Run`; `RepeatedVisit` is a visit that repeats).
- `resolve_ehs_stk` (exthdr.c:256-271) uses the first middle as the sign that no
  work is left. An interval that begins at the first middle and ends at the next
  packet has the same middle, and the search then stops with other intervals
  unresolved. `SearchFindsJumps` says exactly when that happens, and
  `SearchLocatesAll` exactly when all jumps are located nevertheless: `MissedJump`
  is an example in which one is missed, `StopsComplete` one in which none is.
- The packet whose time is reported for a jump (exthdr.c:510-514) need not be at
  the jump. The branch for three data (exthdr.c:305-318) keeps the packet of the
  interval it shortens, which is wrong exactly if that packet was not at the lesser
  end (`ResolveStamps`). `StrayStamps` says for which jumps that shows in the end; the
  packet reported is then behind the jump. It never does when all data are those
  of the two ends of the range (`TwoDataStamps`); `StrayStamp` is the smallest example.
- `ehs_search` (exthdr.c:369-379) steps away from a packet without a valid reading to
  the end of the interval on the far side, although the other half may be readable. The
  interval is then done with, and the jump in it is told no nearer (`Blind.WideLeap`).
- The middle of an interval is computed in 32 bits, and leaves the interval
  exactly when the sum of its ends wraps around (`MidInside`); the search
  theorems are for ranges in which it cannot.
- A search of two packets, of which the first is lost, makes `ehs_final` use a history
  entry that was never written (`OnePacket`); the search theorems are for at least three
  packets, of which at least two are left.
- The search for the short block adds two 32-bit block numbers (sg_access.c:715);
  with 2^31 or more blocks the sum can wrap around, and what happens then is not
  followed (`BinarySearch`).
- The comment at sg_access.c:1032 says that every function tests `sg_version`
  first. The analysis steps after a failed one go on without doing so; the model
  follows the code.

## Model

| member | source | states |
|---|---|---|
| Timeline.OrderIsTimeOrder | applications/m6support/vdifsg2.c:1725-1736 | the merged order names every block of every member exactly once, each ending before the next begins |
| Timeline.OrderIsUnique | applications/m6support/vdifsg2.c:1725-1736 | any listing of all blocks in increasing time is the merged order |
| Timeline.VirtualIsTimeMerge | applications/m6support/vdifsg2.c:1725-1736 | the virtual file is the bytes of any such listing |
| Timeline.VirtualLength | applications/m6support/vdifsg2.c:309-329 | its length is the summed size of all members |
| SgIndex.PktByNum | applications/m6support/sg_access.c:1201-1250 | the loop over the regions finds packet n of the layout, the packets left in its block and the end of the block; nothing is found exactly for numbers outside the file |
| SgIndex.ByNumAscends | applications/m6support/sg_access.c:1196-1250 | packets with increasing numbers lie at increasing addresses without overlap, each at a packet start, never in a tag |
| SgIndex.ByNumNext | applications/m6support/sg_access.c:1196-1250 | the next number is the next packet of the block with one less left, or the first packet behind the next tag |
| SgIndex.ByNumReaches | applications/m6support/sg_access.c:1196-1250 | every packet of the layout has a number, and what is reported to be left is the rest of its block |
| SgIndex.PktByBlk | applications/m6support/sg_access.c:1257-1304 | the first packet of a block, by block number; nothing is found exactly for numbers that are not those of a block |
| SgIndex.ByBlkIsByNum | applications/m6support/sg_access.c:1257-1304 | that is the packet numbered by the packets of all earlier blocks |
| SgIndex.PktBlkBy | applications/m6support/sg_access.c:1306-1367 | also the packet bytes of all earlier and all later blocks; before, own and after add up to the packet bytes of the file; for a number that is not that of a block nothing is found or counted |
| SgIndex.PktByOff | applications/m6support/sg_access.c:1375-1426 | the loop over the regions finds the packet that holds an offset; nothing is found exactly for offsets outside the file |
| SgIndex.ByOffInvertsByNum | applications/m6support/sg_access.c:1375-1426 | every byte of packet n leads back to packet n |
| SgIndex.ByOffInTag | applications/m6support/sg_access.c:1375-1426 | a byte of a tag leads to the first packet behind it |
| SgAnalysis.Analysis.FileHeaderTag | applications/m6support/sg_access.c:273-291 | reads block and packet size from the file tag, and refuses foreign files and those shorter than four packets, counted in 32 bits |
| SgAnalysis.Analysis.FirstPacket | applications/m6support/sg_access.c:303-358 | the packets are taken to start at the first alignment at which two in a row agree, and the scan fails if there is none; on a file laid out as expected that is the first packet exactly if the first block holds two |
| SgAnalysis.NoneBefore | applications/m6support/sg_access.c:320-333 | at no alignment before the one found do two packets agree, and at none at all if the scan fails |
| SgAnalysis.FirstAgrees | applications/m6support/sg_access.c:303-358 | in a file whose words are as expected, the packets behind the first tags agree exactly if the first block is more than one packet; their length is that of the file tag |
| SgAnalysis.OnePacketFirst | applications/m6support/sg_access.c:320-341 | a layout that meets every other condition and starts with a single packet |
| SgAnalysis.Analysis.FinalPacket | applications/m6support/sg_access.c:461-488 | accepts a file laid out as expected unless its end block is a single packet |
| SgAnalysis.Analysis.Walk | applications/m6support/sg_access.c:515-534 | stepping packet by packet from inside a block reaches its last packet and the next tag |
| SgAnalysis.Analysis.DoubleShort | applications/m6support/sg_access.c:507-573 | two short blocks at the end are both found, with their offsets and packet counts |
| SgAnalysis.Analysis.ShortPair | applications/m6support/sg_access.c:533-571 | from the tag of the first of them both records are completed, or the failure is marked |
| SgAnalysis.Analysis.ShortEndfix | applications/m6support/sg_access.c:579-700 | what the probes from the end of the file make of the record, for every layout |
| SgAnalysis.Analysis.PinDown | applications/m6support/sg_access.c:658-699 | a single short end block is found exactly |
| SgAnalysis.ProbePast | applications/m6support/sg_access.c:708-758 | a probe beyond the short block lands inside a block, on a packet as many packets before its end as the short block has |
| SgAnalysis.Analysis.BinarySearch | applications/m6support/sg_access.c:708-758 | ends on any contents, unless the sum of two block numbers wraps around; on a file laid out as expected it returns the short block's number and offset without an error, although probes beyond it land inside blocks |
| SgAnalysis.Analysis.ShortSearch | applications/m6support/sg_access.c:766-819 | the short block is found wherever it lies, also first or last |
| SgAnalysis.Analysis.PlaceShort | applications/m6support/sg_access.c:838-861 | the short block is looked for exactly if its bytes are left beside whole blocks, and nothing else of the record changes |
| SgAnalysis.Analysis.NormalBlock | applications/m6support/sg_access.c:824-870 | the counts before and after the short block |
| SgAnalysis.Analysis.FinalUpdate | applications/m6support/sg_access.c:875-884 | the totals; the record is then the index of the layout |
| SgAnalysis.Analysis.Analyse | applications/m6support/sg_access.c:1037-1075 | the whole analysis of a file with the words of a layout, its block sizes in the second words of the block tags, recovers the index of the layout if and only if the layout is recoverable |
| SgAnalysis.LaidExists | applications/m6support/sg_access.c:1037-1075 | every layout whose sizes fit in 32 bits has a file with the words that the analysis is proved for |
| Slots.SortsBlocks | applications/m6support/vdifsg2.c:618-643 | sorting puts the slots in ascending order and keeps one slot per member |
| Slots.FirstLive | applications/m6support/vdifsg2.c:702-710 | the first slot whose member has not ended |
| Member.MemberMove | applications/m6support/vdifsg2.c:387-421 | moves a member to a block and sets its address, times and byte counts to what is true of that block; for other positions it only sets the error flag |
| Member.MemberInit | applications/m6support/vdifsg2.c:428-468 | starts at the first block; the size returned is the least packet count of a block of the file |
| Member.TickOrder | applications/m6support/vdifsg2.h:71-82 | one packet's tick is less than another's exactly if its second is less, or its second is the same and its frame is less, as the bytes of the headers say: 30 and 24 bits, the least significant byte first |
| Stripes.HeadersInOrder | applications/m6support/vdifsg2.h:71-82 | in the virtual file the packets of all files come in the order of the seconds and frames in their headers |
| Member.BytesBelowPkts | applications/m6support/vdifsg2.c:404-416 | the bytes before a block are its earlier packets times the packet size |
| Window.NothingBetween | applications/m6support/vdifsg2.c:712-748 | no block fits between the end of one and a block that starts less than the smallest block later |
| Window.PullIsEarliest | applications/m6support/vdifsg2.c:718-748 | stepping back while a gap is left reaches the member's earliest block behind a tick |
| Window.ClosedGap | applications/m6support/vdifsg2.c:755-776 | a gap shorter than the smallest block hides no successor of an earlier window block |
| Window.FilledGapEnds | applications/m6support/vdifsg2.c:755-776 | a gap that a successor fills is where the window ends |
| Window.SlotFollows | applications/m6support/vdifsg2.c:836-881 | a sorted slot is next in the time order if no successor of an earlier window block comes first |
| Window.SqueezedIsCut | applications/m6support/vdifsg2.c:822-835 | squeezed members sit on their earliest blocks behind the first slot's block |
| Window.WindowIsSlice | applications/m6support/vdifsg2.c:1365-1375 | the blocks of a window are the slice of the virtual file behind everything earlier |
| Window.BlockIsSlice | applications/m6support/vdifsg2.c:1388-1408 | where in the virtual file the block of a slot lies |
| Window.SumOverSlots | applications/m6support/vdifsg2.c:892-931 | summing over the slots is summing over the members |
| Window.AllCounted | applications/m6support/vdifsg2.c:892-931 | the three sums are the bytes globally before, in and behind the window |
| Window.WalkedShows | applications/m6support/vdifsg2.c:1078-1116 | a member walked forward sits on its first block behind the window, or is marked as ended |
| Window.WalkedBackShows | applications/m6support/vdifsg2.c:1078-1116 | a member walked backward sits on its last block before the window, or is marked if it has none |
| Window.SlotFills | applications/m6support/vdifsg2.c:1030-1049 | in strict rotation every slot follows the slots before it |
| Window.LastRound | applications/m6support/vdifsg2.c:1030-1049 | in strict rotation the window in which a member has ended is the last: every slot follows and all bytes are before its end |
| Stripes.Stripe.Open | applications/m6support/vdifsg2.c:1582-1659 | opening a sequence puts the window at the start of the virtual file |
| Stripes.Stripe.InitMembers | applications/m6support/vdifsg2.c:1614-1644 | every member starts at its first block, and the packet count of the smallest block of all is known, if it is below 2^31 - 1 |
| Stripes.Stripe.StripeInit | applications/m6support/vdifsg2.c:943-959 | the first blocks become a window with nothing before it |
| Stripes.Stripe.StripeSort | applications/m6support/vdifsg2.c:638-643 | the slots end up in strict time order, the same slots as before |
| Stripes.Stripe.StripeZero | applications/m6support/vdifsg2.c:702-710 | the first slot that has not ended starts the window |
| Stripes.Stripe.PredecessorsLeaveGap | applications/m6support/vdifsg2.c:718-748 | the member is stepped back exactly as far as the rule says, and whether a gap is left is reported |
| Stripes.Stripe.SuccessorClosesGap | applications/m6support/vdifsg2.c:755-776 | whether the block behind one of the slots ends before the gap does |
| Stripes.Stripe.FirstPass | applications/m6support/vdifsg2.c:842-858 | from sorted slots at a cut, the slots passed are consecutive in the time order, and the one stopped at is not |
| Stripes.Stripe.SecondPass | applications/m6support/vdifsg2.c:865-880 | from such slots, the pass over the blocks behind the gap changes nothing |
| Stripes.Stripe.StripeDgap | applications/m6support/vdifsg2.c:836-881 | sorted slots at a cut become a window that cannot be extended |
| Stripes.Stripe.StripeSqze | applications/m6support/vdifsg2.c:822-835 | sorted slots of any blocks become the blocks behind a cut, sorted |
| Stripes.Stripe.StripeBoff | applications/m6support/vdifsg2.c:892-931 | the counters become the bytes before, in and behind the window, and add up to the whole |
| Stripes.Stripe.StripeSchk | applications/m6support/vdifsg2.c:655-694 | reports an error exactly if the slots up to the gap are out of order; sorted slots are left alone |
| Stripes.Stripe.StripeWalk | applications/m6support/vdifsg2.c:1050-1131 | a forward walk goes to the window that immediately follows: the new start is the old end, the new window is not empty, and the order check reports no error |
| Stripes.Stripe.StripeWalkBack | applications/m6support/vdifsg2.c:1050-1131 | a backward walk whose members step back to a cut gives the window behind that cut, which reaches the old start, so that the vernier step is satisfied |
| Stripes.Stripe.WalkForthAndBack | applications/m6support/vdifsg2.c:1030-1131 | from every window in strict rotation that has bytes behind it, and from any window with a block of every member that has started, a backward walk undoes a forward walk: same slots, same blocks, same counters |
| Stripes.Stripe.RotationFills | applications/m6support/vdifsg2.c:1030-1049 | in strict rotation every window that has bytes behind it is of that kind |
| Stripes.Stripe.StripeSpot | applications/m6support/vdifsg2.c:1138-1165 | from any legal block numbers the stripe ends as a window, and the order check reports no error; what lies before the window are exactly the blocks that start before the earliest of those asked for |
| Window.OneAim | applications/m6support/vdifsg2.c:1138-1165 | with one member the cut is right in front of the block asked for |
| Stripes.Stripe.BlocksAt | applications/m6support/vdifsg2.c:1193-1200 | the block numbers aimed at are the nearest ones to the fraction asked for that exist, the even one of two |
| Stripes.Stripe.StripeFind | applications/m6support/vdifsg2.c:1183-1203 | the stripe lands where it was sent: what lies before the window are exactly the blocks that start before the earliest of those nearest, in each member, to where the middle of the request is in the virtual file |
| Stripes.NearInFile | applications/m6support/vdifsg2.c:1191-1200 | the block nearest to the fraction is the one nearest to that byte of the virtual file, in whole numbers |
| Stripes.LandsOnNearest | applications/m6support/vdifsg2.c:1183-1203 | with one member the stripe lands on the nearest block, which is at most one block away |
| Stripes.Stripe.StripeJump | applications/m6support/vdifsg2.c:1212-1241 | jumps exactly for requests more than 262,144,000 bytes away, counted to the middle, and lands where `StripeFind` says; otherwise nothing moves |
| Stripes.Stripe.SeekForward | applications/m6support/vdifsg2.c:1283-1316 | the forward part of the seek ends with the start of the request in the window, unless it lies before it, and counts no strike |
| Stripes.Stripe.StripeChck | applications/m6support/vdifsg2.c:1250-1332 | when no backward walk is needed the seek ends with the start of the request in the window, without a strike; one is needed exactly if the window that the seek starts from, the current one or where the jump lands, starts behind the request |
| Window.RotationBack | applications/m6support/vdifsg2.c:1030-1049 | in strict rotation the blocks that the members step back to are the blocks behind a cut |
| Rounds.ForthBack | applications/m6support/vdifsg2.c:1030-1049 | in strict rotation a step of every member forward undoes the step back, except into the first window, so the windows abut |
| Stripes.Stripe.SeekBack | applications/m6support/vdifsg2.c:1264-1281 | in strict rotation the backward seek ends, counts no strike, and ends on the first window, going back, that starts before the end of the request, and reaches it; it leaves the first window exactly for an empty request at the start of the file |
| Stripes.Stripe.StripeRdbw | applications/m6support/vdifsg2.c:1484-1534 | in strict rotation a request that starts before the window and ends in it is answered by its slice exactly if `BackwardEnd` comes to `Filled`; otherwise it fails, and whether it leaves the first window is said too |
| Rounds.PieceDecides | applications/m6support/vdifsg2.c:1500-1520 | whether a window has the piece asked of it decides the whole request, or leaves a shorter one to the window before |
| Rounds.NearBackward | applications/m6support/vdifsg2.c:1484-1534 | a request that starts in the window before is read; one that starts exactly where that window starts never is |
| Rounds.FilledHalves | applications/m6support/vdifsg2.c:1518-1519 | behind the first round a request that reaches back further is read exactly if the starts of the windows halve what is left of it |
| Rounds.ShortBackward | applications/m6support/vdifsg2.c:1484-1534 | a request that is not longer than any block is read |
| Samples.ReadFromBoundary | applications/m6support/vdifsg2.c:1518-1519 | a file of three blocks is opened; reading its last block succeeds, and reading the last two then fails |
| Samples.ReadFromStart | applications/m6support/vdifsg2.c:1518-1519 | a file of two blocks is opened; reading the second succeeds, and reading both then leaves the first window |
| Samples.ReadHalved | applications/m6support/vdifsg2.c:1518-1519 | a file of three blocks of different sizes is opened; reading the last block and then a request that reaches back two windows succeeds |
| Stripes.Stripe.StripeAnal | applications/m6support/vdifsg2.c:1337-1363 | some bytes are refused exactly if they start behind the window or reach over both its ends, none only if they lie behind its end; what is let through is what one direction of reading can serve (`Transfer`) |
| Stripes.ReadParts | applications/m6support/vdifsg2.c:1376-1421 | copies the full request exactly if it lies in the window, whichever blocks it starts and ends in, and writes nothing outside the buffer range |
| Stripes.CopyPart | applications/m6support/vdifsg2.c:1388-1408 | what one block contributes to a request |
| Stripes.Stripe.StripeRead | applications/m6support/vdifsg2.c:1376-1421 | a request inside the window is answered by its slice of the virtual file, any other fails |
| Stripes.Stripe.StripeRdfw | applications/m6support/vdifsg2.c:1431-1477 | a request that starts in the window and ends in the file is answered in full by its slice, across any number of windows |
| Stripes.Stripe.TakeRequest | applications/m6support/vdifsg2.c:1742-1782 | a request is cut off at the end of the file; one that starts outside the file is answered at once |
| Stripes.Stripe.Transfer | applications/m6support/vdifsg2.c:1805-1861 | a request that starts in the window is answered by its slice wherever it ends; one that starts before it is left to the backward read if it ends in the window, and refused otherwise |
| Stripes.Stripe.ReadSeq | applications/m6support/vdifsg2.c:1737-1862 | every read: the error for negative offsets, the end of the file, the slice trimmed at the end of the file; refused exactly if the request reaches over both ends of the window sought; answered exactly if it does not start before the window that the seek starts from, the current one or where the jump lands |
| Samples.ReadAcross | applications/m6support/vdifsg2.c:1337-1363 | a file of three blocks is opened; reading the middle one succeeds, and reading all three then ends in the I/O error |
| Stripes.Stripe.SeekNear | applications/m6support/vdifsg2.c:1260-1320 | backward and forward seek together: a request starts in the window, or the stripe is on the window sought |
| Stripes.Stripe.ShortReads | applications/m6support/vdifsg2.c:1737-1862 | in strict rotation a non-empty read that is not longer than any block is complete from every window |
| Stripes.Stripe.ReadNear | applications/m6support/vdifsg2.c:1790-1861 | a read without a jump in strict rotation: complete, refused or off the first window, as the cut in front of the window and the request say |
| Stripes.Stripe.ReadRotating | applications/m6support/vdifsg2.c:1737-1862 | every read in strict rotation, forward or backward, near or distant: a complete read is its slice; a non-empty one that is not longer than any block is complete; and the window it seeks from, the current one or where the jump lands, says exactly which are complete, refused, or leave the first window |
| Stripes.Stripe.ReadThrough | applications/m6support/vdifsg2.c:1725-1862 | reading from start to end in pieces of any size yields the virtual file |
| Cache.AppendAtEnd | applications/m6support/vdifseq.c:148-176 | a child put into the last continuation comes last |
| Cache.KidsFrame | applications/m6support/vdifseq.c:88-104 | a chain depends on the entries of its own head only |
| Cache.LinkKeeps | applications/m6support/vdifseq.c:109-121 | linking a continuation keeps all children of all heads |
| Cache.AppendKeeps | applications/m6support/vdifseq.c:148-176 | adding a child to one head changes nobody else's children |
| Cache.ChunkNext | applications/m6support/vdifsup.c:1004-1035 | the first unused position of a continuation reads as zero, and then there are no more children |
| Cache.MetaCache.ExtendVdCache | applications/m6support/vdifsup.c:82-100 | growing keeps every entry and clears the next chunk |
| Cache.MetaCache.CreateCacheEntry | applications/m6support/vdifsup.c:112-118 | hands out the next entry, which is zero, and changes no other |
| Cache.MetaCache.AddContinuation | applications/m6support/vdifseq.c:109-121 | the new entry becomes the end of the chain, across growth of the cache |
| Cache.MetaCache.CheckContinuation | applications/m6support/vdifseq.c:128-143 | finds or makes the end of the chain, with room, and keeps all children |
| Cache.MetaCache.AddToParentDir | applications/m6support/vdifseq.c:148-176 | the child becomes the last of its parent's children, the link count grows by one, nothing else changes |
| Cache.MetaCache.TfragSadd | applications/m6support/vdifseq.c:308-353 | the same for fragments; one of another subtype is refused and changes no children |
| Cache.MetaCache.AddAll | applications/m6support/vdifseq.c:400-421 | after any interleaving of directories and fragments each entry has its children in the order they were added, less the fragments of another subtype than the first |
| Cache.MetaCache.GetVdifuseSubdir | applications/m6support/vdifsup.c:1004-1035 | each call returns the next child and leaves the rest, or reports the end exactly when none is left |
| Cache.MetaCache.ListDir | applications/m6support/vdifuse.c:136-141 | listing a directory gives its children in order, and stops |
| Cache.MetaCache.Members | applications/m6support/vdifsg2.c:1614-1620 | opening a sequence visits the same children in the same order |
| Hierarchy.ParentEarlier | applications/m6support/vdifseq.c:35-42 | in the order of names a directory comes before everything in it |
| Hierarchy.NameOrder | applications/m6support/vdifseq.c:35-42 | one name comes before another exactly if it does so at the first character in which they differ, or is a beginning of it |
| Hierarchy.ChildrenOfPath | applications/m6support/vdifseq.c:178-220 | the children of a path's entry are the entries of the paths in it, in the order of names |
| Hierarchy.HierTree.FragmentInHierarchy | applications/m6support/vdifseq.c:474-546 | a fragment enters every directory on its way and itself, and nothing else; its own path, and no other, becomes that of a sequence; every path in the tree lies in the top directory or in a directory of the tree |
| Hierarchy.TrueParent | applications/m6support/vdifseq.c:68-86 | in such a tree the paths at the first level, and no others, go under the top entry; every other path goes under its own directory |
| Hierarchy.PathTree.FindSeqParent | applications/m6support/vdifseq.c:68-86 | the entry of the directory of a path, or the top directory |
| Hierarchy.PathTree.ThierSdir | applications/m6support/vdifseq.c:185-220 | the new entry is a sequence or a directory as the path is, and goes under the entry of its directory, which has been made before |
| Hierarchy.PathTree.TwalkThierSdir | applications/m6support/vdifseq.c:400-421 | the walk builds the whole tree and adds nothing else; the entry of a path is a sequence if the path is one, and a directory otherwise; errors are counted for paths without a directory only |
| Bisect.MidInside | applications/m6support/exthdr.c:245-254 | the middle is half the sum of the ends, rounded down, and lies in the interval, exactly as long as the sum does not wrap around |
| Bisect.ResolveWorks | applications/m6support/exthdr.c:272-321 | every reading lowers the work left, so the search ends |
| Bisect.ResolveKeeps | applications/m6support/exthdr.c:272-321 | every reading keeps the intervals apart and true to the data; those done with are adjacent packets with different data |
| Bisect.ResolveBrackets | applications/m6support/exthdr.c:256-321 | if equal data come from one run, no jump slips out of the intervals |
| Bisect.ExhaustedFindsJumps | applications/m6support/exthdr.c:256-321 | when all intervals are done with they are exactly the jumps |
| Bisect.EarlyStop | applications/m6support/exthdr.c:377-384 | a search that stops with work left stopped at a jump right behind the first middle |
| Bisect.SearchFindsJumps | applications/m6support/exthdr.c:346-385 | a search of packets first to final goes through all intervals if and only if there is no such jump (or it is two packets), and then finds exactly the jumps |
| Bisect.SearchLocatesAll | applications/m6support/exthdr.c:346-385 | a search of packets first to final locates every jump if and only if there is no such jump (or it is two packets), or bisecting either side of the first middle leaves only adjacent packets for later |
| Bisect.StopsComplete | applications/m6support/exthdr.c:377-384 | an example in which the search stops with work left and has located every jump |
| Bisect.FirstJumpLost | applications/m6support/exthdr.c:187-202 | a jump right behind the packet a search is started on is not located |
| Bisect.RunLocatesAll | applications/m6support/exthdr.c:448-471 | a search started on packet first locates every jump from there on if and only if there is none right behind first, and the search of the others locates all of theirs |
| Bisect.FirstPacketLost | applications/m6support/exthdr.c:187-202 | an example in which the first jump is lost |
| Bisect.MissedJump | applications/m6support/exthdr.c:377-384 | an example in which a jump is missed |
| Bisect.ResolveStamps | applications/m6support/exthdr.c:272-321 | what one reading makes of the reported time: narrowing puts it right, the branch for three data keeps it right exactly if it was that of the lesser end |
| Bisect.StrayStamps | applications/m6support/exthdr.c:272-321 | a located jump is reported with the time of a packet at the jump exactly if `Strays` does not hold of the data, and otherwise with that of a packet behind it |
| Bisect.TwoDataStamps | applications/m6support/exthdr.c:272-321 | with no data but those of the two ends of the range every reported time is right |
| Bisect.StrayStamp | applications/m6support/exthdr.c:305-318 | an example in which the reported time is not at the jump |
| Bisect.SrchState.MoreStack | applications/m6support/exthdr.c:169-185 | growing keeps the stack |
| Bisect.SrchState.EhsBegin | applications/m6support/exthdr.c:187-202 | the arrays are allocated, and the reading made before is lost |
| Bisect.SrchState.UpdateEhsHis | applications/m6support/exthdr.c:208-222 | a reading at a new offset is kept; a repeated one changes nothing that is in use |
| Bisect.RepeatedVisit | applications/m6support/exthdr.c:208-222 | a visit repeated at once that is not counted |
| Bisect.OnePacket | applications/m6support/exthdr.c:346-359 | a search of two packets, the first of them lost, leaves one entry in the history where two are used |
| Bisect.SrchState.AppendEhsStk | applications/m6support/exthdr.c:227-240 | the interval is added to the stack, which grows when it is full |
| Bisect.SrchState.ResolveEhsStk | applications/m6support/exthdr.c:272-321 | the arrays change as the step on values says |
| Bisect.SrchState.EhsFirst | applications/m6support/exthdr.c:330-341 | keeps the first valid reading, steps over invalid ones |
| Bisect.SrchState.EhsFinal | applications/m6support/exthdr.c:346-359 | keeps the last valid reading, steps back over invalid ones, and starts with one interval |
| Bisect.SrchState.EhsSearch | applications/m6support/exthdr.c:367-385 | one step of the search: a valid reading resolves the interval, and ends the search exactly if the next packet is the first middle; an invalid one steps away from the first middle and keeps everything else, and ends the search exactly if the packet is not strictly between the first middle and an end |
| Bisect.SrchState.ExtendedHdrSearch | applications/m6support/exthdr.c:448-471 | one reading, valid or not, in every state of the search, with the whole new state; the first one is lost and moves the start of the search on; an invalid one ends the search exactly if its packet is not strictly between the first middle and an end; a true reading brings the search nearer to its result |
| Bisect.SrchState.Run | applications/m6support/exthdr.c:448-471 | on valid readings the search ends with the intervals of `Searched` for the packets behind the first, having kept only true readings |
| Blind.BlindStep | applications/m6support/exthdr.c:369-379 | a packet that cannot be read ends the search if it is the first middle; any other is stepped away from, within its interval and nearer to its end |
| Blind.ReadStep | applications/m6support/exthdr.c:380-384 | a packet that can be read, though it is not the middle, lowers the work left, and ends the search or keeps it going |
| Blind.ReadSpans | applications/m6support/exthdr.c:256-321 | if equal data come from one run of the packets that can be read, no jump between two of them slips out of the intervals |
| Blind.CheckSearch | applications/m6support/per_file.c:315-362 | whatever packets cannot be read, as long as two behind the first can: within one reading for each packet of the range the search is over, or has used them all; if it is over the first middle could not be read, or no interval is left, or the one to come is a jump right behind the first middle; its intervals are apart and true to the data throughout |
| Blind.AllClosed | applications/m6support/exthdr.c:256-321 | a search that goes through all intervals finds every jump of what can be read, in an interval that tells two neighbours or has a half that cannot be read |
| Blind.ClosedIsExact | applications/m6support/exthdr.c:256-321 | where all packets can be read such an interval is two neighbours |
| Blind.WideLeap | applications/m6support/exthdr.c:369-379 | a jump that is told no nearer than three packets apart, although a packet between them can be read |
| Calendar.Epoch | applications/difx_monitor/mon_sample.cpp:372-385 | day 0 is 17 November 1858 |
| Calendar.NextDayLaw | applications/difx_monitor/mon_sample.cpp:372-385 | the next day number is the next day of the Gregorian calendar |
| Calendar.DaysSinceEpoch | applications/difx_monitor/mon_sample.cpp:372-385 | every day number gives the date that many days after day 0 |
| Calendar.GivesDates | applications/difx_monitor/mon_sample.cpp:372-385 | the result is a date of the calendar |
| Calendar.ClosedForm | applications/difx_monitor/mon_sample.cpp:374-378 | the nested divisions count quarter days from the start of a century |
| Calendar.FitsUntil | applications/difx_monitor/mon_sample.cpp:372-385 | the last day for which every intermediate value fits in an int |

## Left out

- Stripes.Stripe.StripeWalkBack: only for stripes whose members step back to the blocks behind one cut, as they always do in strict rotation; the source calls the general backward step a heuristic. The vernier steps (`stripe_vern`) are then not taken, and are not modelled.
- Stripes.Stripe.SeekBack: only for strict rotation, for the same reason. What the source does after the walk has left the first window, where no slot is live, is not followed.
- Stripes.Stripe.SeekNear: only for strict rotation, for the same reason.
- Stripes.Stripe.StripeRdbw: only for strict rotation; what follows when the walk leaves the first window is not followed.
- Stripes.Stripe.StripeChck: the backward loop is in `SeekBack`; here a request that needs it is only reported.
- Stripes.Stripe.ReadSeq: reports `Backward` where the backward seek or `stripe_rdbw` would be used, also after a jump that lands behind the request; `ReadRotating` goes on from there in strict rotation.
- Stripes.Stripe.ReadNear: only for strict rotation.
- Stripes.Stripe.ReadRotating: only for strict rotation.
- SgAnalysis.Analysis.BinarySearch: what happens after the sum of two block numbers has wrapped around.
- SgAnalysis.Analysis.Analyse: for file tags with a packet size of at least 4 bytes and a block size that is not zero; the source goes on with smaller ones, divides by them or steps by zero.
- SgAnalysis.Analysis.ShortEndfix: which of the error codes marks a failure on a file that is not laid out as expected; only that it is negative. The same holds for the searches it uses and for `ShortSearch`.
- SgAnalysis.Analysis.FinalPacket: the final time stamps are not kept.
- Stripes.Stripe.StripeFind: the fraction of the file is a real number here and a double in the source. The restoring of the old position after a failed search is left out: the search never reports failure.
- Member.MemberMove: the check of packet times against the packet count (`pkt_time_chk`) only sets an error flag, and is not modelled.
- Member.MemberInit: the first and final times of the member and the flag for a wrong order of them are not kept.
- Stripes.Stripe.StripeRead: the count of reads per slot and the other diagnostic counters are not kept.
- Bisect.SrchState.Run: the results on which jumps are located, and with which times, are for valid readings of at least three packets, and without the limit on the number of readings, which `Blind.CheckSearch` has. The sorting for the report is left out. A datum is a reading already rounded to the resolution of the search.
- Blind.CheckSearch: for at least two packets behind the first that can be read; with fewer the search runs past the range, or uses a history entry that was never written (`OnePacket`). A range that reaches past the file is cut off before.
- Cache.MetaCache.ListDir: one listing at a time; two interleaved listings share one position in the source.
- Hierarchy.HierTree.FragmentInHierarchy: the parts of a fragment's name are given, without the splitting of the name; paths are not cut off at their largest length.
- Hierarchy.PathTree.TwalkThierSdir: the search tree is given by its paths in order; inserting into it, and the top directory entry itself, are left out.
- The number of members is not bounded by the 56 slots of the source's stripe array, and block and packet counts, file offsets and byte counts are unbounded integers.
- Time stamps of invalid packets, extrapolated by the source, and the change of the reference epoch; times of packets are read from their headers as they are.
- The search for a valid signature before the scan for the first packet (`valid_first_signature`): what it finds is given, and the signature at an offset is that of a header as `sg_get_vsig` corrects it. What the lookups find with packet offsets other than zero, and read sizes other than the packet size.
- Flat files; memory mapping and read-ahead; FUSE calls, threads and locks; logging and tracing; file names, filters and options; running out of memory or of cache entries.
- The loops that count bad signatures and time skips between packets (`sg_pkt_check`, `sg_pkt_times`).
- `get_vdifuse_sequence`, `get_vdifuse_fragment` and the report functions.
