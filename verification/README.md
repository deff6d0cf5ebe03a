# Verified model of PurC Fetcher's network process core

This project models the stateful engines of PurC Fetcher's network process in Dafny and proves what they are for. Objects
that the program updates in place are classes whose methods update fields and arrays; what they compute is stated by
functions, and the laws are proved about those functions and about every state the classes can reach. Each class can be
driven from its constructor through its own operations; `StartedFirstFiresFirst` does so for the timers.

| files | engine | main results |
|---|---|---|
| `TimerOrder`, `TimerHeap`, `FiringPass`, `ThreadTimers` | the timers of a thread | every change of a fire time keeps the indexed heap; the system timer follows the heap; a firing pass fires exactly the due timers, in order, each once |
| `Utf8`, `Utf8Codec`, `Utf8Streams`, `Utf8Cuts`, `Utf8RoundTrip`, `TextCodecUTF8` | the streaming UTF-8 codec | the 8-bit attempt changes nothing; cutting the input changes nothing on exactly the inputs described; error-free means UTF-8; encoding and decoding undo each other; nothing is written beyond the buffers |
| `EscapeSequences` | percent-escapes | unescaping undoes every percent-encoding of a string's UTF-8 form |
| `MessagePorts` | message-port channels and their registry | a channel is registered exactly while something holds it; no message is lost, repeated or reordered |
| `SharedBuffer` | the segmented byte string | equality, lookup, combining and copying agree with the flat byte string, however it is cut |
| `Authentication` | coalescing of authentication challenges | one message per class of challenges; every handler is called exactly once |
| `Cors` | the preflight cache | a skipped preflight would have succeeded, with the exact exceptions |
| `StorageQuota` | the quota countdown | the space granted since a reading never exceeds the room at that reading |

Two properties that one might expect do not hold of the code, and the model says exactly when they do.

- Cutting the input of the UTF-8 decoder can change its output on ill-formed input: after a character of two or more bytes
  the held bytes are cut but not shifted (`Source/PurCFetcher/auxiliary/TextCodecUTF8.cpp:271-272`). `CutCanChangeLeftover`
  gives an input, `WideIsMainOnPatched` says for every input which bytes such a call in effect decodes, and
  `CutsMatterExactly` proves that no cut changes anything if and only if the input has no harmful leftover: a byte F0 to F4,
  a whole two-byte character and then a byte that, before the byte that follows it, does not decode as the character's
  first byte would. `HarmfulAt` spells this out in terms of the bytes alone. No UTF-8 has one.
- A preflight response taken under the policy `EphemeralStateless` can later let a request with credentials go without a
  preflight that would fail, and one taken under `DoNotUse` can do the same for an `EphemeralStateless` request
  (`Source/PurCFetcher/auxiliary/CrossOriginPreflightResultCache.cpp:102-113`). `EphemeralEntrySkips` and
  `WildcardEntrySkips` give a case of each, and `SkippingIsSound` proves that these two are the only ones.

Times are real numbers and clocks are parameters. The library's `push_heap` and `pop_heap` are modelled as sift-up, and as
a swap followed by sift-down; `std::upper_bound` as the usual halving search. The system timer is a one-shot: that it has
expired is part of the step that begins a firing pass. Integers are unbounded except where the code
relies on their width: the 32-bit insertion counter wraps, and bytes are bytes.

## Model

| member | source | states |
|---|---|---|
| `TimerOrder.WrappingOrderIsExact` | Source/PurCFetcher/auxiliary/Timer.cpp:227-237 | at equal times the 32-bit comparison gives the true order of two counters, both ways round, if and only if their distance modulo 2^32 is between 1 and 2^31 - 2 |
| `TimerOrder.WrappingOrderFailsOutsideWindow` | Source/PurCFetcher/auxiliary/Timer.cpp:227-237 | just outside that window two counters are put in neither order, and a whole wrap apart in both orders |
| `TimerOrder.ComparatorIsBefore` | Source/PurCFetcher/auxiliary/Timer.cpp:227-237 | on comparable keys the comparator is true exactly when the second key comes before the first in the order by time and unbounded counter |
| `TimerOrder.ComparatorIsStrictTotalOrder` | Source/PurCFetcher/auxiliary/Timer.cpp:227-237 | on any set of pairwise comparable keys, of two distinct keys exactly one comes first, the order is transitive, and equal times fire first-started-first, also across a wrap |
| `HeapOrder.RootFiresFirst` | Source/PurCFetcher/auxiliary/Timer.cpp:370-379 | in an ordered heap the root comes before every other slot |
| `HeapOrder.SiftUpStep` | Source/PurCFetcher/auxiliary/Timer.cpp:316-324 | one exchange of sift-up moves the only possibly misplaced slot to its parent and keeps all else ordered |
| `HeapOrder.SiftDownStep` | Source/PurCFetcher/auxiliary/Timer.cpp:370-379 | one exchange of sift-down with the earlier child moves the only possibly misplaced slot to that child |
| `HeapOrder.ChangedKey` | Source/PurCFetcher/auxiliary/Timer.cpp:405-421 | after one key changed, the heap is ordered if and only if that slot is ordered against its parent and its two children |
| `HeapOrder.LoweredKey` | Source/PurCFetcher/auxiliary/Timer.cpp:359-365 | a slot given an earlier key is the only one that may be misplaced, and only against its parent |
| `TimerHeap.Heap.CompareSlots` | Source/PurCFetcher/auxiliary/Timer.cpp:227-237 | the comparator applied to two slots decides the order of their unbounded keys |
| `TimerHeap.Heap.Swap` | Source/PurCFetcher/auxiliary/Timer.cpp:127-139 | exchanging two slots exchanges their keys and keeps every item's back-index equal to its slot |
| `TimerHeap.Heap.PushHeap` | Source/PurCFetcher/auxiliary/Timer.cpp:316-324 | sift-up restores the order of the whole heap, with back-indices and members kept |
| `TimerHeap.Heap.EarlierChild` | Source/PurCFetcher/auxiliary/Timer.cpp:370-379 | the child found comes before its sibling |
| `TimerHeap.Heap.SiftDown` | Source/PurCFetcher/auxiliary/Timer.cpp:370-379 | sift-down from the root restores the order of the first slots and touches none beyond them |
| `TimerHeap.Heap.PopHeap` | Source/PurCFetcher/auxiliary/Timer.cpp:370-379 | the root goes to the last slot and the slots before it are an ordered heap |
| `TimerHeap.Heap.HeapRaise` | Source/PurCFetcher/auxiliary/Timer.cpp:359-365 | an item forced to minus infinity reaches slot 0, wherever it was and whether or not its new key is in order |
| `TimerHeap.Heap.HeapPop` | Source/PurCFetcher/auxiliary/Timer.cpp:359-368 | an item of any position ends in the last slot with its own time again, the slots before it ordered |
| `TimerHeap.Heap.RemoveLast` | Source/PurCFetcher/auxiliary/Timer.cpp:326-332 | taking the last item away leaves an ordered heap of the other items, and the item marked as not in the heap |
| `TimerHeap.Heap.HeapDelete` | Source/PurCFetcher/auxiliary/Timer.cpp:326-332 | exactly the item leaves the heap, which stays ordered and indexed |
| `TimerHeap.Heap.HeapIncreaseKey` | Source/PurCFetcher/auxiliary/Timer.cpp:342-347 | an item whose key became later is put in place; no item enters or leaves |
| `TimerHeap.Heap.HeapDecreaseKey` | Source/PurCFetcher/auxiliary/Timer.cpp:316-324 | an item whose key became earlier is put in place; no item enters or leaves |
| `TimerHeap.Heap.HeapInsert` | Source/PurCFetcher/auxiliary/Timer.cpp:349-357 | exactly the item joins the heap, which is ordered and indexed |
| `TimerHeap.Heap.ParentPropertyHolds` | Source/PurCFetcher/auxiliary/Timer.cpp:390-396 | the answer is whether the slot comes after its parent, or is the root |
| `TimerHeap.Heap.ChildPropertyHolds` | Source/PurCFetcher/auxiliary/Timer.cpp:398-403 | the answer is whether the slot comes before the child, or there is no such child |
| `TimerHeap.Heap.HasValidHeapPosition` | Source/PurCFetcher/auxiliary/Timer.cpp:405-421 | true if and only if the item is in the heap and the whole heap is ordered |
| `TimerHeap.Heap.UpdateHeapIfNeeded` | Source/PurCFetcher/auxiliary/Timer.cpp:423-452 | whichever branch is taken, the heap is ordered and indexed again, and the item is in it exactly when it has a time |
| `TimerHeap.Heap.OverwriteKey` | Source/PurCFetcher/auxiliary/Timer.cpp:474-480 | an item may take any key that is comparable with the keys of the other items |
| `TimerHeap.Heap.SetKey` | Source/PurCFetcher/auxiliary/Timer.cpp:474-480 | overwriting an item's key leaves at most its own slot out of order |
| `TimerHeap.Heap.RootIsFirst` | Source/PurCFetcher/auxiliary/Timer.cpp:423-452 | the item in slot 0 comes before every other item of the heap |
| `TimerHeap.Heap.Reschedule` | Source/PurCFetcher/auxiliary/Timer.cpp:474-486 | the heap is kept and holds the item exactly if its new time is not zero; when the item was not first and is not first now, the first item is unchanged |
| `ThreadTimers.ThreadTimers.EnsureItem` | Source/PurCFetcher/auxiliary/Timer.cpp:477-478 | a timer gets its one heap item when it first needs it |
| `ThreadTimers.ThreadTimers.MoveInHeap` | Source/PurCFetcher/auxiliary/Timer.cpp:474-484 | an item moves to its new time with the next counter value and every heap invariant is kept |
| `ThreadTimers.ThreadTimers.MoveItem` | Source/PurCFetcher/auxiliary/Timer.cpp:474-484 | the schedule changes at this item and nowhere else |
| `ThreadTimers.ThreadTimers.MoveItemAndTrack` | Source/PurCFetcher/auxiliary/Timer.cpp:482-489 | updating the system timer only when the item was or becomes first is enough for it to follow the heap |
| `ThreadTimers.ThreadTimers.SetNextFireTime` | Source/PurCFetcher/auxiliary/Timer.cpp:454-493 | the timer has the new time, the schedule is unchanged elsewhere, and heap, ownership and system timer invariants hold |
| `ThreadTimers.ThreadTimers.AddTimer` | Source/PurCFetcher/auxiliary/Timer.cpp:247-249 | a new timer belongs to the thread and is not scheduled; every invariant is kept |
| `ThreadTimers.ThreadTimers.Start` | Source/PurCFetcher/auxiliary/Timer.cpp:262-268 | a started timer is due at the clock reading plus its interval and keeps its repeat interval; it takes one counter value exactly if its time changes, the schedule changes nowhere else, and the clock is at most the reading |
| `ThreadTimers.ThreadTimers.Stop` | Source/PurCFetcher/auxiliary/Timer.cpp:270-280 | a stopped timer has no time, no repeat interval and no place in the schedule, which is otherwise the same; it takes one counter value exactly if it was active |
| `ThreadTimers.ThreadTimers.Unscheduled` | Source/PurCFetcher/auxiliary/Timer.cpp:308-314 | a timer is outside the schedule exactly when its fire time is zero, and stopping needs no room in the counter's window |
| `TimerOrder.NextWrapped` | Source/PurCFetcher/auxiliary/ThreadTimers.h:60 | incrementing the wrapped counter wraps the incremented counter |
| `ThreadTimers.ThreadTimers.NextHeapInsertionCount` | Source/PurCFetcher/auxiliary/ThreadTimers.h:60 | the value handed out is the wrapped count, and the count goes up by one |
| `ThreadTimers.ThreadTimers.constructor` | Source/PurCFetcher/auxiliary/ThreadTimers.cpp:44-48 | a new object has no timers and an empty heap, starts its counter at zero, is attached to the UI thread's system timer if there is one, and meets every invariant |
| `ThreadTimers.ThreadTimers.Arm` | Source/PurCFetcher/auxiliary/ThreadTimers.cpp:90-91 | the system timer is armed for the time asked for, or for now if that is past |
| `ThreadTimers.ThreadTimers.RootInHeap` | Source/PurCFetcher/auxiliary/ThreadTimers.cpp:77-83 | the first item belongs to a timer and has a time |
| `ThreadTimers.ThreadTimers.UpdateSharedTimer` | Source/PurCFetcher/auxiliary/ThreadTimers.cpp:68-93 | afterwards the system timer is stopped iff no timer is scheduled, and otherwise armed for the first one, or both are due already; it is left alone exactly when what it is armed for and the first timer are both past |
| `ThreadTimers.ThreadTimers.SetSharedTimer` | Source/PurCFetcher/auxiliary/ThreadTimers.cpp:52-66 | attaching, replacing or detaching the system timer keeps every invariant and stops the old one; the clock is read exactly when one is attached |
| `ThreadTimers.ThreadTimers.FireTimersInNestedEventLoop` | Source/PurCFetcher/auxiliary/ThreadTimers.cpp:139-150 | the pass is marked as over and the system timer is armed anew for the first timer |
| `ThreadTimers.ThreadTimers.BreakFireLoopForRenderingUpdate` | Source/PurCFetcher/auxiliary/ThreadTimers.cpp:152-157 | the break is noted only while a pass is running |
| `ThreadTimers.ThreadTimers.RootIsFirst` | Source/PurCFetcher/auxiliary/ThreadTimers.cpp:107-108 | the item in slot 0 comes first in the whole schedule |
| `ThreadTimers.ThreadTimers.TakeFirst` | Source/PurCFetcher/auxiliary/ThreadTimers.cpp:118-120 | the first timer moves to its next time, or leaves the schedule, and nothing else moves |
| `ThreadTimers.ThreadTimers.RunCallback` | Source/PurCFetcher/auxiliary/ThreadTimers.cpp:122-130 | the pass ends exactly on a nested loop, on the time limit or on a rendering break |
| `ThreadTimers.ThreadTimers.NextTimesAreLater` | Source/PurCFetcher/auxiliary/ThreadTimers.cpp:119-120 | a repeating timer goes on after the time of the pass, so it is not due in it again |
| `ThreadTimers.ThreadTimers.FireNext` | Source/PurCFetcher/auxiliary/ThreadTimers.cpp:107-130 | one turn fires a timer that has not fired in this pass and extends the firing order |
| `ThreadTimers.ThreadTimers.FireLoop` | Source/PurCFetcher/auxiliary/ThreadTimers.cpp:107-131 | the loop ends, and leaves no due timer unless it was cut short; it is cut short only by what its last callback did or by the time limit |
| `ThreadTimers.ThreadTimers.LoopResult` | Source/PurCFetcher/auxiliary/ThreadTimers.cpp:107-131 | what a finished loop did, in terms of the schedule before it |
| `ThreadTimers.ThreadTimers.BeginPass` | Source/PurCFetcher/auxiliary/ThreadTimers.cpp:98-102 | a pass begins with the guard set, no pending time, the system timer's one shot spent, and all invariants |
| `ThreadTimers.ThreadTimers.EndPass` | Source/PurCFetcher/auxiliary/ThreadTimers.cpp:133-136 | a pass ends with both flags cleared, a reading of the clock and the system timer set for what is left |
| `ThreadTimers.ThreadTimers.FirePass` | Source/PurCFetcher/auxiliary/ThreadTimers.cpp:104-131 | the timers fired are the first of the schedule, all due, in order and each once; each is set for the time of the pass plus its repeat interval, with counter values in firing order, or is gone if it has none; without a cut all due timers fired |
| `ThreadTimers.ThreadTimers.RepeatOrStop` | Source/PurCFetcher/auxiliary/ThreadTimers.cpp:119-120 | a timer that fired is set for the time of the pass plus its repeat interval, or not at all if that is zero |
| `ThreadTimers.ThreadTimers.SharedTimerFired` | Source/PurCFetcher/auxiliary/ThreadTimers.cpp:95-137 | the same for the whole callback, which does nothing when a pass is running, takes one counter value per timer fired and leaves the system timer following the heap |
| `ThreadTimers.ThreadTimers.OneShotsHaveRoom` | Source/PurCFetcher/auxiliary/ThreadTimers.cpp:119-120 | a pass over timers that do not repeat asks nothing of the insertion counters |
| `ThreadTimers.ThreadTimers.StoppedWhenIdle` | Source/PurCFetcher/auxiliary/ThreadTimers.cpp:79-81 | outside a pass the system timer is stopped when nothing is scheduled |
| `ThreadTimers.StartTwo` | Source/PurCFetcher/auxiliary/ThreadTimers.cpp:44-66 | a run from nothing: a thread's timers are made, a system timer is attached and two timers are started for the same time, in two different moments |
| `ThreadTimers.FireTwo` | Source/PurCFetcher/auxiliary/ThreadTimers.cpp:95-137 | two one-shot timers due at the same time both fire, the smaller counter value first, and the system timer is then stopped |
| `ThreadTimers.StartedFirstFiresFirst` | Source/PurCFetcher/auxiliary/ThreadTimers.cpp:95-137 | a whole run from nothing: two timers started for the same time both fire in one pass, first-started-first, and the system timer is then stopped |
| `FiringPass.BeginIsGood` | Source/PurCFetcher/auxiliary/ThreadTimers.cpp:95-105 | a pass that has fired nothing meets the invariant of passes |
| `FiringPass.FireFirst` | Source/PurCFetcher/auxiliary/ThreadTimers.cpp:107-131 | firing the first due timer of the schedule keeps the invariant, and the timer had not fired in this pass |
| `FiringPass.NoneLeftDue` | Source/PurCFetcher/auxiliary/ThreadTimers.cpp:107-131 | when the first timer left is not due, every timer that was due at the start has fired |
| `FiringPass.GoodPass` | Source/PurCFetcher/auxiliary/ThreadTimers.cpp:107-131 | the invariant gives the order of a pass, its new schedule and the number of counter values it took |
| `FiringPass.OrderCarriesOver` | Source/PurCFetcher/auxiliary/ThreadTimers.cpp:119-120 | a timer that fired and shares its new time with another comes after the one that had not fired, and in the order of this pass if both had |
| `FiringPass.InSeconds` | Source/PurCFetcher/auxiliary/ThreadTimers.cpp:107-131 | in seconds and counter values: what fired was due, each before the next and before all that did not fire; a complete pass fired exactly what was due |
| `Utf8.AnnouncedLength` | Source/PurCFetcher/auxiliary/TextCodecUTF8.cpp:63-84 | the table gives a byte the length n exactly if some UTF8-char of n octets, section 4 of RFC 3629, begins with it |
| `Utf8.FrontOf` | Source/PurCFetcher/auxiliary/TextCodecUTF8.cpp:305-347 | a character found is a scalar value that takes no more code units than bytes; fewer than four bytes can be cut short |
| `Utf8.FrontIsSyntax` | Source/PurCFetcher/auxiliary/TextCodecUTF8.cpp:63-157 | a character of n bytes is found exactly when those bytes are a UTF8-char of section 4 of RFC 3629, and its octets by section 3 are those bytes |
| `Utf8.OctetsDecode` | Source/PurCFetcher/auxiliary/TextCodecUTF8.cpp:63-157 | the octets of a character are decoded as that character, whatever follows |
| `Utf8.BadGivesUp` | Source/PurCFetcher/auxiliary/TextCodecUTF8.cpp:86-157 | an ill-formed sequence gives up the longest first part that could begin a UTF8-char, and at least one byte: with the next byte it could not |
| `Utf8Codec.Main` | Source/PurCFetcher/auxiliary/TextCodecUTF8.cpp:382-427 | the loop gives at most as many code units and held bytes as it is given bytes, and holds only a sequence cut short |
| `Utf8Codec.PartialShrinks` | Source/PurCFetcher/auxiliary/TextCodecUTF8.cpp:220-274 | handling the held bytes uses up bytes and never holds a complete character |
| `Utf8Codec.Partial8Shrinks` | Source/PurCFetcher/auxiliary/TextCodecUTF8.cpp:178-218 | the same for the 8-bit attempt |
| `Utf8Codec.MainAfterMain8` | Source/PurCFetcher/auxiliary/TextCodecUTF8.cpp:305-352 | the 8-bit main loop followed by the 16-bit one from where it gives up is the 16-bit one |
| `Utf8Codec.PartialAfterPartial8` | Source/PurCFetcher/auxiliary/TextCodecUTF8.cpp:178-218 | on held bytes that a codec can have, an 8-bit attempt that gives up has lost nothing |
| `Utf8Codec.DecodeIsWide` | Source/PurCFetcher/auxiliary/TextCodecUTF8.cpp:276-433 | for every state and input, the 8-bit attempt with up-conversion gives the same units, held bytes and error as 16 bits from the start |
| `Utf8Streams.WideHolds` | Source/PurCFetcher/auxiliary/TextCodecUTF8.cpp:276-433 | what a call holds for the next one is again something a codec can hold |
| `Utf8Streams.FlushedHoldsNothing` | Source/PurCFetcher/auxiliary/TextCodecUTF8.cpp:353-428 | a flushed call that does not stop at errors holds nothing |
| `Utf8Streams.WideFits` | Source/PurCFetcher/auxiliary/TextCodecUTF8.cpp:276-281 | units written and bytes held never exceed the bytes held before and the bytes given |
| `Utf8Streams.WideIsUtf16` | Source/PurCFetcher/auxiliary/TextCodecUTF8.cpp:159-170 | every output is well-formed UTF-16 |
| `Utf8Streams.WideIsMainOnPatched` | Source/PurCFetcher/auxiliary/TextCodecUTF8.cpp:220-274 | for all held bytes and all input, a call is the main loop on the patched bytes, in which a byte left over in the buffer is lost |
| `Utf8Streams.MainSplits` | Source/PurCFetcher/auxiliary/TextCodecUTF8.cpp:382-427 | the main loop may be interrupted between any two bytes if it goes on with the held bytes in front |
| `Utf8Streams.CutCanChangeLeftover` | Source/PurCFetcher/auxiliary/TextCodecUTF8.cpp:271-272 | F0 C3 and A9 41 decode differently from F0 C3 A9 41 |
| `Utf8Cuts.PatchedIsPatch` | Source/PurCFetcher/auxiliary/TextCodecUTF8.cpp:271-272 | the bytes a call in effect decodes differ from the real ones only behind a lead byte of four and a two-byte character, where the character's first byte stands for the byte that is lost |
| `Utf8Cuts.RunIsMainOnPatch` | Source/PurCFetcher/auxiliary/TextCodecUTF8.cpp:276-433 | every run of calls on any bytes, however cut, gives what the main loop gives on such a patch of all the bytes |
| `Utf8Cuts.MainPastLeftover` | Source/PurCFetcher/auxiliary/TextCodecUTF8.cpp:382-427 | behind a leftover's character the main loop starts anew |
| `Utf8Cuts.PatchAtOne` | Source/PurCFetcher/auxiliary/TextCodecUTF8.cpp:271-272 | losing the byte behind one leftover changes the result if and only if that byte decodes differently from the byte in its place, which the next byte and the length decide |
| `Utf8Cuts.HarmlessPatch` | Source/PurCFetcher/auxiliary/TextCodecUTF8.cpp:271-272 | losing bytes at leftovers that are not harmful changes nothing |
| `Utf8Cuts.CutsChangeNothing` | Source/PurCFetcher/auxiliary/TextCodecUTF8.cpp:276-433 | every way of cutting bytes without a harmful leftover gives the units, error and empty end state of one flushed call on all of them |
| `Utf8Cuts.HarmfulCut` | Source/PurCFetcher/auxiliary/TextCodecUTF8.cpp:271-272 | bytes with a harmful leftover can be cut in two so that the result is another one |
| `Utf8Cuts.CutsMatterExactly` | Source/PurCFetcher/auxiliary/TextCodecUTF8.cpp:276-433 | it makes no difference how bytes are cut into calls if and only if they have no harmful leftover |
| `Utf8Streams.FreshDecode` | Source/PurCFetcher/auxiliary/TextCodecUTF8.cpp:276-433 | a fresh flushed call is the main loop, with one replacement character for a sequence cut short at the end |
| `Utf8RoundTrip.CodePointOfUnits` | Source/PurCFetcher/auxiliary/TextCodecUTF8.cpp:159-170 | the code units appended for a character are read back as that character, whatever follows |
| `Utf8RoundTrip.UnitsOfCodePoint` | Source/PurCFetcher/auxiliary/TextCodecUTF8.cpp:159-170 | in a string without unpaired surrogates the first code point is a character whose code units are the ones it was read from |
| `Utf8RoundTrip.NextCodePoint` | Source/PurCFetcher/auxiliary/TextCodecUTF8.cpp:442-443 | a code point is taken from one or two code units and its octets fit in three bytes per unit |
| `Utf8RoundTrip.UnpairedSurrogate` | Source/PurCFetcher/auxiliary/TextCodecUTF8.cpp:442-443 | a surrogate without its other half becomes three bytes beginning with ED, of which the first two begin no UTF8-char |
| `Utf8RoundTrip.Encode` | Source/PurCFetcher/auxiliary/TextCodecUTF8.cpp:435-446 | the encoding fits in three bytes per code unit |
| `Utf8RoundTrip.EncodeLoop` | Source/PurCFetcher/auxiliary/TextCodecUTF8.cpp:435-446 | the loop computes the encoding without writing beyond the bytes it reserved |
| `Utf8RoundTrip.MainOfEncode` | Source/PurCFetcher/auxiliary/TextCodecUTF8.cpp:435-446 | decoding the encoding of a string without unpaired surrogates gives the string, without an error |
| `Utf8RoundTrip.RoundTrip` | Source/PurCFetcher/auxiliary/TextCodecUTF8.cpp:435-446 | a fresh flushed decode undoes encoding, without an error, if and only if the string has no unpaired surrogate |
| `Utf8RoundTrip.ErrorFreeIsSyntax` | Source/PurCFetcher/auxiliary/TextCodecUTF8.cpp:63-157 | the main loop ends without an error and with nothing held exactly on the UTF8-octets of section 4 of RFC 3629 |
| `Utf8RoundTrip.DecodeAcceptsExactlyUtf8` | Source/PurCFetcher/auxiliary/TextCodecUTF8.cpp:276-433 | a fresh flushed decode sees no error if and only if the bytes are UTF-8, and then encoding its result gives the bytes back |
| `Utf8RoundTrip.WellFormedCanBeCut` | Source/PurCFetcher/auxiliary/TextCodecUTF8.cpp:276-433 | UTF-8 cut anywhere, also within characters, decodes as in one call, without an error, with nothing held, and encodes back to the bytes |
| `TextCodecUTF8.TextCodecUTF8.constructor` | Source/PurCFetcher/auxiliary/TextCodecUTF8.cpp:56-61 | a new codec holds nothing |
| `TextCodecUTF8.TextCodecUTF8.Shift` | Source/PurCFetcher/auxiliary/TextCodecUTF8.cpp:172-176 | the held bytes move down over the first ones |
| `TextCodecUTF8.TextCodecUTF8.Fill` | Source/PurCFetcher/auxiliary/TextCodecUTF8.cpp:205-207 | new bytes are added behind the held ones, within the four bytes of the buffer |
| `TextCodecUTF8.TextCodecUTF8.HandlePartialSequence8` | Source/PurCFetcher/auxiliary/TextCodecUTF8.cpp:178-218 | the loop on the buffer gives what the function for the 8-bit attempt says, within the memory that is there |
| `TextCodecUTF8.TextCodecUTF8.HandlePartialSequence16` | Source/PurCFetcher/auxiliary/TextCodecUTF8.cpp:220-274 | the loop on the buffer gives what the function for held bytes says, within the memory that is there |
| `TextCodecUTF8.DecodeOfAscii` | Source/PurCFetcher/auxiliary/TextCodecUTF8.cpp:306-324 | ASCII in front is copied by both main loops as it stands |
| `TextCodecUTF8.TextCodecUTF8.CopyAsciiWords` | Source/PurCFetcher/auxiliary/TextCodecUTF8.cpp:308-321 | copying by machine words copies the ASCII bytes it passes and reads no word beyond the last whole one |
| `TextCodecUTF8.TextCodecUTF8.CopyAscii` | Source/PurCFetcher/auxiliary/TextCodecUTF8.cpp:306-324 | at least one byte is copied, and exactly the ASCII bytes that are passed |
| `TextCodecUTF8.TextCodecUTF8.Next` | Source/PurCFetcher/auxiliary/TextCodecUTF8.cpp:325-339 | the sequence at a position is found, or put in the buffer if it is cut short |
| `TextCodecUTF8.TextCodecUTF8.MainLoop8` | Source/PurCFetcher/auxiliary/TextCodecUTF8.cpp:305-352 | the 8-bit main loop, with its word copies, gives what the function says within the memory that is there |
| `TextCodecUTF8.TextCodecUTF8.MainLoop16` | Source/PurCFetcher/auxiliary/TextCodecUTF8.cpp:382-427 | the 16-bit main loop, with its word copies, gives what the function says within the memory that is there |
| `TextCodecUTF8.TextCodecUTF8.Decode16` | Source/PurCFetcher/auxiliary/TextCodecUTF8.cpp:368-428 | the 16-bit phase gives what a 16-bit call from that state gives, within the memory that is there |
| `TextCodecUTF8.TextCodecUTF8.Round8` | Source/PurCFetcher/auxiliary/TextCodecUTF8.cpp:288-353 | one round of the 8-bit phase ends the call, asks for another round, or asks for 16 bits, and the whole result is unchanged by it |
| `TextCodecUTF8.TextCodecUTF8.GoOnIn16Bits` | Source/PurCFetcher/auxiliary/TextCodecUTF8.cpp:359-433 | the second buffer, sized when the conversion starts, holds what was written and all that follows |
| `TextCodecUTF8.TextCodecUTF8.DecodeCall` | Source/PurCFetcher/auxiliary/TextCodecUTF8.cpp:276-433 | for all bytes, held bytes, flags and memory layouts, the call gives the units, held bytes and error of the function, writes within both buffers, and gives well-formed UTF-16 |
| `PercentEncoding.RunLength` | Source/PurCFetcher/auxiliary/DecodeEscapeSequences.h:74-97 | a run never goes beyond the end |
| `PercentEncoding.DigitsAreRead` | Source/PurCFetcher/auxiliary/DecodeEscapeSequences.h:85-108 | a character has the value d exactly if it is the hexadecimal digit of d, in either case |
| `PercentEncoding.RunIsLongest` | Source/PurCFetcher/auxiliary/DecodeEscapeSequences.h:74-97 | the run found has at most two unescaped characters in a row, all from 0x40 to 0x7F, and cannot go on: it ends at the end, at a percent sign without two digits, at a character outside that range, or after two of them |
| `PercentEncoding.RunIsRun` | Source/PurCFetcher/auxiliary/DecodeEscapeSequences.h:74-97 | in the run found every percent sign begins an escape and every other character is in the trailing range |
| `PercentEncoding.RunBytes` | Source/PurCFetcher/auxiliary/DecodeEscapeSequences.h:99-118 | a run has no more bytes than characters, and none only if it is empty |
| `PercentEncoding.ReplacementIsDecoded` | Source/PurCFetcher/auxiliary/DecodeEscapeSequences.h:145-147 | a run always decodes to something, so no run is left as it stands |
| `PercentEncoding.RunOfEncoding` | Source/PurCFetcher/auxiliary/DecodeEscapeSequences.h:74-118 | in a percent-encoding the run found stands for the next bytes, and ends at the end or before an ASCII byte |
| `PercentEncoding.EncodingStandsFor` | Source/PurCFetcher/auxiliary/DecodeEscapeSequences.h:99-118 | what the encoder of section 2.1 of RFC 3986 writes for some bytes is read as those bytes, whatever is escaped and in whatever case |
| `PercentEncoding.CutBeforeAscii` | Source/PurCFetcher/auxiliary/DecodeEscapeSequences.h:145-151 | UTF-8 cut before an ASCII byte decodes part by part |
| `PercentEncoding.EscapesAreUndone` | Source/PurCFetcher/auxiliary/DecodeEscapeSequences.h:129-155 | the string unescapes to what the encoded bytes decode to |
| `PercentEncoding.UnescapingUndoesEncoding` | Source/PurCFetcher/auxiliary/DecodeEscapeSequences.h:129-155 | for every string without unpaired surrogates and every percent-encoding of its UTF-8 form, whatever else is escaped and whatever digits are used, the string comes back |
| `PercentEncoding.UnescapingDecodesUtf8` | Source/PurCFetcher/auxiliary/DecodeEscapeSequences.h:129-155 | every percent-encoding of UTF-8 bytes unescapes to what the bytes decode to |
| `EscapeSequences.FindInString` | Source/PurCFetcher/auxiliary/DecodeEscapeSequences.h:73 | the position found is the next percent sign, or there is none |
| `EscapeSequences.FindEndOfRun` | Source/PurCFetcher/auxiliary/DecodeEscapeSequences.h:74-97 | the loop finds the end of the run |
| `EscapeSequences.DecodeRunBytes` | Source/PurCFetcher/auxiliary/DecodeEscapeSequences.h:99-118 | the loop computes the bytes of the run in a buffer as long as the run |
| `EscapeSequences.DecodeRun` | Source/PurCFetcher/auxiliary/DecodeEscapeSequences.h:120-126 | a run's bytes go through a fresh flushed decoder |
| `EscapeSequences.RawStretch` | Source/PurCFetcher/auxiliary/DecodeEscapeSequences.h:137-149 | text without a percent sign stays as it is |
| `EscapeSequences.DecodeAt` | Source/PurCFetcher/auxiliary/DecodeEscapeSequences.h:137-152 | one turn makes the search position go up and keeps the result of the whole |
| `EscapeSequences.DecodeEscapeSequences` | Source/PurCFetcher/auxiliary/DecodeEscapeSequences.h:129-155 | the loop ends and replaces every run by what it stands for, and nothing else |
| `MessagePorts.PostKeepsEnd` | Source/PurCFetcher/auxiliary/MessagePortChannel.cpp:131-148 | posting keeps the law of an end and takes a reference exactly when the queue was empty |
| `MessagePorts.TakeKeepsEnd` | Source/PurCFetcher/auxiliary/MessagePortChannel.cpp:150-183 | taking a non-empty queue keeps the law of an end and gives up its reference |
| `MessagePorts.EntangleKeepsEnd` | Source/PurCFetcher/auxiliary/MessagePortChannel.cpp:78-91 | entangling keeps the law of an end, which then holds a reference |
| `MessagePorts.DisentangleKeepsEnd` | Source/PurCFetcher/auxiliary/MessagePortChannel.cpp:93-109 | disentangling keeps the law of an end, which then holds a reference |
| `MessagePorts.MessagePortChannel.constructor` | Source/PurCFetcher/auxiliary/MessagePortChannel.cpp:41-56 | a new channel is registered under both ports and held by both ends |
| `MessagePorts.MessagePortChannel.Deref` | Source/PurCFetcher/auxiliary/MessagePortChannel.cpp:58-61 | the last reference takes out both registry entries and nothing else; any other takes out nothing |
| `MessagePorts.MessagePortChannel.IndexIsPort` | Source/PurCFetcher/auxiliary/MessagePortChannel.cpp:84 | each of the two ports has an end of its own, and changing the end of one leaves that of the other |
| `MessagePorts.MessagePortChannel.BusyIsPendingOrInFlight` | Source/PurCFetcher/auxiliary/MessagePortChannel.cpp:227-231 | there are messages pending or in flight exactly if a batch is not completed or a message waits at a port |
| `MessagePorts.MessagePortChannel.ProcessForPort` | Source/PurCFetcher/auxiliary/MessagePortChannel.cpp:63-69 | a port has a process exactly while it is entangled |
| `MessagePorts.MessagePortChannel.EntanglePortWithProcess` | Source/PurCFetcher/auxiliary/MessagePortChannel.cpp:78-91 | the end is entangled with the process and in transfer no more; the count of references stays right |
| `MessagePorts.MessagePortChannel.DisentanglePort` | Source/PurCFetcher/auxiliary/MessagePortChannel.cpp:93-109 | the end is in transfer, without a process; the count of references stays right |
| `MessagePorts.MessagePortChannel.ClosePort` | Source/PurCFetcher/auxiliary/MessagePortChannel.cpp:111-129 | everything at the end is forgotten; the channel goes exactly if nothing else holds it |
| `MessagePorts.MessagePortChannel.PostMessageToRemote` | Source/PurCFetcher/auxiliary/MessagePortChannel.cpp:131-148 | the message is appended; the answer is true exactly when the queue was empty |
| `MessagePorts.MessagePortChannel.TakeAllMessagesForPort` | Source/PurCFetcher/auxiliary/MessagePortChannel.cpp:150-183 | the whole queue is handed out in order; a batch in flight is counted unless it is empty |
| `MessagePorts.MessagePortChannel.PutInFlight` | Source/PurCFetcher/auxiliary/MessagePortChannel.cpp:167-173 | one more batch is in flight, with a callback that holds the channel |
| `MessagePorts.MessagePortChannel.CompleteBatch` | Source/PurCFetcher/auxiliary/MessagePortChannel.cpp:173-182 | one batch fewer is in flight; the channel goes exactly if nothing else holds it |
| `MessagePorts.MessagePortChannel.CheckRemotePortForActivity` | Source/PurCFetcher/auxiliary/MessagePortChannel.cpp:185-206 | the answer is no exactly for a closed port, and yes exactly with messages on the way or a port in transfer; otherwise the process is asked |
| `MessagePorts.MessagePortChannel.AnswerActivity` | Source/PurCFetcher/auxiliary/MessagePortChannel.cpp:208-225 | messages that came meanwhile count as activity; the question's reference goes |
| `MessagePorts.MessagePortChannelRegistry.constructor` | Source/PurCFetcher/auxiliary/MessagePortChannelRegistry.cpp:35-38 | a new registry is empty and valid |
| `MessagePorts.MessagePortChannelRegistry.MessagePortChannelCreated` | Source/PurCFetcher/auxiliary/MessagePortChannelRegistry.cpp:53-66 | the channel stands under both its ports |
| `MessagePorts.MessagePortChannelRegistry.MessagePortChannelDestroyed` | Source/PurCFetcher/auxiliary/MessagePortChannelRegistry.cpp:68-79 | both entries go and no others |
| `MessagePorts.MessagePortChannelRegistry.Create` | Source/PurCFetcher/auxiliary/MessagePortChannelRegistry.cpp:45-51 | a channel is made and held by its two ends alone |
| `MessagePorts.MessagePortChannelRegistry.DidCreateMessagePortChannel` | Source/PurCFetcher/auxiliary/MessagePortChannelRegistry.cpp:45-51 | a new channel with nothing in it stands under its two ports; every invariant of every channel is kept |
| `MessagePorts.MessagePortChannelRegistry.StillValid` | Source/PurCFetcher/auxiliary/MessagePortChannelRegistry.cpp:53-79 | when one channel changes by its own rules, all channels keep theirs |
| `MessagePorts.MessagePortChannelRegistry.DidEntangleLocalToRemote` | Source/PurCFetcher/auxiliary/MessagePortChannelRegistry.cpp:81-93 | the port is entangled, if its channel is there; the other port and the map do not change |
| `MessagePorts.MessagePortChannelRegistry.DidDisentangleMessagePort` | Source/PurCFetcher/auxiliary/MessagePortChannelRegistry.cpp:95-105 | the port is in transfer, if its channel is there; the other port and the map do not change |
| `MessagePorts.MessagePortChannelRegistry.DidCloseMessagePort` | Source/PurCFetcher/auxiliary/MessagePortChannelRegistry.cpp:107-126 | the port's queue and process are forgotten and the other port's are not; both entries of the channel go exactly when no reference is left |
| `MessagePorts.MessagePortChannelRegistry.DidPostMessageToRemote` | Source/PurCFetcher/auxiliary/MessagePortChannelRegistry.cpp:128-142 | a message for a port without a channel is dropped; otherwise it is queued at that port and not at the other, and the answer tells whether the queue was empty |
| `MessagePorts.MessagePortChannelRegistry.TakeAllMessagesForPort` | Source/PurCFetcher/auxiliary/MessagePortChannelRegistry.cpp:144-158 | the port's own queue is handed out, or nothing for a port without a channel |
| `MessagePorts.MessagePortChannelRegistry.CheckRemotePortForActivity` | Source/PurCFetcher/auxiliary/MessagePortChannelRegistry.cpp:160-172 | the answer is no at once exactly if there is no channel or the port is closed, and yes at once exactly with messages on the way or a port in transfer; nothing but the question is added |
| `MessagePorts.MessagePortChannelRegistry.RegisteredWhileHeld` | Source/PurCFetcher/auxiliary/MessagePortChannelRegistry.cpp:53-79 | in every reachable state a channel is found under both its ports if an end is entangled, in transfer or has messages, or a batch or a question is outstanding, and under no port otherwise |
| `MessagePorts.MessagePortChannelRegistry.OneChannelPerPort` | Source/PurCFetcher/auxiliary/MessagePortChannelRegistry.cpp:53-66 | two channels in use never share a port |
| `MessagePorts.MessagePortChannelRegistry.DidCompleteBatch` | Source/PurCFetcher/auxiliary/MessagePortChannel.cpp:173-182 | a completed batch lets go of its channel; both entries go exactly when no reference is left |
| `MessagePorts.MessagePortChannelRegistry.DidAnswerActivity` | Source/PurCFetcher/auxiliary/MessagePortChannel.cpp:208-225 | an answered question lets go of its channel; both entries go exactly when no reference is left |
| `MessagePorts.MessagePortChannelRegistry.StillOpen` | Source/PurCFetcher/auxiliary/MessagePortChannel.cpp:131-148 | a channel with a message waiting is held |
| `MessagePorts.PostedMeanwhile` | Source/PurCFetcher/auxiliary/MessagePortChannel.cpp:208-225 | a message posted between the question and the answer makes the answer yes, whatever the process said |
| `MessagePorts.EachPortHasItsQueue` | Source/PurCFetcher/auxiliary/MessagePortChannel.cpp:131-183 | a run from nothing: a message posted to one port of a new channel is handed out there and not at the other, and each port has its own process |
| `MessagePorts.MessagePortChannelRegistry.NothingIsLost` | Source/PurCFetcher/auxiliary/MessagePortChannel.cpp:131-183 | in every reachable state, at each port, the batches handed out since the last close followed by the queue are the messages accepted, in order; the protector is set iff the queue is not empty; the count in flight is the number of batches not completed |
| `Segments.ConsistentAppend` | Source/PurCFetcher/auxiliary/SharedBuffer.cpp:133-161 | adding an entry that begins at the size keeps begin positions equal to prefix sums and appends its bytes |
| `Segments.BeginsAreSorted` | Source/PurCFetcher/auxiliary/SharedBuffer.cpp:112-121 | begin positions never go down, also with empty segments |
| `Segments.ViewIsSlice` | Source/PurCFetcher/auxiliary/SharedBuffer.cpp:112-121 | the rest of a segment is the slice of the flat string at the matching position |
| `Segments.RestMoves` | Source/PurCFetcher/auxiliary/SharedBuffer.cpp:245-264 | moving a cursor leaves out exactly the bytes it moved over |
| `Segments.BothMove` | Source/PurCFetcher/auxiliary/SharedBuffer.cpp:245-264 | two rests are equal exactly if the compared bytes are and what follows them is |
| `SharedBuffers.SharedBuffer.AppendBytes` | Source/PurCFetcher/auxiliary/SharedBuffer.cpp:144-161 | the contents grow by the bytes; prefix sums are kept |
| `SharedBuffers.SharedBuffer.Append` | Source/PurCFetcher/auxiliary/SharedBuffer.cpp:133-142 | the contents grow by the other buffer's, also when it is the same buffer; its segments are shared |
| `SharedBuffers.SharedBuffer.Clear` | Source/PurCFetcher/auxiliary/SharedBuffer.cpp:163-168 | the contents are empty |
| `SharedBuffers.SharedBuffer.Copy` | Source/PurCFetcher/auxiliary/SharedBuffer.cpp:170-180 | the clone is a new object with the same contents and the same segments |
| `SharedBuffers.SharedBuffer.CombineIntoOneSegment` | Source/PurCFetcher/auxiliary/SharedBuffer.cpp:82-101 | the contents are unchanged; several segments become one, and fewer are left as they are |
| `SharedBuffers.SharedBuffer.Data` | Source/PurCFetcher/auxiliary/SharedBuffer.cpp:103-110 | the contents in one piece, and nothing when there are no segments |
| `SharedBuffers.SharedBuffer.UpperBound` | Source/PurCFetcher/auxiliary/SharedBuffer.cpp:115-118 | the search finds the first entry that begins after the position |
| `SharedBuffers.SharedBuffer.GetSomeData` | Source/PurCFetcher/auxiliary/SharedBuffer.cpp:112-121 | the view is not empty and is the slice of the contents at the position, up to a segment's end |
| `SharedBuffers.SharedBuffer.EqualsStep` | Source/PurCFetcher/auxiliary/SharedBuffer.cpp:231-264 | one turn moves at least one cursor to another segment, also at empty and shared segments, and keeps whether the rests are equal |
| `SharedBuffers.SharedBuffer.Equals` | Source/PurCFetcher/auxiliary/SharedBuffer.cpp:219-266 | the loop ends and answers whether the contents are equal, however either buffer is cut |
| `SharedBuffers.SharedBuffer.InternallyConsistent` | Source/PurCFetcher/auxiliary/SharedBuffer.cpp:183-192 | the check is true exactly when begin positions are prefix sums and the size is the whole sum |
| `SharedBuffers.CopyBuffer` | Source/PurCFetcher/auxiliary/SharedMemory.cpp:35-54 | the loop ends with memory equal to the contents; there is none exactly for an empty buffer or a failed allocation |
| `ProtectionSpaces.TogetherIsEquivalence` | Source/PurCFetcher/network/ProtectionSpaceBase.cpp:115-131 | being answered together is reflexive, symmetric and transitive |
| `ProtectionSpaces.TogetherInFields` | Source/PurCFetcher/network/ProtectionSpaceBase.cpp:115-131 | two challenges are answered together exactly if page, host, port, server type and scheme agree, the scheme is not server trust, and the realms agree or the server is a proxy |
| `ProtectionSpaces.JoinedWithoutSending` | Source/PurCFetcher/auxiliary/AuthenticationManager.cpp:115-130 | a challenge that joins a class without a message leaves one sent member in it |
| `ProtectionSpaces.JoinedAndSent` | Source/PurCFetcher/auxiliary/AuthenticationManager.cpp:115-130 | a challenge that matches no other and is sent begins a class of its own |
| `ProtectionSpaces.AnsweredAway` | Source/PurCFetcher/auxiliary/AuthenticationManager.cpp:144-153 | taking away the class of a sent challenge takes away no other sent challenge |
| `Authentication.AuthenticationManager.AddChallengeToChallengeMap` | Source/PurCFetcher/auxiliary/AuthenticationManager.cpp:73-80 | the identifier is new |
| `Authentication.AuthenticationManager.ShouldCoalesceChallenge` | Source/PurCFetcher/auxiliary/AuthenticationManager.cpp:82-92 | true exactly if another pending challenge can be answered with this one |
| `Authentication.AuthenticationManager.CoalesceChallengesMatching` | Source/PurCFetcher/auxiliary/AuthenticationManager.cpp:94-113 | the whole class, each member once, the answered one first |
| `Authentication.AuthenticationManager.DidReceiveAuthenticationChallenge` | Source/PurCFetcher/auxiliary/AuthenticationManager.cpp:115-130 | without a page the handler is called at once; otherwise the challenge is kept, and sent exactly if it is alone in its class |
| `Authentication.AuthenticationManager.DidReceiveDownloadChallenge` | Source/PurCFetcher/auxiliary/AuthenticationManager.cpp:132-142 | a download's challenge is kept under no page, and sent exactly if it is alone in its class |
| `Authentication.AuthenticationManager.Receive` | Source/PurCFetcher/auxiliary/AuthenticationManager.cpp:119-130 | the challenge is kept, and sent exactly if it is alone in its class |
| `Authentication.AuthenticationManager.CompleteAuthenticationChallenge` | Source/PurCFetcher/auxiliary/AuthenticationManager.cpp:144-153 | the handlers of exactly the class, which is given in the fields of the challenges, are called with the answer, each once and the answered one first, and the class is pending no more |
| `Authentication.AuthenticationManager.OneMessagePerClass` | Source/PurCFetcher/auxiliary/AuthenticationManager.cpp:115-153 | in every reachable state exactly one member of each pending class was sent |
| `Authentication.AuthenticationManager.NoHandlerLostOrCalledTwice` | Source/PurCFetcher/auxiliary/AuthenticationManager.cpp:115-153 | in every reachable state each handler received is pending exactly if it was not called, and it was called at most once |
| `AllowLists.PartsJoin` | Source/PurCFetcher/network/HTTPParsers.h:158-176 | the parts are what the commas separate |
| `AllowLists.TrimmedMeans` | Source/PurCFetcher/network/HTTPParsers.h:131-150 | only spaces, tabs and line ends are taken away, and none is left at either side |
| `AllowLists.AllowListMeans` | Source/PurCFetcher/network/HTTPParsers.h:131-176 | there is a list exactly if every part, without the spaces around it, has only the token characters of section 3.2.6 of RFC 7230, and it holds exactly the tokens that are not empty |
| `AllowLists.AddToAccessControlAllowList` | Source/PurCFetcher/network/HTTPParsers.h:131-156 | the token between two positions is added without its spaces; only spaces add nothing; anything else that is no token fails |
| `AllowLists.ParseAccessControlAllowList` | Source/PurCFetcher/network/HTTPParsers.h:158-176 | the loop computes the list of the parts |
| `PreflightCache.Lifetime` | Source/PurCFetcher/auxiliary/CrossOriginPreflightResultCache.cpp:63-70 | an entry lives for the seconds that the response gives, but at most 600, and for 5 if it gives none |
| `PreflightCache.FoldedIgnoresCase` | Source/PurCFetcher/auxiliary/CrossOriginPreflightResultCache.cpp:61 | two header names are the same to the cache exactly if they differ at most in the case of ASCII letters |
| `PreflightCache.ItemAllows` | Source/PurCFetcher/auxiliary/CrossOriginPreflightResultCache.cpp:85-100 | a request is allowed exactly if its method and headers are listed, headers in any case, or need no permission, or a wildcard is listed and there are no credentials |
| `PreflightCache.Create` | Source/PurCFetcher/auxiliary/CrossOriginPreflightResultCache.cpp:55-73 | an item is made exactly if both lists are valid, and the methods are looked at first |
| `PreflightCache.Item.ValidateCrossOriginHeaders` | Source/PurCFetcher/auxiliary/CrossOriginPreflightResultCache.cpp:90-100 | the first header that is not allowed is named, if there is one |
| `PreflightCache.Item.ValidateMethodAndHeaders` | Source/PurCFetcher/auxiliary/CrossOriginPreflightResultCache.cpp:75-83 | no error exactly if the method and every header are allowed; the method is complained of first, and then a header that is not allowed |
| `PreflightCache.Item.AllowsRequest` | Source/PurCFetcher/auxiliary/CrossOriginPreflightResultCache.cpp:102-113 | true exactly if the item has not expired, the policies agree and the method and every header are allowed |
| `PreflightCache.SkippingIsSound` | Source/PurCFetcher/auxiliary/CrossOriginPreflightResultCache.cpp:102-113 | whenever an item serves a request, a preflight with the stored response would succeed, except in exactly two cases that need the third policy; and the response is at most 600 seconds old |
| `PreflightCache.EphemeralEntrySkips` | Source/PurCFetcher/auxiliary/CrossOriginPreflightResultCache.cpp:102-113 | a response taken under the third policy serves a request with credentials whose preflight would fail |
| `PreflightCache.WildcardEntrySkips` | Source/PurCFetcher/auxiliary/CrossOriginPreflightResultCache.cpp:102-113 | a wildcard taken without credentials serves a request of the third policy whose preflight would fail |
| `PreflightCache.CrossOriginPreflightResultCache.AppendEntry` | Source/PurCFetcher/auxiliary/CrossOriginPreflightResultCache.cpp:123-127 | the item replaces any other of its origin and address, and no other item changes |
| `PreflightCache.CrossOriginPreflightResultCache.Clear` | Source/PurCFetcher/auxiliary/CrossOriginPreflightResultCache.cpp:143-147 | no item is left |
| `PreflightCache.CrossOriginPreflightResultCache.CanSkipPreflight` | Source/PurCFetcher/auxiliary/CrossOriginPreflightResultCache.cpp:129-141 | true only if the preflight would succeed with a stored response at most 600 seconds old, with the exact exceptions; when false, exactly the item of that origin and address is gone, and it had expired, was for other credentials or did not allow the request |
| `PreflightCache.PassesAccessControlCheck` | Source/PurCFetcher/auxiliary/CrossOriginAccessControl.cpp:187-214 | no error exactly with a wildcard and no credentials, or with the same origin and, for credentials, their permission; each error exactly in its own case |
| `PreflightCache.SameAllowance` | Source/PurCFetcher/auxiliary/CrossOriginAccessControl.cpp:216-237 | what a stored item allows under a policy is what an item made now under that policy allows |
| `PreflightCache.CrossOriginPreflightResultCache.ValidatePreflightResponse` | Source/PurCFetcher/auxiliary/CrossOriginAccessControl.cpp:216-237 | no error exactly if the response is successful, lets the origin in, has valid lists and allows the request; it is kept exactly if all but the last hold |
| `StorageQuota.StepsAboveUsage` | Source/PurCFetcher/auxiliary/StorageQuotaManager.cpp:126-127 | the multiple of the step is above the usage by at most one step |
| `StorageQuota.RoomInNumbers` | Source/PurCFetcher/auxiliary/StorageQuotaManager.cpp:83-105 | the room at a reading is what the usage leaves of the quota, or nothing if it leaves none |
| `StorageQuota.StorageQuotaManager.constructor` | Source/PurCFetcher/auxiliary/StorageQuotaManager.cpp:41-48 | a new manager has granted nothing and has nothing to grant |
| `StorageQuota.StorageQuotaManager.TryGrantRequest` | Source/PurCFetcher/auxiliary/StorageQuotaManager.cpp:109-117 | granted exactly if the countdown allows it; what is granted and what is left make up what was there |
| `StorageQuota.StorageQuotaManager.UpdateQuotaBasedOnUsage` | Source/PurCFetcher/auxiliary/StorageQuotaManager.cpp:119-129 | the quota is never lowered; the first time it ends above the usage, by at most a tenth of the old quota if it was raised |
| `StorageQuota.StorageQuotaManager.RequestSpaceOnMainThread` | Source/PurCFetcher/auxiliary/StorageQuotaManager.cpp:50-70 | granted at once exactly if no background request holds the lock and the countdown allows it |
| `StorageQuota.StorageQuotaManager.RequestSpaceOnBackgroundThread` | Source/PurCFetcher/auxiliary/StorageQuotaManager.cpp:72-100 | granted exactly if the countdown or the room at a new reading allows it; otherwise more quota is asked for with the lock held; the quota changes only at the first reading, which leaves it above the usage |
| `StorageQuota.StorageQuotaManager.QuotaIncreaseAnswered` | Source/PurCFetcher/auxiliary/StorageQuotaManager.cpp:91-99 | the answer sets the quota, or leaves it |
| `StorageQuota.StorageQuotaManager.ResumeRequest` | Source/PurCFetcher/auxiliary/StorageQuotaManager.cpp:102-107 | granted exactly if the room at the second reading allows it, refused otherwise |
| `StorageQuota.StorageQuotaManager.NeverMoreThanRoom` | Source/PurCFetcher/auxiliary/StorageQuotaManager.cpp:50-117 | at every point of every run of a manager, in any order of the threads' requests, the space granted since the last reading and the countdown make up the room at that reading, and the usage read then and the space granted never exceed the quota |

## Left out

- Timer alignment (`Source/PurCFetcher/auxiliary/Timer.cpp:468-472`), deleted timers whose item stays behind (`heapDeleteNullMin`), checks of the current thread and floating-point rounding of times.
- ThreadTimers.ThreadTimers.SharedTimerFired: callbacks start and stop no timers and do not run a second pass inside the first; they may break the loop for rendering or run a nested event loop. Repeat intervals are not negative. Where a due timer repeats to a time that another timer is scheduled for, the counters of the two have to stay within the comparator's window during the pass; other timers may be of any age.
- ThreadTimers.ThreadTimers.SetNextFireTime: asks that timers of the same time were started within half of the counter's range of each other, the window outside which `WrappingOrderFailsOutsideWindow` shows the comparison wrong.
- TextCodecUTF8.TextCodecUTF8.DecodeCall: overflow of the buffer's size and failing allocations are not modelled.
- Utf8Cuts.CutsMatterExactly: with `stopOnError` only the results of single calls are described, not those of several.
- Debug assertions are not modelled. The one in `Source/PurCFetcher/auxiliary/SharedBuffer.cpp:242-243` is false for empty segments; the loop is proved without it.
- Decoding of escapes in encodings other than UTF-8, 16-bit `%u` escapes and decoding to data, which normalises the text between the runs.
- The process that a message port is asked about, and the messages' own contents and transferred ports.
- MessagePorts.MessagePortChannel.CompleteBatch: a callback is called once; one that is dropped without a call keeps its batch in flight.
- File mapping, GLib and Soup data, and the operating system's shared memory: segments are immutable bytes, and an allocation succeeds or fails as a parameter says.
- Authentication.AuthenticationManager.CompleteAuthenticationChallenge: completion handlers do not call back into the manager, each sent challenge is answered once, and the 64-bit identifier does not wrap.
- The switch that disables cross-origin checks, the safelist of request headers, and the parsing of Access-Control-Max-Age, whose result is part of the response.
- StorageQuota.StorageQuotaManager.RequestSpaceOnBackgroundThread: the first reading asks for a quota of at least 10, since the code then divides by a tenth of it. The resets for testing and 64-bit overflow are not modelled.
- Argument coders for messages between processes, header name and MIME tables, the other text codecs, referrer policies and origin predicates: tables, plumbing or easier relatives of what is here.
