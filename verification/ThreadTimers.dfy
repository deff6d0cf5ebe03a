/** One thread's timers: the heap, the one system timer that serves it, and the firing pass. */
module ThreadTimers {
  import opened TimerOrder
  import opened HeapOrder
  import opened TimerHeap
  import opened FiringPass

  /** The system timer, a one-shot that belongs to the run loop. */
  class SharedTimer {
    var armed: bool
    var fireAt: real

    constructor ()
      ensures !armed
    {
      armed := false;
    }

    method Stop()
      modifies this
      ensures !armed
    {
      armed := false;
    }

    method SetFireInterval(interval: real, now: real)
      modifies this
      ensures armed && fireAt == now + interval
    {
      armed, fireAt := true, now + interval;
    }
  }

  /** What a timer's callback does to the firing pass that runs it; it starts and stops no timer. */
  datatype Effect = Nothing | BreakForRendering | RunNestedEventLoop

  /** Callbacks run for this many seconds before the pass gives way to the run loop. */
  const MAX_DURATION_OF_FIRING_TIMERS := 0.016

  function Max(a: real, b: real): real {
    if a < b then b else a
  }

  class ThreadTimers {
    const heap: Heap
    var sharedTimer: SharedTimer?
    var firingTimers: bool
    var shouldBreakFireLoopForRenderingUpdate: bool
    var currentHeapInsertionOrder: nat
    /** What the system timer was last asked for; UNSCHEDULED if it is stopped. */
    var pendingSharedTimerFireTime: Time

    /** The thread's timers, their heap items, the insertion counter without its wrap and the latest clock reading. */
    ghost var timers: set<Timer>
    ghost var made: set<HeapItem>
    ghost var count: nat
    /** When each scheduled timer fires. */
    ghost var schedule: map<HeapItem, Key>
    ghost var clock: real

    ghost predicate Scheduled()
      reads this`schedule, heap`members, heap.members`time, heap.members`count
    {
      schedule.Keys == heap.members && forall x :: x in heap.members ==> schedule[x] == x.K()
    }

    /** Every timer owns its item, and is in the heap exactly while it has a fire time. */
    ghost predicate TimersOwnItems()
      reads this`timers, this`made, this`count, heap`members, timers`heapItem
      reads made`time, made`heapIndex, made`count
    {
      && (forall t :: t in timers && t.heapItem != null ==> t.heapItem in made && t.heapItem.timer == t)
      && (forall x :: x in made ==> x.timer in timers && x.timer.heapItem == x && x.time.At?)
      && (forall x :: x in made ==> (x in heap.members <==> x.time != UNSCHEDULED))
      && (forall x :: x in made ==> (x in heap.members <==> x.heapIndex != NOT_IN_HEAP))
      && (forall x :: x in heap.members ==> x in made && x.count < count)
    }

    ghost predicate HeapCore()
      reads this`timers, this`made, this`count, this`currentHeapInsertionOrder
      reads heap, heap.members, timers`heapItem, made`time, made`heapIndex, made`count
    {
      && heap.Sane() && Ordered(heap.keys) && TimersOwnItems()
      && currentHeapInsertionOrder == Wrapped(count)
    }

    ghost predicate HeapValid()
      reads this`timers, this`made, this`count, this`schedule, this`currentHeapInsertionOrder
      reads heap, heap.members, timers`heapItem, made`time, made`heapIndex, made`count
    {
      HeapCore() && Scheduled()
    }

    /** The system timer is armed for the time it was last asked for, or that time was past already when it was asked
        for. */
    ghost predicate Armed(shared: SharedTimer)
      reads this`pendingSharedTimerFireTime, this`clock, shared
    {
      && shared.armed && pendingSharedTimerFireTime.At? && pendingSharedTimerFireTime != UNSCHEDULED
      && pendingSharedTimerFireTime.seconds <= shared.fireAt
      && (shared.fireAt == pendingSharedTimerFireTime.seconds || shared.fireAt <= clock)
    }

    ghost predicate PendingValid()
      reads this`clock, this`pendingSharedTimerFireTime, this`firingTimers, this`sharedTimer, sharedTimer
    {
      && clock >= 0.0 && pendingSharedTimerFireTime.At? && (firingTimers ==> pendingSharedTimerFireTime == UNSCHEDULED)
      && (pendingSharedTimerFireTime != UNSCHEDULED ==> sharedTimer != null && Armed(sharedTimer))
    }

    /** Outside a firing pass, an attached system timer is stopped if and only if no timer is scheduled. Otherwise it is
        armed for the first timer, or what it is armed for and the first timer are both due already. */
    ghost predicate SharedTimerTracksHeap()
      reads this`clock, this`pendingSharedTimerFireTime, this`firingTimers, this`sharedTimer, sharedTimer
      reads heap`items, heap.items`time
    {
      if sharedTimer == null || firingTimers then true
      else if heap.items == [] then !sharedTimer.armed && pendingSharedTimerFireTime == UNSCHEDULED
      else
        && Armed(sharedTimer) && heap.items[0].time.At?
        && (pendingSharedTimerFireTime == heap.items[0].time
            || (pendingSharedTimerFireTime.seconds <= clock && heap.items[0].time.seconds <= clock))
    }

    ghost predicate Valid()
      reads this, heap, heap.members, heap.items, timers`heapItem, made`time, made`heapIndex, made`count, sharedTimer
    {
      HeapValid() && PendingValid() && SharedTimerTracksHeap()
    }

    /** A thread starts with the system timer of the UI thread, or with none. */
    constructor (shared: SharedTimer?, now: real)
      requires now >= 0.0
      modifies shared
      ensures Valid() && fresh(heap) && sharedTimer == shared && !firingTimers && !shouldBreakFireLoopForRenderingUpdate
      ensures timers == {} && made == {} && schedule == map[] && count == 0
      ensures clock == if shared == null then 0.0 else now
    {
      heap := new Heap();
      sharedTimer := null;
      firingTimers, shouldBreakFireLoopForRenderingUpdate := false, false;
      currentHeapInsertionOrder := 0;
      pendingSharedTimerFireTime := UNSCHEDULED;
      timers, made, count, clock, schedule := {}, {}, 0, 0.0, map[];
      new;
      SetSharedTimer(shared, now);
    }

    /** Makes a timer of this thread; it is not started. */
    method AddTimer() returns (timer: Timer)
      requires Valid()
      modifies this`timers
      ensures Valid() && fresh(timer) && timers == old(timers) + {timer}
      ensures timer.heapItem == null && timer.repeatInterval == 0.0 && timer.NextFireTime() == UNSCHEDULED
    {
      timer := new Timer();
      timers := timers + {timer};
    }

    lemma RootInHeap()
      requires HeapValid() && heap.items != []
      ensures heap.items[0] in heap.members && heap.items[0] in made && heap.items[0].timer in timers
      ensures heap.items[0].time.At? && heap.items[0].time != UNSCHEDULED
    {
      assert heap.items[0] in heap.members;
    }

    static predicate IsPast(time: Time, now: real) {
      time != UNSCHEDULED && time.At? && time.seconds <= now
    }

    twostate lemma ArmedStays(now: real)
      requires old(PendingValid()) && old(clock) <= clock == now
      requires unchanged(`pendingSharedTimerFireTime) && unchanged(`firingTimers) && unchanged(`sharedTimer)
      requires sharedTimer != null ==> unchanged(sharedTimer)
      ensures PendingValid()
    {
    }

    method UpdateSharedTimer(now: real)
      requires HeapValid() && PendingValid() && now >= clock
      modifies this`pendingSharedTimerFireTime, this`clock, sharedTimer
      ensures Valid() && clock == now
      ensures sharedTimer != null && !firingTimers && heap.items != [] ==>
        if old(IsPast(pendingSharedTimerFireTime, now)) && heap.items[0].time.seconds <= now
        then pendingSharedTimerFireTime == old(pendingSharedTimerFireTime) && unchanged(sharedTimer)
        else pendingSharedTimerFireTime == heap.items[0].time
    {
      hide HeapValid, Armed;
      clock := now;
      ArmedStays(now);
      if sharedTimer == null {
        return;
      }
      if firingTimers || heap.items == [] {
        pendingSharedTimerFireTime := UNSCHEDULED;
        sharedTimer.Stop();
      } else {
        RootInHeap();
        var nextFireTime := heap.items[0].time;
        if pendingSharedTimerFireTime != UNSCHEDULED {
          if pendingSharedTimerFireTime.seconds <= now && nextFireTime.seconds <= now {
            return;
          }
        }
        Arm(nextFireTime, now);
      }
    }

    method Arm(nextFireTime: Time, now: real)
      requires sharedTimer != null && nextFireTime.At? && nextFireTime != UNSCHEDULED && clock == now
      modifies this`pendingSharedTimerFireTime, sharedTimer
      ensures Armed(sharedTimer) && pendingSharedTimerFireTime == nextFireTime
      ensures sharedTimer.fireAt == if now <= nextFireTime.seconds then nextFireTime.seconds else now
    {
      pendingSharedTimerFireTime := nextFireTime;
      sharedTimer.SetFireInterval(Max(nextFireTime.seconds - now, 0.0), now);
    }

    ghost function ItemSet(timer: Timer): set<HeapItem>
      reads timer`heapItem
    {
      if timer.heapItem == null then {} else {timer.heapItem}
    }

    /** No other scheduled timer that the insertion counter must order against `item` at `time` is too old for it. */
    ghost predicate WithinWindow(item: HeapItem?, time: Time)
      reads this`count, this`schedule
    {
      forall x :: x in schedule && x != item && schedule[x].time == time ==> count - schedule[x].count < HALF
    }

    /** A timer can always be stopped, and a stopped timer is not in the schedule. */
    lemma Unscheduled(timer: Timer)
      requires Valid() && timer in timers
      ensures WithinWindow(timer.heapItem, UNSCHEDULED)
      ensures timer.NextFireTime() == UNSCHEDULED <==> ItemSet(timer) !! schedule.Keys
      ensures ItemSet(timer) <= made && (timer.heapItem != null ==> timer.heapItem.timer == timer)
    {
    }

    /** The timer's item, made when the timer is first started. */
    method EnsureItem(timer: Timer) returns (item: HeapItem)
      requires HeapValid() && timer in timers
      modifies this`made, timer`heapItem
      ensures HeapValid() && timer.heapItem == item && item in made
      ensures old(timer.heapItem) == null ==> fresh(item) && item.time == UNSCHEDULED && item.heapIndex == NOT_IN_HEAP
      ensures old(timer.heapItem) != null ==> item == old(timer.heapItem)
      ensures made == old(made) + {item}
    {
      if timer.heapItem == null {
        timer.heapItem := new HeapItem(timer);
        made := made + {timer.heapItem};
      }
      item := timer.heapItem;
    }

    /** Takes the next value of the 32-bit insertion counter. */
    method NextHeapInsertionCount() returns (order: nat)
      requires HeapCore()
      modifies this`currentHeapInsertionOrder, this`count
      ensures HeapCore() && order == Wrapped(old(count)) && count == old(count) + 1
    {
      order := currentHeapInsertionOrder;
      NextWrapped(count);
      currentHeapInsertionOrder := (currentHeapInsertionOrder + 1) % WRAP;
      count := count + 1;
    }

    /** Gives an item a new time and the next insertion order. A step that neither takes the item away from the front of
        the heap nor puts it there leaves the same item in front. */
    method MoveInHeap(item: HeapItem, newTime: Time)
      requires HeapCore() && item in made && newTime.At? && newTime != item.time
      requires forall x :: x in heap.members && x != item && x.time == newTime ==> count - x.count < HALF
      modifies this`currentHeapInsertionOrder, this`count, heap, heap.members`heapIndex, item
      ensures HeapCore() && item.K() == Key(newTime, old(count)) && count == old(count) + 1
      ensures heap.members == if newTime == UNSCHEDULED then old(heap.members) - {item} else old(heap.members) + {item}
      ensures old(item.heapIndex) != 0 && item.heapIndex != 0 && heap.items != [] ==>
                old(heap.items) != [] && heap.items[0] == old(heap.items[0]) && heap.items[0] != item
      ensures old(item.heapIndex) != 0 && item.heapIndex != 0 && heap.items == [] ==> old(heap.items) == []
    {
      hide Ordered, Heap.Sane, Wrapped;
      var newOrder := NextHeapInsertionCount();
      heap.Reschedule(item, newTime, newOrder, count - 1);
      heap.MembersAreIndexed();
    }

    method MoveItem(item: HeapItem, newTime: Time)
      requires HeapValid() && item in made && newTime.At? && newTime != item.time && WithinWindow(item, newTime)
      modifies this`currentHeapInsertionOrder, this`count, this`schedule, heap, heap.members`heapIndex, item
      ensures HeapValid() && item.time == newTime && count == old(count) + 1
      ensures schedule == Moved(old(schedule), item, newTime, old(count))
      ensures old(item.heapIndex) != 0 && item.heapIndex != 0 && heap.items != [] ==>
                old(heap.items) != [] && heap.items[0] == old(heap.items[0]) && heap.items[0] != item
      ensures old(item.heapIndex) != 0 && item.heapIndex != 0 && heap.items == [] ==> old(heap.items) == []
    {
      hide HeapCore;
      MoveInHeap(item, newTime);
      schedule := Moved(schedule, item, newTime, count - 1);
    }

    /** Moves an item, and rearms the system timer if the item was or has become the first one. */
    method MoveItemAndTrack(item: HeapItem, newTime: Time, now: real)
      requires Valid() && item in made && newTime.At? && newTime != item.time && WithinWindow(item, newTime)
      requires now >= clock
      modifies this`currentHeapInsertionOrder, this`count, this`schedule, heap, heap.members`heapIndex, item
      modifies this`pendingSharedTimerFireTime, this`clock, sharedTimer
      ensures Valid() && item.time == newTime && count == old(count) + 1
      ensures schedule == Moved(old(schedule), item, newTime, old(count))
      ensures old(clock) <= clock <= now
    {
      hide HeapValid;
      var wasFirstTimerInHeap := item.heapIndex == 0;
      MoveItem(item, newTime);
      var isFirstTimerInHeap := item.heapIndex == 0;
      if wasFirstTimerInHeap || isFirstTimerInHeap {
        UpdateSharedTimer(now);
      }
    }

    /** A timer's next fire time becomes `newTime`, UNSCHEDULED to stop it; no other timer's schedule changes. */
    method SetNextFireTime(timer: Timer, newTime: Time, now: real)
      requires Valid() && timer in timers && newTime.At? && now >= clock && WithinWindow(timer.heapItem, newTime)
      modifies this`currentHeapInsertionOrder, this`count, this`schedule, this`made
      modifies this`pendingSharedTimerFireTime, this`clock
      modifies heap, heap.members`heapIndex, timer`heapItem, ItemSet(timer), sharedTimer
      ensures Valid() && timer.NextFireTime() == newTime && old(clock) <= clock <= now
      ensures newTime == old(timer.NextFireTime()) ==>
        schedule == old(schedule) && count == old(count) && timer.heapItem == old(timer.heapItem)
      ensures newTime != old(timer.NextFireTime()) ==>
        && timer.heapItem != null && count == old(count) + 1
        && schedule == Moved(old(schedule), timer.heapItem, newTime, old(count))
      ensures old(timer.heapItem) != null ==> timer.heapItem == old(timer.heapItem)
      ensures made == old(made) + ItemSet(timer)
      ensures old(timer.heapItem) == null && timer.heapItem != null ==> fresh(timer.heapItem)
    {
      hide SharedTimerTracksHeap, PendingValid, HeapCore, Scheduled;
      Unscheduled(timer);
      if timer.NextFireTime() != newTime {
        var item := EnsureItem(timer);
        MoveItemAndTrack(item, newTime, now);
      }
    }

    /** Starts a timer that fires after `nextFireInterval` and then every `repeatInterval`, if that is not zero. */
    method Start(timer: Timer, nextFireInterval: real, repeatInterval: real, now: real)
      requires Valid() && timer in timers && now >= clock && WithinWindow(timer.heapItem, At(now + nextFireInterval))
      modifies this`currentHeapInsertionOrder, this`count, this`schedule, this`made
      modifies this`pendingSharedTimerFireTime, this`clock
      modifies heap, heap.members`heapIndex, timer, ItemSet(timer), sharedTimer
      ensures Valid() && timer.NextFireTime() == At(now + nextFireInterval) && timer.repeatInterval == repeatInterval
      ensures old(clock) <= clock <= now
      ensures old(timer.NextFireTime()) == At(now + nextFireInterval) ==>
        schedule == old(schedule) && count == old(count)
      ensures old(timer.NextFireTime()) != At(now + nextFireInterval) ==>
        && timer.heapItem != null && count == old(count) + 1
        && schedule == Moved(old(schedule), timer.heapItem, At(now + nextFireInterval), old(count))
      ensures old(timer.heapItem) != null ==> timer.heapItem == old(timer.heapItem)
      ensures made == old(made) + ItemSet(timer)
      ensures old(timer.heapItem) == null && timer.heapItem != null ==> fresh(timer.heapItem)
    {
      hide Valid;
      timer.repeatInterval := repeatInterval;
      SetNextFireTime(timer, At(now + nextFireInterval), now);
    }

    /** Stops a timer. */
    method Stop(timer: Timer, now: real)
      requires Valid() && timer in timers && now >= clock
      modifies this`currentHeapInsertionOrder, this`count, this`schedule, this`made
      modifies this`pendingSharedTimerFireTime, this`clock
      modifies heap, heap.members`heapIndex, timer, ItemSet(timer), sharedTimer
      ensures Valid() && timer.NextFireTime() == UNSCHEDULED && timer.repeatInterval == 0.0
      ensures old(clock) <= clock <= now && schedule == old(schedule) - ItemSet(timer)
      ensures count == old(count) + if old(timer.NextFireTime()) == UNSCHEDULED then 0 else 1
      ensures timer.heapItem == old(timer.heapItem) && made == old(made)
    {
      hide Valid;
      Unscheduled(timer);
      timer.repeatInterval := 0.0;
      SetNextFireTime(timer, UNSCHEDULED, now);
    }

    /** Attaches another system timer, or none. */
    method SetSharedTimer(shared: SharedTimer?, now: real)
      requires Valid() && now >= clock
      modifies this`sharedTimer, this`pendingSharedTimerFireTime, this`clock, sharedTimer, shared
      ensures Valid() && sharedTimer == shared && clock == if shared == null then old(clock) else now
      ensures old(sharedTimer) != null && old(sharedTimer) != shared ==> !old(sharedTimer).armed
    {
      hide HeapValid;
      if sharedTimer != null {
        sharedTimer.Stop();
        pendingSharedTimerFireTime := UNSCHEDULED;
      }
      sharedTimer := shared;
      if shared != null {
        UpdateSharedTimer(now);
      }
    }

    /** Lets the timers fire again while a callback runs an event loop of its own. */
    method FireTimersInNestedEventLoop(now: real)
      requires HeapValid() && PendingValid() && now >= clock
      modifies this`firingTimers, this`pendingSharedTimerFireTime, this`clock, sharedTimer
      ensures Valid() && !firingTimers && clock == now
      ensures sharedTimer != null && heap.items != [] ==> pendingSharedTimerFireTime == heap.items[0].time
    {
      hide HeapValid;
      firingTimers := false;
      if sharedTimer != null {
        pendingSharedTimerFireTime := UNSCHEDULED;
      }
      UpdateSharedTimer(now);
    }

    method BreakFireLoopForRenderingUpdate()
      modifies this`shouldBreakFireLoopForRenderingUpdate
      ensures shouldBreakFireLoopForRenderingUpdate == (old(shouldBreakFireLoopForRenderingUpdate) || firingTimers)
    {
      if !firingTimers {
        return;
      }
      shouldBreakFireLoopForRenderingUpdate := true;
    }

    lemma RootIsFirst()
      requires Valid()
      ensures heap.items == [] <==> schedule == map[]
      ensures heap.items != [] ==>
        IsFirst(schedule, heap.items[0]) && schedule[heap.items[0]].time == heap.items[0].time
      ensures heap.items != [] ==>
        heap.items[0] in made && heap.items[0].timer in timers && heap.items[0].time != UNSCHEDULED
    {
      if heap.items != [] {
        assert heap.items[0] in schedule;
        heap.RootIsFirst();
      } else {
        assert schedule.Keys == {};
      }
    }

    /** Reschedules the first timer, which is due, for `next` before its callback is run. */
    method TakeFirst(next: Time, now: real) returns (item: HeapItem)
      requires Valid() && heap.items != [] && now >= clock
      requires next.At? && next != heap.items[0].time && WithinWindow(heap.items[0], next)
      requires heap.items[0] in made && heap.items[0].timer in timers
      modifies this`currentHeapInsertionOrder, this`count, this`schedule, this`made
      modifies this`pendingSharedTimerFireTime, this`clock
      modifies heap, made, timers`heapItem, sharedTimer
      ensures Valid() && old(clock) <= clock <= now && count == old(count) + 1 && made == old(made)
      ensures item == old(heap.items[0]) && schedule == Moved(old(schedule), item, next, old(count))
    {
      item := heap.items[0];
      SetNextFireTime(item.timer, next, now);
    }

    /** A callback ends the pass: by what it did, or because `reading`, the clock after it, is past the time limit. */
    static predicate EndsPass(effect: Effect, reading: real, fireTime: real) {
      effect != Nothing || fireTime + 0.016 < reading
    }

    /** A timer's callback runs; afterwards the pass goes on or not. */
    method RunCallback(effect: Effect, reading: real, fireTime: real) returns (ends: bool)
      requires Valid() && firingTimers && clock <= reading
      modifies this`firingTimers, this`pendingSharedTimerFireTime, this`clock, sharedTimer
      modifies this`shouldBreakFireLoopForRenderingUpdate
      ensures Valid() && clock <= reading
      ensures ends <==> EndsPass(effect, reading, fireTime) || old(shouldBreakFireLoopForRenderingUpdate)
      ensures !ends ==> firingTimers && !shouldBreakFireLoopForRenderingUpdate
    {
      match effect {
        case Nothing =>
        case BreakForRendering => BreakFireLoopForRenderingUpdate();
        case RunNestedEventLoop => FireTimersInNestedEventLoop(reading);
      }
      ends := !firingTimers || fireTime + MAX_DURATION_OF_FIRING_TIMERS < reading ||
        shouldBreakFireLoopForRenderingUpdate;
    }

    /** When each timer that fires at `fireTime` fires next. */
    ghost function NextTimes(items: set<HeapItem>, fireTime: real): (next: map<HeapItem, Time>)
      reads set x | x in items :: x.timer
    {
      map x | x in items :: NextTime(x.timer.repeatInterval, fireTime)
    }

    static function NextTime(interval: real, fireTime: real): Time {
      if interval != 0.0 then At(fireTime + interval) else UNSCHEDULED
    }

    lemma NextTimesAreLater(fireTime: real)
      requires Valid() && fireTime >= 0.0 && forall t :: t in timers ==> t.repeatInterval >= 0.0
      ensures NextAreLater(NextTimes(schedule.Keys, fireTime), fireTime)
      ensures forall x :: x in schedule ==> x.timer.repeatInterval >= 0.0
    {
      assert forall x :: x in schedule ==> x in made && x.timer in timers;
    }

    /** A firing pass as it stands. */
    ghost predicate Follows(pass: Pass<HeapItem>)
      reads this`schedule, this`count
    {
      pass.Good() && pass.schedule == schedule && pass.count == count
    }

    /** One turn of the firing loop: the first timer, which is due, is rescheduled and its callback is run. */
    method FireNext(now: real, reading: real, effect: Effect, ghost pass: Pass<HeapItem>, fireTime: real)
      returns (item: HeapItem, ends: bool)
      requires Valid() && firingTimers && clock <= now <= reading && Follows(pass) && pass.fireTime == fireTime
      requires heap.items != [] && Due(heap.items[0].time, fireTime)
      requires forall x :: x in pass.next ==> pass.next[x] == NextTime(x.timer.repeatInterval, fireTime)
      modifies this`currentHeapInsertionOrder, this`count, this`schedule, this`made
      modifies this`pendingSharedTimerFireTime, this`clock
      modifies this`firingTimers, this`shouldBreakFireLoopForRenderingUpdate
      modifies heap, made, timers`heapItem, sharedTimer
      ensures Valid() && clock <= reading && made == old(made)
      ensures item in pass.unfired && item in pass.next && Follows(pass.Fire(item))
      ensures ends <==> EndsPass(effect, reading, fireTime) || old(shouldBreakFireLoopForRenderingUpdate)
      ensures !ends ==> firingTimers && !shouldBreakFireLoopForRenderingUpdate
    {
      hide Valid, FiresInOrder, Rescheduled, Room, Moved, NextAreLater, Pass.Good;
      RootIsFirst();
      FireFirst(pass, heap.items[0]);
      item := TakeFirst(NextTime(heap.items[0].timer.repeatInterval, fireTime), now);
      ends := RunCallback(effect, reading, fireTime);
    }

    /** The firing loop. The i-th callback that is run has effect `effects(i)`, and the clock reads `readings(i)` after
        it. */
    method FireLoop(fireTime: real, effects: nat -> Effect, readings: nat -> real, ghost begin: Pass<HeapItem>)
      returns (fired: seq<HeapItem>, cut: bool, ghost pass: Pass<HeapItem>)
      requires Valid() && firingTimers && fireTime >= clock && readings(0) >= fireTime
      requires forall i: nat, j: nat :: i <= j ==> readings(i) <= readings(j)
      requires Follows(begin) && begin.fired == [] && begin.fireTime == fireTime
      requires forall x :: x in begin.next ==> begin.next[x] == NextTime(x.timer.repeatInterval, fireTime)
      modifies this`currentHeapInsertionOrder, this`count, this`schedule, this`made
      modifies this`pendingSharedTimerFireTime, this`clock
      modifies this`firingTimers, this`shouldBreakFireLoopForRenderingUpdate
      modifies heap, made, timers`heapItem, sharedTimer
      ensures Valid() && made == old(made) && clock <= readings(|fired|)
      ensures Follows(pass) && pass.fired == fired
      ensures pass.was == begin.was && pass.from == begin.from && pass.next == begin.next && pass.fireTime == fireTime
      ensures !cut ==> heap.items == [] || !Due(heap.items[0].time, fireTime)
      ensures cut ==> fired != []
      ensures cut ==> EndsPass(effects(|fired| - 1), readings(|fired| - 1), fireTime)
                      || (|fired| == 1 && old(shouldBreakFireLoopForRenderingUpdate))
      ensures forall i: nat :: i < |fired| - 1 ==> !EndsPass(effects(i), readings(i), fireTime)
    {
      hide Valid, FiresInOrder, Rescheduled, Room, Moved, NextAreLater, Pass.Good;
      fired, cut, pass := [], false, begin;
      var now := fireTime;
      while heap.items != []
        invariant Valid() && firingTimers && made == old(made) && clock <= now <= readings(|fired|)
        invariant Follows(pass) && pass.fired == fired
        invariant pass.was == begin.was && pass.from == begin.from && pass.next == begin.next &&
          pass.fireTime == fireTime
        invariant shouldBreakFireLoopForRenderingUpdate == (fired == [] && old(shouldBreakFireLoopForRenderingUpdate))
        invariant forall i: nat :: i < |fired| ==> !EndsPass(effects(i), readings(i), fireTime)
        decreases pass.unfired
      {
        if Earlier(At(fireTime), heap.items[0].time) {
          return;
        }
        var n := |fired|;
        var item;
        item, cut := FireNext(now, readings(n), effects(n), pass, fireTime);
        fired, pass := fired + [item], pass.Fire(item);
        now := readings(n);
        if cut {
          return;
        }
      }
    }

    /** What a pass at `fireTime` did to schedule `was`: the timers in `fired` are its first ones, in order, and all
        due; each has been set to its next time or stopped; and unless the pass was cut short no due timer is left. */
    ghost predicate Fired(fired: seq<HeapItem>, cut: bool, was: map<HeapItem, Key>, from: nat,
                          next: map<HeapItem, Time>, fireTime: real)
      reads this`schedule, this`count
    {
      && FiresInOrder(fired, was, fireTime) && Rescheduled(fired, was, schedule, next, from) && count == from + |fired|
      && (!cut ==> AllDueFired(fired, was, fireTime))
    }

    lemma LoopResult(cut: bool, pass: Pass<HeapItem>)
      requires Valid() && Follows(pass)
      requires !cut ==> heap.items == [] || !Due(heap.items[0].time, pass.fireTime)
      ensures Fired(pass.fired, cut, pass.was, pass.from, pass.next, pass.fireTime)
      ensures count == pass.from + |pass.fired|
    {
      hide Valid, Pass.Good;
      GoodPass(pass);
      if !cut {
        RootIsFirst();
        NoneLeftDue(pass, heap.items);
      }
    }

    lemma FiredParts(fired: seq<HeapItem>, cut: bool, was: map<HeapItem, Key>, from: nat, next: map<HeapItem, Time>,
                     fireTime: real)
      requires Fired(fired, cut, was, from, next, fireTime)
      ensures FiresInOrder(fired, was, fireTime) && (!cut ==> AllDueFired(fired, was, fireTime))
      ensures schedule.Keys <= was.Keys
    {
    }

    /** A timer that fired fires again after its repeat interval, or not at all if it has none. */
    lemma RepeatOrStop(fired: seq<HeapItem>, cut: bool, pass: Pass<HeapItem>)
      requires Fired(fired, cut, pass.was, pass.from, pass.next, pass.fireTime) && pass.fireTime >= 0.0
      requires forall x :: x in pass.next ==>
        x.timer.repeatInterval >= 0.0 && pass.next[x] == NextTime(x.timer.repeatInterval, pass.fireTime)
      ensures forall i :: 0 <= i < |fired| ==>
        if fired[i].timer.repeatInterval == 0.0 then fired[i] !in schedule
        else fired[i] in schedule && schedule[fired[i]].time == At(pass.fireTime + fired[i].timer.repeatInterval)
    {
    }

    /** A pass begins: the system timer's one shot is spent. */
    method BeginPass()
      requires Valid()
      modifies this`pendingSharedTimerFireTime, this`firingTimers, sharedTimer
      ensures Valid() && firingTimers && (sharedTimer != null ==> !sharedTimer.armed)
    {
      hide HeapValid;
      if sharedTimer != null {
        sharedTimer.Stop();
      }
      firingTimers := true;
      pendingSharedTimerFireTime := UNSCHEDULED;
    }

    /** A pass ends: the system timer is set for the timers that are left. */
    method EndPass(now: real)
      requires Valid() && clock <= now
      modifies this`pendingSharedTimerFireTime, this`clock
      modifies this`firingTimers, this`shouldBreakFireLoopForRenderingUpdate
      modifies sharedTimer
      ensures Valid() && !firingTimers && !shouldBreakFireLoopForRenderingUpdate && clock == now
    {
      hide HeapValid;
      firingTimers, shouldBreakFireLoopForRenderingUpdate := false, false;
      UpdateSharedTimer(now);
    }

    method FirePass(fireTime: real, effects: nat -> Effect, readings: nat -> real)
      returns (fired: seq<HeapItem>, cut: bool)
      requires Valid() && firingTimers && fireTime >= clock && readings(0) >= fireTime
      requires fireTime >= 0.0 && (forall i: nat, j: nat :: i <= j ==> readings(i) <= readings(j))
      requires forall t :: t in timers ==> t.repeatInterval >= 0.0
      requires Room(schedule, count, DueTimers(schedule, fireTime), NextTimes(schedule.Keys, fireTime))
      modifies this`currentHeapInsertionOrder, this`count, this`schedule, this`made
      modifies this`pendingSharedTimerFireTime, this`clock
      modifies this`firingTimers, this`shouldBreakFireLoopForRenderingUpdate
      modifies heap, made, timers`heapItem, sharedTimer
      ensures Valid() && made == old(made) && clock <= readings(|fired|) && count == old(count) + |fired|
      ensures Fired(fired, cut, old(schedule), old(count), old(NextTimes(schedule.Keys, fireTime)), fireTime)
      ensures forall i :: 0 <= i < |fired| ==>
        if fired[i].timer.repeatInterval == 0.0 then fired[i] !in schedule
        else fired[i] in schedule && schedule[fired[i]].time == At(fireTime + fired[i].timer.repeatInterval)
      ensures cut ==> fired != [] && (EndsPass(effects(|fired| - 1), readings(|fired| - 1), fireTime)
                                      || (|fired| == 1 && old(shouldBreakFireLoopForRenderingUpdate)))
      ensures forall i: nat :: i < |fired| - 1 ==> !EndsPass(effects(i), readings(i), fireTime)
    {
      hide Valid, Fired, Room, NextAreLater, Pass.Good;
      NextTimesAreLater(fireTime);
      ghost var begin := Begin(schedule, count, NextTimes(schedule.Keys, fireTime), fireTime);
      BeginIsGood(schedule, count, begin.next, fireTime);
      ghost var pass;
      fired, cut, pass := FireLoop(fireTime, effects, readings, begin);
      LoopResult(cut, pass);
      RepeatOrStop(fired, cut, pass);
    }

    /** Passes over timers that do not repeat need no room in the insertion counter's window. */
    lemma OneShotsHaveRoom(fireTime: real)
      requires Valid() && |schedule| <= HALF && forall x :: x in schedule ==> x.timer.repeatInterval == 0.0
      ensures Room(schedule, count, DueTimers(schedule, fireTime), NextTimes(schedule.Keys, fireTime))
    {
      SmallerSet(DueTimers(schedule, fireTime), schedule.Keys);
    }

    lemma MembersAreMade()
      requires Valid()
      ensures heap.members <= made && heap.members == schedule.Keys
    {
    }

    lemma StoppedWhenIdle()
      requires Valid() && schedule == map[] && sharedTimer != null && !firingTimers
      ensures !sharedTimer.armed
    {
      RootIsFirst();
    }

    lemma ClockIsPositive()
      requires Valid()
      ensures clock >= 0.0
    {
    }

    /** The system timer, a one-shot, goes off at `fireTime`. */
    method SharedTimerFired(fireTime: real, effects: nat -> Effect, readings: nat -> real)
      returns (fired: seq<HeapItem>, cut: bool)
      requires Valid() && fireTime >= clock && readings(0) >= fireTime
      requires forall i: nat, j: nat :: i <= j ==> readings(i) <= readings(j)
      requires forall t :: t in timers ==> t.repeatInterval >= 0.0
      requires Room(schedule, count, DueTimers(schedule, fireTime), NextTimes(schedule.Keys, fireTime))
      modifies this`currentHeapInsertionOrder, this`count, this`schedule, this`made
      modifies this`pendingSharedTimerFireTime, this`clock
      modifies this`firingTimers, this`shouldBreakFireLoopForRenderingUpdate
      modifies heap, made, timers`heapItem, sharedTimer
      ensures Valid() && made == old(made)
      ensures old(firingTimers) ==>
        fired == [] && firingTimers && schedule == old(schedule) && count == old(count) && clock == old(clock)
      ensures !old(firingTimers) ==> !firingTimers && !shouldBreakFireLoopForRenderingUpdate
      ensures !old(firingTimers) ==> clock == readings(|fired|) && count == old(count) + |fired|
      ensures !old(firingTimers) ==>
                Fired(fired, cut, old(schedule), old(count), old(NextTimes(schedule.Keys, fireTime)), fireTime)
      ensures forall i :: 0 <= i < |fired| ==>
        if fired[i].timer.repeatInterval == 0.0 then fired[i] !in schedule
        else fired[i] in schedule && schedule[fired[i]].time == At(fireTime + fired[i].timer.repeatInterval)
      ensures cut ==> fired != [] && (EndsPass(effects(|fired| - 1), readings(|fired| - 1), fireTime)
                                      || (|fired| == 1 && old(shouldBreakFireLoopForRenderingUpdate)))
      ensures forall i: nat :: i < |fired| - 1 ==> !EndsPass(effects(i), readings(i), fireTime)
    {
      hide Valid, Fired, Room;
      if firingTimers {
        return [], false;
      }
      ClockIsPositive();
      BeginPass();
      fired, cut := FirePass(fireTime, effects, readings);
      EndPass(readings(|fired|));
    }
  }

  /** A pass over two timers of the same time that nothing cuts short fires both, the earlier counter value first. */
  lemma BothFire<T>(fired: seq<T>, was: map<T, Key>, fireTime: real, first: T, second: T)
    requires FiresInOrder(fired, was, fireTime) && AllDueFired(fired, was, fireTime)
    requires first != second && was.Keys == {first, second} && was[first].time == was[second].time
    requires was[first].count < was[second].count && Due(was[first].time, fireTime)
    ensures fired == [first, second]
  {
    assert first in fired && second in fired;
    var i :| 0 <= i < |fired| && fired[i] == first;
    var j :| 0 <= j < |fired| && fired[j] == second;
    assert forall k :: 0 <= k < |fired| && fired[k] == first ==> k == i;
    assert forall k :: 0 <= k < |fired| && fired[k] == second ==> k == j;
    assert i < j && fired[0] in was && fired[i + 1] in was && fired[|fired| - 1] in was;
  }

  lemma SmallerSet<T>(a: set<T>, b: set<T>)
    requires a <= b
    ensures |a| <= |b|
  {
    assert b == a + (b - a);
  }

  /** Two timers are made and started one after the other for the same time. */
  method StartTwo(shared: SharedTimer, now: real, later: real, interval: real)
    returns (threadTimers: ThreadTimers, first: HeapItem, second: HeapItem)
    requires 0.0 < now <= later < now + interval
    modifies shared
    ensures threadTimers.Valid() && threadTimers.clock <= later && threadTimers.sharedTimer == shared
    ensures !threadTimers.firingTimers && !threadTimers.shouldBreakFireLoopForRenderingUpdate
    ensures fresh(threadTimers) && fresh(threadTimers.heap) && fresh(threadTimers.timers) && fresh(threadTimers.made)
    ensures threadTimers.made == {first, second} && threadTimers.timers == {first.timer, second.timer} &&
      first != second
    ensures first.timer.repeatInterval == 0.0 && second.timer.repeatInterval == 0.0
    ensures threadTimers.schedule == map[first := Key(At(now + interval), 0), second := Key(At(now + interval), 1)]
  {
    hide ThreadTimers.Valid;
    threadTimers := new ThreadTimers(shared, now);
    var timer1 := threadTimers.AddTimer();
    var timer2 := threadTimers.AddTimer();
    threadTimers.MembersAreMade();
    threadTimers.Start(timer1, interval, 0.0, now);
    threadTimers.MembersAreMade();
    threadTimers.Start(timer2, now + interval - later, 0.0, later);
    first, second := timer1.heapItem, timer2.heapItem;
    threadTimers.Unscheduled(timer1);
    threadTimers.Unscheduled(timer2);
  }

  /** The system timer goes off when two timers that do not repeat are due at the same time. */
  method FireTwo(threadTimers: ThreadTimers, first: HeapItem, second: HeapItem, fireTime: real)
    returns (fired: seq<HeapItem>)
    requires threadTimers.Valid() && threadTimers.clock <= fireTime && threadTimers.sharedTimer != null
    requires !threadTimers.firingTimers && !threadTimers.shouldBreakFireLoopForRenderingUpdate
    requires forall t :: t in threadTimers.timers ==> t.repeatInterval == 0.0
    requires first != second && first.timer in threadTimers.timers && second.timer in threadTimers.timers
    requires threadTimers.schedule.Keys == {first, second}
    requires threadTimers.schedule[first].time == threadTimers.schedule[second].time
    requires threadTimers.schedule[first].count < threadTimers.schedule[second].count
    requires Due(threadTimers.schedule[first].time, fireTime)
    modifies threadTimers, threadTimers.heap, threadTimers.made, threadTimers.timers`heapItem, threadTimers.sharedTimer
    ensures fired == [first, second] && threadTimers.sharedTimer == old(threadTimers.sharedTimer)
    ensures !threadTimers.sharedTimer.armed
  {
    hide ThreadTimers.Valid, ThreadTimers.Fired, Room, FiresInOrder, AllDueFired, Rescheduled;
    ghost var was, from := threadTimers.schedule, threadTimers.count;
    ghost var next := threadTimers.NextTimes(was.Keys, fireTime);
    threadTimers.OneShotsHaveRoom(fireTime);
    var cut;
    fired, cut := threadTimers.SharedTimerFired(fireTime, i => Nothing, i => fireTime);
    threadTimers.FiredParts(fired, cut, was, from, next, fireTime);
    BothFire(fired, was, fireTime, first, second);
    assert fired[0] !in threadTimers.schedule && fired[1] !in threadTimers.schedule;
    threadTimers.StoppedWhenIdle();
  }

  /**
   * A whole run from nothing: two timers are started one after the other for the same time, and the system timer goes
   * off at or after that time. Both fire, first-started-first, and the system timer is stopped.
   */
  method StartedFirstFiresFirst(now: real, later: real, interval: real, fireTime: real)
    returns (fired: seq<HeapItem>, first: HeapItem, second: HeapItem, shared: SharedTimer)
    requires 0.0 < now <= later < now + interval <= fireTime
    ensures fired == [first, second] && !shared.armed
  {
    hide ThreadTimers.Valid;
    shared := new SharedTimer();
    var threadTimers;
    threadTimers, first, second := StartTwo(shared, now, later, interval);
    fired := FireTwo(threadTimers, first, second, fireTime);
  }
}
