/** Binary heaps of timer keys: what the sift steps of the library heap algorithms keep. */
module HeapOrder {
  import opened TimerOrder

  function Parent(i: int): int {
    (i - 1) / 2
  }

  /** Among the first `n` keys, every key fires after its parent. */
  ghost predicate OrderedTo(keys: seq<Key>, n: nat)
    requires n <= |keys|
  {
    forall i {:trigger Parent(i)} :: 1 <= i < n ==> Before(keys[Parent(i)], keys[i])
  }

  ghost predicate Ordered(keys: seq<Key>) {
    OrderedTo(keys, |keys|)
  }

  /** Sifting up: the key at `hole` may fire before its parent, but then the children of `hole` are still late
      enough. */
  ghost predicate OrderedAbove(keys: seq<Key>, hole: int) {
    && (forall i {:trigger Parent(i)} :: 1 <= i < |keys| && i != hole ==> Before(keys[Parent(i)], keys[i]))
    && (forall i {:trigger Parent(i)} :: 1 <= i < |keys| && Parent(i) == hole && hole >= 1 ==>
      Before(keys[Parent(hole)], keys[i]))
  }

  /** Sifting down: the key at `hole` may fire after its children, but then its parent is still early enough. */
  ghost predicate OrderedBelow(keys: seq<Key>, n: nat, hole: int)
    requires n <= |keys|
  {
    && (forall i {:trigger Parent(i)} :: 1 <= i < n && Parent(i) != hole ==> Before(keys[Parent(i)], keys[i]))
    && (forall i {:trigger Parent(i)} :: 1 <= i < n && Parent(i) == hole && hole >= 1 ==>
      Before(keys[Parent(hole)], keys[i]))
  }

  function Swapped<T>(s: seq<T>, i: int, j: int): (r: seq<T>)
    requires 0 <= i < |s| && 0 <= j < |s|
  {
    s[i := s[j]][j := s[i]]
  }

  lemma {:induction false} RootFiresFirst(keys: seq<Key>, i: int)
    requires Ordered(keys) && 1 <= i < |keys|
    ensures Before(keys[0], keys[i])
    decreases i
  {
    if Parent(i) != 0 {
      RootFiresFirst(keys, Parent(i));
    }
  }

  lemma SiftUpStep(keys: seq<Key>, hole: int)
    requires 1 <= hole < |keys| && OrderedAbove(keys, hole)
    requires Before(keys[hole], keys[Parent(hole)])
    ensures OrderedAbove(Swapped(keys, Parent(hole), hole), Parent(hole))
  {
    var p, s := Parent(hole), Swapped(keys, Parent(hole), hole);
    forall i | 1 <= i < |s| && i != p
      ensures Before(s[Parent(i)], s[i])
    {
      assert Parent(i) == hole ==> Before(keys[p], keys[i]);
      if Parent(i) == p && i != hole {
        assert Before(keys[p], keys[i]);
      }
    }
    forall i | 1 <= i < |s| && Parent(i) == p && p >= 1
      ensures Before(s[Parent(p)], s[i])
    {
      assert Before(keys[Parent(p)], keys[p]);
      assert i != hole ==> Before(keys[p], keys[i]);
    }
  }

  /** Sifting up ends at the root, or when the key at `hole` fires after its parent. */
  lemma SiftUpDone(keys: seq<Key>, hole: int)
    requires 0 <= hole < |keys| && OrderedAbove(keys, hole)
    requires hole > 0 ==> Before(keys[Parent(hole)], keys[hole])
    ensures Ordered(keys)
  {
  }

  lemma SiftDownStep(keys: seq<Key>, n: nat, hole: int, child: int)
    requires 0 <= hole && 1 <= child < n <= |keys| && Parent(child) == hole && OrderedBelow(keys, n, hole)
    requires Before(keys[child], keys[hole])
    requires forall i {:trigger Parent(i)} :: 1 <= i < n && Parent(i) == hole && i != child ==>
      Before(keys[child], keys[i])
    ensures OrderedBelow(Swapped(keys, hole, child), n, child)
  {
    var s := Swapped(keys, hole, child);
    forall i | 1 <= i < n && Parent(i) != child
      ensures Before(s[Parent(i)], s[i])
    {
      if i == hole {
        assert Before(keys[Parent(hole)], keys[child]);
      }
    }
    forall i | 1 <= i < n && Parent(i) == child
      ensures Before(s[Parent(child)], s[i])
    {
      assert Before(keys[child], keys[i]);
    }
  }

  /** Sifting down ends when the key at `hole` fires before its children. */
  lemma SiftDownDone(keys: seq<Key>, n: nat, hole: int)
    requires 0 <= hole && n <= |keys| && OrderedBelow(keys, n, hole)
    requires forall i {:trigger Parent(i)} :: 1 <= i < n && Parent(i) == hole ==> Before(keys[hole], keys[i])
    ensures OrderedTo(keys, n)
  {
    forall i | 1 <= i < n
      ensures Before(keys[Parent(i)], keys[i])
    {
    }
  }

  /** An earlier key may only have to move up. */
  lemma LoweredKey(keys: seq<Key>, slot: int, key: Key)
    requires 0 <= slot < |keys| && Ordered(keys) && Before(key, keys[slot])
    ensures OrderedAbove(keys[slot := key], slot)
  {
    var s := keys[slot := key];
    forall i | 1 <= i < |s| && i != slot
      ensures Before(s[Parent(i)], s[i])
    {
      assert Before(keys[Parent(i)], keys[i]);
    }
    forall i | 1 <= i < |s| && Parent(i) == slot && slot >= 1
      ensures Before(s[Parent(slot)], s[i])
    {
      assert Before(keys[Parent(slot)], keys[slot]) && Before(keys[Parent(i)], keys[i]);
    }
  }

  /** A heap whose key at `slot` changed is still a heap if and only if that key suits its parent and its children. */
  lemma ChangedKey(keys: seq<Key>, slot: int, was: Key)
    requires 0 <= slot < |keys| && Ordered(keys[slot := was])
    ensures Ordered(keys) <==>
            && (slot > 0 ==> Before(keys[Parent(slot)], keys[slot]))
            && (2 * slot + 1 < |keys| ==> Before(keys[slot], keys[2 * slot + 1]))
            && (2 * slot + 2 < |keys| ==> Before(keys[slot], keys[2 * slot + 2]))
  {
    var s := keys[slot := was];
    assert Parent(2 * slot + 1) == slot && Parent(2 * slot + 2) == slot;
    forall i | 1 <= i < |keys| && i != slot && Parent(i) != slot
      ensures Before(keys[Parent(i)], keys[i])
    {
      assert Before(s[Parent(i)], s[i]);
    }
  }

  /** Exchanging the root of a heap with its last key leaves, among the other slots, only the root to be sifted down. */
  lemma RootExchanged(keys: seq<Key>)
    requires |keys| >= 1 && Ordered(keys)
    ensures OrderedBelow(Swapped(keys, 0, |keys| - 1), |keys| - 1, 0)
  {
    var s := Swapped(keys, 0, |keys| - 1);
    forall i | 1 <= i < |s| - 1 && Parent(i) != 0
      ensures Before(s[Parent(i)], s[i])
    {
      assert Before(keys[Parent(i)], keys[i]);
    }
  }

  /** A key added to a heap may only have to move up. */
  lemma LastKeyMovesUp(keys: seq<Key>)
    requires |keys| >= 1 && OrderedTo(keys, |keys| - 1)
    ensures OrderedAbove(keys, |keys| - 1)
  {
  }
}

/** The per-thread timer heap, kept in place in a vector of items that know their own position. */
module TimerHeap {
  import opened TimerOrder
  import opened HeapOrder

  const NOT_IN_HEAP := -1

  /** A timer. It has a heap item from its first start on, and fires again every `repeatInterval` if that is not
      zero. */
  class Timer {
    var heapItem: HeapItem?
    var repeatInterval: real

    constructor ()
      ensures heapItem == null && repeatInterval == 0.0
    {
      heapItem := null;
      repeatInterval := 0.0;
    }

    /** The time the timer will fire next; UNSCHEDULED if it is not active. */
    function NextFireTime(): (time: Time)
      reads this`heapItem, heapItem
    {
      if heapItem == null then UNSCHEDULED else heapItem.time
    }
  }

  /** What a timer puts in the heap. */
  class HeapItem {
    const timer: Timer
    var time: Time
    var insertionOrder: nat
    /** Position in the heap's vector, or NOT_IN_HEAP. */
    var heapIndex: int
    /** The insertion counter without its 32-bit wrap. */
    ghost var count: nat

    constructor (timer: Timer)
      ensures this.timer == timer && time == UNSCHEDULED && heapIndex == NOT_IN_HEAP
    {
      this.timer := timer;
      time := UNSCHEDULED;
      insertionOrder := 0;
      count := 0;
      heapIndex := NOT_IN_HEAP;
    }

    ghost function K(): Key
      reads this`time, this`count
    {
      Key(time, count)
    }
  }

  /** The vector holds exactly `members`, each once, in the slot that the member records. */
  ghost predicate Indexed(items: seq<HeapItem>, members: set<HeapItem>)
    reads members`heapIndex
  {
    && (forall i :: 0 <= i < |items| ==> items[i] in members && items[i].heapIndex == i)
    && (forall x :: x in members ==> 0 <= x.heapIndex < |items| && items[x.heapIndex] == x)
  }

  /** The comparator orders the items as their unbounded counters would. */
  ghost predicate Sound(members: set<HeapItem>)
    reads members`time, members`insertionOrder, members`count
  {
    && (forall x :: x in members ==> x.insertionOrder == Wrapped(x.count))
    && (forall x, y :: x in members && y in members && x != y ==> Comparable(x.K(), y.K()))
  }

  class Heap {
    var items: seq<HeapItem>
    /** The items in the heap, and the key of the item in each slot. */
    ghost var members: set<HeapItem>
    ghost var keys: seq<Key>

    constructor ()
      ensures items == [] && members == {} && keys == []
    {
      items, members, keys := [], {}, [];
    }

    ghost predicate Sane()
      reads this, members
    {
      Indexed(items, members) && Sound(members) && Keyed()
    }

    ghost predicate Keyed()
      reads this, members
    {
      |keys| == |items| && forall i :: 0 <= i < |items| ==> items[i] in members && keys[i] == items[i].K()
    }

    lemma MembersAreIndexed()
      requires Sane()
      ensures forall x :: x in members ==> x.heapIndex != NOT_IN_HEAP
    {
    }

    /** `items[i]` fires after `items[j]`, as the comparator sees it. */
    method CompareSlots(i: nat, j: nat) returns (after: bool)
      requires i < |items| && j < |items| && i != j && Sane()
      ensures after <==> Before(keys[j], keys[i])
      ensures !after <==> Before(keys[i], keys[j])
    {
      after := Compare(items[i].time, items[i].insertionOrder, items[j].time, items[j].insertionOrder);
      ComparatorIsBefore(items[j].K(), items[i].K());
    }

    /** Exchanges two slots; each assignment through the heap's iterator records the item's new position. */
    method Swap(i: nat, j: nat)
      requires i < j < |items| && Indexed(items, members) && Keyed()
      modifies this`items, this`keys, members`heapIndex
      ensures items == Swapped(old(items), i, j) && keys == Swapped(old(keys), i, j)
      ensures Indexed(items, members) && Keyed()
    {
      items := Swapped(items, i, j);
      keys := Swapped(keys, i, j);
      items[i].heapIndex := i;
      items[j].heapIndex := j;
    }

    /** `push_heap` over the slots up to `last`: sift the item there up. */
    method PushHeap(last: nat)
      requires last < |items| && Sane() && OrderedAbove(keys, last)
      modifies this`items, this`keys, members`heapIndex
      ensures Sane() && Ordered(keys) && |items| == old(|items|)
    {
      hide Sound, OrderedAbove, OrderedTo, Before;
      var hole := last;
      while hole > 0
        invariant 0 <= hole < |items| == old(|items|) && Sane() && OrderedAbove(keys, hole)
      {
        var parent := Parent(hole);
        var after := CompareSlots(parent, hole);
        if !after {
          SiftUpDone(keys, hole);
          return;
        }
        SiftUpStep(keys, hole);
        Swap(parent, hole);
        hole := parent;
      }
      SiftUpDone(keys, hole);
    }

    /** The child of `hole` that fires first, among the first `limit` slots. */
    method EarlierChild(hole: nat, limit: nat) returns (child: nat)
      requires 2 * hole + 1 < limit <= |items| && Sane()
      ensures hole < child < limit && Parent(child) == hole
      ensures forall i {:trigger Parent(i)} :: 1 <= i < limit && Parent(i) == hole && i != child ==>
        Before(keys[child], keys[i])
    {
      child := 2 * hole + 1;
      if child + 1 < limit {
        var after := CompareSlots(child, child + 1);
        if after {
          child := child + 1;
        }
      }
      assert forall i {:trigger Parent(i)} :: Parent(i) == hole ==> i == 2 * hole + 1 || i == 2 * hole + 2;
    }

    /** One sift-down step: the item at `hole` changes places with its earlier child, or stays. */
    method SiftDownOnce(hole: nat, limit: nat) returns (child: nat, moved: bool)
      requires 2 * hole + 1 < limit <= |items| && Sane() && OrderedBelow(keys, limit, hole)
      modifies this`items, this`keys, members`heapIndex
      ensures Sane() && |items| == old(|items|) && items[limit..] == old(items[limit..])
      ensures moved ==> hole < child < limit && OrderedBelow(keys, limit, child)
      ensures !moved ==> OrderedTo(keys, limit)
    {
      hide Sound, OrderedTo, OrderedBelow;
      child := EarlierChild(hole, limit);
      moved := CompareSlots(hole, child);
      if moved {
        SiftDownStep(keys, limit, hole, child);
        Swap(hole, child);
      } else {
        SiftDownDone(keys, limit, hole);
      }
    }

    /** Sifts the item at the root of the first `limit` slots down. */
    method SiftDown(limit: nat)
      requires limit <= |items| && Sane() && OrderedBelow(keys, limit, 0)
      modifies this`items, this`keys, members`heapIndex
      ensures Sane() && |items| == old(|items|) && OrderedTo(keys, limit)
      ensures items[limit..] == old(items[limit..])
    {
      var hole := 0;
      while 2 * hole + 1 < limit
        invariant 0 <= hole && limit <= |items| == old(|items|) && Sane() && OrderedBelow(keys, limit, hole)
        invariant items[limit..] == old(items[limit..])
        decreases limit - hole
      {
        var child, moved := SiftDownOnce(hole, limit);
        if !moved {
          return;
        }
        hole := child;
      }
      SiftDownDone(keys, limit, hole);
    }

    /** `pop_heap`: the root moves to the last slot and the rest is a heap again. */
    method PopHeap()
      requires |items| >= 1 && Sane() && Ordered(keys)
      modifies this`items, this`keys, members`heapIndex
      ensures Sane() && |items| == old(|items|)
      ensures items[|items| - 1] == old(items[0]) && OrderedTo(keys, |items| - 1)
    {
      var last := |items| - 1;
      RootExchanged(keys);
      if last > 0 {
        Swap(0, last);
      }
      SiftDown(last);
      assert items[last] == items[last..][0];
    }

    /** Overwrites an item's time. */
    method SetTime(item: HeapItem, time: Time)
      requires item in members && Indexed(items, members) && Keyed()
      modifies item`time, this`keys
      ensures item.time == time && Keyed() && keys == old(keys)[item.heapIndex := Key(time, item.count)]
    {
      item.time := time;
      keys := keys[item.heapIndex := Key(time, item.count)];
    }

    /** Every item but `item` has an ordinary time. */
    ghost predicate OthersFinite(item: HeapItem)
      reads this`members, members`time
    {
      forall x :: x in members && x != item ==> x.time.At?
    }

    /** Gives an item of any position the smallest key, and so brings it to the root. */
    method HeapRaise(item: HeapItem, ghost was: Key)
      requires Sane() && item in members && OthersFinite(item)
      requires was.time.At? && Ordered(keys[item.heapIndex := was])
      modifies this`items, this`keys, members`heapIndex, item`time
      ensures Sane() && item.time == MinusInfinity && |items| == old(|items|) >= 1
      ensures items[0] == item && Ordered(keys)
    {
      LoweredKey(keys[item.heapIndex := was], item.heapIndex, Key(MinusInfinity, item.count));
      SetTime(item, MinusInfinity);
      assert keys == old(keys)[item.heapIndex := was][item.heapIndex := Key(MinusInfinity, item.count)];
      PushHeap(item.heapIndex);
      if item.heapIndex != 0 {
        RootFiresFirst(keys, item.heapIndex);
      }
    }

    /** Moves an item of any position to the last slot, by giving it the smallest key for the time being. */
    method HeapPop(item: HeapItem, ghost was: Key)
      requires Sane() && item in members && OthersFinite(item)
      requires was.time.At? && Ordered(keys[item.heapIndex := was])
      modifies this`items, this`keys, members`heapIndex, item`time
      ensures Sane() && item.time == old(item.time) && |items| == old(|items|) >= 1
      ensures items[|items| - 1] == item && OrderedTo(keys, |items| - 1)
    {
      var fireTime := item.time;
      HeapRaise(item, was);
      PopHeap();
      SetTime(item, fireTime);
    }

    method RemoveLast(item: HeapItem)
      requires Sane() && |items| >= 1 && items[|items| - 1] == item && OrderedTo(keys, |items| - 1)
      modifies this, item`heapIndex
      ensures members == old(members) - {item} && item.heapIndex == NOT_IN_HEAP
      ensures Sane() && Ordered(keys)
    {
      items := items[..|items| - 1];
      keys := keys[..|keys| - 1];
      members := members - {item};
      item.heapIndex := NOT_IN_HEAP;
    }

    method Append(item: HeapItem)
      requires Sane() && Ordered(keys) && item !in members && Sound(members + {item})
      modifies this, item`heapIndex
      ensures members == old(members) + {item} && |items| == |old(items)| + 1 && items[|items| - 1] == item
      ensures Sane() && OrderedTo(keys, |items| - 1)
    {
      items := items + [item];
      keys := keys + [item.K()];
      members := members + {item};
      item.heapIndex := |items| - 1;
    }

    /** Removes an item of any position. */
    method HeapDelete(item: HeapItem, ghost was: Key)
      requires Sane() && item in members && OthersFinite(item)
      requires was.time.At? && Ordered(keys[item.heapIndex := was])
      modifies this, members`heapIndex, item`time
      ensures members == old(members) - {item} && item.heapIndex == NOT_IN_HEAP && item.time == old(item.time)
      ensures Sane() && Ordered(keys)
    {
      HeapPop(item, was);
      RemoveLast(item);
    }

    /** Repositions an item whose key has become later. */
    method HeapIncreaseKey(item: HeapItem, ghost was: Key)
      requires Sane() && item in members && OthersFinite(item)
      requires was.time.At? && Ordered(keys[item.heapIndex := was])
      modifies this`items, this`keys, members`heapIndex, item`time
      ensures Sane() && Ordered(keys) && item.time == old(item.time)
    {
      HeapPop(item, was);
      LastKeyMovesUp(keys);
      PushHeap(item.heapIndex);
    }

    /** Repositions an item whose key has become earlier. */
    method HeapDecreaseKey(item: HeapItem, ghost was: Key)
      requires Sane() && item in members
      requires Ordered(keys[item.heapIndex := was]) && Before(item.K(), was)
      modifies this`items, this`keys, members`heapIndex
      ensures Sane() && Ordered(keys)
    {
      LoweredKey(keys[item.heapIndex := was], item.heapIndex, item.K());
      assert keys == keys[item.heapIndex := was][item.heapIndex := item.K()];
      PushHeap(item.heapIndex);
    }

    /** Adds an item that is not in the heap. */
    method HeapInsert(item: HeapItem)
      requires Sane() && Ordered(keys) && item !in members && Sound(members + {item})
      modifies this, members`heapIndex, item`heapIndex
      ensures members == old(members) + {item}
      ensures Sane() && Ordered(keys)
    {
      Append(item);
      LastKeyMovesUp(keys);
      PushHeap(item.heapIndex);
    }

    method ParentPropertyHolds(index: nat) returns (holds: bool)
      requires Sane() && index < |items|
      ensures holds <==> (index > 0 ==> Before(keys[Parent(index)], keys[index]))
    {
      if index == 0 {
        return true;
      }
      holds := CompareSlots(index, Parent(index));
    }

    method ChildPropertyHolds(index: nat, child: nat) returns (holds: bool)
      requires Sane() && index < |items| && index != child
      ensures holds <==> (child < |items| ==> Before(keys[index], keys[child]))
    {
      if child >= |items| {
        return true;
      }
      holds := CompareSlots(child, index);
    }

    /** Whether an item in the heap is well placed, given that every other item is. */
    method HasValidHeapPosition(item: HeapItem, ghost was: Key) returns (valid: bool)
      requires Sane() && (item in members <==> item.heapIndex != NOT_IN_HEAP)
      requires item in members ==> Ordered(keys[item.heapIndex := was])
      ensures valid <==> item in members && Ordered(keys)
    {
      if item.heapIndex == NOT_IN_HEAP {
        return false;
      }
      var index := item.heapIndex;
      var parent := ParentPropertyHolds(index);
      var left := ChildPropertyHolds(index, 2 * index + 1);
      var right := ChildPropertyHolds(index, 2 * index + 2);
      valid := parent && left && right;
      ChangedKey(keys, index, was);
    }

    /** Restores the heap after an item's key changed from `was`, whose time is `oldTime`. */
    method UpdateHeapIfNeeded(item: HeapItem, oldTime: Time, ghost was: Key)
      requires Sane() && (item in members <==> item.heapIndex != NOT_IN_HEAP) && Sound(members + {item})
      requires item in members <==> oldTime != UNSCHEDULED
      requires item.time.At? && oldTime.At? && OthersFinite(item)
      requires item.time != oldTime
      requires if item in members then was.time == oldTime && Ordered(keys[item.heapIndex := was]) else Ordered(keys)
      modifies this, members`heapIndex, item`heapIndex, item`time
      ensures Sane() && Ordered(keys) && item.time == old(item.time)
      ensures members == if item.time == UNSCHEDULED then old(members) - {item} else old(members) + {item}
      ensures item !in members ==> item.heapIndex == NOT_IN_HEAP
    {
      if item.time != UNSCHEDULED {
        var valid := HasValidHeapPosition(item, was);
        if valid {
          assert members == members + {item};
          return;
        }
      }
      if oldTime == UNSCHEDULED {
        HeapInsert(item);
      } else if item.time == UNSCHEDULED {
        HeapDelete(item, was);
      } else if Earlier(item.time, oldTime) {
        HeapDecreaseKey(item, was);
        assert members == members + {item};
      } else {
        HeapIncreaseKey(item, was);
        assert members == members + {item};
      }
    }

    method OverwriteKey(item: HeapItem, time: Time, order: nat, ghost count: nat)
      requires Sound(members) && order == Wrapped(count)
      requires forall x :: x in members && x != item ==> Comparable(x.K(), Key(time, count))
      modifies item`time, item`insertionOrder, item`count
      ensures Sound(members + {item}) && Sound(members) && item.K() == Key(time, count)
    {
      hide Wrapped;
      item.time, item.insertionOrder := time, order;
      item.count := count;
    }

    /** Overwrites an item's key. If it is in the heap, only its own slot may then be out of order. */
    method SetKey(item: HeapItem, time: Time, order: nat, ghost count: nat)
      requires Sane() && Ordered(keys) && (item in members <==> item.heapIndex != NOT_IN_HEAP)
      requires order == Wrapped(count)
      requires forall x :: x in members && x != item ==> Comparable(x.K(), Key(time, count))
      modifies this`keys, item`time, item`insertionOrder, item`count
      ensures Sane() && Sound(members + {item}) && item.K() == Key(time, count)
      ensures if item in members then Ordered(keys[item.heapIndex := old(item.K())]) else Ordered(keys)
    {
      hide Ordered, Before, Sound, Wrapped, Comparable;
      OverwriteKey(item, time, order, count);
      if item.heapIndex != NOT_IN_HEAP {
        keys := keys[item.heapIndex := item.K()];
        assert keys[item.heapIndex := old(item.K())] == old(keys);
      }
    }

    /** The item that fires before all others. */
    ghost predicate IsFirst(item: HeapItem)
      reads this`members, members`time, members`count
    {
      item in members && forall x :: x in members && x != item ==> Before(item.K(), x.K())
    }

    lemma RootIsFirst()
      requires Sane() && Ordered(keys) && items != []
      ensures IsFirst(items[0])
    {
      forall x | x in members && x != items[0]
        ensures Before(items[0].K(), x.K())
      {
        RootFiresFirst(keys, x.heapIndex);
      }
    }

    /** Changes an item's time and insertion order and puts it where it then belongs. A step that neither takes it
        away from the front of the heap nor puts it there leaves the same item in front. */
    method Reschedule(item: HeapItem, time: Time, order: nat, ghost count: nat)
      requires Sane() && Ordered(keys) && OthersFinite(item)
      requires item in members <==> item.heapIndex != NOT_IN_HEAP
      requires item in members <==> item.time != UNSCHEDULED
      requires item.time.At? && time.At? && time != item.time && order == Wrapped(count)
      requires forall x :: x in members && x != item ==> Comparable(x.K(), Key(time, count))
      modifies this, members`heapIndex, item
      ensures Sane() && Ordered(keys) && item.K() == Key(time, count)
      ensures members == if time == UNSCHEDULED then old(members) - {item} else old(members) + {item}
      ensures item in members <==> item.heapIndex != NOT_IN_HEAP
      ensures old(item.heapIndex) != 0 && item.heapIndex != 0 && items != [] ==>
                old(items) != [] && items[0] == old(items[0]) && items[0] != item
      ensures old(item.heapIndex) != 0 && item.heapIndex != 0 && items == [] ==> old(items) == []
    {
      if items != [] {
        RootIsFirst();
      }
      var oldTime := item.time;
      ghost var was := item.K();
      SetKey(item, time, order, count);
      UpdateHeapIfNeeded(item, oldTime, was);
      if items != [] {
        RootIsFirst();
      }
    }
  }
}
