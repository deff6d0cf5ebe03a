/** The order in which a thread's timers fire: by time, then by the 32-bit insertion counter. */
module TimerOrder {

  /** A monotonic clock value. `MinusInfinity` is only used while an item is being popped. */
  datatype Time = MinusInfinity | At(seconds: real)

  /** A zero time means that the timer is not scheduled. */
  const UNSCHEDULED := At(0.0)

  predicate Earlier(a: Time, b: Time) {
    match (a, b)
    case (MinusInfinity, At(_)) => true
    case (At(s), At(t)) => s < t
    case (_, MinusInfinity) => false
  }

  /** Number of values of the `unsigned` insertion counter, and the bound its differences are compared with. */
  const WRAP := 0x1_0000_0000
  const HALF := 0x7FFF_FFFF

  /** What the 32-bit counter holds after `count` increments. */
  function Wrapped(count: nat): (order: nat) {
    count % WRAP
  }

  lemma NextWrapped(count: nat)
    ensures Wrapped(count + 1) == (Wrapped(count) + 1) % WRAP
  {
    assert count + 1 == (count / WRAP) * WRAP + (Wrapped(count) + 1);
  }

  /** The comparator handed to the library heap algorithms: `a` fires after `b`. */
  predicate Compare(aTime: Time, aOrder: nat, bTime: Time, bOrder: nat) {
    if bTime != aTime then Earlier(bTime, aTime)
    else (aOrder - bOrder) % WRAP < HALF
  }

  /** The key an item would have if its insertion counter never wrapped. */
  datatype Key = Key(time: Time, count: nat)

  /** First by time, and first-started-first among equal times. */
  predicate Before(a: Key, b: Key) {
    Earlier(a.time, b.time) || (a.time == b.time && a.count < b.count)
  }

  predicate FiresFirst(a: Key, b: Key) {
    Compare(b.time, Wrapped(b.count), a.time, Wrapped(a.count))
  }

  /** Two live items may share a heap: their counters differ, and by less than half the
      counter's range when the counter has to decide between them. */
  predicate Comparable(a: Key, b: Key) {
    && a.count != b.count
    && (a.time == b.time ==> -HALF < a.count - b.count < HALF)
  }

  lemma WrappedDifference(a: nat, b: nat)
    ensures (Wrapped(a) - Wrapped(b)) % WRAP == (a - b) % WRAP
  {
    var q := a / WRAP - b / WRAP;
    assert a - b == q * WRAP + (Wrapped(a) - Wrapped(b));
  }

  lemma NegatedRemainder(d: int)
    ensures (-d) % WRAP == if d % WRAP == 0 then 0 else WRAP - d % WRAP
  {
    var q := d / WRAP;
    assert -d == (-q) * WRAP - d % WRAP;
    if d % WRAP != 0 {
      assert -d == (-q - 1) * WRAP + (WRAP - d % WRAP);
    }
  }

  /** Exactly when the wrapping comparison of two equal-time items answers as the unbounded counters
      would, both ways round: the distance between the counters, reduced modulo 2^32, is between 1 and 2^31 - 2. */
  lemma WrappingOrderIsExact(t: Time, a: nat, b: nat)
    requires a < b
    ensures (FiresFirst(Key(t, a), Key(t, b)) && !FiresFirst(Key(t, b), Key(t, a)))
            <==> 1 <= (b - a) % 0x1_0000_0000 <= 0x7FFF_FFFE
  {
    WrappedDifference(a, b);
    WrappedDifference(b, a);
    NegatedRemainder(b - a);
  }

  /** Just past the window, two equal-time items are unordered; a full wrap apart, each precedes the other. */
  lemma WrappingOrderFailsOutsideWindow(t: Time)
    ensures !FiresFirst(Key(t, 0), Key(t, HALF)) && !FiresFirst(Key(t, HALF), Key(t, 0))
    ensures FiresFirst(Key(t, 0), Key(t, WRAP)) && FiresFirst(Key(t, WRAP), Key(t, 0))
  {
    assert Wrapped(WRAP) == 0;
    assert (HALF - 0) % WRAP == HALF && (0 - HALF) % WRAP == WRAP - HALF;
  }

  /** On comparable items the comparator is the unbounded order. */
  lemma ComparatorIsBefore(a: Key, b: Key)
    requires Comparable(a, b)
    ensures FiresFirst(a, b) <==> Before(a, b)
    ensures Before(a, b) <==> !Before(b, a)
  {
    if a.time == b.time {
      if a.count < b.count {
        WrappingOrderIsExact(a.time, a.count, b.count);
      } else {
        WrappingOrderIsExact(a.time, b.count, a.count);
      }
    }
  }

  ghost predicate PairwiseComparable(keys: set<Key>) {
    forall a, b :: a in keys && b in keys && a != b ==> Comparable(a, b)
  }

  /** So on any set of pairwise comparable items it is a strict total order, even across a counter wrap. */
  lemma ComparatorIsStrictTotalOrder(keys: set<Key>)
    requires PairwiseComparable(keys)
    ensures forall a, b :: a in keys && b in keys && a != b ==> (FiresFirst(a, b) <==> !FiresFirst(b, a))
    ensures forall a, b, c :: a in keys && b in keys && c in keys && a != b && b != c && a != c ==>
              FiresFirst(a, b) && FiresFirst(b, c) ==> FiresFirst(a, c)
    ensures forall a, b :: a in keys && b in keys && a != b && a.time == b.time ==>
      (FiresFirst(a, b) <==> a.count < b.count)
  {
    forall a, b | a in keys && b in keys && a != b
      ensures FiresFirst(a, b) <==> Before(a, b)
      ensures Before(a, b) <==> !Before(b, a)
    {
      ComparatorIsBefore(a, b);
    }
  }
}
