/** The sleep queue of devices/timer.c as a sequence of entries: each entry is
    a blocked thread together with its wake_tick. The kernel keeps the list
    sorted with list_insert_ordered and wake_up_cmp, and the tick handler
    drains its due prefix. */
module SleepQueue {

  /** A thread, named by its id. */
  type ThreadId = int

  /** A sleeping thread together with the absolute tick at or after which it
      must be unblocked (the thread's wake_tick field). */
  datatype Sleeper = Sleeper(thread: ThreadId, wakeTick: int)

  /** wake_up_cmp: a strict comparison of wake ticks. Two sleepers with the
      same wake tick never compare less, in either order. */
  predicate WakeUpLess(a: Sleeper, b: Sleeper): (less: bool)
    ensures less ==> a.wakeTick != b.wakeTick
  {
    a.wakeTick < b.wakeTick
  }

  /** wake_up_cmp is a strict weak order, as list_insert_ordered needs:
      irreflexive, asymmetric and transitive, and two sleepers are
      incomparable exactly when their wake ticks are equal. */
  lemma WakeUpLessStrictOrder(a: Sleeper, b: Sleeper, c: Sleeper)
    ensures !WakeUpLess(a, a)
    ensures WakeUpLess(a, b) ==> !WakeUpLess(b, a)
    ensures WakeUpLess(a, b) && WakeUpLess(b, c) ==> WakeUpLess(a, c)
    ensures !WakeUpLess(a, b) && !WakeUpLess(b, a) <==> a.wakeTick == b.wakeTick
  {
  }

  /** The list is ascending by wake tick. */
  predicate Sorted(s: seq<Sleeper>) {
    forall i, j :: 0 <= i < j < |s| ==> s[i].wakeTick <= s[j].wakeTick
  }

  /** No thread appears twice. */
  predicate DistinctThreads(s: seq<Sleeper>) {
    forall i, j :: 0 <= i < j < |s| ==> s[i].thread != s[j].thread
  }

  /** Thread t has an entry in s. */
  predicate Asleep(s: seq<Sleeper>, t: ThreadId) {
    exists i :: 0 <= i < |s| && s[i].thread == t
  }

  /** Where list_insert_ordered puts e: before the first element x with
      WakeUpLess(e, x), or at the end when there is none. */
  function InsertIndex(s: seq<Sleeper>, e: Sleeper): (i: nat)
    ensures i <= |s|
    ensures forall j :: 0 <= j < i ==> !WakeUpLess(e, s[j])
    ensures i < |s| ==> WakeUpLess(e, s[i])
  {
    if s == [] || WakeUpLess(e, s[0]) then 0 else 1 + InsertIndex(s[1..], e)
  }

  /** list_insert_ordered(list, e, wake_up_cmp). */
  function InsertOrdered(s: seq<Sleeper>, e: Sleeper): (r: seq<Sleeper>)
    ensures |r| == |s| + 1
  {
    var i := InsertIndex(s, e);
    s[..i] + [e] + s[i..]
  }

  /** Insertion adds e and removes nothing. */
  lemma InsertOrderedMultiset(s: seq<Sleeper>, e: Sleeper)
    ensures multiset(InsertOrdered(s, e)) == multiset(s) + multiset{e}
  {
    var i := InsertIndex(s, e);
    assert s == s[..i] + s[i..];
  }

  /** The insertion position is the only one where a left-to-right scan that
      stops at the first later-waking entry can stop. */
  lemma InsertIndexIsFirstLater(s: seq<Sleeper>, e: Sleeper, i: nat)
    requires i <= |s|
    requires forall j :: 0 <= j < i ==> !WakeUpLess(e, s[j])
    requires i < |s| ==> WakeUpLess(e, s[i])
    ensures InsertIndex(s, e) == i
  {
  }

  /** Inserting into a sorted list keeps it sorted, places the new entry after
      every entry with a wake tick at most its own (so ties are FIFO) and
      before every later one, and leaves the other entries in their order. */
  lemma InsertOrderedPlacement(s: seq<Sleeper>, e: Sleeper)
    requires Sorted(s)
    ensures var r, i := InsertOrdered(s, e), InsertIndex(s, e);
      && r[i] == e
      && (forall j :: 0 <= j < i ==> r[j] == s[j])
      && (forall j :: i < j < |r| ==> r[j] == s[j - 1])
      && (forall j :: 0 <= j < i ==> r[j].wakeTick <= e.wakeTick)
      && (forall j :: i < j < |r| ==> r[j].wakeTick > e.wakeTick)
      && Sorted(r)
  {
    var r, i := InsertOrdered(s, e), InsertIndex(s, e);
    InsertOrderedSplit(s, e);
    InsertOrderedLater(s, e);
    InsertOrderedSorted(s, e);
  }

  /** Every entry after the new one wakes strictly later. */
  lemma InsertOrderedLater(s: seq<Sleeper>, e: Sleeper)
    requires Sorted(s)
    ensures var r, i := InsertOrdered(s, e), InsertIndex(s, e);
      forall j :: i < j < |r| ==> r[j].wakeTick > e.wakeTick
  {
    var r, i := InsertOrdered(s, e), InsertIndex(s, e);
    InsertOrderedSplit(s, e);
    forall j | i < j < |r|
      ensures r[j].wakeTick > e.wakeTick
    {
      assert s[i].wakeTick <= s[j - 1].wakeTick;
    }
  }

  /** The entries of InsertOrdered(s, e) around the new one are those of s. */
  lemma InsertOrderedSplit(s: seq<Sleeper>, e: Sleeper)
    ensures var r, i := InsertOrdered(s, e), InsertIndex(s, e);
      && r[i] == e
      && (forall j :: 0 <= j < i ==> r[j] == s[j])
      && (forall j :: i < j < |r| ==> r[j] == s[j - 1])
  {
  }

  lemma InsertOrderedSorted(s: seq<Sleeper>, e: Sleeper)
    requires Sorted(s)
    ensures Sorted(InsertOrdered(s, e))
  {
    var r, i := InsertOrdered(s, e), InsertIndex(s, e);
    InsertOrderedSplit(s, e);
    forall a, b | 0 <= a < b < |r|
      ensures r[a].wakeTick <= r[b].wakeTick
    {
      if b < i {
        assert r[a] == s[a] && r[b] == s[b];
      } else if a > i {
        assert r[a] == s[a - 1] && r[b] == s[b - 1];
      } else if a < i && b > i {
        assert r[a] == s[a] && r[b] == s[b - 1];
      } else if a < i {
        assert r[a] == s[a];
      } else {
        assert r[b] == s[b - 1];
        if i < |s| {
          assert s[i].wakeTick <= s[b - 1].wakeTick;
        }
      }
    }
  }

  /** Inserting a thread that is not asleep keeps thread ids distinct. */
  lemma InsertOrderedDistinct(s: seq<Sleeper>, e: Sleeper)
    requires DistinctThreads(s) && !Asleep(s, e.thread)
    ensures DistinctThreads(InsertOrdered(s, e))
    ensures forall t :: Asleep(InsertOrdered(s, e), t) <==> t == e.thread || Asleep(s, t)
  {
    var r, i := InsertOrdered(s, e), InsertIndex(s, e);
    forall t | Asleep(r, t)
      ensures t == e.thread || Asleep(s, t)
    {
      var j :| 0 <= j < |r| && r[j].thread == t;
      if j < i {
        assert r[j] == s[j];
      } else if j > i {
        assert r[j] == s[j - 1];
      }
    }
    forall t | Asleep(s, t)
      ensures Asleep(r, t)
    {
      var j :| 0 <= j < |s| && s[j].thread == t;
      if j < i {
        assert r[j] == s[j];
      } else {
        assert r[j + 1] == s[j];
      }
    }
    assert r[i] == e;
  }

  /** Inserting a sleeper that is not asleep and wakes after now into a
      sorted queue of distinct sleepers that all wake after now keeps all
      three properties, and the sleeper is then asleep. */
  lemma InsertOrderedKeepsQueue(s: seq<Sleeper>, e: Sleeper, now: int)
    requires Sorted(s) && DistinctThreads(s) && !Asleep(s, e.thread)
    requires forall j :: 0 <= j < |s| ==> s[j].wakeTick > now
    requires e.wakeTick > now
    ensures var r := InsertOrdered(s, e);
      && Sorted(r) && DistinctThreads(r) && Asleep(r, e.thread)
      && (forall j :: 0 <= j < |r| ==> r[j].wakeTick > now)
  {
    InsertOrderedSorted(s, e);
    InsertOrderedDistinct(s, e);
    InsertOrderedAfter(s, e, now);
  }

  /** Inserting an entry later than now into a list of entries later than
      now gives a list of entries later than now. */
  lemma InsertOrderedAfter(s: seq<Sleeper>, e: Sleeper, now: int)
    requires forall j :: 0 <= j < |s| ==> s[j].wakeTick > now
    requires e.wakeTick > now
    ensures forall j :: 0 <= j < |InsertOrdered(s, e)| ==> InsertOrdered(s, e)[j].wakeTick > now
  {
    var r, i := InsertOrdered(s, e), InsertIndex(s, e);
    forall j | 0 <= j < |r|
      ensures r[j].wakeTick > now
    {
      if j < i {
        assert r[j] == s[j];
      } else if j > i {
        assert r[j] == s[j - 1];
      }
    }
  }

  /** Two sleepers with equal wake ticks entered one after the other are
      unblocked in the order they entered: the second goes after the first. */
  lemma EqualWakeTicksStayFifo(s: seq<Sleeper>, a: Sleeper, b: Sleeper)
    requires Sorted(s) && a.wakeTick == b.wakeTick
    ensures var s1 := InsertOrdered(s, a);
      var r, ia, ib := InsertOrdered(s1, b), InsertIndex(s, a), InsertIndex(s1, b);
      ia < ib && r[ia] == a && r[ib] == b
  {
    var s1 := InsertOrdered(s, a);
    var ia := InsertIndex(s, a);
    InsertOrderedPlacement(s, a);
    InsertOrderedPlacement(s1, b);
    assert s1[ia] == a && !WakeUpLess(b, s1[ia]);
  }

  /** Length of the longest prefix of s that is due at tick now: the entries
      the tick handler unblocks before it meets one that is not yet due. */
  function DueCount(s: seq<Sleeper>, now: int): (k: nat)
    ensures k <= |s|
    ensures forall j :: 0 <= j < k ==> s[j].wakeTick <= now
    ensures k < |s| ==> s[k].wakeTick > now
  {
    if s != [] && s[0].wakeTick <= now then 1 + DueCount(s[1..], now) else 0
  }

  /** A scan that stops at the first entry not yet due stops at DueCount. */
  lemma DueCountIsFirstNotDue(s: seq<Sleeper>, now: int, k: nat)
    requires k <= |s|
    requires forall j :: 0 <= j < k ==> s[j].wakeTick <= now
    requires k < |s| ==> s[k].wakeTick > now
    ensures DueCount(s, now) == k
  {
  }

  /** On a sorted list the due prefix holds exactly the due entries: an entry
      is drained if and only if its wake tick is at most now. */
  lemma DueCountExact(s: seq<Sleeper>, now: int)
    requires Sorted(s)
    ensures forall j :: 0 <= j < |s| ==> (s[j].wakeTick <= now <==> j < DueCount(s, now))
    ensures Sorted(s[DueCount(s, now)..])
  {
    var k := DueCount(s, now);
    forall j | 0 <= j < |s| && j >= k
      ensures s[j].wakeTick > now
    {
      assert s[k].wakeTick <= s[j].wakeTick;
    }
  }

  /** What is left after draining the due prefix of a sorted queue of
      distinct sleepers is again sorted and distinct, and nothing in it is
      due. */
  lemma DrainRest(s: seq<Sleeper>, now: int)
    requires Sorted(s) && DistinctThreads(s)
    ensures var rest := s[DueCount(s, now)..];
      && Sorted(rest) && DistinctThreads(rest)
      && (forall j :: 0 <= j < |rest| ==> rest[j].wakeTick > now)
  {
    var k := DueCount(s, now);
    DueCountExact(s, now);
    var rest := s[k..];
    forall a, b | 0 <= a < b < |rest|
      ensures rest[a].thread != rest[b].thread
    {
      assert rest[a] == s[k + a] && rest[b] == s[k + b];
    }
    forall j | 0 <= j < |rest|
      ensures rest[j].wakeTick > now
    {
      assert rest[j] == s[k + j];
    }
  }

  /** When every sleeper wakes after now - 1, the drained prefix at now
      holds exactly sleepers whose wake tick is now. */
  lemma DrainedDueNow(s: seq<Sleeper>, now: int)
    requires forall j :: 0 <= j < |s| ==> s[j].wakeTick > now - 1
    ensures forall j :: 0 <= j < DueCount(s, now) ==> s[j].wakeTick == now
  {
  }
}
