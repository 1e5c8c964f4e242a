/** The list transforms of src/App.tsx: the per-second map over the timer
    list, the entries it notifies, and the filter that deletes by id. */
module TimerList {
  import opened TimerTypes
  import opened Countdown

  /** The text a timer shows on the tick it completes. */
  const DONE_MARKER: string := "완료!"

  /** Milliseconds from now until the timer's respawn instant. */
  function Diff(t: Timer, now: int): (d: int) {
    t.respawnTime - now
  }

  /** The timer reaches its respawn instant on this tick and has not yet been
      marked completed: this is when the notification fires. */
  predicate Due(t: Timer, now: int) {
    Diff(t, now) <= 0 && !t.isCompleted
  }

  /** One timer after a tick at now. */
  function TickEntry(t: Timer, now: int): (u: Timer)
    ensures SameEntry(u, t)
    ensures u.isCompleted <==> t.isCompleted || Diff(t, now) <= 0
    ensures u.remainingTime == DONE_MARKER <==> Due(t, now)
    ensures !Due(t, now) ==> u.remainingTime == CountdownText(Diff(t, now))
  {
    if Due(t, now) then
      t.(remainingTime := DONE_MARKER, isCompleted := true)
    else
      CountdownIsNotMarker(Diff(t, now));
      t.(remainingTime := CountdownText(Diff(t, now)))
  }

  /** No countdown text reads as the completion marker. */
  lemma CountdownIsNotMarker(diff: int)
    ensures CountdownText(diff) != DONE_MARKER
  {
    assert |DONE_MARKER| == 3;
  }

  /** The whole list after a tick at now: the same entries in the same order,
      each ticked on its own. */
  function TickAll(l: seq<Timer>, now: int): (r: seq<Timer>)
    ensures |r| == |l|
    ensures forall i :: 0 <= i < |l| ==> r[i] == TickEntry(l[i], now)
    ensures forall i :: 0 <= i < |l| ==> SameEntry(r[i], l[i])
  {
    if l == [] then []
    else [TickEntry(l[0], now)] + TickAll(l[1..], now)
  }

  /** The timers a tick at now notifies, as they were before the tick, in list order. */
  function Notified(l: seq<Timer>, now: int): (n: seq<Timer>)
    ensures |n| <= |l|
  {
    if l == [] then []
    else (if Due(l[0], now) then [l[0]] else []) + Notified(l[1..], now)
  }

  /** The notified timers are exactly the due timers of the list. */
  lemma {:induction false} NotifiedMembers(l: seq<Timer>, now: int)
    ensures forall t :: t in Notified(l, now) <==> t in l && Due(t, now)
  {
    if l != [] {
      NotifiedMembers(l[1..], now);
      assert l == [l[0]] + l[1..];
    }
  }

  /** Number of completed timers in l. */
  function CountCompleted(l: seq<Timer>): (c: nat) {
    if l == [] then 0
    else (if l[0].isCompleted then 1 else 0) + CountCompleted(l[1..])
  }

  /** A tick notifies exactly as many timers as it turns from running to
      completed. */
  lemma {:induction false} NotifiedAreNewlyCompleted(l: seq<Timer>, now: int)
    ensures CountCompleted(TickAll(l, now)) == CountCompleted(l) + |Notified(l, now)|
  {
    if l != [] {
      NotifiedAreNewlyCompleted(l[1..], now);
      assert TickAll(l, now)[1..] == TickAll(l[1..], now);
    }
  }

  /** Notification follows list order: the timers of a + b are notified as
      those of a, then those of b. */
  lemma {:induction false} NotifiedKeepsOrder(a: seq<Timer>, b: seq<Timer>, now: int)
    ensures Notified(a + b, now) == Notified(a, now) + Notified(b, now)
  {
    if a == [] {
      assert a + b == b;
    } else {
      var head := if Due(a[0], now) then [a[0]] else [];
      calc {
        Notified(a + b, now);
      ==  { assert (a + b)[0] == a[0] && (a + b)[1..] == a[1..] + b; }
        head + Notified(a[1..] + b, now);
      ==  { NotifiedKeepsOrder(a[1..], b, now); }
        head + (Notified(a[1..], now) + Notified(b, now));
      ==
        (head + Notified(a[1..], now)) + Notified(b, now);
      }
    }
  }

  /** A timer notified on one tick is completed afterwards and so is not
      notified on any later tick. */
  lemma NotifiedOnlyOnce(l: seq<Timer>, now: int, later: int, i: int)
    requires 0 <= i < |l| && Due(l[i], now)
    ensures TickAll(l, now)[i].isCompleted
    ensures TickAll(l, now)[i].remainingTime == DONE_MARKER
    ensures !Due(TickAll(l, now)[i], later)
  {
  }

  /** The list after ticks at each instant of nows, in turn. */
  function Run(l: seq<Timer>, nows: seq<int>): (r: seq<Timer>)
    ensures |r| == |l|
    decreases |nows|
  {
    if nows == [] then l else Run(TickAll(l, nows[0]), nows[1..])
  }

  /** How many of the ticks at nows notify the timer at position i. */
  function NotifyCount(l: seq<Timer>, nows: seq<int>, i: int): (c: nat)
    requires 0 <= i < |l|
    decreases |nows|
  {
    if nows == [] then 0
    else (if Due(l[i], nows[0]) then 1 else 0) + NotifyCount(TickAll(l, nows[0]), nows[1..], i)
  }

  /** Some tick of nows happens at or after instant r. */
  predicate Reaches(nows: seq<int>, r: int) {
    exists k :: 0 <= k < |nows| && r <= nows[k]
  }

  lemma ReachesCons(nows: seq<int>, r: int)
    requires nows != []
    ensures Reaches(nows, r) <==> r <= nows[0] || Reaches(nows[1..], r)
  {
    if Reaches(nows, r) && nows[0] < r {
      var k :| 0 <= k < |nows| && r <= nows[k];
      assert nows[1..][k - 1] == nows[k];
    }
    if Reaches(nows[1..], r) {
      var k :| 0 <= k < |nows| - 1 && r <= nows[1..][k];
      assert nows[k + 1] == nows[1..][k];
    }
  }

  /** Over any run of ticks a timer is notified at most once: exactly once if
      it was still running and some tick reached its respawn instant, never
      otherwise; and it ends completed exactly when it started completed or
      was notified. */
  lemma {:induction false} NotifiedAtMostOnce(l: seq<Timer>, nows: seq<int>, i: int)
    requires 0 <= i < |l|
    ensures NotifyCount(l, nows, i) <= 1
    ensures NotifyCount(l, nows, i) == 1 <==> !l[i].isCompleted && Reaches(nows, l[i].respawnTime)
    ensures Run(l, nows)[i].isCompleted <==> l[i].isCompleted || NotifyCount(l, nows, i) == 1
    decreases |nows|
  {
    if nows != [] {
      var next, rest := TickAll(l, nows[0]), nows[1..];
      assert next[i] == TickEntry(l[i], nows[0]);
      assert next[i].respawnTime == l[i].respawnTime;
      NotifiedAtMostOnce(next, rest, i);
      ReachesCons(nows, l[i].respawnTime);
      assert NotifyCount(l, nows, i) == (if Due(l[i], nows[0]) then 1 else 0) + NotifyCount(next, rest, i);
      assert Run(l, nows) == Run(next, rest);
    }
  }

  /** The list without the timers whose id is id (`prev.filter(timer => timer.id !== id)`). */
  function DeleteById(l: seq<Timer>, id: int): (r: seq<Timer>)
    ensures |r| <= |l|
  {
    if l == [] then []
    else (if l[0].id == id then [] else [l[0]]) + DeleteById(l[1..], id)
  }

  /** The result holds exactly the timers of the list whose id differs. */
  lemma {:induction false} DeleteMembers(l: seq<Timer>, id: int)
    ensures forall t :: t in DeleteById(l, id) <==> t in l && t.id != id
  {
    if l != [] {
      DeleteMembers(l[1..], id);
      assert l == [l[0]] + l[1..];
    }
  }

  /** Deleting distributes over concatenation: the kept timers stay in their
      original relative order. */
  lemma {:induction false} DeleteKeepsOrder(a: seq<Timer>, b: seq<Timer>, id: int)
    ensures DeleteById(a + b, id) == DeleteById(a, id) + DeleteById(b, id)
  {
    if a == [] {
      assert a + b == b;
    } else {
      var head := if a[0].id == id then [] else [a[0]];
      calc {
        DeleteById(a + b, id);
      ==  { assert (a + b)[0] == a[0] && (a + b)[1..] == a[1..] + b; }
        head + DeleteById(a[1..] + b, id);
      ==  { DeleteKeepsOrder(a[1..], b, id); }
        head + (DeleteById(a[1..], id) + DeleteById(b, id));
      ==
        (head + DeleteById(a[1..], id)) + DeleteById(b, id);
      }
    }
  }

  /** Deleting an id no timer has leaves the list unchanged. */
  lemma {:induction false} DeleteAbsent(l: seq<Timer>, id: int)
    requires forall i :: 0 <= i < |l| ==> l[i].id != id
    ensures DeleteById(l, id) == l
  {
    if l != [] {
      DeleteAbsent(l[1..], id);
    }
  }

  /** Deleting the same id twice is deleting it once. */
  lemma DeleteTwice(l: seq<Timer>, id: int)
    ensures DeleteById(DeleteById(l, id), id) == DeleteById(l, id)
  {
    var once := DeleteById(l, id);
    DeleteMembers(l, id);
    assert forall i :: 0 <= i < |once| ==> once[i] in once;
    DeleteAbsent(once, id);
  }

  /** Appending a timer with a fresh id and then deleting that id restores the list. */
  lemma AppendThenDelete(l: seq<Timer>, t: Timer)
    requires forall i :: 0 <= i < |l| ==> l[i].id != t.id
    ensures DeleteById(l + [t], t.id) == l
  {
    DeleteKeepsOrder(l, [t], t.id);
    DeleteAbsent(l, t.id);
    assert DeleteById([t], t.id) == [] + DeleteById([], t.id);
  }

  /** Ticking never changes an id, so deleting before or after a tick gives
      the same list. */
  lemma {:induction false} DeleteCommutesWithTick(l: seq<Timer>, id: int, now: int)
    ensures DeleteById(TickAll(l, now), id) == TickAll(DeleteById(l, id), now)
  {
    if l != [] {
      DeleteCommutesWithTick(l[1..], id, now);
      var ticked := TickAll(l, now);
      assert ticked == [TickEntry(l[0], now)] + TickAll(l[1..], now);
      assert ticked[1..] == TickAll(l[1..], now);
      if l[0].id != id {
        assert TickAll(DeleteById(l, id), now)
          == TickAll([l[0]] + DeleteById(l[1..], id), now)
          == [TickEntry(l[0], now)] + TickAll(DeleteById(l[1..], id), now);
      }
    }
  }
}
