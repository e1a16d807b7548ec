/** The presentation queue: surfaces wait for their time, and one surface at a time is visible on the target. */
module PresentationQueue {
  const NEVER: nat := 0xFFFF_FFFF_FFFF_FFFF
  type Time = t: nat | t <= NEVER

  datatype Status = Idle | Queued | Visible

  class Surface {
    var status: Status
    var earliest: Time
    var firstShown: Time

    constructor ()
      ensures status == Idle && earliest == 0
    {
      status, earliest, firstShown := Idle, 0, 0;
    }
  }

  /** One picture put on the display. */
  datatype Show = Show(surf: Surface, vsync: bool)

  /** The status of a surface after the surfaces `shown` have been displayed in turn. */
  function StatusAfter(s: Surface, was: Status, shown: seq<Surface>): (r: Status) {
    if shown == [] then was
    else if s == shown[|shown| - 1] then Visible
    else if s in shown || was == Visible then Idle
    else was
  }

  /** What is kept of a surface besides its time in the queue. */
  datatype Look = Look(status: Status, firstShown: Time)

  /** How surfaces that looked like `was` look once `shown` have been displayed in turn at `now`. */
  ghost predicate LooksAre(all: set<Surface>, was: map<Surface, Look>, shown: seq<Surface>, now: Time)
    reads all`status, all`firstShown
  {
    all <= was.Keys && forall s :: s in all ==>
      && s.status == StatusAfter(s, was[s].status, shown)
      && s.firstShown == if s in shown then now else was[s].firstShown
  }

  class Target {
    var dispSurf: Surface?
    ghost var log: seq<Show>

    constructor ()
      ensures dispSurf == null && log == []
    {
      dispSurf, log := null, [];
    }

    /** Only the displayed surface is visible. */
    ghost predicate OnlyOneVisible(all: set<Surface>)
      reads this, all`status
    {
      && (dispSurf != null ==> dispSurf in all)
      && forall s :: s in all && s.status == Visible ==> s == dispSurf
    }

    method ToIdleState()
      modifies this`dispSurf, if dispSurf == null then {} else {dispSurf}`status
      ensures old(dispSurf) != null ==>
                old(dispSurf).status == if old(dispSurf.status) == Visible then Idle else old(dispSurf.status)
      ensures dispSurf == if old(dispSurf) != null && old(dispSurf.status) == Visible then null else old(dispSurf)
    {
      var surf := dispSurf;
      if surf == null {
        return;
      }
      if surf.status == Visible {
        surf.status := Idle;
        dispSurf := null;
      }
    }

    /** Puts a surface on the display; the one displayed before becomes idle, unless it is queued again. */
    method Display(surf: Surface, vsync: bool, now: Time, ghost all: set<Surface>, ghost was: map<Surface, Look>,
                   ghost shown: seq<Surface>)
      requires surf in all && surf !in shown && OnlyOneVisible(all) && LooksAre(all, was, shown, now)
      modifies this, all`status, surf`firstShown
      ensures OnlyOneVisible(all) && LooksAre(all, was, shown + [surf], now)
      ensures dispSurf == surf && surf.firstShown == now && log == old(log) + [Show(surf, vsync)]
    {
      log := log + [Show(surf, vsync)];
      surf.firstShown := now;
      surf.status := Visible;
      if dispSurf != surf {
        ToIdleState();
        dispSurf := surf;
      }
    }
  }

  /** The surfaces whose time has come, in order. */
  ghost function Due(list: seq<Surface>, time: Time): (r: seq<Surface>)
    reads list`earliest
  {
    if list == [] then []
    else
      var n := |list| - 1;
      assert list == list[..n] + [list[n]];
      Due(list[..n], time) + if list[n].earliest <= time then [list[n]] else []
  }

  /** The surfaces that still wait, in order. */
  ghost function Waiting(list: seq<Surface>, time: Time): (r: seq<Surface>)
    reads list`earliest
  {
    if list == [] then []
    else
      var n := |list| - 1;
      assert list == list[..n] + [list[n]];
      Waiting(list[..n], time) + if list[n].earliest > time then [list[n]] else []
  }

  lemma {:induction false} PartsAre(list: seq<Surface>, time: Time, s: Surface)
    ensures s in Due(list, time) <==> s in list && s.earliest <= time
    ensures s in Waiting(list, time) <==> s in list && s.earliest > time
  {
    if list == [] {
    } else {
      var n := |list| - 1;
      assert list == list[..n] + [list[n]];
      PartsAre(list[..n], time, s);
    }
  }

  /** The least time of the surfaces, or never. */
  ghost function NextWake(list: seq<Surface>): (t: Time)
    reads list`earliest
  {
    if list == [] then NEVER
    else
      var n := |list| - 1;
      assert list == list[..n] + [list[n]];
      var t := NextWake(list[..n]);
      if list[n].earliest < t then list[n].earliest else t
  }

  /** The thread wakes by itself no later than any surface's time, and at the time of one of them if at all. */
  lemma {:induction false} NextWakeIsLeast(list: seq<Surface>)
    ensures forall i :: 0 <= i < |list| ==> NextWake(list) <= list[i].earliest
    ensures NextWake(list) == NEVER || exists i :: 0 <= i < |list| && list[i].earliest == NextWake(list)
  {
    if list == [] {
    } else {
      var n := |list| - 1;
      NextWakeIsLeast(list[..n]);
      if list[n].earliest < NextWake(list[..n]) {
        assert list[n].earliest == NextWake(list);
      } else if NextWake(list) != NEVER {
        var i :| 0 <= i < n && list[..n][i].earliest == NextWake(list[..n]);
        assert list[i].earliest == NextWake(list);
      }
    }
  }

  /** The timer stays off exactly when no surface has a time below NEVER, not only when none waits. */
  lemma NoTimer(list: seq<Surface>)
    ensures NextWake(list) == NEVER <==> forall i :: 0 <= i < |list| ==> list[i].earliest == NEVER
  {
    NextWakeIsLeast(list);
  }

  /** A surface queued for the last moment there is waits with the timer off. */
  lemma TimerOffThoughWaiting(s: Surface)
    requires s.earliest == NEVER
    ensures NextWake([s]) == NEVER && Waiting([s], 0) == [s]
  {
    assert [s][..0] == [];
  }

  ghost predicate Unique(list: seq<Surface>) {
    forall i, j :: 0 <= i < j < |list| ==> list[i] != list[j]
  }

  /** The list without the first occurrence of `s`. */
  function Without(list: seq<Surface>, s: Surface): (r: seq<Surface>) {
    if list == [] then []
    else if list[0] == s then list[1..]
    else [list[0]] + Without(list[1..], s)
  }

  lemma {:induction false} WithoutMiddle(a: seq<Surface>, s: Surface, b: seq<Surface>)
    requires s !in a
    ensures Without(a + [s] + b, s) == a + b
  {
    if a == [] {
      assert a + [s] + b == [s] + b && a + b == b;
    } else {
      assert a + [s] + b == [a[0]] + (a[1..] + [s] + b);
      WithoutMiddle(a[1..], s, b);
      assert a + b == [a[0]] + (a[1..] + b);
    }
  }

  function Count(list: seq<Surface>, s: Surface): (n: nat) {
    if list == [] then 0
    else Count(list[..|list| - 1], s) + if list[|list| - 1] == s then 1 else 0
  }

  /** How often a surface has been shown. */
  function TimesShown(log: seq<Show>, s: Surface): (n: nat) {
    if log == [] then 0
    else TimesShown(log[..|log| - 1], s) + if log[|log| - 1].surf == s then 1 else 0
  }

  lemma CountMore(list: seq<Surface>, e: Surface, s: Surface)
    ensures Count(list + [e], s) == Count(list, s) + if e == s then 1 else 0
  {
    assert (list + [e])[..|list|] == list;
  }

  lemma TimesShownMore(log: seq<Show>, e: Show, s: Surface)
    ensures TimesShown(log + [e], s) == TimesShown(log, s) + if e.surf == s then 1 else 0
  {
    assert (log + [e])[..|log|] == log;
  }

  lemma {:induction false} SplitInTwo(list: seq<Surface>, time: Time, s: Surface)
    ensures Count(list, s) == Count(Due(list, time), s) + Count(Waiting(list, time), s)
  {
    if list == [] {
    } else {
      var n := |list| - 1;
      var due, waiting := Due(list[..n], time), Waiting(list[..n], time);
      SplitInTwo(list[..n], time, s);
      CountMore(due, list[n], s);
      CountMore(waiting, list[n], s);
      assert due + [] == due && waiting + [] == waiting;
    }
  }

  /** Every accepted request has been shown or is still in the list: none is lost, none is shown twice. */
  ghost predicate Conserved(accepted: seq<Surface>, log: seq<Show>, list: seq<Surface>, all: set<Surface>) {
    forall s :: s in all ==> Count(accepted, s) == TimesShown(log, s) + Count(list, s)
  }

  lemma ConservedShown(accepted: seq<Surface>, log: seq<Show>, list: seq<Surface>, all: set<Surface>, e: Show)
    requires Conserved(accepted, log, list, all)
    ensures Conserved(accepted + [e.surf], log + [e], list, all)
  {
    forall s | s in all ensures Count(accepted + [e.surf], s) == TimesShown(log + [e], s) + Count(list, s) {
      CountMore(accepted, e.surf, s);
      TimesShownMore(log, e, s);
    }
  }

  lemma ConservedQueued(accepted: seq<Surface>, log: seq<Show>, list: seq<Surface>, all: set<Surface>, e: Surface)
    requires Conserved(accepted, log, list, all)
    ensures Conserved(accepted + [e], log, list + [e], all)
  {
    forall s | s in all ensures Count(accepted + [e], s) == TimesShown(log, s) + Count(list + [e], s) {
      CountMore(accepted, e, s);
      CountMore(list, e, s);
    }
  }

  lemma UniqueMore(list: seq<Surface>, s: Surface)
    requires Unique(list) && s !in list
    ensures Unique(list + [s])
  {
  }

  lemma {:induction false} PartsUnique(list: seq<Surface>, time: Time)
    requires Unique(list)
    ensures Unique(Due(list, time)) && Unique(Waiting(list, time))
  {
    if list == [] {
    } else {
      var n := |list| - 1;
      PartsUnique(list[..n], time);
      assert list[n] !in list[..n];
      var due, waiting := Due(list[..n], time), Waiting(list[..n], time);
      PartsAre(list[..n], time, list[n]);
      UniqueMore(due, list[n]);
      UniqueMore(waiting, list[n]);
      assert due + [] == due && waiting + [] == waiting;
    }
  }

  /** The shows of some surfaces in turn: only the last one waits for the vertical blank, if at all. */
  function Shows(surfaces: seq<Surface>, vsyncLast: bool): (r: seq<Show>)
    ensures |r| == |surfaces|
    ensures forall i :: 0 <= i < |r| ==> r[i] == Show(surfaces[i], vsyncLast && i == |r| - 1)
  {
    seq(|surfaces|, i requires 0 <= i < |surfaces| => Show(surfaces[i], vsyncLast && i == |surfaces| - 1))
  }

  lemma {:induction false} TimesShownAll(log: seq<Show>, shown: seq<Surface>, vsyncLast: bool, s: Surface)
    ensures TimesShown(log + Shows(shown, vsyncLast), s) == TimesShown(log, s) + Count(shown, s)
  {
    if shown == [] {
      assert log + Shows(shown, vsyncLast) == log;
    } else {
      var n := |shown| - 1;
      TimesShownAll(log, shown[..n], false, s);
      assert log + Shows(shown, vsyncLast) == log + Shows(shown[..n], false) + [Show(shown[n], vsyncLast)];
      TimesShownMore(log + Shows(shown[..n], false), Show(shown[n], vsyncLast), s);
    }
  }

  /** A queue and its display thread, between two of the thread's waits. */
  class Queue {
    const target: Target
    const threaded: bool
    var surfList: seq<Surface>
    var armed: Time         // when the thread wakes by itself; NEVER: only when signalled
    var signalled: bool     // the thread has been signalled and is about to wake
    ghost const all: set<Surface>
    ghost var accepted: seq<Surface>   // the requests accepted so far

    /** A surface is queued exactly when it is in the list, and the list holds it once. */
    ghost predicate Listed()
      reads this`surfList, all`status
    {
      && Unique(surfList)
      && (forall s :: s in surfList ==> s in all)
      && forall s :: s in all ==> (s.status == Queued <==> s in surfList)
    }

    ghost predicate Valid()
      reads this, target, all`status, all`earliest
    {
      && Listed() && target.OnlyOneVisible(all)
      && (!signalled ==> armed == NextWake(surfList))
      && Conserved(accepted, target.log, surfList, all)
    }

    constructor (t: Target, isThreaded: bool, ghost surfaces: set<Surface>)
      requires t.dispSurf == null && t.log == [] && forall s :: s in surfaces ==> s.status == Idle
      ensures Valid() && target == t && threaded == isThreaded && all == surfaces && surfList == []
    {
      target, threaded, all := t, isThreaded, surfaces;
      surfList, armed, signalled, accepted := [], NEVER, false, [];
    }

    /** Displays a surface at once. */
    method ShowNow(surf: Surface, now: Time)
      requires Valid() && surf in all && surf.status != Queued
      modifies this`accepted, target, all`status, all`firstShown
      ensures Valid() && surf.status == Visible && target.dispSurf == surf
      ensures forall s :: s in all ==> s.firstShown == if s == surf then now else old(s.firstShown)
      ensures accepted == old(accepted) + [surf] && target.log == old(target.log) + [Show(surf, true)]
    {
      hide NextWake, Conserved, Unique, Count;
      ghost var was := map s | s in all :: Look(s.status, s.firstShown);
      assert surf !in surfList;
      target.Display(surf, true, now, all, was, []);
      assert [] + [surf] == [surf];
      ConservedShown(accepted, old(target.log), surfList, all, Show(surf, true));
      accepted := accepted + [surf];
    }

    /** Puts a surface at the end of the list and signals the thread. */
    method Enqueue(surf: Surface, time: Time)
      requires Valid() && surf in all && surf.status != Queued
      modifies this`accepted, this`surfList, this`signalled, surf`status, surf`earliest
      ensures Valid() && surf.status == Queued && surf.earliest == time && surfList == old(surfList) + [surf]
              && signalled
      ensures accepted == old(accepted) + [surf]
    {
      hide NextWake, Conserved, Unique, Count;
      var list := surfList + [surf];
      UniqueMore(surfList, surf);
      ConservedQueued(accepted, target.log, surfList, all, surf);
      assert forall s :: s in list <==> s in surfList || s == surf;
      surf.status := Queued;
      surf.earliest := time;
      surfList := list;
      signalled := true;
      accepted := accepted + [surf];
    }

    /** A request to display a surface, from `time` on. */
    method Request(surf: Surface, time: Time, now: Time) returns (ok: bool)
      requires Valid() && surf in all
      modifies this`accepted, this`surfList, this`signalled, target, all`status, all`firstShown, surf`earliest
      ensures Valid() && ok == (old(surf.status) != Queued)
      ensures accepted == if ok then old(accepted) + [surf] else old(accepted)
      ensures var queued := ok && time != 0 && threaded;
              && surfList == (if queued then old(surfList) + [surf] else old(surfList))
              && (queued ==> surf.status == Queued && surf.earliest == time && signalled)
              && target.log == if ok && !queued then old(target.log) + [Show(surf, true)] else old(target.log)
      ensures signalled == (old(signalled) || (ok && time != 0 && threaded))
      ensures !(ok && time != 0 && threaded) ==> surf.earliest == old(surf.earliest)
      ensures ok && (time == 0 || !threaded) ==> surf.status == Visible && target.dispSurf == surf
      ensures forall s :: s in all ==>
                s.firstShown == if s == surf && ok && (time == 0 || !threaded) then now else old(s.firstShown)
    {
      hide NextWake, Conserved, Unique, Count;
      ok := surf.status != Queued;
      if ok {
        if time == 0 || !threaded {
          ShowNow(surf, now);
        } else {
          Enqueue(surf, time);
        }
      }
    }

    /** In front of entry `i` of the list `entries`, the thread's pass has taken the due ones off. */
    ghost predicate Scanned(entries: seq<Surface>, i: nat, time: Time, nextWake: Time)
      reads this`surfList, entries`earliest
    {
      && i <= |entries| && Unique(entries)
      && surfList == Waiting(entries[..i], time) + entries[i..]
      && nextWake == NextAfter(entries[..i], time)
    }

    /** The pass has displayed `shown`, one after the other, none of them waiting for the vertical blank. */
    ghost predicate HasShown(shown: seq<Surface>, was: map<Surface, Look>, now: Time, log: seq<Show>)
      reads target, all`status, all`firstShown
    {
      target.OnlyOneVisible(all) && LooksAre(all, was, shown, now) && target.log == log + Shows(shown, false)
    }

    method TakeOff(surf: Surface, ghost entries: seq<Surface>, ghost i: nat, ghost time: Time, ghost nextWake: Time)
      requires Scanned(entries, i, time, nextWake) && i < |entries| && surf == entries[i] && surf.earliest <= time
      modifies this`surfList
      ensures Scanned(entries, i + 1, time, nextWake)
    {
      OneMore(entries, i, time);
      PartsAre(entries[..i], time, surf);
      ghost var waiting := Waiting(entries[..i], time);
      assert surfList == waiting + [surf] + entries[i + 1..];
      WithoutMiddle(waiting, surf, entries[i + 1..]);
      surfList := Without(surfList, surf);
      assert waiting + [] == waiting;
    }

    method ShowPending(pending: Surface, now: Time, ghost shown: seq<Surface>, ghost was: map<Surface, Look>,
                       ghost log: seq<Show>)
      requires HasShown(shown, was, now, log) && pending in all && pending !in shown
      modifies target, all`status, all`firstShown
      ensures HasShown(shown + [pending], was, now, log)
    {
      target.Display(pending, false, now, all, was, shown);
      assert Shows(shown + [pending], false) == Shows(shown, false) + [Show(pending, false)];
    }

    /** The pass over the list up to entry `i`: the due entries are shown, but for the last one, which is pending. */
    ghost predicate Passing(entries: seq<Surface>, i: nat, time: Time, nextWake: Time, pending: Surface?,
                            shown: seq<Surface>, was: map<Surface, Look>, now: Time, log: seq<Show>)
      reads this`surfList, target, all`status, all`firstShown, entries`earliest
    {
      && Scanned(entries, i, time, nextWake) && HasShown(shown, was, now, log)
      && Due(entries[..i], time) == (if pending == null then shown else shown + [pending])
      && (pending == null ==> shown == [])
      && forall s :: s in entries ==> s in was && was[s].status == Queued && s in all
    }

    lemma EntryIsQueued(entries: seq<Surface>, i: nat, time: Time, nextWake: Time, pending: Surface?,
                        shown: seq<Surface>, was: map<Surface, Look>, now: Time, log: seq<Show>)
      requires Passing(entries, i, time, nextWake, pending, shown, was, now, log) && i < |entries|
      ensures entries[i].status == Queued
      ensures pending != null ==> pending in all && pending !in shown
    {
      hide Due, Waiting, NextAfter;
      var due := Due(entries[..i], time);
      OneMore(entries, i, time);
      PartsUnique(entries[..i], time);
      PartsAre(entries[..i], time, entries[i]);
      assert entries[i] !in shown by {
        assert forall s :: s in shown ==> s in due;
      }
      if pending != null {
        PendingIsNew(entries[..i], time, shown, pending);
      }
    }

    lemma KeepWaiting(entries: seq<Surface>, i: nat, time: Time, nextWake: Time, nextWake': Time, pending: Surface?,
                      shown: seq<Surface>, was: map<Surface, Look>, now: Time, log: seq<Show>)
      requires Passing(entries, i, time, nextWake, pending, shown, was, now, log) && i < |entries|
      requires entries[i].earliest > time
      requires nextWake' == if entries[i].earliest < nextWake then entries[i].earliest else nextWake
      ensures Passing(entries, i + 1, time, nextWake', pending, shown, was, now, log)
    {
      hide Due, Waiting, NextAfter, Unique, HasShown;
      OneMore(entries, i, time);
      var waiting, due := Waiting(entries[..i], time), Due(entries[..i], time);
      assert waiting + entries[i..] == waiting + [entries[i]] + entries[i + 1..];
      assert due + [] == due;
    }

    method TakeDue(surf: Surface, time: Time, ghost nextWake: Time, pending: Surface?, now: Time,
                   ghost entries: seq<Surface>, ghost i: nat, ghost shown: seq<Surface>,
                   ghost was: map<Surface, Look>, ghost log: seq<Show>)
      returns (ghost shown': seq<Surface>)
      requires Passing(entries, i, time, nextWake, pending, shown, was, now, log) && i < |entries|
      requires surf == entries[i] && surf.earliest <= time
      modifies this`surfList, target, all`status, all`firstShown
      ensures Passing(entries, i + 1, time, nextWake, surf, shown', was, now, log)
    {
      hide Due, Waiting, NextAfter, Unique, HasShown, LooksAre;
      EntryIsQueued(entries, i, time, nextWake, pending, shown, was, now, log);
      OneMore(entries, i, time);
      TakeOff(surf, entries, i, time, nextWake);
      shown' := shown;
      if pending != null {
        ShowPending(pending, now, shown, was, log);
        shown' := shown + [pending];
      }
    }

    /** One entry of the pass. */
    method ScanEntry(surf: Surface, time: Time, nextWake: Time, pending: Surface?, now: Time,
                     ghost entries: seq<Surface>, ghost i: nat, ghost shown: seq<Surface>,
                     ghost was: map<Surface, Look>, ghost log: seq<Show>)
      returns (nextWake': Time, pending': Surface?, ghost shown': seq<Surface>)
      requires Passing(entries, i, time, nextWake, pending, shown, was, now, log) && i < |entries| && surf == entries[i]
      modifies this`surfList, target, all`status, all`firstShown
      ensures Passing(entries, i + 1, time, nextWake', pending', shown', was, now, log)
    {
      nextWake', pending', shown' := nextWake, pending, shown;
      EntryIsQueued(entries, i, time, nextWake, pending, shown, was, now, log);
      if surf.status == Queued {
        if surf.earliest > time {
          if surf.earliest < nextWake {
            nextWake' := surf.earliest;
          }
          KeepWaiting(entries, i, time, nextWake, nextWake', pending, shown, was, now, log);
        } else {
          shown' := TakeDue(surf, time, nextWake, pending, now, entries, i, shown, was, log);
          pending' := surf;
        }
      }
    }

    /** The statuses once a pass has displayed all due surfaces: exactly those that still wait are queued. */
    lemma PassKeepsList(entries: seq<Surface>, time: Time, was: map<Surface, Look>, now: Time, due: seq<Surface>)
      requires Unique(entries) && (forall s :: s in entries ==> s in all) && LooksAre(all, was, due, now)
      requires forall s :: s in all ==> (was[s].status == Queued <==> s in entries)
      requires due == Due(entries, time) && surfList == Waiting(entries, time)
      ensures Listed()
    {
      PartsUnique(entries, time);
      forall s | s in surfList ensures s in all {
        PartsAre(entries, time, s);
      }
      forall s | s in all ensures s.status == Queued <==> s in surfList {
        PartsAre(entries, time, s);
      }
    }

    /** What the loop has done once it is through. */
    lemma ScanDone(entries: seq<Surface>, n: nat, time: Time, nextWake: Time, pending: Surface?, shown: seq<Surface>,
                   was: map<Surface, Look>, now: Time, log: seq<Show>)
      requires Passing(entries, n, time, nextWake, pending, shown, was, now, log) && n == |entries|
      ensures surfList == Waiting(entries, time) && nextWake == NextWake(surfList) && HasShown(shown, was, now, log)
      ensures Due(entries, time) == (if pending == null then [] else shown + [pending])
      ensures (pending == null ==> shown == []) && (pending != null ==> pending in all && pending !in shown)
    {
      assert entries[..n] == entries && Waiting(entries, time) + entries[n..] == Waiting(entries, time);
      NextAfterIs(entries, time);
      if pending != null {
        PendingIsNew(entries, time, shown, pending);
      }
    }

    lemma ScanStart(entries: seq<Surface>, time: Time, was: map<Surface, Look>, now: Time, log: seq<Show>)
      requires Listed() && target.OnlyOneVisible(all) && LooksAre(all, was, [], now)
      requires entries == surfList && log == target.log
      ensures Passing(entries, 0, time, NEVER, null, [], was, now, log)
    {
      assert entries[..0] == [] && entries[0..] == entries && log + Shows([], false) == log;
    }

    /** The loop of the pass. */
    method ScanAll(entries: seq<Surface>, time: Time, now: Time, ghost was: map<Surface, Look>, ghost log: seq<Show>)
      returns (nextWake: Time, pending: Surface?, ghost shown: seq<Surface>)
      requires Passing(entries, 0, time, NEVER, null, [], was, now, log)
      modifies this`surfList, target, all`status, all`firstShown
      ensures Passing(entries, |entries|, time, nextWake, pending, shown, was, now, log)
      ensures Due(entries, time) == old(Due(entries, time)) && Waiting(entries, time) == old(Waiting(entries, time))
    {
      pending, shown, nextWake := null, [], NEVER;
      for i := 0 to |entries|
        invariant Passing(entries, i, time, nextWake, pending, shown, was, now, log)
      {
        nextWake, pending, shown := ScanEntry(entries[i], time, nextWake, pending, now, entries, i, shown, was, log);
      }
    }

    method Scan(time: Time, now: Time, ghost was: map<Surface, Look>)
      returns (nextWake: Time, pending: Surface?, ghost shown: seq<Surface>)
      requires Listed() && target.OnlyOneVisible(all) && LooksAre(all, was, [], now)
      modifies this`surfList, target, all`status, all`firstShown
      ensures surfList == old(Waiting(surfList, time)) && nextWake == NextWake(surfList)
      ensures HasShown(shown, was, now, old(target.log))
      ensures old(Due(surfList, time)) == (if pending == null then [] else shown + [pending])
      ensures (pending == null ==> shown == []) && (pending != null ==> pending in all && pending !in shown)
    {
      ghost var entries, log := surfList, target.log;
      ScanStart(entries, time, was, now, log);
      nextWake, pending, shown := ScanAll(surfList, time, now, was, log);
      ScanDone(entries, |entries|, time, nextWake, pending, shown, was, now, log);
    }

    /** After the loop the last due surface is displayed. */
    method ShowLast(pending: Surface?, now: Time, ghost shown: seq<Surface>, ghost was: map<Surface, Look>,
                    ghost log: seq<Show>, ghost due: seq<Surface>)
      requires HasShown(shown, was, now, log) && due == (if pending == null then [] else shown + [pending])
      requires (pending == null ==> shown == []) && (pending != null ==> pending in all && pending !in shown)
      modifies target, all`status, all`firstShown
      ensures target.OnlyOneVisible(all) && LooksAre(all, was, due, now) && target.log == log + Shows(due, true)
    {
      if pending != null {
        target.Display(pending, true, now, all, was, shown);
        assert Shows(due, true) == Shows(shown, false) + [Show(pending, true)];
      } else {
        assert Shows(due, true) == Shows(shown, false);
      }
    }

    /** Before the pass exactly the listed surfaces are queued. */
    lemma WereQueued(was: map<Surface, Look>, now: Time)
      requires Listed() && LooksAre(all, was, [], now)
      ensures forall s :: s in all ==>
                s in was && (was[s].status == Queued <==> s in surfList) && was[s].firstShown == s.firstShown
    {
    }

    /** One pass of the thread at the given time. */
    method Pass(time: Time, now: Time, ghost was: map<Surface, Look>) returns (nextWake: Time)
      requires Listed() && target.OnlyOneVisible(all) && LooksAre(all, was, [], now)
      modifies this`surfList, target, all`status, all`firstShown
      ensures Listed() && target.OnlyOneVisible(all) && nextWake == NextWake(surfList)
      ensures surfList == old(Waiting(surfList, time))
      ensures target.log == old(target.log) + Shows(old(Due(surfList, time)), true)
      ensures LooksAre(all, was, old(Due(surfList, time)), now)
      ensures forall s :: s in all ==>
                s.firstShown == if s in old(Due(surfList, time)) then now else old(s.firstShown)
    {
      hide Due, Waiting, NextWake, Shows, LooksAre, Unique;
      WereQueued(was, now);
      ghost var entries, log, due := surfList, target.log, Due(surfList, time);
      ghost var shown;
      var pending;
      nextWake, pending, shown := Scan(time, now, was);
      ShowLast(pending, now, shown, was, log, due);
      PassKeepsList(entries, time, was, now, due);
    }

    /** A pass, with what is due and what waits named beforehand. */
    method PassOver(time: Time, now: Time, ghost was: map<Surface, Look>, ghost due: seq<Surface>,
                    ghost waiting: seq<Surface>, ghost log: seq<Show>)
      returns (nextWake: Time)
      requires Listed() && target.OnlyOneVisible(all) && LooksAre(all, was, [], now) && log == target.log
      requires Conserved(accepted, log, surfList, all) && due == Due(surfList, time)
               && waiting == Waiting(surfList, time)
      modifies this`surfList, target, all`status, all`firstShown
      ensures Listed() && target.OnlyOneVisible(all) && nextWake == NextWake(surfList)
      ensures surfList == waiting && target.log == log + Shows(due, true) && LooksAre(all, was, due, now)
      ensures forall s :: s in all ==> s.firstShown == if s in due then now else old(s.firstShown)
      ensures Conserved(accepted, target.log, surfList, all)
    {
      ConservedPass(accepted, log, surfList, all, time, due, waiting);
      nextWake := Pass(time, now, was);
    }

    /**
     * The thread wakes, by its timer or otherwise, and passes over the list. By its timer it works with the time it was
     * set to, otherwise with the time it reads.
     */
    method Wake(timedOut: bool, now: Time) returns (time: Time, ghost was: map<Surface, Look>)
      requires Valid() && (timedOut ==> armed != NEVER)
      modifies this`surfList, this`armed, this`signalled, target, all`status, all`firstShown
      ensures Valid() && !signalled && armed == NextWake(surfList) && accepted == old(accepted)
      ensures time == if timedOut then old(armed) else now
      ensures surfList == old(Waiting(surfList, time))
      ensures target.log == old(target.log) + Shows(old(Due(surfList, time)), true)
      ensures (forall s :: s in all ==> s in was && was[s] == Look(old(s.status), old(s.firstShown)))
              && LooksAre(all, was, old(Due(surfList, time)), now)
      ensures forall s :: s in all ==>
                s.firstShown == if s in old(Due(surfList, time)) then now else old(s.firstShown)
    {
      hide Due, Waiting, NextWake, Conserved, Unique, Shows;
      ghost var list, log := surfList, target.log;
      was := map s | s in all :: Look(s.status, s.firstShown);
      time := if timedOut then armed else now;
      ghost var due, waiting := Due(list, time), Waiting(list, time);
      assert LooksAre(all, was, [], now);
      armed := PassOver(time, now, was, due, waiting, log);
      signalled := false;
    }

    /** A wake-up, with what is due and what waits named beforehand. */
    method WakeOver(timedOut: bool, now: Time, ghost due: seq<Surface>, ghost waiting: seq<Surface>)
      requires Valid() && (timedOut ==> armed != NEVER)
      requires var time := if timedOut then armed else now;
               due == Due(surfList, time) && waiting == Waiting(surfList, time)
      modifies this`surfList, this`armed, this`signalled, target, all`status, all`firstShown
      ensures Valid() && !signalled && armed == NextWake(surfList) && accepted == old(accepted)
      ensures surfList == waiting && target.log == old(target.log) + Shows(due, true)
      ensures forall s :: s in all ==> s.firstShown == if s in due then now else old(s.firstShown)
    {
      hide Due, Waiting, NextWake, Conserved, Unique, Shows, LooksAre;
      var time, was := Wake(timedOut, now);
    }

    method Drop(surf: Surface, ghost entries: seq<Surface>, ghost i: nat)
      requires i < |entries| && surfList == entries[i..] && surf == entries[i]
      modifies this`surfList, surf`status, surf`firstShown
      ensures surfList == entries[i + 1..] && surf.status == Idle && surf.firstShown == 0
    {
      surf.status, surf.firstShown := Idle, 0;
      assert surfList == [] + [surf] + entries[i + 1..] && [] + entries[i + 1..] == entries[i + 1..];
      WithoutMiddle([], surf, entries[i + 1..]);
      surfList := Without(surfList, surf);
    }

    method DropAll(entries: seq<Surface>)
      requires surfList == entries
      modifies this`surfList, entries`status, entries`firstShown
      ensures surfList == []
      ensures forall k :: 0 <= k < |entries| ==> entries[k].status == Idle && entries[k].firstShown == 0
    {
      for i := 0 to |entries|
        invariant surfList == entries[i..]
        invariant forall k :: 0 <= k < i ==> entries[k].status == Idle && entries[k].firstShown == 0
      {
        Drop(entries[i], entries, i);
      }
    }

    /** The thread ends: whatever waited or was visible becomes idle. */
    method Exit()
      requires Valid()
      modifies this`surfList, target, all`status, all`firstShown
      ensures surfList == [] && Listed() && target.OnlyOneVisible(all) && forall s :: s in all ==> s.status == Idle
      ensures target.log == old(target.log)
      ensures forall s :: s in all && old(s.status) == Queued ==> s.firstShown == 0
    {
      DropAll(surfList);
      target.ToIdleState();
    }
  }

  lemma OneMore(list: seq<Surface>, i: nat, time: Time)
    requires i < |list|
    ensures Due(list[..i + 1], time) == Due(list[..i], time) + if list[i].earliest <= time then [list[i]] else []
    ensures Waiting(list[..i + 1], time) == Waiting(list[..i], time) + if list[i].earliest > time then [list[i]] else []
    ensures var before := NextAfter(list[..i], time);
            NextAfter(list[..i + 1], time) == if time < list[i].earliest < before then list[i].earliest else before
    ensures Unique(list) ==> list[i] !in list[..i]
  {
    assert list[..i + 1][..i] == list[..i];
  }

  /** The least time after `time`, or never. */
  ghost function NextAfter(list: seq<Surface>, time: Time): (t: Time)
    reads list`earliest
  {
    if list == [] then NEVER
    else
      var n := |list| - 1;
      assert list == list[..n] + [list[n]];
      var t := NextAfter(list[..n], time);
      if time < list[n].earliest < t then list[n].earliest else t
  }

  lemma {:induction false} NextAfterIs(list: seq<Surface>, time: Time)
    ensures NextAfter(list, time) == NextWake(Waiting(list, time))
  {
    if list == [] {
    } else {
      var n := |list| - 1;
      NextAfterIs(list[..n], time);
      var waiting := Waiting(list[..n], time);
      assert (waiting + [list[n]])[..|waiting|] == waiting;
      assert waiting + [] == waiting;
    }
  }

  lemma PendingIsNew(entries: seq<Surface>, time: Time, shown: seq<Surface>, pending: Surface)
    requires Unique(entries) && Due(entries, time) == shown + [pending]
    ensures pending in entries && pending !in shown
  {
    var due := Due(entries, time);
    PartsUnique(entries, time);
    PartsAre(entries, time, pending);
    assert due[|due| - 1] == pending && forall k :: 0 <= k < |shown| ==> shown[k] == due[k];
  }

  lemma ConservedPass(accepted: seq<Surface>, log: seq<Show>, list: seq<Surface>, all: set<Surface>, time: Time,
                      due: seq<Surface>, waiting: seq<Surface>)
    requires Conserved(accepted, log, list, all) && due == Due(list, time) && waiting == Waiting(list, time)
    ensures Conserved(accepted, log + Shows(due, true), waiting, all)
  {
    forall s | s in all ensures Count(accepted, s) == TimesShown(log + Shows(due, true), s) + Count(waiting, s) {
      SplitInTwo(list, time, s);
      TimesShownAll(log, due, true, s);
    }
  }

  datatype Event = Requested(surf: Surface, earliest: Time, at: Time) | Woken(timedOut: bool, at: Time)

  /** A surface that waits for its time. */
  datatype Wait = Wait(surf: Surface, earliest: Time)

  /** What waits, what has been shown, and how the thread will wake. */
  datatype View = View(waits: seq<Wait>, log: seq<Show>, armed: Time, signalled: bool)

  ghost function WaitsOf(list: seq<Surface>): (w: seq<Wait>)
    reads list`earliest
    ensures |w| == |list| && forall i :: 0 <= i < |w| ==> w[i] == Wait(list[i], list[i].earliest)
  {
    if list == [] then []
    else
      var n := |list| - 1;
      assert list == list[..n] + [list[n]];
      WaitsOf(list[..n]) + [Wait(list[n], list[n].earliest)]
  }

  ghost function ViewOf(queue: Queue): (v: View)
    reads queue, queue.target, queue.surfList`earliest
  {
    View(WaitsOf(queue.surfList), queue.target.log, queue.armed, queue.signalled)
  }

  function DueOf(waits: seq<Wait>, time: Time): (r: seq<Surface>) {
    if waits == [] then []
    else
      var n := |waits| - 1;
      DueOf(waits[..n], time) + if waits[n].earliest <= time then [waits[n].surf] else []
  }

  function LaterOf(waits: seq<Wait>, time: Time): (r: seq<Wait>) {
    if waits == [] then []
    else
      var n := |waits| - 1;
      LaterOf(waits[..n], time) + if waits[n].earliest > time then [waits[n]] else []
  }

  function LeastOf(waits: seq<Wait>): (t: Time) {
    if waits == [] then NEVER
    else
      var n := |waits| - 1;
      var t := LeastOf(waits[..n]);
      if waits[n].earliest < t then waits[n].earliest else t
  }

  predicate Queues(v: View, s: Surface) {
    exists i :: 0 <= i < |v.waits| && v.waits[i].surf == s
  }

  /** A request is accepted unless its surface waits already; a wake-up accepts nothing. */
  predicate Accepts(v: View, e: Event) {
    e.Requested? && !Queues(v, e.surf)
  }

  /**
   * What an event makes of a queue. A thread wakes by its timer only when that is on, and then works with the time it
   * was set to.
   */
  function Next(v: View, e: Event, threaded: bool): (n: View) {
    match e
    case Requested(surf, earliest, _) =>
      if !Accepts(v, e) then v
      else if earliest == 0 || !threaded then v.(log := v.log + [Show(surf, true)])
      else v.(waits := v.waits + [Wait(surf, earliest)], signalled := true)
    case Woken(timedOut, at) =>
      if timedOut && v.armed == NEVER then v
      else
        var time := if timedOut then v.armed else at;
        var later := LaterOf(v.waits, time);
        View(later, v.log + Shows(DueOf(v.waits, time), true), LeastOf(later), false)
  }

  function After(events: seq<Event>, n: nat, v: View, threaded: bool): (r: View)
    requires n <= |events|
  {
    if n == 0 then v else Next(After(events, n - 1, v, threaded), events[n - 1], threaded)
  }

  lemma WaitsMore(list: seq<Surface>, s: Surface)
    ensures WaitsOf(list + [s]) == WaitsOf(list) + [Wait(s, s.earliest)]
  {
    assert (list + [s])[..|list|] == list;
  }

  lemma LastWait(list: seq<Surface>, n: nat)
    requires |list| == n + 1
    ensures WaitsOf(list)[..n] == WaitsOf(list[..n]) && WaitsOf(list)[n] == Wait(list[n], list[n].earliest)
  {
  }

  lemma {:induction false} DueOfView(list: seq<Surface>, time: Time)
    ensures Due(list, time) == DueOf(WaitsOf(list), time)
  {
    if list == [] {
    } else {
      var n := |list| - 1;
      LastWait(list, n);
      DueOfView(list[..n], time);
    }
  }

  lemma {:induction false} LaterOfView(list: seq<Surface>, time: Time)
    ensures WaitsOf(Waiting(list, time)) == LaterOf(WaitsOf(list), time)
  {
    if list == [] {
    } else {
      var n := |list| - 1;
      var waiting := Waiting(list[..n], time);
      LastWait(list, n);
      LaterOfView(list[..n], time);
      WaitsMore(waiting, list[n]);
      assert waiting + [] == waiting;
    }
  }

  lemma {:induction false} LeastOfView(list: seq<Surface>)
    ensures NextWake(list) == LeastOf(WaitsOf(list))
  {
    if list == [] {
    } else {
      var n := |list| - 1;
      LastWait(list, n);
      LeastOfView(list[..n]);
    }
  }

  /** Whatever waits behind a pass waits for a later time. */
  lemma {:induction false} LaterIsLater(waits: seq<Wait>, time: Time)
    ensures forall i :: 0 <= i < |LaterOf(waits, time)| ==> LaterOf(waits, time)[i].earliest > time
  {
    if waits == [] {
    } else {
      LaterIsLater(waits[..|waits| - 1], time);
    }
  }

  /** A surface is queued exactly when it waits. */
  lemma QueuedIsListed(queue: Queue, s: Surface)
    requires queue.Listed() && s in queue.all
    ensures s.status == Queued <==> Queues(ViewOf(queue), s)
  {
    var v := ViewOf(queue);
    assert forall i :: 0 <= i < |queue.surfList| ==> v.waits[i].surf == queue.surfList[i];
  }

  /** Surfaces whose times have not changed wait as they did. */
  twostate lemma WaitsKeep(list: seq<Surface>)
    requires forall i :: 0 <= i < |list| ==> list[i].earliest == old(list[i].earliest)
    ensures WaitsOf(list) == old(WaitsOf(list))
  {
  }

  method HandleRequest(queue: Queue, surf: Surface, earliest: Time, at: Time) returns (ok: bool)
    requires queue.Valid() && surf in queue.all
    modifies queue, queue.target, queue.all
    ensures queue.Valid() && ok == Accepts(old(ViewOf(queue)), Requested(surf, earliest, at))
    ensures ViewOf(queue) == Next(old(ViewOf(queue)), Requested(surf, earliest, at), queue.threaded)
    ensures queue.accepted == old(queue.accepted) + if ok then [surf] else []
  {
    hide WaitsOf, Conserved, NextWake, Unique, Due, Waiting;
    ghost var list, v := queue.surfList, ViewOf(queue);
    QueuedIsListed(queue, surf);
    ok := queue.Request(surf, earliest, at);
    WaitsKeep(list);
    WaitsMore(list, surf);
  }

  method HandleWake(queue: Queue, timedOut: bool, at: Time)
    requires queue.Valid() && (timedOut ==> queue.armed != NEVER)
    modifies queue, queue.target, queue.all
    ensures queue.Valid() && queue.accepted == old(queue.accepted)
    ensures ViewOf(queue) == Next(old(ViewOf(queue)), Woken(timedOut, at), queue.threaded)
  {
    hide WaitsOf, Conserved, Unique, Due, Waiting, NextWake, LaterOf, DueOf, LeastOf, Shows;
    ghost var list, t := queue.surfList, if timedOut then queue.armed else at;
    ghost var due, waiting := Due(list, t), Waiting(list, t);
    DueOfView(list, t);
    LaterOfView(list, t);
    queue.WakeOver(timedOut, at, due, waiting);
    WaitsKeep(waiting);
    LeastOfView(waiting);
  }

  /**
   * One event does to the queue what it should, and is accepted exactly when it is a request for an unqueued surface.
   */
  method Handle(queue: Queue, event: Event) returns (ok: bool)
    requires queue.Valid() && (event.Requested? ==> event.surf in queue.all)
    modifies queue, queue.target, queue.all
    ensures queue.Valid() && ok == Accepts(old(ViewOf(queue)), event)
    ensures ViewOf(queue) == Next(old(ViewOf(queue)), event, queue.threaded)
    ensures queue.accepted == old(queue.accepted) + if ok then [event.surf] else []
  {
    ok := false;
    match event
    case Requested(surf, earliest, at) =>
      ok := HandleRequest(queue, surf, earliest, at);
    case Woken(timedOut, at) =>
      if timedOut ==> queue.armed != NEVER {
        HandleWake(queue, timedOut, at);
      }
  }

  /** The surfaces of the accepted requests among the first `n` events. */
  function AcceptedOf(events: seq<Event>, n: nat, v: View, threaded: bool): (r: seq<Surface>)
    requires n <= |events|
  {
    if n == 0 then []
    else
      AcceptedOf(events, n - 1, v, threaded)
      + if Accepts(After(events, n - 1, v, threaded), events[n - 1]) then [events[n - 1].surf] else []
  }

  /** The queue after the first `n` events. */
  ghost predicate Reached(queue: Queue, events: seq<Event>, n: nat, v: View, accepted: seq<Surface>)
    reads queue, queue.target, queue.all
  {
    && n <= |events| && queue.Valid() && ViewOf(queue) == After(events, n, v, queue.threaded)
    && queue.accepted == accepted + AcceptedOf(events, n, v, queue.threaded)
  }

  lemma ReachedStart(queue: Queue, events: seq<Event>)
    requires queue.Valid()
    ensures Reached(queue, events, 0, ViewOf(queue), queue.accepted)
  {
    hide WaitsOf, Conserved;
  }

  method HandleNext(queue: Queue, events: seq<Event>, i: nat, ghost v: View, ghost accepted: seq<Surface>)
    returns (ok: bool)
    requires Reached(queue, events, i, v, accepted) && i < |events|
    requires events[i].Requested? ==> events[i].surf in queue.all
    modifies queue, queue.target, queue.all
    ensures Reached(queue, events, i + 1, v, accepted)
    ensures ok == Accepts(After(events, i, v, queue.threaded), events[i])
  {
    hide Conserved, NextWake, Unique, WaitsOf, Next, Accepts;
    ok := Handle(queue, events[i]);
    ghost var before := After(events, i, v, queue.threaded);
    assert After(events, i + 1, v, queue.threaded) == Next(before, events[i], queue.threaded);
  }

  /** The events in turn. */
  method HandleAll(queue: Queue, events: seq<Event>, ghost v: View, ghost accepted: seq<Surface>)
    returns (ok: seq<bool>)
    requires Reached(queue, events, 0, v, accepted)
    requires forall i :: 0 <= i < |events| && events[i].Requested? ==> events[i].surf in queue.all
    modifies queue, queue.target, queue.all
    ensures Reached(queue, events, |events|, v, accepted) && |ok| == |events|
    ensures forall i :: 0 <= i < |ok| ==> ok[i] == Accepts(After(events, i, v, queue.threaded), events[i])
  {
    hide Reached, Accepts, After;
    ok := [];
    for i := 0 to |events|
      invariant Reached(queue, events, i, v, accepted) && |ok| == i
      invariant forall k :: 0 <= k < i ==> ok[k] == Accepts(After(events, k, v, queue.threaded), events[k])
    {
      var r := HandleNext(queue, events, i, v, accepted);
      ok := ok + [r];
    }
  }

  /** Behind a wake-up by signal nothing waits that was due. */
  lemma NothingDue(queue: Queue, events: seq<Event>, n: nat, v: View)
    requires n < |events| && events[n].Woken? && !events[n].timedOut
    requires ViewOf(queue) == After(events, n + 1, v, queue.threaded)
    ensures forall i :: 0 <= i < |queue.surfList| ==> queue.surfList[i].earliest > events[n].at
  {
    var before, time := After(events, n, v, queue.threaded), events[n].at;
    LaterIsLater(before.waits, time);
    var later := LaterOf(before.waits, time);
    assert WaitsOf(queue.surfList) == later;
    forall i | 0 <= i < |queue.surfList| ensures queue.surfList[i].earliest > time {
      assert later[i] == Wait(queue.surfList[i], queue.surfList[i].earliest);
    }
  }

  /**
   * Any run of requests and wake-ups does to the queue exactly what its events do one by one. Each accepted request is
   * shown once or still waits, queued is the same as listed, only one surface is visible, the thread is armed for the
   * next surface or about to wake, and behind a wake-up by signal nothing waits that was due.
   */
  method Run(queue: Queue, events: seq<Event>) returns (ok: seq<bool>)
    requires queue.Valid() && forall i :: 0 <= i < |events| && events[i].Requested? ==> events[i].surf in queue.all
    modifies queue, queue.target, queue.all
    ensures queue.Valid() && ViewOf(queue) == After(events, |events|, old(ViewOf(queue)), queue.threaded)
    ensures |ok| == |events| && forall i :: 0 <= i < |ok| ==>
              ok[i] == Accepts(After(events, i, old(ViewOf(queue)), queue.threaded), events[i])
    ensures var accepted := AcceptedOf(events, |events|, old(ViewOf(queue)), queue.threaded);
            Conserved(old(queue.accepted) + accepted, queue.target.log, queue.surfList, queue.all)
    ensures !queue.signalled ==> forall i :: 0 <= i < |queue.surfList| ==> queue.armed <= queue.surfList[i].earliest
    ensures |events| > 0 && events[|events| - 1].Woken? && !events[|events| - 1].timedOut ==>
              forall i :: 0 <= i < |queue.surfList| ==> queue.surfList[i].earliest > events[|events| - 1].at
  {
    hide Conserved, NextWake, Unique, WaitsOf, Next, Accepts, After, AcceptedOf;
    ghost var v := ViewOf(queue);
    ReachedStart(queue, events);
    ok := HandleAll(queue, events, v, queue.accepted);
    NextWakeIsLeast(queue.surfList);
    if |events| > 0 && events[|events| - 1].Woken? && !events[|events| - 1].timedOut {
      NothingDue(queue, events, |events| - 1, v);
    }
  }
}
