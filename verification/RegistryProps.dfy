/** Whole runs of the registry against the bare history of events. */
module RegistryProps {
  import opened Common
  import opened Registry

  function TimeOf(e: Event): int {
    match e
    case Received(_, _, _, now) => now
    case Squawked(_, _, now) => now
    case Swept(now) => now
  }

  /** Time never goes back. */
  ghost predicate Ordered(h: seq<Event>) {
    forall i, j :: 0 <= i < j < |h| ==> TimeOf(h[i]) <= TimeOf(h[j])
  }

  predicate IsFrom(e: Event, a: nat) {
    e.Received? && e.addr == a
  }

  /** How many messages of the history came from `a`. */
  function MessagesFrom(h: seq<Event>, a: nat): nat {
    if |h| == 0 then 0 else MessagesFrom(h[..|h| - 1], a) + if IsFrom(h[|h| - 1], a) then 1 else 0
  }

  /** An event refreshes `a`: a message from it, or a squawk for it while it is in the registry. */
  predicate Refreshes(s: State, e: Event, a: nat) {
    IsFrom(e, a) || (e.Squawked? && e.addr == a && a in s)
  }

  /** Event number `i` refreshed `a`. */
  ghost predicate RefreshedAt(h: seq<Event>, i: nat, a: nat)
    requires i < |h|
  {
    Refreshes(Run(h[..i]), h[i], a)
  }

  /** `a` was refreshed less than five minutes before `now`. */
  ghost predicate RecentlyRefreshed(h: seq<Event>, a: nat, now: int) {
    exists i :: 0 <= i < |h| && RefreshedAt(h, i, a) && now < TimeOf(h[i]) + 300000
  }

  lemma OrderedFront(h: seq<Event>)
    requires |h| > 0 && Ordered(h)
    ensures Ordered(h[..|h| - 1])
  {
    var f := h[..|h| - 1];
    forall i, j | 0 <= i < j < |f|
      ensures TimeOf(f[i]) <= TimeOf(f[j])
    {
      assert f[i] == h[i] && f[j] == h[j];
    }
  }

  lemma FrontRefreshed(h: seq<Event>, i: nat, a: nat)
    requires i < |h| - 1
    ensures RefreshedAt(h[..|h| - 1], i, a) == RefreshedAt(h, i, a)
  {
    assert h[..|h| - 1][..i] == h[..i];
  }

  lemma {:induction false} NeverBad(h: seq<Event>, a: nat)
    requires NoAddress(a)
    ensures a !in Run(h)
  {
    if |h| > 0 {
      NeverBad(h[..|h| - 1], a);
    }
  }

  /** What one event does to the entry of `a`. */
  lemma EntryStep(s: State, e: Event, a: nat)
    requires !NoAddress(a)
    ensures Refreshes(s, e, a) ==> a in Step(s, e) && Step(s, e)[a].seen == TimeOf(e)
    ensures !Refreshes(s, e, a) && a in Step(s, e) ==> a in s && Step(s, e)[a].seen == s[a].seen
    ensures !Refreshes(s, e, a) && a in s && a !in Step(s, e) ==> e.Swept? && s[a].seen + TRACK_EXPIRE <= e.now
  {
  }

  lemma Present(h: seq<Event>, a: nat)
    requires a in Run(h)
    ensures |h| > 0 && !NoAddress(a) && Run(h) == Step(Run(h[..|h| - 1]), h[|h| - 1])
  {
    if NoAddress(a) { NeverBad(h, a); }
  }

  /** An entry carries the time of some refreshment of its address. */
  lemma {:induction false} SeenIsRefreshed(h: seq<Event>, a: nat) returns (i: nat)
    requires a in Run(h)
    ensures i < |h| && RefreshedAt(h, i, a) && TimeOf(h[i]) == Run(h)[a].seen
  {
    hide Step, Refreshes, NoAddress, Run, TimeOf;
    Present(h, a);
    var n := |h| - 1;
    EntryStep(Run(h[..n]), h[n], a);
    if RefreshedAt(h, n, a) {
      i := n;
    } else {
      i := SeenIsRefreshed(h[..n], a);
      FrontRefreshed(h, i, a);
    }
  }

  /** No refreshment of its address is later. */
  lemma {:induction false} SeenIsLast(h: seq<Event>, a: nat, k: nat)
    requires Ordered(h) && a in Run(h) && k < |h| && RefreshedAt(h, k, a)
    ensures TimeOf(h[k]) <= Run(h)[a].seen
  {
    hide Step, Refreshes, NoAddress, Run, TimeOf;
    Present(h, a);
    var n := |h| - 1;
    EntryStep(Run(h[..n]), h[n], a);
    if k < n && !RefreshedAt(h, n, a) {
      OrderedFront(h);
      FrontRefreshed(h, k, a);
      SeenIsLast(h[..n], a, k);
    }
  }

  /** An address that was refreshed and is gone was swept when it was already stale. */
  lemma {:induction false} GoneIsStale(h: seq<Event>, a: nat, i: nat, now: int)
    requires Ordered(h) && !NoAddress(a) && a !in Run(h)
    requires i < |h| && RefreshedAt(h, i, a) && TimeOf(h[|h| - 1]) <= now
    ensures TimeOf(h[i]) + TRACK_EXPIRE <= now
  {
    hide Step, Refreshes, NoAddress;
    var n := |h| - 1;
    OrderedFront(h);
    EntryStep(Run(h[..n]), h[n], a);
    assert i < n;
    FrontRefreshed(h, i, a);
    assert h[..n][i] == h[i];
    if a in Run(h[..n]) {
      SeenIsLast(h[..n], a, i);
    } else {
      assert TimeOf(h[..n][n - 1]) <= TimeOf(h[n]);
      GoneIsStale(h[..n], a, i, now);
    }
  }

  /**
    * After a sweep, the registry holds exactly the addresses refreshed within the last five minutes, however often it
    * was swept before.
    */
  lemma SweptRegistry(h: seq<Event>, now: int, a: nat)
    requires Ordered(h + [Swept(now)])
    ensures a in Run(h + [Swept(now)]) <==> a != 0 && a != 0xFFFFFF && RecentlyRefreshed(h, a, now)
  {
    hide RefreshedAt;
    var all := h + [Swept(now)];
    assert all[..|h|] == h;
    OrderedFront(all);
    assert a in Run(all) <==> a in Run(h) && now < Run(h)[a].seen + TRACK_EXPIRE;
    if NoAddress(a) {
      NeverBad(h, a);
    } else if a in Run(h) {
      var last := SeenIsRefreshed(h, a);
      forall i | 0 <= i < |h| && RefreshedAt(h, i, a)
        ensures TimeOf(h[i]) <= Run(h)[a].seen
      {
        SeenIsLast(h, a, i);
      }
    } else if RecentlyRefreshed(h, a, now) {
      var i :| 0 <= i < |h| && RefreshedAt(h, i, a) && now < TimeOf(h[i]) + 300000;
      assert all[|h| - 1] == h[|h| - 1] && all[|h|] == Swept(now);
      assert TimeOf(all[|h| - 1]) <= TimeOf(all[|h|]);
      GoneIsStale(h, a, i, now);
    }
  }

  lemma {:induction false} MessagesFromConcat(g: seq<Event>, h: seq<Event>, a: nat)
    ensures MessagesFrom(g + h, a) == MessagesFrom(g, a) + MessagesFrom(h, a)
  {
    if |h| == 0 {
      assert g + h == g;
    } else {
      assert (g + h)[..|g + h| - 1] == g + h[..|h| - 1];
      MessagesFromConcat(g, h[..|h| - 1], a);
    }
  }

  /** An entry counts the messages since it was last created, refreshed by squawks or not. */
  lemma {:induction false} CountSinceCreated(h: seq<Event>, a: nat, c: nat)
    requires c < |h| && a !in Run(h[..c])
    requires forall j :: c < j <= |h| ==> a in Run(h[..j])
    ensures a in Run(h) && Run(h)[a].messages == MessagesFrom(h[c..], a)
    decreases |h|
  {
    hide Step, NoAddress, IsFrom;
    var n := |h| - 1;
    assert h[..|h|] == h;
    assert !NoAddress(a) by {
      if NoAddress(a) { NeverBad(h, a); }
    }
    assert h[c..] == h[c..n] + [h[n]];
    MessagesFromConcat(h[c..n], [h[n]], a);
    if c == n {
      assert h[c..n] == [];
      FirstOne(Run(h[..n]), h[n], a);
    } else {
      var front := h[..n];
      assert front[..c] == h[..c] && front[c..] == h[c..n];
      forall j | c < j <= n
        ensures a in Run(front[..j])
      {
        assert front[..j] == h[..j];
      }
      CountSinceCreated(front, a, c);
      OneMore(Run(front), h[n], a);
    }
    LastCounts(h[n], a);
  }

  lemma LastCounts(e: Event, a: nat)
    ensures MessagesFrom([e], a) == if IsFrom(e, a) then 1 else 0
  {
    assert [e][..0] == [];
  }

  lemma FirstOne(s: State, e: Event, a: nat)
    requires a !in s && a in Step(s, e)
    ensures IsFrom(e, a) && Step(s, e)[a].messages == 1
  {
  }

  lemma OneMore(s: State, e: Event, a: nat)
    requires !NoAddress(a) && a in s && a in Step(s, e)
    ensures Step(s, e)[a].messages == s[a].messages + if IsFrom(e, a) then 1 else 0
  {
  }

  /** The code that an event gives to `a`. */
  function CodeFor(e: Event, a: nat): Option<nat> {
    match e
    case Received(addr, squawk, _, _) => if addr == a then squawk else None
    case Squawked(addr, code, _) => if addr == a then Some(code) else None
    case Swept(_) => None
  }

  /** The last code that the history gives to `a`, or zero. */
  function LastCode(h: seq<Event>, a: nat): nat {
    if |h| == 0 then 0
    else if CodeFor(h[|h| - 1], a).Some? then CodeFor(h[|h| - 1], a).value
    else LastCode(h[..|h| - 1], a)
  }

  lemma CodeStep(s: State, e: Event, a: nat)
    requires !NoAddress(a) && a in Step(s, e)
    ensures Step(s, e)[a].squawk
            == if CodeFor(e, a).Some? then CodeFor(e, a).value else if a in s then s[a].squawk else 0
  {
  }

  /** An entry has the last squawk since it was last created, from a message or alone. */
  lemma {:induction false} SquawkSinceCreated(h: seq<Event>, a: nat, c: nat)
    requires c < |h| && a !in Run(h[..c])
    requires forall j :: c < j <= |h| ==> a in Run(h[..j])
    ensures a in Run(h) && Run(h)[a].squawk == LastCode(h[c..], a)
    decreases |h|
  {
    hide Step, NoAddress, CodeFor;
    var n := |h| - 1;
    assert h[..|h|] == h;
    Present(h, a);
    CodeStep(Run(h[..n]), h[n], a);
    assert h[c..][..|h| - c - 1] == h[c..n] && h[c..][|h| - c - 1] == h[n];
    if c == n {
      assert h[c..n] == [];
    } else {
      var front := h[..n];
      assert front[..c] == h[..c] && front[c..] == h[c..n];
      forall j | c < j <= n
        ensures a in Run(front[..j])
      {
        assert front[..j] == h[..j];
      }
      SquawkSinceCreated(front, a, c);
      assert a in Run(h[..n]);
    }
  }

  /** The positive signal levels of the messages from `a`, in order. */
  function LevelsFrom(h: seq<Event>, a: nat): seq<real> {
    if |h| == 0 then []
    else LevelsFrom(h[..|h| - 1], a) + LevelOf(h[|h| - 1], a)
  }

  function LevelOf(e: Event, a: nat): seq<real> {
    if IsFrom(e, a) && e.level > 0.0 then [e.level] else []
  }

  lemma LevelStep(s: State, e: Event, a: nat)
    requires !NoAddress(a) && a in Step(s, e)
    ensures Step(s, e)[a].levels == (if a in s then s[a].levels else []) + LevelOf(e, a)
  {
  }

  /** An entry has the signal levels of its messages since it was last created. */
  lemma {:induction false} LevelsSinceCreated(h: seq<Event>, a: nat, c: nat)
    requires c < |h| && a !in Run(h[..c])
    requires forall j :: c < j <= |h| ==> a in Run(h[..j])
    ensures a in Run(h) && Run(h)[a].levels == LevelsFrom(h[c..], a)
    decreases |h|
  {
    hide Step, NoAddress, LevelOf;
    var n := |h| - 1;
    assert h[..|h|] == h;
    Present(h, a);
    LevelStep(Run(h[..n]), h[n], a);
    assert h[c..][..|h| - c - 1] == h[c..n] && h[c..][|h| - c - 1] == h[n];
    if c == n {
      assert h[c..n] == [];
    } else {
      var front := h[..n];
      assert front[..c] == h[..c] && front[c..] == h[c..n];
      forall j | c < j <= n
        ensures a in Run(front[..j])
      {
        assert front[..j] == h[..j];
      }
      LevelsSinceCreated(front, a, c);
      assert a in Run(h[..n]);
    }
  }

  /** Every entry has such a moment of creation. */
  lemma {:induction false} HasCreation(h: seq<Event>, a: nat) returns (c: nat)
    requires a in Run(h)
    ensures c < |h| && a !in Run(h[..c])
    ensures forall j :: c < j <= |h| ==> a in Run(h[..j])
  {
    var n := |h| - 1;
    assert h[..|h|] == h;
    if a in Run(h[..n]) {
      c := HasCreation(h[..n], a);
      assert h[..n][..c] == h[..c];
      forall j | c < j <= |h|
        ensures a in Run(h[..j])
      {
        if j <= n {
          assert h[..n][..j] == h[..j];
        }
      }
    } else {
      c := n;
    }
  }
}
