/**
 * The timer list of `TemplateApp` (src/app.rs) and one frame of `update`:
 * every timer is ticked in order, the indices whose "x" was clicked are
 * collected, then removed one after another, and a click on "+ New timer"
 * appends a default timer.
 */
module App {
  import opened Outcomes
  import opened Countdown
  import opened Panics
  import opened Timers

  /** `Vec::remove(i)` for an index in bounds: the element at `i` is dropped, the rest keep their order. */
  function RemoveAt<T>(s: seq<T>, i: nat): (r: seq<T>)
    requires i < |s|
    ensures |r| == |s| - 1
    ensures forall j :: 0 <= j < i ==> r[j] == s[j]
    ensures forall j :: i <= j < |r| ==> r[j] == s[j + 1]
  {
    s[..i] + s[i + 1..]
  }

  /**
   * The removal loop that follows the frame loop: each collected index in turn
   * is removed from the list as the earlier removals left it; the first index
   * past the end panics.
   */
  function RemoveEach<T>(s: seq<T>, indices: seq<nat>): (r: Result<seq<T>, Panic>)
    ensures r.Ok? ==> |r.value| + |indices| == |s|
    decreases |indices|
  {
    if indices == [] then Ok(s)
    else if indices[0] >= |s| then Err(RemovalIndexOutOfBounds(indices[0], |s|))
    else RemoveEach(RemoveAt(s, indices[0]), indices[1..])
  }

  /** The indices pushed onto `remove_indices` during the loop: those whose "x" was clicked, ascending. */
  function MarkedIndices(clicks: seq<Clicks>): (r: seq<nat>)
    ensures forall k :: 0 <= k < |r| ==> r[k] < |clicks| && clicks[r[k]].remove
    ensures forall j :: 0 <= j < |clicks| && clicks[j].remove ==> j in r
    ensures forall k, l :: 0 <= k < l < |r| ==> r[k] < r[l]
    decreases |clicks|
  {
    if clicks == [] then []
    else MarkedIndices(clicks[..|clicks| - 1]) + (if clicks[|clicks| - 1].remove then [|clicks| - 1] else [])
  }

  /** Every timer is ticked in list order; the first panic ends the frame. */
  function TickAll(ts: seq<TimerState>, now: uint64, clicks: seq<Clicks>): Result<(seq<TimerState>, seq<Row>), Panic>
    requires |clicks| == |ts|
    requires forall i :: 0 <= i < |ts| ==> Evaluable(ts[i])
    decreases |ts|
  {
    if ts == [] then Ok(([], []))
    else
      var n := |ts| - 1;
      match TickAll(ts[..n], now, clicks[..n])
      case Err(e) => Err(e)
      case Ok((ticked, rows)) =>
        match Tick(ts[n], now, clicks[n])
        case Err(e) => Err(e)
        case Ok((t, row)) => Ok((ticked + [t], rows + [row]))
  }

  /** The whole frame: tick every timer, remove the marked ones, then maybe append a default timer. */
  function Frame(ts: seq<TimerState>, now: uint64, clicks: seq<Clicks>, addClicked: bool): Result<(seq<TimerState>, seq<Row>), Panic>
    requires |clicks| == |ts|
    requires forall i :: 0 <= i < |ts| ==> Evaluable(ts[i])
  {
    match TickAll(ts, now, clicks)
    case Err(e) => Err(e)
    case Ok((ticked, rows)) =>
      match RemoveEach(ticked, MarkedIndices(clicks))
      case Err(e) => Err(e)
      case Ok(kept) => Ok((if addClicked then kept + [DefaultState] else kept, rows))
  }

  /**
   * Ticking the list is ticking each timer on its own: the frame panics
   * exactly when some timer's tick panics, and otherwise timer `i` and row
   * `i` are those of timer `i`'s own tick.
   */
  lemma {:induction false} TickAllPointwise(ts: seq<TimerState>, now: uint64, clicks: seq<Clicks>)
    requires |clicks| == |ts|
    requires forall i :: 0 <= i < |ts| ==> Evaluable(ts[i])
    ensures TickAll(ts, now, clicks).Ok? <==> forall i :: 0 <= i < |ts| ==> Tick(ts[i], now, clicks[i]).Ok?
    ensures TickAll(ts, now, clicks).Ok? ==>
      var (ticked, rows) := TickAll(ts, now, clicks).value;
      |ticked| == |rows| == |ts| &&
      forall i :: 0 <= i < |ts| ==> Tick(ts[i], now, clicks[i]) == Ok((ticked[i], rows[i]))
    decreases |ts|
  {
    if ts != [] {
      var n := |ts| - 1;
      TickAllPointwise(ts[..n], now, clicks[..n]);
      assert forall i :: 0 <= i < n ==> ts[..n][i] == ts[i] && clicks[..n][i] == clicks[i];
    }
  }

  /** Once a prefix of the list panics, the whole frame panics with the same error. */
  lemma {:induction false} TickAllPanicPropagates(ts: seq<TimerState>, now: uint64, clicks: seq<Clicks>, k: nat)
    requires |clicks| == |ts| && k <= |ts|
    requires forall i :: 0 <= i < |ts| ==> Evaluable(ts[i])
    requires TickAll(ts[..k], now, clicks[..k]).Err?
    ensures TickAll(ts, now, clicks) == TickAll(ts[..k], now, clicks[..k])
    decreases |ts| - k
  {
    if k < |ts| {
      var n := |ts| - 1;
      assert ts[..n][..k] == ts[..k] && clicks[..n][..k] == clicks[..k];
      TickAllPanicPropagates(ts[..n], now, clicks[..n], k);
    } else {
      assert ts[..k] == ts && clicks[..k] == clicks;
    }
  }

  /** The first timer whose tick panics decides the frame's panic. */
  lemma TickAllFirstPanic(ts: seq<TimerState>, now: uint64, clicks: seq<Clicks>, i: nat)
    requires |clicks| == |ts| && i < |ts|
    requires forall j :: 0 <= j < |ts| ==> Evaluable(ts[j])
    requires forall j :: 0 <= j < i ==> Tick(ts[j], now, clicks[j]).Ok?
    requires Tick(ts[i], now, clicks[i]).Err?
    ensures TickAll(ts, now, clicks) == Err(Tick(ts[i], now, clicks[i]).error)
  {
    assert forall j :: 0 <= j < i ==> ts[..i][j] == ts[j] && clicks[..i][j] == clicks[j];
    TickAllPointwise(ts[..i], now, clicks[..i]);
    TickAllExtend(ts, now, clicks, i);
  }

  /** One more timer ticked: the prefix's result grows by that timer's tick, or its panic ends the frame. */
  lemma TickAllExtend(ts: seq<TimerState>, now: uint64, clicks: seq<Clicks>, i: nat)
    requires |clicks| == |ts| && i < |ts|
    requires forall j :: 0 <= j < |ts| ==> Evaluable(ts[j])
    requires TickAll(ts[..i], now, clicks[..i]).Ok?
    ensures Tick(ts[i], now, clicks[i]).Err? ==> TickAll(ts, now, clicks) == Err(Tick(ts[i], now, clicks[i]).error)
    ensures Tick(ts[i], now, clicks[i]).Ok? ==>
      TickAll(ts[..i + 1], now, clicks[..i + 1]) ==
        Ok((TickAll(ts[..i], now, clicks[..i]).value.0 + [Tick(ts[i], now, clicks[i]).value.0],
            TickAll(ts[..i], now, clicks[..i]).value.1 + [Tick(ts[i], now, clicks[i]).value.1]))
  {
    assert ts[..i + 1][..i] == ts[..i] && clicks[..i + 1][..i] == clicks[..i];
    if Tick(ts[i], now, clicks[i]).Err? {
      TickAllPanicPropagates(ts, now, clicks, i + 1);
    }
  }

  lemma MarkedIndicesExtend(clicks: seq<Clicks>, i: nat)
    requires i < |clicks|
    ensures MarkedIndices(clicks[..i + 1]) == MarkedIndices(clicks[..i]) + (if clicks[i].remove then [i] else [])
  {
    assert clicks[..i + 1][..i] == clicks[..i];
  }

  /** The removal loop succeeds exactly when the `k`-th index is below the length left after `k` removals. */
  lemma {:induction false} RemoveEachInBounds<T>(s: seq<T>, indices: seq<nat>)
    ensures RemoveEach(s, indices).Ok? <==> forall k :: 0 <= k < |indices| ==> indices[k] + k < |s|
    decreases |indices|
  {
    if indices != [] && indices[0] < |s| {
      RemoveEachInBounds(RemoveAt(s, indices[0]), indices[1..]);
      assert forall k :: 1 <= k < |indices| ==> indices[k] == indices[1..][k - 1];
    }
  }

  lemma RemoveEachStep<T>(s: seq<T>, indices: seq<nat>)
    requires indices != [] && indices[0] < |s|
    ensures RemoveEach(s, indices) == RemoveEach(RemoveAt(s, indices[0]), indices[1..])
  {
  }

  /** Removing a single marked index drops exactly that timer; the others keep their relative order. */
  lemma RemoveSingle<T>(s: seq<T>, i: nat)
    requires i < |s|
    ensures RemoveEach(s, [i]) == Ok(s[..i] + s[i + 1..])
  {
    assert RemoveEach(s, [i]) == RemoveEach(RemoveAt(s, i), []);
  }

  /**
   * Two marks in one frame: removing index 0 first shifts the list, so the
   * second removal (index 1) drops the timer that was at index 2 and keeps
   * the one that was at index 1.
   */
  lemma BatchedRemovalShifts<T>(s: seq<T>)
    requires |s| >= 3
    ensures RemoveEach(s, [0, 1]) == Ok([s[1]] + s[3..])
  {
    var rest, last := s[1..], [s[1]] + s[3..];
    assert RemoveAt(s, 0) == rest;
    assert [0, 1][0] == 0 && [0, 1][1..] == [1];
    RemoveEachStep(s, [0, 1]);
    assert RemoveAt(rest, 1) == last by {
      assert rest[..1] == [s[1]] && rest[2..] == s[3..];
    }
    RemoveEachStep(rest, [1]);
    assert [1][1..] == [];
  }

  /** With two timers both marked, the second removal is past the end and panics. */
  lemma BatchedRemovalOverruns<T>(s: seq<T>)
    requires |s| == 2
    ensures RemoveEach(s, [0, 1]) == Err(RemovalIndexOutOfBounds(1, 1))
  {
    assert [0, 1][0] == 0 && [0, 1][1..] == [1];
    RemoveEachStep(s, [0, 1]);
  }

  /** The elements of `s` whose position is not in `drop`, in their original order. */
  function Keep<T>(s: seq<T>, drop: set<int>): seq<T>
    decreases |s|
  {
    if s == [] then []
    else Keep(s[..|s| - 1], drop) + (if |s| - 1 in drop then [] else [s[|s| - 1]])
  }

  /** Positions of a list seen from before removing position `c`: those at or after `c` move up by one. */
  function Shift(e: set<int>, c: int): set<int> {
    set x | x in e :: if x < c then x else x + 1
  }

  lemma ShiftIn(e: set<int>, c: int, y: int)
    ensures y in Shift(e, c) <==> (y < c && y in e) || (y > c && y - 1 in e)
  {
    if y < c && y in e {
      assert (if y < c then y else y + 1) == y;
    } else if y > c && y - 1 in e {
      assert (if y - 1 < c then y - 1 else y - 1 + 1) == y;
    }
  }

  /**
   * The original positions that the removal loop drops: the first index,
   * and the positions the remaining indices drop, seen from before the
   * first removal.
   */
  function Dropped(indices: seq<nat>): set<int>
    decreases |indices|
  {
    if indices == [] then {} else {indices[0] as int} + Shift(Dropped(indices[1..]), indices[0])
  }

  lemma {:induction false} KeepNothing<T>(s: seq<T>)
    ensures Keep(s, {}) == s
    decreases |s|
  {
    if s != [] {
      KeepNothing(s[..|s| - 1]);
    }
  }

  /** `Keep` depends only on which positions of `s` are dropped. */
  lemma {:induction false} KeepCongruent<T>(s: seq<T>, d1: set<int>, d2: set<int>)
    requires forall j :: 0 <= j < |s| ==> (j in d1 <==> j in d2)
    ensures Keep(s, d1) == Keep(s, d2)
    decreases |s|
  {
    if s != [] {
      KeepCongruent(s[..|s| - 1], d1, d2);
    }
  }

  /** Keeping positions `e` after `remove(i)` is keeping, before it, all but `i` and the shifted `e`. */
  lemma {:induction false} KeepRemoveAt<T>(s: seq<T>, i: nat, e: set<int>)
    requires i < |s|
    ensures Keep(RemoveAt(s, i), e) == Keep(s, {i as int} + Shift(e, i))
    decreases |s|
  {
    var d := {i as int} + Shift(e, i);
    var n := |s| - 1;
    if i == n {
      assert RemoveAt(s, n) == s[..n];
      forall j | 0 <= j < n
        ensures j in e <==> j in d
      {
        ShiftIn(e, i, j);
      }
      KeepCongruent(s[..n], e, d);
    } else {
      var r := RemoveAt(s, i);
      assert r[..|r| - 1] == RemoveAt(s[..n], i);
      assert r[|r| - 1] == s[n];
      KeepRemoveAt(s[..n], i, e);
      ShiftIn(e, i, n);
    }
  }

  /** A successful removal loop keeps exactly the elements at positions outside `Dropped(indices)`. */
  lemma {:induction false} RemoveEachKeeps<T>(s: seq<T>, indices: seq<nat>)
    requires RemoveEach(s, indices).Ok?
    ensures RemoveEach(s, indices).value == Keep(s, Dropped(indices))
    decreases |indices|
  {
    if indices == [] {
      KeepNothing(s);
    } else {
      var i := indices[0];
      RemoveEachStep(s, indices);
      RemoveEachKeeps(RemoveAt(s, i), indices[1..]);
      KeepRemoveAt(s, i, Dropped(indices[1..]));
    }
  }

  /** The original positions `indices[k] + k` that ascending marks stand for. */
  function Origins(indices: seq<nat>): set<int> {
    set k | 0 <= k < |indices| :: indices[k] + k
  }

  lemma OriginsStep(indices: seq<nat>)
    requires indices != []
    requires forall k, l :: 0 <= k < l < |indices| ==> indices[k] <= indices[l]
    ensures Origins(indices) == {indices[0] as int} + Shift(Origins(indices[1..]), indices[0])
  {
    var c := indices[0];
    var tail := indices[1..];
    var inner := Origins(tail);
    var rhs := {c as int} + Shift(inner, c);
    forall y | y in Origins(indices)
      ensures y in rhs
    {
      var k :| 0 <= k < |indices| && indices[k] + k == y;
      if k > 0 {
        assert tail[k - 1] + (k - 1) in inner;
        ShiftIn(inner, c, y);
      }
    }
    forall y | y in rhs
      ensures y in Origins(indices)
    {
      if y != c {
        ShiftIn(inner, c, y);
        if y > c {
          var k :| 0 <= k < |tail| && tail[k] + k == y - 1;
          assert indices[k + 1] + (k + 1) == y;
        }
      } else {
        assert indices[0] + 0 == y;
      }
    }
  }

  /** For ascending indices, the k-th index drops the element originally at `indices[k] + k`. */
  lemma {:induction false} DroppedAscending(indices: seq<nat>)
    requires forall k, l :: 0 <= k < l < |indices| ==> indices[k] <= indices[l]
    ensures Dropped(indices) == Origins(indices)
    decreases |indices|
  {
    if indices != [] {
      DroppedAscending(indices[1..]);
      OriginsStep(indices);
    }
  }

  /**
   * Batched removal in general: for ascending marks (as `MarkedIndices`
   * collects them) a successful loop keeps exactly the elements whose
   * original position is not `indices[k] + k` for any k.
   */
  lemma BatchedRemovalDropsShifted<T>(s: seq<T>, indices: seq<nat>)
    requires forall k, l :: 0 <= k < l < |indices| ==> indices[k] <= indices[l]
    requires RemoveEach(s, indices).Ok?
    ensures RemoveEach(s, indices) == Ok(Keep(s, Origins(indices)))
  {
    RemoveEachKeeps(s, indices);
    DroppedAscending(indices);
  }

  /**
   * A frame with no removal: the list keeps its length and order, each
   * timer becomes its own tick's result, and "+ New timer" appends exactly
   * one default timer at the end.
   */
  lemma FrameWithoutRemoval(ts: seq<TimerState>, now: uint64, clicks: seq<Clicks>, addClicked: bool)
    requires |clicks| == |ts|
    requires forall i :: 0 <= i < |ts| ==> Evaluable(ts[i]) && !clicks[i].remove
    requires Frame(ts, now, clicks, addClicked).Ok?
    ensures var kept := Frame(ts, now, clicks, addClicked).value.0;
      && |kept| == |ts| + (if addClicked then 1 else 0)
      && (forall i :: 0 <= i < |ts| ==> Tick(ts[i], now, clicks[i]).Ok? && Tick(ts[i], now, clicks[i]).value.0 == kept[i])
      && (addClicked ==> kept[|ts|] == DefaultState)
  {
    TickAllPointwise(ts, now, clicks);
    var marks := MarkedIndices(clicks);
    assert marks == [];
    var ticked := TickAll(ts, now, clicks).value.0;
    assert RemoveEach(ticked, marks) == Ok(ticked);
  }

  /** The values of the timers of a list, in order. */
  function States(ts: seq<Timer>): (r: seq<TimerState>)
    reads ts
    ensures |r| == |ts| && forall i :: 0 <= i < |ts| ==> r[i] == ts[i].State()
    decreases |ts|
  {
    if ts == [] then [] else States(ts[..|ts| - 1]) + [ts[|ts| - 1].State()]
  }

  lemma StatesAppend(ts: seq<Timer>, t: Timer)
    ensures States(ts + [t]) == States(ts) + [t.State()]
  {
    assert (ts + [t])[..|ts|] == ts;
  }

  lemma StatesRemoveAt(ts: seq<Timer>, i: nat)
    requires i < |ts|
    ensures States(RemoveAt(ts, i)) == RemoveAt(States(ts), i)
  {
  }

  /** `TemplateApp`: the list of timers, each owned by the list. */
  class TemplateApp {
    var timers: seq<Timer>

    /** No timer appears twice in the list (the `Vec` owns its timers). */
    ghost predicate Valid()
      reads this
    {
      forall i, j :: 0 <= i < j < |timers| ==> timers[i] != timers[j]
    }

    /** `TemplateApp::default()`: no timers. */
    constructor ()
      ensures Valid() && timers == []
    {
      timers := [];
    }

    /** "+ New timer": a default timer is appended; the timers already there are untouched. */
    method AddTimer()
      requires Valid()
      modifies this
      ensures Valid()
      ensures |timers| == |old(timers)| + 1 && timers[..|old(timers)|] == old(timers)
      ensures fresh(timers[|old(timers)|]) && timers[|old(timers)|].State() == DefaultState
      ensures States(timers) == old(States(timers)) + [DefaultState]
    {
      var t := new Timer.Default();
      StatesAppend(timers, t);
      timers := timers + [t];
    }

    /** Removing the timer at `idx` from the list, which panics for an index past the end. */
    method RemoveTimer(idx: nat) returns (r: Result<(), Panic>)
      requires Valid()
      modifies this
      ensures Valid()
      ensures r.Err? <==> idx >= |old(timers)|
      ensures r.Err? ==> r.error == RemovalIndexOutOfBounds(idx, |old(timers)|) && timers == old(timers)
      ensures r.Ok? ==> timers == RemoveAt(old(timers), idx)
      ensures r.Ok? ==> States(timers) == RemoveAt(old(States(timers)), idx)
    {
      if idx >= |timers| {
        return Err(RemovalIndexOutOfBounds(idx, |timers|));
      }
      StatesRemoveAt(timers, idx);
      timers := RemoveAt(timers, idx);
      r := Ok(());
    }

    /**
     * The frame loop over the timers and their indices: each timer is ticked in
     * place, in order; the rows shown are those of `TickAll`, and the
     * indices whose "x" was clicked are collected in ascending order.
     */
    method TickEach(now: uint64, clicks: seq<Clicks>) returns (r: Result<(seq<Row>, seq<nat>), Panic>)
      requires Valid()
      requires |clicks| == |timers|
      requires forall i :: 0 <= i < |timers| ==> Evaluable(timers[i].State())
      modifies timers
      ensures var spec := TickAll(old(States(timers)), now, clicks);
        && (r.Err? <==> spec.Err?)
        && (r.Err? ==> r.error == spec.error)
        && (r.Ok? ==> r.value.0 == spec.value.1 && r.value.1 == MarkedIndices(clicks) && States(timers) == spec.value.0)
    {
      ghost var before := States(timers);
      var removeIndices: seq<nat> := [];
      var rows: seq<Row> := [];
      var i := 0;
      while i < |timers|
        invariant 0 <= i <= |timers| && |rows| == i
        invariant forall j :: 0 <= j < i ==> Tick(before[j], now, clicks[j]) == Ok((timers[j].State(), rows[j]))
        invariant forall j :: i <= j < |timers| ==> timers[j].State() == before[j]
        invariant removeIndices == MarkedIndices(clicks[..i])
      {
        var shown := TickTimer(timers[i], now, clicks[i]);
        if shown.Err? {
          TickAllFirstPanic(before, now, clicks, i);
          return Err(shown.error);
        }
        MarkedIndicesExtend(clicks, i);
        rows := rows + [shown.value];
        if clicks[i].remove {
          removeIndices := removeIndices + [i];
        }
        i := i + 1;
      }
      assert clicks[..i] == clicks;
      TickAllPointwise(before, now, clicks);
      assert States(timers) == TickAll(before, now, clicks).value.0;
      r := Ok((rows, removeIndices));
    }

    /** The removal loop, done in place on the list, as `RemoveEach` describes it. */
    method RemoveMarked(indices: seq<nat>) returns (r: Result<(), Panic>)
      requires Valid()
      modifies this
      ensures Valid()
      ensures var spec := RemoveEach(old(States(timers)), indices);
        && (r.Err? <==> spec.Err?)
        && (r.Err? ==> r.error == spec.error)
        && (r.Ok? ==> States(timers) == spec.value)
    {
      ghost var initial := States(timers);
      var k := 0;
      while k < |indices|
        invariant 0 <= k <= |indices|
        invariant Valid()
        invariant RemoveEach(initial, indices) == RemoveEach(States(timers), indices[k..])
      {
        var removed := RemoveTimer(indices[k]);
        if removed.Err? {
          return Err(removed.error);
        }
        assert indices[k..][1..] == indices[k + 1..];
        k := k + 1;
      }
      r := Ok(());
    }

    /**
     * One frame at clock reading `now`, given which buttons were clicked:
     * the rows shown and the new list are those of `Frame`, and a panic of
     * `Frame` is a panic here.
     */
    method Update(now: uint64, clicks: seq<Clicks>, addClicked: bool) returns (r: Result<seq<Row>, Panic>)
      requires Valid()
      requires |clicks| == |timers|
      requires forall i :: 0 <= i < |timers| ==> Evaluable(timers[i].State())
      modifies this, timers
      ensures Valid()
      ensures var spec := Frame(old(States(timers)), now, clicks, addClicked);
        && (r.Err? <==> spec.Err?)
        && (r.Err? ==> r.error == spec.error)
        && (r.Ok? ==> r.value == spec.value.1 && States(timers) == spec.value.0)
    {
      var ticked := TickEach(now, clicks);
      if ticked.Err? {
        return Err(ticked.error);
      }
      var removed := RemoveMarked(ticked.value.1);
      if removed.Err? {
        return Err(removed.error);
      }
      if addClicked {
        AddTimer();
      }
      r := Ok(ticked.value.0);
    }
  }
}
