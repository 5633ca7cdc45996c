/** Selecting elements of a list in order: what a filter gives, told by positions. */
module Selections {
  /** These positions rise, and are exactly those of the elements chosen. */
  predicate Picked<T>(xs: seq<T>, chosen: T -> bool, positions: seq<nat>) {
    && (forall i :: 0 <= i < |positions| ==> positions[i] < |xs| && chosen(xs[positions[i]]))
    && (forall i, j :: 0 <= i < j < |positions| ==> positions[i] < positions[j])
    && forall n: nat :: n < |xs| && chosen(xs[n]) ==> n in positions
  }

  predicate ElementsAt<T(==)>(xs: seq<T>, positions: seq<nat>, ys: seq<T>) {
    && |ys| == |positions|
    && forall i :: 0 <= i < |ys| ==> positions[i] < |xs| && ys[i] == xs[positions[i]]
  }

  /** The second list has the chosen elements of the first, in order and as often. */
  ghost predicate IsSelection<T>(xs: seq<T>, chosen: T -> bool, ys: seq<T>) {
    exists positions: seq<nat> :: Picked(xs, chosen, positions) && ElementsAt(xs, positions, ys)
  }

  lemma {:induction false} NothingSelected<T>(chosen: T -> bool)
    ensures IsSelection([], chosen, [])
  {
    assert Picked([], chosen, []) && ElementsAt<T>([], [], []);
  }

  function MovedOn(positions: seq<nat>): seq<nat> {
    seq(|positions|, i requires 0 <= i < |positions| => positions[i] + 1)
  }

  /** The positions behind the first. */
  predicate PickedBehind<T>(xs: seq<T>, chosen: T -> bool, positions: seq<nat>) {
    && (forall i :: 0 <= i < |positions| ==> 0 < positions[i] < |xs| && chosen(xs[positions[i]]))
    && (forall i, j :: 0 <= i < j < |positions| ==> positions[i] < positions[j])
    && forall n: nat :: 0 < n < |xs| && chosen(xs[n]) ==> n in positions
  }

  lemma {:induction false} PickedLater<T>(xs: seq<T>, chosen: T -> bool, rest: seq<nat>)
    requires xs != [] && Picked(xs[1..], chosen, rest)
    ensures PickedBehind(xs, chosen, MovedOn(rest))
  {
    var positions := MovedOn(rest);
    forall n: nat | 0 < n < |xs| && chosen(xs[n])
      ensures n in positions
    {
      assert xs[1..][n - 1] == xs[n];
      var i :| 0 <= i < |rest| && rest[i] == n - 1;
      assert positions[i] == n;
    }
  }

  lemma {:induction false} PickedFirst<T>(xs: seq<T>, chosen: T -> bool, later: seq<nat>)
    requires xs != [] && PickedBehind(xs, chosen, later)
    ensures Picked(xs, chosen, if chosen(xs[0]) then [0] + later else later)
  {
    if chosen(xs[0]) {
      ZeroFirst(xs, chosen, later);
    }
  }

  lemma {:induction false} ZeroFirst<T>(xs: seq<T>, chosen: T -> bool, later: seq<nat>)
    requires xs != [] && PickedBehind(xs, chosen, later) && chosen(xs[0])
    ensures Picked(xs, chosen, [0] + later)
  {
    var positions := [0] + later;
    assert positions[0] == 0;
    forall n: nat | n < |xs| && chosen(xs[n])
      ensures n in positions
    {
      assert n > 0 ==> n in later;
    }
  }

  lemma {:induction false} ElementsLater<T>(xs: seq<T>, rest: seq<nat>, ys: seq<T>)
    requires xs != [] && ElementsAt(xs[1..], rest, ys)
    ensures ElementsAt(xs, MovedOn(rest), ys) && ElementsAt(xs, [0] + MovedOn(rest), [xs[0]] + ys)
  {
  }

  /** One more element in front. */
  lemma {:induction false} SelectionStep<T>(xs: seq<T>, chosen: T -> bool, ys: seq<T>)
    requires xs != [] && IsSelection(xs[1..], chosen, ys)
    ensures IsSelection(xs, chosen, if chosen(xs[0]) then [xs[0]] + ys else ys)
  {
    var rest: seq<nat> :| Picked(xs[1..], chosen, rest) && ElementsAt(xs[1..], rest, ys);
    PickedLater(xs, chosen, rest);
    ElementsLater(xs, rest, ys);
    hide Picked, ElementsAt, PickedBehind, MovedOn;
    PickedFirst(xs, chosen, MovedOn(rest));
  }

  // ---- There is one selection ----

  lemma {:induction false} FirstPicked<T>(xs: seq<T>, chosen: T -> bool, positions: seq<nat>)
    requires xs != [] && Picked(xs, chosen, positions) && chosen(xs[0])
    ensures positions != [] && positions[0] == 0
  {
    var i :| 0 <= i < |positions| && positions[i] == 0;
    assert positions[0] <= positions[i];
  }

  function MovedBack(positions: seq<nat>): seq<nat>
    requires forall i :: 0 <= i < |positions| ==> positions[i] > 0
  {
    seq(|positions|, i requires 0 <= i < |positions| => positions[i] - 1)
  }

  lemma {:induction false} PickedRest<T>(xs: seq<T>, chosen: T -> bool, later: seq<nat>)
    requires xs != [] && PickedBehind(xs, chosen, later)
    ensures Picked(xs[1..], chosen, MovedBack(later))
  {
    var positions := MovedBack(later);
    forall n: nat | n < |xs[1..]| && chosen(xs[1..][n])
      ensures n in positions
    {
      assert xs[n + 1] == xs[1..][n];
      var i :| 0 <= i < |later| && later[i] == n + 1;
      assert positions[i] == n;
    }
  }

  lemma {:induction false} SelectionRest<T>(xs: seq<T>, chosen: T -> bool, ys: seq<T>)
    requires xs != [] && IsSelection(xs, chosen, ys)
    ensures if chosen(xs[0]) then ys != [] && ys[0] == xs[0] && IsSelection(xs[1..], chosen, ys[1..])
            else IsSelection(xs[1..], chosen, ys)
  {
    var positions: seq<nat> :| Picked(xs, chosen, positions) && ElementsAt(xs, positions, ys);
    if chosen(xs[0]) {
      FirstPicked(xs, chosen, positions);
      BehindFirst(xs, chosen, positions);
      FirstElement(xs, positions, ys);
      hide Picked, ElementsAt;
      SelectedBehind(xs, chosen, positions[1..], ys[1..]);
    } else {
      NotFirst(xs, chosen, positions);
      hide Picked, ElementsAt;
      SelectedBehind(xs, chosen, positions, ys);
    }
  }

  lemma {:induction false} FirstElement<T>(xs: seq<T>, positions: seq<nat>, ys: seq<T>)
    requires xs != [] && positions != [] && positions[0] == 0 && ElementsAt(xs, positions, ys)
    ensures ys != [] && ys[0] == xs[0] && ElementsAt(xs, positions[1..], ys[1..])
  {
  }

  lemma {:induction false} SelectedBehind<T>(xs: seq<T>, chosen: T -> bool, later: seq<nat>, ys: seq<T>)
    requires xs != [] && PickedBehind(xs, chosen, later) && ElementsAt(xs, later, ys)
    ensures IsSelection(xs[1..], chosen, ys)
  {
    PickedRest(xs, chosen, later);
    ElementsRest(xs, chosen, later, ys);
    hide Picked, ElementsAt, PickedBehind, MovedBack;
  }

  lemma {:induction false} ElementsRest<T>(xs: seq<T>, chosen: T -> bool, later: seq<nat>, ys: seq<T>)
    requires xs != [] && PickedBehind(xs, chosen, later) && ElementsAt(xs, later, ys)
    ensures ElementsAt(xs[1..], MovedBack(later), ys)
  {
  }

  lemma {:induction false} BehindFirst<T>(xs: seq<T>, chosen: T -> bool, positions: seq<nat>)
    requires xs != [] && Picked(xs, chosen, positions) && positions != [] && positions[0] == 0
    ensures PickedBehind(xs, chosen, positions[1..])
  {
    var later := positions[1..];
    forall n: nat | 0 < n < |xs| && chosen(xs[n])
      ensures n in later
    {
      var i :| 0 <= i < |positions| && positions[i] == n;
      assert later[i - 1] == n;
    }
  }

  lemma {:induction false} NotFirst<T>(xs: seq<T>, chosen: T -> bool, positions: seq<nat>)
    requires xs != [] && Picked(xs, chosen, positions) && !chosen(xs[0])
    ensures PickedBehind(xs, chosen, positions)
  {
  }

  lemma {:induction false} OneSelection<T>(xs: seq<T>, chosen: T -> bool, a: seq<T>, b: seq<T>)
    requires IsSelection(xs, chosen, a) && IsSelection(xs, chosen, b)
    ensures a == b
  {
    hide IsSelection;
    if xs != [] {
      SelectionRest(xs, chosen, a);
      SelectionRest(xs, chosen, b);
      if chosen(xs[0]) {
        OneSelection(xs[1..], chosen, a[1..], b[1..]);
        assert a == [a[0]] + a[1..] && b == [b[0]] + b[1..];
      } else {
        OneSelection(xs[1..], chosen, a, b);
      }
    } else {
      NoneInNothing(chosen, a);
      NoneInNothing(chosen, b);
    }
  }

  lemma {:induction false} NoneInNothing<T>(chosen: T -> bool, ys: seq<T>)
    requires IsSelection([], chosen, ys)
    ensures ys == []
  {
    var positions: seq<nat> :| Picked([], chosen, positions) && ElementsAt([], positions, ys);
    RisingBound(positions, 0);
  }

  lemma {:induction false} RisingBound(positions: seq<nat>, n: nat)
    requires forall i :: 0 <= i < |positions| ==> positions[i] < n
    requires forall i, j :: 0 <= i < j < |positions| ==> positions[i] < positions[j]
    ensures |positions| <= n
  {
    if positions != [] {
      var last := |positions| - 1;
      RisingBound(positions[..last], positions[last]);
    }
  }
}
