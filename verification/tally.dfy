/**
 * The "most so far" scan both engines run over vote tallies and session statistics:
 * `if (value > best) { best = value; winner = key }`, left to right.
 */
module Tally {
  import opened Common

  /**
   * Index the scan ends on when `best` starts at `floor` and no winner: the first position holding
   * the largest value, provided that value exceeds `floor`. Among equal maxima the first one wins.
   */
  function FirstMaxAbove(vs: seq<int>, floor: int): (r: Option<nat>)
    ensures r.Some? ==> r.value < |vs|
  {
    if vs == [] then None
    else
      var r := FirstMaxAbove(vs[..|vs| - 1], floor);
      var best := if r.None? then floor else vs[r.value];
      if vs[|vs| - 1] > best then Some(|vs| - 1) else r
  }

  /**
   * There is no winner exactly when no value exceeds the floor; otherwise the winner's value
   * exceeds the floor, no value is larger and every earlier value is smaller.
   */
  lemma {:induction false} FirstMaxAboveIs(vs: seq<int>, floor: int)
    ensures var r := FirstMaxAbove(vs, floor);
      && (r.None? <==> forall i :: 0 <= i < |vs| ==> vs[i] <= floor)
      && (r.Some? ==> r.value < |vs| && vs[r.value] > floor)
      && (r.Some? ==> forall i :: 0 <= i < |vs| ==> vs[i] <= vs[r.value])
      && (r.Some? ==> forall i :: 0 <= i < r.value ==> vs[i] < vs[r.value])
  {
    if vs != [] {
      var front := vs[..|vs| - 1];
      FirstMaxAboveIs(front, floor);
      assert forall i :: 0 <= i < |front| ==> front[i] == vs[i];
    }
  }

  /** The value of `best` when the scan ends. */
  function ScanBest(vs: seq<int>, floor: int): int
  {
    match FirstMaxAbove(vs, floor)
    case None => floor
    case Some(k) => vs[k]
  }

  /** The conditions above pin the index down: it is the only one that satisfies them. */
  lemma FirstMaxUnique(vs: seq<int>, floor: int, k: nat)
    requires k < |vs| && vs[k] > floor
    requires forall i :: 0 <= i < |vs| ==> vs[i] <= vs[k]
    requires forall i :: 0 <= i < k ==> vs[i] < vs[k]
    ensures FirstMaxAbove(vs, floor) == Some(k)
  {
    FirstMaxAboveIs(vs, floor);
    var r := FirstMaxAbove(vs, floor);
    assert r.Some?;
    assert !(r.value < k) && !(k < r.value);
  }

  /** One step of the scan: the element after a prefix wins exactly when it beats the prefix's best. */
  lemma ScanStep(vs: seq<int>, floor: int, i: nat)
    requires i < |vs|
    ensures FirstMaxAbove(vs[..i + 1], floor) ==
      if vs[i] > ScanBest(vs[..i], floor) then Some(i) else FirstMaxAbove(vs[..i], floor)
  {
    assert vs[..i + 1][..i] == vs[..i];
  }
}
