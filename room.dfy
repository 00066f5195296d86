/** The cells of the vacuum world, as a flat list of per-location states:
    0 marks a dirty location and 1 a clean one. Any other integer is a state
    that the cleaning policy never cleans and never picks as a move target. */
module Room {

  const Dirty := 0
  const Clean := 1

  /** Every cell holds one of the two states. */
  predicate IsBinary(s: seq<int>) {
    forall i :: 0 <= i < |s| ==> s[i] == Dirty || s[i] == Clean
  }

  /** The environment's clean check: every cell is clean (true of an empty room). */
  function AllClean(s: seq<int>): (r: bool)
    ensures r <==> forall i :: 0 <= i < |s| ==> s[i] == Clean
  {
    |s| == 0 || (s[0] == Clean && AllClean(s[1..]))
  }

  /** The dirty indices at or after k, in ascending order. */
  function DirtyFrom(s: seq<int>, k: nat): (r: seq<nat>)
    requires k <= |s|
    ensures forall j :: 0 <= j < |r| ==> k <= r[j] < |s| && s[r[j]] == Dirty
    decreases |s| - k
  {
    if k == |s| then []
    else (if s[k] == Dirty then [k] else []) + DirtyFrom(s, k + 1)
  }

  /** Every dirty index from k on is listed. */
  lemma {:induction false} DirtyFromHasAll(s: seq<int>, k: nat)
    requires k <= |s|
    ensures forall i :: k <= i < |s| && s[i] == Dirty ==> i in DirtyFrom(s, k)
    decreases |s| - k
  {
    if k < |s| {
      DirtyFromHasAll(s, k + 1);
      var head: seq<nat> := if s[k] == Dirty then [k] else [];
      var rest := DirtyFrom(s, k + 1);
      assert DirtyFrom(s, k) == head + rest;
      forall i | k <= i < |s| && s[i] == Dirty
        ensures i in DirtyFrom(s, k)
      {
        if i == k {
          assert i in head;
        } else {
          assert i in rest;
        }
      }
    }
  }

  /** The dirty list from k on is strictly ascending. */
  lemma {:induction false} DirtyFromAscending(s: seq<int>, k: nat)
    requires k <= |s|
    ensures forall a, b :: 0 <= a < b < |DirtyFrom(s, k)| ==> DirtyFrom(s, k)[a] < DirtyFrom(s, k)[b]
    decreases |s| - k
  {
    if k < |s| {
      DirtyFromAscending(s, k + 1);
      var head: seq<nat> := if s[k] == Dirty then [k] else [];
      var rest := DirtyFrom(s, k + 1);
      var r := DirtyFrom(s, k);
      assert r == head + rest;
      forall a, b | 0 <= a < b < |r|
        ensures r[a] < r[b]
      {
        assert r[b] == rest[b - |head|];
        if a >= |head| {
          assert r[a] == rest[a - |head|];
          assert rest[a - |head|] < rest[b - |head|];
        } else {
          assert r[a] == k;
        }
      }
    }
  }

  /** The list of dirty indices both agents compute before moving: only
      dirty cells, each in range. */
  function DirtyPositions(s: seq<int>): (r: seq<nat>)
    ensures forall j :: 0 <= j < |r| ==> r[j] < |s| && s[r[j]] == Dirty
  {
    DirtyFrom(s, 0)
  }

  /** The dirty list holds every dirty cell, lowest index first. */
  lemma DirtyPositionsComplete(s: seq<int>)
    ensures var r := DirtyPositions(s);
      (forall i :: 0 <= i < |s| && s[i] == Dirty ==> i in r) &&
      (forall a, b :: 0 <= a < b < |r| ==> r[a] < r[b])
  {
    assert DirtyPositions(s) == DirtyFrom(s, 0);
    DirtyFromHasAll(s, 0);
    DirtyFromAscending(s, 0);
  }

  /** The number of dirty cells. */
  function DirtyCount(s: seq<int>): nat {
    |DirtyPositions(s)|
  }

  /** The first entry of the dirty list is the lowest dirty index. */
  lemma FirstDirtyIsLowest(s: seq<int>)
    requires DirtyPositions(s) != []
    ensures var t := DirtyPositions(s)[0];
      t < |s| && s[t] == Dirty && forall j :: 0 <= j < t ==> s[j] != Dirty
  {
    var d := DirtyPositions(s);
    DirtyPositionsComplete(s);
    forall j | 0 <= j < |s| && s[j] == Dirty
      ensures d[0] <= j
    {
      assert j in d;
      var k :| 0 <= k < |d| && d[k] == j;
      if k > 0 {
        assert d[0] < d[k];
      }
    }
  }

  /** For a binary room the clean check holds exactly when the dirty list is empty. */
  lemma CleanIffNoDirty(s: seq<int>)
    requires IsBinary(s)
    ensures AllClean(s) <==> DirtyPositions(s) == []
  {
    var d := DirtyPositions(s);
    DirtyPositionsComplete(s);
    if !AllClean(s) {
      var i :| 0 <= i < |s| && s[i] != Clean;
      assert i in d;
    }
    assert |d| > 0 ==> s[d[0]] == Dirty;
  }

  /** There are never more dirty cells than cells. */
  lemma {:induction false} DirtyFromBound(s: seq<int>, k: nat)
    requires k <= |s|
    ensures |DirtyFrom(s, k)| <= |s| - k
    decreases |s| - k
  {
    if k < |s| {
      DirtyFromBound(s, k + 1);
    }
  }

  lemma DirtyCountBound(s: seq<int>)
    ensures DirtyCount(s) <= |s|
  {
    DirtyFromBound(s, 0);
  }

  /** Cleaning the dirty cell p removes p, and only p, from the dirty list from k on. */
  lemma {:induction false} DirtyFromAfterClean(s: seq<int>, p: nat, k: nat)
    requires p < |s| && s[p] == Dirty && k <= |s|
    ensures |DirtyFrom(s[p := Clean], k)| == |DirtyFrom(s, k)| - (if k <= p then 1 else 0)
    decreases |s| - k
  {
    if k < |s| {
      DirtyFromAfterClean(s, p, k + 1);
    }
  }

  /** The room after cleaning the location p: a dirty cell there becomes clean,
      any other state is left alone, and no other cell changes. */
  function CleanCell(s: seq<int>, p: nat): (r: seq<int>)
    requires p < |s|
    ensures |r| == |s|
    ensures r[p] == (if s[p] == Dirty then Clean else s[p])
    ensures forall i :: 0 <= i < |s| && i != p ==> r[i] == s[i]
    ensures DirtyCount(r) == DirtyCount(s) - (if s[p] == Dirty then 1 else 0)
  {
    if s[p] == Dirty then
      DirtyFromAfterClean(s, p, 0);
      s[p := Clean]
    else s
  }

  /** Cleaning a location twice is the same as cleaning it once. */
  lemma CleanCellIdempotent(s: seq<int>, p: nat)
    requires p < |s|
    ensures CleanCell(CleanCell(s, p), p) == CleanCell(s, p)
  {
  }

  /** The room with every dirty cell made clean and every other cell left alone. */
  function CleanedRoom(s: seq<int>): (r: seq<int>)
    ensures |r| == |s|
    ensures forall i :: 0 <= i < |s| ==> r[i] == (if s[i] == Dirty then Clean else s[i])
  {
    seq(|s|, i requires 0 <= i < |s| => if s[i] == Dirty then Clean else s[i])
  }

  /** Cleaning one location does not change which room full cleaning ends in. */
  lemma CleanedRoomAfterClean(s: seq<int>, p: nat)
    requires p < |s|
    ensures CleanedRoom(CleanCell(s, p)) == CleanedRoom(s)
  {
    var a, b := CleanedRoom(CleanCell(s, p)), CleanedRoom(s);
    assert forall i :: 0 <= i < |s| ==> a[i] == b[i];
  }

  /** A room with no dirty cell is its own fully cleaned room. */
  lemma CleanedRoomOfNoDirty(s: seq<int>)
    requires DirtyPositions(s) == []
    ensures CleanedRoom(s) == s
  {
    DirtyPositionsComplete(s);
    forall i | 0 <= i < |s|
      ensures CleanedRoom(s)[i] == s[i]
    {
      if s[i] == Dirty {
        assert i in DirtyPositions(s);
      }
    }
  }

  /** A binary room, fully cleaned, is all clean. */
  lemma CleanedBinaryIsClean(s: seq<int>)
    requires IsBinary(s)
    ensures AllClean(CleanedRoom(s))
  {
  }

  /** `after` arose from `before` by cleaning dirty cells only: every cell
      is unchanged or went from dirty to clean. */
  ghost predicate OnlyCleaned(before: seq<int>, after: seq<int>) {
    |after| == |before| &&
    forall i :: 0 <= i < |before| ==>
      after[i] == before[i] || (before[i] == Dirty && after[i] == Clean)
  }

  /** Cleaning the current cell keeps that relation to any earlier room, and
      does not raise the dirty count. */
  lemma OnlyCleanedStep(s0: seq<int>, s: seq<int>, p: nat)
    requires OnlyCleaned(s0, s) && p < |s|
    ensures OnlyCleaned(s0, CleanCell(s, p))
    ensures DirtyCount(CleanCell(s, p)) <= DirtyCount(s)
  {
  }
}
