/** Maximal runs of consecutive numbers in a set of numbers below n. */
module Runs {

  datatype Range = Range(first: nat, second: nat)

  /** The least member from i on, or n. */
  function NextIn(s: set<nat>, n: nat, i: nat): (r: nat)
    requires i <= n
    ensures i <= r <= n && (r < n ==> r in s)
    ensures forall j :: i <= j < r ==> j !in s
    decreases n - i
  {
    if i == n || i in s then i else NextIn(s, n, i + 1)
  }

  /** The least number from i on that is not a member, or n. */
  function NextOut(s: set<nat>, n: nat, i: nat): (r: nat)
    requires i <= n
    ensures i <= r <= n && (r < n ==> r !in s)
    ensures forall j :: i <= j < r ==> j in s
    decreases n - i
  {
    if i == n || i !in s then i else NextOut(s, n, i + 1)
  }

  /** The first run that starts at start or after it; an empty one at n if there is none. */
  function FirstRun(s: set<nat>, n: nat, start: nat): Range {
    if start >= n then Range(n, n) else var first := NextIn(s, n, start); Range(first, NextOut(s, n, first))
  }

  /** One more than the greatest member below i, or 0. */
  function PrevIn(s: set<nat>, i: nat): (r: nat)
    ensures r <= i && (r > 0 ==> r - 1 in s)
    ensures forall j :: r <= j < i ==> j !in s
  {
    if i == 0 || i - 1 in s then i else PrevIn(s, i - 1)
  }

  /** One more than the greatest number below i that is not a member, or 0. */
  function PrevOut(s: set<nat>, i: nat): (r: nat)
    ensures r <= i && (r > 0 ==> r - 1 !in s)
    ensures forall j :: r <= j < i ==> j in s
  {
    if i == 0 || i - 1 !in s then i else PrevOut(s, i - 1)
  }

  /** The last run below end, cut off there; an empty one at 0 if there is none. */
  function LastRun(s: set<nat>, end: nat): Range {
    var second := PrevIn(s, end);
    Range(PrevOut(s, second), second)
  }

  /** The runs that one finds by starting each search where the last run ended. */
  function RunsFrom(s: set<nat>, n: nat, start: nat): seq<Range>
    requires start <= n
    decreases n - start
  {
    var r := FirstRun(s, n, start);
    if r.first == n then [] else [r] + RunsFrom(s, n, r.second)
  }

  lemma NextRun(s: set<nat>, n: nat, start: nat)
    requires start <= n
    ensures var r := FirstRun(s, n, start);
      && start <= r.first <= r.second <= n && (r.first == r.second <==> r.first == n)
      && RunsFrom(s, n, start) == if r.first == n then [] else [r] + RunsFrom(s, n, r.second)
  {
  }

  // ----- What these runs are -----

  /** Not empty, all of it in the set, and with no members right before or after it. */
  ghost predicate Maximal(s: set<nat>, n: nat, start: nat, r: Range) {
    && start <= r.first < r.second <= n
    && (forall i :: r.first <= i < r.second ==> i in s)
    && (r.first > start ==> r.first - 1 !in s) && (r.second < n ==> r.second !in s)
  }

  ghost predicate Covered(rs: seq<Range>, i: int) {
    exists k :: 0 <= k < |rs| && rs[k].first <= i < rs[k].second
  }

  /** All the maximal runs from start on, in order, with a gap after each. */
  ghost predicate AllRuns(s: set<nat>, n: nat, start: nat, rs: seq<Range>) {
    && (forall k :: 0 <= k < |rs| ==> Maximal(s, n, start, rs[k]))
    && (forall k, l :: 0 <= k < l < |rs| ==> rs[k].second < rs[l].first)
    && (forall i :: start <= i < n && i in s ==> Covered(rs, i))
  }

  lemma CoveredNext(r: Range, rest: seq<Range>, i: nat)
    requires r.first <= i < r.second || Covered(rest, i)
    ensures Covered([r] + rest, i)
  {
    var rs := [r] + rest;
    if r.first <= i < r.second {
      assert rs[0].first <= i < rs[0].second;
    } else {
      var k :| 0 <= k < |rest| && rest[k].first <= i < rest[k].second;
      assert rs[k + 1].first <= i < rs[k + 1].second;
    }
  }

  lemma MaximalNext(s: set<nat>, n: nat, start: nat, r: Range, later: Range)
    requires Maximal(s, n, start, r) && Maximal(s, n, r.second, later)
    ensures Maximal(s, n, start, later) && r.second < later.first
  {
  }

  lemma AllRunsNext(s: set<nat>, n: nat, start: nat, r: Range, rest: seq<Range>)
    requires Maximal(s, n, start, r) && AllRuns(s, n, r.second, rest)
    requires forall i :: start <= i < r.first ==> i !in s
    ensures AllRuns(s, n, start, [r] + rest)
  {
    forall k | 0 <= k < |rest| ensures Maximal(s, n, start, rest[k]) && r.second < rest[k].first {
      MaximalNext(s, n, start, r, rest[k]);
    }
    forall i | start <= i < n && i in s ensures Covered([r] + rest, i) {
      CoveredNext(r, rest, i);
    }
    hide Maximal, Covered;
    var rs := [r] + rest;
    assert forall k :: 0 < k < |rs| ==> rs[k] == rest[k - 1];
  }

  lemma FirstIsMaximal(s: set<nat>, n: nat, start: nat)
    requires start <= n && FirstRun(s, n, start).first < n
    ensures Maximal(s, n, start, FirstRun(s, n, start))
    ensures forall i :: start <= i < FirstRun(s, n, start).first ==> i !in s
  {
  }

  /** A search that starts just after a run finds runs that are maximal in the whole set. */
  lemma {:induction false} RunsAreAll(s: set<nat>, n: nat, start: nat)
    requires start <= n
    ensures AllRuns(s, n, start, RunsFrom(s, n, start))
    decreases n - start
  {
    var r := FirstRun(s, n, start);
    if r.first < n {
      hide AllRuns, Maximal, NextIn, NextOut;
      FirstIsMaximal(s, n, start);
      RunsAreAll(s, n, r.second);
      AllRunsNext(s, n, start, r, RunsFrom(s, n, r.second));
    }
  }

  lemma RunIs(s: set<nat>, n: nat, start: nat, r: Range)
    requires start <= n && Maximal(s, n, start, r) && forall i :: start <= i < r.first ==> i !in s
    ensures FirstRun(s, n, start) == r
  {
    var f := FirstRun(s, n, start);
    assert f.first < r.first ==> f.first !in s;
    assert f.first > r.first ==> r.first !in s;
    assert f.second < r.second ==> f.second in s;
    assert f.second > r.second ==> r.second in s;
  }

  lemma AfterFirst(s: set<nat>, n: nat, start: nat, rs: seq<Range>)
    requires AllRuns(s, n, start, rs) && rs != []
    ensures AllRuns(s, n, rs[0].second, rs[1..])
    ensures Maximal(s, n, start, rs[0]) && forall i :: start <= i < rs[0].first ==> i !in s
  {
    var r, rest := rs[0], rs[1..];
    forall i | start <= i < r.first ensures i !in s {
      assert i in s ==> Covered(rs, i);
    }
    forall k | 0 <= k < |rest| ensures Maximal(s, n, r.second, rest[k]) {
      assert Maximal(s, n, start, rs[k + 1]) && rs[0].second < rs[k + 1].first;
    }
    forall i | r.second <= i < n && i in s ensures Covered(rest, i) {
      assert Covered(rs, i);
      var k :| 0 <= k < |rs| && rs[k].first <= i < rs[k].second;
      assert rest[k - 1].first <= i < rest[k - 1].second;
    }
  }

  /** And only they are all the maximal runs. */
  lemma {:induction false} OnlyRuns(s: set<nat>, n: nat, start: nat, rs: seq<Range>)
    requires start <= n && AllRuns(s, n, start, rs)
    ensures rs == RunsFrom(s, n, start)
    decreases |rs|
  {
    if rs == [] {
      var f := FirstRun(s, n, start).first;
      assert f < n ==> Covered(rs, f);
    } else {
      AfterFirst(s, n, start, rs);
      RunIs(s, n, start, rs[0]);
      hide AllRuns, FirstRun;
      OnlyRuns(s, n, rs[0].second, rs[1..]);
    }
  }

  lemma LastRunIs(s: set<nat>, n: nat, r: Range)
    requires Maximal(s, n, 0, r) && forall i :: r.second <= i < n ==> i !in s
    ensures LastRun(s, n) == r
  {
    var l := LastRun(s, n);
    assert r.second - 1 in s;
    assert l.second == r.second;
    assert l.first < r.first ==> r.first - 1 in s;
    assert r.first < l.first ==> l.first - 1 in s;
  }

  lemma NothingAfter(s: set<nat>, n: nat, rs: seq<Range>)
    requires AllRuns(s, n, 0, rs) && exists i :: 0 <= i < n && i in s
    ensures |rs| > 0 && Maximal(s, n, 0, rs[|rs| - 1])
    ensures forall i :: rs[|rs| - 1].second <= i < n ==> i !in s
  {
    var i :| 0 <= i < n && i in s;
    assert Covered(rs, i);
    assert Maximal(s, n, 0, rs[|rs| - 1]);
    forall i | rs[|rs| - 1].second <= i < n ensures i !in s {
      assert i in s ==> Covered(rs, i);
    }
  }

  /** The last run that the forward search finds is the one that the backward search finds. */
  lemma LastIsLast(s: set<nat>, n: nat)
    requires exists i :: 0 <= i < n && i in s
    ensures var rs := RunsFrom(s, n, 0);
      |rs| > 0 && LastRun(s, n) == rs[|rs| - 1]
  {
    hide AllRuns, Maximal, RunsFrom, LastRun;
    RunsAreAll(s, n, 0);
    var rs := RunsFrom(s, n, 0);
    NothingAfter(s, n, rs);
    LastRunIs(s, n, rs[|rs| - 1]);
  }

  /** The first run from start on: it begins at the first member, and ends where members do. */
  lemma FirstIs(s: set<nat>, n: nat, start: nat)
    ensures var r := FirstRun(s, n, start);
      if exists i :: start <= i < n && i in s then
        && start <= r.first < r.second <= n && (forall i :: start <= i < r.first ==> i !in s)
        && (forall i :: r.first <= i < r.second ==> i in s) && (r.second < n ==> r.second !in s)
      else r == Range(n, n)
  {
  }

  /** The last run below end: it ends at the last member, or at end, and begins where members do. */
  lemma LastIs(s: set<nat>, end: nat)
    ensures var r := LastRun(s, end);
      if exists i :: 0 <= i < end && i in s then
        && r.first < r.second <= end && (forall i :: r.second <= i < end ==> i !in s)
        && (forall i :: r.first <= i < r.second ==> i in s) && (r.first > 0 ==> r.first - 1 !in s)
      else r == Range(0, 0)
  {
  }
}
