/** Paths over an arbitrary step relation, and breadth-first search seen from the outside:
    what a queue, parent links and depths must satisfy for the first unvisited cell
    discovered to be a nearest one. */
module CellPaths {

  datatype Cell = Cell(x: int, y: int)

  /** `step(a, b)`: one move leads from `a` to `b`. */
  type Steps = (Cell, Cell) -> bool

  ghost predicate IsPath(step: Steps, p: seq<Cell>) {
    |p| > 0 && forall i, j :: 0 <= i < j < |p| && j <= i + 1 ==> step(p[i], p[j])
  }

  ghost predicate LeadsTo(step: Steps, start: Cell, goal: Cell, p: seq<Cell>) {
    IsPath(step, p) && p[0] == start && p[|p|-1] == goal
  }

  /** `p` leads from `start` to an unvisited cell. */
  ghost predicate Escapes(step: Steps, start: Cell, visited: set<Cell>, p: seq<Cell>) {
    IsPath(step, p) && p[0] == start && p[|p|-1] !in visited
  }

  /** `p` is a shortest path to an unvisited cell. */
  ghost predicate Nearest(step: Steps, start: Cell, visited: set<Cell>, p: seq<Cell>) {
    && Escapes(step, start, visited, p)
    && forall q :: Escapes(step, start, visited, q) ==> |p| <= |q|
  }

  ghost predicate NothingLeft(step: Steps, start: Cell, visited: set<Cell>) {
    forall q :: !Escapes(step, start, visited, q)
  }

  // ---------- Which of several shortest paths ----------

  function Gap(a: int, b: int): nat { if a < b then b - a else a - b }

  /** One cell apart, sideways or up and down. */
  predicate Beside(a: Cell, b: Cell) { Gap(a.x, b.x) + Gap(a.y, b.y) == 1 }

  /** Right comes before left, left before down (growing y), down before up. */
  function Rank(a: Cell, b: Cell): nat {
    if b.x > a.x then 0 else if b.x < a.x then 1 else if b.y > a.y then 2 else 3
  }

  ghost predicate Local(step: Steps) { forall a, b :: step(a, b) ==> Beside(a, b) }

  /** The paths part at `i`, where `p` takes the direction that comes first. */
  predicate PartAt(p: seq<Cell>, q: seq<Cell>, i: nat) {
    0 < i < |p| && i < |q| && p[..i] == q[..i] && Rank(p[i-1], p[i]) < Rank(q[i-1], q[i])
  }

  ghost predicate Before(p: seq<Cell>, q: seq<Cell>) { exists i: nat :: PartAt(p, q, i) }

  ghost predicate NotAfter(p: seq<Cell>, q: seq<Cell>) { p == q || Before(p, q) }

  /** Of all shortest paths to an unvisited cell, `p` is the first in the order of directions. */
  ghost predicate First(step: Steps, start: Cell, visited: set<Cell>, p: seq<Cell>) {
    Nearest(step, start, visited, p) && forall q :: Nearest(step, start, visited, q) ==> NotAfter(p, q)
  }

  lemma RankDecides(a: Cell, b: Cell, c: Cell)
    requires Beside(a, b) && Beside(a, c) && Rank(a, b) == Rank(a, c)
    ensures b == c
  {
  }

  lemma BeforeExtends(p: seq<Cell>, q: seq<Cell>, a: Cell, b: Cell)
    requires Before(p, q)
    ensures Before(p + [a], q + [b])
  {
    var i: nat :| PartAt(p, q, i);
    assert (p + [a])[..i] == p[..i] && (q + [b])[..i] == q[..i];
    assert PartAt(p + [a], q + [b], i);
  }

  lemma LastStepParts(p: seq<Cell>, a: Cell, b: Cell)
    requires |p| > 0 && Rank(p[|p|-1], a) < Rank(p[|p|-1], b)
    ensures Before(p + [a], p + [b])
  {
    assert (p + [a])[..|p|] == (p + [b])[..|p|];
    assert PartAt(p + [a], p + [b], |p|);
  }

  lemma BeforeChains(p: seq<Cell>, q: seq<Cell>, r: seq<Cell>)
    requires Before(p, q) && NotAfter(q, r)
    ensures Before(p, r)
  {
    if q != r {
      var i: nat :| PartAt(p, q, i);
      var j: nat :| PartAt(q, r, j);
      var k := if i < j then i else j;
      assert p[..k] == p[..i][..k] == q[..i][..k] == q[..k] == q[..j][..k] == r[..j][..k] == r[..k];
      assert p[k-1] == p[..k][k-1] == q[..k][k-1] == r[..k][k-1];
      if i < j { assert q[i] == q[..j][i] == r[..j][i]; }
      if j < i { assert q[j] == q[..i][j] == p[..i][j]; }
      assert PartAt(p, r, k);
    }
  }

  lemma PartsOneWay(p: seq<Cell>, q: seq<Cell>, i: nat, j: nat)
    requires PartAt(p, q, i)
    ensures p != q && !PartAt(q, p, j)
  {
    assert p[i-1] == p[..i][i-1] == q[..i][i-1];
    if 0 < j < i { assert p[j] == p[..i][j] == q[..i][j] && p[j-1] == p[..i][j-1] == q[..i][j-1]; }
    if i < j && j <= |p| && j <= |q| { assert p[..j][i] != q[..j][i]; }
  }

  lemma BeforeIsStrict(p: seq<Cell>, q: seq<Cell>)
    requires Before(p, q)
    ensures p != q && !Before(q, p)
  {
    var i: nat :| PartAt(p, q, i);
    forall j: nat ensures p != q && !PartAt(q, p, j) { PartsOneWay(p, q, i, j); }
  }

  /** There is only one first path. */
  lemma FirstIsOne(step: Steps, start: Cell, visited: set<Cell>, p: seq<Cell>, q: seq<Cell>)
    requires First(step, start, visited, p) && First(step, start, visited, q)
    ensures p == q
  {
    if p != q { BeforeIsStrict(p, q); }
  }

  // ---------- Breadth-first search ----------

  /** The parent links spell out `p` backwards, and stop at its first cell. */
  ghost predicate Traces(parents: map<Cell, Cell>, p: seq<Cell>) {
    && |p| > 0
    && p[0] !in parents
    && (forall j :: 0 < j < |p| ==> p[j] in parents)
    && (forall i, j :: 0 <= i < j < |p| && j <= i + 1 ==> parents[p[j]] == p[i])
  }

  lemma PathAppends(step: Steps, p: seq<Cell>, c: Cell)
    requires IsPath(step, p) && step(p[|p|-1], c)
    ensures IsPath(step, p + [c])
  {
  }

  lemma TracesAppends(parents: map<Cell, Cell>, p: seq<Cell>, c: Cell)
    requires Traces(parents, p) && c in parents && parents[c] == p[|p|-1]
    ensures Traces(parents, p + [c])
  {
  }

  /** The search so far: the queue holds each seen cell once; entry `i` was discovered from
      entry `from[i]`, is `depth[i]` steps from the start, and sits at `at` in the queue. */
  datatype Search = Search(queue: seq<Cell>, depth: seq<nat>, from: seq<nat>, at: map<Cell, nat>) {

    /** Depths never fall along the queue, and it spans at most two of them from `qi` on. */
    ghost predicate Ordered(qi: nat) {
      && |depth| == |queue|
      && (forall i :: 0 <= i < |queue| ==> queue[i] in at && at[queue[i]] == i)
      && (forall c :: c in at ==> at[c] < |queue| && queue[at[c]] == c)
      && (forall i, j :: 0 <= i < j < |queue| ==> depth[i] <= depth[j])
      && (qi < |queue| ==> depth[|queue|-1] <= depth[qi] + 1)
    }

    ghost predicate Linked(step: Steps, parents: map<Cell, Cell>) {
      && |queue| == |depth| == |from| && |queue| > 0 && depth[0] == 0 && queue[0] !in parents
      && forall i {:trigger from[i]} :: 0 < i < |queue| ==>
           && from[i] < i && depth[i] == depth[from[i]] + 1
           && step(queue[from[i]], queue[i])
           && queue[i] in parents && parents[queue[i]] == queue[from[i]]
    }

    ghost predicate Expanded(step: Steps, i: nat)
        requires |depth| == |queue| && i < |queue|
    {
      forall n :: step(queue[i], n) ==> n in at && at[n] < |depth| && depth[at[n]] <= depth[i] + 1
    }

    ghost predicate Explored(step: Steps, start: Cell, visited: set<Cell>, qi: nat) {
      && Ordered(qi) && |queue| > 0 && queue[0] == start && depth[0] == 0
      && (forall i :: 0 <= i < |queue| ==> queue[i] in visited)
      && (forall i :: 0 <= i < qi && i < |queue| ==> Expanded(step, i))
    }

    /** Every entry but the first was discovered from an earlier one. */
    ghost predicate Rooted() {
      |queue| == |from| && |queue| > 0 && forall i {:trigger from[i]} :: 0 < i < |from| ==> from[i] < i
    }

    /** The path the links spell for entry `i`. */
    ghost function TrailOf(i: nat): (p: seq<Cell>)
      requires Rooted() && i < |queue|
      ensures |p| > 0 && p[|p|-1] == queue[i]
      decreases i
    {
      if i == 0 then [queue[0]] else TrailOf(from[i]) + [queue[i]]
    }

    /** Entries were discovered in the order of the queue. */
    ghost predicate InTurn(qi: nat) {
      && (forall i, j {:trigger from[i], from[j]} :: 0 < i < j < |from| ==> from[i] <= from[j])
      && (forall i {:trigger from[i]} :: 0 < i < |from| ==> from[i] <= qi)
    }

    /** From one entry they were discovered in the order of directions, so far below `d`. */
    ghost predicate ByDirection(qi: nat, d: nat)
      requires Rooted()
    {
      && (forall i, j {:trigger from[i], from[j]} :: 0 < i < j < |from| && from[i] == from[j] ==>
            Rank(queue[from[i]], queue[i]) < Rank(queue[from[j]], queue[j]))
      && (forall i {:trigger from[i]} :: 0 < i < |from| && from[i] == qi ==> Rank(queue[from[i]], queue[i]) < d)
    }

    /** Each was discovered from the first entry it is one step from. */
    ghost predicate Earliest(step: Steps)
      requires Rooted()
    {
      forall i, k {:trigger from[i], queue[k]} :: 0 < i < |from| && 0 <= k < from[i] ==> !step(queue[k], queue[i])
    }

    ghost predicate Ranked(step: Steps, qi: nat, d: nat) {
      Rooted() && InTurn(qi) && ByDirection(qi, d) && Earliest(step)
    }

    /** Queue position `k` discovers `np`. */
    ghost function Discover(k: nat, np: Cell): Search
      requires k < |depth|
    {
      Search(queue + [np], depth + [depth[k] + 1], from + [k], at[np := |queue|])
    }

    /** Reading the links back from entry `i` gives a path of exactly its depth. */
    lemma {:induction false} Trail(step: Steps, parents: map<Cell, Cell>, i: nat)
      requires Linked(step, parents) && i < |queue|
      ensures Rooted()
      ensures var p := TrailOf(i);
              LeadsTo(step, queue[0], queue[i], p) && Traces(parents, p) && |p| == depth[i] + 1
      decreases i
    {
      if i > 0 {
        Trail(step, parents, from[i]);
        PathAppends(step, TrailOf(from[i]), queue[i]);
        TracesAppends(parents, TrailOf(from[i]), queue[i]);
      }
    }

    /** Of two entries at one depth the earlier has the path that comes first. */
    lemma {:induction false} TrailsOrdered(step: Steps, parents: map<Cell, Cell>, qi: nat, d: nat, i: nat, j: nat)
      requires Linked(step, parents) && Ranked(step, qi, d) && i < j < |queue| && depth[i] == depth[j]
      ensures Before(TrailOf(i), TrailOf(j))
      decreases j
    {
      assert from[j] < j;
      if i > 0 {
        assert from[i] < i;
        if from[i] == from[j] {
          LastStepParts(TrailOf(from[i]), queue[i], queue[j]);
        } else {
          TrailsOrdered(step, parents, qi, d, from[i], from[j]);
          BeforeExtends(TrailOf(from[i]), TrailOf(from[j]), queue[i], queue[j]);
        }
      }
    }

    /** An entry's path comes first among all paths as short to its cell. */
    lemma {:induction false} TrailIsFirst(step: Steps, start: Cell, visited: set<Cell>, parents: map<Cell, Cell>, qi: nat, d: nat,
                                          i: nat, q: seq<Cell>)
      requires Explored(step, start, visited, qi) && Linked(step, parents) && Ranked(step, qi, d) && qi < |queue|
      requires i < |queue| && LeadsTo(step, start, queue[i], q) && |q| == depth[i] + 1
      ensures NotAfter(TrailOf(i), q)
      decreases |q|, 0
    {
      if i > 0 {
        assert from[i] < i && from[i] <= qi;
        var n := |q| - 1;
        var r := q[..n];
        assert q == r + [queue[i]] && r[n-1] == q[n-1] && step(q[n-1], q[n]);
        var k := Arrives(step, start, visited, qi, r);
        assert k >= from[i];
        TrailBefore(step, start, visited, parents, qi, d, from[i], k, r);
        if TrailOf(from[i]) != r { BeforeExtends(TrailOf(from[i]), r, queue[i], queue[i]); }
      } else {
        assert q == [queue[0]];
      }
    }

    /** So does an earlier entry's path, among all as short to a later entry's cell. */
    lemma {:induction false} TrailBefore(step: Steps, start: Cell, visited: set<Cell>, parents: map<Cell, Cell>, qi: nat, d: nat,
                                         m: nat, k: nat, q: seq<Cell>)
      requires Explored(step, start, visited, qi) && Linked(step, parents) && Ranked(step, qi, d) && qi < |queue|
      requires m <= k < |queue| && LeadsTo(step, start, queue[k], q) && depth[k] <= |q| - 1 == depth[m]
      ensures NotAfter(TrailOf(m), q) && (m < k ==> Before(TrailOf(m), q))
      decreases |q|, 1
    {
      assert m < k ==> depth[m] <= depth[k];
      TrailIsFirst(step, start, visited, parents, qi, d, k, q);
      if m < k {
        TrailsOrdered(step, parents, qi, d, m, k);
        BeforeChains(TrailOf(m), TrailOf(k), q);
      }
    }

    /** A short path from the start ends at an entry no deeper than the path is long. */
    lemma Arrives(step: Steps, start: Cell, visited: set<Cell>, qi: nat, q: seq<Cell>) returns (k: nat)
      requires Explored(step, start, visited, qi) && IsPath(step, q) && q[0] == start && qi < |queue| && |q| <= depth[qi] + 1
      ensures k < |queue| && queue[k] == q[|q|-1] && depth[k] <= |q| - 1
    {
      PathsAreSeen(step, start, visited, qi, q, |q| - 1);
      k := at[q[|q|-1]];
    }

    /** A discovery keeps the links. */
    lemma LinkedExtends(step: Steps, parents: map<Cell, Cell>, k: nat, np: Cell)
      requires Linked(step, parents) && k < |queue| && np !in queue && step(queue[k], np)
      ensures Discover(k, np).Linked(step, parents[np := queue[k]])
    {
      var s', parents' := Discover(k, np), parents[np := queue[k]];
      assert s'.queue[0] == queue[0] && queue[0] != np;
      forall i {:trigger s'.from[i]} | 0 < i < |s'.queue|
        ensures s'.from[i] < i && s'.depth[i] == s'.depth[s'.from[i]] + 1
        ensures step(s'.queue[s'.from[i]], s'.queue[i])
        ensures s'.queue[i] in parents' && parents'[s'.queue[i]] == s'.queue[s'.from[i]]
      {
        if i < |queue| { assert s'.from[i] == from[i] && queue[i] != np; }
      }
    }

    lemma LastOfAll(step: Steps, cur: Cell, np: Cell, n: Cell)
      requires Local(step) && step(cur, np) && step(cur, n) && n !in at
      requires forall m :: step(cur, m) && Rank(cur, m) < Rank(cur, np) ==> m in at
      ensures n == np || Rank(cur, np) < Rank(cur, n)
    {
      if Rank(cur, n) == Rank(cur, np) { RankDecides(cur, n, np); }
    }

    lemma {:induction false} TrailStays(k: nat, np: Cell, i: nat)
      requires Rooted() && |depth| == |queue| && k < |queue| && i < |queue|
      ensures Discover(k, np).Rooted() && Discover(k, np).TrailOf(i) == TrailOf(i)
      decreases i
    {
      var s' := Discover(k, np);
      assert forall j {:trigger s'.from[j]} :: 0 < j < |from| ==> s'.from[j] == from[j];
      if i > 0 { TrailStays(k, np, from[i]); }
    }

    lemma DirectionExtends(qi: nat, d: nat, np: Cell)
      requires Rooted() && ByDirection(qi, d) && qi < |queue| == |depth| && Rank(queue[qi], np) == d
      ensures Discover(qi, np).Rooted() && Discover(qi, np).ByDirection(qi, d + 1)
    {
      var s', n := Discover(qi, np), |queue|;
      assert forall i {:trigger s'.from[i]} :: 0 < i < n ==> s'.from[i] == from[i] && s'.queue[i] == queue[i];
      assert s'.from[n] == qi && s'.queue[n] == np;
    }

    lemma EarliestExtends(step: Steps, start: Cell, visited: set<Cell>, qi: nat, np: Cell)
      requires Explored(step, start, visited, qi) && Rooted() && Earliest(step) && qi < |queue| == |depth| && np !in at
      ensures Discover(qi, np).Rooted() && Discover(qi, np).Earliest(step)
    {
      var s', n := Discover(qi, np), |queue|;
      forall k | 0 <= k < qi ensures !step(queue[k], np) { assert Expanded(step, k); }
      assert forall i {:trigger s'.from[i]} :: 0 < i < n ==> s'.from[i] == from[i] && s'.queue[i] == queue[i];
    }

    lemma TurnExtends(qi: nat, np: Cell)
      requires Rooted() && InTurn(qi) && qi < |queue| == |depth|
      ensures Discover(qi, np).InTurn(qi)
    {
    }

    /** A discovery in the next direction keeps the order. */
    lemma RankedExtends(step: Steps, start: Cell, visited: set<Cell>, qi: nat, d: nat, np: Cell)
      requires Explored(step, start, visited, qi) && Ranked(step, qi, d) && qi < |queue| == |depth|
      requires np !in at && Rank(queue[qi], np) == d
      ensures Discover(qi, np).Ranked(step, qi, d + 1)
    {
      hide Explored, InTurn, ByDirection, Earliest, Rooted;
      TurnExtends(qi, np);
      DirectionExtends(qi, d, np);
      EarliestExtends(step, start, visited, qi, np);
    }

    /** A visited discovery from the front keeps the search invariant. */
    lemma ExploredExtends(step: Steps, start: Cell, visited: set<Cell>, qi: nat, np: Cell)
      requires Explored(step, start, visited, qi) && qi < |queue|
      requires np !in at && np in visited
      ensures Discover(qi, np).Explored(step, start, visited, qi)
    {
      var s' := Discover(qi, np);
      forall i | 0 <= i < qi ensures s'.Expanded(step, i) {
        assert Expanded(step, i);
      }
    }

    /** Up to the front's depth, every path runs through seen cells that are no deeper. */
    lemma {:induction false} PathsAreSeen(step: Steps, start: Cell, visited: set<Cell>, qi: nat, q: seq<Cell>, k: nat)
      requires Explored(step, start, visited, qi)
      requires IsPath(step, q) && q[0] == start && k < |q|
      requires qi < |queue| ==> k <= depth[qi]
      ensures q[k] in at && at[q[k]] < |depth| && depth[at[q[k]]] <= k
    {
      if k > 0 {
        PathsAreSeen(step, start, visited, qi, q, k - 1);
        assert Expanded(step, at[q[k-1]]);
        assert step(q[k-1], q[k]);
      }
    }

    /** Returning on discovery is early enough: no unvisited cell is nearer. */
    lemma DiscoveryIsNearest(step: Steps, start: Cell, visited: set<Cell>, parents: map<Cell, Cell>, qi: nat, np: Cell)
      returns (p: seq<Cell>)
      requires Explored(step, start, visited, qi) && Linked(step, parents) && qi < |queue|
      requires step(queue[qi], np) && np !in visited
      ensures Nearest(step, start, visited, p) && p[|p|-1] == np && Traces(parents[np := queue[qi]], p)
      ensures Rooted() && p == TrailOf(qi) + [np]
    {
      LinkedExtends(step, parents, qi, np);
      Discover(qi, np).Trail(step, parents[np := queue[qi]], |queue|);
      p := Discover(qi, np).TrailOf(|queue|);
      TrailStays(qi, np, qi);
      forall q | Escapes(step, start, visited, q) ensures |p| <= |q| {
        if |q| < |p| {
          PathsAreSeen(step, start, visited, qi, q, |q| - 1);
        }
      }
    }

    /** And it is the first in the order of directions among all that are as near. */
    lemma DiscoveryIsFirst(step: Steps, start: Cell, visited: set<Cell>, parents: map<Cell, Cell>, qi: nat, np: Cell, p: seq<Cell>)
      requires Local(step) && Explored(step, start, visited, qi) && Linked(step, parents) && qi < |queue|
      requires step(queue[qi], np) && np !in visited && Ranked(step, qi, Rank(queue[qi], np))
      requires forall n :: step(queue[qi], n) && Rank(queue[qi], n) < Rank(queue[qi], np) ==> n in at
      requires Rooted() && Nearest(step, start, visited, p) && p == TrailOf(qi) + [np]
      ensures First(step, start, visited, p)
    {
      hide Ranked, Linked, Explored;
      forall q | Nearest(step, start, visited, q) ensures NotAfter(p, q) {
        assert Escapes(step, start, visited, p) && Escapes(step, start, visited, q);
        DiscoveryNotAfter(step, start, visited, parents, qi, np, q);
      }
    }

    lemma DiscoveryNotAfter(step: Steps, start: Cell, visited: set<Cell>, parents: map<Cell, Cell>, qi: nat, np: Cell, q: seq<Cell>)
      requires Local(step) && Explored(step, start, visited, qi) && Linked(step, parents) && qi < |queue|
      requires step(queue[qi], np) && Ranked(step, qi, Rank(queue[qi], np))
      requires forall n :: step(queue[qi], n) && Rank(queue[qi], n) < Rank(queue[qi], np) ==> n in at
      requires Escapes(step, start, visited, q) && Rooted() && |q| == |TrailOf(qi)| + 1
      ensures NotAfter(TrailOf(qi) + [np], q)
    {
      hide Explored, Ranked, Linked, Rooted, TrailOf;
      Trail(step, parents, qi);
      var n, d := |q| - 1, Rank(queue[qi], np);
      var r := q[..n];
      var k := LeavesLate(step, start, visited, qi, q);
      assert q == r + [q[n]] && LeadsTo(step, start, queue[k], r);
      TrailBefore(step, start, visited, parents, qi, d, qi, k, r);
      if Before(TrailOf(qi), r) {
        BeforeExtends(TrailOf(qi), r, np, q[n]);
      } else {
        LastOfAll(step, queue[qi], np, q[n]);
        if q[n] != np { LastStepParts(r, np, q[n]); }
      }
    }

    /** A path to an unvisited cell leaves the queue at the front entry or behind it. */
    lemma LeavesLate(step: Steps, start: Cell, visited: set<Cell>, qi: nat, q: seq<Cell>) returns (k: nat)
      requires Explored(step, start, visited, qi) && qi < |queue|
      requires Escapes(step, start, visited, q) && |q| == depth[qi] + 2
      ensures qi <= k < |queue| && k < |depth| && queue[k] == q[|q|-2] && depth[k] <= |q| - 2
      ensures q[|q|-1] !in at && step(q[|q|-2], q[|q|-1]) && IsPath(step, q[..|q|-1])
    {
      var r := q[..|q|-1];
      assert step(q[|q|-2], q[|q|-1]) && r[|r|-1] == q[|q|-2];
      k := Arrives(step, start, visited, qi, r);
      assert k < qi ==> Expanded(step, k);
    }

    lemma SearchExhausted(step: Steps, start: Cell, visited: set<Cell>, qi: nat)
      requires Explored(step, start, visited, qi) && qi >= |queue|
      ensures NothingLeft(step, start, visited)
    {
      forall q | Escapes(step, start, visited, q) ensures false {
        PathsAreSeen(step, start, visited, qi, q, |q| - 1);
      }
    }

    lemma QueueFits(step: Steps, start: Cell, visited: set<Cell>, qi: nat)
      requires Explored(step, start, visited, qi)
      ensures |queue| <= |visited|
    {
      DistinctFits(queue, visited);
    }
  }

  lemma {:induction false} DistinctFits(s: seq<Cell>, u: set<Cell>)
    requires forall i, j :: 0 <= i < j < |s| ==> s[i] != s[j]
    requires forall i :: 0 <= i < |s| ==> s[i] in u
    ensures |s| <= |u|
  {
    if s != [] {
      DistinctFits(s[1..], u - {s[0]});
    }
  }

  // ---------- Shortest paths ----------

  lemma Prepended(step: Steps, a: Cell, p: seq<Cell>)
    requires IsPath(step, p) && step(a, p[0])
    ensures IsPath(step, [a] + p)
  {
  }

  lemma Shortened(step: Steps, p: seq<Cell>)
    requires IsPath(step, p) && |p| > 1
    ensures IsPath(step, p[1..]) && step(p[0], p[1])
  {
  }

  /** Cutting a loop out of a path leaves a path. */
  lemma Spliced(step: Steps, p: seq<Cell>, i: nat, j: nat)
    requires IsPath(step, p) && i < j < |p| && p[i] == p[j]
    ensures IsPath(step, p[..i] + p[j..])
    ensures (p[..i] + p[j..])[0] == p[0] && (p[..i] + p[j..])[|p| - (j - i) - 1] == p[|p|-1]
  {
    var q := p[..i] + p[j..];
    forall a, b | 0 <= a < b < |q| && b <= a + 1 ensures step(q[a], q[b]) {
      var b' := if b < i then b else b + (j - i);
      assert q[b] == if b == i then p[i] else p[b'];
      assert q[a] == if a < i then p[a] else p[a + (j - i)];
      assert b <= i ==> step(p[a], p[b]);
      assert b > i ==> step(p[a + (j - i)], p[b']);
    }
  }

  lemma {:induction false} NearestExists(step: Steps, start: Cell, visited: set<Cell>, q: seq<Cell>)
    requires Escapes(step, start, visited, q)
    ensures exists p :: Nearest(step, start, visited, p)
    decreases |q|
  {
    if !Nearest(step, start, visited, q) {
      var r :| Escapes(step, start, visited, r) && |r| < |q|;
      NearestExists(step, start, visited, r);
    }
  }

  /** A shortest path never visits a cell twice. */
  lemma NearestFits(step: Steps, start: Cell, visited: set<Cell>, p: seq<Cell>, cells: set<Cell>)
    requires Nearest(step, start, visited, p)
    requires forall i :: 0 <= i < |p| ==> p[i] in cells
    ensures |p| <= |cells|
  {
    forall i, j | 0 <= i < j < |p| ensures p[i] != p[j] {
      if p[i] == p[j] {
        Spliced(step, p, i, j);
        assert Escapes(step, start, visited, p[..i] + p[j..]);
      }
    }
    DistinctFits(p, cells);
  }
}

/** The explorer of the NPC web demo: one tick marks the current cell, searches breadth
    first for the nearest unvisited cell (avoiding fog if it can), walks the parent links
    back to the first step and takes it. */
module Explorer {
  import opened CellPaths
  import opened FiniteSets

  datatype Tile = Empty | Trap | Artifact | Exit | Fog

  datatype World = World(w: int, h: int, grid: seq<seq<Tile>>) {
    predicate Valid() {
      0 <= w && 0 <= h && |grid| == h && forall y :: 0 <= y < h ==> |grid[y]| == w
    }

    predicate InBounds(c: Cell) {
      c.x >= 0 && c.y >= 0 && c.x < w && c.y < h
    }

    function TileAt(c: Cell): Tile
      requires Valid()
    {
      if !InBounds(c) then Empty else grid[c.y][c.x]
    }
  }

  type Flags = map<Cell, bool>

  predicate Marked(m: Flags, c: Cell) {
    c in m && m[c]
  }

  ghost function MarkedCells(m: Flags): (cells: set<Cell>)
    ensures forall c :: c in cells <==> c in m && m[c]
  {
    set c | c in m && m[c]
  }

  const DIRS: seq<Cell> := [Cell(1, 0), Cell(-1, 0), Cell(0, 1), Cell(0, -1)]

  function Neighbour(c: Cell, i: nat): Cell
    requires i < 4
  {
    Cell(c.x + DIRS[i].x, c.y + DIRS[i].y)
  }

  ghost predicate Adjacent(a: Cell, b: Cell) {
    exists i: nat :: i < 4 && b == Neighbour(a, i)
  }

  predicate Safe(world: World, danger: Flags, c: Cell) {
    world.InBounds(c) && !Marked(danger, c)
  }

  /** A move goes to a safe neighbour, and to one without fog unless fog is allowed. */
  ghost function Moves(world: World, danger: Flags, fog: bool): Steps
    requires world.Valid()
  {
    (a, b) => Adjacent(a, b) && Safe(world, danger, b) && (world.TileAt(b) == Fog ==> fog)
  }

  lemma MoveTo(world: World, danger: Flags, fog: bool, c: Cell, i: nat)
    requires world.Valid() && i < 4
    ensures var n := Neighbour(c, i);
            Moves(world, danger, fog)(c, n) <==> Safe(world, danger, n) && (world.TileAt(n) == Fog ==> fog)
  {
    assert Adjacent(c, Neighbour(c, i));
  }

  /** The four neighbours are the cells beside a cell, in the order of their rank. */
  lemma NeighboursAreBeside(a: Cell, b: Cell)
    ensures Adjacent(a, b) <==> Gap(a.x, b.x) + Gap(a.y, b.y) == 1
    ensures Beside(a, b) ==> Rank(a, b) < 4 && b == Neighbour(a, Rank(a, b))
    ensures forall i: nat :: i < 4 ==> Beside(a, Neighbour(a, i)) && Rank(a, Neighbour(a, i)) == i
  {
    if Beside(a, b) { assert b == Neighbour(a, Rank(a, b)); }
  }

  /** The moves, in plain coordinates. */
  lemma MovesAre(world: World, danger: Flags, fog: bool, a: Cell, b: Cell)
    requires world.Valid()
    ensures Moves(world, danger, fog)(a, b) <==>
      && Gap(a.x, b.x) + Gap(a.y, b.y) == 1
      && 0 <= b.x < world.w && 0 <= b.y < world.h && !(b in danger && danger[b])
      && (world.grid[b.y][b.x] == Fog ==> fog)
  {
    NeighboursAreBeside(a, b);
  }

  lemma MovesAreLocal(world: World, danger: Flags, fog: bool)
    requires world.Valid()
    ensures Local(Moves(world, danger, fog))
  {
    forall a, b | Moves(world, danger, fog)(a, b) ensures Beside(a, b) { NeighboursAreBeside(a, b); }
  }

  /** The first `d` neighbours of the front cell are accounted for. */
  ghost predicate Noticed(step: Steps, s: Search, qi: nat, d: nat)
    requires qi < |s.depth| == |s.queue| && d <= 4
  {
    forall i: nat :: i < d && step(s.queue[qi], Neighbour(s.queue[qi], i)) ==>
      var n := Neighbour(s.queue[qi], i);
      n in s.at && s.at[n] < |s.depth| && s.depth[s.at[n]] <= s.depth[qi] + 1
  }

  /** All that the search keeps while it looks around the front cell. */
  ghost predicate LookingAround(step: Steps, start: Cell, v: set<Cell>, s: Search, qi: nat, d: nat, parents: map<Cell, Cell>) {
    && qi < |s.queue| && d <= 4
    && s.Explored(step, start, v, qi) && s.Linked(step, parents) && s.Ranked(step, qi, d)
    && Noticed(step, s, qi, d)
  }

  lemma LookStarts(step: Steps, start: Cell, v: set<Cell>, s: Search, qi: nat, parents: map<Cell, Cell>)
    requires s.Explored(step, start, v, qi) && s.Linked(step, parents) && s.Ranked(step, qi, 0) && qi < |s.queue|
    ensures LookingAround(step, start, v, s, qi, 0, parents)
    ensures |s.queue| <= |v| && |s.depth| == |s.queue|
  {
    s.QueueFits(step, start, v, qi);
  }

  /** A neighbour that is closed off, or seen already, changes nothing. */
  lemma Skipped(step: Steps, start: Cell, v: set<Cell>, s: Search, qi: nat, d: nat, parents: map<Cell, Cell>)
    requires LookingAround(step, start, v, s, qi, d, parents) && d < 4
    requires var np := Neighbour(s.queue[qi], d); step(s.queue[qi], np) ==> np in s.at
    ensures LookingAround(step, start, v, s, qi, d + 1, parents)
  {
    var np := Neighbour(s.queue[qi], d);
    if np in s.at {
      assert s.depth[s.at[np]] <= s.depth[|s.queue|-1];
    }
  }

  lemma Discovered(step: Steps, start: Cell, v: set<Cell>, s: Search, qi: nat, d: nat, parents: map<Cell, Cell>)
    requires LookingAround(step, start, v, s, qi, d, parents) && d < 4
    requires var np := Neighbour(s.queue[qi], d); step(s.queue[qi], np) && np !in s.at && np in v
    ensures var cur := s.queue[qi]; var np := Neighbour(cur, d);
            LookingAround(step, start, v, s.Discover(qi, np), qi, d + 1, parents[np := cur])
  {
    var np := Neighbour(s.queue[qi], d);
    NeighboursAreBeside(s.queue[qi], np);
    s.RankedExtends(step, start, v, qi, d, np);
    s.ExploredExtends(step, start, v, qi, np);
    s.LinkedExtends(step, parents, qi, np);
  }

  lemma Arrived(step: Steps, start: Cell, v: set<Cell>, s: Search, qi: nat, d: nat, parents: map<Cell, Cell>)
    returns (p: seq<Cell>)
    requires LookingAround(step, start, v, s, qi, d, parents) && d < 4
    requires Local(step)
    requires var np := Neighbour(s.queue[qi], d); step(s.queue[qi], np) && np !in v
    ensures var np := Neighbour(s.queue[qi], d);
            First(step, start, v, p) && |p| > 0 && p[|p|-1] == np && Traces(parents[np := s.queue[qi]], p)
  {
    var cur, np := s.queue[qi], Neighbour(s.queue[qi], d);
    p := s.DiscoveryIsNearest(step, start, v, parents, qi, np);
    NeighboursAreBeside(cur, np);
    forall n | step(cur, n) && Rank(cur, n) < d ensures n in s.at { NeighboursAreBeside(cur, n); }
    s.DiscoveryIsFirst(step, start, v, parents, qi, np, p);
  }

  /** The four directions are all there is to a cell's expansion. */
  lemma LookEnds(world: World, danger: Flags, fog: bool, start: Cell, v: set<Cell>, s: Search, qi: nat,
                 parents: map<Cell, Cell>)
    requires world.Valid() && LookingAround(Moves(world, danger, fog), start, v, s, qi, 4, parents)
    ensures s.Explored(Moves(world, danger, fog), start, v, qi + 1) && s.Linked(Moves(world, danger, fog), parents)
    ensures s.Ranked(Moves(world, danger, fog), qi + 1, 0)
  {
    assert s.Expanded(Moves(world, danger, fog), qi);
  }

  lemma SearchBegins(step: Steps, start: Cell, v: set<Cell>)
    requires start in v
    ensures var s := Search([start], [0], [0], map[start := 0]);
            s.Explored(step, start, v, 0) && s.Linked(step, map[]) && s.Ranked(step, 0, 0)
  {
  }

  /** One pass of the search. On success the parent links hold `path`: of all shortest paths to an
      unvisited cell the first in the order right, left, down, up. */
  method Bfs(world: World, danger: Flags, fog: bool, start: Cell, visited: Flags)
    returns (found: bool, target: Cell, parents: map<Cell, Cell>, ghost path: seq<Cell>)
    requires world.Valid() && Marked(visited, start)
    ensures found ==> First(Moves(world, danger, fog), start, MarkedCells(visited), path)
    ensures found ==> target == path[|path|-1] && Traces(parents, path)
    ensures !found ==> NothingLeft(Moves(world, danger, fog), start, MarkedCells(visited))
  {
    hide First, LookingAround, Search.Explored, Search.Linked, Search.Ranked, Traces, NothingLeft;
    ghost var step, v := Moves(world, danger, fog), MarkedCells(visited);
    ghost var s := Search([start], [0], [0], map[start := 0]);
    SearchBegins(step, start, v);
    MovesAreLocal(world, danger, fog);
    target, path := start, [];
    parents := map[];
    var seen: Flags := map[start := true];
    var queue := [start];
    var qi := 0;
    while qi < |queue|
      invariant s.queue == queue && s.Explored(step, start, v, qi) && s.Linked(step, parents) && s.Ranked(step, qi, 0)
      invariant forall c :: Marked(seen, c) <==> c in s.at
      decreases |v| - qi
    {
      var cur := queue[qi];
      LookStarts(step, start, v, s, qi, parents);
      for d := 0 to 4
        invariant s.queue == queue && |s.depth| == |queue| && qi < |queue| && cur == queue[qi]
        invariant LookingAround(step, start, v, s, qi, d, parents)
        invariant forall c :: Marked(seen, c) <==> c in s.at
      {
        var np := Neighbour(cur, d);
        MoveTo(world, danger, fog, cur, d);
        if !world.InBounds(np) || Marked(seen, np) || Marked(danger, np) || (world.TileAt(np) == Fog && !fog) {
          Skipped(step, start, v, s, qi, d, parents);
          continue;
        }
        seen := seen[np := true];
        if !Marked(visited, np) {
          path := Arrived(step, start, v, s, qi, d, parents);
          return true, np, parents[np := cur], path;
        }
        Discovered(step, start, v, s, qi, d, parents);
        s := s.Discover(qi, np);
        parents := parents[np := cur];
        queue := queue + [np];
      }
      LookEnds(world, danger, fog, start, v, s, qi, parents);
      qi := qi + 1;
    }
    s.SearchExhausted(step, start, v, qi);
    return false, target, parents, path;
  }

  // ---------- One tick ----------

  /** The first safe neighbour from direction `i` on; the zero cell if there is none. */
  function Fallback(world: World, danger: Flags, c: Cell, i: nat): Cell
    requires i <= 4
    decreases 4 - i
  {
    if i == 4 then Cell(0, 0)
    else if Safe(world, danger, Neighbour(c, i)) then Neighbour(c, i)
    else Fallback(world, danger, c, i + 1)
  }

  /** `next` is the first step of the first shortest path of that pass. */
  ghost predicate Heads(step: Steps, pos: Cell, visited: set<Cell>, next: Cell) {
    exists p :: First(step, pos, visited, p) && |p| > 1 && p[1] == next
  }

  /** Where a tick goes: around the fog, else through it, else anywhere safe. */
  ghost predicate Chosen(world: World, danger: Flags, pos: Cell, visited: set<Cell>, next: Cell)
    requires world.Valid()
  {
    if !NothingLeft(Moves(world, danger, false), pos, visited) then
      Heads(Moves(world, danger, false), pos, visited, next)
    else if !NothingLeft(Moves(world, danger, true), pos, visited) then
      Heads(Moves(world, danger, true), pos, visited, next)
    else
      next == Fallback(world, danger, pos, 0)
  }

  /** The explorer between ticks. */
  datatype Scout = Scout(pos: Cell, visited: set<Cell>) {
    ghost function Known(): set<Cell> { visited + {pos} }
  }

  ghost predicate Tick(world: World, danger: Flags, s: Scout, s': Scout)
    requires world.Valid()
  {
    s'.visited == s.Known() && Chosen(world, danger, s.pos, s.Known(), s'.pos)
  }

  class Blackboard {
    var pos: Cell
    var visited: Flags
    var danger: Flags

    ghost function View(): Scout
      reads this
    {
      Scout(pos, MarkedCells(visited))
    }

    constructor (pos: Cell)
      ensures this.pos == pos && visited == map[] && danger == map[]
    {
      this.pos, visited, danger := pos, map[], map[];
    }
  }

  /** Walks the parent links back from the target to the cell after `start`. */
  method Backtrack(start: Cell, target: Cell, parents: map<Cell, Cell>, ghost path: seq<Cell>) returns (next: Cell)
    requires Traces(parents, path) && path[0] == start && path[|path|-1] == target && target != start
    ensures |path| > 1 && next == path[1]
  {
    var curr := target;
    ghost var k := |path| - 1;
    while true
      invariant 0 < k < |path| && curr == path[k]
      decreases k
    {
      assert parents[path[k]] == path[k-1];
      assert k > 1 ==> path[k-1] in parents;
      if curr !in parents || parents[curr] == start {
        return curr;
      }
      curr, k := parents[curr], k - 1;
    }
  }

  method Explore(world: World, bb: Blackboard)
    requires world.Valid()
    modifies bb`pos, bb`visited
    ensures bb.visited == old(bb.visited)[old(bb.pos) := true]
    ensures Tick(world, bb.danger, old(bb.View()), bb.View())
  {
    var start := bb.pos;
    var vm := bb.visited[start := true];
    var found, target, parents, path := Bfs(world, bb.danger, false, start, vm);
    if !found {
      found, target, parents, path := Bfs(world, bb.danger, true, start, vm);
    }
    var next := Cell(0, 0);
    if found {
      next := Backtrack(start, target, parents, path);
    } else {
      var d := 0;
      while d < 4
        invariant 0 <= d <= 4
        invariant next == Cell(0, 0) && Fallback(world, bb.danger, start, 0) == Fallback(world, bb.danger, start, d)
      {
        if Safe(world, bb.danger, Neighbour(start, d)) {
          next := Neighbour(start, d);
          break;
        }
        d := d + 1;
      }
    }
    bb.visited := vm;
    assert MarkedCells(vm) == MarkedCells(old(bb.visited)) + {start};
    bb.pos := next;
  }

  /** The new position is a safe neighbour exactly when there is one; otherwise it is cell (0, 0). */
  lemma ChosenIsSafe(world: World, danger: Flags, pos: Cell, visited: set<Cell>, next: Cell)
    requires world.Valid() && pos in visited && Chosen(world, danger, pos, visited, next)
    ensures (exists i: nat :: i < 4 && Safe(world, danger, Neighbour(pos, i))) <==>
            Adjacent(pos, next) && Safe(world, danger, next)
    ensures (forall i: nat :: i < 4 ==> !Safe(world, danger, Neighbour(pos, i))) ==> next == Cell(0, 0)
  {
    FallbackIsFirst(world, danger, pos, 0);
    if fog: bool :| Heads(Moves(world, danger, fog), pos, visited, next) {
      var p :| First(Moves(world, danger, fog), pos, visited, p) && |p| > 1 && p[1] == next;
      assert Moves(world, danger, fog)(p[0], p[1]);
    }
  }

  /** It does happen: from a safe cell, shut in by danger, to a dangerous cell far off. */
  lemma MayJump() returns (world: World, danger: Flags, s: Scout, s': Scout)
    ensures world.Valid() && Safe(world, danger, s.pos) && Tick(world, danger, s, s')
    ensures s'.pos == Cell(0, 0) && !Adjacent(s.pos, s'.pos) && !Safe(world, danger, s'.pos)
  {
    world := World(3, 1, [[Empty, Empty, Empty]]);
    danger := map[Cell(0, 0) := true, Cell(1, 0) := true];
    s, s' := Scout(Cell(2, 0), {}), Scout(Cell(0, 0), {Cell(2, 0)});
    assert Neighbour(s.pos, 0) == Cell(3, 0) && Neighbour(s.pos, 1) == Cell(1, 0);
    assert Neighbour(s.pos, 2) == Cell(2, 1) && Neighbour(s.pos, 3) == Cell(2, -1);
    ShutIn(world, danger, false, s.pos, s.Known());
    ShutIn(world, danger, true, s.pos, s.Known());
    FallbackIsFirst(world, danger, s.pos, 0);
  }

  lemma ShutIn(world: World, danger: Flags, fog: bool, pos: Cell, visited: set<Cell>)
    requires world.Valid() && pos in visited && forall i: nat :: i < 4 ==> !Safe(world, danger, Neighbour(pos, i))
    ensures NothingLeft(Moves(world, danger, fog), pos, visited)
  {
    var step := Moves(world, danger, fog);
    forall c ensures !step(pos, c) {}
    forall q ensures !Escapes(step, pos, visited, q) {
      assert IsPath(step, q) && |q| > 1 ==> step(q[0], q[1]);
    }
  }

  lemma {:induction false} FallbackIsFirst(world: World, danger: Flags, c: Cell, i: nat)
    requires i <= 4
    ensures var n := Fallback(world, danger, c, i);
            if forall k: nat :: i <= k < 4 ==> !Safe(world, danger, Neighbour(c, k)) then n == Cell(0, 0)
            else Adjacent(c, n) && Safe(world, danger, n)
    decreases 4 - i
  {
    if i < 4 {
      assert Safe(world, danger, Neighbour(c, i)) ==> Adjacent(c, Neighbour(c, i));
      FallbackIsFirst(world, danger, c, i + 1);
    }
  }

  /** With nothing left to find a tick goes right if that is safe, else left, else down, else up,
      else to cell (0, 0). */
  lemma NothingLeftGoes(world: World, danger: Flags, s: Scout, s': Scout)
    requires world.Valid() && Tick(world, danger, s, s') && NothingLeft(Moves(world, danger, true), s.pos, s.Known())
    ensures var open := (x: int, y: int) =>
              0 <= x < world.w && 0 <= y < world.h && !(Cell(x, y) in danger && danger[Cell(x, y)]);
            var x, y := s.pos.x, s.pos.y;
            s'.pos == if open(x + 1, y) then Cell(x + 1, y)
                      else if open(x - 1, y) then Cell(x - 1, y)
                      else if open(x, y + 1) then Cell(x, y + 1)
                      else if open(x, y - 1) then Cell(x, y - 1)
                      else Cell(0, 0)
  {
    FogReaches(world, danger, s);
    var c := s.pos;
    assert Fallback(world, danger, c, 3) == if Safe(world, danger, Cell(c.x, c.y - 1)) then Cell(c.x, c.y - 1) else Cell(0, 0);
    assert Fallback(world, danger, c, 2) == if Safe(world, danger, Cell(c.x, c.y + 1)) then Cell(c.x, c.y + 1) else Fallback(world, danger, c, 3);
    assert Fallback(world, danger, c, 1) == if Safe(world, danger, Cell(c.x - 1, c.y)) then Cell(c.x - 1, c.y) else Fallback(world, danger, c, 2);
  }

  /** A tick marks the cell it starts from and forgets none. */
  lemma TickMarks(world: World, danger: Flags, s: Scout, s': Scout)
    requires world.Valid() && Tick(world, danger, s, s')
    ensures s'.visited == s.visited + {s.pos}
  {
  }

  /** World, danger and state leave a tick no choice. */
  lemma TickIsDetermined(world: World, danger: Flags, s: Scout, s1: Scout, s2: Scout)
    requires world.Valid() && Tick(world, danger, s, s1) && Tick(world, danger, s, s2)
    ensures s1 == s2
  {
    forall fog: bool, a, b | Heads(Moves(world, danger, fog), s.pos, s.Known(), a) && Heads(Moves(world, danger, fog), s.pos, s.Known(), b)
      ensures a == b
    {
      var p :| First(Moves(world, danger, fog), s.pos, s.Known(), p) && |p| > 1 && p[1] == a;
      var q :| First(Moves(world, danger, fog), s.pos, s.Known(), q) && |q| > 1 && q[1] == b;
      FirstIsOne(Moves(world, danger, fog), s.pos, s.Known(), p, q);
    }
  }

  // ---------- Whole runs ----------

  ghost predicate Run(world: World, danger: Flags, run: seq<Scout>)
    requires world.Valid()
  {
    |run| > 0 && forall i, j :: 0 <= i < j < |run| && j <= i + 1 ==> Tick(world, danger, run[i], run[j])
  }

  /** `c` is connected to `a` through safe cells, fog or not. */
  ghost predicate Connected(world: World, danger: Flags, a: Cell, c: Cell)
    requires world.Valid()
  {
    exists p :: LeadsTo(Moves(world, danger, true), a, c, p)
  }

  ghost function Grid(world: World): set<Cell> {
    set x, y | 0 <= x < world.w && 0 <= y < world.h :: Cell(x, y)
  }

  ghost function Left(world: World, danger: Flags, s: Scout): set<Cell>
    requires world.Valid()
  {
    set c | c in Grid(world) && c !in s.Known() && Connected(world, danger, s.pos, c)
  }

  ghost function Distance(step: Steps, start: Cell, visited: set<Cell>): nat {
    if p :| Nearest(step, start, visited, p) then |p| - 1 else 0
  }

  lemma DistanceIs(step: Steps, start: Cell, visited: set<Cell>, p: seq<Cell>)
    requires Nearest(step, start, visited, p)
    ensures Distance(step, start, visited) == |p| - 1
  {
  }

  /** The most ticks it takes to find `left` more cells. */
  ghost function Rounds(n: nat, left: nat): nat {
    if left == 0 then 0 else Rounds(n, left - 1) + 2 * n + 2
  }

  lemma {:induction false} RoundsFit(n: nat, left: nat, most: nat)
    requires left <= most
    ensures Rounds(n, left) <= 2 * most * (n + 1)
  {
    if left > 0 {
      RoundsFit(n, left - 1, most - 1);
      assert 2 * (most - 1) * (n + 1) + 2 * n + 2 == 2 * most * (n + 1);
    }
  }

  lemma RoundsBelow(n: nat, left: nat)
    requires left < n
    ensures Rounds(n, left) + 2 * n < 2 * n * (n + 1)
  {
    RoundsFit(n, left, n - 1);
    assert 2 * (n - 1) * (n + 1) + 2 * n + 2 == 2 * n * (n + 1);
  }

  /** Cells left to find, then whether fog must be crossed, then how far it is. */
  ghost function Potential(world: World, danger: Flags, s: Scout): nat
    requires world.Valid()
  {
    var n, left := |Grid(world)|, |Left(world, danger, s)|;
    if NothingLeft(Moves(world, danger, true), s.pos, s.Known()) then 0
    else if NothingLeft(Moves(world, danger, false), s.pos, s.Known()) then
      Rounds(n, left) + n + 1 + Distance(Moves(world, danger, true), s.pos, s.Known())
    else
      Rounds(n, left) + Distance(Moves(world, danger, false), s.pos, s.Known())
  }

  lemma StepsBack(world: World, danger: Flags, a: Cell, b: Cell)
    requires world.Valid() && Moves(world, danger, true)(a, b) && Safe(world, danger, a)
    ensures Moves(world, danger, true)(b, a)
  {
    var i: nat :| i < 4 && b == Neighbour(a, i);
    assert a == Neighbour(b, if i % 2 == 0 then i + 1 else i - 1);
  }

  /** Moving one safe step does not change what is connected. */
  lemma ConnectedFromNext(world: World, danger: Flags, a: Cell, b: Cell, c: Cell)
    requires world.Valid() && Moves(world, danger, true)(a, b) && Connected(world, danger, b, c)
    ensures Connected(world, danger, a, c)
  {
    var step := Moves(world, danger, true);
    var p :| LeadsTo(step, b, c, p);
    Prepended(step, a, p);
    assert LeadsTo(step, a, c, [a] + p);
  }

  lemma FogPathsInclude(world: World, danger: Flags, p: seq<Cell>)
    requires world.Valid() && IsPath(Moves(world, danger, false), p)
    ensures IsPath(Moves(world, danger, true), p)
  {
    forall i, j | 0 <= i < j < |p| && j <= i + 1 ensures Moves(world, danger, true)(p[i], p[j]) {
      assert Moves(world, danger, false)(p[i], p[j]);
    }
  }

  /** While something is left, a tick takes the first step of a shortest path of its pass. */
  lemma TickHeads(world: World, danger: Flags, s: Scout, s': Scout) returns (fog: bool, p: seq<Cell>)
    requires world.Valid() && Tick(world, danger, s, s')
    requires !NothingLeft(Moves(world, danger, true), s.pos, s.Known())
    ensures fog <==> NothingLeft(Moves(world, danger, false), s.pos, s.Known())
    ensures Nearest(Moves(world, danger, fog), s.pos, s.Known(), p) && |p| > 1 && p[1] == s'.pos
    ensures Moves(world, danger, true)(s.pos, s'.pos)
  {
    fog := NothingLeft(Moves(world, danger, false), s.pos, s.Known());
    var step := Moves(world, danger, fog);
    p :| First(step, s.pos, s.Known(), p) && |p| > 1 && p[1] == s'.pos;
    assert step(p[0], p[1]);
  }

  lemma LeftAfter(world: World, danger: Flags, s: Scout, s': Scout)
    requires world.Valid() && Safe(world, danger, s.pos)
    requires Moves(world, danger, true)(s.pos, s'.pos) && s'.visited == s.Known()
    ensures Left(world, danger, s') == Left(world, danger, s) - {s'.pos}
  {
    StepsBack(world, danger, s.pos, s'.pos);
    forall c ensures Connected(world, danger, s.pos, c) <==> Connected(world, danger, s'.pos, c) {
      if Connected(world, danger, s.pos, c) { ConnectedFromNext(world, danger, s'.pos, s.pos, c); }
      if Connected(world, danger, s'.pos, c) { ConnectedFromNext(world, danger, s.pos, s'.pos, c); }
    }
  }

  /** From the second cell of a shortest path the goal is one step nearer. */
  lemma Closer(step: Steps, visited: set<Cell>, p: seq<Cell>)
    requires |p| > 1 && Nearest(step, p[0], visited, p) && p[1] in visited
    ensures !NothingLeft(step, p[1], visited)
    ensures Distance(step, p[1], visited) < Distance(step, p[0], visited)
  {
    DistanceIs(step, p[0], visited, p);
    Shortened(step, p);
    assert Escapes(step, p[1], visited, p[1..]);
    NearestExists(step, p[1], visited, p[1..]);
    var q :| Nearest(step, p[1], visited, q);
    DistanceIs(step, p[1], visited, q);
  }

  /** On safe ground a distance never exceeds the number of cells. */
  lemma DistanceFits(world: World, danger: Flags, fog: bool, start: Cell, visited: set<Cell>)
    requires world.Valid() && Safe(world, danger, start)
    ensures Distance(Moves(world, danger, fog), start, visited) < |Grid(world)|
  {
    var step := Moves(world, danger, fog);
    assert start in Grid(world);
    if p :| Nearest(step, start, visited, p) {
      forall i | 0 <= i < |p| ensures p[i] in Grid(world) {
        if i > 0 { assert step(p[i-1], p[i]); }
      }
      DistanceIs(step, start, visited, p);
      NearestFits(step, start, visited, p, Grid(world));
    }
  }

  lemma PotentialRange(world: World, danger: Flags, s: Scout)
    requires world.Valid() && Safe(world, danger, s.pos)
    ensures var n, left := |Grid(world)|, |Left(world, danger, s)|;
            && Potential(world, danger, s) <= Rounds(n, left) + 2 * n
            && (!NothingLeft(Moves(world, danger, true), s.pos, s.Known()) ==>
                  Rounds(n, left) <= Potential(world, danger, s))
  {
    DistanceFits(world, danger, false, s.pos, s.Known());
    DistanceFits(world, danger, true, s.pos, s.Known());
  }

  /** A tick onto a known cell leaves the same cells to find, but nearer, or no longer behind fog. */
  lemma RevisitDescends(world: World, danger: Flags, s: Scout, s': Scout, fog: bool, p: seq<Cell>)
    requires world.Valid() && Safe(world, danger, s.pos) && Safe(world, danger, s'.pos)
    requires fog <==> NothingLeft(Moves(world, danger, false), s.pos, s.Known())
    requires Nearest(Moves(world, danger, fog), s.pos, s.Known(), p) && |p| > 1 && p[1] == s'.pos
    requires s'.Known() == s.Known() && Left(world, danger, s') == Left(world, danger, s)
    ensures Potential(world, danger, s') < Potential(world, danger, s)
  {
    Closer(Moves(world, danger, fog), s.Known(), p);
    DistanceFits(world, danger, false, s'.pos, s'.Known());
    if NothingLeft(Moves(world, danger, true), s.pos, s.Known()) { FogReaches(world, danger, s); }
  }

  /** What can be reached around the fog can be reached through it. */
  lemma FogReaches(world: World, danger: Flags, s: Scout)
    requires world.Valid() && NothingLeft(Moves(world, danger, true), s.pos, s.Known())
    ensures NothingLeft(Moves(world, danger, false), s.pos, s.Known())
  {
    forall q | Escapes(Moves(world, danger, false), s.pos, s.Known(), q) ensures false {
      FogPathsInclude(world, danger, q);
      assert Escapes(Moves(world, danger, true), s.pos, s.Known(), q);
    }
  }

  /** A tick onto an unknown cell leaves one cell fewer to find. */
  lemma FindDescends(world: World, danger: Flags, s: Scout, s': Scout)
    requires world.Valid() && Safe(world, danger, s.pos) && s'.pos !in s.Known()
    requires Moves(world, danger, true)(s.pos, s'.pos)
    requires Left(world, danger, s') == Left(world, danger, s) - {s'.pos}
    requires !NothingLeft(Moves(world, danger, true), s.pos, s.Known())
    ensures Potential(world, danger, s') < Potential(world, danger, s)
  {
    assert LeadsTo(Moves(world, danger, true), s.pos, s'.pos, [s.pos, s'.pos]);
    assert s'.pos in Left(world, danger, s);
    assert |Left(world, danger, s')| == |Left(world, danger, s)| - 1;
    PotentialRange(world, danger, s);
    PotentialRange(world, danger, s');
  }

  /** Every tick that still has something to find lowers the potential. */
  lemma TickDescends(world: World, danger: Flags, s: Scout, s': Scout)
    requires world.Valid() && Safe(world, danger, s.pos) && Tick(world, danger, s, s')
    requires !NothingLeft(Moves(world, danger, true), s.pos, s.Known())
    ensures Moves(world, danger, true)(s.pos, s'.pos)
    ensures Potential(world, danger, s') < Potential(world, danger, s)
  {
    var fog, p := TickHeads(world, danger, s, s');
    LeftAfter(world, danger, s, s');
    if s'.pos in s.Known() {
      assert s'.Known() == s.Known();
      assert Left(world, danger, s') == Left(world, danger, s);
      RevisitDescends(world, danger, s, s', fog, p);
    } else {
      FindDescends(world, danger, s, s');
    }
  }

  lemma PotentialFits(world: World, danger: Flags, s: Scout)
    requires world.Valid() && Safe(world, danger, s.pos)
    ensures var n := |Grid(world)|; Potential(world, danger, s) < 2 * n * (n + 1)
  {
    var n, left := |Grid(world)|, Left(world, danger, s);
    PotentialRange(world, danger, s);
    assert s.pos in Grid(world) && left <= Grid(world) - {s.pos};
    SubsetSize(left, Grid(world) - {s.pos});
    RoundsBelow(n, |left|);
  }

  /** Once nothing is left, everything connected to the current cell is known. */
  lemma NothingLeftKnows(world: World, danger: Flags, s: Scout, c: Cell)
    requires world.Valid() && NothingLeft(Moves(world, danger, true), s.pos, s.Known())
    requires Connected(world, danger, s.pos, c)
    ensures c in s.Known()
  {
    var p :| LeadsTo(Moves(world, danger, true), s.pos, c, p);
    assert !Escapes(Moves(world, danger, true), s.pos, s.Known(), p);
  }

  lemma {:induction false} KnownGrows(world: World, danger: Flags, run: seq<Scout>, i: nat, j: nat)
    requires world.Valid() && Run(world, danger, run) && i <= j < |run|
    ensures run[i].Known() <= run[j].Known()
  {
    hide Chosen;
    if i < j {
      KnownGrows(world, danger, run, i, j - 1);
      assert Tick(world, danger, run[j-1], run[j]);
    }
  }

  /** A run of more ticks than its potential finds everything connected to where it stands. */
  lemma {:induction false} Coverage(world: World, danger: Flags, run: seq<Scout>, i: nat, c: Cell)
    requires world.Valid() && Run(world, danger, run) && i < |run| && Safe(world, danger, run[i].pos)
    requires |run| - i > Potential(world, danger, run[i])
    requires Connected(world, danger, run[i].pos, c)
    ensures c in run[|run|-1].Known()
    decreases |run| - i
  {
    var s := run[i];
    if NothingLeft(Moves(world, danger, true), s.pos, s.Known()) {
      NothingLeftKnows(world, danger, s, c);
      KnownGrows(world, danger, run, i, |run| - 1);
    } else {
      PotentialPositive(world, danger, s);
      var s' := run[i+1];
      TickDescends(world, danger, s, s');
      StepsBack(world, danger, s.pos, s'.pos);
      ConnectedFromNext(world, danger, s'.pos, s.pos, c);
      Coverage(world, danger, run, i + 1, c);
    }
  }

  lemma PotentialPositive(world: World, danger: Flags, s: Scout)
    requires world.Valid() && !NothingLeft(Moves(world, danger, true), s.pos, s.Known())
    ensures Potential(world, danger, s) > 0
  {
    if !NothingLeft(Moves(world, danger, false), s.pos, s.Known()) {
      var q :| Escapes(Moves(world, danger, false), s.pos, s.Known(), q);
      NearestExists(Moves(world, danger, false), s.pos, s.Known(), q);
      var p :| Nearest(Moves(world, danger, false), s.pos, s.Known(), p);
      DistanceIs(Moves(world, danger, false), s.pos, s.Known(), p);
    }
  }

  /** From safe ground, quadratically many ticks visit every cell that safe cells connect to the start. */
  lemma ExploresEverything(world: World, danger: Flags, run: seq<Scout>)
    requires world.Valid() && Run(world, danger, run) && Safe(world, danger, run[0].pos)
    requires var n := |Grid(world)|; |run| >= 2 * n * (n + 1)
    ensures forall c :: Connected(world, danger, run[0].pos, c) ==> c in run[|run|-1].Known()
  {
    PotentialFits(world, danger, run[0]);
    forall c | Connected(world, danger, run[0].pos, c) ensures c in run[|run|-1].Known() {
      Coverage(world, danger, run, 0, c);
    }
  }
}
