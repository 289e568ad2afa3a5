/**
 * The reporting-structure calculator: a depth-first count over the
 * manager-to-direct-report relation, and what that count means.
 *
 * The source recursion has no cycle guard. Acyclicity is therefore a
 * precondition, witnessed by a ghost `rank` under which every direct report
 * sits strictly below its manager; the rank is also the termination measure.
 */
module OrgChart {
  import opened Models

  /** The direct-report edges the store holds, keyed by manager. */
  type Chart = map<Id, seq<Id>>

  /** The direct reports the store returns for `id`; an unknown id has none. */
  function DirectReports(chart: Chart, id: Id): seq<Id>
  {
    if id in chart then chart[id] else []
  }

  ghost function Rank(rank: map<Id, nat>, id: Id): nat
  {
    if id in rank then rank[id] else 0
  }

  /** `rank` witnesses that nobody is, directly or transitively, their own manager. */
  ghost predicate Ranked(chart: Chart, rank: map<Id, nat>)
  {
    forall m, x :: x in DirectReports(chart, m) ==> Rank(rank, x) < Rank(rank, m)
  }

  ghost predicate Distinct(s: seq<Id>)
  {
    forall i, j :: 0 <= i < j < |s| ==> s[i] != s[j]
  }

  /** A tree-shaped chart: no report listed twice, and nobody has two managers. */
  ghost predicate IsForest(chart: Chart)
  {
    && (forall m :: Distinct(DirectReports(chart, m)))
    && (forall m1, m2, x :: x in DirectReports(chart, m1) && x in DirectReports(chart, m2) ==> m1 == m2)
  }

  /**
   * The number of reports below `id`: zero for a leaf, otherwise the number of
   * direct reports plus the count below each of them. `numDirectReports` is
   * the source's pass-through accumulator; the service always passes 0.
   */
  function CountReports(chart: Chart, ghost rank: map<Id, nat>, id: Id, numDirectReports: int): (r: int)
    requires Ranked(chart, rank)
    ensures numDirectReports >= 0 ==> r >= |DirectReports(chart, id)|
    ensures numDirectReports >= 0 ==> (r == 0 <==> DirectReports(chart, id) == [])
    decreases Rank(rank, id), 1, 0
  {
    var directReports := DirectReports(chart, id);
    if directReports == [] then
      0
    else
      numDirectReports + |directReports|
        + SumReports(chart, rank, directReports, numDirectReports, Rank(rank, id))
  }

  /** The sum of `CountReports` over `ds`, every one of which ranks below `bound`. */
  function SumReports(chart: Chart, ghost rank: map<Id, nat>, ds: seq<Id>, numDirectReports: int,
                      ghost bound: nat): (r: int)
    requires Ranked(chart, rank)
    requires forall d :: d in ds ==> Rank(rank, d) < bound
    ensures numDirectReports >= 0 ==> r >= 0
    decreases bound, 0, |ds|
  {
    if ds == [] then
      0
    else
      CountReports(chart, rank, ds[0], numDirectReports)
        + SumReports(chart, rank, ds[1..], numDirectReports, bound)
  }

  /** The employees strictly below `id`. */
  ghost function Below(chart: Chart, rank: map<Id, nat>, id: Id): (s: set<Id>)
    requires Ranked(chart, rank)
    ensures forall x :: x in s ==> Rank(rank, x) < Rank(rank, id)
    ensures forall d :: d in DirectReports(chart, id) ==> d in s
    decreases Rank(rank, id), 1, 0
  {
    BelowAll(chart, rank, DirectReports(chart, id), Rank(rank, id))
  }

  /** The union of the subtrees rooted at the members of `ds`. */
  ghost function BelowAll(chart: Chart, rank: map<Id, nat>, ds: seq<Id>, bound: nat): (s: set<Id>)
    requires Ranked(chart, rank)
    requires forall d :: d in ds ==> Rank(rank, d) < bound
    ensures forall x :: x in s ==> Rank(rank, x) < bound
    ensures forall d :: d in ds ==> d in s
    decreases bound, 0, |ds|
  {
    if ds == [] then {}
    else {ds[0]} + Below(chart, rank, ds[0]) + BelowAll(chart, rank, ds[1..], bound)
  }

  /** `id` together with everybody below it. */
  ghost function Subtree(chart: Chart, rank: map<Id, nat>, id: Id): set<Id>
    requires Ranked(chart, rank)
  {
    {id} + Below(chart, rank, id)
  }

  /** A chain of command: each element is a direct report of the one before it. */
  ghost predicate IsPath(chart: Chart, p: seq<Id>)
  {
    && |p| >= 1
    && forall i :: 0 <= i < |p| - 1 ==> p[i + 1] in DirectReports(chart, p[i])
  }

  /** Each subtree rooted in `ds` lies inside the union over `ds`. */
  lemma {:induction false} SubtreeInBelowAll(chart: Chart, rank: map<Id, nat>, ds: seq<Id>, bound: nat, j: nat)
    requires Ranked(chart, rank)
    requires forall d :: d in ds ==> Rank(rank, d) < bound
    requires j < |ds|
    ensures Subtree(chart, rank, ds[j]) <= BelowAll(chart, rank, ds, bound)
    decreases j
  {
    if j > 0 {
      SubtreeInBelowAll(chart, rank, ds[1..], bound, j - 1);
    }
  }

  /** Everybody in the union over `ds` lies in the subtree of some member of `ds`. */
  lemma {:induction false} InBelowAll(chart: Chart, rank: map<Id, nat>, ds: seq<Id>, bound: nat, x: Id)
    returns (j: nat)
    requires Ranked(chart, rank)
    requires forall d :: d in ds ==> Rank(rank, d) < bound
    requires x in BelowAll(chart, rank, ds, bound)
    ensures j < |ds| && x in Subtree(chart, rank, ds[j])
    decreases |ds|
  {
    if x in Subtree(chart, rank, ds[0]) {
      j := 0;
    } else {
      var k := InBelowAll(chart, rank, ds[1..], bound, x);
      j := k + 1;
    }
  }

  /** Whoever is below `a` has a manager in the subtree of `a`. */
  lemma {:induction false} ManagerInSubtree(chart: Chart, rank: map<Id, nat>, a: Id, x: Id) returns (m: Id)
    requires Ranked(chart, rank)
    requires x in Below(chart, rank, a)
    ensures x in DirectReports(chart, m) && m in Subtree(chart, rank, a)
    decreases Rank(rank, a)
  {
    var ds := DirectReports(chart, a);
    var j := InBelowAll(chart, rank, ds, Rank(rank, a), x);
    if x == ds[j] {
      m := a;
    } else {
      m := ManagerInSubtree(chart, rank, ds[j], x);
      SubtreeInBelowAll(chart, rank, ds, Rank(rank, a), j);
    }
  }

  /** In a forest, two subtrees that meet are nested. */
  lemma {:induction false} SubtreesNested(chart: Chart, rank: map<Id, nat>, x: Id, a: Id, b: Id)
    requires Ranked(chart, rank) && IsForest(chart)
    requires x in Subtree(chart, rank, a) && x in Subtree(chart, rank, b)
    ensures a == b || a in Below(chart, rank, b) || b in Below(chart, rank, a)
    decreases Rank(rank, a) - Rank(rank, x)
  {
    if x != a && x != b {
      var m := ManagerInSubtree(chart, rank, a, x);
      var m' := ManagerInSubtree(chart, rank, b, x);
      assert m == m';
      SubtreesNested(chart, rank, m, a, b);
    }
  }

  /** A direct report of `mgr` is never below another direct report of `mgr`. */
  lemma NotBelowSibling(chart: Chart, rank: map<Id, nat>, mgr: Id, d1: Id, d2: Id)
    requires Ranked(chart, rank) && IsForest(chart)
    requires d1 in DirectReports(chart, mgr) && d2 in DirectReports(chart, mgr)
    ensures d1 !in Below(chart, rank, d2)
  {
    if d1 in Below(chart, rank, d2) {
      var m := ManagerInSubtree(chart, rank, d2, d1);
      assert false;
    }
  }

  /** In a forest, the subtrees of two different direct reports of one manager are disjoint. */
  lemma SiblingSubtreesDisjoint(chart: Chart, rank: map<Id, nat>, mgr: Id, d1: Id, d2: Id)
    requires Ranked(chart, rank) && IsForest(chart)
    requires d1 in DirectReports(chart, mgr) && d2 in DirectReports(chart, mgr) && d1 != d2
    ensures Subtree(chart, rank, d1) !! Subtree(chart, rank, d2)
  {
    NotBelowSibling(chart, rank, mgr, d1, d2);
    NotBelowSibling(chart, rank, mgr, d2, d1);
    forall x | x in Subtree(chart, rank, d1)
      ensures x !in Subtree(chart, rank, d2)
    {
      if x in Subtree(chart, rank, d2) {
        SubtreesNested(chart, rank, x, d1, d2);
        assert false;
      }
    }
  }

  /**
   * On a forest, the count the calculator returns is the number of distinct
   * employees below the root.
   */
  lemma {:induction false} CountIsSubtreeSize(chart: Chart, rank: map<Id, nat>, id: Id)
    requires Ranked(chart, rank) && IsForest(chart)
    ensures CountReports(chart, rank, id, 0) == |Below(chart, rank, id)|
    decreases Rank(rank, id), 1, 0
  {
    var ds := DirectReports(chart, id);
    if ds != [] {
      SumIsSubtreesSize(chart, rank, id, ds);
    }
  }

  /** Over a list of distinct direct reports of `mgr`, each report plus its count sums to the union's size. */
  lemma {:induction false} SumIsSubtreesSize(chart: Chart, rank: map<Id, nat>, mgr: Id, ds: seq<Id>)
    requires Ranked(chart, rank) && IsForest(chart)
    requires Distinct(ds)
    requires forall d :: d in ds ==> d in DirectReports(chart, mgr)
    ensures |ds| + SumReports(chart, rank, ds, 0, Rank(rank, mgr))
            == |BelowAll(chart, rank, ds, Rank(rank, mgr))|
    decreases Rank(rank, mgr), 0, |ds|
  {
    if ds != [] {
      var bound := Rank(rank, mgr);
      var d, rest := ds[0], ds[1..];
      CountIsSubtreeSize(chart, rank, d);
      assert Distinct(rest) by {
        forall i, j | 0 <= i < j < |rest| ensures rest[i] != rest[j] {
          assert rest[i] == ds[i + 1] && rest[j] == ds[j + 1];
        }
      }
      SumIsSubtreesSize(chart, rank, mgr, rest);
      var sub, others := Subtree(chart, rank, d), BelowAll(chart, rank, rest, bound);
      forall x | x in others
        ensures x !in sub
      {
        var k := InBelowAll(chart, rank, rest, bound, x);
        assert rest[k] == ds[k + 1];
        SiblingSubtreesDisjoint(chart, rank, mgr, d, rest[k]);
      }
      assert sub * others == {};
      assert |sub| == 1 + |Below(chart, rank, d)|;
      assert BelowAll(chart, rank, ds, bound) == sub + others;
    }
  }

  /** Somebody below `a` is reached from `a` by a chain of command. */
  lemma {:induction false} PathTo(chart: Chart, rank: map<Id, nat>, a: Id, x: Id) returns (p: seq<Id>)
    requires Ranked(chart, rank)
    requires x in Below(chart, rank, a)
    ensures IsPath(chart, p) && |p| >= 2 && p[0] == a && p[|p| - 1] == x
    decreases Rank(rank, a)
  {
    var ds := DirectReports(chart, a);
    var j := InBelowAll(chart, rank, ds, Rank(rank, a), x);
    if x == ds[j] {
      p := [a, x];
    } else {
      var q := PathTo(chart, rank, ds[j], x);
      p := [a] + q;
      assert p[1] == ds[j];
      forall i | 0 <= i < |p| - 1
        ensures p[i + 1] in DirectReports(chart, p[i])
      {
        if i > 0 {
          assert p[i] == q[i - 1] && p[i + 1] == q[i];
        }
      }
    }
  }

  /** The end of every chain of command lies below its start. */
  lemma {:induction false} PathEndsBelow(chart: Chart, rank: map<Id, nat>, p: seq<Id>)
    requires Ranked(chart, rank)
    requires IsPath(chart, p) && |p| >= 2
    ensures p[|p| - 1] in Below(chart, rank, p[0])
    decreases |p|
  {
    var ds := DirectReports(chart, p[0]);
    assert p[1] in ds;
    var j :| 0 <= j < |ds| && ds[j] == p[1];
    SubtreeInBelowAll(chart, rank, ds, Rank(rank, p[0]), j);
    if |p| > 2 {
      var q := p[1..];
      forall i | 0 <= i < |q| - 1
        ensures q[i + 1] in DirectReports(chart, q[i])
      {
        assert q[i] == p[i + 1] && q[i + 1] == p[i + 2];
      }
      PathEndsBelow(chart, rank, q);
    }
  }

  /** `Below` is exactly the set of employees reachable from `a` along direct-report edges. */
  lemma BelowIsReachable(chart: Chart, rank: map<Id, nat>, a: Id, x: Id)
    requires Ranked(chart, rank)
    ensures x in Below(chart, rank, a)
            <==> exists p :: IsPath(chart, p) && |p| >= 2 && p[0] == a && p[|p| - 1] == x
  {
    if x in Below(chart, rank, a) {
      var p := PathTo(chart, rank, a, x);
    }
    if exists p :: IsPath(chart, p) && |p| >= 2 && p[0] == a && p[|p| - 1] == x {
      var p :| IsPath(chart, p) && |p| >= 2 && p[0] == a && p[|p| - 1] == x;
      PathEndsBelow(chart, rank, p);
    }
  }

  /** Nobody in a ranked chart is below themselves: the chart has no cycle. */
  lemma NoCycle(chart: Chart, rank: map<Id, nat>, a: Id)
    requires Ranked(chart, rank)
    ensures !exists p :: IsPath(chart, p) && |p| >= 2 && p[0] == a && p[|p| - 1] == a
  {
    BelowIsReachable(chart, rank, a, a);
  }

  /** Under a chart whose every edge ends in `s`, everybody below anyone is in `s`. */
  lemma BelowWithin(chart: Chart, rank: map<Id, nat>, a: Id, s: set<Id>)
    requires Ranked(chart, rank)
    requires forall m, x :: x in DirectReports(chart, m) ==> x in s
    ensures Below(chart, rank, a) <= s
  {
    forall x | x in Below(chart, rank, a)
      ensures x in s
    {
      var m := ManagerInSubtree(chart, rank, a, x);
    }
  }

  /** `s` with every id in `gone` taken out, in the original order. */
  function Without(s: seq<Id>, gone: set<Id>): (r: seq<Id>)
    ensures forall x :: x in r <==> x in s && x !in gone
    ensures |r| <= |s|
    ensures (forall x :: x in s ==> x !in gone) ==> r == s
  {
    if s == [] then []
    else if s[0] in gone then Without(s[1..], gone)
    else [s[0]] + Without(s[1..], gone)
  }

  /** Taking ids out of a list without repeats leaves a list without repeats. */
  lemma {:induction false} DistinctWithout(s: seq<Id>, gone: set<Id>)
    requires Distinct(s)
    ensures Distinct(Without(s, gone))
  {
    if s != [] {
      var rest := s[1..];
      assert Distinct(rest) by {
        forall i, j | 0 <= i < j < |rest| ensures rest[i] != rest[j] {
          assert rest[i] == s[i + 1] && rest[j] == s[j + 1];
        }
      }
      DistinctWithout(rest, gone);
      if s[0] !in gone {
        var w := Without(rest, gone);
        assert s[0] !in rest by {
          forall j | 0 <= j < |rest| ensures rest[j] != s[0] {
            assert rest[j] == s[j + 1];
          }
        }
        var r := [s[0]] + w;
        forall i, j | 0 <= i < j < |r| ensures r[i] != r[j] {
          if i == 0 {
            assert r[j] == w[j - 1] && r[j] in w;
          } else {
            assert r[i] == w[i - 1] && r[j] == w[j - 1];
          }
        }
      }
    }
  }

  /**
   * The chart after the employees in `gone` are deleted: a direct report's
   * edge sits on its own row, so each deleted id leaves its manager's list.
   */
  function WithoutReports(chart: Chart, gone: set<Id>): (r: Chart)
    ensures forall m :: DirectReports(r, m) == Without(DirectReports(chart, m), gone)
  {
    map m | m in chart :: Without(chart[m], gone)
  }

  /** An edge survives the deletion exactly when its report was not deleted. */
  lemma WithoutReportsEdges(chart: Chart, gone: set<Id>, m: Id, x: Id)
    ensures x in DirectReports(WithoutReports(chart, gone), m)
            <==> x in DirectReports(chart, m) && x !in gone
  {
  }

  /** Deleting employees nobody reports to leaves the chart as it was. */
  lemma WithoutUnlisted(chart: Chart, gone: set<Id>)
    requires forall m, x :: x in DirectReports(chart, m) ==> x !in gone
    ensures WithoutReports(chart, gone) == chart
  {
    var r := WithoutReports(chart, gone);
    forall m | m in chart
      ensures r[m] == chart[m]
    {
      assert DirectReports(r, m) == Without(DirectReports(chart, m), gone);
    }
  }

  /** Deleting employees keeps the chart acyclic under the same rank, and keeps a forest a forest. */
  lemma WithoutKeepsShape(chart: Chart, rank: map<Id, nat>, gone: set<Id>)
    requires Ranked(chart, rank)
    ensures Ranked(WithoutReports(chart, gone), rank)
    ensures IsForest(chart) ==> IsForest(WithoutReports(chart, gone))
  {
    var after := WithoutReports(chart, gone);
    forall m, x | x in DirectReports(after, m)
      ensures x in DirectReports(chart, m)
    {
      WithoutReportsEdges(chart, gone, m, x);
    }
    if IsForest(chart) {
      forall m
        ensures Distinct(DirectReports(after, m))
      {
        DistinctWithout(DirectReports(chart, m), gone);
      }
    }
  }

  /** The chart the integration tests seed: John over Paul and Ringo, Ringo over Pete and George. */
  function BeatlesChart(): Chart
  {
    map["John" := ["Paul", "Ringo"], "Ringo" := ["Pete", "George"]]
  }

  ghost function BeatlesRank(): map<Id, nat>
  {
    map["John" := 2, "Ringo" := 1]
  }

  lemma BeatlesRanked()
    ensures Ranked(BeatlesChart(), BeatlesRank())
  {
    // Case split on the two managers that have direct reports.
    var chart, rank := BeatlesChart(), BeatlesRank();
    forall m, x | x in DirectReports(chart, m)
      ensures Rank(rank, x) < Rank(rank, m)
    {
      assert m == "John" || m == "Ringo";
    }
  }

  lemma BeatlesChartIsForest()
    ensures Ranked(BeatlesChart(), BeatlesRank()) && IsForest(BeatlesChart())
  {
    BeatlesRanked();
    var chart := BeatlesChart();
    forall m1, m2, x | x in DirectReports(chart, m1) && x in DirectReports(chart, m2)
      ensures m1 == m2
    {
      assert m1 == "John" || m1 == "Ringo";
    }
  }

  lemma BeatlesLeaves()
    ensures Ranked(BeatlesChart(), BeatlesRank())
    ensures Below(BeatlesChart(), BeatlesRank(), "Paul") == {}
    ensures Below(BeatlesChart(), BeatlesRank(), "Ringo") == {"Pete", "George"}
  {
    BeatlesRanked();
    var chart, rank := BeatlesChart(), BeatlesRank();
    assert DirectReports(chart, "Ringo") == ["Pete", "George"];
    assert DirectReports(chart, "Paul") == [];
    assert Below(chart, rank, "Pete") == {};
    assert Below(chart, rank, "George") == {};
  }

  /** Four employees sit below John. */
  lemma BeatlesBelow()
    ensures Ranked(BeatlesChart(), BeatlesRank())
    ensures Below(BeatlesChart(), BeatlesRank(), "John") == {"Paul", "Ringo", "Pete", "George"}
  {
    BeatlesLeaves();
    var chart, rank := BeatlesChart(), BeatlesRank();
    var ds := ["Paul", "Ringo"];
    assert DirectReports(chart, "John") == ds;
    assert ds[1..] == ["Ringo"];
    assert BelowAll(chart, rank, ["Ringo"], 2) == {"Ringo", "Pete", "George"};
  }

  /** The calculator reports 4 for John, as the integration test expects: the forest theorem applied to the test chart. */
  lemma BeatlesCount()
    ensures Ranked(BeatlesChart(), BeatlesRank())
    ensures CountReports(BeatlesChart(), BeatlesRank(), "John", 0) == 4
  {
    BeatlesChartIsForest();
    BeatlesFourBelow();
    CountIsSubtreeSize(BeatlesChart(), BeatlesRank(), "John");
  }

  lemma BeatlesFourBelow()
    ensures |Below(BeatlesChart(), BeatlesRank(), "John")| == 4
  {
    BeatlesBelow();
    BeatlesNames();
  }

  lemma BeatlesNames()
    ensures |{"Paul", "Ringo", "Pete", "George"}| == 4
  {
    assert "Paul" != "Pete" by { assert "Paul"[1] != "Pete"[1]; }
    assert "Paul" != "Ringo" && "Pete" != "Ringo" && "Paul" != "George" && "Pete" != "George" && "Ringo" != "George";
  }
}
