/** On blocking without cycles the counts of the chain walks are subtree sizes. */
module BlockingTree {
  import opened Common
  import opened Blocking

  /** No session waits for itself. */
  ghost predicate Acyclic(m: map<Id, Id>) {
    forall x :: x in m ==> !Reaches(m, m[x], x)
  }

  ghost predicate DistinctIds(rows: seq<Session>) {
    forall i, j :: 0 <= i < j < |rows| ==> rows[i].id != rows[j].id
  }

  /** Row `j` is blocked by `v` directly. */
  ghost predicate BlockedDirectly(rows: seq<Session>, j: int, v: Id)
    requires 0 <= j < |rows|
  {
    rows[j].blocker != 0 && rows[j].blocker == v
  }

  /** Over the first `n` rows: 1 + total blocked of each session that `v` blocks directly. */
  ghost function SubtreeSum(rows: seq<Session>, v: Id, n: nat): int
    requires n <= |rows|
  {
    if n == 0 then 0
    else if BlockedDirectly(rows, n - 1, v) then
      SubtreeSum(rows, v, n - 1) + 1 + |BlockedRows(rows, rows[n - 1].id)|
    else
      SubtreeSum(rows, v, n - 1)
  }

  /** The rows that wait for row `c`, and row `c`. */
  ghost function Tree(rows: seq<Session>, c: int): set<int>
    requires 0 <= c < |rows|
  {
    set r | 0 <= r < |rows| && Reaches(BlockedBy(rows), rows[r].id, rows[c].id)
  }

  ghost function Forest(rows: seq<Session>, v: Id, n: nat): set<int>
    requires n <= |rows|
  {
    set r | 0 <= r < |rows| && InForest(rows, v, n, r)
  }

  /** Row `r` is, or waits for, one of the first `n` rows that `v` blocks directly. */
  ghost predicate InForest(rows: seq<Session>, v: Id, n: nat, r: int)
    requires n <= |rows|
  {
    exists c :: 0 <= c < n && BlockedDirectly(rows, c, v) && r in Tree(rows, c)
  }

  // ----- the map of blockers -----

  lemma {:induction false} BlockedByRows(rows: seq<Session>)
    requires DistinctIds(rows)
    ensures forall j :: 0 <= j < |rows| ==> (rows[j].id in BlockedBy(rows) <==> rows[j].blocker != 0)
    ensures forall j :: 0 <= j < |rows| && rows[j].blocker != 0 ==> BlockedBy(rows)[rows[j].id] == rows[j].blocker
    ensures forall x :: x in BlockedBy(rows) ==> exists j :: 0 <= j < |rows| && rows[j].id == x
  {
    if rows != [] {
      var n := |rows| - 1;
      var init := rows[..n];
      BlockedByRows(init);
      assert forall j :: 0 <= j < n ==> init[j] == rows[j];
      forall x | x in BlockedBy(rows)
        ensures exists j :: 0 <= j < |rows| && rows[j].id == x
      {
        if x == rows[n].id {
        } else {
          assert x in BlockedBy(init);
          var j :| 0 <= j < |init| && init[j].id == x;
          assert rows[j].id == x;
        }
      }
      assert rows[n].id !in BlockedBy(init);
    }
  }

  // ----- reachability in a functional graph -----

  lemma ReachesSelf(m: map<Id, Id>, a: Id)
    ensures Reaches(m, a, a)
  {
    assert TrailFromTo(m, [a], a, a);
  }

  lemma ReachesStep(m: map<Id, Id>, a: Id, b: Id)
    requires Reaches(m, a, b) && b in m
    ensures Reaches(m, a, m[b])
  {
    var t :| TrailFromTo(m, t, a, b);
    assert TrailFromTo(m, t + [m[b]], a, m[b]);
  }

  /** A longer way to `b` comes through the session `b` blocks directly on it. */
  lemma ReachesBack(m: map<Id, Id>, a: Id, b: Id) returns (x: Id)
    requires Reaches(m, a, b) && a != b
    ensures x in m && m[x] == b && Reaches(m, a, x)
  {
    var t :| TrailFromTo(m, t, a, b);
    var u := t[..|t| - 1];
    x := t[|t| - 2];
    assert TrailFromTo(m, u, a, x);
  }

  lemma ReachesOneWay(m: map<Id, Id>, a: Id, b: Id, c: Id)
    requires Reaches(m, a, b) && Reaches(m, a, c)
    ensures Reaches(m, b, c) || Reaches(m, c, b)
  {
    var s :| TrailFromTo(m, s, a, b);
    var t :| TrailFromTo(m, t, a, c);
    if |s| <= |t| {
      TrailsAgree(m, s, t, |s| - 1);
      assert TrailFromTo(m, t[|s| - 1..], b, c);
    } else {
      TrailsAgree(m, s, t, |t| - 1);
      assert TrailFromTo(m, s[|t| - 1..], c, b);
    }
  }

  /** What reaches anything else reaches it through its own blocker. */
  lemma ReachesForward(m: map<Id, Id>, a: Id, b: Id)
    requires Reaches(m, a, b) && a != b
    ensures a in m && Reaches(m, m[a], b)
  {
    var t :| TrailFromTo(m, t, a, b);
    assert t[0] in m && m[t[0]] == t[1];
    assert TrailFromTo(m, t[1..], m[a], b);
  }

  /** Two sessions blocked directly by one session do not wait for each other. */
  lemma SiblingsApart(m: map<Id, Id>, b: Id, c: Id)
    requires Acyclic(m) && b in m && c in m && m[b] == m[c] && b != c
    ensures !Reaches(m, b, c)
  {
    if Reaches(m, b, c) {
      ReachesForward(m, b, c);
      assert false;
    }
  }

  // ----- counting -----

  lemma TreeSize(rows: seq<Session>, c: int)
    requires DistinctIds(rows) && 0 <= c < |rows|
    ensures |Tree(rows, c)| == 1 + |BlockedRows(rows, rows[c].id)|
  {
    ReachesSelf(BlockedBy(rows), rows[c].id);
    assert Tree(rows, c) == {c} + BlockedRows(rows, rows[c].id);
  }

  lemma TreesDisjoint(rows: seq<Session>, v: Id, b: int, c: int)
    requires DistinctIds(rows) && Acyclic(BlockedBy(rows)) && 0 <= b < c < |rows|
    requires BlockedDirectly(rows, b, v) && BlockedDirectly(rows, c, v)
    ensures Tree(rows, b) !! Tree(rows, c)
  {
    var m := BlockedBy(rows);
    BlockedByRows(rows);
    SiblingsApart(m, rows[b].id, rows[c].id);
    SiblingsApart(m, rows[c].id, rows[b].id);
    forall r | r in Tree(rows, b)
      ensures r !in Tree(rows, c)
    {
      if r in Tree(rows, c) {
        ReachesOneWay(m, rows[r].id, rows[b].id, rows[c].id);
        assert false;
      }
    }
  }

  /** A row is in one tree of a forest only. */
  lemma TreeOutsideForest(rows: seq<Session>, v: Id, n: nat, r: int)
    requires DistinctIds(rows) && Acyclic(BlockedBy(rows)) && n < |rows|
    requires BlockedDirectly(rows, n, v) && InForest(rows, v, n, r)
    ensures r !in Tree(rows, n)
  {
    var c :| 0 <= c < n && BlockedDirectly(rows, c, v) && r in Tree(rows, c);
    TreesDisjoint(rows, v, c, n);
  }

  lemma InForestStep(rows: seq<Session>, v: Id, n: nat, r: int)
    requires n < |rows|
    ensures InForest(rows, v, n + 1, r) <==>
              InForest(rows, v, n, r) || (BlockedDirectly(rows, n, v) && r in Tree(rows, n))
  {
    if InForest(rows, v, n, r) {
      var c :| 0 <= c < n && BlockedDirectly(rows, c, v) && r in Tree(rows, c);
    }
  }

  lemma ForestStep(rows: seq<Session>, v: Id, n: nat)
    requires DistinctIds(rows) && Acyclic(BlockedBy(rows)) && n < |rows|
    ensures |Forest(rows, v, n + 1)| ==
            |Forest(rows, v, n)| + if BlockedDirectly(rows, n, v) then |Tree(rows, n)| else 0
  {
    var before, after, tree := Forest(rows, v, n), Forest(rows, v, n + 1), Tree(rows, n);
    forall r
      ensures r in after <==> r in before || (BlockedDirectly(rows, n, v) && r in tree)
    {
      if 0 <= r < |rows| {
        InForestStep(rows, v, n, r);
      }
    }
    if BlockedDirectly(rows, n, v) {
      forall r | r in before
        ensures r !in tree
      {
        TreeOutsideForest(rows, v, n, r);
      }
      assert after == before + tree;
    } else {
      assert after == before;
    }
  }

  lemma {:induction false} ForestSize(rows: seq<Session>, v: Id, n: nat)
    requires DistinctIds(rows) && Acyclic(BlockedBy(rows)) && n <= |rows|
    ensures |Forest(rows, v, n)| == SubtreeSum(rows, v, n)
  {
    if n == 0 {
      assert Forest(rows, v, 0) == {};
    } else {
      ForestSize(rows, v, n - 1);
      ForestStep(rows, v, n - 1);
      TreeSize(rows, n - 1);
    }
  }

  lemma ForestIsBlocked(rows: seq<Session>, v: Id, r: int)
    requires DistinctIds(rows) && Acyclic(BlockedBy(rows))
    ensures r in Forest(rows, v, |rows|) <==> r in BlockedRows(rows, v)
  {
    var m := BlockedBy(rows);
    BlockedByRows(rows);
    if r in Forest(rows, v, |rows|) {
      var c :| 0 <= c < |rows| && BlockedDirectly(rows, c, v) && r in Tree(rows, c);
      ReachesStep(m, rows[r].id, rows[c].id);
    }
    if r in BlockedRows(rows, v) {
      var x := ReachesBack(m, rows[r].id, v);
      var c :| 0 <= c < |rows| && rows[c].id == x;
      assert BlockedDirectly(rows, c, v) && r in Tree(rows, c);
    }
  }

  /** Without cycles, the number of sessions that `v` blocks is the sum, over the
      sessions it blocks directly, of one plus the number that each of them blocks. */
  lemma TotalIsSubtreeSize(rows: seq<Session>, v: Id)
    requires DistinctIds(rows) && Acyclic(BlockedBy(rows))
    ensures |BlockedRows(rows, v)| == SubtreeSum(rows, v, |rows|)
  {
    ForestSize(rows, v, |rows|);
    forall r
      ensures r in Forest(rows, v, |rows|) <==> r in BlockedRows(rows, v)
    {
      ForestIsBlocked(rows, v, r);
    }
    assert Forest(rows, v, |rows|) == BlockedRows(rows, v);
  }

  lemma ReachesJoin(m: map<Id, Id>, a: Id, b: Id, c: Id)
    requires Reaches(m, a, b) && Reaches(m, b, c)
    ensures Reaches(m, a, c)
  {
    var s :| TrailFromTo(m, s, a, b);
    var t :| TrailFromTo(m, t, b, c);
    var u := s + t[1..];
    assert forall i :: |s| - 1 <= i < |u| ==> u[i] == t[i - (|s| - 1)];
    assert TrailFromTo(m, u, a, c);
  }

  /** Sessions on one cycle, which is how a deadlock looks, block equally many. */
  lemma CycleTotalsEqual(rows: seq<Session>, a: int, b: int)
    requires DistinctIds(rows) && 0 <= a < |rows| && 0 <= b < |rows|
    requires Reaches(BlockedBy(rows), rows[a].id, rows[b].id) && Reaches(BlockedBy(rows), rows[b].id, rows[a].id)
    ensures |BlockedRows(rows, rows[a].id)| == |BlockedRows(rows, rows[b].id)|
  {
    var m := BlockedBy(rows);
    TreeSize(rows, a);
    TreeSize(rows, b);
    forall r | 0 <= r < |rows|
      ensures r in Tree(rows, a) <==> r in Tree(rows, b)
    {
      if r in Tree(rows, a) {
        ReachesJoin(m, rows[r].id, rows[a].id, rows[b].id);
      }
      if r in Tree(rows, b) {
        ReachesJoin(m, rows[r].id, rows[b].id, rows[a].id);
      }
    }
    assert Tree(rows, a) == Tree(rows, b);
  }
}
