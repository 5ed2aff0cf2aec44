/** Blocking analysis of SQL Server sessions: who is at the head of each blocking
    chain, and how many sessions each session blocks, directly or through others. */
module Blocking {
  import opened Common

  /** Session ids are 16-bit integers. */
  type Id = Int16

  const MAX_DEPTH: nat := 100

  /** What a walk up the blocking chain returns. */
  datatype Walk = Walk(head: Id, visited: seq<Id>, path: string)

  /** The fields of a session that blocking reads or writes. */
  datatype Session = Session(id: Id, blocker: Id, head: Id, total: int, path: string)

  /** One id of a path. */
  function Segment(id: Id): string {
    "/" + Decimal(id)
  }

  /** Walk from `id` to the session that blocks it, and so on, remembering the
      visited ids and stopping on a repeat or when the depth runs out. */
  function HeadBlocker(id: Id, m: map<Id, Id>, p: seq<Id>, depth: nat, path: string): Result<Walk, nat>
    decreases if depth > MAX_DEPTH then 0 else MAX_DEPTH + 1 - depth
  {
    if depth > MAX_DEPTH then
      Err(depth)
    else if id in p then
      Ok(Walk(id, p, path))
    else if id !in m then
      Ok(Walk(id, p + [id], Segment(id) + path))
    else
      HeadBlocker(m[id], m, p + [id], depth + 1, Segment(id) + path)
  }

  function StartWalk(m: map<Id, Id>, id: Id): Result<Walk, nat> {
    HeadBlocker(id, m, [], 0, "")
  }

  // ----- the blocking graph -----

  /** Each id of `t` is blocked by the next one. */
  ghost predicate Trail(m: map<Id, Id>, t: seq<Id>) {
    |t| > 0 && forall i :: 0 <= i < |t| - 1 ==> t[i] in m && m[t[i]] == t[i + 1]
  }

  ghost predicate TrailFromTo(m: map<Id, Id>, t: seq<Id>, a: Id, b: Id) {
    Trail(m, t) && t[0] == a && t[|t| - 1] == b
  }

  /** `a` is `b`, or waits for `b` directly or through other sessions. */
  ghost predicate Reaches(m: map<Id, Id>, a: Id, b: Id) {
    exists t :: TrailFromTo(m, t, a, b)
  }

  /** The first 101 ids of the chain are pairwise distinct and all blocked. */
  ghost predicate TooDeep(m: map<Id, Id>, id: Id) {
    exists t :: DeepTrail(m, t, id)
  }

  ghost predicate DeepTrail(m: map<Id, Id>, t: seq<Id>, id: Id) {
    Trail(m, t) && t[0] == id && |t| == 101 && Distinct(t) && t[100] in m
  }

  /** The path text: the visited ids, latest first. */
  function PathOf(p: seq<Id>): string {
    if p == [] then "" else Segment(p[|p| - 1]) + PathOf(p[..|p| - 1])
  }

  /** The state of a walk that has visited `p` and now stands at `id`. */
  ghost predicate Walking(m: map<Id, Id>, start: Id, id: Id, p: seq<Id>) {
    && Distinct(p)
    && if p == [] then id == start
       else TrailFromTo(m, p, start, p[|p| - 1]) && p[|p| - 1] in m && m[p[|p| - 1]] == id
  }

  /** A walk that ended: its visited list is a repeat-free trail from the start,
      and its head is the unblocked end of the trail or the first id met twice. */
  ghost predicate Walked(m: map<Id, Id>, start: Id, w: Walk) {
    && |w.visited| > 0
    && var last := w.visited[|w.visited| - 1];
    && TrailFromTo(m, w.visited, start, last) && Distinct(w.visited)
    && w.path == PathOf(w.visited)
    && if last in m then w.head == m[last] && w.head in w.visited && |w.visited| <= MAX_DEPTH
       else w.head == last && |w.visited| <= MAX_DEPTH + 1
  }

  /** Visiting one more id extends the trail. */
  lemma TrailExtends(m: map<Id, Id>, start: Id, id: Id, p: seq<Id>)
    requires Walking(m, start, id, p) && id !in p
    ensures Distinct(p + [id]) && TrailFromTo(m, p + [id], start, id)
  {
    var q := p + [id];
    if p != [] {
      assert forall i :: 0 <= i < |p| - 1 ==> q[i] in m && m[q[i]] == q[i + 1];
      assert q[|p| - 1] in m && m[q[|p| - 1]] == q[|p|];
    }
  }

  lemma PathExtends(p: seq<Id>, id: Id)
    ensures PathOf(p + [id]) == Segment(id) + PathOf(p)
  {
    assert (p + [id])[..|p|] == p;
  }

  lemma {:induction false} WalkInvariant(m: map<Id, Id>, start: Id, id: Id, p: seq<Id>, depth: nat, path: string)
    requires Walking(m, start, id, p) && depth == |p| <= MAX_DEPTH + 1 && path == PathOf(p)
    ensures var r := HeadBlocker(id, m, p, depth, path);
            if r.Ok? then Walked(m, start, r.value) else TooDeep(m, start) && r.error == 101
    decreases MAX_DEPTH + 1 - depth
  {
    if depth > MAX_DEPTH {
      assert DeepTrail(m, p, start);
    } else if id in p {
      assert Walked(m, start, Walk(id, p, path));
    } else {
      TrailExtends(m, start, id, p);
      PathExtends(p, id);
      if id in m {
        WalkInvariant(m, start, m[id], p + [id], depth + 1, Segment(id) + path);
      } else {
        assert Walked(m, start, Walk(id, p + [id], Segment(id) + path));
      }
    }
  }

  /** The graph is functional, so two trails from one id agree. */
  lemma {:induction false} TrailsAgree(m: map<Id, Id>, s: seq<Id>, t: seq<Id>, k: nat)
    requires Trail(m, s) && Trail(m, t) && s[0] == t[0] && k < |s| && k < |t|
    ensures s[k] == t[k]
  {
    if k > 0 {
      TrailsAgree(m, s, t, k - 1);
      assert s[k - 1] == t[k - 1];
    }
  }

  /** A trail cannot leave a set closed under "blocked by". */
  lemma {:induction false} TrailStays(m: map<Id, Id>, t: seq<Id>, s: set<Id>, k: nat)
    requires Trail(m, t) && t[0] in s && k < |t|
    requires forall x :: x in s && x in m ==> m[x] in s
    ensures t[k] in s
  {
    if k > 0 {
      TrailStays(m, t, s, k - 1);
      assert t[k - 1] in m && m[t[k - 1]] == t[k];
    }
  }

  lemma WalkedVisitsReachable(m: map<Id, Id>, start: Id, w: Walk, b: Id)
    requires Walked(m, start, w)
    ensures b in w.visited <==> Reaches(m, start, b)
  {
    var p := w.visited;
    if b in p {
      var i :| 0 <= i < |p| && p[i] == b;
      assert TrailFromTo(m, p[..i + 1], start, b);
    }
    if Reaches(m, start, b) {
      var t :| TrailFromTo(m, t, start, b);
      var s := set x | x in p;
      forall x | x in s && x in m
        ensures m[x] in s
      {
        var i :| 0 <= i < |p| && p[i] == x;
        assert i < |p| - 1 ==> m[p[i]] == p[i + 1];
      }
      TrailStays(m, t, s, |t| - 1);
    }
  }

  lemma WalkedRulesOutDeep(m: map<Id, Id>, start: Id, w: Walk, t: seq<Id>)
    requires Walked(m, start, w)
    requires Trail(m, t) && t[0] == start && |t| == MAX_DEPTH + 1 && t[MAX_DEPTH] in m
    ensures !Distinct(t)
  {
    var p := w.visited;
    var k := |p| - 1;
    forall i | 0 <= i < |p|
      ensures p[i] == t[i]
    {
      TrailsAgree(m, p, t, i);
    }
    assert p[k] == t[k];
    if k < MAX_DEPTH {
      assert t[k] in m && m[t[k]] == t[k + 1];
      var j :| 0 <= j < |p| && p[j] == w.head;
      assert t[j] == t[k + 1];
    }
  }

  lemma WalkedIsNotDeep(m: map<Id, Id>, start: Id, w: Walk)
    requires Walked(m, start, w)
    ensures !TooDeep(m, start)
  {
    forall t: seq<Id> | Trail(m, t) && t[0] == start && |t| == MAX_DEPTH + 1 && t[MAX_DEPTH] in m
      ensures !Distinct(t)
    {
      WalkedRulesOutDeep(m, start, w, t);
    }
  }

  /** The whole behaviour of a walk from an empty visited list. It fails exactly
      when the chain is too deep. Otherwise it visits the reachable ids once each,
      and its head is the only unblocked one among them or, when there is none,
      the id at which the chain closes on itself. */
  lemma HeadBlockerExact(m: map<Id, Id>, id: Id)
    ensures StartWalk(m, id).Err? <==> TooDeep(m, id)
    ensures StartWalk(m, id).Ok? ==>
              var w := StartWalk(m, id).value;
              && Distinct(w.visited) && w.path == PathOf(w.visited)
              && (forall b :: b in w.visited <==> Reaches(m, id, b))
              && (w.head !in m ==> forall b :: Reaches(m, id, b) && b !in m ==> b == w.head)
              && (w.head in m ==> forall b :: Reaches(m, id, b) ==> b in m)
              && Reaches(m, id, w.head)
              && (w.head in m ==> m[w.visited[|w.visited| - 1]] == w.head)
  {
    WalkInvariant(m, id, id, [], 0, "");
    var r := StartWalk(m, id);
    if r.Ok? {
      WalkedIsNotDeep(m, id, r.value);
      forall b
        ensures b in r.value.visited <==> Reaches(m, id, b)
      {
        WalkedVisitsReachable(m, id, r.value, b);
      }
      var p := r.value.visited;
      assert forall i :: 0 <= i < |p| - 1 ==> p[i] in m;
    }
  }

  lemma {:induction false} DistinctFits(p: seq<Id>, s: set<Id>)
    requires Distinct(p) && forall x :: x in p ==> x in s
    ensures |p| <= |s|
  {
    if p != [] {
      var x := p[|p| - 1];
      assert x in p;
      DistinctFits(p[..|p| - 1], s - {x});
    }
  }

  /** With at most 100 blocked sessions no walk can fail. */
  lemma SmallGraphNeverFails(m: map<Id, Id>, id: Id)
    requires |m| <= MAX_DEPTH
    ensures StartWalk(m, id).Ok?
  {
    HeadBlockerExact(m, id);
    if TooDeep(m, id) {
      var t :| DeepTrail(m, t, id);
      forall x | x in t
        ensures x in m.Keys
      {
        var i :| 0 <= i < |t| && t[i] == x;
        assert i < |t| - 1 ==> t[i] in m;
      }
      assert |m.Keys| == |m|;
      DistinctFits(t, m.Keys);
    }
  }

  // ----- what a walk leaves in a row -----

  /** The whole chain of a session: from blocked to blocker without a repeat, up to
      an unblocked session or to one that waits for a session of the chain. */
  ghost predicate Chain(m: map<Id, Id>, t: seq<Id>, id: Id) {
    Trail(m, t) && t[0] == id && Distinct(t) && (t[|t| - 1] in m ==> m[t[|t| - 1]] in t)
  }

  ghost predicate ClosingChain(m: map<Id, Id>, t: seq<Id>, id: Id, h: Id) {
    Chain(m, t, id) && t[|t| - 1] in m && m[t[|t| - 1]] == h
  }

  /** The chain closes on itself, and `h` is the first id that it meets twice. */
  ghost predicate ClosesAt(m: map<Id, Id>, id: Id, h: Id) {
    exists t :: ClosingChain(m, t, id, h)
  }

  /** The session that heads the chain. */
  ghost predicate Heads(m: map<Id, Id>, id: Id, h: Id) {
    (Reaches(m, id, h) && h !in m) || ClosesAt(m, id, h)
  }

  /** Ids in decimal, from the last to the first. */
  function Names(t: seq<Id>): seq<string> {
    if t == [] then [] else [Decimal(t[|t| - 1])] + Names(t[..|t| - 1])
  }

  /** The text lists the chain of `id` from its end, each id between two slashes. */
  ghost predicate SpellsChain(m: map<Id, Id>, id: Id, path: string, t: seq<Id>) {
    Chain(m, t, id) && Split(path, '/') == [""] + (Names(t) + [""])
  }

  /** Row `was` became `now`: its path spells its chain, and its head is the session
      that heads the chain, or what it was when that is the session itself. */
  ghost predicate WalkStored(m: map<Id, Id>, was: Session, now: Session) {
    && now == was.(path := now.path, head := now.head)
    && (exists t :: SpellsChain(m, was.id, now.path, t))
    && (exists h :: Heads(m, was.id, h))
    && (forall h: Id :: Heads(m, was.id, h) ==> now.head == if h != was.id then h else was.head)
  }

  /** A session has one chain only. */
  lemma ChainUnique(m: map<Id, Id>, s: seq<Id>, t: seq<Id>, id: Id)
    requires Chain(m, s, id) && Chain(m, t, id) && |s| <= |t|
    ensures s == t
  {
    forall k | 0 <= k < |s|
      ensures s[k] == t[k]
    {
      TrailsAgree(m, s, t, k);
    }
    if |s| < |t| {
      ChainEnds(m, s, t, id);
    }
  }

  /** A trail that goes on after a whole chain repeats an id. */
  lemma ChainEnds(m: map<Id, Id>, s: seq<Id>, t: seq<Id>, id: Id)
    requires Chain(m, s, id) && Trail(m, t) && |s| < |t| && forall k :: 0 <= k < |s| ==> s[k] == t[k]
    ensures !Distinct(t)
  {
    var last := |s| - 1;
    assert t[last] in m && m[t[last]] == t[|s|];
    var k :| 0 <= k < |s| && s[k] == m[s[last]];
    assert t[k] == t[|s|];
  }

  lemma {:induction false} PathSpells(p: seq<Id>)
    ensures Split(PathOf(p) + "/", '/') == [""] + (Names(p) + [""])
  {
    if p == [] {
      assert Split("/"[1..], '/') == [""];
    } else {
      var w, before, names := Decimal(p[|p| - 1]), PathOf(p[..|p| - 1]), Names(p[..|p| - 1]);
      PathSpells(p[..|p| - 1]);
      SplitSegment(w, before + "/", names + [""]);
      assert "/" + w + before + "/" == "/" + w + (before + "/");
      assert [w] + names + [""] == [w] + (names + [""]);
    }
  }

  lemma SplitSegment(w: string, text: string, parts: seq<string>)
    requires '/' !in w && Split(text, '/') == [""] + parts
    ensures Split("/" + w + text, '/') == [""] + ([w] + parts)
  {
    var rest := w + text;
    assert "/" + w + text == ['/'] + rest && (['/'] + rest)[1..] == rest;
    SplitWord(w, text, '/');
    assert w + "" == w;
  }

  /** The head of a walk heads the chain, and nothing else does. */
  lemma WalkHeads(m: map<Id, Id>, id: Id, w: Walk, h: Id)
    requires Walked(m, id, w)
    ensures Chain(m, w.visited, id)
    ensures Heads(m, id, h) <==> h == w.head
  {
    var t, last := w.visited, w.visited[|w.visited| - 1];
    assert Chain(m, t, id);
    assert last in m ==> ClosingChain(m, t, id, m[last]);
    WalkedVisitsReachable(m, id, w, h);
    if ClosesAt(m, id, h) {
      var u :| ClosingChain(m, u, id, h);
      if |u| <= |t| {
        ChainUnique(m, u, t, id);
      } else {
        ChainUnique(m, t, u, id);
      }
    }
    if h in t && h !in m {
      var i :| 0 <= i < |t| && t[i] == h;
      assert i < |t| - 1 ==> t[i] in m;
    }
  }

  /** What a walk that ends means for the row it starts from. */
  lemma WalkIsStored(m: map<Id, Id>, was: Session, now: Session)
    requires StartWalk(m, was.id).Ok?
    requires var w := StartWalk(m, was.id).value;
             now == was.(path := w.path + "/", head := if w.head != was.id then w.head else was.head)
    ensures !TooDeep(m, was.id) && WalkStored(m, was, now)
  {
    var w := StartWalk(m, was.id).value;
    WalkInvariant(m, was.id, was.id, [], 0, "");
    WalkedIsNotDeep(m, was.id, w);
    PathSpells(w.visited);
    WalkHeads(m, was.id, w, w.head);
    assert SpellsChain(m, was.id, now.path, w.visited);
    forall h: Id | Heads(m, was.id, h)
      ensures h == w.head
    {
      WalkHeads(m, was.id, w, h);
    }
  }

  /** The sessions other than the start that a walk visits are those that block it. */
  lemma WalkVisitsBlockers(m: map<Id, Id>, id: Id)
    requires StartWalk(m, id).Ok?
    ensures var w := StartWalk(m, id).value;
            Distinct(w.visited) && forall v :: v != id && v in w.visited <==> Blocks(m, v, id)
  {
    HeadBlockerExact(m, id);
  }

  // ----- populating the rows -----

  /** The map "session -> blocked by" of the rows; a later row of a session replaces
      an earlier one, and a row with blocker 0 is not blocked. */
  function BlockedBy(rows: seq<Session>): map<Id, Id> {
    if rows == [] then map[]
    else
      var last := rows[|rows| - 1];
      var m := BlockedBy(rows[..|rows| - 1]);
      if last.blocker != 0 then m[last.id := last.blocker] else m
  }

  /** The rows of other sessions that wait for `v`, directly or through others. */
  ghost function BlockedRows(rows: seq<Session>, v: Id): set<int> {
    set j | 0 <= j < |rows| && Blocks(BlockedBy(rows), v, rows[j].id)
  }

  ghost predicate Blocks(m: map<Id, Id>, v: Id, id: Id) {
    id != v && Reaches(m, id, v)
  }

  /** A row after a run that succeeded. */
  ghost predicate Populated(rows: seq<Session>, i: nat, now: Session)
    requires i < |rows|
  {
    && WalkStored(BlockedBy(rows), rows[i], now.(total := rows[i].total))
    && var n := |BlockedRows(rows, rows[i].id)|;
       now.total == if n > 0 then n else rows[i].total
  }

  function CountOf(counts: map<Id, int>, v: Id): int {
    if v in counts then counts[v] else 0
  }

  ghost function BlockedAmong(m: map<Id, Id>, rows: seq<Session>, v: Id, n: nat): set<int>
    requires n <= |rows|
  {
    set j | 0 <= j < n && Blocks(m, v, rows[j].id)
  }

  ghost predicate CountsAre(counts: map<Id, int>, m: map<Id, Id>, rows: seq<Session>, n: nat)
    requires n <= |rows|
  {
    && (forall v :: CountOf(counts, v) == |BlockedAmong(m, rows, v, n)|)
    && (forall v :: v in counts ==> counts[v] > 0)
  }

  lemma BlockedAmongStep(m: map<Id, Id>, rows: seq<Session>, v: Id, n: nat)
    requires n < |rows|
    ensures |BlockedAmong(m, rows, v, n + 1)|
         == |BlockedAmong(m, rows, v, n)| + if Blocks(m, v, rows[n].id) then 1 else 0
  {
    var s := BlockedAmong(m, rows, v, n);
    assert BlockedAmong(m, rows, v, n + 1) == if Blocks(m, v, rows[n].id) then s + {n} else s;
  }

  /** The map of blockers, built row by row. */
  method BuildBlockedBy(ss: array<Session>) returns (m: map<Id, Id>)
    ensures m == BlockedBy(ss[..])
    ensures forall id :: id in m <==> IsBlocked(ss[..], id)
    ensures forall i :: 0 <= i < ss.Length && LastBlocked(ss[..], i) ==>
              ss[i].id in m && m[ss[i].id] == ss[i].blocker
  {
    m := map[];
    for i := 0 to ss.Length
      invariant m == BlockedBy(ss[..i])
    {
      assert ss[..i + 1][..i] == ss[..i];
      if ss[i].blocker != 0 {
        m := m[ss[i].id := ss[i].blocker];
      }
    }
    assert ss[..ss.Length] == ss[..];
    BlockedByLast(ss[..]);
    assert forall i :: 0 <= i < ss.Length ==> ss[..][i] == ss[i];
  }

  /** Some row of the session names a blocker. */
  predicate IsBlocked(rows: seq<Session>, id: Id) {
    exists i :: 0 <= i < |rows| && rows[i].id == id && rows[i].blocker != 0
  }

  /** Row `i` names a blocker, and no later row of the same session does. */
  predicate LastBlocked(rows: seq<Session>, i: nat)
    requires i < |rows|
  {
    rows[i].blocker != 0 && forall j :: i < j < |rows| && rows[j].id == rows[i].id ==> rows[j].blocker == 0
  }

  lemma BlockedStep(rows: seq<Session>, s: Session, id: Id)
    ensures IsBlocked(rows + [s], id) <==> IsBlocked(rows, id) || (s.id == id && s.blocker != 0)
  {
    if IsBlocked(rows, id) {
      var i :| 0 <= i < |rows| && rows[i].id == id && rows[i].blocker != 0;
      assert (rows + [s])[i] == rows[i];
    }
    if s.id == id && s.blocker != 0 {
      assert (rows + [s])[|rows|] == s;
    }
  }

  lemma LastBlockedStep(rows: seq<Session>, s: Session, i: nat)
    requires i < |rows| && LastBlocked(rows + [s], i)
    ensures LastBlocked(rows, i) && (s.id == rows[i].id ==> s.blocker == 0)
  {
    assert forall j :: 0 <= j < |rows| ==> (rows + [s])[j] == rows[j];
    assert (rows + [s])[|rows|] == s;
  }

  /** The map of blockers holds what the last row that names a blocker says. */
  lemma {:induction false} BlockedByLast(rows: seq<Session>)
    ensures forall id :: id in BlockedBy(rows) <==> IsBlocked(rows, id)
    ensures forall i :: 0 <= i < |rows| && LastBlocked(rows, i) ==>
              rows[i].id in BlockedBy(rows) && BlockedBy(rows)[rows[i].id] == rows[i].blocker
  {
    if rows != [] {
      var init, s := rows[..|rows| - 1], rows[|rows| - 1];
      assert rows == init + [s];
      BlockedByLast(init);
      forall id
        ensures id in BlockedBy(rows) <==> IsBlocked(rows, id)
      {
        BlockedStep(init, s, id);
      }
      forall i | 0 <= i < |init| && LastBlocked(rows, i)
        ensures rows[i].id in BlockedBy(rows) && BlockedBy(rows)[rows[i].id] == rows[i].blocker
      {
        LastBlockedStep(init, s, i);
      }
    }
  }

  /** One more blocked session for every visited id except the starting one. */
  method CountParents(counts: map<Id, int>, id: Id, parents: seq<Id>) returns (r: map<Id, int>)
    requires Distinct(parents)
    requires forall v :: v in counts ==> counts[v] > 0
    ensures forall v :: CountOf(r, v) == CountOf(counts, v) + if v != id && v in parents then 1 else 0
    ensures forall v :: v in r ==> r[v] > 0
  {
    r := counts;
    for k := 0 to |parents|
      invariant forall v :: CountOf(r, v) == CountOf(counts, v) + if v != id && v in parents[..k] then 1 else 0
      invariant forall v :: v in r ==> r[v] > 0
    {
      var v := parents[k];
      assert parents[..k + 1] == parents[..k] + [v];
      assert v !in parents[..k];
      if v != id {
        if v in r {
          r := r[v := r[v] + 1];
        } else {
          r := r[v := 1];
        }
      }
    }
    assert parents[..|parents|] == parents;
  }

  lemma NothingCounted(m: map<Id, Id>, rows: seq<Session>)
    ensures CountsAre(map[], m, rows, 0)
  {
    forall v
      ensures BlockedAmong(m, rows, v, 0) == {}
    {
    }
  }

  lemma CountsStep(counts: map<Id, int>, next: map<Id, int>, m: map<Id, Id>, rows: seq<Session>, n: nat)
    requires n < |rows| && CountsAre(counts, m, rows, n)
    requires forall v :: CountOf(next, v) == CountOf(counts, v) + if Blocks(m, v, rows[n].id) then 1 else 0
    requires forall v :: v in next ==> next[v] > 0
    ensures CountsAre(next, m, rows, n + 1)
  {
    forall v
      ensures CountOf(next, v) == |BlockedAmong(m, rows, v, n + 1)|
    {
      BlockedAmongStep(m, rows, v, n);
    }
  }

  /** The walk of one row: stores its path and head and counts the session for
      every other session it visits. */
  method WalkRow(ss: array<Session>, i: nat, m: map<Id, Id>, counts: map<Id, int>)
    returns (err: Option<nat>, next: map<Id, int>)
    requires i < ss.Length
    requires forall v :: v in counts ==> counts[v] > 0
    modifies ss
    ensures forall j :: 0 <= j < ss.Length && j != i ==> ss[j] == old(ss[j])
    ensures err.Some? ==> err.value == 101 && TooDeep(m, old(ss[i]).id) && ss[i] == old(ss[i])
    ensures err.None? ==> !TooDeep(m, old(ss[i]).id) && WalkStored(m, old(ss[i]), ss[i])
    ensures err.None? ==> forall v ::
              CountOf(next, v) == CountOf(counts, v) + if Blocks(m, v, old(ss[i]).id) then 1 else 0
    ensures forall v :: v in next ==> next[v] > 0
  {
    var s := ss[i];
    var r := HeadBlocker(s.id, m, [], 0, "");
    if r.Err? {
      HeadBlockerExact(m, s.id);
      WalkInvariant(m, s.id, s.id, [], 0, "");
      return Some(r.error), counts;
    }
    ss[i] := ss[i].(path := r.value.path + "/");
    if r.value.head != s.id {
      ss[i] := ss[i].(head := r.value.head);
    }
    WalkIsStored(m, s, ss[i]);
    WalkVisitsBlockers(m, s.id);
    next := CountParents(counts, s.id, r.value.visited);
    err := None;
  }

  /** The walks of all rows, up to the first that fails, which is row `stop`. */
  method WalkRows(ss: array<Session>, m: map<Id, Id>) returns (err: Option<nat>, counts: map<Id, int>, ghost stop: nat)
    requires m == BlockedBy(ss[..])
    modifies ss
    ensures stop <= ss.Length && (err.Some? <==> stop < ss.Length)
    ensures forall j :: 0 <= j < stop ==> !TooDeep(m, old(ss[j]).id) && WalkStored(m, old(ss[j]), ss[j])
    ensures forall j :: stop <= j < ss.Length ==> ss[j] == old(ss[j])
    ensures err.None? ==> CountsAre(counts, m, old(ss[..]), ss.Length)
    ensures err.Some? ==> err.value == 101 && TooDeep(m, old(ss[stop]).id)
  {
    ghost var rows := ss[..];
    counts := map[];
    err := None;
    stop := 0;
    NothingCounted(m, rows);
    for i := 0 to ss.Length
      invariant stop == i && err.None? && CountsAre(counts, m, rows, i)
      invariant forall j :: 0 <= j < i ==> !TooDeep(m, rows[j].id) && WalkStored(m, rows[j], ss[j])
      invariant forall j :: i <= j < ss.Length ==> ss[j] == rows[j]
    {
      var next;
      err, next := WalkRow(ss, i, m, counts);
      if err.Some? {
        return;
      }
      CountsStep(counts, next, m, rows, i);
      counts := next;
      stop := i + 1;
    }
  }

  /** Copies the counts back into the rows. */
  method StoreTotals(ss: array<Session>, counts: map<Id, int>)
    modifies ss
    ensures forall i :: 0 <= i < ss.Length ==>
              var s := old(ss[i]);
              ss[i] == s.(total := if s.id in counts then counts[s.id] else s.total)
  {
    for i := 0 to ss.Length
      invariant forall j :: i <= j < ss.Length ==> ss[j] == old(ss[j])
      invariant forall j :: 0 <= j < i ==>
                  var s := old(ss[j]);
                  ss[j] == s.(total := if s.id in counts then counts[s.id] else s.total)
    {
      var s := ss[i];
      if s.id in counts {
        ss[i] := ss[i].(total := counts[s.id]);
      }
    }
  }

  /** Fills in head blocker, path and total blocked of every row, in place. A run
      fails at the first row whose chain is too deep; the rows before it then keep
      their new path and head, and no total has changed. */
  method PopulateBlocking(ss: array<Session>) returns (err: Option<nat>)
    modifies ss
    ensures err.None? <==> forall i :: 0 <= i < ss.Length ==> !TooDeep(BlockedBy(old(ss[..])), old(ss[i]).id)
    ensures err.None? ==> forall i :: 0 <= i < ss.Length ==> Populated(old(ss[..]), i, ss[i])
    ensures err.None? ==> forall i :: 0 <= i < ss.Length && old(ss[i]).total == 0 ==>
              ss[i].total == |BlockedRows(old(ss[..]), ss[i].id)|
    ensures err.Some? ==> err.value == 101 && exists k :: 0 <= k < ss.Length && StopsAt(old(ss[..]), ss[..], k)
  {
    ghost var rows := ss[..];
    var m := BuildBlockedBy(ss);
    var counts;
    ghost var stop;
    err, counts, stop := WalkRows(ss, m);
    if err.Some? {
      assert StopsAt(rows, ss[..], stop);
      return;
    }
    ghost var walked := ss[..];
    StoreTotals(ss, counts);
    forall i | 0 <= i < ss.Length
      ensures Populated(rows, i, ss[i])
    {
      assert WalkStored(m, rows[i], walked[i]);
      CountedIsPopulated(rows, counts, walked[i], ss[i], i);
    }
  }

  lemma CountedIsPopulated(rows: seq<Session>, counts: map<Id, int>, walked: Session, now: Session, i: nat)
    requires i < |rows| && CountsAre(counts, BlockedBy(rows), rows, |rows|)
    requires WalkStored(BlockedBy(rows), rows[i], walked)
    requires now == walked.(total := if walked.id in counts then counts[walked.id] else walked.total)
    ensures Populated(rows, i, now)
  {
    assert now.(total := rows[i].total) == walked;
    assert BlockedAmong(BlockedBy(rows), rows, walked.id, |rows|) == BlockedRows(rows, walked.id);
    assert CountOf(counts, walked.id) == |BlockedRows(rows, walked.id)|;
  }

  /** What a failed run leaves: row `k` is the first one too deep. */
  ghost predicate StopsAt(rows: seq<Session>, now: seq<Session>, k: nat) {
    && |now| == |rows| && k < |rows|
    && var m := BlockedBy(rows);
    && TooDeep(m, rows[k].id)
    && (forall j :: 0 <= j < k ==> WalkStored(m, rows[j], now[j]))
    && (forall j :: k <= j < |rows| ==> now[j] == rows[j])
  }
}
