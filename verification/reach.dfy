/** The AI's movement geometry (ai.ts:160-216).

    The AI works on its own arithmetic board: rows `1..h`, row `t` holding
    the cells `t*10 + 1 .. t*10 + 2t - 1`. A cell whose units digit is odd has
    its vertical neighbour below (`+11`), one whose units digit is even has it
    above (`-11`). `reachFrom` is a depth-first search that never steps
    straight back to the cell it came from; it records, for each cell it
    meets, the path it arrived by. A visit at full depth always overwrites
    the recorded path, a shallower visit only fills a cell not yet recorded.

    The search is shown here to be a left fold of that update over the
    sequence of visits in depth-first order; the visits are exactly the
    non-backtracking walks within the step bound, which gives the
    characterisation of the keys and of the full-length entries. */
module Reach {
  import opened Outcomes
  import opened OrderedMaps
  import opened DiceFaces
  import opened Topology

  /** The filter of `neighborsOf`: a positive id, units digit not 0 and at
      most `2 * tens - 1`, tens at most the board height. */
  predicate OnBoard(h: int, n: int) {
    n % 10 != 0 && n > 0 && n % 10 <= 2 * (n / 10) - 1 && n / 10 <= h
  }

  /** The vertical neighbour: up for an even units digit, down for an odd one. */
  function Vertical(c: CellId): CellId {
    if (c % 10) % 2 == 0 then c - 11 else c + 11
  }

  function Keep(h: int, s: seq<CellId>): (r: seq<CellId>)
    ensures forall n :: n in r <==> n in s && OnBoard(h, n)
    ensures |r| <= |s|
  {
    if s == [] then []
    else (if OnBoard(h, s[0]) then [s[0]] else []) + Keep(h, s[1..])
  }

  /** `neighborsOf`: left, right, then the vertical neighbour, keeping those
      on the board. */
  function NeighborsOf(h: int, c: CellId): (ns: seq<CellId>)
    ensures forall n :: n in ns <==> OnBoard(h, n) && (n == c - 1 || n == c + 1 || n == Vertical(c))
    ensures |ns| <= 3
  {
    Keep(h, [c - 1, c + 1, Vertical(c)])
  }

  /** On the board, being neighbours is symmetric. */
  lemma NeighborsSymmetric(h: int, a: CellId, b: CellId)
    requires OnBoard(h, a) && b in NeighborsOf(h, a)
    ensures a in NeighborsOf(h, b)
  {
    if b != a - 1 && b != a + 1 {
      VerticalInverse(a);
    }
  }

  /** Off the units digit 0, the vertical neighbour of the vertical
      neighbour is the cell itself. */
  lemma VerticalInverse(a: CellId)
    requires a % 10 != 0 && Vertical(a) % 10 != 0
    ensures Vertical(Vertical(a)) == a
  {
    var u := a % 10;
    if u % 2 == 0 {
      assert Vertical(a) % 10 == u - 1;
    } else {
      assert Vertical(a) % 10 == (u + 1) % 10;
    }
  }

  /** `AI.direction`: the direction of a step; anything that is not right,
      left or up is taken to be down. */
  function StepDirection(origin: CellId, destination: CellId): (d: Direction)
    ensures destination in {origin - 1, origin + 1, origin - 11, origin + 11} ==>
              origin + Offset(d) == destination
    ensures destination !in {origin - 1, origin + 1, origin - 11} ==> d == Down
  {
    if destination == origin + 1 then Right
    else if destination == origin - 1 then Left
    else if destination == origin - 11 then Up
    else Down
  }

  /** The recorded paths, keyed by cell, in insertion order. */
  type ReachMap = OrderedMap<seq<CellId>>

  /** Stepping to `n` from a cell entered from the last cell of `from` would
      go straight back. */
  predicate Backtracks(from: seq<CellId>, n: CellId) {
    from != [] && from[|from| - 1] == n
  }

  /** The recording rule of one visit. */
  function Record(m: int, acc: ReachMap, c: CellId, path: seq<CellId>): ReachMap {
    if Get(acc, c).None? || |path| == m then Put(acc, c, path) else acc
  }

  /** `reachFrom(c, m, |from|, acc, from)`. */
  function Explore(h: int, c: CellId, m: int, from: seq<CellId>, acc: ReachMap): ReachMap
    decreases m - |from| + 1, 1
  {
    if |from| > m then acc
    else ExploreAll(h, c, NeighborsOf(h, c), m, from, Record(m, acc, c, from))
  }

  /** The loop over the neighbours `ns` of `c`. */
  function ExploreAll(h: int, c: CellId, ns: seq<CellId>, m: int, from: seq<CellId>, acc: ReachMap): ReachMap
    requires |from| <= m
    decreases m - |from| + 1, 0, |ns|
  {
    if ns == [] then acc
    else
      var next := if Backtracks(from, ns[0]) then acc else Explore(h, ns[0], m, from + [c], acc);
      ExploreAll(h, c, ns[1..], m, from, next)
  }

  /** `reachFrom(cell, maxSteps)`. */
  function ReachFrom(h: int, c: CellId, m: int): ReachMap {
    Explore(h, c, m, [], [])
  }

  // The visits of the search, in the order it makes them.

  type Visit = (CellId, seq<CellId>)

  function Visits(h: int, c: CellId, m: int, from: seq<CellId>): seq<Visit>
    decreases m - |from| + 1, 1
  {
    if |from| > m then []
    else [(c, from)] + VisitsAll(h, c, NeighborsOf(h, c), m, from)
  }

  function VisitsAll(h: int, c: CellId, ns: seq<CellId>, m: int, from: seq<CellId>): seq<Visit>
    requires |from| <= m
    decreases m - |from| + 1, 0, |ns|
  {
    if ns == [] then []
    else (if Backtracks(from, ns[0]) then [] else Visits(h, ns[0], m, from + [c])) + VisitsAll(h, c, ns[1..], m, from)
  }

  function Fold(m: int, acc: ReachMap, vs: seq<Visit>): ReachMap
    decreases |vs|
  {
    if vs == [] then acc else Fold(m, Record(m, acc, vs[0].0, vs[0].1), vs[1..])
  }

  lemma {:induction false} FoldAppend(m: int, acc: ReachMap, a: seq<Visit>, b: seq<Visit>)
    ensures Fold(m, acc, a + b) == Fold(m, Fold(m, acc, a), b)
    decreases |a|
  {
    if a != [] {
      var acc1 := Record(m, acc, a[0].0, a[0].1);
      assert (a + b)[0] == a[0];
      assert (a + b)[1..] == a[1..] + b;
      assert Fold(m, acc, a + b) == Fold(m, acc1, a[1..] + b);
      FoldAppend(m, acc1, a[1..], b);
    } else {
      assert a + b == b;
    }
  }

  /** The search is the fold of the recording rule over its visits. */
  lemma {:induction false} ExploreIsFold(h: int, c: CellId, m: int, from: seq<CellId>, acc: ReachMap)
    ensures Explore(h, c, m, from, acc) == Fold(m, acc, Visits(h, c, m, from))
    decreases m - |from| + 1, 1
  {
    if |from| <= m {
      var acc1 := Record(m, acc, c, from);
      ExploreAllIsFold(h, c, NeighborsOf(h, c), m, from, acc1);
      FoldAppend(m, acc, [(c, from)], VisitsAll(h, c, NeighborsOf(h, c), m, from));
    }
  }

  lemma {:induction false} ExploreAllIsFold(h: int, c: CellId, ns: seq<CellId>, m: int, from: seq<CellId>, acc: ReachMap)
    requires |from| <= m
    ensures ExploreAll(h, c, ns, m, from, acc) == Fold(m, acc, VisitsAll(h, c, ns, m, from))
    decreases m - |from| + 1, 0, |ns|
  {
    if ns != [] {
      var first := if Backtracks(from, ns[0]) then [] else Visits(h, ns[0], m, from + [c]);
      if !Backtracks(from, ns[0]) {
        ExploreIsFold(h, ns[0], m, from + [c], acc);
      }
      var next := Fold(m, acc, first);
      ExploreAllIsFold(h, c, ns[1..], m, from, next);
      FoldAppend(m, acc, first, VisitsAll(h, c, ns[1..], m, from));
    }
  }

  // Walks.

  /** From position `s` on, `w` steps from neighbour to neighbour and never
      goes straight back to the cell before. */
  ghost predicate Branch(h: int, w: seq<CellId>, s: nat) {
    && s < |w|
    && (forall i :: s <= i < |w| - 1 ==> w[i + 1] in NeighborsOf(h, w[i]))
    && (forall j :: s + 1 <= j < |w| && 2 <= j ==> w[j] != w[j - 2])
  }

  /** `path + [k]` is a non-backtracking walk of `|path|` steps from `c` to `k`. */
  ghost predicate IsWalk(h: int, c: CellId, path: seq<CellId>, k: CellId) {
    (path + [k])[0] == c && Branch(h, path + [k], 0)
  }

  /** A visit of the search started at `c` with `from` behind it. */
  ghost predicate VisitOf(h: int, c: CellId, m: int, from: seq<CellId>, k: CellId, p: seq<CellId>) {
    && |from| <= |p| <= m
    && p[..|from|] == from
    && (p + [k])[|from|] == c
    && Branch(h, p + [k], |from|)
  }

  lemma {:induction false} VisitsAllMember(h: int, c: CellId, ns: seq<CellId>, m: int, from: seq<CellId>, v: Visit)
    requires |from| <= m
    ensures v in VisitsAll(h, c, ns, m, from) <==>
              exists j :: 0 <= j < |ns| && !Backtracks(from, ns[j]) && v in Visits(h, ns[j], m, from + [c])
    decreases |ns|
  {
    if ns != [] {
      VisitsAllMember(h, c, ns[1..], m, from, v);
      if v in VisitsAll(h, c, ns[1..], m, from) {
        var j :| 0 <= j < |ns[1..]| && !Backtracks(from, ns[1..][j]) && v in Visits(h, ns[1..][j], m, from + [c]);
        assert ns[j + 1] == ns[1..][j];
      }
      if exists j :: 0 <= j < |ns| && !Backtracks(from, ns[j]) && v in Visits(h, ns[j], m, from + [c]) {
        var j :| 0 <= j < |ns| && !Backtracks(from, ns[j]) && v in Visits(h, ns[j], m, from + [c]);
        if j > 0 {
          assert ns[1..][j - 1] == ns[j];
        }
      }
    }
  }

  /** The visits are exactly the non-backtracking continuations of `from`
      through `c` within `m` steps. */
  lemma {:induction false} VisitsMember(h: int, c: CellId, m: int, from: seq<CellId>, k: CellId, p: seq<CellId>)
    ensures (k, p) in Visits(h, c, m, from) <==> VisitOf(h, c, m, from, k, p)
    decreases m - |from| + 1
  {
    if |from| <= m {
      var ns := NeighborsOf(h, c);
      VisitsAllMember(h, c, ns, m, from, (k, p));
      if (k, p) in Visits(h, c, m, from) {
        if (k, p) == (c, from) {
          assert p[..|from|] == from;
        } else {
          var j :| 0 <= j < |ns| && !Backtracks(from, ns[j]) && (k, p) in Visits(h, ns[j], m, from + [c]);
          VisitsMember(h, ns[j], m, from + [c], k, p);
          VisitFromNeighbor(h, c, ns[j], m, from, k, p);
        }
      }
      if VisitOf(h, c, m, from, k, p) {
        if |p| == |from| {
          assert p == p[..|from|];
        } else {
          var w := p + [k];
          var n := w[|from| + 1];
          assert n in ns;
          VisitOfNeighbor(h, c, n, m, from, k, p);
          VisitsMember(h, n, m, from + [c], k, p);
          var j :| 0 <= j < |ns| && ns[j] == n;
        }
      }
    }
  }

  lemma {:induction false} VisitFromNeighbor(h: int, c: CellId, n: CellId, m: int, from: seq<CellId>, k: CellId, p: seq<CellId>)
    requires n in NeighborsOf(h, c) && !Backtracks(from, n)
    requires VisitOf(h, n, m, from + [c], k, p)
    ensures VisitOf(h, c, m, from, k, p)
  {
    var w := p + [k];
    var s := |from|;
    assert p[..s + 1] == from + [c];
    assert p[..s] == (from + [c])[..s] == from;
    assert w[s] == c;
    assert w[s + 1] == n;
    if 1 <= s {
      assert w[s - 1] == from[|from| - 1];
    }
  }

  lemma {:induction false} VisitOfNeighbor(h: int, c: CellId, n: CellId, m: int, from: seq<CellId>, k: CellId, p: seq<CellId>)
    requires VisitOf(h, c, m, from, k, p) && |p| > |from| && n == (p + [k])[|from| + 1]
    ensures n in NeighborsOf(h, c) && !Backtracks(from, n)
    ensures VisitOf(h, n, m, from + [c], k, p)
  {
    var w := p + [k];
    var s := |from|;
    assert w[s] == c;
    if from != [] {
      assert w[s - 1] == p[..s][s - 1] == from[|from| - 1];
    }
    assert p[..s + 1] == p[..s] + [p[s]];
  }

  // What the fold records.

  /** `k` is recorded with a path of exactly `m` cells. */
  predicate Full(m: int, r: ReachMap, k: CellId) {
    Get(r, k).Some? && |Get(r, k).value| == m
  }

  lemma RecordGet(m: int, acc: ReachMap, c: CellId, path: seq<CellId>, k: CellId)
    ensures Get(Record(m, acc, c, path), k) ==
              if k == c && (Get(acc, c).None? || |path| == m) then Some(path) else Get(acc, k)
  {
    if Get(acc, c).None? || |path| == m {
      GetPut(acc, c, path, k);
    }
  }

  /** Some visit names `k`. */
  ghost predicate Names(vs: seq<Visit>, k: CellId) {
    exists i :: 0 <= i < |vs| && vs[i].0 == k
  }

  /** Some visit names `k` with a path of `m` cells. */
  ghost predicate NamesFull(m: int, vs: seq<Visit>, k: CellId) {
    exists i :: 0 <= i < |vs| && vs[i].0 == k && |vs[i].1| == m
  }

  lemma {:induction false} NamesCons(m: int, vs: seq<Visit>, k: CellId)
    requires vs != []
    ensures Names(vs, k) <==> vs[0].0 == k || Names(vs[1..], k)
    ensures NamesFull(m, vs, k) <==> (vs[0].0 == k && |vs[0].1| == m) || NamesFull(m, vs[1..], k)
  {
    if Names(vs[1..], k) {
      var i :| 0 <= i < |vs[1..]| && vs[1..][i].0 == k;
      assert vs[i + 1] == vs[1..][i];
    }
    if Names(vs, k) {
      var i :| 0 <= i < |vs| && vs[i].0 == k;
      if i > 0 {
        assert vs[1..][i - 1] == vs[i];
      }
    }
    if NamesFull(m, vs[1..], k) {
      var i :| 0 <= i < |vs[1..]| && vs[1..][i].0 == k && |vs[1..][i].1| == m;
      assert vs[i + 1] == vs[1..][i];
    }
    if NamesFull(m, vs, k) {
      var i :| 0 <= i < |vs| && vs[i].0 == k && |vs[i].1| == m;
      if i > 0 {
        assert vs[1..][i - 1] == vs[i];
      }
    }
  }

  /** After the fold a key is recorded iff it was before or some visit names it. */
  lemma {:induction false} FoldKeys(m: int, acc: ReachMap, vs: seq<Visit>, k: CellId)
    ensures Get(Fold(m, acc, vs), k).Some? <==> Get(acc, k).Some? || Names(vs, k)
    decreases |vs|
  {
    if vs != [] {
      RecordGet(m, acc, vs[0].0, vs[0].1, k);
      FoldKeys(m, Record(m, acc, vs[0].0, vs[0].1), vs[1..], k);
      NamesCons(m, vs, k);
    }
  }

  /** A recorded path comes from the start or from a visit. */
  lemma {:induction false} FoldValue(m: int, acc: ReachMap, vs: seq<Visit>, k: CellId)
    requires Get(Fold(m, acc, vs), k).Some?
    ensures Get(Fold(m, acc, vs), k) == Get(acc, k) || (k, Get(Fold(m, acc, vs), k).value) in vs
    decreases |vs|
  {
    if vs != [] {
      var acc1 := Record(m, acc, vs[0].0, vs[0].1);
      RecordGet(m, acc, vs[0].0, vs[0].1, k);
      FoldValue(m, acc1, vs[1..], k);
      var v := Get(Fold(m, acc, vs), k).value;
      if (k, v) in vs[1..] {
        assert (k, v) in vs;
      }
    }
  }

  /** A key is recorded at full length iff it was before or some visit
      names it at full length: a full-length path is never replaced by a
      shorter one. */
  lemma {:induction false} FoldFull(m: int, acc: ReachMap, vs: seq<Visit>, k: CellId)
    ensures Full(m, Fold(m, acc, vs), k) <==> Full(m, acc, k) || NamesFull(m, vs, k)
    decreases |vs|
  {
    if vs != [] {
      RecordGet(m, acc, vs[0].0, vs[0].1, k);
      FoldFull(m, Record(m, acc, vs[0].0, vs[0].1), vs[1..], k);
      NamesCons(m, vs, k);
    }
  }

  lemma {:induction false} FoldUnique(m: int, acc: ReachMap, vs: seq<Visit>)
    requires Unique(Keys(acc))
    ensures Unique(Keys(Fold(m, acc, vs)))
    decreases |vs|
  {
    if vs != [] {
      var acc1 := Record(m, acc, vs[0].0, vs[0].1);
      if Get(acc, vs[0].0).None? || |vs[0].1| == m {
        InsertKeepsUnique(Keys(acc), vs[0].0);
      }
      FoldUnique(m, acc1, vs[1..]);
    }
  }

  // The characterisation of `reachFrom`.

  /** The result is a map: no cell is recorded twice. */
  lemma {:induction false} ReachUnique(h: int, c: CellId, m: int)
    ensures Unique(Keys(ReachFrom(h, c, m)))
  {
    ReachIsFold(h, c, m);
    FoldUnique(m, [], Visits(h, c, m, []));
  }

  lemma {:induction false} ReachIsFold(h: int, c: CellId, m: int)
    ensures ReachFrom(h, c, m) == Fold(m, [], Visits(h, c, m, []))
  {
    ExploreIsFold(h, c, m, [], []);
  }

  lemma {:induction false} VisitOfStart(h: int, c: CellId, m: int, k: CellId, p: seq<CellId>)
    ensures VisitOf(h, c, m, [], k, p) <==> |p| <= m && IsWalk(h, c, p, k)
  {
    assert p[..0] == [];
  }

  /** A cell is a key of `reachFrom(c, m)` iff some non-backtracking walk of
      at most `m` steps leads there from `c`. */
  lemma {:induction false} ReachKeys(h: int, c: CellId, m: int, k: CellId)
    ensures Get(ReachFrom(h, c, m), k).Some? <==> exists p :: |p| <= m && IsWalk(h, c, p, k)
  {
    var vs := Visits(h, c, m, []);
    ReachIsFold(h, c, m);
    FoldKeys(m, [], vs, k);
    if Get(ReachFrom(h, c, m), k).Some? {
      var i :| 0 <= i < |vs| && vs[i].0 == k;
      var p := vs[i].1;
      assert (k, p) in vs;
      VisitsMember(h, c, m, [], k, p);
      VisitOfStart(h, c, m, k, p);
    }
    if exists p :: |p| <= m && IsWalk(h, c, p, k) {
      var p :| |p| <= m && IsWalk(h, c, p, k);
      VisitOfStart(h, c, m, k, p);
      VisitsMember(h, c, m, [], k, p);
      var i :| 0 <= i < |vs| && vs[i] == (k, p);
    }
  }

  /** Every recorded path, followed by its key, is a non-backtracking walk
      from `c` of at most `m` steps. */
  lemma {:induction false} ReachPaths(h: int, c: CellId, m: int, k: CellId)
    requires Get(ReachFrom(h, c, m), k).Some?
    ensures var p := Get(ReachFrom(h, c, m), k).value;
            |p| <= m && IsWalk(h, c, p, k)
  {
    var vs := Visits(h, c, m, []);
    ReachIsFold(h, c, m);
    FoldValue(m, [], vs, k);
    var p := Get(ReachFrom(h, c, m), k).value;
    VisitsMember(h, c, m, [], k, p);
    VisitOfStart(h, c, m, k, p);
  }

  /** A key's recorded path has exactly `m` steps iff some non-backtracking
      walk of exactly `m` steps ends there: full-depth visits overwrite,
      shallower ones only fill empty keys. */
  lemma {:induction false} ReachFull(h: int, c: CellId, m: int, k: CellId)
    ensures Full(m, ReachFrom(h, c, m), k) <==> exists p :: |p| == m && IsWalk(h, c, p, k)
  {
    var vs := Visits(h, c, m, []);
    ReachIsFold(h, c, m);
    FoldFull(m, [], vs, k);
    if Full(m, ReachFrom(h, c, m), k) {
      var i :| 0 <= i < |vs| && vs[i].0 == k && |vs[i].1| == m;
      var p := vs[i].1;
      assert (k, p) in vs;
      VisitsMember(h, c, m, [], k, p);
      VisitOfStart(h, c, m, k, p);
    }
    if exists p :: |p| == m && IsWalk(h, c, p, k) {
      var p :| |p| == m && IsWalk(h, c, p, k);
      VisitOfStart(h, c, m, k, p);
      VisitsMember(h, c, m, [], k, p);
      var i :| 0 <= i < |vs| && vs[i] == (k, p);
    }
  }

  /** With no steps to take the search records only its start, with the
      empty path. */
  lemma {:induction false} ReachZero(h: int, c: CellId)
    ensures ReachFrom(h, c, 0) == [(c, [])]
  {
    var ns := NeighborsOf(h, c);
    var acc := Record(0, [], c, []);
    assert acc == [(c, [])];
    ExploreAllNoDepth(h, c, ns, acc);
  }

  lemma {:induction false} ExploreAllNoDepth(h: int, c: CellId, ns: seq<CellId>, acc: ReachMap)
    ensures ExploreAll(h, c, ns, 0, [], acc) == acc
    decreases |ns|
  {
    if ns != [] {
      ExploreAllNoDepth(h, c, ns[1..], acc);
    }
  }
}
