/**
 * The two walks over the `parent_id` forest of `activities` that the
 * organization searches run: the unbounded one, which collects an activity and
 * all its descendants, and the one that stops expanding at a depth bound.
 */
module Hierarchy {
  import opened Schema

  /** The `children` relation: activities whose `parent_id` is `x`. */
  function ChildSet(rows: map<int, Activity>, x: int): set<int> {
    set k | k in rows && rows[k].parentId == Some(x)
  }

  /** The children of `x` in the order the walk visits them: ascending id. */
  function ChildIds(t: Table<Activity>, x: int): (cs: seq<int>)
    ensures forall i, j :: 0 <= i < j < |cs| ==> cs[i] < cs[j]
    ensures forall c :: c in cs ==> c in t.rows && t.rows[c].parentId == Some(x)
    ensures t.WellFormed() ==> forall c :: c in t.rows && t.rows[c].parentId == Some(x) ==> c in cs
  {
    Ascending(ChildSet(t.rows, x), t.nextId)
  }

  function Parent(rows: map<int, Activity>, y: int): Option<int> {
    if y in rows then rows[y].parentId else None
  }

  /** The activity `n` steps up the `parent_id` chain from `y`, if the chain is that long. */
  function Ancestor(rows: map<int, Activity>, y: int, n: nat): Option<int> {
    if n == 0 then Some(y)
    else
      match Ancestor(rows, y, n - 1)
      case None => None
      case Some(a) => Parent(rows, a)
  }

  /** `y` is a row `n` generations below `x` (`n == 0`: `y` is `x`). */
  ghost predicate Reaches(rows: map<int, Activity>, x: int, y: int, n: nat) {
    y in rows && Ancestor(rows, y, n) == Some(x)
  }

  /** `y` is `x` or one of its descendants. */
  ghost predicate InSubtree(rows: map<int, Activity>, x: int, y: int) {
    exists n: nat :: Reaches(rows, x, y, n)
  }

  /**
   * `y` is what a walk started at `x` at depth `depth` with bound `maxDepth`
   * should collect: `x` itself, or a descendant whose parent sits at a depth
   * below `maxDepth`.
   */
  ghost predicate WithinDepth(rows: map<int, Activity>, x: int, y: int, maxDepth: int, depth: int) {
    exists n: nat :: Reaches(rows, x, y, n) && (n == 0 || depth + n <= maxDepth)
  }

  /** The activity `x` together with all its descendants, as a set. */
  ghost function Subtree(rows: map<int, Activity>, x: int): set<int> {
    set y | y in rows && InSubtree(rows, x, y)
  }

  /** The activity `x` and its descendants at most `k` generations below it, as a set. */
  ghost function Generations(rows: map<int, Activity>, x: int, k: nat): set<int> {
    set y | y in rows && exists n: nat :: n <= k && Reaches(rows, x, y, n)
  }

  /** A rank that falls from every parent to each of its children: a witness of acyclicity. */
  ghost predicate Ranked(rows: map<int, Activity>, rank: map<int, nat>) {
    && rows.Keys <= rank.Keys
    && forall k :: k in rows && rows[k].parentId.Some? && rows[k].parentId.value in rows ==>
         rank[k] < rank[rows[k].parentId.value]
  }

  /** The `parent_id` forest has no cycle. */
  ghost predicate Acyclic(rows: map<int, Activity>) {
    exists rank :: Ranked(rows, rank)
  }

  predicate Distinct(s: seq<int>) {
    forall i, j :: 0 <= i < j < |s| ==> s[i] != s[j]
  }

  /** One generation down from `x` to its child `c`. */
  lemma ReachesThroughChild(rows: map<int, Activity>, x: int, c: int, y: int, n: nat)
    requires c in rows && rows[c].parentId == Some(x)
    requires Reaches(rows, c, y, n)
    ensures Reaches(rows, x, y, n + 1)
  {
  }

  /** The child of `x` through which `y`, `n > 0` generations down, is reached. */
  lemma ChildOnPath(rows: map<int, Activity>, x: int, y: int, n: nat) returns (c: int)
    requires n > 0 && Reaches(rows, x, y, n)
    ensures c in rows && rows[c].parentId == Some(x)
    ensures Reaches(rows, c, y, n - 1)
  {
    var up := Ancestor(rows, y, n - 1);
    assert up.Some? && Parent(rows, up.value) == Some(x);
    c := up.value;
  }

  /** Stepping up from `k` to its parent `q` first: `n + 1` generations above `k` are `n` above `q`. */
  lemma {:induction false} AncestorShift(rows: map<int, Activity>, k: int, q: int, n: nat)
    requires k in rows && rows[k].parentId == Some(q)
    ensures Ancestor(rows, k, n + 1) == Ancestor(rows, q, n)
  {
    if n > 0 {
      AncestorShift(rows, k, q, n - 1);
    }
  }

  /** One generation up from `k` to its parent `q`. */
  lemma ReachesThroughParent(rows: map<int, Activity>, x: int, q: int, k: int, n: nat)
    requires k in rows && rows[k].parentId == Some(q)
    requires Reaches(rows, x, q, n)
    ensures Reaches(rows, x, k, n + 1)
  {
    AncestorShift(rows, k, q, n);
  }

  // ---------------------------------------------------------------------------
  // The unbounded walk: the id of the activity, then each child's walk in turn.
  // It loops exactly when the start itself lies on a cycle; the model takes a rank
  // over the whole table as a ghost witness that it does not.

  function AllChildActivityIds(t: Table<Activity>, x: int, ghost rank: map<int, nat>): (r: seq<int>)
    requires x in t.rows && Ranked(t.rows, rank)
    ensures |r| >= 1 && r[0] == x
    ensures forall y :: y in r ==> y in t.rows
    decreases rank[x], 1
  {
    [x] + MergeAll(t, ChildIds(t, x), rank, rank[x])
  }

  /** The `foreach` with `array_merge` over a list of siblings. */
  function MergeAll(t: Table<Activity>, cs: seq<int>, ghost rank: map<int, nat>, ghost bound: nat): (r: seq<int>)
    requires Ranked(t.rows, rank)
    requires forall c :: c in cs ==> c in t.rows && rank[c] < bound
    ensures forall y :: y in r ==> y in t.rows
    decreases bound, 0, |cs|
  {
    if cs == [] then [] else AllChildActivityIds(t, cs[0], rank) + MergeAll(t, cs[1..], rank, bound)
  }

  // ---------------------------------------------------------------------------
  // The depth-limited walk: children are expanded only while currentDepth < maxDepth.
  // The depth bound alone makes it terminate, whatever the forest looks like.

  function Budget(maxDepth: int, depth: int): nat {
    if depth < maxDepth then maxDepth - depth else 0
  }

  function LimitedDepthChildActivityIds(t: Table<Activity>, x: int, maxDepth: int, currentDepth: int): (r: seq<int>)
    requires x in t.rows
    ensures |r| >= 1 && r[0] == x
    ensures forall y :: y in r ==> y in t.rows
    decreases Budget(maxDepth, currentDepth), 1
  {
    [x] + (if currentDepth < maxDepth then MergeLimited(t, ChildIds(t, x), maxDepth, currentDepth + 1) else [])
  }

  /** The siblings' limited walks, each started at depth `depth`, concatenated. */
  function MergeLimited(t: Table<Activity>, cs: seq<int>, maxDepth: int, depth: int): (r: seq<int>)
    requires forall c :: c in cs ==> c in t.rows
    requires depth - 1 < maxDepth
    ensures forall y :: y in r ==> y in t.rows
    decreases Budget(maxDepth, depth - 1), 0, |cs|
  {
    if cs == [] then []
    else LimitedDepthChildActivityIds(t, cs[0], maxDepth, depth) + MergeLimited(t, cs[1..], maxDepth, depth)
  }

  /** The number of generations below `x`. */
  ghost function Height(t: Table<Activity>, x: int, rank: map<int, nat>): nat
    requires x in t.rows && Ranked(t.rows, rank)
    decreases rank[x], 1
  {
    HeightAll(t, ChildIds(t, x), rank, rank[x])
  }

  ghost function HeightAll(t: Table<Activity>, cs: seq<int>, rank: map<int, nat>, bound: nat): nat
    requires Ranked(t.rows, rank)
    requires forall c :: c in cs ==> c in t.rows && rank[c] < bound
    decreases bound, 0, |cs|
  {
    if cs == [] then 0
    else
      var here := 1 + Height(t, cs[0], rank);
      var rest := HeightAll(t, cs[1..], rank, bound);
      if here < rest then rest else here
  }

  // ---------------------------------------------------------------------------
  // Lemmas about the unbounded walk.

  lemma {:induction false} MergeAllMember(t: Table<Activity>, cs: seq<int>, rank: map<int, nat>, bound: nat, y: int)
    requires Ranked(t.rows, rank)
    requires forall c :: c in cs ==> c in t.rows && rank[c] < bound
    ensures y in MergeAll(t, cs, rank, bound) <==>
            exists i :: 0 <= i < |cs| && y in AllChildActivityIds(t, cs[i], rank)
    decreases |cs|
  {
    if cs != [] {
      var tail := cs[1..];
      MergeAllMember(t, tail, rank, bound, y);
      if y in MergeAll(t, tail, rank, bound) {
        var i :| 0 <= i < |tail| && y in AllChildActivityIds(t, tail[i], rank);
        assert tail[i] == cs[i + 1];
      }
      if exists i :: 0 <= i < |cs| && y in AllChildActivityIds(t, cs[i], rank) {
        var i :| 0 <= i < |cs| && y in AllChildActivityIds(t, cs[i], rank);
        if i > 0 {
          assert cs[i] == tail[i - 1];
        }
      }
    }
  }

  /** Everything the walk collects lies in the subtree, no higher in rank than the root. */
  lemma {:induction false} WalkSound(t: Table<Activity>, x: int, rank: map<int, nat>, y: int)
    requires x in t.rows && Ranked(t.rows, rank)
    requires y in AllChildActivityIds(t, x, rank)
    ensures y in t.rows && rank[y] <= rank[x]
    ensures InSubtree(t.rows, x, y)
    decreases rank[x]
  {
    if y == x {
      assert Reaches(t.rows, x, y, 0);
    } else {
      var cs := ChildIds(t, x);
      MergeAllMember(t, cs, rank, rank[x], y);
      var i :| 0 <= i < |cs| && y in AllChildActivityIds(t, cs[i], rank);
      var c := cs[i];
      WalkSound(t, c, rank, y);
      var n: nat :| Reaches(t.rows, c, y, n);
      ReachesThroughChild(t.rows, x, c, y, n);
    }
  }

  lemma WalkSoundAll(t: Table<Activity>, x: int, rank: map<int, nat>)
    requires x in t.rows && Ranked(t.rows, rank)
    ensures forall y :: y in AllChildActivityIds(t, x, rank) ==> InSubtree(t.rows, x, y)
  {
    forall y | y in AllChildActivityIds(t, x, rank) ensures InSubtree(t.rows, x, y) {
      WalkSound(t, x, rank, y);
    }
  }

  /** Every descendant, at any distance, is collected. */
  lemma {:induction false} WalkComplete(t: Table<Activity>, x: int, rank: map<int, nat>, y: int, n: nat)
    requires t.WellFormed() && x in t.rows && Ranked(t.rows, rank)
    requires Reaches(t.rows, x, y, n)
    ensures y in AllChildActivityIds(t, x, rank)
    decreases n
  {
    if n == 0 {
      assert AllChildActivityIds(t, x, rank)[0] == y;
    } else {
      var c := ChildOnPath(t.rows, x, y, n);
      WalkComplete(t, c, rank, y, n - 1);
      var cs := ChildIds(t, x);
      assert c in cs;
      var i :| 0 <= i < |cs| && cs[i] == c;
      MergeAllMember(t, cs, rank, rank[x], y);
    }
  }

  /**
   * The unbounded walk starts with the root, and its elements are exactly the
   * root and every activity reachable from it through `children`.
   */
  lemma WalkIsSubtree(t: Table<Activity>, x: int, rank: map<int, nat>)
    requires t.WellFormed() && x in t.rows && Ranked(t.rows, rank)
    ensures AllChildActivityIds(t, x, rank)[0] == x
    ensures forall y :: y in AllChildActivityIds(t, x, rank) <==> InSubtree(t.rows, x, y)
  {
    WalkSoundAll(t, x, rank);
    forall y | InSubtree(t.rows, x, y) ensures y in AllChildActivityIds(t, x, rank) {
      var n: nat :| Reaches(t.rows, x, y, n);
      WalkComplete(t, x, rank, y, n);
    }
  }

  /** Going up the chain from `a` generations to `b` generations strictly raises the rank. */
  lemma {:induction false} ChainRises(rows: map<int, Activity>, rank: map<int, nat>, y: int, a: nat, b: nat)
    requires Ranked(rows, rank) && a < b
    requires Ancestor(rows, y, b).Some? && Ancestor(rows, y, b).value in rows
    ensures Ancestor(rows, y, a).Some? && Ancestor(rows, y, a).value in rows
    ensures rank[Ancestor(rows, y, a).value] < rank[Ancestor(rows, y, b).value]
    decreases b - a
  {
    var w := Ancestor(rows, y, b - 1);
    assert w.Some? && w.value in rows && rows[w.value].parentId == Ancestor(rows, y, b);
    if a < b - 1 {
      ChainRises(rows, rank, y, a, b - 1);
    }
  }

  /** In a forest, a descendant of one child of `p` is never a descendant of another. */
  lemma SiblingNotAncestor(rows: map<int, Activity>, rank: map<int, nat>, y: int, n1: nat, c1: int, c2: int, p: int)
    requires Ranked(rows, rank)
    requires c1 in rows && c2 in rows && p in rows && c1 != c2
    requires rows[c1].parentId == Some(p) && rows[c2].parentId == Some(p)
    requires Ancestor(rows, y, n1) == Some(c1)
    ensures forall n: nat :: Ancestor(rows, y, n) != Some(c2)
  {
    assert Ancestor(rows, y, n1 + 1) == Some(p);
    forall n: nat ensures Ancestor(rows, y, n) != Some(c2) {
      if n > n1 + 1 {
        if Ancestor(rows, y, n).Some? && Ancestor(rows, y, n).value in rows {
          ChainRises(rows, rank, y, n1 + 1, n);
        }
      } else if n < n1 {
        assert Ancestor(rows, y, n + 1) == match Ancestor(rows, y, n) case None => None case Some(a) => Parent(rows, a);
        if n + 1 < n1 {
          ChainRises(rows, rank, y, n + 1, n1);
        }
      }
    }
  }

  lemma DistinctConcat(a: seq<int>, b: seq<int>)
    requires Distinct(a) && Distinct(b)
    requires forall y :: y in a ==> y !in b
    ensures Distinct(a + b)
  {
    var s := a + b;
    forall i, j | 0 <= i < j < |s| ensures s[i] != s[j] {
      if i < |a| && |a| <= j {
        assert s[i] == a[i] && a[i] in a;
        assert s[j] == b[j - |a|] && b[j - |a|] in b;
      }
    }
  }

  /** On a forest the unbounded walk never lists an activity twice. */
  lemma {:induction false} WalkDistinct(t: Table<Activity>, x: int, rank: map<int, nat>)
    requires x in t.rows && Ranked(t.rows, rank)
    ensures Distinct(AllChildActivityIds(t, x, rank))
    decreases rank[x], 1
  {
    var cs := ChildIds(t, x);
    var below := MergeAll(t, cs, rank, rank[x]);
    MergeDistinct(t, cs, rank, rank[x], x);
    forall y | y in below ensures y !in [x] {
      MergeAllMember(t, cs, rank, rank[x], y);
      var i :| 0 <= i < |cs| && y in AllChildActivityIds(t, cs[i], rank);
      WalkSound(t, cs[i], rank, y);
    }
    DistinctConcat([x], below);
  }

  lemma {:induction false} MergeDistinct(t: Table<Activity>, cs: seq<int>, rank: map<int, nat>, bound: nat, p: int)
    requires Ranked(t.rows, rank) && p in t.rows
    requires forall c :: c in cs ==> c in t.rows && rank[c] < bound && t.rows[c].parentId == Some(p)
    requires Distinct(cs)
    ensures Distinct(MergeAll(t, cs, rank, bound))
    decreases bound, 0, |cs|
  {
    if cs != [] {
      var c, tail := cs[0], cs[1..];
      WalkDistinct(t, c, rank);
      assert Distinct(tail) by {
        forall i, j | 0 <= i < j < |tail| ensures tail[i] != tail[j] {
          assert tail[i] == cs[i + 1] && tail[j] == cs[j + 1];
        }
      }
      MergeDistinct(t, tail, rank, bound, p);
      forall y | y in AllChildActivityIds(t, c, rank) ensures y !in MergeAll(t, tail, rank, bound) {
        WalkSound(t, c, rank, y);
        var n: nat :| Reaches(t.rows, c, y, n);
        MergeAllMember(t, tail, rank, bound, y);
        forall i | 0 <= i < |tail| ensures y !in AllChildActivityIds(t, tail[i], rank) {
          assert tail[i] == cs[i + 1] && cs[0] != cs[i + 1];
          SiblingNotAncestor(t.rows, rank, y, n, c, tail[i], p);
          WalkSoundAll(t, tail[i], rank);
        }
      }
      DistinctConcat(AllChildActivityIds(t, c, rank), MergeAll(t, tail, rank, bound));
    }
  }

  // ---------------------------------------------------------------------------
  // Lemmas about the depth-limited walk.

  lemma {:induction false} MergeLimitedMember(t: Table<Activity>, cs: seq<int>, maxDepth: int, depth: int, y: int)
    requires forall c :: c in cs ==> c in t.rows
    requires depth - 1 < maxDepth
    ensures y in MergeLimited(t, cs, maxDepth, depth) <==>
            exists i :: 0 <= i < |cs| && y in LimitedDepthChildActivityIds(t, cs[i], maxDepth, depth)
    decreases |cs|
  {
    if cs != [] {
      var tail := cs[1..];
      MergeLimitedMember(t, tail, maxDepth, depth, y);
      if y in MergeLimited(t, tail, maxDepth, depth) {
        var i :| 0 <= i < |tail| && y in LimitedDepthChildActivityIds(t, tail[i], maxDepth, depth);
        assert tail[i] == cs[i + 1];
      }
      if exists i :: 0 <= i < |cs| && y in LimitedDepthChildActivityIds(t, cs[i], maxDepth, depth) {
        var i :| 0 <= i < |cs| && y in LimitedDepthChildActivityIds(t, cs[i], maxDepth, depth);
        if i > 0 {
          assert cs[i] == tail[i - 1];
        }
      }
    }
  }

  lemma {:induction false} LimitedSound(t: Table<Activity>, x: int, maxDepth: int, depth: int, y: int)
    requires x in t.rows
    requires y in LimitedDepthChildActivityIds(t, x, maxDepth, depth)
    ensures WithinDepth(t.rows, x, y, maxDepth, depth)
    decreases Budget(maxDepth, depth)
  {
    if y == x {
      assert Reaches(t.rows, x, y, 0);
    } else {
      assert depth < maxDepth;
      var cs := ChildIds(t, x);
      MergeLimitedMember(t, cs, maxDepth, depth + 1, y);
      var i :| 0 <= i < |cs| && y in LimitedDepthChildActivityIds(t, cs[i], maxDepth, depth + 1);
      var c := cs[i];
      LimitedSound(t, c, maxDepth, depth + 1, y);
      var n: nat :| Reaches(t.rows, c, y, n) && (n == 0 || depth + 1 + n <= maxDepth);
      ReachesThroughChild(t.rows, x, c, y, n);
    }
  }

  lemma {:induction false} LimitedComplete(t: Table<Activity>, x: int, maxDepth: int, depth: int, y: int, n: nat)
    requires t.WellFormed() && x in t.rows
    requires Reaches(t.rows, x, y, n) && (n == 0 || depth + n <= maxDepth)
    ensures y in LimitedDepthChildActivityIds(t, x, maxDepth, depth)
    decreases n
  {
    if n == 0 {
      assert LimitedDepthChildActivityIds(t, x, maxDepth, depth)[0] == y;
    } else {
      assert depth < maxDepth;
      var c := ChildOnPath(t.rows, x, y, n);
      LimitedComplete(t, c, maxDepth, depth + 1, y, n - 1);
      var cs := ChildIds(t, x);
      assert c in cs;
      var i :| 0 <= i < |cs| && cs[i] == c;
      MergeLimitedMember(t, cs, maxDepth, depth + 1, y);
      var below := MergeLimited(t, cs, maxDepth, depth + 1);
      assert y in below;
      assert LimitedDepthChildActivityIds(t, x, maxDepth, depth) == [x] + below;
    }
  }

  /**
   * The limited walk starts with the root; a node `n` generations down is
   * collected exactly when `n == 0` or its parent, at depth
   * `depth + n - 1`, was still below `maxDepth`.
   */
  lemma LimitedIsWithinDepth(t: Table<Activity>, x: int, maxDepth: int, depth: int)
    requires t.WellFormed() && x in t.rows
    ensures LimitedDepthChildActivityIds(t, x, maxDepth, depth)[0] == x
    ensures forall y :: y in LimitedDepthChildActivityIds(t, x, maxDepth, depth) <==>
                        WithinDepth(t.rows, x, y, maxDepth, depth)
  {
    forall y ensures y in LimitedDepthChildActivityIds(t, x, maxDepth, depth) <==>
                     WithinDepth(t.rows, x, y, maxDepth, depth) {
      if y in LimitedDepthChildActivityIds(t, x, maxDepth, depth) {
        LimitedSound(t, x, maxDepth, depth, y);
      }
      if WithinDepth(t.rows, x, y, maxDepth, depth) {
        var n: nat :| Reaches(t.rows, x, y, n) && (n == 0 || depth + n <= maxDepth);
        LimitedComplete(t, x, maxDepth, depth, y, n);
      }
    }
  }

  /** With the bound 3 from depth 1: exactly the root, its children and its grandchildren. */
  lemma SearchDepthReachesGrandchildren(t: Table<Activity>, x: int)
    requires t.WellFormed() && x in t.rows
    ensures forall y :: y in LimitedDepthChildActivityIds(t, x, 3, 1) <==>
                        exists n: nat :: n <= 2 && Reaches(t.rows, x, y, n)
  {
    LimitedIsWithinDepth(t, x, 3, 1);
  }

  /** The limited walk collects nothing the unbounded walk misses. */
  lemma LimitedWithinAll(t: Table<Activity>, x: int, rank: map<int, nat>, maxDepth: int, depth: int)
    requires t.WellFormed() && x in t.rows && Ranked(t.rows, rank)
    ensures forall y :: y in LimitedDepthChildActivityIds(t, x, maxDepth, depth) ==>
                        y in AllChildActivityIds(t, x, rank)
  {
    LimitedIsWithinDepth(t, x, maxDepth, depth);
    WalkIsSubtree(t, x, rank);
  }

  /** Raising the bound never loses an activity. */
  lemma LimitedMonotone(t: Table<Activity>, x: int, maxDepth1: int, maxDepth2: int, depth: int)
    requires t.WellFormed() && x in t.rows && maxDepth1 <= maxDepth2
    ensures forall y :: y in LimitedDepthChildActivityIds(t, x, maxDepth1, depth) ==>
                        y in LimitedDepthChildActivityIds(t, x, maxDepth2, depth)
  {
    LimitedIsWithinDepth(t, x, maxDepth1, depth);
    LimitedIsWithinDepth(t, x, maxDepth2, depth);
    forall y | WithinDepth(t.rows, x, y, maxDepth1, depth) ensures WithinDepth(t.rows, x, y, maxDepth2, depth) {
      var n: nat :| Reaches(t.rows, x, y, n) && (n == 0 || depth + n <= maxDepth1);
      assert n == 0 || depth + n <= maxDepth2;
    }
  }

  /**
   * Once the bound leaves room for the whole subtree the two walks agree,
   * element for element and in the same order.
   */
  lemma {:induction false} LimitedEqualsAll(t: Table<Activity>, x: int, rank: map<int, nat>, maxDepth: int, depth: int)
    requires x in t.rows && Ranked(t.rows, rank)
    requires Height(t, x, rank) == 0 || depth + Height(t, x, rank) <= maxDepth
    ensures LimitedDepthChildActivityIds(t, x, maxDepth, depth) == AllChildActivityIds(t, x, rank)
    decreases rank[x], 1
  {
    var cs := ChildIds(t, x);
    if cs == [] {
      assert MergeAll(t, cs, rank, rank[x]) == [];
      assert depth < maxDepth ==> MergeLimited(t, cs, maxDepth, depth + 1) == [];
    } else {
      assert Height(t, x, rank) >= 1;
      MergeLimitedEqualsAll(t, cs, rank, rank[x], maxDepth, depth + 1);
    }
  }

  lemma {:induction false} MergeLimitedEqualsAll(t: Table<Activity>, cs: seq<int>, rank: map<int, nat>, bound: nat, maxDepth: int, depth: int)
    requires Ranked(t.rows, rank)
    requires forall c :: c in cs ==> c in t.rows && rank[c] < bound
    requires depth - 1 < maxDepth && depth - 1 + HeightAll(t, cs, rank, bound) <= maxDepth
    ensures MergeLimited(t, cs, maxDepth, depth) == MergeAll(t, cs, rank, bound)
    decreases bound, 0, |cs|
  {
    if cs != [] {
      LimitedEqualsAll(t, cs[0], rank, maxDepth, depth);
      MergeLimitedEqualsAll(t, cs[1..], rank, bound, maxDepth, depth);
    }
  }

  /** The seeder draws each `parent_id` from earlier ids, which always yields a forest. */
  lemma ParentBeforeChildIsAcyclic(t: Table<Activity>)
    requires t.WellFormed()
    requires forall k :: k in t.rows && t.rows[k].parentId.Some? ==> t.rows[k].parentId.value < k
    ensures Acyclic(t.rows)
  {
    var rank := map k | k in t.rows :: (t.nextId - k) as nat;
    assert Ranked(t.rows, rank);
  }
}
