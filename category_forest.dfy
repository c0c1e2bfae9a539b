/** The category forest that the listing endpoint returns, defined from the
    rows alone: which rows are roots, which are attached below which parent,
    and what every node's aggregated course count is. */
module CategoryForest {
  import opened PhpValues
  import opened CategoryDepth

  /** Rows deeper than this are never attached to their parent. */
  const MaxDepth: nat := 4

  /** A node of the returned tree. `countOfCourses` holds the raw count
      before aggregation and the aggregated total after it. */
  datatype Category = Category(
    id: Id, name: string, parentId: Option<Id>, depth: nat,
    countOfCourses: nat, children: seq<Category>)

  /** What the tree builder needs of its input: ids are unique (they are the
      table's primary key) and parent references do not form a cycle. */
  ghost predicate WellFormed(rows: seq<Row>) {
    UniqueIds(rows) && Acyclic(Index(rows))
  }

  /** WellFormed, with the id-keyed map given by its defining property. */
  ghost predicate Valid(rows: seq<Row>, m: map<Id, Row>) {
    UniqueIds(rows) && IndexOf(rows, m) && Acyclic(m)
  }

  ghost predicate InMap(rs: seq<Row>, m: map<Id, Row>) {
    forall r :: r in rs ==> r.id in m
  }

  /** The condition under which the third pass attaches row `r` to parent `p`. */
  predicate IsChild(m: map<Id, Row>, r: Row, p: Id)
    requires Acyclic(m) && r.id in m
  {
    r.parentId == Some(p) && Depth(m, r.id) <= MaxDepth
  }

  /** The rows among the first `n` of `rows`, in order, that are attached
      below `p`. */
  function ChildRowsUpTo(rows: seq<Row>, m: map<Id, Row>, p: Id, n: nat): (kids: seq<Row>)
    requires Acyclic(m) && InMap(rows, m) && n <= |rows|
    ensures forall r :: r in kids ==> r in rows && IsChild(m, r, p)
    ensures forall k {:trigger rows[k] in kids} :: 0 <= k < n && IsChild(m, rows[k], p) ==> rows[k] in kids
    ensures UniqueIds(rows) ==> UniqueIds(kids)
    ensures UniqueIds(rows) ==> forall r, j :: r in kids && n <= j < |rows| ==> r.id != rows[j].id
  {
    if n == 0 then []
    else ChildRowsUpTo(rows, m, p, n - 1) + (if IsChild(m, rows[n - 1], p) then [rows[n - 1]] else [])
  }

  /** The rows of `rows`, in order, that are attached below `p`. */
  function ChildRowsOf(rows: seq<Row>, m: map<Id, Row>, p: Id): (kids: seq<Row>)
    requires Acyclic(m) && InMap(rows, m)
    ensures forall r :: r in kids ==> r in rows && IsChild(m, r, p)
    ensures forall r {:trigger IsChild(m, r, p)} :: r in rows && IsChild(m, r, p) ==> r in kids
    ensures UniqueIds(rows) ==> UniqueIds(kids)
  {
    var kids := ChildRowsUpTo(rows, m, p, |rows|);
    assert forall r :: r in rows && IsChild(m, r, p) ==> r in kids by {
      forall r | r in rows && IsChild(m, r, p) ensures r in kids {
        var k :| 0 <= k < |rows| && rows[k] == r;
      }
    }
    kids
  }

  /** The rows among the first `n` of `rows`, in order, whose parent id is null. */
  function RootRowsUpTo(rows: seq<Row>, n: nat): (roots: seq<Row>)
    requires n <= |rows|
    ensures forall r :: r in roots ==> r in rows && r.parentId.None?
    ensures forall k {:trigger rows[k] in roots} :: 0 <= k < n && rows[k].parentId.None? ==> rows[k] in roots
    ensures UniqueIds(rows) ==> UniqueIds(roots)
    ensures UniqueIds(rows) ==> forall r, j :: r in roots && n <= j < |rows| ==> r.id != rows[j].id
  {
    if n == 0 then []
    else RootRowsUpTo(rows, n - 1) + (if rows[n - 1].parentId.None? then [rows[n - 1]] else [])
  }

  /** The rows of `rows`, in order, whose parent id is null. */
  function RootRowsOf(rows: seq<Row>): (roots: seq<Row>)
    ensures forall r :: r in roots <==> r in rows && r.parentId.None?
    ensures UniqueIds(rows) ==> UniqueIds(roots)
  {
    var roots := RootRowsUpTo(rows, |rows|);
    assert forall r :: r in rows && r.parentId.None? ==> r in roots by {
      forall r | r in rows && r.parentId.None? ensures r in roots {
        var k :| 0 <= k < |rows| && rows[k] == r;
      }
    }
    roots
  }

  /** The subtree under row `r`, with raw counts, as the references built
      by the third pass reach it. */
  function Subtree(rows: seq<Row>, m: map<Id, Row>, r: Row): (c: Category)
    requires Valid(rows, m) && r in rows && Depth(m, r.id) <= MaxDepth
    ensures c.id == r.id && c.depth == Depth(m, r.id) && c.countOfCourses == r.countOfCourses
    ensures |c.children| == |ChildRowsOf(rows, m, r.id)|
    ensures forall i :: 0 <= i < |c.children| ==>
      c.children[i].id == ChildRowsOf(rows, m, r.id)[i].id && c.children[i].depth == c.depth + 1
    decreases MaxDepth - Depth(m, r.id)
  {
    var kids := ChildRowsOf(rows, m, r.id);
    assert forall k :: k in kids ==> Depth(m, k.id) == Depth(m, r.id) + 1 by {
      forall k | k in kids ensures Depth(m, k.id) == Depth(m, r.id) + 1 {
        DepthOfChild(m, k.id);
      }
    }
    Category(r.id, r.name, r.parentId, Depth(m, r.id), r.countOfCourses,
      seq(|kids|, i requires 0 <= i < |kids| => Subtree(rows, m, kids[i])))
  }

  /** The forest before aggregation: one subtree per null-parent row. */
  function Assemble(rows: seq<Row>, m: map<Id, Row>): (a: seq<Category>)
    requires Valid(rows, m)
    ensures |a| == |RootRowsOf(rows)|
    ensures forall i :: 0 <= i < |a| ==> a[i].id == RootRowsOf(rows)[i].id && a[i].depth == 1
  {
    var roots := RootRowsOf(rows);
    assert forall r :: r in roots ==> Depth(m, r.id) == 1;
    seq(|roots|, i requires 0 <= i < |roots| => Subtree(rows, m, roots[i]))
  }

  function SumCounts(cs: seq<Category>): nat {
    if cs == [] then 0 else cs[0].countOfCourses + SumCounts(cs[1..])
  }

  /** The fourth pass on one node: children first, then the node's own count
      grows by its children's totals. */
  function WithTotal(c: Category): (t: Category)
    ensures t.id == c.id && t.name == c.name && t.parentId == c.parentId && t.depth == c.depth
    ensures |t.children| == |c.children|
    ensures t.countOfCourses >= c.countOfCourses
  {
    var kids := seq(|c.children|, i requires 0 <= i < |c.children| => WithTotal(c.children[i]));
    c.(countOfCourses := c.countOfCourses + SumCounts(kids), children := kids)
  }

  function WithTotals(cs: seq<Category>): (ts: seq<Category>)
    ensures |ts| == |cs|
    ensures forall i :: 0 <= i < |cs| ==> ts[i].id == cs[i].id && ts[i].depth == cs[i].depth
  {
    seq(|cs|, i requires 0 <= i < |cs| => WithTotal(cs[i]))
  }

  /** What `getAllCategories` returns. */
  function Forest(rows: seq<Row>): (f: seq<Category>)
    requires WellFormed(rows)
    ensures |f| == |RootRowsOf(rows)|
    ensures forall i :: 0 <= i < |f| ==> f[i].id == RootRowsOf(rows)[i].id && f[i].depth == 1
  {
    IndexIsIndexOf(rows);
    WithTotals(Assemble(rows, Index(rows)))
  }

  function Concat<T>(ss: seq<seq<T>>): seq<T> {
    if ss == [] then [] else ss[0] + Concat(ss[1..])
  }

  /** Every id in a tree, in pre-order. */
  function Ids(c: Category): seq<Id> {
    [c.id] + Concat(seq(|c.children|, i requires 0 <= i < |c.children| => Ids(c.children[i])))
  }

  /** The ids of each tree of a forest, tree by tree. */
  function TreeIds(cs: seq<Category>): (ss: seq<seq<Id>>)
    ensures |ss| == |cs| && forall i :: 0 <= i < |cs| ==> ss[i] == Ids(cs[i])
  {
    seq(|cs|, i requires 0 <= i < |cs| => Ids(cs[i]))
  }

  /** Every id in a forest, in pre-order. */
  function ForestIds(cs: seq<Category>): seq<Id> {
    Concat(TreeIds(cs))
  }

  /** A tree's ids are its root's id followed by its children's. */
  lemma IdsUnfold(c: Category)
    ensures Ids(c) == [c.id] + ForestIds(c.children)
  {
    var cs := c.children;
    var a := seq(|c.children|, i requires 0 <= i < |c.children| => Ids(c.children[i]));
    var b := TreeIds(cs);
    assert Ids(c) == [c.id] + Concat(a);
    assert ForestIds(cs) == Concat(b);
    assert a == b;
  }

  /** The ids of the top-level nodes of a forest. */
  function TopIds(cs: seq<Category>): seq<Id> {
    seq(|cs|, i requires 0 <= i < |cs| => cs[i].id)
  }

  ghost predicate Distinct<T>(s: seq<T>) {
    forall i, j :: 0 <= i < j < |s| ==> s[i] != s[j]
  }

  /** A row is shown exactly when it is at most MaxDepth deep and the top of
      its ancestor chain has a null parent id (not an unknown one). */
  ghost predicate Included(m: map<Id, Row>, id: Id)
    requires Acyclic(m) && id in m
  {
    Depth(m, id) <= MaxDepth && m[Top(m, id)].parentId.None?
  }

  lemma {:induction false} ConcatMember<T>(ss: seq<seq<T>>, x: T)
    ensures x in Concat(ss) <==> exists i :: 0 <= i < |ss| && x in ss[i]
  {
    if ss != [] {
      ConcatMember(ss[1..], x);
      if x in Concat(ss[1..]) {
        var i :| 0 <= i < |ss[1..]| && x in ss[1..][i];
        assert x in ss[i + 1];
      }
      if exists i :: 0 <= i < |ss| && x in ss[i] {
        var i :| 0 <= i < |ss| && x in ss[i];
        if i > 0 { assert x in ss[1..][i - 1]; }
      }
    }
  }

  /** Pieces that are each free of repetitions and pairwise disjoint
      concatenate to a sequence free of repetitions. */
  lemma {:induction false} ConcatDistinct<T>(ss: seq<seq<T>>)
    requires forall i :: 0 <= i < |ss| ==> Distinct(ss[i])
    requires forall i, j, x :: 0 <= i < j < |ss| && x in ss[i] ==> x !in ss[j]
    ensures Distinct(Concat(ss))
  {
    if ss != [] {
      ConcatDistinct(ss[1..]);
      var rest := Concat(ss[1..]);
      forall x | x in ss[0] ensures x !in rest {
        ConcatMember(ss[1..], x);
      }
      DistinctAppend(ss[0], rest);
    }
  }

  lemma DistinctAppend<T>(a: seq<T>, b: seq<T>)
    requires Distinct(a) && Distinct(b)
    requires forall x :: x in a ==> x !in b
    ensures Distinct(a + b)
  {
    forall i, j | 0 <= i < j < |a + b| ensures (a + b)[i] != (a + b)[j] {
      if i < |a| && j >= |a| {
        assert (a + b)[i] in a && (a + b)[j] in b;
      }
    }
  }

  /** The ids of the subtrees under the rows attached to `r`, in order. */
  function KidIds(rows: seq<Row>, m: map<Id, Row>, r: Row): (ss: seq<seq<Id>>)
    requires Valid(rows, m) && r in rows && Depth(m, r.id) < MaxDepth
    ensures var kids := ChildRowsOf(rows, m, r.id);
      |ss| == |kids| &&
      forall i :: 0 <= i < |kids| ==>
        Depth(m, kids[i].id) == Depth(m, r.id) + 1 && ss[i] == Ids(Subtree(rows, m, kids[i]))
  {
    var kids := ChildRowsOf(rows, m, r.id);
    assert forall k :: k in kids ==> Depth(m, k.id) == Depth(m, r.id) + 1 by {
      forall k | k in kids ensures Depth(m, k.id) == Depth(m, r.id) + 1 {
        DepthOfChild(m, k.id);
      }
    }
    seq(|kids|, i requires 0 <= i < |kids| => Ids(Subtree(rows, m, kids[i])))
  }

  lemma SubtreeUnfold(rows: seq<Row>, m: map<Id, Row>, r: Row)
    requires Valid(rows, m) && r in rows && Depth(m, r.id) < MaxDepth
    ensures Ids(Subtree(rows, m, r)) == [r.id] + Concat(KidIds(rows, m, r))
  {
    var c := Subtree(rows, m, r);
    assert seq(|c.children|, i requires 0 <= i < |c.children| => Ids(c.children[i])) == KidIds(rows, m, r);
  }

  /** Row `y` is attached below `p` by the third pass. */
  ghost predicate Attachable(m: map<Id, Row>, p: Id, y: Id)
    requires Acyclic(m)
  {
    y in m && m[y].parentId == Some(p) && Depth(m, y) <= MaxDepth
  }

  /** The facts SubtreeIds needs about the rows attached below `p` and the id
      sequences of their subtrees, stated without the trees themselves. */
  ghost predicate KidsBelow(m: map<Id, Row>, p: Id, kids: seq<Row>, ss: seq<seq<Id>>)
    requires Acyclic(m) && p in m
  {
    && |ss| == |kids|
    && UniqueIds(kids)
    && (forall i :: 0 <= i < |kids| ==>
          kids[i].id in m && m[kids[i].id] == kids[i] && kids[i].parentId == Some(p) &&
          Depth(m, kids[i].id) == Depth(m, p) + 1)
    && (forall y {:trigger Attachable(m, p, y)} :: Attachable(m, p, y) ==>
          exists i :: 0 <= i < |kids| && kids[i].id == y)
    && (forall i, x {:trigger x in ss[i]} :: 0 <= i < |ss| ==>
          (x in ss[i] <==>
             (x in m && Depth(m, x) <= MaxDepth && DescendsFrom(m, x, kids[i].id))))
    && (forall i :: 0 <= i < |ss| ==> Distinct(ss[i]))
  }

  lemma KidsBelowMembers(m: map<Id, Row>, p: Id, kids: seq<Row>, ss: seq<seq<Id>>, x: Id)
    requires Acyclic(m) && p in m && Depth(m, p) <= MaxDepth && KidsBelow(m, p, kids, ss)
    ensures x in [p] + Concat(ss) <==>
      x in m && Depth(m, x) <= MaxDepth && DescendsFrom(m, x, p)
  {
    ConcatMember(ss, x);
    if x in Concat(ss) {
      var i :| 0 <= i < |ss| && x in ss[i];
      DescendsThroughChild(m, x, kids[i].id, p);
    }
    if x in m && x != p && Depth(m, x) <= MaxDepth && DescendsFrom(m, x, p) {
      var y := DescendsViaChild(m, x, p);
      DescendantIsDeeper(m, x, y);
      assert Attachable(m, p, y);
      var i :| 0 <= i < |kids| && kids[i].id == y;
      assert x in ss[i];
    }
  }

  /** Subtrees under different children of `p` share no row. */
  lemma KidsBelowDisjoint(m: map<Id, Row>, p: Id, kids: seq<Row>, ss: seq<seq<Id>>)
    requires Acyclic(m) && p in m && KidsBelow(m, p, kids, ss)
    ensures forall i, j, x :: 0 <= i < j < |ss| && x in ss[i] ==> x !in ss[j]
  {
    forall i, j, x | 0 <= i < j < |ss| && x in ss[i] ensures x !in ss[j] {
      if x in ss[j] {
        OneAncestorPerDepth(m, x, kids[i].id, kids[j].id);
        assert false;
      }
    }
  }

  /** `p` itself is in none of the subtrees under its children. */
  lemma KidsBelowExcludeParent(m: map<Id, Row>, p: Id, kids: seq<Row>, ss: seq<seq<Id>>)
    requires Acyclic(m) && p in m && KidsBelow(m, p, kids, ss)
    ensures p !in Concat(ss)
  {
    ConcatMember(ss, p);
    if p in Concat(ss) {
      var i :| 0 <= i < |ss| && p in ss[i];
      DescendantIsDeeper(m, p, kids[i].id);
    }
  }

  lemma KidsBelowDistinct(m: map<Id, Row>, p: Id, kids: seq<Row>, ss: seq<seq<Id>>)
    requires Acyclic(m) && p in m && KidsBelow(m, p, kids, ss)
    ensures Distinct([p] + Concat(ss))
  {
    KidsBelowDisjoint(m, p, kids, ss);
    ConcatDistinct(ss);
    KidsBelowExcludeParent(m, p, kids, ss);
    DistinctAppend([p], Concat(ss));
  }

  /** The rows attached below `r`, with the id sequences of their subtrees
      described by membership, satisfy KidsBelow. */
  lemma KidsBelowHolds(rows: seq<Row>, m: map<Id, Row>, r: Row, kids: seq<Row>, ss: seq<seq<Id>>)
    requires Valid(rows, m) && r in rows && Depth(m, r.id) < MaxDepth
    requires kids == ChildRowsOf(rows, m, r.id) && |ss| == |kids|
    requires forall i, x :: 0 <= i < |ss| ==>
      (x in ss[i] <==> (x in m && Depth(m, x) <= MaxDepth && DescendsFrom(m, x, kids[i].id)))
    requires forall i :: 0 <= i < |ss| ==> Distinct(ss[i])
    ensures KidsBelow(m, r.id, kids, ss)
  {
    forall i | 0 <= i < |kids|
      ensures kids[i].id in m && m[kids[i].id] == kids[i] && kids[i].parentId == Some(r.id)
      ensures Depth(m, kids[i].id) == Depth(m, r.id) + 1
    {
      assert kids[i] in kids;
      DepthOfChild(m, kids[i].id);
    }
    KidsAreComplete(rows, m, r, kids);
  }

  /** Every row attached below `r` is among the rows ChildRowsOf selects. */
  lemma KidsAreComplete(rows: seq<Row>, m: map<Id, Row>, r: Row, kids: seq<Row>)
    requires Valid(rows, m) && kids == ChildRowsOf(rows, m, r.id)
    ensures forall y {:trigger Attachable(m, r.id, y)} :: Attachable(m, r.id, y) ==>
      exists i :: 0 <= i < |kids| && kids[i].id == y
  {
    forall y | Attachable(m, r.id, y)
      ensures exists i :: 0 <= i < |kids| && kids[i].id == y
    {
      assert IsChild(m, m[y], r.id);
      var i :| 0 <= i < |kids| && kids[i] == m[y];
    }
  }

  /** A row at the depth limit has nothing attached below it. */
  lemma SubtreeIdsAtLimit(rows: seq<Row>, m: map<Id, Row>, r: Row)
    requires Valid(rows, m) && r in rows && Depth(m, r.id) == MaxDepth
    ensures Ids(Subtree(rows, m, r)) == [r.id]
    ensures forall x {:trigger DescendsFrom(m, x, r.id)} ::
      x in m && Depth(m, x) <= MaxDepth && DescendsFrom(m, x, r.id) ==> x == r.id
  {
    var kids := ChildRowsOf(rows, m, r.id);
    if kids != [] {
      DepthOfChild(m, kids[0].id);
      assert false;
    }
    assert Ids(Subtree(rows, m, r)) == [r.id];
    forall x | x in m && Depth(m, x) <= MaxDepth && DescendsFrom(m, x, r.id)
      ensures x == r.id
    {
      DescendantIsDeeper(m, x, r.id);
    }
  }

  /** The ids in the subtree under `r` are exactly the rows at most MaxDepth
      deep that descend from `r` (or are `r`), each once. */
  lemma {:induction false} SubtreeIds(rows: seq<Row>, m: map<Id, Row>, r: Row)
    requires Valid(rows, m) && r in rows && Depth(m, r.id) <= MaxDepth
    ensures forall x {:trigger x in Ids(Subtree(rows, m, r))} :: x in Ids(Subtree(rows, m, r)) <==>
      x in m && Depth(m, x) <= MaxDepth && DescendsFrom(m, x, r.id)
    ensures Distinct(Ids(Subtree(rows, m, r)))
    decreases MaxDepth - Depth(m, r.id)
  {
    if Depth(m, r.id) == MaxDepth {
      SubtreeIdsAtLimit(rows, m, r);
    } else {
      var kids := ChildRowsOf(rows, m, r.id);
      var ss := KidIds(rows, m, r);
      SubtreeUnfold(rows, m, r);
      forall i | 0 <= i < |kids|
        ensures forall x {:trigger x in ss[i]} :: x in ss[i] <==>
          x in m && Depth(m, x) <= MaxDepth && DescendsFrom(m, x, kids[i].id)
        ensures Distinct(ss[i])
      {
        SubtreeIds(rows, m, kids[i]);
      }
      KidsBelowHolds(rows, m, r, kids, ss);
      var all := [r.id] + Concat(ss);
      forall x
        ensures x in all <==>
          x in m && Depth(m, x) <= MaxDepth && DescendsFrom(m, x, r.id)
      {
        KidsBelowMembers(m, r.id, kids, ss, x);
      }
      KidsBelowDistinct(m, r.id, kids, ss);
    }
  }
}
