/** What the returned category forest contains: which categories appear and
    once each, which are the top-level nodes, what every node carries, the
    aggregated course counts, and the order of siblings. */
module ForestFacts {
  import opened PhpValues
  import opened CategoryDepth
  import opened CategoryForest

  /** Aggregation leaves every node where it was. */
  lemma {:induction false} WithTotalIds(c: Category)
    ensures Ids(WithTotal(c)) == Ids(c)
    decreases c
  {
    var t := WithTotal(c);
    forall i | 0 <= i < |c.children| ensures Ids(t.children[i]) == Ids(c.children[i]) {
      WithTotalIds(c.children[i]);
    }
    assert seq(|t.children|, i requires 0 <= i < |t.children| => Ids(t.children[i]))
        == seq(|c.children|, i requires 0 <= i < |c.children| => Ids(c.children[i]));
  }

  lemma WithTotalsIds(cs: seq<Category>)
    ensures ForestIds(WithTotals(cs)) == ForestIds(cs)
  {
    var ts := WithTotals(cs);
    forall i | 0 <= i < |cs| ensures Ids(ts[i]) == Ids(cs[i]) {
      WithTotalIds(cs[i]);
    }
    assert TreeIds(ts) == TreeIds(cs);
  }

  lemma AssembledAreIncluded(rows: seq<Row>, m: map<Id, Row>, x: Id)
    requires Valid(rows, m) && x in ForestIds(Assemble(rows, m))
    ensures x in m && Included(m, x)
  {
    var roots := RootRowsOf(rows);
    var ss := TreeIds(Assemble(rows, m));
    ConcatMember(ss, x);
    var i :| 0 <= i < |ss| && x in ss[i];
    assert roots[i] in roots;
    SubtreeIds(rows, m, roots[i]);
    TopIsUnique(m, x, roots[i].id);
  }

  lemma IncludedAreAssembled(rows: seq<Row>, m: map<Id, Row>, x: Id)
    requires Valid(rows, m) && x in m && Included(m, x)
    ensures x in ForestIds(Assemble(rows, m))
  {
    var roots := RootRowsOf(rows);
    var ss := TreeIds(Assemble(rows, m));
    var t := Top(m, x);
    assert m[t] in rows && m[t].parentId.None?;
    assert m[t] in roots;
    var i :| 0 <= i < |roots| && roots[i] == m[t];
    SubtreeIds(rows, m, roots[i]);
    assert x in ss[i];
    ConcatMember(ss, x);
  }

  /** A category appears in the assembled forest exactly when it is Included. */
  lemma AssembleMembers(rows: seq<Row>, m: map<Id, Row>, x: Id)
    requires Valid(rows, m)
    ensures x in ForestIds(Assemble(rows, m)) <==> x in m && Included(m, x)
  {
    if x in ForestIds(Assemble(rows, m)) {
      AssembledAreIncluded(rows, m, x);
    }
    if x in m && Included(m, x) {
      IncludedAreAssembled(rows, m, x);
    }
  }

  /** No category appears twice in the assembled forest. */
  lemma AssembleDistinct(rows: seq<Row>, m: map<Id, Row>)
    requires Valid(rows, m)
    ensures Distinct(ForestIds(Assemble(rows, m)))
  {
    var roots := RootRowsOf(rows);
    var cs := Assemble(rows, m);
    var ss := TreeIds(cs);
    forall i | 0 <= i < |ss| ensures Distinct(ss[i]) {
      assert roots[i] in roots;
      SubtreeIds(rows, m, roots[i]);
    }
    forall i, j, x | 0 <= i < j < |ss| && x in ss[i] ensures x !in ss[j] {
      if x in ss[j] {
        assert roots[i] in roots && roots[j] in roots;
        SubtreeIds(rows, m, roots[i]);
        SubtreeIds(rows, m, roots[j]);
        TopIsUnique(m, x, roots[i].id);
        TopIsUnique(m, x, roots[j].id);
        assert false;
      }
    }
    ConcatDistinct(ss);
  }

  /** The returned forest holds exactly the Included categories: rows at most
      four levels deep whose chain of parents ends at a null parent id. */
  lemma ForestMembers(rows: seq<Row>, x: Id)
    requires WellFormed(rows)
    ensures x in ForestIds(Forest(rows)) <==> x in Index(rows) && Included(Index(rows), x)
  {
    var m := Index(rows);
    IndexIsIndexOf(rows);
    WithTotalsIds(Assemble(rows, m));
    AssembleMembers(rows, m, x);
  }

  /** Each category appears at most once in the returned forest. */
  lemma ForestDistinct(rows: seq<Row>)
    requires WellFormed(rows)
    ensures Distinct(ForestIds(Forest(rows)))
  {
    var m := Index(rows);
    IndexIsIndexOf(rows);
    WithTotalsIds(Assemble(rows, m));
    AssembleDistinct(rows, m);
  }

  /** A row whose parent id names no row is dropped, and so is everything
      below it. */
  lemma OrphanBranchAbsent(rows: seq<Row>, o: Id, x: Id)
    requires WellFormed(rows)
    requires o in Index(rows) && Index(rows)[o].parentId.Some? && !HasKnownParent(Index(rows), o)
    requires x in Index(rows) && DescendsFrom(Index(rows), x, o)
    ensures x !in ForestIds(Forest(rows))
  {
    ForestMembers(rows, x);
    TopIsUnique(Index(rows), x, o);
  }

  /** A row more than four levels deep is dropped. */
  lemma DeepRowAbsent(rows: seq<Row>, x: Id)
    requires WellFormed(rows) && x in Index(rows) && Depth(Index(rows), x) > MaxDepth
    ensures x !in ForestIds(Forest(rows))
  {
    ForestMembers(rows, x);
  }

  /** The top-level nodes are the rows with a null parent id, in row order. */
  lemma ForestRoots(rows: seq<Row>)
    requires WellFormed(rows)
    ensures TopIds(Forest(rows)) == seq(|RootRowsOf(rows)|, i requires 0 <= i < |RootRowsOf(rows)| => RootRowsOf(rows)[i].id)
  {
    IndexIsIndexOf(rows);
  }

  /** Every node carries its own row's name and parent id and its computed
      depth, at most MaxDepth; its children point back at it and sit one
      level lower. */
  ghost predicate Shaped(m: map<Id, Row>, c: Category)
    requires Acyclic(m)
    decreases c
  {
    && c.id in m && c.name == m[c.id].name && c.parentId == m[c.id].parentId
    && c.depth == Depth(m, c.id) <= MaxDepth
    && forall i :: 0 <= i < |c.children| ==>
         c.children[i].parentId == Some(c.id) && c.children[i].depth == c.depth + 1 &&
         Shaped(m, c.children[i])
  }

  lemma {:induction false} SubtreeShaped(rows: seq<Row>, m: map<Id, Row>, r: Row)
    requires Valid(rows, m) && r in rows && Depth(m, r.id) <= MaxDepth
    ensures Shaped(m, Subtree(rows, m, r))
    decreases MaxDepth - Depth(m, r.id)
  {
    var c := Subtree(rows, m, r);
    var kids := ChildRowsOf(rows, m, r.id);
    forall i | 0 <= i < |kids|
      ensures c.children[i].parentId == Some(c.id) && c.children[i].depth == c.depth + 1
      ensures Shaped(m, c.children[i])
    {
      assert kids[i] in kids;
      DepthOfChild(m, kids[i].id);
      SubtreeShaped(rows, m, kids[i]);
    }
  }

  lemma {:induction false} WithTotalShaped(m: map<Id, Row>, c: Category)
    requires Acyclic(m) && Shaped(m, c)
    ensures Shaped(m, WithTotal(c))
    decreases c
  {
    var t := WithTotal(c);
    forall i | 0 <= i < |c.children| ensures Shaped(m, t.children[i]) {
      WithTotalShaped(m, c.children[i]);
    }
  }

  /** Every top-level node has a null parent id and every node is Shaped. */
  lemma ForestShape(rows: seq<Row>)
    requires WellFormed(rows)
    ensures forall i :: 0 <= i < |Forest(rows)| ==>
      Forest(rows)[i].parentId.None? && Shaped(Index(rows), Forest(rows)[i])
  {
    var m := Index(rows);
    IndexIsIndexOf(rows);
    var roots := RootRowsOf(rows);
    forall i | 0 <= i < |roots|
      ensures Shaped(m, WithTotal(Subtree(rows, m, roots[i])))
    {
      assert roots[i] in roots;
      SubtreeShaped(rows, m, roots[i]);
      WithTotalShaped(m, Subtree(rows, m, roots[i]));
    }
  }

  /** The raw number of courses assigned directly to a category. */
  function RawCount(m: map<Id, Row>, id: Id): nat {
    if id in m then m[id].countOfCourses else 0
  }

  /** The raw counts of a list of categories, added up. */
  function SumRaw(m: map<Id, Row>, ids: seq<Id>): nat {
    if ids == [] then 0 else RawCount(m, ids[0]) + SumRaw(m, ids[1..])
  }

  lemma {:induction false} SumRawAppend(m: map<Id, Row>, a: seq<Id>, b: seq<Id>)
    ensures SumRaw(m, a + b) == SumRaw(m, a) + SumRaw(m, b)
  {
    if a != [] {
      assert (a + b)[1..] == a[1..] + b;
      SumRawAppend(m, a[1..], b);
    } else {
      assert a + b == b;
    }
  }

  /** Every node of `c` still holds its own raw count. */
  ghost predicate RawCounts(m: map<Id, Row>, c: Category)
    decreases c
  {
    c.countOfCourses == RawCount(m, c.id) &&
    forall i :: 0 <= i < |c.children| ==> RawCounts(m, c.children[i])
  }

  /** Every node of `c` holds the raw counts of its whole subtree, added up. */
  ghost predicate Totalled(m: map<Id, Row>, c: Category)
    decreases c
  {
    c.countOfCourses == SumRaw(m, Ids(c)) &&
    forall i :: 0 <= i < |c.children| ==> Totalled(m, c.children[i])
  }

  lemma {:induction false} SubtreeRawCounts(rows: seq<Row>, m: map<Id, Row>, r: Row)
    requires Valid(rows, m) && r in rows && Depth(m, r.id) <= MaxDepth
    ensures RawCounts(m, Subtree(rows, m, r))
    decreases MaxDepth - Depth(m, r.id)
  {
    var kids := ChildRowsOf(rows, m, r.id);
    forall i | 0 <= i < |kids| ensures RawCounts(m, Subtree(rows, m, kids[i])) {
      assert kids[i] in kids;
      DepthOfChild(m, kids[i].id);
      SubtreeRawCounts(rows, m, kids[i]);
    }
  }

  /** Totals of a list of subtrees add up to the raw counts of all their ids. */
  lemma {:induction false} SumCountsOfTotals(m: map<Id, Row>, cs: seq<Category>)
    requires forall i :: 0 <= i < |cs| ==> cs[i].countOfCourses == SumRaw(m, Ids(cs[i]))
    ensures SumCounts(cs) == SumRaw(m, ForestIds(cs))
  {
    if cs != [] {
      SumCountsOfTotals(m, cs[1..]);
      var ss := TreeIds(cs);
      assert ss[1..] == TreeIds(cs[1..]);
      SumRawAppend(m, Ids(cs[0]), ForestIds(cs[1..]));
    }
  }

  /** The fourth pass turns raw counts into subtree totals at every node. */
  lemma {:induction false} WithTotalTotalled(m: map<Id, Row>, c: Category)
    requires RawCounts(m, c)
    ensures Totalled(m, WithTotal(c))
    decreases c
  {
    var t := WithTotal(c);
    forall i | 0 <= i < |c.children|
      ensures Totalled(m, t.children[i])
      ensures Ids(t.children[i]) == Ids(c.children[i])
    {
      WithTotalTotalled(m, c.children[i]);
      WithTotalIds(c.children[i]);
    }
    SumCountsOfTotals(m, t.children);
    IdsUnfold(t);
    SumRawAppend(m, [t.id], ForestIds(t.children));
    assert SumRaw(m, [t.id]) == RawCount(m, t.id);
  }

  /** Every node of the returned forest counts the courses of its own
      category and of every category shown below it; a leaf keeps its raw
      count. */
  lemma ForestCounts(rows: seq<Row>)
    requires WellFormed(rows)
    ensures forall i :: 0 <= i < |Forest(rows)| ==> Totalled(Index(rows), Forest(rows)[i])
  {
    var m := Index(rows);
    IndexIsIndexOf(rows);
    var roots := RootRowsOf(rows);
    forall i | 0 <= i < |roots|
      ensures Totalled(m, WithTotal(Subtree(rows, m, roots[i])))
    {
      assert roots[i] in roots;
      SubtreeRawCounts(rows, m, roots[i]);
      WithTotalTotalled(m, Subtree(rows, m, roots[i]));
    }
  }

  /** The rows are listed in the order `le` imposes on names, as the
      listing query's ORDER BY delivers them. */
  ghost predicate RowsInOrder(rs: seq<Row>, le: (string, string) -> bool) {
    forall i, j :: 0 <= i < j < |rs| ==> le(rs[i].name, rs[j].name)
  }

  /** Every list of siblings, top-level nodes included, is in name order. */
  ghost predicate InOrder(cs: seq<Category>, le: (string, string) -> bool)
    decreases cs
  {
    && (forall i, j :: 0 <= i < j < |cs| ==> le(cs[i].name, cs[j].name))
    && (forall i :: 0 <= i < |cs| ==> InOrder(cs[i].children, le))
  }

  /** Selecting some rows keeps them in order. */
  lemma {:induction false} ChildRowsUpToInOrder(rows: seq<Row>, m: map<Id, Row>, p: Id, n: nat, le: (string, string) -> bool)
    requires Acyclic(m) && InMap(rows, m) && n <= |rows| && RowsInOrder(rows, le)
    ensures RowsInOrder(ChildRowsUpTo(rows, m, p, n), le)
    ensures forall r, j :: r in ChildRowsUpTo(rows, m, p, n) && n <= j < |rows| ==> le(r.name, rows[j].name)
  {
    if n > 0 {
      var prev := ChildRowsUpTo(rows, m, p, n - 1);
      var kids := ChildRowsUpTo(rows, m, p, n);
      ChildRowsUpToInOrder(rows, m, p, n - 1, le);
      if IsChild(m, rows[n - 1], p) {
        AppendInOrder(rows, prev, n, le);
      } else {
        assert kids == prev;
      }
    }
  }

  /** Appending row `n - 1` to rows selected among the first `n - 1` keeps
      them in order and before every later row. */
  lemma AppendInOrder(rows: seq<Row>, prev: seq<Row>, n: nat, le: (string, string) -> bool)
    requires 0 < n <= |rows| && RowsInOrder(rows, le) && RowsInOrder(prev, le)
    requires forall r, j :: r in prev && n - 1 <= j < |rows| ==> le(r.name, rows[j].name)
    ensures RowsInOrder(prev + [rows[n - 1]], le)
    ensures forall r, j :: r in prev + [rows[n - 1]] && n <= j < |rows| ==> le(r.name, rows[j].name)
  {
    var kids := prev + [rows[n - 1]];
    forall i, j | 0 <= i < j < |kids| ensures le(kids[i].name, kids[j].name) {
      assert kids[i] == prev[i] && prev[i] in prev;
      if j < |prev| {
        assert kids[j] == prev[j];
      }
    }
    forall r, j | r in kids && n <= j < |rows| ensures le(r.name, rows[j].name) {
      if r != rows[n - 1] {
        assert r in prev;
      }
    }
  }

  lemma {:induction false} RootRowsUpToInOrder(rows: seq<Row>, n: nat, le: (string, string) -> bool)
    requires n <= |rows| && RowsInOrder(rows, le)
    ensures RowsInOrder(RootRowsUpTo(rows, n), le)
    ensures forall r, j :: r in RootRowsUpTo(rows, n) && n <= j < |rows| ==> le(r.name, rows[j].name)
  {
    if n > 0 {
      var prev := RootRowsUpTo(rows, n - 1);
      RootRowsUpToInOrder(rows, n - 1, le);
      if rows[n - 1].parentId.None? {
        AppendInOrder(rows, prev, n, le);
      } else {
        assert RootRowsUpTo(rows, n) == prev;
      }
    }
  }

  lemma {:induction false} SubtreeInOrder(rows: seq<Row>, m: map<Id, Row>, r: Row, le: (string, string) -> bool)
    requires Valid(rows, m) && r in rows && Depth(m, r.id) <= MaxDepth && RowsInOrder(rows, le)
    ensures InOrder(Subtree(rows, m, r).children, le)
    decreases MaxDepth - Depth(m, r.id)
  {
    var kids := ChildRowsOf(rows, m, r.id);
    ChildRowsUpToInOrder(rows, m, r.id, |rows|, le);
    forall i | 0 <= i < |kids| ensures InOrder(Subtree(rows, m, kids[i]).children, le) {
      assert kids[i] in kids;
      DepthOfChild(m, kids[i].id);
      SubtreeInOrder(rows, m, kids[i], le);
    }
  }

  /** Aggregation keeps every list of siblings as it was. */
  lemma {:induction false} WithTotalsInOrder(cs: seq<Category>, le: (string, string) -> bool)
    requires InOrder(cs, le)
    ensures InOrder(WithTotals(cs), le)
    decreases cs
  {
    var ts := WithTotals(cs);
    forall i | 0 <= i < |cs| ensures InOrder(ts[i].children, le) {
      WithTotalsInOrder(cs[i].children, le);
      assert ts[i].children == WithTotals(cs[i].children);
    }
  }

  /** Rows delivered in name order give a forest whose top-level nodes and
      every list of children are in name order. */
  lemma ForestOrder(rows: seq<Row>, le: (string, string) -> bool)
    requires WellFormed(rows) && RowsInOrder(rows, le)
    ensures InOrder(Forest(rows), le)
  {
    var m := Index(rows);
    IndexIsIndexOf(rows);
    var roots := RootRowsOf(rows);
    RootRowsUpToInOrder(rows, |rows|, le);
    forall i | 0 <= i < |roots| ensures InOrder(Subtree(rows, m, roots[i]).children, le) {
      assert roots[i] in roots;
      SubtreeInOrder(rows, m, roots[i], le);
    }
    WithTotalsInOrder(Assemble(rows, m), le);
  }
}
