/** The category listing as `getAllCategories` computes it: four passes over
    a local id-keyed map `$map` whose entries gain `depth` and `children`
    fields. Children are held by id, each standing for a reference into the
    same map; `Materialise` reads the finished references back as a tree. */
module CategoryService {
  import opened PhpValues
  import opened CategoryDepth
  import opened CategoryForest

  /** An entry of `$map`: the fetched row plus the fields the first pass adds. */
  datatype Entry = Entry(row: Row, depth: nat, children: seq<Id>)

  /** The ids of some rows, in order. */
  function RowIds(rs: seq<Row>): (ids: seq<Id>)
    ensures |ids| == |rs| && forall i :: 0 <= i < |rs| ==> ids[i] == rs[i].id
  {
    seq(|rs|, i requires 0 <= i < |rs| => rs[i].id)
  }

  lemma RowIdsAppend(a: seq<Row>, b: seq<Row>)
    ensures RowIds(a + b) == RowIds(a) + RowIds(b)
  {
    assert RowIds(a + b) == RowIds(a) + RowIds(b);
  }

  /** Each entry sits under its row's id and holds the row `m` holds there. */
  ghost predicate Mirrors(work: map<Id, Entry>, m: map<Id, Row>) {
    && work.Keys == m.Keys
    && forall id {:trigger work[id]} :: id in work ==> work[id].row == m[id] && m[id].id == id
  }

  /** Every recorded depth is unset (0) or the depth the rows determine. */
  ghost predicate DepthsSound(work: map<Id, Entry>, m: map<Id, Row>)
    requires Acyclic(m) && Mirrors(work, m)
  {
    forall id {:trigger work[id]} :: id in work ==> work[id].depth == 0 || work[id].depth == Depth(m, id)
  }

  lemma IndexSnoc(rows: seq<Row>, i: nat)
    requires i < |rows|
    ensures Index(rows[..i + 1]) == Index(rows[..i])[rows[i].id := rows[i]]
  {
    assert rows[..i + 1][..i] == rows[..i];
  }

  lemma RowIdsSnoc(rows: seq<Row>, i: nat)
    requires i < |rows|
    ensures RowIds(rows[..i + 1]) == RowIds(rows[..i]) + [rows[i].id]
  {
    assert rows[..i + 1] == rows[..i] + [rows[i]];
    RowIdsAppend(rows[..i], [rows[i]]);
  }

  lemma FreshId(rows: seq<Row>, i: nat)
    requires UniqueIds(rows) && i < |rows|
    ensures rows[i].id !in Index(rows[..i])
  {
  }

  /** Storing a row under its id in both maps keeps them mirrored. */
  lemma PutMirrors(work: map<Id, Entry>, m: map<Id, Row>, row: Row)
    requires Mirrors(work, m)
    ensures Mirrors(work[row.id := Entry(row, 0, [])], m[row.id := row])
  {
    assert work[row.id := Entry(row, 0, [])].Keys == m[row.id := row].Keys;
  }

  /** First pass: every row goes into the map under its id with depth 0 and no
      children; a later row with the same id replaces the earlier one, and
      `keys` keeps the map's insertion order. */
  method InitialiseMap(rows: seq<Row>) returns (work: map<Id, Entry>, keys: seq<Id>)
    ensures Mirrors(work, Index(rows))
    ensures forall id :: id in work ==> work[id].depth == 0 && work[id].children == []
    ensures forall id :: id in work <==> id in keys
    ensures UniqueIds(rows) ==> keys == RowIds(rows)
  {
    work, keys := map[], [];
    for i := 0 to |rows|
      invariant Mirrors(work, Index(rows[..i]))
      invariant forall id :: id in work ==> work[id].depth == 0 && work[id].children == []
      invariant forall id :: id in work <==> id in keys
      invariant UniqueIds(rows) ==> keys == RowIds(rows[..i])
    {
      var row := rows[i];
      IndexSnoc(rows, i);
      PutMirrors(work, Index(rows[..i]), row);
      if UniqueIds(rows) {
        FreshId(rows, i);
        RowIdsSnoc(rows, i);
      }
      if row.id !in work {
        keys := keys + [row.id];
      }
      work := work[row.id := Entry(row, 0, [])];
    }
    assert rows[..|rows|] == rows;
  }

  /** `calculateCategoryDepth`: a recorded depth is returned as it is; a null
      parent gives 1; a parent in the map gives its depth plus one, the depth
      written into the parent being lost with the copy of the map it lives
      in; a parent id missing from the map gives 1. The recursion follows
      parent references with no guard, so it ends only on acyclic data. */
  method CalculateCategoryDepth(category: Entry, work: map<Id, Entry>, ghost m: map<Id, Row>)
    returns (depth: nat, updated: Entry)
    requires Acyclic(m) && Mirrors(work, m) && DepthsSound(work, m)
    requires category.row.id in m && category.row == m[category.row.id]
    requires category.depth == 0 || category.depth == Depth(m, category.row.id)
    ensures depth == Depth(m, category.row.id)
    ensures updated == category.(depth := depth)
    decreases Depth(m, category.row.id)
  {
    if category.depth > 0 {
      return category.depth, category;
    }
    match category.row.parentId {
      case None =>
        depth := 1;
      case Some(p) =>
        if p in work {
          var parentDepth, _ := CalculateCategoryDepth(work[p], work, m);
          depth := parentDepth + 1;
        } else {
          depth := 1;
        }
    }
    updated := category.(depth := depth);
  }

  /** Second pass: the depth of every entry, in the map's order. */
  method ResolveDepths(work: map<Id, Entry>, keys: seq<Id>, ghost m: map<Id, Row>)
    returns (resolved: map<Id, Entry>)
    requires Acyclic(m) && Mirrors(work, m) && DepthsSound(work, m)
    requires forall id :: id in keys ==> id in work
    ensures Mirrors(resolved, m) && DepthsSound(resolved, m)
    ensures forall id :: id in resolved ==> resolved[id].children == work[id].children
    ensures forall id {:trigger resolved[id]} :: id in keys ==> resolved[id].depth == Depth(m, id)
  {
    resolved := work;
    for i := 0 to |keys|
      invariant Mirrors(resolved, m) && DepthsSound(resolved, m)
      invariant forall id :: id in resolved ==> resolved[id].children == work[id].children
      invariant forall j :: 0 <= j < i ==> resolved[keys[j]].depth == Depth(m, keys[j])
    {
      var id := keys[i];
      var _, category := CalculateCategoryDepth(resolved[id], resolved, m);
      resolved := resolved[id := category];
    }
  }

  /** Entries with their depths resolved and with the children the third
      pass gives them after reading the first `n` rows. */
  ghost predicate AttachedUpTo(work: map<Id, Entry>, rows: seq<Row>, m: map<Id, Row>, n: nat)
    requires Valid(rows, m) && n <= |rows|
  {
    && Mirrors(work, m)
    && (forall id {:trigger work[id]} :: id in work ==> work[id].depth == Depth(m, id))
    && (forall id {:trigger work[id]} :: id in work ==>
          work[id].children == RowIds(ChildRowsUpTo(rows, m, id, n)))
  }

  lemma ChildRowsSnoc(rows: seq<Row>, m: map<Id, Row>, n: nat, q: Id)
    requires Acyclic(m) && InMap(rows, m) && n < |rows|
    ensures RowIds(ChildRowsUpTo(rows, m, q, n + 1)) ==
      RowIds(ChildRowsUpTo(rows, m, q, n)) + (if IsChild(m, rows[n], q) then [rows[n].id] else [])
  {
    RowIdsAppend(ChildRowsUpTo(rows, m, q, n), if IsChild(m, rows[n], q) then [rows[n]] else []);
  }

  lemma RootRowsSnoc(rows: seq<Row>, n: nat)
    requires n < |rows|
    ensures RowIds(RootRowsUpTo(rows, n + 1)) ==
      RowIds(RootRowsUpTo(rows, n)) + (if rows[n].parentId.None? then [rows[n].id] else [])
  {
    RowIdsAppend(RootRowsUpTo(rows, n), if rows[n].parentId.None? then [rows[n]] else []);
  }

  /** A row that is not attached leaves every entry's children as they were. */
  lemma {:induction false} SkipStep(work: map<Id, Entry>, rows: seq<Row>, m: map<Id, Row>, n: nat)
    requires Valid(rows, m) && n < |rows| && AttachedUpTo(work, rows, m, n)
    requires !(rows[n].parentId.Some? && rows[n].parentId.value in work && Depth(m, rows[n].id) <= MaxDepth)
    ensures AttachedUpTo(work, rows, m, n + 1)
  {
    assert rows[n] in rows;
    forall q | q in work
      ensures work[q].children == RowIds(ChildRowsUpTo(rows, m, q, n + 1))
    {
      ChildRowsSnoc(rows, m, n, q);
    }
  }

  lemma {:induction false} AttachedChildren(work: map<Id, Entry>, rows: seq<Row>, m: map<Id, Row>, n: nat, p: Id, q: Id)
    requires Valid(rows, m) && n < |rows| && AttachedUpTo(work, rows, m, n)
    requires rows[n].parentId == Some(p) && p in work && Depth(m, rows[n].id) <= MaxDepth
    requires q in work
    ensures (if q == p then work[q].children + [rows[n].id] else work[q].children)
      == RowIds(ChildRowsUpTo(rows, m, q, n + 1))
  {
    assert rows[n] in rows;
    ChildRowsSnoc(rows, m, n, q);
  }

  /** Replacing one entry's children keeps every row and depth. */
  lemma SetChildren(work: map<Id, Entry>, m: map<Id, Row>, p: Id, kids: seq<Id>, after: map<Id, Entry>)
    requires Mirrors(work, m) && p in work && after == work[p := work[p].(children := kids)]
    ensures Mirrors(after, m)
    ensures forall q {:trigger after[q]} :: q in after ==> after[q].depth == work[q].depth
    ensures forall q {:trigger after[q]} :: q in after ==> after[q].children == if q == p then kids else work[q].children
  {
    assert after.Keys == work.Keys;
  }

  /** Attaching a row to its parent `p` extends `p`'s children only. */
  lemma {:induction false} AttachStep(work: map<Id, Entry>, rows: seq<Row>, m: map<Id, Row>, n: nat, p: Id,
                                      after: map<Id, Entry>)
    requires Valid(rows, m) && n < |rows| && AttachedUpTo(work, rows, m, n)
    requires rows[n].parentId == Some(p) && p in work && Depth(m, rows[n].id) <= MaxDepth
    requires after == work[p := work[p].(children := work[p].children + [rows[n].id])]
    ensures AttachedUpTo(after, rows, m, n + 1)
  {
    SetChildren(work, m, p, work[p].children + [rows[n].id], after);
    ChildrenAfterAttach(work, rows, m, n, p, after);
  }

  lemma {:induction false} ChildrenAfterAttach(work: map<Id, Entry>, rows: seq<Row>, m: map<Id, Row>, n: nat, p: Id,
                                               after: map<Id, Entry>)
    requires Valid(rows, m) && n < |rows| && AttachedUpTo(work, rows, m, n)
    requires rows[n].parentId == Some(p) && p in work && Depth(m, rows[n].id) <= MaxDepth
    requires after == work[p := work[p].(children := work[p].children + [rows[n].id])]
    ensures forall q {:trigger after[q]} :: q in after ==>
      after[q].children == RowIds(ChildRowsUpTo(rows, m, q, n + 1))
  {
    SetChildren(work, m, p, work[p].children + [rows[n].id], after);
    forall q | q in after
      ensures after[q].children == RowIds(ChildRowsUpTo(rows, m, q, n + 1))
    {
      AttachedChildren(work, rows, m, n, p, q);
    }
  }

  /** Third pass: over a copy of the map, in order, a row with a null parent
      id is appended to the forest, and any other row is appended to its
      parent's children when the parent is in the map and the row is at
      most MaxDepth deep. */
  method AttachRows(work: map<Id, Entry>, keys: seq<Id>, ghost rows: seq<Row>, ghost m: map<Id, Row>)
    returns (linked: map<Id, Entry>, tree: seq<Id>)
    requires Valid(rows, m) && keys == RowIds(rows) && Mirrors(work, m)
    requires forall id {:trigger work[id]} :: id in work ==> work[id].depth == Depth(m, id) && work[id].children == []
    ensures AttachedUpTo(linked, rows, m, |rows|)
    ensures tree == RowIds(RootRowsOf(rows))
  {
    var mapCopy := work;
    linked, tree := work, [];
    for i := 0 to |keys|
      invariant AttachedUpTo(linked, rows, m, i)
      invariant tree == RowIds(RootRowsUpTo(rows, i))
    {
      var id := keys[i];
      var category := mapCopy[id];
      assert id == rows[i].id && rows[i] in rows;
      assert category.row == rows[i] && category.depth == Depth(m, id);
      RootRowsSnoc(rows, i);
      if category.row.parentId.None? {
        SkipStep(linked, rows, m, i);
        tree := tree + [id];
      } else if category.row.parentId.value in linked && category.depth <= MaxDepth {
        var p := category.row.parentId.value;
        var after := linked[p := linked[p].(children := linked[p].children + [id])];
        AttachStep(linked, rows, m, i, p, after);
        linked := after;
      } else {
        SkipStep(linked, rows, m, i);
      }
    }
  }

  /** Children held by id are in the map, one level deeper, within MaxDepth. */
  ghost predicate Linked(work: map<Id, Entry>) {
    forall id, j :: id in work && 0 <= j < |work[id].children| ==>
      work[id].children[j] in work &&
      work[work[id].children[j]].depth == work[id].depth + 1 <= MaxDepth
  }

  /** The tree the references reach from entry `id`. */
  function Materialise(work: map<Id, Entry>, id: Id): (c: Category)
    requires Linked(work) && id in work && work[id].depth <= MaxDepth
    ensures c.depth == work[id].depth <= MaxDepth && |c.children| == |work[id].children|
    ensures forall j :: 0 <= j < |c.children| ==> c.children[j].depth == c.depth + 1
    decreases MaxDepth - work[id].depth
  {
    var e := work[id];
    Category(e.row.id, e.row.name, e.row.parentId, e.depth, e.row.countOfCourses,
      seq(|e.children|, j requires 0 <= j < |e.children| => Materialise(work, e.children[j])))
  }

  /** The children recorded under one entry are linked. */
  lemma LinkedAt(work: map<Id, Entry>, rows: seq<Row>, m: map<Id, Row>, id: Id)
    requires Valid(rows, m) && AttachedUpTo(work, rows, m, |rows|) && id in work
    ensures forall j :: 0 <= j < |work[id].children| ==>
      work[id].children[j] in work &&
      work[work[id].children[j]].depth == work[id].depth + 1 <= MaxDepth
  {
    var kids := ChildRowsOf(rows, m, id);
    assert work[id].children == RowIds(kids);
    assert work[id].depth == Depth(m, id);
    forall j | 0 <= j < |work[id].children|
      ensures work[id].children[j] in work
      ensures work[work[id].children[j]].depth == work[id].depth + 1 <= MaxDepth
    {
      var kid := kids[j];
      assert kid in kids && work[id].children[j] == kid.id;
      assert kid in rows && IsChild(m, kid, id) && m[kid.id] == kid;
      assert kid.id in work && work[kid.id].depth == Depth(m, kid.id);
      DepthOfChild(m, kid.id);
    }
  }

  lemma AttachedIsLinked(work: map<Id, Entry>, rows: seq<Row>, m: map<Id, Row>)
    requires Valid(rows, m) && AttachedUpTo(work, rows, m, |rows|)
    ensures Linked(work)
  {
    forall id | id in work {
      LinkedAt(work, rows, m, id);
    }
  }

  /** After the third pass the references under a row form its Subtree. */
  lemma {:induction false} MaterialiseIsSubtree(work: map<Id, Entry>, rows: seq<Row>, m: map<Id, Row>, r: Row)
    requires Valid(rows, m) && AttachedUpTo(work, rows, m, |rows|) && Linked(work)
    requires r in rows && Depth(m, r.id) <= MaxDepth
    ensures Materialise(work, r.id) == Subtree(rows, m, r)
    decreases MaxDepth - Depth(m, r.id)
  {
    var kids := ChildRowsOf(rows, m, r.id);
    var c := Materialise(work, r.id);
    var s := Subtree(rows, m, r);
    assert |c.children| == |kids| == |s.children|;
    forall j | 0 <= j < |kids| ensures c.children[j] == s.children[j] {
      assert kids[j] in kids;
      DepthOfChild(m, kids[j].id);
      MaterialiseIsSubtree(work, rows, m, kids[j]);
    }
    assert c.children == s.children;
  }

  lemma SumCountsSnoc(cs: seq<Category>, c: Category)
    ensures SumCounts(cs + [c]) == SumCounts(cs) + c.countOfCourses
  {
    if cs != [] {
      assert (cs + [c])[1..] == cs[1..] + [c];
      SumCountsSnoc(cs[1..], c);
    }
  }

  /** `calculateTotalCourses`: each node's count grows by the total of its
      children, computed first; the result is the sum of the new counts. */
  method CalculateTotalCourses(categories: seq<Category>) returns (total: nat, result: seq<Category>)
    ensures result == WithTotals(categories)
    ensures total == SumCounts(result)
    decreases categories
  {
    total, result := 0, [];
    for i := 0 to |categories|
      invariant |result| == i
      invariant forall j :: 0 <= j < i ==> result[j] == WithTotal(categories[j])
      invariant total == SumCounts(result)
    {
      var category := categories[i];
      if category.children != [] {
        var childTotal, children := CalculateTotalCourses(category.children);
        assert children == seq(|category.children|,
          j requires 0 <= j < |category.children| => WithTotal(category.children[j]));
        category := category.(countOfCourses := category.countOfCourses + childTotal, children := children);
      }
      SumCountsSnoc(result, category);
      total := total + category.countOfCourses;
      result := result + [category];
    }
  }

  /** The entries the forest names are the roots, at depth 1. */
  lemma {:induction false} RootsAreTop(work: map<Id, Entry>, rows: seq<Row>, m: map<Id, Row>, roots: seq<Id>)
    requires Valid(rows, m) && AttachedUpTo(work, rows, m, |rows|)
    requires roots == RowIds(RootRowsOf(rows))
    ensures forall i :: 0 <= i < |roots| ==> roots[i] in work && work[roots[i]].depth == 1
  {
    var rootRows := RootRowsOf(rows);
    forall i | 0 <= i < |roots| ensures roots[i] in work && work[roots[i]].depth == 1 {
      var r := rootRows[i];
      assert r in rootRows;
      assert r in rows && r.parentId.None? && roots[i] == r.id;
      assert m[r.id] == r;
      DepthOfRoot(m, r.id);
    }
  }

  /** Reading the references back from the roots gives the assembled forest. */
  lemma {:induction false} MaterialisedForest(work: map<Id, Entry>, rows: seq<Row>, m: map<Id, Row>,
                                              roots: seq<Id>, forest: seq<Category>)
    requires Valid(rows, m) && AttachedUpTo(work, rows, m, |rows|) && Linked(work)
    requires roots == RowIds(RootRowsOf(rows))
    requires forall i :: 0 <= i < |roots| ==> roots[i] in work && work[roots[i]].depth == 1
    requires |forest| == |roots|
    requires forall i :: 0 <= i < |roots| ==> forest[i] == Materialise(work, roots[i])
    ensures forest == Assemble(rows, m)
  {
    var rootRows := RootRowsOf(rows);
    var assembled := Assemble(rows, m);
    assert |assembled| == |forest|;
    forall i | 0 <= i < |roots| ensures forest[i] == assembled[i] {
      var r := rootRows[i];
      assert r in rootRows && roots[i] == r.id;
      assert r in rows && m[r.id] == r;
      DepthOfRoot(m, r.id);
      MaterialiseIsSubtree(work, rows, m, r);
    }
  }

  /** `getAllCategories` after the query: the four passes yield the Forest. */
  method GetAllCategories(rows: seq<Row>) returns (tree: seq<Category>)
    requires WellFormed(rows)
    ensures tree == Forest(rows)
  {
    ghost var m := Index(rows);
    IndexIsIndexOf(rows);
    var work, keys := InitialiseMap(rows);
    work := ResolveDepths(work, keys, m);
    var roots;
    work, roots := AttachRows(work, keys, rows, m);
    AttachedIsLinked(work, rows, m);
    RootsAreTop(work, rows, m, roots);
    var forest := seq(|roots|, i requires 0 <= i < |roots| => Materialise(work, roots[i]));
    MaterialisedForest(work, rows, m, roots, forest);
    var _, totals := CalculateTotalCourses(forest);
    tree := totals;
  }

  /** `createCategory` refuses a missing or empty name before any insert. */
  function CheckNewCategory(data: map<string, JsonValue>): (r: Outcome)
    ensures r.Pass? <==> !EmptyField(data, "name")
    ensures r.Fail? ==> r.failure == Failure("Category name is required", 0)
  {
    if EmptyField(data, "name") then Fail(Failure("Category name is required", 0)) else Pass
  }

  /** `updateCategory` checks the name first and only then that the category
      exists (`found` stands for the lookup by id). */
  function CheckCategoryUpdate(data: map<string, JsonValue>, found: bool): (r: Outcome)
    ensures r.Pass? <==> !EmptyField(data, "name") && found
    ensures EmptyField(data, "name") ==> r == Fail(Failure("Category name is required", 0))
    ensures !EmptyField(data, "name") && !found ==> r == Fail(Failure("Category not found", 0))
  {
    match CheckNewCategory(data)
    case Fail(f) => Fail(f)
    case Pass => if found then Pass else Fail(Failure("Category not found", 0))
  }
}
