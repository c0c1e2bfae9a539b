/** Category rows as the listing query returns them, the id-keyed map the
    tree builder works on, and the depth of a category along its chain of
    parent references. */
module CategoryDepth {
  import opened PhpValues

  type Id = nat

  /** One row of the listing query: the category's columns and its raw
      number of directly assigned courses. */
  datatype Row = Row(id: Id, name: string, parentId: Option<Id>, countOfCourses: nat)

  ghost predicate UniqueIds(rows: seq<Row>) {
    forall i, j :: 0 <= i < j < |rows| ==> rows[i].id != rows[j].id
  }

  /** The map `$map[$category['id']] = $category` built from the rows. */
  function Index(rows: seq<Row>): (m: map<Id, Row>)
    ensures forall r :: r in rows ==> r.id in m
    ensures forall id :: id in m ==> m[id] in rows && m[id].id == id
    ensures UniqueIds(rows) ==> forall r :: r in rows ==> m[r.id] == r
  {
    if rows == [] then map[]
    else
      var init := rows[..|rows| - 1];
      var last := rows[|rows| - 1];
      assert forall r :: r in rows ==> r in init || r == last;
      Index(init)[last.id := last]
  }

  /** `m` holds every row under its own id and nothing else. */
  ghost predicate IndexOf(rows: seq<Row>, m: map<Id, Row>) {
    && (forall r :: r in rows ==> r.id in m && m[r.id] == r)
    && (forall id :: id in m ==> m[id] in rows && m[id].id == id)
  }

  lemma IndexIsIndexOf(rows: seq<Row>)
    requires UniqueIds(rows)
    ensures IndexOf(rows, Index(rows))
  {
  }

  /** The parent of `id` when its `parent_id` names a row of the map. */
  predicate HasKnownParent(m: map<Id, Row>, id: Id)
    requires id in m
  {
    m[id].parentId.Some? && m[id].parentId.value in m
  }

  /** The depth that the recursive depth calculation reaches using at most
      `fuel` steps to a parent; None when the fuel runs out first. A null
      parent, and a parent id that is not in the map, both give depth 1. */
  function DepthWithin(m: map<Id, Row>, id: Id, fuel: nat): (r: Option<nat>)
    requires id in m
    ensures r.Some? ==> 1 <= r.value <= fuel + 1
    ensures r.Some? && r.value == 1 <==> !HasKnownParent(m, id)
    decreases fuel
  {
    if !HasKnownParent(m, id) then Some(1)
    else if fuel == 0 then None
    else
      match DepthWithin(m, m[id].parentId.value, fuel - 1)
      case None => None
      case Some(d) => Some(d + 1)
  }

  /** Every chain of parent references ends, within as many steps as there
      are rows, at a row whose parent is null or unknown; that is, the
      parent relation has no cycle. */
  ghost predicate Acyclic(m: map<Id, Row>) {
    forall id {:trigger DepthWithin(m, id, |m|)} :: id in m ==> DepthWithin(m, id, |m|).Some?
  }

  lemma {:induction false} DepthWithinMoreFuel(m: map<Id, Row>, id: Id, fuel: nat, more: nat)
    requires id in m && fuel <= more && DepthWithin(m, id, fuel).Some?
    ensures DepthWithin(m, id, more) == DepthWithin(m, id, fuel)
    decreases fuel
  {
    if HasKnownParent(m, id) {
      DepthWithinMoreFuel(m, m[id].parentId.value, fuel - 1, more - 1);
    }
  }

  /** On acyclic data the parent's chain is one step shorter than the child's. */
  lemma ParentResolvesFirst(m: map<Id, Row>, id: Id)
    requires Acyclic(m) && id in m && HasKnownParent(m, id)
    ensures DepthWithin(m, m[id].parentId.value, |m|).value + 1 == DepthWithin(m, id, |m|).value
  {
    var p := m[id].parentId.value;
    assert |m| > 0 by { assert id in m.Keys; }
    assert DepthWithin(m, id, |m|).Some?;
    assert DepthWithin(m, p, |m| - 1).Some?;
    DepthWithinMoreFuel(m, p, |m| - 1, |m|);
  }

  /** The depth `calculateCategoryDepth` computes: 1 for a null or unknown
      parent, otherwise one more than the parent's depth. */
  function Depth(m: map<Id, Row>, id: Id): (d: nat)
    requires Acyclic(m) && id in m
    ensures d >= 1
    ensures d == 1 <==> !HasKnownParent(m, id)
    decreases DepthWithin(m, id, |m|).value
  {
    if !HasKnownParent(m, id) then 1
    else
      ParentResolvesFirst(m, id);
      Depth(m, m[id].parentId.value) + 1
  }

  /** The recursion uses no more levels than the fuel-bounded one: a depth
      never exceeds the number of rows plus one. */
  lemma {:induction false} DepthIsResolvedDepth(m: map<Id, Row>, id: Id)
    requires Acyclic(m) && id in m
    ensures Depth(m, id) == DepthWithin(m, id, |m|).value
    ensures Depth(m, id) <= |m| + 1
    decreases DepthWithin(m, id, |m|).value
  {
    if HasKnownParent(m, id) {
      ParentResolvesFirst(m, id);
      DepthIsResolvedDepth(m, m[id].parentId.value);
    }
  }

  /** A row whose parent id is null has depth 1. */
  lemma DepthOfRoot(m: map<Id, Row>, id: Id)
    requires Acyclic(m) && id in m && m[id].parentId.None?
    ensures Depth(m, id) == 1
  {
  }

  /** A row whose parent id names no row of the map also has depth 1. */
  lemma DepthOfOrphan(m: map<Id, Row>, id: Id)
    requires Acyclic(m) && id in m && m[id].parentId.Some? && m[id].parentId.value !in m
    ensures Depth(m, id) == 1
  {
  }

  /** A row whose parent is in the map is one level below that parent. */
  lemma DepthOfChild(m: map<Id, Row>, id: Id)
    requires Acyclic(m) && id in m && HasKnownParent(m, id)
    ensures Depth(m, id) == Depth(m, m[id].parentId.value) + 1
  {
  }

  /** `cycle` lists rows each of whose parent id names the next, the last
      naming the first. */
  ghost predicate IsCycle(m: map<Id, Row>, cycle: seq<Id>) {
    && |cycle| > 0
    && (forall i :: 0 <= i < |cycle| ==> cycle[i] in m)
    && (forall i :: 0 <= i < |cycle| - 1 ==> m[cycle[i]].parentId == Some(cycle[i + 1]))
    && m[cycle[|cycle| - 1]].parentId == Some(cycle[0])
  }

  /** Without a cycle guard the recursion never bottoms out on a cycle: every
      row of a cycle of parent references needs more fuel than any given. */
  lemma {:induction false} CycleNeverResolves(m: map<Id, Row>, cycle: seq<Id>, fuel: nat)
    requires IsCycle(m, cycle)
    ensures forall i :: 0 <= i < |cycle| ==> DepthWithin(m, cycle[i], fuel).None?
    decreases fuel
  {
    if fuel > 0 {
      CycleNeverResolves(m, cycle, fuel - 1);
    }
    forall i | 0 <= i < |cycle|
      ensures DepthWithin(m, cycle[i], fuel).None?
    {
      var j := if i < |cycle| - 1 then i + 1 else 0;
      assert m[cycle[i]].parentId == Some(cycle[j]) && cycle[j] in m;
    }
  }

  /** Hence a map with a cycle is not Acyclic. */
  lemma CycleIsNotAcyclic(m: map<Id, Row>, cycle: seq<Id>)
    requires IsCycle(m, cycle)
    ensures !Acyclic(m)
  {
    CycleNeverResolves(m, cycle, |m|);
    assert DepthWithin(m, cycle[0], |m|).None?;
  }

  /** When the recursion runs out of fuel, the parent references it followed
      form a chain of fuel + 2 rows, each naming the next as its parent. */
  lemma {:induction false} UnresolvedChain(m: map<Id, Row>, id: Id, fuel: nat) returns (chain: seq<Id>)
    requires id in m && DepthWithin(m, id, fuel).None?
    ensures |chain| == fuel + 2 && chain[0] == id
    ensures forall i :: 0 <= i < |chain| ==> chain[i] in m
    ensures forall i :: 0 <= i < |chain| - 1 ==> m[chain[i]].parentId == Some(chain[i + 1])
    decreases fuel
  {
    var p := m[id].parentId.value;
    if fuel == 0 {
      chain := [id, p];
    } else {
      var rest := UnresolvedChain(m, p, fuel - 1);
      chain := [id] + rest;
      assert forall i :: 1 <= i < |chain| ==> chain[i] == rest[i - 1];
    }
  }

  /** A sequence longer than a set it is drawn from repeats an element. */
  lemma {:induction false} Pigeonhole(s: seq<Id>, keys: set<Id>) returns (i: nat, j: nat)
    requires forall k :: 0 <= k < |s| ==> s[k] in keys
    requires |s| > |keys|
    ensures i < j < |s| && s[i] == s[j]
    decreases |s|
  {
    if s[0] in s[1..] {
      var k :| 0 <= k < |s| - 1 && s[1..][k] == s[0];
      i, j := 0, k + 1;
    } else {
      var rest := keys - {s[0]};
      assert keys == rest + {s[0]} && s[0] !in rest;
      assert |rest| == |keys| - 1;
      forall k | 0 <= k < |s| - 1
        ensures s[1..][k] in rest
      {
        assert s[1..][k] in s[1..];
      }
      var a, b := Pigeonhole(s[1..], rest);
      i, j := a + 1, b + 1;
    }
  }

  /** A row whose depth the recursion does not reach lies above a cycle of
      parent references. */
  lemma CycleOfUnresolved(m: map<Id, Row>, id: Id) returns (cycle: seq<Id>)
    requires id in m && DepthWithin(m, id, |m|).None?
    ensures IsCycle(m, cycle)
  {
    var chain := UnresolvedChain(m, id, |m|);
    assert |m.Keys| == |m|;
    var i, j := Pigeonhole(chain, m.Keys);
    cycle := chain[i..j];
    assert forall k :: 0 <= k < |cycle| ==> cycle[k] == chain[i + k];
    assert m[chain[j - 1]].parentId == Some(chain[j]);
  }

  /** The acyclicity precondition holds exactly when no cycle of parent
      references exists: it excludes nothing but the data on which the
      recursion does not end. */
  lemma AcyclicExactlyWithoutCycles(m: map<Id, Row>)
    ensures Acyclic(m) <==> forall cycle :: !IsCycle(m, cycle)
  {
    if Acyclic(m) {
      forall cycle
        ensures !IsCycle(m, cycle)
      {
        if IsCycle(m, cycle) {
          CycleIsNotAcyclic(m, cycle);
        }
      }
    } else {
      var id :| id in m && DepthWithin(m, id, |m|).None?;
      var cycle := CycleOfUnresolved(m, id);
    }
  }

  /** `x` is `a` or lies below `a` along the chain of parent references. */
  predicate DescendsFrom(m: map<Id, Row>, x: Id, a: Id)
    requires Acyclic(m) && x in m
    decreases Depth(m, x)
  {
    x == a || (HasKnownParent(m, x) && DescendsFrom(m, m[x].parentId.value, a))
  }

  /** The top of the chain of parent references above `x`: the row of depth 1
      whose parent id is null or unknown. */
  function Top(m: map<Id, Row>, x: Id): (t: Id)
    requires Acyclic(m) && x in m
    ensures t in m && Depth(m, t) == 1 && DescendsFrom(m, x, t)
    decreases Depth(m, x)
  {
    if HasKnownParent(m, x) then Top(m, m[x].parentId.value) else x
  }

  /** An ancestor is never deeper than its descendant, and only the row
      itself is as deep. */
  lemma {:induction false} DescendantIsDeeper(m: map<Id, Row>, x: Id, a: Id)
    requires Acyclic(m) && x in m && DescendsFrom(m, x, a)
    ensures a in m && Depth(m, a) <= Depth(m, x)
    ensures Depth(m, a) == Depth(m, x) ==> a == x
    decreases Depth(m, x)
  {
    if x != a {
      DescendantIsDeeper(m, m[x].parentId.value, a);
    }
  }

  /** Whatever descends from a child of `p` descends from `p`. */
  lemma {:induction false} DescendsThroughChild(m: map<Id, Row>, x: Id, kid: Id, p: Id)
    requires Acyclic(m) && x in m && kid in m && m[kid].parentId == Some(p) && p in m
    requires DescendsFrom(m, x, kid)
    ensures DescendsFrom(m, x, p)
    decreases Depth(m, x)
  {
    if x != kid {
      DescendsThroughChild(m, m[x].parentId.value, kid, p);
    }
  }

  /** A strict descendant of `p` descends from some child of `p`. */
  lemma {:induction false} DescendsViaChild(m: map<Id, Row>, x: Id, p: Id) returns (kid: Id)
    requires Acyclic(m) && x in m && x != p && DescendsFrom(m, x, p)
    ensures kid in m && m[kid].parentId == Some(p) && p in m
    ensures DescendsFrom(m, x, kid) && Depth(m, kid) == Depth(m, p) + 1
    decreases Depth(m, x)
  {
    var q := m[x].parentId.value;
    if q == p {
      kid := x;
    } else {
      kid := DescendsViaChild(m, q, p);
    }
  }

  /** A row has at most one ancestor at each depth. */
  lemma {:induction false} OneAncestorPerDepth(m: map<Id, Row>, x: Id, a: Id, b: Id)
    requires Acyclic(m) && x in m && DescendsFrom(m, x, a) && DescendsFrom(m, x, b)
    requires a in m && b in m && Depth(m, a) == Depth(m, b)
    ensures a == b
    decreases Depth(m, x)
  {
    if x != a && x != b {
      OneAncestorPerDepth(m, m[x].parentId.value, a, b);
    } else if x == a {
      DescendantIsDeeper(m, x, b);
    } else {
      DescendantIsDeeper(m, x, a);
    }
  }

  /** The top of a chain is its only ancestor whose parent is null or unknown. */
  lemma TopIsUnique(m: map<Id, Row>, x: Id, a: Id)
    requires Acyclic(m) && x in m && DescendsFrom(m, x, a) && a in m && !HasKnownParent(m, a)
    ensures Top(m, x) == a
  {
    OneAncestorPerDepth(m, x, a, Top(m, x));
  }
}
