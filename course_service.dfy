/** The course listing of `CourseService::getCourses`: the recursive
    category expansion, the choice of filter, the join against the
    categories table and the ordering by name; plus the checks
    `createCourse` makes before inserting. */
module CourseService {
  import opened PhpValues

  type Id = nat

  /** The columns of the `categories` table that the listing reads. */
  datatype CategoryRecord = CategoryRecord(name: string, parentId: Option<Id>)

  /** The `categories` table keyed by id. */
  type Table = map<Id, CategoryRecord>

  /** A row of the `courses` table; `category_id` is required. */
  datatype Course = Course(id: nat, name: string, description: Option<string>, categoryId: Id)

  /** A listed course: its columns and `main_category_name` from the join. */
  datatype CourseView = CourseView(course: Course, mainCategoryName: string)

  // ---------------------------------------------------------------------
  // The recursive expansion `category_tree`

  /** The rows whose parent id names a member of `s`: one step of the
      recursive member of the common table expression. */
  function ChildrenOf(table: Table, s: set<Id>): (c: set<Id>)
    ensures forall x :: x in c <==> x in table && table[x].parentId.Some? && table[x].parentId.value in s
  {
    set x | x in table && table[x].parentId.Some? && table[x].parentId.value in s
  }

  lemma {:induction false} SubsetSize(a: set<Id>, b: set<Id>)
    requires a <= b
    ensures |a| <= |b|
    decreases b
  {
    if a != {} {
      var x :| x in a;
      SubsetSize(a - {x}, b - {x});
    }
  }

  lemma {:induction false} ProperSubsetSmaller(a: set<Id>, b: set<Id>)
    requires a <= b && a != b
    ensures |a| < |b|
  {
    var x :| x in b && x !in a;
    assert a <= b - {x};
    SubsetSize(a, b - {x});
  }

  /** The recursive member applied until it adds no new id. */
  function Close(table: Table, s: set<Id>): (r: set<Id>)
    requires s <= table.Keys
    ensures s <= r <= table.Keys
    decreases |table.Keys - s|
  {
    var next := s + ChildrenOf(table, s);
    if next == s then s
    else
      ProperSubsetSmaller(table.Keys - next, table.Keys - s);
      Close(table, next)
  }

  /** `s` holds every row whose parent is in `s`. */
  ghost predicate Closed(table: Table, s: set<Id>) {
    forall x :: x in table && table[x].parentId.Some? && table[x].parentId.value in s ==> x in s
  }

  lemma {:induction false} CloseIsClosed(table: Table, s: set<Id>)
    requires s <= table.Keys
    ensures Closed(table, Close(table, s))
    decreases |table.Keys - s|
  {
    var next := s + ChildrenOf(table, s);
    if next != s {
      ProperSubsetSmaller(table.Keys - next, table.Keys - s);
      CloseIsClosed(table, next);
    }
  }

  /** Nothing outside a closed superset of `s` is ever added. */
  lemma {:induction false} CloseIsLeast(table: Table, s: set<Id>, t: set<Id>)
    requires s <= table.Keys && s <= t && Closed(table, t)
    ensures Close(table, s) <= t
    decreases |table.Keys - s|
  {
    var next := s + ChildrenOf(table, s);
    if next != s {
      ProperSubsetSmaller(table.Keys - next, table.Keys - s);
      CloseIsLeast(table, next, t);
    }
  }

  /** The ids `category_tree` yields for `cid`: the anchor selects the row
      with that id, if any, and the recursive member adds its children
      until nothing new appears. */
  function Expansion(table: Table, cid: Id): (ids: set<Id>)
    ensures ids <= table.Keys
    ensures cid in ids <==> cid in table
    ensures ids == {} <==> cid !in table
  {
    if cid in table then Close(table, {cid}) else {}
  }

  /** A chain of rows, each the child of the one before. */
  ghost predicate IsChain(table: Table, path: seq<Id>) {
    && |path| > 0
    && (forall i :: 0 <= i < |path| ==> path[i] in table)
    && (forall i :: 0 < i < |path| ==> table[path[i]].parentId == Some(path[i - 1]))
  }

  /** `x` is `cid` or a descendant of it along parent references. */
  ghost predicate Reaches(table: Table, cid: Id, x: Id) {
    exists path :: IsChain(table, path) && path[0] == cid && path[|path| - 1] == x
  }

  lemma {:induction false} ChainStaysInside(table: Table, path: seq<Id>, t: set<Id>)
    requires IsChain(table, path) && path[0] in t && Closed(table, t)
    ensures path[|path| - 1] in t
    decreases |path|
  {
    if |path| > 1 {
      var init := path[..|path| - 1];
      assert IsChain(table, init);
      ChainStaysInside(table, init, t);
      assert table[path[|path| - 1]].parentId == Some(init[|init| - 1]);
    }
  }

  /** The expansion holds exactly the requested row and its descendants. */
  lemma ExpansionIsReachable(table: Table, cid: Id, x: Id)
    ensures x in Expansion(table, cid) <==> Reaches(table, cid, x)
  {
    if x in Expansion(table, cid) {
      var reach := set y | y in table && Reaches(table, cid, y);
      assert IsChain(table, [cid]);
      assert cid in reach;
      forall y | y in table && table[y].parentId.Some? && table[y].parentId.value in reach
        ensures y in reach
      {
        var p := table[y].parentId.value;
        var path :| IsChain(table, path) && path[0] == cid && path[|path| - 1] == p;
        var longer := path + [y];
        assert IsChain(table, longer);
        assert longer[0] == cid && longer[|longer| - 1] == y;
      }
      CloseIsLeast(table, {cid}, reach);
    }
    if Reaches(table, cid, x) {
      var path :| IsChain(table, path) && path[0] == cid && path[|path| - 1] == x;
      CloseIsClosed(table, {cid});
      ChainStaysInside(table, path, Expansion(table, cid));
    }
  }

  /** A child of a member of the expansion is a member. */
  lemma ExpansionIsClosed(table: Table, cid: Id)
    ensures Closed(table, Expansion(table, cid))
  {
    if cid in table {
      CloseIsClosed(table, {cid});
    }
  }

  // ---------------------------------------------------------------------
  // The `category_id` query parameter

  function DigitValue(c: char): nat
    requires '0' <= c <= '9'
  {
    (c as int - '0' as int) as nat
  }

  predicate AllDigits(s: string) {
    forall i :: 0 <= i < |s| ==> '0' <= s[i] <= '9'
  }

  /** The value of a string of decimal digits. */
  function DecimalValue(s: string): nat
    requires AllDigits(s)
  {
    if s == [] then 0 else DecimalValue(s[..|s| - 1]) * 10 + DigitValue(s[|s| - 1])
  }

  /** The id a `category_id` string names when compared with the integer
      `id` column: a non-empty string of decimal digits names its value,
      any other string names no row. */
  function ParseId(s: string): (r: Option<Id>)
    ensures r.Some? <==> s != [] && AllDigits(s)
  {
    if s != [] && AllDigits(s) then Some(DecimalValue(s)) else None
  }

  /** The decimal spelling of an id, as a client writes it in the URL. */
  function ShowId(n: Id): (s: string)
    ensures s != [] && AllDigits(s)
  {
    var d := ['0' + (n % 10) as char];
    if n < 10 then d else ShowId(n / 10) + d
  }

  lemma {:induction false} ShowIdParses(n: Id)
    ensures ParseId(ShowId(n)) == Some(n)
  {
    var s := ShowId(n);
    var d := '0' + (n % 10) as char;
    assert DigitValue(d) == n % 10;
    assert s[|s| - 1] == d;
    if n >= 10 {
      ShowIdParses(n / 10);
      assert s[..|s| - 1] == ShowId(n / 10);
      assert DecimalValue(s) == DecimalValue(ShowId(n / 10)) * 10 + n % 10;
    } else {
      assert s[..|s| - 1] == [];
      assert DecimalValue(s) == DecimalValue([]) * 10 + n % 10;
    }
  }

  // ---------------------------------------------------------------------
  // Choosing the filter

  datatype Filter = NoFilter | InSet(ids: set<Id>)

  /** `getCourses` expands the category only for a truthy parameter, and
      filters only when the expansion is not empty. */
  function SelectFilter(table: Table, param: Option<string>): (f: Filter)
    ensures f.InSet? ==> f.ids != {}
    ensures f.InSet? <==>
      param.Some? && TruthyString(param.value) &&
      ParseId(param.value).Some? && ParseId(param.value).value in table
    ensures f.InSet? ==> f.ids == Expansion(table, ParseId(param.value).value)
  {
    if param.None? || !TruthyString(param.value) then NoFilter
    else
      var ids := match ParseId(param.value)
        case None => {}
        case Some(cid) => Expansion(table, cid);
      if ids == {} then NoFilter else InSet(ids)
  }

  // ---------------------------------------------------------------------
  // The listing query

  /** `JOIN categories cat ON c.category_id = cat.id`: courses whose category
      row exists, with that row's name, in the order given. */
  function Joined(table: Table, courses: seq<Course>): (vs: seq<CourseView>)
    ensures forall v :: v in vs <==>
      v.course in courses && v.course.categoryId in table &&
      v.mainCategoryName == table[v.course.categoryId].name
  {
    if courses == [] then []
    else
      var c := courses[0];
      var rest := Joined(table, courses[1..]);
      assert forall d :: d in courses <==> d == c || d in courses[1..];
      if c.categoryId in table then [CourseView(c, table[c.categoryId].name)] + rest else rest
  }

  predicate Admits(f: Filter, v: CourseView) {
    f.NoFilter? || v.course.categoryId in f.ids
  }

  /** `WHERE c.category_id IN (...)` when there is a filter. */
  function Where(f: Filter, vs: seq<CourseView>): (ws: seq<CourseView>)
    ensures forall v :: v in ws <==> v in vs && Admits(f, v)
    ensures f.NoFilter? ==> ws == vs
  {
    if vs == [] then []
    else
      var rest := Where(f, vs[1..]);
      assert forall w :: w in vs <==> w == vs[0] || w in vs[1..];
      if Admits(f, vs[0]) then [vs[0]] + rest else rest
  }

  /** Code-point order on names, the order of a binary collation. */
  predicate NameLe(a: string, b: string) {
    a == [] || (b != [] && (a[0] < b[0] || (a[0] == b[0] && NameLe(a[1..], b[1..]))))
  }

  lemma {:induction false} NameLeTotal(a: string, b: string)
    ensures NameLe(a, b) || NameLe(b, a)
  {
    if a != [] && b != [] && a[0] == b[0] {
      NameLeTotal(a[1..], b[1..]);
    }
  }

  lemma {:induction false} NameLeTransitive(a: string, b: string, c: string)
    requires NameLe(a, b) && NameLe(b, c)
    ensures NameLe(a, c)
  {
    if a != [] && a[0] == b[0] && b[0] == c[0] {
      NameLeTransitive(a[1..], b[1..], c[1..]);
    }
  }

  ghost predicate SortedByName(vs: seq<CourseView>) {
    forall i, j :: 0 <= i < j < |vs| ==> NameLe(vs[i].course.name, vs[j].course.name)
  }

  /** `v` placed before the first entry it does not follow. */
  function Insert(v: CourseView, vs: seq<CourseView>): (r: seq<CourseView>)
    requires SortedByName(vs)
    ensures SortedByName(r)
    ensures multiset(r) == multiset(vs) + multiset{v}
  {
    if vs == [] then [v]
    else if NameLe(v.course.name, vs[0].course.name) then
      InsertFirst(v, vs);
      [v] + vs
    else
      var rest := Insert(v, vs[1..]);
      InsertLater(v, vs, rest);
      assert vs == [vs[0]] + vs[1..];
      [vs[0]] + rest
  }

  lemma InsertFirst(v: CourseView, vs: seq<CourseView>)
    requires SortedByName(vs) && vs != [] && NameLe(v.course.name, vs[0].course.name)
    ensures SortedByName([v] + vs)
  {
    var r := [v] + vs;
    forall i, j | 0 <= i < j < |r| ensures NameLe(r[i].course.name, r[j].course.name) {
      if i == 0 && j > 1 {
        NameLeTransitive(v.course.name, vs[0].course.name, vs[j - 1].course.name);
      }
    }
  }

  lemma InsertLater(v: CourseView, vs: seq<CourseView>, rest: seq<CourseView>)
    requires SortedByName(vs) && vs != [] && !NameLe(v.course.name, vs[0].course.name)
    requires SortedByName(rest) && multiset(rest) == multiset(vs[1..]) + multiset{v}
    ensures SortedByName([vs[0]] + rest)
  {
    var r := [vs[0]] + rest;
    NameLeTotal(v.course.name, vs[0].course.name);
    forall i, j | 0 <= i < j < |r| ensures NameLe(r[i].course.name, r[j].course.name) {
      if i == 0 {
        var w := rest[j - 1];
        assert w in multiset(rest);
        if w != v {
          assert w in multiset(vs[1..]);
          var k :| 0 <= k < |vs[1..]| && vs[1..][k] == w;
          assert vs[k + 1] == w;
        }
      }
    }
  }

  /** `ORDER BY c.name`. */
  function SortByName(vs: seq<CourseView>): (r: seq<CourseView>)
    ensures SortedByName(r)
    ensures multiset(r) == multiset(vs)
  {
    if vs == [] then []
    else
      assert vs == [vs[0]] + vs[1..];
      Insert(vs[0], SortByName(vs[1..]))
  }

  /** `getCourses` on the tables: choose the filter, join, filter, order. */
  function GetCourses(table: Table, courses: seq<Course>, param: Option<string>): (r: seq<CourseView>)
    ensures SortedByName(r)
    ensures multiset(r) == multiset(Where(SelectFilter(table, param), Joined(table, courses)))
  {
    SortByName(Where(SelectFilter(table, param), Joined(table, courses)))
  }

  /** A listed course is one whose category row exists, carrying that row's
      name, and that the chosen filter admits. */
  lemma GetCoursesMembers(table: Table, courses: seq<Course>, param: Option<string>, v: CourseView)
    ensures v in GetCourses(table, courses, param) <==>
      v.course in courses && v.course.categoryId in table &&
      v.mainCategoryName == table[v.course.categoryId].name &&
      Admits(SelectFilter(table, param), v)
  {
    var r := GetCourses(table, courses, param);
    var ws := Where(SelectFilter(table, param), Joined(table, courses));
    assert v in r <==> v in multiset(r);
    assert v in ws <==> v in multiset(ws);
  }

  /** A missing or falsy `category_id` lists every course whose category
      row exists, each as often as the courses table holds it. */
  lemma NoParamListsAll(table: Table, courses: seq<Course>, param: Option<string>)
    requires param.None? || !TruthyString(param.value)
    ensures multiset(GetCourses(table, courses, param)) == multiset(Joined(table, courses))
  {
  }

  /** An id that names no category leaves the listing unfiltered, not empty. */
  lemma UnknownCategoryListsAll(table: Table, courses: seq<Course>, param: Option<string>)
    requires param.Some? && TruthyString(param.value)
    requires ParseId(param.value).None? || ParseId(param.value).value !in table
    ensures multiset(GetCourses(table, courses, param)) == multiset(Joined(table, courses))
  {
  }

  /** With a known category other than 0, a course is listed exactly when
      its category is that category or one of its descendants. */
  lemma KnownCategoryListsDescendants(table: Table, courses: seq<Course>, cid: Id, v: CourseView)
    requires cid in table && cid != 0
    ensures v in GetCourses(table, courses, Some(ShowId(cid))) <==>
      v.course in courses && v.course.categoryId in table &&
      v.mainCategoryName == table[v.course.categoryId].name &&
      Reaches(table, cid, v.course.categoryId)
  {
    ShowIdParses(cid);
    assert ParseId("0") == Some(0) by {
      assert DecimalValue("0") == DecimalValue("") * 10 + DigitValue('0');
    }
    GetCoursesMembers(table, courses, Some(ShowId(cid)), v);
    ExpansionIsReachable(table, cid, v.course.categoryId);
  }

  /** Category id 0 is spelt "0", which PHP treats as false: no filter. */
  lemma CategoryZeroListsAll(table: Table, courses: seq<Course>)
    ensures multiset(GetCourses(table, courses, Some(ShowId(0)))) == multiset(Joined(table, courses))
  {
    assert ShowId(0) == "0";
  }

  // ---------------------------------------------------------------------
  // Validation in `createCourse`

  /** The name is checked first, then the category id; both through
      `empty(...)`, so "0" and 0 are refused like a missing value. */
  function CheckNewCourse(data: map<string, JsonValue>): (r: Outcome)
    ensures r.Pass? <==> !EmptyField(data, "name") && !EmptyField(data, "category_id")
    ensures EmptyField(data, "name") ==> r == Fail(Failure("Course name is required", 0))
    ensures !EmptyField(data, "name") && EmptyField(data, "category_id") ==>
      r == Fail(Failure("Category ID is required", 0))
  {
    if EmptyField(data, "name") then Fail(Failure("Course name is required", 0))
    else if EmptyField(data, "category_id") then Fail(Failure("Category ID is required", 0))
    else Pass
  }
}
