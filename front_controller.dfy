/** The front controller `api/index.php`: the request path is trimmed of
    slashes and split into segments, a leading `api` segment is shifted
    off, the controller and the id are read from what remains, the router
    is called, and an exception's code becomes the response status. */
module FrontController {
  import opened PhpValues
  import opened Router
  import CategoryService
  import CourseService

  // ---------------------------------------------------------------------
  // `trim($path, '/')`

  function TrimLeft(s: string): (r: string)
    ensures r == [] || r[0] != '/'
    ensures |r| <= |s|
  {
    if s != [] && s[0] == '/' then TrimLeft(s[1..]) else s
  }

  function TrimRight(s: string): (r: string)
    ensures r == [] || r[|r| - 1] != '/'
    ensures |r| <= |s| && r == s[..|r|]
  {
    if s != [] && s[|s| - 1] == '/' then TrimRight(s[..|s| - 1]) else s
  }

  /** Every leading and every trailing slash removed. */
  function TrimSlashes(s: string): (r: string)
    ensures r == [] || (r[0] != '/' && r[|r| - 1] != '/')
  {
    var l := TrimLeft(s);
    var r := TrimRight(l);
    assert r != [] ==> r[0] == l[0];
    r
  }

  function Slashes(n: nat): (s: string)
    ensures |s| == n && forall i :: 0 <= i < n ==> s[i] == '/'
  {
    if n == 0 then "" else "/" + Slashes(n - 1)
  }

  lemma {:induction false} TrimLeftWrapped(k: nat, t: string)
    requires t == [] || t[0] != '/'
    ensures TrimLeft(Slashes(k) + t) == t
  {
    if k > 0 {
      assert (Slashes(k) + t)[1..] == Slashes(k - 1) + t;
      TrimLeftWrapped(k - 1, t);
    }
  }

  lemma {:induction false} TrimRightWrapped(t: string, k: nat)
    requires t == [] || t[|t| - 1] != '/'
    ensures TrimRight(t + Slashes(k)) == t
  {
    if k > 0 {
      assert Slashes(k) == Slashes(k - 1) + "/" by {
        assert Slashes(k)[..k - 1] == Slashes(k - 1);
      }
      assert (t + Slashes(k))[..|t| + k - 1] == t + Slashes(k - 1);
      TrimRightWrapped(t, k - 1);
    }
  }

  /** Trimming removes exactly the slashes around a middle that neither
      starts nor ends with one. */
  lemma {:induction false} TrimSlashesWrapped(k: nat, mid: string, j: nat)
    requires mid == [] || (mid[0] != '/' && mid[|mid| - 1] != '/')
    ensures TrimSlashes(Slashes(k) + mid + Slashes(j)) == mid
  {
    var x := Slashes(k) + mid + Slashes(j);
    if mid == [] {
      assert x == Slashes(k + j) + "";
      TrimLeftWrapped(k + j, "");
      assert TrimLeft(x) == "";
    } else {
      assert x == Slashes(k) + (mid + Slashes(j));
      assert (mid + Slashes(j))[0] == mid[0];
      TrimLeftWrapped(k, mid + Slashes(j));
      TrimRightWrapped(mid, j);
    }
  }

  // ---------------------------------------------------------------------
  // `explode('/', ...)` and its inverse `implode('/', ...)`

  /** The segments between slashes; never empty, "" giving [""]. */
  function Split(s: string): (parts: seq<string>)
    ensures |parts| >= 1
    ensures forall i :: 0 <= i < |parts| ==> '/' !in parts[i]
  {
    if s == [] then [""]
    else
      var rest := Split(s[1..]);
      if s[0] == '/' then [""] + rest
      else
        assert '/' !in rest[0];
        [[s[0]] + rest[0]] + rest[1..]
  }

  function Join(parts: seq<string>): string
    requires |parts| >= 1
  {
    if |parts| == 1 then parts[0] else parts[0] + "/" + Join(parts[1..])
  }

  /** Joining the segments with slashes gives back the string. */
  lemma {:induction false} JoinSplit(s: string)
    ensures Join(Split(s)) == s
  {
    if s != [] {
      var rest := Split(s[1..]);
      JoinSplit(s[1..]);
      if s[0] == '/' {
        assert [""] + rest == [""] + rest;
        assert ([""] + rest)[1..] == rest;
      } else {
        var parts := [[s[0]] + rest[0]] + rest[1..];
        assert parts[1..] == rest[1..];
        assert s == [s[0]] + s[1..];
      }
    }
  }

  lemma {:induction false} SplitSlashFree(p: string, t: string)
    requires '/' !in p
    ensures Split(p + t) == [p + Split(t)[0]] + Split(t)[1..]
  {
    if p != [] {
      assert (p + t)[0] == p[0] && (p + t)[1..] == p[1..] + t;
      SplitSlashFree(p[1..], t);
      var rest := Split(p[1..] + t);
      assert Split(p + t) == [[p[0]] + rest[0]] + rest[1..];
      assert rest[0] == p[1..] + Split(t)[0] && rest[1..] == Split(t)[1..];
      assert [p[0]] + (p[1..] + Split(t)[0]) == p + Split(t)[0];
    } else {
      assert p + t == t;
      assert p + Split(t)[0] == Split(t)[0];
      assert Split(t) == [Split(t)[0]] + Split(t)[1..];
    }
  }

  /** Splitting slash-free segments joined with slashes gives them back. */
  lemma {:induction false} SplitJoin(parts: seq<string>)
    requires |parts| >= 1 && forall i :: 0 <= i < |parts| ==> '/' !in parts[i]
    ensures Split(Join(parts)) == parts
  {
    if |parts| == 1 {
      SplitSlashFree(parts[0], "");
      assert Split("") == [""];
      assert parts[0] + "" == parts[0];
      assert Split(parts[0]) == [parts[0]];
    } else {
      var tail := Join(parts[1..]);
      SplitJoin(parts[1..]);
      assert ("/" + tail)[1..] == tail;
      assert Split("/" + tail) == [""] + parts[1..];
      SplitSlashFree(parts[0], "/" + tail);
      assert Join(parts) == parts[0] + ("/" + tail);
      assert Split("/" + tail)[0] == "" && Split("/" + tail)[1..] == parts[1..];
      assert parts[0] + "" == parts[0];
      assert parts == [parts[0]] + parts[1..];
    }
  }

  // ---------------------------------------------------------------------
  // Controller and id

  /** The segments of a request path. */
  function Segments(path: string): (segs: seq<string>)
    ensures |segs| >= 1
  {
    Split(TrimSlashes(path))
  }

  /** The controller and the id a path addresses: after an optional first
      segment "api", the next segment names the controller ("" when there
      is none) and the one after it is the id when it is PHP-truthy. */
  function Address(path: string): (r: (string, Option<string>))
    ensures '/' !in r.0
    ensures r.1.Some? ==> TruthyString(r.1.value) && '/' !in r.1.value
  {
    var segs := Segments(path);
    var k := if segs[0] == "api" then 1 else 0;
    (if k < |segs| then segs[k] else "",
     if k + 1 < |segs| && TruthyString(segs[k + 1]) then Some(segs[k + 1]) else None)
  }

  /** Lines 21-35 of the script, with `$uriParts` shifted in place. */
  method ParseRequestPath(path: string) returns (controller: string, id: Option<string>)
    ensures (controller, id) == Address(path)
  {
    var uriParts := Split(TrimSlashes(path));
    if |uriParts| > 0 && uriParts[0] == "api" {
      uriParts := uriParts[1..];
    }
    controller := if |uriParts| > 0 then uriParts[0] else "";
    id := if |uriParts| > 1 && TruthyString(uriParts[1]) then Some(uriParts[1]) else None;
  }

  /** The path a client writes for a controller and an optional id. */
  function RequestPath(controller: string, id: Option<string>): string {
    "/api/" + controller + (if id.Some? then "/" + id.value else "")
  }

  lemma JoinFirst(parts: seq<string>)
    requires |parts| >= 1 && parts[0] != ""
    ensures Join(parts) != [] && Join(parts)[0] == parts[0][0]
  {
  }

  lemma {:induction false} JoinLast(parts: seq<string>)
    requires |parts| >= 1 && parts[|parts| - 1] != ""
    ensures Join(parts) != []
    ensures Join(parts)[|Join(parts)| - 1] == parts[|parts| - 1][|parts[|parts| - 1]| - 1]
  {
    if |parts| > 1 {
      JoinLast(parts[1..]);
    }
  }

  /** A path made of one slash, slash-free segments joined by slashes, and
      any trailing slashes splits back into those segments. */
  lemma SegmentsOfJoin(parts: seq<string>, trailing: nat)
    requires |parts| >= 1 && forall i :: 0 <= i < |parts| ==> '/' !in parts[i]
    requires parts[0] != "" && parts[|parts| - 1] != ""
    ensures Segments("/" + Join(parts) + Slashes(trailing)) == parts
  {
    var mid := Join(parts);
    JoinFirst(parts);
    JoinLast(parts);
    assert parts[0][0] in parts[0];
    var last := parts[|parts| - 1];
    assert last[|last| - 1] in last;
    assert "/" + mid + Slashes(trailing) == Slashes(1) + mid + Slashes(trailing);
    TrimSlashesWrapped(1, mid, trailing);
    SplitJoin(parts);
  }

  predicate IsSegment(s: string) {
    s != "" && '/' !in s
  }

  /** Joining a segment in front of at least one other puts a slash between. */
  lemma JoinCons(x: string, rest: seq<string>)
    requires |rest| >= 1
    ensures Join([x] + rest) == x + "/" + Join(rest)
  {
    assert ([x] + rest)[1..] == rest;
  }

  /** The segments of the path a client writes for a controller and an id. */
  function RequestSegments(controller: string, id: Option<string>): seq<string> {
    ["api", controller] + (if id.Some? then [id.value] else [])
  }

  lemma RequestPathIsJoin(controller: string, id: Option<string>)
    ensures RequestPath(controller, id) == "/" + Join(RequestSegments(controller, id))
  {
    assert "/api/" == "/" + "api" + "/";
    if id.Some? {
      JoinCons(controller, [id.value]);
      assert RequestSegments(controller, id) == ["api"] + [controller, id.value];
      JoinCons("api", [controller, id.value]);
    } else {
      JoinCons("api", [controller]);
    }
  }

  /** A path built from a controller and an id addresses them again, except
      that a falsy id ("0") is not an id; trailing slashes change nothing. */
  lemma AddressOfRequestPath(controller: string, id: Option<string>, trailing: nat)
    requires IsSegment(controller) && (id.Some? ==> IsSegment(id.value))
    ensures Address(RequestPath(controller, id) + Slashes(trailing)) ==
      (controller, if id.Some? && TruthyString(id.value) then id else None)
  {
    var parts := RequestSegments(controller, id);
    RequestPathIsJoin(controller, id);
    assert '/' !in "api";
    SegmentsOfJoin(parts, trailing);
  }

  lemma {:induction false} LaterPathIsJoin(controller: string, id: string, more: seq<string>)
    requires |more| >= 1
    ensures RequestPath(controller, Some(id)) + "/" + Join(more) == "/" + Join(["api", controller, id] + more)
  {
    var parts := ["api", controller, id] + more;
    assert parts == ["api"] + ([controller] + ([id] + more));
    JoinCons(id, more);
    JoinCons(controller, [id] + more);
    JoinCons("api", [controller] + ([id] + more));
    assert "/api/" == "/" + "api" + "/";
  }

  /** Segments after the id, however many, are ignored, and so are trailing
      slashes. */
  lemma {:induction false} LaterSegmentsIgnored(controller: string, id: string, more: seq<string>, trailing: nat)
    requires IsSegment(controller) && IsSegment(id)
    requires |more| >= 1 && forall i :: 0 <= i < |more| ==> IsSegment(more[i])
    ensures Address(RequestPath(controller, Some(id)) + "/" + Join(more) + Slashes(trailing)) ==
      Address(RequestPath(controller, Some(id)))
  {
    var parts := ["api", controller, id] + more;
    var path := RequestPath(controller, Some(id)) + "/" + Join(more) + Slashes(trailing);
    LaterPathIsJoin(controller, id, more);
    assert path == "/" + Join(parts) + Slashes(trailing);
    forall i | 0 <= i < |parts|
      ensures '/' !in parts[i]
    {
      if i >= 3 {
        assert parts[i] == more[i - 3];
      }
    }
    assert parts[|parts| - 1] == more[|more| - 1];
    SegmentsOfJoin(parts, trailing);
    assert Segments(path) == parts;
    assert parts[0] == "api" && parts[1] == controller && parts[2] == id;
    AddressOfRequestPath(controller, Some(id), 0);
    assert RequestPath(controller, Some(id)) + Slashes(0) == RequestPath(controller, Some(id));
  }

  /** Only one leading "api" is removed: under `/api/api/<c>[/<id>]` the
      second "api" is the controller and `<c>` is read as the id. */
  lemma ApiShiftedOnce(controller: string, id: Option<string>, trailing: nat)
    requires IsSegment(controller) && (id.Some? ==> IsSegment(id.value))
    ensures Address("/api" + RequestPath(controller, id) + Slashes(trailing)) ==
      ("api", if TruthyString(controller) then Some(controller) else None)
  {
    var inner := RequestSegments(controller, id);
    var parts := ["api"] + inner;
    RequestPathIsJoin(controller, id);
    JoinCons("api", inner);
    assert "/api" + RequestPath(controller, id) + Slashes(trailing) ==
      "/" + Join(parts) + Slashes(trailing);
    assert '/' !in "api";
    assert forall i :: 1 <= i < |parts| ==> parts[i] == inner[i - 1];
    SegmentsOfJoin(parts, trailing);
  }

  /** An empty path, or one of slashes only, addresses no controller. */
  lemma RootPathAddressesNothing(k: nat)
    ensures Address(Slashes(k)) == ("", None)
  {
    TrimSlashesWrapped(k, "", 0);
    assert Slashes(k) + "" + Slashes(0) == Slashes(k);
  }

  // ---------------------------------------------------------------------
  // Status

  /** `$e->getCode() ?: 500`: a code of 0 becomes 500. */
  function StatusFor(code: int): (status: int)
    ensures status != 0
    ensures code != 0 ==> status == code
    ensures code == 0 ==> status == 500
  {
    if code != 0 then code else 500
  }

  /** The status of the response. `served` is how the controller call ends
      when the request is dispatched: `Pass` when it returns its array,
      `Fail` with the exception it throws (a failed check, a missing row).
      A preflight request gets 204 (set by the router), a returned array
      200, an exception the status of its code; an uncaught type error
      leaves the status to the PHP runtime, shown as None. */
  function StatusOf(r: Routed, served: Outcome): (status: Option<int>)
    ensures r.NoContent? ==> status == Some(204)
    ensures r.Dispatch? && served.Pass? ==> status == Some(200)
    ensures r.Dispatch? && served.Fail? ==> status == Some(StatusFor(served.failure.code))
    ensures r.Refused? ==> status == Some(StatusFor(r.failure.code))
    ensures status.None? <==> r.TypeFault?
  {
    match r
    case NoContent => Some(204)
    case Dispatch(_, _) =>
      (match served
       case Pass => Some(200)
       case Fail(f) => Some(StatusFor(f.code)))
    case Refused(f) => Some(StatusFor(f.code))
    case TypeFault => None
  }

  /** The router applied to what the path addresses. */
  function Serve(path: string, httpMethod: string, query: map<string, string>,
                 rawBody: string, decoded: JsonValue): (r: Routed)
    ensures r == NoContent <==> httpMethod == "OPTIONS"
    ensures r.Dispatch? ==> Some(r.controller) == ControllerNamed(Address(path).0)
  {
    Route(Address(path).0, httpMethod, query, Address(path).1, rawBody, decoded)
  }

  /** The whole script: parse the path, route, choose the status from the
      routing outcome and from how the controller call ends. */
  method HandleRequest(path: string, httpMethod: string, query: map<string, string>,
                       rawBody: string, decoded: JsonValue, served: Outcome)
    returns (routed: Routed, status: Option<int>)
    ensures routed == Serve(path, httpMethod, query, rawBody, decoded)
    ensures status == StatusOf(routed, served)
  {
    var controller, id := ParseRequestPath(path);
    routed := Route(controller, httpMethod, query, id, rawBody, decoded);
    status := StatusOf(routed, served);
  }

  /** A preflight request gets 204 whatever its path. */
  lemma PreflightIs204(path: string, query: map<string, string>, rawBody: string, decoded: JsonValue,
                       served: Outcome)
    ensures StatusOf(Serve(path, "OPTIONS", query, rawBody, decoded), served) == Some(204)
  {
  }

  /** PUT or DELETE on `/api/<controller>/0` is refused with 400: "0" is
      not an id. */
  lemma IdZeroIs400(controller: string, httpMethod: string, query: map<string, string>,
                    rawBody: string, decoded: JsonValue, served: Outcome)
    requires ControllerNamed(controller).Some? && (httpMethod == "PUT" || httpMethod == "DELETE")
    ensures StatusOf(Serve(RequestPath(controller, Some("0")), httpMethod, query, rawBody, decoded), served) == Some(400)
  {
    var path := RequestPath(controller, Some("0"));
    AddressOfRequestPath(controller, Some("0"), 0);
    assert path + Slashes(0) == path;
    assert Address(path) == (controller, None);
    IdRequired(controller, httpMethod, query, None, rawBody, decoded);
  }

  /** POST to `/api/categories` or `/api/courses` with a JSON object body
      calls `create` with that object; when the service's checks refuse it,
      the exception carries no code and the request is answered with 500. */
  lemma ValidationFailuresAre500(query: map<string, string>, rawBody: string, data: map<string, JsonValue>)
    requires TruthyString(rawBody)
    ensures Serve(RequestPath("categories", None), "POST", query, rawBody, JObject(data)) ==
      Dispatch(Categories, Create(JObject(data)))
    ensures CategoryService.CheckNewCategory(data).Fail? ==>
      StatusOf(Serve(RequestPath("categories", None), "POST", query, rawBody, JObject(data)),
               CategoryService.CheckNewCategory(data)) == Some(500)
    ensures Serve(RequestPath("courses", None), "POST", query, rawBody, JObject(data)) ==
      Dispatch(Courses, Create(JObject(data)))
    ensures CourseService.CheckNewCourse(data).Fail? ==>
      StatusOf(Serve(RequestPath("courses", None), "POST", query, rawBody, JObject(data)),
               CourseService.CheckNewCourse(data)) == Some(500)
  {
    PostToCollection(Categories, "categories", query, rawBody, JObject(data));
    PostToCollection(Courses, "courses", query, rawBody, JObject(data));
  }

  /** POST to a controller's collection path calls `create` with the body. */
  lemma PostToCollection(c: Controller, name: string, query: map<string, string>, rawBody: string,
                          decoded: JsonValue)
    requires ControllerNamed(name) == Some(c) && TruthyString(rawBody) && IsArray(decoded)
    ensures Serve(RequestPath(name, None), "POST", query, rawBody, decoded) == Dispatch(c, Create(decoded))
  {
    var path := RequestPath(name, None);
    AddressOfRequestPath(name, None, 0);
    assert path + Slashes(0) == path;
    assert Address(path) == (name, None);
    PostDispatch(c, name, query, None, rawBody, decoded);
  }
}
