# Knowledge City API core, modelled in Dafny

Knowledge City is a small PHP JSON API over two tables, categories and
courses. Categories form a tree through `parent_id`. This project models
four parts of it.

- **The category listing.** `getAllCategories` and its helpers
  `calculateCategoryDepth` and `calculateTotalCourses` take the rows of the
  listing query and build the category forest. The rows come sorted by name,
  each with its raw number of courses. Four passes over an id-keyed map give
  every row a depth, attach rows under their parents up to depth 4, and
  replace every count with the total of its subtree.
- **The course listing.** `getCourses` expands a requested `category_id`
  to the category and all its descendants (a recursive CTE). It picks a
  filter from that expansion, joins each course to its category, and orders
  the result by name.
- **The router.** `Router::route` / `routeController` turn a controller name,
  an HTTP method, an id and a request body into a controller call or a coded
  exception.
- **The front controller.** `api/index.php` cuts the request path into a
  controller name and an id, and chooses the response status from the
  routing outcome and from how the controller call ends (an exception's
  code becomes the status, 0 becoming 500).

There are eight modules:

- `PhpValues`: PHP truthiness, decoded JSON values, failures.
- `CategoryDepth`: rows, the id map, depth and ancestry.
- `CategoryForest`: the forest the listing returns, defined from the rows.
- `ForestFacts`: the properties of that forest.
- `CategoryService`: the four passes as methods over a working map, proved
  to produce that forest.
- `CourseService`: the expansion, the filter, the join, the ordering and
  course validation.
- `Router`: `route` and `routeController`.
- `FrontController`: path parsing and the response status of `api/index.php`.

The working map of `getAllCategories` holds entries whose `children` are
lists of ids. These ids stand for the PHP references that the third pass
appends. The materialised tree is read back from that map through those ids.

Behaviours of the code worth noting:

- **No cycle guard.** The depth recursion has no guard against cycles.
  Acyclic parent references are therefore a precondition, and
  `CycleNeverResolves` shows what happens without one.
- **Orphans.** A row whose `parent_id` names no row gets depth 1, as the
  comment at `api/services/CategoryService.php:41` ("treat as root
  category") says. The third pass, however, never attaches it and does not
  put it among the roots, so it and everything below it are left out of the
  listing.
- **Unknown category id.** A requested `category_id` that names no category
  expands to nothing. No filter is then applied, so every course is listed,
  not none.
- **Validation errors.** They are thrown without a code, so a request whose
  controller call fails a service check is answered with status 500.

## Model

| member | source | states |
|---|---|---|
| CategoryDepth.Index | api/services/CategoryService.php:118-123 | every row is stored under its own id and nothing else is stored; with unique ids each row is found under its id |
| CategoryDepth.DepthWithin | api/services/CategoryService.php:21-44 | the depth recursion cut off after `fuel` parent steps yields a depth between 1 and fuel + 1, and yields 1 exactly when the parent id is null or names no row |
| CategoryDepth.Depth | api/services/CategoryService.php:21-44 | the computed depth is at least 1, and is 1 exactly when the parent id is null or unknown |
| CategoryDepth.DepthIsResolvedDepth | api/services/CategoryService.php:21-44 | on acyclic data the recursion ends within as many parent steps as there are rows, so a depth never exceeds the row count plus one |
| CategoryDepth.DepthOfRoot | api/services/CategoryService.php:29-32 | a null parent id gives depth 1 |
| CategoryDepth.DepthOfChild | api/services/CategoryService.php:35-39 | a parent id present in the map gives the parent's depth plus one |
| CategoryDepth.DepthOfOrphan | api/services/CategoryService.php:41-43 | a non-null parent id missing from the map gives depth 1 |
| CategoryDepth.CycleNeverResolves | api/services/CategoryService.php:21-44 | with no cycle guard, no row on a cycle of parent references reaches a depth however many steps are allowed |
| CategoryDepth.CycleIsNotAcyclic | api/services/CategoryService.php:21-44 | a map with a cycle of parent references violates the acyclicity precondition |
| CategoryDepth.AcyclicExactlyWithoutCycles | api/services/CategoryService.php:21-44 | the acyclicity precondition holds exactly when no cycle of parent references exists: a row whose recursion does not end within as many steps as there are rows lies on a chain that repeats a row |
| CategoryDepth.Top | api/services/CategoryService.php:35-43 | following parent references from a row ends at a row of depth 1 that the row descends from |
| CategoryDepth.DescendantIsDeeper | api/services/CategoryService.php:35-39 | an ancestor is strictly shallower than any other descendant |
| CategoryDepth.OneAncestorPerDepth | api/services/CategoryService.php:35-39 | a row has at most one ancestor at each depth |
| CategoryForest.ChildRowsOf | api/services/CategoryService.php:141-142 | definition: the rows whose parent id is `p` and whose depth is at most 4, in input order (its properties are ForestFacts.ForestMembers and ForestFacts.ForestOrder) |
| CategoryForest.RootRowsOf | api/services/CategoryService.php:139-140 | the roots are exactly the rows with a null parent id, in input order, each once |
| CategoryForest.WithTotal | api/services/CategoryService.php:50-56 | aggregating a node keeps its id, name, parent id, depth and number of children, and never lowers its count |
| CategoryForest.Subtree | api/services/CategoryService.php:140-142 | a row's node keeps the row's id and raw count, carries its depth, and has one child per attached row, in order, each one level deeper |
| CategoryForest.Assemble | api/services/CategoryService.php:138-144 | the assembled forest has one top-level node per null-parent row, in order, each at depth 1 |
| CategoryForest.WithTotals | api/services/CategoryService.php:46-60 | aggregating a list keeps its length and each node's id and depth |
| CategoryForest.Forest | api/services/CategoryService.php:95-150 | the listing has one top-level node per null-parent row, in input order, each at depth 1 |
| CategoryForest.SubtreeIds | api/services/CategoryService.php:138-144 | the ids under a row are exactly that row and its descendants at most 4 deep, each once |
| ForestFacts.WithTotalsIds | api/services/CategoryService.php:46-60 | aggregation changes no node's position: the forest holds the same ids in the same order |
| ForestFacts.ForestMembers | api/services/CategoryService.php:138-144 | a row appears in the listing exactly when it is at most 4 deep and the top of its ancestor chain has a null parent id |
| ForestFacts.ForestDistinct | api/services/CategoryService.php:138-144 | no row appears twice in the listing |
| ForestFacts.OrphanBranchAbsent | api/services/CategoryService.php:138-144 | a row whose parent id names no row is absent from the listing, and so is every row below it |
| ForestFacts.DeepRowAbsent | api/services/CategoryService.php:141 | a row deeper than 4 is absent from the listing |
| ForestFacts.ForestRoots | api/services/CategoryService.php:139-140 | the top-level nodes are the null-parent rows, in input order |
| ForestFacts.ForestShape | api/services/CategoryService.php:118-123 | every node keeps its row's id, name and parent id and carries its computed depth, at most 4; each child names its node as parent and is one level deeper |
| ForestFacts.SumCountsOfTotals | api/services/CategoryService.php:48-59 | the total returned for a list of aggregated nodes is the sum of the raw counts of every row in those trees |
| ForestFacts.WithTotalTotalled | api/services/CategoryService.php:50-56 | after aggregation every node's count is the sum of the raw counts in its subtree |
| ForestFacts.ForestCounts | api/services/CategoryService.php:46-60 | in the listing, every node's count is the sum of the raw counts of the rows in its subtree, so rows left out contribute nothing |
| ForestFacts.ForestOrder | api/services/CategoryService.php:107-108 | when the rows arrive in an order, the top-level list and every children list follow that order |
| CategoryService.InitialiseMap | api/services/CategoryService.php:118-123 | the first pass maps every id to its row with depth 0 and no children, and lists the ids in row order |
| CategoryService.CalculateCategoryDepth | api/services/CategoryService.php:21-44 | the depth returned and written into the entry is the row's depth; a depth already recorded is returned unchanged |
| CategoryService.ResolveDepths | api/services/CategoryService.php:126-128 | after the second pass every entry holds its depth, and rows and children are untouched |
| CategoryService.AttachStep | api/services/CategoryService.php:141-142 | appending a row under its parent keeps each entry's children equal to the attached rows read so far |
| CategoryService.AttachRows | api/services/CategoryService.php:138-144 | after the third pass each entry's children are the ids of its attached rows in input order, and the tree lists the null-parent rows in input order |
| CategoryService.AttachedIsLinked | api/services/CategoryService.php:140-142 | every child id names an entry one level deeper, at most 4 deep, so reading the references back ends |
| CategoryService.Materialise | api/services/CategoryService.php:140-142 | reading the references back from an entry gives a node at the entry's depth, at most 4, with one child per child id, each one level deeper |
| CategoryService.MaterialiseIsSubtree | api/services/CategoryService.php:140-142 | reading the references back from a row gives the subtree the forest defines for that row |
| CategoryService.CalculateTotalCourses | api/services/CategoryService.php:46-60 | each node's count grows by the totals of its children, computed first, and the result is the sum of the new counts |
| CategoryService.GetAllCategories | api/services/CategoryService.php:95-150 | the four passes return exactly the forest defined from the rows |
| CategoryService.CheckNewCategory | api/services/CategoryService.php:64-66 | definition of the check: refused exactly when the name is missing or PHP-empty, with "Category name is required" and code 0 (used by FrontController.ValidationFailuresAre500) |
| CategoryService.CheckCategoryUpdate | api/services/CategoryService.php:168-173 | an update is refused for an empty name first and only then for a missing category, each with its own message and code 0 |
| CourseService.ChildrenOf | api/services/CourseService.php:92-93 | definition of one step of the recursive CTE: the categories whose parent is already collected (its fixpoint's properties are CloseIsClosed, CloseIsLeast and ExpansionIsReachable) |
| CourseService.Close | api/services/CourseService.php:88-96 | the CTE's fixpoint contains its start and only category ids |
| CourseService.CloseIsClosed | api/services/CourseService.php:92-93 | the fixpoint contains every child of each of its members |
| CourseService.CloseIsLeast | api/services/CourseService.php:88-96 | the fixpoint lies inside every set that contains the start and is closed under children |
| CourseService.Expansion | api/services/CourseService.php:89-90 | the expansion holds only category ids; it contains the requested id exactly when that category exists, and is empty otherwise |
| CourseService.ExpansionIsReachable | api/services/CourseService.php:88-96 | an id is in the expansion exactly when a chain of parent-to-child links leads to it from the requested id |
| CourseService.ExpansionIsClosed | api/services/CourseService.php:92-93 | every child of a member of the expansion is a member |
| CourseService.ParseId | api/services/CourseService.php:97 | a parameter denotes a category id exactly when it is a non-empty string of decimal digits |
| CourseService.ShowIdParses | api/services/CourseService.php:97 | the decimal spelling of an id reads back as that id |
| CourseService.SelectFilter | api/services/CourseService.php:83-105 | the filter is applied exactly when the parameter is truthy and names an existing category, and it is then that category's non-empty expansion |
| CourseService.Joined | api/services/CourseService.php:113-114 | the join keeps exactly the courses whose category row exists, each paired with that row's name |
| CourseService.Where | api/services/CourseService.php:101-115 | a filter keeps exactly the courses whose category id is in the set; no filter keeps everything |
| CourseService.NameLeTotal | api/services/CourseService.php:116-117 | any two names are comparable in the order the listing is sorted by |
| CourseService.NameLeTransitive | api/services/CourseService.php:116-117 | that order is transitive |
| CourseService.SortByName | api/services/CourseService.php:116-117 | sorting yields a name-ordered permutation of its input |
| CourseService.GetCourses | api/services/CourseService.php:80-125 | the listing is ordered by course name and is a permutation of the joined courses that the chosen filter admits |
| CourseService.GetCoursesMembers | api/services/CourseService.php:80-125 | a course view is listed exactly when its course exists, its category row exists and names it, and the filter admits it |
| CourseService.NoParamListsAll | api/services/CourseService.php:83-86 | a missing or falsy `category_id` lists every course whose category row exists |
| CourseService.UnknownCategoryListsAll | api/services/CourseService.php:99-105 | an id that is not a number or names no category lists every course, not none |
| CourseService.KnownCategoryListsDescendants | api/services/CourseService.php:86-118 | for an existing category other than 0, a course is listed exactly when its category is reachable from the requested one |
| CourseService.CategoryZeroListsAll | api/services/CourseService.php:86 | category id 0 is spelt "0", which PHP treats as false, so it lists every course |
| CourseService.CheckNewCourse | api/services/CourseService.php:20-26 | an empty name is refused first, then an empty `category_id`, each with its message and code 0; anything else passes |
| Router.ControllerNamed | api/routes/router.php:11-14 | definition of the lookup in `$controllerMap`: exactly the names "categories" and "courses" select a controller |
| Router.BodyData | api/routes/router.php:36-37 | definition of `$data`: a falsy raw body gives an empty array, any other body its decoded value |
| Router.RouteController | api/routes/router.php:39-61 | the switch never answers as for a preflight request, and a served request goes to the controller it was given |
| Router.Route | api/routes/router.php:16-32 | OPTIONS is answered with no content before anything else and is the only method answered so; an unknown controller is refused with 404 "Controller not found"; a served request goes to the controller named |
| Router.GetDispatch | api/routes/router.php:40-44 | GET asks for one entity when the id is truthy and for the list otherwise |
| Router.PostDispatch | api/routes/router.php:45-46 | POST always creates, with an empty array for a falsy body and a type error for a body that decodes to no array |
| Router.IdRequired | api/routes/router.php:48-58 | PUT and DELETE are refused with 400 exactly when there is no truthy id; with one, DELETE deletes that id, and PUT updates it with the body when the body is an array and is a type error otherwise |
| Router.OtherMethodsRefused | api/routes/router.php:59-60 | a method other than GET, POST, PUT, DELETE and OPTIONS is refused with 405, and only those are |
| Router.DispatchExactly | api/routes/router.php:16-62 | a request reaches a controller exactly when the controller is known, the method is served, an id is present where needed and the body is an array where it is passed on |
| FrontController.Address | api/index.php:29-35 | the controller name read off a path contains no slash, and an id is present only when it is truthy and contains no slash |
| FrontController.TrimLeft | api/index.php:21 | the result starts with no slash and is no longer than the input |
| FrontController.TrimRight | api/index.php:21 | the result ends with no slash and is a prefix of the input |
| FrontController.TrimSlashes | api/index.php:21 | the trimmed path neither starts nor ends with a slash |
| FrontController.TrimSlashesWrapped | api/index.php:21 | trimming removes exactly the slashes around a middle that neither starts nor ends with one |
| FrontController.Split | api/index.php:21 | splitting yields at least one segment and no segment contains a slash |
| FrontController.JoinSplit | api/index.php:21 | joining the segments with slashes gives back the string |
| FrontController.SplitJoin | api/index.php:21 | splitting slash-free segments joined with slashes gives them back |
| FrontController.ParseRequestPath | api/index.php:21-35 | the controller and id read off the path, with the segment list shifted in place, are those `Address` defines |
| FrontController.AddressOfRequestPath | api/index.php:30-35 | `/api/<controller>[/<id>]` with any trailing slashes addresses that controller, and the id only when it is truthy |
| FrontController.LaterSegmentsIgnored | api/index.php:35 | any number of slash-free segments after the id, and any trailing slashes, do not change what a path addresses |
| FrontController.ApiShiftedOnce | api/index.php:30-32 | for every controller and id, `/api/api/<controller>[/<id>]` addresses the controller "api" with the id `<controller>` when that is truthy: only one leading "api" segment is removed |
| FrontController.RootPathAddressesNothing | api/index.php:34-35 | a path of slashes only addresses the controller "" and no id |
| FrontController.StatusFor | api/index.php:47 | a code of 0 becomes status 500 and any other code is used as it is |
| FrontController.StatusOf | api/index.php:41-48 | a preflight answer is 204; a controller call that returns is 200 and one that throws gets its exception's status; a refusal its code's status; only an uncaught type error has no status from the script |
| FrontController.Serve | api/index.php:34-39 | OPTIONS and only OPTIONS is answered with no content, and a request dispatched goes to the controller the path names |
| FrontController.HandleRequest | api/index.php:19-48 | the script routes what the path addresses and answers with the status of the routing outcome and of how the controller call ends |
| FrontController.PreflightIs204 | api/routes/router.php:19-22 | a preflight request is answered with 204 whatever its path |
| FrontController.IdZeroIs400 | api/index.php:35 | PUT or DELETE on `/api/<controller>/0` is refused with 400, since "0" is no id |
| FrontController.ValidationFailuresAre500 | api/index.php:37-48 | POST to `/api/categories` or `/api/courses` with an object body calls `create` with it; when CheckNewCategory or CheckNewCourse refuses that object the request is answered with 500 |
| FrontController.PostToCollection | api/routes/router.php:45-46 | POST to a controller's collection path with an array body calls that controller's `create` with the body |

## Left out

- SQL execution is not modelled. This covers the grouped count query, the recursive CTE engine, MySQL's name collation and the extra columns the queries return. The fetched rows, already ordered and counted, and the category and course tables are inputs.
- ForestFacts.ForestOrder: the order is any relation the rows arrive in. MySQL's collation is not modelled, so the lemma shows the order is preserved, not which order it is.
- CourseService.SortByName: ties between equal names are ordered by insertion. SQL leaves their order unspecified, and only sortedness and the permutation are stated.
- CourseService.Expansion: the CTE's `UNION ALL` result is modelled as a set. How many times an id repeats, which matters only on cyclic or multi-parent data, is not modelled.
- The CTE's recursion-limit failure on cyclic data is not modelled. On a cycle the set model simply reaches its fixpoint.
- CourseService.ParseId: MySQL's lenient conversion of a string such as "12abc" to 12 is not modelled. A parameter that is not all digits names no category here.
- A `category_id` query parameter given as an array (`category_id[]=1`) is not modelled; `parse_str` output is taken as a map from strings to strings.
- `parse_url` is not modelled: the path is an input.
- The query string, the request body and the superglobals are inputs. The result of `json_decode` is an input as well, JNull for a body that is not JSON.
- Floating-point JSON values are not modelled, so their truthiness is not either.
- CategoryService.CalculateCategoryDepth: PHP's reference and copy behaviour is not modelled. The map is passed by value, so depths written into a parent's copy are lost; only the resulting depths are modelled, and those are the same.
- CategoryService.CalculateTotalCourses: the aggregation runs on the tree read back from the working map, not in place through shared references. Aliasing is not modelled: each node has a single parent, so its results are the same.
- The CRUD operations are not modelled: inserts, updates, deletes, `lastInsertId`, and the lookups `getCategoryById` and `getCourseById`. Only their validation checks are modelled, and a lookup's outcome enters `CheckCategoryUpdate` as a parameter.
- Database seeding, connection setup, the controllers (one-line delegation) and the front end are not modelled.
- Headers, CORS, `http_response_code` and `json_encode` output are not modelled. The status is a value.
- FrontController.StatusOf: the status of an uncaught `TypeError` is set by the PHP runtime and is shown as None. How a controller call ends is an input (`served`), since the CRUD operations behind it are not modelled; a `PDOException` whose code is a SQLSTATE string is not modelled.
- CourseService.NameLe: code-point order on names stands in for the column's collation under `ORDER BY c.name`. The collation is server configuration. The sorting proof uses only that the order is total and transitive, and ForestFacts.ForestOrder takes the category order as given.
