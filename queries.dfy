/**
 * The queries the views of employees/views.py run against the collection, stated over the
 * collection's documents in natural order: lookup by `employee_id`, the department filter,
 * the newest-first ordering, the page arithmetic, the skill search and the per-department
 * salary average.
 */
module Queries {
  import opened Options
  import opened Calendar
  import opened Models

  // ----- lookup by employee_id -----

  /** The unique index on `employee_id`: no two documents share one. */
  predicate UniqueIds(docs: seq<Employee>) {
    forall i, j :: 0 <= i < j < |docs| ==> docs[i].employeeId != docs[j].employeeId
  }

  /** `Employee.objects.get(employee_id=pk)`: the position of the document with that id, if any. */
  function Find(docs: seq<Employee>, pk: string): (r: Option<nat>)
    ensures r.Some? ==> r.value < |docs| && docs[r.value].employeeId == pk
    ensures r.None? <==> forall i :: 0 <= i < |docs| ==> docs[i].employeeId != pk
  {
    if docs == [] then None
    else if docs[0].employeeId == pk then Some(0)
    else
      match Find(docs[1..], pk)
      case None => None
      case Some(i) => Some(i + 1)
  }

  /** With unique ids, the document holding `pk` is the one `Find` returns. */
  lemma FindUnique(docs: seq<Employee>, pk: string, i: nat)
    requires UniqueIds(docs) && i < |docs| && docs[i].employeeId == pk
    ensures Find(docs, pk) == Some(i)
  {
  }

  /** The ids present in the collection. */
  function Ids(docs: seq<Employee>): set<string> {
    set i | 0 <= i < |docs| :: docs[i].employeeId
  }

  /** The collection seen as a map from `employee_id` to document. */
  ghost function Index(docs: seq<Employee>): (m: map<string, Employee>)
    ensures m.Keys == Ids(docs)
  {
    map k | k in Ids(docs) :: docs[Find(docs, k).value]
  }

  /** The map holds each stored document under its own id. */
  lemma IndexAt(docs: seq<Employee>, i: nat)
    requires UniqueIds(docs) && i < |docs|
    ensures docs[i].employeeId in Index(docs) && Index(docs)[docs[i].employeeId] == docs[i]
  {
    FindUnique(docs, docs[i].employeeId, i);
  }

  /** Looking an id up finds the document the map holds for it. */
  lemma FindIndex(docs: seq<Employee>, pk: string)
    ensures pk in Index(docs) <==> Find(docs, pk).Some?
    ensures pk in Index(docs) ==> Index(docs)[pk] == docs[Find(docs, pk).value]
  {
    if Find(docs, pk).Some? {
      assert docs[Find(docs, pk).value].employeeId == pk;
    }
  }

  /** Appending a document adds its id to the set of ids. */
  lemma IdsAppend(docs: seq<Employee>, e: Employee)
    ensures Ids(docs + [e]) == Ids(docs) + {e.employeeId}
  {
    var s := docs + [e];
    assert forall i :: 0 <= i < |docs| ==> s[i] == docs[i];
    assert s[|docs|] == e;
  }

  /** Appending a document with a fresh id adds one entry to the map. */
  lemma IndexAppend(docs: seq<Employee>, e: Employee)
    requires UniqueIds(docs) && e.employeeId !in Index(docs)
    ensures UniqueIds(docs + [e])
    ensures Index(docs + [e]) == Index(docs)[e.employeeId := e]
  {
    var s := docs + [e];
    assert UniqueIds(s) by {
      forall i, j | 0 <= i < j < |s| ensures s[i].employeeId != s[j].employeeId {
        assert s[i] == docs[i];
        if j == |docs| {
          assert docs[i].employeeId in Ids(docs);
        } else {
          assert s[j] == docs[j];
        }
      }
    }
    IdsAppend(docs, e);
    forall k | k in Index(s) ensures Index(s)[k] == Index(docs)[e.employeeId := e][k] {
      var i :| 0 <= i < |s| && s[i].employeeId == k;
      IndexAt(s, i);
      if i < |docs| {
        assert s[i] == docs[i];
        IndexAt(docs, i);
      }
    }
  }

  /** Removing position `i` keeps the ids unique and drops exactly that document's id. */
  lemma IdsRemove(docs: seq<Employee>, i: nat)
    requires UniqueIds(docs) && i < |docs|
    ensures UniqueIds(docs[..i] + docs[i + 1..])
    ensures Ids(docs[..i] + docs[i + 1..]) == Ids(docs) - {docs[i].employeeId}
  {
    var s := docs[..i] + docs[i + 1..];
    assert forall j :: 0 <= j < |s| ==> s[j] == if j < i then docs[j] else docs[j + 1];
    forall k | k in Ids(docs) && k != docs[i].employeeId ensures k in Ids(s) {
      var j :| 0 <= j < |docs| && docs[j].employeeId == k;
      if j < i {
        assert s[j] == docs[j];
      } else {
        assert s[j - 1] == docs[j];
      }
    }
  }

  /** Removing the document at position `i` removes exactly its entry from the map. */
  lemma IndexRemove(docs: seq<Employee>, i: nat)
    requires UniqueIds(docs) && i < |docs|
    ensures UniqueIds(docs[..i] + docs[i + 1..])
    ensures Index(docs[..i] + docs[i + 1..]) == Index(docs) - {docs[i].employeeId}
  {
    var s := docs[..i] + docs[i + 1..];
    IdsRemove(docs, i);
    forall k | k in Index(s) ensures Index(s)[k] == Index(docs)[k] {
      var j :| 0 <= j < |s| && s[j].employeeId == k;
      IndexAt(s, j);
      var at := if j < i then j else j + 1;
      assert s[j] == docs[at];
      IndexAt(docs, at);
    }
  }

  /** Replacing a document by one whose id is its own or fresh keeps the ids unique. */
  lemma ReplaceKeepsUnique(docs: seq<Employee>, i: nat, e: Employee)
    requires UniqueIds(docs) && i < |docs|
    requires e.employeeId == docs[i].employeeId || e.employeeId !in Ids(docs)
    ensures UniqueIds(docs[i := e])
  {
    var s := docs[i := e];
    forall j, l | 0 <= j < l < |s| ensures s[j].employeeId != s[l].employeeId {
      if j == i {
        assert docs[l].employeeId in Ids(docs);
      } else if l == i {
        assert docs[j].employeeId in Ids(docs);
      } else {
        assert s[j] == docs[j] && s[l] == docs[l];
      }
    }
  }

  /** After a replacement the ids are the old ones, less the replaced id, plus the new one. */
  lemma IdsReplace(docs: seq<Employee>, i: nat, e: Employee)
    requires UniqueIds(docs) && i < |docs|
    ensures Ids(docs[i := e]) == (Ids(docs) - {docs[i].employeeId}) + {e.employeeId}
  {
    var s := docs[i := e];
    assert s[i] == e;
    forall k | k in Ids(docs) && k != docs[i].employeeId ensures k in Ids(s) {
      var j :| 0 <= j < |docs| && docs[j].employeeId == k;
      assert s[j] == docs[j];
    }
    forall k | k in Ids(s) ensures k in (Ids(docs) - {docs[i].employeeId}) + {e.employeeId} {
      var j :| 0 <= j < |s| && s[j].employeeId == k;
      if j != i {
        assert s[j] == docs[j];
        assert k in Ids(docs);
      }
    }
  }

  /** After a replacement, each id other than the new one maps to its old document. */
  lemma IndexReplaceOther(docs: seq<Employee>, i: nat, e: Employee, k: string)
    requires UniqueIds(docs) && i < |docs| && UniqueIds(docs[i := e])
    requires k in Index(docs[i := e]) && k != e.employeeId
    ensures k in Index(docs) && Index(docs[i := e])[k] == Index(docs)[k]
  {
    var s := docs[i := e];
    var j :| 0 <= j < |s| && s[j].employeeId == k;
    IndexAt(s, j);
    assert s[j] == docs[j];
    IndexAt(docs, j);
  }

  /** Replacing the document at `i` by one whose id is its own or fresh re-keys that one entry. */
  lemma IndexReplace(docs: seq<Employee>, i: nat, e: Employee)
    requires UniqueIds(docs) && i < |docs|
    requires e.employeeId == docs[i].employeeId || e.employeeId !in Index(docs)
    ensures UniqueIds(docs[i := e])
    ensures Index(docs[i := e]) == (Index(docs) - {docs[i].employeeId})[e.employeeId := e]
  {
    var s := docs[i := e];
    var expected := (Index(docs) - {docs[i].employeeId})[e.employeeId := e];
    ReplaceKeepsUnique(docs, i, e);
    IndexReplaceKeys(docs, i, e);
    IndexAt(s, i);
    forall k | k in Index(s) && k != e.employeeId ensures Index(s)[k] == expected[k] {
      IndexReplaceOther(docs, i, e, k);
    }
  }

  /** A replacement trades the old id for the new one among the map's keys. */
  lemma IndexReplaceKeys(docs: seq<Employee>, i: nat, e: Employee)
    requires UniqueIds(docs) && i < |docs|
    ensures Index(docs[i := e]).Keys == ((Index(docs) - {docs[i].employeeId})[e.employeeId := e]).Keys
  {
    IdsReplace(docs, i, e);
    var removed := Index(docs) - {docs[i].employeeId};
    assert removed.Keys == Ids(docs) - {docs[i].employeeId};
    assert removed[e.employeeId := e].Keys == removed.Keys + {e.employeeId};
  }

  // ----- department filter and ordering -----

  /** The `department` query parameter filters only when it is present and non-empty. */
  function DepartmentFilter(query: Option<string>): (r: Option<string>)
    ensures r.Some? <==> query.Some? && query.value != ""
    ensures r.Some? ==> r == query
  {
    if query.Some? && query.value != "" then query else None
  }

  predicate InDepartment(e: Employee, filter: Option<string>) {
    filter.None? || e.department == filter.value
  }

  /** `Employee.objects(department=d)`, or every document when there is no filter. */
  function FilterByDepartment(docs: seq<Employee>, filter: Option<string>): (r: seq<Employee>)
    ensures forall e :: multiset(r)[e] == if InDepartment(e, filter) then multiset(docs)[e] else 0
    ensures filter.None? ==> r == docs
  {
    if docs == [] then []
    else
      var n := |docs| - 1;
      assert docs == docs[..n] + [docs[n]];
      var prefix := FilterByDepartment(docs[..n], filter);
      if InDepartment(docs[n], filter) then prefix + [docs[n]] else prefix
  }

  /** Non-increasing `joining_date`: `order_by('-joining_date')`; ties in any order. */
  predicate NewestFirst(s: seq<Employee>) {
    forall i, j :: 0 <= i < j < |s| ==> !After(s[j].joiningDate, s[i].joiningDate)
  }

  /** A document not older than every element of a newest-first sequence can lead it. */
  lemma PrependNewestFirst(h: Employee, t: seq<Employee>)
    requires NewestFirst(t)
    requires forall j :: 0 <= j < |t| ==> !After(t[j].joiningDate, h.joiningDate)
    ensures NewestFirst([h] + t)
  {
    var r := [h] + t;
    forall i, j | 0 <= i < j < |r| ensures !After(r[j].joiningDate, r[i].joiningDate) {
      assert r[j] == t[j - 1];
      if i > 0 {
        assert r[i] == t[i - 1];
      }
    }
  }

  /** When `x` is older than the head of `s`, nothing in `s[1..]` or `x` is newer than that head. */
  lemma {:induction false} HeadLeadsRest(x: Employee, s: seq<Employee>, rest: seq<Employee>)
    requires NewestFirst(s) && s != [] && After(s[0].joiningDate, x.joiningDate)
    requires multiset(rest) == multiset(s[1..]) + multiset{x}
    ensures forall j :: 0 <= j < |rest| ==> !After(rest[j].joiningDate, s[0].joiningDate)
  {
    forall j | 0 <= j < |rest| ensures !After(rest[j].joiningDate, s[0].joiningDate) {
      assert rest[j] in multiset(rest);
      if rest[j] == x {
        AfterIsStrictTotalOrder(s[0].joiningDate, x.joiningDate, x.joiningDate);
      } else {
        assert rest[j] in s[1..];
        var k :| 0 <= k < |s[1..]| && s[1..][k] == rest[j];
        assert s[k + 1] == rest[j];
      }
    }
  }

  /** Puts `x` in a newest-first sequence ahead of every document not newer than it. */
  function InsertByDate(x: Employee, s: seq<Employee>): (r: seq<Employee>)
    requires NewestFirst(s)
    ensures NewestFirst(r)
    ensures multiset(r) == multiset(s) + multiset{x}
  {
    if s == [] then [x]
    else if !After(s[0].joiningDate, x.joiningDate) then
      assert forall j :: 0 <= j < |s| ==> !After(s[j].joiningDate, x.joiningDate) by {
        forall j | 0 <= j < |s| ensures !After(s[j].joiningDate, x.joiningDate) {
          AfterIsStrictTotalOrder(s[j].joiningDate, s[0].joiningDate, x.joiningDate);
        }
      }
      PrependNewestFirst(x, s);
      [x] + s
    else
      assert NewestFirst(s[1..]) by {
        forall i, j | 0 <= i < j < |s[1..]| ensures !After(s[1..][j].joiningDate, s[1..][i].joiningDate) {
          assert s[1..][i] == s[i + 1] && s[1..][j] == s[j + 1];
        }
      }
      var rest := InsertByDate(x, s[1..]);
      assert s == [s[0]] + s[1..];
      HeadLeadsRest(x, s, rest);
      PrependNewestFirst(s[0], rest);
      [s[0]] + rest
  }

  /** The documents in newest-first order. */
  function SortNewestFirst(s: seq<Employee>): (r: seq<Employee>)
    ensures NewestFirst(r)
    ensures multiset(r) == multiset(s)
  {
    if s == [] then []
    else
      assert s == [s[0]] + s[1..];
      InsertByDate(s[0], SortNewestFirst(s[1..]))
  }

  /** The queryset the list view pages through: filtered, then newest first. */
  function Listing(docs: seq<Employee>, filter: Option<string>): (r: seq<Employee>)
    ensures NewestFirst(r)
    ensures forall e :: multiset(r)[e] == if InDepartment(e, filter) then multiset(docs)[e] else 0
    ensures forall e :: e in r <==> e in docs && InDepartment(e, filter)
  {
    var r := SortNewestFirst(FilterByDepartment(docs, filter));
    assert forall e :: e in r <==> multiset(r)[e] > 0;
    assert forall e :: e in docs <==> multiset(docs)[e] > 0;
    r
  }

  // ----- pages -----

  const DefaultPageSize: nat := 5
  const MaxPageSize: nat := 50

  /**
   * The effective page size: the `page_size` query parameter when it is a positive integer,
   * capped at 50; the default 5 when it is absent, not an integer, zero or negative.
   */
  function PageSize(requested: Option<int>): (r: nat)
    ensures 1 <= r <= MaxPageSize
    ensures requested.None? ==> r == DefaultPageSize
    ensures requested.Some? && requested.value <= 0 ==> r == DefaultPageSize
    ensures requested.Some? && requested.value > 0 ==> r == if requested.value < MaxPageSize then requested.value else MaxPageSize
  {
    match requested
    case None => DefaultPageSize
    case Some(n) => if n <= 0 then DefaultPageSize else if n < MaxPageSize then n else MaxPageSize
  }

  /** The `page` query parameter: absent, an integer, the word `last`, or something else. */
  datatype PageRequest = FirstPage | PageNumber(number: int) | LastPage | NotANumber

  /** The number of pages: `ceil(max(1, count) / size)`, so at least one, even for an empty listing. */
  function PageCount(count: nat, size: nat): (n: nat)
    requires size >= 1
    ensures n >= 1
  {
    var hits := if count == 0 then 1 else count;
    (hits + size - 1) / size
  }

  /** The pages are just enough for the listing: the last one starts inside it. */
  lemma PageCountBounds(count: nat, size: nat)
    requires size >= 1
    ensures (PageCount(count, size) - 1) * size < (if count == 0 then 1 else count) <= PageCount(count, size) * size
  {
    var hits := if count == 0 then 1 else count;
    var n := PageCount(count, size);
    assert hits + size - 1 == n * size + (hits + size - 1) % size;
  }

  /** The page the request names, if it names a page that exists. */
  function PageNumberOf(req: PageRequest, pages: nat): (r: Option<nat>)
    ensures r.Some? ==> 1 <= r.value <= pages
    ensures req.PageNumber? ==> (r.Some? <==> 1 <= req.number <= pages) && (r.Some? ==> r.value == req.number)
    ensures req.FirstPage? && pages >= 1 ==> r == Some(1)
    ensures req.LastPage? && pages >= 1 ==> r == Some(pages)
    ensures req.NotANumber? ==> r.None?
  {
    match req
    case FirstPage => if 1 <= pages then Some(1) else None
    case LastPage => if 1 <= pages then Some(pages) else None
    case PageNumber(k) => if 1 <= k <= pages then Some(k) else None
    case NotANumber => None
  }

  function Min(a: int, b: int): int {
    if a < b then a else b
  }

  /** Multiplying by a non-negative factor keeps an order. */
  lemma MulMonotone(a: nat, b: nat, c: nat)
    requires a <= b
    ensures a * c <= b * c
  {
  }

  /** One more page moves the bottom of a page by one page size. */
  lemma MulStep(k: nat, size: nat)
    requires k >= 1
    ensures (k - 1) * size + size == k * size
  {
  }

  /** The position of the first document of page `k`: `(number - 1) * per_page`. */
  function PageBottom(items: nat, size: nat, k: nat): (b: nat)
    requires size >= 1 && 1 <= k <= PageCount(items, size)
    ensures b == (k - 1) * size
    ensures b <= items && (items > 0 ==> b < items)
  {
    PageCountBounds(items, size);
    MulMonotone(k - 1, PageCount(items, size) - 1, size);
    (k - 1) * size
  }

  /** The documents on page `k` (counting from 1) of `items` cut into pages of `size`. */
  function PageSlice<T>(items: seq<T>, size: nat, k: nat): (r: seq<T>)
    requires size >= 1 && 1 <= k <= PageCount(|items|, size)
    ensures |r| <= size
    ensures forall j :: 0 <= j < |r| ==> (k - 1) * size + j < |items| && r[j] == items[(k - 1) * size + j]
  {
    var bottom := PageBottom(|items|, size, k);
    items[bottom .. Min(bottom + size, |items|)]
  }

  /** A page is a run of consecutive documents, so it keeps the listing's order. */
  lemma PageKeepsOrder(items: seq<Employee>, size: nat, k: nat)
    requires NewestFirst(items) && size >= 1 && 1 <= k <= PageCount(|items|, size)
    ensures NewestFirst(PageSlice(items, size, k))
    ensures forall e :: e in PageSlice(items, size, k) ==> e in items
  {
    var r := PageSlice(items, size, k);
    var b := PageBottom(|items|, size, k);
    forall i, j | 0 <= i < j < |r| ensures !After(r[j].joiningDate, r[i].joiningDate) {
      assert r[i] == items[b + i] && r[j] == items[b + j];
    }
    forall e | e in r ensures e in items {
      var j :| 0 <= j < |r| && r[j] == e;
      assert r[j] == items[b + j];
    }
  }

  /** Twelve documents at the default page size make three pages, of 5, 5 and 2 documents. */
  lemma TwelveDocumentsThreePages<T>(items: seq<T>)
    requires |items| == 12
    ensures PageCount(|items|, DefaultPageSize) == 3
    ensures |PageSlice(items, DefaultPageSize, 1)| == 5 && |PageSlice(items, DefaultPageSize, 2)| == 5
    ensures |PageSlice(items, DefaultPageSize, 3)| == 2
  {
  }

  /** `paginate_queryset`: the requested page, or None for a page that does not exist. */
  function Paginate<T>(items: seq<T>, size: nat, req: PageRequest): (r: Option<seq<T>>)
    requires size >= 1
    ensures r.Some? <==> PageNumberOf(req, PageCount(|items|, size)).Some?
    ensures r.Some? ==> r.value == PageSlice(items, size, PageNumberOf(req, PageCount(|items|, size)).value)
  {
    match PageNumberOf(req, PageCount(|items|, size))
    case None => None
    case Some(k) => Some(PageSlice(items, size, k))
  }

  /** Every page but the last is full, and the last is not empty unless the listing is. */
  lemma {:induction false} PageSizes<T>(items: seq<T>, size: nat, k: nat)
    requires size >= 1 && 1 <= k <= PageCount(|items|, size)
    ensures k < PageCount(|items|, size) ==> |PageSlice(items, size, k)| == size
    ensures |items| > 0 ==> |PageSlice(items, size, k)| >= 1
  {
    var n := PageCount(|items|, size);
    var bottom := PageBottom(|items|, size, k);
    if k < n {
      PageCountBounds(|items|, size);
      MulStep(k, size);
      MulMonotone(k, n - 1, size);
    }
  }

  /** The pages concatenated from the first to page `k`. */
  function PagesUpTo<T>(items: seq<T>, size: nat, k: nat): seq<T>
    requires size >= 1 && k <= PageCount(|items|, size)
  {
    if k == 0 then [] else PagesUpTo(items, size, k - 1) + PageSlice(items, size, k)
  }

  /** Reading pages 1 to `k` in order reads the listing's first `min(k * size, count)` documents. */
  lemma {:induction false} PagesUpToPrefix<T>(items: seq<T>, size: nat, k: nat)
    requires size >= 1 && k <= PageCount(|items|, size)
    ensures PagesUpTo(items, size, k) == items[..Min(k * size, |items|)]
  {
    if k > 0 {
      var bottom := PageBottom(|items|, size, k);
      var top := Min(bottom + size, |items|);
      assert Min(k * size, |items|) == top by {
        MulStep(k, size);
      }
      assert PagesUpTo(items, size, k - 1) == items[..bottom] by {
        PagesUpToPrefix(items, size, k - 1);
      }
      assert items[..top] == items[..bottom] + items[bottom..top];
    }
  }

  /** The pages partition the listing: all of them, in order, are exactly the listing. */
  lemma PagesPartitionListing<T>(items: seq<T>, size: nat)
    requires size >= 1
    ensures PagesUpTo(items, size, PageCount(|items|, size)) == items
  {
    PagesUpToPrefix(items, size, PageCount(|items|, size));
    PageCountBounds(|items|, size);
    assert Min(PageCount(|items|, size) * size, |items|) == |items|;
  }

  // ----- skill search -----

  /** `Employee.objects(skills=skill)`: the documents whose skills list holds `skill` exactly. */
  function WithSkill(docs: seq<Employee>, skill: string): (r: seq<Employee>)
    ensures forall e :: multiset(r)[e] == if skill in e.skills then multiset(docs)[e] else 0
    ensures forall e :: e in r <==> e in docs && skill in e.skills
  {
    if docs == [] then []
    else
      var n := |docs| - 1;
      assert docs == docs[..n] + [docs[n]];
      var prefix := WithSkill(docs[..n], skill);
      var r := if skill in docs[n].skills then prefix + [docs[n]] else prefix;
      assert forall e :: e in r <==> multiset(r)[e] > 0;
      assert forall e :: e in docs <==> multiset(docs)[e] > 0;
      r
  }

  // ----- average salary by department -----

  /** The distinct departments present, in order of first appearance. */
  function Departments(docs: seq<Employee>): (ds: seq<string>)
    ensures forall d :: d in ds <==> exists i :: 0 <= i < |docs| && docs[i].department == d
    ensures forall k, l :: 0 <= k < l < |ds| ==> ds[k] != ds[l]
  {
    if docs == [] then []
    else
      var n := |docs| - 1;
      var prefix := Departments(docs[..n]);
      assert forall i :: 0 <= i < n ==> docs[..n][i] == docs[i];
      if docs[n].department in prefix then prefix else prefix + [docs[n].department]
  }

  /** The number of documents in department `d`. */
  function Headcount(docs: seq<Employee>, d: string): (c: nat)
    ensures c > 0 <==> exists i :: 0 <= i < |docs| && docs[i].department == d
  {
    if docs == [] then 0
    else
      var n := |docs| - 1;
      assert forall i :: 0 <= i < n ==> docs[..n][i] == docs[i];
      Headcount(docs[..n], d) + (if docs[n].department == d then 1 else 0)
  }

  /** The sum of the salaries in department `d`. */
  function Payroll(docs: seq<Employee>, d: string): real
  {
    if docs == [] then 0.0
    else
      var n := |docs| - 1;
      Payroll(docs[..n], d) + (if docs[n].department == d then docs[n].salary else 0.0)
  }

  /** The mean salary of department `d`, which has at least one document. */
  function MeanSalary(docs: seq<Employee>, d: string): real
    requires Headcount(docs, d) > 0
  {
    Payroll(docs, d) / Headcount(docs, d) as real
  }

  /** One row of the `avg_salary` response. */
  datatype DepartmentAverage = DepartmentAverage(department: string, avgSalary: real)

  /** The rows for the departments `ds`, in order. */
  function AverageRows(docs: seq<Employee>, ds: seq<string>): (rows: seq<DepartmentAverage>)
    requires forall k :: 0 <= k < |ds| ==> Headcount(docs, ds[k]) > 0
    ensures |rows| == |ds|
    ensures forall k :: 0 <= k < |ds| ==>
      (rows[k].department == ds[k] && rows[k].avgSalary == MeanSalary(docs, ds[k]))
  {
    if ds == [] then []
    else [DepartmentAverage(ds[0], MeanSalary(docs, ds[0]))] + AverageRows(docs, ds[1..])
  }

  /**
   * The `$group` by department with `$avg` of salary: one row per distinct department present,
   * each holding the mean salary of that department's documents.
   */
  function AverageSalaries(docs: seq<Employee>): (rows: seq<DepartmentAverage>)
    ensures forall k, l :: 0 <= k < l < |rows| ==> rows[k].department != rows[l].department
    ensures forall k :: 0 <= k < |rows| ==>
      (Headcount(docs, rows[k].department) > 0 && rows[k].avgSalary == MeanSalary(docs, rows[k].department))
  {
    var ds := Departments(docs);
    assert forall k :: 0 <= k < |ds| ==> ds[k] in ds;
    AverageRows(docs, ds)
  }

  /** The rows follow the departments in order of first appearance. */
  lemma RowsFollowDepartments(docs: seq<Employee>)
    ensures |AverageSalaries(docs)| == |Departments(docs)|
    ensures forall k :: 0 <= k < |Departments(docs)| ==> AverageSalaries(docs)[k].department == Departments(docs)[k]
  {
  }

  /** Every department present has a row. */
  lemma EveryDepartmentHasRow(docs: seq<Employee>)
    ensures forall i :: 0 <= i < |docs| ==>
      exists k :: 0 <= k < |AverageSalaries(docs)| && AverageSalaries(docs)[k].department == docs[i].department
  {
    var rows := AverageSalaries(docs);
    var ds := Departments(docs);
    RowsFollowDepartments(docs);
    forall i | 0 <= i < |docs| ensures exists k :: 0 <= k < |rows| && rows[k].department == docs[i].department {
      assert docs[i].department in ds;
      var k :| 0 <= k < |ds| && ds[k] == docs[i].department;
      assert rows[k].department == docs[i].department;
    }
  }

  /** Every department present has exactly one row, and every row is a department present. */
  lemma OneRowPerDepartment(docs: seq<Employee>)
    ensures forall i :: 0 <= i < |docs| ==>
      exists k :: 0 <= k < |AverageSalaries(docs)| && AverageSalaries(docs)[k].department == docs[i].department
    ensures forall k :: 0 <= k < |AverageSalaries(docs)| ==>
      exists i :: 0 <= i < |docs| && docs[i].department == AverageSalaries(docs)[k].department
  {
    EveryDepartmentHasRow(docs);
    var rows := AverageSalaries(docs);
    var ds := Departments(docs);
    RowsFollowDepartments(docs);
    forall k | 0 <= k < |rows| ensures exists i :: 0 <= i < |docs| && docs[i].department == rows[k].department {
      assert rows[k].department == ds[k] && ds[k] in ds;
    }
  }

  /** `n` copies of `x` added up. */
  function Times(x: real, n: nat): real {
    if n == 0 then 0.0 else Times(x, n - 1) + x
  }

  lemma {:induction false} TimesIsProduct(x: real, n: nat)
    ensures Times(x, n) == x * n as real
  {
    if n > 0 {
      TimesIsProduct(x, n - 1);
      assert x * n as real == x * (n - 1) as real + x;
    }
  }

  /** A department's payroll lies between its headcount times any lower and any upper salary bound. */
  lemma {:induction false} PayrollBounds(docs: seq<Employee>, d: string, lo: real, hi: real)
    requires forall i :: 0 <= i < |docs| && docs[i].department == d ==> lo <= docs[i].salary <= hi
    ensures Times(lo, Headcount(docs, d)) <= Payroll(docs, d) <= Times(hi, Headcount(docs, d))
  {
    if docs != [] {
      var n := |docs| - 1;
      assert forall i :: 0 <= i < n ==> docs[..n][i] == docs[i];
      PayrollBounds(docs[..n], d, lo, hi);
    }
  }

  /** Dividing bounds on a total by a positive count bounds the quotient. */
  lemma DivideBounds(total: real, c: real, lo: real, hi: real)
    requires c > 0.0 && lo * c <= total <= hi * c
    ensures lo <= total / c <= hi
  {
    assert total / c * c == total;
  }

  /** Each average lies between the smallest and the largest salary of its department. */
  lemma AverageWithinSalaryRange(docs: seq<Employee>, d: string, lo: real, hi: real)
    requires Headcount(docs, d) > 0
    requires forall i :: 0 <= i < |docs| && docs[i].department == d ==> lo <= docs[i].salary <= hi
    ensures lo <= MeanSalary(docs, d) <= hi
  {
    var c, total := Headcount(docs, d), Payroll(docs, d);
    PayrollBounds(docs, d, lo, hi);
    TimesIsProduct(lo, c);
    TimesIsProduct(hi, c);
    DivideBounds(total, c as real, lo, hi);
  }

  /** A salary no document exceeds. */
  function MaxSalary(docs: seq<Employee>): (m: real)
    ensures forall i :: 0 <= i < |docs| ==> docs[i].salary <= m
  {
    if docs == [] then 0.0
    else
      var n := |docs| - 1;
      var m := MaxSalary(docs[..n]);
      assert forall i :: 0 <= i < n ==> docs[..n][i] == docs[i];
      if docs[n].salary > m then docs[n].salary else m
  }

  /** Stored salaries are never negative, so neither is any average. */
  lemma AveragesNonNegative(docs: seq<Employee>)
    requires forall i :: 0 <= i < |docs| ==> Storable(docs[i])
    ensures forall k :: 0 <= k < |AverageSalaries(docs)| ==> AverageSalaries(docs)[k].avgSalary >= 0.0
  {
    var rows := AverageSalaries(docs);
    forall k | 0 <= k < |rows| ensures rows[k].avgSalary >= 0.0 {
      AverageWithinSalaryRange(docs, rows[k].department, 0.0, MaxSalary(docs));
    }
  }

  /** Salaries 100 and 200 in "Eng" and 50 in "Ops" average to 150 and 50. */
  lemma {:induction false} AverageExample(docs: seq<Employee>)
    requires |docs| == 3
    requires docs[0].department == "Eng" && docs[0].salary == 100.0
    requires docs[1].department == "Eng" && docs[1].salary == 200.0
    requires docs[2].department == "Ops" && docs[2].salary == 50.0
    ensures Headcount(docs, "Eng") == 2 && MeanSalary(docs, "Eng") == 150.0
    ensures Headcount(docs, "Ops") == 1 && MeanSalary(docs, "Ops") == 50.0
  {
    assert "Eng" != "Ops" by { assert "Eng"[0] != "Ops"[0]; }
    var one, two := docs[..1], docs[..2];
    assert docs[..3] == docs && two[..1] == one && one[..0] == [];
    assert Payroll(one, "Eng") == 100.0 && Payroll(one, "Ops") == 0.0;
    assert Payroll(two, "Eng") == 300.0 && Payroll(two, "Ops") == 0.0;
    assert Payroll(docs, "Eng") == 300.0 && Payroll(docs, "Ops") == 50.0;
    assert Headcount(one, "Eng") == 1 && Headcount(one, "Ops") == 0;
    assert Headcount(two, "Eng") == 2 && Headcount(two, "Ops") == 0;
  }
}
