/**
 * `EmployeeViewSet` and its pagination class (employees/views.py): the read-only views as
 * functions over the collection, and the views that change it as methods of a store.
 */
module Views {
  import opened Options
  import opened Calendar
  import opened Models
  import Serializers
  import opened Queries

  /** An exception a view does not catch, which the framework turns into a server error. */
  datatype Fault =
    | DocumentInvalid(errors: seq<DocumentError>)   // `ValidationError` raised by `save()`
    | NotUnique                                     // `NotUniqueError` outside `create`

  /** What a view answers, without the HTTP plumbing. */
  datatype Response<T> =
    | Ok(body: T)                                           // 200
    | Created(body: T)                                      // 201
    | Deleted                                               // 204
    | NotFound                                              // 404, also for a page that does not exist
    | DuplicateKey                                          // 400 "Employee ID must be unique."
    | ValidationErrors(errors: seq<Serializers.FieldError>) // 400 with the serializer's errors
    | SkillRequired                                         // 400 "Skill query parameter required."
    | ServerError(fault: Fault)                             // an uncaught exception

  /** The paginated body of the list view: the total count and this page's documents. */
  datatype ListPage = ListPage(count: nat, results: seq<Employee>)

  /**
   * `list`: the documents of the requested department (all of them without one), newest
   * first, cut into pages by the effective page size; a page that does not exist is not found.
   */
  function List(docs: seq<Employee>, department: Option<string>, pageSize: Option<int>, page: PageRequest)
    : (r: Response<ListPage>)
    ensures r.Ok? || r.NotFound?
    ensures r.NotFound? <==>
      PageNumberOf(page, PageCount(|Listing(docs, DepartmentFilter(department))|, PageSize(pageSize))).None?
    ensures r.Ok? ==> r.body.count == |Listing(docs, DepartmentFilter(department))|
    ensures r.Ok? ==> r.body.results == PageSlice(Listing(docs, DepartmentFilter(department)), PageSize(pageSize),
      PageNumberOf(page, PageCount(|Listing(docs, DepartmentFilter(department))|, PageSize(pageSize))).value)
    ensures r.Ok? ==> |r.body.results| <= PageSize(pageSize) <= MaxPageSize
    ensures r.Ok? ==> NewestFirst(r.body.results)
    ensures r.Ok? ==> forall e :: e in r.body.results ==> e in docs && InDepartment(e, DepartmentFilter(department))
  {
    var listing := Listing(docs, DepartmentFilter(department));
    var size := PageSize(pageSize);
    match Paginate(listing, size, page)
    case None => NotFound
    case Some(results) =>
      PageKeepsOrder(listing, size, PageNumberOf(page, PageCount(|listing|, size)).value);
      Ok(ListPage(|listing|, results))
  }

  /** `search`: a missing or empty `skill` is refused; otherwise the documents listing it. */
  function Search(docs: seq<Employee>, skill: Option<string>): (r: Response<seq<Employee>>)
    ensures r.Ok? || r.SkillRequired?
    ensures r.SkillRequired? <==> skill.None? || skill.value == ""
    ensures r.Ok? ==> forall e :: e in r.body <==> e in docs && skill.value in e.skills
    ensures r.Ok? ==> forall e :: multiset(r.body)[e] == if skill.value in e.skills then multiset(docs)[e] else 0
  {
    if skill.None? || skill.value == "" then SkillRequired else Ok(WithSkill(docs, skill.value))
  }

  /** Every document passed the save-time checks. */
  predicate AllStorable(docs: seq<Employee>) {
    forall i :: 0 <= i < |docs| ==> Storable(docs[i])
  }

  /** Appending a document that passed the save-time checks keeps every document storable. */
  lemma AppendStorable(docs: seq<Employee>, e: Employee)
    requires AllStorable(docs) && Storable(e)
    ensures AllStorable(docs + [e])
  {
    forall i | 0 <= i < |docs + [e]| ensures Storable((docs + [e])[i]) {
      if i < |docs| {
        assert (docs + [e])[i] == docs[i];
      }
    }
  }

  /** Overwriting a document with one that passed the save-time checks keeps every document storable. */
  lemma ReplaceStorable(docs: seq<Employee>, i: nat, e: Employee)
    requires AllStorable(docs) && i < |docs| && Storable(e)
    ensures AllStorable(docs[i := e])
  {
  }

  /** What one `save()` did. */
  datatype SaveResult = Saved | Rejected(errors: seq<DocumentError>) | NotUniqueId

  /**
   * The `employees` collection and the views that change it. `docs` holds the documents in
   * natural order; `Records()` is the same collection keyed by `employee_id`.
   */
  class EmployeeStore {
    var docs: seq<Employee>

    /** The unique index holds, and every document passed the save-time checks when written. */
    ghost predicate Valid()
      reads this
    {
      UniqueIds(docs) && AllStorable(docs)
    }

    ghost function Records(): map<string, Employee>
      reads this
    {
      Index(docs)
    }

    constructor ()
      ensures Valid() && docs == [] && Records() == map[]
    {
      docs := [];
    }

    /** `save()` of a new document: the document's checks, then the unique index, then the insert. */
    method Insert(e: Employee, today: Date) returns (r: SaveResult)
      requires Valid()
      modifies this
      ensures Valid()
      ensures r == if DocumentErrors(e, today) != [] then Rejected(DocumentErrors(e, today))
                   else if e.employeeId in old(Records()) then NotUniqueId
                   else Saved
      ensures docs == if r.Saved? then old(docs) + [e] else old(docs)
      ensures Records() == if r.Saved? then old(Records())[e.employeeId := e] else old(Records())
    {
      var errors := DocumentErrors(e, today);
      FindIndex(docs, e.employeeId);
      if errors != [] {
        r := Rejected(errors);
      } else if Find(docs, e.employeeId).Some? {
        r := NotUniqueId;
      } else {
        assert Storable(e);
        IndexAppend(docs, e);
        AppendStorable(docs, e);
        docs := docs + [e];
        r := Saved;
      }
    }

    /** `save()` of the stored document at `i` after its fields were changed to those of `e`. */
    method Overwrite(i: nat, e: Employee, today: Date) returns (r: SaveResult)
      requires Valid() && i < |docs|
      modifies this
      ensures Valid()
      ensures r == if DocumentErrors(e, today) != [] then Rejected(DocumentErrors(e, today))
                   else if e.employeeId != old(docs)[i].employeeId && e.employeeId in old(Records()) then NotUniqueId
                   else Saved
      ensures docs == if r.Saved? then old(docs)[i := e] else old(docs)
      ensures Records() == if r.Saved? then (old(Records()) - {old(docs)[i].employeeId})[e.employeeId := e]
                           else old(Records())
    {
      var errors := DocumentErrors(e, today);
      FindIndex(docs, e.employeeId);
      if errors != [] {
        r := Rejected(errors);
      } else if e.employeeId != docs[i].employeeId && Find(docs, e.employeeId).Some? {
        r := NotUniqueId;
      } else {
        assert Storable(e);
        IndexReplace(docs, i, e);
        ReplaceStorable(docs, i, e);
        docs := docs[i := e];
        r := Saved;
      }
    }

    /** Serializer `create`: build the document from validated data and save it. */
    method SerializerCreate(data: seq<Serializers.Attr>, today: Date) returns (e: Employee, r: SaveResult)
      requires Valid()
      requires forall f :: Serializers.Lookup(data, f).Some?
      modifies this
      ensures Valid()
      ensures e == Serializers.Construct(data)
      ensures r == if DocumentErrors(e, today) != [] then Rejected(DocumentErrors(e, today))
                   else if e.employeeId in old(Records()) then NotUniqueId
                   else Saved
      ensures docs == if r.Saved? then old(docs) + [e] else old(docs)
      ensures Records() == if r.Saved? then old(Records())[e.employeeId := e] else old(Records())
    {
      e := Serializers.Construct(data);
      r := Insert(e, today);
    }

    /** Serializer `update`: assign each validated entry to the stored document, then save it. */
    method SerializerUpdate(i: nat, data: seq<Serializers.Attr>, today: Date) returns (e: Employee, r: SaveResult)
      requires Valid() && i < |docs|
      modifies this
      ensures Valid()
      ensures e == Serializers.Merge(old(docs)[i], data)
      ensures r == if DocumentErrors(e, today) != [] then Rejected(DocumentErrors(e, today))
                   else if e.employeeId != old(docs)[i].employeeId && e.employeeId in old(Records()) then NotUniqueId
                   else Saved
      ensures docs == if r.Saved? then old(docs)[i := e] else old(docs)
      ensures Records() == if r.Saved? then (old(Records()) - {old(docs)[i].employeeId})[e.employeeId := e]
                           else old(Records())
    {
      e := Serializers.ApplyAttrs(docs[i], data);
      r := Overwrite(i, e, today);
    }

    /**
     * `create`: refuse an invalid body with its errors; otherwise save the body's document,
     * answering `DuplicateKey` when its id is taken. Nothing is written unless it is created.
     */
    method Create(p: Serializers.Payload, today: Date) returns (r: Response<Employee>)
      requires Valid()
      modifies this
      ensures Valid()
      ensures Serializers.IsValid(p, today, false).Failure? ==>
        r == ValidationErrors(Serializers.IsValid(p, today, false).error) && docs == old(docs)
      ensures Serializers.IsValid(p, today, false).Success? ==>
        var e := Serializers.PayloadRecord(p);
        if e.employeeId in old(Records()) then r == DuplicateKey && docs == old(docs)
        else r == Created(e) && docs == old(docs) + [e] && Records() == old(Records())[e.employeeId := e]
    {
      var v := Serializers.IsValid(p, today, false);
      if v.Failure? {
        return ValidationErrors(v.error);
      }
      Serializers.CreateBuildsPayloadRecord(p, today);
      Serializers.CreatedRecordSaveable(p, today);
      var e := Serializers.Construct(v.value);
      var saved := Insert(e, today);
      match saved
      case Saved => r := Created(e);
      case NotUniqueId => r := DuplicateKey;
      case Rejected(errors) => r := ServerError(DocumentInvalid(errors));
    }

    /** `retrieve`: the document with that id, or not found. */
    method Retrieve(pk: string) returns (r: Response<Employee>)
      ensures pk in Records() ==> r == Ok(Records()[pk])
      ensures pk !in Records() ==> r == NotFound
    {
      FindIndex(docs, pk);
      match Find(docs, pk)
      case None => r := NotFound;
      case Some(i) => r := Ok(docs[i]);
    }

    /**
     * `update` (partial): not found for an unknown id; the serializer's errors for an invalid
     * body; otherwise the supplied fields are assigned and the document saved. A save refused by
     * the document's checks or by the unique index is not caught by the view.
     */
    method Update(pk: string, p: Serializers.Payload, today: Date) returns (r: Response<Employee>)
      requires Valid()
      modifies this
      ensures Valid()
      ensures pk !in old(Records()) ==> r == NotFound && docs == old(docs)
      ensures pk in old(Records()) && Serializers.IsValid(p, today, true).Failure? ==>
        r == ValidationErrors(Serializers.IsValid(p, today, true).error) && docs == old(docs)
      ensures pk in old(Records()) && Serializers.IsValid(p, today, true).Success? ==>
        var m := Serializers.Overlay(old(Records())[pk], p);
        if DocumentErrors(m, today) != [] then
          r == ServerError(DocumentInvalid(DocumentErrors(m, today))) && docs == old(docs)
        else if m.employeeId != pk && m.employeeId in old(Records()) then
          r == ServerError(NotUnique) && docs == old(docs)
        else
          r == Ok(m) && docs == old(docs)[Find(old(docs), pk).value := m]
          && Records() == (old(Records()) - {pk})[m.employeeId := m]
      ensures pk in old(Records()) && !After(old(Records())[pk].joiningDate, today) ==>
        !(r.ServerError? && r.fault.DocumentInvalid?)
    {
      FindIndex(docs, pk);
      var found := Find(docs, pk);
      if found.None? {
        return NotFound;
      }
      var i := found.value;
      var v := Serializers.IsValid(p, today, true);
      if v.Failure? {
        return ValidationErrors(v.error);
      }
      Serializers.UpdateAppliesSuppliedFields(docs[i], p, today);
      if !After(docs[i].joiningDate, today) {
        Serializers.UpdatedRecordSaveable(docs[i], p, today);
      }
      var e := Serializers.ApplyAttrs(docs[i], v.value);
      var saved := Overwrite(i, e, today);
      match saved
      case Saved => r := Ok(e);
      case NotUniqueId => r := ServerError(NotUnique);
      case Rejected(errors) => r := ServerError(DocumentInvalid(errors));
    }

    /** `destroy`: not found for an unknown id; otherwise that document, and only it, is removed. */
    method Destroy(pk: string) returns (r: Response<Employee>)
      requires Valid()
      modifies this
      ensures Valid()
      ensures pk !in old(Records()) ==> r == NotFound && docs == old(docs)
      ensures pk in old(Records()) ==>
        r == Deleted && Records() == old(Records()) - {pk}
        && docs == old(docs)[..Find(old(docs), pk).value] + old(docs)[Find(old(docs), pk).value + 1..]
    {
      FindIndex(docs, pk);
      var found := Find(docs, pk);
      if found.None? {
        return NotFound;
      }
      var i := found.value;
      IndexRemove(docs, i);
      docs := docs[..i] + docs[i + 1..];
      r := Deleted;
    }
  }

  /** Creating a document and then retrieving its id gives back the same field values. */
  method CreateThenRetrieve(store: EmployeeStore, p: Serializers.Payload, today: Date)
    returns (created: Response<Employee>, fetched: Response<Employee>)
    requires store.Valid()
    modifies store
    ensures created.Created? ==> Serializers.Complete(p) && created.body == Serializers.PayloadRecord(p)
    ensures created.Created? ==> fetched == Ok(created.body)
  {
    created := store.Create(p, today);
    var pk := if p.employeeId.Some? then p.employeeId.value else "";
    fetched := store.Retrieve(pk);
  }

  /** Creating the same document twice: the second attempt is a duplicate and writes nothing. */
  method CreateTwice(store: EmployeeStore, p: Serializers.Payload, today: Date)
    returns (first: Response<Employee>, second: Response<Employee>)
    requires store.Valid()
    modifies store
    ensures first.Created? ==> second == DuplicateKey && store.docs == old(store.docs) + [first.body]
  {
    first := store.Create(p, today);
    second := store.Create(p, today);
  }
}
