/**
 * `EmployeeSerializer` (employees/serializers.py): per-field validation of a request body,
 * the validated data it yields, and the `create` / `update` steps that build or change a
 * document from that data.
 */
module Serializers {
  import opened Options
  import opened Calendar
  import Models

  // ----- fields and attribute assignments -----

  datatype FieldName =
    | EmployeeIdField
    | NameField
    | DepartmentField
    | SalaryField
    | JoiningDateField
    | SkillsField

  /** The serializer's fields, in declaration order (the order validated data is built in). */
  const DeclaredFields: seq<FieldName> :=
    [EmployeeIdField, NameField, DepartmentField, SalaryField, JoiningDateField, SkillsField]

  lemma EveryFieldDeclared(f: FieldName)
    ensures f in DeclaredFields
  {
    assert DeclaredFields[0] == EmployeeIdField && DeclaredFields[1] == NameField;
    assert DeclaredFields[2] == DepartmentField && DeclaredFields[3] == SalaryField;
    assert DeclaredFields[4] == JoiningDateField && DeclaredFields[5] == SkillsField;
  }

  /** One `key: value` entry of validated data; `setattr(instance, key, value)` applies it. */
  datatype Attr =
    | EmployeeIdAttr(employeeId: string)
    | NameAttr(name: string)
    | DepartmentAttr(department: string)
    | SalaryAttr(salary: real)
    | JoiningDateAttr(joiningDate: Date)
    | SkillsAttr(skills: seq<string>)

  function Key(a: Attr): FieldName {
    match a
    case EmployeeIdAttr(_) => EmployeeIdField
    case NameAttr(_) => NameField
    case DepartmentAttr(_) => DepartmentField
    case SalaryAttr(_) => SalaryField
    case JoiningDateAttr(_) => JoiningDateField
    case SkillsAttr(_) => SkillsField
  }

  /** The current value of field `f` of a document, as an entry. */
  function AttrOf(e: Models.Employee, f: FieldName): (a: Attr)
    ensures Key(a) == f
  {
    match f
    case EmployeeIdField => EmployeeIdAttr(e.employeeId)
    case NameField => NameAttr(e.name)
    case DepartmentField => DepartmentAttr(e.department)
    case SalaryField => SalaryAttr(e.salary)
    case JoiningDateField => JoiningDateAttr(e.joiningDate)
    case SkillsField => SkillsAttr(e.skills)
  }

  /** Two documents agreeing on every field are equal. */
  lemma EmployeeExtensionality(a: Models.Employee, b: Models.Employee)
    requires forall f :: AttrOf(a, f) == AttrOf(b, f)
    ensures a == b
  {
    assert AttrOf(a, EmployeeIdField) == AttrOf(b, EmployeeIdField);
    assert AttrOf(a, NameField) == AttrOf(b, NameField);
    assert AttrOf(a, DepartmentField) == AttrOf(b, DepartmentField);
    assert AttrOf(a, SalaryField) == AttrOf(b, SalaryField);
    assert AttrOf(a, JoiningDateField) == AttrOf(b, JoiningDateField);
    assert AttrOf(a, SkillsField) == AttrOf(b, SkillsField);
  }

  /** `setattr(instance, key, value)`: field `Key(a)` takes the new value, no other field moves. */
  function SetAttr(e: Models.Employee, a: Attr): (r: Models.Employee)
    ensures AttrOf(r, Key(a)) == a
    ensures forall f :: f != Key(a) ==> AttrOf(r, f) == AttrOf(e, f)
  {
    match a
    case EmployeeIdAttr(v) => e.(employeeId := v)
    case NameAttr(v) => e.(name := v)
    case DepartmentAttr(v) => e.(department := v)
    case SalaryAttr(v) => e.(salary := v)
    case JoiningDateAttr(v) => e.(joiningDate := v)
    case SkillsAttr(v) => e.(skills := v)
  }

  /** The entry for field `f` in `data`; as in a dictionary, a later entry wins. */
  function Lookup(data: seq<Attr>, f: FieldName): (r: Option<Attr>)
    ensures r.Some? <==> exists k :: 0 <= k < |data| && Key(data[k]) == f
    ensures r.Some? ==> r.value in data && Key(r.value) == f
  {
    if data == [] then None
    else if Key(data[|data| - 1]) == f then Some(data[|data| - 1])
    else
      var r := Lookup(data[..|data| - 1], f);
      assert forall k :: 0 <= k < |data| - 1 ==> data[..|data| - 1][k] == data[k];
      r
  }

  /** No field has two entries. */
  predicate DistinctKeys(data: seq<Attr>) {
    forall k, l :: 0 <= k < l < |data| ==> Key(data[k]) != Key(data[l])
  }

  /**
   * The document after assigning every entry of `data` in order: each field holds its entry
   * in `data` if it has one, and its old value otherwise.
   */
  function Merge(e: Models.Employee, data: seq<Attr>): (r: Models.Employee)
    ensures forall f :: AttrOf(r, f) == if Lookup(data, f).Some? then Lookup(data, f).value else AttrOf(e, f)
  {
    if data == [] then e else SetAttr(Merge(e, data[..|data| - 1]), data[|data| - 1])
  }

  /**
   * The loop `for key, value in validated_data.items(): setattr(instance, key, value)`,
   * run on a copy of the document.
   */
  method ApplyAttrs(instance: Models.Employee, data: seq<Attr>) returns (r: Models.Employee)
    ensures r == Merge(instance, data)
  {
    r := instance;
    for i := 0 to |data|
      invariant r == Merge(instance, data[..i])
    {
      assert data[..i + 1][..i] == data[..i];
      r := SetAttr(r, data[i]);
    }
    assert data[..|data|] == data;
  }

  // ----- request bodies -----

  /** A parsed request body: each field is present or absent. */
  datatype Payload = Payload(
    employeeId: Option<string>,
    name: Option<string>,
    department: Option<string>,
    salary: Option<real>,
    joiningDate: Option<Date>,
    skills: Option<seq<string>>)

  /** The entry the body supplies for field `f`, if any. */
  function Supplied(p: Payload, f: FieldName): (r: Option<Attr>)
    ensures r.Some? ==> Key(r.value) == f
  {
    match f
    case EmployeeIdField => if p.employeeId.Some? then Some(EmployeeIdAttr(p.employeeId.value)) else None
    case NameField => if p.name.Some? then Some(NameAttr(p.name.value)) else None
    case DepartmentField => if p.department.Some? then Some(DepartmentAttr(p.department.value)) else None
    case SalaryField => if p.salary.Some? then Some(SalaryAttr(p.salary.value)) else None
    case JoiningDateField => if p.joiningDate.Some? then Some(JoiningDateAttr(p.joiningDate.value)) else None
    case SkillsField => if p.skills.Some? then Some(SkillsAttr(p.skills.value)) else None
  }

  predicate Complete(p: Payload) {
    p.employeeId.Some? && p.name.Some? && p.department.Some?
    && p.salary.Some? && p.joiningDate.Some? && p.skills.Some?
  }

  /** The document a complete body describes. */
  function PayloadRecord(p: Payload): (e: Models.Employee)
    requires Complete(p)
    ensures forall f :: Supplied(p, f) == Some(AttrOf(e, f))
  {
    Models.Employee(p.employeeId.value, p.name.value, p.department.value,
                    p.salary.value, p.joiningDate.value, p.skills.value)
  }

  /** Reference definition of a partial update: every supplied field replaced, the rest kept. */
  function Overlay(e: Models.Employee, p: Payload): (r: Models.Employee)
    ensures forall f :: AttrOf(r, f) == if Supplied(p, f).Some? then Supplied(p, f).value else AttrOf(e, f)
  {
    Models.Employee(
      if p.employeeId.Some? then p.employeeId.value else e.employeeId,
      if p.name.Some? then p.name.value else e.name,
      if p.department.Some? then p.department.value else e.department,
      if p.salary.Some? then p.salary.value else e.salary,
      if p.joiningDate.Some? then p.joiningDate.value else e.joiningDate,
      if p.skills.Some? then p.skills.value else e.skills)
  }

  // ----- field validation -----

  datatype Problem =
    | Required                      // a field missing from a full (non-partial) body
    | Blank                         // `CharField` refuses "" (its default allow_blank=False)
    | TooLong(maxLength: nat)       // `CharField(max_length=...)`
    | NullCharacter                 // `CharField` refuses U+0000 (its default validators)
    | NegativeSalary                // `validate_salary`
    | FutureDate                    // `validate_joining_date`
    | ItemErrors(items: seq<ItemError>)  // `ListField`: the errors of its failing children

  datatype ItemError = ItemError(index: nat, problem: Problem)

  datatype FieldError = FieldError(field: FieldName, problem: Problem)

  /** The strings a `CharField(max_length=maxLength)` accepts. */
  predicate AcceptedText(s: string, maxLength: nat) {
    s != "" && |s| <= maxLength && '\0' !in s
  }

  /**
   * `CharField(max_length=maxLength)`: blank is refused first; then the length bound and the
   * refusal of U+0000, the length problem reported when both apply.
   */
  function CharField(s: string, maxLength: nat): (r: Result<string, Problem>)
    ensures r.Success? <==> s != "" && |s| <= maxLength && '\0' !in s
    ensures r.Success? ==> r.value == s
    ensures r.Failure? ==> r.error == (if s == "" then Blank else if |s| > maxLength then TooLong(maxLength) else NullCharacter)
  {
    if s == "" then Failure(Blank)
    else if |s| > maxLength then Failure(TooLong(maxLength))
    else if '\0' in s then Failure(NullCharacter)
    else Success(s)
  }

  /** `EmployeeSerializer.validate_salary`: negative values refused, others returned unchanged. */
  function ValidateSalary(value: real): (r: Result<real, Problem>)
    ensures r.Success? <==> value >= 0.0
    ensures r.Success? ==> r.value == value
    ensures r.Failure? ==> r.error == NegativeSalary
  {
    if value < 0.0 then Failure(NegativeSalary) else Success(value)
  }

  /** `validate_joining_date`: dates after today refused, others (today included) returned unchanged. */
  function ValidateJoiningDate(value: Date, today: Date): (r: Result<Date, Problem>)
    ensures r.Success? <==> !After(value, today)
    ensures r.Success? ==> r.value == value
    ensures r.Failure? ==> r.error == FutureDate
  {
    if After(value, today) then Failure(FutureDate) else Success(value)
  }

  /** The errors of the children of `ListField(child=CharField(max_length=50))`, by index. */
  function ChildErrors(items: seq<string>): (r: seq<ItemError>)
    ensures forall k :: 0 <= k < |r| ==>
      r[k].index < |items| && CharField(items[r[k].index], Models.MaxSkillLength) == Failure(r[k].problem)
    ensures forall i :: 0 <= i < |items| && CharField(items[i], Models.MaxSkillLength).Failure? ==>
      exists k :: 0 <= k < |r| && r[k].index == i
  {
    if items == [] then []
    else
      var n := |items| - 1;
      var prefix := ChildErrors(items[..n]);
      var here := CharField(items[n], Models.MaxSkillLength);
      var r := prefix + (if here.Failure? then [ItemError(n, here.error)] else []);
      assert forall k :: 0 <= k < |prefix| ==> r[k] == prefix[k];
      assert forall i :: 0 <= i < n ==> items[..n][i] == items[i];
      assert here.Failure? ==> r[|prefix|].index == n;
      r
  }

  /** `ListField(child=CharField(max_length=50))`: accepted when every skill is. */
  function SkillsListField(items: seq<string>): (r: Result<seq<string>, Problem>)
    ensures r.Success? <==> forall i :: 0 <= i < |items| ==> CharField(items[i], Models.MaxSkillLength).Success?
    ensures r.Success? ==> r.value == items
  {
    var errors := ChildErrors(items);
    if errors == [] then Success(items) else
      assert CharField(items[errors[0].index], Models.MaxSkillLength).Failure?;
      Failure(ItemErrors(errors))
  }

  /** The outcome of validating one field. */
  datatype Step = Skip | Valid(attr: Attr) | Invalid(problem: Problem)

  function FromResult(r: Result<Attr, Problem>): Step {
    match r
    case Success(a) => Valid(a)
    case Failure(problem) => Invalid(problem)
  }

  /** The values each field of the serializer accepts. */
  predicate Accepts(a: Attr, today: Date) {
    match a
    case EmployeeIdAttr(v) => AcceptedText(v, Models.MaxEmployeeIdLength)
    case NameAttr(v) => AcceptedText(v, Models.MaxNameLength)
    case DepartmentAttr(v) => AcceptedText(v, Models.MaxDepartmentLength)
    case SalaryAttr(v) => v >= 0.0
    case JoiningDateAttr(v) => !After(v, today)
    case SkillsAttr(v) => forall i :: 0 <= i < |v| ==> AcceptedText(v[i], Models.MaxSkillLength)
  }

  /** The checks field `Key(a)` runs on a supplied value, and what they accept it as. */
  function CheckAttr(a: Attr, today: Date): (r: Result<Attr, Problem>)
    ensures r.Success? <==> Accepts(a, today)
    ensures r.Success? ==> r.value == a
  {
    match a
    case EmployeeIdAttr(v) =>
      (match CharField(v, Models.MaxEmployeeIdLength) case Success(s) => Success(EmployeeIdAttr(s)) case Failure(e) => Failure(e))
    case NameAttr(v) =>
      (match CharField(v, Models.MaxNameLength) case Success(s) => Success(NameAttr(s)) case Failure(e) => Failure(e))
    case DepartmentAttr(v) =>
      (match CharField(v, Models.MaxDepartmentLength) case Success(s) => Success(DepartmentAttr(s)) case Failure(e) => Failure(e))
    case SalaryAttr(v) =>
      (match ValidateSalary(v) case Success(x) => Success(SalaryAttr(x)) case Failure(e) => Failure(e))
    case JoiningDateAttr(v) =>
      (match ValidateJoiningDate(v, today) case Success(d) => Success(JoiningDateAttr(d)) case Failure(e) => Failure(e))
    case SkillsAttr(v) =>
      (match SkillsListField(v) case Success(s) => Success(SkillsAttr(s)) case Failure(e) => Failure(e))
  }

  /**
   * One field's validation: an absent field is skipped in a partial body and `Required` in a
   * full one; a present field is checked and, if accepted, passed on unchanged.
   */
  function RunField(f: FieldName, p: Payload, today: Date, partial: bool): (s: Step)
    ensures s.Skip? <==> partial && Supplied(p, f).None?
    ensures s.Valid? <==> Supplied(p, f).Some? && CheckAttr(Supplied(p, f).value, today).Success?
    ensures s.Valid? ==> s.attr == Supplied(p, f).value
    ensures s == Invalid(Required) <==> !partial && Supplied(p, f).None?
  {
    match Supplied(p, f)
    case None => if partial then Skip else Invalid(Required)
    case Some(a) =>
      var r := CheckAttr(a, today);
      assert r.Failure? ==> r.error != Required;
      FromResult(r)
  }

  /** The accepted entries of `fields`, in order. */
  function ValidatedData(fields: seq<FieldName>, p: Payload, today: Date, partial: bool): (r: seq<Attr>)
    ensures forall a :: a in r <==> Key(a) in fields && RunField(Key(a), p, today, partial) == Valid(a)
    ensures (forall i, j :: 0 <= i < j < |fields| ==> fields[i] != fields[j]) ==> DistinctKeys(r)
  {
    if fields == [] then []
    else
      var n := |fields| - 1;
      var prefix := ValidatedData(fields[..n], p, today, partial);
      assert forall a :: a in prefix ==> Key(a) in fields[..n];
      assert forall g :: g in fields <==> g in fields[..n] || g == fields[n];
      match RunField(fields[n], p, today, partial)
      case Valid(a) => prefix + [a]
      case _ => prefix
  }

  /** The errors of `fields`, in order: one per refused field. */
  function Errors(fields: seq<FieldName>, p: Payload, today: Date, partial: bool): (r: seq<FieldError>)
    ensures forall e :: e in r <==> e.field in fields && RunField(e.field, p, today, partial) == Invalid(e.problem)
  {
    if fields == [] then []
    else
      var n := |fields| - 1;
      var prefix := Errors(fields[..n], p, today, partial);
      assert forall g :: g in fields <==> g in fields[..n] || g == fields[n];
      match RunField(fields[n], p, today, partial)
      case Invalid(problem) => prefix + [FieldError(fields[n], problem)]
      case _ => prefix
  }

  /**
   * `serializer.is_valid()` with `partial` as given: the validated data when no field is
   * refused, otherwise every refused field with its problem.
   */
  function IsValid(p: Payload, today: Date, partial: bool): (r: Result<seq<Attr>, seq<FieldError>>)
    ensures r.Success? <==> forall f :: !RunField(f, p, today, partial).Invalid?
    ensures r.Success? ==> DistinctKeys(r.value)
    ensures r.Success? ==> forall a :: a in r.value <==> RunField(Key(a), p, today, partial) == Valid(a)
    ensures r.Failure? ==> r.error != [] && forall e :: e in r.error <==> RunField(e.field, p, today, partial) == Invalid(e.problem)
    ensures r.Success? && !partial ==> Complete(p)
  {
    var errors := Errors(DeclaredFields, p, today, partial);
    DeclaredFieldsErrors(p, today, partial);
    NoRefusalComplete(p, today);
    if errors == [] then Success(ValidatedData(DeclaredFields, p, today, partial)) else Failure(errors)
  }

  /** Over all declared fields, no error is reported exactly when no field is refused. */
  lemma DeclaredFieldsErrors(p: Payload, today: Date, partial: bool)
    ensures Errors(DeclaredFields, p, today, partial) == [] <==> forall f :: !RunField(f, p, today, partial).Invalid?
    ensures forall a :: a in ValidatedData(DeclaredFields, p, today, partial) <==> RunField(Key(a), p, today, partial) == Valid(a)
    ensures forall e :: e in Errors(DeclaredFields, p, today, partial) <==> RunField(e.field, p, today, partial) == Invalid(e.problem)
    ensures DistinctKeys(ValidatedData(DeclaredFields, p, today, partial))
  {
    var errors := Errors(DeclaredFields, p, today, partial);
    assert forall i, j :: 0 <= i < j < |DeclaredFields| ==> DeclaredFields[i] != DeclaredFields[j];
    forall f ensures f in DeclaredFields {
      EveryFieldDeclared(f);
    }
    forall f | RunField(f, p, today, partial).Invalid? ensures errors != [] {
      assert FieldError(f, RunField(f, p, today, partial).problem) in errors;
    }
    if errors != [] {
      assert errors[0] in errors;
    }
  }

  /** A full body with no refused field supplies every field. */
  lemma NoRefusalComplete(p: Payload, today: Date)
    ensures (forall f :: !RunField(f, p, today, false).Invalid?) ==> Complete(p)
  {
    if forall f :: !RunField(f, p, today, false).Invalid? {
      assert !RunField(EmployeeIdField, p, today, false).Invalid?;
      assert !RunField(NameField, p, today, false).Invalid?;
      assert !RunField(DepartmentField, p, today, false).Invalid?;
      assert !RunField(SalaryField, p, today, false).Invalid?;
      assert !RunField(JoiningDateField, p, today, false).Invalid?;
      assert !RunField(SkillsField, p, today, false).Invalid?;
    }
  }

  // ----- what validated data means -----

  /** The validated data of an accepted body holds exactly the supplied fields, unchanged. */
  lemma {:induction false} ValidatedLookup(p: Payload, today: Date, partial: bool)
    requires IsValid(p, today, partial).Success?
    ensures forall f :: Lookup(IsValid(p, today, partial).value, f) == Supplied(p, f)
  {
    var d := IsValid(p, today, partial).value;
    forall f ensures Lookup(d, f) == Supplied(p, f) {
      var step := RunField(f, p, today, partial);
      if step.Valid? {
        assert step.attr in d;
        assert Key(step.attr) == f;
        var k :| 0 <= k < |d| && d[k] == step.attr;
        assert Lookup(d, f).Some?;
      }
    }
  }

  /**
   * Serializer `update` (and the same loop in the view): applying the validated data of an
   * accepted partial body replaces exactly the supplied fields.
   */
  lemma UpdateAppliesSuppliedFields(e: Models.Employee, p: Payload, today: Date)
    requires IsValid(p, today, true).Success?
    ensures Merge(e, IsValid(p, today, true).value) == Overlay(e, p)
  {
    ValidatedLookup(p, today, true);
    EmployeeExtensionality(Merge(e, IsValid(p, today, true).value), Overlay(e, p));
  }

  /** A placeholder the construction below overwrites field by field. */
  const Unset := Models.Employee("", "", "", 0.0, CalendarDate(1, 1, 1), [])

  /** `Employee(**validated_data)`: a document whose every field is the entry given for it. */
  function Construct(data: seq<Attr>): (e: Models.Employee)
    requires forall f :: Lookup(data, f).Some?
    ensures forall f :: AttrOf(e, f) == Lookup(data, f).value
  {
    Merge(Unset, data)
  }

  /** Serializer `create`: the document built from an accepted full body is the body's record. */
  lemma CreateBuildsPayloadRecord(p: Payload, today: Date)
    requires IsValid(p, today, false).Success?
    ensures forall f :: Lookup(IsValid(p, today, false).value, f).Some?
    ensures Construct(IsValid(p, today, false).value) == PayloadRecord(p)
  {
    ValidatedLookup(p, today, false);
    EmployeeExtensionality(Construct(IsValid(p, today, false).value), PayloadRecord(p));
  }

  // ----- serializer checks against the document's own checks -----

  /** What the document's save-time checks demand of one field's value. */
  predicate Saveable(a: Attr, today: Date) {
    match a
    case EmployeeIdAttr(v) => v != "" && |v| <= Models.MaxEmployeeIdLength
    case NameAttr(v) => v != "" && |v| <= Models.MaxNameLength
    case DepartmentAttr(v) => |v| <= Models.MaxDepartmentLength
    case SalaryAttr(v) => v >= 0.0
    case JoiningDateAttr(v) => !After(v, today)
    case SkillsAttr(v) => forall i :: 0 <= i < |v| ==> |v[i]| <= Models.MaxSkillLength
  }

  /** A save passes its checks exactly when every field is saveable. */
  lemma DocumentErrorsByField(e: Models.Employee, today: Date)
    ensures Models.DocumentErrors(e, today) == [] <==> forall f :: Saveable(AttrOf(e, f), today)
  {
    assert Saveable(AttrOf(e, EmployeeIdField), today) && Saveable(AttrOf(e, NameField), today)
      && Saveable(AttrOf(e, DepartmentField), today) && Saveable(AttrOf(e, SalaryField), today)
      && Saveable(AttrOf(e, JoiningDateField), today) && Saveable(AttrOf(e, SkillsField), today)
      <==> Models.DocumentErrors(e, today) == [];
  }

  /** Every value the serializer accepts also passes the document's checks for that field. */
  lemma AcceptedIsSaveable(a: Attr, today: Date)
    requires CheckAttr(a, today).Success?
    ensures Saveable(a, today)
  {
    if a.SkillsAttr? {
      forall i | 0 <= i < |a.skills| ensures |a.skills[i]| <= Models.MaxSkillLength {
        assert CharField(a.skills[i], Models.MaxSkillLength).Success?;
      }
    }
  }

  /** A document built from an accepted full body passes `clean` and the field checks on save. */
  lemma CreatedRecordSaveable(p: Payload, today: Date)
    requires IsValid(p, today, false).Success?
    ensures Models.DocumentErrors(PayloadRecord(p), today) == []
  {
    var e := PayloadRecord(p);
    forall f ensures Saveable(AttrOf(e, f), today) {
      assert !RunField(f, p, today, false).Invalid?;
      AcceptedIsSaveable(AttrOf(e, f), today);
    }
    DocumentErrorsByField(e, today);
  }

  /**
   * Applying an accepted partial body to a stored document whose joining date is not after
   * today gives a document that passes `clean` and the field checks on save.
   */
  lemma UpdatedRecordSaveable(e: Models.Employee, p: Payload, today: Date)
    requires Models.Storable(e) && !After(e.joiningDate, today)
    requires IsValid(p, today, true).Success?
    ensures Models.DocumentErrors(Overlay(e, p), today) == []
  {
    DocumentErrorsByField(e, today);
    var r := Overlay(e, p);
    forall f ensures Saveable(AttrOf(r, f), today) {
      if Supplied(p, f).Some? {
        assert !RunField(f, p, today, true).Invalid?;
        AcceptedIsSaveable(Supplied(p, f).value, today);
      }
    }
    DocumentErrorsByField(r, today);
  }

  /** A body with a negative salary and a future joining date is refused with one error for each. */
  lemma NegativeSalaryAndFutureDate(p: Payload, today: Date)
    requires p.salary == Some(-1.0)
    requires p.joiningDate.Some? && After(p.joiningDate.value, today)
    ensures IsValid(p, today, false).Failure?
    ensures FieldError(SalaryField, NegativeSalary) in IsValid(p, today, false).error
    ensures FieldError(JoiningDateField, FutureDate) in IsValid(p, today, false).error
    ensures forall e :: e in IsValid(p, today, false).error && e.field == SalaryField ==> e.problem == NegativeSalary
    ensures forall e :: e in IsValid(p, today, false).error && e.field == JoiningDateField ==> e.problem == FutureDate
  {
    assert RunField(SalaryField, p, today, false) == Invalid(NegativeSalary);
    assert RunField(JoiningDateField, p, today, false) == Invalid(FutureDate);
  }
}
