/**
 * The add/edit form of components/AddEditModal.tsx: its working copy, the
 * per-field validation and the save request a valid submit emits.
 */
module Form {
  import opened Nullable
  import opened JsText
  import opened Types
  import opened Store

  /** A value a form field can hold at run time. */
  datatype JsValue = Null | Num(n: int) | Str(s: string)

  /**
   * The keys of the working copy (`keyof typeof formData`). The dialog has
   * inputs only for the netID, the names, the department, the title and the
   * year, so no change event ever names `Email` or `CollegeOrSchool`.
   */
  datatype Field = NetID | FirstName | LastName | Email | DepartmentName | CollegeOrSchool | Title | Year

  /**
   * The working copy. Inputs write strings, so `year` starts as a number and
   * becomes text once the user edits it.
   */
  datatype FormData = FormData(
    netID: string,
    firstName: string,
    lastName: string,
    email: Option<string>,
    departmentName: string,
    collegeOrSchool: string,
    title: Option<string>,
    year: JsValue)

  const DefaultDepartment := "Computer Science and Engineering"
  const DefaultCollege := "College of Engineering"

  const FirstNameRequired := "First name is required."
  const LastNameRequired := "Last name is required."
  const TitleRequired := "Publication title is required."
  const YearRequired := "Year is required."
  const YearInvalid := "Please enter a valid year."

  function FromNullable(s: Option<string>): JsValue {
    match s
    case None => Null
    case Some(t) => Str(t)
  }

  /** `formData[f]`. */
  function ValueOf(fd: FormData, f: Field): JsValue {
    match f
    case NetID => Str(fd.netID)
    case FirstName => Str(fd.firstName)
    case LastName => Str(fd.lastName)
    case Email => FromNullable(fd.email)
    case DepartmentName => Str(fd.departmentName)
    case CollegeOrSchool => Str(fd.collegeOrSchool)
    case Title => FromNullable(fd.title)
    case Year => fd.year
  }

  // ---------------------------------------------------------------------
  // Initialisation (components/AddEditModal.tsx:14-23, 27-51)
  // ---------------------------------------------------------------------

  /** The working copy for a new record. */
  function BlankForm(currentYear: int): FormData {
    FormData("", "", "", Some(""), DefaultDepartment, DefaultCollege, Some(""), Num(currentYear))
  }

  /**
   * The working copy after opening: the record's fields, with '' for a null
   * email or title and the current year for a falsy year; the defaults when
   * there is no record.
   */
  function InitialForm(publication: Option<Publication>, currentYear: int): (fd: FormData)
    ensures publication.None? ==> fd == BlankForm(currentYear)
    ensures publication.Some? ==>
      var p := publication.value;
      && fd.netID == p.netID && fd.firstName == p.firstName && fd.lastName == p.lastName
      && fd.departmentName == p.departmentName && fd.collegeOrSchool == p.collegeOrSchool
      && fd.email == Some(if p.email.Some? then p.email.value else "")
      && fd.title == Some(if p.title.Some? then p.title.value else "")
      && fd.year == Num(if TruthyNumber(p.year) then p.year.value else currentYear)
  {
    match publication
    case None => BlankForm(currentYear)
    case Some(p) =>
      FormData(p.netID, p.firstName, p.lastName, Some(p.email.GetOr("")),
               p.departmentName, p.collegeOrSchool, Some(p.title.GetOr("")),
               Num(if TruthyNumber(p.year) then p.year.value else currentYear))
  }

  // ---------------------------------------------------------------------
  // Field change (components/AddEditModal.tsx:53-56)
  // ---------------------------------------------------------------------

  /** `{ ...prev, [name]: value }`: the named field becomes the input's text, the rest stay. */
  function WithField(fd: FormData, name: Field, value: string): (r: FormData)
    ensures ValueOf(r, name) == Str(value)
    ensures forall f :: f != name ==> ValueOf(r, f) == ValueOf(fd, f)
  {
    match name
    case NetID => fd.(netID := value)
    case FirstName => fd.(firstName := value)
    case LastName => fd.(lastName := value)
    case Email => fd.(email := Some(value))
    case DepartmentName => fd.(departmentName := value)
    case CollegeOrSchool => fd.(collegeOrSchool := value)
    case Title => fd.(title := Some(value))
    case Year => fd.(year := Str(value))
  }

  // ---------------------------------------------------------------------
  // Validation (components/AddEditModal.tsx:58-69)
  // ---------------------------------------------------------------------

  /** `!value` for the year field: null, the number 0 and the empty text are falsy. */
  predicate FalsyValue(v: JsValue) {
    v.Null? || v == Num(0) || v == Str("")
  }

  /** `Number(value)`; None stands for NaN. */
  function ToNumber(v: JsValue): Option<int> {
    match v
    case Null => Some(0)
    case Num(n) => Some(n)
    case Str(s) => StringToNumber(s)
  }

  /** The number is not NaN and lies in [1900, currentYear + 5]. */
  predicate YearInRange(v: JsValue, currentYear: int) {
    ToNumber(v).Some? && 1900 <= ToNumber(v).value <= currentYear + 5
  }

  /** `!formData.f?.trim()` for a string field: null, or empty once trimmed. */
  predicate TrimmedFalsy(s: Option<string>) {
    s.None? || Trim(s.value) == ""
  }

  /** The trimmed-falsy test is the blank test. */
  lemma TrimmedFalsyIffBlank(s: Option<string>)
    ensures TrimmedFalsy(s) <==> s.None? || IsBlank(s.value)
  {
    if s.Some? {
      TrimEmptyIffBlank(s.value);
    }
  }

  /** The message `validate` records for field `f`, if its check fails. */
  function FieldError(fd: FormData, f: Field, currentYear: int): Option<string> {
    match f
    case FirstName => if TrimmedFalsy(Some(fd.firstName)) then Some(FirstNameRequired) else None
    case LastName => if TrimmedFalsy(Some(fd.lastName)) then Some(LastNameRequired) else None
    case Title => if TrimmedFalsy(fd.title) then Some(TitleRequired) else None
    case Year =>
      if FalsyValue(fd.year) then Some(YearRequired)
      else if !YearInRange(fd.year, currentYear) then Some(YearInvalid)
      else None
    case _ => None
  }

  /** The fields `validate` checks. */
  const CheckedFields: set<Field> := {FirstName, LastName, Title, Year}

  /** The error map `validate` computes: one entry per checked field whose check fails. */
  function Errors(fd: FormData, currentYear: int): (e: map<Field, string>)
    ensures forall f :: f in e <==> f in CheckedFields && FieldError(fd, f, currentYear).Some?
    ensures forall f :: f in e ==> e[f] == FieldError(fd, f, currentYear).value
  {
    map f | f in CheckedFields && FieldError(fd, f, currentYear).Some? :: FieldError(fd, f, currentYear).value
  }

  /** `m[f]`, with None for a missing key. */
  function Lookup(m: map<Field, string>, f: Field): Option<string> {
    if f in m then Some(m[f]) else None
  }

  /** An error map that holds only checked fields and agrees with every check is the error map. */
  lemma ErrorsDeterminedByChecks(m: map<Field, string>, fd: FormData, currentYear: int)
    requires m.Keys <= CheckedFields
    requires forall f :: f in CheckedFields ==> FieldError(fd, f, currentYear) == Lookup(m, f)
    ensures m == Errors(fd, currentYear)
  {
  }

  /** Only the four checked fields can carry an error. */
  lemma ErrorKeys(fd: FormData, currentYear: int)
    ensures Errors(fd, currentYear).Keys <= CheckedFields
  {
  }

  /** A name or title error is present exactly when that field is null or blank, with its fixed message. */
  lemma TextErrors(fd: FormData, currentYear: int)
    ensures var e := Errors(fd, currentYear);
      && (FirstName in e <==> IsBlank(fd.firstName))
      && (LastName in e <==> IsBlank(fd.lastName))
      && (Title in e <==> fd.title.None? || IsBlank(fd.title.value))
      && (FirstName in e ==> e[FirstName] == FirstNameRequired)
      && (LastName in e ==> e[LastName] == LastNameRequired)
      && (Title in e ==> e[Title] == TitleRequired)
  {
    var e := Errors(fd, currentYear);
    TrimmedFalsyIffBlank(Some(fd.firstName));
    TrimmedFalsyIffBlank(Some(fd.lastName));
    TrimmedFalsyIffBlank(fd.title);
    assert FirstName in CheckedFields && LastName in CheckedFields && Title in CheckedFields;
  }

  /** The year error: "required" for a falsy year, otherwise present exactly when the year is NaN or out of range. */
  lemma YearError(fd: FormData, currentYear: int)
    ensures var e := Errors(fd, currentYear);
      && (Year in e <==> FalsyValue(fd.year) || !YearInRange(fd.year, currentYear))
      && (Year in e ==> e[Year] == if FalsyValue(fd.year) then YearRequired else YearInvalid)
  {
  }

  /** Every check passes: the independent statement of what `validate` accepts. */
  predicate IsValid(fd: FormData, currentYear: int) {
    && !IsBlank(fd.firstName)
    && !IsBlank(fd.lastName)
    && fd.title.Some? && !IsBlank(fd.title.value)
    && !FalsyValue(fd.year)
    && YearInRange(fd.year, currentYear)
  }

  /** `validate()` returns true exactly when every check passes. */
  lemma NoErrorsIffValid(fd: FormData, currentYear: int)
    ensures Errors(fd, currentYear) == map[] <==> IsValid(fd, currentYear)
  {
    TextErrors(fd, currentYear);
    YearError(fd, currentYear);
    var e := Errors(fd, currentYear);
    if !IsValid(fd, currentYear) {
      assert FirstName in e || LastName in e || Title in e || Year in e;
    }
  }

  // ---------------------------------------------------------------------
  // Submit (components/AddEditModal.tsx:71-81)
  // ---------------------------------------------------------------------

  /** `{ ...formData, year: Number(formData.year) }`. */
  function Coerced(fd: FormData): Draft {
    Draft(fd.netID, fd.firstName, fd.lastName, fd.email, fd.departmentName,
          fd.collegeOrSchool, fd.title, ToNumber(fd.year))
  }

  /**
   * The one `onSave` call a submit makes, or None when it makes none: only a
   * valid form is saved, with the year coerced to a number and the edited
   * record's id attached when that id is truthy.
   */
  function SubmitRequest(fd: FormData, publication: Option<Publication>, currentYear: int)
    : (r: Option<SaveRequest>)
    ensures r.Some? <==> IsValid(fd, currentYear)
    ensures r.Some? ==> r.value.data == Coerced(fd)
    ensures r.Some? ==> r.value.data.year.Some? && 1900 <= r.value.data.year.value <= currentYear + 5
    ensures r.Some? && publication.Some? && publication.value.id != "" ==> r.value.id == Some(publication.value.id)
    ensures r.Some? && !(publication.Some? && publication.value.id != "") ==> r.value.id == None
  {
    NoErrorsIffValid(fd, currentYear);
    if Errors(fd, currentYear) == map[] then
      var data := Coerced(fd);
      if publication.Some? && publication.value.id != "" then Some(SaveRequest(Some(publication.value.id), data))
      else Some(SaveRequest(None, data))
    else None
  }

  /** The form component's state: the working copy and the error messages shown. */
  class AddEditForm {
    var formData: FormData
    var errors: map<Field, string>

    /** The initial `useState` values: a blank form and no errors. */
    constructor (currentYear: int)
      ensures formData == BlankForm(currentYear) && errors == map[]
    {
      formData := BlankForm(currentYear);
      errors := map[];
    }

    /**
     * The reset effect, which runs whenever the dialog's open flag or its
     * record changes, closing included; errors are left as they were.
     */
    method Open(publication: Option<Publication>, currentYear: int)
      modifies this
      ensures formData == InitialForm(publication, currentYear)
      ensures errors == old(errors)
    {
      formData := InitialForm(publication, currentYear);
    }

    /** `handleChange`: one input wrote `value` into field `name`. */
    method Change(name: Field, value: string)
      modifies this
      ensures formData == WithField(old(formData), name, value)
      ensures ValueOf(formData, name) == Str(value)
      ensures forall f :: f != name ==> ValueOf(formData, f) == ValueOf(old(formData), f)
      ensures errors == old(errors)
    {
      formData := WithField(formData, name, value);
    }

    /** `validate`: fill the error map check by check, show it, and report whether it is empty. */
    method Validate(currentYear: int) returns (valid: bool)
      modifies this
      ensures formData == old(formData)
      ensures errors == Errors(formData, currentYear)
      ensures valid <==> IsValid(formData, currentYear)
    {
      var newErrors: map<Field, string> := map[];
      if Trim(formData.firstName) == "" {
        newErrors := newErrors[FirstName := FirstNameRequired];
      }
      if Trim(formData.lastName) == "" {
        newErrors := newErrors[LastName := LastNameRequired];
      }
      if formData.title.None? || Trim(formData.title.value) == "" {
        newErrors := newErrors[Title := TitleRequired];
      }
      if FalsyValue(formData.year) {
        newErrors := newErrors[Year := YearRequired];
      } else if ToNumber(formData.year).None? || ToNumber(formData.year).value < 1900
             || ToNumber(formData.year).value > currentYear + 5 {
        newErrors := newErrors[Year := YearInvalid];
      }
      assert FieldError(formData, FirstName, currentYear) == Lookup(newErrors, FirstName);
      assert FieldError(formData, LastName, currentYear) == Lookup(newErrors, LastName);
      assert FieldError(formData, Title, currentYear) == Lookup(newErrors, Title);
      assert FieldError(formData, Year, currentYear) == Lookup(newErrors, Year);
      ErrorsDeterminedByChecks(newErrors, formData, currentYear);
      errors := newErrors;
      NoErrorsIffValid(formData, currentYear);
      valid := |errors| == 0;
    }

    /** `handleSubmit`: validate, then emit at most one save request; the working copy is kept. */
    method Submit(publication: Option<Publication>, currentYear: int) returns (request: Option<SaveRequest>)
      modifies this
      ensures formData == old(formData)
      ensures errors == Errors(formData, currentYear)
      ensures request == SubmitRequest(formData, publication, currentYear)
    {
      var valid := Validate(currentYear);
      if valid {
        var dataToSave := Coerced(formData);
        if publication.Some? && publication.value.id != "" {
          request := Some(SaveRequest(Some(publication.value.id), dataToSave));
        } else {
          request := Some(SaveRequest(None, dataToSave));
        }
      } else {
        request := None;
      }
    }
  }
}
