/**
 * Properties that tie the form to the store: what a submit of an unchanged
 * form does to the collection, how the checks of `validate` relate to field
 * changes, and the worked examples of the catalog's behaviour.
 */
module Flows {
  import opened Nullable
  import opened JsText
  import opened Types
  import opened Sequences
  import opened Store
  import opened Form

  /** Changing one field never changes the verdict of another field's check. */
  lemma ChangeAffectsOnlyItsCheck(fd: FormData, name: Field, value: string, f: Field, currentYear: int)
    requires f != name
    ensures FieldError(WithField(fd, name, value), f, currentYear) == FieldError(fd, f, currentYear)
  {
  }

  /** A new record's form, in any plausible year, is missing exactly its names and title. */
  lemma NewFormNeedsNamesAndTitle(currentYear: int)
    requires currentYear >= 1900
    ensures Errors(InitialForm(None, currentYear), currentYear).Keys == {FirstName, LastName, Title}
  {
  }

  /** A blank first name with every other field valid gives the first-name error and no other. */
  lemma OnlyFirstNameMissing(fd: FormData, currentYear: int)
    requires IsBlank(fd.firstName)
    requires !IsBlank(fd.lastName) && fd.title.Some? && !IsBlank(fd.title.value)
    requires !FalsyValue(fd.year) && YearInRange(fd.year, currentYear)
    ensures Errors(fd, currentYear) == map[FirstName := FirstNameRequired]
  {
    var e := Errors(fd, currentYear);
    TextErrors(fd, currentYear);
    YearError(fd, currentYear);
    ErrorKeys(fd, currentYear);
    assert e.Keys == {FirstName};
  }

  /** The year messages: too early, too late, and the text "0", which is not falsy. */
  lemma YearMessages(fd: FormData, currentYear: int)
    requires currentYear >= 1900
    ensures fd.year == Num(1899) ==> Errors(fd, currentYear)[Year] == YearInvalid
    ensures fd.year == Num(currentYear + 10) ==> Errors(fd, currentYear)[Year] == YearInvalid
    ensures fd.year == Str("0") ==> Errors(fd, currentYear)[Year] == YearInvalid
    ensures fd.year == Str("") || fd.year == Null || fd.year == Num(0) ==>
      Errors(fd, currentYear)[Year] == YearRequired
  {
  }

  /** Saving the record with its own data leaves a collection with unique ids unchanged. */
  lemma SaveUnchangedIsNoOp(pubs: seq<Publication>, p: Publication, now: int)
    requires p in pubs && UniqueIds(pubs) && p.id != ""
    ensures Saved(pubs, SaveRequest(Some(p.id), DraftOf(p)), now) == pubs
  {
    var r := Saved(pubs, SaveRequest(Some(p.id), DraftOf(p)), now);
    forall k | 0 <= k < |pubs| ensures r[k] == pubs[k] {
      if pubs[k].id == p.id {
        var j :| 0 <= j < |pubs| && pubs[j] == p;
        assert j == k;
      }
    }
  }

  /**
   * Opening the form on a record with a non-null email whose fields already
   * pass every check and submitting it untouched asks for an update carrying exactly the
   * record's data; saving that request leaves the collection unchanged.
   */
  lemma EditUnchangedRoundTrip(pubs: seq<Publication>, p: Publication, currentYear: int, now: int)
    requires p in pubs && UniqueIds(pubs) && p.id != ""
    requires !IsBlank(p.firstName) && !IsBlank(p.lastName)
    requires p.email.Some? && p.title.Some? && !IsBlank(p.title.value)
    requires p.year.Some? && 1900 <= p.year.value <= currentYear + 5
    ensures SubmitRequest(InitialForm(Some(p), currentYear), Some(p), currentYear)
            == Some(SaveRequest(Some(p.id), DraftOf(p)))
    ensures Saved(pubs, SaveRequest(Some(p.id), DraftOf(p)), now) == pubs
  {
  }

  /**
   * Submitting an untouched form on a valid record whose email is null asks
   * to store the empty text as its email, so the save changes that record.
   */
  lemma NullEmailBecomesEmpty(pubs: seq<Publication>, p: Publication, currentYear: int, now: int)
    requires p in pubs && p.id != "" && p.email == None
    requires !IsBlank(p.firstName) && !IsBlank(p.lastName)
    requires p.title.Some? && !IsBlank(p.title.value)
    requires p.year.Some? && 1900 <= p.year.value <= currentYear + 5
    ensures var r := SubmitRequest(InitialForm(Some(p), currentYear), Some(p), currentYear);
      && r.Some? && r.value.id == Some(p.id) && r.value.data.email == Some("")
      && Saved(pubs, r.value, now) != pubs
  {
    var req := SubmitRequest(InitialForm(Some(p), currentYear), Some(p), currentYear).value;
    var k :| 0 <= k < |pubs| && pubs[k] == p;
    assert Saved(pubs, req, now)[k].email == Some("");
  }

  /** Editing a record whose id is empty saves a new record in front instead of updating it. */
  lemma EditOfIdlessRecordCreates(pubs: seq<Publication>, p: Publication, fd: FormData,
                                  currentYear: int, now: int)
    requires p.id == "" && IsValid(fd, currentYear)
    ensures var req := SubmitRequest(fd, Some(p), currentYear).value;
      && req.id == None
      && Saved(pubs, req, now) == [WithId(Coerced(fd), NewId(now))] + pubs
  {
  }

  // ---------------------------------------------------------------------
  // The worked search example: one seed entry by Jane Doe
  // ---------------------------------------------------------------------

  function JaneDraft(): Draft {
    Draft("jd1", "Jane", "Doe", None, "CSE", "COE", Some("Ethics of AI"), Some(2023))
  }

  function Jane(): Publication {
    WithId(JaneDraft(), "jd1-0")
  }

  /** The seed keeps the entry and names it after its netID and position. */
  lemma JaneSeed()
    ensures Seed([JaneDraft()]) == [Jane()]
  {
    var kept := Filter([JaneDraft()], IsComplete);
    assert IsComplete(JaneDraft());
    assert kept == [JaneDraft()];
    assert SeedId("jd1", 0) == "jd1-0";
    assert Numbered(kept, 0) == [WithId(JaneDraft(), SeedId("jd1", 0))] + Numbered([], 1);
  }

  /** A query whose matching is known keeps or drops the single record. */
  lemma FilterSingle(p: Publication, query: string)
    requires query != ""
    ensures FilteredPublications([p], query) == if Matches(p, query) then [p] else []
  {
  }

  /** Searching for "jane" finds the record through its author's name. */
  lemma JaneByName()
    ensures FilteredPublications(Seed([JaneDraft()]), "jane") == Seed([JaneDraft()])
  {
  }

  lemma YearText()
    ensures IntToString(2023) == "2023"
  {
  }

  /** Searching for "2023" finds the record through its year. */
  lemma JaneByYear()
    ensures FilteredPublications(Seed([JaneDraft()]), "2023") == Seed([JaneDraft()])
  {
  }

  /** Searching for "nothing" matches no criterion of the record. */
  lemma JaneNotFound()
    ensures FilteredPublications(Seed([JaneDraft()]), "nothing") == []
  {
    JaneSeed();
    var p := Jane();
    var q := "nothing";
    assert Lower(q) == q;
    var title := Lower(p.title.value);
    assert title == "ethics of ai";
    FirstCharAbsent(title, q);
    var name := Lower(p.firstName + " " + p.lastName);
    assert name == "jane doe";
    StartsWithHead(name, q);
    StartsWithHead(name[1..], q);
    NotIncludedWhenShorter(name[2..], q);
    assert !Includes(name, q);
    YearText();
    NotIncludedWhenShorter("2023", q);
    assert !Matches(p, q);
    FilterSingle(p, q);
  }

  lemma {:induction false} NotIncludedWhenShorter(s: string, t: string)
    requires |s| < |t|
    ensures !Includes(s, t)
  {
    if s != [] {
      NotIncludedWhenShorter(s[1..], t);
    }
  }

  lemma StartsWithHead(s: string, t: string)
    requires s != [] && t != [] && s[0] != t[0]
    ensures !StartsWith(s, t)
  {
  }

  /** A string that lacks the first character of `t` does not contain `t`. */
  lemma {:induction false} FirstCharAbsent(s: string, t: string)
    requires t != [] && t[0] !in s
    ensures !Includes(s, t)
  {
    if s != [] {
      StartsWithHead(s, t);
      FirstCharAbsent(s[1..], t);
    }
  }
}
