/**
 * The record store of App.tsx as values: the startup load with its seed,
 * the search filter, save (update by merge or create by prepend) and delete.
 * Each is a function from the old collection to the new one.
 */
module Store {
  import opened Nullable
  import opened JsText
  import opened Types
  import opened Sequences

  // ---------------------------------------------------------------------
  // Seed collection (App.tsx:19-21)
  // ---------------------------------------------------------------------

  /** `p.title && p.year`: a seed entry is kept only when both are truthy. */
  predicate IsComplete(d: Draft) {
    TruthyText(d.title) && TruthyNumber(d.year)
  }

  /** The template id `${netID}-${index}` of a seed record. */
  function SeedId(netID: string, index: nat): string {
    netID + "-" + NatToString(index)
  }

  /** `map((p, index) => ({ ...p, id: `${p.netID}-${index}` }))`, counting from `from`. */
  function Numbered(kept: seq<Draft>, from: nat): (r: seq<Publication>)
    ensures |r| == |kept|
    ensures forall k :: 0 <= k < |kept| ==> r[k] == WithId(kept[k], SeedId(kept[k].netID, from + k))
    decreases |kept|
  {
    if kept == [] then []
    else [WithId(kept[0], SeedId(kept[0].netID, from))] + Numbered(kept[1..], from + 1)
  }

  /** The collection built from the bundled dataset when nothing is stored. */
  function Seed(data: seq<Draft>): (r: seq<Publication>)
    ensures |r| == |Filter(data, IsComplete)|
    ensures forall k :: 0 <= k < |r| ==>
      DraftOf(r[k]) == Filter(data, IsComplete)[k] && r[k].id == SeedId(r[k].netID, k)
    ensures forall p :: p in r ==> IsComplete(DraftOf(p))
  {
    var kept := Filter(data, IsComplete);
    var r := Numbered(kept, 0);
    assert forall p :: p in r ==> DraftOf(p) in kept by {
      forall p | p in r ensures DraftOf(p) in kept {
        var k :| 0 <= k < |r| && r[k] == p;
        assert DraftOf(p) == kept[k];
      }
    }
    r
  }

  /** The characters after the last `-` of `s`, or all of `s` when it has none. */
  function AfterLastDash(s: string): string
    decreases |s|
  {
    if s == [] then []
    else if s[|s| - 1] == '-' then []
    else AfterLastDash(s[..|s| - 1]) + [s[|s| - 1]]
  }

  /** An id `a-t` whose last part `t` has no dash gives back `t`. */
  lemma {:induction false} AfterLastDashOfSuffix(a: string, t: string)
    requires forall i :: 0 <= i < |t| ==> t[i] != '-'
    ensures AfterLastDash(a + "-" + t) == t
  {
    var s := a + "-" + t;
    if t == [] {
      assert s[|s| - 1] == '-';
    } else {
      var u := t[..|t| - 1];
      assert s[..|s| - 1] == a + "-" + u;
      assert s[|s| - 1] == t[|t| - 1];
      AfterLastDashOfSuffix(a, u);
      assert t == u + [t[|t| - 1]];
    }
  }

  /**
   * A seed id starts with the netID and a dash, and the index can be read
   * back from the part after its last dash.
   */
  lemma SeedIdParts(netID: string, index: nat)
    ensures var r := SeedId(netID, index);
      && |r| > |netID| && r[..|netID| + 1] == netID + "-"
      && AfterLastDash(r) == NatToString(index)
  {
    var t := NatToString(index);
    assert forall k :: 0 <= k < |t| ==> t[k] != '-' by {
      forall k | 0 <= k < |t| ensures t[k] != '-' { assert IsDigit(t[k]); }
    }
    AfterLastDashOfSuffix(netID, t);
  }

  /** The index part of a seed id can be read back, so different indices give different ids. */
  lemma SeedIdInjective(a: string, i: nat, b: string, j: nat)
    requires SeedId(a, i) == SeedId(b, j)
    ensures i == j
  {
    SeedIdParts(a, i);
    SeedIdParts(b, j);
    NatToStringInjective(i, j);
  }

  /** Seed records at distinct positions have distinct ids, whatever their netIDs. */
  lemma SeedIdsUnique(data: seq<Draft>)
    ensures UniqueIds(Seed(data))
  {
    var r := Seed(data);
    forall i, j | 0 <= i < j < |r| ensures r[i].id != r[j].id {
      if r[i].id == r[j].id {
        SeedIdInjective(r[i].netID, i, r[j].netID, j);
      }
    }
  }

  // ---------------------------------------------------------------------
  // Startup load (App.tsx:10-22)
  // ---------------------------------------------------------------------

  /**
   * The initial collection. `saved` is the stored text (None when the slot
   * is empty) and `parse` stands for `JSON.parse`, None meaning it threw.
   */
  function Load(saved: Option<string>, parse: string -> Option<seq<Publication>>, data: seq<Draft>)
    : (r: seq<Publication>)
    ensures TruthyText(saved) && parse(saved.value).Some? ==> r == parse(saved.value).value
    ensures TruthyText(saved) && parse(saved.value).None? ==> r == []
    ensures !TruthyText(saved) ==> r == Seed(data)
  {
    if TruthyText(saved) then
      match parse(saved.value)
      case Some(v) => v
      case None => []
    else Seed(data)
  }

  /**
   * Writing a collection and reading it back at the next start gives the same
   * collection, when `parse` inverts `stringify` and `stringify` never
   * produces the empty text (JSON.stringify of an array is at least `[]`).
   */
  lemma ReloadRoundTrip(pubs: seq<Publication>, stringify: seq<Publication> -> string,
                        parse: string -> Option<seq<Publication>>, data: seq<Draft>)
    requires stringify(pubs) != ""
    requires parse(stringify(pubs)) == Some(pubs)
    ensures Load(Some(stringify(pubs)), parse, data) == pubs
  {
  }

  /** A stored text that fails to parse loses the seed too: the catalog starts empty. */
  lemma MalformedStoreIsEmpty(saved: string, parse: string -> Option<seq<Publication>>, data: seq<Draft>)
    requires saved != "" && parse(saved).None?
    ensures Load(Some(saved), parse, data) == []
  {
  }

  // ---------------------------------------------------------------------
  // Search filter (App.tsx:34-41)
  // ---------------------------------------------------------------------

  /** The three criteria of the free-text search; a null title or year never matches on its own criterion. */
  predicate Matches(p: Publication, query: string) {
    var q := Lower(query);
    || (p.title.Some? && Includes(Lower(p.title.value), q))
    || Includes(Lower(p.firstName + " " + p.lastName), q)
    || (p.year.Some? && Includes(IntToString(p.year.value), query))
  }

  /**
   * A record matches exactly when the lower-cased query occurs in its
   * lower-cased title or "first last" name, or the raw query occurs in the
   * decimal text of its year.
   */
  lemma MatchesIffOccurs(p: Publication, query: string)
    ensures Matches(p, query) <==>
      || (p.title.Some? && exists k: nat :: OccursAt(Lower(p.title.value), Lower(query), k))
      || (exists k: nat :: OccursAt(Lower(p.firstName + " " + p.lastName), Lower(query), k))
      || (p.year.Some? && exists k: nat :: OccursAt(IntToString(p.year.value), query, k))
  {
    if p.title.Some? {
      IncludesIffOccurs(Lower(p.title.value), Lower(query));
    }
    IncludesIffOccurs(Lower(p.firstName + " " + p.lastName), Lower(query));
    if p.year.Some? {
      IncludesIffOccurs(IntToString(p.year.value), query);
    }
  }

  function MatchesQuery(query: string): Publication -> bool {
    (p: Publication) => Matches(p, query)
  }

  /** `filteredPublications`: the records the list shows for `query`. */
  function FilteredPublications(pubs: seq<Publication>, query: string): (r: seq<Publication>)
    ensures query == "" ==> r == pubs
    ensures forall p :: p in r <==> p in pubs && Matches(p, query)
    ensures forall p :: multiset(r)[p] == if Matches(p, query) then multiset(pubs)[p] else 0
  {
    if query == "" then
      assert forall p :: Matches(p, query) by {
        forall p ensures Matches(p, query) { IncludesEmpty(Lower(p.firstName + " " + p.lastName)); }
      }
      pubs
    else
      FilterCounts(pubs, MatchesQuery(query));
      Filter(pubs, MatchesQuery(query))
  }

  lemma {:induction false} SubsequenceReflexive<T>(s: seq<T>)
    ensures IsSubsequence(s, s)
  {
    if s != [] {
      SubsequenceReflexive(s[1..]);
    }
  }

  /** The filtered list keeps the collection's order. */
  lemma FilteredKeepsOrder(pubs: seq<Publication>, query: string)
    ensures IsSubsequence(FilteredPublications(pubs, query), pubs)
  {
    if query == "" {
      SubsequenceReflexive(pubs);
    } else {
      FilterIsSubsequence(pubs, MatchesQuery(query));
    }
  }

  /**
   * The `if (!searchQuery)` shortcut agrees with filtering: every record
   * matches the empty query through its name criterion.
   */
  lemma EmptyQueryKeepsAll(pubs: seq<Publication>)
    ensures Filter(pubs, MatchesQuery("")) == pubs
  {
  }

  /** Searching the search result again with the same query changes nothing. */
  lemma FilteredIdempotent(pubs: seq<Publication>, query: string)
    ensures FilteredPublications(FilteredPublications(pubs, query), query) == FilteredPublications(pubs, query)
  {
    if query != "" {
      FilterIdempotent(pubs, MatchesQuery(query));
    }
  }

  // ---------------------------------------------------------------------
  // Save (App.tsx:68-82)
  // ---------------------------------------------------------------------

  /** What the form hands to `onSave`: the record's data and, when editing, its id. */
  datatype SaveRequest = SaveRequest(id: Option<string>, data: Draft)

  /** `{ ...p, ...pub }`: the request carries every data field, so they all replace p's; the id stays. */
  function Merge(p: Publication, d: Draft): (m: Publication)
    ensures m.id == p.id && DraftOf(m) == d
  {
    WithId(d, p.id)
  }

  /** `prev.map(p => (p.id === id ? { ...p, ...pub } : p))`. */
  function Updated(prev: seq<Publication>, id: string, d: Draft): (r: seq<Publication>)
    ensures |r| == |prev|
    ensures forall k :: 0 <= k < |prev| ==> r[k] == if prev[k].id == id then Merge(prev[k], d) else prev[k]
  {
    if prev == [] then []
    else [if prev[0].id == id then Merge(prev[0], d) else prev[0]] + Updated(prev[1..], id, d)
  }

  /** The id `new-${Date.now()}` given to a created record; `now` is the clock reading. */
  function NewId(now: int): (r: string)
    ensures |r| > 4 && r[..4] == "new-"
    ensures StringToNumber(r[4..]) == Some(now)
  {
    var r := "new-" + IntToString(now);
    assert r[4..] == IntToString(now);
    NumberOfToString(now);
    r
  }

  /** `handleSave`'s new collection: update when the request has a truthy id, otherwise create. */
  function Saved(prev: seq<Publication>, req: SaveRequest, now: int): (r: seq<Publication>)
    ensures TruthyText(req.id) ==> |r| == |prev| && forall k :: 0 <= k < |prev| ==>
      if prev[k].id == req.id.value then r[k].id == prev[k].id && DraftOf(r[k]) == req.data
      else r[k] == prev[k]
    ensures !TruthyText(req.id) ==>
      |r| == |prev| + 1 && r[0].id == NewId(now) && DraftOf(r[0]) == req.data && r[1..] == prev
  {
    if TruthyText(req.id) then Updated(prev, req.id.value, req.data)
    else [WithId(req.data, NewId(now))] + prev
  }

  /** An update naming an id that no record has leaves the collection as it was. */
  lemma UpdateUnknownIdIsNoOp(prev: seq<Publication>, id: string, d: Draft)
    requires id !in Ids(prev)
    ensures Updated(prev, id, d) == prev
  {
  }

  /** Save keeps ids unique, provided a created record's clock-based id is not taken. */
  lemma SavePreservesUniqueIds(prev: seq<Publication>, req: SaveRequest, now: int)
    requires UniqueIds(prev)
    requires !TruthyText(req.id) ==> NewId(now) !in Ids(prev)
    ensures UniqueIds(Saved(prev, req, now))
  {
  }

  /** Save never loses an id, and creation adds exactly the new one. */
  lemma SavedIds(prev: seq<Publication>, req: SaveRequest, now: int)
    ensures TruthyText(req.id) ==> Ids(Saved(prev, req, now)) == Ids(prev)
    ensures !TruthyText(req.id) ==> Ids(Saved(prev, req, now)) == Ids(prev) + {NewId(now)}
  {
  }

  // ---------------------------------------------------------------------
  // Delete (App.tsx:59-65)
  // ---------------------------------------------------------------------

  function OtherId(id: string): Publication -> bool {
    (p: Publication) => p.id != id
  }

  /** `pubs.filter(p => p.id !== id)`. */
  function Without(pubs: seq<Publication>, id: string): (r: seq<Publication>)
    ensures forall p :: p in r <==> p in pubs && p.id != id
    ensures forall p :: multiset(r)[p] == if p.id != id then multiset(pubs)[p] else 0
    ensures id !in Ids(r)
  {
    FilterCounts(pubs, OtherId(id));
    Filter(pubs, OtherId(id))
  }

  /** Deleting keeps the remaining records in their relative order. */
  lemma WithoutKeepsOrder(pubs: seq<Publication>, id: string)
    ensures IsSubsequence(Without(pubs, id), pubs)
  {
    FilterIsSubsequence(pubs, OtherId(id));
  }

  /** Deleting an id that no record has leaves the collection as it was. */
  lemma DeleteUnknownIdIsNoOp(pubs: seq<Publication>, id: string)
    requires id !in Ids(pubs)
    ensures Without(pubs, id) == pubs
  {
    FilterAllKept(pubs, OtherId(id));
  }

  /** Keeping some of the records of a collection with unique ids keeps the ids unique. */
  lemma {:induction false} FilterPreservesUniqueIds(pubs: seq<Publication>, keep: Publication -> bool)
    requires UniqueIds(pubs)
    ensures UniqueIds(Filter(pubs, keep))
  {
    if pubs != [] {
      var tail := pubs[1..];
      assert UniqueIds(tail) by {
        forall i, j | 0 <= i < j < |tail| ensures tail[i].id != tail[j].id {
          assert tail[i] == pubs[i + 1] && tail[j] == pubs[j + 1];
        }
      }
      FilterPreservesUniqueIds(tail, keep);
      var rest := Filter(tail, keep);
      if keep(pubs[0]) {
        var r := [pubs[0]] + rest;
        assert Filter(pubs, keep) == r;
        forall i, j | 0 <= i < j < |r| ensures r[i].id != r[j].id {
          if i == 0 {
            assert r[j] == rest[j - 1] && r[j] in tail;
            var m :| 0 <= m < |tail| && tail[m] == r[j];
            assert pubs[m + 1] == r[j];
          } else {
            assert r[i] == rest[i - 1] && r[j] == rest[j - 1];
          }
        }
      }
    }
  }

  /** Delete keeps ids unique. */
  lemma WithoutPreservesUniqueIds(pubs: seq<Publication>, id: string)
    requires UniqueIds(pubs)
    ensures UniqueIds(Without(pubs, id))
  {
    FilterPreservesUniqueIds(pubs, OtherId(id));
  }

  /** With unique ids, no record other than the one at `k` carries its id. */
  lemma OthersHaveOtherIds(pubs: seq<Publication>, k: nat)
    requires k < |pubs| && UniqueIds(pubs)
    ensures forall x :: x in pubs[..k] ==> x.id != pubs[k].id
    ensures forall x :: x in pubs[k + 1..] ==> x.id != pubs[k].id
  {
  }

  /** Deleting the record of a unique id removes exactly one record. */
  lemma DeleteUniqueRemovesOne(pubs: seq<Publication>, k: nat)
    requires k < |pubs| && UniqueIds(pubs)
    ensures Without(pubs, pubs[k].id) == pubs[..k] + pubs[k + 1..]
  {
    var keep := OtherId(pubs[k].id);
    var a, b := pubs[..k], pubs[k + 1..];
    OthersHaveOtherIds(pubs, k);
    assert pubs == a + ([pubs[k]] + b);
    FilterAllKept(a, keep);
    FilterAllKept(b, keep);
    assert Filter([pubs[k]], keep) == [];
    FilterConcat([pubs[k]], b, keep);
    FilterConcat(a, [pubs[k]] + b, keep);
  }
}
