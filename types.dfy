/** JavaScript's `null`: a value that may be absent. */
module Nullable {

  datatype Option<+T> = None | Some(value: T) {

    /** The value held, or `default` when absent (JavaScript's `x || default` for values that are never falsy). */
    function GetOr(default: T): T {
      match this
      case Some(v) => v
      case None => default
    }
  }
}

/** The publication record of the catalog (types.ts). */
module Types {
  import opened Nullable

  /** One publication record, as stored and listed by the catalog. */
  datatype Publication = Publication(
    id: string,
    netID: string,
    firstName: string,
    lastName: string,
    email: Option<string>,
    departmentName: string,
    collegeOrSchool: string,
    title: Option<string>,
    year: Option<int>)

  /** A record without its id: a seed entry, or the data part of a save request. */
  datatype Draft = Draft(
    netID: string,
    firstName: string,
    lastName: string,
    email: Option<string>,
    departmentName: string,
    collegeOrSchool: string,
    title: Option<string>,
    year: Option<int>)

  /** `{ ...d, id }`: the draft's fields under the given id. */
  function WithId(d: Draft, id: string): (p: Publication)
    ensures p.id == id && DraftOf(p) == d
  {
    Publication(id, d.netID, d.firstName, d.lastName, d.email,
                d.departmentName, d.collegeOrSchool, d.title, d.year)
  }

  /** Every field of a record except its id. */
  function DraftOf(p: Publication): Draft {
    Draft(p.netID, p.firstName, p.lastName, p.email,
          p.departmentName, p.collegeOrSchool, p.title, p.year)
  }

  /** JavaScript truthiness of a nullable string: present and not empty. */
  predicate TruthyText(s: Option<string>) {
    s.Some? && s.value != ""
  }

  /** JavaScript truthiness of a nullable number: present and not zero (NaN is not modelled). */
  predicate TruthyNumber(n: Option<int>) {
    n.Some? && n.value != 0
  }

  /** The set of ids used in a collection. */
  function Ids(pubs: seq<Publication>): set<string> {
    set p | p in pubs :: p.id
  }

  /** No two positions of the collection carry the same id. */
  predicate UniqueIds(pubs: seq<Publication>) {
    forall i, j :: 0 <= i < j < |pubs| ==> pubs[i].id != pubs[j].id
  }
}
