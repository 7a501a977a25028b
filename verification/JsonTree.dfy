/**
 JSON values as trees, and what parson keeps true of every tree it builds.
 Numbers are exact reals: rounding to a double is not part of the model.
 */
module JsonTree {
  import opened CString

  datatype Json =
    | Null
    | Boolean(b: bool)
    | Number(x: real)
    | String(chars: bytes)
    | Array(items: seq<Json>)
    | Object(members: seq<Member>)

  datatype Member = Member(name: bytes, value: Json)

  const MAX_NESTING: nat := 2048

  predicate Distinct(members: seq<Member>) {
    forall i, j | 0 <= i < j < |members| :: members[i].name != members[j].name
  }

  /**
   A tree that sits inside `nesting` containers: no node inside more than 2048
   containers, names of an object pairwise different C strings without NUL.
   */
  ghost predicate WellFormed(v: Json, nesting: nat)
    decreases v
  {
    && nesting <= MAX_NESTING
    && (match v
        case Array(items) => forall i | 0 <= i < |items| :: WellFormed(items[i], nesting + 1)
        case Object(members) =>
          && Distinct(members)
          && forall i | 0 <= i < |members| :: NulFree(members[i].name) && WellFormed(members[i].value, nesting + 1)
        case _ => true)
  }

  /** The members of an object that sits inside `nesting - 1` containers. */
  ghost predicate WellFormedMembers(members: seq<Member>, nesting: nat) {
    && Distinct(members)
    && forall i | 0 <= i < |members| :: NulFree(members[i].name) && WellFormed(members[i].value, nesting)
  }

  /** `json_object_getn_value`: the index of the first member called `name`. */
  function Find(members: seq<Member>, name: bytes): (r: Option<nat>)
    ensures r.Some? ==> r.value < |members| && members[r.value].name == name
    ensures r.Some? ==> forall i | 0 <= i < r.value :: members[i].name != name
    ensures r.None? ==> forall i | 0 <= i < |members| :: members[i].name != name
  {
    if members == [] then None
    else if members[0].name == name then Some(0)
    else
      match Find(members[1..], name)
      case None => None
      case Some(i) => Some(i + 1)
  }

  function Get(members: seq<Member>, name: bytes): Option<Json> {
    match Find(members, name)
    case None => None
    case Some(i) => Some(members[i].value)
  }

  /** In an object with distinct names every member is found under its own name. */
  lemma FindOwnName(members: seq<Member>, i: nat)
    requires Distinct(members) && i < |members|
    ensures Find(members, members[i].name) == Some(i)
    ensures Get(members, members[i].name) == Some(members[i].value)
  {
  }

  /** No object of the tree has two members of one name. */
  ghost predicate UniqueNames(v: Json)
    decreases v
  {
    match v
    case Array(items) => forall i | 0 <= i < |items| :: UniqueNames(items[i])
    case Object(members) => Distinct(members) && forall i | 0 <= i < |members| :: UniqueNames(members[i].value)
    case _ => true
  }

  lemma {:induction false} WellFormedHasUniqueNames(v: Json, nesting: nat)
    requires WellFormed(v, nesting)
    ensures UniqueNames(v)
    decreases v
  {
    match v
    case Array(items) =>
      forall i | 0 <= i < |items|
        ensures UniqueNames(items[i])
      {
        WellFormedHasUniqueNames(items[i], nesting + 1);
      }
    case Object(members) =>
      forall i | 0 <= i < |members|
        ensures UniqueNames(members[i].value)
      {
        WellFormedHasUniqueNames(members[i].value, nesting + 1);
      }
    case _ =>
  }
}
