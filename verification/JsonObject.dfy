/**
 parson's object: parallel arrays of names and values that grow by doubling, lose a
 member by moving the last one into its place, and stand for a finite map.
 */
module JsonObject {
  import opened CString
  import opened JsonTree

  // ----- the operations on the member sequence -----

  function AddMember(members: seq<Member>, name: bytes, value: Json): Option<seq<Member>> {
    if Find(members, name).Some? then None else Some(members + [Member(name, value)])
  }

  /** A value that sits in a tree already is refused; a known name keeps its place. */
  function SetMember(members: seq<Member>, name: bytes, value: Json, hasParent: bool): Option<seq<Member>> {
    if hasParent then None
    else
      match Find(members, name)
      case Some(i) => Some(members[i := Member(name, value)])
      case None => AddMember(members, name, value)
  }

  /** The last member takes the place of member `i`. */
  function DropAt(members: seq<Member>, i: nat): seq<Member>
    requires i < |members|
  {
    var last := |members| - 1;
    if i == last then members[..last] else members[i := members[last]][..last]
  }

  function RemoveMember(members: seq<Member>, name: bytes): Option<seq<Member>> {
    match Find(members, name)
    case None => None
    case Some(i) => Some(DropAt(members, i))
  }

  // ----- the map an object stands for -----

  function ToMap(members: seq<Member>): (m: map<bytes, Json>)
    requires Distinct(members)
    ensures forall i | 0 <= i < |members| :: members[i].name in m && m[members[i].name] == members[i].value
    ensures forall name | name in m :: exists i :: 0 <= i < |members| && members[i].name == name
  {
    map i | 0 <= i < |members| :: members[i].name := members[i].value
  }

  /** Lookup by name and lookup in the map agree. */
  lemma GetIsMapLookup(members: seq<Member>, name: bytes)
    requires Distinct(members)
    ensures Get(members, name) == if name in ToMap(members) then Some(ToMap(members)[name]) else None
  {
  }

  /** Two objects with the same names and values in any order stand for the same map. */
  lemma SameMap(a: seq<Member>, m: map<bytes, Json>)
    requires Distinct(a)
    requires forall name :: Get(a, name) == if name in m then Some(m[name]) else None
    ensures ToMap(a) == m
  {
    forall name
      ensures name in ToMap(a) <==> name in m
      ensures name in m ==> ToMap(a)[name] == m[name]
    {
      GetIsMapLookup(a, name);
      assert Get(a, name) == if name in m then Some(m[name]) else None;
    }
  }

  /** A member put at the end under a new name is one new entry of the map. */
  lemma MapSnoc(members: seq<Member>, m: Member)
    requires Distinct(members) && Distinct(members + [m])
    ensures m.name !in ToMap(members)
    ensures ToMap(members + [m]) == ToMap(members)[m.name := m.value]
  {
    hide ToMap, Find;
    GetAfterAdd(members, m, m.name);
    GetIsMapLookup(members, m.name);
    forall n
      ensures Get(members + [m], n)
           == if n in ToMap(members)[m.name := m.value] then Some(ToMap(members)[m.name := m.value][n]) else None
    {
      GetIsMapLookup(members, n);
      GetAfterAdd(members, m, n);
    }
    SameMap(members + [m], ToMap(members)[m.name := m.value]);
  }

  lemma GetAfterAdd(members: seq<Member>, m: Member, n: bytes)
    requires Distinct(members + [m])
    ensures Get(members, m.name).None?
    ensures Get(members + [m], n) == if n == m.name then Some(m.value) else Get(members, n)
  {
    var all := members + [m];
    assert all[|members|] == m;
    assert forall i | 0 <= i < |members| :: all[i] == members[i] && members[i].name != m.name;
    if n == m.name {
      FindOwnName(all, |members|);
    } else if Find(members, n).Some? {
      FindOwnName(all, Find(members, n).value);
    }
  }

  lemma {:induction false} MapSize(members: seq<Member>)
    requires Distinct(members)
    ensures |ToMap(members)| == |members|
    decreases |members|
  {
    hide ToMap;
    if members == [] {
      EmptyMap();
    } else {
      var front, m := members[..|members| - 1], members[|members| - 1];
      assert front + [m] == members;
      MapSize(front);
      MapSnoc(front, m);
    }
  }

  lemma EmptyMap()
    ensures Distinct([]) && ToMap([]) == map[]
  {
  }

  lemma AddRefinesMap(members: seq<Member>, name: bytes, value: Json)
    requires Distinct(members)
    ensures AddMember(members, name, value).Some? <==> name !in ToMap(members)
    ensures match AddMember(members, name, value)
            case None => true
            case Some(r) => Distinct(r) && ToMap(r) == ToMap(members)[name := value]
  {
    hide ToMap;
    GetIsMapLookup(members, name);
    AddToUnknown(members, name, value);
    if AddMember(members, name, value).Some? {
      MapSnoc(members, Member(name, value));
    }
  }

  lemma AddToUnknown(members: seq<Member>, name: bytes, value: Json)
    requires Distinct(members)
    ensures AddMember(members, name, value)
         == if Get(members, name).Some? then None else Some(members + [Member(name, value)])
    ensures Get(members, name).None? ==> Distinct(members + [Member(name, value)])
  {
  }

  lemma SetRefinesMap(members: seq<Member>, name: bytes, value: Json, hasParent: bool)
    requires Distinct(members)
    ensures SetMember(members, name, value, hasParent).Some? <==> !hasParent
    ensures match SetMember(members, name, value, hasParent)
            case None => true
            case Some(r) => Distinct(r) && ToMap(r) == ToMap(members)[name := value]
  {
    var found := Find(members, name);
    AddRefinesMap(members, name, value);
    if !hasParent && found.Some? {
      var r := members[found.value := Member(name, value)];
      forall n
        ensures Get(r, n) == if n in ToMap(members)[name := value] then Some(ToMap(members)[name := value][n]) else None
      {
        GetIsMapLookup(members, n);
        GetAfterSet(members, found.value, value, n);
      }
      SameMap(r, ToMap(members)[name := value]);
    }
  }

  lemma SetAt(members: seq<Member>, i: nat, value: Json)
    requires Distinct(members) && i < |members|
    ensures SetMember(members, members[i].name, value, false) == Some(members[i := Member(members[i].name, value)])
    ensures Distinct(members[i := Member(members[i].name, value)])
  {
    FindOwnName(members, i);
  }

  lemma SetUnknown(members: seq<Member>, name: bytes, value: Json)
    requires Get(members, name).None?
    ensures SetMember(members, name, value, false) == AddMember(members, name, value)
  {
  }

  lemma GetAfterSet(members: seq<Member>, i: nat, value: Json, n: bytes)
    requires Distinct(members) && i < |members|
    ensures Get(members[i := Member(members[i].name, value)], n)
         == if n == members[i].name then Some(value) else Get(members, n)
  {
    var r := members[i := Member(members[i].name, value)];
    assert Distinct(r);
    if n == members[i].name {
      FindOwnName(r, i);
    } else if Find(members, n).Some? {
      FindOwnName(r, Find(members, n).value);
    }
  }

  lemma GetAfterRemove(members: seq<Member>, name: bytes, n: bytes)
    requires Distinct(members) && RemoveMember(members, name).Some?
    ensures Distinct(RemoveMember(members, name).value)
    ensures Get(RemoveMember(members, name).value, n) == if n == name then None else Get(members, n)
  {
    var r := RemoveMember(members, name).value;
    var i, last := Find(members, name).value, |members| - 1;
    if n != name && Find(members, n).Some? {
      var j := Find(members, n).value;
      FindOwnName(r, if j == last then i else j);
    }
  }

  lemma RemoveAt(members: seq<Member>, i: nat)
    requires Distinct(members) && i < |members|
    ensures RemoveMember(members, members[i].name) == Some(DropAt(members, i))
    ensures Distinct(DropAt(members, i))
  {
    FindOwnName(members, i);
  }

  lemma UnknownIsNotRemoved(members: seq<Member>, name: bytes)
    requires Get(members, name).None?
    ensures RemoveMember(members, name).None?
  {
  }

  lemma KnownIsFound(members: seq<Member>, name: bytes)
    requires Get(members, name).Some?
    ensures exists i :: 0 <= i < |members| && members[i].name == name
  {
  }

  lemma RemovedSize(members: seq<Member>, name: bytes)
    ensures RemoveMember(members, name).Some? <==> Get(members, name).Some?
    ensures RemoveMember(members, name).Some? ==> |RemoveMember(members, name).value| + 1 == |members|
  {
  }

  lemma RemoveRefinesMap(members: seq<Member>, name: bytes)
    requires Distinct(members)
    ensures RemoveMember(members, name).Some? <==> name in ToMap(members)
    ensures match RemoveMember(members, name)
            case None => true
            case Some(r) => Distinct(r) && ToMap(r) == ToMap(members) - {name} && |r| + 1 == |members|
  {
    RemovedSize(members, name);
    GetIsMapLookup(members, name);
    hide RemoveMember, Get, Distinct;
    if RemoveMember(members, name).Some? {
      var r := RemoveMember(members, name).value;
      GetAfterRemove(members, name, name);
      forall n
        ensures Get(r, n) == if n in ToMap(members) - {name} then Some((ToMap(members) - {name})[n]) else None
      {
        GetIsMapLookup(members, n);
        GetAfterRemove(members, name, n);
      }
      SameMap(r, ToMap(members) - {name});
    }
  }

  // ----- runs -----

  datatype Op = Add(name: bytes, value: Json) | Set(name: bytes, value: Json, hasParent: bool)
    | Remove(name: bytes) | Clear

  /** What an operation does to the members, and whether it succeeds. */
  function Apply(members: seq<Member>, op: Op): (seq<Member>, bool) {
    var r := match op
             case Add(name, value) => AddMember(members, name, value)
             case Set(name, value, hasParent) => SetMember(members, name, value, hasParent)
             case Remove(name) => RemoveMember(members, name)
             case Clear => Some([]);
    if r.Some? then (r.value, true) else (members, false)
  }

  /** The same on a map. */
  function ApplyToMap(m: map<bytes, Json>, op: Op): (map<bytes, Json>, bool) {
    match op
    case Add(name, value) => if name in m then (m, false) else (m[name := value], true)
    case Set(name, value, hasParent) => if hasParent then (m, false) else (m[name := value], true)
    case Remove(name) => if name in m then (m - {name}, true) else (m, false)
    case Clear => (map[], true)
  }

  function Run(members: seq<Member>, ops: seq<Op>): (seq<Member>, seq<bool>)
    decreases |ops|
  {
    if ops == [] then (members, [])
    else
      var (next, ok) := Apply(members, ops[0]);
      var (final, oks) := Run(next, ops[1..]);
      (final, [ok] + oks)
  }

  function RunOnMap(m: map<bytes, Json>, ops: seq<Op>): (map<bytes, Json>, seq<bool>)
    decreases |ops|
  {
    if ops == [] then (m, [])
    else
      var (next, ok) := ApplyToMap(m, ops[0]);
      var (final, oks) := RunOnMap(next, ops[1..]);
      (final, [ok] + oks)
  }

  lemma StepRefinesMap(members: seq<Member>, op: Op)
    requires Distinct(members)
    ensures var (r, ok) := Apply(members, op);
            Distinct(r) && (ToMap(r), ok) == ApplyToMap(ToMap(members), op)
  {
    hide ToMap, AddMember, SetMember, RemoveMember;
    match op
    case Add(name, value) => AddRefinesMap(members, name, value);
    case Set(name, value, hasParent) => SetRefinesMap(members, name, value, hasParent);
    case Remove(name) => RemoveRefinesMap(members, name);
    case Clear => EmptyMap();
  }

  /** Over every run an object answers as the map does, its names stay distinct and its count is the map's size. */
  lemma {:induction false} RunRefinesMap(members: seq<Member>, ops: seq<Op>)
    requires Distinct(members)
    ensures var (r, oks) := Run(members, ops);
            Distinct(r) && (ToMap(r), oks) == RunOnMap(ToMap(members), ops) && |r| == |ToMap(r)|
    decreases |ops|
  {
    if ops == [] {
      MapSize(members);
    } else {
      StepRefinesMap(members, ops[0]);
      RunRefinesMap(Apply(members, ops[0]).0, ops[1..]);
    }
  }

  // ----- the object in memory -----

  const STARTING_CAPACITY: nat := 16

  function Zip(names: seq<bytes>, values: seq<Json>): (r: seq<Member>)
    requires |names| == |values|
    ensures |r| == |names| && forall i | 0 <= i < |r| :: r[i] == Member(names[i], values[i])
  {
    seq(|names|, i requires 0 <= i < |names| => Member(names[i], values[i]))
  }

  class ObjectBuffer {
    var names: array?<bytes>
    var values: array?<Json>
    var count: nat
    var capacity: nat

    ghost predicate Valid()
      reads this, names, values
    {
      && count <= capacity
      && (names == null <==> values == null)
      && (names == null ==> capacity == 0)
      && (names != null ==> names.Length == capacity && values.Length == capacity)
      && Distinct(Members())
      && forall i | 0 <= i < count :: NulFree(Members()[i].name)
    }

    /** The members in their order. */
    function Members(): (r: seq<Member>)
      requires count == 0 || (names != null && values != null && count <= names.Length && count <= values.Length)
      reads this, names, values
      ensures |r| == count
      ensures forall i | 0 <= i < count :: r[i] == Member(names[i], values[i])
    {
      if count == 0 then [] else Zip(names[..count], values[..count])
    }

    /** `json_object_init`. */
    constructor ()
      ensures Valid() && Members() == []
      ensures names == null && values == null
    {
      names, values, count, capacity := null, null, 0, 0;
    }

    /** `json_object_getn_value`. */
    method GetN(name: bytes) returns (r: Option<Json>)
      requires Valid()
      ensures r == Get(Members(), name)
    {
      for i := 0 to count
        invariant forall k | 0 <= k < i :: Members()[k].name != name
      {
        if |names[i]| == |name| && names[i] == name {
          assert Members()[i].name == name;
          FindOwnName(Members(), i);
          return Some(values[i]);
        }
      }
      return None;
    }

    /** `json_object_resize`. */
    method Resize(newCapacity: nat) returns (ok: bool)
      requires Valid() && count <= newCapacity
      modifies this
      ensures Valid() && Members() == old(Members())
      ensures ok == (newCapacity > 0) && capacity == if ok then newCapacity else old(capacity)
      ensures ok ==> fresh(names) && fresh(values)
      ensures !ok ==> names == old(names) && values == old(values)
    {
      if newCapacity == 0 {
        return false;
      }
      ghost var before := Members();
      var tempNames := new bytes[newCapacity];
      var tempValues := new Json[newCapacity](_ => Null);
      for i := 0 to count
        modifies tempNames, tempValues
        invariant forall k | 0 <= k < i :: Member(tempNames[k], tempValues[k]) == before[k]
      {
        tempNames[i] := names[i];
        tempValues[i] := values[i];
      }
      names, values, capacity := tempNames, tempValues, newCapacity;
      assert Members() == before;
      return true;
    }

    /** A full object doubles. */
    method MakeRoom()
      requires Valid()
      modifies this
      ensures Valid() && Members() == old(Members()) && count < capacity
      ensures capacity
           == if old(count < capacity) then old(capacity)
              else if old(capacity) > 8 then 2 * old(capacity) else 16
      ensures names != old(names) ==> fresh(names)
      ensures values != old(values) ==> fresh(values)
    {
      hide Distinct;
      if count >= capacity {
        var resized := Resize(if capacity * 2 > STARTING_CAPACITY then capacity * 2 else STARTING_CAPACITY);
      }
    }

    /** A new entry behind the last one. */
    method Put(name: bytes, value: Json)
      requires Valid() && count < capacity && NulFree(name) && Distinct(Members() + [Member(name, value)])
      modifies this`count, names, values
      ensures Valid() && Members() == old(Members()) + [Member(name, value)]
    {
      hide Distinct;
      ghost var before := Members();
      names[count] := name;
      values[count] := value;
      count := count + 1;
      assert Members() == before + [Member(name, value)];
    }

    /** Another value in entry `i`. */
    method Overwrite(i: nat, value: Json)
      requires Valid() && i < count && Distinct(Members()[i := Member(names[i], value)])
      modifies values
      ensures Valid() && Members() == old(Members())[i := Member(old(names[i]), value)]
    {
      hide Distinct;
      ghost var before := Members();
      values[i] := value;
      assert Members() == before[i := Member(names[i], value)];
    }

    /** `json_object_addn`: a known name is refused; a full object doubles first. */
    method AddN(name: bytes, value: Json) returns (ok: bool)
      requires Valid() && NulFree(name)
      modifies this, names, values
      ensures Valid()
      ensures ok <==> AddMember(old(Members()), name, value).Some?
      ensures Members() == if ok then AddMember(old(Members()), name, value).value else old(Members())
      ensures names != old(names) ==> fresh(names)
      ensures values != old(values) ==> fresh(values)
    {
      hide Find, Get, AddMember, Distinct;
      ghost var before := Members();
      var known := GetN(name);
      AddToUnknown(before, name, value);
      if known.Some? {
        return false;
      }
      MakeRoom();
      Put(name, value);
      return true;
    }

    /** The removal of entry `i` from both arrays. */
    method Drop(i: nat)
      requires Valid() && i < count && Distinct(DropAt(Members(), i))
      modifies this, names, values
      ensures Valid() && names == old(names) && values == old(values)
      ensures Members() == DropAt(old(Members()), i)
    {
      hide Distinct;
      ghost var before := Members();
      var last := count - 1;
      if i != last {
        names[i] := names[last];
        values[i] := values[last];
      }
      count := count - 1;
      assert Members() == DropAt(before, i);
    }

    /** `json_object_remove_internal`. */
    method RemoveInternal(name: bytes) returns (ok: bool)
      requires Valid()
      modifies this, names, values
      ensures Valid() && names == old(names) && values == old(values)
      ensures ok <==> RemoveMember(old(Members()), name).Some?
      ensures Members() == if ok then RemoveMember(old(Members()), name).value else old(Members())
    {
      hide RemoveMember, Find, DropAt, Distinct;
      ghost var before := Members();
      var known := GetN(name);
      if known.None? {
        UnknownIsNotRemoved(before, name);
        return false;
      }
      for i := 0 to count
        invariant forall k | 0 <= k < i :: before[k].name != name
      {
        if names[i] == name {
          RemoveAt(before, i);
          Drop(i);
          return true;
        }
      }
      KnownIsFound(before, name);
      return false;
    }

    /** `json_object_set_value`. */
    method SetValue(name: bytes, value: Json, hasParent: bool) returns (ok: bool)
      requires Valid() && NulFree(name)
      modifies this, names, values
      ensures Valid()
      ensures ok <==> SetMember(old(Members()), name, value, hasParent).Some?
      ensures Members() == if ok then SetMember(old(Members()), name, value, hasParent).value else old(Members())
      ensures names != old(names) ==> fresh(names)
      ensures values != old(values) ==> fresh(values)
    {
      if hasParent {
        return false;
      }
      hide SetMember, Find, Distinct;
      ghost var before := Members();
      var known := GetN(name);
      if known.Some? {
        for i := 0 to count
          invariant forall k | 0 <= k < i :: before[k].name != name
        {
          if names[i] == name {
            SetAt(before, i, value);
            Overwrite(i, value);
            return true;
          }
        }
        KnownIsFound(before, name);
      } else {
        SetUnknown(before, name, value);
      }
      ok := AddN(name, value);
    }

    /** `json_object_clear`: the arrays stay. */
    method Clear()
      requires Valid()
      modifies this
      ensures Valid() && Members() == [] && capacity == old(capacity)
    {
      count := 0;
    }
  }
}
