/**
 Dotted paths: reading, setting and removing values deep inside an object.
 */
module JsonPath {
  import opened CString
  import opened JsonTree
  import opened JsonObject

  /** `strchr(name, '.')`. */
  function FirstDot(name: bytes): (r: Option<nat>)
    ensures r.Some? ==> r.value < |name| && name[r.value] == DOT && DOT !in name[..r.value]
    ensures r.None? ==> DOT !in name
  {
    if name == [] then None
    else if name[0] == DOT then Some(0)
    else
      match FirstDot(name[1..])
      case None => None
      case Some(d) => assert name[..d + 1] == [name[0]] + name[1..][..d]; Some(d + 1)
  }

  /** `json_value_get_object`: the members if the value is an object. */
  function ObjectOf(v: Option<Json>): Option<seq<Member>> {
    if v.Some? && v.value.Object? then Some(v.value.members) else None
  }

  function GetIn(object_: Option<seq<Member>>, name: bytes): Option<Json> {
    if object_.None? then None else Get(object_.value, name)
  }

  /** `json_object_dotget_value`; None as the object stands for the null pointer. */
  function DotGet(object_: Option<seq<Member>>, name: bytes): Option<Json>
    decreases |name|
  {
    match FirstDot(name)
    case None => GetIn(object_, name)
    case Some(d) => DotGet(ObjectOf(GetIn(object_, name[..d])), name[d + 1..])
  }

  /** `json_object_dotset_value`: the members afterwards, or None where it fails. */
  function DotSet(members: seq<Member>, name: bytes, value: Json, hasParent: bool): Option<seq<Member>>
    decreases |name|
  {
    match FirstDot(name)
    case None => SetMember(members, name, value, hasParent)
    case Some(d) =>
      match Find(members, name[..d])
      case Some(i) =>
        if !members[i].value.Object? then None
        else
          (match DotSet(members[i].value.members, name[d + 1..], value, hasParent)
           case None => None
           case Some(inner) => Some(members[i := Member(name[..d], Object(inner))]))
      case None =>
        match DotSet([], name[d + 1..], value, hasParent)
        case None => None
        case Some(inner) => AddMember(members, name[..d], Object(inner))
  }

  /** `json_object_dotremove_internal`. */
  function DotRemove(members: seq<Member>, name: bytes): Option<seq<Member>>
    decreases |name|
  {
    match FirstDot(name)
    case None => RemoveMember(members, name)
    case Some(d) =>
      match Find(members, name[..d])
      case None => None
      case Some(i) =>
        if !members[i].value.Object? then None
        else
          match DotRemove(members[i].value.members, name[d + 1..])
          case None => None
          case Some(inner) => Some(members[i := Member(name[..d], Object(inner))])
  }

  /** A value that sits in a tree already is never set. */
  lemma {:induction false} DotSetNeedsNoParent(members: seq<Member>, name: bytes, value: Json, hasParent: bool)
    requires DotSet(members, name, value, hasParent).Some?
    ensures !hasParent
    decreases |name|
  {
    var d := FirstDot(name);
    if d.Some? {
      match Find(members, name[..d.value])
      case Some(i) => DotSetNeedsNoParent(members[i].value.members, name[d.value + 1..], value, hasParent);
      case None => DotSetNeedsNoParent([], name[d.value + 1..], value, hasParent);
    }
  }

  // ----- the same on lists of segments -----

  function Segments(name: bytes): (r: seq<bytes>)
    ensures r != []
    decreases |name|
  {
    match FirstDot(name)
    case None => [name]
    case Some(d) => [name[..d]] + Segments(name[d + 1..])
  }

  function PathGet(object_: Option<seq<Member>>, path: seq<bytes>): Option<Json>
    requires path != []
    decreases |path|
  {
    if |path| == 1 then GetIn(object_, path[0]) else PathGet(ObjectOf(GetIn(object_, path[0])), path[1..])
  }

  /** What a member's object is for a set: an existing object, a new one, or no place at all. */
  function Inner(members: seq<Member>, name: bytes): Option<seq<Member>> {
    match Get(members, name)
    case None => Some([])
    case Some(v) => if v.Object? then Some(v.members) else None
  }

  function PathSet(members: seq<Member>, path: seq<bytes>, value: Json, hasParent: bool): Option<seq<Member>>
    requires path != []
    decreases |path|
  {
    if |path| == 1 then SetMember(members, path[0], value, hasParent)
    else if Inner(members, path[0]).None? then None
    else
      match PathSet(Inner(members, path[0]).value, path[1..], value, hasParent)
      case None => None
      case Some(inner) => SetMember(members, path[0], Object(inner), false)
  }

  function PathRemove(members: seq<Member>, path: seq<bytes>): Option<seq<Member>>
    requires path != []
    decreases |path|
  {
    if |path| == 1 then RemoveMember(members, path[0])
    else if ObjectOf(Get(members, path[0])).None? then None
    else
      match PathRemove(ObjectOf(Get(members, path[0])).value, path[1..])
      case None => None
      case Some(inner) => SetMember(members, path[0], Object(inner), false)
  }

  lemma {:induction false} DotGetFollowsSegments(object_: Option<seq<Member>>, name: bytes)
    ensures DotGet(object_, name) == PathGet(object_, Segments(name))
    decreases |name|
  {
    var d := FirstDot(name);
    if d.Some? {
      var rest := name[d.value + 1..];
      DotGetFollowsSegments(ObjectOf(GetIn(object_, name[..d.value])), rest);
      assert Segments(name)[1..] == Segments(rest);
    }
  }

  /** A set by dotted name goes into the object under the first segment, and puts that back. */
  lemma DotSetStep(members: seq<Member>, name: bytes, value: Json, hasParent: bool, d: nat)
    requires FirstDot(name) == Some(d)
    ensures DotSet(members, name, value, hasParent)
         == match Inner(members, name[..d])
            case None => None
            case Some(object_) =>
              match DotSet(object_, name[d + 1..], value, hasParent)
              case None => None
              case Some(inner) => SetMember(members, name[..d], Object(inner), false)
  {
    hide FirstDot, Find;
  }

  lemma {:induction false} DotSetFollowsSegments(members: seq<Member>, name: bytes, value: Json, hasParent: bool)
    ensures DotSet(members, name, value, hasParent) == PathSet(members, Segments(name), value, hasParent)
    decreases |name|
  {
    hide SetMember, Inner;
    var d := FirstDot(name);
    if d.Some? {
      var rest := name[d.value + 1..];
      DotSetStep(members, name, value, hasParent, d.value);
      assert Segments(name)[0] == name[..d.value] && Segments(name)[1..] == Segments(rest);
      var inner := Inner(members, name[..d.value]);
      if inner.Some? {
        DotSetFollowsSegments(inner.value, rest, value, hasParent);
      }
    }
  }

  lemma {:induction false} DotRemoveFollowsSegments(members: seq<Member>, name: bytes)
    ensures DotRemove(members, name) == PathRemove(members, Segments(name))
    decreases |name|
  {
    var d := FirstDot(name);
    if d.Some? {
      var rest := name[d.value + 1..];
      assert Segments(name)[1..] == Segments(rest);
      var inner := ObjectOf(Get(members, name[..d.value]));
      if inner.Some? {
        DotRemoveFollowsSegments(inner.value, rest);
      }
    }
  }

  // ----- set and remove on one member -----

  lemma SetThenGet(members: seq<Member>, name: bytes, value: Json, n: bytes)
    requires Distinct(members)
    ensures var r := SetMember(members, name, value, false);
            r.Some? && Distinct(r.value) && Get(r.value, n) == if n == name then Some(value) else Get(members, n)
  {
    hide ToMap;
    SetRefinesMap(members, name, value, false);
    GetIsMapLookup(members, n);
    GetIsMapLookup(SetMember(members, name, value, false).value, n);
  }

  lemma SetKeepsUniqueNames(members: seq<Member>, name: bytes, value: Json)
    requires UniqueNames(Object(members)) && UniqueNames(value)
    ensures UniqueNames(Object(SetMember(members, name, value, false).value))
  {
    SetThenGet(members, name, value, name);
    var r := SetMember(members, name, value, false).value;
    forall i | 0 <= i < |r|
      ensures UniqueNames(r[i].value)
    {
      assert r[i].value == value || (i < |members| && r[i] == members[i]);
    }
  }

  lemma RemoveKeepsUniqueNames(members: seq<Member>, name: bytes)
    requires UniqueNames(Object(members)) && RemoveMember(members, name).Some?
    ensures UniqueNames(Object(RemoveMember(members, name).value))
  {
    GetAfterRemove(members, name, name);
    var r := RemoveMember(members, name).value;
    forall i | 0 <= i < |r|
      ensures UniqueNames(r[i].value)
    {
      assert exists j :: 0 <= j < |members| && r[i] == members[j];
    }
  }

  lemma InnerHasUniqueNames(members: seq<Member>, name: bytes)
    requires UniqueNames(Object(members))
    ensures Get(members, name).Some? ==> UniqueNames(Get(members, name).value)
    ensures Inner(members, name).Some? ==> UniqueNames(Object(Inner(members, name).value))
  {
  }

  // ----- the laws -----

  /** Setting keeps the names of every object in the tree distinct. */
  lemma {:induction false} PathSetKeepsUniqueNames(members: seq<Member>, path: seq<bytes>, value: Json, hasParent: bool)
    requires path != [] && UniqueNames(Object(members)) && UniqueNames(value)
    requires PathSet(members, path, value, hasParent).Some?
    ensures UniqueNames(Object(PathSet(members, path, value, hasParent).value))
    decreases |path|
  {
    if |path| == 1 {
      SetKeepsUniqueNames(members, path[0], value);
    } else {
      InnerHasUniqueNames(members, path[0]);
      var inner := Inner(members, path[0]).value;
      PathSetKeepsUniqueNames(inner, path[1..], value, hasParent);
      SetKeepsUniqueNames(members, path[0], Object(PathSet(inner, path[1..], value, hasParent).value));
    }
  }

  /** Neither path starts with all segments of the other. */
  predicate Apart(p: seq<bytes>, q: seq<bytes>) {
    !(p <= q) && !(q <= p)
  }

  /**
   After a successful set the path reads the value, what extends the path reads inside
   the value, and every path apart from it reads what it read before.
   */
  lemma {:induction false} PathSetThenGet(members: seq<Member>, path: seq<bytes>, value: Json,
                                          hasParent: bool, q: seq<bytes>)
    requires path != [] && q != [] && UniqueNames(Object(members))
    requires PathSet(members, path, value, hasParent).Some?
    ensures var after := Some(PathSet(members, path, value, hasParent).value);
            && (q == path ==> PathGet(after, q) == Some(value))
            && (path < q ==> PathGet(after, q) == PathGet(ObjectOf(Some(value)), q[|path|..]))
            && (Apart(path, q) ==> PathGet(after, q) == PathGet(Some(members), q))
    decreases |path|
  {
    hide SetMember, UniqueNames, Get;
    PathHeads(path, q);
    TopIsDistinct(members);
    if |path| == 1 {
      SetThenGet(members, path[0], value, q[0]);
      SetNeedsNoParent(members, path[0], value, hasParent);
    } else {
      InnerHasUniqueNames(members, path[0]);
      var inner := Inner(members, path[0]).value;
      var deeper := PathSet(inner, path[1..], value, hasParent).value;
      SetThenGet(members, path[0], Object(deeper), q[0]);
      if |q| > 1 && q[0] == path[0] {
        PathSetThenGet(inner, path[1..], value, hasParent, q[1..]);
        GetInNewObject(members, path[0], q[1..]);
      }
    }
  }

  lemma SetNeedsNoParent(members: seq<Member>, name: bytes, value: Json, hasParent: bool)
    requires SetMember(members, name, value, hasParent).Some?
    ensures !hasParent
  {
  }

  lemma TopIsDistinct(members: seq<Member>)
    requires UniqueNames(Object(members))
    ensures Distinct(members)
  {
  }

  /** How two paths compare, told from their heads and tails. */
  lemma PathHeads(p: seq<bytes>, q: seq<bytes>)
    requires p != [] && q != []
    ensures p == q <==> p[0] == q[0] && p[1..] == q[1..]
    ensures p < q <==> p[0] == q[0] && p[1..] < q[1..]
    ensures p < q && |p| > 1 ==> q[1..][|p| - 1..] == q[|p|..]
    ensures Apart(p, q) <==> p[0] != q[0] || Apart(p[1..], q[1..])
  {
    if p[0] == q[0] {
      if p[1..] <= q[1..] {
        assert p == [p[0]] + p[1..] && q == [q[0]] + q[1..];
      }
      if q[1..] <= p[1..] {
        assert p == [p[0]] + p[1..] && q == [q[0]] + q[1..];
      }
    }
  }

  /** Nothing is found under a member that does not exist or is new and empty. */
  lemma {:induction false} NothingInNone(q: seq<bytes>)
    requires q != []
    ensures PathGet(None, q) == None && PathGet(Some([]), q) == None
    decreases |q|
  {
    if |q| > 1 {
      NothingInNone(q[1..]);
    }
  }

  lemma GetInNewObject(members: seq<Member>, name: bytes, q: seq<bytes>)
    requires q != [] && Inner(members, name).Some?
    ensures PathGet(Some(Inner(members, name).value), q) == PathGet(ObjectOf(Get(members, name)), q)
  {
    NothingInNone(q);
  }

  /** A set goes through exactly when the value has no parent and no proper prefix of the path reads a non-object. */
  ghost predicate Open(object_: Option<seq<Member>>, path: seq<bytes>)
    requires path != []
  {
    forall k | 0 < k < |path| :: PathGet(object_, path[..k]).Some? ==> PathGet(object_, path[..k]).value.Object?
  }

  lemma {:induction false} PathSetSucceedsIff(members: seq<Member>, path: seq<bytes>, value: Json, hasParent: bool)
    requires path != [] && UniqueNames(Object(members))
    ensures PathSet(members, path, value, hasParent).Some? <==> !hasParent && Open(Some(members), path)
    decreases |path|
  {
    if |path| == 1 {
      SetThenGet(members, path[0], value, path[0]);
    } else {
      OpenStep(members, path);
      InnerHasUniqueNames(members, path[0]);
      var inner := Inner(members, path[0]);
      if inner.Some? {
        PathSetSucceedsIff(inner.value, path[1..], value, hasParent);
        if PathSet(inner.value, path[1..], value, hasParent).Some? {
          SetThenGet(members, path[0], Object(PathSet(inner.value, path[1..], value, hasParent).value), path[0]);
        }
      }
    }
  }

  lemma OpenStep(members: seq<Member>, path: seq<bytes>)
    requires |path| > 1
    ensures Open(Some(members), path) <==>
            Inner(members, path[0]).Some? && Open(Some(Inner(members, path[0]).value), path[1..])
  {
    var first := Get(members, path[0]);
    assert path[..1][0] == path[0];
    forall k | 1 < k < |path|
      ensures PathGet(Some(members), path[..k]) == PathGet(ObjectOf(first), path[1..][..k - 1])
      ensures Inner(members, path[0]).Some? ==>
                PathGet(Some(Inner(members, path[0]).value), path[1..][..k - 1])
                == PathGet(ObjectOf(first), path[1..][..k - 1])
    {
      assert path[..k][1..] == path[1..][..k - 1];
      if Inner(members, path[0]).Some? {
        GetInNewObject(members, path[0], path[1..][..k - 1]);
      }
    }
    if Open(Some(members), path) {
      assert PathGet(Some(members), path[..1]) == first;
      forall j | 0 < j < |path[1..]|
        ensures PathGet(Some(Inner(members, path[0]).value), path[1..][..j]).Some?
                ==> PathGet(Some(Inner(members, path[0]).value), path[1..][..j]).value.Object?
      {
        var k := j + 1;
        assert PathGet(Some(members), path[..k]) == PathGet(ObjectOf(first), path[1..][..k - 1]);
      }
    }
    if Inner(members, path[0]).Some? && Open(Some(Inner(members, path[0]).value), path[1..]) {
      forall k | 0 < k < |path|
        ensures PathGet(Some(members), path[..k]).Some? ==> PathGet(Some(members), path[..k]).value.Object?
      {
        if k > 1 {
          var j := k - 1;
          assert PathGet(Some(Inner(members, path[0]).value), path[1..][..j])
               == PathGet(ObjectOf(first), path[1..][..j]);
        } else {
          assert PathGet(Some(members), path[..1]) == first;
        }
      }
    }
  }

  /**
   A remove succeeds exactly when the path reads something; then it reads nothing, and
   paths apart from it are unchanged.
   */
  lemma {:induction false} PathRemoveThenGet(members: seq<Member>, path: seq<bytes>, q: seq<bytes>)
    requires path != [] && q != [] && UniqueNames(Object(members))
    ensures PathRemove(members, path).Some? <==> PathGet(Some(members), path).Some?
    ensures PathRemove(members, path).Some? ==>
              var after := Some(PathRemove(members, path).value);
              && UniqueNames(Object(after.value))
              && (path <= q ==> PathGet(after, q) == None)
              && (Apart(path, q) ==> PathGet(after, q) == PathGet(Some(members), q))
    decreases |path|
  {
    hide SetMember, RemoveMember, UniqueNames, Get;
    PathHeads(path, q);
    TopIsDistinct(members);
    if |path| == 1 {
      RemovedIff(members, path[0]);
      if RemoveMember(members, path[0]).Some? {
        GetAfterRemove(members, path[0], q[0]);
        RemoveKeepsUniqueNames(members, path[0]);
        if |q| > 1 {
          NothingInNone(q[1..]);
        }
      }
    } else {
      InnerHasUniqueNames(members, path[0]);
      var inner := ObjectOf(Get(members, path[0]));
      if inner.None? {
        NothingInNone(path[1..]);
      } else {
        PathRemoveThenGet(inner.value, path[1..], if |q| > 1 then q[1..] else path[1..]);
        if PathRemove(inner.value, path[1..]).Some? {
          var deeper := Object(PathRemove(inner.value, path[1..]).value);
          SetThenGet(members, path[0], deeper, q[0]);
          SetKeepsUniqueNames(members, path[0], deeper);
        }
      }
    }
  }

  lemma RemovedIff(members: seq<Member>, name: bytes)
    ensures RemoveMember(members, name).Some? <==> Get(members, name).Some?
  {
  }

  // ----- the laws in the library's terms -----

  /** Set, then get: the path reads the value, paths apart from it read as before, and names stay distinct. */
  lemma DotSetThenDotGet(members: seq<Member>, name: bytes, value: Json, hasParent: bool, other: bytes)
    requires UniqueNames(Object(members)) && UniqueNames(value)
    ensures DotSet(members, name, value, hasParent).Some? <==> !hasParent && Open(Some(members), Segments(name))
    ensures DotSet(members, name, value, hasParent).Some? ==>
              var after := DotSet(members, name, value, hasParent).value;
              && UniqueNames(Object(after))
              && DotGet(Some(after), name) == Some(value)
              && (Apart(Segments(name), Segments(other)) ==> DotGet(Some(after), other) == DotGet(Some(members), other))
  {
    hide DotSet, DotGet, PathSet, PathGet, UniqueNames;
    DotSetFollowsSegments(members, name, value, hasParent);
    PathSetSucceedsIff(members, Segments(name), value, hasParent);
    if DotSet(members, name, value, hasParent).Some? {
      var after := DotSet(members, name, value, hasParent).value;
      PathSetKeepsUniqueNames(members, Segments(name), value, hasParent);
      PathSetThenGet(members, Segments(name), value, hasParent, Segments(name));
      PathSetThenGet(members, Segments(name), value, hasParent, Segments(other));
      DotGetFollowsSegments(Some(after), name);
      DotGetFollowsSegments(Some(after), other);
      DotGetFollowsSegments(Some(members), other);
    }
  }

  /** Remove, then get. */
  lemma DotRemoveThenDotGet(members: seq<Member>, name: bytes, other: bytes)
    requires UniqueNames(Object(members))
    ensures DotRemove(members, name).Some? <==> DotGet(Some(members), name).Some?
    ensures DotRemove(members, name).Some? ==>
              var after := DotRemove(members, name).value;
              && UniqueNames(Object(after))
              && DotGet(Some(after), name) == None
              && (Apart(Segments(name), Segments(other)) ==> DotGet(Some(after), other) == DotGet(Some(members), other))
  {
    hide DotRemove, DotGet, PathRemove, PathGet, UniqueNames;
    DotRemoveFollowsSegments(members, name);
    PathRemoveThenGet(members, Segments(name), Segments(name));
    PathRemoveThenGet(members, Segments(name), Segments(other));
    DotGetFollowsSegments(Some(members), name);
    DotGetFollowsSegments(Some(members), other);
    if DotRemove(members, name).Some? {
      var after := DotRemove(members, name).value;
      DotGetFollowsSegments(Some(after), name);
      DotGetFollowsSegments(Some(after), other);
    }
  }
}
