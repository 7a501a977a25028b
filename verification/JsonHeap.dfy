/**
 The tree in memory: objects and arrays are linked nodes that a set, a remove or an add
 changes in place. Every node knows, as a ghost, the value it stands for.
 */
module JsonHeap {
  import opened CString
  import opened JsonTree
  import opened JsonObject
  import opened JsonPath

  datatype Kind = ObjectKind | ArrayKind | PlainKind

  class Node {
    /** The value is linked into a tree (`value->parent != NULL`). */
    var hasParent: bool
    var kind: Kind
    /** What a node that is neither object nor array holds. */
    var plain: Json
    /** The parallel arrays of an object; an array has values only. */
    var names: seq<bytes>
    var values: seq<Node>

    ghost var Model: Json
    ghost var Repr: set<Node>

    /** Every node below is linked, lies in the footprint, and shares nothing with its siblings. */
    ghost predicate Valid()
      reads this, Repr
      decreases Repr
    {
      && this in Repr
      && (forall i | 0 <= i < |values| ::
            values[i] in Repr && values[i].Repr <= Repr && this !in values[i].Repr && values[i].Valid()
            && values[i].hasParent)
      && (forall i, j | 0 <= i < j < |values| :: values[i].Repr !! values[j].Repr)
      && match kind
         case ObjectKind =>
           && Model.Object?
           && |Model.members| == |names| == |values|
           && forall i | 0 <= i < |names| :: Model.members[i] == Member(names[i], values[i].Model)
         case ArrayKind =>
           && Model.Array? && names == []
           && |Model.items| == |values|
           && forall i | 0 <= i < |values| :: Model.items[i] == values[i].Model
         case PlainKind =>
           !plain.Object? && !plain.Array? && Model == plain && names == [] && values == []
    }

    /** `json_value_init_object`. */
    constructor NewObject()
      ensures Valid() && kind == ObjectKind && Model == Object([]) && !hasParent && fresh(Repr)
    {
      hasParent, kind, plain, names, values := false, ObjectKind, Null, [], [];
      Model, Repr := Object([]), {this};
    }

    /** `json_value_init_array`. */
    constructor NewArray()
      ensures Valid() && kind == ArrayKind && Model == Array([]) && !hasParent && fresh(Repr)
    {
      hasParent, kind, plain, names, values := false, ArrayKind, Null, [], [];
      Model, Repr := Array([]), {this};
    }

    /** A value that is neither object nor array. */
    constructor NewPlain(value: Json)
      requires !value.Object? && !value.Array?
      ensures Valid() && kind == PlainKind && Model == value && !hasParent && fresh(Repr)
    {
      hasParent, kind, plain, names, values := false, PlainKind, value, [], [];
      Model, Repr := value, {this};
    }

    /** The node that a path leads to, if there is one. */
    ghost function NodeAt(name: bytes): (r: Node?)
      requires Valid() && kind == ObjectKind
      reads this, Repr
      ensures r != null ==> r in Repr && r.Repr <= Repr && r.Valid() && r.hasParent
      decreases |name|
    {
      match FirstDot(name)
      case None =>
        (match Find(Model.members, name)
         case None => null
         case Some(i) => values[i])
      case Some(d) =>
        match Find(Model.members, name[..d])
        case None => null
        case Some(i) => if values[i].kind == ObjectKind then values[i].NodeAt(name[d + 1..]) else null
    }

    /** The index of a name in the parallel arrays. */
    method IndexOf(name: bytes) returns (r: Option<nat>)
      requires Valid() && kind == ObjectKind
      ensures r == Find(Model.members, name)
    {
      for i := 0 to |names|
        invariant forall k | 0 <= k < i :: names[k] != name
      {
        if names[i] == name {
          FirstIsFound(Model.members, i, name);
          return Some(i);
        }
      }
      return None;
    }

    /** A node that shares nothing with this tree, so that it can be linked in. */
    ghost predicate Linkable(value: Node)
      reads this, value, value.Repr
    {
      value.Valid() && value.Repr !! Repr
    }

    /** A node that was linked in: it has its parent and is a valid part of this tree. */
    ghost predicate Holds(value: Node)
      reads this, value, value.Repr
    {
      value.hasParent && value in Repr && value.Repr <= Repr && value.Valid()
    }

    /** The value gets its parent. */
    method MarkLinked()
      requires Valid()
      modifies this`hasParent
      ensures Valid() && hasParent
      ensures kind == ObjectKind ==> forall n :: NodeAt(n) == old(NodeAt(n))
    {
      hasParent := true;
      assert Valid();
    }

    /** The old value under a name gives way to a new one. */
    method Replace(i: nat, value: Node)
      requires Valid() && kind == ObjectKind && i < |names| && Linkable(value) && value.hasParent
      modifies this
      ensures Valid() && kind == ObjectKind && Repr == old(Repr) + value.Repr && hasParent == old(hasParent)
      ensures Model == Object(old(Model.members)[i := Member(old(names[i]), value.Model)])
      ensures values == old(values)[i := value]
    {
      values := values[i := value];
      Model := Object(Model.members[i := Member(names[i], value.Model)]);
      Repr := Repr + value.Repr;
    }

    /** A new name and its value go to the end. */
    method Link(name: bytes, value: Node)
      requires Valid() && kind == ObjectKind && Linkable(value) && value.hasParent
      modifies this
      ensures Valid() && kind == ObjectKind && Repr == old(Repr) + value.Repr && hasParent == old(hasParent)
      ensures Model == Object(old(Model.members) + [Member(name, value.Model)])
      ensures values == old(values) + [value]
    {
      names, values := names + [name], values + [value];
      Model := Object(Model.members + [Member(name, value.Model)]);
      Repr := Repr + value.Repr;
    }

    /** `json_object_set_value`. */
    method SetValue(name: bytes, value: Node) returns (ok: bool)
      requires Valid() && kind == ObjectKind && (value.hasParent || Linkable(value))
      modifies this, value
      ensures Valid() && kind == ObjectKind
      ensures ok <==> SetMember(old(Model.members), name, old(value.Model), old(value.hasParent)).Some?
      ensures ok ==> Model == Object(SetMember(old(Model.members), name, old(value.Model), false).value)
      ensures ok ==> Repr == old(Repr) + old(value.Repr) && hasParent == old(hasParent)
      ensures ok ==> Holds(value) && value.Model == old(value.Model) && value.Repr == old(value.Repr)
      ensures ok ==> Find(Model.members, name).Some? && values[Find(Model.members, name).value] == value
      ensures !ok ==> unchanged(this) && unchanged(value)
    {
      if value.hasParent {
        return false;
      }
      var found := IndexOf(name);
      FindAfterSet(Model.members, name, value.Model);
      value.MarkLinked();
      if found.Some? {
        Replace(found.value, value);
      } else {
        Link(name, value);
      }
      return true;
    }

    /**
     A child was changed below: it is still a valid part of this tree, disjoint from its
     siblings, and this node's value and footprint follow.
     */
    ghost method Absorb(i: nat, grown: set<Node>)
      requires kind == ObjectKind && this in Repr && |names| == |values| && i < |names|
      requires forall k | 0 <= k < |values| && k != i ::
                 values[k] in Repr && values[k].Repr <= Repr && this !in values[k].Repr && values[k].Valid()
                 && values[k].hasParent
      requires forall j, k | 0 <= j < k < |values| && j != i && k != i :: values[j].Repr !! values[k].Repr
      requires values[i].Valid() && values[i].hasParent && this !in values[i].Repr && values[i].Repr <= Repr + grown
      requires forall k | 0 <= k < |values| && k != i :: values[k].Repr !! values[i].Repr
      requires Model.Object? && |Model.members| == |names|
      requires forall k | 0 <= k < |names| && k != i :: Model.members[k] == Member(names[k], values[k].Model)
      modifies this`Model, this`Repr
      ensures Valid() && Repr == old(Repr) + grown
      ensures Model == Object(old(Model.members)[i := Member(names[i], values[i].Model)])
    {
      Model := Object(Model.members[i := Member(names[i], values[i].Model)]);
      Repr := Repr + grown;
    }

    /** `json_object_dotset_value`. */
    method DotSetValue(name: bytes, value: Node) returns (ok: bool)
      requires Valid() && kind == ObjectKind && (value.hasParent || Linkable(value))
      modifies Repr, value
      ensures Valid() && kind == ObjectKind && hasParent == old(hasParent)
      ensures ok <==> DotSet(old(Model.members), name, old(value.Model), old(value.hasParent)).Some?
      ensures ok ==> Model == Object(DotSet(old(Model.members), name, old(value.Model), old(value.hasParent)).value)
      ensures ok ==> old(Repr) <= Repr && fresh(Repr - old(Repr) - old(value.Repr))
      ensures ok ==> Holds(value) && value.Model == old(value.Model) && value.Repr == old(value.Repr)
      ensures ok ==> NodeAt(name) == value
      ensures !ok ==> unchanged(old(Repr)) && unchanged(value)
      decreases |name|, 1
    {
      hide Find, DropAt;
      ghost var members := Model.members;
      var dot := FirstDot(name);
      if dot.None? {
        ok := SetValue(name, value);
        return;
      }
      var segment, rest := name[..dot.value], name[dot.value + 1..];
      var found := IndexOf(segment);
      if found.Some? {
        ok := DotSetInChild(found.value, rest, value);
        if ok {
          FindAfterReplace(members, found.value, Model.members[found.value].value, segment);
        }
        return;
      }
      ok := DotSetInNewChild(segment, rest, value);
      if ok {
        FindAtEnd(members, Model.members[|members|]);
      }
    }

    /** The branch that builds the missing object first and links it in when that worked. */
    method DotSetInNewChild(segment: bytes, rest: bytes, value: Node) returns (ok: bool)
      requires Valid() && kind == ObjectKind && (value.hasParent || Linkable(value))
      modifies this, value
      ensures Valid() && kind == ObjectKind && hasParent == old(hasParent)
      ensures ok <==> DotSet([], rest, old(value.Model), old(value.hasParent)).Some?
      ensures ok ==>
                var inner := DotSet([], rest, old(value.Model), old(value.hasParent)).value;
                Model == Object(old(Model.members) + [Member(segment, Object(inner))])
      ensures ok ==> old(Repr) <= Repr && fresh(Repr - old(Repr) - old(value.Repr))
      ensures ok ==> Holds(value) && value.Model == old(value.Model) && value.Repr == old(value.Repr)
      ensures ok ==>
                |values| == |old(values)| + 1 && values[|old(values)|].kind == ObjectKind
                && values[|old(values)|].NodeAt(rest) == value
      ensures !ok ==> unchanged(this) && unchanged(value)
      decreases |rest|, 2
    {
      hide DotSet, Find, NodeAt;
      var inner := new Node.NewObject();
      ok := inner.DotSetValue(rest, value);
      if ok {
        DotSetNeedsNoParent([], rest, old(value.Model), old(value.hasParent));
        inner.MarkLinked();
        Link(segment, inner);
      }
    }

    /** The recursive call into an existing child. */
    method DotSetInChild(i: nat, rest: bytes, value: Node) returns (ok: bool)
      requires Valid() && kind == ObjectKind && i < |names| && (value.hasParent || Linkable(value))
      modifies Repr, value
      ensures Valid() && kind == ObjectKind && hasParent == old(hasParent)
      ensures names == old(names) && values == old(values)
      ensures !old(Model.members[i].value.Object?) ==> !ok
      ensures old(Model.members[i].value.Object?) ==>
                var inner := DotSet(old(Model.members[i].value.members), rest, old(value.Model), old(value.hasParent));
                && (ok <==> inner.Some?)
                && (ok ==> Model == Object(old(Model.members)[i := Member(old(names[i]), Object(inner.value))]))
      ensures ok ==> old(Repr) <= Repr && fresh(Repr - old(Repr) - old(value.Repr))
      ensures ok ==> Holds(value) && value.Model == old(value.Model) && value.Repr == old(value.Repr)
      ensures ok ==> values[i].kind == ObjectKind && values[i].NodeAt(rest) == value
      ensures !ok ==> unchanged(old(Repr)) && unchanged(value)
      decreases |rest|, 2
    {
      hide DotSet, Find, NodeAt;
      var child := values[i];
      if child.kind != ObjectKind {
        return false;
      }
      ok := child.DotSetValue(rest, value);
      if ok {
        DotSetNeedsNoParent(old(Model.members[i].value.members), rest, old(value.Model), old(value.hasParent));
        Absorb(i, child.Repr);
      }
    }

    /** The last member moves into the place of the removed one. */
    method Unlink(i: nat)
      requires Valid() && kind == ObjectKind && i < |names|
      modifies this
      ensures Valid() && kind == ObjectKind && Repr == old(Repr) && hasParent == old(hasParent)
      ensures Model == Object(DropAt(old(Model.members), i))
    {
      var last := |names| - 1;
      if i != last {
        names, values := names[i := names[last]], values[i := values[last]];
      }
      names, values := names[..last], values[..last];
      Model := Object(DropAt(Model.members, i));
    }

    /** `json_object_dotremove_internal`. */
    method DotRemoveValue(name: bytes) returns (ok: bool)
      requires Valid() && kind == ObjectKind
      modifies Repr
      ensures Valid() && kind == ObjectKind && Repr == old(Repr) && hasParent == old(hasParent)
      ensures ok <==> DotRemove(old(Model.members), name).Some?
      ensures ok ==> Model == Object(DotRemove(old(Model.members), name).value)
      ensures !ok ==> unchanged(old(Repr))
      decreases |name|, 1
    {
      var dot := FirstDot(name);
      var segment := if dot.None? then name else name[..dot.value];
      var found := IndexOf(segment);
      if found.None? {
        return false;
      }
      if dot.None? {
        Unlink(found.value);
        return true;
      }
      ok := DotRemoveInChild(found.value, name[dot.value + 1..]);
    }

    method DotRemoveInChild(i: nat, rest: bytes) returns (ok: bool)
      requires Valid() && kind == ObjectKind && i < |names|
      modifies Repr
      ensures Valid() && kind == ObjectKind && names == old(names) && Repr == old(Repr) && hasParent == old(hasParent)
      ensures !old(Model.members[i].value.Object?) ==> !ok
      ensures old(Model.members[i].value.Object?) ==>
                var inner := DotRemove(old(Model.members[i].value.members), rest);
                && (ok <==> inner.Some?)
                && (ok ==> Model == Object(old(Model.members)[i := Member(old(names[i]), Object(inner.value))]))
      ensures !ok ==> unchanged(old(Repr))
      decreases |rest|, 2
    {
      var child := values[i];
      if child.kind != ObjectKind {
        return false;
      }
      ok := child.DotRemoveValue(rest);
      if ok {
        Absorb(i, child.Repr);
      }
    }

    /** `json_object_dotget_value`: the node the path leads to. */
    method DotGetValue(name: bytes) returns (r: Node?)
      requires Valid() && kind == ObjectKind
      ensures r == NodeAt(name)
      ensures r == null <==> DotGet(Some(Model.members), name).None?
      ensures r != null ==> Holds(r) && DotGet(Some(Model.members), name) == Some(r.Model)
      decreases |name|
    {
      var dot := FirstDot(name);
      var segment := if dot.None? then name else name[..dot.value];
      var found := IndexOf(segment);
      if found.None? {
        if dot.Some? {
          NothingInNull(name[dot.value + 1..]);
        }
        return null;
      }
      var child := values[found.value];
      if dot.None? {
        return child;
      }
      if child.kind != ObjectKind {
        NothingInNull(name[dot.value + 1..]);
        return null;
      }
      r := child.DotGetValue(name[dot.value + 1..]);
    }

    /** `json_object_addn`. */
    method AddN(name: bytes, value: Node) returns (ok: bool)
      requires Valid() && kind == ObjectKind && Linkable(value)
      modifies this, value
      ensures Valid() && kind == ObjectKind
      ensures ok <==> AddMember(old(Model.members), name, old(value.Model)).Some?
      ensures ok ==> Model == Object(AddMember(old(Model.members), name, old(value.Model)).value)
      ensures ok ==> Repr == old(Repr) + old(value.Repr)
      ensures ok ==> Holds(value) && value.Model == old(value.Model) && value.Repr == old(value.Repr)
      ensures ok ==> values == old(values) + [value]
      ensures !ok ==> unchanged(this) && unchanged(value)
      ensures hasParent == old(hasParent)
    {
      var found := IndexOf(name);
      if found.Some? {
        return false;
      }
      value.MarkLinked();
      Link(name, value);
      return true;
    }

    /**
     One round of the loop of `json_value_deep_copy`: the value is looked up under its
     name and its copy added under it, so distinct names are what makes it succeed.
     */
    method CopyMember(i: nat, copy: Node)
      requires Valid() && kind == ObjectKind && UniqueNames(Model) && i < |names|
      requires copy.Valid() && copy.kind == ObjectKind && copy.Repr !! Repr && copy.Model == Object(Model.members[..i])
      modifies copy
      ensures copy.Valid() && copy.kind == ObjectKind && copy.hasParent == old(copy.hasParent)
      ensures copy.Model == Object(Model.members[..i + 1])
      ensures fresh(copy.Repr - old(copy.Repr))
      decreases Repr, 0
    {
      hide Find, Distinct, UniqueNames;
      MemberFacts(Model.members, i);
      var found := IndexOf(names[i]);
      var child := values[found.value].DeepCopy();
      var ok := copy.AddN(names[i], child);
    }

    /** `json_array_add`: the value goes to the end. */
    method Append(value: Node)
      requires Valid() && kind == ArrayKind && Linkable(value)
      modifies this, value
      ensures Valid() && kind == ArrayKind && hasParent == old(hasParent)
      ensures Model == Array(old(Model.items) + [old(value.Model)]) && Repr == old(Repr) + old(value.Repr)
      ensures Holds(value) && value.Model == old(value.Model) && value.Repr == old(value.Repr)
      ensures values == old(values) + [value]
    {
      value.MarkLinked();
      values := values + [value];
      Model := Array(Model.items + [value.Model]);
      Repr := Repr + value.Repr;
    }

    /** One round of the loop over an array. */
    method CopyItem(i: nat, copy: Node)
      requires Valid() && kind == ArrayKind && UniqueNames(Model) && i < |values|
      requires copy.Valid() && copy.kind == ArrayKind && copy.Repr !! Repr && copy.Model == Array(Model.items[..i])
      modifies copy
      ensures copy.Valid() && copy.kind == ArrayKind && copy.hasParent == old(copy.hasParent)
      ensures copy.Model == Array(Model.items[..i + 1])
      ensures fresh(copy.Repr - old(copy.Repr))
      decreases Repr, 0
    {
      var child := values[i].DeepCopy();
      copy.Append(child);
      assert Model.items[..i] + [Model.items[i]] == Model.items[..i + 1];
    }

    /** `json_value_deep_copy`: new nodes only, the same value, members and items in the same order. */
    method DeepCopy() returns (copy: Node)
      requires Valid() && UniqueNames(Model)
      ensures copy.Valid() && copy.Model == Model && !copy.hasParent && fresh(copy.Repr)
      decreases Repr, 1
    {
      hide UniqueNames;
      if kind == ArrayKind {
        copy := new Node.NewArray();
        for i := 0 to |values|
          invariant copy.Valid() && copy.kind == ArrayKind && !copy.hasParent && fresh(copy.Repr)
          invariant copy.Model == Array(Model.items[..i])
        {
          CopyItem(i, copy);
        }
        assert Model.items[..|values|] == Model.items;
      } else if kind == ObjectKind {
        copy := new Node.NewObject();
        for i := 0 to |names|
          invariant copy.Valid() && copy.kind == ObjectKind && !copy.hasParent && fresh(copy.Repr)
          invariant copy.Model == Object(Model.members[..i])
        {
          CopyMember(i, copy);
        }
        assert Model.members[..|names|] == Model.members;
      } else {
        copy := new Node.NewPlain(plain);
      }
    }
  }

  /**
   What a caller sees: the getter gives back the very node that was set, and the node
   cannot be set a second time.
   */
  method SetGetSet(root: Node, name: bytes, other: bytes, value: Node) returns (ok: bool, found: Node?, again: bool)
    requires root.Valid() && root.kind == ObjectKind && root.Linkable(value) && !value.hasParent
    requires UniqueNames(root.Model)
    modifies root.Repr, value.Repr
    ensures root.Valid() && root.kind == ObjectKind
    ensures ok <==> Open(Some(old(root.Model.members)), Segments(name))
    ensures ok ==> found == value && !again
    ensures ok ==> Some(root.Model.members) == DotSet(old(root.Model.members), name, old(value.Model), false)
  {
    hide Open, Segments, DotSet, Find;
    ghost var members := root.Model.members;
    DotSetFollowsSegments(members, name, value.Model, false);
    PathSetSucceedsIff(members, Segments(name), value.Model, false);
    ok := root.DotSetValue(name, value);
    found, again := null, false;
    if ok {
      found := root.DotGetValue(name);
      NotSetWithAParent(root.Model.members, other, value.Model);
      again := root.DotSetValue(other, value);
    }
  }

  lemma NotSetWithAParent(members: seq<Member>, name: bytes, value: Json)
    ensures DotSet(members, name, value, true).None?
  {
    hide DotSet;
    if DotSet(members, name, value, true).Some? {
      DotSetNeedsNoParent(members, name, value, true);
    }
  }

  /** What a round of the copy needs to know about the member it copies. */
  lemma MemberFacts(members: seq<Member>, i: nat)
    requires UniqueNames(Object(members)) && i < |members|
    ensures Find(members, members[i].name) == Some(i) && UniqueNames(members[i].value)
    ensures AddMember(members[..i], members[i].name, members[i].value) == Some(members[..i + 1])
  {
    FindOwnName(members, i);
    NotYetAdded(members, i);
    assert members[..i] + [members[i]] == members[..i + 1];
  }

  lemma NotYetAdded(members: seq<Member>, i: nat)
    requires Distinct(members) && i < |members|
    ensures AddMember(members[..i], members[i].name, members[i].value) == Some(members[..i] + [members[i]])
  {
  }

  lemma NothingInNull(name: bytes)
    ensures DotGet(None, name) == None
  {
    DotGetFollowsSegments(None, name);
    NothingInNone(Segments(name));
  }

  /** A new value under an old name does not move any name. */
  lemma FindAfterReplace(members: seq<Member>, i: nat, v: Json, name: bytes)
    requires i < |members|
    ensures Find(members[i := Member(members[i].name, v)], name) == Find(members, name)
  {
    var after := members[i := Member(members[i].name, v)];
    var r := Find(members, name);
    if r.Some? {
      FirstIsFound(after, r.value, name);
    }
  }

  lemma FindAtEnd(members: seq<Member>, m: Member)
    requires Find(members, m.name).None?
    ensures Find(members + [m], m.name) == Some(|members|)
  {
    FirstIsFound(members + [m], |members|, m.name);
  }

  /** A member that was set is found where it was, or at the end. */
  lemma FindAfterSet(members: seq<Member>, name: bytes, v: Json)
    ensures SetMember(members, name, v, false).Some?
    ensures Find(SetMember(members, name, v, false).value, name)
         == Some(if Find(members, name).Some? then Find(members, name).value else |members|)
  {
    if Find(members, name).Some? {
      FindAfterReplace(members, Find(members, name).value, v, name);
    } else {
      FindAtEnd(members, Member(name, v));
    }
  }

  lemma FirstIsFound(members: seq<Member>, i: nat, name: bytes)
    requires i < |members| && members[i].name == name && forall k | 0 <= k < i :: members[k].name != name
    ensures Find(members, name) == Some(i)
  {
  }
}
