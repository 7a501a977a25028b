/**
 `json_value_equals`: objects are compared by name and not by position, numbers up to a
 small difference.
 */
module JsonEquals {
  import opened CString
  import opened JsonTree

  predicate CloseTo(x: real, y: real) {
    (if x >= y then x - y else y - x) < 0.000001
  }

  predicate Equals(a: Json, b: Json)
    decreases a
  {
    match (a, b)
    case (Null, Null) => true
    case (Boolean(x), Boolean(y)) => x == y
    case (Number(x), Number(y)) => CloseTo(x, y)
    case (String(x), String(y)) => x == y
    case (Array(x), Array(y)) => |x| == |y| && forall i | 0 <= i < |x| :: Equals(x[i], y[i])
    case (Object(x), Object(y)) => |x| == |y| && forall i | 0 <= i < |x| :: SameUnder(x, y, x[i].name)
    case _ => false
  }

  /** The values two objects have under a name of the first are equal; a missing one equals nothing. */
  predicate SameUnder(x: seq<Member>, y: seq<Member>, name: bytes)
    decreases x
  {
    match (Find(x, name), Find(y, name))
    case (Some(i), Some(j)) => Equals(x[i].value, y[j].value)
    case _ => false
  }

  lemma {:induction false} Reflexive(a: Json)
    ensures Equals(a, a)
    decreases a
  {
    match a
    case Array(x) =>
      forall i | 0 <= i < |x|
        ensures Equals(x[i], x[i])
      {
        Reflexive(x[i]);
      }
    case Object(x) =>
      forall i | 0 <= i < |x|
        ensures SameUnder(x, x, x[i].name)
      {
        Reflexive(x[Find(x, x[i].name).value].value);
      }
    case _ =>
  }

  // ----- symmetry -----

  function Names(members: seq<Member>): (r: set<bytes>)
    ensures forall n :: n in r <==> exists i :: 0 <= i < |members| && members[i].name == n
  {
    set i | 0 <= i < |members| :: members[i].name
  }

  lemma {:induction false} AsManyNames(members: seq<Member>)
    requires Distinct(members)
    ensures |Names(members)| == |members|
    decreases |members|
  {
    if members != [] {
      var last := |members| - 1;
      AsManyNames(members[..last]);
      assert Names(members) == Names(members[..last]) + {members[last].name};
    }
  }

  lemma SubsetOfSameSize(a: set<bytes>, b: set<bytes>)
    requires a <= b && |a| == |b|
    ensures a == b
  {
    assert |b - a| == |b| - |a|;
  }

  /** With equal counts and distinct names, names found in the other object are all its names. */
  lemma SameNames(x: seq<Member>, y: seq<Member>)
    requires Distinct(x) && Distinct(y) && |x| == |y|
    requires forall i | 0 <= i < |x| :: Find(y, x[i].name).Some?
    ensures Names(x) == Names(y)
  {
    AsManyNames(x);
    AsManyNames(y);
    forall n | n in Names(x)
      ensures n in Names(y)
    {
      var i :| 0 <= i < |x| && x[i].name == n;
      assert Find(y, x[i].name).Some?;
    }
    SubsetOfSameSize(Names(x), Names(y));
  }

  lemma {:induction false} Symmetric(a: Json, b: Json)
    requires UniqueNames(a) && UniqueNames(b) && Equals(a, b)
    ensures Equals(b, a)
    decreases a
  {
    match (a, b)
    case (Array(x), Array(y)) =>
      forall i | 0 <= i < |y|
        ensures Equals(y[i], x[i])
      {
        Symmetric(x[i], y[i]);
      }
    case (Object(x), Object(y)) =>
      forall i | 0 <= i < |x|
        ensures Find(y, x[i].name).Some?
      {
        assert SameUnder(x, y, x[i].name);
      }
      SameNames(x, y);
      forall j | 0 <= j < |y|
        ensures SameUnder(y, x, y[j].name)
      {
        assert y[j].name in Names(x);
        var i :| 0 <= i < |x| && x[i].name == y[j].name;
        FindOwnName(x, i);
        FindOwnName(y, j);
        assert SameUnder(x, y, x[i].name);
        Symmetric(x[i].value, y[j].value);
      }
    case _ =>
  }

  /** The order of members does not matter. */
  lemma OrderDoesNotMatter(x: seq<Member>, y: seq<Member>)
    requires Distinct(x) && Distinct(y) && |x| == |y|
    requires forall m :: m in x ==> m in y
    ensures Equals(Object(x), Object(y))
  {
    forall i | 0 <= i < |x|
      ensures SameUnder(x, y, x[i].name)
    {
      assert x[i] in x;
      var j :| 0 <= j < |y| && y[j] == x[i];
      FindOwnName(x, i);
      FindOwnName(y, j);
      Reflexive(x[i].value);
    }
  }

  // ----- transitivity -----

  /** Every number of the tree is one of `numbers`. */
  ghost predicate NumbersIn(v: Json, numbers: iset<real>)
    decreases v
  {
    match v
    case Number(x) => x in numbers
    case Array(items) => forall i | 0 <= i < |items| :: NumbersIn(items[i], numbers)
    case Object(members) => forall i | 0 <= i < |members| :: NumbersIn(members[i].value, numbers)
    case _ => true
  }

  /** No number is close to two that are not close to each other. */
  ghost predicate NoBridge(numbers: iset<real>) {
    forall x, y, z | x in numbers && y in numbers && z in numbers :: CloseTo(x, y) && CloseTo(y, z) ==> CloseTo(x, z)
  }

  lemma {:induction false} Transitive(a: Json, b: Json, c: Json, numbers: iset<real>)
    requires NumbersIn(a, numbers) && NumbersIn(b, numbers) && NumbersIn(c, numbers) && NoBridge(numbers)
    requires Equals(a, b) && Equals(b, c)
    ensures Equals(a, c)
    decreases a
  {
    match (a, b, c)
    case (Array(x), Array(y), Array(z)) =>
      forall i | 0 <= i < |x|
        ensures Equals(x[i], z[i])
      {
        Transitive(x[i], y[i], z[i], numbers);
      }
    case (Object(x), Object(y), Object(z)) =>
      forall i | 0 <= i < |x|
        ensures SameUnder(x, z, x[i].name)
      {
        var name := x[i].name;
        assert SameUnder(x, y, name);
        var j := Find(y, name).value;
        assert SameUnder(y, z, y[j].name);
        Transitive(x[Find(x, name).value].value, y[j].value, z[Find(z, name).value].value, numbers);
      }
    case _ =>
  }

  ghost predicate TransitiveAt(a: Json, b: Json, c: Json) {
    Equals(a, b) && Equals(b, c) ==> Equals(a, c)
  }

  /** Equality is transitive on the trees over a set of numbers if and only if closeness is on those numbers. */
  lemma TransitiveIff(numbers: iset<real>)
    ensures NoBridge(numbers)
       <==> forall a, b, c | NumbersIn(a, numbers) && NumbersIn(b, numbers) && NumbersIn(c, numbers) ::
              TransitiveAt(a, b, c)
  {
    if NoBridge(numbers) {
      forall a, b, c | NumbersIn(a, numbers) && NumbersIn(b, numbers) && NumbersIn(c, numbers)
        ensures TransitiveAt(a, b, c)
      {
        if Equals(a, b) && Equals(b, c) {
          Transitive(a, b, c, numbers);
        }
      }
    } else {
      var x, y, z :| x in numbers && y in numbers && z in numbers
                     && CloseTo(x, y) && CloseTo(y, z) && !CloseTo(x, z);
      assert !TransitiveAt(Number(x), Number(y), Number(z));
    }
  }

  /** Three numbers on which it is not. */
  lemma NotTransitive()
    ensures var a, b, c := Number(0.0), Number(0.0000009), Number(0.0000018);
            Equals(a, b) && Equals(b, c) && !Equals(a, c)
    ensures !NoBridge(iset{0.0, 0.0000009, 0.0000018})
    ensures !Equals(Number(0.0), Number(0.000001)) && !Equals(Number(0.000001), Number(0.0))
  {
    assert CloseTo(0.0, 0.0000009) && CloseTo(0.0000009, 0.0000018) && !CloseTo(0.0, 0.0000018);
  }

  // ----- what equality means -----

  /** The abstract value of a tree: objects as maps. */
  datatype Meaning =
    | MNull
    | MBoolean(b: bool)
    | MNumber(x: real)
    | MString(chars: bytes)
    | MArray(items: seq<Meaning>)
    | MObject(entries: map<bytes, Meaning>)

  function MeaningOf(v: Json): Meaning
    requires UniqueNames(v)
    decreases v
  {
    match v
    case Null => MNull
    case Boolean(b) => MBoolean(b)
    case Number(x) => MNumber(x)
    case String(chars) => MString(chars)
    case Array(items) => MArray(seq(|items|, i requires 0 <= i < |items| => MeaningOf(items[i])))
    case Object(members) =>
      MObject(map n | n in Names(members) :: MeaningOf(members[Find(members, n).value].value))
  }

  lemma IntegersCloseAreEqual(x: real, y: real)
    requires x.Floor as real == x && y.Floor as real == y
    ensures CloseTo(x, y) <==> x == y
  {
    var i, j := x.Floor, y.Floor;
    if i > j {
      RealsApart(i, j);
    } else if j > i {
      RealsApart(j, i);
    }
  }

  lemma RealsApart(i: int, j: int)
    requires i > j
    ensures i as real - j as real >= 1.0
  {
    assert i as real >= (j + 1) as real;
  }

  /** Different numbers are not close to each other. */
  ghost predicate Apart(numbers: iset<real>) {
    forall x, y | x in numbers && y in numbers && x != y :: !CloseTo(x, y)
  }

  /** On trees over numbers that lie apart equality is having the same abstract value. */
  lemma {:induction false} EqualsIsSameMeaning(a: Json, b: Json, numbers: iset<real>)
    requires UniqueNames(a) && UniqueNames(b) && NumbersIn(a, numbers) && NumbersIn(b, numbers) && Apart(numbers)
    ensures Equals(a, b) <==> MeaningOf(a) == MeaningOf(b)
    decreases a
  {
    match (a, b)
    case (Array(x), Array(y)) => ArraysEqualIffSameMeaning(x, y, numbers);
    case (Object(x), Object(y)) => ObjectsEqualIffSameMeaning(x, y, numbers);
    case _ =>
  }

  /**
   Exactly over which numbers equality is having the same abstract value, objects being
   maps: those of which no two lie within the tolerance.
   */
  lemma EqualsIffSameMeaning(numbers: iset<real>)
    ensures Apart(numbers)
       <==> forall a, b | UniqueNames(a) && UniqueNames(b) && NumbersIn(a, numbers) && NumbersIn(b, numbers) ::
              Equals(a, b) <==> MeaningOf(a) == MeaningOf(b)
  {
    if Apart(numbers) {
      forall a, b | UniqueNames(a) && UniqueNames(b) && NumbersIn(a, numbers) && NumbersIn(b, numbers)
        ensures Equals(a, b) <==> MeaningOf(a) == MeaningOf(b)
      {
        EqualsIsSameMeaning(a, b, numbers);
      }
    } else {
      var x, y :| x in numbers && y in numbers && x != y && CloseTo(x, y);
      assert Equals(Number(x), Number(y)) && MeaningOf(Number(x)) != MeaningOf(Number(y));
    }
  }

  /** Integers lie apart, so on trees over them equality is having the same abstract value. */
  lemma IntegersEqualIffSameMeaning(a: Json, b: Json)
    requires UniqueNames(a) && UniqueNames(b)
    requires NumbersIn(a, iset x: real | x.Floor as real == x) && NumbersIn(b, iset x: real | x.Floor as real == x)
    ensures Equals(a, b) <==> MeaningOf(a) == MeaningOf(b)
  {
    var integers := iset x: real | x.Floor as real == x;
    forall x, y | x in integers && y in integers && x != y
      ensures !CloseTo(x, y)
    {
      IntegersCloseAreEqual(x, y);
    }
    EqualsIsSameMeaning(a, b, integers);
  }

  lemma {:induction false} ArraysEqualIffSameMeaning(x: seq<Json>, y: seq<Json>, numbers: iset<real>)
    requires UniqueNames(Array(x)) && UniqueNames(Array(y)) && Apart(numbers)
    requires NumbersIn(Array(x), numbers) && NumbersIn(Array(y), numbers)
    ensures Equals(Array(x), Array(y)) <==> MeaningOf(Array(x)) == MeaningOf(Array(y))
    decreases x
  {
    var mx, my := MeaningOf(Array(x)).items, MeaningOf(Array(y)).items;
    if |x| == |y| {
      forall i | 0 <= i < |x|
        ensures Equals(x[i], y[i]) <==> mx[i] == my[i]
      {
        EqualsIsSameMeaning(x[i], y[i], numbers);
      }
    }
  }

  lemma {:induction false} ObjectsEqualIffSameMeaning(x: seq<Member>, y: seq<Member>, numbers: iset<real>)
    requires UniqueNames(Object(x)) && UniqueNames(Object(y)) && Apart(numbers)
    requires NumbersIn(Object(x), numbers) && NumbersIn(Object(y), numbers)
    ensures Equals(Object(x), Object(y)) <==> MeaningOf(Object(x)) == MeaningOf(Object(y))
    decreases x
  {
    forall i, j | 0 <= i < |x| && 0 <= j < |y|
      ensures Equals(x[i].value, y[j].value) <==> MeaningOf(x[i].value) == MeaningOf(y[j].value)
    {
      EqualsIsSameMeaning(x[i].value, y[j].value, numbers);
    }
    if Equals(Object(x), Object(y)) {
      EqualObjectsMeanTheSame(x, y);
    }
    if MeaningOf(Object(x)) == MeaningOf(Object(y)) {
      SameMeaningEqualObjects(x, y);
    }
  }

  /** The values of two objects are equal where they mean the same. */
  ghost predicate ValuesAgree(x: seq<Member>, y: seq<Member>)
    requires UniqueNames(Object(x)) && UniqueNames(Object(y))
  {
    forall i, j | 0 <= i < |x| && 0 <= j < |y| ::
      Equals(x[i].value, y[j].value) <==> MeaningOf(x[i].value) == MeaningOf(y[j].value)
  }

  lemma Partner(x: seq<Member>, y: seq<Member>, i: nat) returns (j: nat)
    requires Distinct(x) && i < |x| && Equals(Object(x), Object(y))
    ensures |x| == |y| && j < |y| && y[j].name == x[i].name && Find(y, x[i].name) == Some(j)
    ensures Equals(x[i].value, y[j].value)
  {
    assert SameUnder(x, y, x[i].name);
    FindOwnName(x, i);
    j := Find(y, x[i].name).value;
  }

  /** Two maps over the names of an object that agree under every name. */
  lemma SameEntries(x: seq<Member>, mx: map<bytes, Meaning>, my: map<bytes, Meaning>)
    requires mx.Keys == Names(x) && my.Keys == Names(x)
    requires forall i | 0 <= i < |x| :: my[x[i].name] == mx[x[i].name]
    ensures mx == my
  {
    forall n | n in mx.Keys
      ensures mx[n] == my[n]
    {
      var i :| 0 <= i < |x| && x[i].name == n;
    }
  }

  lemma PartnersMeanTheSame(x: seq<Member>, y: seq<Member>, i: nat)
    requires UniqueNames(Object(x)) && UniqueNames(Object(y)) && ValuesAgree(x, y)
    requires i < |x| && Equals(Object(x), Object(y))
    ensures Find(y, x[i].name).Some?
    ensures MeaningOf(x[i].value) == MeaningOf(y[Find(y, x[i].name).value].value)
  {
    var j := Partner(x, y, i);
    assert Equals(x[i].value, y[j].value) <==> MeaningOf(x[i].value) == MeaningOf(y[j].value);
  }

  lemma EqualObjectsMeanTheSame(x: seq<Member>, y: seq<Member>)
    requires UniqueNames(Object(x)) && UniqueNames(Object(y)) && ValuesAgree(x, y)
    requires Equals(Object(x), Object(y))
    ensures MeaningOf(Object(x)) == MeaningOf(Object(y))
  {
    assert |x| == |y|;
    EntriesAre(x);
    EntriesAre(y);
    hide MeaningOf, Equals, UniqueNames, ValuesAgree, Find;
    forall i | 0 <= i < |x|
      ensures Find(y, x[i].name).Some?
      ensures MeaningOf(Object(y)).entries[x[i].name] == MeaningOf(Object(x)).entries[x[i].name]
    {
      PartnersMeanTheSame(x, y, i);
    }
    UniqueAtTheTop(x);
    UniqueAtTheTop(y);
    SameNames(x, y);
    SameEntries(x, MeaningOf(Object(x)).entries, MeaningOf(Object(y)).entries);
  }

  lemma UniqueAtTheTop(x: seq<Member>)
    requires UniqueNames(Object(x))
    ensures Distinct(x)
  {
  }

  lemma SameMeaningEqualObjects(x: seq<Member>, y: seq<Member>)
    requires UniqueNames(Object(x)) && UniqueNames(Object(y)) && ValuesAgree(x, y)
    requires MeaningOf(Object(x)) == MeaningOf(Object(y))
    ensures Equals(Object(x), Object(y))
  {
    EntriesAre(x);
    EntriesAre(y);
    hide MeaningOf;
    SameKeysSameSize(x, y);
    forall i | 0 <= i < |x|
      ensures SameUnder(x, y, x[i].name)
    {
      FindOwnName(x, i);
      assert x[i].name in Names(y);
      var j :| 0 <= j < |y| && y[j].name == x[i].name;
      FindOwnName(y, j);
      assert MeaningOf(x[i].value) == MeaningOf(y[j].value);
      assert Equals(x[i].value, y[j].value);
    }
  }

  lemma EntriesAre(x: seq<Member>)
    requires UniqueNames(Object(x))
    ensures MeaningOf(Object(x)).MObject?
    ensures MeaningOf(Object(x)).entries.Keys == Names(x)
    ensures forall i | 0 <= i < |x| :: MeaningOf(Object(x)).entries[x[i].name] == MeaningOf(x[i].value)
  {
    var m := MeaningOf(Object(x)).entries;
    assert m.Keys == Names(x);
    forall i | 0 <= i < |x|
      ensures m[x[i].name] == MeaningOf(x[i].value)
    {
      FindOwnName(x, i);
      assert x[i].name in Names(x);
    }
  }

  lemma SameKeysSameSize(x: seq<Member>, y: seq<Member>)
    requires Distinct(x) && Distinct(y) && Names(x) == Names(y)
    ensures |x| == |y|
  {
    AsManyNames(x);
    AsManyNames(y);
  }
}
