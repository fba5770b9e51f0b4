/** The type registry and the dispatch codec: a record's type key selects the
    codec of a node kind; the union codec writes its first child under
    `sdf_a` and its second under `sdf_b` and rebuilds the union from them in
    that order. */
module Codec {
  import opened Records
  import opened Shapes

  datatype Result<T, E> = Success(value: T) | Failure(error: E)

  datatype DecodeError =
    | UnknownTypeKey(key: string)
    | MissingField(name: string)

  const UnionKey: string := "union"
  const EmptyKey: string := "empty"
  const FirstField: string := "sdf_a"
  const SecondField: string := "sdf_b"

  /** The keys `bootstrap` registers, in registration order. */
  function BootstrapKeys(): (keys: seq<string>)
    ensures |keys| == 10
    ensures forall i, j :: 0 <= i < j < |keys| ==> keys[i] != keys[j]
    ensures UnionKey in keys && EmptyKey in keys
  {
    ["union", "intersect", "dif", "invert", "empty",
     "sphere", "box", "cylinder", "prism", "ellipsoid"]
  }

  /** The registry after `bootstrap`: the set of registered keys. */
  function BootstrapRegistry(): (registry: set<string>)
    ensures forall k :: k in registry <==> k in BootstrapKeys()
  {
    set k | k in BootstrapKeys()
  }

  /** A value the dispatch codec can write and read back: every kind it uses
      is registered, and a node outside the model carries a key that is
      neither the union's nor the sentinel's. */
  ghost predicate WellFormedIn(s: Sdf, registry: set<string>)
  {
    match s
    case Empty => EmptyKey in registry
    case Union(a, b) => UnionKey in registry && WellFormedIn(a, registry) && WellFormedIn(b, registry)
    case Foreign(r) => r.typeKey in registry && r.typeKey != UnionKey && r.typeKey != EmptyKey
  }

  /** Writes a value as a record: the sentinel as its bare key, a union under
      its key with the first child in `sdf_a` and the second in `sdf_b`, in
      that order, and a node outside the model as its own record. */
  function Encode(s: Sdf): (r: Record)
    ensures s.Empty? ==> r == Record(EmptyKey, [])
    ensures s.Foreign? ==> r == s.rec
    ensures s.Union? ==>
      && r.typeKey == UnionKey
      && |r.fields| == 2 && r.fields[0].name == FirstField && r.fields[1].name == SecondField
      && ChildRecord(r.fields, FirstField) == Some(Encode(s.first))
      && ChildRecord(r.fields, SecondField) == Some(Encode(s.second))
  {
    match s
    case Empty => Record(EmptyKey, [])
    case Union(a, b) =>
      var fields := [Field(FirstField, Child(Encode(a))), Field(SecondField, Child(Encode(b)))];
      assert FieldIndex(fields, FirstField) == 0;
      assert FieldIndex(fields, SecondField) == 1;
      Record(UnionKey, fields)
    case Foreign(r) => r
  }

  /** Reads a record through the registry. A union record needs both child
      fields; a child that fails to decode fails the whole record with the
      child's error, the first child's before the second's. */
  function Decode(registry: set<string>, r: Record): (res: Result<Sdf, DecodeError>)
    ensures r.typeKey !in registry ==> res == Failure(UnknownTypeKey(r.typeKey))
    ensures r.typeKey in registry && r.typeKey == UnionKey ==>
      var ca, cb := ChildRecord(r.fields, FirstField), ChildRecord(r.fields, SecondField);
      && (ca.None? ==> res == Failure(MissingField(FirstField)))
      && (ca.Some? && cb.None? ==> res == Failure(MissingField(SecondField)))
      && (ca.Some? && cb.Some? ==>
            && (res.Success? <==> Decode(registry, ca.value).Success? && Decode(registry, cb.value).Success?)
            && (res.Success? ==> res.value == Union(Decode(registry, ca.value).value, Decode(registry, cb.value).value))
            && (Decode(registry, ca.value).Failure? ==> res == Decode(registry, ca.value))
            && (Decode(registry, ca.value).Success? && Decode(registry, cb.value).Failure? ==>
                  res == Failure(Decode(registry, cb.value).error)))
    ensures r.typeKey in registry && r.typeKey == EmptyKey ==> res == Success(Empty)
    ensures r.typeKey in registry && r.typeKey != UnionKey && r.typeKey != EmptyKey ==> res == Success(Foreign(r))
    ensures res.Success? ==> WellFormedIn(res.value, registry)
    ensures res.Success? ==> Encode(res.value).typeKey == r.typeKey
    decreases r
  {
    if r.typeKey !in registry then Failure(UnknownTypeKey(r.typeKey))
    else if r.typeKey == UnionKey then
      match (ChildRecord(r.fields, FirstField), ChildRecord(r.fields, SecondField))
      case (None, _) => Failure(MissingField(FirstField))
      case (Some(_), None) => Failure(MissingField(SecondField))
      case (Some(ra), Some(rb)) =>
        match Decode(registry, ra)
        case Failure(e) => Failure(e)
        case Success(a) =>
          match Decode(registry, rb)
          case Failure(e) => Failure(e)
          case Success(b) => Success(Union(a, b))
    else if r.typeKey == EmptyKey then Success(Empty)
    else Success(Foreign(r))
  }

  /** Decoding what was encoded gives back the same value, children in the
      same order. */
  lemma {:induction false} DecodeEncode(s: Sdf, registry: set<string>)
    requires WellFormedIn(s, registry)
    ensures Decode(registry, Encode(s)) == Success(s)
  {
    match s
    case Empty =>
    case Union(a, b) =>
      DecodeEncode(a, registry);
      DecodeEncode(b, registry);
    case Foreign(r) =>
  }

  /** A record that decodes is read the same way after one more write. */
  lemma DecodeIsStable(r: Record, registry: set<string>)
    requires Decode(registry, r).Success?
    ensures Decode(registry, Encode(Decode(registry, r).value)) == Decode(registry, r)
  {
    DecodeEncode(Decode(registry, r).value, registry);
  }

  /** With the bootstrap registry, every tree of unions over unset slots
      survives a write and a read. */
  lemma {:induction false} BuiltinTreesRoundTrip(s: Sdf)
    requires forall l :: l in Leaves(s) ==> l.Empty?
    ensures Decode(BootstrapRegistry(), Encode(s)) == Success(s)
  {
    BuiltinTreesWellFormed(s);
    DecodeEncode(s, BootstrapRegistry());
  }

  lemma {:induction false} BuiltinTreesWellFormed(s: Sdf)
    requires forall l :: l in Leaves(s) ==> l.Empty?
    ensures WellFormedIn(s, BootstrapRegistry())
  {
    assert !s.Union? ==> s in Leaves(s);
    match s
    case Union(a, b) =>
      assert forall l :: l in Leaves(a) ==> l in Leaves(s);
      assert forall l :: l in Leaves(b) ==> l in Leaves(s);
      BuiltinTreesWellFormed(a);
      BuiltinTreesWellFormed(b);
    case Empty =>
    case Foreign(_) =>
      assert false;
  }
}
