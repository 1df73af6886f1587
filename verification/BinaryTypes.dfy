// comms-lib: the values that can be sent in binary form, and the order of map keys.
module BinaryTypes {
  type Byte = b: int | 0 <= b < 256

  type Bytes = seq<Byte>

  // What sizeof gives for a scalar.
  type Width = w: nat | 1 <= w witness 1

  // The C++ types with a serializer: integers, std::string, std::array, dynamic arrays, maps.
  datatype Type =
    | Scalar(width: Width, signed: bool)
    | Text
    | Array(elem: Type, length: nat)
    | Vector(elem: Type)
    | Map(key: Type, value: Type)

  // A map is what iterating over a std::map gives: its entries in the order of their keys.
  datatype Val = Int(n: int) | Str(chars: Bytes) | List(elems: seq<Val>) | Dict(entries: seq<Entry>)

  datatype Entry = Entry(key: Val, value: Val)

  // One more than the largest size_t.
  const SIZE_LIMIT: nat := 0x1_0000_0000_0000_0000

  const SIZE_T: Type := Scalar(8, false)

  const INT: Type := Scalar(4, true)

  function Pow256(w: nat): (p: int)
    ensures p > 0
  {
    if w == 0 then 1 else 256 * Pow256(w - 1)
  }

  predicate InRange(width: Width, signed: bool, n: int) {
    if signed then -Pow256(width) <= 2 * n < Pow256(width) else 0 <= n < Pow256(width)
  }

  // A value of the type, except that the entries of a map may be in any order and repeat keys.
  ghost predicate HasShape(ty: Type, v: Val)
    decreases ty
  {
    match ty
    case Scalar(width, signed) => v.Int? && InRange(width, signed, v.n)
    case Text => v.Str? && |v.chars| < SIZE_LIMIT
    case Array(elem, length) => v.List? && |v.elems| == length && forall e :: e in v.elems ==> HasShape(elem, e)
    case Vector(elem) => v.List? && |v.elems| < SIZE_LIMIT && forall e :: e in v.elems ==> HasShape(elem, e)
    case Map(key, value) =>
      && v.Dict? && |v.entries| < SIZE_LIMIT
      && forall e :: e in v.entries ==> HasShape(key, e.key) && HasShape(value, e.value)
  }

  // Every map in the value has its entries in order.
  ghost predicate InOrder(v: Val)
    decreases v
  {
    match v
    case Int(_) => true
    case Str(_) => true
    case List(elems) => forall e :: e in elems ==> InOrder(e)
    case Dict(entries) => Ordered(entries) && forall e :: e in entries ==> InOrder(e.key) && InOrder(e.value)
  }

  ghost predicate HasType(ty: Type, v: Val) { HasShape(ty, v) && InOrder(v) }

  // operator<, under which std::map keeps its keys.
  predicate Less(a: Val, b: Val)
    decreases a
  {
    match a
    case Int(m) => b.Int? && m < b.n
    case Str(s) => b.Str? && LessBytes(s, b.chars)
    case List(s) => b.List? && LessAll(s, b.elems)
    case Dict(s) => b.Dict? && LessEntries(s, b.entries)
  }

  predicate LessBytes(s: Bytes, t: Bytes) {
    if s == [] || t == [] then t != []
    else if s[0] != t[0] then s[0] < t[0]
    else LessBytes(s[1..], t[1..])
  }

  predicate LessAll(s: seq<Val>, t: seq<Val>)
    decreases s
  {
    if s == [] || t == [] then t != []
    else if s[0] != t[0] then Less(s[0], t[0])
    else LessAll(s[1..], t[1..])
  }

  predicate LessEntries(s: seq<Entry>, t: seq<Entry>)
    decreases s
  {
    if s == [] || t == [] then t != []
    else if s[0] != t[0] then LessEntry(s[0], t[0])
    else LessEntries(s[1..], t[1..])
  }

  // operator< of std::pair.
  predicate LessEntry(a: Entry, b: Entry)
    decreases a
  {
    if a.key != b.key then Less(a.key, b.key) else Less(a.value, b.value)
  }

  // The first position where the sequences differ or one of them ends.
  function FirstDifference<T(==)>(s: seq<T>, t: seq<T>): (k: nat)
    ensures k <= |s| && k <= |t| && s[..k] == t[..k]
    ensures k < |s| && k < |t| ==> s[k] != t[k]
  {
    if s == [] || t == [] || s[0] != t[0] then 0
    else
      var k := 1 + FirstDifference(s[1..], t[1..]);
      assert s[..k] == [s[0]] + s[1..][..k - 1] && t[..k] == [t[0]] + t[1..][..k - 1];
      k
  }

  // Sequences compare by the elements where they first differ; what begins the other is the smaller.
  lemma {:induction false} LessBytesIff(s: Bytes, t: Bytes)
    ensures var k := FirstDifference(s, t); LessBytes(s, t) <==> k < |t| && (k == |s| || s[k] < t[k])
  {
    if s != [] && t != [] && s[0] == t[0] {
      LessBytesIff(s[1..], t[1..]);
    }
  }

  lemma {:induction false} LessAllIff(s: seq<Val>, t: seq<Val>)
    ensures var k := FirstDifference(s, t); LessAll(s, t) <==> k < |t| && (k == |s| || Less(s[k], t[k]))
  {
    if s != [] && t != [] && s[0] == t[0] {
      LessAllIff(s[1..], t[1..]);
    }
  }

  lemma {:induction false} LessEntriesIff(s: seq<Entry>, t: seq<Entry>)
    ensures var k := FirstDifference(s, t); LessEntries(s, t) <==> k < |t| && (k == |s| || LessEntry(s[k], t[k]))
  {
    if s != [] && t != [] && s[0] == t[0] {
      LessEntriesIff(s[1..], t[1..]);
    }
  }

  ghost predicate Ordered(entries: seq<Entry>) {
    forall i, j :: 0 <= i < j < |entries| ==> Less(entries[i].key, entries[j].key)
  }

  // lower_bound: the first position whose key is not below the given one.
  function Position(entries: seq<Entry>, key: Val): (k: nat)
    ensures k <= |entries|
  {
    if entries == [] || !Less(entries[0].key, key) then 0 else 1 + Position(entries[1..], key)
  }

  // data[key] = value
  function Put(entries: seq<Entry>, key: Val, value: Val): seq<Entry> {
    var k := Position(entries, key);
    if k < |entries| && entries[k].key == key then entries[k := Entry(key, value)]
    else entries[..k] + [Entry(key, value)] + entries[k..]
  }

  // The keys of one type are totally ordered, as std::map needs.
  lemma {:induction false} Trichotomy(ty: Type, a: Val, b: Val)
    requires HasType(ty, a) && HasType(ty, b)
    ensures a == b || Less(a, b) || Less(b, a)
    ensures Less(a, b) ==> a != b && !Less(b, a)
    decreases ty, 0
  {
    match ty
    case Scalar(_, _) =>
    case Text => TrichotomyBytes(a.chars, b.chars);
    case Array(elem, _) => TrichotomyAll(elem, a.elems, b.elems);
    case Vector(elem) => TrichotomyAll(elem, a.elems, b.elems);
    case Map(key, value) => TrichotomyEntries(key, value, a.entries, b.entries);
  }

  lemma {:induction false} TrichotomyBytes(s: Bytes, t: Bytes)
    ensures s == t || LessBytes(s, t) || LessBytes(t, s)
    ensures LessBytes(s, t) ==> s != t && !LessBytes(t, s)
  {
    if s != [] && t != [] {
      TrichotomyBytes(s[1..], t[1..]);
      assert s == [s[0]] + s[1..] && t == [t[0]] + t[1..];
    }
  }

  lemma {:induction false} TrichotomyAll(ty: Type, s: seq<Val>, t: seq<Val>)
    requires (forall e :: e in s ==> HasType(ty, e)) && forall e :: e in t ==> HasType(ty, e)
    ensures s == t || LessAll(s, t) || LessAll(t, s)
    ensures LessAll(s, t) ==> s != t && !LessAll(t, s)
    decreases ty, |s| + 1
  {
    if s != [] && t != [] {
      Trichotomy(ty, s[0], t[0]);
      TrichotomyAll(ty, s[1..], t[1..]);
      assert s == [s[0]] + s[1..] && t == [t[0]] + t[1..];
    }
  }

  ghost predicate HasShapes(key: Type, value: Type, e: Entry) {
    HasShape(key, e.key) && HasShape(value, e.value)
  }

  ghost predicate HasTypes(key: Type, value: Type, e: Entry) {
    HasType(key, e.key) && HasType(value, e.value)
  }

  lemma {:induction false} TrichotomyEntries(key: Type, value: Type, s: seq<Entry>, t: seq<Entry>)
    requires (forall e :: e in s ==> HasTypes(key, value, e)) && forall e :: e in t ==> HasTypes(key, value, e)
    ensures s == t || LessEntries(s, t) || LessEntries(t, s)
    ensures LessEntries(s, t) ==> s != t && !LessEntries(t, s)
    decreases Map(key, value), 0, |s|
  {
    if s != [] && t != [] {
      TrichotomyEntry(key, value, s[0], t[0]);
      TrichotomyEntries(key, value, s[1..], t[1..]);
      assert s == [s[0]] + s[1..] && t == [t[0]] + t[1..];
    }
  }

  lemma {:induction false} TrichotomyEntry(key: Type, value: Type, a: Entry, b: Entry)
    requires HasTypes(key, value, a) && HasTypes(key, value, b)
    ensures a == b || LessEntry(a, b) || LessEntry(b, a)
    ensures a != b && LessEntry(a, b) ==> !LessEntry(b, a)
    decreases Map(key, value), 0, 0
  {
    Trichotomy(key, a.key, b.key);
    Trichotomy(value, a.value, b.value);
  }

  lemma {:induction false} Transitive(ty: Type, a: Val, b: Val, c: Val)
    requires HasType(ty, a) && HasType(ty, b) && HasType(ty, c) && Less(a, b) && Less(b, c)
    ensures Less(a, c)
    decreases ty, 0
  {
    match ty
    case Scalar(_, _) =>
    case Text => TransitiveBytes(a.chars, b.chars, c.chars);
    case Array(elem, _) => TransitiveAll(elem, a.elems, b.elems, c.elems);
    case Vector(elem) => TransitiveAll(elem, a.elems, b.elems, c.elems);
    case Map(key, value) => TransitiveEntries(key, value, a.entries, b.entries, c.entries);
  }

  lemma {:induction false} TransitiveBytes(s: Bytes, t: Bytes, u: Bytes)
    requires LessBytes(s, t) && LessBytes(t, u)
    ensures LessBytes(s, u)
  {
    if s != [] && s[0] == t[0] == u[0] {
      TransitiveBytes(s[1..], t[1..], u[1..]);
    }
  }

  lemma {:induction false} TransitiveAll(ty: Type, s: seq<Val>, t: seq<Val>, u: seq<Val>)
    requires forall e :: e in s + t + u ==> HasType(ty, e)
    requires LessAll(s, t) && LessAll(t, u)
    ensures LessAll(s, u)
    decreases ty, |s| + 1
  {
    if s != [] {
      Trichotomy(ty, s[0], t[0]);
      if s[0] == t[0] == u[0] {
        TransitiveAll(ty, s[1..], t[1..], u[1..]);
      } else if s[0] != t[0] && t[0] != u[0] {
        Transitive(ty, s[0], t[0], u[0]);
        Trichotomy(ty, s[0], u[0]);
      }
    }
  }

  lemma {:induction false} TransitiveEntries(key: Type, value: Type, s: seq<Entry>, t: seq<Entry>, u: seq<Entry>)
    requires forall e :: e in s + t + u ==> HasTypes(key, value, e)
    requires LessEntries(s, t) && LessEntries(t, u)
    ensures LessEntries(s, u)
    decreases Map(key, value), 0, |s|
  {
    if s != [] {
      if s[0] == t[0] == u[0] {
        TransitiveEntries(key, value, s[1..], t[1..], u[1..]);
      } else if s[0] != t[0] && t[0] != u[0] {
        assert s[0] in s && t[0] in t && u[0] in u;
        TransitiveEntry(key, value, s[0], t[0], u[0]);
      }
    }
  }

  lemma {:induction false} TransitiveEntry(key: Type, value: Type, a: Entry, b: Entry, c: Entry)
    requires HasTypes(key, value, a) && HasTypes(key, value, b) && HasTypes(key, value, c)
    requires a != b && b != c && LessEntry(a, b) && LessEntry(b, c)
    ensures a != c && LessEntry(a, c)
    decreases Map(key, value), 0, 0
  {
    TrichotomyEntry(key, value, a, b);
    if a.key != b.key && b.key != c.key {
      Transitive(key, a.key, b.key, c.key);
      Trichotomy(key, a.key, c.key);
    } else if a.key == b.key == c.key {
      Transitive(value, a.value, b.value, c.value);
      Trichotomy(value, a.value, c.value);
    }
  }

  lemma {:induction false} PositionSplits(ty: Type, entries: seq<Entry>, key: Val)
    requires Ordered(entries) && HasType(ty, key) && forall e :: e in entries ==> HasType(ty, e.key)
    ensures forall i :: 0 <= i < Position(entries, key) ==> Less(entries[i].key, key)
    ensures forall i :: Position(entries, key) <= i < |entries| ==>
              Less(key, entries[i].key) || (entries[i].key == key && i == Position(entries, key))
  {
    if entries == [] {
    } else if Less(entries[0].key, key) {
      PositionSplits(ty, entries[1..], key);
      assert forall i :: 0 < i < |entries| ==> entries[i] == entries[1..][i - 1];
    } else {
      assert entries[0] in entries;
      Trichotomy(ty, entries[0].key, key);
      forall i | 0 < i < |entries|
        ensures Less(key, entries[i].key)
      {
        assert entries[i] in entries;
        if entries[0].key != key {
          Transitive(ty, key, entries[0].key, entries[i].key);
        }
      }
    }
  }

  lemma InsertedInOrder(entries: seq<Entry>, k: nat, e: Entry)
    requires Ordered(entries) && k <= |entries|
    requires forall i :: 0 <= i < k ==> Less(entries[i].key, e.key)
    requires forall i :: k <= i < |entries| ==> Less(e.key, entries[i].key)
    ensures Ordered(entries[..k] + [e] + entries[k..])
  {
  }

  lemma PutKeepsOrder(ty: Type, entries: seq<Entry>, key: Val, value: Val)
    requires Ordered(entries) && HasType(ty, key) && forall e :: e in entries ==> HasType(ty, e.key)
    ensures Ordered(Put(entries, key, value)) && |Put(entries, key, value)| <= |entries| + 1
  {
    PositionSplits(ty, entries, key);
    var k := Position(entries, key);
    if k < |entries| && entries[k].key == key {
    } else {
      InsertedInOrder(entries, k, Entry(key, value));
    }
  }

  // Nothing is in the map that was not there or has just been put there.
  lemma PutAdds(entries: seq<Entry>, key: Val, value: Val)
    ensures Entry(key, value) in Put(entries, key, value)
    ensures forall e :: e in Put(entries, key, value) ==> e == Entry(key, value) || e in entries
  {
    assert Put(entries, key, value)[Position(entries, key)] == Entry(key, value);
  }

  // What a map is for: the other keys keep their entries.
  lemma PutKeepsOthers(entries: seq<Entry>, key: Val, value: Val, e: Entry)
    requires e in entries && e.key != key
    ensures e in Put(entries, key, value)
  {
    var i :| 0 <= i < |entries| && entries[i] == e;
    var k, now := Position(entries, key), Put(entries, key, value);
    assert now[if i < k || |now| == |entries| then i else i + 1] == e;
  }

  lemma PutLast(entries: seq<Entry>, key: Val, value: Val)
    requires forall i :: 0 <= i < |entries| ==> Less(entries[i].key, key)
    ensures Put(entries, key, value) == entries + [Entry(key, value)]
  {
    PositionLast(entries, key);
  }

  lemma {:induction false} PositionLast(entries: seq<Entry>, key: Val)
    requires forall i :: 0 <= i < |entries| ==> Less(entries[i].key, key)
    ensures Position(entries, key) == |entries|
  {
    if entries != [] {
      assert forall i :: 0 <= i < |entries[1..]| ==> entries[1..][i] == entries[i + 1];
      PositionLast(entries[1..], key);
    }
  }
}
