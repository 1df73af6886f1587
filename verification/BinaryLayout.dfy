// comms-lib: which byte stands where. Numbers have their lowest byte first, counts stand
// before what they count, and a packet is its type string, its address and its data.
module BinaryLayout {
  import opened BinaryTypes
  import opened BinaryFormat
  import opened MessageFactories

  lemma {:induction false} ByteAt(n: nat, w: nat, i: nat)
    requires i < w
    ensures ToBytes(n, w)[i] == n / Pow256(i) % 256
  {
    if i > 0 {
      ByteAt(n / 256, w - 1, i - 1);
      DivideTwice(n, Pow256(i - 1));
    }
  }

  lemma DivideTwice(n: nat, p: int)
    requires p > 0
    ensures n / 256 / p == n / (256 * p)
  {
    var q := n / 256;
    assert n == 256 * p * (q / p) + (256 * (q % p) + n % 256) by {
      assert q == p * (q / p) + q % p;
    }
    Quotient(n, 256 * p, q / p, 256 * (q % p) + n % 256);
  }

  lemma Quotient(n: int, d: int, q: int, r: int)
    requires n == d * q + r && 0 <= r < d
    ensures n / d == q
  {
    var k := n / d - q;
    assert d * k == d * (n / d) - d * q;
    Multiple(d, k);
  }

  lemma {:induction false} Multiple(d: int, k: int)
    requires d > 0
    ensures if k > 0 then d * k >= d else if k < 0 then d * k <= -d else d * k == 0
    decreases if k < 0 then -k else k
  {
    if k > 1 {
      Multiple(d, k - 1);
      assert d * k == d * (k - 1) + d;
    } else if k < -1 {
      Multiple(d, k + 1);
      assert d * k == d * (k + 1) - d;
    }
  }

  // The number that two's complement of this width makes of a negative one.
  function Unsigned(n: int, width: Width): int {
    if n < 0 then n + Pow256(width) else n
  }

  // An integer: its lowest byte first.
  lemma IntLayout(n: int, width: Width, signed: bool)
    requires InRange(width, signed, n)
    ensures |EncodeInt(n, width)| == width
    ensures forall i :: 0 <= i < width ==> EncodeInt(n, width)[i] == Unsigned(n, width) / Pow256(i) % 256
  {
    WrapAround(n, Pow256(width));
    forall i | 0 <= i < width
      ensures EncodeInt(n, width)[i] == Unsigned(n, width) / Pow256(i) % 256
    {
      ByteAt(Unsigned(n, width), width, i);
    }
  }

  // The powers are those of 256.
  lemma Powers()
    ensures Pow256(0) == 1 && Pow256(1) == 0x100 && Pow256(2) == 0x1_0000 && Pow256(3) == 0x100_0000
    ensures Pow256(4) == 0x1_0000_0000 && Pow256(8) == 0x1_0000_0000_0000_0000
    ensures forall w: nat :: Pow256(w + 1) == 256 * Pow256(w)
  {
    assert Pow256(5) == 0x100_0000_0000 && Pow256(7) == 0x100_0000_0000_0000;
  }

  // The four bytes of an int.
  lemma IntBytes(n: int)
    requires InRange(4, true, n)
    ensures var u, bs := if n < 0 then n + 0x1_0000_0000 else n, Encode(INT, Int(n));
            && |bs| == 4 && bs[0] == u % 0x100 && bs[1] == u / 0x100 % 0x100
            && bs[2] == u / 0x1_0000 % 0x100 && bs[3] == u / 0x100_0000 % 0x100
  {
    Powers();
    IntLayout(n, 4, true);
  }

  // The integers of each width.
  lemma RangesAre(n: int)
    ensures InRange(1, true, n) <==> -0x80 <= n < 0x80
    ensures InRange(2, true, n) <==> -0x8000 <= n < 0x8000
    ensures InRange(4, true, n) <==> -0x8000_0000 <= n < 0x8000_0000
    ensures InRange(8, true, n) <==> -0x8000_0000_0000_0000 <= n < 0x8000_0000_0000_0000
    ensures InRange(1, false, n) <==> 0 <= n < 0x100
    ensures InRange(4, false, n) <==> 0 <= n < 0x1_0000_0000
    ensures InRange(8, false, n) <==> 0 <= n < 0x1_0000_0000_0000_0000
  {
    Powers();
  }

  // The highest bit of the last byte is the sign.
  lemma SignBit(bs: Bytes)
    requires bs != []
    ensures DecodeInt(bs, true) < 0 <==> bs[|bs| - 1] >= 0x80
  {
    HighestByte(bs);
  }

  lemma {:induction false} HighestByte(bs: Bytes)
    requires bs != []
    ensures 2 * FromBytes(bs) >= Pow256(|bs|) <==> bs[|bs| - 1] >= 0x80
  {
    if |bs| > 1 {
      HighestByte(bs[1..]);
      assert Pow256(|bs| - 1) == 2 * (128 * Pow256(|bs| - 2));
      AboveHalf(bs[0], FromBytes(bs[1..]), 128 * Pow256(|bs| - 2));
    } else {
      assert FromBytes(bs[1..]) == 0;
    }
  }

  lemma AboveHalf(lowest: Byte, others: int, half: int)
    ensures 2 * (lowest + 256 * others) >= 256 * (2 * half) <==> others >= half
  {
  }

  // The eight bytes of a count are at the front, and what is counted follows.
  lemma CountLayout(n: nat, body: Bytes)
    requires n < SIZE_LIMIT
    ensures var bs := EncodeLength(n) + body;
            && |bs| == 8 + |body| && bs[8..] == body
            && forall i :: 0 <= i < 8 ==> bs[i] == n / Pow256(i) % 256
  {
    Powers();
    IntLayout(n, 8, false);
  }

  // A string: its length and its characters.
  lemma TextLayout(s: Bytes)
    requires |s| < SIZE_LIMIT
    ensures var bs := Encode(Text, Str(s));
            && |bs| == 8 + |s| && bs[8..] == s
            && forall i :: 0 <= i < 8 ==> bs[i] == |s| / Pow256(i) % 256
  {
    CountLayout(|s|, s);
  }

  // Elements stand one behind the other.
  lemma {:induction false} ElementsAppend(ty: Type, a: seq<Val>, b: seq<Val>)
    requires (forall v :: v in a ==> HasShape(ty, v)) && forall v :: v in b ==> HasShape(ty, v)
    ensures EncodeAll(ty, a + b) == EncodeAll(ty, a) + EncodeAll(ty, b)
    decreases |a|
  {
    if a == [] {
      assert a + b == b;
    } else {
      assert (a + b)[1..] == a[1..] + b;
      ElementsAppend(ty, a[1..], b);
    }
  }

  lemma ElementAt(ty: Type, a: seq<Val>, v: Val, b: seq<Val>)
    requires (forall e :: e in a ==> HasShape(ty, e)) && HasShape(ty, v) && forall e :: e in b ==> HasShape(ty, e)
    ensures EncodeAll(ty, a + [v] + b) == EncodeAll(ty, a) + Encode(ty, v) + EncodeAll(ty, b)
    ensures EncodeAll(ty, []) == []
  {
    assert [v][1..] == [] && EncodeAll(ty, [v]) == Encode(ty, v);
    ElementsAppend(ty, a, [v]);
    ElementsAppend(ty, a + [v], b);
  }

  // So do the entries of a map, each with its key before its value.
  lemma {:induction false} EntriesAppend(key: Type, value: Type, a: seq<Entry>, b: seq<Entry>)
    requires (forall e :: e in a ==> HasShapes(key, value, e)) && forall e :: e in b ==> HasShapes(key, value, e)
    ensures EncodeEntries(key, value, a + b) == EncodeEntries(key, value, a) + EncodeEntries(key, value, b)
    decreases |a|
  {
    if a == [] {
      assert a + b == b;
    } else {
      assert (a + b)[1..] == a[1..] + b;
      EntriesAppend(key, value, a[1..], b);
    }
  }

  lemma EntryAt(key: Type, value: Type, a: seq<Entry>, e: Entry, b: seq<Entry>)
    requires (forall d :: d in a ==> HasShapes(key, value, d)) && forall d :: d in b ==> HasShapes(key, value, d)
    requires HasShape(key, e.key) && HasShape(value, e.value)
    ensures EncodeEntries(key, value, a + [e] + b)
         == EncodeEntries(key, value, a) + (Encode(key, e.key) + Encode(value, e.value)) + EncodeEntries(key, value, b)
    ensures EncodeEntries(key, value, []) == []
  {
    assert [e][1..] == [] && EncodeEntries(key, value, [e]) == Encode(key, e.key) + Encode(value, e.value);
    EntriesAppend(key, value, a, [e]);
    EntriesAppend(key, value, a + [e], b);
  }

  // Arrays have no count; vectors and maps have one.
  lemma CollectionLayout(ty: Type, v: Val)
    requires HasShape(ty, v)
    ensures ty.Array? ==> Encode(ty, v) == EncodeAll(ty.elem, v.elems)
    ensures ty.Vector? ==>
              var bs := Encode(ty, v);
              && bs[8..] == EncodeAll(ty.elem, v.elems)
              && forall i :: 0 <= i < 8 ==> bs[i] == |v.elems| / Pow256(i) % 256
    ensures ty.Map? ==>
              var bs := Encode(ty, v);
              && bs[8..] == EncodeEntries(ty.key, ty.value, v.entries)
              && forall i :: 0 <= i < 8 ==> bs[i] == |v.entries| / Pow256(i) % 256
  {
    if ty.Vector? {
      CountLayout(|v.elems|, EncodeAll(ty.elem, v.elems));
    } else if ty.Map? {
      CountLayout(|v.entries|, EncodeEntries(ty.key, ty.value, v.entries));
    }
  }

  // A packet byte by byte: the length of its type string, the string, the recipient's type, the
  // recipient's instance, and the data.
  lemma PacketLayout(p: Packet)
    requires IsPacket(p)
    ensures var (k, bs) := (|p.message.kind|, EncodePacket(p));
            && |bs| >= 16 + k
            && (forall i :: 0 <= i < 8 ==> bs[i] == k / Pow256(i) % 256)
            && bs[8..8 + k] == p.message.kind
            && (forall i :: 0 <= i < 4 ==> bs[8 + k + i] == Unsigned(p.recipientType, 4) / Pow256(i) % 256)
            && (forall i :: 0 <= i < 4 ==> bs[12 + k + i] == Unsigned(p.recipientInstance, 4) / Pow256(i) % 256)
            && bs[16 + k..] == Encode(p.message.dataType, p.message.data)
  {
    TextLayout(p.message.kind);
    IntLayout(p.recipientType, 4, true);
    IntLayout(p.recipientInstance, 4, true);
    Positions(Encode(Text, Str(p.message.kind)), Encode(INT, Int(p.recipientType)),
              Encode(INT, Int(p.recipientInstance)), Encode(p.message.dataType, p.message.data));
  }

  lemma Positions(a: Bytes, b: Bytes, c: Bytes, d: Bytes)
    ensures var bs := a + (b + c) + d;
            && (forall i :: 0 <= i < |a| ==> bs[i] == a[i]) && (forall i :: 0 <= i < |b| ==> bs[|a| + i] == b[i])
            && (forall i :: 0 <= i < |c| ==> bs[|a| + |b| + i] == c[i]) && bs[|a| + |b| + |c|..] == d
            && forall i :: 0 <= i <= |a| ==> bs[i..|a|] == a[i..]
  {
  }
}
