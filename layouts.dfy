/** Structures as JNA lays them out: each field of a Java type at the
    running sum of the widths before it, multi-byte fields little-endian
    (the byte order of every Windows target), with a reader for every field
    and the writer that is its inverse. */
module Layouts {
  import opened JavaLang

  // ---------------------------------------------------------------------
  // Little-endian integers
  // ---------------------------------------------------------------------

  function Pow256(n: nat): (p: nat)
    ensures p >= 1
  {
    if n == 0 then 1 else 256 * Pow256(n - 1)
  }

  /** The unsigned value of `b`, least significant byte first. */
  function LittleEndian(b: seq<Octet>): (v: nat)
    ensures v < Pow256(|b|)
  {
    if b == [] then 0 else b[0] + 256 * LittleEndian(b[1..])
  }

  /** Splitting a number into its low byte and the rest. */
  lemma {:induction false} DivMod256(lo: nat, hi: nat)
    requires lo < 256
    ensures (lo + 256 * hi) % 256 == lo && (lo + 256 * hi) / 256 == hi
  {
  }

  lemma {:induction false} QuotientBound(v: nat, p: nat)
    requires v < 256 * p
    ensures v / 256 < p && v == v % 256 + 256 * (v / 256)
  {
  }

  /** The `n` bytes of `v`, least significant first. */
  function ToLittleEndian(v: nat, n: nat): (b: seq<Octet>)
    requires v < Pow256(n)
    ensures |b| == n
  {
    if n == 0 then []
    else
      QuotientBound(v, Pow256(n - 1));
      [v % 256] + ToLittleEndian(v / 256, n - 1)
  }

  lemma {:induction false} LittleEndianOfBytes(v: nat, n: nat)
    requires v < Pow256(n)
    ensures LittleEndian(ToLittleEndian(v, n)) == v
  {
    if n > 0 {
      QuotientBound(v, Pow256(n - 1));
      var b := ToLittleEndian(v, n);
      assert b == [v % 256] + ToLittleEndian(v / 256, n - 1);
      assert b[1..] == ToLittleEndian(v / 256, n - 1);
      LittleEndianOfBytes(v / 256, n - 1);
      assert LittleEndian(b) == b[0] + 256 * LittleEndian(b[1..]);
    }
  }

  lemma {:induction false} BytesOfLittleEndian(b: seq<Octet>)
    ensures ToLittleEndian(LittleEndian(b), |b|) == b
  {
    if b != [] {
      var rest := LittleEndian(b[1..]);
      var v := LittleEndian(b);
      assert v == b[0] + 256 * rest;
      DivMod256(b[0], rest);
      BytesOfLittleEndian(b[1..]);
      assert ToLittleEndian(v, |b|) == [b[0]] + ToLittleEndian(rest, |b| - 1);
      assert b == [b[0]] + b[1..];
    }
  }

  /** The two's-complement reading of an unsigned value modulo `m`. */
  function Signed(u: nat, m: nat): (x: int)
    requires u < m && m % 2 == 0
    ensures -(m / 2) <= x < m / 2 && (x == u || x == u - m)
  {
    if u >= m / 2 then u - m else u
  }

  /** The two's-complement bit pattern of `x`, as an unsigned value modulo `m`. */
  function Unsigned(x: int, m: nat): (u: nat)
    requires m % 2 == 0 && -(m / 2) <= x < m / 2
    ensures u < m && (x < 0 ==> u == x + m) && (x >= 0 ==> u == x)
  {
    if x < 0 then x + m else x
  }

  lemma {:induction false} SignedUnsigned(x: int, m: nat)
    requires m > 0 && m % 2 == 0 && -(m / 2) <= x < m / 2
    ensures Signed(Unsigned(x, m), m) == x
  {
  }

  lemma {:induction false} UnsignedSigned(u: nat, m: nat)
    requires u < m && m % 2 == 0
    ensures Unsigned(Signed(u, m), m) == u
  {
  }

  // ---------------------------------------------------------------------
  // Field kinds and values
  // ---------------------------------------------------------------------

  /** The Java type of a structure field: `int`, `long`, `byte`, or a
      `byte[]` of `count` elements laid out inline. */
  datatype Kind = JInt | JLong | JByte | JBytes(count: nat)

  /** Bytes the field takes in native memory. */
  function Width(k: Kind): nat {
    match k
    case JInt => 4
    case JLong => 8
    case JByte => 1
    case JBytes(count) => count
  }

  /** The alignment the native type of the field demands. */
  function Align(k: Kind): (a: nat)
    ensures a == 1 || a == 4 || a == 8
  {
    match k
    case JInt => 4
    case JLong => 8
    case JByte => 1
    case JBytes(_) => 1
  }

  /** 2^(8 * width) for the numeric kinds, one element's range for arrays. */
  function Modulus(k: Kind): (m: nat)
    ensures m > 0 && m % 2 == 0
  {
    match k
    case JInt => TWO32
    case JLong => TWO64
    case JByte => 0x100
    case JBytes(_) => 0x100
  }

  lemma {:induction false} ModulusOfWidth(k: Kind)
    requires !k.JBytes?
    ensures Pow256(Width(k)) == Modulus(k)
  {
    assert Pow256(1) == 0x100;
    assert Pow256(4) == 256 * 256 * Pow256(2);
    assert Pow256(8) == Pow256(4) * Pow256(4) by {
      assert Pow256(8) == 256 * 256 * 256 * 256 * Pow256(4);
    }
  }

  /** The value of one field: a number, or the elements of a `byte[]`. */
  datatype Value = Num(n: int) | Arr(items: seq<int>)

  predicate InByteRange(items: seq<int>) {
    forall j :: 0 <= j < |items| ==> -0x80 <= items[j] < 0x80
  }

  /** `v` is a value a Java field of kind `k` can hold. */
  predicate Fits(k: Kind, v: Value) {
    match k
    case JBytes(count) => v.Arr? && |v.items| == count && InByteRange(v.items)
    case _ => v.Num? && -(Modulus(k) / 2) <= v.n < Modulus(k) / 2
  }

  /** The field read from the `Width(k)` bytes of memory it occupies. */
  function Read(k: Kind, b: seq<Octet>): (v: Value)
    requires |b| == Width(k)
    ensures Fits(k, v)
  {
    match k
    case JBytes(count) => Arr(seq(count, j requires 0 <= j < count => Signed(b[j], 0x100)))
    case _ => ModulusOfWidth(k); Num(Signed(LittleEndian(b), Modulus(k)))
  }

  /** The bytes a field of kind `k` holding `v` writes to memory. */
  function Write(k: Kind, v: Value): (b: seq<Octet>)
    requires Fits(k, v)
    ensures |b| == Width(k)
  {
    match k
    case JBytes(count) => seq(count, j requires 0 <= j < count => Unsigned(v.items[j], 0x100))
    case _ => ModulusOfWidth(k); ToLittleEndian(Unsigned(v.n, Modulus(k)), Width(k))
  }

  lemma {:induction false} ReadWrite(k: Kind, v: Value)
    requires Fits(k, v)
    ensures Read(k, Write(k, v)) == v
  {
    match k
    case JBytes(count) =>
      var b := Write(k, v);
      forall j | 0 <= j < count ensures Signed(b[j], 0x100) == v.items[j] {
        SignedUnsigned(v.items[j], 0x100);
      }
    case _ =>
      ModulusOfWidth(k);
      LittleEndianOfBytes(Unsigned(v.n, Modulus(k)), Width(k));
      SignedUnsigned(v.n, Modulus(k));
  }

  lemma {:induction false} WriteRead(k: Kind, b: seq<Octet>)
    requires |b| == Width(k)
    ensures Write(k, Read(k, b)) == b
  {
    match k
    case JBytes(count) =>
      var v := Read(k, b);
      forall j | 0 <= j < count ensures Unsigned(v.items[j], 0x100) == b[j] {
        UnsignedSigned(b[j], 0x100);
      }
    case _ =>
      ModulusOfWidth(k);
      UnsignedSigned(LittleEndian(b), Modulus(k));
      BytesOfLittleEndian(b);
  }

  // ---------------------------------------------------------------------
  // Layouts: offsets as running sums
  // ---------------------------------------------------------------------

  /** The offset of field `i`: the widths of the fields before it, summed. */
  function Offset(ks: seq<Kind>, i: nat): nat
    requires i <= |ks|
  {
    if i == 0 then 0 else Offset(ks, i - 1) + Width(ks[i - 1])
  }

  /** The bytes the fields take altogether. */
  function Span(ks: seq<Kind>): nat {
    if ks == [] then 0 else Width(ks[0]) + Span(ks[1..])
  }

  lemma {:induction false} OffsetOfTail(ks: seq<Kind>, i: nat)
    requires 0 < |ks| && i < |ks|
    ensures Offset(ks, i + 1) == Width(ks[0]) + Offset(ks[1..], i)
  {
    if i > 0 {
      OffsetOfTail(ks, i - 1);
    }
  }

  lemma {:induction false} OffsetOfEnd(ks: seq<Kind>)
    ensures Offset(ks, |ks|) == Span(ks)
  {
    if ks != [] {
      OffsetOfTail(ks, |ks| - 1);
      OffsetOfEnd(ks[1..]);
    }
  }

  /** A later field never starts before an earlier one ends: the byte
      ranges of the fields are disjoint and in layout order. */
  lemma {:induction false} FieldsInOrder(ks: seq<Kind>, i: nat, j: nat)
    requires i < j < |ks|
    ensures Offset(ks, i) + Width(ks[i]) <= Offset(ks, j)
    ensures Width(ks[i]) > 0 ==> Offset(ks, i) < Offset(ks, j)
    decreases j
  {
    if i + 1 < j {
      FieldsInOrder(ks, i, j - 1);
    }
  }

  lemma {:induction false} OffsetMonotone(ks: seq<Kind>, i: nat, j: nat)
    requires i <= j <= |ks|
    ensures Offset(ks, i) <= Offset(ks, j)
    decreases j
  {
    if i < j {
      OffsetMonotone(ks, i, j - 1);
    }
  }

  /** The smallest multiple of `a` that is at least `x`, for the
      alignments that occur here. */
  function RoundUp(x: nat, a: nat): (r: nat)
    requires a == 1 || a == 4 || a == 8
    ensures r % a == 0 && x <= r < x + a
    ensures x % a == 0 ==> r == x
  {
    if a == 1 then x else if a == 4 then (x + 3) / 4 * 4 else (x + 7) / 8 * 8
  }

  /** The offsets a C compiler or JNA's default alignment would choose:
      each field at the next multiple of its alignment. */
  function AlignedOffset(ks: seq<Kind>, i: nat): nat
    requires i < |ks|
  {
    if i == 0 then 0 else RoundUp(AlignedOffset(ks, i - 1) + Width(ks[i - 1]), Align(ks[i]))
  }

  /** If every running offset is already a multiple of its field's
      alignment, no padding is implied and the aligned layout is the
      running-sum layout. */
  lemma {:induction false} AlignedIsRunning(ks: seq<Kind>, i: nat)
    requires i < |ks|
    requires forall j :: 0 <= j < |ks| ==> Offset(ks, j) % Align(ks[j]) == 0
    ensures AlignedOffset(ks, i) == Offset(ks, i)
  {
    if i > 0 {
      AlignedIsRunning(ks, i - 1);
    }
  }

  /** Every field read at its offset. */
  function ReadAll(ks: seq<Kind>, buf: seq<Octet>): (vs: seq<Value>)
    requires Span(ks) <= |buf|
    ensures |vs| == |ks| && forall i :: 0 <= i < |ks| ==> Fits(ks[i], vs[i])
  {
    if ks == [] then []
    else
      var w := Width(ks[0]);
      [Read(ks[0], buf[..w])] + ReadAll(ks[1..], buf[w..])
  }

  /** Every field written in layout order, with no gap between fields. */
  function WriteAll(ks: seq<Kind>, vs: seq<Value>): (buf: seq<Octet>)
    requires |vs| == |ks| && forall i :: 0 <= i < |ks| ==> Fits(ks[i], vs[i])
    ensures |buf| == Span(ks)
  {
    if ks == [] then [] else Write(ks[0], vs[0]) + WriteAll(ks[1..], vs[1..])
  }

  /** Past the first field, `ReadAll` reads the rest of the buffer. */
  lemma {:induction false} ReadAllTail(ks: seq<Kind>, buf: seq<Octet>, i: nat)
    requires Span(ks) <= |buf| && 0 < i < |ks|
    ensures Width(ks[0]) <= |buf| && Span(ks[1..]) <= |buf| - Width(ks[0])
    ensures ReadAll(ks, buf)[i] == ReadAll(ks[1..], buf[Width(ks[0])..])[i - 1]
  {
  }

  lemma {:induction false} SliceOfSuffix(buf: seq<Octet>, w: nat, a: nat, b: nat, lo: nat, hi: nat)
    requires lo == w + a && hi == w + b && lo <= hi <= |buf|
    ensures buf[w..][a..b] == buf[lo..hi]
  {
  }

  /** `ReadAll` reads field `i` from bytes `Offset(i)` up to `Offset(i + 1)`. */
  lemma {:induction false} ReadAllAt(ks: seq<Kind>, buf: seq<Octet>, i: nat)
    requires Span(ks) <= |buf| && i < |ks|
    ensures Offset(ks, i + 1) <= |buf|
    ensures ReadAll(ks, buf)[i] == Read(ks[i], buf[Offset(ks, i)..Offset(ks, i + 1)])
    decreases i, 1
  {
    OffsetOfTail(ks, i);
    if i == 0 {
      ReadAllAtFirst(ks, buf);
    } else {
      ReadAllAtLater(ks, buf, i);
    }
  }

  /** The first field of `ReadAll` is read from the first `Width` octets. */
  lemma ReadAllAtFirst(ks: seq<Kind>, buf: seq<Octet>)
    requires Span(ks) <= |buf| && 0 < |ks|
    ensures Offset(ks, 1) <= |buf|
    ensures ReadAll(ks, buf)[0] == Read(ks[0], buf[Offset(ks, 0)..Offset(ks, 1)])
  {
    var w := Width(ks[0]);
    OffsetOfTail(ks, 0);
    assert Offset(ks, 1) == w;
    assert ReadAll(ks, buf)[0] == Read(ks[0], buf[..w]);
    assert buf[Offset(ks, 0)..Offset(ks, 1)] == buf[..w];
  }

  /** A later field of `ReadAll` is the tail's field, read after the first. */
  lemma {:induction false} ReadAllAtLater(ks: seq<Kind>, buf: seq<Octet>, i: nat)
    requires Span(ks) <= |buf| && 0 < i < |ks|
    ensures Offset(ks, i + 1) <= |buf|
    ensures ReadAll(ks, buf)[i] == Read(ks[i], buf[Offset(ks, i)..Offset(ks, i + 1)])
    decreases i, 0
  {
    var w := Width(ks[0]);
    OffsetOfTail(ks, i);
    ReadAllTail(ks, buf, i);
    ReadAllAt(ks[1..], buf[w..], i - 1);
    OffsetOfTail(ks, i - 1);
    var a, b := Offset(ks[1..], i - 1), Offset(ks[1..], i);
    SliceOfSuffix(buf, w, a, b, Offset(ks, i), Offset(ks, i + 1));
    assert ks[1..][i - 1] == ks[i];
  }

  lemma {:induction false} ReadAllWriteAll(ks: seq<Kind>, vs: seq<Value>)
    requires |vs| == |ks| && forall i :: 0 <= i < |ks| ==> Fits(ks[i], vs[i])
    ensures ReadAll(ks, WriteAll(ks, vs)) == vs
  {
    if ks != [] {
      var w := Width(ks[0]);
      var buf := WriteAll(ks, vs);
      assert buf[..w] == Write(ks[0], vs[0]);
      assert buf[w..] == WriteAll(ks[1..], vs[1..]);
      ReadWrite(ks[0], vs[0]);
      ReadAllWriteAll(ks[1..], vs[1..]);
    }
  }

  lemma {:induction false} WriteAllReadAll(ks: seq<Kind>, buf: seq<Octet>)
    requires Span(ks) <= |buf|
    ensures WriteAll(ks, ReadAll(ks, buf)) == buf[..Span(ks)]
  {
    if ks != [] {
      var w := Width(ks[0]);
      var rs := ReadAll(ks, buf);
      assert rs == [Read(ks[0], buf[..w])] + ReadAll(ks[1..], buf[w..]);
      assert rs[1..] == ReadAll(ks[1..], buf[w..]);
      WriteRead(ks[0], buf[..w]);
      WriteAllReadAll(ks[1..], buf[w..]);
      assert WriteAll(ks, rs) == Write(ks[0], rs[0]) + WriteAll(ks[1..], rs[1..]);
      assert buf[..Span(ks)] == buf[..w] + buf[w..][..Span(ks[1..])];
    }
  }
}
