/** The layout of Winsock's TCP_INFO_v0 as JNA maps it: the fields of the
    structure in declaration order, each with its Java type, and a decoder
    that reads every field at its offset from the structure's memory, with
    the encoder that is its inverse. */
module TcpInfo {
  import opened JavaLang
  import opened Layouts

  // ---------------------------------------------------------------------
  // TCP_INFO_v0
  // ---------------------------------------------------------------------

  datatype Field = Field(name: string, kind: Kind)

  /** The fields of `TcpInfoV0` in declaration order, with their Java types. */
  const Layout: seq<Field> := [
    Field("State", JInt), Field("Mss", JInt), Field("ConnectionTimeMs", JLong),
    Field("TimestampsEnabled", JByte), Field("_pad1", JBytes(3)),
    Field("RttUs", JInt), Field("MinRttUs", JInt), Field("BytesInFlight", JInt), Field("Cwnd", JInt),
    Field("SndWnd", JInt), Field("RcvWnd", JInt), Field("RcvBuf", JInt),
    Field("BytesOut", JLong), Field("BytesIn", JLong),
    Field("BytesReordered", JInt), Field("BytesRetrans", JInt), Field("FastRetrans", JInt),
    Field("DupAcksIn", JInt), Field("TimeoutEpisodes", JInt),
    Field("SynRetrans", JByte)]

  /** `getFieldOrder()`. */
  const FieldOrder: seq<string> := [
    "State", "Mss", "ConnectionTimeMs",
    "TimestampsEnabled", "_pad1",
    "RttUs", "MinRttUs", "BytesInFlight", "Cwnd", "SndWnd", "RcvWnd", "RcvBuf",
    "BytesOut", "BytesIn",
    "BytesReordered", "BytesRetrans", "FastRetrans", "DupAcksIn", "TimeoutEpisodes",
    "SynRetrans"]

  function Names(fs: seq<Field>): seq<string> {
    seq(|fs|, i requires 0 <= i < |fs| => fs[i].name)
  }

  function Kinds(fs: seq<Field>): seq<Kind> {
    seq(|fs|, i requires 0 <= i < |fs| => fs[i].kind)
  }

  /** The kinds of `Layout`, in order. */
  const LayoutKinds: seq<Kind> := [
    JInt, JInt, JLong, JByte, JBytes(3), JInt, JInt, JInt, JInt, JInt, JInt, JInt,
    JLong, JLong, JInt, JInt, JInt, JInt, JInt, JByte]

  /** The index of `_pad1` and the bytes it covers. */
  const PadIndex: nat := 4
  const PadStart: nat := 17
  const PadEnd: nat := 20

  /** Where the last field ends. */
  const LayoutEnd: nat := 85
  /** The largest alignment of a field. */
  const MaxAlign: nat := 8
  /** `Structure.size()`: the layout rounded up to its largest alignment. */
  const StructSize: nat := 88

  /** The offsets of the twenty fields and of the end, in order. */
  const Offsets: seq<nat> := [0, 4, 8, 16, 17, 20, 24, 28, 32, 36, 40, 44, 48, 56, 64, 68, 72, 76, 80, 84, 85]

  /** The layout lists the fields in exactly the order `getFieldOrder` gives,
      with the kinds of `LayoutKinds`. */
  lemma {:induction false} LayoutFollowsFieldOrder()
    ensures Names(Layout) == FieldOrder
    ensures Kinds(Layout) == LayoutKinds
  {
  }

  /** Consecutive entries of `Offsets` differ by the width of the field between them. */
  lemma {:induction false} OffsetStep(i: nat)
    requires 0 < i <= |LayoutKinds|
    ensures Offsets[i] == Offsets[i - 1] + Width(LayoutKinds[i - 1])
  {
    if i <= 5 {
    } else if i <= 10 {
    } else if i <= 15 {
    } else {
    }
  }

  lemma {:induction false} OffsetIs(i: nat)
    requires i <= |LayoutKinds|
    ensures Offset(LayoutKinds, i) == Offsets[i]
  {
    if i > 0 {
      OffsetIs(i - 1);
      OffsetStep(i);
    }
  }

  /** The layout ends at byte 85, and `Structure.size()` is that end
      rounded up to the largest alignment of a field. */
  lemma {:induction false} LayoutSize()
    ensures |LayoutKinds| == 20 && Span(LayoutKinds) == LayoutEnd < StructSize
  {
    OffsetIs(20);
    OffsetOfEnd(LayoutKinds);
  }

  lemma {:induction false} StructSizeRounded()
    ensures forall i :: 0 <= i < |LayoutKinds| ==> Align(LayoutKinds[i]) <= MaxAlign
    ensures StructSize == RoundUp(LayoutEnd, MaxAlign)
  {
  }

  /** Three padding bytes follow the one-byte `TimestampsEnabled`, so that
      `RttUs` starts at a multiple of 4. */
  lemma {:induction false} PaddingAfterTimestamps()
    ensures Layout[3] == Field("TimestampsEnabled", JByte) && Layout[PadIndex] == Field("_pad1", JBytes(3))
    ensures Offset(LayoutKinds, 3) + 1 == PadStart == Offset(LayoutKinds, PadIndex)
    ensures Layout[PadIndex + 1].name == "RttUs" && Offset(LayoutKinds, PadIndex + 1) == PadEnd
    ensures Align(LayoutKinds[PadIndex + 1]) == 4 && PadEnd % 4 == 0
  {
    OffsetIs(3);
    OffsetIs(4);
    OffsetIs(5);
  }

  lemma {:induction false} OffsetAligned(i: nat)
    requires i < |LayoutKinds|
    ensures Offsets[i] % Align(LayoutKinds[i]) == 0
  {
    if i <= 5 {
    } else if i <= 10 {
    } else if i <= 15 {
    } else {
    }
  }

  /** Every field starts at a multiple of its alignment, so the running
      sums are also the offsets of the native structure. */
  lemma {:induction false} NaturallyAligned()
    ensures forall i :: 0 <= i < |LayoutKinds| ==> Offset(LayoutKinds, i) % Align(LayoutKinds[i]) == 0
    ensures forall i :: 0 <= i < |LayoutKinds| ==> AlignedOffset(LayoutKinds, i) == Offset(LayoutKinds, i)
  {
    forall i | 0 <= i < |LayoutKinds| ensures Offset(LayoutKinds, i) % Align(LayoutKinds[i]) == 0 {
      OffsetIs(i);
      OffsetAligned(i);
    }
    forall i | 0 <= i < |LayoutKinds| ensures AlignedOffset(LayoutKinds, i) == Offset(LayoutKinds, i) {
      AlignedIsRunning(LayoutKinds, i);
    }
  }

  /** Without `_pad1`, `RttUs` would follow `TimestampsEnabled` at byte 17,
      which is not a multiple of 4, while native alignment puts it at 20. */
  lemma {:induction false} PaddingIsNeeded()
    ensures var ks := LayoutKinds[..PadIndex] + LayoutKinds[PadIndex + 1..];
      ks[PadIndex] == JInt && Offset(ks, PadIndex) == 17 && 17 % Align(JInt) != 0 &&
      AlignedOffset(ks, PadIndex) == 20
  {
    var ks := LayoutKinds[..PadIndex] + LayoutKinds[PadIndex + 1..];
    assert ks[..5] == [JInt, JInt, JLong, JByte, JInt];
    assert Offset(ks, 1) == 4;
    assert Offset(ks, 2) == 8;
    assert Offset(ks, 3) == 16;
    assert Offset(ks, 4) == 17;
    assert AlignedOffset(ks, 3) == 16 by {
      assert AlignedOffset(ks, 1) == 4;
      assert AlignedOffset(ks, 2) == 8;
    }
  }

  type Pad3 = s: seq<Int8> | |s| == 3 witness [0, 0, 0]

  /** The Java object `out.read()` fills. */
  datatype TcpInfoV0 = TcpInfoV0(
    State: Int32, Mss: Int32, ConnectionTimeMs: Int64,
    TimestampsEnabled: Int8, Pad1: Pad3,
    RttUs: Int32, MinRttUs: Int32, BytesInFlight: Int32, Cwnd: Int32,
    SndWnd: Int32, RcvWnd: Int32, RcvBuf: Int32,
    BytesOut: Int64, BytesIn: Int64,
    BytesReordered: Int32, BytesRetrans: Int32, FastRetrans: Int32,
    DupAcksIn: Int32, TimeoutEpisodes: Int32,
    SynRetrans: Int8)

  /** The record's fields in layout order. */
  function Fields(r: TcpInfoV0): (vs: seq<Value>)
    ensures |vs| == |LayoutKinds| && forall i :: 0 <= i < |vs| ==> Fits(LayoutKinds[i], vs[i])
  {
    [Num(r.State), Num(r.Mss), Num(r.ConnectionTimeMs), Num(r.TimestampsEnabled), Arr(r.Pad1),
     Num(r.RttUs), Num(r.MinRttUs), Num(r.BytesInFlight), Num(r.Cwnd), Num(r.SndWnd), Num(r.RcvWnd),
     Num(r.RcvBuf), Num(r.BytesOut), Num(r.BytesIn), Num(r.BytesReordered), Num(r.BytesRetrans),
     Num(r.FastRetrans), Num(r.DupAcksIn), Num(r.TimeoutEpisodes), Num(r.SynRetrans)]
  }

  /** The record holding the field values `vs`. */
  function FromFields(vs: seq<Value>): (r: TcpInfoV0)
    requires |vs| == |LayoutKinds| && forall i :: 0 <= i < |vs| ==> Fits(LayoutKinds[i], vs[i])
  {
    assert Fits(LayoutKinds[0], vs[0]);
    assert Fits(LayoutKinds[1], vs[1]);
    assert Fits(LayoutKinds[2], vs[2]);
    assert Fits(LayoutKinds[3], vs[3]);
    assert Fits(LayoutKinds[4], vs[4]);
    assert Fits(LayoutKinds[5], vs[5]);
    assert Fits(LayoutKinds[6], vs[6]);
    assert Fits(LayoutKinds[7], vs[7]);
    assert Fits(LayoutKinds[8], vs[8]);
    assert Fits(LayoutKinds[9], vs[9]);
    assert Fits(LayoutKinds[10], vs[10]);
    assert Fits(LayoutKinds[11], vs[11]);
    assert Fits(LayoutKinds[12], vs[12]);
    assert Fits(LayoutKinds[13], vs[13]);
    assert Fits(LayoutKinds[14], vs[14]);
    assert Fits(LayoutKinds[15], vs[15]);
    assert Fits(LayoutKinds[16], vs[16]);
    assert Fits(LayoutKinds[17], vs[17]);
    assert Fits(LayoutKinds[18], vs[18]);
    assert Fits(LayoutKinds[19], vs[19]);
    TcpInfoV0(vs[0].n, vs[1].n, vs[2].n, vs[3].n, vs[4].items,
              vs[5].n, vs[6].n, vs[7].n, vs[8].n, vs[9].n, vs[10].n, vs[11].n,
              vs[12].n, vs[13].n, vs[14].n, vs[15].n, vs[16].n, vs[17].n, vs[18].n, vs[19].n)
  }

  lemma {:induction false} FromFieldsOfFields(r: TcpInfoV0)
    ensures FromFields(Fields(r)) == r
  {
  }

  lemma {:induction false} FieldsOfFromFields(vs: seq<Value>)
    requires |vs| == |LayoutKinds| && forall i :: 0 <= i < |vs| ==> Fits(LayoutKinds[i], vs[i])
    ensures Fields(FromFields(vs)) == vs
  {
    assert Fits(LayoutKinds[0], vs[0]);
    assert Fits(LayoutKinds[1], vs[1]);
    assert Fits(LayoutKinds[2], vs[2]);
    assert Fits(LayoutKinds[3], vs[3]);
    assert Fits(LayoutKinds[4], vs[4]);
    assert Fits(LayoutKinds[5], vs[5]);
    assert Fits(LayoutKinds[6], vs[6]);
    assert Fits(LayoutKinds[7], vs[7]);
    assert Fits(LayoutKinds[8], vs[8]);
    assert Fits(LayoutKinds[9], vs[9]);
    assert Fits(LayoutKinds[10], vs[10]);
    assert Fits(LayoutKinds[11], vs[11]);
    assert Fits(LayoutKinds[12], vs[12]);
    assert Fits(LayoutKinds[13], vs[13]);
    assert Fits(LayoutKinds[14], vs[14]);
    assert Fits(LayoutKinds[15], vs[15]);
    assert Fits(LayoutKinds[16], vs[16]);
    assert Fits(LayoutKinds[17], vs[17]);
    assert Fits(LayoutKinds[18], vs[18]);
    assert Fits(LayoutKinds[19], vs[19]);
  }

  /** `out.read()`: every field read from the structure's memory at its offset. */
  function Decode(mem: seq<Octet>): TcpInfoV0
    requires |mem| == StructSize
  {
    LayoutSize();
    FromFields(ReadAll(LayoutKinds, mem))
  }

  /** The decoded record's fields, in layout order, are the values read from
      the structure's memory. */
  lemma {:induction false} DecodeReadsFields(mem: seq<Octet>)
    requires |mem| == StructSize
    ensures Span(LayoutKinds) <= |mem| && Fields(Decode(mem)) == ReadAll(LayoutKinds, mem)
  {
    LayoutSize();
    FieldsOfFromFields(ReadAll(LayoutKinds, mem));
  }

  /** `out.write()`: every field written at its offset, the bytes after the
      last field left zero. */
  function Encode(r: TcpInfoV0): (mem: seq<Octet>)
    ensures |mem| == StructSize
  {
    LayoutSize();
    WriteAll(LayoutKinds, Fields(r)) + [0, 0, 0]
  }

  /** Only the bytes the layout covers are read. */
  lemma {:induction false} ReadAllPrefix(ks: seq<Kind>, buf: seq<Octet>, n: nat)
    requires Span(ks) <= n <= |buf|
    ensures ReadAll(ks, buf) == ReadAll(ks, buf[..n])
  {
    if ks != [] {
      var w := Width(ks[0]);
      assert buf[..n][..w] == buf[..w];
      assert buf[..n][w..] == buf[w..][..n - w];
      ReadAllPrefix(ks[1..], buf[w..], n - w);
    }
  }

  lemma {:induction false} DecodeEncode(r: TcpInfoV0)
    ensures Decode(Encode(r)) == r
  {
    LayoutSize();
    var mem := Encode(r);
    assert mem[..LayoutEnd] == WriteAll(LayoutKinds, Fields(r));
    ReadAllPrefix(LayoutKinds, mem, LayoutEnd);
    ReadAllWriteAll(LayoutKinds, Fields(r));
    FromFieldsOfFields(r);
  }

  /** Decoding and re-encoding keeps every byte the layout covers; the
      three bytes after it are written as zero. */
  lemma {:induction false} EncodeDecode(mem: seq<Octet>)
    requires |mem| == StructSize
    ensures Encode(Decode(mem)) == mem[..LayoutEnd] + [0, 0, 0]
  {
    LayoutSize();
    FieldsOfFromFields(ReadAll(LayoutKinds, mem));
    WriteAllReadAll(LayoutKinds, mem);
  }

  /** Decoded field `i` is read from the bytes the layout gives it. */
  lemma {:induction false} DecodedField(mem: seq<Octet>, i: nat)
    requires |mem| == StructSize && i < 20
    ensures Offset(LayoutKinds, i + 1) <= |mem|
    ensures Fields(Decode(mem))[i] == Read(LayoutKinds[i], mem[Offset(LayoutKinds, i)..Offset(LayoutKinds, i + 1)])
  {
    LayoutSize();
    ReadAllAt(LayoutKinds, mem, i);
    DecodeReadsFields(mem);
  }

  /** The native offsets of a few fields: the counters before the padding,
      the round-trip time and congestion window after it (not shifted by the
      padding), and the last byte. */
  lemma {:induction false} DecodedAtNativeOffsets(mem: seq<Octet>)
    requires |mem| == StructSize
    ensures Decode(mem).State == Signed(LittleEndian(mem[0..4]), TWO32)
    ensures Decode(mem).Mss == Signed(LittleEndian(mem[4..8]), TWO32)
    ensures Decode(mem).RttUs == Signed(LittleEndian(mem[20..24]), TWO32)
    ensures Decode(mem).Cwnd == Signed(LittleEndian(mem[32..36]), TWO32)
    ensures Decode(mem).BytesOut == Signed(LittleEndian(mem[48..56]), TWO64)
    ensures Decode(mem).SynRetrans == Signed(LittleEndian(mem[84..85]), 0x100)
  {
    DecodedField(mem, 0);
    OffsetIs(0);
    OffsetIs(1);
    DecodedField(mem, 1);
    OffsetIs(2);
    DecodedField(mem, 5);
    OffsetIs(5);
    OffsetIs(6);
    DecodedField(mem, 8);
    OffsetIs(8);
    OffsetIs(9);
    DecodedField(mem, 12);
    OffsetIs(12);
    OffsetIs(13);
    DecodedField(mem, 19);
    OffsetIs(19);
    OffsetIs(20);
  }

  /** The named fields: the record with its padding bytes set to zero. */
  function Named(r: TcpInfoV0): TcpInfoV0 {
    r.(Pad1 := [0, 0, 0])
  }

  lemma {:induction false} SameSlice(mem1: seq<Octet>, mem2: seq<Octet>, lo: nat, hi: nat)
    requires lo <= hi <= LayoutEnd <= |mem1| && LayoutEnd <= |mem2|
    requires hi <= PadStart || PadEnd <= lo
    requires forall k :: 0 <= k < LayoutEnd && !(PadStart <= k < PadEnd) ==> mem1[k] == mem2[k]
    ensures mem1[lo..hi] == mem2[lo..hi]
  {
    assert forall m :: lo <= m < hi ==> mem1[lo..hi][m - lo] == mem1[m] && mem2[lo..hi][m - lo] == mem2[m];
  }

  /** Records built from field values that agree everywhere but at `_pad1`
      agree in their named fields. */
  lemma {:induction false} NamedFromFields(vs1: seq<Value>, vs2: seq<Value>)
    requires |vs1| == |LayoutKinds| && forall i :: 0 <= i < |vs1| ==> Fits(LayoutKinds[i], vs1[i])
    requires |vs2| == |LayoutKinds| && forall i :: 0 <= i < |vs2| ==> Fits(LayoutKinds[i], vs2[i])
    requires forall i :: 0 <= i < |vs1| && i != PadIndex ==> vs1[i] == vs2[i]
    ensures Named(FromFields(vs1)) == Named(FromFields(vs2))
  {
    assert vs1[0] == vs2[0];
    assert vs1[1] == vs2[1];
    assert vs1[2] == vs2[2];
    assert vs1[3] == vs2[3];
    assert vs1[5] == vs2[5];
    assert vs1[6] == vs2[6];
    assert vs1[7] == vs2[7];
    assert vs1[8] == vs2[8];
    assert vs1[9] == vs2[9];
    assert vs1[10] == vs2[10];
    assert vs1[11] == vs2[11];
    assert vs1[12] == vs2[12];
    assert vs1[13] == vs2[13];
    assert vs1[14] == vs2[14];
    assert vs1[15] == vs2[15];
    assert vs1[16] == vs2[16];
    assert vs1[17] == vs2[17];
    assert vs1[18] == vs2[18];
    assert vs1[19] == vs2[19];
  }

  /** Every field but `_pad1` lies wholly before or wholly after the padding. */
  lemma {:induction false} OutsidePad(i: nat)
    requires i < 20 && i != PadIndex
    ensures Offset(LayoutKinds, i) <= Offset(LayoutKinds, i + 1) <= LayoutEnd
    ensures Offset(LayoutKinds, i + 1) <= PadStart || PadEnd <= Offset(LayoutKinds, i)
  {
    OffsetIs(i);
    OffsetIs(i + 1);
    if i < PadIndex {
    } else if i <= 10 {
    } else if i <= 15 {
    } else {
    }
  }

  /** A field other than `_pad1` reads the same from both memories. */
  lemma {:induction false} SameNamedField(mem1: seq<Octet>, mem2: seq<Octet>, i: nat)
    requires |mem1| == StructSize && |mem2| == StructSize
    requires forall k :: 0 <= k < LayoutEnd && !(PadStart <= k < PadEnd) ==> mem1[k] == mem2[k]
    requires i < 20 && i != PadIndex
    ensures Span(LayoutKinds) == LayoutEnd
    ensures ReadAll(LayoutKinds, mem1)[i] == ReadAll(LayoutKinds, mem2)[i]
  {
    LayoutSize();
    ReadAllAt(LayoutKinds, mem1, i);
    ReadAllAt(LayoutKinds, mem2, i);
    OutsidePad(i);
    SameSlice(mem1, mem2, Offset(LayoutKinds, i), Offset(LayoutKinds, i + 1));
  }

  /** The padding belongs to no named field: memories that differ only in
      the bytes of `_pad1` and after the last field decode to the same
      named fields. */
  lemma {:induction false} PaddingIgnored(mem1: seq<Octet>, mem2: seq<Octet>)
    requires |mem1| == StructSize && |mem2| == StructSize
    requires forall k :: 0 <= k < LayoutEnd && !(PadStart <= k < PadEnd) ==> mem1[k] == mem2[k]
    ensures Named(Decode(mem1)) == Named(Decode(mem2))
  {
    LayoutSize();
    forall i | 0 <= i < 20 && i != PadIndex
      ensures ReadAll(LayoutKinds, mem1)[i] == ReadAll(LayoutKinds, mem2)[i]
    {
      SameNamedField(mem1, mem2, i);
    }
    NamedFromFields(ReadAll(LayoutKinds, mem1), ReadAll(LayoutKinds, mem2));
  }
}
