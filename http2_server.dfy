/**
 * The frame-header reader and its debug formatting from the HTTP/2 server
 * sketch: the 9-byte frame header of section 4.1 of RFC 7540, the flag
 * bitmask test, and the human-readable rendering of a header.
 *
 * The Go file refers to the frame-type constants without their package
 * qualifier; the model uses the values the qualified constants have
 * (section 6 of RFC 7540: DATA = 0x0 ... CONTINUATION = 0x9).
 */
module Http2Server {
  import opened Text
  import opened Wrappers

  /** A bitmask of HTTP/2 frame flags. */
  type Flags = bv8

  /** The one-byte frame type. */
  type FrameType = bv8

  /** The 9-byte header of every HTTP/2 frame, in decoded form. */
  datatype FrameHeader = FrameHeader(typ: FrameType, flags: Flags, length: bv32, streamID: bv32)

  const FrameHeaderLen := 9

  /** The zero value of the Go struct, returned alongside a read error. */
  const ZeroHeader := FrameHeader(0, 0, 0, 0)

  /**
   * What `io.ReadFull` reports when it cannot fill the header: the stream
   * ended before any byte (EOF) or part-way (UnexpectedEOF), or the reader
   * itself failed, in which case its own error is passed on.
   */
  datatype ReadError = EOF | UnexpectedEOF | ReaderFailed(message: string)

  /**
   * An `io.Reader` as seen by one read: the bytes it still delivers, then
   * either the end of the stream (`failure` is None) or an error of its own.
   */
  datatype Reader = Reader(data: seq<bv8>, failure: Option<string>)

  datatype HeaderRead = HeaderRead(header: FrameHeader, err: Option<ReadError>)

  /** The names of the ten standard frame types, indexed by type. */
  const FrameNames: seq<string> := [
    "data", "headers", "priority", "rst_stream", "settings",
    "push_promise", "ping", "goaway", "window_update", "continuation"]

  /**
   * The name a frame type gives one flag bit (section 6 of RFC 7540), or ""
   * when the type has no name for that bit, as a missing map entry reads.
   */
  function FlagName(t: FrameType, bit: Flags): string {
    match t
    case 0 => (match bit case 0x1 => "END_STREAM" case 0x8 => "PADDED" case _ => "")
    case 1 =>
      (match bit
       case 0x1 => "END_STREAM" case 0x4 => "END_HEADERS"
       case 0x8 => "PADDED" case 0x20 => "PRIORITY" case _ => "")
    case 4 => (match bit case 0x1 => "ACK" case _ => "")
    case 6 => (match bit case 0x1 => "ACK" case _ => "")
    case 9 => (match bit case 0x4 => "END_HEADERS" case _ => "")
    case 5 => (match bit case 0x4 => "END_HEADERS" case 0x8 => "PADDED" case _ => "")
    case _ => ""
  }

  /** The position of one bit in a flags byte. */
  type BitIndex = i: nat | i < 8

  /** The flag value with only bit i set (BitIsShift: it is 1 << i). */
  function Bit(i: BitIndex): Flags {
    match i
    case 0 => 0x1
    case 1 => 0x2
    case 2 => 0x4
    case 3 => 0x8
    case 4 => 0x10
    case 5 => 0x20
    case 6 => 0x40
    case _ => 0x80
  }

  /** The number Bit(i) stands for, 2 to the power i. */
  function BitValue(i: BitIndex): nat {
    if i == 0 then 1 else 2 * BitValue(i - 1)
  }

  lemma BitIsShift(i: BitIndex)
    ensures Bit(i) == 1 << i && Bit(i) as nat == BitValue(i)
  {
  }

  predicate BitSet(x: bv8, i: BitIndex)
  {
    x & Bit(i) != 0
  }

  lemma HasBits(f: Flags, v: Flags)
    ensures (f & v == v) <==> forall i :: 0 <= i < 8 ==> (BitSet(v, i) ==> BitSet(f, i))
  {
    if forall i :: 0 <= i < 8 ==> (BitSet(v, i) ==> BitSet(f, i)) {
      assert BitSet(v, 0) ==> BitSet(f, 0);
      assert BitSet(v, 1) ==> BitSet(f, 1);
      assert BitSet(v, 2) ==> BitSet(f, 2);
      assert BitSet(v, 3) ==> BitSet(f, 3);
      assert BitSet(v, 4) ==> BitSet(f, 4);
      assert BitSet(v, 5) ==> BitSet(f, 5);
      assert BitSet(v, 6) ==> BitSet(f, 6);
      assert BitSet(v, 7) ==> BitSet(f, 7);
    }
  }

  /** Flags.Has: f contains every flag of v. */
  function Has(f: Flags, v: Flags): (r: bool)
    ensures r <==> forall i :: 0 <= i < 8 ==> (BitSet(v, i) ==> BitSet(f, i))
    ensures v == 0 ==> r
  {
    HasBits(f, v);
    f & v == v
  }

  /** The name of a frame type number: registered, or "UNKNOWN frame type: " and the number. */
  function TypeName(n: nat): string {
    if n < 10 then FrameNames[n] else "UNKNOWN frame type: " + Decimal(n)
  }

  /** FrameType.String: the registered name, or a numbered "unknown" text. */
  function FrameTypeString(t: FrameType): (s: string)
    ensures t < 10 ==> s == FrameNames[t]
    ensures 10 <= t ==> s == "UNKNOWN frame type: " + Decimal(t as nat)
  {
    TypeName(t as nat)
  }

  lemma FrameNamesDistinct(i: nat, j: nat)
    requires i < 10 && j < 10 && i != j
    ensures FrameNames[i] != FrameNames[j] && FrameNames[i][0] != 'U'
  {
  }

  lemma UnknownTextInjective(m: nat, n: nat)
    ensures "UNKNOWN frame type: " + Decimal(m) == "UNKNOWN frame type: " + Decimal(n) ==> m == n
  {
    var prefix := "UNKNOWN frame type: ";
    if prefix + Decimal(m) == prefix + Decimal(n) {
      assert (prefix + Decimal(m))[|prefix|..] == Decimal(m);
      assert (prefix + Decimal(n))[|prefix|..] == Decimal(n);
      DecimalInjective(m, n);
    }
  }

  /** Distinct frame type numbers are always rendered differently. */
  lemma TypeNameInjective(m: nat, n: nat)
    ensures TypeName(m) == TypeName(n) ==> m == n
  {
    if m != n {
      if m < 10 && n < 10 {
        FrameNamesDistinct(m, n);
      } else if m >= 10 && n >= 10 {
        UnknownTextInjective(m, n);
      } else {
        var known := if m < 10 then m else n;
        FrameNamesDistinct(known, if known == 0 then 1 else 0);
      }
    }
  }

  /** Distinct frame types are always rendered differently. */
  lemma FrameTypeStringInjective(t: FrameType, u: FrameType)
    ensures FrameTypeString(t) == FrameTypeString(u) ==> t == u
  {
    if t != u {
      assert t as nat != u as nat;
      TypeNameInjective(t as nat, u as nat);
    }
  }

  /** The big-endian value of three bytes. */
  function Uint24(x0: bv8, x1: bv8, x2: bv8): bv32 {
    ((x0 as bv32) << 16) | ((x1 as bv32) << 8) | (x2 as bv32)
  }

  /** The big-endian value of four bytes (`binary.BigEndian.Uint32`). */
  function Uint32(x0: bv8, x1: bv8, x2: bv8, x3: bv8): bv32 {
    ((x0 as bv32) << 24) | ((x1 as bv32) << 16) | ((x2 as bv32) << 8) | (x3 as bv32)
  }

  /** The byte of v that starts at bit `shift`. */
  function ByteOf(v: bv32, shift: nat): bv8
    requires shift <= 24
  {
    ((v >> shift) & 0xff) as bv8
  }

  /** The header nine bytes decode to: big-endian length, type, flags, stream id without the reserved bit. */
  function FrameHeaderOf(b: seq<bv8>): FrameHeader
    requires |b| >= FrameHeaderLen
  {
    FrameHeader(
      typ := b[3],
      flags := b[4],
      length := Uint24(b[0], b[1], b[2]),
      streamID := Uint32(b[5], b[6], b[7], b[8]) & 0x7fff_ffff)
  }

  /**
   * readFrameHeader over what the reader can still deliver: when nine bytes
   * come, they are decoded whatever follows them; otherwise the result is
   * the zero header and the error `io.ReadFull` reports.
   */
  function ReadFrameHeader(r: Reader): (res: HeaderRead)
    ensures |r.data| < FrameHeaderLen ==> res.header == ZeroHeader && res.err.Some?
    ensures |r.data| < FrameHeaderLen && r.failure.None? ==>
      (res.err == Some(EOF) <==> r.data == []) && (res.err == Some(UnexpectedEOF) <==> r.data != [])
    ensures |r.data| < FrameHeaderLen && r.failure.Some? ==> res.err == Some(ReaderFailed(r.failure.value))
    ensures FrameHeaderLen <= |r.data| ==> res.err == None
    ensures FrameHeaderLen <= |r.data| ==> res.header.typ == r.data[3] && res.header.flags == r.data[4]
    ensures res.header.length < 0x100_0000 && res.header.streamID < 0x8000_0000
  {
    if |r.data| < FrameHeaderLen then
      var err := if r.failure.Some? then ReaderFailed(r.failure.value)
                 else if |r.data| == 0 then EOF else UnexpectedEOF;
      HeaderRead(ZeroHeader, Some(err))
    else
      HeaderRead(FrameHeaderOf(r.data), None)
  }

  /** A header that fits the wire format: 24-bit length, 31-bit stream id. */
  predicate Encodable(h: FrameHeader) {
    h.length < 0x100_0000 && h.streamID < 0x8000_0000
  }

  /** The wire layout of section 4.1 of RFC 7540, reserved bit clear. */
  function EncodeFrameHeader(h: FrameHeader): (b: seq<bv8>)
    requires Encodable(h)
    ensures |b| == FrameHeaderLen
  {
    [ByteOf(h.length, 16), ByteOf(h.length, 8), ByteOf(h.length, 0),
     h.typ, h.flags,
     ByteOf(h.streamID, 24), ByteOf(h.streamID, 16), ByteOf(h.streamID, 8), ByteOf(h.streamID, 0)]
  }

  lemma Uint24Bytes(x0: bv8, x1: bv8, x2: bv8)
    ensures var v := Uint24(x0, x1, x2);
      v < 0x100_0000 && ByteOf(v, 16) == x0 && ByteOf(v, 8) == x1 && ByteOf(v, 0) == x2
  {
  }

  lemma Uint24OfBytes(v: bv32)
    requires v < 0x100_0000
    ensures Uint24(ByteOf(v, 16), ByteOf(v, 8), ByteOf(v, 0)) == v
  {
  }

  lemma StreamIDBytes(x0: bv8, x1: bv8, x2: bv8, x3: bv8)
    ensures var v := Uint32(x0, x1, x2, x3) & 0x7fff_ffff;
      v < 0x8000_0000 &&
      ByteOf(v, 24) == x0 & 0x7f && ByteOf(v, 16) == x1 && ByteOf(v, 8) == x2 && ByteOf(v, 0) == x3
  {
  }

  lemma StreamIDOfBytes(v: bv32)
    requires v < 0x8000_0000
    ensures Uint32(ByteOf(v, 24), ByteOf(v, 16), ByteOf(v, 8), ByteOf(v, 0)) & 0x7fff_ffff == v
  {
  }

  /** Reading an encoded header gives it back, whatever follows it. */
  lemma DecodeEncode(h: FrameHeader, rest: seq<bv8>, failure: Option<string>)
    requires Encodable(h)
    ensures ReadFrameHeader(Reader(EncodeFrameHeader(h) + rest, failure)) == HeaderRead(h, None)
  {
    Uint24OfBytes(h.length);
    StreamIDOfBytes(h.streamID);
  }

  lemma DecodedFields(b: seq<bv8>, failure: Option<string>)
    requires |b| >= FrameHeaderLen
    ensures ReadFrameHeader(Reader(b, failure)).header
         == FrameHeader(b[3], b[4], Uint24(b[0], b[1], b[2]), Uint32(b[5], b[6], b[7], b[8]) & 0x7fff_ffff)
  {
  }


  /**
   * Every nine bytes decode (DecodedFields) to a header that re-encodes to
   * the same bytes, except the reserved bit, which reading drops.
   */
  lemma EncodeDecode(x0: bv8, x1: bv8, x2: bv8, x3: bv8, x4: bv8, x5: bv8, x6: bv8, x7: bv8, x8: bv8)
    ensures var h := FrameHeader(x3, x4, Uint24(x0, x1, x2), Uint32(x5, x6, x7, x8) & 0x7fff_ffff);
      Encodable(h) && EncodeFrameHeader(h) == [x0, x1, x2, x3, x4, x5 & 0x7f, x6, x7, x8]
  {
    Uint24Bytes(x0, x1, x2);
    StreamIDBytes(x5, x6, x7, x8);
  }

  /** The text of flag bit i: its name, or the bit's value as 0x-hex. */
  function FlagItem(t: FrameType, i: BitIndex): string
  {
    var bit := Bit(i);
    if FlagName(t, bit) != "" then FlagName(t, bit) else "0x" + Hex(BitValue(i))
  }

  /** The indices below i of the bits set in f, in ascending order. */
  function SetBitsBelow(f: Flags, i: nat): (bits: seq<BitIndex>)
    requires i <= 8
    ensures |bits| <= i
  {
    if i == 0 then [] else SetBitsBelow(f, i - 1) + (if BitSet(f, i - 1) then [i - 1] else [])
  }

  /** The items of the given bits, separated by '|'. */
  function FlagList(t: FrameType, bits: seq<BitIndex>): string
  {
    if bits == [] then ""
    else
      var last := bits[|bits| - 1];
      FlagList(t, bits[..|bits| - 1]) + (if |bits| > 1 then "|" else "") + FlagItem(t, last)
  }

  /** The flags part of the text: present only when some flag is set. */
  function FlagsText(h: FrameHeader): string {
    if h.flags != 0 then " flags=" + FlagList(h.typ, SetBitsBelow(h.flags, 8)) else ""
  }

  /** The stream part of the text: present only for a non-zero stream. */
  function StreamText(h: FrameHeader): string {
    if h.streamID != 0 then " stream=" + Decimal(h.streamID as nat) else ""
  }

  /** What FrameHeader.String produces. */
  function HeaderText(h: FrameHeader): string {
    "[FrameHeader " + FrameTypeString(h.typ) + FlagsText(h) + StreamText(h)
    + " len=" + Decimal(h.length as nat) + "]"
  }

  /**
   * FrameHeader.String: the type name, then the flag items when any flag is
   * set, the stream when it is not zero, and the length.
   */
  method FrameHeaderString(h: FrameHeader) returns (s: string)
    ensures s == HeaderText(h)
  {
    var flags := "";
    if h.flags != 0 {
      var list := FlagListText(h.typ, h.flags);
      flags := " flags=" + list;
    }
    var stream := "";
    if h.streamID != 0 {
      stream := " stream=" + Decimal(h.streamID as nat);
    }
    s := "[FrameHeader " + FrameTypeString(h.typ) + flags + stream
      + " len=" + Decimal(h.length as nat) + "]";
  }

  /**
   * The flags loop of FrameHeader.String: for each of the eight bits in
   * ascending order, a set bit adds its item, preceded by '|' from the
   * second one on.
   */
  method FlagListText(t: FrameType, f: Flags) returns (list: string)
    ensures list == FlagList(t, SetBitsBelow(f, 8))
  {
    list := "";
    var setCount := 0;
    var i: nat := 0;
    while i < 8
      invariant i <= 8
      invariant setCount == |SetBitsBelow(f, i)|
      invariant list == FlagList(t, SetBitsBelow(f, i))
    {
      SetBitsStep(f, i);
      if !BitSet(f, i) {
        i := i + 1;
        continue;
      }
      ghost var bits := SetBitsBelow(f, i);
      FlagListSnoc(t, bits, i);
      setCount := setCount + 1;
      if setCount > 1 {
        list := list + "|";
      }
      ghost var sep := if |bits| > 0 then "|" else "";
      assert list == FlagList(t, bits) + sep;
      list := list + FlagItem(t, i);
      i := i + 1;
    }
  }

  lemma SetBitsStep(f: Flags, i: BitIndex)
    ensures SetBitsBelow(f, i + 1)
         == if BitSet(f, i) then SetBitsBelow(f, i) + [i] else SetBitsBelow(f, i)
  {
  }

  lemma FlagListSnoc(t: FrameType, bits: seq<BitIndex>, i: BitIndex)
    ensures FlagList(t, bits + [i])
         == FlagList(t, bits) + (if |bits| > 0 then "|" else "") + FlagItem(t, i)
  {
    assert (bits + [i])[..|bits|] == bits;
  }

  /**
   * A non-zero flag byte yields at least one flag item, and the items are
   * those of the set bits, each once, in ascending bit order.
   */
  lemma FlagItemsMatchSetBits(f: Flags)
    ensures f != 0 <==> |SetBitsBelow(f, 8)| > 0
    ensures forall i :: 0 <= i < 8 ==> (i in SetBitsBelow(f, 8) <==> BitSet(f, i))
    ensures var bits := SetBitsBelow(f, 8); forall k, l :: 0 <= k < l < |bits| ==> bits[k] < bits[l]
  {
    SetBitsAscending(f, 8);
    forall i | 0 <= i < 8 && BitSet(f, i)
      ensures i in SetBitsBelow(f, 8)
    {
      SetBitsKeep(f, i, 8);
    }
    if f != 0 {
      assert BitSet(f, 0) || BitSet(f, 1) || BitSet(f, 2) || BitSet(f, 3)
          || BitSet(f, 4) || BitSet(f, 5) || BitSet(f, 6) || BitSet(f, 7);
      var i :| 0 <= i < 8 && BitSet(f, i);
      assert i in SetBitsBelow(f, 8);
    } else {
      ZeroHasNoBits(8);
    }
  }

  /** SetBitsBelow(f, j) lists only set bits below j, in strictly ascending order. */
  lemma {:induction false} SetBitsAscending(f: Flags, j: nat)
    requires j <= 8
    ensures forall k :: 0 <= k < |SetBitsBelow(f, j)| ==> SetBitsBelow(f, j)[k] < j && BitSet(f, SetBitsBelow(f, j)[k])
    ensures forall k, l :: 0 <= k < l < |SetBitsBelow(f, j)| ==> SetBitsBelow(f, j)[k] < SetBitsBelow(f, j)[l]
    decreases j
  {
    if j > 0 {
      var i := j - 1;
      SetBitsAscending(f, i);
      if BitSet(f, i) {
        var bits := SetBitsBelow(f, i) + [i];
        assert SetBitsBelow(f, j) == bits;
        forall k | 0 <= k < |SetBitsBelow(f, i)|
          ensures bits[k] == SetBitsBelow(f, i)[k]
        {
        }
      } else {
        assert SetBitsBelow(f, j) == SetBitsBelow(f, i) + [] == SetBitsBelow(f, i);
      }
    }
  }

  lemma {:induction false} ZeroHasNoBits(i: nat)
    requires i <= 8
    ensures SetBitsBelow(0, i) == []
  {
    if i > 0 {
      ZeroHasNoBits(i - 1);
      assert !BitSet(0, i - 1);
    }
  }

  lemma {:induction false} SetBitsKeep(f: Flags, i: nat, j: nat)
    requires i < j <= 8 && BitSet(f, i)
    ensures i in SetBitsBelow(f, j)
    decreases j
  {
    if i < j - 1 {
      SetBitsKeep(f, i, j - 1);
    }
  }

  /**
   * The example of the doc comment: END_STREAM, an unnamed bit 0x2 and
   * END_HEADERS on a HEADERS frame of stream 1 with 17 bytes of payload,
   * that is "[FrameHeader headers flags=END_STREAM|0x2|END_HEADERS stream=1 len=17]"
   * (the type name is the lower-case registered one).
   */
  lemma HeadersExample(h: FrameHeader)
    requires h == FrameHeader(1, 0x7, 17, 1)
    ensures HeaderText(h)
         == "[FrameHeader " + "headers"
            + (" flags=" + ("END_STREAM" + "|" + "0x2" + "|" + "END_HEADERS"))
            + (" stream=" + "1") + " len=" + "17" + "]"
  {
    var typeName, flags, stream, len := FrameTypeString(h.typ), FlagsText(h), StreamText(h), Decimal(h.length as nat);
    assert typeName == "headers";
    ExampleBits(h.flags);
    FlagListThree(h.typ, 0, 1, 2);
    ExampleItems(h.typ);
    assert flags == " flags=" + ("END_STREAM" + "|" + "0x2" + "|" + "END_HEADERS");
    ExampleNumbers(h.streamID as nat, h.length as nat);
    assert stream == " stream=" + "1";
    assert len == "17";
  }

  lemma ExampleBits(f: Flags)
    requires f == 7
    ensures SetBitsBelow(f, 8) == [0, 1, 2]
  {
    assert BitSet(f, 0) && BitSet(f, 1) && BitSet(f, 2);
    assert !BitSet(f, 3) && !BitSet(f, 4) && !BitSet(f, 5) && !BitSet(f, 6) && !BitSet(f, 7);
    assert SetBitsBelow(f, 3) == [0, 1, 2];
  }

  /** One flag item stands alone; two and three are joined by separators. */
  lemma FlagListOne(t: FrameType, a: BitIndex)
    ensures FlagList(t, [a]) == FlagItem(t, a)
  {
    FlagListSnoc(t, [], a);
    assert [] + [a] == [a];
  }

  lemma FlagListTwo(t: FrameType, a: BitIndex, b: BitIndex)
    ensures FlagList(t, [a, b]) == FlagItem(t, a) + "|" + FlagItem(t, b)
  {
    FlagListOne(t, a);
    FlagListSnoc(t, [a], b);
    assert [a] + [b] == [a, b];
  }

  lemma FlagListThree(t: FrameType, a: BitIndex, b: BitIndex, c: BitIndex)
    ensures FlagList(t, [a, b, c]) == FlagItem(t, a) + "|" + FlagItem(t, b) + "|" + FlagItem(t, c)
  {
    FlagListTwo(t, a, b);
    FlagListSnoc(t, [a, b], c);
    assert [a, b] + [c] == [a, b, c];
  }

  lemma ExampleItems(t: FrameType)
    requires t == 1
    ensures FlagItem(t, 0) == "END_STREAM" && FlagItem(t, 1) == "0x2" && FlagItem(t, 2) == "END_HEADERS"
  {
    assert FlagName(t, 0x2) == "";
    assert HexDigits[2] == '2';
  }

  lemma ExampleNumbers(one: nat, seventeen: nat)
    requires one == 1 && seventeen == 17
    ensures Decimal(one) == "1" && Decimal(seventeen) == "17"
  {
    assert DecimalDigits[1] == '1';
    assert DecimalDigits[7] == '7';
  }
}
