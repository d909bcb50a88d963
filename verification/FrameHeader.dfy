/**
 WebSocket frame headers (RFC 6455, section 5.2): how they are put together, how they are read
 back, and why a reader always knows where one ends.
 */
module FrameHeader {
  import opened Bytes
  import opened Buffers
  import opened Masking

  // The masks of the first two octets are written out where they are used: 0x80 FIN, 0x40 RSV1, 0x20 RSV2,
  // 0x10 RSV3 and 0x0F opcode in the first, 0x80 MASK and 0x7F payload size in the second. A payload of up
  // to 125 octets has its size there; 126 announces a size of 16 bits, 127 one of 64.

  const MAX_EXTENDED: nat := 12

  /** A size as a `uint64_t` holds it. */
  type size64 = n: int | 0 <= n < 0x1_0000_0000_0000_0000

  /** A number as an octet. */
  function AsOctet(n: nat): octet
    requires n < 256
  {
    n as octet
  }

  lemma AsOctetIs(n: nat)
    requires n < 256
    ensures AsOctet(n) as int == n
  {
    OctetBack(CountedTo(n));
  }

  function CountedTo(n: nat): (b: octet)
    requires n < 256
    ensures b as int == n
  {
    if n == 0 then 0 else CountedTo(n - 1) + 1
  }

  lemma OctetBack(b: octet)
    ensures AsOctet(b as int) == b
  {
  }

  // ---------------------------------------------------------------- the fixed part

  /** What a header says in its first two octets, apart from the size. */
  datatype Flags = Flags(op: octet, fin: bool, rsv1: bool, rsv2: bool, rsv3: bool, masked: bool)

  datatype Basic = Basic(b0: octet, b1: octet)

  function GetFlags(h: Basic): Flags {
    Flags(h.b0 & 0x0F, h.b0 & 0x80 == 0x80, h.b0 & 0x40 == 0x40, h.b0 & 0x20 == 0x20, h.b0 & 0x10 == 0x10,
          h.b1 & 0x80 == 0x80)
  }

  function GetBasicSize(h: Basic): octet {
    h.b1 & 0x7F
  }

  /** The seven bits that say where the size is. */
  function SizeCode(size: size64): octet {
    if size <= 125 then AsOctet(size) else if size <= 0xFFFF then 126 else 127
  }

  function SetBit(b: octet, on: bool, mask: octet): octet {
    if on then b | mask else b
  }

  function FirstOctet(op: octet, fin: bool, rsv1: bool, rsv2: bool, rsv3: bool): octet {
    SetBit(SetBit(SetBit(SetBit(0, fin, 0x80), rsv1, 0x40), rsv2, 0x20), rsv3, 0x10) | (op & 0x0F)
  }

  function SecondOctet(masked: bool, code: octet): octet {
    SetBit(0, masked, 0x80) | code
  }

  function BasicOf(flags: Flags, size: size64): Basic {
    Basic(FirstOctet(flags.op, flags.fin, flags.rsv1, flags.rsv2, flags.rsv3),
          SecondOctet(flags.masked, SizeCode(size)))
  }

  /** What is put into the first two octets comes out of them again; of the opcode, four bits. */
  lemma BasicBack(flags: Flags, size: size64)
    ensures GetFlags(BasicOf(flags, size)) == flags.(op := flags.op & 0x0F)
    ensures GetBasicSize(BasicOf(flags, size)) == SizeCode(size)
  {
  }

  lemma SizeCodeIs(size: size64)
    ensures SizeCode(size) & 0x7F == SizeCode(size)
    ensures SizeCode(size) == 126 <==> 125 < size <= 0xFFFF
    ensures SizeCode(size) == 127 <==> 0xFFFF < size
    ensures size <= 125 ==> SizeCode(size) <= 125 && SizeCode(size) as int == size
  {
    hide AsOctet;
    if size <= 125 {
      AsOctetIs(size);
      SmallOctet(AsOctet(size));
    }
  }

  lemma SmallOctet(b: octet)
    requires b as int <= 125
    ensures b <= 125 && b & 0x7F == b && b != 126 && b != 127
  {
  }

  class BasicHeader {
    var b0: octet
    var b1: octet

    function Value(): Basic
      reads this
    {
      Basic(b0, b1)
    }

    constructor (flags: Flags, size: size64)
      ensures Value() == BasicOf(flags, size)
    {
      b0, b1 := 0, 0;
      new;
      AddFlags(flags);
      AddSize(flags.masked, size);
    }

    method AddFlags(flags: Flags)
      requires b0 == 0
      modifies this`b0
      ensures b0 == FirstOctet(flags.op, flags.fin, flags.rsv1, flags.rsv2, flags.rsv3)
    {
      if flags.fin { b0 := b0 | 0x80; }
      if flags.rsv1 { b0 := b0 | 0x40; }
      if flags.rsv2 { b0 := b0 | 0x20; }
      if flags.rsv3 { b0 := b0 | 0x10; }
      b0 := b0 | (flags.op & 0x0F);
    }

    method AddSize(masked: bool, size: size64)
      requires b1 == 0
      modifies this`b1
      ensures b1 == SecondOctet(masked, SizeCode(size))
    {
      if masked { b1 := b1 | 0x80; }
      var basicValue: octet;
      if size <= 125 {
        basicValue := AsOctet(size);
      } else if size <= 0xFFFF {
        basicValue := 126;
      } else {
        basicValue := 127;
      }
      b1 := b1 | basicValue;
    }

    method SetFin(value: bool)
      modifies this
      ensures GetFlags(Value()) == old(GetFlags(Value())).(fin := value) && b1 == old(b1)
    {
      b0 := if value then b0 | 0x80 else b0 & 0x7F;
    }

    method SetRsv1(value: bool)
      modifies this
      ensures GetFlags(Value()) == old(GetFlags(Value())).(rsv1 := value) && b1 == old(b1)
    {
      b0 := if value then b0 | 0x40 else b0 & 0xBF;
    }

    method SetRsv2(value: bool)
      modifies this
      ensures GetFlags(Value()) == old(GetFlags(Value())).(rsv2 := value) && b1 == old(b1)
    {
      b0 := if value then b0 | 0x20 else b0 & 0xDF;
    }

    method SetRsv3(value: bool)
      modifies this
      ensures GetFlags(Value()) == old(GetFlags(Value())).(rsv3 := value) && b1 == old(b1)
    {
      b0 := if value then b0 | 0x10 else b0 & 0xEF;
    }

    method SetMasked(value: bool)
      modifies this
      ensures GetFlags(Value()) == old(GetFlags(Value())).(masked := value)
      ensures GetBasicSize(Value()) == old(GetBasicSize(Value()))
    {
      b1 := if value then b1 | 0x80 else b1 & 0x7F;
    }
  }

  // ---------------------------------------------------------------- the variable part

  /** Where the masking key is in the variable part: behind the size, if that is there. */
  function GetMaskingKeyOffset(h: Basic): nat {
    if GetBasicSize(h) == 126 then 2 else if GetBasicSize(h) == 127 then 8 else 0
  }

  /** The length of the whole header, from its first two octets. */
  function GetHeaderLen(h: Basic): nat {
    2 + GetMaskingKeyOffset(h) + if GetFlags(h).masked then 4 else 0
  }

  /** The number without its last `k` octets. */
  function Shifted(n: nat, k: nat): nat {
    if k == 0 then n else Shifted(n, k - 1) / 256
  }

  /** The size in network order; `_htonll` and the conversion union. */
  function BigEndian(size: size64): (s: seq<octet>)
    ensures |s| == 8
  {
    seq(8, k requires 0 <= k < 8 => AsOctet(Shifted(size, 7 - k) % 256))
  }

  /** A number read with its most significant octet first. */
  function FromBigEndian(s: seq<octet>): nat {
    if s == [] then 0 else 256 * FromBigEndian(s[..|s| - 1]) + s[|s| - 1] as int
  }

  /** How many of its eight octets are left out. */
  function PayloadOffset(size: size64): (n: nat)
    ensures n <= 8
  {
    if size <= 125 then 8 else if size <= 0xFFFF then 6 else 0
  }

  /** The twelve octets of an extended header; an unmasked frame has no key. */
  function ExtendedOf(size: size64, key: Option<seq<octet>>): (e: seq<octet>)
    requires key.Some? ==> |key.v| == 4
    ensures |e| == MAX_EXTENDED
  {
    var start := BigEndian(size)[PayloadOffset(size)..] + if key.Some? then key.v else [];
    start + Filled<octet>(0, MAX_EXTENDED - |start|)
  }

  lemma TwoCopies(size: size64, key: Option<seq<octet>>)
    requires key.Some? ==> |key.v| == 4
    ensures var once := Overwritten(Filled<octet>(0, MAX_EXTENDED), 0, BigEndian(size)[PayloadOffset(size)..]);
            ExtendedOf(size, key) == if key.Some? then Overwritten(once, 8 - PayloadOffset(size), key.v) else once
  {
  }

  class ExtendedHeader {
    const octets: array<octet>

    constructor (size: size64, key: Option<seq<octet>>)
      requires key.Some? ==> |key.v| == 4
      ensures fresh(octets) && octets[..] == ExtendedOf(size, key)
    {
      octets := new octet[MAX_EXTENDED](_ => 0);
      new;
      hide Overwritten, ExtendedOf, BigEndian;
      assert octets[..] == Filled<octet>(0, MAX_EXTENDED);
      TwoCopies(size, key);
      var offset := CopyPayload(size);
      if key.Some? { Copy(key.v, offset); }
    }

    /** `std::copy` to position `at`. */
    method Copy(s: seq<octet>, at: nat)
      requires at + |s| <= octets.Length
      modifies octets
      ensures octets[..] == Overwritten(old(octets[..]), at, s)
    {
      forall k | 0 <= k < |s| {
        octets[at + k] := s[k];
      }
    }

    method CopyPayload(size: size64) returns (length: nat)
      requires octets.Length == MAX_EXTENDED
      modifies octets
      ensures length == 8 - PayloadOffset(size)
      ensures octets[..] == Overwritten(old(octets[..]), 0, BigEndian(size)[PayloadOffset(size)..])
    {
      var payloadOffset := 0;
      if size <= 125 {
        payloadOffset := 8;
      } else if size <= 0xFFFF {
        payloadOffset := 6;
      }
      Copy(BigEndian(size)[payloadOffset..], 0);
      length := 8 - payloadOffset;
    }
  }

  function GetMaskingKey(h: Basic, e: seq<octet>): (key: seq<octet>)
    requires |e| == MAX_EXTENDED
  {
    if !GetFlags(h).masked then Filled<octet>(0, 4) else e[GetMaskingKeyOffset(h)..GetMaskingKeyOffset(h) + 4]
  }

  function GetExtendedSize(e: seq<octet>): nat
    requires |e| == MAX_EXTENDED
  {
    FromBigEndian(e[..2])
  }

  function GetJumboSize(e: seq<octet>): nat
    requires |e| == MAX_EXTENDED
  {
    FromBigEndian(e[..8])
  }

  function GetPayloadSize(h: Basic, e: seq<octet>): nat
    requires |e| == MAX_EXTENDED
  {
    var val := GetBasicSize(h) as int;
    if val <= 125 then val else if val == 126 then GetExtendedSize(e) else GetJumboSize(e)
  }

  /** `prepare_header` */
  function PrepareHeader(h: Basic, e: seq<octet>): (s: seq<octet>)
    requires |e| == MAX_EXTENDED
    ensures |s| == GetHeaderLen(h)
  {
    [h.b0, h.b1] + e[..GetHeaderLen(h) - 2]
  }

  /** The header of a frame on the wire. */
  function HeaderText(flags: Flags, size: size64, key: seq<octet>): seq<octet>
    requires |key| == 4
  {
    PrepareHeader(BasicOf(flags, size), ExtendedOf(size, if flags.masked then Some(key) else None))
  }

  // ---------------------------------------------------------------- reading back

  lemma BigEndianBack(size: size64)
    ensures FromBigEndian(BigEndian(size)) == size
    ensures size <= 0xFFFF ==> FromBigEndian(BigEndian(size)[6..]) == size
  {
    hide BigEndian;
    NothingShifted(size);
    OctetsFrom(size, 0, 8);
    assert BigEndian(size)[0..8] == BigEndian(size);
    if size <= 0xFFFF {
      OctetsFrom(size, 6, 8);
      assert BigEndian(size)[6..8] == BigEndian(size)[6..];
    }
  }

  lemma NothingShifted(size: size64)
    ensures Shifted(size, 8) == 0 && (size <= 0xFFFF ==> Shifted(size, 2) == 0)
  {
    ShiftedOnce(size, 0);
    ShiftedOnce(size, 1);
    ShiftedOnce(size, 2);
    ShiftedOnce(size, 3);
    ShiftedOnce(size, 4);
    ShiftedOnce(size, 5);
    ShiftedOnce(size, 6);
    ShiftedOnce(size, 7);
  }

  lemma ShiftedOnce(n: nat, k: nat)
    ensures Shifted(n, k + 1) == Shifted(n, k) / 256
    ensures k == 0 ==> Shifted(n, k) == n
  {
  }

  lemma BigEndianAt(size: size64, k: nat)
    requires k < 8
    ensures BigEndian(size)[k] as int == Shifted(size, 7 - k) % 256
  {
    AsOctetIs(Shifted(size, 7 - k) % 256);
  }

  /** Octets, if nothing stands in front of them, are what is left when those behind them are shifted out. */
  lemma {:induction false} OctetsFrom(size: size64, i: nat, j: nat)
    requires i <= j <= 8 && Shifted(size, 8 - i) == 0
    ensures FromBigEndian(BigEndian(size)[i..j]) == Shifted(size, 8 - j)
    decreases j
  {
    hide BigEndian;
    if i < j {
      var s := BigEndian(size)[i..j];
      assert s[..|s| - 1] == BigEndian(size)[i..j - 1];
      OctetsFrom(size, i, j - 1);
      BigEndianAt(size, j - 1);
      assert Shifted(size, 8 - (j - 1)) == Shifted(size, 8 - j) / 256;
    }
  }

  /**
   From what arrived, at least the header and then anything, a reader gets back the flags, the size
   and, in a masked frame, the key; and the first two octets alone tell it how long the header is.
   */
  lemma HeaderBack(flags: Flags, size: size64, key: seq<octet>, rest: seq<octet>)
    requires |key| == 4 && flags.op <= 0x0F
    ensures var t := HeaderText(flags, size, key) + rest;
            var h := Basic(t[0], t[1]);
            && GetHeaderLen(h) == |HeaderText(flags, size, key)|
            && GetFlags(h) == flags
            && GetPayloadSize(h, Received(t)) == size
            && GetMaskingKey(h, Received(t)) == if flags.masked then key else Filled<octet>(0, 4)
  {
    hide GetFlags, GetBasicSize, SizeCode, BigEndian, BasicOf, GetExtendedSize, GetJumboSize, GetHeaderLen, HeaderText,
         Received;
    BasicBack(flags, size);
    SizeCodeIs(size);
    HeaderParts(flags, size, key, rest);
    var e := Received(HeaderText(flags, size, key) + rest);
    SizeBack(size, e);
  }

  /** Where the parts of a header are once it has arrived. */
  lemma HeaderParts(flags: Flags, size: size64, key: seq<octet>, rest: seq<octet>)
    requires |key| == 4
    ensures var t := HeaderText(flags, size, key) + rest;
            var h := BasicOf(flags, size);
            var n := 8 - PayloadOffset(size);
            && |t| >= 2 && Basic(t[0], t[1]) == h && GetHeaderLen(h) == |HeaderText(flags, size, key)| <= |t|
            && Received(t)[..n] == BigEndian(size)[PayloadOffset(size)..]
            && GetMaskingKeyOffset(h) == n && (flags.masked ==> Received(t)[n..n + 4] == key)
  {
    hide GetFlags, GetBasicSize, SizeCode, BigEndian, BasicOf;
    var h, k := BasicOf(flags, size), if flags.masked then Some(key) else None;
    BasicBack(flags, size);
    SizeCodeIs(size);
    var s := BigEndian(size)[PayloadOffset(size)..];
    var start := s + if flags.masked then key else [];
    var t := HeaderText(flags, size, key) + rest;
    assert GetMaskingKeyOffset(h) == |s| && |start| == GetHeaderLen(h) - 2;
    assert ExtendedOf(size, k)[..|start|] == start;
    hide ExtendedOf;
    assert t[0] == h.b0 && t[1] == h.b1 && t[2..GetHeaderLen(h)] == start;
    hide HeaderText, GetHeaderLen;
    var e := Received(t);
    assert e[..|start|] == start;
    if flags.masked { assert e[|s|..|s| + 4] == start[|s|..] == key; }
    assert e[..|s|] == start[..|s|] == s;
  }

  /** The variable part of a header that has arrived, in the buffer it is read into. */
  function Received(t: seq<octet>): (e: seq<octet>)
    requires 2 <= |t| && GetHeaderLen(Basic(t[0], t[1])) <= |t|
    ensures |e| == MAX_EXTENDED
  {
    var length := GetHeaderLen(Basic(t[0], t[1]));
    t[2..length] + Filled<octet>(0, MAX_EXTENDED + 2 - length)
  }

  lemma SizeBack(size: size64, e: seq<octet>)
    requires |e| == MAX_EXTENDED && e[..8 - PayloadOffset(size)] == BigEndian(size)[PayloadOffset(size)..]
    ensures 0xFFFF < size ==> GetJumboSize(e) == size
    ensures 125 < size <= 0xFFFF ==> GetExtendedSize(e) == size
  {
    hide BigEndian, FromBigEndian;
    BigEndianBack(size);
    if 0xFFFF < size {
      assert BigEndian(size)[0..] == BigEndian(size);
    }
  }

  /** How large a payload a header can announce is limited by the octets its size has. */
  lemma FormHolds(h: Basic, e: seq<octet>)
    requires |e| == MAX_EXTENDED
    ensures GetMaskingKeyOffset(h) == 0 ==> GetPayloadSize(h, e) <= 125
    ensures GetMaskingKeyOffset(h) == 2 ==> GetPayloadSize(h, e) <= 0xFFFF
  {
    hide GetJumboSize;
    SevenBits(h.b1);
    TwoOctetsAre(e[..2]);
  }

  lemma SevenBits(b: octet)
    ensures (b & 0x7F) as int <= 127
  {
  }

  /** The size takes as few octets as possible: no header whatever that announces the same size has fewer. */
  lemma SizeFormIsMinimal(flags: Flags, size: size64, h: Basic, e: seq<octet>)
    requires |e| == MAX_EXTENDED && GetPayloadSize(h, e) == size
    ensures GetMaskingKeyOffset(BasicOf(flags, size)) <= GetMaskingKeyOffset(h)
    ensures GetMaskingKeyOffset(BasicOf(flags, size)) == if size <= 125 then 0 else if size <= 0xFFFF then 2 else 8
  {
    hide *;
    FormOf(flags, size);
    FormsThereAre(h);
    var offset := GetMaskingKeyOffset(h);
    if offset == 0 {
      FormHolds(h, e);
      assert size <= 125;
    } else if offset == 2 {
      FormHolds(h, e);
      assert size <= 0xFFFF;
    }
  }

  lemma FormOf(flags: Flags, size: size64)
    ensures GetMaskingKeyOffset(BasicOf(flags, size)) == if size <= 125 then 0 else if size <= 0xFFFF then 2 else 8
  {
    hide BasicOf, SizeCode, GetBasicSize;
    BasicBack(flags, size);
    SizeCodeIs(size);
  }

  lemma FormsThereAre(h: Basic)
    ensures GetMaskingKeyOffset(h) in {0, 2, 8}
  {
  }

  // ---------------------------------------------------------------- the bits on the wire

  function Bit(on: bool): nat {
    if on then 1 else 0
  }

  lemma OpcodeAsNumber(op: octet, fin: bool, rsv1: bool, rsv2: bool, rsv3: bool)
    requires op <= 0x0F
    ensures FirstOctet(op, fin, rsv1, rsv2, rsv3) as int
         == 128 * Bit(fin) + 64 * Bit(rsv1) + 32 * Bit(rsv2) + 16 * Bit(rsv3) + op as int
  {
  }

  lemma CodeAsNumber(masked: bool, code: octet)
    requires code <= 0x7F
    ensures SecondOctet(masked, code) as int == 128 * Bit(masked) + code as int
  {
  }

  lemma TwoOctetsAre(s: seq<octet>)
    requires |s| == 2
    ensures FromBigEndian(s) == 0x100 * s[0] as int + s[1] as int
  {
    assert s[..1][..0] == [];
    assert FromBigEndian(s[..1]) == 256 * FromBigEndian([]) + s[0] as int;
  }

  lemma EightOctetsAre(s: seq<octet>)
    requires |s| == 8
    ensures FromBigEndian(s)
         == 0x100_0000_0000_0000 * s[0] as int + 0x1_0000_0000_0000 * s[1] as int + 0x100_0000_0000 * s[2] as int
            + 0x1_0000_0000 * s[3] as int + 0x100_0000 * s[4] as int + 0x1_0000 * s[5] as int + 0x100 * s[6] as int
            + s[7] as int
  {
    hide FromBigEndian;
    TwoOctetsAre(s[..2]);
    OneOctetMore(s, 2);
    OneOctetMore(s, 3);
    OneOctetMore(s, 4);
    OneOctetMore(s, 5);
    OneOctetMore(s, 6);
    OneOctetMore(s, 7);
    assert s[..8] == s;
  }

  lemma OneOctetMore(s: seq<octet>, n: nat)
    requires n < |s|
    ensures FromBigEndian(s[..n + 1]) == 256 * FromBigEndian(s[..n]) + s[n] as int
  {
    assert s[..n + 1][..n] == s[..n];
  }

  /** The first two octets as numbers: the flags and the opcode; the mask bit and the size, or the form that it has. */
  lemma FlagsOnTheWire(flags: Flags, size: size64, key: seq<octet>)
    requires |key| == 4 && flags.op as int < 16
    ensures var t := HeaderText(flags, size, key);
            && |t| >= 2
            && t[0] as int == 128 * Bit(flags.fin) + 64 * Bit(flags.rsv1) + 32 * Bit(flags.rsv2) + 16 * Bit(flags.rsv3)
                              + flags.op as int
            && t[1] as int == 128 * Bit(flags.masked)
                              + (if size <= 125 then size else if size <= 65535 then 126 else 127)
  {
    hide *;
    OpcodeAsNumber(flags.op, flags.fin, flags.rsv1, flags.rsv2, flags.rsv3);
    SizeCodeIs(size);
    CodeAsNumber(flags.masked, SizeCode(size));
    HeaderIs(flags, size, key);
    PayloadOffsetIs(size);
    OctetsInPlace(HeaderText(flags, size, key), FirstOctet(flags.op, flags.fin, flags.rsv1, flags.rsv2, flags.rsv3),
                  SecondOctet(flags.masked, SizeCode(size)), BigEndian(size), PayloadOffset(size),
                  if flags.masked then key else []);
  }

  /** The octets behind them: the size, most significant octet first, and the key of a masked frame. */
  lemma SizeOnTheWire(flags: Flags, size: size64, key: seq<octet>)
    requires |key| == 4
    ensures var t := HeaderText(flags, size, key);
            var n := if size <= 125 then 0 else if size <= 65535 then 2 else 8;
            && |t| == 2 + n + (if flags.masked then 4 else 0)
            && (n == 2 ==> 256 * t[2] as int + t[3] as int == size)
            && (n == 8 ==>
                  0x100_0000_0000_0000 * t[2] as int + 0x1_0000_0000_0000 * t[3] as int + 0x100_0000_0000 * t[4] as int
                  + 0x1_0000_0000 * t[5] as int + 0x100_0000 * t[6] as int + 0x1_0000 * t[7] as int
                  + 0x100 * t[8] as int + t[9] as int == size)
            && (flags.masked ==> t[2 + n..] == key)
  {
    hide *;
    HeaderIs(flags, size, key);
    PayloadOffsetIs(size);
    var s := BigEndian(size);
    BigEndianBack(size);
    EightOctetsAre(s);
    TwoOctetsAre(s[6..]);
    OctetsInPlace(HeaderText(flags, size, key), FirstOctet(flags.op, flags.fin, flags.rsv1, flags.rsv2, flags.rsv3),
                  SecondOctet(flags.masked, SizeCode(size)), s, PayloadOffset(size), if flags.masked then key else []);
  }

  lemma PayloadOffsetIs(size: size64)
    ensures PayloadOffset(size) == if size <= 125 then 8 else if size <= 65535 then 6 else 0
  {
  }

  lemma OctetsInPlace(t: seq<octet>, b0: octet, b1: octet, s: seq<octet>, offset: nat, key: seq<octet>)
    requires |s| == 8 && offset in {0, 6, 8} && t == [b0, b1] + s[offset..] + key
    ensures |t| == 10 - offset + |key| && t[0] == b0 && t[1] == b1 && t[10 - offset..] == key
    ensures offset == 6 ==> t[2] == s[6] == s[6..][0] && t[3] == s[7] == s[6..][1]
    ensures offset == 0 ==> t[2] == s[0] && t[3] == s[1] && t[4] == s[2] && t[5] == s[3]
    ensures offset == 0 ==> t[6] == s[4] && t[7] == s[5] && t[8] == s[6] && t[9] == s[7]
  {
  }

  lemma HeaderIs(flags: Flags, size: size64, key: seq<octet>)
    requires |key| == 4
    ensures HeaderText(flags, size, key)
         == [FirstOctet(flags.op, flags.fin, flags.rsv1, flags.rsv2, flags.rsv3),
             SecondOctet(flags.masked, SizeCode(size))]
            + BigEndian(size)[PayloadOffset(size)..] + if flags.masked then key else []
  {
    hide FirstOctet, SecondOctet, GetFlags, GetBasicSize, BigEndian, SizeCode;
    BasicBack(flags, size);
    SizeCodeIs(size);
    var start := BigEndian(size)[PayloadOffset(size)..] + if flags.masked then key else [];
    assert ExtendedOf(size, if flags.masked then Some(key) else None)[..|start|] == start;
  }

  /** No header is a proper beginning of another: whoever has read one knows it is over. */
  lemma HeadersArePrefixFree(f1: Flags, s1: size64, k1: seq<octet>, f2: Flags, s2: size64, k2: seq<octet>)
    requires |k1| == 4 && |k2| == 4 && f1.op <= 0x0F && f2.op <= 0x0F
    requires HeaderText(f1, s1, k1) <= HeaderText(f2, s2, k2)
    ensures f1 == f2 && s1 == s2 && (f1.masked ==> k1 == k2)
  {
    hide HeaderText, GetHeaderLen, GetFlags, GetPayloadSize, GetMaskingKey, Received;
    var t1, t2 := HeaderText(f1, s1, k1), HeaderText(f2, s2, k2);
    HeaderBack(f1, s1, k1, t2[|t1|..]);
    HeaderBack(f2, s2, k2, []);
    assert t1 + t2[|t1|..] == t2 == t2 + [];
  }
}
