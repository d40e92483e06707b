// The arc and node codec of the FSA5 write path (FSA5Serializer.emitArc,
// emitNodeData and the node-data width computed in serialize): one label
// byte plus a little-endian word packing three flag bits with the target
// address shifted left by three, and a fixed number of little-endian bytes
// of per-node data.

module Codec {
  import opened LittleEndian

  /** The arc flag bits of the FSA5 format. */
  const BitFinalArc: nat := 1
  const BitLastArc: nat := 2
  const BitTargetNext: nat := 4

  /** Bytes of an arc word that carries only its flags. */
  const SizeofFlags: nat := 1

  /** The label of the epsilon state's single arc. */
  const EpsilonLabel: byte := 94  // '^'

  /** The flag bits set on one arc. */
  datatype ArcFlags = ArcFlags(final: bool, last: bool, targetNext: bool)
  {
    /** The flags as the OR of their bits. */
    function Bits(): (r: nat)
      ensures r < 8
    {
      (if final then BitFinalArc else 0)
      + (if last then BitLastArc else 0)
      + (if targetNext then BitTargetNext else 0)
    }
  }

  /** The flags whose bits are the low three bits of b. */
  function FlagsOf(b: nat): ArcFlags
  {
    var low := b % 8;
    ArcFlags(low % 2 == 1, low % 4 >= 2, low >= 4)
  }

  /** The low three bits of a number are those of its low byte. */
  lemma LowBitsOfLowByte(x: nat)
    ensures (x % 256) % 8 == x % 8
  {
    var r := x % 256;
    assert x == 256 * (x / 256) + r;
    assert r == 8 * (r / 8) + r % 8;
    DivModUnique(x, 8, 32 * (x / 256) + r / 8, r % 8);
  }

  /** Where emitted bytes go: nowhere on a dry run (the null stream of the
      layout passes), or appended to what the stream already holds. */
  datatype Output = Dry | Stream(data: seq<byte>)

  function Append(os: Output, bs: seq<byte>): (r: Output)
    ensures r.Dry? <==> os.Dry?
    ensures os.Stream? ==> r.data == os.data + bs
  {
    match os
    case Dry => Dry
    case Stream(data) => Stream(data + bs)
  }

  /** Number of flag/address bytes after the label: one when the target is
      implicitly the next state, gtl otherwise. */
  function ArcWidth(flags: ArcFlags, gtl: nat): (r: nat)
  {
    if flags.targetNext then SizeofFlags else gtl
  }

  /** The packed arc word `flags | (targetOffset << 3)`; the flags take only
      the low three bits, so the OR is a sum. */
  function ArcWord(flags: ArcFlags, targetOffset: nat): (r: nat)
  {
    flags.Bits() + 8 * targetOffset
  }

  /** The arc word fits in its width without losing bits. */
  predicate ArcFits(flags: ArcFlags, targetOffset: nat, gtl: nat)
  {
    ArcWord(flags, targetOffset) < Pow256(ArcWidth(flags, gtl))
  }

  /** The arc's record: its label, then its word little-endian. */
  function EncodeArc(flags: ArcFlags, arcLabel: byte, targetOffset: nat, gtl: nat): (r: seq<byte>)
  {
    [arcLabel] + ToLE(ArcWord(flags, targetOffset), ArcWidth(flags, gtl))
  }

  /** Bytes an arc record takes. */
  function ArcSize(flags: ArcFlags, gtl: nat): (r: nat)
  {
    1 + ArcWidth(flags, gtl)
  }

  /**
   * Writes one arc. Returns -1, writing nothing, when the packed word does not
   * fit in its width; otherwise writes the label and the word (unless the
   * stream is the dry one) and returns the number of bytes of the record.
   */
  method EmitArc(os: Output, gtl: nat, flags: ArcFlags, arcLabel: byte, targetOffset: nat)
    returns (bytes: int, os': Output)
    ensures bytes == -1 <==> !ArcFits(flags, targetOffset, gtl)
    ensures bytes != -1 ==> bytes == ArcSize(flags, gtl)
    ensures bytes != -1 ==> os' == Append(os, EncodeArc(flags, arcLabel, targetOffset, gtl))
    ensures bytes == -1 ==> os' == os
  {
    var arcBytes := if flags.targetNext then SizeofFlags else gtl;
    var word: nat := flags.Bits() + 8 * targetOffset;
    ghost var packed := word;
    var buf: seq<byte> := [arcLabel];
    var b := 0;
    while b < arcBytes
      invariant 0 <= b <= arcBytes
      invariant word == packed / Pow256(b)
      invariant |buf| == 1 + b && buf[0] == arcLabel
      invariant buf[1..] + ToLE(word, arcBytes - b) == ToLE(packed, arcBytes)
    {
      assert ToLE(word, arcBytes - b) == [(word % 256) as byte] + ToLE(word / 256, arcBytes - b - 1);
      buf := buf + [(word % 256) as byte];
      DivDiv(packed, Pow256(b));
      word := word / 256;
      b := b + 1;
    }
    ShiftedOutIsZero(packed, arcBytes);
    if word != 0 {
      return -1, os;
    }
    assert buf == [arcLabel] + ToLE(packed, arcBytes);
    bytes := |buf|;
    if os.Stream? {
      os' := Stream(os.data + buf);
    } else {
      os' := os;
    }
  }

  /** What a reader recovers from the front of an arc record. */
  datatype DecodedArc = DecodedArc(flags: ArcFlags, arcLabel: byte, targetOffset: nat, size: nat) | Truncated

  /** Reads one arc record at the front of bs: the label, then a one-byte word
      when its target-next bit is set and a gtl-byte word otherwise. */
  function DecodeArc(bs: seq<byte>, gtl: nat): DecodedArc
  {
    if |bs| < 2 then Truncated
    else
      var width := if FlagsOf(bs[1] as nat).targetNext then SizeofFlags else gtl;
      if |bs| < 1 + width then Truncated
      else
        var word := FromLE(bs[1..1 + width]);
        DecodedArc(FlagsOf(word), bs[0], word / 8, 1 + width)
  }

  /** Reading back an arc record that was written gives its label, flags and
      target, and tells how many bytes it took, whatever follows it. */
  lemma ArcRoundTrip(flags: ArcFlags, arcLabel: byte, targetOffset: nat, gtl: nat, rest: seq<byte>)
    requires gtl >= 1 && ArcFits(flags, targetOffset, gtl)
    ensures DecodeArc(EncodeArc(flags, arcLabel, targetOffset, gtl) + rest, gtl)
         == DecodedArc(flags, arcLabel, targetOffset, ArcSize(flags, gtl))
  {
    var word := ArcWord(flags, targetOffset);
    var width := ArcWidth(flags, gtl);
    var bs := EncodeArc(flags, arcLabel, targetOffset, gtl) + rest;
    FirstByte(word, width);
    assert bs[1] as nat == word % 256;
    LowBitsOfLowByte(word);
    assert word % 8 == flags.Bits();
    assert FlagsOf(word) == flags;
    assert FlagsOf(bs[1] as nat) == flags;
    assert bs[1..1 + width] == ToLE(word, width);
    RoundTripExact(word, width);
  }

  /**
   * Writes the per-node data: the low nodeDataLength bytes of number, least
   * significant first, unless the length is zero or the stream is the dry
   * one. Always reports nodeDataLength bytes.
   */
  method EmitNodeData(os: Output, nodeDataLength: nat, number: nat) returns (n: nat, os': Output)
    ensures n == nodeDataLength
    ensures os' == Append(os, ToLE(number, nodeDataLength))
    ensures os' == Append(os, ToLE(number % Pow256(nodeDataLength), nodeDataLength))
  {
    ToLEMod(number, nodeDataLength);
    os' := os;
    if nodeDataLength > 0 && os.Stream? {
      var buf: seq<byte> := [];
      var rest: nat := number;
      var i := 0;
      while i < nodeDataLength
        invariant 0 <= i <= nodeDataLength
        invariant buf + ToLE(rest, nodeDataLength - i) == ToLE(number, nodeDataLength)
      {
        assert ToLE(rest, nodeDataLength - i) == [(rest % 256) as byte] + ToLE(rest / 256, nodeDataLength - i - 1);
        buf := buf + [(rest % 256) as byte];
        rest := rest / 256;
        i := i + 1;
      }
      os' := Stream(os.data + buf);
    }
    n := nodeDataLength;
  }

  /** n bytes hold maxNumber and n - 1 bytes do not. */
  predicate NodeDataWidth(maxNumber: nat, n: nat)
  {
    maxNumber < Pow256(n) && (n > 0 ==> Pow256(n - 1) <= maxNumber)
  }

  /** The number of bytes that holds every count up to maxNumber: the least n
      with maxNumber >>> 8n == 0. */
  method NodeDataLength(maxNumber: nat) returns (n: nat)
    ensures NodeDataWidth(maxNumber, n)
  {
    n := 0;
    var rest := maxNumber;
    while rest > 0
      invariant rest == maxNumber / Pow256(n)
      invariant n > 0 ==> Pow256(n - 1) <= maxNumber
      decreases rest
    {
      ShiftedOutIsZero(maxNumber, n);
      DivDiv(maxNumber, Pow256(n));
      n := n + 1;
      rest := rest / 256;
    }
    ShiftedOutIsZero(maxNumber, n);
  }

  /** More bytes hold more values. */
  lemma {:induction false} PowMono(a: nat, b: nat)
    ensures a <= b ==> Pow256(a) <= Pow256(b)
  {
    if a < b {
      PowMono(a, b - 1);
    }
  }

  /** The width NodeDataLength characterises is unique. */
  lemma WidthUnique(x: nat, n1: nat, n2: nat)
    requires NodeDataWidth(x, n1) && NodeDataWidth(x, n2)
    ensures n1 == n2
  {
    if n2 > 0 {
      PowMono(n1, n2 - 1);
    }
    if n1 > 0 {
      PowMono(n2, n1 - 1);
    }
  }

  /** A root count of 300 needs two bytes of node data, and a count of zero
      none at all. */
  lemma NodeDataLengthExamples(n300: nat, n0: nat)
    requires NodeDataWidth(300, n300) && NodeDataWidth(0, n0)
    ensures n300 == 2 && n0 == 0
  {
    assert Pow256(1) == 256 && Pow256(2) == 65536;
    WidthUnique(300, n300, 2);
  }

  /** The bitwise OR of two naturals. */
  function BitOr(a: nat, b: nat): nat
    decreases a + b
  {
    if a == 0 then b
    else if b == 0 then a
    else 2 * BitOr(a / 2, b / 2) + (if a % 2 == 1 || b % 2 == 1 then 1 else 0)
  }

  /** ORing into a doubled number: the low bit comes from b alone. */
  lemma BitOrShift(a: nat, b: nat)
    ensures BitOr(2 * a, b) == 2 * BitOr(a, b / 2) + b % 2
  {
    if a == 0 {
      assert BitOr(0, b / 2) == b / 2;
    }
  }

  /** The header's packed byte, (nodeDataLength << 4) | gtl, of which the
      stream keeps the low eight bits. */
  function HeaderByte(nodeDataLength: nat, gtl: nat): byte
  {
    (BitOr(16 * nodeDataLength, gtl) % 256) as byte
  }

  /** ORing a number below 16 into a multiple of 16 adds it. */
  lemma BitOrLowNibble(n: nat, g: nat)
    requires g < 16
    ensures BitOr(16 * n, g) == 16 * n + g
  {
    var b1 := g / 2;
    var b2 := b1 / 2;
    var b3 := b2 / 2;
    assert b3 < 2 && g == 2 * b1 + g % 2 && b1 == 2 * b2 + b1 % 2 && b2 == 2 * b3 + b2 % 2;
    var n2, n4, n8 := 2 * n, 4 * n, 8 * n;
    BitOrShift(n, b3);
    assert BitOr(n, 0) == n;
    var r3 := n2 + b3;
    assert BitOr(n2, b3) == r3;
    BitOrShift(n2, b2);
    assert 2 * n2 == n4;
    var r2 := 2 * r3 + b2 % 2;
    assert BitOr(n4, b2) == r2;
    BitOrShift(n4, b1);
    assert 2 * n4 == n8;
    var r1 := 2 * r2 + b1 % 2;
    assert BitOr(n8, b1) == r1;
    BitOrShift(n8, g);
    assert 2 * n8 == 16 * n;
  }

  /** While both fields fit a nibble, a reader recovers the node-data length
      from the high nibble and the goto length from the low one. */
  lemma HeaderRoundTrip(nodeDataLength: nat, gtl: nat)
    requires nodeDataLength < 16 && gtl < 16
    ensures HeaderByte(nodeDataLength, gtl) as nat / 16 == nodeDataLength
    ensures HeaderByte(nodeDataLength, gtl) as nat % 16 == gtl
  {
    var x := 16 * nodeDataLength + gtl;
    BitOrLowNibble(nodeDataLength, gtl);
    DivModUnique(x, 256, 0, x);
    assert HeaderByte(nodeDataLength, gtl) as nat == x;
    DivModUnique(x, 16, nodeDataLength, gtl);
  }
}
