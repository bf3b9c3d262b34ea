/** The hand-written Base64 encoder, against the bit-level definition of RFC 4648 section 4. */
module Base64 {
  type Byte = bv8
  type Bits = seq<bool>

  const UPPER := "ABCDEFGHIJKLMNOPQRSTUVWXYZ"
  const LOWER := "abcdefghijklmnopqrstuvwxyz"
  const DIGITS := "0123456789"
  const ALPHABET := UPPER + LOWER + DIGITS + "+/"

  // ---------------------------------------------------------------- the definition by bits

  predicate Bit(b: Byte, mask: Byte) {
    b & mask != 0
  }

  /** The bits of a byte, most significant first. */
  function ByteBits(b: Byte): Bits {
    [Bit(b, 0x80), Bit(b, 0x40), Bit(b, 0x20), Bit(b, 0x10), Bit(b, 8), Bit(b, 4), Bit(b, 2), Bit(b, 1)]
  }

  function BitString(data: seq<Byte>): (bits: Bits)
    ensures |bits| == 8 * |data|
  {
    if data == [] then [] else ByteBits(data[0]) + BitString(data[1..])
  }

  function Weight(bit: bool, w: nat): nat {
    if bit then w else 0
  }

  function Six(b5: bool, b4: bool, b3: bool, b2: bool, b1: bool, b0: bool): (n: nat)
    ensures n < 64
  {
    Weight(b5, 32) + Weight(b4, 16) + Weight(b3, 8) + Weight(b2, 4) + Weight(b1, 2) + Weight(b0, 1)
  }

  function SixValue(bits: Bits): (n: nat)
    requires |bits| == 6
    ensures n < 64
  {
    Six(bits[0], bits[1], bits[2], bits[3], bits[4], bits[5])
  }

  function Zeros(n: nat): Bits {
    seq(n, _ => false)
  }

  /** The bit string cut into sixes; a short last group is filled up with zero bits. */
  function Sixes(bits: Bits): (groups: seq<nat>)
    ensures |groups| == (|bits| + 5) / 6
    ensures forall i | 0 <= i < |groups| :: groups[i] < 64
    decreases |bits|
  {
    if bits == [] then []
    else if |bits| < 6 then [SixValue(bits + Zeros(6 - |bits|))]
    else [SixValue(bits[..6])] + Sixes(bits[6..])
  }

  /** `base64Chars[n]` */
  function Letter(n: nat): char
    requires n < 64
  {
    ALPHABET[n]
  }

  function Letters(groups: seq<nat>): (s: string)
    requires forall i | 0 <= i < |groups| :: groups[i] < 64
    ensures |s| == |groups|
  {
    seq(|groups|, i requires 0 <= i < |groups| => Letter(groups[i]))
  }

  /** How many '=' complete the last quantum of four characters. */
  function PadCount(len: nat): nat {
    (3 - len % 3) % 3
  }

  function Pad(n: nat): string {
    seq(n, _ => '=')
  }

  /** The encoding of RFC 4648: letters of the six-bit groups, then the pad. */
  function Encoding(data: seq<Byte>): string {
    Letters(Sixes(BitString(data))) + Pad(PadCount(|data|))
  }

  // ---------------------------------------------------------------- block by block

  lemma {:induction false} BitStringConcat(a: seq<Byte>, b: seq<Byte>)
    ensures BitString(a + b) == BitString(a) + BitString(b)
  {
    if a == [] {
      assert a + b == b;
    } else {
      assert (a + b)[1..] == a[1..] + b;
      BitStringConcat(a[1..], b);
    }
  }

  lemma {:induction false} SixesConcat(a: Bits, b: Bits)
    requires |a| % 6 == 0
    ensures Sixes(a + b) == Sixes(a) + Sixes(b)
    decreases |a|
  {
    if a == [] {
      assert a + b == b;
    } else {
      assert (a + b)[6..] == a[6..] + b && (a + b)[..6] == a[..6];
      SixesConcat(a[6..], b);
    }
  }

  lemma LettersConcat(a: seq<nat>, b: seq<nat>)
    requires forall i | 0 <= i < |a| :: a[i] < 64
    requires forall i | 0 <= i < |b| :: b[i] < 64
    ensures forall i | 0 <= i < |a + b| :: (a + b)[i] < 64
    ensures Letters(a + b) == Letters(a) + Letters(b)
  {
    hide Letter;
  }

  lemma PadCountStep(len: nat)
    requires len >= 3
    ensures PadCount(len) == PadCount(len - 3)
  {
  }

  /** Three bytes at a time: a full block is encoded on its own. */
  lemma EncodingStep(a: seq<Byte>, b: seq<Byte>)
    requires |a| == 3
    ensures Encoding(a + b) == Letters(Sixes(BitString(a))) + Encoding(b)
  {
    hide Letters, Sixes, BitString, PadCount, Pad;
    BitStringConcat(a, b);
    SixesConcat(BitString(a), BitString(b));
    LettersConcat(Sixes(BitString(a)), Sixes(BitString(b)));
    PadCountStep(|a + b|);
    assert Encoding(a + b) == Letters(Sixes(BitString(a))) + Letters(Sixes(BitString(b))) + Pad(PadCount(|b|));
  }

  /** Three bytes side by side in 24 bits. */
  function Value24(a: Byte, b: Byte, c: Byte): bv32 {
    (a as bv32 << 16) | (b as bv32 << 8) | c as bv32
  }

  /** The value that the encoder builds from a block, absent bytes as zero. */
  function BlockValue(data: seq<Byte>): bv32
    requires data != []
  {
    Value24(data[0], if |data| > 1 then data[1] else 0, if |data| > 2 then data[2] else 0)
  }

  lemma OrWithZero(x: bv32, y: bv32)
    ensures x | (0 as Byte as bv32 << 8) | 0 as Byte as bv32 == x
    ensures x | y | 0 as Byte as bv32 == x | y
  {
  }

  lemma ValueByShifts(a: Byte, b: Byte, c: Byte)
    ensures a as bv32 << 16 == Value24(a, 0, 0)
    ensures (a as bv32 << 16) | (b as bv32 << 8) == Value24(a, b, 0)
    ensures (a as bv32 << 16) | (b as bv32 << 8) | c as bv32 == Value24(a, b, c)
  {
    OrWithZero(a as bv32 << 16, b as bv32 << 8);
  }

  /** `(value >> shift) & 0x3F` */
  function Group(value: bv32, shift: nat): (n: nat)
    requires shift <= 18
    ensures n < 64
  {
    var group := (value >> shift) & 0x3F;
    assert group <= 63;
    group as int
  }

  lemma GroupBits(x: bv32)
    requires x <= 63
    ensures x as int == Six(x & 32 != 0, x & 16 != 0, x & 8 != 0, x & 4 != 0, x & 2 != 0, x & 1 != 0)
  {
  }

  lemma ShiftedBits(a: Byte, b: Byte, c: Byte, v: bv32, x: bv32, y: bv32)
    requires v == (a as bv32 << 16) | (b as bv32 << 8) | c as bv32 && x == (v >> 18) & 0x3F && y == (v >> 12) & 0x3F
    ensures x <= 63 && y <= 63
    ensures (x & 32 != 0) == (a & 0x80 != 0) && (x & 16 != 0) == (a & 0x40 != 0) && (x & 8 != 0) == (a & 0x20 != 0)
    ensures (x & 4 != 0) == (a & 0x10 != 0) && (x & 2 != 0) == (a & 8 != 0) && (x & 1 != 0) == (a & 4 != 0)
    ensures (y & 32 != 0) == (a & 2 != 0) && (y & 16 != 0) == (a & 1 != 0) && (y & 8 != 0) == (b & 0x80 != 0)
    ensures (y & 4 != 0) == (b & 0x40 != 0) && (y & 2 != 0) == (b & 0x20 != 0) && (y & 1 != 0) == (b & 0x10 != 0)
  {
  }

  lemma UnshiftedBits(a: Byte, b: Byte, c: Byte, v: bv32, x: bv32, y: bv32)
    requires v == (a as bv32 << 16) | (b as bv32 << 8) | c as bv32 && x == (v >> 6) & 0x3F && y == (v >> 0) & 0x3F
    ensures x <= 63 && y <= 63
    ensures (x & 32 != 0) == (b & 8 != 0) && (x & 16 != 0) == (b & 4 != 0) && (x & 8 != 0) == (b & 2 != 0)
    ensures (x & 4 != 0) == (b & 1 != 0) && (x & 2 != 0) == (c & 0x80 != 0) && (x & 1 != 0) == (c & 0x40 != 0)
    ensures (y & 32 != 0) == (c & 0x20 != 0) && (y & 16 != 0) == (c & 0x10 != 0) && (y & 8 != 0) == (c & 8 != 0)
    ensures (y & 4 != 0) == (c & 4 != 0) && (y & 2 != 0) == (c & 2 != 0) && (y & 1 != 0) == (c & 1 != 0)
  {
  }

  lemma HighSixes(a: Byte, b: Byte, c: Byte, v: bv32, x: bv32, y: bv32)
    requires v == (a as bv32 << 16) | (b as bv32 << 8) | c as bv32 && x == (v >> 18) & 0x3F && y == (v >> 12) & 0x3F
    ensures x as int == Six(Bit(a, 0x80), Bit(a, 0x40), Bit(a, 0x20), Bit(a, 0x10), Bit(a, 8), Bit(a, 4))
    ensures y as int == Six(Bit(a, 2), Bit(a, 1), Bit(b, 0x80), Bit(b, 0x40), Bit(b, 0x20), Bit(b, 0x10))
  {
    ShiftedBits(a, b, c, v, x, y);
    hide Six;
    GroupBits(x);
    GroupBits(y);
  }

  lemma LowSixes(a: Byte, b: Byte, c: Byte, v: bv32, x: bv32, y: bv32)
    requires v == (a as bv32 << 16) | (b as bv32 << 8) | c as bv32 && x == (v >> 6) & 0x3F && y == (v >> 0) & 0x3F
    ensures x as int == Six(Bit(b, 8), Bit(b, 4), Bit(b, 2), Bit(b, 1), Bit(c, 0x80), Bit(c, 0x40))
    ensures y as int == Six(Bit(c, 0x20), Bit(c, 0x10), Bit(c, 8), Bit(c, 4), Bit(c, 2), Bit(c, 1))
  {
    UnshiftedBits(a, b, c, v, x, y);
    hide Six;
    GroupBits(x);
    GroupBits(y);
  }

  lemma GroupValues(a: Byte, b: Byte, c: Byte)
    ensures Group(Value24(a, b, c), 18) == Six(Bit(a, 0x80), Bit(a, 0x40), Bit(a, 0x20), Bit(a, 0x10), Bit(a, 8), Bit(a, 4))
    ensures Group(Value24(a, b, c), 12) == Six(Bit(a, 2), Bit(a, 1), Bit(b, 0x80), Bit(b, 0x40), Bit(b, 0x20), Bit(b, 0x10))
    ensures Group(Value24(a, b, c), 6) == Six(Bit(b, 8), Bit(b, 4), Bit(b, 2), Bit(b, 1), Bit(c, 0x80), Bit(c, 0x40))
    ensures Group(Value24(a, b, c), 0) == Six(Bit(c, 0x20), Bit(c, 0x10), Bit(c, 8), Bit(c, 4), Bit(c, 2), Bit(c, 1))
  {
    hide Six, Bit;
    var v := (a as bv32 << 16) | (b as bv32 << 8) | c as bv32;
    HighSixes(a, b, c, v, (v >> 18) & 0x3F, (v >> 12) & 0x3F);
    LowSixes(a, b, c, v, (v >> 6) & 0x3F, (v >> 0) & 0x3F);
  }

  lemma Regroup(a: Bits, x: Bits, y: Bits, y': Bits, z: Bits, d: Bits)
    ensures (a + x) + (y + y') + (z + d) == a + ((x + y) + ((y' + z) + d))
  {
  }

  lemma OneSix(bits: Bits)
    requires |bits| == 6
    ensures Sixes(bits) == [SixValue(bits)]
  {
    assert bits[..6] == bits && bits[6..] == [];
  }

  /** Three octets of bits make four groups of six. */
  lemma SixesOf24(x: Bits, y: Bits, z: Bits)
    requires |x| == 8 && |y| == 8 && |z| == 8
    ensures Sixes(x + y + z) == [SixValue(x[..6]), SixValue(x[6..] + y[..4]), SixValue(y[4..] + z[..2]), SixValue(z[2..])]
  {
    var a, b, c, d := x[..6], x[6..] + y[..4], y[4..] + z[..2], z[2..];
    hide Sixes, SixValue;
    assert x + y + z == a + (b + (c + d)) by {
      assert x == x[..6] + x[6..] && y == y[..4] + y[4..] && z == z[..2] + z[2..];
      Regroup(x[..6], x[6..], y[..4], y[4..], z[..2], z[2..]);
    }
    OneSix(a);
    OneSix(b);
    OneSix(c);
    OneSix(d);
    SixesConcat(a, b + (c + d));
    SixesConcat(b, c + d);
    SixesConcat(c, d);
  }

  lemma FirstGroups(a: Byte, b: Byte, c: Byte)
    ensures var v, x, y := Value24(a, b, c), ByteBits(a), ByteBits(b);
            Group(v, 18) == SixValue(x[..6]) && Group(v, 12) == SixValue(x[6..] + y[..4])
  {
    hide Value24, Group, Bit, Six;
    GroupValues(a, b, c);
  }

  lemma LastGroups(a: Byte, b: Byte, c: Byte)
    ensures var v, y, z := Value24(a, b, c), ByteBits(b), ByteBits(c);
            Group(v, 6) == SixValue(y[4..] + z[..2]) && Group(v, 0) == SixValue(z[2..])
  {
    hide Value24, Group, Bit, Six;
    GroupValues(a, b, c);
  }

  /** Shifting and masking the 24-bit value is regrouping the bits of three bytes in sixes. */
  lemma GroupsOfThree(a: Byte, b: Byte, c: Byte)
    ensures var v := Value24(a, b, c);
            Sixes(ByteBits(a) + ByteBits(b) + ByteBits(c)) == [Group(v, 18), Group(v, 12), Group(v, 6), Group(v, 0)]
  {
    FirstGroups(a, b, c);
    LastGroups(a, b, c);
    assert |ByteBits(a)| == 8 && |ByteBits(b)| == 8 && |ByteBits(c)| == 8;
    hide Group, SixValue, ByteBits, Value24;
    SixesOf24(ByteBits(a), ByteBits(b), ByteBits(c));
  }

  /** The four characters the encoder appends for the block at the start of data. */
  function BlockText(data: seq<Byte>): string
    requires data != []
  {
    var v := BlockValue(data);
    [Letter(Group(v, 18)), Letter(Group(v, 12)),
     if |data| > 1 then Letter(Group(v, 6)) else '=', if |data| > 2 then Letter(Group(v, 0)) else '=']
  }

  /** The text of a block in terms of its value. */
  lemma BlockTextOfThree(a: Byte, b: Byte, c: Byte, rest: seq<Byte>)
    ensures var v := Value24(a, b, c);
            BlockText([a, b, c] + rest) == [Letter(Group(v, 18)), Letter(Group(v, 12)), Letter(Group(v, 6)), Letter(Group(v, 0))]
  {
    hide Group, Value24, Letter;
    var data := [a, b, c] + rest;
    assert data[0] == a && data[1] == b && data[2] == c;
  }

  lemma FourLetters(k: nat, l: nat, m: nat, n: nat)
    requires k < 64 && l < 64 && m < 64 && n < 64
    ensures Letters([k, l, m, n]) == [Letter(k), Letter(l), Letter(m), Letter(n)]
  {
    hide Letter;
  }

  lemma BitsOfThree(a: Byte, b: Byte, c: Byte)
    ensures BitString([a]) == ByteBits(a)
    ensures BitString([a, b]) == ByteBits(a) + ByteBits(b)
    ensures BitString([a, b, c]) == ByteBits(a) + ByteBits(b) + ByteBits(c)
  {
    hide ByteBits;
    assert [a][1..] == [] && [a, b][1..] == [b] && [b][1..] == [];
    assert BitString([a]) == ByteBits(a) + [] == ByteBits(a);
    assert [a] + [b] == [a, b];
    BitStringConcat([a], [b]);
    assert BitString([b]) == ByteBits(b) + [] == ByteBits(b);
    assert [a, b] + [c] == [a, b, c];
    BitStringConcat([a, b], [c]);
    assert [c][1..] == [];
    assert BitString([c]) == ByteBits(c) + [] == ByteBits(c);
  }

  lemma FullBlock(a: Byte, b: Byte, c: Byte, rest: seq<Byte>)
    ensures Letters(Sixes(BitString([a, b, c]))) == BlockText([a, b, c] + rest)
  {
    hide Letters, Sixes, ByteBits, Group, Value24, BlockValue, Letter, BitString, BlockText;
    BlockTextOfThree(a, b, c, rest);
    GroupsOfThree(a, b, c);
    BitsOfThree(a, b, c);
    var v := Value24(a, b, c);
    FourLetters(Group(v, 18), Group(v, 12), Group(v, 6), Group(v, 0));
  }

  lemma NoBits()
    ensures ByteBits(0) == Zeros(8)
  {
  }

  lemma ShortPads()
    ensures Pad(PadCount(1)) == "==" && Pad(PadCount(2)) == "=" && PadCount(0) == 0
  {
  }

  lemma ShortLetters(k: nat, l: nat, m: nat)
    requires k < 64 && l < 64 && m < 64
    ensures Letters([k, l]) == [Letter(k), Letter(l)]
    ensures Letters([k, l, m]) == [Letter(k), Letter(l), Letter(m)]
  {
    hide Letter;
  }

  lemma SixesOf16(x: Bits, y: Bits)
    requires |x| == 8 && |y| == 8
    ensures Sixes(x + y) == [SixValue(x[..6]), SixValue(x[6..] + y[..4]), SixValue(y[4..] + Zeros(2))]
  {
    hide SixValue;
    assert Sixes(y[4..]) == [SixValue(y[4..] + Zeros(2))];
    OneSix(x[..6]);
    OneSix(x[6..] + y[..4]);
    hide Sixes;
    assert x + y == x[..6] + ((x[6..] + y[..4]) + y[4..]);
    SixesConcat(x[..6], (x[6..] + y[..4]) + y[4..]);
    SixesConcat(x[6..] + y[..4], y[4..]);
  }

  lemma TwoBytes(a: Byte, b: Byte)
    ensures var v := Value24(a, b, 0);
            Sixes(ByteBits(a) + ByteBits(b)) == [Group(v, 18), Group(v, 12), Group(v, 6)]
  {
    assert |ByteBits(a)| == 8 && |ByteBits(b)| == 8;
    hide Group, SixValue, ByteBits, Value24, Sixes;
    FirstGroups(a, b, 0);
    LastGroups(a, b, 0);
    NoBits();
    SixesOf16(ByteBits(a), ByteBits(b));
    assert Zeros(8)[..2] == Zeros(2);
  }

  /** A last block of two bytes: three groups, the third filled up with zero bits. */
  lemma LastTwo(a: Byte, b: Byte)
    ensures Encoding([a, b]) == BlockText([a, b])
  {
    hide ByteBits, BitString, Sixes, Group, Value24, Letters, Letter, Pad, PadCount;
    TwoBytes(a, b);
    BitsOfThree(a, b, 0);
    ShortPads();
    var v := BlockValue([a, b]);
    ShortLetters(Group(v, 18), Group(v, 12), Group(v, 6));
  }

  lemma OneByte(a: Byte)
    ensures var v := Value24(a, 0, 0);
            Sixes(ByteBits(a)) == [Group(v, 18), Group(v, 12)]
  {
    FirstGroups(a, 0, 0);
    NoBits();
    var x := ByteBits(a);
    assert |x| == 8;
    hide Group, SixValue, ByteBits, Value24;
    assert x == x[..6] + x[6..];
    OneSix(x[..6]);
    SixesConcat(x[..6], x[6..]);
    assert Zeros(8)[..4] == Zeros(4);
  }

  /** A last block of one byte: two groups, the second filled up with zero bits. */
  lemma LastOne(a: Byte)
    ensures Encoding([a]) == BlockText([a])
  {
    hide ByteBits, BitString, Sixes, Group, Value24, Letters, Letter, Pad, PadCount;
    OneByte(a);
    BitsOfThree(a, 0, 0);
    ShortPads();
    var v := BlockValue([a]);
    ShortLetters(Group(v, 18), Group(v, 12), 0);
  }

  lemma EncodingOfNothing()
    ensures Encoding([]) == ""
  {
  }

  /** The encoding of any data is the text of its first block, then the encoding of the rest. */
  lemma EncodingByBlocks(data: seq<Byte>)
    requires data != []
    ensures Encoding(data) == BlockText(data) + if |data| > 3 then Encoding(data[3..]) else ""
  {
    hide BlockText, Encoding, Letters, Sixes, BitString;
    if |data| == 1 {
      assert data == [data[0]];
      LastOne(data[0]);
    } else if |data| == 2 {
      assert data == [data[0], data[1]];
      LastTwo(data[0], data[1]);
    } else {
      var block := [data[0], data[1], data[2]];
      assert data == block + data[3..];
      EncodingStep(block, data[3..]);
      FullBlock(data[0], data[1], data[2], data[3..]);
      if |data| == 3 {
        EncodingOfNothing();
        assert data[3..] == [];
      }
    }
  }

  lemma BlockValueByShifts(data: seq<Byte>)
    requires data != []
    ensures BlockValue(data) == if |data| == 1 then data[0] as bv32 << 16
                                else if |data| == 2 then (data[0] as bv32 << 16) | (data[1] as bv32 << 8)
                                else (data[0] as bv32 << 16) | (data[1] as bv32 << 8) | data[2] as bv32
  {
    ValueByShifts(data[0], if |data| > 1 then data[1] else 0, if |data| > 2 then data[2] else 0);
    hide Value24;
  }

  // ---------------------------------------------------------------- the encoder

  lemma PushFour(before: string, p: char, q: char, r: char, t: char, rest: string)
    ensures before + [p] + [q] + [r] + [t] + rest == before + ([p, q, r, t] + rest)
  {
  }

  method Base64Encode(data: seq<Byte>) returns (ret: string)
    ensures ret == Encoding(data)
  {
    hide Encoding, BlockValue, Group, Letter;
    ret := "";
    var i := 0;
    ghost var left := data;
    EncodingOfNothing();
    while i < |data|
      invariant 0 <= i
      invariant left == if i < |data| then data[i..] else []
      invariant Encoding(data) == ret + Encoding(left)
    {
      BlockValueByShifts(left);
      EncodingByBlocks(left);
      var value := data[i] as bv32 << 16;
      if i + 1 < |data| { value := value | (data[i + 1] as bv32 << 8); }
      if i + 2 < |data| { value := value | data[i + 2] as bv32; }
      assert value == BlockValue(left);
      var third := if i + 1 < |data| then Letter(Group(value, 6)) else '=';
      var fourth := if i + 2 < |data| then Letter(Group(value, 0)) else '=';
      assert BlockText(left) == [Letter(Group(value, 18)), Letter(Group(value, 12)), third, fourth];
      hide BlockText;
      left := if |left| > 3 then left[3..] else [];
      PushFour(ret, Letter(Group(value, 18)), Letter(Group(value, 12)), third, fourth, Encoding(left));
      ret := ret + [Letter(Group(value, 18))];
      ret := ret + [Letter(Group(value, 12))];
      ret := ret + [third];
      ret := ret + [fourth];
      i := i + 3;
    }
    assert ret + "" == ret;
  }
}
