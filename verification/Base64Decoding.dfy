/** A reference decoder for Base64 and the proof that it inverts the encoder. */
module Base64Decoding {
  import opened Text
  import opened Base64

  predicate IsLetter(c: char) {
    'A' <= c <= 'Z' || 'a' <= c <= 'z' || '0' <= c <= '9' || c == '+' || c == '/'
  }

  /** The value of a letter, from table 1 of RFC 4648. */
  function Index(c: char): (n: nat)
    requires IsLetter(c)
    ensures n < 64
  {
    if 'A' <= c <= 'Z' then c as int - 'A' as int
    else if 'a' <= c <= 'z' then c as int - 'a' as int + 26
    else if '0' <= c <= '9' then c as int - '0' as int + 52
    else if c == '+' then 62 else 63
  }

  function SixBits(n: nat): (bits: Bits)
    requires n < 64
    ensures |bits| == 6
  {
    var n5 := n - Weight(n >= 32, 32);
    var n4 := n5 - Weight(n5 >= 16, 16);
    var n3 := n4 - Weight(n4 >= 8, 8);
    var n2 := n3 - Weight(n3 >= 4, 4);
    var n1 := n2 - Weight(n2 >= 2, 2);
    [n >= 32, n5 >= 16, n4 >= 8, n3 >= 4, n2 >= 2, n1 >= 1]
  }

  predicate AllLetters(s: string) {
    forall i | 0 <= i < |s| :: IsLetter(s[i])
  }

  function LetterBits(s: string): Bits
    requires AllLetters(s)
  {
    if s == "" then [] else SixBits(Index(s[0])) + LetterBits(s[1..])
  }

  function Octet(bits: Bits): Byte
    requires |bits| == 8
  {
    (if bits[0] then 0x80 else 0) | (if bits[1] then 0x40 else 0) | (if bits[2] then 0x20 else 0) | (if bits[3] then 0x10 else 0)
    | (if bits[4] then 8 else 0) | (if bits[5] then 4 else 0) | (if bits[6] then 2 else 0) | (if bits[7] then 1 else 0)
  }

  /** The whole octets of a bit string; leftover bits are fill. */
  function Octets(bits: Bits): seq<Byte>
    decreases |bits|
  {
    if |bits| < 8 then [] else [Octet(bits[..8])] + Octets(bits[8..])
  }

  /** The text without its one or two pad characters. */
  function Unpadded(s: string): string {
    if |s| >= 2 && s[|s| - 2..] == "==" then s[..|s| - 2]
    else if |s| >= 1 && s[|s| - 1] == '=' then s[..|s| - 1]
    else s
  }

  function Decoding(s: string): Option<seq<Byte>> {
    if |s| % 4 != 0 || !AllLetters(Unpadded(s)) then None else Some(Octets(LetterBits(Unpadded(s))))
  }

  // ---------------------------------------------------------------- inverses of the parts

  lemma UpperAt(n: nat)
    requires n < 26
    ensures UPPER[n] as int == 'A' as int + n
  {
  }

  lemma LowerAt(n: nat)
    requires n < 26
    ensures LOWER[n] as int == 'a' as int + n
  {
  }

  lemma DigitAt(n: nat)
    requires n < 10
    ensures DIGITS[n] as int == '0' as int + n
  {
  }

  lemma LetterSplit(n: nat)
    requires n < 64
    ensures Letter(n) == if n < 26 then UPPER[n] else if n < 52 then LOWER[n - 26]
                         else if n < 62 then DIGITS[n - 52] else "+/"[n - 62]
  {
  }

  lemma CodedIndex(c: char, n: nat)
    requires n < 64
    requires c as int == if n < 26 then 'A' as int + n else if n < 52 then 'a' as int + n - 26
                         else if n < 62 then '0' as int + n - 52 else if n == 62 then '+' as int else '/' as int
    ensures IsLetter(c) && Index(c) == n && c != '='
  {
  }

  /** The table has 64 different letters, and none of them is the pad. */
  lemma IndexOfLetter(n: nat)
    requires n < 64
    ensures IsLetter(Letter(n)) && Index(Letter(n)) == n && Letter(n) != '='
  {
    LetterSplit(n);
    hide Letter;
    if n < 26 {
      UpperAt(n);
      CodedIndex(UPPER[n], n);
    } else if n < 52 {
      LowerAt(n - 26);
      CodedIndex(LOWER[n - 26], n);
    } else if n < 62 {
      DigitAt(n - 52);
      CodedIndex(DIGITS[n - 52], n);
    } else {
      CodedIndex("+/"[n - 62], n);
    }
  }

  lemma BitsOfSixValue(bits: Bits)
    requires |bits| == 6
    ensures SixBits(SixValue(bits)) == bits
  {
  }

  lemma OctetOfBits(b: Byte)
    ensures Octet(ByteBits(b)) == b
  {
  }

  lemma LettersStep(n: nat, groups: seq<nat>)
    requires n < 64 && forall i | 0 <= i < |groups| :: groups[i] < 64
    ensures Letters([n] + groups) == [Letter(n)] + Letters(groups)
  {
    hide Letter;
  }

  function FillCount(n: nat): nat {
    (6 - n % 6) % 6
  }

  lemma SixesShort(bits: Bits)
    requires 0 < |bits| < 6
    ensures Sixes(bits) == [SixValue(bits + Zeros(6 - |bits|))] + []
  {
  }

  lemma SixesLong(bits: Bits)
    requires 6 <= |bits|
    ensures Sixes(bits) == [SixValue(bits[..6])] + Sixes(bits[6..])
  {
  }

  lemma NothingToRead()
    ensures Sixes([]) == [] && Letters([]) == "" && LetterBits("") == [] && Zeros(0) == []
  {
  }

  lemma Rejoin(bits: Bits, fill: Bits)
    requires 6 <= |bits|
    ensures bits[..6] + (bits[6..] + fill) == bits + fill
  {
  }

  lemma FillCounts(n: nat)
    ensures FillCount(0) == 0 && (0 < n < 6 ==> FillCount(n) == 6 - n)
    ensures 6 <= n ==> FillCount(n) == FillCount(n - 6)
  {
  }

  lemma LetterBitsStep(c: char, s: string)
    requires IsLetter(c) && AllLetters(s)
    ensures AllLetters([c] + s) && LetterBits([c] + s) == SixBits(Index(c)) + LetterBits(s)
  {
    assert ([c] + s)[1..] == s;
  }

  lemma OneLetterBack(six: Bits, groups: seq<nat>)
    requires |six| == 6 && (forall i | 0 <= i < |groups| :: groups[i] < 64) && AllLetters(Letters(groups))
    ensures AllLetters(Letters([SixValue(six)] + groups))
    ensures LetterBits(Letters([SixValue(six)] + groups)) == six + LetterBits(Letters(groups))
  {
    hide Letter, Letters, SixValue, LetterBits, Index, SixBits, IsLetter;
    IndexOfLetter(SixValue(six));
    BitsOfSixValue(six);
    LettersStep(SixValue(six), groups);
    LetterBitsStep(Letter(SixValue(six)), Letters(groups));
  }

  lemma FewZeros(n: nat)
    ensures |Zeros(n)| == n
  {
  }

  /** Reading the letters back gives the bits, and the zero bits that filled the last group. */
  lemma {:induction false} LettersReadBack(bits: Bits)
    ensures var s := Letters(Sixes(bits));
            AllLetters(s) && LetterBits(s) == bits + Zeros(FillCount(|bits|))
    decreases |bits|
  {
    hide Letters, Sixes, SixValue, LetterBits, SixBits, FillCount, Zeros;
    NothingToRead();
    FillCounts(|bits|);
    if bits == [] {
      assert bits + [] == [];
    } else if |bits| < 6 {
      var six := bits + Zeros(6 - |bits|);
      SixesShort(bits);
      FewZeros(6 - |bits|);
      OneLetterBack(six, []);
      assert six + [] == six;
    } else {
      var six, rest := bits[..6], bits[6..];
      LettersReadBack(rest);
      SixesLong(bits);
      OneLetterBack(six, Sixes(rest));
      Rejoin(bits, Zeros(FillCount(|rest|)));
    }
  }

  /** Cutting the bits of the data into octets gives the data, whatever fill follows. */
  lemma {:induction false} OctetsOfBitString(data: seq<Byte>, fill: Bits)
    requires |fill| < 8
    ensures Octets(BitString(data) + fill) == data
  {
    var bits := BitString(data) + fill;
    if data != [] {
      OctetOfBits(data[0]);
      var first, rest := ByteBits(data[0]), BitString(data[1..]) + fill;
      assert |first| == 8;
      hide ByteBits, Octet;
      assert bits == first + rest;
      assert bits[..8] == first && bits[8..] == rest;
      OctetsOfBitString(data[1..], fill);
    }
  }

  // ---------------------------------------------------------------- the shape of the output

  lemma GroupCount(n: nat)
    ensures (8 * n + 5) / 6 + PadCount(n) == 4 * ((n + 2) / 3)
  {
    var k, r := n / 3, n % 3;
    assert n == 3 * k + r;
    assert (8 * n + 5) / 6 == 4 * k + (8 * r + 5) / 6;
    assert (n + 2) / 3 == k + (r + 2) / 3;
  }

  lemma LettersOnly(groups: seq<nat>)
    requires forall i | 0 <= i < |groups| :: groups[i] < 64
    ensures forall i | 0 <= i < |groups| :: Letters(groups)[i] != '=' && IsLetter(Letters(groups)[i])
  {
    hide Letter, IsLetter;
    forall i | 0 <= i < |groups|
      ensures Letters(groups)[i] != '=' && IsLetter(Letters(groups)[i])
    {
      IndexOfLetter(groups[i]);
    }
  }

  lemma PadCountIs(n: nat)
    ensures PadCount(n) == if n % 3 == 0 then 0 else 3 - n % 3
  {
  }

  /** The output has 4 * ceil(len / 3) characters; the pad stands exactly in the last
      0, 2 or 1 of them, for len mod 3 being 0, 1 or 2; all others are letters. */
  lemma OutputShape(data: seq<Byte>)
    ensures |Encoding(data)| == 4 * ((|data| + 2) / 3)
    ensures forall i | 0 <= i < |Encoding(data)| ::
              && (Encoding(data)[i] == '=' <==> i >= |Encoding(data)| - if |data| % 3 == 0 then 0 else 3 - |data| % 3)
              && (Encoding(data)[i] != '=' ==> IsLetter(Encoding(data)[i]))
  {
    var groups := Sixes(BitString(data));
    var pad := PadCount(|data|);
    GroupCount(|data|);
    PadCountIs(|data|);
    LettersOnly(groups);
    hide Letters, Sixes, BitString, IsLetter, PadCount;
    assert Encoding(data) == Letters(groups) + Pad(pad);
  }

  lemma UnpaddedText(text: string, n: nat)
    requires n <= 2 && (text != "" ==> text[|text| - 1] != '=') && (text == "" ==> n == 0)
    ensures Unpadded(text + Pad(n)) == text
  {
    var s := text + Pad(n);
    assert s[..|text|] == text;
    if n == 2 {
      assert s[|s| - 2..] == "==";
    } else if |s| >= 2 {
      assert s[|s| - 2..][0] == s[|s| - 2] && s[|s| - 2..][1] == s[|s| - 1];
    }
  }

  lemma UnpaddedEncoding(data: seq<Byte>)
    ensures Unpadded(Encoding(data)) == Letters(Sixes(BitString(data)))
  {
    var groups := Sixes(BitString(data));
    assert |groups| > 0 <==> data != [];
    hide Letter, Sixes, BitString, Unpadded;
    if groups != [] {
      IndexOfLetter(groups[|groups| - 1]);
    }
    UnpaddedText(Letters(groups), PadCount(|data|));
  }

  /** The reference decoder applied to the encoder's output returns the input, for every
      byte sequence. */
  lemma DecodingInvertsEncoding(data: seq<Byte>)
    ensures Decoding(Encoding(data)) == Some(data)
  {
    hide Encoding, Letters, Sixes, IsLetter, LetterBits, Octets, BitString, Zeros, Unpadded, AllLetters;
    OutputShape(data);
    UnpaddedEncoding(data);
    LettersReadBack(BitString(data));
    FewZeros(FillCount(8 * |data|));
    OctetsOfBitString(data, Zeros(FillCount(8 * |data|)));
  }
}
