/** The hexadecimal and bit-string converters of src/db/database-persistent.ts. */
module BitStrings {

  /** parseInt(c, 16) on one character, in either letter case. */
  function Nibble(c: char): int {
    if '0' <= c <= '9' then c as int - '0' as int
    else if 'a' <= c <= 'f' then c as int - 'a' as int + 10
    else if 'A' <= c <= 'F' then c as int - 'A' as int + 10
    else -1
  }

  predicate IsHex(s: string) {
    forall c | c in s :: Nibble(c) >= 0
  }

  lemma HexCharacters(c: char)
    ensures Nibble(c) >= 0 <==> c in "0123456789abcdefABCDEF"
  {
    var digits := "0123456789abcdefABCDEF";
    if Nibble(c) >= 0 {
      var i := if 'A' <= c <= 'F' then Nibble(c) + 6 else Nibble(c);
      assert digits[i] == c;
    }
  }

  predicate IsBits(s: string) {
    forall c | c in s :: c == '0' || c == '1'
  }

  function Lower(c: char): char {
    if 'A' <= c <= 'Z' then (c as int - 'A' as int + 'a' as int) as char else c
  }

  function ToLower(s: string): string {
    if s == [] then [] else [Lower(s[0])] + ToLower(s[1..])
  }

  /** Removes the first "0x". */
  function StripPrefix(s: string): string {
    if |s| < 2 then s
    else if s[0] == '0' && s[1] == 'x' then s[2..]
    else [s[0]] + StripPrefix(s[1..])
  }

  ghost predicate NoPrefixIn(s: string) {
    forall i | 0 <= i < |s| - 1 :: !(s[i] == '0' && s[i + 1] == 'x')
  }

  lemma NoPrefixAfter(a: string)
    requires NoPrefixIn(a) && a != []
    ensures NoPrefixIn(a[1..])
  {
    assert forall i | 0 <= i < |a| - 1 :: a[1..][i] == a[i + 1];
  }

  lemma {:induction false} NothingToStrip(a: string)
    requires NoPrefixIn(a)
    ensures StripPrefix(a) == a
  {
    if |a| >= 2 {
      NoPrefixAfter(a);
      NothingToStrip(a[1..]);
      assert [a[0]] + a[1..] == a;
    }
  }

  /** Of several occurrences of "0x" only the first is removed. */
  lemma {:induction false} StripsFirst(a: string, b: string)
    requires NoPrefixIn(a)
    ensures StripPrefix(a + ("0x" + b)) == a + b
  {
    var all := a + ("0x" + b);
    if a == [] {
      assert all == "0x" + b && all[2..] == b;
    } else {
      var rest := a[1..] + ("0x" + b);
      NoPrefixAfter(a);
      StripsFirst(a[1..], b);
      assert all[1..] == rest && all[0] == a[0] && rest[0] == if |a| > 1 then a[1] else '0';
      assert all[1] == rest[0];
      assert [a[0]] + (a[1..] + b) == a + b;
    }
  }

  function Bit(b: int): char {
    if b % 2 == 1 then '1' else '0'
  }

  /** The number in base two, padded to four digits. */
  function FourBits(n: int): (r: string)
    ensures |r| == 4
  {
    [Bit(n / 8), Bit(n / 4), Bit(n / 2), Bit(n)]
  }

  function BitValue(c: char): int {
    if c == '1' then 1 else 0
  }

  /** parseInt(s, 2) */
  function FromBits(s: string): int {
    if s == [] then 0 else 2 * FromBits(s[..|s| - 1]) + BitValue(s[|s| - 1])
  }

  /** toString(16) of a number below sixteen. */
  function HexDigit(n: int): char
    requires 0 <= n < 16
  {
    "0123456789abcdef"[n]
  }

  function HexToBits(hex: string): string {
    if hex == [] then [] else FourBits(Nibble(hex[0])) + HexToBits(hex[1..])
  }

  lemma {:induction false} FromBitsBound(s: string)
    requires |s| <= 4
    ensures 0 <= FromBits(s) < 16
    ensures |s| == 0 ==> FromBits(s) < 1
    ensures |s| == 1 ==> FromBits(s) < 2
    ensures |s| == 2 ==> FromBits(s) < 4
    ensures |s| == 3 ==> FromBits(s) < 8
  {
    if s != [] { FromBitsBound(s[..|s| - 1]); }
  }

  /** Chunks of four, the last one possibly shorter. */
  function BitsToHex(bits: string): string {
    if bits == [] then []
    else
      var n := if |bits| < 4 then |bits| else 4;
      FromBitsBound(bits[..n]);
      [HexDigit(FromBits(bits[..n]))] + BitsToHex(bits[n..])
  }

  // ----- round trips -----

  lemma FourBitsValue(a: char, b: char, c: char, d: char)
    ensures FromBits([a, b, c, d]) == 8 * BitValue(a) + 4 * BitValue(b) + 2 * BitValue(c) + BitValue(d)
  {
    assert [a][..0] == [] && FromBits([a]) == BitValue(a);
    assert [a, b][..1] == [a] && FromBits([a, b]) == 2 * BitValue(a) + BitValue(b);
    assert [a, b, c][..2] == [a, b];
    assert [a, b, c, d][..3] == [a, b, c];
  }

  lemma NibbleRoundTrip(c: char)
    requires Nibble(c) >= 0
    ensures FromBits(FourBits(Nibble(c))) == Nibble(c) < 16
    ensures HexDigit(Nibble(c)) == Lower(c)
  {
    var n := Nibble(c);
    FourBitsValue(Bit(n / 8), Bit(n / 4), Bit(n / 2), Bit(n));
  }

  /** Hex to bits and back gives the hex string in lower case, of any length. */
  lemma {:induction false} HexRoundTrip(hex: string)
    requires IsHex(hex)
    ensures |HexToBits(hex)| == 4 * |hex| && IsBits(HexToBits(hex))
    ensures BitsToHex(HexToBits(hex)) == ToLower(hex)
  {
    if hex != [] {
      var four, rest := FourBits(Nibble(hex[0])), HexToBits(hex[1..]);
      HexRoundTrip(hex[1..]);
      NibbleRoundTrip(hex[0]);
      assert (four + rest)[..4] == four && (four + rest)[4..] == rest;
    }
  }

  lemma FourBitsMean(n: int)
    requires 0 <= n < 16
    ensures var four := FourBits(n);
      && four[0] == (if n % 16 >= 8 then '1' else '0') && four[1] == (if n % 8 >= 4 then '1' else '0')
      && four[2] == (if n % 4 >= 2 then '1' else '0') && four[3] == (if n % 2 >= 1 then '1' else '0')
  {
  }

  lemma NibbleOfDigit(c: char, n: int)
    requires 0 <= n < 16 && Lower(c) == "0123456789abcdef"[n]
    ensures Nibble(c) == n
  {
  }

  lemma FourAt(hex: string, i: nat)
    requires i < |hex|
    ensures |HexToBits(hex)| == 4 * |hex|
    ensures HexToBits(hex)[4 * i..4 * i + 4] == FourBits(Nibble(hex[i]))
  {
    var early, rest := hex[..i], hex[i + 1..];
    assert hex == early + ([hex[i]] + rest);
    HexToBitsAppend(early, [hex[i]] + rest);
    assert ([hex[i]] + rest)[1..] == rest;
    HexToBitsLength(hex);
    HexToBitsLength(early);
    hide FourBits, Nibble;
  }

  /** The four bits at a digit's place are '1' exactly for the powers of two in the digit. */
  lemma BitsOfDigit(hex: string, i: nat, n: int)
    requires i < |hex| && 0 <= n < 16 && Lower(hex[i]) == "0123456789abcdef"[n]
    ensures |HexToBits(hex)| == 4 * |hex|
    ensures var four := HexToBits(hex)[4 * i..4 * i + 4];
      && four[0] == (if n % 16 >= 8 then '1' else '0') && four[1] == (if n % 8 >= 4 then '1' else '0')
      && four[2] == (if n % 4 >= 2 then '1' else '0') && four[3] == (if n % 2 >= 1 then '1' else '0')
  {
    FourAt(hex, i);
    NibbleOfDigit(hex[i], n);
    hide *;
    FourBitsMean(n);
  }

  lemma LeadingZeros(a: char, b: char, c: char)
    ensures FromBits(['0', '0', '0', c]) == FromBits([c])
    ensures FromBits(['0', '0', b, c]) == FromBits([b, c])
    ensures FromBits(['0', a, b, c]) == FromBits([a, b, c])
  {
    FourBitsValue('0', '0', '0', c);
    FourBitsValue('0', '0', b, c);
    FourBitsValue('0', a, b, c);
    assert [a][..0] == [] && FromBits([a]) == BitValue(a);
    assert [b][..0] == [] && FromBits([b]) == BitValue(b);
    assert [c][..0] == [] && FromBits([c]) == BitValue(c);
    assert [a, b][..1] == [a] && FromBits([a, b]) == 2 * BitValue(a) + BitValue(b);
    assert [b, c][..1] == [b] && FromBits([b, c]) == 2 * BitValue(b) + BitValue(c);
    assert [a, b, c][..2] == [a, b];
  }

  lemma OneChunk(bits: string)
    requires 0 < |bits| <= 4
    ensures 0 <= FromBits(bits) < 16 && BitsToHex(bits) == [HexDigit(FromBits(bits))]
  {
    hide FromBits, HexDigit;
    FromBitsBound(bits);
    var n := if |bits| < 4 then |bits| else 4;
    assert n == |bits| && bits[..n] == bits && bits[n..] == [];
    assert BitsToHex(bits[n..]) == [];
    assert [HexDigit(FromBits(bits))] + [] == [HexDigit(FromBits(bits))];
  }

  lemma ShortChunk(last: string)
    requires 0 < |last| < 4
    ensures BitsToHex(last) == BitsToHex("0000"[|last|..] + last)
  {
    hide *;
    OneChunk(last);
    OneChunk("0000"[|last|..] + last);
    Padded(last);
  }

  lemma Padded(last: string)
    requires 0 < |last| < 4
    ensures FromBits("0000"[|last|..] + last) == FromBits(last)
  {
    var padded, x, z := "0000"[|last|..] + last, last[0], last[|last| - 1];
    hide FromBits;
    if |last| == 1 {
      assert last == [x] && padded == ['0', '0', '0', x];
      LeadingZeros('0', '0', x);
    } else if |last| == 2 {
      assert last == [x, z] && padded == ['0', '0', x, z];
      LeadingZeros('0', x, z);
    } else {
      assert last == [x, last[1], z] && padded == ['0', x, last[1], z];
      LeadingZeros(x, last[1], z);
    }
  }

  lemma BitsToHexAppend(four: string, rest: string)
    requires |four| == 4
    ensures BitsToHex(four + rest) == BitsToHex(four) + BitsToHex(rest)
  {
    hide FromBits;
    assert (four + rest)[..4] == four && (four + rest)[4..] == rest;
    assert four[..4] == four && four[4..] == [];
  }

  /** A shorter last chunk counts as if zeros led it. */
  lemma {:induction false} LastChunk(whole: string, last: string)
    requires |whole| % 4 == 0 && 0 < |last| < 4
    ensures BitsToHex(whole + last) == BitsToHex(whole + ("0000"[|last|..] + last))
  {
    hide BitsToHex;
    var padded := "0000"[|last|..] + last;
    if whole == [] {
      assert whole + last == last && whole + padded == padded;
      ShortChunk(last);
    } else {
      var four, rest := whole[..4], whole[4..];
      LastChunk(rest, last);
      assert whole + last == four + (rest + last) && whole + padded == four + (rest + padded);
      BitsToHexAppend(four, rest + last);
      BitsToHexAppend(four, rest + padded);
    }
  }

  lemma HexDigitNibble(n: int)
    requires 0 <= n < 16
    ensures Nibble(HexDigit(n)) == n
  {
  }

  lemma {:induction false} BitsToHexLength(bits: string)
    ensures 4 * |BitsToHex(bits)| >= |bits|
    ensures |bits| % 4 != 0 ==> 4 * |BitsToHex(bits)| > |bits|
  {
    if |bits| >= 4 { BitsToHexLength(bits[4..]); }
  }

  lemma {:induction false} HexToBitsLength(hex: string)
    ensures |HexToBits(hex)| == 4 * |hex|
  {
    if hex != [] { HexToBitsLength(hex[1..]); }
  }

  lemma Digits(a: int, b: int, c: int, d: int)
    requires 0 <= a < 2 && 0 <= b < 2 && 0 <= c < 2 && 0 <= d < 2
    ensures var n := 8 * a + 4 * b + 2 * c + d;
      0 <= n < 16 && n / 8 % 2 == a && n / 4 % 2 == b && n / 2 % 2 == c && n % 2 == d
  {
  }

  lemma FourRoundTrip(bits: string)
    requires |bits| == 4 && IsBits(bits)
    ensures 0 <= FromBits(bits) < 16 && FourBits(FromBits(bits)) == bits
  {
    var a, b, c, d := bits[0], bits[1], bits[2], bits[3];
    assert bits == [a, b, c, d];
    assert a in bits && b in bits && c in bits && d in bits;
    FourBitsValue(a, b, c, d);
    Digits(BitValue(a), BitValue(b), BitValue(c), BitValue(d));
    hide FromBits;
  }

  lemma {:induction false} WholeBitsRoundTrip(bits: string)
    requires IsBits(bits) && |bits| % 4 == 0
    ensures HexToBits(BitsToHex(bits)) == bits
  {
    if bits != [] {
      var four, rest := bits[..4], bits[4..];
      assert forall c | c in four :: c in bits;
      assert forall c | c in rest :: c in bits;
      FourRoundTrip(four);
      HexDigitNibble(FromBits(four));
      WholeBitsRoundTrip(rest);
      var hex := BitsToHex(bits);
      assert hex == [HexDigit(FromBits(four))] + BitsToHex(rest);
      assert hex[1..] == BitsToHex(rest);
      assert bits == four + rest;
    }
  }

  /** Bits to hex and back gives the bits exactly when their number is a multiple of four. */
  lemma BitsRoundTrip(bits: string)
    requires IsBits(bits)
    ensures HexToBits(BitsToHex(bits)) == bits <==> |bits| % 4 == 0
  {
    if |bits| % 4 == 0 {
      WholeBitsRoundTrip(bits);
    } else {
      BitsToHexLength(bits);
      HexToBitsLength(BitsToHex(bits));
    }
  }

  lemma {:induction false} LowerHex(hex: string)
    requires IsHex(hex)
    ensures IsHex(ToLower(hex)) && StripPrefix(ToLower(hex)) == ToLower(hex) && ToLower(ToLower(hex)) == ToLower(hex)
  {
    if hex != [] {
      assert forall c | c in hex[1..] :: c in hex;
      LowerHex(hex[1..]);
      assert hex[0] in hex;
      assert ToLower(hex)[1..] == ToLower(hex[1..]);
      if |hex| > 1 { assert hex[1] in hex; }
    }
  }

  lemma LowerPrefix(hex: string)
    ensures StripPrefix(ToLower("0x" + hex)) == ToLower(hex)
  {
    var rest := "x" + hex;
    assert rest[1..] == hex && ("0x" + hex)[1..] == rest;
    assert ToLower(rest) == "x" + ToLower(hex);
    assert ToLower("0x" + hex) == "0" + ToLower(rest);
    assert ("0" + ToLower(rest))[2..] == ToLower(hex);
  }

  /** An address, with or without its prefix, comes back as its lower-case text with the prefix. */
  lemma AddressRoundTrip(hex: string, address: string)
    requires IsHex(hex) && (address == hex || address == "0x" + hex)
    ensures "0x" + BitsToHex(HexToBits(StripPrefix(ToLower(address)))) == "0x" + ToLower(hex)
  {
    LowerHex(hex);
    HexRoundTrip(ToLower(hex));
    LowerPrefix(hex);
  }

  // ----- the methods -----

  lemma {:induction false} HexToBitsAppend(a: string, b: string)
    ensures HexToBits(a + b) == HexToBits(a) + HexToBits(b)
  {
    if a == [] {
      assert a + b == b;
    } else {
      assert (a + b)[1..] == a[1..] + b;
      HexToBitsAppend(a[1..], b);
    }
  }

  method ConvertEthAddressToPostgresBits(ethAddress: string) returns (bitString: string)
    requires IsHex(StripPrefix(ToLower(ethAddress)))
    ensures bitString == HexToBits(StripPrefix(ToLower(ethAddress)))
  {
    var hexString := StripPrefix(ToLower(ethAddress));
    bitString := "";
    var i := 0;
    while i < |hexString|
      invariant 0 <= i <= |hexString|
      invariant bitString == HexToBits(hexString[..i])
    {
      assert hexString[..i + 1] == hexString[..i] + [hexString[i]];
      HexToBitsAppend(hexString[..i], [hexString[i]]);
      assert [hexString[i]][1..] == [];
      bitString := bitString + FourBits(Nibble(hexString[i]));
      i := i + 1;
    }
    assert hexString[..i] == hexString;
  }

  method ConvertPostgresBitsToEthAddress(bits: string) returns (hex: string)
    requires IsBits(bits)
    ensures hex == "0x" + BitsToHex(bits)
  {
    var hexString := "";
    var i := 0;
    while i < |bits|
      invariant 0 <= i <= |bits|
      invariant BitsToHex(bits) == hexString + BitsToHex(bits[i..])
    {
      var end := if i + 4 <= |bits| then i + 4 else |bits|;
      assert bits[i..][..end - i] == bits[i..end] && bits[i..][end - i..] == bits[end..];
      FromBitsBound(bits[i..end]);
      hexString := hexString + [HexDigit(FromBits(bits[i..end]))];
      i := end;
    }
    return "0x" + hexString;
  }
}
