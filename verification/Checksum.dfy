/**
 The record checksum of prisma/seed-scripts/duplicate-detector.ts: of the text of a record, a
 rolling hash and an FNV-1a hash, both on 32 bits, written as sixteen hexadecimal digits.
 */
module Checksum {
  import opened Words32
  import opened RecordText
  import opened Json

  /** JavaScript's conversion to a signed 32-bit integer. */
  function ToInt32(x: int): int {
    var m := x % MODULUS;
    if m >= 0x8000_0000 then m - MODULUS else m
  }

  lemma ToInt32Reduces(x: int) returns (k: int)
    ensures ToInt32(x) == x - k * MODULUS
    ensures -0x8000_0000 <= ToInt32(x) < 0x8000_0000
  {
    k := x / MODULUS + if x % MODULUS >= 0x8000_0000 then 1 else 0;
  }

  lemma ToInt32Periodic(x: int, k: int)
    ensures ToInt32(x + k * MODULUS) == ToInt32(x)
  {
  }

  // ---------- the rolling hash ----------

  /** The characters as the digits of a number in base 31, with no bound on its size. */
  function Polynomial(s: string): nat {
    if s == [] then 0 else 31 * Polynomial(s[..|s| - 1]) + s[|s| - 1] as int
  }

  /** `hash = ((hash << 5) - hash) + char; hash = hash & hash` */
  method RollingHash(str: string) returns (hash: int)
    ensures hash == ToInt32(Polynomial(str))
  {
    hash := 0;
    for i := 0 to |str|
      invariant hash == ToInt32(Polynomial(str[..i]))
    {
      assert str[..i + 1][..i] == str[..i];
      RollingStep(Polynomial(str[..i]), str[i] as int);
      hash := ToInt32(hash * 32) - hash + str[i] as int;
      hash := ToInt32(hash);
    }
    assert str[..|str|] == str;
  }

  /** Wrapping at every step is wrapping once at the end. */
  lemma RollingStep(p: int, c: int)
    ensures ToInt32(ToInt32(ToInt32(p) * 32) - ToInt32(p) + c) == ToInt32(31 * p + c)
  {
    var h := ToInt32(p);
    var q := ToInt32Reduces(p);
    var r := ToInt32Reduces(h * 32);
    assert ToInt32(h * 32) - h + c == 31 * p + c + (-31 * q - r) * MODULUS;
    ToInt32Periodic(31 * p + c, -31 * q - r);
  }

  // ---------- FNV-1a ----------

  const OFFSET: nat := 0x811c9dc5
  const PRIME: nat := 0x01000193

  /** `x ^ y`, digit by binary digit. */
  function BitXor(x: nat, y: nat): nat {
    if x == 0 && y == 0 then 0
    else 2 * BitXor(x / 2, y / 2) + (if x % 2 == y % 2 then 0 else 1)
  }

  function Power2(k: nat): nat {
    if k == 0 then 1 else 2 * Power2(k - 1)
  }

  /** Binary digit `k`. */
  function Bit(x: nat, k: nat): nat {
    if k == 0 then x % 2 else Bit(x / 2, k - 1)
  }

  /** A digit of the result is 1 exactly when those of the operands differ. */
  lemma {:induction false} XorBits(x: nat, y: nat, k: nat)
    ensures Bit(BitXor(x, y), k) == if Bit(x, k) == Bit(y, k) then 0 else 1
    decreases k
  {
    if x == 0 && y == 0 {
      ZeroBits(k);
    } else if k > 0 {
      XorBits(x / 2, y / 2, k - 1);
      assert BitXor(x, y) / 2 == BitXor(x / 2, y / 2);
    }
  }

  lemma {:induction false} ZeroBits(k: nat)
    ensures Bit(0, k) == 0
  {
    if k > 0 {
      ZeroBits(k - 1);
    }
  }

  lemma {:induction false} XorInRange(x: nat, y: nat, k: nat)
    requires x < Power2(k) && y < Power2(k)
    ensures BitXor(x, y) < Power2(k)
    decreases k
  {
    if k > 0 {
      XorInRange(x / 2, y / 2, k - 1);
    }
  }

  lemma PowerIsModulus()
    ensures Power2(32) == MODULUS
  {
    assert Power2(8) == 0x100;
    assert Power2(16) == 0x1_0000;
    assert Power2(24) == 0x100_0000;
  }

  function Xor(h: Word, c: char): Word {
    PowerIsModulus();
    XorInRange(h, c as int, 32);
    BitXor(h, c as int)
  }

  function Fnv(s: string): Word {
    if s == [] then OFFSET else Xor(Fnv(s[..|s| - 1]), s[|s| - 1]) * PRIME % MODULUS
  }

  method FnvHash(str: string) returns (h: Word)
    ensures h == Fnv(str)
  {
    h := OFFSET;
    for i := 0 to |str|
      invariant h == Fnv(str[..i])
    {
      assert str[..i + 1][..i] == str[..i];
      h := Xor(h, str[i]) * PRIME % MODULUS;
    }
    assert str[..|str|] == str;
  }

  // ---------- hexadecimal ----------

  /** `n.toString(16)` */
  function Hex(n: nat): (s: string)
    ensures s != []
  {
    if n < 16 then [HexDigit(n)] else Hex(n / 16) + [HexDigit(n % 16)]
  }

  /** `s.padStart(8, '0')` */
  function Pad(s: string): string
    decreases 8 - |s|
  {
    if |s| >= 8 then s else Pad(['0'] + s)
  }

  function HexValue(s: string): int {
    if s == [] then 0 else 16 * HexValue(s[..|s| - 1]) + HexDigitValue(s[|s| - 1])
  }

  lemma {:induction false} HexRoundTrip(n: nat)
    ensures HexValue(Hex(n)) == n
  {
    if n >= 16 {
      HexRoundTrip(n / 16);
      assert Hex(n)[..|Hex(n)| - 1] == Hex(n / 16);
    } else {
      assert [HexDigit(n)][..0] == [];
    }
  }

  lemma {:induction false} LeadingZero(s: string)
    ensures HexValue(['0'] + s) == HexValue(s)
    decreases |s|
  {
    if s == [] {
      assert ['0'] + s == ['0'];
      assert ['0'][..0] == [];
    } else {
      var n := |s| - 1;
      LeadingZero(s[..n]);
      assert (['0'] + s)[..n + 1] == ['0'] + s[..n];
    }
  }

  lemma {:induction false} PadKeepsValue(s: string)
    ensures HexValue(Pad(s)) == HexValue(s)
    ensures |Pad(s)| == if |s| >= 8 then |s| else 8
    decreases 8 - |s|
  {
    if |s| < 8 {
      PadKeepsValue(['0'] + s);
      LeadingZero(s);
    }
  }

  function Power16(k: nat): nat {
    if k == 0 then 1 else 16 * Power16(k - 1)
  }

  lemma {:induction false} HexLength(n: nat, k: nat)
    requires k > 0 && n < Power16(k)
    ensures |Hex(n)| <= k
    decreases k
  {
    if n >= 16 {
      HexLength(n / 16, k - 1);
    }
  }

  // ---------- the checksum ----------

  function Abs(x: int): nat {
    if x < 0 then -x else x
  }

  /** The checksum of a text. */
  function ChecksumOf(str: string): string {
    Pad(Hex(Abs(ToInt32(Polynomial(str))))) + Pad(Hex(Fnv(str)))
  }

  method ComputeChecksum(data: seq<Property>) returns (checksum: string)
    ensures checksum == ChecksumOf(Canonical(Serialised(data)))
  {
    var str := Canonical(Serialised(data));
    var hash := RollingHash(str);
    var md5like := Pad(Hex(Abs(hash)));
    var h := FnvHash(str);
    checksum := md5like + Pad(Hex(h));
  }

  lemma EightDigits(n: nat)
    requires n < MODULUS
    ensures |Pad(Hex(n))| == 8 && HexValue(Pad(Hex(n))) == n
  {
    assert Power16(8) == MODULUS;
    HexLength(n, 8);
    PadKeepsValue(Hex(n));
    HexRoundTrip(n);
  }

  /**
   A checksum has sixteen digits. Two texts share it exactly when their FNV hashes agree and their
   rolling hashes agree up to sign, which `Math.abs` drops.
   */
  lemma CollisionExactly(s: string, t: string)
    ensures |ChecksumOf(s)| == 16
    ensures var h, g := ToInt32(Polynomial(s)), ToInt32(Polynomial(t));
            ChecksumOf(s) == ChecksumOf(t) <==> (h == g || h == -g) && Fnv(s) == Fnv(t)
  {
    var h, g := ToInt32(Polynomial(s)), ToInt32(Polynomial(t));
    var k := ToInt32Reduces(Polynomial(s));
    k := ToInt32Reduces(Polynomial(t));
    EightDigits(Abs(h));
    EightDigits(Abs(g));
    EightDigits(Fnv(s));
    EightDigits(Fnv(t));
    HalvesDetermine(Pad(Hex(Abs(h))), Pad(Hex(Fnv(s))), Pad(Hex(Abs(g))), Pad(Hex(Fnv(t))));
  }

  /** The two halves: the rolling hash without its sign, then the FNV hash, in hexadecimal. */
  lemma HalvesMean(s: string)
    ensures |ChecksumOf(s)| == 16
    ensures HexValue(ChecksumOf(s)[..8]) == Abs(ToInt32(Polynomial(s))) && HexValue(ChecksumOf(s)[8..]) == Fnv(s)
  {
    var h := ToInt32(Polynomial(s));
    var k := ToInt32Reduces(Polynomial(s));
    EightDigits(Abs(h));
    EightDigits(Fnv(s));
    var first, second := Pad(Hex(Abs(h))), Pad(Hex(Fnv(s)));
    assert (first + second)[..8] == first && (first + second)[8..] == second;
  }

  lemma HalvesDetermine(a: string, b: string, c: string, d: string)
    requires |a| == |c|
    ensures a + b == c + d <==> a == c && b == d
  {
    if a + b == c + d {
      assert a == (a + b)[..|a|] == c;
      assert b == (a + b)[|a|..] == d;
    }
  }

  // ---------- published values ----------

  lemma {:induction false} XorZero(x: nat)
    ensures BitXor(x, 0) == x
  {
    if x > 0 {
      XorZero(x / 2);
    }
  }

  lemma {:induction false} XorLow(a: nat, b: nat, c: nat, k: nat)
    requires b < Power2(k) && c < Power2(k)
    ensures BitXor(a * Power2(k) + b, c) == a * Power2(k) + BitXor(b, c)
    decreases k
  {
    if k == 0 {
      XorZero(a);
      assert a * Power2(0) + b == a;
    } else {
      var half := a * Power2(k - 1);
      assert a * Power2(k) == 2 * half;
      assert (a * Power2(k) + b) / 2 == half + b / 2 && (a * Power2(k) + b) % 2 == b % 2;
      XorLow(a, b / 2, c / 2, k - 1);
    }
  }

  lemma XorLowByte(a: nat, b: nat, c: nat)
    requires b < 256 && c < 256
    ensures BitXor(a * 256 + b, c) == a * 256 + BitXor(b, c)
  {
    assert Power2(8) == 256;
    XorLow(a, b, c, 8);
  }

  lemma Byte197And97()
    ensures BitXor(197, 97) == 164
  {
    assert BitXor(1, 0) == 1;
    assert BitXor(3, 1) == 2;
    assert BitXor(6, 3) == 5;
    assert BitXor(12, 6) == 10;
    assert BitXor(24, 12) == 20;
    assert BitXor(49, 24) == 41;
    assert BitXor(98, 48) == 82;
  }

  lemma Byte197And102()
    ensures BitXor(197, 102) == 163
  {
    assert BitXor(1, 0) == 1;
    assert BitXor(3, 1) == 2;
    assert BitXor(6, 3) == 5;
    assert BitXor(12, 6) == 10;
    assert BitXor(24, 12) == 20;
    assert BitXor(49, 25) == 40;
    assert BitXor(98, 51) == 81;
  }

  lemma Byte153And111()
    ensures BitXor(153, 111) == 246
  {
    assert BitXor(1, 0) == 1;
    assert BitXor(2, 1) == 3;
    assert BitXor(4, 3) == 7;
    assert BitXor(9, 6) == 15;
    assert BitXor(19, 13) == 30;
    assert BitXor(38, 27) == 61;
    assert BitXor(76, 55) == 123;
  }

  lemma XorVectors()
    ensures BitXor(0x811c9dc5, 97) == 2166136228
    ensures BitXor(0x811c9dc5, 102) == 2166136227
    ensures BitXor(3809224601, 111) == 3809224694
  {
    hide BitXor;
    Byte197And97();
    Byte197And102();
    Byte153And111();
    XorLowByte(8461469, 197, 97);
    XorLowByte(8461469, 197, 102);
    XorLowByte(14879783, 153, 111);
  }

  /** Test vectors of FNV-1a on 32 bits. */
  lemma FnvVectors()
    ensures Fnv("") == 0x811c9dc5 && Fnv("a") == 0xe40c292c && Fnv("fo") == 0x6222e842
  {
    hide BitXor;
    XorVectors();
    assert "a"[..0] == "" && "fo"[..1] == "f" && "f"[..0] == "";
    assert Fnv("f") == 3809224601;
  }

  /** The rolling hash is that of Java strings. */
  lemma RollingVectors()
    ensures Polynomial("") == 0 && Polynomial("a") == 97 && Polynomial("ab") == 3105
    ensures ToInt32(0x7fff_ffff) == 0x7fff_ffff && ToInt32(0x8000_0000) == -0x8000_0000 && ToInt32(0x1_0000_0005) == 5
  {
    assert "a"[..0] == "" && "ab"[..1] == "a";
  }

  /** Hexadecimal digits are small letters. */
  lemma HexVectors()
    ensures Hex(0) == "0" && Hex(10) == "a" && Hex(255) == "ff" && Pad("fffffff") == "0fffffff"
  {
    assert Hex(15) == "f";
    assert ['0'] + "fffffff" == "0fffffff";
  }
}
