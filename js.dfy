/** The parts of the JavaScript runtime the scanner relies on: string
    splitting, joining and trimming, `parseInt` with radix 10, `Number()` on
    strings, number-to-string conversion, and the 32-bit conversions that
    the bitwise operators apply (ToInt32 / ToUint32). */
module Js {

  /** A JavaScript number. Only integers and NaN are represented. */
  datatype JsNumber = NaN | Int(val: int)

  const TwoTo32: int := 0x1_0000_0000

  // ---------------------------------------------------------------------
  // 32-bit conversions and the bitwise operators
  // ---------------------------------------------------------------------

  function Pow2(k: nat): (r: nat)
    ensures r >= 1
  {
    if k == 0 then 1 else 2 * Pow2(k - 1)
  }

  /** ToUint32: the 32 low bits of an integer, read as unsigned. */
  function ToUint32(n: int): (r: nat)
    ensures r < TwoTo32
    ensures 0 <= n < TwoTo32 ==> r == n
  {
    n % TwoTo32
  }

  /** ToInt32: the 32 low bits of an integer, read as two's complement. */
  function ToInt32(n: int): (r: int)
    ensures -0x8000_0000 <= r < 0x8000_0000
    ensures ToUint32(r) == ToUint32(n)
    ensures -0x8000_0000 <= n < 0x8000_0000 ==> r == n
    ensures r < 0 <==> ToUint32(n) >= 0x8000_0000
  {
    var u := ToUint32(n);
    if u < 0x8000_0000 then u else u - TwoTo32
  }

  /** The integer a bitwise operator reads from a number (ToInt32 turns NaN into 0). */
  function BitOperand(n: JsNumber): int
  {
    match n
    case NaN => 0
    case Int(v) => v
  }

  /** Bitwise or of the `w` low bits of two naturals. */
  function BitOr(a: nat, b: nat, w: nat): (r: nat)
    ensures r < Pow2(w)
  {
    if w == 0 then 0
    else 2 * BitOr(a / 2, b / 2, w - 1) + (if a % 2 == 1 || b % 2 == 1 then 1 else 0)
  }

  /** Bitwise and of the `w` low bits of two naturals. */
  function BitAnd(a: nat, b: nat, w: nat): (r: nat)
    ensures r < Pow2(w)
  {
    if w == 0 then 0
    else 2 * BitAnd(a / 2, b / 2, w - 1) + (if a % 2 == 1 && b % 2 == 1 then 1 else 0)
  }

  /** The 32-bit pattern `u` shifted left by `k` bits; the bits pushed past bit 31 are lost. */
  function ShiftBits(u: nat, k: nat): (r: nat)
    ensures r < TwoTo32
    decreases k
  {
    if k == 0 then u % TwoTo32 else ShiftBits((2 * u) % TwoTo32, k - 1)
  }

  /** `a << b`: the shift count is taken modulo 32 and the result wraps to a signed 32-bit value. */
  function ShiftLeft(a: int, b: int): int
  {
    ToInt32(ShiftBits(ToUint32(a), ToUint32(b) % 32))
  }

  /** `u` shifted right by `k` bits; the low bits are lost. */
  function ShiftRightBits(u: nat, k: nat): nat
    decreases k
  {
    if k == 0 then u else ShiftRightBits(u / 2, k - 1)
  }

  /** `a >>> b`: an unsigned shift of the 32-bit pattern of `a`. */
  function ShiftRightUnsigned(a: int, b: int): nat
  {
    ShiftRightBits(ToUint32(a), ToUint32(b) % 32)
  }

  /** `a | b` */
  function Or(a: int, b: int): int
  {
    ToInt32(BitOr(ToUint32(a), ToUint32(b), 32))
  }

  /** `a & b` */
  function And(a: int, b: int): int
  {
    ToInt32(BitAnd(ToUint32(a), ToUint32(b), 32))
  }

  /** `~a` */
  function Not(a: int): int
  {
    ToInt32(TwoTo32 - 1 - ToUint32(a))
  }

  lemma Pow2Add(j: nat, k: nat)
    ensures Pow2(j + k) == Pow2(j) * Pow2(k)
  {
    if j > 0 {
      Pow2Add(j - 1, k);
    }
  }

  lemma Pow2Of32()
    ensures Pow2(32) == TwoTo32
  {
    Pow2Values();
  }

  lemma Pow2Values()
    ensures Pow2(8) == 256 && Pow2(16) == 65536 && Pow2(24) == 16777216
    ensures Pow2(31) == 0x8000_0000 && Pow2(32) == TwoTo32
  {
    assert Pow2(8) == 256;
    Pow2Add(8, 8);
    Pow2Add(16, 8);
    Pow2Add(24, 7);
    Pow2Add(31, 1);
  }

  /** Or with 0 keeps the `w` low bits. */
  lemma {:induction false} BitOrZero(a: nat, w: nat)
    requires a < Pow2(w)
    ensures BitOr(a, 0, w) == a
  {
    if w > 0 {
      BitOrZero(a / 2, w - 1);
    }
  }

  /** Or of a multiple of 2^k with a number below 2^k is their sum. */
  lemma {:induction false} BitOrDisjoint(m: nat, y: nat, k: nat, w: nat)
    requires y < Pow2(k) && m * Pow2(k) + y < Pow2(w)
    ensures BitOr(m * Pow2(k), y, w) == m * Pow2(k) + y
    decreases w
  {
    var x := m * Pow2(k);
    if k == 0 {
      assert y == 0;
      BitOrZero(x, w);
    } else if w == 0 {
    } else {
      assert x == 2 * (m * Pow2(k - 1));
      assert x / 2 == m * Pow2(k - 1) && x % 2 == 0;
      assert (x + y) / 2 == m * Pow2(k - 1) + y / 2;
      BitOrDisjoint(m, y / 2, k - 1, w - 1);
    }
  }

  /** The `k` low bits of `a`, bit by bit. */
  function LowBits(a: nat, k: nat): nat
  {
    if k == 0 then 0 else 2 * LowBits(a / 2, k - 1) + a % 2
  }

  lemma {:induction false} BitAndLowBits(a: nat, k: nat, w: nat)
    requires k <= w
    ensures BitAnd(a, Pow2(k) - 1, w) == LowBits(a, k)
    decreases w
  {
    if k == 0 {
      BitAndZero(a, w);
    } else {
      var m := Pow2(k) - 1;
      assert m == 2 * (Pow2(k - 1) - 1) + 1;
      assert m / 2 == Pow2(k - 1) - 1 && m % 2 == 1;
      BitAndLowBits(a / 2, k - 1, w - 1);
    }
  }

  lemma {:induction false} LowBitsMod(a: nat, k: nat)
    ensures LowBits(a, k) == a % Pow2(k)
  {
    if k > 0 {
      LowBitsMod(a / 2, k - 1);
      ModHalf(a, Pow2(k - 1), Pow2(k));
    }
  }

  /** And with the mask of the `k` low bits keeps `a mod 2^k`. */
  lemma BitAndLow(a: nat, k: nat, w: nat)
    requires k <= w
    ensures BitAnd(a, Pow2(k) - 1, w) == a % Pow2(k)
  {
    BitAndLowBits(a, k, w);
    LowBitsMod(a, k);
  }

  lemma {:induction false} BitAndZero(a: nat, w: nat)
    ensures BitAnd(a, 0, w) == 0
  {
    if w > 0 {
      BitAndZero(a / 2, w - 1);
    }
  }

  lemma DivModUnique(a: int, d: int, q: int, r: int)
    requires d > 0 && 0 <= r < d && a == q * d + r
    ensures a / d == q && a % d == r
  {
    var q0, r0 := a / d, a % d;
    assert a == q0 * d + r0;
    assert (q0 - q) * d == r - r0;
    if q0 > q {
      MulAtLeast(q0 - q, d);
    } else if q0 < q {
      MulAtLeast(q - q0, d);
    }
  }

  /** Euclidean division of a natural number: a natural quotient and a remainder below the divisor. */
  lemma DivParts(b: nat, p: nat)
    requires p > 0
    ensures 0 <= b / p && 0 <= b % p < p && b == (b / p) * p + b % p
    ensures b % p <= b
  {
  }

  /** Shifting left by `k` bits multiplies by 2^k while nothing passes bit 31. */
  lemma {:induction false} ShiftBitsSmall(u: nat, k: nat)
    requires u * Pow2(k) < TwoTo32
    ensures ShiftBits(u, k) == u * Pow2(k)
    decreases k
  {
    if k == 0 {
      assert u * Pow2(k) == u;
    } else {
      var p := Pow2(k - 1);
      var v := 2 * u;
      assert Pow2(k) == 2 * p;
      assert u * Pow2(k) == v * p;
      MulLe(v, v, 1, p);
      assert v % TwoTo32 == v;
      assert ShiftBits(u, k) == ShiftBits(v, k - 1);
      ShiftBitsSmall(v, k - 1);
    }
  }

  /** Shifting the pattern with the bits `j` to 31 set by `k` more bits
      leaves the bits `j + k` to 31 set. */
  lemma {:induction false} ShiftBitsOnes(j: nat, k: nat)
    requires j + k <= 32
    ensures Pow2(j) <= TwoTo32 && Pow2(j + k) <= TwoTo32
    ensures ShiftBits(TwoTo32 - Pow2(j), k) == TwoTo32 - Pow2(j + k)
    decreases k
  {
    Pow2Of32();
    Pow2Mono(j, 32);
    Pow2Mono(j + k, 32);
    var u := TwoTo32 - Pow2(j);
    if k == 0 {
      assert u % TwoTo32 == u;
    } else {
      Pow2Mono(j + 1, 32);
      var v := TwoTo32 - Pow2(j + 1);
      assert Pow2(j + 1) == 2 * Pow2(j);
      assert 2 * u == TwoTo32 + v;
      assert (2 * u) % TwoTo32 == v by {
        Wrap(2 * u, v);
      }
      assert ShiftBits(u, k) == ShiftBits(v, k - 1);
      ShiftBitsOnes(j + 1, k - 1);
      assert j + 1 + (k - 1) == j + k;
    }
  }

  lemma Wrap(x: int, v: int)
    requires 0 <= v < TwoTo32 && x == TwoTo32 + v
    ensures x % TwoTo32 == v
  {
  }

  lemma DivDiv(x: nat, a: nat, b: nat)
    requires a > 0 && b > 0
    ensures x / (a * b) == (x / a) / b
  {
    var q := (x / a) / b;
    var r := (x / a) % b;
    assert x / a == b * q + r;
    assert x == a * (x / a) + x % a;
    assert x == (a * b) * q + (a * r + x % a);
    assert a * r + x % a < a * b by {
      assert r <= b - 1;
      assert a * r <= a * (b - 1);
    }
    DivModUnique(x, a * b, q, a * r + x % a);
  }

  /** Shifting right by `k` bits divides by 2^k. */
  lemma {:induction false} ShiftRightBitsValue(u: nat, k: nat)
    ensures ShiftRightBits(u, k) == u / Pow2(k)
    decreases k
  {
    if k > 0 {
      ShiftRightBitsValue(u / 2, k - 1);
      DivDiv(u, 2, Pow2(k - 1));
    }
  }

  lemma MulLe(a: nat, b: nat, c: nat, d: nat)
    requires a <= b && c <= d
    ensures a * c <= b * d
  {
    assert a * c <= b * c;
    assert b * c <= b * d;
  }

  lemma MulAtLeast(t: int, d: int)
    requires t >= 1 && d > 0
    ensures t * d >= d
  {
  }

  lemma ModHalf(a: nat, p: nat, twoP: nat)
    requires p >= 1 && twoP == 2 * p
    ensures a % twoP == 2 * ((a / 2) % p) + a % 2
  {
    var q := (a / 2) / p;
    var r := (a / 2) % p;
    assert a / 2 == q * p + r;
    assert a == q * (2 * p) + (2 * r + a % 2);
    DivModUnique(a, twoP, q, 2 * r + a % 2);
  }

  lemma {:induction false} Pow2Mono(k: nat, w: nat)
    requires k <= w
    ensures Pow2(k) <= Pow2(w)
  {
    if k < w {
      Pow2Mono(k, w - 1);
    }
  }

  /** The mask of the bits from `k` to `w - 1`. */
  function HighMask(k: nat, w: nat): nat
    requires k <= w
  {
    Pow2Mono(k, w);
    Pow2(w) - Pow2(k)
  }

  lemma {:induction false} BitAndHighBits(a: nat, k: nat, w: nat)
    requires k <= w && a < Pow2(w)
    ensures BitAnd(a, HighMask(k, w), w) == a - LowBits(a, k)
    decreases w
  {
    if k == 0 {
      BitAndLowBits(a, w, w);
      LowBitsMod(a, w);
      DivModUnique(a, Pow2(w), 0, a);
    } else {
      var h := HighMask(k, w);
      assert h == 2 * HighMask(k - 1, w - 1);
      assert h / 2 == HighMask(k - 1, w - 1) && h % 2 == 0;
      BitAndHighBits(a / 2, k - 1, w - 1);
    }
  }

  /** And with the mask of all but the `k` low bits clears them. */
  lemma BitAndHigh(a: nat, k: nat, w: nat)
    requires k <= w && a < Pow2(w)
    ensures BitAnd(a, HighMask(k, w), w) == a - a % Pow2(k)
  {
    BitAndHighBits(a, k, w);
    LowBitsMod(a, k);
  }

  // ---------------------------------------------------------------------
  // The operators on the values the scanner gives them
  // ---------------------------------------------------------------------

  /** `a << k` of a value that stays below bit 32 is `a * 2^k` (as a 32-bit pattern). */
  lemma ShiftLeftSmall(a: nat, k: nat, p: nat)
    requires k < 32 && p == Pow2(k) && a * p < TwoTo32
    ensures ToUint32(ShiftLeft(a, k)) == a * p
  {
    MulLe(a, a, 1, p);
    assert ToUint32(a) == a;
    assert ToUint32(k) % 32 == k;
    ShiftBitsSmall(a, k);
  }

  /** `0xffffffff << s` read unsigned: the bits from `s mod 32` up are set. */
  lemma ShiftLeftOnes(s: int)
    ensures ToUint32(ShiftLeft(0xffffffff, s)) == TwoTo32 - Pow2(ToUint32(s) % 32)
  {
    var k := ToUint32(s) % 32;
    assert ToUint32(0xffffffff) == TwoTo32 - Pow2(0);
    ShiftBitsOnes(0, k);
  }

  /** `a >>> k` is the 32-bit pattern of `a` divided by 2^k. */
  lemma ShiftRightValue(a: int, k: nat, p: nat)
    requires k < 32 && p == Pow2(k)
    ensures ShiftRightUnsigned(a, k) == ToUint32(a) / p
    ensures ShiftRightUnsigned(a, k) <= ToUint32(a)
  {
    var x := ToUint32(a);
    assert ToUint32(k) % 32 == k;
    ShiftRightBitsValue(x, k);
    DivParts(x, p);
    MulLe(x / p, x / p, 1, p);
  }

  /** `a & 0xff` is the low byte of the 32-bit pattern of `a`. */
  lemma AndLowByte(a: int)
    ensures And(a, 0xff) == ToUint32(a) % 256
  {
    Pow2Values();
    assert ToUint32(0xff) == Pow2(8) - 1;
    BitAndLow(ToUint32(a), 8, 32);
  }

  /** `a & m` where `m` keeps the bits from `k` up clears the `k` low bits. */
  lemma AndHighMask(a: int, m: int, k: nat)
    requires k <= 32 && ToUint32(m) == HighMask(k, 32)
    ensures ToUint32(And(a, m)) == ToUint32(a) - ToUint32(a) % Pow2(k)
  {
    Pow2Of32();
    BitAndHigh(ToUint32(a), k, 32);
  }

  /** `x | y` where `x` has no bit below `k` and `y` none from `k` up is their sum. */
  lemma OrDisjoint(x: int, y: int, m: nat, k: nat, p: nat)
    requires k <= 32 && p == Pow2(k) && ToUint32(x) == m * p && ToUint32(y) < p
    requires m * p + ToUint32(y) < TwoTo32
    ensures Or(x, y) == ToInt32(m * p + ToUint32(y))
  {
    Pow2Of32();
    BitOrDisjoint(m, ToUint32(y), k, 32);
  }

  // ---------------------------------------------------------------------
  // Characters
  // ---------------------------------------------------------------------

  predicate IsDigit(c: char) { '0' <= c <= '9' }

  function DigitValue(c: char): nat
    requires IsDigit(c)
  {
    c as int - '0' as int
  }

  function DigitChar(d: nat): (c: char)
    requires d < 10
    ensures IsDigit(c) && DigitValue(c) == d
  {
    ('0' as int + d) as char
  }

  predicate IsHexDigit(c: char)
  {
    IsDigit(c) || 'a' <= c <= 'f' || 'A' <= c <= 'F'
  }

  /** The white space and line terminators removed by `trim` and skipped by
      `parseInt` and `Number()`. */
  predicate IsJsSpace(c: char)
  {
    c == ' ' || c == '\t' || c == '\n' || c == '\r' || c == '\U{000B}' || c == '\U{000C}'
    || c == '\U{00A0}' || c == '\U{FEFF}' || c == '\U{1680}'
    || ('\U{2000}' <= c <= '\U{200A}') || c == '\U{2028}' || c == '\U{2029}'
    || c == '\U{202F}' || c == '\U{205F}' || c == '\U{3000}'
  }

  /** `toLowerCase` on the ASCII letters. */
  function LowerChar(c: char): char
  {
    if 'A' <= c <= 'Z' then (c as int + 32) as char else c
  }

  /** `toUpperCase` on the ASCII letters. */
  function UpperChar(c: char): char
  {
    if 'a' <= c <= 'z' then (c as int - 32) as char else c
  }

  function ToLower(s: string): (r: string)
    ensures |r| == |s|
    ensures forall i :: 0 <= i < |s| ==> r[i] == LowerChar(s[i])
  {
    if s == [] then [] else [LowerChar(s[0])] + ToLower(s[1..])
  }

  function ToUpper(s: string): (r: string)
    ensures |r| == |s|
    ensures forall i :: 0 <= i < |s| ==> r[i] == UpperChar(s[i])
  {
    if s == [] then [] else [UpperChar(s[0])] + ToUpper(s[1..])
  }

  // ---------------------------------------------------------------------
  // Arrays
  // ---------------------------------------------------------------------

  /** `s.every(f)`, checked from the front. */
  predicate Every<T>(s: seq<T>, f: T -> bool)
  {
    s == [] || (f(s[0]) && Every(s[1..], f))
  }

  /** `every` holds exactly when each element passes. */
  lemma {:induction false} EveryAll<T>(s: seq<T>, f: T -> bool)
    ensures Every(s, f) <==> forall k :: 0 <= k < |s| ==> f(s[k])
  {
    if s != [] {
      EveryAll(s[1..], f);
      assert forall k :: 1 <= k < |s| ==> s[k] == s[1..][k - 1];
    }
  }

  // ---------------------------------------------------------------------
  // Substrings, split and join
  // ---------------------------------------------------------------------

  /** `s.includes(sub)`. */
  predicate Contains(s: string, sub: string)
    decreases |s|
  {
    sub <= s || (s != [] && Contains(s[1..], sub))
  }

  /** The first index of `c` in `s`. */
  function IndexOf(s: string, c: char): (i: nat)
    requires c in s
    ensures i < |s| && s[i] == c && c !in s[..i]
  {
    if s[0] == c then 0 else 1 + IndexOf(s[1..], c)
  }

  /** `s.split(sep)` for a one-character separator. */
  function Split(s: string, sep: char): (parts: seq<string>)
    ensures |parts| >= 1
    ensures sep in s ==> |parts| >= 2
    ensures forall k :: 0 <= k < |parts| ==> sep !in parts[k]
    decreases |s|
  {
    if sep !in s then [s]
    else
      var i := IndexOf(s, sep);
      [s[..i]] + Split(s[i + 1..], sep)
  }

  /** `parts.join(sep)`. */
  function Join(parts: seq<string>, sep: string): string
  {
    if parts == [] then ""
    else if |parts| == 1 then parts[0]
    else parts[0] + sep + Join(parts[1..], sep)
  }

  /** The first separator of `a + [c] + b`, when `a` holds none, is right after `a`. */
  lemma {:induction false} IndexOfAfter(a: string, c: char, b: string)
    requires c !in a
    ensures IndexOf(a + [c] + b, c) == |a|
  {
    if a != [] {
      assert (a + [c] + b)[1..] == a[1..] + [c] + b;
      IndexOfAfter(a[1..], c, b);
    }
  }

  /** Splitting a joined list gives the list back, when no part holds the
      separator. */
  lemma {:induction false} SplitJoin(parts: seq<string>, sep: char)
    requires |parts| >= 1
    requires forall k :: 0 <= k < |parts| ==> sep !in parts[k]
    ensures Split(Join(parts, [sep]), sep) == parts
  {
    if |parts| > 1 {
      var rest := Join(parts[1..], [sep]);
      var s := parts[0] + [sep] + rest;
      assert Join(parts, [sep]) == s;
      IndexOfAfter(parts[0], sep, rest);
      assert s[..|parts[0]|] == parts[0];
      assert s[|parts[0]| + 1..] == rest;
      SplitJoin(parts[1..], sep);
    }
  }

  /** Joining the parts of a split gives the string back. */
  lemma {:induction false} JoinSplit(s: string, sep: char)
    ensures Join(Split(s, sep), [sep]) == s
    decreases |s|
  {
    if sep in s {
      var i := IndexOf(s, sep);
      JoinSplit(s[i + 1..], sep);
      assert s == s[..i] + [sep] + s[i + 1..];
    }
  }

  /** `trim`: white space removed at both ends. */
  function TrimStart(s: string): (r: string)
    ensures |r| <= |s| && r == s[|s| - |r|..]
    ensures r == [] || !IsJsSpace(r[0])
  {
    if s != [] && IsJsSpace(s[0]) then TrimStart(s[1..]) else s
  }

  function TrimEnd(s: string): (r: string)
    ensures |r| <= |s| && r == s[..|r|]
    ensures r == [] || !IsJsSpace(r[|r| - 1])
  {
    if s != [] && IsJsSpace(s[|s| - 1]) then TrimEnd(s[..|s| - 1]) else s
  }

  function Trim(s: string): (r: string)
    ensures |r| <= |s|
    ensures r == [] || (!IsJsSpace(r[0]) && !IsJsSpace(r[|r| - 1]))
  {
    TrimEnd(TrimStart(s))
  }

  /** A string without white space at either end is its own trim. */
  lemma TrimNoSpace(s: string)
    requires s == [] || (!IsJsSpace(s[0]) && !IsJsSpace(s[|s| - 1]))
    ensures Trim(s) == s
  {
  }

  // ---------------------------------------------------------------------
  // Numbers and digit strings
  // ---------------------------------------------------------------------

  predicate AllDigits(s: string)
  {
    forall i :: 0 <= i < |s| ==> IsDigit(s[i])
  }

  /** The value of a string of decimal digits. */
  function DigitsValue(s: string): nat
    requires AllDigits(s)
  {
    if s == [] then 0 else 10 * DigitsValue(s[..|s| - 1]) + DigitValue(s[|s| - 1])
  }

  /** The decimal representation of a natural number, as `String(n)` gives it. */
  function NatToString(n: nat): (s: string)
    ensures |s| >= 1 && AllDigits(s)
    ensures |s| > 1 ==> s[0] != '0'
  {
    if n < 10 then [DigitChar(n)] else NatToString(n / 10) + [DigitChar(n % 10)]
  }

  /** `String(n)` for an integer. */
  function IntToString(n: int): string
  {
    if n < 0 then "-" + NatToString(-n) else NatToString(n)
  }

  lemma {:induction false} DigitsOfNat(n: nat)
    ensures DigitsValue(NatToString(n)) == n
  {
    if n >= 10 {
      DigitsOfNat(n / 10);
      var s := NatToString(n);
      assert s[..|s| - 1] == NatToString(n / 10);
    }
  }

  /** The longest prefix of decimal digits. */
  function DigitPrefix(s: string): (p: string)
    ensures AllDigits(p) && |p| <= |s| && p == s[..|p|]
    ensures |p| < |s| ==> !IsDigit(s[|p|])
  {
    if s != [] && IsDigit(s[0]) then [s[0]] + DigitPrefix(s[1..]) else []
  }

  lemma DigitPrefixAll(s: string)
    requires AllDigits(s)
    ensures DigitPrefix(s) == s
  {
  }

  /** `parseInt(s, 10)`: leading white space is skipped, an optional sign is
      read, then the longest run of decimal digits; no digits gives NaN. */
  function ParseInt(s: string): JsNumber
  {
    var t := TrimStart(s);
    var neg := t != [] && t[0] == '-';
    var body := if t != [] && (t[0] == '-' || t[0] == '+') then t[1..] else t;
    var digits := DigitPrefix(body);
    if digits == [] then NaN
    else if neg then Int(-(DigitsValue(digits) as int))
    else Int(DigitsValue(digits))
  }

  /** One digit, `e` and one digit give the integer `m * 10^e`. */
  lemma NumberOfOneDigitExponent(p: string)
    requires |p| == 3 && IsDigit(p[0]) && p[1] == 'e' && IsDigit(p[2])
    ensures NumericOperand(NumberOfString(p)) == DigitValue(p[0]) * Pow10(DigitValue(p[2]))
  {
    OneDigitValue(p[0]);
    OneDigitValue(p[2]);
    assert p == [p[0]] + "e" + [p[2]];
    NumberOfExponent([p[0]], [p[2]]);
  }

  /** A one-digit text has the digit's value. */
  lemma OneDigitValue(c: char)
    requires IsDigit(c)
    ensures DigitsValue([c]) == DigitValue(c)
  {
    assert [c][..0] == [];
  }

  /** A text whose first character is a digit and whose second is not is
      read by `parseInt` as that one digit. */
  lemma ParseIntOneDigit(s: string)
    requires |s| >= 2 && IsDigit(s[0]) && !IsDigit(s[1])
    ensures ParseInt(s) == Int(DigitValue(s[0]))
  {
    assert !IsJsSpace(s[0]);
    assert TrimStart(s) == s;
    assert DigitPrefix(s[1..]) == [];
    assert DigitPrefix(s) == [s[0]];
    assert [s[0]][..0] == [];
    assert DigitsValue([s[0]]) == DigitValue(s[0]);
    assert s[0] != '-' && s[0] != '+';
  }

  lemma ParseIntOfNat(n: nat)
    ensures ParseInt(NatToString(n)) == Int(n)
  {
    var s := NatToString(n);
    DigitPrefixAll(s);
    DigitsOfNat(n);
  }

  lemma ParseIntOfInt(n: int)
    ensures ParseInt(IntToString(n)) == Int(n)
  {
    if n >= 0 {
      ParseIntOfNat(n);
    } else {
      ParseIntNegative(NatToString(-n));
      DigitsOfNat(-n);
    }
  }

  /** A minus sign before a run of digits negates their value. */
  lemma {:induction false} ParseIntNegative(s: string)
    requires s != [] && AllDigits(s)
    ensures ParseInt("-" + s) == Int(-(DigitsValue(s) as int))
  {
    var t := "-" + s;
    assert !IsJsSpace(t[0]);
    assert TrimStart(t) == t;
    assert t[1..] == s;
    DigitPrefixAll(s);
  }

  // ---------------------------------------------------------------------
  // Number() on strings
  // ---------------------------------------------------------------------

  /** What `Number()` reads from a string, held exactly: NaN, an infinity,
      or the finite value `mantissa * 10^exponent`. */
  datatype NumericValue = NotNumeric | Infinite(negative: bool) | Decimal(mantissa: int, exponent: int)

  function Pow10(k: nat): (r: nat)
    ensures r >= 1
  {
    if k == 0 then 1 else 10 * Pow10(k - 1)
  }

  /** The value of a digit of radix 2, 8, 10 or 16; 16 for any other character. */
  function RadixDigit(c: char): nat
  {
    if IsDigit(c) then DigitValue(c)
    else if 'a' <= c <= 'f' then c as int - 'a' as int + 10
    else if 'A' <= c <= 'F' then c as int - 'A' as int + 10
    else 16
  }

  predicate AllRadixDigits(s: string, radix: nat)
  {
    forall i :: 0 <= i < |s| ==> RadixDigit(s[i]) < radix
  }

  /** The value of a string of digits of the given radix. */
  function RadixValue(s: string, radix: nat): nat
    requires AllRadixDigits(s, radix)
  {
    if s == [] then 0 else radix * RadixValue(s[..|s| - 1], radix) + RadixDigit(s[|s| - 1])
  }

  /** The radix named by the letter after a leading `0`: `0x`, `0o`, `0b`
      (either case); 0 for any other letter. */
  function RadixOfMark(c: char): nat
  {
    if c == 'x' || c == 'X' then 16
    else if c == 'o' || c == 'O' then 8
    else if c == 'b' || c == 'B' then 2
    else 0
  }

  /** The position of the first exponent mark `e` or `E`, or `|s|` when there is none. */
  function ExponentMark(s: string): (i: nat)
    ensures i <= |s|
    ensures forall k :: 0 <= k < i ==> s[k] != 'e' && s[k] != 'E'
    ensures i < |s| ==> s[i] == 'e' || s[i] == 'E'
  {
    if s == [] || s[0] == 'e' || s[0] == 'E' then 0 else 1 + ExponentMark(s[1..])
  }

  /** The digits before the `.` of a mantissa (all of it when there is no `.`). */
  function WholeDigits(mant: string): string
  {
    if '.' in mant then mant[..IndexOf(mant, '.')] else mant
  }

  /** The digits after the `.` of a mantissa (none when there is no `.`). */
  function FractionDigits(mant: string): string
  {
    if '.' in mant then mant[IndexOf(mant, '.') + 1..] else []
  }

  /** Digits with at most one `.`, and at least one digit. */
  predicate IsMantissa(mant: string)
  {
    AllDigits(WholeDigits(mant)) && AllDigits(FractionDigits(mant)) &&
    |WholeDigits(mant)| + |FractionDigits(mant)| > 0
  }

  /** The digits of an exponent, after its optional sign. */
  function ExponentDigits(x: string): string
  {
    if x != [] && (x[0] == '+' || x[0] == '-') then x[1..] else x
  }

  /** An optional sign and at least one digit. */
  predicate IsExponent(x: string)
  {
    ExponentDigits(x) != [] && AllDigits(ExponentDigits(x))
  }

  function ExponentOf(x: string): int
    requires IsExponent(x)
  {
    if x[0] == '-' then -(DigitsValue(ExponentDigits(x)) as int) else DigitsValue(ExponentDigits(x))
  }

  /** An unsigned decimal literal: a mantissa, then optionally `e` or `E`
      and an exponent. Its value is the mantissa's digits scaled by ten to
      the exponent less the number of fraction digits. */
  function UnsignedDecimal(s: string): (r: NumericValue)
    ensures !r.Infinite?
  {
    var m := ExponentMark(s);
    var mant := s[..m];
    if !IsMantissa(mant) then NotNumeric
    else if m < |s| && !IsExponent(s[m + 1..]) then NotNumeric
    else
      var whole, frac := WholeDigits(mant), FractionDigits(mant);
      assert AllDigits(whole + frac);
      var e := if m < |s| then ExponentOf(s[m + 1..]) else 0;
      Decimal(DigitsValue(whole + frac), e - |frac|)
  }

  /** `Number(s)` on a string (StringToNumber): the text is trimmed; empty
      text is 0; `0x`, `0o` or `0b` introduces an unsigned integer of that
      radix; otherwise an optional sign precedes `Infinity` or a decimal
      literal. Any other text is NaN. */
  function NumberOfString(s: string): NumericValue
  {
    var t := Trim(s);
    if t == [] then Decimal(0, 0)
    else if |t| > 2 && t[0] == '0' && RadixOfMark(t[1]) > 0 then RadixNumber(t[2..], RadixOfMark(t[1]))
    else SignedDecimal(t)
  }

  /** The digits after a radix prefix: an unsigned integer, or NaN. */
  function RadixNumber(digits: string, radix: nat): NumericValue
  {
    if AllRadixDigits(digits, radix) then Decimal(RadixValue(digits, radix), 0) else NotNumeric
  }

  /** An optional sign, then `Infinity` or an unsigned decimal literal. */
  function SignedDecimal(t: string): NumericValue
    requires t != []
  {
    var neg := t[0] == '-';
    var body := if t[0] == '-' || t[0] == '+' then t[1..] else t;
    if body == "Infinity" then Infinite(neg)
    else match UnsignedDecimal(body)
      case Decimal(m, e) => Decimal(if neg then -m else m, e)
      case _ => NotNumeric
  }

  /** The integer a bitwise operator reads from such a value before
      ToInt32: NaN and the infinities give 0, a finite value is truncated
      toward zero. */
  function NumericOperand(v: NumericValue): int
  {
    match v
    case NotNumeric => 0
    case Infinite(_) => 0
    case Decimal(m, e) =>
      if e >= 0 then m * Pow10(e)
      else if m >= 0 then m / Pow10(-e)
      else -((-m) / Pow10(-e))
  }

  /** A digit string is never an exponent, a fraction or a radix prefix. */
  lemma UnsignedDigits(s: string)
    requires s != [] && AllDigits(s)
    ensures UnsignedDecimal(s) == Decimal(DigitsValue(s), 0)
  {
    var m := ExponentMark(s);
    assert m == |s|;
    assert s[..m] == s;
    assert s + [] == s;
  }

  /** A digit string is its own trim. */
  lemma TrimDigits(s: string)
    requires s != [] && AllDigits(s)
    ensures Trim(s) == s
  {
    assert IsDigit(s[0]) && IsDigit(s[|s| - 1]);
    TrimNoSpace(s);
  }

  /** `Number()` reads a digit string as its decimal value. */
  lemma NumberOfDigits(s: string)
    requires s != [] && AllDigits(s)
    ensures NumberOfString(s) == Decimal(DigitsValue(s), 0)
  {
    TrimDigits(s);
    assert IsDigit(s[0]);
    assert |s| > 2 ==> IsDigit(s[1]) && RadixOfMark(s[1]) == 0;
    assert s != "Infinity" by {
      assert "Infinity"[0] == 'I';
    }
    UnsignedDigits(s);
  }

  lemma NumberOfNat(n: nat)
    ensures NumberOfString(NatToString(n)) == Decimal(n, 0)
  {
    NumberOfDigits(NatToString(n));
    DigitsOfNat(n);
  }

  /** `0x`, `0o` or `0b` followed by digits of that radix is read as an
      unsigned integer in that radix. */
  lemma NumberOfRadix(mark: char, digits: string)
    requires RadixOfMark(mark) > 0 && digits != [] && AllRadixDigits(digits, RadixOfMark(mark))
    ensures NumberOfString(['0', mark] + digits) == Decimal(RadixValue(digits, RadixOfMark(mark)), 0)
  {
    var s := ['0', mark] + digits;
    assert RadixDigit(s[|s| - 1]) < 16;
    TrimNoSpace(s);
    assert s[2..] == digits;
  }

  /** A radix prefix and two digits give `radix * d0 + d1`. */
  lemma NumberOfTwoRadixDigits(p: string)
    requires |p| == 4 && p[0] == '0' && RadixOfMark(p[1]) > 0
    requires RadixDigit(p[2]) < RadixOfMark(p[1]) && RadixDigit(p[3]) < RadixOfMark(p[1])
    ensures NumericOperand(NumberOfString(p)) == RadixOfMark(p[1]) * RadixDigit(p[2]) + RadixDigit(p[3])
  {
    var radix, digits := RadixOfMark(p[1]), p[2..];
    assert AllRadixDigits(digits, radix);
    NumberOfRadixText(p);
    TwoRadixDigits(digits, radix);
  }

  /** Text with a radix prefix reads as the value of its digits. */
  lemma NumberOfRadixText(p: string)
    requires |p| > 2 && p[0] == '0' && RadixOfMark(p[1]) > 0 && AllRadixDigits(p[2..], RadixOfMark(p[1]))
    ensures NumericOperand(NumberOfString(p)) == RadixValue(p[2..], RadixOfMark(p[1]))
  {
    assert p == ['0', p[1]] + p[2..];
    NumberOfRadix(p[1], p[2..]);
  }

  /** The value of two digits of a radix. */
  lemma TwoRadixDigits(d: string, radix: nat)
    requires |d| == 2 && AllRadixDigits(d, radix)
    ensures RadixValue(d, radix) == radix * RadixDigit(d[0]) + RadixDigit(d[1])
  {
    var first := d[..1];
    assert first[..0] == [];
    assert RadixValue(first, radix) == RadixDigit(d[0]) by {
      assert RadixValue(first, radix) == radix * RadixValue([], radix) + RadixDigit(first[0]);
    }
    assert RadixValue(d, radix) == radix * RadixValue(first, radix) + RadixDigit(d[1]);
  }

  /** The exponent mark of `whole + "e" + exp` is the one after the digits. */
  lemma ExponentMarkAfter(whole: string, exp: string)
    requires AllDigits(whole)
    ensures ExponentMark(whole + "e" + exp) == |whole|
  {
    var s := whole + "e" + exp;
    assert s[|whole|] == 'e';
  }

  /** Text that starts with a digit and ends with no white space is read
      as an unsigned decimal literal. */
  lemma NumberOfUnsigned(s: string)
    requires s != [] && IsDigit(s[0]) && !IsJsSpace(s[|s| - 1])
    requires |s| > 2 ==> RadixOfMark(s[1]) == 0
    ensures NumberOfString(s) == UnsignedDecimal(s)
  {
    assert !IsJsSpace(s[0]);
    TrimNoSpace(s);
    SignedDigit(s);
  }

  /** Without a sign, the literal is read as it stands. */
  lemma SignedDigit(s: string)
    requires s != [] && IsDigit(s[0])
    ensures SignedDecimal(s) == UnsignedDecimal(s)
  {
    assert s != "Infinity" by {
      assert "Infinity"[0] == 'I';
    }
  }

  /** A run of digits is a mantissa with no fraction. */
  lemma MantissaDigits(whole: string)
    requires whole != [] && AllDigits(whole)
    ensures IsMantissa(whole) && WholeDigits(whole) == whole && FractionDigits(whole) == []
  {
  }

  /** A run of digits is an exponent with that value. */
  lemma ExponentDigitsOf(exp: string)
    requires exp != [] && AllDigits(exp)
    ensures IsExponent(exp) && ExponentOf(exp) == DigitsValue(exp)
  {
    assert IsDigit(exp[0]);
  }

  /** Digits, `e` and digits give the integer `whole * 10^exp`. */
  lemma NumberOfExponent(whole: string, exp: string)
    requires whole != [] && AllDigits(whole) && exp != [] && AllDigits(exp)
    ensures NumberOfString(whole + "e" + exp) == Decimal(DigitsValue(whole), DigitsValue(exp))
    ensures NumericOperand(NumberOfString(whole + "e" + exp)) == DigitsValue(whole) * Pow10(DigitsValue(exp))
  {
    ExponentText(whole, exp);
    ExponentDecimal(whole, exp);
  }

  /** `whole + "e" + exp` is read as an unsigned decimal literal. */
  lemma ExponentText(whole: string, exp: string)
    requires whole != [] && AllDigits(whole) && exp != [] && AllDigits(exp)
    ensures NumberOfString(whole + "e" + exp) == UnsignedDecimal(whole + "e" + exp)
  {
    var s := whole + "e" + exp;
    assert IsDigit(s[0]) && IsDigit(s[|s| - 1]);
    assert |s| > 2 ==> s[1] == 'e' || IsDigit(s[1]);
    NumberOfUnsigned(s);
  }

  /** The literal `whole + "e" + exp` has mantissa `whole` and exponent `exp`. */
  lemma {:induction false} ExponentDecimal(whole: string, exp: string)
    requires whole != [] && AllDigits(whole) && exp != [] && AllDigits(exp)
    ensures UnsignedDecimal(whole + "e" + exp) == Decimal(DigitsValue(whole), DigitsValue(exp))
  {
    var s := whole + "e" + exp;
    var m := ExponentMark(s);
    assert m == |whole| && m < |s| && s[..m] == whole && s[m + 1..] == exp by {
      ExponentMarkAfter(whole, exp);
    }
    assert IsMantissa(whole) && WholeDigits(whole) == whole && FractionDigits(whole) == [] by {
      MantissaDigits(whole);
    }
    assert IsExponent(exp) && ExponentOf(exp) == DigitsValue(exp) by {
      ExponentDigitsOf(exp);
    }
    DecimalOfParts(s, whole, exp);
  }

  /** A literal whose mantissa is all whole digits and whose exponent is
      read as `e` has the value `whole * 10^e`. */
  lemma DecimalOfParts(s: string, whole: string, exp: string)
    requires ExponentMark(s) == |whole| < |s| && s[..|whole|] == whole && s[|whole| + 1..] == exp
    requires IsMantissa(whole) && WholeDigits(whole) == whole && FractionDigits(whole) == []
    requires AllDigits(exp) && IsExponent(exp) && ExponentOf(exp) == DigitsValue(exp)
    ensures UnsignedDecimal(s) == Decimal(DigitsValue(whole), DigitsValue(exp))
  {
    assert whole + [] == whole;
  }

  /** Digits, `.` and digits give a fraction, which the bitwise operators
      truncate to its whole part. */
  lemma NumberOfFraction(whole: string, frac: string)
    requires whole != [] && AllDigits(whole) && AllDigits(frac)
    ensures NumberOfString(whole + "." + frac) == Decimal(DigitsValue(whole + frac), -|frac|)
    ensures NumericOperand(NumberOfString(whole + "." + frac)) == DigitsValue(whole)
  {
    FractionText(whole, frac);
    FractionDecimal(whole, frac);
    FractionOperand(whole, frac);
  }

  /** As a shift operand, the fraction is truncated to its whole part. */
  lemma FractionOperand(whole: string, frac: string)
    requires AllDigits(whole) && AllDigits(frac)
    ensures AllDigits(whole + frac)
    ensures NumericOperand(Decimal(DigitsValue(whole + frac), -|frac|)) == DigitsValue(whole)
  {
    FractionTruncates(whole, frac);
    if frac == [] {
      assert whole + frac == whole;
    }
  }

  /** `whole + "." + frac` is read as an unsigned decimal literal. */
  lemma FractionText(whole: string, frac: string)
    requires whole != [] && AllDigits(whole) && AllDigits(frac)
    ensures NumberOfString(whole + "." + frac) == UnsignedDecimal(whole + "." + frac)
  {
    var s := whole + "." + frac;
    assert IsDigit(s[0]);
    assert s[|s| - 1] == '.' || IsDigit(s[|s| - 1]);
    assert |s| > 2 ==> s[1] == '.' || IsDigit(s[1]);
    NumberOfUnsigned(s);
  }

  /** The literal `whole + "." + frac` has the digits of both parts and
      `|frac|` places after the point. */
  lemma FractionDecimal(whole: string, frac: string)
    requires whole != [] && AllDigits(whole) && AllDigits(frac)
    ensures AllDigits(whole + frac)
    ensures UnsignedDecimal(whole + "." + frac) == Decimal(DigitsValue(whole + frac), -|frac|)
  {
    FractionMark(whole, frac);
    FractionParts(whole, frac);
  }

  /** A fraction has no exponent mark. */
  lemma FractionMark(whole: string, frac: string)
    requires AllDigits(whole) && AllDigits(frac)
    ensures ExponentMark(whole + "." + frac) == |whole + "." + frac|
  {
  }

  /** The `.` of a fraction splits it into its whole and fraction digits. */
  lemma FractionParts(whole: string, frac: string)
    requires whole != [] && AllDigits(whole) && AllDigits(frac)
    ensures var s := whole + "." + frac;
      s[..|s|] == s && IsMantissa(s) && WholeDigits(s) == whole && FractionDigits(s) == frac
  {
    var s := whole + "." + frac;
    MantissaDigits(whole);
    IndexOfAfter(whole, '.', frac);
    assert s[..|whole|] == whole;
    assert s[|whole| + 1..] == frac;
  }

  /** Dropping the fraction digits of `whole + frac` leaves `whole`. */
  lemma {:induction false} FractionTruncates(whole: string, frac: string)
    requires AllDigits(whole) && AllDigits(frac)
    ensures AllDigits(whole + frac)
    ensures DigitsValue(whole + frac) / Pow10(|frac|) == DigitsValue(whole)
  {
    if frac == [] {
      assert whole + frac == whole;
    } else {
      var f := frac[..|frac| - 1];
      var d := DigitValue(frac[|frac| - 1]);
      FractionTruncates(whole, f);
      assert (whole + frac)[..|whole + frac| - 1] == whole + f;
      var v := DigitsValue(whole + f);
      assert DigitsValue(whole + frac) == 10 * v + d;
      assert Pow10(|frac|) == 10 * Pow10(|f|);
      DivTen(v, d, Pow10(|f|));
    }
  }

  /** `(10 v + d) / 10p == v / p` for a digit `d`. */
  lemma DivTen(v: nat, d: nat, p: nat)
    requires d < 10 && p >= 1
    ensures (10 * v + d) / (10 * p) == v / p
  {
    var q := v / p;
    var r := v % p;
    DivParts(v, p);
    assert 10 * (q * p) == q * (10 * p);
    DivModUnique(10 * v + d, 10 * p, q, 10 * r + d);
  }

  /** On a run of decimal digits `Number()` and `parseInt` agree. */
  lemma NumberAgreesWithParseInt(s: string)
    requires s != [] && AllDigits(s)
    ensures NumericOperand(NumberOfString(s)) == ParseInt(s).val
  {
    TrimDigits(s);
    assert TrimStart(s) == s;
    DigitPrefixAll(s);
    NumberOfDigits(s);
  }
}
