/** `get_sdk_version`: the packed 32-bit version word split into four bytes, most significant
    first, and rendered as `V<a>.<b>.<c>.<d>`. */
module Version {
  import opened Numerals

  const Word := 0x1_0000_0000

  datatype Components = Components(a: nat, b: nat, c: nat, d: nat)

  /** Python's `x >> 8*k` for any int (floor division by a power of two; Dafny's `/` agrees
      with it for a positive divisor, negative `x` included). */
  function ShiftRight(x: int, bytes: nat): int
    requires bytes <= 3
  {
    if bytes == 0 then x else if bytes == 1 then x / 0x100
    else if bytes == 2 then x / 0x1_0000 else x / 0x100_0000
  }

  /** Python's `x & 0xFF` for any int (the low byte of the two's complement form). */
  function LowByte(x: int): (b: nat)
    ensures b < 256
  {
    x % 256
  }

  /** The four components. `res` is whatever the foreign call returned: ctypes' default result
      type is a signed 32-bit int, so negative values reach this code too. */
  function SdkVersion(res: int): (v: Components)
    ensures v.a < 256 && v.b < 256 && v.c < 256 && v.d < 256
  {
    Components(LowByte(ShiftRight(res, 3)), LowByte(ShiftRight(res, 2)),
               LowByte(ShiftRight(res, 1)), LowByte(res))
  }

  function Pack(v: Components): int {
    v.a * 0x100_0000 + v.b * 0x1_0000 + v.c * 0x100 + v.d
  }

  lemma DivSplit(x: int)
    ensures x / 0x1_0000 == (x / 0x100) / 0x100
    ensures x / 0x100_0000 == (x / 0x1_0000) / 0x100
    ensures x == (x / 0x100) * 0x100 + x % 0x100
  {
  }

  /** The four bytes put back together give the word itself for an unsigned 32-bit `res`,
      and its two's complement reading for a negative signed 32-bit `res`. */
  lemma SdkVersionPacks(res: int)
    requires -0x8000_0000 <= res < Word
    ensures Pack(SdkVersion(res)) == if res >= 0 then res else res + Word
  {
    var q1 := res / 0x100;
    var q2 := q1 / 0x100;
    var q3 := q2 / 0x100;
    DivSplit(res);
    assert res == q1 * 0x100 + res % 0x100;
    assert q1 == q2 * 0x100 + q1 % 0x100;
    assert q2 == q3 * 0x100 + q2 % 0x100;
    assert ShiftRight(res, 1) == q1 && ShiftRight(res, 2) == q2 && ShiftRight(res, 3) == q3;
    assert -128 <= q3 < 256;
    var v := SdkVersion(res);
    assert v.d == res % 0x100 && v.c == q1 % 0x100 && v.b == q2 % 0x100;
    assert v.a == if q3 >= 0 then q3 else q3 + 256;
  }

  /** `f"{x}.{y}"` and its nested forms, for the dotted part of the version string. */
  function DotJoin(x: string, y: string): string {
    x + "." + y
  }

  /** The string returned to the caller: `f"V{a}.{b}.{c}.{d}"`. */
  function VersionString(res: int): (s: string)
    ensures 8 <= |s| <= 16 && s[0] == 'V'
  {
    var v := SdkVersion(res);
    DecimalLength(v.a);
    DecimalLength(v.b);
    DecimalLength(v.c);
    DecimalLength(v.d);
    "V" + DotJoin(Decimal(v.a), DotJoin(Decimal(v.b), DotJoin(Decimal(v.c), Decimal(v.d))))
  }

  /** In `DotJoin(x, y)` with a digit-string `x`, the first dot sits right after `x`. */
  lemma FirstDotAt(x: string, y: string)
    requires AllDigits(x)
    ensures |x| < |DotJoin(x, y)| && DotJoin(x, y)[|x|] == '.'
    ensures forall k :: 0 <= k < |x| ==> DotJoin(x, y)[k] != '.'
  {
    forall k | 0 <= k < |x|
      ensures DotJoin(x, y)[k] != '.'
    {
      assert DotJoin(x, y)[k] == x[k] && IsDigit(x[k]);
    }
  }

  /** Splitting at the first dot is unique when the left parts are digit strings. */
  lemma SplitAtDot(x: string, y: string, u: string, w: string)
    requires AllDigits(x) && AllDigits(u)
    requires DotJoin(x, y) == DotJoin(u, w)
    ensures x == u && y == w
  {
    var s := DotJoin(x, y);
    FirstDotAt(x, y);
    FirstDotAt(u, w);
    assert |x| == |u|;
    assert x == s[..|x|] && u == s[..|u|];
    assert y == s[|x| + 1..] && w == s[|u| + 1..];
  }

  /** A version string names exactly one unsigned 32-bit word. */
  lemma VersionStringInjective(r1: int, r2: int)
    requires 0 <= r1 < Word && 0 <= r2 < Word
    requires VersionString(r1) == VersionString(r2)
    ensures r1 == r2
  {
    var v1, v2 := SdkVersion(r1), SdkVersion(r2);
    var c1, c2 := DotJoin(Decimal(v1.c), Decimal(v1.d)), DotJoin(Decimal(v2.c), Decimal(v2.d));
    var b1, b2 := DotJoin(Decimal(v1.b), c1), DotJoin(Decimal(v2.b), c2);
    var a1, a2 := DotJoin(Decimal(v1.a), b1), DotJoin(Decimal(v2.a), b2);
    assert a1 == VersionString(r1)[1..] && a2 == VersionString(r2)[1..];
    SplitAtDot(Decimal(v1.a), b1, Decimal(v2.a), b2);
    SplitAtDot(Decimal(v1.b), c1, Decimal(v2.b), c2);
    SplitAtDot(Decimal(v1.c), Decimal(v1.d), Decimal(v2.c), Decimal(v2.d));
    DecimalInjective(v1.a, v2.a);
    DecimalInjective(v1.b, v2.b);
    DecimalInjective(v1.c, v2.c);
    DecimalInjective(v1.d, v2.d);
    SdkVersionPacks(r1);
    SdkVersionPacks(r2);
  }

  /** The version string laid out group by group, with the components most significant first. */
  lemma VersionStringForm(res: int)
    ensures var v := SdkVersion(res);
      VersionString(res) == "V" + Decimal(v.a) + "." + Decimal(v.b) + "." + Decimal(v.c) + "." + Decimal(v.d)
  {
  }

  /** The version string reads back, group by group, as the components most significant first:
      `a` is the top byte of `res`, `d` the bottom one. */
  lemma VersionStringComponents(res: int)
    ensures var v := SdkVersion(res);
      exists x, y, z, w :: AllDigits(x) && AllDigits(y) && AllDigits(z) && AllDigits(w)
        && VersionString(res) == "V" + x + "." + y + "." + z + "." + w
        && Value(x) == v.a && Value(y) == v.b && Value(z) == v.c && Value(w) == v.d
  {
    var v := SdkVersion(res);
    VersionStringForm(res);
    ValueOfDecimal(v.a);
    ValueOfDecimal(v.b);
    ValueOfDecimal(v.c);
    ValueOfDecimal(v.d);
  }

  /** Reading the version string as four dot-separated digit groups gives back the components
      in order, whatever split is tried. */
  lemma VersionStringParses(res: int, x: string, y: string, z: string, w: string)
    requires AllDigits(x) && AllDigits(y) && AllDigits(z) && AllDigits(w)
    requires VersionString(res) == "V" + x + "." + y + "." + z + "." + w
    ensures var v := SdkVersion(res);
      Value(x) == v.a && Value(y) == v.b && Value(z) == v.c && Value(w) == v.d
  {
    var v := SdkVersion(res);
    VersionStringForm(res);
    GroupsSplit(Decimal(v.a), Decimal(v.b), Decimal(v.c), Decimal(v.d), x, y, z, w);
    ValueOfDecimal(v.a);
    ValueOfDecimal(v.b);
    ValueOfDecimal(v.c);
    ValueOfDecimal(v.d);
  }

  /** Two `V`-prefixed strings of four dot-separated digit groups are equal only group by group. */
  lemma GroupsSplit(a: string, b: string, c: string, d: string, x: string, y: string, z: string, w: string)
    requires AllDigits(a) && AllDigits(b) && AllDigits(c) && AllDigits(d)
    requires AllDigits(x) && AllDigits(y) && AllDigits(z) && AllDigits(w)
    requires "V" + a + "." + b + "." + c + "." + d == "V" + x + "." + y + "." + z + "." + w
    ensures a == x && b == y && c == z && d == w
  {
    var l, r := "V" + a + "." + b + "." + c + "." + d, "V" + x + "." + y + "." + z + "." + w;
    assert l[1..] == DotJoin(a, DotJoin(b, DotJoin(c, d)));
    assert r[1..] == DotJoin(x, DotJoin(y, DotJoin(z, w)));
    SplitAtDot(a, DotJoin(b, DotJoin(c, d)), x, DotJoin(y, DotJoin(z, w)));
    SplitAtDot(b, DotJoin(c, d), y, DotJoin(z, w));
    SplitAtDot(c, d, z, w);
  }
}
