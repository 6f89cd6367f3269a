/** `format_size`: a byte count in the largest unit among B, KB, MB, GB, TB it
    reaches, dividing by 1024 per step. The source divides a float; here the
    float after `k` divisions is the exact quotient `size / 1024^k`, kept as
    the pair (size, 1024^k). */
module Size {
  import opened Text

  const Suffixes: seq<string> := ["B", "KB", "MB", "GB", "TB"]

  function Pow1024(k: nat): (p: nat)
    ensures p >= 1
  {
    if k == 0 then 1 else 1024 * Pow1024(k - 1)
  }

  /** The unit the loop stops at when it starts at unit `k`: it steps while the
      quotient is at least 1024 and a larger unit remains. */
  function UnitFrom(size: int, k: nat): (u: nat)
    requires k <= 4
    requires k == 0 || Pow1024(k) <= size
    ensures k <= u <= 4
    ensures u == 0 || Pow1024(u) <= size
    ensures u == 4 || size < Pow1024(u + 1)
    decreases 4 - k
  {
    if size >= Pow1024(k + 1) && k < 4 then UnitFrom(size, k + 1) else k
  }

  /** The index into Suffixes of the unit `format_size` picks: the largest
      `k <= 4` with `1024^k <= size` (0 when `size < 1024`). */
  function Unit(size: int): (k: nat)
    ensures k <= 4
  {
    UnitFrom(size, 0)
  }

  lemma MulSucc(t: nat, d: nat)
    ensures (t + 1) * d == t * d + d
  {
  }

  /** Round-half-to-even of `q / d`, as `:.1f` rounds the exact binary value. */
  function RoundHalfEven(q: nat, d: nat): (r: nat)
    requires d > 0
    ensures 2 * (q - r * d) <= d && 2 * (r * d - q) <= d
    ensures 2 * (q - r * d) == d || 2 * (r * d - q) == d ==> r % 2 == 0
  {
    var t, rem := q / d, q % d;
    assert q == t * d + rem && 0 <= rem < d;
    MulSucc(t, d);
    if 2 * rem < d then t
    else if 2 * rem > d then t + 1
    else if t % 2 == 0 then t
    else t + 1
  }

  /** `f"{x:.1f}"` for `x = tenths / 10`. */
  function OneDecimal(tenths: nat): (s: string)
    ensures |s| >= 3 && s[|s| - 2] == '.' && '0' <= s[|s| - 1] <= '9'
  {
    NatToString(tenths / 10) + "." + [DigitChar(tenths % 10)]
  }

  /** Reading a OneDecimal string back gives the tenths it was written from. */
  lemma OneDecimalRoundTrip(tenths: nat)
    ensures var s := OneDecimal(tenths);
      IsDigits(s[..|s| - 2]) &&
      DigitsValue(s[..|s| - 2]) * 10 + (s[|s| - 1] as int - '0' as int) == tenths
  {
    var s := OneDecimal(tenths);
    assert s[..|s| - 2] == NatToString(tenths / 10);
    NatToStringRoundTrip(tenths / 10);
  }

  /** The string `format_size(size)` returns. */
  function SizeText(size: int): string
  {
    var k := Unit(size);
    if k == 0 then IntToString(size) + " " + Suffixes[0]
    else OneDecimal(RoundHalfEven(10 * size, Pow1024(k))) + " " + Suffixes[k]
  }

  /** The source's loop: `scale` is 1024^index, so the float it divides is
      `size / scale`, and `size >= 1024 * scale` is its `size >= 1024`. */
  method FormatSize(size: int) returns (s: string)
    ensures s == SizeText(size)
  {
    var suffixes := Suffixes;
    var index := 0;
    var scale := 1;
    while size >= 1024 * scale && index < |suffixes| - 1
      invariant 0 <= index <= 4
      invariant scale == Pow1024(index)
      invariant index == 0 || Pow1024(index) <= size
      invariant UnitFrom(size, index) == Unit(size)
      decreases 4 - index
    {
      scale := scale * 1024;
      index := index + 1;
    }
    if suffixes[index] == "B" {
      s := IntToString(size) + " " + suffixes[index];
    } else {
      s := OneDecimal(RoundHalfEven(10 * size, scale)) + " " + suffixes[index];
    }
  }

  /** The unit is the largest power of 1024 not above the size, capped at TB. */
  lemma UnitChoice(size: int)
    ensures var k := Unit(size);
      (k == 0 <==> size < 1024) &&
      (k > 0 ==> Pow1024(k) <= size) &&
      (k < 4 ==> size < Pow1024(k + 1))
  {
  }

  /** Every result ends in a space and one of the five suffixes. */
  lemma SizeTextSuffix(size: int)
    ensures exists k :: (0 <= k < |Suffixes| &&
      |SizeText(size)| > |Suffixes[k]| + 1 &&
      SizeText(size)[|SizeText(size)| - |Suffixes[k]| - 1..] == " " + Suffixes[k])
  {
    var k := Unit(size);
    var s := SizeText(size);
    var num := if k == 0 then IntToString(size) else OneDecimal(RoundHalfEven(10 * size, Pow1024(k)));
    assert s == num + " " + Suffixes[k];
    assert s[|s| - |Suffixes[k]| - 1..] == " " + Suffixes[k];
  }

  /** Below 1024 the size is printed as an integer with " B". */
  lemma SizeTextBytes(size: int)
    requires size < 1024
    ensures SizeText(size) == IntToString(size) + " B"
  {
  }

  /** From 1024 on, the number shown is `size / 1024^k` rounded to one decimal
      (half to even), the unit being the one Unit chose. */
  lemma SizeTextScaled(size: int)
    requires size >= 1024
    ensures var k := Unit(size);
      exists tenths: nat ::
        SizeText(size) == OneDecimal(tenths) + " " + Suffixes[k] &&
        2 * (10 * size - tenths * Pow1024(k)) <= Pow1024(k) &&
        2 * (tenths * Pow1024(k) - 10 * size) <= Pow1024(k)
  {
    var k := Unit(size);
    var tenths := RoundHalfEven(10 * size, Pow1024(k));
    assert SizeText(size) == OneDecimal(tenths) + " " + Suffixes[k];
  }

  /** `format_size(1024^k)` is "1.0" in unit k, for KB up to TB. */
  lemma {:induction false} SizeTextExactPowers(k: nat)
    requires 1 <= k <= 4
    ensures SizeText(Pow1024(k)) == "1.0 " + Suffixes[k]
  {
    var size := Pow1024(k);
    assert Pow1024(k + 1) == 1024 * size;
    assert Unit(size) == k;
    assert RoundHalfEven(10 * size, size) == 10 by {
      assert (10 * size) / size == 10 && (10 * size) % size == 0;
    }
    assert OneDecimal(10) == "1.0";
  }

  /** The unit is chosen before rounding: 1048535 bytes is just under 1 MB, so
      it stays in KB even though it rounds to 1024.0 there. */
  lemma SizeTextNoEscalationAfterRounding()
    ensures SizeText(1048535) == "1024.0 KB"
  {
    assert Pow1024(1) == 1024 && Pow1024(2) == 1048576;
    assert Unit(1048535) == 1;
    assert RoundHalfEven(10485350, 1024) == 10240;
    assert NatToString(1024) == "1024";
  }

  /** The sizes of the source's tests. */
  lemma SizeTextExampleBytes()
    ensures SizeText(1023) == "1023 B"
    ensures SizeText(83) == "83 B"
  {
    assert NatToString(102) == "102";
    assert NatToString(1023) == "1023";
    assert NatToString(83) == "83";
  }

  lemma SizeTextExampleKilobytes()
    ensures SizeText(1071) == "1.0 KB"
    ensures SizeText(4096) == "4.0 KB"
  {
    assert Pow1024(1) == 1024 && Pow1024(2) == 1048576;
    assert Unit(1071) == 1 && Unit(4096) == 1;
    assert RoundHalfEven(10710, 1024) == 10 by {
      assert 10710 / 1024 == 10 && 10710 % 1024 == 470;
    }
    assert RoundHalfEven(40960, 1024) == 40 by {
      assert 40960 / 1024 == 40 && 40960 % 1024 == 0;
    }
    assert OneDecimal(10) == "1.0" && OneDecimal(40) == "4.0";
  }
}
