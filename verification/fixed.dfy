/** The exact decimal codec: strings to int64 scaled by a power of ten, and back. */
module Fixed {
  import opened Norm

  newtype int64 = x: int | -0x8000_0000_0000_0000 <= x <= 0x7FFF_FFFF_FFFF_FFFF

  const MAX_INT64: int := 0x7FFF_FFFF_FFFF_FFFF
  const MIN_INT64: int := -0x8000_0000_0000_0000
  const TWO_64: int := 0x1_0000_0000_0000_0000

  const PRICE_DECIMALS := 8
  const SIZE_DECIMALS := 8

  datatype Error = BadScale | EmptyNumber | BadCharacter | TooPrecise | Overflow

  const POW10: seq<int64> := [
    1, 10, 100, 1_000, 10_000, 100_000, 1_000_000, 10_000_000, 100_000_000,
    1_000_000_000, 10_000_000_000, 100_000_000_000, 1_000_000_000_000,
    10_000_000_000_000, 100_000_000_000_000, 1_000_000_000_000_000,
    10_000_000_000_000_000, 100_000_000_000_000_000, 1_000_000_000_000_000_000]

  // ----- Digits ---------------------------------------------------------------------------

  function Pow10(n: nat): (p: nat)
    ensures p >= 1
  {
    if n == 0 then 1 else 10 * Pow10(n - 1)
  }

  predicate IsDigit(c: char) { '0' <= c <= '9' }

  predicate AllDigits(s: string) { forall i :: 0 <= i < |s| ==> IsDigit(s[i]) }

  predicate AllZeros(s: string) { forall i :: 0 <= i < |s| ==> s[i] == '0' }

  function Digit(c: char): nat {
    if IsDigit(c) then c as int - '0' as int else 0
  }

  /** The number a string of digits spells. */
  function Value(ds: string): nat {
    if ds == "" then 0 else 10 * Value(ds[..|ds| - 1]) + Digit(ds[|ds| - 1])
  }

  // ----- Parsing --------------------------------------------------------------------------

  function CutSign(s: string): (bool, string) {
    if s != "" && s[0] == '-' then (true, s[1..])
    else if s != "" && s[0] == '+' then (false, s[1..])
    else (false, s)
  }

  /** Splits around the first dot; without one, everything is before it. */
  function CutDot(s: string): (string, string) {
    if s == "" then ("", "")
    else if s[0] == '.' then ("", s[1..])
    else var (before, after) := CutDot(s[1..]); ([s[0]] + before, after)
  }

  /** The fraction without its digits past dp. */
  function Kept(fp: string, dp: nat): string {
    if |fp| > dp then fp[..dp] else fp
  }

  function ScaledValue(ip: string, fp: string, dp: nat): nat {
    Value(ip + Kept(fp, dp)) * Pow10(dp - |Kept(fp, dp)|)
  }

  function Parse(s: string, dp: int): Result<int, Error> {
    if dp < 0 || dp > 18 then Err(BadScale)
    else
      var (neg, body) := CutSign(s);
      var (ip, fp) := CutDot(body);
      if ip == "" && fp == "" then Err(EmptyNumber)
      else if !AllDigits(ip) || !AllDigits(fp) then Err(BadCharacter)
      else if |fp| > dp && !AllZeros(fp[dp..]) then Err(TooPrecise)
      else
        var n: int := ScaledValue(ip, fp, dp);
        if n > MAX_INT64 then Err(Overflow) else Ok(if neg then -n else n)
  }

  /** int64 is a bounded type here, so no arithmetic step can leave it unnoticed. */
  method ParseFixed(s: string, dp: int) returns (r: Result<int64, Error>)
    ensures match r
            case Ok(v) => Parse(s, dp) == Ok(v as int)
            case Err(e) => Parse(s, dp) == Err(e)
  {
    if dp < 0 || dp > 18 {
      return Err(BadScale);
    }
    var (neg, body) := CutSign(s);
    var (intPart, fracPart) := CutDot(body);
    if intPart == "" && fracPart == "" {
      return Err(EmptyNumber);
    }
    var intOk := CheckDigits(intPart);
    if !intOk {
      return Err(BadCharacter);
    }
    var fracOk := CheckDigits(fracPart);
    if !fracOk {
      return Err(BadCharacter);
    }
    if |fracPart| > dp && !AllZeros(fracPart[dp..]) {
      return Err(TooPrecise);
    }
    var kept := Kept(fracPart, dp);
    var fits, v := ReadScaled(intPart + kept, dp - |kept|);
    if !fits {
      return Err(Overflow);
    }
    if neg {
      v := -v;
    }
    return Ok(v);
  }

  /** Reads the digits, then pads with zeros for the places the input left off. */
  method ReadScaled(digits: string, pad: nat) returns (fits: bool, v: int64)
    requires AllDigits(digits) && pad <= 18
    ensures fits <==> Value(digits) * Pow10(pad) <= MAX_INT64
    ensures fits ==> v as int == Value(digits) * Pow10(pad)
  {
    fits, v := ReadDigits(digits);
    MulGrows(Value(digits), Pow10(pad));
    if fits && pad > 0 {
      Pow10Table(pad);
      fits, v := TimesPower(v, POW10[pad]);
    }
  }

  method TimesPower(v: int64, p: int64) returns (fits: bool, r: int64)
    requires v >= 0 && p >= 1
    ensures fits <==> v as int * p as int <= MAX_INT64
    ensures fits ==> r as int == v as int * p as int
  {
    DivBound(v as int, p as int, MAX_INT64);
    if v > 0x7FFF_FFFF_FFFF_FFFF / p {
      return false, v;
    }
    return true, v * p;
  }

  method CheckDigits(s: string) returns (ok: bool)
    ensures ok <==> AllDigits(s)
  {
    for i := 0 to |s|
      invariant AllDigits(s[..i])
    {
      if s[i] < '0' || s[i] > '9' {
        return false;
      }
    }
    return true;
  }

  /** Reads digits into one integer, testing for overflow before each step. */
  method ReadDigits(part: string) returns (fits: bool, v: int64)
    requires AllDigits(part)
    ensures fits <==> Value(part) <= MAX_INT64
    ensures fits ==> v as int == Value(part)
  {
    v := 0;
    for i := 0 to |part|
      invariant v as int == Value(part[..i])
    {
      assert part[..i + 1][..i] == part[..i];
      var d := Digit(part[i]) as int64;
      if v > (0x7FFF_FFFF_FFFF_FFFF - d) / 10 {
        PrefixValue(part, i + 1);
        return false, v;
      }
      v := v * 10 + d;
    }
    assert part[..|part|] == part;
    return true, v;
  }

  lemma {:induction false} PrefixValue(s: string, i: nat)
    requires i <= |s|
    ensures Value(s[..i]) <= Value(s)
    decreases |s|
  {
    if i == |s| {
      assert s[..i] == s;
    } else {
      PrefixValue(s[..|s| - 1], i);
      assert s[..|s| - 1][..i] == s[..i];
    }
  }

  lemma MulGrows(a: nat, b: nat)
    requires b >= 1
    ensures a <= a * b
  {
  }

  lemma DivBound(v: nat, p: nat, max: nat)
    requires p >= 1
    ensures v > max / p <==> v * p > max
  {
    var q := max / p;
    assert max == q * p + max % p;
    if v <= q {
      MulMono(v, q, p);
    } else {
      MulMono(q + 1, v, p);
    }
  }

  lemma MulMono(a: nat, b: nat, p: nat)
    requires a <= b
    ensures a * p <= b * p
  {
  }

  lemma Pow10Table(i: nat)
    requires i < 19
    ensures POW10[i] as int == Pow10(i)
  {
    if i > 0 {
      Pow10Table(i - 1);
    }
  }

  // ----- Formatting -----------------------------------------------------------------------

  /** Decimal digits without leading zeros, "0" for zero. */
  function Dec(n: nat): string {
    (if n < 10 then "" else Dec(n / 10)) + [(n % 10 + '0' as int) as char]
  }

  function Zeros(n: nat): string {
    seq(n, i => '0')
  }

  function PadLeft(s: string, width: nat): string {
    Zeros(if |s| < width then width - |s| else 0) + s
  }

  /** |v| computed as the code does: convert to uint64, negate there. */
  function Magnitude(v: int): nat {
    var uv := v % TWO_64;
    if v < 0 then (TWO_64 - uv) % TWO_64 else uv
  }

  /** The two halves of a magnitude around the decimal point. */
  function Whole(n: nat, dp: nat): nat {
    QuotientIsNat(n, Pow10(dp));
    n / Pow10(dp)
  }

  lemma QuotientIsNat(n: nat, d: nat)
    requires d >= 1
    ensures n / d >= 0
  {
  }

  function Fraction(n: nat, dp: nat): (r: nat)
    ensures r < Pow10(dp)
  {
    n % Pow10(dp)
  }

  /** An out-of-range dp panics: at every call site it is a constant. */
  function Format(v: int, dp: int): string
    requires MIN_INT64 <= v <= MAX_INT64 && 0 <= dp <= 18
  {
    var sign := if v < 0 then "-" else "";
    var uv := Magnitude(v);
    if dp == 0 then sign + Dec(uv)
    else sign + Dec(Whole(uv, dp)) + "." + PadLeft(Dec(Fraction(uv, dp)), dp)
  }
}
