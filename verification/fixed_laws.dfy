/** What the codec promises: exact acceptance, exact values, and round trips both ways. */
module FixedLaws {
  import opened Norm
  import opened Fixed

  // ----- Arithmetic of digit strings ------------------------------------------------------

  lemma {:induction false} Pow10Add(a: nat, b: nat)
    ensures Pow10(a + b) == Pow10(a) * Pow10(b)
  {
    if a > 0 {
      Pow10Add(a - 1, b);
      assert Pow10(a + b) == 10 * (Pow10(a - 1) * Pow10(b));
    }
  }

  lemma {:induction false} ValueAppend(a: string, b: string)
    ensures Value(a + b) == Value(a) * Pow10(|b|) + Value(b)
  {
    if b == "" {
      assert a + b == a;
    } else {
      var init := b[..|b| - 1];
      assert (a + b)[..|a + b| - 1] == a + init;
      ValueAppend(a, init);
      TimesTen(Value(a), Pow10(|init|), Value(init), Digit(b[|b| - 1]));
    }
  }

  lemma TimesTen(a: nat, p: nat, v: nat, d: nat)
    ensures 10 * (a * p + v) + d == a * (10 * p) + (10 * v + d)
  {
    assert a * (10 * p) == 10 * (a * p);
  }

  lemma {:induction false} ValueBound(s: string)
    ensures Value(s) < Pow10(|s|)
  {
    if s != "" {
      ValueBound(s[..|s| - 1]);
    }
  }

  lemma {:induction false} ZerosValue(s: string)
    requires AllDigits(s)
    ensures AllZeros(s) <==> Value(s) == 0
  {
    if s != "" {
      ZerosValue(s[..|s| - 1]);
    }
  }

  // ----- Numerals -------------------------------------------------------------------------

  /** s is an optional sign, then ip, then an optional dot and fp: all digits, at least one. */
  ghost predicate Numeral(s: string, neg: bool, ip: string, fp: string) {
    && AllDigits(ip) && AllDigits(fp) && ip + fp != ""
    && exists sign, dot :: SpeltWith(s, neg, sign, ip, dot, fp)
  }

  ghost predicate SpeltWith(s: string, neg: bool, sign: string, ip: string, dot: string, fp: string) {
    && (if neg then sign == "-" else sign == "" || sign == "+")
    && (dot == "." || (dot == "" && fp == ""))
    && s == sign + ip + dot + fp
  }

  /** The value ip.fp times 10^dp is the integer n. */
  ghost predicate Scales(ip: string, fp: string, dp: nat, n: nat) {
    n * Pow10(|fp|) == Value(ip + fp) * Pow10(dp)
  }

  function Signed(neg: bool, n: int): int {
    if neg then -n else n
  }

  lemma {:induction false} CutDotJoins(s: string)
    ensures var (ip, fp) := CutDot(s);
            s == ip + "." + fp || (s == ip && fp == "")
  {
    if s != "" && s[0] != '.' {
      CutDotJoins(s[1..]);
      assert s == [s[0]] + s[1..];
    } else if s != "" {
      assert s == "" + "." + s[1..];
    }
  }

  lemma {:induction false} CutDotFinds(ip: string, dot: string, fp: string)
    requires AllDigits(ip) && (dot == "." || (dot == "" && fp == ""))
    ensures CutDot(ip + dot + fp) == (ip, fp)
  {
    var s := ip + dot + fp;
    if ip != "" {
      assert s[0] == ip[0];
      CutDotFinds(ip[1..], dot, fp);
      assert s[1..] == ip[1..] + dot + fp;
      assert ip == [ip[0]] + ip[1..];
    } else if dot == "." {
      assert s[0] == '.' && s[1..] == fp;
    } else {
      assert s == "";
    }
  }

  /** The parser's two cuts recover the parts of a numeral. */
  lemma CutsRecover(s: string, neg: bool, ip: string, fp: string)
    requires Numeral(s, neg, ip, fp)
    ensures CutSign(s).0 == neg && CutDot(CutSign(s).1) == (ip, fp)
  {
    var sign, dot :| SpeltWith(s, neg, sign, ip, dot, fp);
    var body := ip + dot + fp;
    CutDotFinds(ip, dot, fp);
    SignInFront(sign, ip, dot, fp);
    assert body[0] == if ip != "" then ip[0] else '.';
    CutSignFinds(sign, body, neg);
  }

  lemma SignInFront(sign: string, ip: string, dot: string, fp: string)
    ensures sign + ip + dot + fp == sign + (ip + dot + fp)
  {
  }

  lemma CutSignFinds(sign: string, body: string, neg: bool)
    requires if neg then sign == "-" else sign == "" || sign == "+"
    requires body != "" && body[0] != '-' && body[0] != '+'
    ensures CutSign(sign + body) == (neg, body)
  {
    if sign == "" {
      assert sign + body == body;
    } else {
      assert (sign + body)[1..] == body;
    }
  }

  lemma CutsAreNumeral(s: string)
    requires var (ip, fp) := CutDot(CutSign(s).1); AllDigits(ip) && AllDigits(fp) && (ip != "" || fp != "")
    ensures Numeral(s, CutSign(s).0, CutDot(CutSign(s).1).0, CutDot(CutSign(s).1).1)
  {
    var (neg, body) := CutSign(s);
    var (ip, fp) := CutDot(body);
    CutDotJoins(body);
    var sign := if body == s then "" else [s[0]];
    var dot := if body == ip && fp == "" then "" else ".";
    assert s == sign + body && body == ip + dot + fp;
    SignInFront(sign, ip, dot, fp);
    assert SpeltWith(s, neg, sign, ip, dot, fp);
    if ip != "" {
      assert (ip + fp)[0] == ip[0];
    }
  }

  // ----- Exactness ------------------------------------------------------------------------

  /** Dropping zeros past dp and padding up to it computes value * 10^dp, which is an integer
      exactly when the dropped digits are zeros. */
  lemma ScaledValueIsExact(ip: string, fp: string, dp: nat)
    requires AllDigits(ip) && AllDigits(fp)
    ensures |fp| <= dp || AllZeros(fp[dp..]) ==> Scales(ip, fp, dp, ScaledValue(ip, fp, dp))
    ensures |fp| > dp && !AllZeros(fp[dp..]) ==> forall n :: !Scales(ip, fp, dp, n)
  {
    var whole := Value(ip + fp);
    if |fp| <= dp {
      Pow10Add(dp - |fp|, |fp|);
      Reassociate(whole, Pow10(dp - |fp|), Pow10(|fp|));
    } else {
      var kept, tail := fp[..dp], fp[dp..];
      assert ip + fp == (ip + kept) + tail;
      ValueAppend(ip + kept, tail);
      ZerosValue(tail);
      ValueBound(tail);
      Pow10Add(|tail|, dp);
      TailDecides(Value(ip + kept), Value(tail), Pow10(|tail|), Pow10(dp));
    }
  }

  lemma Reassociate(a: nat, b: nat, c: nat)
    ensures (a * b) * c == a * (b * c)
  {
  }

  /** With t < p: n * (p * d) == (k * p + t) * d forces t == 0, and then n == k. */
  lemma TailDecides(k: nat, t: nat, p: nat, d: nat)
    requires t < p && d >= 1
    ensures t == 0 ==> k * (p * d) == (k * p + t) * d
    ensures t != 0 ==> forall n: nat :: n * (p * d) != (k * p + t) * d
  {
    Reassociate(k, p, d);
    forall n: nat | n * (p * d) == (k * p + t) * d
      ensures t == 0
    {
      Reassociate(n, p, d);
      CancelRight(n * p, k * p + t, d);
      assert (n - k) * p == t;
      if n > k {
        MulMono(1, n - k, p);
      } else if n < k {
        assert (k - n) * p == -t;
      }
    }
  }

  lemma CancelRight(a: nat, b: nat, d: nat)
    requires d >= 1 && a * d == b * d
    ensures a == b
  {
    if a < b {
      StrictMono(a, b, d);
    } else if b < a {
      StrictMono(b, a, d);
    }
  }

  lemma StrictMono(a: nat, b: nat, d: nat)
    requires a < b && d >= 1
    ensures a * d < b * d
  {
    assert b * d == a * d + (b - a) * d;
  }

  lemma ScalesUnique(ip: string, fp: string, dp: nat, n: nat, m: nat)
    requires Scales(ip, fp, dp, n) && Scales(ip, fp, dp, m)
    ensures n == m
  {
    CancelRight(n, m, Pow10(|fp|));
  }

  /** Sound and complete: parsing yields v exactly when the string is a numeral whose value times
      10^dp is an integer of magnitude at most 2^63 - 1, and v is that integer. */
  lemma ParseIsExact(s: string, dp: int, v: int)
    ensures Parse(s, dp) == Ok(v) <==>
            0 <= dp <= 18 && exists neg, ip, fp, n :: Denotes(s, dp, v, neg, ip, fp, n)
  {
    if 0 <= dp <= 18 {
      if Parse(s, dp) == Ok(v) {
        var (neg, body) := CutSign(s);
        var (ip, fp) := CutDot(body);
        CutsAreNumeral(s);
        ScaledValueIsExact(ip, fp, dp);
        assert Denotes(s, dp, v, neg, ip, fp, ScaledValue(ip, fp, dp));
      }
      forall neg, ip, fp, n | Denotes(s, dp, v, neg, ip, fp, n)
        ensures Parse(s, dp) == Ok(v)
      {
        ParseClassifies(s, dp, neg, ip, fp, n);
      }
    }
  }

  ghost predicate Denotes(s: string, dp: nat, v: int, neg: bool, ip: string, fp: string, n: nat) {
    Numeral(s, neg, ip, fp) && Scales(ip, fp, dp, n) && n <= MAX_INT64 && v == Signed(neg, n)
  }

  /** A numeral whose scaled value is an integer is accepted or too large, by its size alone. */
  lemma ParseClassifies(s: string, dp: int, neg: bool, ip: string, fp: string, n: nat)
    requires 0 <= dp <= 18 && Numeral(s, neg, ip, fp) && Scales(ip, fp, dp, n)
    ensures Parse(s, dp) == if n <= MAX_INT64 then Ok(Signed(neg, n)) else Err(Overflow)
  {
    CutsRecover(s, neg, ip, fp);
    ScaledValueIsExact(ip, fp, dp);
    if |fp| <= dp || AllZeros(fp[dp..]) {
      ScalesUnique(ip, fp, dp, n, ScaledValue(ip, fp, dp));
    }
  }

  /** The error kinds: what is not a numeral is empty or has a bad character, and a numeral that
      does not scale to an integer is too precise. */
  lemma ErrorsClassified(s: string, dp: int)
    requires 0 <= dp <= 18
    ensures Parse(s, dp) in {Err(EmptyNumber), Err(BadCharacter)} <==> forall neg, ip, fp :: !Numeral(s, neg, ip, fp)
    ensures Parse(s, dp) == Err(TooPrecise) <==>
            exists neg, ip, fp :: Numeral(s, neg, ip, fp) && forall n :: !Scales(ip, fp, dp, n)
  {
    var (neg, body) := CutSign(s);
    var (ip, fp) := CutDot(body);
    if AllDigits(ip) && AllDigits(fp) && (ip != "" || fp != "") {
      CutsAreNumeral(s);
      ScaledValueIsExact(ip, fp, dp);
    }
    forall neg', ip', fp' | Numeral(s, neg', ip', fp')
      ensures neg' == neg && ip' == ip && fp' == fp
    {
      CutsRecover(s, neg', ip', fp');
    }
  }

  /** Which strings have nothing to read, and that a scale outside 0..18 is refused before anything. */
  lemma NothingToRead(s: string, dp: int)
    ensures Parse(s, dp) == Err(BadScale) <==> dp < 0 || dp > 18
    ensures 0 <= dp <= 18 ==> (Parse(s, dp) == Err(EmptyNumber) <==> s in {"", "+", "-", ".", "+.", "-."})
  {
    var (neg, body) := CutSign(s);
    CutDotJoins(body);
    assert CutDot(body) == ("", "") <==> body == "" || body == ".";
    assert s == body || s == "+" + body || s == "-" + body by {
      assert s == "" || s == [s[0]] + s[1..];
    }
    assert "+" + "" == "+" && "-" + "" == "-" && "+" + "." == "+." && "-" + "." == "-.";
    assert "+"[1..] == "" && "-"[1..] == "" && "+."[1..] == "." && "-."[1..] == ".";
  }

  /** A sign in front of an unsigned string only sets the sign of what it reads as. */
  lemma SignsOnlySign(s: string, dp: int)
    requires s == "" || (s[0] != '+' && s[0] != '-')
    ensures Parse("+" + s, dp) == Parse(s, dp)
    ensures Parse("-" + s, dp) == match Parse(s, dp) case Ok(v) => Ok(-v) case Err(e) => Err(e)
  {
    assert ("+" + s)[1..] == s && ("-" + s)[1..] == s;
  }

  // ----- Round trips ----------------------------------------------------------------------

  lemma {:induction false} DecSpells(n: nat)
    ensures AllDigits(Dec(n)) && Value(Dec(n)) == n
    ensures |Dec(n)| >= 1 && (|Dec(n)| > 1 ==> Dec(n)[0] != '0')
  {
    if n >= 10 {
      DecSpells(n / 10);
      var d := Dec(n);
      assert d[..|d| - 1] == Dec(n / 10);
      assert Dec(n / 10)[0] != '0' by {
        if |Dec(n / 10)| == 1 {
          assert Dec(n / 10)[..0] == "";
        }
      }
    } else {
      assert Dec(n)[..0] == "";
    }
  }

  lemma {:induction false} DecWidth(n: nat, w: nat)
    requires w >= 1 && n < Pow10(w)
    ensures |Dec(n)| <= w
  {
    if n >= 10 {
      DecWidth(n / 10, w - 1);
    }
  }

  lemma {:induction false} ZerosInFront(n: nat, s: string)
    ensures Value(Zeros(n) + s) == Value(s)
  {
    if s == "" {
      assert Zeros(n) + s == Zeros(n);
      ZerosValue(Zeros(n));
    } else {
      var init := s[..|s| - 1];
      assert (Zeros(n) + s)[..n + |s| - 1] == Zeros(n) + init;
      ZerosInFront(n, init);
    }
  }

  lemma DigitsJoin(a: string, b: string)
    requires AllDigits(a) && AllDigits(b)
    ensures AllDigits(a + b)
  {
  }

  lemma PadSpells(n: nat, w: nat)
    requires w >= 1 && n < Pow10(w)
    ensures var p := PadLeft(Dec(n), w); |p| == w && AllDigits(p) && Value(p) == n
  {
    DecSpells(n);
    DecWidth(n, w);
    DigitsJoin(Zeros(w - |Dec(n)|), Dec(n));
    ZerosInFront(w - |Dec(n)|, Dec(n));
  }

  lemma MagnitudeIsAbs(v: int)
    requires MIN_INT64 <= v <= MAX_INT64
    ensures Magnitude(v) == if v < 0 then -v else v
  {
    if v < 0 {
      assert v % TWO_64 == v + TWO_64;
    }
  }

  ghost predicate Formatted(v: int, dp: nat, ip: string, fp: string)
    requires MIN_INT64 <= v <= MAX_INT64 && dp <= 18
  {
    && Numeral(Format(v, dp), v < 0, ip, fp)
    && |fp| == dp
    && Scales(ip, fp, dp, if v < 0 then -v else v)
  }

  lemma SpellsNumeral(s: string, sign: string, neg: bool, ip: string, dot: string, fp: string)
    requires AllDigits(ip) && AllDigits(fp) && ip != ""
    requires SpeltWith(s, neg, sign, ip, dot, fp)
    ensures Numeral(s, neg, ip, fp)
  {
    assert (ip + fp)[0] == ip[0];
  }

  lemma SplitAtPoint(n: nat, dp: nat)
    requires dp >= 1
    ensures var ip, fp := Dec(Whole(n, dp)), PadLeft(Dec(Fraction(n, dp)), dp);
            && AllDigits(ip) && AllDigits(fp) && ip != "" && |fp| == dp && Value(ip + fp) == n
  {
    var w, f := Whole(n, dp), Fraction(n, dp);
    DecSpells(w);
    PadSpells(f, dp);
    ValueAppend(Dec(w), PadLeft(Dec(f), dp));
    HalvesJoin(n, dp);
  }

  lemma HalvesJoin(n: nat, dp: nat)
    ensures Whole(n, dp) * Pow10(dp) + Fraction(n, dp) == n
  {
  }

  /** A formatted value is a numeral with exactly dp fraction digits that scales back to |v|. */
  lemma FormatDenotes(v: int, dp: nat)
    requires MIN_INT64 <= v <= MAX_INT64 && dp <= 18
    ensures exists ip, fp :: Formatted(v, dp, ip, fp)
  {
    FormatSpells(v, dp);
    var ip, fp :| Spells(Format(v, dp), v, dp, ip, fp);
    SpellsNumeral(Format(v, dp), if v < 0 then "-" else "", v < 0, ip, if dp == 0 then "" else ".", fp);
    ScalesByItsDigits(ip, fp, if v < 0 then -v else v);
    assert Formatted(v, dp, ip, fp);
  }

  lemma ScalesByItsDigits(ip: string, fp: string, n: nat)
    requires Value(ip + fp) == n
    ensures Scales(ip, fp, |fp|, n)
  {
  }

  /** A positive number has one spelling without leading zeros. */
  lemma {:induction false} SpellingUnique(a: string, b: string)
    requires AllDigits(a) && AllDigits(b) && Value(a) == Value(b) && Value(a) > 0
    requires a[0] != '0' && b[0] != '0'
    ensures a == b
    decreases |a|
  {
    var x, y := a[..|a| - 1], b[..|b| - 1];
    assert a == x + [a[|a| - 1]] && b == y + [b[|b| - 1]];
    LastDigit(Value(x), Digit(a[|a| - 1]), Value(y), Digit(b[|b| - 1]));
    if Value(x) > 0 {
      assert x != "" && y != "";
      SpellingUnique(x, y);
    } else {
      OneDigit(a);
      OneDigit(b);
    }
  }

  lemma OneDigit(a: string)
    requires AllDigits(a) && a != "" && a[0] != '0' && Value(a[..|a| - 1]) == 0
    ensures |a| == 1
  {
    ZerosValue(a[..|a| - 1]);
  }

  lemma LastDigit(a: nat, d: nat, b: nat, e: nat)
    requires d < 10 && e < 10 && 10 * a + d == 10 * b + e
    ensures a == b && d == e
  {
  }

  lemma {:induction false} SameWidthUnique(a: string, b: string)
    requires AllDigits(a) && AllDigits(b) && |a| == |b| && Value(a) == Value(b)
    ensures a == b
  {
    if a != "" {
      var x, y := a[..|a| - 1], b[..|b| - 1];
      LastDigit(Value(x), Digit(a[|a| - 1]), Value(y), Digit(b[|b| - 1]));
      SameWidthUnique(x, y);
      assert a == x + [a[|a| - 1]] && b == y + [b[|b| - 1]];
    }
  }

  /** The digits before the point: "0", or no leading zero. */
  ghost predicate Unpadded(ip: string) {
    AllDigits(ip) && ip != "" && (ip == "0" || ip[0] != '0')
  }

  lemma UnpaddedUnique(a: string, b: string)
    requires Unpadded(a) && Unpadded(b) && Value(a) == Value(b)
    ensures a == b
  {
    if Value(a) > 0 {
      assert Value("0") == 0 by { ZerosValue("0"); }
      SpellingUnique(a, b);
    } else {
      ZerosValue(a);
      ZerosValue(b);
    }
  }

  /** The one spelling of v with dp decimals: a minus sign if v is negative and no sign otherwise, no
      leading zeros, and dp digits after the point, which is there exactly when dp is not zero. */
  ghost predicate Spells(s: string, v: int, dp: nat, ip: string, fp: string) {
    && s == (if v < 0 then "-" else "") + ip + (if dp == 0 then "" else ".") + fp
    && Unpadded(ip) && AllDigits(fp) && |fp| == dp
    && Value(ip + fp) == if v < 0 then -v else v
  }

  ghost predicate IsSpelling(s: string, v: int, dp: nat) {
    exists ip, fp :: Spells(s, v, dp, ip, fp)
  }

  lemma SplitUnique(a: nat, f: nat, b: nat, g: nat, p: nat)
    requires f < p && g < p && a * p + f == b * p + g
    ensures a == b && f == g
  {
    if a < b {
      MulMono(a + 1, b, p);
    } else if b < a {
      MulMono(b + 1, a, p);
    }
  }

  lemma SpellingsAgree(s: string, t: string, v: int, dp: nat, ip: string, fp: string, ip': string, fp': string)
    requires Spells(s, v, dp, ip, fp) && Spells(t, v, dp, ip', fp')
    ensures s == t
  {
    HalvesUnique(ip, fp, ip', fp');
    UnpaddedUnique(ip, ip');
    SameWidthUnique(fp, fp');
  }

  lemma HalvesUnique(ip: string, fp: string, ip': string, fp': string)
    requires |fp| == |fp'| && Value(ip + fp) == Value(ip' + fp')
    ensures Value(ip) == Value(ip') && Value(fp) == Value(fp')
  {
    ValueAppend(ip, fp);
    ValueAppend(ip', fp');
    ValueBound(fp);
    ValueBound(fp');
    SplitUnique(Value(ip), Value(fp), Value(ip'), Value(fp'), Pow10(|fp|));
  }

  lemma FormatSpells(v: int, dp: nat)
    requires MIN_INT64 <= v <= MAX_INT64 && dp <= 18
    ensures IsSpelling(Format(v, dp), v, dp)
  {
    if dp == 0 {
      WholeSpells(v);
    } else {
      FractionSpells(v, dp);
    }
  }

  lemma WholeSpells(v: int)
    requires MIN_INT64 <= v <= MAX_INT64
    ensures Spells(Format(v, 0), v, 0, Dec(Magnitude(v)), "")
  {
    MagnitudeIsAbs(v);
    DecSpells(Magnitude(v));
    var ip, sign := Dec(Magnitude(v)), if v < 0 then "-" else "";
    assert ip + "" == ip && sign + ip == sign + ip + "" + "";
  }

  lemma FractionSpells(v: int, dp: nat)
    requires MIN_INT64 <= v <= MAX_INT64 && 1 <= dp <= 18
    ensures Spells(Format(v, dp), v, dp, Dec(Whole(Magnitude(v), dp)), PadLeft(Dec(Fraction(Magnitude(v), dp)), dp))
  {
    MagnitudeIsAbs(v);
    DecSpells(Whole(Magnitude(v), dp));
    SplitAtPoint(Magnitude(v), dp);
  }

  /** Formatting is exactly that spelling. */
  lemma FormatIsTheSpelling(s: string, v: int, dp: nat)
    requires MIN_INT64 <= v <= MAX_INT64 && dp <= 18
    ensures s == Format(v, dp) <==> IsSpelling(s, v, dp)
  {
    FormatSpells(v, dp);
    var ip, fp :| Spells(Format(v, dp), v, dp, ip, fp);
    forall ip', fp' | Spells(s, v, dp, ip', fp')
      ensures s == Format(v, dp)
    {
      SpellingsAgree(s, Format(v, dp), v, dp, ip', fp', ip, fp);
    }
  }

  /** Parsing what was formatted gives the value back; the one exception, the least int64, formats
      correctly and is rejected as too large. */
  lemma ParseOfFormat(v: int, dp: int)
    requires MIN_INT64 <= v <= MAX_INT64 && 0 <= dp <= 18
    ensures Parse(Format(v, dp), dp) == if v == MIN_INT64 then Err(Overflow) else Ok(v)
  {
    FormatDenotes(v, dp);
    var n := if v < 0 then -v else v;
    var ip, fp :| Formatted(v, dp, ip, fp);
    ParseClassifies(Format(v, dp), dp, v < 0, ip, fp, n);
  }

  /** ip1.fp1 and ip2.fp2, signed, are the same number. */
  ghost predicate SameNumber(neg1: bool, ip1: string, fp1: string, neg2: bool, ip2: string, fp2: string) {
    Signed(neg1, Value(ip1 + fp1) * Pow10(|fp2|)) == Signed(neg2, Value(ip2 + fp2) * Pow10(|fp1|))
  }

  /** However the two strings are read as numerals, they denote the same number. */
  ghost predicate DenoteSame(s1: string, s2: string) {
    forall neg1, ip1, fp1, neg2, ip2, fp2 :: Numeral(s1, neg1, ip1, fp1) && Numeral(s2, neg2, ip2, fp2) ==>
      SameNumber(neg1, ip1, fp1, neg2, ip2, fp2)
  }

  /** Format-of-parse is a canonical form: equal for two accepted strings iff they denote the same
      number. */
  lemma FormatOfParseIsCanonical(s1: string, s2: string, dp: int, v1: int, v2: int)
    requires Parse(s1, dp) == Ok(v1) && Parse(s2, dp) == Ok(v2)
    ensures MIN_INT64 <= v1 <= MAX_INT64 && MIN_INT64 <= v2 <= MAX_INT64
    ensures Format(v1, dp) == Format(v2, dp) <==> DenoteSame(s1, s2)
  {
    ParseIsExact(s1, dp, v1);
    ParseIsExact(s2, dp, v2);
    var neg1, ip1, fp1, n1 :| Denotes(s1, dp, v1, neg1, ip1, fp1, n1);
    var neg2, ip2, fp2, n2 :| Denotes(s2, dp, v2, neg2, ip2, fp2, n2);
    FormatIsInjective(v1, v2, dp);
    SameNumberIffSameScaled(neg1, ip1, fp1, n1, neg2, ip2, fp2, n2, dp);
    OneReading(s1, neg1, ip1, fp1);
    OneReading(s2, neg2, ip2, fp2);
  }

  lemma OneReading(s: string, neg: bool, ip: string, fp: string)
    requires Numeral(s, neg, ip, fp)
    ensures forall neg', ip', fp' :: Numeral(s, neg', ip', fp') ==> neg' == neg && ip' == ip && fp' == fp
  {
    CutsRecover(s, neg, ip, fp);
    forall neg', ip', fp' | Numeral(s, neg', ip', fp')
      ensures neg' == neg && ip' == ip && fp' == fp
    {
      CutsRecover(s, neg', ip', fp');
    }
  }

  lemma SameNumberIffSameScaled(neg1: bool, ip1: string, fp1: string, n1: nat,
                                neg2: bool, ip2: string, fp2: string, n2: nat, dp: nat)
    requires Scales(ip1, fp1, dp, n1) && Scales(ip2, fp2, dp, n2)
    ensures SameNumber(neg1, ip1, fp1, neg2, ip2, fp2) <==> Signed(neg1, n1) == Signed(neg2, n2)
  {
    var a, b, p, q := Value(ip1 + fp1), Value(ip2 + fp2), Pow10(|fp1|), Pow10(|fp2|);
    CrossMultiply(a, p, n1, b, q, n2, Pow10(dp));
    SignsAgree(neg1, a * q, n1, neg2, b * p, n2);
  }

  lemma FormatIsInjective(v1: int, v2: int, dp: int)
    requires MIN_INT64 < v1 <= MAX_INT64 && MIN_INT64 < v2 <= MAX_INT64 && 0 <= dp <= 18
    ensures Format(v1, dp) == Format(v2, dp) <==> v1 == v2
  {
    ParseOfFormat(v1, dp);
    ParseOfFormat(v2, dp);
  }

  lemma SignsAgree(neg1: bool, a: nat, n1: nat, neg2: bool, b: nat, n2: nat)
    requires (a == b <==> n1 == n2) && (a == 0 <==> n1 == 0) && (b == 0 <==> n2 == 0)
    ensures Signed(neg1, a) == Signed(neg2, b) <==> Signed(neg1, n1) == Signed(neg2, n2)
  {
  }

  lemma CrossMultiply(a: nat, p: nat, n: nat, b: nat, q: nat, m: nat, d: nat)
    requires p >= 1 && q >= 1 && d >= 1
    requires n * p == a * d && m * q == b * d
    ensures a * q == b * p <==> n == m
    ensures (a * q == 0 <==> n == 0) && (b * p == 0 <==> m == 0)
  {
    // (a q) d == n (p q) and (b p) d == m (p q)
    calc {
      (a * q) * d;
      (a * d) * q;
      (n * p) * q;
      n * (p * q);
    }
    calc {
      (b * p) * d;
      (b * d) * p;
      (m * q) * p;
      m * (p * q);
    }
    if a * q == b * p {
      CancelRight(n, m, p * q);
    }
    if n == m {
      CancelRight(a * q, b * p, d);
    }
    if n != 0 {
      MulGrows(n, p);
    }
    if m != 0 {
      MulGrows(m, q);
    }
  }
}
