/** The byte string Kraken's book checksum runs over. The CRC32 itself is a parameter. */
module Checksum {
  import opened Norm
  import opened Fixed
  import opened FixedLaws
  import opened Views

  type Places = p: nat | p <= 8

  /** A pair's display precision. */
  datatype Precision = Precision(price: Places, qty: Places)

  /** Go's division truncates toward zero. */
  function Quotient(v: int, d: nat): int
    requires d >= 1
  {
    if v < 0 then -(-v / d) else v / d
  }

  function FormatInt(n: int): string {
    if n < 0 then "-" + Dec(-n) else Dec(n)
  }

  /** A value at eight decimals rendered at the given precision, without dot or leading zeros. */
  function ChecksumField(v: int, precision: Places): string {
    FormatInt(Quotient(v, Pow10(PRICE_DECIMALS - precision)))
  }

  function LevelField(l: Level, prec: Precision): string {
    ChecksumField(l.price, prec.price) + ChecksumField(l.size, prec.qty)
  }

  function Concat(parts: seq<string>): string {
    if parts == [] then "" else Concat(parts[..|parts| - 1]) + parts[|parts| - 1]
  }

  /** Price then quantity of each level, all run together. */
  function Fields(levels: seq<Level>, prec: Precision): string {
    Concat(seq(|levels|, i requires 0 <= i < |levels| => LevelField(levels[i], prec)))
  }

  lemma FieldsNext(levels: seq<Level>, l: Level, prec: Precision)
    ensures Fields(levels + [l], prec) == Fields(levels, prec) + LevelField(l, prec)
  {
    var all := levels + [l];
    var parts := seq(|all|, i requires 0 <= i < |all| => LevelField(all[i], prec));
    assert parts[..|levels|] == seq(|levels|, i requires 0 <= i < |levels| => LevelField(levels[i], prec));
  }

  lemma FieldsUpTo(levels: seq<Level>, i: nat, prec: Precision)
    requires i < |levels|
    ensures Fields(levels[..i + 1], prec)
         == Fields(levels[..i], prec) + (ChecksumField(levels[i].price, prec.price) + ChecksumField(levels[i].size, prec.qty))
  {
    assert levels[..i + 1] == levels[..i] + [levels[i]];
    FieldsNext(levels[..i], levels[i], prec);
  }

  function SideInput(levels: seq<Level>, prec: Precision): string {
    Fields(if |levels| > 10 then levels[..10] else levels, prec)
  }

  /** The ten best asks, then the ten best bids. */
  function ChecksumInput(bids: seq<Level>, asks: seq<Level>, prec: Precision): string {
    SideInput(asks, prec) + SideInput(bids, prec)
  }

  method AppendSide(sb: string, levels: seq<Level>, prec: Precision) returns (r: string)
    ensures r == sb + SideInput(levels, prec)
  {
    r := sb;
    var i := 0;
    while i < |levels| && i < 10
      invariant 0 <= i <= |levels| && i <= 10
      invariant r == sb + Fields(levels[..i], prec)
    {
      FieldsUpTo(levels, i, prec);
      r := r + ChecksumField(levels[i].price, prec.price);
      r := r + ChecksumField(levels[i].size, prec.qty);
      i := i + 1;
    }
    assert levels[..i] == if |levels| > 10 then levels[..10] else levels;
  }

  method BookChecksum(bids: seq<Level>, asks: seq<Level>, prec: Precision, crc: string -> int) returns (sum: int)
    ensures sum == crc(ChecksumInput(bids, asks, prec))
  {
    var sb := AppendSide("", asks, prec);
    sb := AppendSide(sb, bids, prec);
    assert sb == ChecksumInput(bids, asks, prec);
    sum := crc(sb);
  }

  // ----- Agreement with the codec ---------------------------------------------------------

  function DropZeros(s: string): string {
    if s != "" && s[0] == '0' then DropZeros(s[1..]) else s
  }

  lemma {:induction false} DropZerosValue(s: string)
    requires AllDigits(s)
    ensures AllDigits(DropZeros(s)) && Value(DropZeros(s)) == Value(s)
    ensures DropZeros(s) == "" <==> Value(s) == 0
    ensures DropZeros(s) != "" ==> DropZeros(s)[0] != '0'
  {
    if s != "" && s[0] == '0' {
      DropZerosValue(s[1..]);
      assert s == Zeros(1) + s[1..];
      ZerosInFront(1, s[1..]);
    } else if s != "" {
      ZerosValue(s);
    }
  }

  function RemoveDot(s: string): string {
    if s == "" then "" else (if s[0] == '.' then "" else [s[0]]) + RemoveDot(s[1..])
  }

  /** An unsigned decimal: digits, then an optional dot and more digits. */
  ghost predicate Plain(s: string, ip: string, fp: string) {
    AllDigits(ip) && AllDigits(fp) && ip + fp != "" && (s == ip + "." + fp || (fp == "" && s == ip))
  }

  lemma {:induction false} RemoveDotOfDigits(s: string)
    requires AllDigits(s)
    ensures RemoveDot(s) == s
  {
    if s != "" {
      RemoveDotOfDigits(s[1..]);
      assert s == [s[0]] + s[1..];
    }
  }

  lemma {:induction false} RemoveDotJoins(ip: string, fp: string)
    requires AllDigits(ip) && AllDigits(fp)
    ensures RemoveDot(ip + "." + fp) == ip + fp
  {
    var s := ip + "." + fp;
    if ip == "" {
      assert s[0] == '.' && s[1..] == fp;
      RemoveDotOfDigits(fp);
      assert ip + fp == fp;
    } else {
      assert s[0] == ip[0] && s[1..] == ip[1..] + "." + fp;
      RemoveDotJoins(ip[1..], fp);
      assert [ip[0]] + (ip[1..] + fp) == ip + fp;
    }
  }

  lemma PlainIsNumeral(s: string, ip: string, fp: string)
    requires Plain(s, ip, fp)
    ensures Numeral(s, false, ip, fp) && RemoveDot(s) == ip + fp
  {
    if s == ip + "." + fp {
      assert SpeltWith(s, false, "", ip, ".", fp);
      RemoveDotJoins(ip, fp);
    } else {
      assert SpeltWith(s, false, "", ip, "", fp);
      RemoveDotOfDigits(ip);
      assert ip + fp == ip;
    }
  }

  /** For a decimal written with exactly prec fraction digits, the checksum field of its parsed
      value is its text with the dot and the leading zeros removed, exactly when it is not zero
      (zero renders as "0"). */
  lemma FieldAgreesWithCodec(s: string, ip: string, fp: string, prec: Places, v: int)
    requires Plain(s, ip, fp) && |fp| == prec
    requires Parse(s, PRICE_DECIMALS) == Ok(v)
    ensures ChecksumField(v, prec) == DropZeros(RemoveDot(s)) <==> v != 0
    ensures v == 0 ==> ChecksumField(v, prec) == "0"
  {
    var d := ip + fp;
    PlainIsNumeral(s, ip, fp);
    FieldIsDec(s, ip, fp, prec, v);
    DecSpells(Value(d));
    DropZerosValue(d);
    if Value(d) > 0 {
      SpellingUnique(Dec(Value(d)), DropZeros(d));
    }
  }

  /** A text shown at full precision for a positive value. */
  ghost predicate Shows(s: string, prec: Places, v: int) {
    v != 0 && Parse(s, PRICE_DECIMALS) == Ok(v) && exists ip, fp :: Plain(s, ip, fp) && |fp| == prec
  }

  ghost predicate ShowLevels(texts: seq<(string, string)>, levels: seq<Level>, prec: Precision) {
    && |texts| == |levels|
    && forall i :: 0 <= i < |levels| ==> ShowsLevel(texts[i], levels[i], prec)
  }

  ghost predicate ShowsLevel(t: (string, string), l: Level, prec: Precision) {
    Shows(t.0, prec.price, l.price) && Shows(t.1, prec.qty, l.size)
  }

  function Bare(t: (string, string)): string {
    DropZeros(RemoveDot(t.0)) + DropZeros(RemoveDot(t.1))
  }

  /** The string as the venue describes it, read off its own level texts from the front. */
  function VenueString(texts: seq<(string, string)>): string {
    if texts == [] then "" else Bare(texts[0]) + VenueString(texts[1..])
  }

  lemma {:induction false} ConcatFromFront(parts: seq<string>)
    requires parts != []
    ensures Concat(parts) == parts[0] + Concat(parts[1..])
  {
    if |parts| == 1 {
      assert parts[..0] == [] && parts[1..] == [];
    } else {
      var init, last := parts[..|parts| - 1], parts[|parts| - 1];
      ConcatFromFront(init);
      var tail := parts[1..];
      assert tail[..|tail| - 1] == init[1..] && tail[|tail| - 1] == last;
      assert Concat(parts) == Concat(init) + last && Concat(tail) == Concat(init[1..]) + last;
    }
  }

  lemma {:induction false} VenueStringIsConcat(texts: seq<(string, string)>)
    ensures VenueString(texts) == Concat(seq(|texts|, i requires 0 <= i < |texts| => Bare(texts[i])))
  {
    if texts != [] {
      var parts, tail := seq(|texts|, i requires 0 <= i < |texts| => Bare(texts[i])), texts[1..];
      ConcatFromFront(parts);
      VenueStringIsConcat(tail);
      assert parts[1..] == seq(|tail|, i requires 0 <= i < |tail| => Bare(tail[i]));
    }
  }

  lemma FieldsSpellTexts(texts: seq<(string, string)>, levels: seq<Level>, prec: Precision)
    requires ShowLevels(texts, levels, prec)
    ensures Fields(levels, prec) == VenueString(texts)
  {
    VenueStringIsConcat(texts);
    var bare := seq(|texts|, i requires 0 <= i < |texts| => Bare(texts[i]));
    var fields := seq(|levels|, i requires 0 <= i < |levels| => LevelField(levels[i], prec));
    forall i | 0 <= i < |levels|
      ensures fields[i] == bare[i]
    {
      ShownLevel(texts[i], levels[i], prec);
    }
    assert fields == bare;
  }

  lemma ShownLevel(t: (string, string), l: Level, prec: Precision)
    requires ShowsLevel(t, l, prec)
    ensures LevelField(l, prec) == Bare(t)
  {
    ShownField(t.0, prec.price, l.price);
    ShownField(t.1, prec.qty, l.size);
  }

  lemma ShownField(s: string, prec: Places, v: int)
    requires Shows(s, prec, v)
    ensures ChecksumField(v, prec) == DropZeros(RemoveDot(s))
  {
    var ip, fp :| Plain(s, ip, fp) && |fp| == prec;
    FieldAgreesWithCodec(s, ip, fp, prec, v);
  }

  /** For a window of positive levels the bytes handed to the CRC are the venue's own texts, bare of
      dots and leading zeros: asks from the best up, then bids from the best down. */
  lemma InputSpellsTexts(bidTexts: seq<(string, string)>, askTexts: seq<(string, string)>,
                         bids: seq<Level>, asks: seq<Level>, prec: Precision)
    requires |bids| <= 10 && |asks| <= 10
    requires ShowLevels(bidTexts, bids, prec) && ShowLevels(askTexts, asks, prec)
    ensures ChecksumInput(bids, asks, prec) == VenueString(askTexts) + VenueString(bidTexts)
  {
    FieldsSpellTexts(askTexts, asks, prec);
    FieldsSpellTexts(bidTexts, bids, prec);
  }

  lemma FieldIsDec(s: string, ip: string, fp: string, prec: Places, v: int)
    requires Numeral(s, false, ip, fp) && |fp| == prec
    requires Parse(s, PRICE_DECIMALS) == Ok(v)
    ensures ChecksumField(v, prec) == Dec(Value(ip + fp))
    ensures v == 0 <==> Value(ip + fp) == 0
  {
    var n, p := Value(ip + fp), Pow10(PRICE_DECIMALS - prec);
    CutsRecover(s, false, ip, fp);
    assert Kept(fp, PRICE_DECIMALS) == fp;
    assert v == n * p;
    MulDiv(n, p);
    MulGrows(n, p);
  }

  lemma MulDiv(n: nat, p: nat)
    requires p >= 1
    ensures n * p >= 0 && Quotient(n * p, p) == n
  {
    DivUnique(n * p, p, n);
  }

  lemma DivUnique(m: nat, p: nat, n: nat)
    requires p >= 1 && m == n * p
    ensures m / p == n
  {
    var q, r := m / p, m % p;
    assert m == q * p + r;
    assert (n - q) * p == r;
    if n > q {
      MulMono(1, n - q, p);
    }
  }

  /** Trimming to ten levels does not change what the current frame's checksum runs over, and that
      is the depth-ten view. */
  lemma TrimKeepsChecksumInput(l: Levels, prec: Precision)
    ensures var t := TrimLevels(l, 10);
            ChecksumInput(DepthOf(t.bids, 10, true), DepthOf(t.asks, 10, false), prec)
            == ChecksumInput(DepthOf(l.bids, 10, true), DepthOf(l.asks, 10, false), prec)
  {
    TrimThenDepth(l.bids, 10, 10, true);
    TrimThenDepth(l.asks, 10, 10, false);
  }

  /** A field spells its value cut to the pair's precision, without dot or leading zeros ... */
  lemma FieldTruncates(v: int, prec: Places)
    requires v >= 0
    ensures Unpadded(ChecksumField(v, prec)) && IsCut(Value(ChecksumField(v, prec)), v, Pow10(8 - prec))
  {
    QuotientBounds(v, Pow10(8 - prec));
    DecShowsCut(v / Pow10(8 - prec), v, Pow10(8 - prec));
  }

  lemma DecShowsCut(n: int, v: int, unit: nat)
    requires n >= 0 && IsCut(n, v, unit)
    ensures Unpadded(Dec(n)) && IsCut(Value(Dec(n)), v, unit)
  {
    DecSpells(n);
  }

  /** n whole units fit into v, and no more. */
  ghost predicate IsCut(n: nat, v: int, unit: nat) {
    n * unit <= v < (n + 1) * unit
  }

  /** ... toward zero: a minus sign shows only if something is left of a negative value. */
  lemma NegatedField(v: int, prec: Places)
    requires v >= 0
    ensures ChecksumField(-v, prec) == if ChecksumField(v, prec) == "0" then "0" else "-" + ChecksumField(v, prec)
  {
    var unit := Pow10(8 - prec);
    QuotientBounds(v, unit);
    NegatedQuotient(v, unit);
    FormatNegated(v / unit);
  }

  lemma NegatedQuotient(v: int, d: nat)
    requires v >= 0 && d >= 1
    ensures Quotient(v, d) == v / d && Quotient(-v, d) == -(v / d)
  {
    if v == 0 {
      assert 0 / d == 0;
    }
  }

  lemma FormatNegated(n: int)
    requires n >= 0
    ensures FormatInt(-n) == if FormatInt(n) == "0" then "0" else "-" + FormatInt(n)
  {
    DecOfZero(n);
  }

  lemma QuotientBounds(v: nat, unit: nat)
    requires unit >= 1
    ensures v / unit >= 0 && IsCut(v / unit, v, unit)
  {
    var q, r := v / unit, v % unit;
    assert v == q * unit + r;
    assert (q + 1) * unit == q * unit + unit;
  }

  lemma DecOfZero(n: nat)
    ensures Dec(n) == "0" <==> n == 0
  {
    DecSpells(n);
    assert Value("0") == 0 by { ZerosValue("0"); }
  }

  /** A bid of 1 at 100.5 and asks of 2 at 101.5 and 3 at 102.5, prices with one decimal and sizes
      with none. */
  lemma SmallBook()
    ensures var bids, asks := [Level(100_5000_0000, 1_0000_0000)],
                              [Level(101_5000_0000, 2_0000_0000), Level(102_5000_0000, 3_0000_0000)];
            ChecksumInput(bids, asks, Precision(1, 0)) == ("1015" + "2") + ("1025" + "3") + ("1005" + "1")
  {
    var bid, ask1, ask2 := Level(100_5000_0000, 1_0000_0000), Level(101_5000_0000, 2_0000_0000), Level(102_5000_0000, 3_0000_0000);
    TenthsLevel(bid, 1005, 1);
    TenthsLevel(ask1, 1015, 2);
    TenthsLevel(ask2, 1025, 3);
    SmallNumbers();
    OneField(bid, Precision(1, 0));
    OneField(ask1, Precision(1, 0));
    FieldsNext([ask1], ask2, Precision(1, 0));
    assert [ask1] + [ask2] == [ask1, ask2];
  }

  lemma OneField(l: Level, prec: Precision)
    ensures Fields([l], prec) == LevelField(l, prec)
  {
    FieldsNext([], l, prec);
    assert [] + [l] == [l];
  }

  lemma SmallNumbers()
    ensures Dec(1) == "1" && Dec(2) == "2" && Dec(3) == "3"
    ensures Dec(1005) == "1005" && Dec(1015) == "1015" && Dec(1025) == "1025"
  {
    assert Dec(1) == "1";
    assert Dec(10) == Dec(1) + "0";
    assert Dec(100) == Dec(10) + "0" && Dec(101) == Dec(10) + "1" && Dec(102) == Dec(10) + "2";
    assert Dec(1005) == Dec(100) + "5" && Dec(1015) == Dec(101) + "5" && Dec(1025) == Dec(102) + "5";
  }

  lemma TenthsLevel(l: Level, price: nat, size: nat)
    requires l == Level(price * 1000_0000, size * 1_0000_0000)
    ensures LevelField(l, Precision(1, 0)) == Dec(price) + Dec(size)
  {
    Pow10Table(7);
    Pow10Table(8);
    MulDiv(price, 1000_0000);
    MulDiv(size, 1_0000_0000);
  }
}
