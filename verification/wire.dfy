/** Level text as it comes off the wire, turned into fixed-point levels. */
module Wire {
  import opened Norm
  import Fixed

  type LevelText = (string, string)

  function ParseLevel(price: string, size: string): Result<Level, Fixed.Error> {
    match Fixed.Parse(price, Fixed.PRICE_DECIMALS)
    case Err(e) => Err(e)
    case Ok(p) =>
      match Fixed.Parse(size, Fixed.SIZE_DECIMALS)
      case Err(e) => Err(e)
      case Ok(z) => Ok(Level(p, z))
  }

  /** Everything parsed in order, or the error of the first that does not parse. */
  function ParseAll<T, U, E>(xs: seq<T>, parse: T -> Result<U, E>): Result<seq<U>, E> {
    if xs == [] then Ok([])
    else
      match ParseAll(xs[..|xs| - 1], parse)
      case Err(e) => Err(e)
      case Ok(us) =>
        match parse(xs[|xs| - 1])
        case Err(e) => Err(e)
        case Ok(u) => Ok(us + [u])
  }

  /** One for one, us are what xs parse to. */
  ghost predicate ParsesTo<T, U, E>(xs: seq<T>, parse: T -> Result<U, E>, us: seq<U>) {
    |us| == |xs| && forall i :: 0 <= i < |xs| ==> parse(xs[i]) == Ok(us[i])
  }

  lemma {:induction false} ParseAllIsPointwise<T, U, E>(xs: seq<T>, parse: T -> Result<U, E>, us: seq<U>)
    ensures ParseAll(xs, parse) == Ok(us) <==> ParsesTo(xs, parse, us)
  {
    if xs != [] && us != [] {
      var init := us[..|us| - 1];
      ParseAllIsPointwise(xs[..|xs| - 1], parse, init);
      assert us == init + [us[|us| - 1]];
    }
  }

  lemma {:induction false} FirstErrorWins<T, U, E>(xs: seq<T>, parse: T -> Result<U, E>, i: nat)
    requires i < |xs| && ParseAll(xs[..i], parse).Ok? && parse(xs[i]).Err?
    ensures ParseAll(xs, parse) == Err(parse(xs[i]).error)
    decreases |xs|
  {
    if i == |xs| - 1 {
    } else {
      assert xs[..|xs| - 1][..i] == xs[..i];
      FirstErrorWins(xs[..|xs| - 1], parse, i);
    }
  }

  function ParseText(t: LevelText): Result<Level, Fixed.Error> {
    ParseLevel(t.0, t.1)
  }

  method ReadLevel(price: string, size: string) returns (r: Result<Level, Fixed.Error>)
    ensures r == ParseLevel(price, size)
  {
    var p := Fixed.ParseFixed(price, Fixed.PRICE_DECIMALS);
    if p.Err? {
      return Err(p.error);
    }
    var z := Fixed.ParseFixed(size, Fixed.SIZE_DECIMALS);
    if z.Err? {
      return Err(z.error);
    }
    return Ok(Level(p.value as int, z.value as int));
  }

  method ReadLevels(texts: seq<LevelText>) returns (r: Result<seq<Level>, Fixed.Error>)
    ensures r == ParseAll(texts, ParseText)
  {
    var out := [];
    for i := 0 to |texts|
      invariant ParseAll(texts[..i], ParseText) == Ok(out)
    {
      assert texts[..i + 1][..i] == texts[..i];
      var l := ReadLevel(texts[i].0, texts[i].1);
      if l.Err? {
        FirstErrorWins(texts, ParseText, i);
        return Err(l.error);
      }
      out := out + [l.value];
    }
    assert texts[..|texts|] == texts;
    return Ok(out);
  }
}
