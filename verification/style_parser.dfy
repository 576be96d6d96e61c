/** The recursive-descent style-sheet parser. Every scanner takes the
    remaining input and returns what it read together with the input that
    is left; a thrown `std::runtime_error` (or an `std::invalid_argument`
    from `std::stof`) is a `Failure`. Reading past the end of the input
    yields `'\0'` and consumes nothing, as the C++ `peek`/`next` do. */
module StyleParser {
  import opened Wrappers
  import opened Chars
  import opened Style

  datatype ParseError =
    | Expected(c: char)
    | ExpectedNumber
    | BadNumber
    | ExpectedHex
    | InvalidColor
    | NoColor          // `nextColor` reaches its end without a `return`
    | ExpectedQuote    // every quoted string is rejected
    | InvalidParam
    | InvalidValue
    | UnknownFunction(name: string)
    | TooManyParams    // a 17th argument would be written past the array
    | Stuck            // a non-letter at top level: the C++ loop spins forever

  /** A value read and the input left after it. */
  datatype Parsed<+T> = Parsed(value: T, rest: seq<char>)

  /** `rest` is what is left of `s` after consuming a prefix. */
  predicate Suffix(rest: seq<char>, s: seq<char>) {
    |rest| <= |s| && rest == s[|s| - |rest|..]
  }

  const NUL: char := 0 as char

  function Peek(s: seq<char>): (c: char)
    ensures |s| > 0 ==> c == s[0]
    ensures |s| == 0 ==> c == NUL
  {
    if |s| == 0 then NUL else s[0]
  }

  /** Drops one character, or nothing at the end of the input. */
  function Next(s: seq<char>): (r: seq<char>)
    ensures Suffix(r, s)
    ensures |s| > 0 ==> |r| == |s| - 1
  {
    if |s| == 0 then s else s[1..]
  }

  predicate IsIdentChar(c: char) { IsAlnum(c) || c == '_' || c == '-' }

  predicate IsNumberChar(c: char) { IsDigit(c) || c == '.' || c == '-' }

  function SkipSpaces(s: seq<char>): (r: seq<char>)
    ensures Suffix(r, s)
    ensures forall i :: 0 <= i < |s| - |r| ==> IsSpace(s[i])
    ensures |r| > 0 ==> !IsSpace(r[0])
  {
    s[Span(s, IsSpace)..]
  }

  lemma SkipSpacesNone(s: seq<char>)
    requires |s| > 0 ==> !IsSpace(s[0])
    ensures SkipSpaces(s) == s
  {
    assert s[0..] == s;
  }

  /** `skipIfPresentAndSpaces(c)`: white space, then `c`, then white space;
      a different character (or the end) after the first white space is an
      error. */
  function SkipIfPresentAndSpaces(c: char, s: seq<char>): (r: Result<seq<char>, ParseError>)
    ensures r.Success? <==> Peek(SkipSpaces(s)) == c
    ensures r.Failure? ==> r.error == Expected(c)
    ensures r.Success? ==> |r.value| <= |s|
    ensures r.Success? && c != NUL ==> |r.value| < |s|
    ensures r.Success? ==> |r.value| > 0 ==> !IsSpace(r.value[0])
  {
    var t := SkipSpaces(s);
    if Peek(t) != c then Failure(Expected(c))
    else
      var u := SkipSpaces(Next(t));
      Success(u)
  }

  /** `nextIndentifier`: the maximal `[A-Za-z0-9_-]` prefix. */
  function NextIdentifier(s: seq<char>): (r: Parsed<string>)
    ensures r.value + r.rest == s
    ensures Suffix(r.rest, s)
    ensures forall i :: 0 <= i < |r.value| ==> IsIdentChar(r.value[i])
    ensures |r.rest| > 0 ==> !IsIdentChar(r.rest[0])
  {
    var n := Span(s, IsIdentChar);
    assert s[..n] + s[n..] == s;
    Parsed(s[..n], s[n..])
  }

  /** `peekIndentifier`: reads an identifier and puts its characters back. */
  function PeekIdentifier(s: seq<char>): (r: Parsed<string>)
    ensures r.rest == s
  {
    var id := NextIdentifier(s);
    Parsed(id.value, id.value + id.rest)
  }

  /** The identifier a peek reports is the one a read would consume. */
  lemma PeekMatchesNext(s: seq<char>)
    ensures PeekIdentifier(s).value == NextIdentifier(s).value
    ensures PeekIdentifier(s).value + NextIdentifier(s).rest == s
  {
  }

  /** The identifier is unique: any split into an identifier prefix that is
      not followed by an identifier character is the one read. */
  lemma NextIdentifierUnique(id: string, rest: seq<char>)
    requires forall i :: 0 <= i < |id| ==> IsIdentChar(id[i])
    requires |rest| > 0 ==> !IsIdentChar(rest[0])
    ensures NextIdentifier(id + rest) == Parsed(id, rest)
  {
    var s := id + rest;
    SpanUnique(s, IsIdentChar, |id|);
    assert s[..|id|] == id && s[|id|..] == rest;
  }

  /** `nextNumber`: a digit or `-` must come first; the maximal run of
      `[0-9.-]` is handed to `std::stof`. */
  function NextNumber(s: seq<char>): (r: Result<Parsed<real>, ParseError>)
    ensures !IsDigit(Peek(s)) && Peek(s) != '-' ==> r == Failure(ExpectedNumber)
    ensures r.Success? ==> |r.value.rest| < |s|
    ensures r.Success? ==> |r.value.rest| > 0 ==> !IsNumberChar(r.value.rest[0])
    ensures r.Success? ==> exists n :: 0 < n <= |s| && r.value.rest == s[n..] && StoF(s[..n]) == Success(r.value.value)
  {
    if !IsDigit(Peek(s)) && Peek(s) != '-' then Failure(ExpectedNumber)
    else
      var n := Span(s, IsNumberChar);
      assert IsNumberChar(s[0]);
      match StoF(s[..n])
      case Failure(_) => Failure(BadNumber)
      case Success(v) => Success(Parsed(v, s[n..]))
  }

  /** Printing a number and reading it back gives the number, whatever
      non-number text follows. */
  lemma NextNumberOfNatToString(n: nat, rest: seq<char>)
    requires |rest| > 0 ==> !IsNumberChar(rest[0])
    ensures NextNumber(NatToString(n) + rest) == Success(Parsed(n as real, rest))
  {
    var d := NatToString(n);
    var s := d + rest;
    assert Peek(s) == d[0];
    SpanUnique(s, IsNumberChar, |d|);
    assert s[..|d|] == d && s[|d|..] == rest;
    StoFOfNatToString(n);
  }

  /** `nextHexByte`: the first character must be a hex digit; two
      characters are consumed and `std::stol(…, 16)` reads one or two hex
      digits of them. */
  function NextHexByte(s: seq<char>): (r: Result<Parsed<nat>, ParseError>)
    ensures r.Success? <==> |s| > 0 && IsXDigit(s[0])
    ensures r.Success? ==> r.value.value < 256
    ensures r.Success? ==> r.value.rest == s[if |s| >= 2 then 2 else 1..]
    ensures r.Success? ==> |r.value.rest| < |s|
  {
    if !IsXDigit(Peek(s)) then Failure(ExpectedHex)
    else if |s| >= 2 && IsXDigit(s[1]) then Success(Parsed(16 * HexValue(s[0]) + HexValue(s[1]), s[2..]))
    else Success(Parsed(HexValue(s[0]), if |s| >= 2 then s[2..] else s[1..]))
  }

  /** Two upper-case hex digits of a byte. */
  function HexByteString(b: nat): (r: seq<char>)
    requires b < 256
    ensures |r| == 2 && IsXDigit(r[0]) && IsXDigit(r[1])
  {
    [HexDigit(b / 16), HexDigit(b % 16)]
  }

  function HexDigit(v: nat): (c: char)
    requires v < 16
    ensures IsXDigit(c) && HexValue(c) == v
  {
    if v < 10 then ('0' as int + v) as char else ('A' as int + v - 10) as char
  }

  lemma NextHexByteRoundTrip(b: nat, rest: seq<char>)
    requires b < 256
    ensures NextHexByte(HexByteString(b) + rest) == Success(Parsed(b, rest))
  {
    var s := HexByteString(b) + rest;
    assert s[2..] == rest;
  }

  // ----- colours --------------------------------------------------------------

  /** The achromatic threshold of `hsl2rgb`. */
  const AchromaticEps: real := 0.00001

  /** `hue2rgb`: one channel over the hue circle, low at `p` and high at
      `q`, with a rising ramp before the high plateau and a falling one
      after it. */
  function Hue2Rgb(p: real, q: real, t0: real): (r: real)
    ensures 0.0 <= t0 <= 1.0 / 6.0 ==> r == p + (q - p) * 6.0 * t0
    ensures 1.0 / 6.0 <= t0 <= 1.0 / 2.0 ==> r == q
    ensures 2.0 / 3.0 <= t0 <= 1.0 ==> r == p
    ensures -1.0 <= t0 < 0.0 && 2.0 / 3.0 <= t0 + 1.0 ==> r == p
  {
    var t1 := if t0 < 0.0 then t0 + 1.0 else t0;
    var t := if t1 > 1.0 then t1 - 1.0 else t1;
    if t < 1.0 / 6.0 then p + (q - p) * 6.0 * t
    else if t < 1.0 / 2.0 then q
    else if t < 2.0 / 3.0 then p + (q - p) * (2.0 / 3.0 - t) * 6.0
    else p
  }

  /** `hsl2rgb`: the red, green and blue channels (the caller sets alpha). */
  function Hsl2Rgb(h: real, s: real, l: real): (c: Color)
    ensures c.a == 1.0
    ensures -AchromaticEps <= s <= AchromaticEps ==> c.r == l && c.g == l && c.b == l
  {
    if -AchromaticEps <= s <= AchromaticEps then Color(l, l, l, 1.0)
    else
      var q := if l < 0.5 then l * (1.0 + s) else l + s - l * s;
      var p := 2.0 * l - q;
      Color(Hue2Rgb(p, q, h + 1.0 / 3.0), Hue2Rgb(p, q, h), Hue2Rgb(p, q, h - 1.0 / 3.0), 1.0)
  }

  /** For a hue shifted by at most one turn either way, the channel lies
      between `p` and `q`. */
  lemma Hue2RgbBetween(p: real, q: real, t0: real)
    requires p <= q
    requires -1.0 <= t0 <= 2.0
    ensures p <= Hue2Rgb(p, q, t0) <= q
  {
    var t1 := if t0 < 0.0 then t0 + 1.0 else t0;
    var t := if t1 > 1.0 then t1 - 1.0 else t1;
    if t < 1.0 / 6.0 {
      LerpBetween(p, q, 6.0 * t, (q - p) * 6.0 * t);
    } else if t < 1.0 / 2.0 {
    } else if t < 2.0 / 3.0 {
      LerpBetween(p, q, (2.0 / 3.0 - t) * 6.0, (q - p) * (2.0 / 3.0 - t) * 6.0);
    }
  }

  lemma LerpBetween(p: real, q: real, f: real, m: real)
    requires p <= q && 0.0 <= f <= 1.0
    requires m == (q - p) * f
    ensures p <= p + m <= q
  {
    MulBetween(q - p, f);
  }

  lemma MulBetween(d: real, f: real)
    requires d >= 0.0 && 0.0 <= f <= 1.0
    ensures 0.0 <= d * f <= d
  {
  }

  /** The two intermediate levels of `hsl2rgb` are ordered and in `[0,1]`. */
  lemma HslLevels(s: real, l: real)
    requires 0.0 <= s <= 1.0 && 0.0 <= l <= 1.0
    ensures var q := if l < 0.5 then l * (1.0 + s) else l + s - l * s;
      0.0 <= 2.0 * l - q <= q <= 1.0
  {
    if l < 0.5 {
      LevelsLow(s, l, l * s);
      assert l * (1.0 + s) == l + l * s;
    } else {
      LevelsHigh(s, l, (1.0 - l) * s);
      assert l + s - l * s == l + (1.0 - l) * s;
    }
  }

  lemma LevelsLow(s: real, l: real, d: real)
    requires 0.0 <= s <= 1.0 && 0.0 <= l < 0.5
    requires d == l * s
    ensures 0.0 <= l - d <= l + d <= 1.0
  {
    MulBetween(l, s);
    assert 0.0 <= d <= l;
  }

  lemma LevelsHigh(s: real, l: real, d: real)
    requires 0.0 <= s <= 1.0 && 0.5 <= l <= 1.0
    requires d == (1.0 - l) * s
    ensures 0.0 <= l - d <= l + d <= 1.0
  {
    MulBetween(1.0 - l, s);
    assert 0.0 <= d <= 1.0 - l;
  }

  /** HSL inputs in `[0,1]` give RGB channels in `[0,1]`. */
  lemma Hsl2RgbInRange(h: real, s: real, l: real)
    requires 0.0 <= h <= 1.0 && 0.0 <= s <= 1.0 && 0.0 <= l <= 1.0
    ensures var c := Hsl2Rgb(h, s, l);
      0.0 <= c.r <= 1.0 && 0.0 <= c.g <= 1.0 && 0.0 <= c.b <= 1.0
  {
    if !(-AchromaticEps <= s <= AchromaticEps) {
      var q := if l < 0.5 then l * (1.0 + s) else l + s - l * s;
      var p := 2.0 * l - q;
      HslLevels(s, l);
      Hue2RgbBetween(p, q, h + 1.0 / 3.0);
      Hue2RgbBetween(p, q, h);
      Hue2RgbBetween(p, q, h - 1.0 / 3.0);
    }
  }

  /** Hue 0 at full saturation and half lightness is pure red. */
  lemma Hsl2RgbRed()
    ensures Hsl2Rgb(0.0, 1.0, 0.5) == Color(1.0, 0.0, 0.0, 1.0)
  {
  }

  predicate IsColorFunction(name: string) {
    name == "rgb" || name == "rgba" || name == "hsl" || name == "hsla"
  }

  /** `k` numbers separated by commas (with white space around the commas). */
  function NumberList(s: seq<char>, k: nat): (r: Result<Parsed<seq<real>>, ParseError>)
    requires k >= 1
    ensures r.Success? ==> |r.value.value| == k
    ensures r.Success? ==> |r.value.rest| < |s|
    decreases k
  {
    var n :- NextNumber(s);
    if k == 1 then Success(Parsed([n.value], n.rest))
    else
      var t :- SkipIfPresentAndSpaces(',', n.rest);
      var more :- NumberList(t, k - 1);
      Success(Parsed([n.value] + more.value, more.rest))
  }

  /** The channels a colour function computes from its arguments. */
  function ColorFromArgs(name: string, v: seq<real>): (c: Color)
    requires IsColorFunction(name)
    requires |v| == if name == "rgba" || name == "hsla" then 4 else 3
    ensures name == "rgb" || name == "hsl" ==> c.a == 1.0
    ensures name == "rgba" || name == "hsla" ==> c.a == v[3]
  {
    if name == "rgb" then Color(v[0] / 255.0, v[1] / 255.0, v[2] / 255.0, 1.0)
    else if name == "rgba" then Color(v[0] / 255.0, v[1] / 255.0, v[2] / 255.0, v[3])
    else if name == "hsl" then Hsl2Rgb(v[0], v[1], v[2])
    else Hsl2Rgb(v[0], v[1], v[2]).(a := v[3])
  }

  /** `nextColor`: `#RRGGBB` (channels `byte/255`, alpha 1), or a
      case-insensitive `rgb(…)`, `rgba(…)`, `hsl(…)`, `hsla(…)`. */
  function NextColor(s: seq<char>): (r: Result<Parsed<Color>, ParseError>)
    ensures Peek(s) != '#' && !IsAlpha(Peek(s)) ==> r == Failure(NoColor)
    ensures (&& IsAlpha(Peek(s))
             && Peek(SkipSpaces(NextIdentifier(s).rest)) == '('
             && !IsColorFunction(Lower(NextIdentifier(s).value))) ==> r == Failure(InvalidColor)
    ensures r.Success? ==> |r.value.rest| < |s|
    ensures r.Success? && Peek(s) == '#' ==> r.value.value.a == 1.0
  {
    if Peek(s) == '#' then
      var b1 :- NextHexByte(s[1..]);
      var b2 :- NextHexByte(b1.rest);
      var b3 :- NextHexByte(b2.rest);
      Success(Parsed(Color(b1.value as real / 255.0, b2.value as real / 255.0, b3.value as real / 255.0, 1.0), b3.rest))
    else if IsAlpha(Peek(s)) then
      var id := NextIdentifier(s);
      var name := Lower(id.value);
      var t :- SkipIfPresentAndSpaces('(', id.rest);
      if !IsColorFunction(name) then Failure(InvalidColor)
      else
        var args :- NumberList(t, if name == "rgba" || name == "hsla" then 4 else 3);
        var u :- SkipIfPresentAndSpaces(')', args.rest);
        Success(Parsed(ColorFromArgs(name, args.value), u))
    else Failure(NoColor)
  }

  /** `#` followed by three printed bytes reads back as those bytes over 255. */
  lemma NextColorHexRoundTrip(r: nat, g: nat, b: nat, rest: seq<char>)
    requires r < 256 && g < 256 && b < 256
    ensures NextColor(['#'] + HexByteString(r) + HexByteString(g) + HexByteString(b) + rest)
         == Success(Parsed(Color(r as real / 255.0, g as real / 255.0, b as real / 255.0, 1.0), rest))
  {
    var tail := HexByteString(g) + HexByteString(b) + rest;
    var s := ['#'] + HexByteString(r) + tail;
    assert s[1..] == HexByteString(r) + tail;
    NextHexByteRoundTrip(r, tail);
    assert tail == HexByteString(g) + (HexByteString(b) + rest);
    NextHexByteRoundTrip(g, HexByteString(b) + rest);
    NextHexByteRoundTrip(b, rest);
    assert s == ['#'] + HexByteString(r) + HexByteString(g) + HexByteString(b) + rest;
  }

  // ----- values, parameters and packs ----------------------------------------

  /** `nextParam`: a number (no leading `-`), a colour, or an enum word. */
  function NextParam(s: seq<char>): (r: Result<Parsed<Param>, ParseError>)
    ensures r.Success? ==> |r.value.rest| < |s|
    ensures r.Success? ==> r.value.value != NoParam
    ensures r.Success? && r.value.value.NumberParam? ==> IsDigit(Peek(s))
    ensures !IsDigit(Peek(s)) && Peek(s) != '#' && !IsAlpha(Peek(s)) ==> r == Failure(InvalidParam)
  {
    var c := Peek(s);
    if IsDigit(c) then
      var n :- NextNumber(s);
      Success(Parsed(NumberParam(n.value), n.rest))
    else if c == '#' then
      var col :- NextColor(s);
      Success(Parsed(ColorParam(col.value), col.rest))
    else if IsAlpha(c) then
      if IsColorFunction(Lower(PeekIdentifier(s).value)) then
        var col :- NextColor(s);
        Success(Parsed(ColorParam(col.value), col.rest))
      else
        var id := NextIdentifier(s);
        Success(Parsed(EnumParam(id.value), SkipSpaces(id.rest)))
    else Failure(InvalidParam)
  }

  /** One argument with the white space after it and, unless the
      closing parenthesis follows, the separating comma. */
  function ParamItem(s: seq<char>): (r: Result<Parsed<Param>, ParseError>)
    ensures r.Success? ==> |r.value.rest| < |s|
    ensures r.Success? ==> r.value.value != NoParam
  {
    var p :- NextParam(s);
    var t := SkipSpaces(p.rest);
    if Peek(t) != ')' then
      var u :- SkipIfPresentAndSpaces(',', t);
      Success(Parsed(p.value, u))
    else Success(Parsed(p.value, t))
  }

  /** Reads one item from the front of the text. */
  type Reader<T> = seq<char> -> Result<Parsed<T>, ParseError>

  /** `read` consumes input whenever it succeeds. */
  ghost predicate Consumes<T>(read: Reader<T>)
  {
    forall u :: read(u).Success? ==> |read(u).value.rest| < |u|
  }

  /** The argument loop of a style-function call: arguments up to the
      closing parenthesis, stored from slot `i` on. The loop is written over
      the item reader it calls (`ParamItem` in the parser), so that what it
      stores is proved once for any reader that consumes input. */
  function Params(item: Reader<Param>, s: seq<char>, i: nat, acc: seq<Param>): (r: Result<Parsed<seq<Param>>, ParseError>)
    requires Consumes(item)
    requires i <= ParamCount == |acc|
    ensures r.Success? ==> |r.value.rest| < |s|
    ensures r.Success? ==> |r.value.value| == ParamCount
    ensures r.Success? ==> forall j :: 0 <= j < i ==> r.value.value[j] == acc[j]
    decreases |s|
  {
    if Peek(s) == ')' || |s| == 0 then
      var t :- SkipIfPresentAndSpaces(')', s);
      Success(Parsed(acc, t))
    else
      var p :- item(s);
      if i >= ParamCount then Failure(TooManyParams)
      else
        var more :- Params(item, p.rest, i + 1, acc[i := p.value]);
        Success(more)
  }

  /** The arguments as `item` reads them in turn, with no limit on their
      number: the reference the sixteen-slot loop is measured against. */
  function ArgList(item: Reader<Param>, s: seq<char>): (r: Result<Parsed<seq<Param>>, ParseError>)
    requires Consumes(item)
    ensures r.Success? ==> |r.value.rest| < |s|
    decreases |s|
  {
    if Peek(s) == ')' || |s| == 0 then
      var t :- SkipIfPresentAndSpaces(')', s);
      Success(Parsed([], t))
    else
      var p :- item(s);
      var more :- ArgList(item, p.rest);
      Success(Parsed([p.value] + more.value, more.rest))
  }

  /** The loop's result `r` from slot `i` on stores exactly the
      arguments the reference reading `a` found, and fails with
      `TooManyParams` when they do not fit. */
  predicate StoresArgs(r: Result<Parsed<seq<Param>>, ParseError>, a: Result<Parsed<seq<Param>>, ParseError>,
                       i: nat, acc: seq<Param>)
    requires i <= |acc|
  {
    && (r.Success? <==> a.Success? && i + |a.value.value| <= |acc|)
    && (r.Success? ==> r.value == Parsed(acc[..i] + a.value.value + acc[i + |a.value.value|..], a.value.rest))
    && (a.Success? && i + |a.value.value| > |acc| ==> r == Failure(TooManyParams))
  }

  /** The argument loop stores what `ArgList` reads. */
  lemma {:induction false} ParamsIsArgList(item: Reader<Param>, s: seq<char>, i: nat, acc: seq<Param>)
    requires Consumes(item)
    requires i <= ParamCount == |acc|
    ensures StoresArgs(Params(item, s, i, acc), ArgList(item, s), i, acc)
    decreases |s|
  {
    if Peek(s) == ')' || |s| == 0 {
      assert acc[..i] + [] + acc[i..] == acc;
    } else if item(s).Success? && i < ParamCount {
      var p := item(s).value;
      ParamsIsArgList(item, p.rest, i + 1, acc[i := p.value]);
      StoresArgsStep(Params(item, s, i, acc), ArgList(item, s), ArgList(item, p.rest), i, acc, p.value);
    }
  }

  /** One more argument read and stored keeps `StoresArgs`. */
  lemma StoresArgsStep(r: Result<Parsed<seq<Param>>, ParseError>, a: Result<Parsed<seq<Param>>, ParseError>,
                       a': Result<Parsed<seq<Param>>, ParseError>, i: nat, acc: seq<Param>, p: Param)
    requires i < |acc|
    requires a == if a'.Failure? then Failure(a'.error) else Success(Parsed([p] + a'.value.value, a'.value.rest))
    requires StoresArgs(r, a', i + 1, acc[i := p])
    ensures StoresArgs(r, a, i, acc)
  {
    if a'.Success? && i + 1 + |a'.value.value| <= |acc| {
      var w := a'.value.value;
      assert acc[i := p][..i + 1] == acc[..i] + [p];
      assert acc[i := p][i + 1 + |w|..] == acc[i + 1 + |w|..];
      assert acc[..i] + [p] + w == acc[..i] + ([p] + w);
    }
  }

  /** `StoresArgs` from the first slot of an empty list, case by case. */
  lemma StoresAllArgs(r: Result<Parsed<seq<Param>>, ParseError>, a: Result<Parsed<seq<Param>>, ParseError>)
    requires StoresArgs(r, a, 0, EmptyParams())
    ensures a.Failure? ==> r.Failure?
    ensures a.Success? && |a.value.value| <= ParamCount ==>
      r == Success(Parsed(a.value.value + EmptyParams()[|a.value.value|..], a.value.rest))
    ensures a.Success? && |a.value.value| > ParamCount ==> r == Failure(TooManyParams)
  {
    if a.Success? && |a.value.value| <= ParamCount {
      var e := EmptyParams();
      assert e[..0] + a.value.value + e[|a.value.value|..] == a.value.value + e[|a.value.value|..];
    }
  }

  /** `ParamItem` always consumes input. */
  lemma ParamItemConsumes()
    ensures Consumes(ParamItem)
  {
  }

  /** `nextPropertyValue`. A leading `-` is rejected here although
      `nextNumber` itself would accept it, and every quoted string is
      rejected because the quote test `c != '\'' || c != '"'` holds for
      every character. */
  function NextPropertyValue(s: seq<char>): (r: Result<Parsed<Property>, ParseError>)
    ensures r.Success? ==> |r.value.rest| < |s|
    ensures r.Success? ==> r.value.value != NoValue && !r.value.value.StringValue?
    ensures Peek(s) == '-' ==> r == Failure(InvalidValue)
    ensures Peek(s) == '\'' || Peek(s) == '"' ==> r == Failure(ExpectedQuote)
    ensures r.Success? && r.value.value.FunctionValue? ==> r.value.value.name == "gradient"
  {
    var c := Peek(s);
    if IsDigit(c) then
      var n :- NextNumber(s);
      Success(Parsed(NumberValue(n.value), n.rest))
    else if c == '#' then
      var col :- NextColor(s);
      Success(Parsed(ColorValue(col.value), col.rest))
    else if IsAlpha(c) then
      if IsColorFunction(Lower(PeekIdentifier(s).value)) then
        var col :- NextColor(s);
        Success(Parsed(ColorValue(col.value), col.rest))
      else WordValue(s)
    else if c == '\'' || c == '"' then Failure(ExpectedQuote)
    else Failure(InvalidValue)
  }

  /** A word that is not a colour function: a style-function call when
      `(` follows, otherwise an enum value. Only `gradient` is a style
      function, matched case-sensitively. */
  function WordValue(s: seq<char>): (r: Result<Parsed<Property>, ParseError>)
    requires IsAlpha(Peek(s))
    ensures r.Success? ==> |r.value.rest| < |s|
    ensures r.Success? ==> r.value.value.FunctionValue? || r.value.value.EnumValue?
    ensures r.Success? && r.value.value.FunctionValue? ==> r.value.value.name == "gradient"
    ensures r.Success? && r.value.value.EnumValue? ==> r.value.value.id == NextIdentifier(s).value
  {
    var id := NextIdentifier(s);
    assert IsIdentChar(s[0]);
    assert |id.value| > 0 && |id.rest| < |s|;
    var t := SkipSpaces(id.rest);
    if Peek(t) == '(' then
      if id.value != "gradient" then Failure(UnknownFunction(id.value))
      else
        var ps :- FunctionArgs(t[1..]);
        assert |ps.rest| <= |t| - 1;
        Success(Parsed(FunctionValue(id.value, ps.value), ps.rest))
    else Success(Parsed(EnumValue(id.value), t))
  }

  /** The arguments after `(`, through the closing `)`: the arguments
      `ParamItem` reads in turn, padded to sixteen slots, or
      `TooManyParams` when there are more than sixteen. */
  function FunctionArgs(s: seq<char>): (r: Result<Parsed<ParamList>, ParseError>)
    ensures r.Success? ==> |r.value.rest| <= |s|
    ensures (ParamItemConsumes(); var a := ArgList(ParamItem, SkipSpaces(s));
      && (a.Failure? ==> r.Failure?)
      && (a.Success? && |a.value.value| <= ParamCount ==>
            r == Success(Parsed(a.value.value + EmptyParams()[|a.value.value|..], a.value.rest)))
      && (a.Success? && |a.value.value| > ParamCount ==> r == Failure(TooManyParams)))
  {
    var u := SkipSpaces(s);
    ParamItemConsumes();
    ParamsIsArgList(ParamItem, u, 0, EmptyParams());
    StoresAllArgs(Params(ParamItem, u, 0, EmptyParams()), ArgList(ParamItem, u));
    var ps :- Params(ParamItem, u, 0, EmptyParams());
    Success(Parsed(ps.value, ps.rest))
  }

  /** `read` consumes input and yields a typed value whenever it succeeds,
      as `nextPropertyValue` does. */
  ghost predicate ValueReader(read: Reader<Property>)
  {
    forall u :: read(u).Success? ==> |read(u).value.rest| < |u| && read(u).value.value != NoValue
  }

  /** The pack loop from slot `i`: values until `;` or four slots; a space
      after a value starts a white-space skip, a `;` ends the pack, any
      other character is left for the next value. Like the argument loop it
      is written over the value reader it calls (`NextPropertyValue` in the
      parser). */
  function PackFrom(read: Reader<Property>, s: seq<char>, i: nat, acc: PropertyPack): (r: Result<Parsed<PropertyPack>, ParseError>)
    requires ValueReader(read)
    requires i <= PackSize
    ensures r.Success? ==> |r.value.rest| <= |s|
    ensures r.Success? ==> exists n :: (i <= n <= PackSize && FilledFrom(r.value.value, acc, i, n)
      && (n < PackSize ==> Peek(r.value.rest) == ';'))
    decreases PackSize - i
  {
    if Peek(s) == ';' || i >= PackSize then
      assert FilledFrom(acc, acc, i, i);
      Success(Parsed(acc, s))
    else
      var v :- read(s);
      var acc' := acc[i := v.value];
      if Peek(v.rest) == ';' then
        assert FilledFrom(acc', acc, i, i + 1);
        Success(Parsed(acc', v.rest))
      else
        var t := AfterValue(v.rest);
        var more :- PackFrom(read, t, i + 1, acc');
        var n :| i + 1 <= n <= PackSize && FilledFrom(more.value, acc', i + 1, n)
          && (n < PackSize ==> Peek(more.rest) == ';');
        assert FilledFrom(more.value, acc, i, n);
        Success(more)
  }

  /** Between two values of a pack: a space starts a white-space skip,
      anything else is left for the next value. */
  function AfterValue(s: seq<char>): (r: seq<char>)
    ensures |r| <= |s|
    ensures Peek(s) != ' ' ==> r == s
  {
    if Peek(s) == ' ' then SkipSpaces(s) else s
  }

  /** `p` agrees with `acc` outside `[i, n)` and holds values inside it. */
  predicate FilledFrom(p: seq<Property>, acc: seq<Property>, i: nat, n: nat)
    requires |p| == |acc| && i <= n <= |p|
  {
    && (forall j :: 0 <= j < i ==> p[j] == acc[j])
    && (forall j :: i <= j < n ==> p[j] != NoValue)
    && (forall j :: n <= j < |p| ==> p[j] == acc[j])
  }

  /** The values of a pack from slot `i` on, as a list: a value is read
      unless `;` comes first or the slots are used up; a `;` right after a
      value ends the list, and a space after it starts a white-space skip. */
  function PackValues(read: Reader<Property>, s: seq<char>, i: nat): (r: Result<Parsed<seq<Property>>, ParseError>)
    requires ValueReader(read)
    requires i <= PackSize
    ensures r.Success? ==> i + |r.value.value| <= PackSize
    decreases PackSize - i
  {
    if Peek(s) == ';' || i >= PackSize then Success(Parsed([], s))
    else
      var v :- read(s);
      if Peek(v.rest) == ';' then Success(Parsed([v.value], v.rest))
      else
        var t := AfterValue(v.rest);
        var more :- PackValues(read, t, i + 1);
        Success(Parsed([v.value] + more.value, more.rest))
  }

  /** The loop's result `r` from slot `i` on holds exactly the values the
      list reading `v` found, in order, and fails exactly when it fails. */
  predicate StoresValues(r: Result<Parsed<seq<Property>>, ParseError>, v: Result<Parsed<seq<Property>>, ParseError>,
                         i: nat, acc: seq<Property>)
    requires i <= |acc|
  {
    && (r.Success? <==> v.Success?)
    && (r.Success? ==>
          && i + |v.value.value| <= |acc|
          && r.value == Parsed(acc[..i] + v.value.value + acc[i + |v.value.value|..], v.value.rest))
  }

  /** The slot-filling loop stores what `PackValues` reads. */
  lemma {:induction false} PackFromIsPackValues(read: Reader<Property>, s: seq<char>, i: nat, acc: PropertyPack)
    requires ValueReader(read)
    requires i <= PackSize
    ensures StoresValues(PackFrom(read, s, i, acc), PackValues(read, s, i), i, acc)
    decreases PackSize - i, 1
  {
    if i < PackSize && Peek(s) != ';' && read(s).Success?
       && Peek(read(s).value.rest) != ';' {
      PackGoesOn(read, s, i, acc);
    } else {
      PackStopCases(read, s, i, acc);
    }
  }

  /** `StoresValues` when a value is read and the pack goes on. */
  lemma {:induction false} PackGoesOn(read: Reader<Property>, s: seq<char>, i: nat, acc: PropertyPack)
    requires ValueReader(read)
    requires i < PackSize && Peek(s) != ';' && read(s).Success?
    requires Peek(read(s).value.rest) != ';'
    ensures StoresValues(PackFrom(read, s, i, acc), PackValues(read, s, i), i, acc)
    decreases PackSize - i, 0
  {
    var v := read(s).value;
    PackFromIsPackValues(read, AfterValue(v.rest), i + 1, acc[i := v.value]);
    PackStepCase(read, s, i, acc);
  }

  /** `StoresValues` in every case where the pack reads no further value. */
  lemma PackStopCases(read: Reader<Property>, s: seq<char>, i: nat, acc: PropertyPack)
    requires ValueReader(read)
    requires i <= PackSize
    requires !(i < PackSize && Peek(s) != ';' && read(s).Success?
               && Peek(read(s).value.rest) != ';')
    ensures StoresValues(PackFrom(read, s, i, acc), PackValues(read, s, i), i, acc)
  {
    if Peek(s) == ';' || i >= PackSize {
      PackEndCase(read, s, i, acc);
    } else if read(s).Failure? {
      PackFailUnfold(read, s, i, acc);
    } else {
      PackLastCase(read, s, i, acc);
    }
  }

  /** `StoresValues` when the pack stops before a value. */
  lemma PackEndCase(read: Reader<Property>, s: seq<char>, i: nat, acc: PropertyPack)
    requires ValueReader(read)
    requires i <= PackSize && (Peek(s) == ';' || i >= PackSize)
    ensures StoresValues(PackFrom(read, s, i, acc), PackValues(read, s, i), i, acc)
  {
    PackEndUnfold(read, s, i, acc);
    StoresValuesEnd(acc, i, s);
  }

  /** `StoresValues` when a value followed by `;` ends the pack. */
  lemma PackLastCase(read: Reader<Property>, s: seq<char>, i: nat, acc: PropertyPack)
    requires ValueReader(read)
    requires i < PackSize && Peek(s) != ';' && read(s).Success?
    requires Peek(read(s).value.rest) == ';'
    ensures StoresValues(PackFrom(read, s, i, acc), PackValues(read, s, i), i, acc)
  {
    var v := read(s).value;
    PackLastUnfold(read, s, i, acc);
    StoresValuesLast(acc, i, v.value, v.rest);
  }

  /** A `;` or a full pack stops both readings. */
  lemma PackEndUnfold(read: Reader<Property>, s: seq<char>, i: nat, acc: PropertyPack)
    requires ValueReader(read)
    requires i <= PackSize && (Peek(s) == ';' || i >= PackSize)
    ensures PackFrom(read, s, i, acc) == Success(Parsed(acc, s))
    ensures PackValues(read, s, i) == Success(Parsed([], s))
  {
  }

  /** Storing nothing is `StoresValues` of the empty list. */
  lemma StoresValuesEnd(acc: seq<Property>, i: nat, rest: seq<char>)
    requires i <= |acc|
    ensures StoresValues(Success(Parsed(acc, rest)), Success(Parsed([], rest)), i, acc)
  {
    assert acc[..i] + [] + acc[i..] == acc;
  }

  /** A value followed by more keeps `StoresValues` from the next slot
      back to this one. */
  lemma PackStepCase(read: Reader<Property>, s: seq<char>, i: nat, acc: PropertyPack)
    requires ValueReader(read)
    requires i < PackSize && Peek(s) != ';' && read(s).Success?
    requires Peek(read(s).value.rest) != ';'
    requires var v := read(s).value;
      StoresValues(PackFrom(read, AfterValue(v.rest), i + 1, acc[i := v.value]), PackValues(read, AfterValue(v.rest), i + 1), i + 1, acc[i := v.value])
    ensures StoresValues(PackFrom(read, s, i, acc), PackValues(read, s, i), i, acc)
  {
    var v := read(s).value;
    PackFromUnfold(read, s, i, acc);
    PackValuesUnfold(read, s, i);
    StoresValuesStep(PackFrom(read, s, i, acc), PackValues(read, s, i), PackValues(read, AfterValue(v.rest), i + 1), i, acc, v.value);
  }

  /** A value that does not parse fails both readings. */
  lemma PackFailUnfold(read: Reader<Property>, s: seq<char>, i: nat, acc: PropertyPack)
    requires ValueReader(read)
    requires i < PackSize && Peek(s) != ';' && read(s).Failure?
    ensures PackFrom(read, s, i, acc).Failure? && PackValues(read, s, i).Failure?
    ensures StoresValues(PackFrom(read, s, i, acc), PackValues(read, s, i), i, acc)
  {
  }

  /** Storing a last value at slot `i` is `StoresValues` of that one value. */
  lemma StoresValuesLast(acc: seq<Property>, i: nat, p: Property, rest: seq<char>)
    requires i < |acc|
    ensures StoresValues(Success(Parsed(acc[i := p], rest)), Success(Parsed([p], rest)), i, acc)
  {
    assert acc[i := p] == acc[..i] + [p] + acc[i + 1..];
  }

  /** A value followed by `;` ends the pack in both readings. */
  lemma PackLastUnfold(read: Reader<Property>, s: seq<char>, i: nat, acc: PropertyPack)
    requires ValueReader(read)
    requires i < PackSize && Peek(s) != ';' && read(s).Success?
    requires Peek(read(s).value.rest) == ';'
    ensures var v := read(s).value;
      && PackFrom(read, s, i, acc) == Success(Parsed(acc[i := v.value], v.rest))
      && PackValues(read, s, i) == Success(Parsed([v.value], v.rest))
  {
  }

  /** One turn of the slot-filling loop that goes on to the next value. */
  lemma PackFromUnfold(read: Reader<Property>, s: seq<char>, i: nat, acc: PropertyPack)
    requires ValueReader(read)
    requires i < PackSize && Peek(s) != ';' && read(s).Success?
    requires Peek(read(s).value.rest) != ';'
    ensures var v := read(s).value;
      var t := AfterValue(v.rest);
      PackFrom(read, s, i, acc) == PackFrom(read, t, i + 1, acc[i := v.value])
  {
  }

  /** One turn of the list reading that goes on to the next value. */
  lemma PackValuesUnfold(read: Reader<Property>, s: seq<char>, i: nat)
    requires ValueReader(read)
    requires i < PackSize && Peek(s) != ';' && read(s).Success?
    requires Peek(read(s).value.rest) != ';'
    ensures var v := read(s).value;
      var t := AfterValue(v.rest);
      var m := PackValues(read, t, i + 1);
      PackValues(read, s, i) == if m.Failure? then Failure(m.error)
        else Success(Parsed([v.value] + m.value.value, m.value.rest))
  {
  }

  /** One more value read and stored keeps `StoresValues`. */
  lemma StoresValuesStep(r: Result<Parsed<seq<Property>>, ParseError>, v: Result<Parsed<seq<Property>>, ParseError>,
                         v': Result<Parsed<seq<Property>>, ParseError>, i: nat, acc: seq<Property>, p: Property)
    requires i < |acc|
    requires v == if v'.Failure? then Failure(v'.error) else Success(Parsed([p] + v'.value.value, v'.value.rest))
    requires StoresValues(r, v', i + 1, acc[i := p])
    ensures StoresValues(r, v, i, acc)
  {
    if v'.Success? {
      var w := v'.value.value;
      assert acc[i := p][..i + 1] == acc[..i] + [p];
      assert acc[i := p][i + 1 + |w|..] == acc[i + 1 + |w|..];
      assert acc[..i] + [p] + w == acc[..i] + ([p] + w);
    }
  }

  /** `StoresValues` from the first slot of an empty pack, case by case. */
  lemma StoresAllValues(r: Result<Parsed<seq<Property>>, ParseError>, v: Result<Parsed<seq<Property>>, ParseError>)
    requires StoresValues(r, v, 0, EmptyPack())
    ensures r.Success? <==> v.Success?
    ensures r.Success? ==>
      && |v.value.value| <= PackSize
      && r == Success(Parsed(v.value.value + EmptyPack()[|v.value.value|..], v.value.rest))
  {
    if v.Success? {
      var e := EmptyPack();
      assert e[..0] + v.value.value + e[|v.value.value|..] == v.value.value + e[|v.value.value|..];
    }
  }

  /** `NextPropertyValue` is a value reader. */
  lemma ValueReaderProper()
    ensures ValueReader(NextPropertyValue)
  {
  }

  /** `nextPropertyPack`: reads up to four values; they fill the leading
      slots, so `count()` is the number read, and fewer than four means
      the pack stopped at `;`. */
  function NextPropertyPack(s: seq<char>): (r: Result<Parsed<PropertyPack>, ParseError>)
    ensures r.Success? ==> |r.value.rest| <= |s|
    ensures r.Success? ==>
      var p := r.value.value;
      && (forall j :: 0 <= j < Count(p) ==> p[j] != NoValue)
      && (forall j :: Count(p) <= j < PackSize ==> p[j] == NoValue)
      && (Count(p) < PackSize ==> Peek(r.value.rest) == ';')
    ensures (ValueReaderProper(); var v := PackValues(NextPropertyValue, s, 0);
      && (r.Success? <==> v.Success?)
      && (v.Success? ==> r == Success(Parsed(v.value.value + EmptyPack()[|v.value.value|..], v.value.rest))))
  {
    ValueReaderProper();
    PackFromIsPackValues(NextPropertyValue, s, 0, EmptyPack());
    StoresAllValues(PackFrom(NextPropertyValue, s, 0, EmptyPack()), PackValues(NextPropertyValue, s, 0));
    var r :- PackFrom(NextPropertyValue, s, 0, EmptyPack());
    var n :| 0 <= n <= PackSize && FilledFrom(r.value, EmptyPack(), 0, n)
      && (n < PackSize ==> Peek(r.rest) == ';');
    CountFilledPrefix(r.value, n);
    Success(r)
  }

  // ----- the sheet ----------------------------------------------------------

  /** One line of a block: `@name;` or `name : pack ;`. */
  datatype LineItem = Inherit(style: string) | SetProperty(name: string, pack: PropertyPack)

  function Line(s: seq<char>): (r: Result<Parsed<LineItem>, ParseError>)
    ensures r.Success? ==> |r.value.rest| < |s|
    ensures r.Success? ==> (r.value.value.Inherit? <==> Peek(s) == '@')
    ensures r.Success? && Peek(s) == '@' ==> r.value.value.style == NextIdentifier(s[1..]).value
    ensures r.Success? && Peek(s) != '@' ==> r.value.value.name == NextIdentifier(s).value
  {
    if Peek(s) == '@' then
      var id := NextIdentifier(s[1..]);
      var t :- SkipIfPresentAndSpaces(';', id.rest);
      Success(Parsed(Inherit(id.value), t))
    else
      var id := NextIdentifier(s);
      var t :- SkipIfPresentAndSpaces(':', id.rest);
      var pack :- NextPropertyPack(t);
      var u :- SkipIfPresentAndSpaces(';', pack.rest);
      Success(Parsed(SetProperty(id.value, pack.value), u))
  }

  /** The effect of a line: `@name` copies every property of an
      already-defined style over the current ones (an undefined name is
      ignored); a property line replaces any earlier value of that name. */
  function ApplyLine(sheet: Sheet, style: StyleMap, item: LineItem): (r: StyleMap)
    ensures style.Keys <= r.Keys
    ensures item.Inherit? && item.style in sheet ==>
      (forall k :: k in sheet[item.style] ==> k in r && r[k] == sheet[item.style][k])
    ensures item.Inherit? && item.style !in sheet ==> r == style
    ensures item.SetProperty? ==> item.name in r && r[item.name] == item.pack
    ensures forall k :: k in style && !Touches(sheet, item, k) ==> k in r && r[k] == style[k]
  {
    match item
    case Inherit(name) => if name in sheet then style + sheet[name] else style
    case SetProperty(name, pack) => style[name := pack]
  }

  /** Whether a line can change property `k`. */
  predicate Touches(sheet: Sheet, item: LineItem, k: string) {
    match item
    case Inherit(name) => name in sheet && k in sheet[name]
    case SetProperty(name, _) => k == name
  }

  /** The lines of a block read without being applied: the syntax of a
      block's body. */
  function ReadLines(s: seq<char>): (r: Result<Parsed<seq<LineItem>>, ParseError>)
    ensures r.Success? ==> |r.value.rest| <= |s| && Peek(r.value.rest) == '}'
    decreases |s|
  {
    if Peek(s) == '}' then Success(Parsed([], s))
    else
      var line :- Line(s);
      var more :- ReadLines(line.rest);
      Success(Parsed([line.value] + more.value, more.rest))
  }

  /** The lines applied in order: the meaning of a block's body. */
  function ApplyLines(sheet: Sheet, style: StyleMap, items: seq<LineItem>): (r: StyleMap)
    ensures style.Keys <= r.Keys
    ensures forall k :: k in r && k !in style ==> exists j :: 0 <= j < |items| && Touches(sheet, items[j], k)
    decreases |items|
  {
    if |items| == 0 then style
    else
      var r := ApplyLines(sheet, ApplyLine(sheet, style, items[0]), items[1..]);
      assert forall k :: k in r && k !in style ==> exists j :: 0 <= j < |items| && Touches(sheet, items[j], k) by {
        forall k | k in r && k !in style
          ensures exists j :: 0 <= j < |items| && Touches(sheet, items[j], k)
        {
          if k !in ApplyLine(sheet, style, items[0]) {
            var j :| 0 <= j < |items[1..]| && Touches(sheet, items[1..][j], k);
            assert Touches(sheet, items[j + 1], k);
          } else {
            assert Touches(sheet, items[0], k);
          }
        }
      }
      r
  }

  /** The value line `item` gives property `k`. */
  function LineValue(sheet: Sheet, item: LineItem, k: string): PropertyPack
    requires Touches(sheet, item, k)
  {
    match item
    case Inherit(name) => sheet[name][k]
    case SetProperty(_, pack) => pack
  }

  /** No line of `items` can change property `k`. */
  predicate Untouched(sheet: Sheet, items: seq<LineItem>, k: string) {
    forall m :: 0 <= m < |items| ==> !Touches(sheet, items[m], k)
  }

  /** A property no line touches keeps the value it had. */
  lemma {:induction false} UntouchedKept(sheet: Sheet, style: StyleMap, items: seq<LineItem>, k: string)
    requires k in style && Untouched(sheet, items, k)
    ensures k in ApplyLines(sheet, style, items) && ApplyLines(sheet, style, items)[k] == style[k]
    decreases |items|
  {
    if |items| > 0 {
      assert !Touches(sheet, items[0], k);
      assert Untouched(sheet, items[1..], k) by {
        forall m | 0 <= m < |items[1..]| ensures !Touches(sheet, items[1..][m], k) {
          assert items[1..][m] == items[m + 1];
        }
      }
      UntouchedKept(sheet, ApplyLine(sheet, style, items[0]), items[1..], k);
    }
  }

  /** The last line that can change a property decides its value. */
  lemma {:induction false} ApplyLinesLastWins(sheet: Sheet, style: StyleMap, items: seq<LineItem>, j: nat, k: string)
    requires j < |items| && Touches(sheet, items[j], k) && Untouched(sheet, items[j + 1..], k)
    ensures k in ApplyLines(sheet, style, items) && ApplyLines(sheet, style, items)[k] == LineValue(sheet, items[j], k)
    decreases |items|
  {
    var style1 := ApplyLine(sheet, style, items[0]);
    if j == 0 {
      UntouchedKept(sheet, style1, items[1..], k);
    } else {
      assert items[1..][j - 1] == items[j] && items[1..][j..] == items[j + 1..];
      ApplyLinesLastWins(sheet, style1, items[1..], j - 1, k);
    }
  }

  /** `@base;` followed by `k: pack;`: the line overrides the inherited
      value of `k`, and every other property of `base` comes through. */
  lemma InheritThenOverride(sheet: Sheet, base: string, k: string, pack: PropertyPack)
    requires base in sheet
    ensures var r := ApplyLines(sheet, map[], [Inherit(base), SetProperty(k, pack)]);
      && k in r && r[k] == pack
      && forall k' :: k' in sheet[base] && k' != k ==> k' in r && r[k'] == sheet[base][k']
  {
    var items := [Inherit(base), SetProperty(k, pack)];
    assert items[2..] == [];
    ApplyLinesLastWins(sheet, map[], items, 1, k);
    forall k' | k' in sheet[base] && k' != k
      ensures k' in ApplyLines(sheet, map[], items) && ApplyLines(sheet, map[], items)[k'] == sheet[base][k']
    {
      assert items[1..] == [SetProperty(k, pack)];
      ApplyLinesLastWins(sheet, map[], items, 0, k');
    }
  }

  /** The lines of a block up to (not including) its closing `}`, each
      applied as soon as it is read. */
  function Lines(sheet: Sheet, style: StyleMap, s: seq<char>): (r: Result<Parsed<StyleMap>, ParseError>)
    ensures r.Success? ==> |r.value.rest| <= |s| && Peek(r.value.rest) == '}'
    ensures r.Success? ==> style.Keys <= r.value.value.Keys
    // reading all lines first and applying them afterwards gives the same style
    ensures r.Success? <==> ReadLines(s).Success?
    ensures r.Failure? ==> r.error == ReadLines(s).error
    ensures r.Success? ==>
      && r.value.value == ApplyLines(sheet, style, ReadLines(s).value.value)
      && r.value.rest == ReadLines(s).value.rest
    decreases |s|
  {
    if Peek(s) == '}' then Success(Parsed(style, s))
    else
      var line :- Line(s);
      var more :- Lines(sheet, ApplyLine(sheet, style, line.value), line.rest);
      assert ([line.value] + ReadLines(line.rest).value.value)[1..] == ReadLines(line.rest).value.value;
      Success(more)
  }

  /** A block `name { lines }`, starting at a letter. */
  datatype Block = Block(name: string, style: StyleMap)

  function NextBlock(sheet: Sheet, s: seq<char>): (r: Result<Parsed<Block>, ParseError>)
    requires IsAlpha(Peek(s))
    ensures r.Success? ==> |r.value.rest| < |s|
    ensures r.Success? ==> r.value.value.name == NextIdentifier(s).value
    // the block's style is its lines applied to an empty style
    ensures r.Success? ==>
      var body := SkipIfPresentAndSpaces('{', NextIdentifier(s).rest);
      && body.Success? && ReadLines(body.value).Success?
      && r.value.value.style == ApplyLines(sheet, map[], ReadLines(body.value).value.value)
  {
    var id := NextIdentifier(s);
    var t :- SkipIfPresentAndSpaces('{', id.rest);
    var body :- Lines(sheet, map[], t);
    var u :- SkipIfPresentAndSpaces('}', body.rest);
    Success(Parsed(Block(id.value, body.value), u))
  }

  /** The sheet after `parse`, and the error that stopped it, if any.
      Blocks completed before an error stay in the sheet, as they do in
      the C++ member map. */
  datatype Outcome = Outcome(sheet: Sheet, error: Option<ParseError>)

  /** `StyleSheet::parse`: blocks are read in order; each finished block
      replaces any earlier style of the same name and is visible to `@`
      lines of later blocks. */
  function Parse(sheet: Sheet, s: seq<char>): (r: Outcome)
    ensures sheet.Keys <= r.sheet.Keys
    ensures r.error == Some(Stuck) ==> |s| > 0
    decreases |s|
  {
    if |s| == 0 then Outcome(sheet, None)
    else
      var t := SkipSpaces(s);
      if IsAlpha(Peek(t)) then
        match NextBlock(sheet, t)
        case Failure(e) => Outcome(sheet, Some(e))
        case Success(b) => Parse(sheet[b.value.name := b.value.style], b.rest)
      else if |t| == 0 then Outcome(sheet, None)
      else Outcome(sheet, Some(Stuck))
  }

  /** White space alone changes nothing. */
  lemma ParseBlank(sheet: Sheet, s: seq<char>)
    requires forall i :: 0 <= i < |s| ==> IsSpace(s[i])
    ensures Parse(sheet, s) == Outcome(sheet, None)
  {
    if |s| > 0 {
      SpanUnique(s, IsSpace, |s|);
    }
  }

  /** One complete block followed by the rest of the input: the block's
      style is stored under its name before the rest is read. */
  lemma ParseBlockThen(sheet: Sheet, s: seq<char>)
    requires |s| > 0 && IsAlpha(s[0])
    ensures NextBlock(sheet, s).Success? ==>
      var b := NextBlock(sheet, s).value;
      Parse(sheet, s) == Parse(sheet[b.value.name := b.value.style], b.rest)
    ensures NextBlock(sheet, s).Failure? ==>
      Parse(sheet, s) == Outcome(sheet, Some(NextBlock(sheet, s).error))
  {
    SkipSpacesNone(s);
  }

  /** A top-level character that is neither white space nor a letter is
      where the C++ loop stops making progress. */
  lemma ParseStuck(sheet: Sheet, s: seq<char>)
    requires |s| > 0 && !IsSpace(s[0]) && !IsAlpha(s[0])
    ensures Parse(sheet, s) == Outcome(sheet, Some(Stuck))
  {
    SkipSpacesNone(s);
  }
}
