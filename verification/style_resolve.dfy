/** Element resolution: the `element_set*` setters, the `gradient` style
    function, and `getElement`. The setters run in the iteration order of
    an `unordered_map`, which is unspecified; `GetElement` is defined
    without an order and `ApplyAllResolves` shows that every enumeration
    of the style's properties gives the same outcome. Release semantics:
    the setters' `assert`s are compiled out, and a `std::get` of the wrong
    alternative throws, which is a `Failure` here. */
module StyleResolve {
  import opened Wrappers
  import opened Geometry
  import opened Style

  datatype StyleError = UnknownProperty | WrongValue

  // ----- reading values -------------------------------------------------------

  /** `std::get<float>`. */
  function AsNumber(p: Property): (r: Result<real, StyleError>)
    ensures r.Success? <==> p.NumberValue?
  {
    if p.NumberValue? then Success(p.n) else Failure(WrongValue)
  }

  /** `std::get<Color>`. */
  function AsColor(p: Property): (r: Result<Color, StyleError>)
    ensures r.Success? <==> p.ColorValue?
  {
    if p.ColorValue? then Success(p.c) else Failure(WrongValue)
  }

  /** `std::get<std::string>`: both enum words and strings hold one. */
  function AsText(p: Property): (r: Result<string, StyleError>)
    ensures r.Success? <==> p.EnumValue? || p.StringValue?
  {
    match p
    case EnumValue(id) => Success(id)
    case StringValue(s) => Success(s)
    case _ => Failure(WrongValue)
  }

  /** `style_Gradient`: parameters 0-3 are start and end as fractions of
      the element bounds, 4 and 5 the two colours. */
  function Gradient(params: ParamList, b: Rect): (r: Result<Paint, StyleError>)
    ensures r.Success? <==>
      (forall i :: 0 <= i < 4 ==> params[i].NumberParam?) && params[4].ColorParam? && params[5].ColorParam?
    ensures r.Success? ==> (r.value.LinearGradient?
      && r.value.sx - b.width * params[0].n == 0.0 && r.value.sy - b.height * params[1].n == 0.0
      && r.value.ex - b.width * params[2].n == 0.0 && r.value.ey - b.height * params[3].n == 0.0
      && r.value.inner == params[4].c && r.value.outer == params[5].c)
  {
    if !(params[0].NumberParam? && params[1].NumberParam? && params[2].NumberParam? && params[3].NumberParam?)
    then Failure(WrongValue)
    else if !(params[4].ColorParam? && params[5].ColorParam?) then Failure(WrongValue)
    else Success(LinearGradient(
      params[0].n * b.width, params[1].n * b.height,
      params[2].n * b.width, params[3].n * b.height,
      params[4].c, params[5].c))
  }

  /** `gradient(0, 0, 1, 1, a, b)` runs from the top-left to the
      bottom-right corner of the element, whatever its size. */
  lemma GradientCornerToCorner(params: ParamList, b: Rect)
    requires params[0] == NumberParam(0.0) && params[1] == NumberParam(0.0)
    requires params[2] == NumberParam(1.0) && params[3] == NumberParam(1.0)
    requires params[4].ColorParam? && params[5].ColorParam?
    ensures Gradient(params, b).Success?
    ensures var g := Gradient(params, b).value;
      g.sx == 0.0 && g.sy == 0.0 && g.ex == b.width && g.ey == b.height
  {
  }

  // ----- the setters ----------------------------------------------------------

  function SetColor(el: Element, p: PropertyPack): (r: Result<Element, StyleError>)
    ensures r.Success? <==> p[0].ColorValue?
    ensures r.Success? ==> r.value == el.(textPaint := Some(Solid(p[0].c)))
  {
    var c :- AsColor(p[0]);
    Success(el.(textPaint := Some(Solid(c))))
  }

  /** A colour, or a style-function call evaluated against the element's
      (inner) bounds; anything else is not a function and `std::get`
      throws. */
  function SetBackground(el: Element, p: PropertyPack): (r: Result<Element, StyleError>)
    ensures p[0].ColorValue? ==> r == Success(el.(backgroundPaint := Some(Solid(p[0].c))))
    ensures !p[0].ColorValue? && !p[0].FunctionValue? ==> r.Failure?
    ensures r.Success? ==> r.value == el.(backgroundPaint := r.value.backgroundPaint)
    ensures r.Success? ==> r.value.backgroundPaint.Some?
  {
    match p[0]
    case ColorValue(c) => Success(el.(backgroundPaint := Some(Solid(c))))
    case FunctionValue(_, params) =>
      var g :- Gradient(params, el.bounds);
      Success(el.(backgroundPaint := Some(g)))
    case _ => Failure(WrongValue)
  }

  /** One value sets all four corners, four values set tl, tr, br, bl, and
      any other count leaves the radii as they are. */
  function SetBorderRadius(el: Element, p: PropertyPack): (r: Result<Element, StyleError>)
    ensures Count(p) == 1 ==> (r.Success? <==> p[0].NumberValue?)
    ensures Count(p) == 1 && r.Success? ==> forall i :: 0 <= i < 4 ==> r.value.borderRadius[i] == p[0].n
    ensures Count(p) == 4 ==> (r.Success? <==> forall i :: 0 <= i < 4 ==> p[i].NumberValue?)
    ensures Count(p) == 4 && r.Success? ==> forall i :: 0 <= i < 4 ==> r.value.borderRadius[i] == p[i].n
    ensures Count(p) != 1 && Count(p) != 4 ==> r == Success(el)
    ensures r.Success? ==> r.value == el.(borderRadius := r.value.borderRadius)
  {
    if Count(p) == 1 then
      var v :- AsNumber(p[0]);
      Success(el.(borderRadius := [v, v, v, v]))
    else if Count(p) == 4 then
      var a :- AsNumber(p[0]);
      var b :- AsNumber(p[1]);
      var c :- AsNumber(p[2]);
      var d :- AsNumber(p[3]);
      Success(el.(borderRadius := [a, b, c, d]))
    else Success(el)
  }

  function SetBorderWidth(el: Element, p: PropertyPack): (r: Result<Element, StyleError>)
    ensures r.Success? <==> p[0].NumberValue?
    ensures r.Success? ==> r.value == el.(borderWidth := p[0].n)
  {
    var v :- AsNumber(p[0]);
    Success(el.(borderWidth := v))
  }

  function SetBorderColor(el: Element, p: PropertyPack): (r: Result<Element, StyleError>)
    ensures r.Success? <==> p[0].ColorValue?
    ensures r.Success? ==> r.value == el.(borderPaint := Some(Solid(p[0].c)))
  {
    var c :- AsColor(p[0]);
    Success(el.(borderPaint := Some(Solid(c))))
  }

  function SetFontSize(el: Element, p: PropertyPack): (r: Result<Element, StyleError>)
    ensures r.Success? <==> p[0].NumberValue?
    ensures r.Success? ==> r.value == el.(fontSize := p[0].n)
  {
    var v :- AsNumber(p[0]);
    Success(el.(fontSize := v))
  }

  /** The horizontal alignment flag of a keyword, if it is one. */
  function HorizontalFlag(word: string): (r: Option<int>)
    ensures r.Some? <==> word in {"left", "center", "right"}
    ensures r.Some? ==> r.value in {AlignLeft, AlignCenter, AlignRight}
  {
    if word == "left" then Some(AlignLeft)
    else if word == "center" then Some(AlignCenter)
    else if word == "right" then Some(AlignRight)
    else None
  }

  /** The vertical alignment flag of a keyword, if it is one. */
  function VerticalFlag(word: string): (r: Option<int>)
    ensures r.Some? <==> word in {"top", "middle", "bottom"}
    ensures r.Some? ==> r.value in {AlignTop, AlignMiddle, AlignBottom}
  {
    if word == "top" then Some(AlignTop)
    else if word == "middle" then Some(AlignMiddle)
    else if word == "bottom" then Some(AlignBottom)
    else None
  }

  /** An unknown keyword leaves the alignment unchanged. */
  function SetTextAlign(el: Element, p: PropertyPack): (r: Result<Element, StyleError>)
    ensures r.Success? <==> p[0].EnumValue? || p[0].StringValue?
    ensures r.Success? ==> r.value == el.(alignX := r.value.alignX)
    ensures r.Success? && HorizontalFlag(AsText(p[0]).value).None? ==> r.value == el
  {
    var word :- AsText(p[0]);
    Success(el.(alignX := HorizontalFlag(word).GetOr(el.alignX)))
  }

  function SetVerticalAlign(el: Element, p: PropertyPack): (r: Result<Element, StyleError>)
    ensures r.Success? <==> p[0].EnumValue? || p[0].StringValue?
    ensures r.Success? ==> r.value == el.(alignY := r.value.alignY)
    ensures r.Success? && VerticalFlag(AsText(p[0]).value).None? ==> r.value == el
  {
    var word :- AsText(p[0]);
    Success(el.(alignY := VerticalFlag(word).GetOr(el.alignY)))
  }

  /** Four numbers: left, right, top, bottom. */
  function SetPadding(el: Element, p: PropertyPack): (r: Result<Element, StyleError>)
    ensures r.Success? <==> forall i :: 0 <= i < 4 ==> p[i].NumberValue?
    ensures r.Success? ==> r.value == el.(padding := [p[0].n, p[1].n, p[2].n, p[3].n])
  {
    var a :- AsNumber(p[0]);
    var b :- AsNumber(p[1]);
    var c :- AsNumber(p[2]);
    var d :- AsNumber(p[3]);
    Success(el.(padding := [a, b, c, d]))
  }

  /** The properties the `ElementSetters` table knows. */
  datatype Key =
    | TextColor | Background | BorderRadius | BorderWidth | BorderColor
    | FontSize | TextAlign | VerticalAlign | Padding

  const AllKeys: set<Key> :=
    {TextColor, Background, BorderRadius, BorderWidth, BorderColor,
     FontSize, TextAlign, VerticalAlign, Padding}

  /** The name a key has in a style sheet. */
  function Name(k: Key): string {
    match k
    case TextColor => "color"
    case Background => "background"
    case BorderRadius => "border-radius"
    case BorderWidth => "border-width"
    case BorderColor => "border-color"
    case FontSize => "font-size"
    case TextAlign => "text-align"
    case VerticalAlign => "vertical-align"
    case Padding => "padding"
  }

  /** Looks a property name up in the setter table. */
  function KeyOf(name: string): (r: Option<Key>)
    ensures r.Some? ==> Name(r.value) == name
  {
    if name == "color" then Some(TextColor)
    else if name == "background" then Some(Background)
    else if name == "border-radius" then Some(BorderRadius)
    else if name == "border-width" then Some(BorderWidth)
    else if name == "border-color" then Some(BorderColor)
    else if name == "font-size" then Some(FontSize)
    else if name == "text-align" then Some(TextAlign)
    else if name == "vertical-align" then Some(VerticalAlign)
    else if name == "padding" then Some(Padding)
    else None
  }

  /** Every key is found under its own name, so the table has no
      duplicate names. */
  lemma KeyOfName(k: Key)
    ensures KeyOf(Name(k)) == Some(k)
  {
  }

  lemma KeyOfNames()
    ensures forall k :: KeyOf(Name(k)) == Some(k)
  {
    forall k {
      KeyOfName(k);
    }
  }

  /** The setter of a key. */
  function Set(k: Key, p: PropertyPack, el: Element): (r: Result<Element, StyleError>)
    ensures r.Success? ==> r.value == Override(k, el, r.value)
    ensures r.Failure? ==> r == Failure(WrongValue)
  {
    match k
    case TextColor => SetColor(el, p)
    case Background => SetBackground(el, p)
    case BorderRadius => SetBorderRadius(el, p)
    case BorderWidth => SetBorderWidth(el, p)
    case BorderColor => SetBorderColor(el, p)
    case FontSize => SetFontSize(el, p)
    case TextAlign => SetTextAlign(el, p)
    case VerticalAlign => SetVerticalAlign(el, p)
    case Padding => SetPadding(el, p)
  }

  /** `into` with the fields that key `k` owns taken from `from`. */
  function Override(k: Key, into: Element, from: Element): Element {
    match k
    case TextColor => into.(textPaint := from.textPaint)
    case Background => into.(backgroundPaint := from.backgroundPaint)
    case BorderRadius => into.(borderRadius := from.borderRadius)
    case BorderWidth => into.(borderWidth := from.borderWidth)
    case BorderColor => into.(borderPaint := from.borderPaint)
    case FontSize => into.(fontSize := from.fontSize)
    case TextAlign => into.(alignX := from.alignX)
    case VerticalAlign => into.(alignY := from.alignY)
    case Padding => into.(padding := from.padding)
  }

  /** `ElementSetters.at(name)(el, p)`: an unknown name throws; a known one
      changes only the fields its key owns. */
  function Apply(name: string, p: PropertyPack, el: Element): (r: Result<Element, StyleError>)
    ensures KeyOf(name).None? <==> r == Failure(UnknownProperty)
    ensures r.Success? ==> r.value == Override(KeyOf(name).value, el, r.value)
  {
    match KeyOf(name)
    case None => Failure(UnknownProperty)
    case Some(k) => Set(k, p, el)
  }

  // ----- getElement -----------------------------------------------------------

  /** The source's loop for one enumeration `ks` of the style's properties. */
  function ApplyAll(el: Element, ks: seq<string>, st: StyleMap): (r: Result<Element, StyleError>)
    requires forall i :: 0 <= i < |ks| ==> ks[i] in st
    ensures r.Success? ==> r.value.bounds == el.bounds
    decreases |ks|
  {
    if |ks| == 0 then Success(el)
    else
      var e :- Apply(ks[0], st[ks[0]], el);
      ApplyAll(e, ks[1..], st)
  }

  /** Whether property `name` of `st` is known and accepted by its setter. */
  predicate Accepted(st: StyleMap, name: string, b: Rect)
    requires name in st
  {
    Apply(name, st[name], DefaultElement(b)).Success?
  }

  /** What the setter of `k` makes of the default element, or the default
      element when `st` does not set `k` or its setter rejects the value. */
  function Contribution(st: StyleMap, k: Key, b: Rect): Element {
    var d := DefaultElement(b);
    if Name(k) in st && Set(k, st[Name(k)], d).Success? then Set(k, st[Name(k)], d).value else d
  }

  /** The element with the fields of the keys in `done` set from their
      setters and every other field at its default. */
  function Partial(st: StyleMap, done: set<Key>, b: Rect): Element {
    var d := DefaultElement(b);
    Element(
      (if Background in done then Contribution(st, Background, b) else d).backgroundPaint,
      (if TextColor in done then Contribution(st, TextColor, b) else d).textPaint,
      (if BorderColor in done then Contribution(st, BorderColor, b) else d).borderPaint,
      (if BorderWidth in done then Contribution(st, BorderWidth, b) else d).borderWidth,
      (if FontSize in done then Contribution(st, FontSize, b) else d).fontSize,
      (if TextAlign in done then Contribution(st, TextAlign, b) else d).alignX,
      (if VerticalAlign in done then Contribution(st, VerticalAlign, b) else d).alignY,
      (if BorderRadius in done then Contribution(st, BorderRadius, b) else d).borderRadius,
      (if Padding in done then Contribution(st, Padding, b) else d).padding,
      b)
  }

  /** The resolved element of a style, independent of any order: a failure
      when some property is unknown or has the wrong kind of value,
      otherwise every field comes from the setter of the key that owns it,
      or stays at its default when the style does not set that key. */
  function Resolve(st: StyleMap, b: Rect): (r: Result<Element, StyleError>)
    ensures r.Success? <==> forall name :: name in st ==> Accepted(st, name, b)
    ensures r.Success? ==> r.value.bounds == b
    ensures r.Success? ==> forall name :: name in st ==> KeyOf(name).Some?
  {
    if exists name :: name in st && !Accepted(st, name, b) then Failure(WrongValue)
    else Success(Partial(st, AllKeys, b))
  }

  /** `getElement`'s two results: the element, and the caller's bounds
      after padding. */
  datatype Resolved = Resolved(element: Element, bounds: Rect)

  /** The caller's rect shrunk by the padding: left `p[0]`, right `p[1]`,
      top `p[2]`, bottom `p[3]`. */
  function ShrinkByPadding(r: Rect, p: Quad): (s: Rect)
    ensures s.x == r.x + p[0] && s.x + s.width == r.x + r.width - p[1]
    ensures s.y == r.y + p[2] && s.y + s.height == r.y + r.height - p[3]
  {
    Rect(r.x + p[0], r.y + p[2], r.width - (p[0] + p[1]), r.height - (p[2] + p[3]))
  }

  /** `StyleSheet::getElement`. The element's own bounds are the caller's
      size at the origin; the caller's bounds shrink by the padding only
      when the style exists. */
  function GetElement(sheet: Sheet, style: string, bounds: Rect): (r: Result<Resolved, StyleError>)
    ensures style !in sheet ==>
      r == Success(Resolved(DefaultElement(Rect(0.0, 0.0, bounds.width, bounds.height)), bounds))
    ensures r.Success? ==> r.value.element.bounds == Rect(0.0, 0.0, bounds.width, bounds.height)
    ensures r.Success? && style in sheet ==>
      r.value.bounds == ShrinkByPadding(bounds, r.value.element.padding)
    ensures style in sheet && (exists name :: name in sheet[style] && KeyOf(name).None?) ==> r.Failure?
  {
    var inner := Rect(0.0, 0.0, bounds.width, bounds.height);
    if style !in sheet then Success(Resolved(DefaultElement(inner), bounds))
    else
      var el :- Resolve(sheet[style], inner);
      Success(Resolved(el, ShrinkByPadding(bounds, el.padding)))
  }

  // ----- order independence ---------------------------------------------------

  /** A setter reads only the fields its key owns and the bounds: applied
      to two elements that agree there, it succeeds on both or on neither,
      and sets the owned fields alike. */
  lemma SetLocal(k: Key, p: PropertyPack, e1: Element, e2: Element)
    requires Override(k, e1, e2) == e1 && e1.bounds == e2.bounds
    ensures Set(k, p, e1).Success? <==> Set(k, p, e2).Success?
    ensures Set(k, p, e1).Success? ==> Set(k, p, e1).value == Override(k, e1, Set(k, p, e2).value)
  {
    match k
    case TextColor =>
    case Background =>
      assert Set(k, p, e1) == SetBackground(e1, p) && Set(k, p, e2) == SetBackground(e2, p);
    case BorderRadius =>
      assert e1.borderRadius == e2.borderRadius;
    case BorderWidth =>
    case BorderColor =>
    case FontSize =>
    case TextAlign =>
      assert e1.alignX == e2.alignX;
    case VerticalAlign =>
      assert e1.alignY == e2.alignY;
    case Padding =>
  }

  /** Adding a key to `done` copies its owned fields from its contribution. */
  lemma PartialAdd(st: StyleMap, done: set<Key>, k: Key, b: Rect)
    ensures Partial(st, done + {k}, b) == Override(k, Partial(st, done, b), Contribution(st, k, b))
  {
  }

  /** A key not yet in `done` still has its fields at their defaults. */
  lemma PartialDefault(st: StyleMap, done: set<Key>, k: Key, b: Rect)
    requires k !in done
    ensures Override(k, Partial(st, done, b), DefaultElement(b)) == Partial(st, done, b)
  {
  }

  /** Whether a setter accepts its value does not depend on the element it
      is applied to, and the fields it owns come out as they do from the
      default element while they are still at their defaults. */
  lemma SetStep(st: StyleMap, done: set<Key>, k: Key, b: Rect)
    requires Name(k) in st && k !in done
    ensures Set(k, st[Name(k)], Partial(st, done, b)).Success? <==>
      Set(k, st[Name(k)], DefaultElement(b)).Success?
    ensures Set(k, st[Name(k)], Partial(st, done, b)).Success? ==>
      Set(k, st[Name(k)], Partial(st, done, b)).value == Partial(st, done + {k}, b)
  {
    PartialDefault(st, done, k, b);
    SetLocal(k, st[Name(k)], Partial(st, done, b), DefaultElement(b));
    PartialAdd(st, done, k, b);
  }

  predicate Distinct(ks: seq<string>) {
    forall i, j :: 0 <= i < j < |ks| ==> ks[i] != ks[j]
  }

  /** The keys of the known names in `ks`. */
  function KeysOf(ks: seq<string>): (r: set<Key>)
    ensures forall k :: k in r <==> Name(k) in ks
  {
    if |ks| == 0 then {}
    else
      KeyOfNames();
      (match KeyOf(ks[0]) case Some(k) => {k} case None => {}) + KeysOf(ks[1..])
  }

  lemma {:induction false} ApplyAllFrom(st: StyleMap, ks: seq<string>, done: set<Key>, b: Rect)
    requires Distinct(ks)
    requires forall i :: 0 <= i < |ks| ==> ks[i] in st
    requires forall k :: k in done ==> Name(k) !in ks
    ensures ApplyAll(Partial(st, done, b), ks, st).Success? <==>
      forall i :: 0 <= i < |ks| ==> Accepted(st, ks[i], b)
    ensures ApplyAll(Partial(st, done, b), ks, st).Success? ==>
      ApplyAll(Partial(st, done, b), ks, st).value == Partial(st, done + KeysOf(ks), b)
  {
    if |ks| > 0 {
      var e := Partial(st, done, b);
      match KeyOf(ks[0])
      case None =>
      case Some(k) =>
        SetStep(st, done, k, b);
        if Accepted(st, ks[0], b) {
          assert Apply(ks[0], st[ks[0]], e).value == Partial(st, done + {k}, b);
          ApplyAllFrom(st, ks[1..], done + {k}, b);
          assert done + {k} + KeysOf(ks[1..]) == done + KeysOf(ks);
          assert forall i :: 0 <= i < |ks[1..]| ==> ks[1..][i] == ks[i + 1];
        }
    }
  }

  /** `Partial` only looks at the keys the style sets. */
  lemma PartialOfStyleKeys(st: StyleMap, done: set<Key>, b: Rect)
    requires forall k :: Name(k) in st ==> k in done
    ensures Partial(st, done, b) == Partial(st, AllKeys, b)
  {
  }

  /** The outcome of `getElement` does not depend on the order in which the
      `unordered_map` hands out the properties: the loop over any
      enumeration of the style's names succeeds exactly when `Resolve`
      does, and then yields the same element. */
  lemma ApplyAllResolves(st: StyleMap, ks: seq<string>, b: Rect)
    requires Distinct(ks)
    requires forall i :: 0 <= i < |ks| ==> ks[i] in st
    requires forall name :: name in st ==> name in ks
    ensures ApplyAll(DefaultElement(b), ks, st).Success? <==> Resolve(st, b).Success?
    ensures Resolve(st, b).Success? ==> ApplyAll(DefaultElement(b), ks, st) == Resolve(st, b)
  {
    assert Partial(st, {}, b) == DefaultElement(b);
    ApplyAllFrom(st, ks, {}, b);
    PartialOfStyleKeys(st, KeysOf(ks), b);
    if !Resolve(st, b).Success? {
      var name :| name in st && !Accepted(st, name, b);
      var i :| 0 <= i < |ks| && ks[i] == name;
    }
  }
}
