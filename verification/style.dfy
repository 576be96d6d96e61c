/** The style-sheet data model: parameter and property values, the
    four-slot property pack, the resolved `Element`, and the two maps (a
    style is a map from property names to packs; a sheet is a map from
    style names to styles). */
module Style {
  import opened Wrappers
  import opened Geometry

  /** RGBA channels, nominally in `[0,1]`. */
  datatype Color = Color(r: real, g: real, b: real, a: real)

  /** What a style function's callback returns for a background: a solid
      colour or a nanovg linear gradient from `(sx,sy)` to `(ex,ey)`. */
  datatype Paint =
    | Solid(color: Color)
    | LinearGradient(sx: real, sy: real, ex: real, ey: real, inner: Color, outer: Color)

  /** A style-function argument; the constructor is the `ParamType` tag. */
  datatype Param = NoParam | NumberParam(n: real) | ColorParam(c: Color) | EnumParam(id: string)

  const ParamCount: nat := 16

  /** The fixed `std::array<Param, 16>` of a style function. */
  type ParamList = s: seq<Param> | |s| == ParamCount witness EmptyParams()

  function EmptyParams(): (r: seq<Param>)
    ensures |r| == ParamCount
    ensures forall i :: 0 <= i < |r| ==> r[i] == NoParam
  {
    seq(ParamCount, _ => NoParam)
  }

  /** A property value; the constructor is the `PropertyType` tag. The only
      style function that exists is `gradient`, so a function value keeps
      its name and its parameters. */
  datatype Property =
    | NoValue
    | NumberValue(n: real)
    | ColorValue(c: Color)
    | StringValue(s: string)
    | FunctionValue(name: string, params: ParamList)
    | EnumValue(id: string)

  const PackSize: nat := 4

  /** `PropertyPack`: exactly four slots. */
  type PropertyPack = s: seq<Property> | |s| == PackSize witness EmptyPack()

  function EmptyPack(): (r: seq<Property>)
    ensures |r| == PackSize
    ensures forall i :: 0 <= i < |r| ==> r[i] == NoValue
  {
    seq(PackSize, _ => NoValue)
  }

  /** `PropertyPack::count`: the number of slots holding a value. */
  function Count(p: seq<Property>): (c: nat)
    ensures c <= |p|
    ensures c == 0 <==> forall i :: 0 <= i < |p| ==> p[i] == NoValue
  {
    if |p| == 0 then 0
    else (if p[0] == NoValue then 0 else 1) + Count(p[1..])
  }

  /** A pack whose first `n` slots are filled and the rest empty (the shape
      the parser produces) has count `n`. */
  lemma {:induction false} CountFilledPrefix(p: seq<Property>, n: nat)
    requires n <= |p|
    requires forall i :: 0 <= i < n ==> p[i] != NoValue
    requires forall i :: n <= i < |p| ==> p[i] == NoValue
    ensures Count(p) == n
  {
    if |p| > 0 {
      if n > 0 {
        CountFilledPrefix(p[1..], n - 1);
      } else {
        CountFilledPrefix(p[1..], 0);
      }
    }
  }

  /** A fixed-size `float[4]` (border radii tl/tr/br/bl, or padding
      left/right/top/bottom). */
  type Quad = s: seq<real> | |s| == 4 witness [0.0, 0.0, 0.0, 0.0]

  const Zeros: Quad := [0.0, 0.0, 0.0, 0.0]

  /** nanovg's text-alignment flags. */
  const AlignLeft: int := 1
  const AlignCenter: int := 2
  const AlignRight: int := 4
  const AlignTop: int := 8
  const AlignMiddle: int := 16
  const AlignBottom: int := 32

  /** A resolved element: the paints, metrics, alignment, radii, padding
      and the inner bounds the style functions are evaluated against. */
  datatype Element = Element(
    backgroundPaint: Option<Paint>,
    textPaint: Option<Paint>,
    borderPaint: Option<Paint>,
    borderWidth: real,
    fontSize: real,
    alignX: int,
    alignY: int,
    borderRadius: Quad,
    padding: Quad,
    bounds: Rect)

  /** The member initialisers of `Element`, with the given bounds. */
  function DefaultElement(bounds: Rect): Element {
    Element(None, None, None, 0.0, 14.0, 0, 0, Zeros, Zeros, bounds)
  }

  lemma DefaultElementFields(b: Rect)
    ensures var e := DefaultElement(b);
      && e.backgroundPaint == None && e.textPaint == None && e.borderPaint == None
      && e.borderWidth == 0.0 && e.fontSize == 14.0
      && e.alignX == 0 && e.alignY == 0
      && (forall i :: 0 <= i < 4 ==> e.borderRadius[i] == 0.0 && e.padding[i] == 0.0)
      && e.bounds == b
  {
  }

  /** Property name to pack. */
  type StyleMap = map<string, PropertyPack>

  /** Style name to style. */
  type Sheet = map<string, StyleMap>
}
