# title-maker core, modelled in Dafny

This project models the logic core of the title-maker application and of QuickGUI, its immediate-mode GUI library. The modelled parts are:

- the geometry kernel (`Point` and `Rect`);
- the layout stack, with its cuts and column slicing;
- widget hover, activation and focus, checkboxes and the modal popup gate;
- the single-line text editor and the draggable number field;
- the colour picker's interaction logic and the scroll panel;
- the style-sheet parser and the resolution of a style into an `Element`;
- the editor viewport's coordinate mappings, shape selection and resize handles;
- the easing functions and the enter/exit animation state machine;
- the shape's animation sequencing and gradient fill.

Modelling choices:

- Every operation is a pure function over immutable datatypes. A call that mutates GUI state in the program returns the new state here.
- Floats are `real`. Float-to-int conversions are written out as truncation toward zero (`Layout.Trunc`) and as `roundf` (`NumberField.RoundF`).
- Some calls throw, divide by zero or read past the end of a buffer. Each of these is a `Failure` value of a `Result`.
- Some things the core gets from outside come in as parameters:
  - `std::hash` of widget id strings;
  - `std::to_string` and `fmt::format` of numbers;
  - the SDL key table;
  - glyph positions measured by the font renderer;
  - `atan2` and the `rgbToHSV`/`hsvToRGB` conversions;
  - the two elastic easings.

Modules:

- `Geometry`
- `Layout`
- `Chars`
- `Keys`
- `Style`
- `StyleParser`
- `StyleResolve`
- `Gui`
- `LineEditor`
- `NumberField`
- `ColorPicker`
- `Panels`
- `Viewport`
- `Easings`
- `Animations`
- `Shapes`
- `Wrappers` (the `Option`/`Result` types)
- `RealArith` (helper facts about real products and quotients)

## Model

| member | source | states |
|---|---|---|
| Geometry.FromMinMax | QuickGUI/quickgui/Internal.cpp:19-23 | the normalised rect has non-negative size and spans exactly from the smaller to the larger coordinate on each axis |
| Geometry.Clamp | QuickGUI/quickgui/QuickGUI.cpp:556 | `std::clamp`: the result lies in `[lo, hi]`, equals `v` inside the range and the nearer bound outside it |
| Geometry.AddSubInverse | QuickGUI/quickgui/Internal.h:12-18 | adding then subtracting the same point, in either order, gives back the original point |
| Geometry.MulCommutes | QuickGUI/quickgui/Internal.h:24-26 | the componentwise product does not depend on operand order |
| Geometry.DotSymmetric | QuickGUI/quickgui/Internal.h:28-30 | the dot product is symmetric |
| Geometry.ScaleIsMulBySplat | QuickGUI/quickgui/Internal.h:20-26 | scaling by `k` is the componentwise product with `(k, k)` |
| Geometry.OffsetKeepsHits | QuickGUI/quickgui/Internal.h:52-54 | `rect - o` contains `p - o` exactly when `rect` contains `p` |
| Geometry.LocationSizeRoundTrip | QuickGUI/quickgui/Internal.h:56-62 | a rect is rebuilt exactly from its location and size |
| Geometry.ExpandInverse | QuickGUI/quickgui/Internal.cpp:12-17 | expanding by `a` then by `-a` restores the rect |
| Geometry.ExpandCompose | QuickGUI/quickgui/Internal.cpp:12-17 | two expansions add up to one expansion by the sum |
| Geometry.ExpandMonotone | QuickGUI/quickgui/Internal.cpp:5-17 | a non-negative expansion keeps every point the rect already contained |
| Geometry.HasPointCorners | QuickGUI/quickgui/Internal.cpp:5-10 | the hit test is closed: both the top-left and bottom-right corners are inside |
| Geometry.FromMinMaxSymmetric | QuickGUI/quickgui/Internal.cpp:19-23 | swapping the two corners gives the same rect |
| Geometry.FromMinMaxOrdered | QuickGUI/quickgui/Internal.cpp:19-23 | already ordered corners give back the rect they span |
| Geometry.FromMinMaxHasPoint | QuickGUI/quickgui/Internal.cpp:5-23 | the normalised rect holds exactly the points of the box between the two corners, whatever their order |
| Layout.CutTop | QuickGUI/quickgui/QuickGUI.cpp:1285-1298 | fails exactly on an empty stack; otherwise only the top changes, and the strip of the requested height stacked above the new top tiles the old top |
| Layout.CutBottom | QuickGUI/quickgui/QuickGUI.cpp:1300-1313 | as `cutTop`, with the strip below the remainder |
| Layout.CutLeft | QuickGUI/quickgui/QuickGUI.cpp:1315-1328 | fails exactly on an empty stack; the strip of the requested width and the remainder tile the old top side by side |
| Layout.CutRight | QuickGUI/quickgui/QuickGUI.cpp:1330-1343 | as `cutLeft`, with the strip to the right |
| Layout.PushBounds | QuickGUI/quickgui/QuickGUI.cpp:1247-1249 | the pushed rect becomes the top and everything below is kept |
| Layout.PopBounds | QuickGUI/quickgui/QuickGUI.cpp:1251-1256 | fails exactly on an empty stack; returns the top and removes it unless it is the only (root) entry |
| Layout.Peek | QuickGUI/quickgui/QuickGUI.cpp:1258-1260 | fails exactly on an empty stack, otherwise returns the top |
| Layout.PushPopRoundTrip | QuickGUI/quickgui/QuickGUI.cpp:1247-1256 | popping right after a push returns the pushed rect and the original stack |
| Layout.PopsKeepRoot | QuickGUI/quickgui/QuickGUI.cpp:1251-1256 | any number of pops leaves the root rect at the bottom |
| Layout.Trunc | QuickGUI/quickgui/QuickGUI.cpp:1272 | float-to-int conversion truncates toward zero on both signs |
| Layout.Columns | QuickGUI/quickgui/QuickGUI.cpp:1274-1278 | columns have width `columnWidth - gap` and the row's height, start at the row's left edge, step by `columnWidth`, and are just enough to cover the row's width |
| Layout.SliceHorizontal | QuickGUI/quickgui/QuickGUI.cpp:1262-1283 | cuts a row off the top and slices it into columns of the row's height; on a row of positive width it succeeds exactly when the truncated column width `cw = trunc(width / columns)` is positive (otherwise the source loops forever), and then gives at least `columns` columns, column `i` at `x + i * cw` with width `cw - gap`, that together just cover the row |
| Layout.SliceInTwo | TitleMaker/app/App.cpp:468-478 | a two-column slice of a row at least 2 wide has the two columns the callers index: the first at the row's left edge, the second one column width further, both `trunc(width / 2) - gap` wide |
| Layout.EvenSteps | QuickGUI/quickgui/QuickGUI.cpp:1274-1278 | columns that start at the row's edge and each start one column width after the previous one are at `x + i * cw` |
| Layout.CountBound | QuickGUI/quickgui/QuickGUI.cpp:1272-1278 | covering a row with columns of the truncated width `trunc(width / columns)` takes at least `columns` of them |
| Chars.Lower | QuickGUI/quickgui/StyleSheet.cpp:141 | lower-casing keeps the length and maps every character through `tolower` |
| Chars.Span | QuickGUI/quickgui/StyleSheet.cpp:70-72 | the span is the longest prefix whose characters all satisfy the predicate |
| Chars.SpanUnique | QuickGUI/quickgui/StyleSheet.cpp:70-72 | any prefix length that satisfies the predicate and stops at a failing character is the span |
| Chars.NatToString | QuickGUI/quickgui/QuickGUI.cpp:1078 | `std::to_string` of a panel id is a non-empty digit string without a leading zero |
| Chars.NatToStringValue | QuickGUI/quickgui/QuickGUI.cpp:1078 | the decimal digits `std::to_string` gives a panel id read back as the id |
| Chars.NatToStringInjective | QuickGUI/quickgui/QuickGUI.cpp:1078 | different panel ids give different strings |
| Chars.StoF | QuickGUI/quickgui/StyleSheet.cpp:108-115 | `stof` succeeds only on text holding a digit |
| Chars.UnsignedDecimalOfDigits | QuickGUI/quickgui/StyleSheet.cpp:109-114 | `stof` of a plain digit string is the number those digits denote |
| Chars.StoFOfNatToString | QuickGUI/quickgui/QuickGUI.cpp:669 | `stof` of a whole number typed as plain digits, with no leading zero, gives that number |
| Chars.StoFOfZeroFraction | QuickGUI/quickgui/QuickGUI.cpp:669 | `stof` of digits, a point and any number of zeros gives the number the digits denote |
| Chars.StoFOfPrintedFloat | QuickGUI/quickgui/QuickGUI.cpp:655-669 | `stof` of the `%f` text `std::to_string` prints for a float holding a whole number (its digits, a point and six zeros) gives that number back |
| Chars.StoFNegates | QuickGUI/quickgui/QuickGUI.cpp:669 | a leading minus sign negates the value `stof` reads |
| Chars.StoFUnsigned | QuickGUI/quickgui/QuickGUI.cpp:669 | text with no leading white space or sign is read as an unsigned decimal, and a minus in front negates that reading or keeps its failure |
| Chars.UnsignedDecimalOfFraction | QuickGUI/quickgui/StyleSheet.cpp:108-115 | `digits.digits` followed by the end or by a character that cannot continue a number reads as the integer digits plus the fraction digits over ten to their count; what follows is ignored |
| Chars.StoFOfFraction | QuickGUI/quickgui/QuickGUI.cpp:669 | `stof` of `digits.digits` (either side may be empty, not both) is that decimal |
| Chars.StoFOfNegativeFraction | QuickGUI/quickgui/QuickGUI.cpp:669 | `stof` of `-digits.digits` is the negated decimal |
| Chars.UnsignedDecimalOfInteger | QuickGUI/quickgui/StyleSheet.cpp:108-115 | digits followed by neither a digit nor a `.` read as their value with only an exponent suffix applied |
| Chars.ExponentOf | QuickGUI/quickgui/QuickGUI.cpp:669 | `e` followed by digits scales by ten to the power they denote, `e-` followed by digits scales down by it |
| Chars.UnsignedDecimalOfExponent | QuickGUI/quickgui/QuickGUI.cpp:669 | digits with an exponent `e digits` or `e- digits` read as the digits' value scaled by the exponent |
| Chars.StoFOfExponent | QuickGUI/quickgui/QuickGUI.cpp:669 | `stof` of digits with an exponent is the scaled value |
| Chars.StoFOfDigitStart | QuickGUI/quickgui/QuickGUI.cpp:669 | text that starts with a digit always converts: `stof` does not throw on it |
| Keys.Find | TitleMaker/app/App.cpp:73 | returns the first index holding the code, and none exactly when the code is absent |
| Keys.TranslateKey | TitleMaker/app/App.cpp:72-81 | gives `Unknown` exactly for codes absent from the table; otherwise the first key whose table entry is the code |
| Keys.TranslateKeyRoundTrip | TitleMaker/app/App.cpp:8-33 | with distinct codes in the table, translating a key's code gives back that key |
| Style.EmptyParams | QuickGUI/quickgui/StyleSheet.h:34-38 | a fresh parameter list has 16 slots, all untyped |
| Style.EmptyPack | QuickGUI/quickgui/StyleSheet.h:53-54 | a fresh property pack has 4 slots, all untyped |
| Style.Count | QuickGUI/quickgui/StyleSheet.cpp:626-632 | the count never exceeds the pack size and is zero exactly when every slot is untyped |
| Style.CountFilledPrefix | QuickGUI/quickgui/StyleSheet.cpp:626-632 | a pack filled in its first `n` slots and empty after them counts `n` |
| Style.DefaultElementFields | QuickGUI/quickgui/StyleSheet.h:62-74 | a default element has no paints, zero border, radii and padding, font size 14, default alignment, and the given bounds |
| StyleParser.Peek | QuickGUI/quickgui/StyleSheet.cpp:65-68 | the first character, or NUL at end of input |
| StyleParser.Next | QuickGUI/quickgui/StyleSheet.cpp:58-63 | consumes exactly one character when there is one |
| StyleParser.SkipSpaces | QuickGUI/quickgui/StyleSheet.cpp:70-72 | drops exactly the leading whitespace |
| StyleParser.SkipSpacesNone | QuickGUI/quickgui/StyleSheet.cpp:70-72 | input starting with a non-space is left untouched |
| StyleParser.SkipIfPresentAndSpaces | QuickGUI/quickgui/StyleSheet.cpp:74-86 | succeeds exactly when the next non-space character is the expected one (error `Expected(c)` otherwise), consuming it and the spaces after it |
| StyleParser.NextIdentifier | QuickGUI/quickgui/StyleSheet.cpp:96-98 | splits the input into the longest identifier prefix and the rest |
| StyleParser.PeekIdentifier | QuickGUI/quickgui/StyleSheet.cpp:100-106 | peeking consumes nothing |
| StyleParser.PeekMatchesNext | QuickGUI/quickgui/StyleSheet.cpp:96-106 | peeking sees the same identifier that reading consumes |
| StyleParser.NextIdentifierUnique | QuickGUI/quickgui/StyleSheet.cpp:96-98 | an identifier followed by a non-identifier character is read back exactly |
| StyleParser.NextNumber | QuickGUI/quickgui/StyleSheet.cpp:108-115 | rejects input not starting with a digit or minus; on success the value is `stof` of the consumed prefix and the rest starts with no number character |
| StyleParser.NextNumberOfNatToString | QuickGUI/quickgui/StyleSheet.cpp:108-115 | a printed whole number followed by a separator reads back as that number |
| StyleParser.NextHexByte | QuickGUI/quickgui/StyleSheet.cpp:117-126 | succeeds exactly when a hex digit comes next, yields a byte, and consumes two characters (one at end of input) |
| StyleParser.NextHexByteRoundTrip | QuickGUI/quickgui/StyleSheet.cpp:117-126 | a byte written as two hex digits reads back as itself |
| StyleParser.Hue2Rgb | QuickGUI/quickgui/StyleSheet.cpp:11-18 | a hue below one sixth (after wrapping into one turn) interpolates from `p` towards `q`, up to one half gives `q`, and from two thirds on gives `p` |
| StyleParser.Hsl2Rgb | QuickGUI/quickgui/StyleSheet.cpp:20-34 | the colour is opaque, and grey at the lightness when the saturation is within the achromatic epsilon |
| StyleParser.Hue2RgbBetween | QuickGUI/quickgui/StyleSheet.cpp:11-18 | every channel lies between the two levels `p` and `q` |
| StyleParser.Hsl2RgbInRange | QuickGUI/quickgui/StyleSheet.cpp:11-34 | saturation and lightness in `[0, 1]` give channels in `[0, 1]` |
| StyleParser.Hsl2RgbRed | QuickGUI/quickgui/StyleSheet.cpp:20-34 | `hsl(0, 1, 0.5)` is pure red |
| StyleParser.NumberList | QuickGUI/quickgui/StyleSheet.cpp:146-170 | reads exactly the requested count of comma-separated numbers |
| StyleParser.ColorFromArgs | QuickGUI/quickgui/StyleSheet.cpp:146-171 | `rgb`/`hsl` colours are opaque, and `rgba`/`hsla` take the fourth argument as alpha |
| StyleParser.NextColor | QuickGUI/quickgui/StyleSheet.cpp:128-180 | input that is neither `#` nor a letter has no colour; hex colours are opaque; input is consumed |
| StyleParser.NextColorHexRoundTrip | QuickGUI/quickgui/StyleSheet.cpp:128-139 | `#rrggbb` reads back as the three bytes over 255 with full alpha |
| StyleParser.NextParam | QuickGUI/quickgui/StyleSheet.cpp:194-228 | a parameter is typed, numbers start with a digit, and input that starts no parameter is `InvalidParam` |
| StyleParser.ParamItem | QuickGUI/quickgui/StyleSheet.cpp:260-267 | one list item is a typed parameter and consumes input |
| StyleParser.Params | QuickGUI/quickgui/StyleSheet.cpp:260-267 | the argument list always has 16 slots and keeps the parameters read before the current slot |
| StyleParser.ArgList | QuickGUI/quickgui/StyleSheet.cpp:260-267 | the reference reading of the arguments, with no slot limit, consumes input |
| StyleParser.ParamsIsArgList | QuickGUI/quickgui/StyleSheet.cpp:260-267 | the 16-slot loop stores exactly the arguments the reference reads, in order, after the slots already filled, and fails with `TooManyParams` when they do not fit |
| StyleParser.StoresAllArgs | QuickGUI/quickgui/StyleSheet.cpp:260-267 | from an empty list: a failed reading fails, up to 16 arguments are stored padded with untyped slots, more than 16 are `TooManyParams` |
| StyleParser.NextPropertyValue | QuickGUI/quickgui/StyleSheet.cpp:230-284 | a leading minus is `InvalidValue`; a quote is `ExpectedQuote`, since the check at line 183 is always true; functions other than `gradient` are rejected |
| StyleParser.FunctionArgs | QuickGUI/quickgui/StyleSheet.cpp:251-269 | the arguments `ParamItem` reads in turn up to `)`, padded to 16 untyped slots; `TooManyParams` beyond 16; fails when an argument fails |
| StyleParser.PackFrom | QuickGUI/quickgui/StyleSheet.cpp:286-304 | fills consecutive slots from the current one with values, keeps the slots around them, and stops early only at `;` |
| StyleParser.PackValues | QuickGUI/quickgui/StyleSheet.cpp:286-304 | the values of a pack read as a list never exceed the free slots |
| StyleParser.PackFromIsPackValues | QuickGUI/quickgui/StyleSheet.cpp:286-304 | the slot-filling loop succeeds exactly when the list reading does and stores its values, in order, from the current slot |
| StyleParser.StoresAllValues | QuickGUI/quickgui/StyleSheet.cpp:286-304 | from an empty pack: the values read fill the leading slots and the rest stay untyped |
| StyleParser.NextPropertyPack | QuickGUI/quickgui/StyleSheet.cpp:286-304 | the pack holds the values `nextPropertyValue` reads in turn, in the leading slots, then untyped slots; fewer than four values means it stopped at `;` |
| StyleParser.Line | QuickGUI/quickgui/StyleSheet.cpp:323-344 | a line starting with `@` inherits the named style; any other line sets the named property |
| StyleParser.ApplyLine | QuickGUI/quickgui/StyleSheet.cpp:329-343 | inheriting copies the other style's properties over (a missing style changes nothing), setting overwrites one property, and nothing else changes |
| StyleParser.ReadLines | QuickGUI/quickgui/StyleSheet.cpp:322-345 | the body's lines, read without applying them, end at `}` |
| StyleParser.ApplyLines | QuickGUI/quickgui/StyleSheet.cpp:329-343 | applying lines never drops a property, and a property that was not there before comes from some line that touches it |
| StyleParser.UntouchedKept | QuickGUI/quickgui/StyleSheet.cpp:329-343 | a property no line touches keeps its value |
| StyleParser.ApplyLinesLastWins | QuickGUI/quickgui/StyleSheet.cpp:329-343 | the last line touching a property decides its value: an `@` line gives the inherited value, a property line its pack |
| StyleParser.InheritThenOverride | QuickGUI/quickgui/StyleSheet.cpp:329-343 | after `@base;` a property line overrides the inherited value, and the base style's other properties come through |
| StyleParser.Lines | QuickGUI/quickgui/StyleSheet.cpp:322-345 | reading and applying line by line is the same as reading all lines to `}` and applying them in order: same success, same error, same style |
| StyleParser.NextBlock | QuickGUI/quickgui/StyleSheet.cpp:315-348 | a block is named by its leading identifier, consumes input, and its style is its body's lines applied in order to an empty style |
| StyleParser.Parse | QuickGUI/quickgui/StyleSheet.cpp:307-351 | parsing only adds styles; `Stuck` (the input where the source's loop makes no progress and never ends) arises only on non-empty input |
| StyleParser.ParseBlank | QuickGUI/quickgui/StyleSheet.cpp:311-312 | blank input leaves the sheet as it was |
| StyleParser.ParseBlockThen | QuickGUI/quickgui/StyleSheet.cpp:311-349 | a well-formed block is stored under its name and parsing continues after it; a malformed one ends parsing with its error and the sheet as it was |
| StyleParser.ParseStuck | QuickGUI/quickgui/StyleSheet.cpp:311-315 | a non-space, non-letter character where a block name belongs is where the source's loop spins without consuming input; the model reports `Stuck` with the sheet unchanged |
| StyleResolve.AsNumber | QuickGUI/quickgui/StyleSheet.cpp:394-398 | `std::get<float>` succeeds exactly on a number |
| StyleResolve.AsColor | QuickGUI/quickgui/StyleSheet.cpp:355-360 | `std::get<Color>` succeeds exactly on a colour |
| StyleResolve.AsText | QuickGUI/quickgui/StyleSheet.cpp:413-420 | `std::get<std::string>` succeeds exactly on an enum word or a string |
| StyleResolve.Gradient | QuickGUI/quickgui/StyleSheet.cpp:36-49 | succeeds exactly on four numbers and two colours, giving a linear gradient relative to the rect |
| StyleResolve.GradientCornerToCorner | QuickGUI/quickgui/StyleSheet.cpp:36-49 | stops `(0,0)` and `(1,1)` run from the rect's top-left to its bottom-right corner |
| StyleResolve.SetColor | QuickGUI/quickgui/StyleSheet.cpp:355-360 | succeeds exactly on a colour and sets only the text paint to it |
| StyleResolve.SetBackground | QuickGUI/quickgui/StyleSheet.cpp:362-373 | a colour gives a solid background; a non-colour non-function fails; only the background changes |
| StyleResolve.SetBorderRadius | QuickGUI/quickgui/StyleSheet.cpp:375-392 | one number sets all four radii, four numbers set each, and any other count changes nothing |
| StyleResolve.SetBorderWidth | QuickGUI/quickgui/StyleSheet.cpp:394-398 | succeeds exactly on a number and sets only the border width |
| StyleResolve.SetBorderColor | QuickGUI/quickgui/StyleSheet.cpp:400-405 | succeeds exactly on a colour and sets only the border paint |
| StyleResolve.SetFontSize | QuickGUI/quickgui/StyleSheet.cpp:407-411 | succeeds exactly on a number and sets only the font size |
| StyleResolve.HorizontalFlag | QuickGUI/quickgui/StyleSheet.cpp:413-420 | exactly `left`, `center` and `right` are recognised, as the horizontal alignment flags |
| StyleResolve.VerticalFlag | QuickGUI/quickgui/StyleSheet.cpp:422-429 | exactly `top`, `middle` and `bottom` are recognised, as the vertical alignment flags |
| StyleResolve.SetTextAlign | QuickGUI/quickgui/StyleSheet.cpp:413-420 | succeeds exactly on a word; only the horizontal alignment changes; an unknown word changes nothing |
| StyleResolve.SetVerticalAlign | QuickGUI/quickgui/StyleSheet.cpp:422-429 | as `text-align`, for the vertical alignment |
| StyleResolve.SetPadding | QuickGUI/quickgui/StyleSheet.cpp:431-441 | succeeds exactly on four numbers and sets the padding to them, in order |
| StyleResolve.KeyOf | QuickGUI/quickgui/StyleSheet.cpp:443-453 | a recognised property name maps to the setter of that name |
| StyleResolve.KeyOfName | QuickGUI/quickgui/StyleSheet.cpp:443-453 | every setter is found by its own name |
| StyleResolve.KeyOfNames | QuickGUI/quickgui/StyleSheet.cpp:443-453 | the table's names are distinct, so each setter is found by its own name |
| StyleResolve.Set | QuickGUI/quickgui/StyleSheet.cpp:443-453 | a setter changes only its own fields, and fails only with a wrong value |
| StyleResolve.Apply | QuickGUI/quickgui/StyleSheet.cpp:615 | an unknown property name is exactly the `UnknownProperty` failure; a known one changes only its setter's fields |
| StyleResolve.ApplyAll | QuickGUI/quickgui/StyleSheet.cpp:614-616 | applying a style's properties never moves the element's bounds |
| StyleResolve.Resolve | QuickGUI/quickgui/StyleSheet.cpp:611-616 | the style resolves exactly when every property is known and its value accepted; all names are known |
| StyleResolve.ShrinkByPadding | QuickGUI/quickgui/StyleSheet.cpp:618-621 | each edge moves inward by its padding |
| StyleResolve.GetElement | QuickGUI/quickgui/StyleSheet.cpp:607-624 | a missing style gives the default element; the bounds are moved to the origin and shrunk by the padding; an unknown property name fails |
| StyleResolve.SetLocal | QuickGUI/quickgui/StyleSheet.cpp:355-441 | whether a setter succeeds, and what it writes, does not depend on the element it writes into |
| StyleResolve.PartialAdd | QuickGUI/quickgui/StyleSheet.cpp:614-616 | adding one property to the applied set overrides just its fields |
| StyleResolve.PartialDefault | QuickGUI/quickgui/StyleSheet.cpp:607-616 | the fields of a setter not yet applied hold their defaults |
| StyleResolve.SetStep | QuickGUI/quickgui/StyleSheet.cpp:614-616 | applying one more of the style's properties is the next partial result |
| StyleResolve.KeysOf | QuickGUI/quickgui/StyleSheet.cpp:614-616 | the setters reached are exactly those whose names were iterated |
| StyleResolve.ApplyAllFrom | QuickGUI/quickgui/StyleSheet.cpp:614-616 | the loop over the remaining names succeeds and ends where the order-free reference does |
| StyleResolve.PartialOfStyleKeys | QuickGUI/quickgui/StyleSheet.cpp:614-616 | once every name of the style is applied, further setters change nothing |
| StyleResolve.ApplyAllResolves | QuickGUI/quickgui/StyleSheet.cpp:614-616 | whatever order the hash map enumerates the properties in, the loop gives the order-independent result |
| Gui.FreshStateIsIdle | QuickGUI/quickgui/QuickGUI.h:79-95 | the initial state has no active, hovered or focused widget and no button or key down |
| Gui.BeginFrame | QuickGUI/quickgui/QuickGUI.cpp:83-94 | hover is cleared unless the mouse is held; the screen size is recorded and pushed as the root layout rect |
| Gui.EndFrame | QuickGUI/quickgui/QuickGUI.cpp:96-107 | the active widget is released unless the mouse is held; deltas, scroll and key flags reset; the layout empties |
| Gui.WidgetStep | QuickGUI/quickgui/QuickGUI.cpp:140-218 | a widget call changes only hover, activation, focus and the last click position |
| Gui.WidgetActiveState | QuickGUI/quickgui/QuickGUI.cpp:193-195 | a widget reports `Active` exactly when it is both hovered and active and input is not blocked for it |
| Gui.RunCalls | QuickGUI/quickgui/QuickGUI.cpp:140-218 | a frame's widget calls change only the shared interaction state, never the mouse |
| Gui.FirstTaker | QuickGUI/quickgui/QuickGUI.cpp:164-187 | the first call whose bounds qualify under a pressed mouse, and none when none does |
| Gui.QualifiesStable | QuickGUI/quickgui/QuickGUI.cpp:162-176 | whether bounds qualify depends only on the mouse and the layout, not on hover, activation or focus |
| Gui.ActiveSticks | QuickGUI/quickgui/QuickGUI.cpp:177-187 | once a widget is active, no other widget call in the frame takes activation |
| Gui.FirstTakerWins | QuickGUI/quickgui/QuickGUI.cpp:177-187 | under a press with nothing active, the first qualifying widget in call order becomes active |
| Gui.FirstTakerShift | QuickGUI/quickgui/QuickGUI.cpp:164-187 | a non-qualifying first call does not change who wins |
| Gui.FirstTakerSame | QuickGUI/quickgui/QuickGUI.cpp:164-187 | the winner depends only on which calls qualify |
| Gui.HoldAcrossFrames | QuickGUI/quickgui/QuickGUI.cpp:84-99 | a widget held active across a frame boundary stays active through the next frame |
| Gui.CheckBox | QuickGUI/quickgui/QuickGUI.cpp:287-306 | the value toggles exactly when the widget is clicked |
| Gui.CheckBoxBlocked | QuickGUI/quickgui/QuickGUI.cpp:162-201 | while a popup blocks input a checkbox neither toggles nor takes activation |
| Gui.ShowPopup | QuickGUI/quickgui/QuickGUI.cpp:308-311 | opening a popup records it and blocks input, nothing else |
| Gui.MenuWidth | QuickGUI/quickgui/QuickGUI.cpp:333-344 | the width is the largest item width, or 0 when no item is wider than 0 (the running maximum starts at 0) |
| Gui.PopupBounds | QuickGUI/quickgui/QuickGUI.cpp:346-350 | the menu opens at the last click, as wide as the widest item plus padding, one item height per item plus padding |
| Gui.PopupStep | QuickGUI/quickgui/QuickGUI.cpp:313-376 | a closed popup does nothing; a press outside closes it and unblocks; otherwise the selection is the first item clicked, and nothing is chosen only when no item is clicked |
| Gui.PopupItems | QuickGUI/quickgui/QuickGUI.cpp:358-375 | the first clicked item from the current one is selected and closes the popup, with the later calls skipped; with no click every item call runs and none is clicked |
| Gui.ItemClickedShift | QuickGUI/quickgui/QuickGUI.cpp:358-374 | starting the item loop one item later, on the state the skipped call leaves, sees the same clicks |
| Gui.PopupGate | QuickGUI/quickgui/QuickGUI.cpp:162-201 | while blocked, ordinary widgets are not clicked or activated, but popup items still take activation |
| Gui.PopupFirstItemClick | QuickGUI/quickgui/QuickGUI.cpp:359-370 | a release over the first item chooses index 0 and unblocks input |
| Gui.ShowThenDismiss | QuickGUI/quickgui/QuickGUI.cpp:308-356 | a popup opened and then pressed outside leaves the GUI unblocked with nothing chosen |
| LineEditor.KeyEdit | QuickGUI/quickgui/QuickGUI.cpp:422-464 | ctrl swallows one key; the cursor stays in range; the text grows by at most one character; an out-of-range delete fails |
| LineEditor.TypeThenBackspace | QuickGUI/quickgui/QuickGUI.cpp:433-448 | typing a character then pressing backspace restores the text and cursor |
| LineEditor.TypeLeftDelete | QuickGUI/quickgui/QuickGUI.cpp:433-452 | typing, stepping left and deleting restores the text |
| LineEditor.EditingKeys | QuickGUI/quickgui/QuickGUI.cpp:441-458 | Home, End, Left and Right move the cursor as expected, and control arms ctrl |
| LineEditor.UpdateCursor | QuickGUI/quickgui/QuickGUI.cpp:378-394 | only the view offset changes; it fails exactly when the cursor is past the measured glyphs; a glyph end past the right edge scrolls so that it sits on that edge, one left of the view scrolls to the same place but not below 0, and one in view keeps the offset |
| LineEditor.ClickCursor | QuickGUI/quickgui/QuickGUI.cpp:466-480 | the cursor goes to the first glyph under the mouse, or `-1` when none is hit |
| LineEditor.LineEdit | QuickGUI/quickgui/QuickGUI.cpp:414-484 | no key and no left click changes nothing; a key edit is `KeyEdit` on the caret; a left click keeps the text and puts the caret on the glyph under the mouse |
| LineEditor.Blink | QuickGUI/quickgui/QuickGUI.cpp:397-404 | the blink timer stays in `[0, 1)` and the caret's visibility flips exactly when the timer wraps |
| LineEditor.TextEditStep | QuickGUI/quickgui/QuickGUI.cpp:501-540 | only this widget's editor changes; a failed style fails; an unfocused editor keeps its text; a focused one blinks and edits on the rect shrunk by the style's padding |
| NumberField.RoundF | QuickGUI/quickgui/QuickGUI.cpp:543 | `roundf` rounds to the nearest whole number, with halves away from zero |
| NumberField.RoundFOfInt | QuickGUI/quickgui/QuickGUI.cpp:543 | whole numbers round to themselves |
| NumberField.Snap | QuickGUI/quickgui/QuickGUI.cpp:542-546 | the result is a whole number of steps, at most half a step from `v` |
| NumberField.SnapProperties | QuickGUI/quickgui/QuickGUI.cpp:542-546 | snapping lands on the step grid, keeps grid values, and is idempotent |
| NumberField.SnapOnGrid | QuickGUI/quickgui/QuickGUI.cpp:542-546 | a multiple of the step is left alone |
| NumberField.SnapNear | QuickGUI/quickgui/QuickGUI.cpp:542-546 | snapping moves a value by at most half a step |
| NumberField.FreshEditorsIdle | QuickGUI/quickgui/QuickGUI.h:103-119 | a fresh field is neither editing text nor dragging |
| NumberField.UpdateValue | QuickGUI/quickgui/QuickGUI.cpp:548-558 | dragging accumulates the pixel delta; the value stays when the snapped accumulator equals it, and otherwise becomes the clamped snap |
| NumberField.FivePixelsOneStep | QuickGUI/quickgui/QuickGUI.cpp:548-558 | dragging five pixels from a grid value moves one step, clamped |
| NumberField.Commit | QuickGUI/quickgui/QuickGUI.cpp:669-671 | committing fails exactly when `stof` fails, and the committed value is in range |
| NumberField.CommitWholeNumber | QuickGUI/quickgui/QuickGUI.cpp:667-671 | a whole number typed as plain digits commits to itself with step 1 when in range |
| NumberField.CommitPrintedFloat | QuickGUI/quickgui/QuickGUI.cpp:653-671 | the text a right click puts in the field for an in-range whole-number value, `std::to_string` of the float, commits back to that value with step 1 |
| NumberField.MainBounds | QuickGUI/quickgui/QuickGUI.cpp:568-575 | the text area sits exactly between the decrement and increment buttons |
| NumberField.NotEditing | QuickGUI/quickgui/QuickGUI.cpp:647-666 | the value stays in range; a release stops dragging; a right click enters text mode with the formatted value |
| NumberField.Editing | QuickGUI/quickgui/QuickGUI.cpp:667-688 | the value stays in range; Enter commits the text and leaves text mode; while editing the value is untouched |
| NumberField.Blinked | QuickGUI/quickgui/QuickGUI.cpp:624-628 | outside text mode the field is untouched; in text mode only its line editor changes |
| NumberField.Buttons | QuickGUI/quickgui/QuickGUI.cpp:633-641 | a click on the decrement or increment button moves the value one step down or up and clamps it; no click keeps it |
| NumberField.FieldMode | QuickGUI/quickgui/QuickGUI.cpp:643-689 | outside text mode it is the drag logic; a drag starts only from a press inside the text area; a press outside it leaves text mode |
| NumberField.NumberStep | QuickGUI/quickgui/QuickGUI.cpp:560-689 | the value stays in range; only this field's editor changes; a failed style fails; drags start and text mode ends by hit tests on the text area shrunk by the padding |
| NumberField.ButtonClicks | QuickGUI/quickgui/QuickGUI.cpp:633-641 | on an idle field a click on the decrement button gives the clamped value less one step, on the increment button plus one step, and no click with the mouse up keeps the value |
| NumberField.EditThenEnterKeepsValue | QuickGUI/quickgui/QuickGUI.cpp:647-671 | entering text mode and pressing Enter keeps a grid value whose text reads back |
| ColorPicker.FreshPickerIdle | QuickGUI/quickgui/QuickGUI.h:127-131 | a fresh picker holds nothing |
| ColorPicker.WheelOf | QuickGUI/quickgui/QuickGUI.cpp:711-717 | the ring is 18 wide inside half the shorter side less 5; the square of lines 785 and 814-819 has side `r1 - 1` and is centred in it |
| ColorPicker.InRingByDistance | QuickGUI/quickgui/QuickGUI.cpp:810-832 | the squared-distance test agrees with the source's test on the distance |
| ColorPicker.HueOfAngle | QuickGUI/quickgui/QuickGUI.cpp:844-848 | the angle is moved into one turn, giving a hue in `[0, 1)` |
| ColorPicker.SatValOf | QuickGUI/quickgui/QuickGUI.cpp:839-840 | saturation and value are clamped fractions in `[0, 1]`; a square of zero size fails |
| ColorPicker.SelectorFollowsMouse | QuickGUI/quickgui/QuickGUI.cpp:839-856 | while the square is held, the selector is the mouse clamped into the square |
| ColorPicker.PickerStep | QuickGUI/quickgui/QuickGUI.cpp:824-860 | a release lets go; a left press grabs square or ring; a held part keeps its mode; the ring sets only the hue; the colour's alpha is kept |
| ColorPicker.HeldSquareTracksMouse | QuickGUI/quickgui/QuickGUI.cpp:824-860 | with the square held, a picker step puts the selector at the clamped mouse |
| Panels.BeginPanel | QuickGUI/quickgui/QuickGUI.cpp:1018-1047 | opens one panel record on the rect shrunk by the `panel_hollow` padding and moved by the scroll, pushes its content rect onto the layout, and fails when the style fails |
| Panels.Dragged | QuickGUI/quickgui/QuickGUI.cpp:1105-1109 | the dragged scroll offset lies in `[0, max]`; a zero track divides by zero |
| Panels.Thumb | QuickGUI/quickgui/QuickGUI.cpp:1090-1110 | a press on the handle starts a drag and records the grab point, releasing the mouse ends it, and otherwise both are kept; the panel's data and horizontal scroll are kept, the vertical scroll stays in range, and content that fits does not scroll |
| Panels.ThumbDragValue | QuickGUI/quickgui/QuickGUI.cpp:1101-1107 | while the thumb is dragged and the content overflows, the vertical scroll is the mouse's offset from the grab point, plus one, scaled by content size over the (non-zero) track height and clamped to `[0, contentSize - height]` |
| Panels.ThumbIdsDistinct | QuickGUI/quickgui/QuickGUI.cpp:1078 | the thumb ids `to_string(id) + "_thumb"` of two panels with different ids differ |
| Panels.EndPanel | QuickGUI/quickgui/QuickGUI.cpp:1049-1115 | closing with no open panel or an empty layout fails; otherwise the panel and its layout rect are popped |
| Panels.BeginEndRoundTrip | QuickGUI/quickgui/QuickGUI.cpp:1018-1115 | opening then closing a panel restores the layout and the panel stack |
| Panels.ScrollAtRest | QuickGUI/quickgui/QuickGUI.cpp:1090-1110 | an idle scrollbar leaves the panel unchanged |
| Viewport.ScaleToGui | TitleMaker/app/App.cpp:287-292 | scales viewport coordinates by the screen rect over the viewport size |
| Viewport.ScaleToViewport | TitleMaker/app/App.cpp:294-299 | scales GUI coordinates by the viewport size over the screen rect |
| Viewport.ToGui | TitleMaker/app/App.cpp:287-292 | fails exactly on a viewport of zero size |
| Viewport.ToViewport | TitleMaker/app/App.cpp:294-299 | fails exactly on a screen rect of zero size |
| Viewport.GuiThenViewport | TitleMaker/app/App.cpp:287-299 | mapping to the GUI and back is the identity |
| Viewport.ViewportThenGui | TitleMaker/app/App.cpp:287-299 | mapping to the viewport and back is the identity |
| Viewport.MappingsInverse | TitleMaker/app/App.cpp:287-299 | on non-degenerate sizes the two mappings succeed and invert each other |
| Viewport.MappingsIgnoreOrigin | TitleMaker/app/App.cpp:287-299 | the mappings use the screen rect's size only, not its position |
| Viewport.GuiRect | TitleMaker/app/App.cpp:118-121 | a shape's on-screen rect is normalised to a non-negative size |
| Viewport.FirstHit | TitleMaker/app/App.cpp:116-127 | the first shape under the mouse, and none when no shape is hit |
| Viewport.SelectAt | TitleMaker/app/App.cpp:114-133 | selection picks the first hit, and fails exactly when there are shapes and the viewport has zero size |
| Viewport.Handles | TitleMaker/app/App.cpp:188-197 | there are eight resize handles |
| Viewport.FirstHandle | TitleMaker/app/App.cpp:210-219 | the first handle under the mouse, or none |
| Viewport.Pick | TitleMaker/app/App.cpp:209-227 | the inner area moves the shape; otherwise the first handle hit picks its resize; otherwise nothing |
| Viewport.Resize | TitleMaker/app/App.cpp:228-279 | moving keeps the size; an edge handle moves its edge only; a corner moves two edges, and a negative width becomes 1 |
| Viewport.CornerIsTwoEdges | TitleMaker/app/App.cpp:228-279 | a corner handle is its horizontal edge then its vertical edge, with the width floor on top |
| Viewport.ResizeKeepsOppositeEdges | TitleMaker/app/App.cpp:228-279 | a resize from one handle keeps the opposite edges fixed |
| Viewport.MoveUndo | TitleMaker/app/App.cpp:228-279 | moving by `d` then by `-d` restores the rect |
| Viewport.Manipulate | TitleMaker/app/App.cpp:150-285 | fails exactly on zero sizes; a release drops the handle; a press picks a handle; a held handle applies the mouse delta |
| Viewport.MoveFollowsMouse | TitleMaker/app/App.cpp:150-285 | two held move steps move the shape by the total mouse delta |
| Viewport.ViewportStep | TitleMaker/app/App.cpp:87-136 | keeps the shape count, selects within range, and changes only the selected shape |
| Easings.Step | TitleMaker/app/Animation.h:68 | the step is 1 exactly from the midpoint on, 0 before it |
| Easings.SmoothUnit | TitleMaker/app/Animation.h:69-72 | the smoothstep polynomial maps `[0, 1]` into `[0, 1]` |
| Easings.SmoothStep | TitleMaker/app/Animation.h:69-72 | the result lies in `[0, 1]`, 0 before the first edge and 1 after the second |
| Easings.InQuad | TitleMaker/app/Animation.h:74 | on `[0, 1]` the quadratic ease-in lies between 0 and `t` |
| Easings.CubeBelowSquare | TitleMaker/app/Animation.h:74-79 | on `[0, 1]` the cube is non-negative and at most the square |
| Easings.InCubic | TitleMaker/app/Animation.h:79 | on `[0, 1]` the cubic ease-in lies below the quadratic |
| Easings.InQuart | TitleMaker/app/Animation.h:85 | on `[0, 1]` the quartic ease-in lies below the cubic |
| Easings.InQuint | TitleMaker/app/Animation.h:90 | on `[0, 1]` the quintic ease-in lies below the quartic |
| Easings.InOutQuad | TitleMaker/app/Animation.h:76-78 | the first half is in-quad in half the time and half the height; the second half is that half turned about `(1/2, 1/2)` |
| Easings.InOutCubic | TitleMaker/app/Animation.h:81-84 | as in-out-quad, with in-cubic |
| Easings.InOutQuart | TitleMaker/app/Animation.h:87-89 | as in-out-quad, with in-quart |
| Easings.InOutQuint | TitleMaker/app/Animation.h:92-94 | as in-out-quad, with in-quint |
| Easings.QuadEndpoints | TitleMaker/app/Animation.h:74-78 | the quadratic easings map 0 to 0 and 1 to 1 |
| Easings.CubicEndpoints | TitleMaker/app/Animation.h:79-84 | the cubic easings map 0 to 0 and 1 to 1 |
| Easings.QuartEndpoints | TitleMaker/app/Animation.h:85-89 | the quartic easings map 0 to 0 and 1 to 1 |
| Easings.QuintEndpoints | TitleMaker/app/Animation.h:90-94 | the quintic easings map 0 to 0 and 1 to 1 |
| Easings.BackEndpoints | TitleMaker/app/Animation.h:163-173 | the back easings map 0 to 0 and 1 to 1 |
| Easings.OutBounceEnds | TitleMaker/app/Animation.h:174-187 | out-bounce maps 0 to 0 and 1 to 1 |
| Easings.InBounceEnds | TitleMaker/app/Animation.h:188-190 | in-bounce maps 0 to 0 and 1 to 1 |
| Easings.InOutBounceEnds | TitleMaker/app/Animation.h:191-194 | in-out-bounce maps 0, 1/2 and 1 to themselves |
| Easings.InOutBounceStart | TitleMaker/app/Animation.h:192 | in-out-bounce starts at 0 |
| Easings.InOutBounceMiddle | TitleMaker/app/Animation.h:191-194 | in-out-bounce passes through 1/2 at the midpoint |
| Easings.InOutBounceEnd | TitleMaker/app/Animation.h:193 | in-out-bounce ends at 1 |
| Easings.OutMirrorsIn | TitleMaker/app/Animation.h:74-190 | each ease-out is the point reflection of its ease-in |
| Easings.InOutSymmetric | TitleMaker/app/Animation.h:76-194 | each in-out easing is point-symmetric about `(1/2, 1/2)` |
| Easings.InBackDips | TitleMaker/app/Animation.h:163-165 | in-back goes below zero early on |
| Easings.OutBounceInUnit | TitleMaker/app/Animation.h:174-187 | out-bounce stays in `[0, 1]` on `[0, 1]` |
| Easings.OutBounceTouchesOne | TitleMaker/app/Animation.h:174-187 | each bounce touches 1 at the end of its arc |
| Easings.InOutQuadFirstHalf | TitleMaker/app/Animation.h:76-78 | the first half of in-out-quad stays in `[0, 1/2]` |
| Easings.InOutQuadInUnit | TitleMaker/app/Animation.h:76-78 | in-out-quad stays in `[0, 1]` on `[0, 1]` |
| Easings.InOutCubicFirstHalf | TitleMaker/app/Animation.h:81-84 | the first half of in-out-cubic stays in `[0, 1/2]` |
| Easings.InOutCubicInUnit | TitleMaker/app/Animation.h:81-84 | in-out-cubic stays in `[0, 1]` on `[0, 1]` |
| Easings.MenuEasing | TitleMaker/app/Animation.cpp:32-44 | the elastic menu entries are the given elastic functions |
| Easings.MenuEndpoints | TitleMaker/app/Animation.cpp:32-44 | every non-elastic menu easing maps 0 to 0 and 1 to 1 |
| Easings.MenuInUnit | TitleMaker/app/Animation.cpp:32-44 | every non-elastic menu easing stays in `[0, 1]` on `[0, 1]` |
| Animations.NewReveal | TitleMaker/app/Animation.h:25-53 | a new reveal is idle, not finished, has no delay, lasts 1.5 s, has no easing and comes from the left |
| Animations.NewFade | TitleMaker/app/Animation.h:25-61 | a new fade is idle, has no delay, lasts 1.5 s, has no easing and does not zoom |
| Animations.Play | TitleMaker/app/Animation.cpp:50-56 | an idle or finished animation starts delaying and captures the target rect; a running one is untouched |
| Animations.Reset | TitleMaker/app/Animation.cpp:81-83 | reset returns to idle and changes nothing else |
| Animations.Ease | TitleMaker/app/Animation.cpp:71 | no easing is the identity, and the non-elastic easings keep both endpoints |
| Animations.Update | TitleMaker/app/Animation.cpp:58-79 | only the state moves; the delay shows the start (the end backwards) and ends when the clock reaches it; the run ends exactly at delay plus duration; without easing the value is the elapsed fraction |
| Animations.Progress | TitleMaker/app/Animation.cpp:68-72 | the elapsed fraction reaches 1 exactly when the elapsed time reaches the duration |
| Animations.PlayIdempotent | TitleMaker/app/Animation.cpp:50-56 | playing twice is playing once |
| Animations.ResetThenPlay | TitleMaker/app/Animation.cpp:50-83 | a reset animation replays: it delays, then runs once the delay has passed |
| Animations.ForwardBackwardMirror | TitleMaker/app/Animation.cpp:58-79 | backwards playback sees `1 - t` where forwards sees `t`, in the same states |
| Animations.EasedIsEaseOfLinear | TitleMaker/app/Animation.cpp:68-72 | an eased animation sees the menu easing of the linear fraction |
| Animations.FinishIsMonotone | TitleMaker/app/Animation.cpp:68-76 | once finished at some time, it is finished at every later time |
| Animations.RunInUnit | TitleMaker/app/Animation.cpp:58-79 | during the run window the effect sees a fraction in `[0, 1]` |
| Animations.RevealClip | TitleMaker/app/Animation.cpp:89-117 | for each direction the edge opposite the reveal stays fixed, the clip spans the fraction `t` of the captured extent along the reveal and all of it across, and it is the captured rect at `t = 1` |
| Animations.RevealClipInside | TitleMaker/app/Animation.cpp:89-117 | the reveal's clip rect lies inside the captured rect |
| Animations.ZoomFactor | TitleMaker/app/Animation.cpp:153 | the zoom starts at 1.25, ends at 1, and never shrinks below 1 |
| Animations.FadeOnRun | TitleMaker/app/Animation.cpp:146-157 | the alpha is the fraction, and without zoom there is no transform |
| Animations.ZoomAboutCentre | TitleMaker/app/Animation.cpp:150-155 | the zoom's translate, scale and translate-back scale points about the rect's centre |
| Animations.ZoomFixesCentre | TitleMaker/app/Animation.cpp:150-155 | the centre does not move while zooming |
| Animations.ZoomEndsAtIdentity | TitleMaker/app/Animation.cpp:150-155 | at the end of the fade the zoom is the identity |
| Shapes.NewShape | TitleMaker/app/Shape.h:39-42 | a new shape is idle with nothing pending, its clock is at zero, and it has no current animation |
| Shapes.WithCurrentAnim | TitleMaker/app/Shape.cpp:164-177 | storing the current animation touches only the current state's slot |
| Shapes.TriggerEnter | TitleMaker/app/Shape.cpp:154-157 | only the pending state changes, to entering |
| Shapes.TriggerExit | TitleMaker/app/Shape.cpp:159-162 | only the pending state changes, to exiting |
| Shapes.TriggerAnim | TitleMaker/app/Shape.cpp:164-177 | the clock restarts and the current state's animation, if any, is played on the shape's rect |
| Shapes.DrawAnimated | TitleMaker/app/Shape.cpp:121-152 | with no animation the pending state is adopted; with one, the shape advances its clock until the animation finishes, then drops to idle |
| Shapes.IdleStaysIdle | TitleMaker/app/Shape.cpp:121-152 | an idle shape with nothing pending stays idle and runs no effect |
| Shapes.EnterStartsNextFrame | TitleMaker/app/Shape.cpp:121-177 | a trigger on an idle shape starts the enter animation on the next frame |
| Shapes.DelayShowsStartOrEnd | TitleMaker/app/Shape.cpp:121-152 | during the delay an entering shape shows the effect's start, an exiting one its end |
| Shapes.TriggerDuringLastFrameLost | TitleMaker/app/Shape.cpp:121-162 | a trigger arriving on an animation's last frame is lost |
| Shapes.RunningEnterProgress | TitleMaker/app/Shape.cpp:121-152 | while running, the effect sees the elapsed fraction of the duration |
| Shapes.StopPoint | TitleMaker/app/Shape.cpp:106-109 | the relative stop is recovered from the absolute point |
| Shapes.StopCorners | TitleMaker/app/Shape.cpp:106-109 | stops `(0,0)` and `(1,1)` are the rect's corners |
| Shapes.ApplyFill | TitleMaker/app/Shape.cpp:101-119 | solid mode paints the first colour; gradient mode runs first to second colour between the two stops |
| Shapes.GradientFollowsShape | TitleMaker/app/Shape.cpp:101-119 | moving the shape moves its gradient by the same offset |

## Left out

- `Point::rotated` (cosine and sine) and the `Transform` struct are not modelled; nothing in the core's logic depends on them.
- The sine, exponential and circular easings need transcendental functions and are not modelled. The elastic easings are parameters (`inElastic`, `outElastic`), and the menu entries that use them are excluded from the endpoint and range lemmas.
- `rgbToHSV`, `hsvToRGB` and `atan2` in the colour picker are parameters. Its `sqrt` distance test is stated on squared distances, with `ColorPicker.InRingByDistance` relating the two.
- `std::hash` of widget ids, `std::to_string` of floats other than whole numbers, and `fmt::format` are not modelled. Ids are given as numbers, and formatting is a parameter. `Chars.FloatText` is the `%f` text of a whole-number float only.
- The SDL key code table is a parameter of `Keys.TranslateKey`.
- `processEvent` (SDL event decoding) is not modelled.
- Drawing is not modelled. This covers every nanovg call, the scissor stack, `renderPopups`, `StyleSheet::draw`, `calculateBounds`, glyph measurement and the window icons. Glyph positions come in as parameters. Of `fontSetup` only its effect on the caller's rect is modelled: through `getElement`, it shrinks the rect by the style's padding (`StyleResolve.GetElement`), and `Panels.BeginPanel`, `LineEditor.TextEditStep` and `NumberField.NumberStep` go on with the shrunk rect. `StyleSheet::draw` also calls `getElement` (`QuickGUI/quickgui/StyleSheet.cpp`, lines 455-457), and `getElement` throws `std::out_of_range` on a property name it has no setter for (line 615). A style the core only draws is never resolved in the model, so where such a style holds an unknown property the source throws and the model succeeds. Examples are `scroll_track` and the `scroll_thumb` styles in `Panels.EndPanel`, and the check box, button and popup styles.
- Float rounding, NaN and infinities are not modelled: all arithmetic is exact on reals. For `stof`, only the decimal forms are modelled; the hex, `inf` and `nan` forms are not. Neither is the `std::out_of_range` that `stof` throws for a value too large for a float: the model returns the exact value.
- NumberField.Snap: requires a non-zero step. The source divides by the step, and every caller passes a non-zero step.
- Easings.SmoothStep: requires distinct edges. The source divides by `e1 - e0`.
- Layout.SliceHorizontal: requires a non-zero column count. The source divides by it.
- A zero-size colour square, viewport, screen rect or scroll track gives a `Failure` where the source divides by zero.
- A zero animation duration is reported as a non-finite run, not as a float division result. In the source the run's `t` is then an infinity, or NaN at the start time. For most easings that is a non-finite value too. The elastic easings, though, return 1 for +infinity and 0 for -infinity through their end guards (`TitleMaker/app/Animation.h`, lines 124-125 and 137-138), so with them the source draws a finite value that the model does not compute.
- Several easings modify `t` (or `s`) and read it again in the same expression, with no sequence point between. The model takes the intended reading, with the new value used for every factor:
  - `(--t) * t * t` and its quartic and quintic forms in `OutCubic`, `OutQuart` and `OutQuint`, and in the second halves of `InOutQuart` and `InOutQuint` (`TitleMaker/app/Animation.h`, lines 80-93);
  - `(t = t / 1.0f - 1.0f) * t` in `OutBack` (`TitleMaker/app/Animation.h`, line 167);
  - `(t -= 2.0f) * t` and `(s *= 1.525f) … - s` in `InOutBack` (lines 171-172);
  - `(t -= …) * t` in each arc of `OutBounce` (lines 179-185).
- The colour picker's `Pi` is nanovg's `NVG_PI`.
- The `onFinish` callbacks are not modelled; the application never sets them.
- The per-widget GUI panels of animations and shapes are not modelled. This covers `onGUI`, the application's editor panels and menus, `App::run`, NDI output, `Renderer` and `RenderTarget`.
- StyleParser.Parse: where the source's top-level loop meets a character that is neither white space nor a letter, it spins forever without consuming input. The model stops there with the `Stuck` error instead.
- Layout.SliceHorizontal: when the truncated column width is not positive, the source's loop never ends. The model returns the `NoProgress` error instead.
- `Icons.h` is not modelled. It is icon glyph data only.
