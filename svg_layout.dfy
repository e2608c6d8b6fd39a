/** `make_svg` of the SVG generator: the canvas layout, the defaulting of the
    line tuples, the choice of opacity animation and the assembly of one
    `<text>` element per line into the document. The float timing of the
    animation (the cycle length and the `keyTimes` fractions) is supplied
    already formatted. */
module SvgLayout {
  import opened Text
  import opened SvgEscape

  /** A coloured piece of a line given as a list of `(text, color)` pairs. */
  datatype Segment = Segment(text: string, fill: string)

  /** The first field of a line tuple: a string or a list of segments. */
  datatype Content = Plain(text: string) | Segments(segs: seq<Segment>)

  /** A line tuple `(text,)`, `(text, color)` or `(text, color, delay_ms)`. */
  datatype Line =
    | Text1(content: Content)
    | Text2(content: Content, color: string)
    | Text3(content: Content, color: string, delayMs: int)

  const DefaultColor: string := "#a6adc8"

  /** `line[1] if len(line) > 1 else "#a6adc8"` */
  function ColorOf(line: Line): string {
    if line.Text1? then DefaultColor else line.color
  }

  /** `line[2] if len(line) > 2 else 0` */
  function DelayMs(line: Line): int {
    if line.Text3? then line.delayMs else 0
  }

  /** `delay > 0`, with `delay = delay_ms / 1000`. */
  predicate Delayed(line: Line) {
    DelayMs(line) > 0
  }

  function InitialOpacity(line: Line): string {
    if Delayed(line) then "0" else "1"
  }

  /** The `values` of the opacity animation. */
  function Keyframes(line: Line): string {
    if Delayed(line) then "0;0;1;1;0" else "1;1;0"
  }

  /** The keyword arguments of `make_svg` that are used in integer form. */
  datatype Layout = Layout(title: string, width: int, lineHeight: int, padTop: int, padBottom: int, padX: int)

  const Defaults: Layout := Layout("Terminal", 720, 20, 48, 16, 16)

  /** The animation's float part, already formatted: the `keyTimes` text of a
      line with a given positive delay in milliseconds, or at 0 the one every
      line without a positive delay shares, and the cycle length `dur`. */
  datatype Timing = Timing(keyTimes: int -> string, dur: string)

  // ---------------------------------------------------------------------------
  // Layout arithmetic

  function Height(layout: Layout, n: nat): int {
    layout.padTop + n * layout.lineHeight + layout.padBottom
  }

  function LineY(layout: Layout, i: nat): int {
    layout.padTop + i * layout.lineHeight
  }

  /** With a positive line height the lines go down the canvas in order. */
  lemma LineYIncreasing(layout: Layout, i: nat, j: nat)
    requires layout.lineHeight > 0 && i < j
    ensures LineY(layout, i) < LineY(layout, j)
  {
    assert j * layout.lineHeight == i * layout.lineHeight + (j - i) * layout.lineHeight;
  }

  /** The last line and the bottom padding fill the canvas exactly. */
  lemma LastLineFits(layout: Layout, n: nat)
    requires n >= 1
    ensures LineY(layout, n - 1) + layout.lineHeight + layout.padBottom == Height(layout, n)
  {
    assert n * layout.lineHeight == (n - 1) * layout.lineHeight + layout.lineHeight;
  }

  /** With the default keyword arguments the first line sits on the 48-pixel
      top padding and each line adds 20 pixels to a canvas 64 pixels high
      without lines. */
  lemma DefaultCanvas(n: nat)
    ensures LineY(Defaults, 0) == 48
    ensures Height(Defaults, n) == 64 + 20 * n
    ensures n >= 1 ==> LineY(Defaults, n - 1) + 20 + 16 == Height(Defaults, n)
  {
    if n >= 1 {
      LastLineFits(Defaults, n);
    }
  }

  /** The defaults a tuple's missing fields take. */
  lemma TupleDefaults(content: Content, color: string)
    ensures ColorOf(Text1(content)) == "#a6adc8" && DelayMs(Text1(content)) == 0
    ensures ColorOf(Text2(content, color)) == color && DelayMs(Text2(content, color)) == 0
  {
  }

  /** A line starts at the opacity of its first keyframe and ends each cycle
      invisible; it starts invisible exactly when it is delayed. */
  lemma OpacityAnimation(line: Line)
    ensures InitialOpacity(line) == Keyframes(line)[..1]
    ensures Keyframes(line)[|Keyframes(line)| - 1] == '0'
    ensures InitialOpacity(line) == "0" <==> DelayMs(line) > 0
    ensures Keyframes(line) == "0;0;1;1;0" || Keyframes(line) == "1;1;0"
  {
  }

  // ---------------------------------------------------------------------------
  // Elements

  /** The fixed text around the fields of the animation and of the opening tag. */
  const AnimateValues: string := "<animate attributeName=\"opacity\" values=\""
  const AnimateKeyTimes: string := "\" keyTimes=\""
  const AnimateDur: string := "\" dur=\""
  const AnimateEnd: string := "s\" repeatCount=\"indefinite\"/>"
  const TextX: string := "  <text x=\""
  const TextY: string := "\" y=\""
  const TextFont: string := "\" font-family=\"'SF Mono','Fira Code','Cascadia Code',monospace\" font-size=\"13\" fill=\""
  const TextOpacity: string := "\" opacity=\""
  const TagEnd: string := "\">"

  function Animation(line: Line, timing: Timing): string {
    AnimateValues + Keyframes(line) + AnimateKeyTimes
    + timing.keyTimes(if Delayed(line) then DelayMs(line) else 0) + AnimateDur + timing.dur + AnimateEnd
  }

  /** One `<tspan>`: the text is escaped, the colour is not. */
  function SpanOf(seg: Segment): string {
    "<tspan fill=\"" + seg.fill + "\">" + Esc(seg.text) + "</tspan>"
  }

  function SpanList(segs: seq<Segment>): (spans: seq<string>)
    ensures |spans| == |segs|
  {
    seq(|segs|, k requires 0 <= k < |segs| => SpanOf(segs[k]))
  }

  /** What stands between the opening tag and the animation. */
  function Body(content: Content): string {
    match content
    case Plain(text) => Esc(text)
    case Segments(segs) => Join(SpanList(segs), "")
  }

  function OpenTag(layout: Layout, y: int, line: Line): string {
    TextX + IntToString(layout.padX) + TextY + IntToString(y)
    + TextFont + ColorOf(line) + TextOpacity + InitialOpacity(line) + TagEnd
  }

  /** The element of the line at index `i`. */
  function TextElement(layout: Layout, i: nat, line: Line, timing: Timing): string {
    OpenTag(layout, LineY(layout, i), line) + Body(line.content) + Animation(line, timing) + "</text>"
  }

  /** The text of a plain line is escaped in its element. */
  lemma PlainBodyEscaped(text: string)
    ensures WellEscaped(Body(Plain(text)))
    ensures Unescape(Body(Plain(text))) == text
  {
    EscWellEscaped(text);
    EscRoundTrip(text);
  }

  /** The inner `spans` loop: one `<tspan>` per segment, in order. */
  method Spans(segs: seq<Segment>) returns (spans: seq<string>)
    ensures spans == SpanList(segs)
  {
    spans := [];
    for k := 0 to |segs|
      invariant |spans| == k
      invariant forall j | 0 <= j < k :: spans[j] == SpanOf(segs[j])
    {
      spans := spans + [SpanOf(segs[k])];
    }
  }

  /** The body of one element: the spans of a segmented line, or the escaped
      text of a plain one. */
  method LineBody(content: Content) returns (body: string)
    ensures body == Body(content)
  {
    match content {
      case Segments(segs) =>
        var spans := Spans(segs);
        body := Join(spans, "");
      case Plain(text) =>
        body := Esc(text);
    }
  }

  /** One pass of the `text_elements` loop: the element of the line at index
      `i`, placed at `pad_top + i * line_height`. */
  method Element(layout: Layout, i: nat, line: Line, timing: Timing) returns (element: string)
    ensures element == TextElement(layout, i, line, timing)
  {
    var y := layout.padTop + i * layout.lineHeight;
    assert y == LineY(layout, i);
    var body := LineBody(line.content);
    element := OpenTag(layout, y, line) + body + Animation(line, timing) + "</text>";
  }

  /** `elements` holds the elements of the first `i` lines, in order. */
  predicate ElementsUpTo(elements: seq<string>, lines: seq<Line>, layout: Layout, timing: Timing, i: nat)
    requires i <= |lines|
  {
    |elements| == i && forall j | 0 <= j < i :: elements[j] == TextElement(layout, j, lines[j], timing)
  }

  lemma ElementsUpToStep(elements: seq<string>, lines: seq<Line>, layout: Layout, timing: Timing, i: nat, element: string)
    requires i < |lines| && ElementsUpTo(elements, lines, layout, timing, i)
    requires element == TextElement(layout, i, lines[i], timing)
    ensures ElementsUpTo(elements + [element], lines, layout, timing, i + 1)
  {
    var next := elements + [element];
    forall j | 0 <= j < i + 1 ensures next[j] == TextElement(layout, j, lines[j], timing) {
      if j < i {
        assert next[j] == elements[j];
      } else {
        assert next[j] == element;
      }
    }
  }

  lemma ElementsComplete(elements: seq<string>, lines: seq<Line>, layout: Layout, timing: Timing)
    requires ElementsUpTo(elements, lines, layout, timing, |lines|)
    ensures elements == Elements(lines, layout, timing)
  {
    var r := Elements(lines, layout, timing);
    forall j | 0 <= j < |lines| ensures elements[j] == r[j] {
      assert elements[j] == TextElement(layout, j, lines[j], timing);
    }
  }

  /** The `text_elements` loop: one element per line, in input order, the
      line at index `i` placed at `pad_top + i * line_height`. */
  method TextElements(lines: seq<Line>, layout: Layout, timing: Timing) returns (elements: seq<string>)
    ensures elements == Elements(lines, layout, timing)
  {
    elements := [];
    for i := 0 to |lines|
      invariant ElementsUpTo(elements, lines, layout, timing, i)
    {
      var element := Element(layout, i, lines[i], timing);
      ElementsUpToStep(elements, lines, layout, timing, i, element);
      elements := elements + [element];
    }
    ElementsComplete(elements, lines, layout, timing);
  }

  // ---------------------------------------------------------------------------
  // The document

  /** The elements `make_svg` assembles for `lines`. */
  function Elements(lines: seq<Line>, layout: Layout, timing: Timing): (r: seq<string>)
    ensures |r| == |lines|
  {
    seq(|lines|, i requires 0 <= i < |lines| => TextElement(layout, i, lines[i], timing))
  }

  /** The returned document: the window frame, the escaped title centred at
      `width // 2`, and the elements joined by the seven characters
      `chr(10)`, not by a line break. */
  function Document(layout: Layout, n: nat, elements: seq<string>): string {
    var w := IntToString(layout.width);
    var h := IntToString(Height(layout, n));
    "<svg viewBox=\"0 0 " + w + " " + h + "\" xmlns=\"http://www.w3.org/2000/svg\">\n"
    + "  <rect width=\"" + w + "\" height=\"" + h + "\" rx=\"10\" fill=\"#1e1e2e\"/>\n"
    + "  <rect width=\"" + w + "\" height=\"32\" rx=\"10\" fill=\"#313244\"/>\n"
    + "  <rect y=\"22\" width=\"" + w + "\" height=\"10\" fill=\"#313244\"/>\n"
    + "  <circle cx=\"20\" cy=\"16\" r=\"6\" fill=\"#f38ba8\"/>\n"
    + "  <circle cx=\"40\" cy=\"16\" r=\"6\" fill=\"#f9e2af\"/>\n"
    + "  <circle cx=\"60\" cy=\"16\" r=\"6\" fill=\"#a6e3a1\"/>\n"
    + "  <text x=\"" + IntToString(layout.width / 2)
    + "\" y=\"20\" font-family=\"'SF Mono',monospace\" font-size=\"12\" fill=\"#6c7086\" text-anchor=\"middle\">"
    + Esc(layout.title) + "</text>\n"
    + Join(elements, "chr(10)") + "\n</svg>"
  }

  /** `make_svg(lines, ...)`: `None` for an empty list of lines, where taking
      the largest delay raises, otherwise the document. */
  method MakeSvg(lines: seq<Line>, layout: Layout, timing: Timing) returns (svg: Option<string>)
    ensures svg.None? <==> |lines| == 0
    ensures svg.Some? ==> svg.value == Document(layout, |lines|, Elements(lines, layout, timing))
  {
    if |lines| == 0 {
      return None;
    }
    var elements := TextElements(lines, layout, timing);
    svg := Some(Document(layout, |lines|, elements));
  }

  /** The separator holds no line break, so elements without line breaks all
      end up on one line of the document, one after the other. */
  lemma {:induction false} JoinedOnOneLine(elements: seq<string>)
    requires forall k | 0 <= k < |elements| :: '\n' !in elements[k]
    ensures '\n' !in Join(elements, "chr(10)")
    ensures |elements| >= 2 ==> Join(elements, "chr(10)") == elements[0] + "chr(10)" + Join(elements[1..], "chr(10)")
  {
    if |elements| >= 2 {
      JoinedOnOneLine(elements[1..]);
      assert '\n' !in elements[0];
    }
  }
}
