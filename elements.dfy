/** The element classes of a slide and what each one's `size` and `render`
    give, measured against an explicit terminal and banner font. */
module Elements {
  import opened Failures
  import opened Strings
  import BulletList
  import CodeBlock
  import C = Codio
  import HtmlStyle

  /** One element of a slide, holding the AST fragment (or, for a codio
      session, the loaded script) it was built from. */
  datatype Element =
    | Heading(level: int, text: string)
    | Text(text: string)
    | List(root: BulletList.Node)
    | BlockCode(code: string)
    | Codio(script: C.Script)
    | Image(src: string, alt: string)
    | BlockHtml(html: string)
  {
    /** The `type` attribute of the element's class. */
    function TypeName(): string {
      match this
      case Heading(_, _) => "heading"
      case Text(_) => "text"
      case List(_) => "list"
      case BlockCode(_) => "code"
      case Codio(_) => "codio"
      case Image(_, _) => "image"
      case BlockHtml(_) => "html"
    }
  }

  /** The terminal size and the banner font (text to multi-line letterforms)
      that sizes and renderings depend on. */
  datatype Screen = Screen(columns: nat, rows: nat, banner: string -> string)

  /** What `render` gives: a block of text, or the frames of a codio session. */
  datatype Rendered = Block(text: string) | Playback(frames: seq<C.Frame>)

  /** The `size` property of each element class: its height in rows. */
  function Size(e: Element, screen: Screen): Result<nat> {
    match e
    case Heading(level, text) =>
      if level == 1 then Ok(|SplitLines(screen.banner(text))|)
      else if level == 2 then Ok(2)
      else Ok(1)
    case Text(_) => Ok(1)
    case List(root) => Ok(BulletList.Size(root))
    case BlockCode(code) => Ok(CodeBlock.Size(code))
    case Codio(script) => Ok(C.Size(script.lines))
    case Image(_, _) => Ok(screen.rows / 2)
    case BlockHtml(_) => Err(NotImplemented("html"))
  }

  /** The `render` method of each element class. */
  function Render(e: Element, screen: Screen): Result<Rendered> {
    match e
    case Heading(level, text) =>
      if level == 1 then Ok(Block(screen.banner(text)))
      else if level == 2 then Ok(Block(Join([text, Repeat("-", |text|)], "\n")))
      else Ok(Block(text))
    case Text(text) => Ok(Block(text))
    case List(root) => Ok(Block(BulletList.Render(root)))
    case BlockCode(code) =>
      var box :- CodeBlock.Render(code);
      Ok(Block(box))
    case Codio(script) => Ok(Playback(C.Render(script.lines, screen.columns)))
    case Image(_, _) => Err(NotImplemented("image"))
    case BlockHtml(_) => Err(NotImplemented("html"))
  }

  /** BlockHtml.style for an html element; the other classes have no style. */
  function StyleOf(e: Element): map<string, string>
    requires e.BlockHtml?
  {
    HtmlStyle.Style(e.html)
  }

  /** A level-2 heading renders as its text over a rule of dashes just as
      long, two rows, which is its size. */
  lemma RuledHeadingRows(text: string, screen: Screen)
    requires text != [] && NoLineBreak(text)
    ensures Render(Heading(2, text), screen) == Ok(Block(Join([text, Repeat("-", |text|)], "\n")))
    ensures SplitLines(Join([text, Repeat("-", |text|)], "\n")) == [text, Repeat("-", |text|)]
    ensures Size(Heading(2, text), screen) == Ok(2)
  {
    UnderlineSplits(text);
  }

  /** A heading of level 3 or more renders as its text alone, in the one row
      of its size. */
  lemma PlainHeadingRows(level: int, text: string, screen: Screen)
    requires level != 1 && level != 2 && text != [] && NoLineBreak(text)
    ensures Render(Heading(level, text), screen) == Ok(Block(text))
    ensures SplitLines(text) == [text]
    ensures Size(Heading(level, text), screen) == Ok(1)
  {
    SplitJoin([text]);
  }

  /** What a text or a heading renders and what its size is, for any text:
      a text renders unchanged in a size of 1; a level-1 heading renders as
      the banner, sized by the banner's lines; a level-2 heading renders as
      its text over a dash rule just as long, in a size of 2; any other
      heading renders as its text, in a size of 1. */
  lemma TextAndHeadingValues(level: int, text: string, screen: Screen)
    ensures Render(Text(text), screen) == Ok(Block(text)) && Size(Text(text), screen) == Ok(1)
    ensures level == 1 ==>
              Render(Heading(level, text), screen) == Ok(Block(screen.banner(text))) &&
              Size(Heading(level, text), screen) == Ok(|SplitLines(screen.banner(text))|)
    ensures level == 2 ==>
              Render(Heading(level, text), screen) == Ok(Block(Join([text, Repeat("-", |text|)], "\n"))) &&
              Size(Heading(level, text), screen) == Ok(2)
    ensures level != 1 && level != 2 ==>
              Render(Heading(level, text), screen) == Ok(Block(text)) &&
              Size(Heading(level, text), screen) == Ok(1)
  {
  }

  /** Size and rendered rows disagree for texts that are empty or hold a
      line boundary: an empty text renders no row against a size of 1, an
      empty level-2 heading renders the single empty row of "\n" against a
      size of 2, and a text holding a newline renders two rows against 1. */
  lemma SizeDiffersFromRows(screen: Screen)
    ensures SplitLines(Render(Text(""), screen).value.text) == [] && Size(Text(""), screen) == Ok(1)
    ensures Render(Heading(2, ""), screen) == Ok(Block("\n"))
    ensures SplitLines("\n") == [""] && Size(Heading(2, ""), screen) == Ok(2)
    ensures SplitLines(Render(Text("a\nb"), screen).value.text) == ["a", "b"] &&
            Size(Text("a\nb"), screen) == Ok(1)
  {
    assert Repeat("-", 0) == "";
    assert Join(["", ""], "\n") == "\n";
    assert LineLength("\n") == 0 && NextLineStart("\n") == 1;
    assert "\n"[1..] == "";
    var ab := "a\nb";
    assert LineLength(ab[2..]) == 1 && NextLineStart(ab[2..]) == 1;
    assert LineLength(ab) == 1 && NextLineStart(ab) == 2;
    assert ab[..1] == "a" && ab[2..] == "b" && ab[2..][..1] == "b" && ab[2..][1..] == "";
  }

  /** Texts that render on as many rows as the element's size says: non-empty
      heading and text elements and list items without line boundaries. */
  predicate PlainText(e: Element) {
    match e
    case Heading(_, text) => text != [] && NoLineBreak(text)
    case Text(text) => text != [] && NoLineBreak(text)
    case List(root) => BulletList.PlainTexts(root.children)
    case _ => true
  }

  /** Size and render agree: a heading, text or list of plain text renders on
      exactly `size` rows (a level-1 heading always does, its size being the
      banner's line count); a code block renders two rows more than its size,
      the borders, and fails on both counts only when it has no lines; a
      codio session plays fewer frames than its size; images and html blocks
      do not render. */
  lemma SizeMatchesRender(e: Element, screen: Screen)
    requires PlainText(e)
    ensures (e.Heading? || e.Text? || e.List?) ==>
              Size(e, screen).Ok? && Render(e, screen).Ok? && Render(e, screen).value.Block? &&
              |SplitLines(Render(e, screen).value.text)| == Size(e, screen).value
    ensures e.BlockCode? ==>
              (Render(e, screen).Ok? <==> Size(e, screen).value > 0) &&
              (Render(e, screen).Ok? ==>
                 |SplitLines(Render(e, screen).value.text)| == Size(e, screen).value + 2)
    ensures e.Codio? ==> |Render(e, screen).value.frames| + 2 <= Size(e, screen).value
    ensures e.Image? || e.BlockHtml? ==> Render(e, screen) == Err(NotImplemented(e.TypeName()))
  {
    match e
    case Heading(level, text) =>
      if level == 2 { RuledHeadingRows(text, screen); }
      else if level != 1 { PlainHeadingRows(level, text, screen); }
    case Text(text) =>
      SplitJoin([text]);
    case List(root) =>
      BulletList.SizeIsRenderedLines(root);
    case BlockCode(code) =>
      CodeBlock.RenderedRows(code);
    case Codio(script) =>
      var lines := script.lines;
      C.FrameLinesOrdered(lines, C.Width(lines, screen.columns));
    case Image(_, _) =>
    case BlockHtml(_) =>
  }
}
