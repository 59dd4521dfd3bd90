/** Markdown.parse: turning the markdown AST into slides. Each node becomes
    elements through a fixed mapping from node type to element class;
    elements gather in a buffer that a thematic break turns into a slide. */
module Markdown {
  import opened Failures
  import opened Slides
  import E = Elements
  import BulletList
  import C = Codio

  /** A node of the markdown AST, with the fields each node type carries.
      `Other` stands for every node type whose title-cased name has no
      element class (block quotes, emphasis, links, inline html, ...); a
      kind that names a class is written with that class's constructor. */
  datatype Node =
    | Paragraph(children: seq<Node>)
    | Heading(level: int, text: string)
    | Text(text: string)
    | List(root: BulletList.Node)
    | BlockCode(code: string)
    | Image(src: string, alt: string)
    | BlockHtml(html: string)
    | ThematicBreak
    | Newline
    | Other(kind: string)

  /** The node's `type` string. */
  function Tag(n: Node): string {
    match n
    case Paragraph(_) => "paragraph"
    case Heading(_, _) => "heading"
    case Text(_) => "text"
    case List(_) => "list"
    case BlockCode(_) => "block_code"
    case Image(_, _) => "image"
    case BlockHtml(_) => "block_html"
    case ThematicBreak => "thematic_break"
    case Newline => "newline"
    case Other(kind) => kind
  }

  /** The files the loader looks at: the image paths that exist, and the
      codio scripts that can be read, by path, already parsed from YAML. */
  datatype Files = Files(images: set<string>, scripts: map<string, C.Script>)

  /** The `type` attribute of the element class a node type names: the type
      title-cased without underscores is the class name, so `block_code`
      names BlockCode, whose type is "code", and `block_html` names
      BlockHtml, whose type is "html"; the other classes carry their node
      type as theirs. */
  function ClassType(tag: string): string {
    if tag == "block_code" then "code"
    else if tag == "block_html" then "html"
    else tag
  }

  /** The element class the node's type names, built from the node; an image
      whose file is missing fails, and a type without a class fails with the
      1-based number `slide` of the slide being built. */
  function Adapt(n: Node, files: Files, slide: nat): (r: Result<E.Element>)
    ensures r.Err? && r.error.UnsupportedElement? ==> r.error.slide == slide
  {
    match n
    case Heading(level, text) => Ok(E.Heading(level, text))
    case Text(text) => Ok(E.Text(text))
    case List(root) => Ok(E.List(root))
    case BlockCode(code) => Ok(E.BlockCode(code))
    case Image(src, alt) => if src in files.images then Ok(E.Image(src, alt)) else Err(MissingAsset(src))
    case BlockHtml(html) => Ok(E.BlockHtml(html))
    case _ => Err(UnsupportedElement(Tag(n), slide))
  }

  /** One child of a paragraph: an image with alt text "codio" becomes a
      codio session built from the script at its path; any other child is
      mapped like a top-level node. */
  function AdaptChild(n: Node, files: Files, slide: nat): (r: Result<E.Element>)
    ensures r.Err? && r.error.UnsupportedElement? ==> r.error.slide == slide
  {
    if n.Image? && n.alt == "codio" then
      if n.src in files.scripts then Ok(E.Codio(files.scripts[n.src])) else Err(MissingAsset(n.src))
    else
      Adapt(n, files, slide)
  }

  /** The dispatch of a top-level node: exactly the node types with an
      element class map, an image only when its file exists; the element
      has the type its node's type names; a missing image is reported by
      its path, and any other failure is the unsupported node type on
      slide `slide`. */
  lemma AdaptRules(n: Node, files: Files, slide: nat)
    ensures Adapt(n, files, slide).Ok? <==>
              n.Heading? || n.Text? || n.List? || n.BlockCode? || n.BlockHtml? ||
              (n.Image? && n.src in files.images)
    ensures Adapt(n, files, slide).Ok? ==> Adapt(n, files, slide).value.TypeName() == ClassType(Tag(n))
    ensures n.Image? && n.src !in files.images ==> Adapt(n, files, slide) == Err(MissingAsset(n.src))
    ensures Adapt(n, files, slide).Err? && !n.Image? ==>
              Adapt(n, files, slide) == Err(UnsupportedElement(Tag(n), slide))
  {
  }

  /** The dispatch of a paragraph's child: an image with alt text "codio"
      becomes the codio session of the script at its path, or fails with
      that path when there is no such script; any other child is dispatched
      like a top-level node. */
  lemma AdaptChildRules(n: Node, files: Files, slide: nat)
    ensures n.Image? && n.alt == "codio" && n.src in files.scripts ==>
              AdaptChild(n, files, slide) == Ok(E.Codio(files.scripts[n.src]))
    ensures n.Image? && n.alt == "codio" && n.src !in files.scripts ==>
              AdaptChild(n, files, slide) == Err(MissingAsset(n.src))
    ensures !(n.Image? && n.alt == "codio") ==> AdaptChild(n, files, slide) == Adapt(n, files, slide)
  {
  }

  /** The children of a paragraph, left to right; the first failure stops. */
  function AdaptChildren(cs: seq<Node>, files: Files, slide: nat): (r: Result<seq<E.Element>>)
    ensures r.Ok? ==> |r.value| == |cs|
    ensures r.Err? && r.error.UnsupportedElement? ==> r.error.slide == slide
  {
    if cs == [] then Ok([])
    else
      var done :- AdaptChildren(cs[..|cs| - 1], files, slide);
      var e :- AdaptChild(cs[|cs| - 1], files, slide);
      Ok(done + [e])
  }

  /** The elements a top-level node adds to the buffer: a paragraph is
      unwrapped into its children, any other node gives one element. */
  function NodeElements(n: Node, files: Files, slide: nat): (r: Result<seq<E.Element>>)
    ensures r.Ok? ==> (if n.Paragraph? then |r.value| == |n.children| else |r.value| == 1)
    ensures r.Err? && r.error.UnsupportedElement? ==> r.error.slide == slide
  {
    if n.Paragraph? then AdaptChildren(n.children, files, slide)
    else
      var e :- Adapt(n, files, slide);
      Ok([e])
  }

  /** The parse loop from node `i` on, with the slides built so far and the
      buffer. Newlines are skipped; a break with a non-empty buffer turns the
      buffer into a slide; any other node (an empty-buffer break included)
      adds its elements. With `flushTail` false this is the source: the
      buffer becomes a last slide right after the last node is added, and
      not otherwise. With `flushTail` true a non-empty buffer becomes a last
      slide at the end of the document instead. */
  function ParseFrom(ast: seq<Node>, i: nat, slides: seq<Slide>, buffer: seq<E.Element>,
                     files: Files, reg: Registry, flushTail: bool): Result<seq<Slide>>
    requires i <= |ast|
    decreases |ast| - i
  {
    if i == |ast| then
      if flushTail && buffer != [] then
        var s :- SlideOf(buffer, reg);
        Ok(slides + [s])
      else
        Ok(slides)
    else if ast[i].Newline? then
      ParseFrom(ast, i + 1, slides, buffer, files, reg, flushTail)
    else if ast[i].ThematicBreak? && buffer != [] then
      var s :- SlideOf(buffer, reg);
      ParseFrom(ast, i + 1, slides + [s], [], files, reg, flushTail)
    else
      var added :- NodeElements(ast[i], files, |slides| + 1);
      if !flushTail && i == |ast| - 1 then
        var s :- SlideOf(buffer + added, reg);
        Ok(slides + [s])
      else
        ParseFrom(ast, i + 1, slides, buffer + added, files, reg, flushTail)
  }

  /** The slides Markdown.parse returns for `ast`, as the source computes them. */
  function Deck(ast: seq<Node>, files: Files, reg: Registry): Result<seq<Slide>> {
    ParseFrom(ast, 0, [], [], files, reg, false)
  }

  /** The slides when the buffer left at the end of the document becomes the
      last slide whatever the last node is. */
  function DeckFlushingTail(ast: seq<Node>, files: Files, reg: Registry): Result<seq<Slide>> {
    ParseFrom(ast, 0, [], [], files, reg, true)
  }

  /** A failure among the first k children is the failure of them all. */
  lemma {:induction false} ChildrenFailEarly(cs: seq<Node>, k: nat, files: Files, slide: nat)
    requires k <= |cs| && AdaptChildren(cs[..k], files, slide).Err?
    ensures AdaptChildren(cs, files, slide) == AdaptChildren(cs[..k], files, slide)
    decreases |cs|
  {
    if k < |cs| {
      var init := cs[..|cs| - 1];
      assert init[..k] == cs[..k];
      ChildrenFailEarly(init, k, files, slide);
    } else {
      assert cs[..k] == cs;
    }
  }

  /** The loop over a paragraph's children in Markdown.parse: each child's
      element is appended to the buffer in turn, and the first child without
      an element class stops the parse. */
  method AppendChildren(cs: seq<Node>, files: Files, slide: nat, buffer: seq<E.Element>)
    returns (r: Result<seq<E.Element>>)
    ensures AdaptChildren(cs, files, slide).Err? ==> r == Err(AdaptChildren(cs, files, slide).error)
    ensures AdaptChildren(cs, files, slide).Ok? ==> r == Ok(buffer + AdaptChildren(cs, files, slide).value)
  {
    var out := buffer;
    assert out[|buffer|..] == [] && cs[..0] == [];
    for j := 0 to |cs|
      invariant |buffer| <= |out| && out[..|buffer|] == buffer
      invariant AdaptChildren(cs[..j], files, slide) == Ok(out[|buffer|..])
    {
      assert cs[..j + 1][..j] == cs[..j];
      var e := AdaptChild(cs[j], files, slide);
      if e.Err? {
        ChildrenFailEarly(cs, j + 1, files, slide);
        return Err(e.error);
      }
      assert (out + [e.value])[|buffer|..] == out[|buffer|..] + [e.value];
      out := out + [e.value];
    }
    assert cs[..|cs|] == cs;
    assert out == buffer + out[|buffer|..];
    return Ok(out);
  }

  /** Markdown.parse: one pass over the AST nodes, updating the buffer, the
      slide list and the slide counter. */
  method Parse(ast: seq<Node>, files: Files, reg: Registry) returns (r: Result<seq<Slide>>)
    ensures r == Deck(ast, files, reg)
  {
    var slides: seq<Slide> := [];
    var sliden := 0;
    var buffer: seq<E.Element> := [];
    for i := 0 to |ast|
      invariant sliden == |slides|
      invariant Deck(ast, files, reg) == ParseFrom(ast, i, slides, buffer, files, reg, false)
    {
      var node := ast[i];
      if node.Newline? {
        continue;
      }
      if node.ThematicBreak? && buffer != [] {
        var s := NewSlide(buffer, reg);
        if s.Err? {
          return Err(s.error);
        }
        slides := slides + [s.value];
        sliden := sliden + 1;
        buffer := [];
        continue;
      }
      ghost var before := buffer;
      ghost var added: seq<E.Element>;
      if node.Paragraph? {
        var extended := AppendChildren(node.children, files, sliden + 1, buffer);
        if extended.Err? {
          return Err(extended.error);
        }
        added := AdaptChildren(node.children, files, sliden + 1).value;
        buffer := extended.value;
      } else {
        var e := Adapt(node, files, sliden + 1);
        if e.Err? {
          return Err(e.error);
        }
        added := [e.value];
        buffer := buffer + [e.value];
      }
      assert NodeElements(node, files, sliden + 1) == Ok(added) && buffer == before + added;
      if i == |ast| - 1 {
        var s := NewSlide(buffer, reg);
        if s.Err? {
          return Err(s.error);
        }
        slides := slides + [s.value];
        sliden := sliden + 1;
      }
    }
    r := Ok(slides);
  }

  /** All elements of the slides, slide after slide. */
  function Flatten(slides: seq<Slide>): seq<E.Element> {
    if slides == [] then [] else Flatten(slides[..|slides| - 1]) + slides[|slides| - 1].elements
  }

  /** The elements the nodes of `ast` from `i` on give when they can be
      built, in document order. */
  function ContentFrom(ast: seq<Node>, i: nat, files: Files): seq<E.Element>
    requires i <= |ast|
    decreases |ast| - i
  {
    if i == |ast| then []
    else
      var r := NodeElements(ast[i], files, 1);
      (if r.Ok? then r.value else []) + ContentFrom(ast, i + 1, files)
  }

  /** Whether a node's elements can be built, and which, does not depend on
      the slide number used in the error. */
  lemma {:induction false} ChildrenIgnoreSlideNumber(cs: seq<Node>, files: Files, a: nat, b: nat)
    ensures AdaptChildren(cs, files, a).Ok? == AdaptChildren(cs, files, b).Ok?
    ensures AdaptChildren(cs, files, a).Ok? ==> AdaptChildren(cs, files, a) == AdaptChildren(cs, files, b)
  {
    if cs != [] {
      ChildrenIgnoreSlideNumber(cs[..|cs| - 1], files, a, b);
    }
  }

  lemma NodeIgnoresSlideNumber(n: Node, files: Files, a: nat, b: nat)
    ensures NodeElements(n, files, a).Ok? == NodeElements(n, files, b).Ok?
    ensures NodeElements(n, files, a).Ok? ==> NodeElements(n, files, a) == NodeElements(n, files, b)
  {
    if n.Paragraph? {
      ChildrenIgnoreSlideNumber(n.children, files, a, b);
    }
  }

  lemma FlattenSnoc(slides: seq<Slide>, s: Slide)
    ensures Flatten(slides + [s]) == Flatten(slides) + s.elements
  {
    assert (slides + [s])[..|slides|] == slides;
  }

  /** No element is duplicated or reordered: when the loop from node
      `i` succeeds, the slides it builds hold the elements of the slides so
      far, then the buffer, then those of the remaining nodes, possibly
      without a trailing run, and all of them when the tail is flushed. */
  ghost predicate KeepsElements(ast: seq<Node>, i: nat, slides: seq<Slide>, buffer: seq<E.Element>,
                                files: Files, reg: Registry, flushTail: bool)
    requires i <= |ast|
  {
    var r := ParseFrom(ast, i, slides, buffer, files, reg, flushTail);
    var whole := Flatten(slides) + buffer + ContentFrom(ast, i, files);
    r.Ok? ==> Flatten(r.value) <= whole && (flushTail ==> Flatten(r.value) == whole)
  }

  lemma KeepsAtEnd(ast: seq<Node>, slides: seq<Slide>, buffer: seq<E.Element>,
                   files: Files, reg: Registry, flushTail: bool)
    ensures KeepsElements(ast, |ast|, slides, buffer, files, reg, flushTail)
  {
    if flushTail && buffer != [] && SlideOf(buffer, reg).Ok? {
      FlattenSnoc(slides, SlideOf(buffer, reg).value);
    }
  }

  lemma KeepsOverNewline(ast: seq<Node>, i: nat, slides: seq<Slide>, buffer: seq<E.Element>,
                         files: Files, reg: Registry, flushTail: bool)
    requires i < |ast| && ast[i].Newline?
    requires KeepsElements(ast, i + 1, slides, buffer, files, reg, flushTail)
    ensures KeepsElements(ast, i, slides, buffer, files, reg, flushTail)
  {
    assert ParseFrom(ast, i, slides, buffer, files, reg, flushTail) ==
           ParseFrom(ast, i + 1, slides, buffer, files, reg, flushTail);
    assert ContentFrom(ast, i, files) == ContentFrom(ast, i + 1, files);
  }

  lemma KeepsOverBreak(ast: seq<Node>, i: nat, slides: seq<Slide>, buffer: seq<E.Element>,
                       files: Files, reg: Registry, flushTail: bool, s: Slide)
    requires i < |ast| && ast[i].ThematicBreak? && buffer != [] && SlideOf(buffer, reg) == Ok(s)
    requires KeepsElements(ast, i + 1, slides + [s], [], files, reg, flushTail)
    ensures KeepsElements(ast, i, slides, buffer, files, reg, flushTail)
  {
    assert ParseFrom(ast, i, slides, buffer, files, reg, flushTail) ==
           ParseFrom(ast, i + 1, slides + [s], [], files, reg, flushTail);
    assert ContentFrom(ast, i, files) == ContentFrom(ast, i + 1, files);
    FlattenSnoc(slides, s);
    assert Flatten(slides + [s]) + [] == Flatten(slides) + buffer;
  }

  /** The elements node `i` adds are those the document's content lists for it. */
  lemma ContentOfNode(ast: seq<Node>, i: nat, files: Files, slide: nat, added: seq<E.Element>)
    requires i < |ast| && NodeElements(ast[i], files, slide) == Ok(added)
    ensures ContentFrom(ast, i, files) == added + ContentFrom(ast, i + 1, files)
  {
    NodeIgnoresSlideNumber(ast[i], files, slide, 1);
  }

  lemma KeepsOverNode(ast: seq<Node>, i: nat, slides: seq<Slide>, buffer: seq<E.Element>,
                      files: Files, reg: Registry, flushTail: bool, added: seq<E.Element>)
    requires i < |ast| && !ast[i].Newline? && !(ast[i].ThematicBreak? && buffer != [])
    requires NodeElements(ast[i], files, |slides| + 1) == Ok(added)
    requires flushTail || i < |ast| - 1
    requires KeepsElements(ast, i + 1, slides, buffer + added, files, reg, flushTail)
    ensures KeepsElements(ast, i, slides, buffer, files, reg, flushTail)
  {
    assert ParseFrom(ast, i, slides, buffer, files, reg, flushTail) ==
           ParseFrom(ast, i + 1, slides, buffer + added, files, reg, flushTail);
    var rest := ContentFrom(ast, i + 1, files);
    assert Flatten(slides) + buffer + ContentFrom(ast, i, files) == Flatten(slides) + (buffer + added) + rest by {
      ContentOfNode(ast, i, files, |slides| + 1, added);
      assert buffer + (added + rest) == (buffer + added) + rest;
    }
  }

  lemma KeepsAtLastNode(ast: seq<Node>, slides: seq<Slide>, buffer: seq<E.Element>,
                        files: Files, reg: Registry, added: seq<E.Element>)
    requires ast != [] && !ast[|ast| - 1].Newline? && !(ast[|ast| - 1].ThematicBreak? && buffer != [])
    requires NodeElements(ast[|ast| - 1], files, |slides| + 1) == Ok(added)
    ensures KeepsElements(ast, |ast| - 1, slides, buffer, files, reg, false)
  {
    var i := |ast| - 1;
    ContentOfNode(ast, i, files, |slides| + 1, added);
    assert ContentFrom(ast, i + 1, files) == [];
    var whole := Flatten(slides) + buffer + ContentFrom(ast, i, files);
    assert whole == Flatten(slides) + (buffer + added) by {
      assert ContentFrom(ast, i, files) == added;
    }
    var r := SlideOf(buffer + added, reg);
    if r.Ok? {
      assert ParseFrom(ast, i, slides, buffer, files, reg, false) == Ok(slides + [r.value]);
      FlattenSnoc(slides, r.value);
    }
  }

  lemma {:induction false} ParseKeepsElements(ast: seq<Node>, i: nat, slides: seq<Slide>,
                                              buffer: seq<E.Element>, files: Files,
                                              reg: Registry, flushTail: bool)
    requires i <= |ast|
    ensures KeepsElements(ast, i, slides, buffer, files, reg, flushTail)
    decreases |ast| - i
  {
    if i == |ast| {
      KeepsAtEnd(ast, slides, buffer, files, reg, flushTail);
    } else if ast[i].Newline? {
      ParseKeepsElements(ast, i + 1, slides, buffer, files, reg, flushTail);
      KeepsOverNewline(ast, i, slides, buffer, files, reg, flushTail);
    } else if ast[i].ThematicBreak? && buffer != [] {
      var s := SlideOf(buffer, reg);
      if s.Ok? {
        ParseKeepsElements(ast, i + 1, slides + [s.value], [], files, reg, flushTail);
        KeepsOverBreak(ast, i, slides, buffer, files, reg, flushTail, s.value);
      }
    } else {
      var added := NodeElements(ast[i], files, |slides| + 1);
      if added.Ok? {
        if !flushTail && i == |ast| - 1 {
          KeepsAtLastNode(ast, slides, buffer, files, reg, added.value);
        } else {
          ParseKeepsElements(ast, i + 1, slides, buffer + added.value, files, reg, flushTail);
          KeepsOverNode(ast, i, slides, buffer, files, reg, flushTail, added.value);
        }
      }
    }
  }

  /** The loop only appends slides, and every slide it adds at a break, and
      with `flushTail` every slide it adds, is non-empty; only the source's
      flush after the last node can add an empty slide. */
  ghost predicate AppendsSlides(ast: seq<Node>, i: nat, slides: seq<Slide>, buffer: seq<E.Element>,
                                files: Files, reg: Registry, flushTail: bool)
    requires i <= |ast|
  {
    var r := ParseFrom(ast, i, slides, buffer, files, reg, flushTail);
    r.Ok? ==>
      && |slides| <= |r.value| && r.value[..|slides|] == slides
      && forall k :: |slides| <= k < |r.value| && (flushTail || k < |r.value| - 1) ==> r.value[k].elements != []
  }

  lemma AppendsOverBreak(ast: seq<Node>, i: nat, slides: seq<Slide>, buffer: seq<E.Element>,
                         files: Files, reg: Registry, flushTail: bool, s: Slide)
    requires i < |ast| && ast[i].ThematicBreak? && buffer != [] && SlideOf(buffer, reg) == Ok(s)
    requires AppendsSlides(ast, i + 1, slides + [s], [], files, reg, flushTail)
    ensures AppendsSlides(ast, i, slides, buffer, files, reg, flushTail)
  {
    var r := ParseFrom(ast, i, slides, buffer, files, reg, flushTail);
    assert r == ParseFrom(ast, i + 1, slides + [s], [], files, reg, flushTail);
    if r.Ok? {
      var out := r.value;
      assert out[..|slides|] == out[..|slides| + 1][..|slides|];
      assert out[|slides|] == s;
    }
  }

  lemma {:induction false} ParseAppendsSlides(ast: seq<Node>, i: nat, slides: seq<Slide>,
                                              buffer: seq<E.Element>, files: Files,
                                              reg: Registry, flushTail: bool)
    requires i <= |ast|
    ensures AppendsSlides(ast, i, slides, buffer, files, reg, flushTail)
    decreases |ast| - i
  {
    if i == |ast| {
    } else if ast[i].Newline? {
      ParseAppendsSlides(ast, i + 1, slides, buffer, files, reg, flushTail);
    } else if ast[i].ThematicBreak? && buffer != [] {
      var s := SlideOf(buffer, reg);
      if s.Ok? {
        ParseAppendsSlides(ast, i + 1, slides + [s.value], [], files, reg, flushTail);
        AppendsOverBreak(ast, i, slides, buffer, files, reg, flushTail, s.value);
      }
    } else {
      var added := NodeElements(ast[i], files, |slides| + 1);
      if added.Ok? && (flushTail || i < |ast| - 1) {
        ParseAppendsSlides(ast, i + 1, slides, buffer + added.value, files, reg, flushTail);
      }
    }
  }

  /** With the tail flushed, the slides hold exactly the document's elements
      in order, and no slide is empty. */
  lemma FlushedDeckKeepsElements(ast: seq<Node>, files: Files, reg: Registry)
    requires DeckFlushingTail(ast, files, reg).Ok?
    ensures Flatten(DeckFlushingTail(ast, files, reg).value) == ContentFrom(ast, 0, files)
    ensures forall s :: s in DeckFlushingTail(ast, files, reg).value ==> s.elements != []
  {
    ParseKeepsElements(ast, 0, [], [], files, reg, true);
    ParseAppendsSlides(ast, 0, [], [], files, reg, true);
  }

  /** The deck the source builds never reorders or invents elements: its
      elements are a prefix of the document's. */
  lemma DeckKeepsElementOrder(ast: seq<Node>, files: Files, reg: Registry)
    requires Deck(ast, files, reg).Ok?
    ensures Flatten(Deck(ast, files, reg).value) <= ContentFrom(ast, 0, files)
  {
    ParseKeepsElements(ast, 0, [], [], files, reg, false);
  }

  /** The last node adds at least one element to the buffer. */
  predicate EndsWithContent(ast: seq<Node>) {
    && ast != []
    && !ast[|ast| - 1].Newline?
    && !ast[|ast| - 1].ThematicBreak?
    && (ast[|ast| - 1].Paragraph? ==> ast[|ast| - 1].children != [])
  }

  /** When the document ends with a node that has content, the source's deck
      and the tail-flushing deck are the same. */
  lemma {:induction false} FlushAgreesFrom(ast: seq<Node>, i: nat, slides: seq<Slide>,
                                           buffer: seq<E.Element>, files: Files, reg: Registry)
    requires EndsWithContent(ast) && i < |ast|
    ensures ParseFrom(ast, i, slides, buffer, files, reg, false) ==
            ParseFrom(ast, i, slides, buffer, files, reg, true)
    decreases |ast| - i
  {
    if ast[i].Newline? {
      FlushAgreesFrom(ast, i + 1, slides, buffer, files, reg);
    } else if ast[i].ThematicBreak? && buffer != [] {
      if SlideOf(buffer, reg).Ok? {
        FlushAgreesFrom(ast, i + 1, slides + [SlideOf(buffer, reg).value], [], files, reg);
      }
    } else if NodeElements(ast[i], files, |slides| + 1).Ok? {
      var added := NodeElements(ast[i], files, |slides| + 1).value;
      if i < |ast| - 1 {
        FlushAgreesFrom(ast, i + 1, slides, buffer + added, files, reg);
      } else {
        assert added != [];
      }
    }
  }

  lemma DeckAgreesWhenLastIsContent(ast: seq<Node>, files: Files, reg: Registry)
    requires EndsWithContent(ast)
    ensures Deck(ast, files, reg) == DeckFlushingTail(ast, files, reg)
  {
    FlushAgreesFrom(ast, 0, [], [], files, reg);
  }

  /** A document whose last node is a newline loses its last slide: the
      source never turns the final buffer into a slide, while the
      tail-flushing deck does. */
  lemma TrailingNewlineDropsLastSlide(text: string, files: Files, reg: Registry)
    ensures Deck([Paragraph([Text(text)]), Newline], files, reg) == Ok([])
    ensures DeckFlushingTail([Paragraph([Text(text)]), Newline], files, reg).Ok?
    ensures Flatten(DeckFlushingTail([Paragraph([Text(text)]), Newline], files, reg).value) == [E.Text(text)]
  {
    var cs := [Text(text)];
    var ast := [Paragraph(cs), Newline];
    assert cs[..|cs| - 1] == [];
    assert AdaptChildren(cs[..|cs| - 1], files, 1) == Ok([]);
    assert AdaptChild(cs[|cs| - 1], files, 1) == Ok(E.Text(text));
    assert [] + [E.Text(text)] == [E.Text(text)];
    assert AdaptChildren(cs, files, 1).Ok?;
    assert AdaptChildren(cs, files, 1) == Ok([E.Text(text)]);
    assert ParseFrom(ast, 1, [], [E.Text(text)], files, reg, false) == Ok([]);
    assert SlideOf([E.Text(text)], reg).Ok? by {
      assert [E.Text(text)][..0] == [];
      assert LastStyle([E.Text(text)]) == map[];
    }
    assert NodeElements(ast[0], files, 1) == Ok([E.Text(text)]);
    assert ParseFrom(ast, 2, [], [E.Text(text)], files, reg, true).Ok?;
    assert DeckFlushingTail(ast, files, reg) == ParseFrom(ast, 1, [], [E.Text(text)], files, reg, true);
    FlushedDeckKeepsElements(ast, files, reg);
    assert ContentFrom(ast, 0, files) == [E.Text(text)] by {
      assert ContentFrom(ast, 1, files) == [];
    }
  }

  /** The source flushes the buffer after any last node processed as
      content, even one that adds nothing, and the slide holds whatever is
      pending; with nothing pending, as in a document that is one paragraph
      without children, that is an empty slide, which the tail-flushing
      deck does not make. */
  lemma EmptyLastParagraphFlushesEmptySlide(files: Files, reg: Registry)
    ensures Deck([Paragraph([])], files, reg).Ok?
    ensures |Deck([Paragraph([])], files, reg).value| == 1
    ensures Deck([Paragraph([])], files, reg).value[0].elements == []
    ensures DeckFlushingTail([Paragraph([])], files, reg) == Ok([])
  {
    assert AdaptChildren([], files, 1) == Ok([]);
    assert NodeElements(Paragraph([]), files, 1) == Ok([]);
    assert SlideOf([], reg).Ok? by {
      assert LastStyle([]) == map[];
    }
  }

  /** A paragraph holding one text gives that text's element. */
  lemma ParagraphOfText(text: string, files: Files, slide: nat)
    ensures NodeElements(Paragraph([Text(text)]), files, slide) == Ok([E.Text(text)])
  {
    var cs := [Text(text)];
    assert cs[..|cs| - 1] == [];
    assert AdaptChildren(cs[..|cs| - 1], files, slide) == Ok([]);
    assert AdaptChild(cs[|cs| - 1], files, slide) == Ok(E.Text(text));
    assert [] + [E.Text(text)] == [E.Text(text)];
  }

  /** A slide of one text has no style, so it is always built. */
  lemma TextSlide(text: string, reg: Registry)
    ensures SlideOf([E.Text(text)], reg).Ok?
  {
    assert [E.Text(text)][..0] == [];
    assert LastStyle([E.Text(text)]) == map[];
  }

  /** A node with content followed by a thematic break gives one slide,
      closed by the break. */
  lemma ContentThenBreak(ast: seq<Node>, files: Files, reg: Registry, added: seq<E.Element>)
    requires |ast| == 2 && !ast[0].Newline? && !ast[0].ThematicBreak? && ast[1].ThematicBreak?
    requires NodeElements(ast[0], files, 1) == Ok(added) && added != [] && SlideOf(added, reg).Ok?
    ensures Deck(ast, files, reg) == Ok([SlideOf(added, reg).value])
  {
    var s := SlideOf(added, reg).value;
    assert [] + added == added && [] + [s] == [s];
    assert ParseFrom(ast, 2, [s], [], files, reg, false) == Ok([s]);
    assert ParseFrom(ast, 1, [], added, files, reg, false) == Ok([s]);
  }

  /** A document ending in a thematic break keeps its last slide: the break
      itself closes it. */
  lemma TrailingBreakKeepsSlide(text: string, files: Files, reg: Registry)
    ensures SlideOf([E.Text(text)], reg).Ok? && SlideOf([E.Text(text)], reg).value.elements == [E.Text(text)]
    ensures Deck([Paragraph([Text(text)]), ThematicBreak], files, reg) == Ok([SlideOf([E.Text(text)], reg).value])
  {
    ParagraphOfText(text, files, 1);
    TextSlide(text, reg);
    ContentThenBreak([Paragraph([Text(text)]), ThematicBreak], files, reg, [E.Text(text)]);
  }

  /** The number of thematic breaks from node `i` on. */
  function BreaksFrom(ast: seq<Node>, i: nat): nat
    requires i <= |ast|
    decreases |ast| - i
  {
    if i == |ast| then 0 else (if ast[i].ThematicBreak? then 1 else 0) + BreaksFrom(ast, i + 1)
  }

  /** The first thematic break at or after node `i`, or the end of the
      document when there is none; no break is skipped on the way. */
  function NextBreak(ast: seq<Node>, i: nat): (j: nat)
    requires i <= |ast|
    ensures i <= j <= |ast|
    ensures j < |ast| ==> ast[j].ThematicBreak?
    ensures BreaksFrom(ast, i) == BreaksFrom(ast, j)
    decreases |ast| - i
  {
    if i == |ast| || ast[i].ThematicBreak? then i else NextBreak(ast, i + 1)
  }

  /** Where the part of the document after its last thematic break starts:
      node `i` when no break follows, and otherwise just after a break. */
  function TailStart(ast: seq<Node>, i: nat): (t: nat)
    requires i <= |ast|
    ensures i <= t <= |ast| && BreaksFrom(ast, t) == 0
    ensures t > i ==> ast[t - 1].ThematicBreak?
    decreases |ast| - i
  {
    var j := NextBreak(ast, i);
    if j == |ast| then i else TailStart(ast, j + 1)
  }

  /** The document from node `i` on, cut at its thematic breaks, with the
      elements `held` gathered before node `i`: each break closes the piece
      of what came before it, and what follows the last break is a final
      piece when it is not empty. */
  function Pieces(ast: seq<Node>, i: nat, held: seq<E.Element>, files: Files): seq<seq<E.Element>>
    requires i <= |ast|
    decreases |ast| - i
  {
    var j := NextBreak(ast, i);
    if j == |ast| then
      var last := held + ContentFrom(ast, i, files);
      if last == [] then [] else [last]
    else
      [held + ContentFrom(ast[..j], i, files)] + Pieces(ast, j + 1, [], files)
  }

  /** The elements of each slide, slide by slide. */
  function Contents(slides: seq<Slide>): seq<seq<E.Element>> {
    seq(|slides|, k requires 0 <= k < |slides| => slides[k].elements)
  }

  lemma ContentsSnoc(slides: seq<Slide>, s: Slide)
    ensures Contents(slides + [s]) == Contents(slides) + [s.elements]
  {
    var l := Contents(slides + [s]);
    var r := Contents(slides) + [s.elements];
    assert |l| == |r|;
    forall k | 0 <= k < |l| ensures l[k] == r[k] {
      if k < |slides| {
        assert (slides + [s])[k] == slides[k];
      }
    }
  }

  /** A node other than a break adds its elements to the piece being cut. */
  lemma PiecesOverNode(ast: seq<Node>, i: nat, held: seq<E.Element>, files: Files, added: seq<E.Element>)
    requires i < |ast| && !ast[i].ThematicBreak?
    requires added == (if NodeElements(ast[i], files, 1).Ok? then NodeElements(ast[i], files, 1).value else [])
    ensures Pieces(ast, i, held, files) == Pieces(ast, i + 1, held + added, files)
  {
    if NextBreak(ast, i) == |ast| {
      NodeBeforeEnd(ast, i, held, files, added);
    } else {
      NodeBeforeBreak(ast, i, held, files, added);
    }
  }

  lemma NodeBeforeEnd(ast: seq<Node>, i: nat, held: seq<E.Element>, files: Files, added: seq<E.Element>)
    requires i < |ast| && !ast[i].ThematicBreak? && NextBreak(ast, i) == |ast|
    requires added == (if NodeElements(ast[i], files, 1).Ok? then NodeElements(ast[i], files, 1).value else [])
    ensures Pieces(ast, i, held, files) == Pieces(ast, i + 1, held + added, files)
  {
    assert NextBreak(ast, i + 1) == |ast|;
    HeldThenContent(ast, i, held, files, added);
  }

  lemma NodeBeforeBreak(ast: seq<Node>, i: nat, held: seq<E.Element>, files: Files, added: seq<E.Element>)
    requires i < |ast| && !ast[i].ThematicBreak? && NextBreak(ast, i) < |ast|
    requires added == (if NodeElements(ast[i], files, 1).Ok? then NodeElements(ast[i], files, 1).value else [])
    ensures Pieces(ast, i, held, files) == Pieces(ast, i + 1, held + added, files)
  {
    var j := NextBreak(ast, i);
    assert j == NextBreak(ast, i + 1);
    assert ast[..j][i] == ast[i];
    HeldThenContent(ast[..j], i, held, files, added);
  }

  /** The content from node `i` is that node's elements, then the rest. */
  lemma HeldThenContent(ast: seq<Node>, i: nat, held: seq<E.Element>, files: Files, added: seq<E.Element>)
    requires i < |ast|
    requires added == (if NodeElements(ast[i], files, 1).Ok? then NodeElements(ast[i], files, 1).value else [])
    ensures held + ContentFrom(ast, i, files) == held + added + ContentFrom(ast, i + 1, files)
  {
    assert ContentFrom(ast, i, files) == added + ContentFrom(ast, i + 1, files);
  }

  /** A break closes the piece held so far. */
  lemma PiecesAtBreak(ast: seq<Node>, i: nat, held: seq<E.Element>, files: Files)
    requires i < |ast| && ast[i].ThematicBreak?
    ensures Pieces(ast, i, held, files) == [held] + Pieces(ast, i + 1, [], files)
  {
    assert NextBreak(ast, i) == i;
    assert ContentFrom(ast[..i], i, files) == [];
    assert held + [] == held;
  }

  /** When the tail-flushing loop from node `i` succeeds, its new slides
      are the pieces of the rest of the document, one slide per piece. */
  ghost predicate SplitsAtBreaks(ast: seq<Node>, i: nat, slides: seq<Slide>, buffer: seq<E.Element>,
                                 files: Files, reg: Registry)
    requires i <= |ast|
  {
    var r := ParseFrom(ast, i, slides, buffer, files, reg, true);
    r.Ok? ==> Contents(r.value) == Contents(slides) + Pieces(ast, i, buffer, files)
  }

  lemma SplitsAtEnd(ast: seq<Node>, slides: seq<Slide>, buffer: seq<E.Element>, files: Files, reg: Registry)
    ensures SplitsAtBreaks(ast, |ast|, slides, buffer, files, reg)
  {
    assert buffer + ContentFrom(ast, |ast|, files) == buffer;
    if buffer != [] && SlideOf(buffer, reg).Ok? {
      ContentsSnoc(slides, SlideOf(buffer, reg).value);
    }
  }

  lemma SplitsOverNewline(ast: seq<Node>, i: nat, slides: seq<Slide>, buffer: seq<E.Element>,
                          files: Files, reg: Registry)
    requires i < |ast| && ast[i].Newline?
    requires SplitsAtBreaks(ast, i + 1, slides, buffer, files, reg)
    ensures SplitsAtBreaks(ast, i, slides, buffer, files, reg)
  {
    assert ParseFrom(ast, i, slides, buffer, files, reg, true) ==
           ParseFrom(ast, i + 1, slides, buffer, files, reg, true);
    assert NodeElements(ast[i], files, 1).Err?;
    PiecesOverNode(ast, i, buffer, files, []);
    assert buffer + [] == buffer;
  }

  lemma SplitsOverBreak(ast: seq<Node>, i: nat, slides: seq<Slide>, buffer: seq<E.Element>,
                        files: Files, reg: Registry, s: Slide)
    requires i < |ast| && ast[i].ThematicBreak? && buffer != [] && SlideOf(buffer, reg) == Ok(s)
    requires SplitsAtBreaks(ast, i + 1, slides + [s], [], files, reg)
    ensures SplitsAtBreaks(ast, i, slides, buffer, files, reg)
  {
    assert ParseFrom(ast, i, slides, buffer, files, reg, true) ==
           ParseFrom(ast, i + 1, slides + [s], [], files, reg, true);
    PiecesAtBreak(ast, i, buffer, files);
    ClosedSlideFirst(slides, s, Pieces(ast, i + 1, [], files));
  }

  /** A slide closed at a break comes before the slides cut after it. */
  lemma ClosedSlideFirst(slides: seq<Slide>, s: Slide, rest: seq<seq<E.Element>>)
    ensures Contents(slides + [s]) + rest == Contents(slides) + ([s.elements] + rest)
  {
    ContentsSnoc(slides, s);
  }

  lemma SplitsOverNode(ast: seq<Node>, i: nat, slides: seq<Slide>, buffer: seq<E.Element>,
                       files: Files, reg: Registry, added: seq<E.Element>)
    requires i < |ast| && !ast[i].Newline? && !(ast[i].ThematicBreak? && buffer != [])
    requires NodeElements(ast[i], files, |slides| + 1) == Ok(added)
    requires SplitsAtBreaks(ast, i + 1, slides, buffer + added, files, reg)
    ensures SplitsAtBreaks(ast, i, slides, buffer, files, reg)
  {
    assert ParseFrom(ast, i, slides, buffer, files, reg, true) ==
           ParseFrom(ast, i + 1, slides, buffer + added, files, reg, true);
    NodeIgnoresSlideNumber(ast[i], files, |slides| + 1, 1);
    PiecesOverNode(ast, i, buffer, files, added);
  }

  lemma {:induction false} SlidesSplitFrom(ast: seq<Node>, i: nat, slides: seq<Slide>,
                                           buffer: seq<E.Element>, files: Files, reg: Registry)
    requires i <= |ast|
    ensures SplitsAtBreaks(ast, i, slides, buffer, files, reg)
    decreases |ast| - i
  {
    if i == |ast| {
      SplitsAtEnd(ast, slides, buffer, files, reg);
    } else if ast[i].Newline? {
      SlidesSplitFrom(ast, i + 1, slides, buffer, files, reg);
      SplitsOverNewline(ast, i, slides, buffer, files, reg);
    } else if ast[i].ThematicBreak? && buffer != [] {
      var s := SlideOf(buffer, reg);
      if s.Ok? {
        SlidesSplitFrom(ast, i + 1, slides + [s.value], [], files, reg);
        SplitsOverBreak(ast, i, slides, buffer, files, reg, s.value);
      }
    } else {
      var added := NodeElements(ast[i], files, |slides| + 1);
      if added.Ok? {
        SlidesSplitFrom(ast, i + 1, slides, buffer + added.value, files, reg);
        SplitsOverNode(ast, i, slides, buffer, files, reg, added.value);
      }
    }
  }

  /** How the tail-flushing deck is cut into slides: slide `k` holds the
      elements of the nodes between thematic break `k - 1` and break `k`,
      and a last slide holds what follows the last break when that is not
      empty. */
  lemma SlidesFollowBreaks(ast: seq<Node>, files: Files, reg: Registry)
    requires DeckFlushingTail(ast, files, reg).Ok?
    ensures |DeckFlushingTail(ast, files, reg).value| == |Pieces(ast, 0, [], files)|
    ensures forall k :: 0 <= k < |Pieces(ast, 0, [], files)| ==>
              DeckFlushingTail(ast, files, reg).value[k].elements == Pieces(ast, 0, [], files)[k]
  {
    SlidesSplitFrom(ast, 0, [], [], files, reg);
    var ss := DeckFlushingTail(ast, files, reg).value;
    assert Contents([]) == [];
    assert Contents(ss) == Pieces(ast, 0, [], files);
    forall k | 0 <= k < |Pieces(ast, 0, [], files)|
      ensures ss[k].elements == Pieces(ast, 0, [], files)[k]
    {
      assert Contents(ss)[k] == ss[k].elements;
    }
  }

  /** The source's deck is cut the same way when the document ends with a
      node that has content. */
  lemma SourceSlidesFollowBreaks(ast: seq<Node>, files: Files, reg: Registry)
    requires EndsWithContent(ast) && Deck(ast, files, reg).Ok?
    ensures |Deck(ast, files, reg).value| == |Pieces(ast, 0, [], files)|
    ensures forall k :: 0 <= k < |Pieces(ast, 0, [], files)| ==>
              Deck(ast, files, reg).value[k].elements == Pieces(ast, 0, [], files)[k]
  {
    DeckAgreesWhenLastIsContent(ast, files, reg);
    SlidesFollowBreaks(ast, files, reg);
  }

  /** One piece per thematic break, and one more when the part after the
      last break has content. */
  lemma {:induction false} PieceCount(ast: seq<Node>, i: nat, files: Files)
    requires i <= |ast|
    ensures |Pieces(ast, i, [], files)| ==
            BreaksFrom(ast, i) + (if ContentFrom(ast, TailStart(ast, i), files) != [] then 1 else 0)
    decreases |ast| - i
  {
    var j := NextBreak(ast, i);
    if j < |ast| {
      PieceCount(ast, j + 1, files);
    } else {
      assert [] + ContentFrom(ast, i, files) == ContentFrom(ast, i, files);
    }
  }

  /** The number of slides of the tail-flushing deck: one per thematic
      break, plus one when nodes with content follow the last break. */
  lemma DeckSlideCount(ast: seq<Node>, files: Files, reg: Registry)
    requires DeckFlushingTail(ast, files, reg).Ok?
    ensures |DeckFlushingTail(ast, files, reg).value| ==
            BreaksFrom(ast, 0) + (if ContentFrom(ast, TailStart(ast, 0), files) != [] then 1 else 0)
  {
    SlidesFollowBreaks(ast, files, reg);
    PieceCount(ast, 0, files);
  }

  /** An unsupported node type is reported with the 1-based number of the
      slide being built: one more than the slides already built, and at
      most one more than the breaks met on the way. */
  ghost predicate SlideNumberBounded(ast: seq<Node>, i: nat, slides: seq<Slide>, buffer: seq<E.Element>,
                                     files: Files, reg: Registry, flushTail: bool)
    requires i <= |ast|
  {
    var r := ParseFrom(ast, i, slides, buffer, files, reg, flushTail);
    r.Err? && r.error.UnsupportedElement? ==> |slides| + 1 <= r.error.slide <= |slides| + 1 + BreaksFrom(ast, i)
  }

  lemma NumberAtBreak(ast: seq<Node>, i: nat, slides: seq<Slide>, buffer: seq<E.Element>,
                      files: Files, reg: Registry, flushTail: bool)
    requires i < |ast| && ast[i].ThematicBreak? && buffer != []
    requires SlideOf(buffer, reg).Ok? ==>
               SlideNumberBounded(ast, i + 1, slides + [SlideOf(buffer, reg).value], [], files, reg, flushTail)
    ensures SlideNumberBounded(ast, i, slides, buffer, files, reg, flushTail)
  {
    assert BreaksFrom(ast, i) == 1 + BreaksFrom(ast, i + 1);
  }

  lemma NumberAtNode(ast: seq<Node>, i: nat, slides: seq<Slide>, buffer: seq<E.Element>,
                     files: Files, reg: Registry, flushTail: bool)
    requires i < |ast| && !ast[i].Newline? && !(ast[i].ThematicBreak? && buffer != [])
    requires NodeElements(ast[i], files, |slides| + 1).Ok? && (flushTail || i < |ast| - 1) ==>
               SlideNumberBounded(ast, i + 1, slides, buffer + NodeElements(ast[i], files, |slides| + 1).value,
                                  files, reg, flushTail)
    ensures SlideNumberBounded(ast, i, slides, buffer, files, reg, flushTail)
  {
    assert BreaksFrom(ast, i) >= BreaksFrom(ast, i + 1);
  }

  lemma {:induction false} UnsupportedSlideNumber(ast: seq<Node>, i: nat, slides: seq<Slide>,
                                                  buffer: seq<E.Element>, files: Files,
                                                  reg: Registry, flushTail: bool)
    requires i <= |ast|
    ensures SlideNumberBounded(ast, i, slides, buffer, files, reg, flushTail)
    decreases |ast| - i
  {
    if i < |ast| {
      if ast[i].Newline? {
        UnsupportedSlideNumber(ast, i + 1, slides, buffer, files, reg, flushTail);
        assert ParseFrom(ast, i, slides, buffer, files, reg, flushTail) ==
               ParseFrom(ast, i + 1, slides, buffer, files, reg, flushTail);
      } else if ast[i].ThematicBreak? && buffer != [] {
        var s := SlideOf(buffer, reg);
        if s.Ok? {
          UnsupportedSlideNumber(ast, i + 1, slides + [s.value], [], files, reg, flushTail);
        }
        NumberAtBreak(ast, i, slides, buffer, files, reg, flushTail);
      } else {
        var added := NodeElements(ast[i], files, |slides| + 1);
        if added.Ok? && (flushTail || i < |ast| - 1) {
          UnsupportedSlideNumber(ast, i + 1, slides, buffer + added.value, files, reg, flushTail);
        }
        NumberAtNode(ast, i, slides, buffer, files, reg, flushTail);
      }
    }
  }

  /** The loop run from node `i` with `slides` and `buffer` gets to node `k`
      without stopping, and holds `before` and `held` when it does. */
  ghost predicate Reaches(ast: seq<Node>, i: nat, slides: seq<Slide>, buffer: seq<E.Element>,
                          k: nat, before: seq<Slide>, held: seq<E.Element>,
                          files: Files, reg: Registry, flushTail: bool)
    requires i <= k <= |ast|
    decreases k - i
  {
    if i == k then before == slides && held == buffer
    else if ast[i].Newline? then
      Reaches(ast, i + 1, slides, buffer, k, before, held, files, reg, flushTail)
    else if ast[i].ThematicBreak? && buffer != [] then
      SlideOf(buffer, reg).Ok? &&
      Reaches(ast, i + 1, slides + [SlideOf(buffer, reg).value], [], k, before, held, files, reg, flushTail)
    else
      var added := NodeElements(ast[i], files, |slides| + 1);
      added.Ok? && (flushTail || i < |ast| - 1) &&
      Reaches(ast, i + 1, slides, buffer + added.value, k, before, held, files, reg, flushTail)
  }

  /** Building a slide fails only on its style, never as an unsupported type. */
  lemma SlideNeverUnsupported(es: seq<E.Element>, reg: Registry)
    ensures SlideOf(es, reg).Err? ==> !SlideOf(es, reg).error.UnsupportedElement?
  {
  }

  /** The parse from node `i` fails as an unsupported type at node `k`: the
      loop gets there holding `before` and `held`, node `k` is processed as
      content (not skipped, not closing a slide), its type has no element
      class, and the error names the slide being built, one more than the
      slides built before that node. */
  ghost predicate FailsAt(ast: seq<Node>, i: nat, slides: seq<Slide>, buffer: seq<E.Element>,
                          k: nat, before: seq<Slide>, held: seq<E.Element>,
                          files: Files, reg: Registry, flushTail: bool)
    requires i <= |ast|
  {
    var r := ParseFrom(ast, i, slides, buffer, files, reg, flushTail);
    && i <= k < |ast|
    && Reaches(ast, i, slides, buffer, k, before, held, files, reg, flushTail)
    && !ast[k].Newline? && !(ast[k].ThematicBreak? && held != [])
    && r.Err? && r.error.UnsupportedElement?
    && NodeElements(ast[k], files, |before| + 1) == Err(r.error)
    && r.error.slide == |before| + 1
  }

  lemma FailsHere(ast: seq<Node>, i: nat, slides: seq<Slide>, buffer: seq<E.Element>,
                  files: Files, reg: Registry, flushTail: bool)
    requires i < |ast| && !ast[i].Newline? && !(ast[i].ThematicBreak? && buffer != [])
    requires NodeElements(ast[i], files, |slides| + 1).Err?
    requires NodeElements(ast[i], files, |slides| + 1).error.UnsupportedElement?
    ensures FailsAt(ast, i, slides, buffer, i, slides, buffer, files, reg, flushTail)
  {
  }

  lemma FailsOverNewline(ast: seq<Node>, i: nat, slides: seq<Slide>, buffer: seq<E.Element>,
                         k: nat, before: seq<Slide>, held: seq<E.Element>,
                         files: Files, reg: Registry, flushTail: bool)
    requires i < |ast| && ast[i].Newline?
    requires FailsAt(ast, i + 1, slides, buffer, k, before, held, files, reg, flushTail)
    ensures FailsAt(ast, i, slides, buffer, k, before, held, files, reg, flushTail)
  {
    assert ParseFrom(ast, i, slides, buffer, files, reg, flushTail) ==
           ParseFrom(ast, i + 1, slides, buffer, files, reg, flushTail);
  }

  lemma FailsOverBreak(ast: seq<Node>, i: nat, slides: seq<Slide>, buffer: seq<E.Element>,
                       k: nat, before: seq<Slide>, held: seq<E.Element>,
                       files: Files, reg: Registry, flushTail: bool, s: Slide)
    requires i < |ast| && ast[i].ThematicBreak? && buffer != [] && SlideOf(buffer, reg) == Ok(s)
    requires FailsAt(ast, i + 1, slides + [s], [], k, before, held, files, reg, flushTail)
    ensures FailsAt(ast, i, slides, buffer, k, before, held, files, reg, flushTail)
  {
    assert ParseFrom(ast, i, slides, buffer, files, reg, flushTail) ==
           ParseFrom(ast, i + 1, slides + [s], [], files, reg, flushTail);
  }

  lemma FailsOverNode(ast: seq<Node>, i: nat, slides: seq<Slide>, buffer: seq<E.Element>,
                      k: nat, before: seq<Slide>, held: seq<E.Element>,
                      files: Files, reg: Registry, flushTail: bool, added: seq<E.Element>)
    requires i < |ast| && !ast[i].Newline? && !(ast[i].ThematicBreak? && buffer != [])
    requires NodeElements(ast[i], files, |slides| + 1) == Ok(added) && (flushTail || i < |ast| - 1)
    requires FailsAt(ast, i + 1, slides, buffer + added, k, before, held, files, reg, flushTail)
    ensures FailsAt(ast, i, slides, buffer, k, before, held, files, reg, flushTail)
  {
    assert ParseFrom(ast, i, slides, buffer, files, reg, flushTail) ==
           ParseFrom(ast, i + 1, slides, buffer + added, files, reg, flushTail);
  }

  /** An unsupported node type stops the parse at the node that has it,
      reported with the number of the slide being built there: one more
      than the slides built before that node. */
  lemma {:induction false} UnsupportedNode(ast: seq<Node>, i: nat, slides: seq<Slide>,
                                           buffer: seq<E.Element>, files: Files,
                                           reg: Registry, flushTail: bool)
    returns (k: nat, before: seq<Slide>, held: seq<E.Element>)
    requires i <= |ast|
    requires ParseFrom(ast, i, slides, buffer, files, reg, flushTail).Err?
    requires ParseFrom(ast, i, slides, buffer, files, reg, flushTail).error.UnsupportedElement?
    ensures FailsAt(ast, i, slides, buffer, k, before, held, files, reg, flushTail)
    decreases |ast| - i
  {
    if i == |ast| {
      SlideNeverUnsupported(buffer, reg);
      assert false;
    } else if ast[i].Newline? {
      k, before, held := UnsupportedNode(ast, i + 1, slides, buffer, files, reg, flushTail);
      FailsOverNewline(ast, i, slides, buffer, k, before, held, files, reg, flushTail);
    } else if ast[i].ThematicBreak? && buffer != [] {
      SlideNeverUnsupported(buffer, reg);
      var s := SlideOf(buffer, reg).value;
      k, before, held := UnsupportedNode(ast, i + 1, slides + [s], [], files, reg, flushTail);
      FailsOverBreak(ast, i, slides, buffer, k, before, held, files, reg, flushTail, s);
    } else {
      var added := NodeElements(ast[i], files, |slides| + 1);
      if added.Err? {
        k, before, held := i, slides, buffer;
        FailsHere(ast, i, slides, buffer, files, reg, flushTail);
      } else if !flushTail && i == |ast| - 1 {
        SlideNeverUnsupported(buffer + added.value, reg);
        assert false;
      } else {
        k, before, held := UnsupportedNode(ast, i + 1, slides, buffer + added.value, files, reg, flushTail);
        FailsOverNode(ast, i, slides, buffer, k, before, held, files, reg, flushTail, added.value);
      }
    }
  }

  /** A thematic break met with an empty buffer, after nothing but newlines,
      has no element class: the parse fails there, with the number of the
      slide that would come next. */
  lemma BreakOnEmptyBufferFails(ast: seq<Node>, i: nat, k: nat, slides: seq<Slide>,
                                files: Files, reg: Registry, flushTail: bool)
    requires i <= k < |ast| && ast[k].ThematicBreak?
    requires forall j :: i <= j < k ==> ast[j].Newline?
    ensures ParseFrom(ast, i, slides, [], files, reg, flushTail) ==
            Err(UnsupportedElement("thematic_break", |slides| + 1))
  {
    SkipNewlines(ast, i, k, slides, [], files, reg, flushTail);
  }

  /** A document whose first node other than newlines is a thematic break
      fails on slide 1. */
  lemma LeadingBreakFails(ast: seq<Node>, k: nat, files: Files, reg: Registry)
    requires k < |ast| && ast[k].ThematicBreak?
    requires forall j :: 0 <= j < k ==> ast[j].Newline?
    ensures Deck(ast, files, reg) == Err(UnsupportedElement("thematic_break", 1))
    ensures DeckFlushingTail(ast, files, reg) == Err(UnsupportedElement("thematic_break", 1))
  {
    BreakOnEmptyBufferFails(ast, 0, k, [], files, reg, false);
    BreakOnEmptyBufferFails(ast, 0, k, [], files, reg, true);
  }

  /** Two thematic breaks with only newlines between them fail: the first
      one closes the slide being built, the second meets an empty buffer and
      is reported on the slide after it. */
  lemma DoubleBreakFails(ast: seq<Node>, i: nat, k: nat, slides: seq<Slide>, buffer: seq<E.Element>,
                         files: Files, reg: Registry, flushTail: bool)
    requires i < k < |ast| && ast[i].ThematicBreak? && ast[k].ThematicBreak?
    requires forall j :: i < j < k ==> ast[j].Newline?
    requires buffer != [] && SlideOf(buffer, reg).Ok?
    ensures ParseFrom(ast, i, slides, buffer, files, reg, flushTail) ==
            Err(UnsupportedElement("thematic_break", |slides| + 2))
  {
    BreakOnEmptyBufferFails(ast, i + 1, k, slides + [SlideOf(buffer, reg).value], files, reg, flushTail);
  }

  /** Newline nodes change nothing: over a run of newlines the loop keeps
      its slides and its buffer. */
  lemma {:induction false} SkipNewlines(ast: seq<Node>, j: nat, k: nat, slides: seq<Slide>,
                                        buffer: seq<E.Element>, files: Files, reg: Registry,
                                        flushTail: bool)
    requires j <= k <= |ast|
    requires forall m :: j <= m < k ==> ast[m].Newline?
    ensures ParseFrom(ast, j, slides, buffer, files, reg, flushTail) ==
            ParseFrom(ast, k, slides, buffer, files, reg, flushTail)
    decreases k - j
  {
    if j < k {
      SkipNewlines(ast, j + 1, k, slides, buffer, files, reg, flushTail);
    }
  }
}
