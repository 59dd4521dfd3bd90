/** Slide construction: scanning the elements for flags and for the style
    directive of the last html block, validating that directive against the
    effect registry and colour table, and resolving the slide's colours. */
module Slides {
  import opened Failures
  import opened Elements

  /** The effect registry and the colour table (colour name to colour index)
      the style directive is checked against. */
  datatype Registry = Registry(effects: set<string>, colors: map<string, int>)

  /** A constructed slide: its elements and the style state derived from them. */
  datatype Slide = Slide(
    elements: seq<Element>,
    hasStyle: bool,
    hasEffect: bool,
    hasImage: bool,
    hasCode: bool,
    hasCodio: bool,
    style: map<string, string>,
    effect: Option<string>,
    fgColor: int,
    bgColor: int)

  const DefaultFg: int := 0
  const DefaultBg: int := 7
  const EffectFg: int := 7
  const EffectBg: int := 0

  /** Some element has the class whose `type` is `name`. */
  predicate HasType(es: seq<Element>, name: string) {
    exists i :: 0 <= i < |es| && es[i].TypeName() == name
  }

  /** The style of the last html element, {} when there is none: each html
      element replaces the style taken from the ones before it. */
  function LastStyle(es: seq<Element>): map<string, string> {
    if es == [] then map[]
    else if es[|es| - 1].BlockHtml? then StyleOf(es[|es| - 1])
    else LastStyle(es[..|es| - 1])
  }

  /** The effect named by the style, if any, is in the registry. */
  predicate EffectKnown(style: map<string, string>, reg: Registry) {
    "effect" in style ==> style["effect"] in reg.effects
  }

  /** The colour under `key`, if any, is in the colour table. */
  predicate ColorKnown(style: map<string, string>, key: string, reg: Registry) {
    key in style ==> style[key] in reg.colors
  }

  /** The style rules of a slide: known names only, and an effect excludes
      both explicit colours and code blocks. */
  predicate StyleAllowed(style: map<string, string>, hasCode: bool, reg: Registry) {
    && EffectKnown(style, reg)
    && ColorKnown(style, "fg", reg)
    && ColorKnown(style, "bg", reg)
    && ("effect" in style ==> "fg" !in style && "bg" !in style && !hasCode)
  }

  /** The slide invariants: an effect never comes with an explicit colour or
      with a code block, and it is a known one. */
  predicate Consistent(s: Slide, reg: Registry) {
    s.hasEffect ==>
      && !s.hasCode
      && "fg" !in s.style && "bg" !in s.style
      && s.effect.Some? && s.effect.value in reg.effects
  }

  /** The colour a style resolves `key` to when no effect overrides it. */
  function ColorOf(style: map<string, string>, key: string, reg: Registry, default: int): int {
    if key in style && style[key] in reg.colors then reg.colors[style[key]] else default
  }

  /** Slide.__init__, as a value: the slide, or the first rule the style breaks. */
  function SlideOf(es: seq<Element>, reg: Registry): (r: Result<Slide>)
    ensures r.Ok? ==> r.value.elements == es
  {
    var style := LastStyle(es);
    var hasCode := HasType(es, "code");
    if "effect" in style && style["effect"] !in reg.effects then Err(UnsupportedEffect(style["effect"]))
    else if "fg" in style && style["fg"] !in reg.colors then Err(UnsupportedColor(style["fg"]))
    else if "bg" in style && style["bg"] !in reg.colors then Err(UnsupportedColor(style["bg"]))
    else if "effect" in style && ("fg" in style || "bg" in style) then Err(EffectWithColor)
    else if "effect" in style && hasCode then Err(EffectWithCode)
    else
      var hasEffect := "effect" in style;
      Ok(Slide(
        es, HasType(es, "html"), hasEffect, HasType(es, "image"), hasCode, HasType(es, "codio"),
        style,
        if hasEffect then Some(style["effect"]) else None,
        if hasEffect then EffectFg else ColorOf(style, "fg", reg, DefaultFg),
        if hasEffect then EffectBg else ColorOf(style, "bg", reg, DefaultBg)))
  }

  /** The rules Slide.__init__ applies: the slide is built exactly when the
      style of the last html element passes every check, the checks run in a
      fixed order, a built slide keeps its elements and reports what they
      contain, and its colours follow the style. */
  lemma SlideOfRules(es: seq<Element>, reg: Registry, r: Result<Slide>)
    requires r == SlideOf(es, reg)
    ensures r.Ok? <==> StyleAllowed(LastStyle(es), HasType(es, "code"), reg)
    // the checks run in a fixed order; each error means the earlier checks passed
    ensures !EffectKnown(LastStyle(es), reg) ==> r == Err(UnsupportedEffect(LastStyle(es)["effect"]))
    ensures r.Err? && r.error.UnsupportedColor? ==>
              EffectKnown(LastStyle(es), reg) &&
              (if ColorKnown(LastStyle(es), "fg", reg)
               then !ColorKnown(LastStyle(es), "bg", reg) && r.error.color == LastStyle(es)["bg"]
               else r.error.color == LastStyle(es)["fg"])
    ensures r.Err? && (r.error.EffectWithColor? || r.error.EffectWithCode?) ==>
              EffectKnown(LastStyle(es), reg) &&
              ColorKnown(LastStyle(es), "fg", reg) && ColorKnown(LastStyle(es), "bg", reg)
    ensures r == Err(EffectWithCode) ==> "fg" !in LastStyle(es) && "bg" !in LastStyle(es)
    // each check that fails, after the earlier ones pass, gives its own error
    ensures EffectKnown(LastStyle(es), reg) && !ColorKnown(LastStyle(es), "fg", reg) ==>
              r == Err(UnsupportedColor(LastStyle(es)["fg"]))
    ensures EffectKnown(LastStyle(es), reg) && ColorKnown(LastStyle(es), "fg", reg) &&
            !ColorKnown(LastStyle(es), "bg", reg) ==>
              r == Err(UnsupportedColor(LastStyle(es)["bg"]))
    ensures EffectKnown(LastStyle(es), reg) && ColorKnown(LastStyle(es), "fg", reg) &&
            ColorKnown(LastStyle(es), "bg", reg) && "effect" in LastStyle(es) &&
            ("fg" in LastStyle(es) || "bg" in LastStyle(es)) ==>
              r == Err(EffectWithColor)
    ensures EffectKnown(LastStyle(es), reg) && "effect" in LastStyle(es) &&
            "fg" !in LastStyle(es) && "bg" !in LastStyle(es) && HasType(es, "code") ==>
              r == Err(EffectWithCode)
    // and each error comes from its own check failing
    ensures r.Err? && r.error.UnsupportedEffect? ==> !EffectKnown(LastStyle(es), reg)
    ensures r == Err(EffectWithColor) ==> "effect" in LastStyle(es) && ("fg" in LastStyle(es) || "bg" in LastStyle(es))
    ensures r == Err(EffectWithCode) ==> "effect" in LastStyle(es) && HasType(es, "code")
    ensures r.Err? ==>
              r.error.UnsupportedEffect? || r.error.UnsupportedColor? ||
              r.error.EffectWithColor? || r.error.EffectWithCode?
    ensures r.Ok? ==> Consistent(r.value, reg)
    // a built slide keeps its elements and reports what they contain
    ensures r.Ok? ==>
              && r.value.elements == es
              && r.value.style == LastStyle(es)
              && (r.value.hasStyle <==> HasType(es, "html"))
              && (r.value.hasImage <==> HasType(es, "image"))
              && (r.value.hasCode <==> HasType(es, "code"))
              && (r.value.hasCodio <==> HasType(es, "codio"))
    // colours: an effect forces 7 on 0, otherwise the named colours or 0 on 7
    ensures r.Ok? ==>
              && (r.value.hasEffect <==> "effect" in r.value.style)
              && (r.value.hasEffect ==> r.value.effect == Some(r.value.style["effect"]) &&
                                        r.value.fgColor == EffectFg && r.value.bgColor == EffectBg)
              && (!r.value.hasEffect ==> r.value.effect == None &&
                                         r.value.fgColor == ColorOf(r.value.style, "fg", reg, DefaultFg) &&
                                         r.value.bgColor == ColorOf(r.value.style, "bg", reg, DefaultBg))
  {
  }

  lemma HasTypeSnoc(es: seq<Element>, e: Element, name: string)
    ensures HasType(es + [e], name) <==> HasType(es, name) || e.TypeName() == name
  {
    if HasType(es, name) {
      var i :| 0 <= i < |es| && es[i].TypeName() == name;
      assert (es + [e])[i] == es[i];
    }
    if e.TypeName() == name {
      assert (es + [e])[|es|] == e;
    }
  }

  /** What one more element changes in the flags and the style. */
  lemma ScanStep(es: seq<Element>, i: nat)
    requires i < |es|
    ensures HasType(es[..i + 1], "html") <==> HasType(es[..i], "html") || es[i].TypeName() == "html"
    ensures HasType(es[..i + 1], "image") <==> HasType(es[..i], "image") || es[i].TypeName() == "image"
    ensures HasType(es[..i + 1], "code") <==> HasType(es[..i], "code") || es[i].TypeName() == "code"
    ensures HasType(es[..i + 1], "codio") <==> HasType(es[..i], "codio") || es[i].TypeName() == "codio"
    ensures es[i].TypeName() == "html" <==> es[i].BlockHtml?
    ensures LastStyle(es[..i + 1]) == if es[i].BlockHtml? then StyleOf(es[i]) else LastStyle(es[..i])
  {
    var init, e := es[..i], es[i];
    assert es[..i + 1] == init + [e];
    assert (init + [e])[..i] == init;
    HasTypeSnoc(init, e, "html");
    HasTypeSnoc(init, e, "image");
    HasTypeSnoc(init, e, "code");
    HasTypeSnoc(init, e, "codio");
  }

  /** The loop of Slide.__init__: one pass over the elements setting the
      flags and taking the style of each html element met. */
  method ScanElements(elements: seq<Element>)
    returns (hasStyle: bool, hasImage: bool, hasCode: bool, hasCodio: bool, style: map<string, string>)
    ensures hasStyle == HasType(elements, "html")
    ensures hasImage == HasType(elements, "image")
    ensures hasCode == HasType(elements, "code")
    ensures hasCodio == HasType(elements, "codio")
    ensures style == LastStyle(elements)
  {
    hasStyle, hasImage, hasCode, hasCodio := false, false, false, false;
    style := map[];
    for i := 0 to |elements|
      invariant hasStyle == HasType(elements[..i], "html")
      invariant hasImage == HasType(elements[..i], "image")
      invariant hasCode == HasType(elements[..i], "code")
      invariant hasCodio == HasType(elements[..i], "codio")
      invariant style == LastStyle(elements[..i])
    {
      var e := elements[i];
      ScanStep(elements, i);
      if e.TypeName() == "html" {
        hasStyle := true;
        style := StyleOf(e);
      }
      if e.TypeName() == "image" {
        hasImage := true;
      }
      if e.TypeName() == "code" {
        hasCode := true;
      }
      if e.TypeName() == "codio" {
        hasCodio := true;
      }
    }
    assert elements[..|elements|] == elements;
  }

  /** Slide.__init__: the scan of the elements, then the checks in order,
      each resolving part of the slide's style state. */
  method NewSlide(elements: seq<Element>, reg: Registry) returns (r: Result<Slide>)
    ensures r == SlideOf(elements, reg)
  {
    var hasStyle, hasImage, hasCode, hasCodio, style := ScanElements(elements);
    var hasEffect := false;
    var effect: Option<string> := None;
    var fgColor, bgColor := DefaultFg, DefaultBg;

    if "effect" in style {
      if style["effect"] !in reg.effects {
        return Err(UnsupportedEffect(style["effect"]));
      }
      hasEffect := true;
      effect := Some(style["effect"]);
    }
    if "fg" in style {
      if style["fg"] !in reg.colors {
        return Err(UnsupportedColor(style["fg"]));
      }
      fgColor := reg.colors[style["fg"]];
    }
    if "bg" in style {
      if style["bg"] !in reg.colors {
        return Err(UnsupportedColor(style["bg"]));
      }
      bgColor := reg.colors[style["bg"]];
    }
    if hasEffect && ("fg" in style || "bg" in style) {
      return Err(EffectWithColor);
    }
    if hasEffect && hasCode {
      return Err(EffectWithCode);
    }
    if hasEffect {
      fgColor, bgColor := EffectFg, EffectBg;
    }
    r := Ok(Slide(elements, hasStyle, hasEffect, hasImage, hasCode, hasCodio, style, effect, fgColor, bgColor));
  }

  /** The style a slide is checked against is that of its last html element:
      empty when there is none, otherwise the style of an html element after
      which no other html element follows. */
  lemma {:induction false} StyleOfLastHtml(es: seq<Element>)
    ensures !HasType(es, "html") ==> LastStyle(es) == map[]
    ensures HasType(es, "html") ==>
              exists i :: 0 <= i < |es| && es[i].BlockHtml? && LastStyle(es) == StyleOf(es[i]) &&
                          forall j :: i < j < |es| ==> !es[j].BlockHtml?
  {
    if es != [] {
      var n := |es| - 1;
      var init := es[..n];
      assert es == init + [es[n]];
      HasTypeSnoc(init, es[n], "html");
      StyleOfLastHtml(init);
      if !es[n].BlockHtml? && HasType(init, "html") {
        var i :| 0 <= i < |init| && init[i].BlockHtml? && LastStyle(init) == StyleOf(init[i]) &&
                 forall j :: i < j < |init| ==> !init[j].BlockHtml?;
        assert es[i] == init[i];
        assert forall j :: i < j < |es| ==> !es[j].BlockHtml? by {
          forall j | i < j < |es| ensures !es[j].BlockHtml? {
            if j < n { assert es[j] == init[j]; }
          }
        }
      }
    }
  }
}
