/** The List element: a depth-first walk over a list node's nested children
    that turns every child carrying text into one indented bullet line. */
module BulletList {
  import opened Failures
  import opened Strings

  /** A node of the list's AST fragment: optional leaf text and ordered children. */
  datatype Node = Node(text: Option<string>, children: seq<Node>)

  /** The line emitted for an item with text `text` found at nesting depth `depth`. */
  function Bullet(text: string, depth: nat): string {
    Repeat(" ", 2 * depth) + "• " + text
  }

  /** The lines the walk emits for the children `cs` of a node visited at depth
      `depth`: each child's own bullet (if it carries text), then the lines of
      its children one level deeper, child after child. */
  function Lines(cs: seq<Node>, depth: nat): seq<string>
    decreases cs
  {
    if cs == [] then [] else ItemLines(cs[0], depth) + Lines(cs[1..], depth)
  }

  function ItemLines(n: Node, depth: nat): seq<string>
    decreases n
  {
    (if n.text.Some? then [Bullet(n.text.value, depth)] else []) + Lines(n.children, depth + 1)
  }

  /** The walk over a concatenation of sibling lists is the concatenation of the walks. */
  lemma {:induction false} LinesAppend(a: seq<Node>, b: seq<Node>, depth: nat)
    ensures Lines(a + b, depth) == Lines(a, depth) + Lines(b, depth)
  {
    if a == [] {
      assert a + b == b;
    } else {
      assert (a + b)[0] == a[0];
      assert (a + b)[1..] == a[1..] + b;
      LinesAppend(a[1..], b, depth);
    }
  }

  /** The walk over the first k + 1 siblings is the walk over the first k
      followed by the lines of sibling k. */
  lemma LinesSnoc(cs: seq<Node>, k: nat, depth: nat)
    requires k < |cs|
    ensures Lines(cs[..k + 1], depth) == Lines(cs[..k], depth) + ItemLines(cs[k], depth)
  {
    assert cs[..k + 1] == cs[..k] + [cs[k]];
    LinesAppend(cs[..k], [cs[k]], depth);
    assert Lines([cs[k]], depth) == ItemLines(cs[k], depth) + Lines([], depth);
  }

  /** List.walk: appends to the accumulator `text` one bullet per text-carrying
      descendant of `obj`, in pre-order, and returns the accumulator. The
      source threads one shared Python list through the recursion; here the
      list is passed in and handed back. */
  method Walk(obj: Node, text: seq<string>, level: nat) returns (out: seq<string>)
    ensures out == text + Lines(obj.children, level)
    decreases obj
  {
    out := text;
    var k := 0;
    while k < |obj.children|
      invariant 0 <= k <= |obj.children|
      invariant out == text + Lines(obj.children[..k], level)
    {
      var child := obj.children[k];
      ghost var before := Lines(obj.children[..k], level);
      var own: seq<string> := [];
      if child.text.Some? {
        own := [Bullet(child.text.value, level)];
        out := out + own;
      }
      assert out == text + before + own;
      // the source guards this call with `"children" in obj`, which always
      // holds inside the loop over obj's children
      out := Walk(child, out, level + 1);
      LinesSnoc(obj.children, k, level);
      assert out == text + (before + (own + Lines(child.children, level + 1)));
      k := k + 1;
    }
    assert obj.children[..k] == obj.children;
  }

  /** List.size: the number of lines of the walk from depth 0. */
  function Size(root: Node): nat {
    |Lines(root.children, 0)|
  }

  /** List.render: the lines of the walk joined with newlines. */
  function Render(root: Node): string {
    Join(Lines(root.children, 0), "\n")
  }

  /** Nesting a list one level deeper indents every one of its lines by two
      more spaces and changes nothing else. */
  lemma {:induction false} DeeperIndents(cs: seq<Node>, depth: nat)
    ensures |Lines(cs, depth + 1)| == |Lines(cs, depth)|
    ensures forall i :: 0 <= i < |Lines(cs, depth)| ==>
              Lines(cs, depth + 1)[i] == "  " + Lines(cs, depth)[i]
    decreases cs
  {
    if cs != [] {
      ItemDeeperIndents(cs[0], depth);
      DeeperIndents(cs[1..], depth);
    }
  }

  lemma {:induction false} ItemDeeperIndents(n: Node, depth: nat)
    ensures |ItemLines(n, depth + 1)| == |ItemLines(n, depth)|
    ensures forall i :: 0 <= i < |ItemLines(n, depth)| ==>
              ItemLines(n, depth + 1)[i] == "  " + ItemLines(n, depth)[i]
    decreases n
  {
    DeeperIndents(n.children, depth + 1);
    if n.text.Some? {
      assert Repeat(" ", 2 * (depth + 1)) == "  " + Repeat(" ", 2 * depth);
    }
  }

  /** `line` is a bullet at nesting depth `depth` or deeper. */
  ghost predicate BulletFrom(line: string, depth: nat) {
    exists d: nat, t: string :: d >= depth && line == Bullet(t, d)
  }

  /** Every line of the walk is a bullet "• " + text indented by two spaces
      per level, at a depth no smaller than the depth the walk started at. */
  lemma {:induction false} LinesAreBullets(cs: seq<Node>, depth: nat)
    ensures forall i :: 0 <= i < |Lines(cs, depth)| ==>
              BulletFrom(Lines(cs, depth)[i], depth)
    decreases cs
  {
    if cs != [] {
      ItemLinesAreBullets(cs[0], depth);
      LinesAreBullets(cs[1..], depth);
      var a, b := ItemLines(cs[0], depth), Lines(cs[1..], depth);
      var ls := Lines(cs, depth);
      assert ls == a + b;
      forall i | 0 <= i < |ls|
        ensures BulletFrom(ls[i], depth)
      {
        if i < |a| {
          var d: nat, t: string :| d >= depth && a[i] == Bullet(t, d);
          assert ls[i] == Bullet(t, d);
        } else {
          var d: nat, t: string :| d >= depth && b[i - |a|] == Bullet(t, d);
          assert ls[i] == Bullet(t, d);
        }
      }
    } else {
      assert Lines(cs, depth) == [];
    }
  }

  lemma {:induction false} ItemLinesAreBullets(n: Node, depth: nat)
    ensures forall i :: 0 <= i < |ItemLines(n, depth)| ==>
              BulletFrom(ItemLines(n, depth)[i], depth)
    decreases n
  {
    LinesAreBullets(n.children, depth + 1);
    var a: seq<string> := if n.text.Some? then [Bullet(n.text.value, depth)] else [];
    var b := Lines(n.children, depth + 1);
    assert ItemLines(n, depth) == a + b;
    forall i | 0 <= i < |a + b|
      ensures BulletFrom((a + b)[i], depth)
    {
      if i < |a| {
        assert (a + b)[i] == Bullet(n.text.value, depth);
        assert BulletFrom((a + b)[i], depth) by { assert depth >= depth; }
      } else {
        assert (a + b)[i] == b[i - |a|];
        assert BulletFrom(b[i - |a|], depth + 1);
        var d: nat, t: string :| d >= depth + 1 && b[i - |a|] == Bullet(t, d);
      }
    }
  }

  /** A flat list whose items all carry text and have no children renders one
      top-level bullet per item, in order. */
  lemma {:induction false} FlatListLines(cs: seq<Node>)
    requires forall i :: 0 <= i < |cs| ==> cs[i].text.Some? && cs[i].children == []
    ensures Lines(cs, 0) == seq(|cs|, i requires 0 <= i < |cs| => "• " + cs[i].text.value)
  {
    if cs != [] {
      FlatListLines(cs[1..]);
      assert Repeat(" ", 0) == "";
      assert Bullet(cs[0].text.value, 0) == "• " + cs[0].text.value;
      assert Lines(cs[0].children, 1) == [];
      assert ItemLines(cs[0], 0) == ["• " + cs[0].text.value];
    }
  }

  /** Items whose texts hold no line boundary. */
  predicate PlainTexts(cs: seq<Node>)
    decreases cs
  {
    forall i :: 0 <= i < |cs| ==> PlainItem(cs[i])
  }

  predicate PlainItem(n: Node)
    decreases n
  {
    (n.text.Some? ==> NoLineBreak(n.text.value)) && PlainTexts(n.children)
  }

  /** Every line of the walk of plain items holds no line boundary. */
  lemma {:induction false} LinesArePlain(cs: seq<Node>, depth: nat)
    requires PlainTexts(cs)
    ensures forall i :: 0 <= i < |Lines(cs, depth)| ==> NoLineBreak(Lines(cs, depth)[i])
    decreases cs
  {
    if cs != [] {
      var n := cs[0];
      LinesArePlain(n.children, depth + 1);
      if n.text.Some? {
        var b := Bullet(n.text.value, depth);
        assert b == Repeat(" ", 2 * depth) + ("• " + n.text.value);
        RepeatChar(" ", 2 * depth);
        forall i | 0 <= i < |b| ensures !IsLineBreak(b[i]) {
          if i >= 2 * depth + 2 { assert b[i] == n.text.value[i - 2 * depth - 2]; }
        }
      }
      LinesArePlain(cs[1..], depth);
      var a, c := ItemLines(n, depth), Lines(cs[1..], depth);
      assert Lines(cs, depth) == a + c;
      forall i | 0 <= i < |a + c| ensures NoLineBreak((a + c)[i]) {
        if i < |a| {
          if n.text.Some? && i == 0 {
            assert a[0] == Bullet(n.text.value, depth);
          } else {
            var o := if n.text.Some? then 1 else 0;
            assert a[i] == Lines(n.children, depth + 1)[i - o];
          }
        } else {
          assert (a + c)[i] == c[i - |a|];
        }
      }
    }
  }

  /** When no item text holds a line boundary, size is the number of lines of
      the rendered list. */
  lemma SizeIsRenderedLines(root: Node)
    requires PlainTexts(root.children)
    ensures |SplitLines(Render(root))| == Size(root)
  {
    var ls := Lines(root.children, 0);
    LinesArePlain(root.children, 0);
    LinesAreBullets(root.children, 0);
    if ls != [] {
      var d: nat, t: string :| ls[|ls| - 1] == Bullet(t, d);
      assert |Bullet(t, d)| >= 2;
    }
    SplitJoin(ls);
  }
}
