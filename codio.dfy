/** The Codio element: a scripted terminal session. From the script it
    derives the box width, the vertical footprint and the ordered list of
    frames an external player animates. */
module Codio {
  import opened Failures
  import opened Strings

  /** One scripted line. Keys missing from the script read as "" for the
      three texts, None for the style keys and the fill character, and false
      for the progress flag. */
  datatype Line = Line(
    prompt: string,
    input: string,
    output: string,
    color: Option<string>,
    bold: Option<bool>,
    underline: Option<bool>,
    progress: bool,
    progressChar: Option<string>)

  /** A loaded codio script: playback speed and the scripted lines. */
  datatype Script = Script(speed: real, lines: seq<Line>)

  /** The style keys of a frame: copied from the line, absent on progress bars. */
  datatype Style = Style(color: Option<string>, bold: Option<bool>, underline: Option<bool>)

  /** One playback frame, the dictionary the source appends to its frame list. */
  datatype Frame = Frame(prompt: string, input: string, output: string, style: Option<Style>)

  function Max(a: nat, b: nat): nat {
    if a < b then b else a
  }

  /** The width one line asks for: a quarter of the terminal for a progress
      line, the prompt length, and the input and output lengths each plus
      their number of spaces. */
  function LineWidth(l: Line, columns: nat): nat {
    var magic := if l.progress then columns / 4 else 0;
    Max(Max(magic, |l.prompt|), Max(|l.input| + Count(l.input, ' '), |l.output| + Count(l.output, ' ')))
  }

  /** The largest width any line asks for, 0 for no lines. */
  function MaxLineWidth(lines: seq<Line>, columns: nat): (m: nat)
    ensures forall i :: 0 <= i < |lines| ==> LineWidth(lines[i], columns) <= m
    ensures lines == [] ==> m == 0
  {
    if lines == [] then 0
    else
      var init := lines[..|lines| - 1];
      assert forall i :: 0 <= i < |init| ==> init[i] == lines[i];
      Max(MaxLineWidth(init, columns), LineWidth(lines[|lines| - 1], columns))
  }

  /** Codio.width: the widest line plus four columns of padding. It is at
      least the padding, at least every line's own width plus the padding
      (a quarter of the terminal for a progress line), and exactly that for
      some line when there is one. */
  function Width(lines: seq<Line>, columns: nat): (w: nat)
    ensures w >= 4
    ensures forall i :: 0 <= i < |lines| ==> w >= LineWidth(lines[i], columns) + 4
    ensures forall i :: 0 <= i < |lines| && lines[i].progress ==> w >= columns / 4 + 4
    ensures lines == [] ==> w == 4
  {
    MaxLineWidth(lines, columns) + 4
  }

  /** The width is exactly what some line asks for, plus the padding, when
      there is a line. */
  lemma {:induction false} WidthAttained(lines: seq<Line>, columns: nat)
    requires lines != []
    ensures exists i :: 0 <= i < |lines| && Width(lines, columns) == LineWidth(lines[i], columns) + 4
  {
    var last := |lines| - 1;
    var init := lines[..last];
    if init != [] && MaxLineWidth(init, columns) >= LineWidth(lines[last], columns) {
      WidthAttained(init, columns);
      var i :| 0 <= i < |init| && Width(init, columns) == LineWidth(init[i], columns) + 4;
      assert init[i] == lines[i];
    }
  }

  /** One more line widens the maximum to that line's width if it asks for more. */
  lemma MaxLineWidthStep(lines: seq<Line>, i: nat, columns: nat)
    requires i < |lines|
    ensures MaxLineWidth(lines[..i + 1], columns) == Max(MaxLineWidth(lines[..i], columns), LineWidth(lines[i], columns))
  {
    assert lines[..i + 1][..i] == lines[..i];
  }

  /** Codio.width as the source computes it, one line at a time. */
  method ComputeWidth(script: Script, columns: nat) returns (w: nat)
    ensures w == Width(script.lines, columns)
  {
    var lines := script.lines;
    var width := 0;
    var terminalWidth := columns / 4;
    for i := 0 to |lines|
      invariant width == MaxLineWidth(lines[..i], columns)
    {
      var l := lines[i];
      var magic := if l.progress then terminalWidth else 0;
      var lineWidth := Max(Max(magic, |l.prompt|),
                           Max(|l.input| + Count(l.input, ' '), |l.output| + Count(l.output, ' ')));
      assert lineWidth == LineWidth(l, columns);
      MaxLineWidthStep(lines, i, columns);
      width := Max(width, lineWidth);
    }
    assert lines[..|lines|] == lines;
    w := width + 4;
  }

  /** A line that shows both an input and an output: it needs a second row. */
  predicate Paired(l: Line) {
    l.input != "" && l.output != ""
  }

  /** The number of paired lines. */
  function PairedCount(lines: seq<Line>): (n: nat)
    ensures n <= |lines|
  {
    if lines == [] then 0
    else PairedCount(lines[..|lines| - 1]) + (if Paired(lines[|lines| - 1]) then 1 else 0)
  }

  /** Codio.size: one row per line, one more per paired line, and two. */
  function Size(lines: seq<Line>): nat {
    |lines| + PairedCount(lines) + 2
  }

  /** Codio.size as the source computes it, one line at a time. */
  method CountRows(script: Script) returns (n: nat)
    ensures n == Size(script.lines)
  {
    var lines := script.lines;
    n := |lines|;
    for i := 0 to |lines|
      invariant n == |lines| + PairedCount(lines[..i])
    {
      if lines[i].input != "" && lines[i].output != "" {
        n := n + 1;
      }
      assert lines[..i + 1][..i] == lines[..i];
    }
    assert lines[..|lines|] == lines;
    n := n + 2;
  }

  /** The indices of the paired lines. */
  function PairedIndices(lines: seq<Line>): set<nat> {
    set i: nat | i < |lines| && Paired(lines[i])
  }

  /** The footprint is the number of lines plus two plus the number of
      distinct lines that carry both an input and an output. */
  lemma {:induction false} SizeCountsPairedLines(lines: seq<Line>)
    ensures Size(lines) == |lines| + |PairedIndices(lines)| + 2
    ensures |lines| + 2 <= Size(lines) <= 2 * |lines| + 2
  {
    if lines != [] {
      var init := lines[..|lines| - 1];
      SizeCountsPairedLines(init);
      var last := |lines| - 1;
      assert forall i :: 0 <= i < last ==> init[i] == lines[i];
      if Paired(lines[last]) {
        assert PairedIndices(lines) == PairedIndices(init) + {last};
      } else {
        assert PairedIndices(lines) == PairedIndices(init);
      }
    }
  }

  /** int(0.6 * width), the length of a progress bar, on integers. */
  function BarLength(width: nat): nat {
    (3 * width) / 5
  }

  /** The fill character of a progress line, "█" when the script gives none. */
  function BarChar(l: Line): string {
    if l.progressChar.Some? then l.progressChar.value else "█"
  }

  /** The frame one line contributes to the playback, if any. */
  function FrameOf(l: Line, width: nat): Option<Frame> {
    if l.progress then
      Some(Frame("", Repeat(BarChar(l), BarLength(width)), "", None))
    else if l.prompt == "" && l.input == "" && l.output == "" then
      None
    else if l.prompt != "" && l.input == "" && l.output == "" then
      // a prompt-only line is shown all at once, as output
      Some(Frame("", "", l.prompt, Some(Style(l.color, l.bold, l.underline))))
    else
      Some(Frame(l.prompt, l.input, l.output, Some(Style(l.color, l.bold, l.underline))))
  }

  /** A line yields no frame exactly when it is not a progress line and has
      no text; a progress line yields an unstyled bar of the fill character;
      a line with a prompt alone shows the prompt as output; any other line
      yields its own prompt, input and output with its style copied. */
  lemma FrameOfLine(l: Line, width: nat)
    ensures FrameOf(l, width).None? <==> !l.progress && l.prompt + l.input + l.output == ""
    ensures l.progress ==>
              var f := FrameOf(l, width).value;
              f.style.None? && f.prompt == f.output == "" && f.input == Repeat(BarChar(l), BarLength(width))
    ensures !l.progress && FrameOf(l, width).Some? ==>
              var f := FrameOf(l, width).value;
              f.prompt + f.input + f.output == l.prompt + l.input + l.output &&
              f.input == l.input &&
              f.style == Some(Style(l.color, l.bold, l.underline))
    ensures !l.progress && l.prompt != "" && l.input == "" && l.output == "" ==>
              FrameOf(l, width) == Some(Frame("", "", l.prompt, Some(Style(l.color, l.bold, l.underline))))
    ensures !l.progress && (l.input != "" || l.output != "") ==>
              FrameOf(l, width) == Some(Frame(l.prompt, l.input, l.output, Some(Style(l.color, l.bold, l.underline))))
  {
    if !l.progress && l.prompt + l.input + l.output == "" {
      assert |l.prompt + l.input + l.output| == 0;
    }
  }

  /** The frames of `lines`, line after line. */
  function Frames(lines: seq<Line>, width: nat): seq<Frame> {
    if lines == [] then []
    else
      var f := FrameOf(lines[|lines| - 1], width);
      Frames(lines[..|lines| - 1], width) + (if f.Some? then [f.value] else [])
  }

  /** Codio.render: the frames for the width the script asks for. */
  function Render(lines: seq<Line>, columns: nat): seq<Frame> {
    Frames(lines, Width(lines, columns))
  }

  /** One more line adds its frame, if it has one, after the frames before it. */
  lemma FramesStep(lines: seq<Line>, i: nat, width: nat)
    requires i < |lines|
    ensures Frames(lines[..i + 1], width) ==
              Frames(lines[..i], width) + (if FrameOf(lines[i], width).Some? then [FrameOf(lines[i], width).value] else [])
  {
    assert lines[..i + 1][..i] == lines[..i];
  }

  /** Codio.render as the source computes it: width first, then one decision
      per line, appending to the frame list. */
  method RenderFrames(script: Script, columns: nat) returns (code: seq<Frame>)
    ensures code == Render(script.lines, columns)
  {
    var lines := script.lines;
    code := [];
    var width := ComputeWidth(script, columns);
    for i := 0 to |lines|
      invariant code == Frames(lines[..i], width)
    {
      FramesStep(lines, i, width);
      var line := lines[i];
      var c: Frame;
      if line.progress {
        var progressChar := if line.progressChar.Some? then line.progressChar.value else "█";
        c := Frame("", Repeat(progressChar, BarLength(width)), "", None);
      } else {
        var prompt, inp, out := line.prompt, line.input, line.output;
        if !(prompt != "" || inp != "" || out != "") {
          continue;
        }
        if prompt != "" && inp == "" && out == "" {
          out := prompt;
          prompt := "";
        }
        c := Frame(prompt, inp, out, Some(Style(line.color, line.bold, line.underline)));
      }
      code := code + [c];
    }
    assert lines[..|lines|] == lines;
  }

  /** `idx` is strictly increasing. */
  predicate Increasing(idx: seq<nat>) {
    forall j, k :: 0 <= j < k < |idx| ==> idx[j] < idx[k]
  }

  /** The indices of the lines that yield a frame, in order. */
  function FrameLines(lines: seq<Line>, width: nat): seq<nat> {
    if lines == [] then []
    else
      var last := |lines| - 1;
      FrameLines(lines[..last], width) + (if FrameOf(lines[last], width).Some? then [last] else [])
  }

  /** There is one frame per line that yields one, so never more frames
      than lines, and those lines are listed in increasing order. */
  lemma {:induction false} FrameLinesOrdered(lines: seq<Line>, width: nat)
    ensures |FrameLines(lines, width)| == |Frames(lines, width)| <= |lines|
    ensures forall k :: 0 <= k < |FrameLines(lines, width)| ==> FrameLines(lines, width)[k] < |lines|
    ensures Increasing(FrameLines(lines, width))
  {
    if lines != [] {
      var last := |lines| - 1;
      FrameLinesOrdered(lines[..last], width);
    }
  }

  /** Frame `k` is the frame of line FrameLines[k]: the frames follow the lines. */
  lemma {:induction false} FramesFollowLines(lines: seq<Line>, width: nat)
    ensures forall k :: 0 <= k < |FrameLines(lines, width)| ==>
              FrameLines(lines, width)[k] < |lines| && k < |Frames(lines, width)| &&
              FrameOf(lines[FrameLines(lines, width)[k]], width) == Some(Frames(lines, width)[k])
  {
    if lines != [] {
      var last := |lines| - 1;
      var init := lines[..last];
      FrameLinesOrdered(init, width);
      FramesFollowLines(init, width);
      var idx, before := FrameLines(init, width), Frames(init, width);
      forall k | 0 <= k < |idx| ensures FrameOf(lines[idx[k]], width) == Some(before[k]) {
        assert lines[idx[k]] == init[idx[k]];
      }
    }
  }

  /** Every line that yields a frame is listed. */
  lemma {:induction false} FrameLinesComplete(lines: seq<Line>, width: nat)
    ensures forall i :: 0 <= i < |lines| && FrameOf(lines[i], width).Some? ==> i in FrameLines(lines, width)
  {
    if lines != [] {
      var last := |lines| - 1;
      var init := lines[..last];
      FrameLinesComplete(init, width);
      forall i | 0 <= i < last && FrameOf(lines[i], width).Some? ensures i in FrameLines(lines, width) {
        assert init[i] == lines[i];
      }
    }
  }

  /** Every frame of `lines` for a width that covers each line's own width
      plus the padding fits inside that width: progress bars are at most the
      width long when the fill is one character, and the prompt, input and
      output of any other frame are at most the width minus the padding. */
  lemma {:induction false} FramesFit(lines: seq<Line>, columns: nat, width: nat)
    requires forall i :: 0 <= i < |lines| ==> LineWidth(lines[i], columns) + 4 <= width
    ensures forall f :: f in Frames(lines, width) && f.style.Some? ==>
              |f.prompt| + 4 <= width && |f.input| + 4 <= width && |f.output| + 4 <= width
    ensures forall k :: 0 <= k < |lines| && lines[k].progress && |BarChar(lines[k])| == 1 ==>
              |FrameOf(lines[k], width).value.input| <= width
  {
    if lines != [] {
      var last := |lines| - 1;
      var init := lines[..last];
      assert forall i :: 0 <= i < last ==> init[i] == lines[i];
      FramesFit(init, columns, width);
      var l := lines[last];
      assert |l.prompt| + 4 <= width && |l.input| + 4 <= width && |l.output| + 4 <= width;
    }
  }

  /** All frames of a rendered script fit the width the script asks for. */
  lemma RenderedFramesFit(lines: seq<Line>, columns: nat)
    ensures forall f :: f in Render(lines, columns) && f.style.Some? ==>
              |f.prompt| + 4 <= Width(lines, columns) &&
              |f.input| + 4 <= Width(lines, columns) &&
              |f.output| + 4 <= Width(lines, columns)
  {
    FramesFit(lines, columns, Width(lines, columns));
  }
}
