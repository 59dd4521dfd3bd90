/** The BlockCode element: code text padded into a box one blank column and
    one blank row wider on every side. */
module CodeBlock {
  import opened Failures
  import opened Strings

  /** Python's max(len(l) for l in lines); only defined for at least one line. */
  function MaxLength(lines: seq<string>): (m: nat)
    requires lines != []
    ensures forall i :: 0 <= i < |lines| ==> |lines[i]| <= m
    ensures exists i :: 0 <= i < |lines| && |lines[i]| == m
  {
    if |lines| == 1 then |lines[0]|
    else
      var rest := MaxLength(lines[1..]);
      if |lines[0]| > rest then |lines[0]| else rest
  }

  /** A content row of the box: a space, then `line` justified with `fill`
      to one more than `longest`. */
  function Row(line: string, longest: nat, fill: char): string {
    " " + LJust(line, longest + 1, fill)
  }

  /** The content rows of `lines`, one per line, in order. */
  function Rows(lines: seq<string>, longest: nat, fill: char): (rows: seq<string>)
    ensures |rows| == |lines|
  {
    if lines == [] then [] else [Row(lines[0], longest, fill)] + Rows(lines[1..], longest, fill)
  }

  /** Row `i` is the content row of line `i`: the rows keep the lines' order. */
  lemma {:induction false} RowsAt(lines: seq<string>, longest: nat, fill: char, i: nat)
    requires i < |lines|
    ensures Rows(lines, longest, fill)[i] == Row(lines[i], longest, fill)
  {
    if i > 0 {
      RowsAt(lines[1..], longest, fill, i - 1);
    }
  }

  /** Any sequence holding the content row of each line, in order, is Rows. */
  lemma RowsAre(lines: seq<string>, longest: nat, fill: char, rows: seq<string>)
    requires |rows| == |lines|
    requires forall i :: 0 <= i < |lines| ==> rows[i] == Row(lines[i], longest, fill)
    ensures rows == Rows(lines, longest, fill)
  {
    forall i | 0 <= i < |lines| ensures Rows(lines, longest, fill)[i] == rows[i] {
      RowsAt(lines, longest, fill, i);
    }
  }

  /** The rows of the box around `lines`: a border, the lines justified to
      one more than the longest and each put after a space, and a border. */
  function Box(lines: seq<string>, fill: char): (rows: seq<string>)
    requires lines != []
    ensures |rows| == |lines| + 2
  {
    [Border(lines)] + Rows(lines, MaxLength(lines), fill) + [Border(lines)]
  }

  /** The top and bottom rows: spaces two wider than the longest line. */
  function Border(lines: seq<string>): string
    requires lines != []
  {
    Repeat(" ", MaxLength(lines) + 2)
  }

  /** The box has one row per source line plus two borders of spaces two
      wider than the longest line. */
  lemma BoxBorders(lines: seq<string>, fill: char)
    requires lines != []
    ensures |Box(lines, fill)| == |lines| + 2
    ensures Box(lines, fill)[0] == Box(lines, fill)[|lines| + 1] == Border(lines)
    ensures |Border(lines)| == MaxLength(lines) + 2
    ensures forall c :: 0 <= c < |Border(lines)| ==> Border(lines)[c] == ' '
  {
    RepeatChar(" ", MaxLength(lines) + 2);
  }

  /** Content row i + 1 of the box is the row of line i. */
  lemma BoxRow(lines: seq<string>, fill: char, i: nat)
    requires i < |lines|
    ensures Box(lines, fill)[i + 1] == Row(lines[i], MaxLength(lines), fill)
  {
    RowsAt(lines, MaxLength(lines), fill, i);
  }

  /** Every row of the box is two wider than the longest line. */
  lemma BoxWidths(lines: seq<string>, fill: char)
    requires lines != []
    ensures forall k :: 0 <= k < |Box(lines, fill)| ==> |Box(lines, fill)[k]| == MaxLength(lines) + 2
  {
    var m := MaxLength(lines);
    BoxBorders(lines, fill);
    forall k | 1 <= k <= |lines| ensures |Box(lines, fill)[k]| == m + 2 {
      BoxRow(lines, fill, k - 1);
      assert |lines[k - 1]| <= m;
    }
  }

  /** What BlockCode.pad returns for `s`: the box rows joined with newlines,
      or an error when `s` has no lines (max() over an empty sequence). */
  function Padded(s: string, fill: char): Result<string> {
    var lines := SplitLines(s);
    if lines == [] then Err(EmptyCodeBlock) else Ok(Join(Box(lines, fill), "\n"))
  }

  /** BlockCode.pad: justifies every line, prefixes it with a space, inserts the
      top border, appends the bottom border and joins the rows. */
  method Pad(s: string, fill: char) returns (r: Result<string>)
    ensures r == Padded(s, fill)
  {
    var lines := SplitLines(s);
    if lines == [] {
      return Err(EmptyCodeBlock);
    }
    var maxLen := MaxLength(lines);
    var top := Border(lines);
    var bottom := top;

    var justified := seq(|lines|, i requires 0 <= i < |lines| => LJust(lines[i], maxLen + 1, fill));
    var rows := seq(|justified|, i requires 0 <= i < |justified| => " " + justified[i]);
    forall i | 0 <= i < |lines| ensures rows[i] == Row(lines[i], maxLen, fill) {
      assert justified[i] == LJust(lines[i], maxLen + 1, fill);
    }
    RowsAre(lines, maxLen, fill, rows);
    rows := [top] + rows;      // lines.insert(0, top)
    rows := rows + [bottom];   // lines.append(bottom)

    r := Ok(Join(rows, "\n"));
  }

  /** BlockCode.size: the number of source lines; the two border rows are left out. */
  function Size(text: string): nat {
    |SplitLines(text)|
  }

  /** BlockCode.render: the box with a space as fill. */
  function Render(text: string): Result<string> {
    Padded(text, ' ')
  }

  /** A content row of plain text justified with spaces holds no line boundary. */
  lemma PaddedRowIsPlain(line: string, longest: nat)
    requires NoLineBreak(line)
    ensures NoLineBreak(Row(line, longest, ' '))
  {
    var j := LJust(line, longest + 1, ' ');
    LJustContents(line, longest + 1, ' ');
    var row := Row(line, longest, ' ');
    forall c | 0 <= c < |row| ensures !IsLineBreak(row[c]) {
      if 1 <= c <= |line| {
        assert row[c] == j[c - 1];
      }
    }
  }

  /** No row of a space-filled box around plain lines holds a line boundary. */
  lemma BoxIsPlain(lines: seq<string>)
    requires lines != []
    requires forall i :: 0 <= i < |lines| ==> NoLineBreak(lines[i])
    ensures forall k :: 0 <= k < |Box(lines, ' ')| ==> NoLineBreak(Box(lines, ' ')[k])
  {
    var rows := Box(lines, ' ');
    BoxBorders(lines, ' ');
    assert NoLineBreak(Border(lines));
    forall k | 0 <= k < |rows| ensures NoLineBreak(rows[k]) {
      if 1 <= k <= |lines| {
        BoxRow(lines, ' ', k - 1);
        PaddedRowIsPlain(lines[k - 1], MaxLength(lines));
      }
    }
  }

  /** Rendering fails exactly when the code has no lines; otherwise the
      rendered text splits back into the box rows, which are two more than
      the size: the size leaves the borders out. */
  lemma RenderedRows(text: string)
    ensures Render(text).Ok? <==> Size(text) > 0
    ensures Render(text).Ok? ==>
              SplitLines(Render(text).value) == Box(SplitLines(text), ' ') &&
              |SplitLines(Render(text).value)| == Size(text) + 2
  {
    var lines := SplitLines(text);
    if lines != [] {
      BoxIsPlain(lines);
      SplitJoin(Box(lines, ' '));
    }
  }
}
