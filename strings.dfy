/** The handful of Python string operations the slide builder relies on:
    splitlines, join, repetition, counting and left justification. */
module Strings {

  /** The characters Python's str.splitlines treats as line boundaries. */
  predicate IsLineBreak(c: char) {
    c == '\n' || c == '\r' || c as int in {0x0B, 0x0C, 0x1C, 0x1D, 0x1E, 0x85, 0x2028, 0x2029}
  }

  predicate NoLineBreak(s: string) {
    forall i :: 0 <= i < |s| ==> !IsLineBreak(s[i])
  }

  /** Length of the first line of `s`: the characters before the first boundary. */
  function LineLength(s: string): (n: nat)
    ensures n <= |s| && NoLineBreak(s[..n])
    ensures n < |s| ==> IsLineBreak(s[n])
  {
    if s == [] || IsLineBreak(s[0]) then 0
    else
      var n := 1 + LineLength(s[1..]);
      assert s[..n] == [s[0]] + s[1..][..n - 1];
      n
  }

  /** Index at which the second line of `s` starts; "\r\n" is a single boundary. */
  function NextLineStart(s: string): (k: nat)
    ensures LineLength(s) <= k <= |s|
    ensures s != [] ==> 0 < k
  {
    var n := LineLength(s);
    if n == |s| then n
    else if s[n] == '\r' && n + 1 < |s| && s[n + 1] == '\n' then n + 2
    else n + 1
  }

  /** Python's str.splitlines(): the lines between boundaries; a boundary at
      the very end does not open an empty last line, and "" has no lines. */
  function SplitLines(s: string): (lines: seq<string>)
    ensures forall i :: 0 <= i < |lines| ==> NoLineBreak(lines[i])
    ensures s == [] <==> lines == []
    decreases |s|
  {
    if s == [] then [] else [s[..LineLength(s)]] + SplitLines(s[NextLineStart(s)..])
  }

  /** Python's sep.join(rows). */
  function Join(rows: seq<string>, sep: string): string {
    if rows == [] then []
    else if |rows| == 1 then rows[0]
    else rows[0] + sep + Join(rows[1..], sep)
  }

  /** Python's s * n. */
  function Repeat(s: string, n: nat): (r: string)
    ensures |s| == 1 ==> |r| == n
  {
    if n == 0 then [] else s + Repeat(s, n - 1)
  }

  /** Repeating a one-character string gives only that character. */
  lemma {:induction false} RepeatChar(s: string, n: nat)
    requires |s| == 1
    ensures forall i :: 0 <= i < |Repeat(s, n)| ==> Repeat(s, n)[i] == s[0]
  {
    if n > 0 {
      RepeatChar(s, n - 1);
      assert Repeat(s, n) == s + Repeat(s, n - 1);
    }
  }

  /** Python's s.count(c) for a one-character needle. */
  function Count(s: string, c: char): (k: nat)
    ensures k <= |s|
    ensures k == 0 <==> c !in s
  {
    if s == [] then 0
    else
      assert s == [s[0]] + s[1..];
      (if s[0] == c then 1 else 0) + Count(s[1..], c)
  }

  /** Python's s.ljust(width, fill): `s` followed by fill characters up to `width`. */
  function LJust(s: string, width: nat, fill: char): (r: string)
    ensures |r| == if |s| < width then width else |s|
  {
    if |s| < width then s + Repeat([fill], width - |s|) else s
  }

  /** `ljust` keeps the string as a prefix and pads it with the fill character. */
  lemma LJustContents(s: string, width: nat, fill: char)
    ensures forall i :: 0 <= i < |s| ==> LJust(s, width, fill)[i] == s[i]
    ensures forall i :: |s| <= i < |LJust(s, width, fill)| ==> LJust(s, width, fill)[i] == fill
  {
    if |s| < width {
      RepeatChar([fill], width - |s|);
    }
  }

  /** The first line of `r + t` is `r` when `r` holds no boundary and `t` starts with one. */
  lemma {:induction false} LineLengthOfPrefix(r: string, t: string)
    requires NoLineBreak(r)
    requires t == [] || IsLineBreak(t[0])
    ensures LineLength(r + t) == |r|
  {
    if r == [] {
      assert r + t == t;
    } else {
      assert (r + t)[1..] == r[1..] + t;
      LineLengthOfPrefix(r[1..], t);
    }
  }

  /** Splitting rows joined by "\n" gives the rows back, as long as no row holds
      a boundary and the last row is not empty. */
  lemma {:induction false} SplitJoin(rows: seq<string>)
    requires forall i :: 0 <= i < |rows| ==> NoLineBreak(rows[i])
    requires rows != [] ==> rows[|rows| - 1] != []
    ensures SplitLines(Join(rows, "\n")) == rows
  {
    if |rows| == 1 {
      var s := rows[0];
      LineLengthOfPrefix(s, []);
      assert s + [] == s;
      assert SplitLines(s) == [s] + SplitLines([]);
    } else if |rows| > 1 {
      var rest := Join(rows[1..], "\n");
      var s := rows[0] + "\n" + rest;
      assert s == rows[0] + ("\n" + rest);
      LineLengthOfPrefix(rows[0], "\n" + rest);
      assert s[|rows[0]|] == '\n';
      assert s[..|rows[0]|] == rows[0];
      assert s[|rows[0]| + 1..] == rest;
      SplitJoin(rows[1..]);
    }
  }

  /** A line over a rule of dashes as long as the line splits back into the two. */
  lemma UnderlineSplits(text: string)
    requires text != [] && NoLineBreak(text)
    ensures SplitLines(Join([text, Repeat("-", |text|)], "\n")) == [text, Repeat("-", |text|)]
  {
    var rule := Repeat("-", |text|);
    RepeatChar("-", |text|);
    assert NoLineBreak(rule);
    SplitTwo(text, rule);
  }

  /** Two rows without boundaries, the second not empty, split back apart. */
  lemma SplitTwo(a: string, b: string)
    requires NoLineBreak(a) && NoLineBreak(b) && b != []
    ensures SplitLines(Join([a, b], "\n")) == [a, b]
  {
    SplitJoin([a, b]);
  }
}
