/** BlockHtml.style: the `key=value` pairs of a raw html block, found the way
    re.findall(r"((\w+)=(\w+))", text) finds them, collected into a map in
    which a later pair overrides an earlier one with the same key. */
module HtmlStyle {

  /** The regex class \w, restricted to ASCII letters, digits and underscore. */
  predicate IsWordChar(c: char) {
    'a' <= c <= 'z' || 'A' <= c <= 'Z' || '0' <= c <= '9' || c == '_'
  }

  /** A non-empty run of word characters: what \w+ matches. */
  predicate IsWord(s: string) {
    s != [] && forall i :: 0 <= i < |s| ==> IsWordChar(s[i])
  }

  /** Length of the run of word characters at the start of `s`: the greedy \w+. */
  function WordRun(s: string): (n: nat)
    ensures n <= |s|
    ensures forall i :: 0 <= i < n ==> IsWordChar(s[i])
    ensures n < |s| ==> !IsWordChar(s[n])
  {
    if s == [] || !IsWordChar(s[0]) then 0 else 1 + WordRun(s[1..])
  }

  /** The (key, value) groups of every match of \w+=\w+ in `s`, scanning left
      to right and resuming after each match, as re.findall does. */
  function Pairs(s: string): seq<(string, string)>
    decreases |s|
  {
    if s == [] then []
    else
      var k := WordRun(s);
      if 0 < k < |s| && s[k] == '=' && WordRun(s[k + 1..]) > 0 then
        var v := WordRun(s[k + 1..]);
        [(s[..k], s[k + 1..k + 1 + v])] + Pairs(s[k + 1 + v..])
      else
        Pairs(s[1..])
  }

  /** The dict comprehension {key: value for each pair}: later pairs win. */
  function StyleMap(pairs: seq<(string, string)>): map<string, string> {
    if pairs == [] then map[]
    else
      var last := pairs[|pairs| - 1];
      StyleMap(pairs[..|pairs| - 1])[last.0 := last.1]
  }

  /** BlockHtml.style. */
  function Style(text: string): map<string, string> {
    StyleMap(Pairs(text))
  }

  /** `t` occurs in `s` starting at index `i`. */
  ghost predicate OccursAt(t: string, s: string, i: int) {
    0 <= i && i + |t| <= |s| && s[i..i + |t|] == t
  }

  /** `t` occurs in `s` as a contiguous piece. */
  ghost predicate Occurs(t: string, s: string) {
    exists i :: OccursAt(t, s, i)
  }

  /** What occurs in a suffix of `s` occurs in `s`. */
  lemma OccursInSuffix(t: string, s: string, skip: nat)
    requires skip <= |s| && Occurs(t, s[skip..])
    ensures Occurs(t, s)
  {
    var i :| OccursAt(t, s[skip..], i);
    assert s[skip + i..skip + i + |t|] == s[skip..][i..i + |t|];
    assert OccursAt(t, s, skip + i);
  }

  /** A non-empty run of word characters at the start of `s` is a word. */
  lemma RunIsWord(s: string, n: nat)
    requires 0 < n <= |s| && forall i :: 0 <= i < n ==> IsWordChar(s[i])
    ensures IsWord(s[..n])
  {
    forall i | 0 <= i < n ensures IsWordChar(s[..n][i]) {
      assert s[..n][i] == s[i];
    }
  }

  /** The text "key=value" of a match of length k + 1 + v at the start of `s`. */
  lemma MatchTextAtStart(s: string, k: nat, v: nat)
    requires k + 1 + v <= |s| && s[k] == '='
    ensures OccursAt(s[..k] + "=" + s[k + 1..k + 1 + v], s, 0)
  {
    assert s[0..k + 1 + v] == s[..k] + "=" + s[k + 1..k + 1 + v];
  }

  /** When `s` starts with a match, its key and value are words and the match
      text starts `s`. */
  lemma MatchAtStart(s: string, k: nat, v: nat)
    requires 0 < k < |s| && s[k] == '=' && k == WordRun(s) && v == WordRun(s[k + 1..]) > 0
    ensures IsWord(s[..k]) && IsWord(s[k + 1..k + 1 + v])
    ensures OccursAt(s[..k] + "=" + s[k + 1..k + 1 + v], s, 0)
  {
    RunIsWord(s, k);
    RunIsWord(s[k + 1..], v);
    assert s[k + 1..][..v] == s[k + 1..k + 1 + v];
    MatchTextAtStart(s, k, v);
  }

  /** Every pair found in `s` is a key and a value made of word characters,
      and the text "key=value" occurs in `s`. */
  lemma {:induction false} PairsOccur(s: string)
    ensures forall p :: p in Pairs(s) ==> IsWord(p.0) && IsWord(p.1) && Occurs(p.0 + "=" + p.1, s)
    decreases |s|
  {
    if s != [] {
      var k := WordRun(s);
      if 0 < k < |s| && s[k] == '=' && WordRun(s[k + 1..]) > 0 {
        var v := WordRun(s[k + 1..]);
        var skip := k + 1 + v;
        MatchAtStart(s, k, v);
        PairsOccur(s[skip..]);
        forall p | p in Pairs(s[skip..]) ensures Occurs(p.0 + "=" + p.1, s) {
          OccursInSuffix(p.0 + "=" + p.1, s, skip);
        }
      } else {
        PairsOccur(s[1..]);
        forall p | p in Pairs(s[1..]) ensures Occurs(p.0 + "=" + p.1, s) {
          OccursInSuffix(p.0 + "=" + p.1, s, 1);
        }
      }
    }
  }

  /** A key is in the style map exactly when some pair has it. */
  ghost predicate HasKey(pairs: seq<(string, string)>, key: string) {
    exists i :: 0 <= i < |pairs| && pairs[i].0 == key
  }

  /** Pair `i` is the last pair with key `key`. */
  ghost predicate LastWithKey(pairs: seq<(string, string)>, i: int, key: string) {
    0 <= i < |pairs| && pairs[i].0 == key &&
    forall j :: i < j < |pairs| ==> pairs[j].0 != key
  }

  /** The style map holds exactly the keys of the pairs, each with the value
      of the last pair that has that key. */
  lemma {:induction false} LaterKeyWins(pairs: seq<(string, string)>)
    ensures forall key :: key in StyleMap(pairs) <==> HasKey(pairs, key)
    ensures forall key :: key in StyleMap(pairs) ==>
              exists i :: LastWithKey(pairs, i, key) && pairs[i].1 == StyleMap(pairs)[key]
  {
    if pairs != [] {
      var n := |pairs| - 1;
      var init := pairs[..n];
      LaterKeyWins(init);
      var m := StyleMap(pairs);
      var last := pairs[n];
      assert m == StyleMap(init)[last.0 := last.1];
      assert forall i :: 0 <= i < n ==> init[i] == pairs[i];
      forall key ensures key in m <==> HasKey(pairs, key) {
        if key in m && key != pairs[n].0 {
          assert key in StyleMap(init);
          var i :| 0 <= i < |init| && init[i].0 == key;
          assert pairs[i].0 == key;
        }
        if HasKey(pairs, key) && key != pairs[n].0 {
          var i :| 0 <= i < |pairs| && pairs[i].0 == key;
          assert init[i].0 == key;
        }
      }
      forall key | key in m
        ensures exists i :: LastWithKey(pairs, i, key) && pairs[i].1 == m[key]
      {
        if key == pairs[n].0 {
          assert LastWithKey(pairs, n, key);
        } else {
          assert key in StyleMap(init) && m[key] == StyleMap(init)[key];
          var i :| LastWithKey(init, i, key) && init[i].1 == StyleMap(init)[key];
          assert LastWithKey(pairs, i, key);
        }
      }
    }
  }

  /** The text of a style directive written as whitespace-separated
      `key=value` tokens. */
  function Directive(pairs: seq<(string, string)>): string {
    if pairs == [] then ""
    else if |pairs| == 1 then pairs[0].0 + "=" + pairs[0].1
    else pairs[0].0 + "=" + pairs[0].1 + (" " + Directive(pairs[1..]))
  }

  /** The greedy \w+ at the start of `s` is `n` long when the first `n`
      characters are word characters and the next one, if any, is not. */
  lemma {:induction false} WordRunIs(s: string, n: nat)
    requires n <= |s| && forall i :: 0 <= i < n ==> IsWordChar(s[i])
    requires n < |s| ==> !IsWordChar(s[n])
    ensures WordRun(s) == n
  {
    if n > 0 {
      WordRunIs(s[1..], n - 1);
    }
  }

  /** Scanning a pair written as "key=value" followed by `t` (nothing, or a
      non-word character) yields that pair first and then continues with `t`. */
  lemma ScanToken(key: string, val: string, t: string)
    requires IsWord(key) && IsWord(val)
    requires t == [] || !IsWordChar(t[0])
    ensures Pairs(key + "=" + val + t) == [(key, val)] + Pairs(t)
  {
    var s := key + "=" + val + t;
    var k, v := |key|, |val|;
    assert s[k] == '=';
    WordRunIs(s, k);
    var rest := s[k + 1..];
    assert forall j :: 0 <= j < v ==> rest[j] == val[j];
    assert v < |rest| ==> rest[v] == t[0];
    WordRunIs(rest, v);
    assert s[..k] == key;
    assert s[k + 1..k + 1 + v] == val;
    assert s[k + 1 + v..] == t;
  }

  /** Scanning a directive finds its first pair and then the rest of it. */
  lemma DirectiveStep(pairs: seq<(string, string)>)
    requires pairs != [] && IsWord(pairs[0].0) && IsWord(pairs[0].1)
    ensures Pairs(Directive(pairs)) == [pairs[0]] + Pairs(Directive(pairs[1..]))
  {
    if |pairs| == 1 {
      ScanToken(pairs[0].0, pairs[0].1, "");
      assert pairs[0].0 + "=" + pairs[0].1 + "" == Directive(pairs);
    } else {
      var rest := Directive(pairs[1..]);
      ScanToken(pairs[0].0, pairs[0].1, " " + rest);
      assert (" " + rest)[1..] == rest;
    }
  }

  /** Text in which no character is a word character: markup and spaces
      around a directive, such as `<!-- ` and ` -->`. */
  predicate NoWordChar(s: string) {
    forall i :: 0 <= i < |s| ==> !IsWordChar(s[i])
  }

  /** Text without word characters before `t` holds no match: the scan
      finds in `p + t` exactly what it finds in `t`. */
  lemma {:induction false} SkipsNonWords(p: string, t: string)
    requires NoWordChar(p)
    ensures Pairs(p + t) == Pairs(t)
  {
    var s := p + t;
    if p == [] {
      assert s == t;
    } else {
      assert s[0] == p[0] && !IsWordChar(s[0]);
      assert WordRun(s) == 0;
      assert Pairs(s) == Pairs(s[1..]);
      assert s[1..] == p[1..] + t;
      SkipsNonWords(p[1..], t);
    }
  }

  /** The same for text without word characters before `d + q`. */
  lemma SkipsBefore(p: string, d: string, q: string)
    requires NoWordChar(p)
    ensures Pairs(p + d + q) == Pairs(d + q)
  {
    assert p + d + q == p + (d + q);
    SkipsNonWords(p, d + q);
  }

  /** A directive of one pair followed by text without word characters
      scans to that pair. */
  lemma LastPairThen(key: string, val: string, q: string)
    requires IsWord(key) && IsWord(val) && NoWordChar(q)
    ensures Pairs(key + "=" + val + q) == [(key, val)]
  {
    ScanToken(key, val, q);
    SkipsNonWords(q, []);
    assert q + [] == q;
  }

  /** A directive of several pairs followed by `q` is its first pair, a
      space, and the rest of the directive followed by `q`. */
  lemma DirectiveSplit(pairs: seq<(string, string)>, q: string)
    requires |pairs| > 1
    ensures Directive(pairs) + q == pairs[0].0 + "=" + pairs[0].1 + (" " + (Directive(pairs[1..]) + q))
  {
  }

  /** Scanning a directive of several pairs followed by `q` finds the first
      pair and then what the rest of the directive followed by `q` gives. */
  lemma DirectiveThenStep(pairs: seq<(string, string)>, q: string)
    requires |pairs| > 1 && IsWord(pairs[0].0) && IsWord(pairs[0].1)
    requires Pairs(Directive(pairs[1..]) + q) == pairs[1..]
    ensures Pairs(Directive(pairs) + q) == pairs
  {
    var rest := Directive(pairs[1..]) + q;
    DirectiveSplit(pairs, q);
    ScanToken(pairs[0].0, pairs[0].1, " " + rest);
    SkipsNonWords(" ", rest);
    assert [pairs[0]] + pairs[1..] == pairs;
  }

  /** A directive followed by text without word characters scans to the
      directive's pairs. */
  lemma {:induction false} DirectiveThen(pairs: seq<(string, string)>, q: string)
    requires forall i :: 0 <= i < |pairs| ==> IsWord(pairs[i].0) && IsWord(pairs[i].1)
    requires NoWordChar(q)
    ensures Pairs(Directive(pairs) + q) == pairs
  {
    if pairs == [] {
      SkipsNonWords(q, []);
      assert "" + q == q + [];
    } else if |pairs| == 1 {
      LastPairThen(pairs[0].0, pairs[0].1, q);
    } else {
      DirectiveThen(pairs[1..], q);
      DirectiveThenStep(pairs, q);
    }
  }

  /** A directive written inside markup without word characters, such as an
      html comment `<!-- fg=red bg=black -->`, gives the directive's pairs,
      so its style is their map. */
  lemma DirectiveInMarkup(p: string, pairs: seq<(string, string)>, q: string)
    requires forall i :: 0 <= i < |pairs| ==> IsWord(pairs[i].0) && IsWord(pairs[i].1)
    requires NoWordChar(p) && NoWordChar(q)
    ensures Pairs(p + Directive(pairs) + q) == pairs
    ensures Style(p + Directive(pairs) + q) == StyleMap(pairs)
  {
    DirectiveThen(pairs, q);
    SkipsBefore(p, Directive(pairs), q);
  }

  /** Round trip: scanning a directive written from pairs of words gives the
      pairs back, in order, so its style is the map of those pairs. */
  lemma {:induction false} DirectiveRoundTrip(pairs: seq<(string, string)>)
    requires forall i :: 0 <= i < |pairs| ==> IsWord(pairs[i].0) && IsWord(pairs[i].1)
    ensures Pairs(Directive(pairs)) == pairs
    ensures Style(Directive(pairs)) == StyleMap(pairs)
  {
    if pairs != [] {
      DirectiveStep(pairs);
      DirectiveRoundTrip(pairs[1..]);
      assert [pairs[0]] + pairs[1..] == pairs;
    }
  }
}
