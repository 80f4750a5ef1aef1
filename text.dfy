/** The few string operations of the two standard libraries that the game and its data scripts
    rely on: Rust's `str::split_whitespace` and `str::replace`, Python's `str.split(' ')`,
    `' '.join`, `str.replace` and `str(d)` for a digit. Strings are sequences of Unicode scalar
    values, as Rust's `chars()` and Python's code points see them. */
module Text {
  import opened Wrappers

  /** Rust's `char::is_whitespace`: the characters with the Unicode White_Space property. */
  predicate IsWhitespace(c: char)
  {
    c == ' ' || ('\t' <= c <= '\r') || c == '\U{85}' || c == '\U{A0}' || c == '\U{1680}'
    || ('\U{2000}' <= c <= '\U{200A}') || c == '\U{2028}' || c == '\U{2029}'
    || c == '\U{202F}' || c == '\U{205F}' || c == '\U{3000}'
  }

  predicate NoWhitespace(s: string)
  {
    forall k :: 0 <= k < |s| ==> !IsWhitespace(s[k])
  }

  /** Length of the leading run of non-whitespace characters of `s`. */
  function WordLength(s: string): (n: nat)
    ensures n <= |s|
    ensures NoWhitespace(s[..n])
    ensures n < |s| ==> IsWhitespace(s[n])
  {
    if s == [] || IsWhitespace(s[0]) then 0
    else
      var n := 1 + WordLength(s[1..]);
      assert s[..n] == [s[0]] + s[1..][..n - 1];
      n
  }

  /** Rust's `str::split_whitespace`: the maximal runs of non-whitespace characters, in order. */
  function SplitWhitespace(s: string): (tokens: seq<string>)
    ensures forall i :: 0 <= i < |tokens| ==> tokens[i] != [] && NoWhitespace(tokens[i])
    decreases |s|
  {
    if s == [] then []
    else if IsWhitespace(s[0]) then SplitWhitespace(s[1..])
    else
      var n := WordLength(s);
      [s[..n]] + SplitWhitespace(s[n..])
  }

  /** Python's `str.split(' ')`: split at every single space, keeping empty pieces, so the
      result always has one more piece than `s` has spaces. */
  function SplitOnSpace(s: string): (pieces: seq<string>)
    ensures |pieces| >= 1
    ensures forall i :: 0 <= i < |pieces| ==> ' ' !in pieces[i]
    ensures JoinWithSpace(pieces) == s
    decreases |s|
  {
    if ' ' !in s then [s]
    else
      var k := FirstSpace(s);
      var rest := SplitOnSpace(s[k + 1..]);
      assert ([s[..k]] + rest)[1..] == rest;
      assert s == s[..k] + [' '] + s[k + 1..];
      [s[..k]] + rest
  }

  /** Index of the first space of `s`. */
  function FirstSpace(s: string): (k: nat)
    requires ' ' in s
    ensures k < |s| && s[k] == ' ' && ' ' !in s[..k]
  {
    if s[0] == ' ' then 0
    else
      var k := 1 + FirstSpace(s[1..]);
      assert s[..k] == [s[0]] + s[1..][..k - 1];
      k
  }

  /** Python's `' '.join(pieces)`. */
  function JoinWithSpace(pieces: seq<string>): (s: string)
    requires |pieces| >= 1
    ensures pieces[0] <= s
    ensures |pieces| > 1 ==> |s| > |pieces[0]| && s[|pieces[0]|] == ' '
  {
    if |pieces| == 1 then pieces[0] else pieces[0] + [' '] + JoinWithSpace(pieces[1..])
  }

  /** Splitting at single spaces undoes joining with single spaces. */
  lemma {:induction false} SplitJoinRoundTrip(pieces: seq<string>)
    requires |pieces| >= 1
    requires forall i :: 0 <= i < |pieces| ==> ' ' !in pieces[i]
    ensures SplitOnSpace(JoinWithSpace(pieces)) == pieces
  {
    if |pieces| > 1 {
      SplitOnSpaceCons(pieces[0], JoinWithSpace(pieces[1..]));
      SplitJoinRoundTrip(pieces[1..]);
      assert pieces == [pieces[0]] + pieces[1..];
    }
  }

  /** Splitting a space-free word, a space and more text splits off the word. */
  lemma SplitOnSpaceCons(p: string, rest: string)
    requires ' ' !in p
    ensures SplitOnSpace(p + [' '] + rest) == [p] + SplitOnSpace(rest)
  {
    var s := p + [' '] + rest;
    FirstSpaceAfterWord(p, rest);
    assert s[|p| + 1..] == rest;
  }

  /** The first space of a space-free word followed by a space is the one after the word. */
  lemma FirstSpaceAfterWord(p: string, rest: string)
    requires ' ' !in p
    ensures var s := p + [' '] + rest;
            ' ' in s && FirstSpace(s) == |p| && s[..|p|] == p
  {
    var s := p + [' '] + rest;
    assert s[|p|] == ' ';
    assert s[..|p|] == p;
  }

  predicate AllWhitespace(w: string)
  {
    forall k :: 0 <= k < |w| ==> IsWhitespace(w[k])
  }

  /** The separators `seps` and the tokens, alternating: `seps[0] + tokens[0] + seps[1] + ...`. */
  function Interleave(seps: seq<string>, tokens: seq<string>): string
    requires |seps| == |tokens| + 1
  {
    if tokens == [] then seps[0] else seps[0] + tokens[0] + Interleave(seps[1..], tokens[1..])
  }

  /** The tokens are the maximal runs of `s`: `s` is the tokens interleaved with runs of
      whitespace, possibly empty at both ends and non-empty between two tokens. */
  lemma {:induction false} SplitWhitespaceRuns(s: string) returns (seps: seq<string>)
    ensures var tokens := SplitWhitespace(s);
            && |seps| == |tokens| + 1
            && (forall i :: 0 <= i < |seps| ==> AllWhitespace(seps[i]))
            && (forall i :: 0 < i < |tokens| ==> seps[i] != [])
            && s == Interleave(seps, tokens)
    decreases |s|
  {
    var tokens := SplitWhitespace(s);
    if s == [] {
      seps := [[]];
    } else if IsWhitespace(s[0]) {
      var seps' := SplitWhitespaceRuns(s[1..]);
      seps := [[s[0]] + seps'[0]] + seps'[1..];
      assert s == [s[0]] + s[1..];
      if tokens != [] {
        assert seps[1..] == seps'[1..];
      }
    } else {
      var n := WordLength(s);
      var tail := SplitWhitespace(s[n..]);
      var seps' := SplitWhitespaceRuns(s[n..]);
      seps := [[]] + seps';
      assert tokens == [s[..n]] + tail;
      assert seps[1..] == seps' && tokens[1..] == tail;
      assert s == s[..n] + s[n..];
      if tail != [] && seps'[0] == [] {
        assert false;
      }
    }
  }

  /** The converse of `SplitWhitespaceRuns`: whatever whitespace separates the tokens, splitting
      gives back exactly the tokens, so they are the only maximal runs of the text. */
  lemma {:induction false} SplitWhitespaceOfInterleave(seps: seq<string>, tokens: seq<string>)
    requires |seps| == |tokens| + 1
    requires forall i :: 0 <= i < |seps| ==> AllWhitespace(seps[i])
    requires forall i :: 0 < i < |tokens| ==> seps[i] != []
    requires forall i :: 0 <= i < |tokens| ==> tokens[i] != [] && NoWhitespace(tokens[i])
    ensures SplitWhitespace(Interleave(seps, tokens)) == tokens
  {
    if tokens == [] {
      SplitWhitespaceSkip(seps[0], []);
      assert seps[0] + [] == seps[0];
    } else {
      var t := tokens[0];
      var tail := Interleave(seps[1..], tokens[1..]);
      SplitWhitespaceSkip(seps[0], t + tail);
      assert Interleave(seps, tokens) == seps[0] + (t + tail);
      InterleaveStart(seps[1..], tokens[1..]);
      SplitWhitespaceOfWord(t, tail);
      SplitWhitespaceOfInterleave(seps[1..], tokens[1..]);
      assert tokens == [t] + tokens[1..];
    }
  }

  /** Interleaved text starts with its first separator, and is only that when there is no token. */
  lemma InterleaveStart(seps: seq<string>, tokens: seq<string>)
    requires |seps| == |tokens| + 1
    requires tokens != [] ==> tokens[0] != []
    ensures var s := Interleave(seps, tokens);
            seps[0] <= s && (tokens == [] ==> s == seps[0]) && (tokens != [] ==> |s| > |seps[0]|)
  {
  }

  /** Leading whitespace does not change the split. */
  lemma {:induction false} SplitWhitespaceSkip(w: string, rest: string)
    requires AllWhitespace(w)
    ensures SplitWhitespace(w + rest) == SplitWhitespace(rest)
  {
    if w != [] {
      assert (w + rest)[0] == w[0];
      assert (w + rest)[1..] == w[1..] + rest;
      SplitWhitespaceSkip(w[1..], rest);
    } else {
      assert w + rest == rest;
    }
  }

  /** Splitting at whitespace undoes joining non-empty, whitespace-free tokens with spaces. */
  lemma {:induction false} SplitWhitespaceOfJoin(tokens: seq<string>)
    requires |tokens| >= 1
    requires forall i :: 0 <= i < |tokens| ==> tokens[i] != [] && NoWhitespace(tokens[i])
    ensures SplitWhitespace(JoinWithSpace(tokens)) == tokens
  {
    var t := tokens[0];
    if |tokens| == 1 {
      SplitWhitespaceOfWord(t, []);
      assert t + [] == t;
    } else {
      var rest := JoinWithSpace(tokens[1..]);
      SplitWhitespaceOfJoin(tokens[1..]);
      SplitWhitespaceOfWord(t, [' '] + rest);
      JoinCons(tokens);
      assert SplitWhitespace([' '] + rest) == SplitWhitespace(rest) by {
        assert ([' '] + rest)[1..] == rest;
      }
    }
  }

  lemma JoinCons(pieces: seq<string>)
    requires |pieces| > 1
    ensures JoinWithSpace(pieces) == pieces[0] + ([' '] + JoinWithSpace(pieces[1..]))
  {
  }

  /** A whitespace-free word in front of text that is empty or starts with whitespace
      is split off as one token. */
  lemma SplitWhitespaceOfWord(t: string, tail: string)
    requires t != [] && NoWhitespace(t)
    requires tail == [] || IsWhitespace(tail[0])
    ensures SplitWhitespace(t + tail) == [t] + SplitWhitespace(tail)
  {
    var s := t + tail;
    WordLengthOfWord(t, tail);
    assert s[..|t|] == t;
    assert s[|t|..] == tail;
  }

  lemma {:induction false} WordLengthOfWord(t: string, tail: string)
    requires NoWhitespace(t)
    requires tail == [] || IsWhitespace(tail[0])
    ensures WordLength(t + tail) == |t|
  {
    if t != [] {
      assert (t + tail)[1..] == t[1..] + tail;
      WordLengthOfWord(t[1..], tail);
    } else {
      assert t + tail == tail;
    }
  }

  /** `s.replace(from, to)` for one-character patterns, in both languages. */
  function ReplaceChar(s: string, from: char, to: char): (r: string)
    ensures |r| == |s|
    ensures forall k :: 0 <= k < |s| ==> r[k] == (if s[k] == from then to else s[k])
  {
    if s == [] then [] else [if s[0] == from then to else s[0]] + ReplaceChar(s[1..], from, to)
  }

  /** The decimal digit character of `d`. */
  function DigitChar(d: nat): (c: char)
    requires d <= 9
    ensures '0' <= c <= '9'
  {
    ('0' as int + d) as char
  }

  /** The value of a decimal digit character (Rust's `char::to_digit(10)` on an ASCII digit). */
  function DigitValue(c: char): (d: nat)
    requires '0' <= c <= '9'
    ensures d <= 9 && DigitChar(d) == c
  {
    c as int - '0' as int
  }

  /** Number of bytes of `c` in UTF-8. */
  function Utf8Width(c: char): (n: nat)
    ensures 1 <= n <= 4
    ensures n == 1 <==> c < '\U{80}'
  {
    if c < '\U{80}' then 1 else if c < '\U{800}' then 2 else if c < '\U{10000}' then 3 else 4
  }

  /** Rust's `str::len`: the number of bytes of `s` in UTF-8. */
  function Utf8Length(s: string): (n: nat)
    ensures n >= |s|
    ensures n == |s| <==> forall k :: 0 <= k < |s| ==> s[k] < '\U{80}'
  {
    if s == [] then 0 else Utf8Width(s[0]) + Utf8Length(s[1..])
  }

  /** Python's `str.isspace`. */
  predicate IsPySpace(c: char)
  {
    c == ' ' || ('\t' <= c <= '\r') || ('\U{1C}' <= c <= '\U{1F}') || c == '\U{85}' || c == '\U{A0}'
    || c == '\U{1680}' || ('\U{2000}' <= c <= '\U{200A}') || c == '\U{2028}' || c == '\U{2029}'
    || c == '\U{202F}' || c == '\U{205F}' || c == '\U{3000}'
  }

  /** Length of the leading run of characters of `s` that are (`space`) or are not Python whitespace. */
  function PyRun(s: string, space: bool): (n: nat)
    ensures n <= |s|
    ensures forall k :: 0 <= k < n ==> IsPySpace(s[k]) == space
    ensures n < |s| ==> IsPySpace(s[n]) != space
  {
    if s == [] || IsPySpace(s[0]) != space then 0 else 1 + PyRun(s[1..], space)
  }

  /** `line.split()[0]`: the first whitespace-separated field of `line`, `None` where Python
      raises `IndexError` because the line is blank. */
  function FirstField(line: string): (r: Option<string>)
    ensures r.None? <==> forall k :: 0 <= k < |line| ==> IsPySpace(line[k])
    ensures r.Some? ==> r.value != [] && forall k :: 0 <= k < |r.value| ==> !IsPySpace(r.value[k])
  {
    var k := PyRun(line, true);
    if k == |line| then None
    else
      var rest := line[k..];
      assert !IsPySpace(rest[0]);
      Some(rest[..PyRun(rest, false)])
  }

  /** The field is the first run of non-whitespace: `line` is leading whitespace, the field,
      and a rest that is empty or starts with whitespace. */
  lemma FirstFieldSplit(line: string) returns (lead: string, rest: string)
    ensures FirstField(line).Some? ==>
              && line == lead + FirstField(line).value + rest
              && (forall k :: 0 <= k < |lead| ==> IsPySpace(lead[k]))
              && (rest == [] || IsPySpace(rest[0]))
  {
    var k := PyRun(line, true);
    lead, rest := line[..k], [];
    if k < |line| {
      var after := line[k..];
      var n := PyRun(after, false);
      rest := after[n..];
      assert after == after[..n] + rest;
      assert line == lead + after;
    }
  }

  /** The converse of `FirstFieldSplit`: after leading whitespace, a run of non-whitespace
      ending at whitespace or at the end of the line is the first field. */
  lemma FirstFieldOf(lead: string, w: string, rest: string)
    requires forall k :: 0 <= k < |lead| ==> IsPySpace(lead[k])
    requires w != [] && forall k :: 0 <= k < |w| ==> !IsPySpace(w[k])
    requires rest == [] || IsPySpace(rest[0])
    ensures FirstField(lead + w + rest) == Some(w)
  {
    var line := lead + w + rest;
    PyRunOf(lead, w + rest, true);
    assert line == lead + (w + rest);
    assert line[|lead|..] == w + rest;
    PyRunOf(w, rest, false);
    assert (w + rest)[..|w|] == w;
  }

  /** A run of characters that are (`space`) or are not whitespace, followed by the end or by one
      of the other kind, is the leading run. */
  lemma {:induction false} PyRunOf(pre: string, post: string, space: bool)
    requires forall k :: 0 <= k < |pre| ==> IsPySpace(pre[k]) == space
    requires post == [] || IsPySpace(post[0]) != space
    ensures PyRun(pre + post, space) == |pre|
  {
    if pre != [] {
      assert (pre + post)[0] == pre[0];
      assert (pre + post)[1..] == pre[1..] + post;
      PyRunOf(pre[1..], post, space);
    } else {
      assert pre + post == post;
    }
  }
}
