/** The answer pool of script/process-high-frequency.py: the dictionary entries named by the
    first field of each line of a frequency list, in the list's order, at most 3000 of them.
    Reading the two input files and writing the output file are left out; the dictionary and
    the list's lines are given sequences. */
module HighFrequency {
  import opened Wrappers
  import opened Text
  import opened Model
  import Dict

  /** The script stops once it has this many answers. */
  const AnswerLimit: nat := 3000

  /** `m` indexes `items` by last occurrence: its keys are the dictionary's words, and each
      names the position of the word's last entry. */
  ghost predicate IsLastIndex(items: seq<Answer>, m: map<string, nat>)
  {
    && (forall w :: w in m <==> Dict.HasWord(items, w))
    && (forall w :: w in m ==> m[w] < |items| && items[m[w]].word == w)
    && (forall w :: w in m ==> forall j :: m[w] < j < |items| ==> items[j].word != w)
  }

  /** One assignment `reverse_index[word] = i`: the last entry's word now names its position,
      whether or not it was a key before. */
  lemma LastIndexSnoc(items: seq<Answer>, m: map<string, nat>)
    requires items != [] && IsLastIndex(items[..|items| - 1], m)
    ensures var n := |items| - 1;
            IsLastIndex(items, m[items[n].word := n])
  {
    var n := |items| - 1;
    Dict.HasWordSnoc(items);
    assert forall i :: 0 <= i < n ==> items[..n][i] == items[i];
  }

  /** The script's `reverse_index`: every word of the dictionary to the position of its LAST
      entry, since a later assignment to the same key overwrites an earlier one. */
  function LastIndexOf(items: seq<Answer>): (m: map<string, nat>)
    ensures IsLastIndex(items, m)
  {
    if items == [] then map[]
    else
      var n := |items| - 1;
      var m := LastIndexOf(items[..n]);
      LastIndexSnoc(items, m);
      m[items[n].word := n]
  }

  /** The first loop of `main`: `reverse_index[idiom['word']] = i` for each entry in order. */
  method BuildReverseIndex(items: seq<Answer>) returns (res: map<string, nat>)
    ensures res == LastIndexOf(items)
  {
    res := map[];
    for i := 0 to |items|
      invariant res == LastIndexOf(items[..i])
    {
      assert items[..i + 1][..i] == items[..i];
      res := res[items[i].word := i];
    }
    assert items[..|items|] == items;
  }

  /** What one line of the list contributes: the entry of its first field when that is a word
      of the dictionary, nothing when it is not, and `None` for a blank line, on which
      `line.split()[0]` raises. */
  function Lookup(line: string, items: seq<Answer>): (r: Option<seq<Answer>>)
    ensures r.None? <==> FirstField(line).None?
    ensures r.Some? ==> (r.value != [] <==> Dict.HasWord(items, FirstField(line).value))
    ensures r.Some? && r.value != [] ==>
              var w := FirstField(line).value;
              r.value == [items[LastIndexOf(items)[w]]] && r.value[0].word == w
  {
    match FirstField(line)
    case None => None
    case Some(w) =>
      var index := LastIndexOf(items);
      Some(if w in index then [items[index[w]]] else [])
  }

  /** The second loop of `main`, from the point where `acc` has been collected: `None` when it
      reaches a blank line and the script fails. */
  function SelectFrom(lines: seq<string>, items: seq<Answer>, acc: seq<Answer>): (r: Option<seq<Answer>>)
    requires |acc| < AnswerLimit
    ensures r.Some? ==> acc <= r.value && |r.value| <= AnswerLimit
    decreases |lines|
  {
    if lines == [] then Some(acc)
    else
      match Lookup(lines[0], items)
      case None => None
      case Some(found) =>
        var acc' := acc + found;
        if |acc'| == AnswerLimit then Some(acc') else SelectFrom(lines[1..], items, acc')
  }

  /** The list `main` writes, or `None` when it fails; never more than 3000 entries. */
  function Selected(lines: seq<string>, items: seq<Answer>): (r: Option<seq<Answer>>)
    ensures r.Some? ==> |r.value| <= AnswerLimit
  {
    SelectFrom(lines, items, [])
  }

  /** The second loop of `main`, over the list's lines in order: look the first field up,
      append its entry, stop at 3000. */
  method SelectAnswers(lines: seq<string>, items: seq<Answer>) returns (r: Option<seq<Answer>>)
    ensures r == Selected(lines, items)
  {
    var index := BuildReverseIndex(items);
    var processed: seq<Answer> := [];
    for i := 0 to |lines|
      invariant |processed| < AnswerLimit
      invariant SelectFrom(lines[i..], items, processed) == Selected(lines, items)
    {
      assert lines[i..][0] == lines[i] && lines[i..][1..] == lines[i + 1..];
      var field := FirstField(lines[i]);
      if field.None? {
        return None;
      }
      var idiom := field.value;
      ghost var found := if idiom in index then [items[index[idiom]]] else [];
      assert Lookup(lines[i], items) == Some(found);
      if idiom in index {
        processed := processed + [items[index[idiom]]];
      } else {
        assert processed == processed + found;
      }
      if |processed| == AnswerLimit {
        break;
      }
    }
    r := Some(processed);
  }

  /** Every entry the lines name, in the lines' order, up to the first blank line; and
      whether there is a blank line. */
  function Found(lines: seq<string>, items: seq<Answer>): (r: (seq<Answer>, bool))
    ensures |r.0| <= |lines|
    ensures r.1 <==> exists j :: 0 <= j < |lines| && FirstField(lines[j]).None?
    decreases |lines|
  {
    if lines == [] then ([], false)
    else
      match Lookup(lines[0], items)
      case None => ([], true)
      case Some(e) =>
        var rest := Found(lines[1..], items);
        (e + rest.0, rest.1)
  }

  /** The output is the named entries cut at 3000; with fewer than 3000 before it, a blank
      line makes the script fail. */
  lemma {:induction false} SelectFromFound(lines: seq<string>, items: seq<Answer>, acc: seq<Answer>)
    requires |acc| < AnswerLimit
    ensures var f := acc + Found(lines, items).0;
            SelectFrom(lines, items, acc)
            == if |f| >= AnswerLimit then Some(f[..AnswerLimit])
               else if Found(lines, items).1 then None
               else Some(f)
    decreases |lines|
  {
    if lines != [] {
      match Lookup(lines[0], items)
      case None =>
      case Some(e) =>
        var acc' := acc + e;
        var rest := Found(lines[1..], items);
        assert acc + Found(lines, items).0 == acc' + rest.0;
        if |acc'| == AnswerLimit {
          assert (acc' + rest.0)[..AnswerLimit] == acc';
        } else {
          SelectFromFound(lines[1..], items, acc');
        }
    } else {
      assert acc + [] == acc;
    }
  }

  lemma SelectedFound(lines: seq<string>, items: seq<Answer>)
    ensures var (f, blank) := Found(lines, items);
            Selected(lines, items)
            == if |f| >= AnswerLimit then Some(f[..AnswerLimit]) else if blank then None else Some(f)
  {
    SelectFromFound(lines, items, []);
    assert [] + Found(lines, items).0 == Found(lines, items).0;
  }

  /** Every entry of the output is the last dictionary entry of its word. */
  lemma {:induction false} FoundEntries(lines: seq<string>, items: seq<Answer>)
    ensures forall e :: e in Found(lines, items).0 ==>
              e.word in LastIndexOf(items) && e == items[LastIndexOf(items)[e.word]]
    decreases |lines|
  {
    if lines != [] && Lookup(lines[0], items).Some? {
      FoundEntries(lines[1..], items);
    }
  }

  /** Every line before the first blank one whose first field is a dictionary word brings
      that word's last entry into what is found. */
  lemma {:induction false} FoundComplete(lines: seq<string>, items: seq<Answer>, i: nat)
    requires i < |lines|
    requires forall j :: 0 <= j <= i ==> FirstField(lines[j]).Some?
    requires Dict.HasWord(items, FirstField(lines[i]).value)
    ensures items[LastIndexOf(items)[FirstField(lines[i]).value]] in Found(lines, items).0
    decreases i
  {
    assert FirstField(lines[0]).Some?;
    var e := Lookup(lines[0], items).value;
    var rest := Found(lines[1..], items).0;
    FoundCons(lines[0], lines[1..], items, e);
    assert [lines[0]] + lines[1..] == lines;
    var x := items[LastIndexOf(items)[FirstField(lines[i]).value]];
    if i == 0 {
      assert e == [x];
      assert (e + rest)[0] == x;
    } else {
      assert forall j :: 0 <= j <= i - 1 ==> lines[1..][j] == lines[j + 1];
      assert lines[1..][i - 1] == lines[i];
      FoundComplete(lines[1..], items, i - 1);
      InConcat(x, e, rest);
    }
  }

  lemma InConcat<T>(x: T, a: seq<T>, b: seq<T>)
    requires x in b
    ensures x in a + b
  {
    var k :| 0 <= k < |b| && b[k] == x;
    assert (a + b)[|a| + k] == x;
  }

  /** A line that names nothing missing puts its lookup in front of what the rest finds. */
  lemma FoundCons(line: string, lines: seq<string>, items: seq<Answer>, e: seq<Answer>)
    requires Lookup(line, items) == Some(e)
    ensures Found([line] + lines, items) == (e + Found(lines, items).0, Found(lines, items).1)
  {
    assert ([line] + lines)[1..] == lines;
  }

  /** A line naming a dictionary entry, repeated, yields the entry twice: nothing is
      de-duplicated. */
  lemma RepeatedLinesRepeat(line: string, lines: seq<string>, items: seq<Answer>, e: Answer)
    requires Lookup(line, items) == Some([e])
    ensures Found([line, line] + lines, items).0 == [e, e] + Found(lines, items).0
  {
    FoundCons(line, lines, items, [e]);
    FoundCons(line, [line] + lines, items, [e]);
    ConsTwice(line, lines);
  }

  lemma ConsTwice<T>(x: T, xs: seq<T>)
    ensures [x] + ([x] + xs) == [x, x] + xs
  {
  }

  /** A blank first line makes the script fail. */
  lemma BlankLineFails(line: string, lines: seq<string>, items: seq<Answer>)
    requires forall k :: 0 <= k < |line| ==> IsPySpace(line[k])
    ensures Selected([line] + lines, items) == None
  {
  }

  /** The script's index and the server's disagree on duplicated words: the script takes the
      last entry, `reserve_index` the first. */
  lemma IndexesDisagreeOnDuplicates(a: Answer, b: Answer)
    requires a.word == b.word
    ensures LastIndexOf([a, b])[a.word] == 1
    ensures Dict.IndexOf([a, b])[a.word] == 0
  {
    assert [a, b][1].word == a.word;
  }
}
