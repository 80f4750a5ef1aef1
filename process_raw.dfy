/** The dictionary preparation of script/process-raw.py: tone marks in the raw dictionary's
    pinyin become trailing tone digits, the form `TryFrom<&str> for Pinyin` reads, and only
    four-character entries are kept. Reading and writing the JSON files are left out. */
module ProcessRaw {
  import opened Wrappers
  import opened Text
  import opened Model
  import Game

  /** The number of entries of `PINYIN_MAP`. */
  const PinyinMapSize: nat := 24

  /** Entry `i` of `PINYIN_MAP`, in its insertion order: a tone-marked vowel, the plain vowel
      it becomes and the tone digit appended. Plain `ü` maps to itself with digit 0; `ǖ` is
      not a key. Every digit is one `Tone::from_num` accepts, no character of the map is a
      space, no key is ASCII, and only plain `ü` is its own replacement. */
  function PinyinEntry(i: nat): (e: (char, char, nat))
    requires i < PinyinMapSize
    ensures e.2 <= 4 && e.0 != ' ' && e.1 != ' ' && e.0 >= '\U{80}'
    ensures e.0 == e.1 <==> i == 20
  {
    match i
    case 0 => ('\U{101}', 'a', 1)
    case 1 => ('\U{E1}', 'a', 2)
    case 2 => ('\U{1CE}', 'a', 3)
    case 3 => ('\U{E0}', 'a', 4)
    case 4 => ('\U{14D}', 'o', 1)
    case 5 => ('\U{F3}', 'o', 2)
    case 6 => ('\U{1D2}', 'o', 3)
    case 7 => ('\U{F2}', 'o', 4)
    case 8 => ('\U{113}', 'e', 1)
    case 9 => ('\U{E9}', 'e', 2)
    case 10 => ('\U{11B}', 'e', 3)
    case 11 => ('\U{E8}', 'e', 4)
    case 12 => ('\U{12B}', 'i', 1)
    case 13 => ('\U{ED}', 'i', 2)
    case 14 => ('\U{1D0}', 'i', 3)
    case 15 => ('\U{EC}', 'i', 4)
    case 16 => ('\U{16B}', 'u', 1)
    case 17 => ('\U{FA}', 'u', 2)
    case 18 => ('\U{1D4}', 'u', 3)
    case 19 => ('\U{F9}', 'u', 4)
    case 20 => ('\U{FC}', '\U{FC}', 0)
    case 21 => ('\U{1D8}', '\U{FC}', 2)
    case 22 => ('\U{1DA}', '\U{FC}', 3)
    case _ => ('\U{1DC}', '\U{FC}', 4)
  }

  /** Position in the map of the key `c`; `PinyinMapSize` for a character that is not a key. */
  function KeyIndex(c: char): (i: nat)
    ensures i <= PinyinMapSize
  {
    match c
    case '\U{101}' => 0  case '\U{E1}' => 1  case '\U{1CE}' => 2  case '\U{E0}' => 3
    case '\U{14D}' => 4  case '\U{F3}' => 5  case '\U{1D2}' => 6  case '\U{F2}' => 7
    case '\U{113}' => 8  case '\U{E9}' => 9  case '\U{11B}' => 10 case '\U{E8}' => 11
    case '\U{12B}' => 12 case '\U{ED}' => 13 case '\U{1D0}' => 14 case '\U{EC}' => 15
    case '\U{16B}' => 16 case '\U{FA}' => 17 case '\U{1D4}' => 18 case '\U{F9}' => 19
    case '\U{FC}' => 20  case '\U{1D8}' => 21 case '\U{1DA}' => 22 case '\U{1DC}' => 23
    case _ => 24
  }

  /** The keys of the map are pairwise distinct: each sits at its `KeyIndex`. */
  lemma KeyIndexOfKey(j: nat)
    requires j < PinyinMapSize
    ensures KeyIndex(PinyinEntry(j).0) == j
  {
  }

  /** Position in the map of the first key, from `from` on, that occurs in `p`;
      `PinyinMapSize` when there is none. */
  function FirstKey(p: string, from: nat := 0): (i: nat)
    requires from <= PinyinMapSize
    ensures from <= i <= PinyinMapSize
    ensures forall j :: from <= j < i ==> PinyinEntry(j).0 !in p
    ensures i < PinyinMapSize ==> PinyinEntry(i).0 in p
    decreases PinyinMapSize - from
  {
    if from == PinyinMapSize || PinyinEntry(from).0 in p then from else FirstKey(p, from + 1)
  }

  /** A syllable whose only non-ASCII letter is the key of entry `i`, wherever and however
      often it occurs, becomes that syllable with the key replaced and entry `i`'s digit
      appended. */
  lemma StandardizeSingleMark(p: string, i: nat, k: char, v: char, d: nat)
    requires i < PinyinMapSize && PinyinEntry(i) == (k, v, d)
    requires k in p && forall n :: 0 <= n < |p| ==> p[n] < '\U{80}' || p[n] == k
    ensures Standardize(p) == ReplaceChar(p, k, v) + [DigitChar(d)]
  {
    var f := FirstKey(p);
    assert f <= i;
    if f < i {
      var n :| 0 <= n < |p| && p[n] == PinyinEntry(f).0;
      assert p[n] == k;
      KeyIndexOfKey(f);
      KeyIndexOfKey(i);
      assert false;
    }
  }

  /** What `standardize_pinyin` returns: with the first key of the map present in the
      syllable, every occurrence of that key replaced by its plain vowel and its digit
      appended; otherwise the syllable unchanged. */
  function Standardize(p: string): (r: string)
    ensures |r| == |p| || (|r| == |p| + 1 && '0' <= r[|p|] <= '4')
    ensures |r| == |p| ==> r == p
  {
    var i := FirstKey(p);
    if i == PinyinMapSize then p
    else
      ReplaceChar(p, PinyinEntry(i).0, PinyinEntry(i).1) + [DigitChar(PinyinEntry(i).2)]
  }

  /** `standardize_pinyin`: the loop over the map that stops at the first key present. */
  method StandardizePinyin(pinyin: string) returns (r: string)
    ensures r == Standardize(pinyin)
  {
    r := pinyin;
    var i := 0;
    while i < PinyinMapSize
      invariant i <= PinyinMapSize && FirstKey(pinyin, i) == FirstKey(pinyin)
      invariant r == pinyin
    {
      var (k, v, d) := PinyinEntry(i);
      if k in r {
        r := ReplaceChar(r, k, v) + [DigitChar(d)];
        break;
      }
      i := i + 1;
    }
  }

  /** A syllable with no key of the map in it, such as one written with `ǖ`, is unchanged. */
  lemma StandardizeUnmarked(p: string)
    requires forall i :: 0 <= i < PinyinMapSize ==> PinyinEntry(i).0 !in p
    ensures Standardize(p) == p
  {
  }

  /** A syllable with a key of the map in it gets the digit of the first such key, from 0
      to 4, appended; every occurrence of that key becomes its plain vowel, so a tone-marked
      key no longer occurs. */
  lemma StandardizeMarked(p: string)
    requires exists i :: 0 <= i < PinyinMapSize && PinyinEntry(i).0 in p
    ensures var i := FirstKey(p);
            var r := Standardize(p);
            && i < PinyinMapSize
            && |r| == |p| + 1
            && r[..|p|] == ReplaceChar(p, PinyinEntry(i).0, PinyinEntry(i).1)
            && r[|p|] == DigitChar(PinyinEntry(i).2) && PinyinEntry(i).2 <= 4
            && (i != 20 ==> PinyinEntry(i).0 !in r[..|p|])
  {
    var i := FirstKey(p);
    var j :| 0 <= j < PinyinMapSize && PinyinEntry(j).0 in p;
    assert i <= j;
    var r := Standardize(p);
    assert r[..|p|] == ReplaceChar(p, PinyinEntry(i).0, PinyinEntry(i).1);
  }

  /** A plain `ü` with no tone-marked vowel in the syllable gets `0` appended. */
  lemma StandardizePlainUmlaut(p: string)
    requires '\U{FC}' in p
    requires forall i :: 0 <= i < 20 ==> PinyinEntry(i).0 !in p
    ensures Standardize(p) == p + "0"
  {
    var f := FirstKey(p);
    assert f == 20 && PinyinEntry(f) == ('\U{FC}', '\U{FC}', 0);
    assert ReplaceChar(p, '\U{FC}', '\U{FC}') == p;
  }

  /** A standardized syllable that had a tone mark is read by the game's syllable parser:
      the appended digit is taken off again and gives the tone. */
  lemma StandardizedParses(cfg: Config, p: string)
    requires AsciiInitials(cfg)
    requires p != [] && FirstKey(p) < PinyinMapSize
    ensures var r := Game.ParsePinyin(cfg, Standardize(p));
            && r.Success?
            && r.value.pronunciation == Standardize(p)[..|p|]
            && Success(r.value.tone) == ToneFromNum(Some(PinyinEntry(FirstKey(p)).2 as u8))
  {
    StandardizeMarked(p);
    var s := Standardize(p);
    var d := PinyinEntry(FirstKey(p)).2;
    assert s == s[..|p|] + [DigitChar(d)];
    Game.ParseWithToneDigit(cfg, s[..|p|], d);
  }

  /** `standardize_pinyins`: split at single spaces, standardize every piece, join with
      single spaces. Splitting the result again gives the standardized pieces, so their
      number and order are kept. */
  function StandardizePinyins(pinyins: string): (r: string)
    ensures SplitOnSpace(r) == StandardizeAll(SplitOnSpace(pinyins))
  {
    var pieces := SplitOnSpace(pinyins);
    var std := StandardizeAll(pieces);
    StandardizeAllNoSpace(pieces);
    SplitJoinRoundTrip(std);
    JoinWithSpace(std)
  }

  /** Space-free pieces stay space-free. */
  lemma StandardizeAllNoSpace(pieces: seq<string>)
    requires forall i :: 0 <= i < |pieces| ==> ' ' !in pieces[i]
    ensures forall i :: 0 <= i < |pieces| ==> ' ' !in StandardizeAll(pieces)[i]
  {
    forall i | 0 <= i < |pieces|
      ensures ' ' !in StandardizeAll(pieces)[i]
    {
      StandardizeNoSpace(pieces[i]);
    }
  }

  /** `map(standardize_pinyin, pieces)`. */
  function StandardizeAll(pieces: seq<string>): (r: seq<string>)
    ensures |r| == |pieces|
    ensures forall i :: 0 <= i < |pieces| ==> r[i] == Standardize(pieces[i])
  {
    if pieces == [] then [] else [Standardize(pieces[0])] + StandardizeAll(pieces[1..])
  }

  /** Standardizing brings in no space. */
  lemma StandardizeNoSpace(p: string)
    requires ' ' !in p
    ensures ' ' !in Standardize(p)
  {
    var i := FirstKey(p);
    if i < PinyinMapSize {
      var r := Standardize(p);
      assert forall k :: 0 <= k < |r| ==> r[k] != ' ' by {
        forall k | 0 <= k < |r|
          ensures r[k] != ' '
        {
          if k < |p| {
            assert p[k] != ' ';
          }
        }
      }
    }
  }

  /** Standardizing a space-joined list of space-free syllables standardizes each syllable. */
  lemma StandardizePinyinsOfJoin(pieces: seq<string>)
    requires |pieces| >= 1 && forall i :: 0 <= i < |pieces| ==> ' ' !in pieces[i]
    ensures StandardizePinyins(JoinWithSpace(pieces))
            == JoinWithSpace(StandardizeAll(pieces))
  {
    SplitJoinRoundTrip(pieces);
  }

  lemma StandardizeAllFour(a: string, b: string, c: string, d: string)
    ensures StandardizeAll([a, b, c, d]) == [Standardize(a), Standardize(b), Standardize(c), Standardize(d)]
  {
    assert [a, b, c, d][1..] == [b, c, d] && [b, c, d][1..] == [c, d] && [c, d][1..] == [d];
  }

  /** The four syllables of an idiom, joined with spaces, are standardized one by one. */
  lemma StandardizeFourSyllables(a: string, b: string, c: string, d: string, a': string, b': string, c': string, d': string)
    requires ' ' !in a && ' ' !in b && ' ' !in c && ' ' !in d
    requires Standardize(a) == a' && Standardize(b) == b' && Standardize(c) == c' && Standardize(d) == d'
    ensures StandardizePinyins(JoinWithSpace([a, b, c, d])) == JoinWithSpace([a', b', c', d'])
  {
    StandardizePinyinsOfJoin([a, b, c, d]);
    StandardizeAllFour(a, b, c, d);
  }

  // The syllables of the script's documented examples, one lemma each.

  lemma SyllableA1(p: string)
    requires p == "\U{101}"
    ensures Standardize(p) == "a1" && ' ' !in p
  {
    StandardizeSingleMark(p, 0, '\U{101}', 'a', 1);
    assert ReplaceChar(p, '\U{101}', 'a') == "a";
  }

  lemma SyllableBi2(p: string)
    requires p == "b\U{ED}"
    ensures Standardize(p) == "bi2" && ' ' !in p
  {
    StandardizeSingleMark(p, 13, '\U{ED}', 'i', 2);
    assert ReplaceChar(p, '\U{ED}', 'i') == "bi";
  }

  lemma SyllableDi4(p: string)
    requires p == "d\U{EC}"
    ensures Standardize(p) == "di4" && ' ' !in p
  {
    StandardizeSingleMark(p, 15, '\U{EC}', 'i', 4);
    assert ReplaceChar(p, '\U{EC}', 'i') == "di";
  }

  lemma SyllableYu4(p: string)
    requires p == "y\U{F9}"
    ensures Standardize(p) == "yu4" && ' ' !in p
  {
    StandardizeSingleMark(p, 19, '\U{F9}', 'u', 4);
    assert ReplaceChar(p, '\U{F9}', 'u') == "yu";
  }

  lemma SyllableE1(p: string)
    requires p == "\U{113}"
    ensures Standardize(p) == "e1" && ' ' !in p
  {
    StandardizeSingleMark(p, 8, '\U{113}', 'e', 1);
    assert ReplaceChar(p, '\U{113}', 'e') == "e";
  }

  lemma SyllableDang3(p: string)
    requires p == "d\U{1CE}ng"
    ensures Standardize(p) == "dang3" && ' ' !in p
  {
    StandardizeSingleMark(p, 2, '\U{1CE}', 'a', 3);
    assert ReplaceChar(p, '\U{1CE}', 'a') == "dang";
  }

  lemma SyllableBi3(p: string)
    requires p == "b\U{1D0}"
    ensures Standardize(p) == "bi3" && ' ' !in p
  {
    StandardizeSingleMark(p, 14, '\U{1D0}', 'i', 3);
    assert ReplaceChar(p, '\U{1D0}', 'i') == "bi";
  }

  lemma SyllableZhou1(p: string)
    requires p == "zh\U{14D}u"
    ensures Standardize(p) == "zhou1" && ' ' !in p
  {
    StandardizeSingleMark(p, 4, '\U{14D}', 'o', 1);
    var r := ReplaceChar(p, '\U{14D}', 'o');
    assert r[0] == 'z' && r[1] == 'h' && r[2] == 'o' && r[3] == 'u';
    assert r == "zhou";
  }

  /** The first example of the script's documentation: the syllables "ā bí dì yù" become
      "a1 bi2 di4 yu4". */
  lemma FirstDocumentedExample(a: string, b: string, c: string, d: string)
    requires a == "\U{101}" && b == "b\U{ED}" && c == "d\U{EC}" && d == "y\U{F9}"
    ensures StandardizePinyins(JoinWithSpace([a, b, c, d])) == JoinWithSpace(["a1", "bi2", "di4", "yu4"])
  {
    SyllableA1(a);
    SyllableBi2(b);
    SyllableDi4(c);
    SyllableYu4(d);
    StandardizeFourSyllables(a, b, c, d, "a1", "bi2", "di4", "yu4");
  }

  /** The second example: the syllables "ē dǎng bǐ zhōu" become "e1 dang3 bi3 zhou1". */
  lemma SecondDocumentedExample(a: string, b: string, c: string, d: string)
    requires a == "\U{113}" && b == "d\U{1CE}ng" && c == "b\U{1D0}" && d == "zh\U{14D}u"
    ensures StandardizePinyins(JoinWithSpace([a, b, c, d])) == JoinWithSpace(["e1", "dang3", "bi3", "zhou1"])
  {
    SyllableE1(a);
    SyllableDang3(b);
    SyllableBi3(c);
    SyllableZhou1(d);
    StandardizeFourSyllables(a, b, c, d, "e1", "dang3", "bi3", "zhou1");
  }

  /** An entry of the raw dictionary, with the fields the script reads and those it drops. */
  datatype RawItem = RawItem(
    word: string,
    pinyin: string,
    explanation: string,
    derivation: string,
    example: string,
    abbreviation: string)

  /** `mapper`: the three kept fields, the pinyin standardized. */
  function Mapper(item: RawItem): (r: Answer)
    ensures r.word == item.word && r.explanation == item.explanation
    ensures SplitOnSpace(r.pinyin) == StandardizeAll(SplitOnSpace(item.pinyin))
  {
    Answer(item.word, StandardizePinyins(item.pinyin), item.explanation)
  }

  /** `process_raw_data`: the four-character entries, in order, each through `mapper`. */
  function ProcessRawData(raw: seq<RawItem>): (r: seq<Answer>)
    ensures |r| <= |raw|
  {
    if raw == [] then []
    else (if |raw[0].word| == 4 then [Mapper(raw[0])] else []) + ProcessRawData(raw[1..])
  }

  /** An entry is in the output exactly when it is the mapped form of a four-character raw
      entry. */
  lemma {:induction false} ProcessRawDataMembers(raw: seq<RawItem>)
    ensures forall a :: a in ProcessRawData(raw) <==> exists item :: item in raw && |item.word| == 4 && a == Mapper(item)
  {
    if raw != [] {
      ProcessRawDataMembers(raw[1..]);
      forall item | item in raw
        ensures item == raw[0] || item in raw[1..]
      {
        var k :| 0 <= k < |raw| && raw[k] == item;
        if k > 0 {
          assert raw[1..][k - 1] == item;
        }
      }
    }
  }

  /** The output keeps the input's order: processing a concatenation concatenates the outputs. */
  lemma {:induction false} ProcessRawDataAppend(x: seq<RawItem>, y: seq<RawItem>)
    ensures ProcessRawData(x + y) == ProcessRawData(x) + ProcessRawData(y)
  {
    if x != [] {
      assert (x + y)[0] == x[0];
      assert (x + y)[1..] == x[1..] + y;
      ProcessRawDataAppend(x[1..], y);
    } else {
      assert x + y == y;
    }
  }
}
