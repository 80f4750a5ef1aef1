/** Scoring one attempt against the answer (src/game.rs): reading a pinyin token into a
    syllable, turning an attempt into its characters, and the five two-phase passes that
    give every character a state per attribute. */
module Game {
  import opened Wrappers
  import opened Text
  import opened Model
  import opened Matching

  predicate IsAsciiDigit(c: char)
  {
    '0' <= c <= '9'
  }

  /** `chars.last().and_then(|c| c.to_digit(10))`: the value of a final ASCII digit. */
  function TrailingDigit(value: string): (r: Option<u8>)
    ensures r.Some? <==> value != [] && IsAsciiDigit(value[|value| - 1])
    ensures r.Some? ==> r.value <= 9 && DigitChar(r.value as nat) == value[|value| - 1]
  {
    if value != [] && IsAsciiDigit(value[|value| - 1]) then Some(DigitValue(value[|value| - 1]) as u8) else None
  }

  /** The token without its tone digit. */
  function Syllable(value: string): string
  {
    if TrailingDigit(value).Some? then value[..|value| - 1] else value
  }

  /** The initial of a pronunciation: its first letter when that is an initial, extended by
      `h` for the initials that take one (`zh`, `ch`, `sh`). */
  function InitialOf(cfg: Config, p: string): (r: Option<string>)
    requires p != []
    ensures r.Some? <==> [p[0]] in cfg.initials
    ensures r.Some? ==> r.value <= p && (|r.value| == 2 <==> [p[0]] in cfg.specialInitials && |p| > 1 && p[1] == 'h')
    ensures r.Some? ==> |r.value| == 1 || |r.value| == 2
  {
    var first := [p[0]];
    if first !in cfg.initials then None
    else if first in cfg.specialInitials && |p| > 1 && p[1] == 'h' then Some(p[..2])
    else Some(first)
  }

  function InitialText(initial: Option<string>): string
  {
    if initial.Some? then initial.value else ""
  }

  /** `TryFrom<&str> for Pinyin`. An empty token fails with `InvalidLength(0)`; a final digit
      is removed and read as the tone, failing for 5 to 9; a token that was only a tone digit
      makes `chars.first().unwrap()` panic, modelled as `UnwrapOnEmpty`. Otherwise the
      pronunciation is the token without its digit, split into initial and vowel at the
      initial's byte length. */
  function ParsePinyin(cfg: Config, value: string): (r: Result<Pinyin, PinyinError>)
    requires AsciiInitials(cfg)
    ensures r == Failure(InvalidLength(0)) <==> value == []
    ensures r.Failure? && r.error.InvalidTone? <==> value != [] && '5' <= value[|value| - 1] <= '9'
    ensures r.Failure? && r.error.InvalidTone? ==> r.error == InvalidTone(TrailingDigit(value).value)
    ensures r == Failure(UnwrapOnEmpty) <==> |value| == 1 && '0' <= value[0] <= '4'
    ensures r.Success? ==>
              && r.value.pronunciation == Syllable(value) != []
              && r.value.initial == InitialOf(cfg, r.value.pronunciation)
              && InitialText(r.value.initial) + r.value.vowel == r.value.pronunciation
              && Success(r.value.tone) == ToneFromNum(TrailingDigit(value))
  {
    if value == [] then Failure(InvalidLength(0))
    else
      var num := TrailingDigit(value);
      var chars := Syllable(value);
      match ToneFromNum(num)
      case Failure(e) => Failure(e)
      case Success(tone) =>
        if chars == [] then Failure(UnwrapOnEmpty)
        else
          var first := [chars[0]];
          if first in cfg.initials then
            var initial := if first in cfg.specialInitials && |chars| > 1 && chars[1] == 'h' then first + ['h'] else first;
            var at := Utf8Length(initial);
            assert first[0] < '\U{80}';
            assert at == |initial| && initial == chars[..at];
            Success(Pinyin(chars, Some(initial), chars[at..], tone))
          else
            Success(Pinyin(chars, None, chars, tone))
  }

  /** The written form of a syllable: its pronunciation followed by its tone digit, if any. */
  function Render(p: Pinyin): string
  {
    p.pronunciation + ToneToString(p.tone)
  }

  /** A non-empty pronunciation followed by a tone digit from 0 to 4 is read as that
      pronunciation with that tone. */
  lemma ParseWithToneDigit(cfg: Config, pron: string, d: nat)
    requires AsciiInitials(cfg)
    requires pron != [] && d <= 4
    ensures var r := ParsePinyin(cfg, pron + [DigitChar(d)]);
            && r.Success? && r.value.pronunciation == pron
            && Success(r.value.tone) == ToneFromNum(Some(d as u8))
  {
    var v := pron + [DigitChar(d)];
    assert v[..|v| - 1] == pron;
    assert TrailingDigit(v) == Some(d as u8);
  }

  /** Reading a written syllable gives back its pronunciation and tone, whenever the
      pronunciation does not itself end in a digit. */
  lemma ParseOfRendered(cfg: Config, pron: string, tone: Option<ToneExplicit>)
    requires AsciiInitials(cfg)
    requires pron != [] && !IsAsciiDigit(pron[|pron| - 1])
    ensures var r := ParsePinyin(cfg, pron + ToneToString(tone));
            r.Success? && r.value.pronunciation == pron && r.value.tone == tone
  {
    if tone.None? {
      assert pron + ToneToString(tone) == pron;
    } else {
      var d: nat := match tone.value case High => 1 case Rising => 2 case Low => 3 case Falling => 4;
      assert ToneToString(tone) == [DigitChar(d)];
      ParseWithToneDigit(cfg, pron, d);
    }
  }

  /** Writing a read syllable gives back the token, except that an explicit tone 0 is dropped. */
  lemma RenderOfParsed(cfg: Config, value: string)
    requires AsciiInitials(cfg)
    requires ParsePinyin(cfg, value).Success?
    ensures Render(ParsePinyin(cfg, value).value) == value <==> value[|value| - 1] != '0'
  {
    var p := ParsePinyin(cfg, value).value;
    if TrailingDigit(value).Some? {
      assert value == value[..|value| - 1] + [value[|value| - 1]];
      if value[|value| - 1] == '0' {
        assert |Render(p)| < |value|;
      }
    }
  }

  /** A syllable read from a token whose pronunciation does not end in a digit is read again,
      unchanged, from its written form. */
  lemma ParseRenderRoundTrip(cfg: Config, value: string)
    requires AsciiInitials(cfg)
    requires ParsePinyin(cfg, value).Success?
    requires var p := ParsePinyin(cfg, value).value.pronunciation; !IsAsciiDigit(p[|p| - 1])
    ensures ParsePinyin(cfg, Render(ParsePinyin(cfg, value).value)) == ParsePinyin(cfg, value)
  {
    var p := ParsePinyin(cfg, value).value;
    ParseOfRendered(cfg, p.pronunciation, p.tone);
    var q := ParsePinyin(cfg, Render(p)).value;
    assert InitialText(q.initial) + q.vowel == InitialText(p.initial) + p.vowel;
    assert q.vowel == p.vowel by {
      var n := |InitialText(p.initial)|;
      assert q.vowel == q.pronunciation[n..];
      assert p.vowel == p.pronunciation[n..];
    }
  }

  /** The syllables of a sequence of tokens, or the first token's error. */
  function ParseTokens(cfg: Config, tokens: seq<string>): (r: Result<seq<Pinyin>, PinyinError>)
    requires AsciiInitials(cfg)
    ensures r.Success? <==> forall i :: 0 <= i < |tokens| ==> ParsePinyin(cfg, tokens[i]).Success?
    ensures r.Success? ==>
              |r.value| == |tokens| && forall i :: 0 <= i < |tokens| ==> ParsePinyin(cfg, tokens[i]) == Success(r.value[i])
    ensures r.Failure? ==>
              exists i :: 0 <= i < |tokens| && ParsePinyin(cfg, tokens[i]) == Failure(r.error)
                          && forall j :: 0 <= j < i ==> ParsePinyin(cfg, tokens[j]).Success?
  {
    var rs := seq(|tokens|, i requires 0 <= i < |tokens| => ParsePinyin(cfg, tokens[i]));
    assert forall i :: 0 <= i < |tokens| ==> rs[i] == ParsePinyin(cfg, tokens[i]);
    Collect(rs)
  }

  /** `TryFrom<Attempt> for [Character; IDIOM_LENGTH]`: the pinyin is split at whitespace and
      every token read, the first bad token failing the whole attempt; then the word must have
      as many characters as there are tokens, and exactly the idiom length; the characters pair
      each character of the word with its syllable. */
  function ToCharacters(cfg: Config, attempt: Attempt): (r: Result<seq<Character>, IdiomError>)
    requires AsciiInitials(cfg)
    ensures var parsed := ParseTokens(cfg, SplitWhitespace(attempt.pinyin));
            r.Success? <==> parsed.Success? && |attempt.word| == |parsed.value| == cfg.idiomLength
    ensures var parsed := ParseTokens(cfg, SplitWhitespace(attempt.pinyin));
            r.Success? ==>
              && |r.value| == |parsed.value|
              && forall i :: 0 <= i < |r.value| ==> r.value[i] == Character([attempt.word[i]], parsed.value[i])
  {
    var tokens := SplitWhitespace(attempt.pinyin);
    match ParseTokens(cfg, tokens)
    case Failure(e) => Failure(InvalidPinyin(e))
    case Success(ps) =>
      if |attempt.word| != |ps| || |attempt.word| != cfg.idiomLength then
        Failure(InconsistentLength(|attempt.word|, |ps|, cfg.idiomLength))
      else
        Success(seq(|ps|, i requires 0 <= i < |ps| => Character([attempt.word[i]], ps[i])))
  }

  /** The error of an attempt that does not read: the first bad token's error, or, when
      every token reads, the word length, token count and idiom length that disagree. */
  lemma ToCharactersError(cfg: Config, attempt: Attempt)
    requires AsciiInitials(cfg)
    requires ToCharacters(cfg, attempt).Failure?
    ensures var parsed := ParseTokens(cfg, SplitWhitespace(attempt.pinyin));
            var e := ToCharacters(cfg, attempt).error;
            && (parsed.Failure? ==> e == InvalidPinyin(parsed.error))
            && (parsed.Success? ==> e == InconsistentLength(|attempt.word|, |parsed.value|, cfg.idiomLength))
  {
  }

  /** The states of attribute `a` over an attempt's characters. */
  function AttributeStates(a: Attribute, cs: seq<Character>, answer: seq<Character>): (r: seq<State>)
    requires |cs| == |answer|
    ensures |r| == |cs|
  {
    ChannelScore(Keys(a, cs), Keys(a, answer))
  }

  /** The scored characters of an attempt: each keeps its literal and syllable and gets, per
      attribute, the state of that attribute's two-phase match against the answer. */
  function Scored(cs: seq<Character>, answer: seq<Character>): (r: seq<CalculatedCharacter>)
    requires |cs| == |answer|
    ensures |r| == |cs| && forall i :: 0 <= i < |cs| ==> r[i].Base() == cs[i]
  {
    seq(|cs|, i requires 0 <= i < |cs| =>
      CalculatedCharacter(cs[i].literal, cs[i].pinyin, CharacterResult(
        AttributeStates(Whole, cs, answer)[i],
        AttributeStates(Pronunciation, cs, answer)[i],
        AttributeStates(Initial, cs, answer)[i],
        AttributeStates(Vowel, cs, answer)[i],
        AttributeStates(Tone, cs, answer)[i])))
  }

  lemma ScoredGet(cs: seq<Character>, answer: seq<Character>, a: Attribute, i: nat)
    requires |cs| == |answer| && i < |cs|
    ensures Scored(cs, answer)[i].result.Get(a) == AttributeStates(a, cs, answer)[i]
  {
  }

  /** `CalculatedAttempt::from_attempt`: the attempt is read into characters (its errors are the
      result) and scored against the answer. */
  function Score(cfg: Config, answer: seq<Character>, attempt: Attempt): (r: Result<CalculatedAttempt, IdiomError>)
    requires AsciiInitials(cfg)
    ensures r.Failure? <==> ToCharacters(cfg, attempt).Failure?
    ensures r.Failure? ==> r.error == ToCharacters(cfg, attempt).error
  {
    match ToCharacters(cfg, attempt)
    case Failure(e) => Failure(e)
    case Success(cs) =>
      if |cs| == |answer| then Success(CalculatedAttempt(Scored(cs, answer)))
      else Success(CalculatedAttempt([]))
  }

  /** A character's attribute is `Correct` exactly when it equals the answer's at that position. */
  lemma ScoredCorrectIff(cs: seq<Character>, answer: seq<Character>, a: Attribute, i: nat)
    requires |cs| == |answer| && i < |cs|
    ensures Scored(cs, answer)[i].result.Get(a) == Correct <==> Same(a, cs[i], answer[i])
  {
    ScoredGet(cs, answer, a, i);
    ChannelCorrectIff(Keys(a, cs), Keys(a, answer), i);
    SameIffKeyEqual(a, cs[i], answer[i]);
  }

  /** A `Misplaced` attribute value differs from the answer's at that position and occurs at
      another position of the answer. */
  lemma ScoredMisplacedOccurs(cs: seq<Character>, answer: seq<Character>, a: Attribute, i: nat)
    requires |cs| == |answer| && i < |cs|
    requires Scored(cs, answer)[i].result.Get(a) == Misplaced
    ensures Key(a, cs[i]).Some? && !Same(a, cs[i], answer[i])
    ensures exists j :: 0 <= j < |answer| && j != i && Key(a, answer[j]) == Key(a, cs[i])
  {
    ScoredGet(cs, answer, a, i);
    ChannelMisplacedOccurs(Keys(a, cs), Keys(a, answer), i);
    SameIffKeyEqual(a, cs[i], answer[i]);
    var j :| 0 <= j < |answer| && Keys(a, answer)[j] == Key(a, cs[i]);
  }

  /** An attribute the character does not have (no initial, no tone) is never `Misplaced`. */
  lemma ScoredAbsentNeverMisplaced(cs: seq<Character>, answer: seq<Character>, a: Attribute, i: nat)
    requires |cs| == |answer| && i < |cs|
    requires Key(a, cs[i]).None?
    ensures Scored(cs, answer)[i].result.Get(a) != Misplaced
  {
    ScoredGet(cs, answer, a, i);
    ChannelAbsentNeverMisplaced(Keys(a, cs), Keys(a, answer), i);
  }

  /** An attempt with the answer's own characters is `Correct` in every attribute. */
  lemma ScoredAllCorrect(answer: seq<Character>)
    ensures forall i, a :: 0 <= i < |answer| ==> Scored(answer, answer)[i].result.Get(a) == Correct
  {
    forall i, a | 0 <= i < |answer|
      ensures Scored(answer, answer)[i].result.Get(a) == Correct
    {
      ScoredCorrectIff(answer, answer, a, i);
    }
  }

  /** Duplicates: for each attribute value, the characters credited with it, `Correct` or
      `Misplaced`, are never more than the answer's characters carrying it ... */
  lemma ScoredQuotaBound(cs: seq<Character>, answer: seq<Character>, a: Attribute, k: string)
    requires |cs| == |answer|
    ensures var states := AttributeStates(a, cs, answer);
            CountIn(Keys(a, cs), states, k, Correct) + CountIn(Keys(a, cs), states, k, Misplaced)
            <= multiset(Keys(a, answer))[Some(k)]
  {
    ChannelQuotaBound(Keys(a, cs), Keys(a, answer), k);
  }

  /** ... and a value left `Missing` is credited exactly that many times. */
  lemma ScoredMissingSaturated(cs: seq<Character>, answer: seq<Character>, a: Attribute, i: nat)
    requires |cs| == |answer| && i < |cs|
    requires Key(a, cs[i]).Some? && Scored(cs, answer)[i].result.Get(a) == Missing
    ensures var states := AttributeStates(a, cs, answer);
            var k := Key(a, cs[i]).value;
            CountIn(Keys(a, cs), states, k, Correct) + CountIn(Keys(a, cs), states, k, Misplaced)
            == multiset(Keys(a, answer))[Some(k)]
  {
    ScoredGet(cs, answer, a, i);
    ChannelMissingSaturated(Keys(a, cs), Keys(a, answer), i);
  }

  /** Repeated values are credited from left to right. */
  lemma ScoredLeftToRight(cs: seq<Character>, answer: seq<Character>, a: Attribute, i: nat, j: nat)
    requires |cs| == |answer| && i < j < |cs|
    requires Key(a, cs[i]) == Key(a, cs[j]) && !Same(a, cs[i], answer[i])
    requires Scored(cs, answer)[j].result.Get(a) == Misplaced
    ensures Scored(cs, answer)[i].result.Get(a) == Misplaced
  {
    ScoredGet(cs, answer, a, i);
    ScoredGet(cs, answer, a, j);
    SameIffKeyEqual(a, cs[i], answer[i]);
    ChannelLeftToRight(Keys(a, cs), Keys(a, answer), i, j);
  }

  /** The characters of a row of scored characters, and the states of one attribute in it. */
  function Bases(rs: seq<CalculatedCharacter>): seq<Character>
  {
    seq(|rs|, i requires 0 <= i < |rs| => rs[i].Base())
  }

  function StatesOf(rs: seq<CalculatedCharacter>, a: Attribute): seq<State>
  {
    seq(|rs|, i requires 0 <= i < |rs| => rs[i].result.Get(a))
  }

  /** No character of the row has been marked for attribute `a` yet. */
  predicate AllMissing(rs: seq<CalculatedCharacter>, a: Attribute)
  {
    forall i :: 0 <= i < |rs| ==> rs[i].result.Get(a) == Missing
  }

  /** `c` with the state of attribute `a` replaced by `s`. */
  function WithState(c: CalculatedCharacter, a: Attribute, s: State): (r: CalculatedCharacter)
    ensures r.Base() == c.Base() && r.result.Get(a) == s
    ensures forall b :: b != a ==> r.result.Get(b) == c.result.Get(b)
  {
    c.(result := c.result.Set(a, s))
  }

  /** `before` with the states of attribute `a` of its first `|states|` characters replaced by `states`. */
  function Updated(before: seq<CalculatedCharacter>, a: Attribute, states: seq<State>): (r: seq<CalculatedCharacter>)
    requires |states| <= |before|
    ensures |r| == |before|
  {
    seq(|states|, j requires 0 <= j < |states| => WithState(before[j], a, states[j])) + before[|states|..]
  }

  /** Replacing one more state. */
  lemma UpdatedSnoc(before: seq<CalculatedCharacter>, a: Attribute, states: seq<State>, s: State)
    requires |states| < |before|
    ensures var n := |states|;
            && Updated(before, a, states)[n] == before[n]
            && Updated(before, a, states)[n := WithState(before[n], a, s)] == Updated(before, a, states + [s])
  {
    var n := |states|;
    var u := Updated(before, a, states);
    var v := Updated(before, a, states + [s]);
    assert u[n] == before[n];
    assert forall j :: 0 <= j < |before| ==> u[n := WithState(before[n], a, s)][j] == v[j];
  }

  /** A fully updated row keeps its characters and the other attributes' states, and carries
      the new states of `a`. */
  lemma UpdatedFrame(before: seq<CalculatedCharacter>, a: Attribute, states: seq<State>)
    requires |states| == |before|
    ensures Bases(Updated(before, a, states)) == Bases(before)
    ensures StatesOf(Updated(before, a, states), a) == states
    ensures forall b :: b != a ==> StatesOf(Updated(before, a, states), b) == StatesOf(before, b)
  {
    var u := Updated(before, a, states);
    assert forall j :: 0 <= j < |before| ==> u[j] == WithState(before[j], a, states[j]);
  }

  /** Phase 1 of attribute `a` at position `i`: the character is marked `Correct` and consumes
      one unit of its value when its attribute equals the answer's. */
  method MarkExactAt(res: array<CalculatedCharacter>, count: PinyinCount, answer: seq<Character>, a: Attribute, i: nat)
    requires i < res.Length == |answer|
    requires res[i].result.Get(a) == Missing
    modifies res, count
    ensures var step := ExactStep(Key(a, old(res[i]).Base()), Key(a, answer[i]), old(count.Table(a)));
            && res[..] == old(res[..])[i := WithState(old(res[i]), a, step.0)]
            && count.Tables() == old(count.Tables()).Set(a, step.1)
  {
    var c := res[i];
    SameIffKeyEqual(a, c.Base(), answer[i]);
    if Same(a, c.Base(), answer[i]) {
      var _ := count.MatchChar(a, c.Base());
      res[i] := WithState(c, a, Correct);
    } else {
      assert c == WithState(c, a, Missing);
      SetGet(count.Tables(), a);
    }
  }

  /** After phase 1 has visited the first `|done|` positions of `before`: the row carries the
      states `done` there, and the quota table of `a` is the one phase 1 leaves, all other
      tables as in `t0`. */
  ghost predicate ExactProgress(
    row: seq<CalculatedCharacter>, tables: Quotas, before: seq<CalculatedCharacter>, answer: seq<Character>,
    a: Attribute, t0: Quotas, done: seq<State>)
    requires |before| == |answer|
  {
    && |done| <= |before|
    && row == Updated(before, a, done)
    && (done, tables.Get(a)) == ExactPass(Keys(a, Bases(before))[..|done|], Keys(a, answer)[..|done|], t0.Get(a))
    && tables == t0.Set(a, tables.Get(a))
  }

  /** One more position of phase 1. */
  lemma ExactProgressStep(
    row: seq<CalculatedCharacter>, tables: Quotas, before: seq<CalculatedCharacter>, answer: seq<Character>,
    a: Attribute, t0: Quotas, done: seq<State>)
    requires |before| == |answer| && |done| < |before|
    requires ExactProgress(row, tables, before, answer, a, t0, done)
    ensures var i := |done|;
            var step := ExactStep(Key(a, row[i].Base()), Key(a, answer[i]), tables.Get(a));
            && row[i] == before[i]
            && ExactProgress(row[i := WithState(row[i], a, step.0)], tables.Set(a, step.1), before, answer, a, t0, done + [step.0])
  {
    var i := |done|;
    var guess, target := Keys(a, Bases(before)), Keys(a, answer);
    UpdatedSnoc(before, a, done, Missing);
    var step := ExactStep(Key(a, row[i].Base()), Key(a, answer[i]), tables.Get(a));
    UpdatedSnoc(before, a, done, step.0);
    assert guess[i] == Key(a, before[i].Base()) && target[i] == Key(a, answer[i]);
    ExactPassSnoc(guess, target, t0.Get(a), i);
    assert guess[..i + 1][..i] == guess[..i] && target[..i + 1][..i] == target[..i];
    SetTwice(t0, a, tables.Get(a), step.1);
  }

  /** Phase 1 of attribute `a` in place, over the whole row. */
  method MarkExact(res: array<CalculatedCharacter>, count: PinyinCount, answer: seq<Character>, a: Attribute)
    requires res.Length == |answer|
    requires AllMissing(res[..], a)
    modifies res, count
    ensures var pass := ExactPass(Keys(a, Bases(old(res[..]))), Keys(a, answer), old(count.Table(a)));
            res[..] == Updated(old(res[..]), a, pass.0)
    ensures var pass := ExactPass(Keys(a, Bases(old(res[..]))), Keys(a, answer), old(count.Table(a)));
            count.Tables() == old(count.Tables()).Set(a, pass.1)
  {
    ghost var before := res[..];
    ghost var t0 := count.Tables();
    ghost var done: seq<State> := [];
    SetGet(t0, a);
    for i := 0 to res.Length
      invariant |done| == i && ExactProgress(res[..], count.Tables(), before, answer, a, t0, done)
    {
      ExactProgressStep(res[..], count.Tables(), before, answer, a, t0, done);
      MarkExactAt(res, count, answer, a, i);
      done := done + [res[i].result.Get(a)];
    }
    assert Keys(a, Bases(before))[..res.Length] == Keys(a, Bases(before));
    assert Keys(a, answer)[..res.Length] == Keys(a, answer);
  }

  /** Phase 2 of attribute `a` at position `i`: a character still `Missing` whose value is in
      the table with quota left is marked `Misplaced` and consumes one unit. */
  method MarkMisplacedAt(res: array<CalculatedCharacter>, count: PinyinCount, a: Attribute, i: nat)
    requires i < res.Length
    modifies res, count
    ensures var step := MisplacedStep(Key(a, old(res[i]).Base()), old(res[i]).result.Get(a), old(count.Table(a)));
            && res[..] == old(res[..])[i := WithState(old(res[i]), a, step.0)]
            && count.Tables() == old(count.Tables()).Set(a, step.1)
  {
    var c := res[i];
    assert c == WithState(c, a, c.result.Get(a));
    SetGet(count.Tables(), a);
    if c.result.Get(a) == Missing && count.ContainsKey(a, c.Base()) {
      var ok := count.MatchChar(a, c.Base());
      if ok {
        res[i] := WithState(c, a, Misplaced);
      }
    }
  }

  /** After phase 2 has visited the first `|done|` positions of `before`, as `ExactProgress`. */
  ghost predicate MisplacedProgress(
    row: seq<CalculatedCharacter>, tables: Quotas, before: seq<CalculatedCharacter>,
    a: Attribute, t0: Quotas, done: seq<State>)
  {
    && |done| <= |before|
    && row == Updated(before, a, done)
    && (done, tables.Get(a))
       == MisplacedPass(Keys(a, Bases(before))[..|done|], StatesOf(before, a)[..|done|], t0.Get(a))
    && tables == t0.Set(a, tables.Get(a))
  }

  /** One more position of phase 2. */
  lemma MisplacedProgressStep(
    row: seq<CalculatedCharacter>, tables: Quotas, before: seq<CalculatedCharacter>,
    a: Attribute, t0: Quotas, done: seq<State>)
    requires |done| < |before|
    requires MisplacedProgress(row, tables, before, a, t0, done)
    ensures var i := |done|;
            var step := MisplacedStep(Key(a, row[i].Base()), row[i].result.Get(a), tables.Get(a));
            && row[i] == before[i]
            && MisplacedProgress(row[i := WithState(row[i], a, step.0)], tables.Set(a, step.1), before, a, t0, done + [step.0])
  {
    var i := |done|;
    var guess, marks := Keys(a, Bases(before)), StatesOf(before, a);
    UpdatedSnoc(before, a, done, Missing);
    var step := MisplacedStep(Key(a, row[i].Base()), row[i].result.Get(a), tables.Get(a));
    UpdatedSnoc(before, a, done, step.0);
    assert guess[i] == Key(a, before[i].Base()) && marks[i] == before[i].result.Get(a);
    MisplacedPassSnoc(guess, marks, t0.Get(a), i);
    assert guess[..i + 1][..i] == guess[..i] && marks[..i + 1][..i] == marks[..i];
    SetTwice(t0, a, tables.Get(a), step.1);
  }

  /** Phase 2 of attribute `a` in place, left to right over the row. */
  method MarkMisplaced(res: array<CalculatedCharacter>, count: PinyinCount, a: Attribute)
    modifies res, count
    ensures var pass := MisplacedPass(Keys(a, Bases(old(res[..]))), StatesOf(old(res[..]), a), old(count.Table(a)));
            res[..] == Updated(old(res[..]), a, pass.0)
    ensures var pass := MisplacedPass(Keys(a, Bases(old(res[..]))), StatesOf(old(res[..]), a), old(count.Table(a)));
            count.Tables() == old(count.Tables()).Set(a, pass.1)
  {
    ghost var before := res[..];
    ghost var t0 := count.Tables();
    ghost var done: seq<State> := [];
    SetGet(t0, a);
    for i := 0 to res.Length
      invariant |done| == i && MisplacedProgress(res[..], count.Tables(), before, a, t0, done)
    {
      MisplacedProgressStep(res[..], count.Tables(), before, a, t0, done);
      MarkMisplacedAt(res, count, a, i);
      done := done + [res[i].result.Get(a)];
    }
    assert Keys(a, Bases(before))[..res.Length] == Keys(a, Bases(before));
    assert StatesOf(before, a)[..res.Length] == StatesOf(before, a);
  }

  /** Both phases of attribute `a`, against a quota table still as counted from the answer:
      the row's states of `a` become the attribute's two-phase score, nothing else in the row
      changes, and only the table of `a` is consumed. */
  method MarkAttribute(res: array<CalculatedCharacter>, count: PinyinCount, answer: seq<Character>, a: Attribute)
    requires res.Length == |answer|
    requires AllMissing(res[..], a)
    requires count.Table(a) == Tally(Keys(a, answer))
    modifies res, count
    ensures res[..] == Updated(old(res[..]), a, ChannelScore(Keys(a, Bases(old(res[..]))), Keys(a, answer)))
    ensures count.Tables() == old(count.Tables()).Set(a, count.Table(a))
  {
    ghost var before := res[..];
    ghost var t0 := count.Tables();
    ghost var guess := Keys(a, Bases(before));
    ghost var exact := ExactPass(guess, Keys(a, answer), Tally(Keys(a, answer)));
    MarkExact(res, count, answer, a);
    ghost var mid := res[..];
    ghost var t1 := count.Tables();
    UpdatedFrame(before, a, exact.0);
    MarkMisplaced(res, count, a);
    UpdatedTwice(before, a, exact.0, MisplacedPass(guess, exact.0, exact.1).0);
    SetTwice(t0, a, t1.Get(a), count.Table(a));
  }

  /** Replacing the states of `a` twice keeps the second replacement. */
  lemma UpdatedTwice(before: seq<CalculatedCharacter>, a: Attribute, s1: seq<State>, s2: seq<State>)
    requires |s1| == |s2| == |before|
    ensures Updated(Updated(before, a, s1), a, s2) == Updated(before, a, s2)
  {
    var u := Updated(Updated(before, a, s1), a, s2);
    var v := Updated(before, a, s2);
    assert forall j :: 0 <= j < |before| ==> u[j] == v[j];
  }

  /** The fresh row of an attempt's characters, every state `Missing`. */
  function Fresh(cs: seq<Character>): (r: seq<CalculatedCharacter>)
    ensures |r| == |cs| && Bases(r) == cs
    ensures forall a :: StatesOf(r, a) == seq(|cs|, _ => Missing)
  {
    seq(|cs|, i requires 0 <= i < |cs| => FromCharacter(cs[i]))
  }

  /** The position of each attribute in the order `CalculatedAttempt::from_attempt` marks them. */
  function Rank(a: Attribute): (n: nat)
    ensures n < 5
  {
    match a
    case Whole => 0
    case Pronunciation => 1
    case Initial => 2
    case Vowel => 3
    case Tone => 4
  }

  /** The attribute marked `n`-th. */
  function Nth(n: nat): (a: Attribute)
    requires n < 5
    ensures Rank(a) == n
  {
    if n == 0 then Whole else if n == 1 then Pronunciation else if n == 2 then Initial
    else if n == 3 then Vowel else Tone
  }

  /** The row after the first `n` attributes have been marked on the fresh row. */
  ghost function Marked(cs: seq<Character>, answer: seq<Character>, n: nat): (r: seq<CalculatedCharacter>)
    requires |cs| == |answer| && n <= 5
    ensures |r| == |cs|
  {
    if n == 0 then Fresh(cs)
    else Updated(Marked(cs, answer, n - 1), Nth(n - 1), AttributeStates(Nth(n - 1), cs, answer))
  }

  /** After `n` attributes are marked, the row keeps the attempt's characters, carries the
      two-phase scores of the marked attributes and is still unmarked for the others. */
  lemma {:induction false} MarkedStates(cs: seq<Character>, answer: seq<Character>, n: nat)
    requires |cs| == |answer| && n <= 5
    ensures Bases(Marked(cs, answer, n)) == cs
    ensures forall b :: Rank(b) < n ==> StatesOf(Marked(cs, answer, n), b) == AttributeStates(b, cs, answer)
    ensures forall b :: Rank(b) >= n ==> StatesOf(Marked(cs, answer, n), b) == seq(|cs|, _ => Missing)
  {
    if n > 0 {
      MarkedStates(cs, answer, n - 1);
      UpdatedFrame(Marked(cs, answer, n - 1), Nth(n - 1), AttributeStates(Nth(n - 1), cs, answer));
    }
  }

  /** Before the `n`-th attribute is marked: the row is `Marked(cs, answer, n)` and every
      attribute still to come has its quota table as counted from the answer. */
  ghost predicate Stage(row: seq<CalculatedCharacter>, tables: Quotas, cs: seq<Character>, answer: seq<Character>, n: nat)
    requires |cs| == |answer| && n <= 5
  {
    && row == Marked(cs, answer, n)
    && forall b :: Rank(b) >= n ==> tables.Get(b) == Tally(Keys(b, answer))
  }

  /** At stage `n` the `n`-th attribute can be marked: its states are all `Missing` and its
      table is as counted. */
  lemma StageReady(row: seq<CalculatedCharacter>, tables: Quotas, cs: seq<Character>, answer: seq<Character>, n: nat)
    requires |cs| == |answer| && n < 5
    requires Stage(row, tables, cs, answer, n)
    ensures Bases(row) == cs
    ensures AllMissing(row, Nth(n)) && tables.Get(Nth(n)) == Tally(Keys(Nth(n), answer))
  {
    MarkedStates(cs, answer, n);
    assert forall i :: 0 <= i < |row| ==> row[i].result.Get(Nth(n)) == StatesOf(row, Nth(n))[i];
  }

  /** Marking the `n`-th attribute with its two-phase score and consuming only its table
      reaches the next stage. */
  lemma StageNext(
    row: seq<CalculatedCharacter>, tables: Quotas, cs: seq<Character>, answer: seq<Character>, n: nat,
    row': seq<CalculatedCharacter>, tables': Quotas)
    requires |cs| == |answer| && n < 5
    requires Stage(row, tables, cs, answer, n)
    requires row' == Updated(row, Nth(n), ChannelScore(Keys(Nth(n), Bases(row)), Keys(Nth(n), answer)))
    requires tables' == tables.Set(Nth(n), tables'.Get(Nth(n)))
    ensures Stage(row', tables', cs, answer, n + 1)
  {
    MarkedStates(cs, answer, n);
  }

  /** Marking the five attributes in turn on the fresh row gives the scored characters. */
  lemma ScoredByAttributes(cs: seq<Character>, answer: seq<Character>)
    requires |cs| == |answer|
    ensures Marked(cs, answer, 5) == Scored(cs, answer)
  {
    var m := Marked(cs, answer, 5);
    var s := Scored(cs, answer);
    MarkedStates(cs, answer, 5);
    var whole, pron, initial, vowel, tone := StatesOf(m, Whole), StatesOf(m, Pronunciation), StatesOf(m, Initial),
      StatesOf(m, Vowel), StatesOf(m, Tone);
    assert whole == AttributeStates(Whole, cs, answer);
    assert pron == AttributeStates(Pronunciation, cs, answer);
    assert initial == AttributeStates(Initial, cs, answer);
    assert vowel == AttributeStates(Vowel, cs, answer);
    assert tone == AttributeStates(Tone, cs, answer);
    forall j | 0 <= j < |cs|
      ensures m[j] == s[j]
    {
      RowAt(m, j);
    }
  }

  /** A scored character is determined by its character and its five states. */
  lemma RowAt(rs: seq<CalculatedCharacter>, j: nat)
    requires j < |rs|
    ensures rs[j] == CalculatedCharacter(Bases(rs)[j].literal, Bases(rs)[j].pinyin, CharacterResult(
              StatesOf(rs, Whole)[j], StatesOf(rs, Pronunciation)[j], StatesOf(rs, Initial)[j],
              StatesOf(rs, Vowel)[j], StatesOf(rs, Tone)[j]))
  {
  }

  /** The five attribute blocks of `CalculatedAttempt::from_attempt`, in place on the row of
      scored characters: whole character, pronunciation, initial, vowel, then tone. */
  method MarkAttributes(res: array<CalculatedCharacter>, count: PinyinCount, cs: seq<Character>, answer: seq<Character>)
    requires res.Length == |cs| == |answer|
    requires res[..] == Fresh(cs) && count.Tables() == Counted(answer)
    modifies res, count
    ensures res[..] == Scored(cs, answer)
  {
    ghost var row, tables := res[..], count.Tables();

    StageReady(row, tables, cs, answer, 0);
    MarkAttribute(res, count, answer, Whole);
    StageNext(row, tables, cs, answer, 0, res[..], count.Tables());

    row, tables := res[..], count.Tables();
    StageReady(row, tables, cs, answer, 1);
    MarkAttribute(res, count, answer, Pronunciation);
    StageNext(row, tables, cs, answer, 1, res[..], count.Tables());

    row, tables := res[..], count.Tables();
    StageReady(row, tables, cs, answer, 2);
    MarkAttribute(res, count, answer, Initial);
    StageNext(row, tables, cs, answer, 2, res[..], count.Tables());

    row, tables := res[..], count.Tables();
    StageReady(row, tables, cs, answer, 3);
    MarkAttribute(res, count, answer, Vowel);
    StageNext(row, tables, cs, answer, 3, res[..], count.Tables());

    row, tables := res[..], count.Tables();
    StageReady(row, tables, cs, answer, 4);
    MarkAttribute(res, count, answer, Tone);
    StageNext(row, tables, cs, answer, 4, res[..], count.Tables());
    ScoredByAttributes(cs, answer);
  }

  /** `characters.map(Into::into)`: a new row of the attempt's characters, nothing marked yet. */
  method NewRow(cs: seq<Character>) returns (res: array<CalculatedCharacter>)
    ensures fresh(res) && res[..] == Fresh(cs)
  {
    res := new CalculatedCharacter[|cs|](i requires 0 <= i < |cs| => FromCharacter(cs[i]));
    assert res[..] == Fresh(cs);
  }

  /** With an answer of the idiom length, an attempt that reads scores its characters in full. */
  lemma ScoreByCharacters(cfg: Config, answer: seq<Character>, attempt: Attempt)
    requires AsciiInitials(cfg)
    requires |answer| == cfg.idiomLength
    ensures var cs := ToCharacters(cfg, attempt);
            cs.Success? ==> |cs.value| == |answer| && Score(cfg, answer, attempt) == Success(CalculatedAttempt(Scored(cs.value, answer)))
    ensures var cs := ToCharacters(cfg, attempt);
            cs.Failure? ==> Score(cfg, answer, attempt) == Failure(cs.error)
  {
  }

  /** `CalculatedAttempt::from_attempt` as the source runs it: count the answer, read the
      attempt (returning its error), then the two passes of each attribute in turn over the
      row of scored characters, in place. */
  method ScoreAttempt(cfg: Config, answer: seq<Character>, attempt: Attempt) returns (r: Result<CalculatedAttempt, IdiomError>)
    requires AsciiInitials(cfg)
    requires |answer| == cfg.idiomLength
    ensures r == Score(cfg, answer, attempt)
  {
    var count := new PinyinCount.FromAttempt(answer);
    var characters := ToCharacters(cfg, attempt);
    ScoreByCharacters(cfg, answer, attempt);
    if characters.Failure? {
      return Failure(characters.error);
    }
    var cs := characters.value;
    var res := NewRow(cs);
    MarkAttributes(res, count, cs, answer);
    r := Success(CalculatedAttempt(res[..]));
  }
}
