/** The game's data model (src/model.rs): requests, syllables, characters, the three
    feedback states, and the quota table `PinyinCount` with its `match_*` operations. */
module Model {
  import opened Wrappers

  /** Rust's `u8`. */
  newtype u8 = x: int | 0 <= x < 256

  /** The values of the `constant` module, which is not part of this model, as parameters:
      the initial-consonant letters, the subset of them that may be followed by `h`,
      the idiom length (4 in practice) and the attempt limit. */
  datatype Config = Config(
    initials: set<string>,
    specialInitials: set<string>,
    idiomLength: nat,
    maxAttemptCount: nat)

  /** Every one-letter initial is an ASCII letter, so its UTF-8 byte length is one. */
  predicate AsciiInitials(cfg: Config)
  {
    forall s :: s in cfg.initials && |s| == 1 ==> s[0] < '\U{80}'
  }

  datatype PinyinError =
    | InvalidLength(length: nat)
    | InvalidTone(tone: u8)
      /** Stands for the panic of `chars.first().unwrap()` on a token that was only a tone digit. */
    | UnwrapOnEmpty

  datatype IdiomError =
    | InconsistentLength(words: nat, pinyins: nat, expected: nat)
    | InvalidPinyin(cause: PinyinError)

  datatype Answer = Answer(word: string, pinyin: string, explanation: string)

  datatype Attempt = Attempt(word: string, pinyin: string, verified: Option<bool>)

  datatype Input = Input(answer: Attempt, attempts: seq<Attempt>)

  datatype ToneExplicit = High | Rising | Low | Falling

  /** `Tone::from_num`: no digit and 0 mean no tone, 1 to 4 the four tones, anything else fails. */
  function ToneFromNum(num: Option<u8>): (r: Result<Option<ToneExplicit>, PinyinError>)
    ensures r.Failure? <==> num.Some? && num.value > 4
    ensures r.Failure? ==> r.error == InvalidTone(num.value)
    ensures r.Success? ==> (r.value.None? <==> num == None || num == Some(0))
  {
    match num
    case None => Success(None)
    case Some(d) =>
      if d == 0 then Success(None)
      else if d == 1 then Success(Some(High))
      else if d == 2 then Success(Some(Rising))
      else if d == 3 then Success(Some(Low))
      else if d == 4 then Success(Some(Falling))
      else Failure(InvalidTone(d))
  }

  /** `Display for Tone`. The table in the body is the specification: High, Rising, Low and
      Falling render as "1" to "4" and no tone as ""; the contract gives its range. */
  function ToneToString(t: Option<ToneExplicit>): (r: string)
    ensures r == "" <==> t.None?
    ensures r != "" ==> |r| == 1 && '1' <= r[0] <= '4'
  {
    match t
    case Some(High) => "1"
    case Some(Rising) => "2"
    case Some(Low) => "3"
    case Some(Falling) => "4"
    case None => ""
  }

  /** Rendering a parsed tone digit gives the digit back; no digit and 0 render as "". */
  lemma ToneRoundTrip(d: u8)
    requires d <= 4
    ensures ToneFromNum(Some(d)).Success?
    ensures ToneToString(ToneFromNum(Some(d)).value) == if d == 0 then "" else [('0' as int + d as int) as char]
    ensures ToneToString(ToneFromNum(None).value) == ""
  {
  }

  /** Rendering is injective, so tones and their rendered keys determine each other. */
  lemma ToneToStringInjective(a: Option<ToneExplicit>, b: Option<ToneExplicit>)
    ensures ToneToString(a) == ToneToString(b) <==> a == b
  {
  }

  datatype Pinyin = Pinyin(
    pronunciation: string,
    initial: Option<string>,
    vowel: string,
    tone: Option<ToneExplicit>)

  /** A character of an idiom; its accessors are those of `CharInfo`. */
  datatype Character = Character(literal: string, pinyin: Pinyin)
  {
    function Literal(): string { literal }
    function Pronunciation(): string { pinyin.pronunciation }
    function Initial(): Option<string> { pinyin.initial }
    function Vowel(): string { pinyin.vowel }
    function Tone(): Option<ToneExplicit> { pinyin.tone }
  }

  datatype State = Correct | Misplaced | Missing

  /** `Display for State`. The table in the body is the specification: each state renders as
      its own name in lower case; the contract gives the range. */
  function StateToString(s: State): (r: string)
    ensures r in {"correct", "misplaced", "missing"}
  {
    match s
    case Correct => "correct"
    case Misplaced => "misplaced"
    case Missing => "missing"
  }

  /** The rendering tells the three states apart. */
  lemma StateToStringInjective(a: State, b: State)
    ensures StateToString(a) == StateToString(b) <==> a == b
  {
  }

  /** The five attributes a character is scored on, in the order they are scored. */
  datatype Attribute = Whole | Pronunciation | Initial | Vowel | Tone

  datatype CharacterResult = CharacterResult(
    whole: State,
    pronunciation: State,
    initial: State,
    vowel: State,
    tone: State)
  {
    function Get(a: Attribute): State
    {
      match a
      case Whole => whole
      case Pronunciation => pronunciation
      case Initial => initial
      case Vowel => vowel
      case Tone => tone
    }

    function Set(a: Attribute, s: State): (r: CharacterResult)
      ensures r.Get(a) == s
      ensures forall b :: b != a ==> r.Get(b) == Get(b)
    {
      match a
      case Whole => this.(whole := s)
      case Pronunciation => this.(pronunciation := s)
      case Initial => this.(initial := s)
      case Vowel => this.(vowel := s)
      case Tone => this.(tone := s)
    }
  }

  /** `CharacterResult::default()`: `State` defaults to `Missing` in every attribute. */
  function DefaultResult(): (r: CharacterResult)
    ensures forall a :: r.Get(a) == Missing
  {
    CharacterResult(Missing, Missing, Missing, Missing, Missing)
  }

  /** A scored character; `Base` is its `CharInfo` view. */
  datatype CalculatedCharacter = CalculatedCharacter(literal: string, pinyin: Pinyin, result: CharacterResult)
  {
    function Base(): Character { Character(literal, pinyin) }
  }

  /** `From<Character> for CalculatedCharacter`: same literal and syllable, every state `Missing`. */
  function FromCharacter(c: Character): (cc: CalculatedCharacter)
    ensures cc.Base() == c
    ensures forall a :: cc.result.Get(a) == Missing
  {
    CalculatedCharacter(c.literal, c.pinyin, DefaultResult())
  }

  /** The scored form of an attempt; its `verified` flag is not modelled. */
  datatype CalculatedAttempt = CalculatedAttempt(characters: seq<CalculatedCharacter>)

  datatype Output = Output(result: seq<CalculatedAttempt>, maxAttemptCount: nat, finished: bool)

  /** The value an attribute is counted under in the quota table; `None` when the
      character has no initial or no tone, which is never counted. */
  function Key(a: Attribute, c: Character): Option<string>
  {
    match a
    case Whole => Some(c.Literal())
    case Pronunciation => Some(c.Pronunciation())
    case Initial => c.Initial()
    case Vowel => Some(c.Vowel())
    case Tone => if c.Tone().None? then None else Some(ToneToString(c.Tone()))
  }

  /** The exact-position comparison of the scorer: plain equality of the attribute, so two
      absent initials, or two absent tones, compare equal. */
  predicate Same(a: Attribute, x: Character, y: Character)
  {
    match a
    case Whole => x.Literal() == y.Literal()
    case Pronunciation => x.Pronunciation() == y.Pronunciation()
    case Initial => x.Initial() == y.Initial()
    case Vowel => x.Vowel() == y.Vowel()
    case Tone => x.Tone() == y.Tone()
  }

  /** Comparing attributes and comparing their quota keys agree. */
  lemma SameIffKeyEqual(a: Attribute, x: Character, y: Character)
    ensures Same(a, x, y) <==> Key(a, x) == Key(a, y)
  {
    if a == Tone {
      ToneToStringInjective(x.Tone(), y.Tone());
    }
  }

  function Keys(a: Attribute, cs: seq<Character>): seq<Option<string>>
  {
    seq(|cs|, i requires 0 <= i < |cs| => Key(a, cs[i]))
  }

  /** Remaining quota of `k`; a key missing from the map has none. */
  function Avail(q: map<string, nat>, k: string): nat
  {
    if k in q then q[k] else 0
  }

  /** One `match_*` call on a quota map: when the key is present with a positive count, that
      count goes down by one and the call succeeds; otherwise nothing changes. */
  function Take(q: map<string, nat>, key: Option<string>): (r: (bool, map<string, nat>))
    ensures r.0 <==> key.Some? && Avail(q, key.value) > 0
    ensures r.1.Keys == q.Keys
    ensures !r.0 ==> r.1 == q
    ensures forall k :: Avail(r.1, k) == if r.0 && k == key.value then Avail(q, k) - 1 else Avail(q, k)
  {
    if key.Some? && key.value in q && q[key.value] > 0 then
      (true, q[key.value := q[key.value] - 1])
    else
      (false, q)
  }

  /** `*map.entry(k).or_insert(0) += 1`. */
  function Bump(m: map<string, nat>, k: string): map<string, nat>
  {
    m[k := Avail(m, k) + 1]
  }

  /** The count map the quota builder leaves for one attribute, built as the source builds it:
      one increment per defined key of the answer, in order. */
  function Tally(keys: seq<Option<string>>): (m: map<string, nat>)
    ensures forall k :: k in m ==> m[k] > 0
  {
    if keys == [] then map[]
    else
      var n := |keys| - 1;
      match keys[n]
      case None => Tally(keys[..n])
      case Some(k) => Bump(Tally(keys[..n]), k)
  }

  /** Each defined key of the answer maps to the number of answer positions carrying it,
      and nothing else is a key. */
  lemma {:induction false} TallyCounts(keys: seq<Option<string>>)
    ensures forall k :: k in Tally(keys) <==> Some(k) in keys
    ensures forall k :: Avail(Tally(keys), k) == multiset(keys)[Some(k)]
  {
    if keys != [] {
      var n := |keys| - 1;
      TallyCounts(keys[..n]);
      assert keys == keys[..n] + [keys[n]];
    }
  }

  /** Counting one more key: a defined key is incremented, an absent one ignored. */
  lemma TallySnoc(keys: seq<Option<string>>, key: Option<string>)
    ensures Tally(keys + [key]) == if key.Some? then Bump(Tally(keys), key.value) else Tally(keys)
  {
    assert (keys + [key])[..|keys|] == keys;
  }

  /** Sum of the counts of a quota map. */
  ghost function Total(m: map<string, nat>): nat
    decreases |m.Keys|
  {
    if m == map[] then 0
    else
      var k :| k in m;
      m[k] + Total(m - {k})
  }

  /** The sum may be taken by removing any key first. */
  lemma {:induction false} TotalRemove(m: map<string, nat>, k: string)
    requires k in m
    ensures Total(m) == m[k] + Total(m - {k})
    decreases |m.Keys|
  {
    var j :| j in m && Total(m) == m[j] + Total(m - {j});
    if j != k {
      TotalRemove(m - {j}, k);
      TotalRemove(m - {k}, j);
      assert m - {j} - {k} == m - {k} - {j};
    }
  }

  /** One increment adds one to the sum. */
  lemma TotalBump(m: map<string, nat>, k: string)
    ensures Total(Bump(m, k)) == Total(m) + 1
  {
    var b := Bump(m, k);
    TotalRemove(b, k);
    if k in m {
      TotalRemove(m, k);
      assert b - {k} == m - {k};
    } else {
      assert b - {k} == m;
    }
  }

  /** Counting keys that are all defined gives counts that add up to the number of keys. */
  lemma {:induction false} TallyTotal(keys: seq<Option<string>>)
    requires forall i :: 0 <= i < |keys| ==> keys[i].Some?
    ensures Total(Tally(keys)) == |keys|
  {
    if keys != [] {
      var n := |keys| - 1;
      TallyTotal(keys[..n]);
      TotalBump(Tally(keys[..n]), keys[n].value);
    }
  }

  /** Every character has a literal, so the literal counts of an answer add up to its
      length, `IDIOM_LENGTH` for a valid answer. */
  lemma LiteralCountsSum(answer: seq<Character>)
    ensures Total(Counted(answer).literals) == |answer|
  {
    assert Counted(answer).literals == Counted(answer).Get(Whole);
    TallyTotal(Keys(Whole, answer));
  }

  lemma KeysSnoc(a: Attribute, cs: seq<Character>, i: nat)
    requires i < |cs|
    ensures Keys(a, cs[..i + 1]) == Keys(a, cs[..i]) + [Key(a, cs[i])]
  {
  }

  /** The five quota maps of a `PinyinCount`, as one value. */
  datatype Quotas = Quotas(
    literals: map<string, nat>,
    pronunciations: map<string, nat>,
    initials: map<string, nat>,
    vowels: map<string, nat>,
    tones: map<string, nat>)
  {
    function Get(a: Attribute): map<string, nat>
    {
      match a
      case Whole => literals
      case Pronunciation => pronunciations
      case Initial => initials
      case Vowel => vowels
      case Tone => tones
    }

    function Set(a: Attribute, m: map<string, nat>): (r: Quotas)
      ensures r.Get(a) == m
      ensures forall b :: b != a ==> r.Get(b) == Get(b)
    {
      match a
      case Whole => this.(literals := m)
      case Pronunciation => this.(pronunciations := m)
      case Initial => this.(initials := m)
      case Vowel => this.(vowels := m)
      case Tone => this.(tones := m)
    }
  }

  /** Replacing a map by itself changes nothing. */
  lemma SetGet(t: Quotas, a: Attribute)
    ensures t.Set(a, t.Get(a)) == t
  {
  }

  /** Replacing one map twice keeps only the second replacement. */
  lemma SetTwice(t: Quotas, a: Attribute, m: map<string, nat>, m': map<string, nat>)
    ensures t.Set(a, m).Set(a, m') == t.Set(a, m')
  {
  }

  /** The quota maps counted from an answer's characters, one per attribute. */
  function Counted(answer: seq<Character>): (r: Quotas)
    ensures forall a :: r.Get(a) == Tally(Keys(a, answer))
  {
    Quotas(Tally(Keys(Whole, answer)), Tally(Keys(Pronunciation, answer)), Tally(Keys(Initial, answer)),
           Tally(Keys(Vowel, answer)), Tally(Keys(Tone, answer)))
  }

  /** What one character of the answer adds to the quota maps: one more of each of its
      attribute values, its initial and tone only when it has them. */
  function CountStep(q: Quotas, c: Character): (r: Quotas)
    ensures forall a :: r.Get(a) == if Key(a, c).Some? then Bump(q.Get(a), Key(a, c).value) else q.Get(a)
  {
    Quotas(
      Bump(q.literals, c.Literal()),
      Bump(q.pronunciations, c.Pronunciation()),
      if c.Initial().Some? then Bump(q.initials, c.Initial().value) else q.initials,
      Bump(q.vowels, c.Vowel()),
      if c.Tone().Some? then Bump(q.tones, ToneToString(c.Tone())) else q.tones)
  }

  /** Counting one more character of the answer is one `CountStep`. */
  lemma CountedSnoc(answer: seq<Character>, i: nat)
    requires i < |answer|
    ensures Counted(answer[..i + 1]) == CountStep(Counted(answer[..i]), answer[i])
  {
    forall a
      ensures Counted(answer[..i + 1]).Get(a) == CountStep(Counted(answer[..i]), answer[i]).Get(a)
    {
      KeysSnoc(a, answer, i);
      TallySnoc(Keys(a, answer[..i]), Key(a, answer[i]));
    }
    QuotasEqual(Counted(answer[..i + 1]), CountStep(Counted(answer[..i]), answer[i]));
  }

  /** Two quota snapshots with the same five maps are equal. */
  lemma QuotasEqual(x: Quotas, y: Quotas)
    requires forall a :: x.Get(a) == y.Get(a)
    ensures x == y
  {
    assert x.Get(Whole) == y.Get(Whole) && x.Get(Pronunciation) == y.Get(Pronunciation);
    assert x.Get(Initial) == y.Get(Initial) && x.Get(Vowel) == y.Get(Vowel) && x.Get(Tone) == y.Get(Tone);
  }

  /** `PinyinCount`: one quota map per attribute. */
  class PinyinCount {
    var literals: map<string, nat>
    var pronunciations: map<string, nat>
    var initials: map<string, nat>
    var vowels: map<string, nat>
    var tones: map<string, nat>

    function Tables(): Quotas
      reads this
    {
      Quotas(literals, pronunciations, initials, vowels, tones)
    }

    function Table(a: Attribute): map<string, nat>
      reads this
    {
      Tables().Get(a)
    }

    /** `PinyinCount::from_attempt`: one pass over the answer, counting every attribute value. */
    constructor FromAttempt(answer: seq<Character>)
      ensures Tables() == Counted(answer)
    {
      var lits, prons, inits, vows, tns := map[], map[], map[], map[], map[];
      var i := 0;
      while i < |answer|
        invariant 0 <= i <= |answer|
        invariant Quotas(lits, prons, inits, vows, tns) == Counted(answer[..i])
      {
        var c := answer[i];
        lits := Bump(lits, c.Literal());
        prons := Bump(prons, c.Pronunciation());
        if c.Initial().Some? {
          inits := Bump(inits, c.Initial().value);
        }
        vows := Bump(vows, c.Vowel());
        if c.Tone().Some? {
          tns := Bump(tns, ToneToString(c.Tone()));
        }
        CountedSnoc(answer, i);
        i := i + 1;
      }
      assert answer[..i] == answer;
      literals, pronunciations, initials, vowels, tones := lits, prons, inits, vows, tns;
    }

    method MatchInitial(initial: string) returns (ok: bool)
      modifies this`initials
      ensures (ok, initials) == Take(old(initials), Some(initial))
    {
      ok := false;
      if initial in initials {
        var v := initials[initial];
        if v > 0 {
          initials := initials[initial := v - 1];
          ok := true;
        }
      }
    }

    method MatchInitialChar(c: Character) returns (ok: bool)
      modifies this`initials
      ensures (ok, initials) == Take(old(initials), c.Initial())
    {
      if c.Initial().Some? {
        ok := MatchInitial(c.Initial().value);
      } else {
        ok := false;
      }
    }

    method MatchVowel(vowel: string) returns (ok: bool)
      modifies this`vowels
      ensures (ok, vowels) == Take(old(vowels), Some(vowel))
    {
      ok := false;
      if vowel in vowels {
        var v := vowels[vowel];
        if v > 0 {
          vowels := vowels[vowel := v - 1];
          ok := true;
        }
      }
    }

    method MatchVowelChar(c: Character) returns (ok: bool)
      modifies this`vowels
      ensures (ok, vowels) == Take(old(vowels), Some(c.Vowel()))
    {
      ok := MatchVowel(c.Vowel());
    }

    /** `match_tone` looks the tone up under its rendering, so no tone would be looked up as "". */
    method MatchTone(tone: Option<ToneExplicit>) returns (ok: bool)
      modifies this`tones
      ensures (ok, tones) == Take(old(tones), Some(ToneToString(tone)))
    {
      ok := false;
      var key := ToneToString(tone);
      if key in tones {
        var v := tones[key];
        if v > 0 {
          tones := tones[key := v - 1];
          ok := true;
        }
      }
    }

    method MatchToneChar(c: Character) returns (ok: bool)
      modifies this`tones
      ensures (ok, tones) == Take(old(tones), Key(Tone, c))
    {
      var tone := c.Tone();
      if tone.Some? {
        ok := MatchTone(tone);
      } else {
        ok := false;
      }
    }

    method MatchPronunciation(pronunciation: string) returns (ok: bool)
      modifies this`pronunciations
      ensures (ok, pronunciations) == Take(old(pronunciations), Some(pronunciation))
    {
      ok := false;
      if pronunciation in pronunciations {
        var v := pronunciations[pronunciation];
        if v > 0 {
          pronunciations := pronunciations[pronunciation := v - 1];
          ok := true;
        }
      }
    }

    method MatchPronunciationChar(c: Character) returns (ok: bool)
      modifies this`pronunciations
      ensures (ok, pronunciations) == Take(old(pronunciations), Some(c.Pronunciation()))
    {
      ok := MatchPronunciation(c.Pronunciation());
    }

    method MatchWholeChar(c: Character) returns (ok: bool)
      modifies this`literals
      ensures (ok, literals) == Take(old(literals), Some(c.Literal()))
    {
      ok := false;
      var literal := c.Literal();
      if literal in literals {
        var v := literals[literal];
        if v > 0 {
          literals := literals[literal := v - 1];
          ok := true;
        }
      }
    }

    /** The `match_*_char` call the scorer makes for attribute `a`; only that attribute's map changes. */
    method MatchChar(a: Attribute, c: Character) returns (ok: bool)
      modifies this
      ensures (ok, Table(a)) == Take(old(Table(a)), Key(a, c))
      ensures Tables() == old(Tables()).Set(a, Table(a))
    {
      match a
      case Whole => ok := MatchWholeChar(c);
      case Pronunciation => ok := MatchPronunciationChar(c);
      case Initial => ok := MatchInitialChar(c);
      case Vowel => ok := MatchVowelChar(c);
      case Tone => ok := MatchToneChar(c);
    }

    /** The `contains_key` guard of the misplaced pass for attribute `a`. When it fails, the
        match that would follow it could not have succeeded either. */
    function ContainsKey(a: Attribute, c: Character): (r: bool)
      reads this
      ensures !r ==> !Take(Table(a), Key(a, c)).0
    {
      match a
      case Whole => c.Literal() in literals
      case Pronunciation => c.Pronunciation() in pronunciations
      case Initial => c.Initial().Some? && c.Initial().value in initials
      case Vowel => c.Vowel() in vowels
      case Tone => ToneToString(c.Tone()) in tones
    }
  }
}
