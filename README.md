# Idiom Wordle scoring engine in Dafny

This project models the scoring engine of a Wordle-style game played with four-character
Chinese idioms, and proves properties of that model. In the game every character carries a
pinyin syllable, and a guess is scored per character in five attributes: the whole character,
its pronunciation, its initial, its vowel and its tone. Each attribute gets `Correct`,
`Misplaced` or `Missing`, from a two-phase, duplicate-aware match against the answer.

The modules follow the program's files:

- `Model` (`model.dfy`, for `src/model.rs`) holds the data model:
  - requests, syllables and characters;
  - tone decoding (`Tone::from_num`) and the `Display` renderings of tones and states;
  - the quota table `PinyinCount`, a class with one `map` per attribute. Its constructor
    `FromAttempt` is the counting loop of `PinyinCount::from_attempt`, and its `Match*` methods
    decrement the maps in place.
- `Game` (`game.dfy`, for `src/game.rs`) holds:
  - the syllable parser `ParsePinyin`;
  - the attempt validator `ToCharacters`;
  - the scorer. `ScoreAttempt` runs the source's ten in-place passes over an `array` of scored
    characters against a `PinyinCount`. It is proved equal to the specification function
    `Score`, and the properties of scoring are proved about `Score`.
- `Matching` (`matching.dfy`) is the two-phase match of one attribute, stated over the
  sequence of that attribute's keys. An absent initial or tone is the key `None`.
- `Route` (`route.dfy`, for `src/route.rs`) holds `ping`, the `finished` flag and result list
  of `attempt_inner`, and `try_get_pinyin`.
- `Dict` (`dict.dfy`, for `src/dict.rs`) is the first-occurrence reverse index `reserve_index`.
- `ProcessRaw` (`process_raw.dfy`, for `script/process-raw.py`) is the tone-mark-to-digit
  normaliser and the filter to four-character entries.
- `HighFrequency` (`high_frequency.dfy`, for `script/process-high-frequency.py`) is the
  last-occurrence reverse index and the answer-pool selection loop, capped at 3000.
- `Text` and `Wrappers` hold the few library string operations used, and `Option`, `Result`
  and the short-circuiting `collect` of results.

Assumptions and modelling choices:

- The `constant` module is not part of this model. `INITIALS`, `SPECIAL_INITIALS`,
  `IDIOM_LENGTH` and `MAX_ATTEMPT_COUNT` are fields of a `Config` parameter.
- The parser splits off the initial at its UTF-8 byte length (`initial.len()`, `src/game.rs:31`)
  and uses that as a character offset. The two agree only when the initials are ASCII, so every
  member that reads syllables requires `AsciiInitials(cfg)`: one-letter initials of one ASCII
  character.
- A token that is a single digit from 0 to 4 makes `chars.first().unwrap()` panic (`src/game.rs:25`). The
  model returns the explicit error `UnwrapOnEmpty` instead.
- Phase 1 compares initials and tones as `Option`s, so two absent values are `Correct`. Phase 2
  never marks an absent initial or tone `Misplaced`.
- Strings are `seq<char>` (Unicode scalar values, as Rust's `chars()` and Python's code points).
  `HashMap<String, usize>` and Python `dict`s are `map<string, nat>`, and a Python exception is
  `None`.

## Model

| member | source | states |
|---|---|---|
| Model.ToneFromNum | src/model.rs:47-58 | Fails exactly for a digit above 4, with `InvalidTone` of that digit; no digit and 0 give no tone |
| Model.ToneRoundTrip | src/model.rs:47-74 | For d from 0 to 4, decoding and then rendering gives d back, except that 0 and no digit render as "" |
| Model.ToneToString | src/model.rs:60-74 | No tone renders as "", and each of the four tones as one digit from 1 to 4 |
| Model.ToneToStringInjective | src/model.rs:60-74 | Two tones render alike exactly when they are equal, so a tone and its quota key determine each other |
| Model.StateToString | src/model.rs:134-146 | Every state renders as "correct", "misplaced" or "missing" |
| Model.StateToStringInjective | src/model.rs:134-146 | The three renderings are pairwise distinct |
| Model.DefaultResult | src/model.rs:124-132 | The default result is `Missing` in every attribute |
| Model.FromCharacter | src/game.rs:114-132 | Conversion keeps the literal and syllable, so every `CharInfo` accessor agrees, and starts every state at `Missing` |
| Model.SameIffKeyEqual | src/game.rs:144-230 | Comparing two characters' attribute, as phase 1 does, agrees with comparing their quota keys, absent initial or tone included |
| Model.Take | src/model.rs:158-241 | One `match_*` call succeeds exactly when the key is present with a positive count. It then lowers that count by one and leaves every other key alone; otherwise it leaves the map unchanged |
| Model.Tally | src/game.rs:85-108 | Every value counted by the `or_insert(0) += 1` loop has a positive count |
| Model.TallyCounts | src/game.rs:81-111 | The count of each defined value is the number of answer positions carrying it, and its keys are exactly those values |
| Model.TallySnoc | src/game.rs:85-108 | Counting one more position increments a defined value and ignores an absent one |
| Model.TotalBump | src/game.rs:86 | One `or_insert(0) += 1` adds one to the sum of the counts |
| Model.TallyTotal | src/game.rs:85-108 | Counts of keys that are all defined add up to the number of keys |
| Model.LiteralCountsSum | src/game.rs:86 | The literal counts of an answer add up to its length |
| Model.Counted | src/game.rs:81-111 | Each of the five quota maps is the count of that attribute's keys over the answer |
| Model.CountStep | src/game.rs:85-108 | One answer character bumps each of its defined attribute values |
| Model.CountedSnoc | src/game.rs:85-108 | Counting one more answer character is one `CountStep` |
| Model.PinyinCount.FromAttempt | src/game.rs:81-111 | The counting loop leaves the five maps equal to `Counted(answer)` |
| Model.PinyinCount.MatchInitial | src/model.rs:158-167 | The initials map and the result are those of `Take` on the initial |
| Model.PinyinCount.MatchInitialChar | src/model.rs:169-175 | As `Take` on the character's optional initial: with none, false and nothing changes |
| Model.PinyinCount.MatchVowel | src/model.rs:177-186 | The vowels map and the result are those of `Take` on the vowel |
| Model.PinyinCount.MatchVowelChar | src/model.rs:188-190 | As `Take` on the character's vowel |
| Model.PinyinCount.MatchTone | src/model.rs:192-201 | As `Take` on the tone's rendering |
| Model.PinyinCount.MatchToneChar | src/model.rs:203-210 | As `Take` on the character's tone key: with no tone, false and nothing changes |
| Model.PinyinCount.MatchPronunciation | src/model.rs:212-221 | As `Take` on the pronunciation |
| Model.PinyinCount.MatchPronunciationChar | src/model.rs:223-225 | As `Take` on the character's pronunciation |
| Model.PinyinCount.MatchWholeChar | src/model.rs:227-241 | As `Take` on the character's literal |
| Model.PinyinCount.MatchChar | src/model.rs:157-242 | The `match_*_char` for one attribute acts as `Take` on that attribute's map, and the other four maps are unchanged |
| Model.PinyinCount.ContainsKey | src/game.rs:154 | When the `contains_key` guard fails, the match it guards could not have succeeded |
| Game.TrailingDigit | src/game.rs:15 | A value exists exactly when the token ends in an ASCII digit, and it is that digit |
| Game.InitialOf | src/game.rs:24-37 | An initial exists exactly when the first letter is in `INITIALS`. It is a prefix of the pronunciation, two letters exactly when the first is in `SPECIAL_INITIALS` and the second is `h`, one letter otherwise |
| Game.ParsePinyin | src/game.rs:8-45 | Empty token iff `InvalidLength(0)`; final 5 to 9 iff `InvalidTone` of that digit; a token that is a single digit from 0 to 4 iff `UnwrapOnEmpty`. On success the pronunciation is the token without its digit, the initial is `InitialOf` it, initial then vowel spells it, and the tone is the digit's |
| Game.ParseWithToneDigit | src/game.rs:14-22 | A pronunciation followed by a digit from 0 to 4 reads back as that pronunciation and that digit's tone |
| Game.ParseOfRendered | src/game.rs:8-45 | Reading a rendered syllable gives back its pronunciation and tone, when the pronunciation does not end in a digit |
| Game.RenderOfParsed | src/game.rs:8-45 | Rendering a read syllable gives the token back exactly when the token does not end in 0 |
| Game.ParseRenderRoundTrip | src/game.rs:8-45 | Reading, rendering and reading again gives the same syllable |
| Game.ParseTokens | src/game.rs:54-58 | Succeeds iff every token reads, giving each token's syllable in order; otherwise fails with the leftmost bad token's error |
| Game.ToCharacters | src/game.rs:51-78 | Succeeds iff every token reads and the word's characters and the tokens both number `IDIOM_LENGTH`. On success, position i pairs word character i with syllable i |
| Game.ToCharactersError | src/game.rs:54-66 | A token error is reported before any length check; otherwise the error is `InconsistentLength(chars, tokens, IDIOM_LENGTH)` |
| Game.Scored | src/game.rs:141-142 | Every scored character keeps the attempt character's literal and syllable |
| Game.Score | src/game.rs:135-142 | Fails exactly when the attempt does not read, with the validator's error |
| Game.ScoredCorrectIff | src/game.rs:144-149 | An attribute is `Correct` exactly when it equals the answer's at that position, two absent values included |
| Game.ScoredMisplacedOccurs | src/game.rs:150-159 | A `Misplaced` attribute is defined, differs from the answer's at its position, and occurs at another position of the answer |
| Game.ScoredAbsentNeverMisplaced | src/game.rs:186-197 | An absent initial or tone is never `Misplaced` |
| Game.ScoredAllCorrect | src/game.rs:144-230 | An attempt identical to the answer is `Correct` in every attribute of every character |
| Game.ScoredQuotaBound | src/game.rs:150-159 | For each value, the `Correct` plus `Misplaced` positions never outnumber the answer's positions with that value |
| Game.ScoredMissingSaturated | src/game.rs:150-159 | A defined value left `Missing` has used its whole quota: its `Correct` plus `Misplaced` count equals its count in the answer |
| Game.ScoredLeftToRight | src/game.rs:150-159 | Among repeated non-exact values, an earlier position is `Misplaced` whenever a later one is |
| Game.MarkExactAt | src/game.rs:144-149 | One step of phase 1: the row and tables become those of `ExactStep` at that position |
| Game.MarkExact | src/game.rs:144-149 | Phase 1 in place: the row carries `ExactPass` states and only the attribute's table changes, to the pass's remainder |
| Game.MarkMisplacedAt | src/game.rs:150-159 | One step of phase 2: the row and tables become those of `MisplacedStep` at that position |
| Game.MarkMisplaced | src/game.rs:150-159 | Phase 2 in place: the row carries `MisplacedPass` states and only the attribute's table changes |
| Game.MarkAttribute | src/game.rs:161-178 | Both phases of one attribute: its states become the two-phase score, nothing else in the row changes, and only its table is consumed |
| Game.Fresh | src/game.rs:142 | The fresh row keeps the attempt's characters and has every state `Missing` |
| Game.MarkedStates | src/game.rs:144-230 | After n attributes are marked, the characters are kept, the marked attributes carry their scores and the others are all `Missing` |
| Game.ScoredByAttributes | src/game.rs:144-230 | Marking the five attributes in turn gives exactly the scored characters |
| Game.MarkAttributes | src/game.rs:144-230 | The ten in-place passes turn the fresh row into `Scored(cs, answer)` |
| Game.NewRow | src/game.rs:142 | A new array holding the fresh row |
| Game.ScoreByCharacters | src/game.rs:135-142 | With an answer of the idiom length, a readable attempt scores in full and an unreadable one fails with its error |
| Game.ScoreAttempt | src/game.rs:135-233 | The in-place algorithm returns exactly `Score` |
| Matching.ExactPass | src/game.rs:144-149 | Phase 1 states are `Correct` exactly where attempt and answer keys agree |
| Matching.MisplacedPassMarks | src/game.rs:150-159 | Phase 2 keeps every mark other than `Missing` and only turns defined `Missing` values into `Misplaced` |
| Matching.MisplacedPass | src/game.rs:150-159 | Phase 2 gives one state per position and never adds or removes a quota key |
| Matching.ChannelScore | src/game.rs:144-159 | Both phases of one attribute: `Correct` exactly where the keys agree, and `Misplaced` only at a defined key that differs from the answer's |
| Matching.ChannelCorrectIff | src/game.rs:144-149 | After both phases a position is `Correct` exactly when the keys agree |
| Matching.ChannelAllCorrect | src/game.rs:144-230 | An attempt equal to the answer is all `Correct` |
| Matching.ChannelAbsentNeverMisplaced | src/game.rs:186-197 | An absent key is never `Misplaced` |
| Matching.ExactCountBound | src/game.rs:144-149 | Exact matches of a value never outnumber its occurrences in the answer |
| Matching.ExactPassQuota | src/game.rs:144-149 | Phase 1 consumes exactly one unit per exact match |
| Matching.MisplacedPassQuota | src/game.rs:150-159 | Phase 2 consumes exactly one unit per `Misplaced` mark |
| Matching.CorrectCountIsExact | src/game.rs:144-149 | The `Correct` positions of a value are its exact matches |
| Matching.ChannelQuotaAccount | src/game.rs:144-159 | Correct plus misplaced plus remaining quota equals the value's count in the answer |
| Matching.ChannelQuotaBound | src/game.rs:144-159 | Credited positions of a value never exceed its count in the answer |
| Matching.ChannelMisplacedOccurs | src/game.rs:150-159 | A `Misplaced` position holds a defined value that the answer has, but not at that position |
| Matching.MisplacedPassPrefix | src/game.rs:150-159 | Phase 2 decides each position from the prefix before it only |
| Matching.MisplacedPassMonotone | src/model.rs:160-163 | The remaining quota never grows during phase 2 |
| Matching.ChannelLeftToRight | src/game.rs:150-159 | Duplicates are credited left to right |
| Matching.ChannelMissingSaturated | src/game.rs:150-159 | A defined value left `Missing` has used up its whole quota |
| Matching.ExactPassNoMatch | src/game.rs:144-149 | With no exact match, phase 1 leaves the quota untouched |
| Matching.ChannelDuplicateExample | src/game.rs:144-159 | Worked case: the answer holds one `a`, and the attempt repeats `a` away from it, so the first `a` is `Misplaced` and the second `Missing` |
| Route.Ping | src/route.rs:35-40 | The `arg` parameter, or "ping" without one, with every `i` made `o`: same length and no `i` left |
| Route.PingDefault | src/route.rs:35-40 | Without `arg` the answer is "pong" |
| Route.PingIdempotent | src/route.rs:35-40 | Pinging with a ping's answer returns it unchanged |
| Route.Finished | src/route.rs:77-78 | With no attempts the game is finished only for a zero limit; below the limit it is finished exactly when the last attempt's word is the answer's |
| Route.NoAttemptsNotFinished | src/route.rs:77-78 | With no attempts and a positive limit the game is not finished |
| Route.NotFinishedMeans | src/route.rs:77-78 | An unfinished game is below the limit and its last attempt's word is not the answer's |
| Route.WinningAttemptFinishes | src/route.rs:77-78 | A last attempt with the answer's word finishes the game |
| Route.LimitFinishes | src/route.rs:77 | Reaching the limit finishes the game |
| Route.WrongLastAttemptOpen | src/route.rs:77-78 | A wrong last word below the limit leaves the game open, whatever came before |
| Route.ScoreAll | src/route.rs:83-86 | One score per attempt, in order |
| Route.AttemptInner | src/route.rs:74-90 | An invalid answer's error comes first. On success there is one result per attempt, `max_attempt_count` is the limit and `finished` is the flag |
| Route.ScoreAllMatches | src/route.rs:83-87 | Each score fails exactly when its attempt does not read, with that attempt's error |
| Route.AttemptInnerSucceeds | src/route.rs:80-87 | Output exists exactly when the answer and every attempt read as idioms |
| Route.CollectScoresLeftmost | src/route.rs:87 | Collecting fails with the error of the leftmost attempt that does not read |
| Route.AttemptInnerLeftmostError | src/route.rs:80-87 | With a valid answer, the reported error is the leftmost failing attempt's, and there is no partial output |
| Route.AttemptInnerResults | src/route.rs:82-90 | Result i is attempt i scored character by character against the answer, both of idiom length |
| Route.GuessingTheAnswerIsAllCorrect | src/route.rs:82-90 | An attempt with the answer's word and pinyin is `Correct` in every attribute of every character |
| Route.TryGetPinyin | src/route.rs:108-115 | `None` without `word` or for an unknown word; otherwise the first dictionary entry with that word |
| Dict.HasWordSnoc | src/dict.rs:18-20 | The words of a dictionary are those of its prefix plus its last entry's |
| Dict.FirstIndexSnoc | src/dict.rs:19 | One `or_insert` keeps an existing key and adds a new word at its position |
| Dict.IndexOf | src/dict.rs:15-23 | Keys are exactly the dictionary's words, and each maps to a valid position holding that word with no earlier entry of it |
| Dict.ReserveIndex | src/dict.rs:15-23 | The loop builds `IndexOf(dict)` |
| Dict.FirstOccurrenceKept | src/dict.rs:19 | A later duplicate never displaces an earlier entry |
| ProcessRaw.PinyinEntry | script/process-raw.py:44-69 | Every digit is 0 to 4, no key is ASCII or a space, and only plain `ü` is its own replacement |
| ProcessRaw.KeyIndexOfKey | script/process-raw.py:44-69 | The map's keys are pairwise distinct |
| ProcessRaw.FirstKey | script/process-raw.py:73-74 | The first key in insertion order present in the syllable; no earlier key occurs |
| ProcessRaw.Standardize | script/process-raw.py:72-77 | The syllable either comes back unchanged or gains exactly one appended digit from 0 to 4 |
| ProcessRaw.StandardizeSingleMark | script/process-raw.py:72-77 | A syllable whose only non-ASCII letter is one key gets every occurrence replaced and that key's digit appended |
| ProcessRaw.StandardizePinyin | script/process-raw.py:72-77 | The loop with its `break` returns `Standardize` of the syllable |
| ProcessRaw.StandardizeUnmarked | script/process-raw.py:44-77 | A syllable with no key, `ǖ` included, is unchanged |
| ProcessRaw.StandardizeMarked | script/process-raw.py:72-77 | A keyed syllable gets one digit from 0 to 4 appended, the first key replaced throughout, and that tone mark gone |
| ProcessRaw.StandardizePlainUmlaut | script/process-raw.py:65 | A plain `ü` with no tone-marked vowel gets "0" appended |
| ProcessRaw.StandardizedParses | script/process-raw.py:72-77 | The game's parser reads a standardized syllable back, with the appended digit as its tone |
| ProcessRaw.StandardizeAll | script/process-raw.py:81 | One standardized piece per piece, in order |
| ProcessRaw.StandardizeNoSpace | script/process-raw.py:72-77 | Standardizing brings in no space |
| ProcessRaw.StandardizePinyins | script/process-raw.py:80-81 | Splitting the output at spaces gives the input's pieces, each standardized, so their number and order are kept |
| ProcessRaw.StandardizePinyinsOfJoin | script/process-raw.py:80-81 | Standardizing space-joined syllables standardizes each one |
| ProcessRaw.StandardizeFourSyllables | script/process-raw.py:80-81 | The four syllables of an idiom are standardized one by one |
| ProcessRaw.FirstDocumentedExample | script/process-raw.py:13-37 | "ā bí dì yù" becomes "a1 bi2 di4 yu4" |
| ProcessRaw.SecondDocumentedExample | script/process-raw.py:21-37 | "ē dǎng bǐ zhōu" becomes "e1 dang3 bi3 zhou1" |
| ProcessRaw.Mapper | script/process-raw.py:85-90 | Keeps `word` and `explanation`, and the pinyin's space-separated pieces are the input's, each standardized |
| ProcessRaw.ProcessRawData | script/process-raw.py:84-92 | The output is no longer than the input |
| ProcessRaw.ProcessRawDataMembers | script/process-raw.py:84-92 | An entry is output exactly when it is the mapped form of a four-character input entry |
| ProcessRaw.ProcessRawDataAppend | script/process-raw.py:92 | The input's order is kept: processing a concatenation concatenates the outputs |
| HighFrequency.LastIndexSnoc | script/process-high-frequency.py:15 | One assignment points the last entry's word at its position |
| HighFrequency.LastIndexOf | script/process-high-frequency.py:13-15 | Keys are exactly the dictionary's words, and each maps to its last entry |
| HighFrequency.BuildReverseIndex | script/process-high-frequency.py:13-15 | The loop builds `LastIndexOf(items)` |
| HighFrequency.Lookup | script/process-high-frequency.py:19-21 | A blank line fails. Otherwise the line contributes an entry exactly when its first field is a dictionary word, and then that word's last entry |
| HighFrequency.SelectAnswers | script/process-high-frequency.py:17-23 | The loop returns `Selected`: fails on a blank line, otherwise appends each named entry and stops at 3000 |
| HighFrequency.Found | script/process-high-frequency.py:18-21 | At most one entry per line, and a blank line is reported exactly when one of the lines is blank |
| HighFrequency.SelectFromFound | script/process-high-frequency.py:17-23 | The output is the named entries cut at 3000; with fewer before a blank line, the script fails |
| HighFrequency.SelectedFound | script/process-high-frequency.py:17-23 | The same, from an empty pool |
| HighFrequency.SelectFrom | script/process-high-frequency.py:17-23 | The loop's output extends what was already collected and never exceeds 3000 entries |
| HighFrequency.Selected | script/process-high-frequency.py:17-23 | The output never has more than 3000 entries |
| HighFrequency.FoundEntries | script/process-high-frequency.py:20-21 | Every selected entry is the last dictionary entry of its word |
| HighFrequency.FoundComplete | script/process-high-frequency.py:18-21 | A line before the first blank one whose first field is a dictionary word brings that word's last entry into what is found |
| HighFrequency.FoundCons | script/process-high-frequency.py:18-21 | Lines are processed in order: a line's lookup comes before what the rest finds |
| HighFrequency.RepeatedLinesRepeat | script/process-high-frequency.py:20-21 | A repeated line yields its entry twice; nothing is de-duplicated |
| HighFrequency.BlankLineFails | script/process-high-frequency.py:19 | A blank first line makes the script fail |
| HighFrequency.IndexesDisagreeOnDuplicates | script/process-high-frequency.py:14-15 | On a duplicated word the script keeps the last entry while `reserve_index` keeps the first |
| Text.SplitWhitespace | src/game.rs:56 | Tokens are non-empty and whitespace-free |
| Text.SplitWhitespaceRuns | src/game.rs:56 | The text is its tokens, in order, with runs of whitespace around them and at least one whitespace character between two of them |
| Text.SplitWhitespaceOfInterleave | src/game.rs:56 | Tokens separated by any such whitespace runs split back into exactly those tokens, so the split is the maximal runs |
| Text.SplitWhitespaceOfJoin | src/game.rs:56 | Splitting at whitespace undoes joining tokens with spaces |
| Text.SplitOnSpace | script/process-raw.py:81 | At least one piece, none containing a space, and joining them with spaces gives the text back |
| Text.JoinWithSpace | script/process-raw.py:81 | The join starts with the first piece, followed by a space when there are more |
| Text.SplitJoinRoundTrip | script/process-raw.py:81 | Splitting at single spaces undoes joining with single spaces |
| Text.ReplaceChar | script/process-raw.py:75 | Same length; each character equal to the pattern is replaced and every other one kept |
| Text.Utf8Length | src/game.rs:31 | The byte length equals the character count exactly when every character is ASCII |
| Text.FirstField | script/process-high-frequency.py:19 | `None` exactly for a blank line; otherwise a non-empty run without whitespace |
| Text.FirstFieldSplit | script/process-high-frequency.py:19 | The line is leading whitespace, then the field, then the end or whitespace |
| Text.FirstFieldOf | script/process-high-frequency.py:19 | After leading whitespace, a non-empty run ending at whitespace or at the end of the line is the field |
| Wrappers.Collect | src/route.rs:87 | Succeeds iff every element does, with the values in order; otherwise fails with the leftmost failure |

## Left out

- `gen_image` (src/route.rs:46-72) is left out. It writes JSON, runs the external `typst` compiler, and base64-encodes and deletes a file: file I/O and a foreign process. `Route.AttemptInner` returns the `Output` that would be rendered.
- The HTTP handlers' status codes and JSON wrapping (src/route.rs:95-106), and the server setup in src/main.rs, are left out as I/O and concurrency.
- The `eprintln!` of the request at src/route.rs:75 is left out: it only writes to standard error.
- The random answer of `start` (src/route.rs:42-44) is nondeterministic and is left out.
- Loading the dictionaries (`read_all`, `read_answers`, src/dict.rs:5-13) and the `lazy_static` globals (src/dict.rs:25-29) are left out. `DICT` is a given sequence.
- The scripts' file reads and writes (script/process-raw.py:95-100, script/process-high-frequency.py:8-11, 25-26) are left out. Their data are given sequences.
- The `verified` field of `CalculatedAttempt` (src/model.rs:284-287) is not modelled. src/game.rs:232 builds `Self(res)`, the tuple form commented out at src/model.rs:283, so no shown code sets `verified`. The scored attempt is modelled as its characters only.
- The `constant` module is not part of this model. Its values are `Config` fields. The ASCII-initials assumption stands in for the byte-length offset at src/game.rs:31.
- Game.ParsePinyin: the panic of `chars.first().unwrap()` on a token that is a single digit from 0 to 4 is the explicit error `UnwrapOnEmpty`, not a crash.
- Game.Score: its branch for an answer whose length differs from the attempt's cannot arise in the source, where both are `[Character; IDIOM_LENGTH]`. The model returns an empty row there, and `Game.ScoreByCharacters` and `Game.ScoreAttempt` require an answer of the idiom length.
- The error message strings of src/error.rs are left out. Only the variants are modelled.
- Integer widths are not modelled: counts are `nat` where the source has `usize`. Decrements happen only under `*v > 0`, so they cannot underflow. Tone digits are `u8`, as in the source.
- `Text.IsWhitespace` and `Text.IsPySpace` list the Unicode and Python whitespace characters. Other Unicode subtleties (grapheme clusters, normalisation) are left out.
- ProcessRaw.FirstDocumentedExample and ProcessRaw.SecondDocumentedExample take their syllables as parameters pinned to the literals by `requires`.
- HighFrequency: a blank answer line makes `line.split()[0]` raise. The model returns `None` for the whole run.
