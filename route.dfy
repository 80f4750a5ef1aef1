/** The pure parts of the request handlers (src/route.rs): `ping`, the `finished` flag and
    the scored result list of `attempt_inner`, and the `try_get_pinyin` lookup. Rendering
    the result as an image, the HTTP wrapping and the random `start` are left out. */
module Route {
  import opened Wrappers
  import opened Text
  import opened Model
  import opened Game
  import Dict

  /** `ping`: the `arg` query parameter, or "ping" without one, with every `i` made `o`. */
  function Ping(params: map<string, string>): (r: string)
    ensures var arg := if "arg" in params then params["arg"] else "ping";
            && |r| == |arg|
            && 'i' !in r
            && forall k :: 0 <= k < |arg| ==> r[k] == (if arg[k] == 'i' then 'o' else arg[k])
  {
    var arg := if "arg" in params then params["arg"] else "ping";
    ReplaceChar(arg, 'i', 'o')
  }

  /** Without an `arg`, `ping` answers "pong". */
  lemma PingDefault(params: map<string, string>)
    requires "arg" !in params
    ensures Ping(params) == "pong"
  {
    assert Ping(params)[1] == 'o';
  }

  /** Answering a ping twice changes nothing more: the answer has no `i` left to replace. */
  lemma PingIdempotent(params: map<string, string>)
    ensures Ping(map["arg" := Ping(params)]) == Ping(params)
  {
  }

  /** The `finished` flag: the attempt limit is reached, or the last attempt's word is the
      answer's word. */
  predicate Finished(cfg: Config, input: Input)
    ensures input.attempts == [] ==> (Finished(cfg, input) <==> cfg.maxAttemptCount == 0)
    ensures |input.attempts| < cfg.maxAttemptCount && input.attempts != [] ==>
              (Finished(cfg, input) <==> input.attempts[|input.attempts| - 1].word == input.answer.word)
  {
    |input.attempts| >= cfg.maxAttemptCount
    || (input.attempts != [] && input.attempts[|input.attempts| - 1].word == input.answer.word)
  }

  /** A game with no attempts yet is not finished, whenever at least one attempt is allowed. */
  lemma NoAttemptsNotFinished(cfg: Config, answer: Attempt)
    requires cfg.maxAttemptCount > 0
    ensures !Finished(cfg, Input(answer, []))
  {
  }

  /** A game that is not finished has attempts left and has not been won: the flag is set
      only by the two causes. */
  lemma NotFinishedMeans(cfg: Config, input: Input)
    requires !Finished(cfg, input)
    ensures |input.attempts| < cfg.maxAttemptCount
    ensures input.attempts != [] ==> input.attempts[|input.attempts| - 1].word != input.answer.word
  {
  }

  /** Guessing the answer's word finishes the game, whatever came before and whatever
      pinyin the guess carries. */
  lemma WinningAttemptFinishes(cfg: Config, answer: Attempt, attempts: seq<Attempt>, last: Attempt)
    requires last.word == answer.word
    ensures Finished(cfg, Input(answer, attempts + [last]))
  {
    assert (attempts + [last])[|attempts|] == last;
  }

  /** Reaching the attempt limit finishes the game, whatever the last attempt was. */
  lemma LimitFinishes(cfg: Config, input: Input)
    requires |input.attempts| == cfg.maxAttemptCount
    ensures Finished(cfg, input)
  {
  }

  /** A guess with a word other than the answer's, made below the limit, leaves the game
      open: only the last attempt counts, so an earlier win is not remembered. */
  lemma WrongLastAttemptOpen(cfg: Config, answer: Attempt, attempts: seq<Attempt>, last: Attempt)
    requires last.word != answer.word && |attempts| + 1 < cfg.maxAttemptCount
    ensures !Finished(cfg, Input(answer, attempts + [last]))
  {
    assert (attempts + [last])[|attempts|] == last;
  }

  /** The scores of every attempt against the answer's characters, in order. */
  function ScoreAll(cfg: Config, answer: seq<Character>, attempts: seq<Attempt>): (r: seq<Result<CalculatedAttempt, IdiomError>>)
    requires AsciiInitials(cfg)
    ensures |r| == |attempts|
    ensures forall i :: 0 <= i < |attempts| ==> r[i] == Score(cfg, answer, attempts[i])
  {
    seq(|attempts|, i requires 0 <= i < |attempts| => Score(cfg, answer, attempts[i]))
  }

  /** `attempt_inner` up to the image: the answer is turned into its characters, every
      attempt is scored against them in order, and the output carries the results, the
      attempt limit and the `finished` flag. The answer's error comes first, then the error
      of the leftmost attempt that fails; nothing partial is returned. */
  function AttemptInner(cfg: Config, input: Input): (r: Result<Output, IdiomError>)
    requires AsciiInitials(cfg)
    ensures ToCharacters(cfg, input.answer).Failure? ==> r == Failure(ToCharacters(cfg, input.answer).error)
    ensures r.Success? ==>
              && |r.value.result| == |input.attempts|
              && r.value.maxAttemptCount == cfg.maxAttemptCount
              && r.value.finished == Finished(cfg, input)
  {
    match ToCharacters(cfg, input.answer)
    case Failure(e) => Failure(e)
    case Success(answer) =>
      match Collect(ScoreAll(cfg, answer, input.attempts))
      case Failure(e) => Failure(e)
      case Success(results) => Success(Output(results, cfg.maxAttemptCount, Finished(cfg, input)))
  }

  /** `scores` fail exactly where `attempts` are not idioms, and with their errors. */
  ghost predicate ScoresMatch(cfg: Config, attempts: seq<Attempt>, scores: seq<Result<CalculatedAttempt, IdiomError>>)
    requires AsciiInitials(cfg)
  {
    && |scores| == |attempts|
    && forall i :: 0 <= i < |scores| ==>
         (scores[i].Success? <==> ToCharacters(cfg, attempts[i]).Success?)
         && (scores[i].Failure? ==> ToCharacters(cfg, attempts[i]) == Failure(scores[i].error))
  }

  lemma ScoreAllMatches(cfg: Config, answer: seq<Character>, attempts: seq<Attempt>)
    requires AsciiInitials(cfg)
    ensures ScoresMatch(cfg, attempts, ScoreAll(cfg, answer, attempts))
  {
  }

  /** The output is produced exactly when the answer and every attempt are valid idioms. */
  lemma AttemptInnerSucceeds(cfg: Config, input: Input)
    requires AsciiInitials(cfg)
    ensures AttemptInner(cfg, input).Success? <==>
              && ToCharacters(cfg, input.answer).Success?
              && forall i :: 0 <= i < |input.attempts| ==> ToCharacters(cfg, input.attempts[i]).Success?
  {
    if ToCharacters(cfg, input.answer).Success? {
      ScoreAllMatches(cfg, ToCharacters(cfg, input.answer).value, input.attempts);
    }
  }

  /** Collecting scores that match the attempts fails with the error of the leftmost attempt
      that is not an idiom. */
  lemma CollectScoresLeftmost(cfg: Config, attempts: seq<Attempt>, scores: seq<Result<CalculatedAttempt, IdiomError>>, e: IdiomError)
    requires AsciiInitials(cfg) && ScoresMatch(cfg, attempts, scores)
    requires Collect(scores) == Failure(e)
    ensures exists i :: 0 <= i < |attempts|
                        && ToCharacters(cfg, attempts[i]) == Failure(e)
                        && forall j :: 0 <= j < i ==> ToCharacters(cfg, attempts[j]).Success?
  {
    var i :| 0 <= i < |scores| && scores[i] == Failure(e) && forall j :: 0 <= j < i ==> scores[j].Success?;
    assert ToCharacters(cfg, attempts[i]) == Failure(e);
  }

  /** With a valid answer, the error reported is that of the leftmost attempt that fails. */
  lemma AttemptInnerLeftmostError(cfg: Config, input: Input)
    requires AsciiInitials(cfg)
    requires AttemptInner(cfg, input).Failure? && ToCharacters(cfg, input.answer).Success?
    ensures exists i :: 0 <= i < |input.attempts|
                        && ToCharacters(cfg, input.attempts[i]) == Failure(AttemptInner(cfg, input).error)
                        && forall j :: 0 <= j < i ==> ToCharacters(cfg, input.attempts[j]).Success?
  {
    var answer := ToCharacters(cfg, input.answer).value;
    ScoreAllMatches(cfg, answer, input.attempts);
    CollectScoresLeftmost(cfg, input.attempts, ScoreAll(cfg, answer, input.attempts), AttemptInner(cfg, input).error);
  }

  /** On success, result `i` is attempt `i` scored character by character against the
      answer, both read as idioms of `idiomLength` characters. */
  lemma AttemptInnerResults(cfg: Config, input: Input, i: nat)
    requires AsciiInitials(cfg)
    requires AttemptInner(cfg, input).Success? && i < |input.attempts|
    ensures var answer := ToCharacters(cfg, input.answer);
            var cs := ToCharacters(cfg, input.attempts[i]);
            && answer.Success? && cs.Success?
            && |cs.value| == |answer.value| == cfg.idiomLength
            && AttemptInner(cfg, input).value.result[i] == CalculatedAttempt(Scored(cs.value, answer.value))
  {
    var answer := ToCharacters(cfg, input.answer).value;
    var scores := ScoreAll(cfg, answer, input.attempts);
    assert scores[i] == Score(cfg, answer, input.attempts[i]);
  }

  /** An attempt with the answer's word and pinyin is scored `Correct` in every attribute of
      every character. */
  lemma GuessingTheAnswerIsAllCorrect(cfg: Config, input: Input, i: nat)
    requires AsciiInitials(cfg)
    requires AttemptInner(cfg, input).Success? && i < |input.attempts|
    requires input.attempts[i].word == input.answer.word && input.attempts[i].pinyin == input.answer.pinyin
    ensures var scored := AttemptInner(cfg, input).value.result[i].characters;
            && |scored| == cfg.idiomLength
            && forall k, a :: 0 <= k < |scored| ==> scored[k].result.Get(a) == Correct
  {
    AttemptInnerResults(cfg, input, i);
    assert ToCharacters(cfg, input.attempts[i]) == ToCharacters(cfg, input.answer);
    ScoredAllCorrect(ToCharacters(cfg, input.answer).value);
  }

  /** `try_get_pinyin`: `None` without a `word` parameter or for a word not in the
      dictionary; otherwise the dictionary entry the reverse index names. */
  function TryGetPinyin(params: map<string, string>, dict: seq<Answer>): (r: Option<Answer>)
    ensures r.Some? <==> "word" in params && exists i :: 0 <= i < |dict| && dict[i].word == params["word"]
    ensures r.Some? ==>
              exists i :: 0 <= i < |dict| && dict[i] == r.value && r.value.word == params["word"]
                          && forall j :: 0 <= j < i ==> dict[j].word != params["word"]
  {
    if "word" !in params then None
    else
      var index := Dict.IndexOf(dict);
      var w := params["word"];
      if w in index then Some(dict[index[w]]) else None
  }
}
