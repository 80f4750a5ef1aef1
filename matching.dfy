/** The two-phase, duplicate-aware match the scorer runs once per attribute (src/game.rs:144-230),
    stated on the sequences of quota keys of the attempt (`guess`) and of the answer (`target`).
    A key is `None` where the character has no initial or no tone. */
module Matching {
  import opened Wrappers
  import opened Model

  /** Phase 1 at one position: equal keys are `Correct` and consume one unit of their value;
      different ones are `Missing`. */
  function ExactStep(g: Option<string>, t: Option<string>, q: map<string, nat>): (State, map<string, nat>)
  {
    if g == t then (Correct, Take(q, g).1) else (Missing, q)
  }

  /** Phase 2 at one position: a mark other than `Missing` stays; a `Missing` one becomes
      `Misplaced` when the quota of its value is positive, consuming one unit. */
  function MisplacedStep(g: Option<string>, mark: State, q: map<string, nat>): (State, map<string, nat>)
  {
    if mark != Missing then (mark, q)
    else
      var taken := Take(q, g);
      (if taken.0 then Misplaced else Missing, taken.1)
  }

  /** Phase 1, position by position: equal keys are `Correct` and consume one quota unit of
      their value; everything else stays `Missing`. Two absent keys are equal, so they are
      `Correct` too, and consume nothing. */
  function ExactPass(guess: seq<Option<string>>, target: seq<Option<string>>, q: map<string, nat>)
    : (r: (seq<State>, map<string, nat>))
    requires |guess| == |target|
    ensures |r.0| == |guess|
    ensures forall i :: 0 <= i < |guess| ==> r.0[i] == if guess[i] == target[i] then Correct else Missing
    decreases |guess|
  {
    if guess == [] then ([], q)
    else
      var n := |guess| - 1;
      var prev := ExactPass(guess[..n], target[..n], q);
      var step := ExactStep(guess[n], target[n], prev.1);
      (prev.0 + [step.0], step.1)
  }

  /** Phase 2, left to right: a position still `Missing` becomes `Misplaced` when the quota of
      its value is still positive, consuming one unit; other positions keep their mark. */
  function MisplacedPass(guess: seq<Option<string>>, marks: seq<State>, q: map<string, nat>)
    : (r: (seq<State>, map<string, nat>))
    requires |guess| == |marks|
    ensures |r.0| == |guess|
    ensures r.1.Keys == q.Keys
    decreases |guess|
  {
    if guess == [] then ([], q)
    else
      var n := |guess| - 1;
      var prev := MisplacedPass(guess[..n], marks[..n], q);
      var step := MisplacedStep(guess[n], marks[n], prev.1);
      (prev.0 + [step.0], step.1)
  }

  /** Phase 1 over one more position. */
  lemma ExactPassSnoc(guess: seq<Option<string>>, target: seq<Option<string>>, q: map<string, nat>, i: nat)
    requires |guess| == |target| && i < |guess|
    ensures var prev := ExactPass(guess[..i], target[..i], q);
            var step := ExactStep(guess[i], target[i], prev.1);
            ExactPass(guess[..i + 1], target[..i + 1], q) == (prev.0 + [step.0], step.1)
  {
    assert guess[..i + 1][..i] == guess[..i] && target[..i + 1][..i] == target[..i];
  }

  /** Phase 2 over one more position. */
  lemma MisplacedPassSnoc(guess: seq<Option<string>>, marks: seq<State>, q: map<string, nat>, i: nat)
    requires |guess| == |marks| && i < |guess|
    ensures var prev := MisplacedPass(guess[..i], marks[..i], q);
            var step := MisplacedStep(guess[i], marks[i], prev.1);
            MisplacedPass(guess[..i + 1], marks[..i + 1], q) == (prev.0 + [step.0], step.1)
  {
    assert guess[..i + 1][..i] == guess[..i] && marks[..i + 1][..i] == marks[..i];
  }

  /** Phase 2 only turns `Missing` marks of defined values into `Misplaced`. */
  lemma {:induction false} MisplacedPassMarks(guess: seq<Option<string>>, marks: seq<State>, q: map<string, nat>)
    requires |guess| == |marks|
    ensures var r := MisplacedPass(guess, marks, q).0;
            forall i :: 0 <= i < |guess| ==>
              r[i] == marks[i] || (marks[i] == Missing && r[i] == Misplaced && guess[i].Some?)
    decreases |guess|
  {
    if guess != [] {
      var n := |guess| - 1;
      MisplacedPassMarks(guess[..n], marks[..n], q);
    }
  }

  /** The states of one attribute: both phases against a fresh quota counted from the answer. */
  function ChannelScore(guess: seq<Option<string>>, target: seq<Option<string>>): (r: seq<State>)
    requires |guess| == |target|
    ensures |r| == |guess|
    ensures forall i :: 0 <= i < |guess| ==> (r[i] == Correct <==> guess[i] == target[i])
    ensures forall i :: 0 <= i < |guess| && r[i] == Misplaced ==> guess[i].Some? && guess[i] != target[i]
  {
    var exact := ExactPass(guess, target, Tally(target));
    MisplacedPassMarks(guess, exact.0, exact.1);
    MisplacedPass(guess, exact.0, exact.1).0
  }

  /** A position is `Correct` exactly when attempt and answer agree there, absent values included. */
  lemma ChannelCorrectIff(guess: seq<Option<string>>, target: seq<Option<string>>, i: nat)
    requires |guess| == |target| && i < |guess|
    ensures ChannelScore(guess, target)[i] == Correct <==> guess[i] == target[i]
  {
    var exact := ExactPass(guess, target, Tally(target));
    MisplacedPassMarks(guess, exact.0, exact.1);
  }

  /** An attempt identical to the answer is `Correct` everywhere. */
  lemma ChannelAllCorrect(guess: seq<Option<string>>)
    ensures forall i :: 0 <= i < |guess| ==> ChannelScore(guess, guess)[i] == Correct
  {
    var exact := ExactPass(guess, guess, Tally(guess));
    MisplacedPassMarks(guess, exact.0, exact.1);
  }

  /** An absent initial or tone is never `Misplaced`. */
  lemma ChannelAbsentNeverMisplaced(guess: seq<Option<string>>, target: seq<Option<string>>, i: nat)
    requires |guess| == |target| && i < |guess|
    requires guess[i].None?
    ensures ChannelScore(guess, target)[i] != Misplaced
  {
    var exact := ExactPass(guess, target, Tally(target));
    MisplacedPassMarks(guess, exact.0, exact.1);
  }

  /** Number of positions holding value `k` in the attempt with state `s`. */
  function CountIn(guess: seq<Option<string>>, states: seq<State>, k: string, s: State): nat
    requires |guess| == |states|
    decreases |guess|
  {
    if guess == [] then 0
    else
      var n := |guess| - 1;
      CountIn(guess[..n], states[..n], k, s) + if guess[n] == Some(k) && states[n] == s then 1 else 0
  }

  /** Number of positions where attempt and answer both hold value `k`. */
  function ExactCount(guess: seq<Option<string>>, target: seq<Option<string>>, k: string): nat
    requires |guess| == |target|
    decreases |guess|
  {
    if guess == [] then 0
    else
      var n := |guess| - 1;
      ExactCount(guess[..n], target[..n], k) + if guess[n] == Some(k) && target[n] == Some(k) then 1 else 0
  }

  lemma {:induction false} ExactCountBound(guess: seq<Option<string>>, target: seq<Option<string>>, k: string)
    requires |guess| == |target|
    ensures ExactCount(guess, target, k) <= multiset(target)[Some(k)]
    decreases |guess|
  {
    if guess != [] {
      var n := |guess| - 1;
      ExactCountBound(guess[..n], target[..n], k);
      assert target == target[..n] + [target[n]];
    }
  }

  /** Phase 1 never finds its quota exhausted: it consumes exactly one unit per exact match. */
  lemma {:induction false} ExactPassQuota(guess: seq<Option<string>>, target: seq<Option<string>>, q: map<string, nat>)
    requires |guess| == |target|
    requires forall k :: Avail(q, k) >= ExactCount(guess, target, k)
    ensures forall k :: Avail(ExactPass(guess, target, q).1, k) == Avail(q, k) - ExactCount(guess, target, k)
    decreases |guess|
  {
    if guess != [] {
      var n := |guess| - 1;
      ExactPassQuota(guess[..n], target[..n], q);
    }
  }

  /** Phase 2 consumes exactly one unit per `Misplaced` mark it gives. */
  lemma {:induction false} MisplacedPassQuota(guess: seq<Option<string>>, marks: seq<State>, q: map<string, nat>)
    requires |guess| == |marks|
    requires forall i :: 0 <= i < |marks| ==> marks[i] != Misplaced
    ensures var r := MisplacedPass(guess, marks, q);
            forall k :: Avail(r.1, k) + CountIn(guess, r.0, k, Misplaced) == Avail(q, k)
    decreases |guess|
  {
    if guess != [] {
      var n := |guess| - 1;
      MisplacedPassQuota(guess[..n], marks[..n], q);
      var r := MisplacedPass(guess, marks, q);
      assert r.0[..n] == MisplacedPass(guess[..n], marks[..n], q).0;
    }
  }

  /** When the states are `Correct` exactly at the agreeing positions, the `Correct` count of
      a value is its exact-match count. */
  lemma {:induction false} CorrectCountIsExact(
    guess: seq<Option<string>>, target: seq<Option<string>>, states: seq<State>, k: string)
    requires |guess| == |target| == |states|
    requires forall i :: 0 <= i < |guess| ==> (states[i] == Correct <==> guess[i] == target[i])
    ensures CountIn(guess, states, k, Correct) == ExactCount(guess, target, k)
    decreases |guess|
  {
    if guess != [] {
      var n := |guess| - 1;
      CorrectCountIsExact(guess[..n], target[..n], states[..n], k);
    }
  }

  /** The quota of value `k` left after both phases. */
  function ChannelRemaining(guess: seq<Option<string>>, target: seq<Option<string>>, k: string): nat
    requires |guess| == |target|
  {
    var exact := ExactPass(guess, target, Tally(target));
    Avail(MisplacedPass(guess, exact.0, exact.1).1, k)
  }

  /** Bookkeeping of one value: its `Correct` and `Misplaced` positions and what is left of
      its quota add up to its number of occurrences in the answer. */
  lemma ChannelQuotaAccount(guess: seq<Option<string>>, target: seq<Option<string>>, k: string)
    requires |guess| == |target|
    ensures var r := ChannelScore(guess, target);
            CountIn(guess, r, k, Correct) + CountIn(guess, r, k, Misplaced) + ChannelRemaining(guess, target, k)
            == multiset(target)[Some(k)]
  {
    var q0 := Tally(target);
    TallyCounts(target);
    forall k' ensures Avail(q0, k') >= ExactCount(guess, target, k') {
      ExactCountBound(guess, target, k');
    }
    ExactPassQuota(guess, target, q0);
    var exact := ExactPass(guess, target, q0);
    MisplacedPassQuota(guess, exact.0, exact.1);
    MisplacedPassMarks(guess, exact.0, exact.1);
    var r := ChannelScore(guess, target);
    CorrectCountIsExact(guess, target, r, k);
  }

  /** For every defined value, the positions credited with it (`Correct` or `Misplaced`) are
      never more than the answer's occurrences of it. */
  lemma ChannelQuotaBound(guess: seq<Option<string>>, target: seq<Option<string>>, k: string)
    requires |guess| == |target|
    ensures var r := ChannelScore(guess, target);
            CountIn(guess, r, k, Correct) + CountIn(guess, r, k, Misplaced) <= multiset(target)[Some(k)]
  {
    ChannelQuotaAccount(guess, target, k);
  }

  lemma {:induction false} CountInPositive(guess: seq<Option<string>>, states: seq<State>, k: string, s: State, i: nat)
    requires |guess| == |states| && i < |guess|
    requires guess[i] == Some(k) && states[i] == s
    ensures CountIn(guess, states, k, s) >= 1
    decreases |guess|
  {
    var n := |guess| - 1;
    if i < n {
      assert guess[..n][i] == guess[i] && states[..n][i] == states[i];
      CountInPositive(guess[..n], states[..n], k, s, i);
    }
  }

  /** A `Misplaced` position holds a value the answer has, but not at that position. */
  lemma ChannelMisplacedOccurs(guess: seq<Option<string>>, target: seq<Option<string>>, i: nat)
    requires |guess| == |target| && i < |guess|
    requires ChannelScore(guess, target)[i] == Misplaced
    ensures guess[i].Some? && guess[i] != target[i] && guess[i] in target
  {
    var r := ChannelScore(guess, target);
    ChannelCorrectIff(guess, target, i);
    var exact := ExactPass(guess, target, Tally(target));
    MisplacedPassMarks(guess, exact.0, exact.1);
    var k := guess[i].value;
    CountInPositive(guess, r, k, Misplaced, i);
    ChannelQuotaBound(guess, target, k);
  }

  /** Phase 2 decides each position from the prefix before it only. */
  lemma {:induction false} MisplacedPassPrefix(guess: seq<Option<string>>, marks: seq<State>, q: map<string, nat>, n: nat)
    requires |guess| == |marks| && n <= |guess|
    ensures MisplacedPass(guess[..n], marks[..n], q).0 == MisplacedPass(guess, marks, q).0[..n]
    decreases |guess|
  {
    if n < |guess| {
      var m := |guess| - 1;
      MisplacedPassPrefix(guess[..m], marks[..m], q, n);
      assert guess[..m][..n] == guess[..n];
      assert marks[..m][..n] == marks[..n];
    } else {
      assert guess[..n] == guess && marks[..n] == marks;
    }
  }

  /** The remaining quota never grows during phase 2. */
  lemma {:induction false} MisplacedPassMonotone(
    guess: seq<Option<string>>, marks: seq<State>, q: map<string, nat>, i: nat, j: nat, k: string)
    requires |guess| == |marks| && i <= j <= |guess|
    ensures Avail(MisplacedPass(guess[..j], marks[..j], q).1, k) <= Avail(MisplacedPass(guess[..i], marks[..i], q).1, k)
    decreases j
  {
    if i < j {
      MisplacedPassMonotone(guess, marks, q, i, j - 1, k);
      assert guess[..j][..j - 1] == guess[..j - 1];
      assert marks[..j][..j - 1] == marks[..j - 1];
    }
  }

  /** Phase 2 at position i: a mark other than `Missing` stays; a `Missing` one becomes
      `Misplaced` exactly when the quota left by the positions before i still holds its value. */
  lemma MisplacedPassAt(guess: seq<Option<string>>, marks: seq<State>, q: map<string, nat>, i: nat)
    requires |guess| == |marks| && i < |guess|
    ensures MisplacedPass(guess, marks, q).0[i] ==
            if marks[i] != Missing then marks[i]
            else if Take(MisplacedPass(guess[..i], marks[..i], q).1, guess[i]).0 then Misplaced
            else Missing
  {
    MisplacedPassPrefix(guess, marks, q, i + 1);
    assert guess[..i + 1][..i] == guess[..i];
    assert marks[..i + 1][..i] == marks[..i];
  }

  /** Left-to-right tie-break: when two non-exact positions carry the same value and the later
      one is `Misplaced`, the earlier one is `Misplaced` too. */
  lemma ChannelLeftToRight(guess: seq<Option<string>>, target: seq<Option<string>>, i: nat, j: nat)
    requires |guess| == |target| && i < j < |guess|
    requires guess[i] == guess[j] && guess[i] != target[i]
    requires ChannelScore(guess, target)[j] == Misplaced
    ensures ChannelScore(guess, target)[i] == Misplaced
  {
    var exact := ExactPass(guess, target, Tally(target));
    var marks, q := exact.0, exact.1;
    MisplacedPassMarks(guess, marks, q);
    var k := guess[j].value;
    // The state at j is decided by the quota left after the prefix before j, ...
    MisplacedPassAt(guess, marks, q, j);
    // ... which is no larger than the one left before i, so that one still holds `k`.
    MisplacedPassMonotone(guess, marks, q, i, j, k);
    MisplacedPassAt(guess, marks, q, i);
  }

  /** A defined value left `Missing` has used up its whole quota: its `Correct` and
      `Misplaced` positions together match its occurrences in the answer. */
  lemma ChannelMissingSaturated(guess: seq<Option<string>>, target: seq<Option<string>>, i: nat)
    requires |guess| == |target| && i < |guess|
    requires guess[i].Some? && ChannelScore(guess, target)[i] == Missing
    ensures var r := ChannelScore(guess, target);
            var k := guess[i].value;
            CountIn(guess, r, k, Correct) + CountIn(guess, r, k, Misplaced) == multiset(target)[Some(k)]
  {
    var exact := ExactPass(guess, target, Tally(target));
    var marks, q := exact.0, exact.1;
    var k := guess[i].value;
    // Position i found no quota left for `k` after the prefix before it, ...
    MisplacedPassAt(guess, marks, q, i);
    // ... so none is left at the end either.
    MisplacedPassMonotone(guess, marks, q, i, |guess|, k);
    assert guess[..|guess|] == guess && marks[..|guess|] == marks;
    assert ChannelRemaining(guess, target, k) == 0;
    ChannelQuotaAccount(guess, target, k);
  }

  /** Phase 1 on an attempt that agrees with the answer nowhere leaves the quota untouched
      (and, by its contract, every position `Missing`). */
  lemma {:induction false} ExactPassNoMatch(guess: seq<Option<string>>, target: seq<Option<string>>, q: map<string, nat>)
    requires |guess| == |target|
    requires forall i :: 0 <= i < |guess| ==> guess[i] != target[i]
    ensures ExactPass(guess, target, q).1 == q
    decreases |guess|
  {
    if guess != [] {
      var n := |guess| - 1;
      ExactPassNoMatch(guess[..n], target[..n], q);
      assert guess[n] != target[n];
    }
  }

  /** Phase 2 of the worked case below, for any quota holding one `a` and no `e` or `f`. */
  lemma DuplicateExamplePhase2(q: map<string, nat>)
    requires Avail(q, "a") == 1 && Avail(q, "e") == 0 && Avail(q, "f") == 0
    ensures MisplacedPass([Some("a"), Some("a"), Some("e"), Some("f")], [Missing, Missing, Missing, Missing], q).0
            == [Misplaced, Missing, Missing, Missing]
  {
    var g: seq<Option<string>> := [Some("a"), Some("a"), Some("e"), Some("f")];
    var marks: seq<State> := [Missing, Missing, Missing, Missing];
    var p1 := MisplacedPass(g[..1], marks[..1], q);
    assert g[..1][..0] == [] && marks[..1][..0] == [];
    assert MisplacedPass(g[..1][..0], marks[..1][..0], q) == ([], q);
    assert g[..1][0] == Some("a") && marks[..1][0] == Missing;
    assert Take(q, Some("a")).0;
    assert p1.0 == [Misplaced] && Avail(p1.1, "a") == 0 && Avail(p1.1, "e") == 0 && Avail(p1.1, "f") == 0;
    var p2 := MisplacedPass(g[..2], marks[..2], q);
    assert g[..2][..1] == g[..1] && marks[..2][..1] == marks[..1];
    assert p2.0 == [Misplaced, Missing] && p2.1 == p1.1;
    var p3 := MisplacedPass(g[..3], marks[..3], q);
    assert g[..3][..2] == g[..2] && marks[..3][..2] == marks[..2];
    assert p3.0 == [Misplaced, Missing, Missing] && p3.1 == p1.1;
    assert g[..3] == g[..|g| - 1] && marks[..3] == marks[..|marks| - 1];
  }

  /** Worked case: the answer holds one `a`, away from both positions where the attempt
      repeats it; the earlier `a` is `Misplaced`, the later one `Missing`. */
  lemma ChannelDuplicateExample()
    ensures ChannelScore([Some("a"), Some("a"), Some("e"), Some("f")], [Some("b"), Some("c"), Some("a"), Some("d")])
            == [Misplaced, Missing, Missing, Missing]
  {
    var g: seq<Option<string>> := [Some("a"), Some("a"), Some("e"), Some("f")];
    var t: seq<Option<string>> := [Some("b"), Some("c"), Some("a"), Some("d")];
    var q0 := Tally(t);
    TallyCounts(t);
    assert multiset(t)[Some("a")] == 1 && multiset(t)[Some("e")] == 0 && multiset(t)[Some("f")] == 0;
    ExactPassNoMatch(g, t, q0);
    assert ExactPass(g, t, q0).0 == [Missing, Missing, Missing, Missing];
    DuplicateExamplePhase2(q0);
  }
}
