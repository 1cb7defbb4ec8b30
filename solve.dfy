/** Solver loop (solve): guess the most frequent remaining candidate, score
    it against the known target, and narrow, until a win, the turn limit or
    an empty candidate list. */
module Solver {
  import opened Hints
  import opened Narrow
  import opened WordList

  const MaxTurns: nat := 6

  /** How a solve run ends. */
  datatype SolveOutcome = Solved | TurnLimit | NoCandidates

  /** Five-letter guesses against a five-letter target give hints that can be
      tested against every five-letter candidate. */
  lemma FeedbackCheckable(words: seq<string>, guess: string, target: string)
    requires AllOfLength(words, WordLength) && |guess| == WordLength && |target| == WordLength
    ensures Classifiable(guess, target)
    ensures AllCheckable(words, Feedback(guess, target))
  {
    FixedLengthCheckable(words, Feedback(guess, target), WordLength);
  }

  /** The candidates left after narrowing `words` with the feedback of each
      of the `prior` guesses in turn. */
  function Remaining(words: seq<string>, target: string, prior: seq<string>): (r: seq<string>)
    requires |target| == WordLength
    requires AllOfLength(words, WordLength) && AllOfLength(prior, WordLength)
    ensures AllOfLength(r, WordLength)
    decreases |prior|
  {
    if prior == [] then words
    else
      var before := Remaining(words, target, prior[..|prior| - 1]);
      var g := prior[|prior| - 1];
      FeedbackCheckable(before, g, target);
      Filter(before, Feedback(g, target))
  }

  /** Narrowing never reorders: the remaining candidates are a subsequence
      of the words, so never more of them. */
  lemma {:induction false} RemainingSubsequence(words: seq<string>, target: string, prior: seq<string>)
    requires |target| == WordLength
    requires AllOfLength(words, WordLength) && AllOfLength(prior, WordLength)
    ensures IsSubsequence(Remaining(words, target, prior), words)
    ensures |Remaining(words, target, prior)| <= |words|
    decreases |prior|
  {
    if prior == [] {
      SubsequenceReflexive(words);
    } else {
      var init, g := prior[..|prior| - 1], prior[|prior| - 1];
      RemainingSubsequence(words, target, init);
      var before := Remaining(words, target, init);
      FeedbackCheckable(before, g, target);
      FilterIsSubsequence(before, Feedback(g, target));
      SubsequenceTransitive(Remaining(words, target, prior), before, words);
    }
    SubsequenceShorter(Remaining(words, target, prior), words);
  }

  /** The word passes the feedback that `guess` received against `target`. */
  predicate Agrees(w: string, guess: string, target: string)
    requires |guess| == WordLength && |target| == WordLength
  {
    SameLengthClassifiable(guess, target);
    Accepts(w, Feedback(guess, target))
  }

  /** The word passes the feedback of every guess in `prior`. */
  predicate AgreesAll(w: string, prior: seq<string>, target: string)
    requires |target| == WordLength && AllOfLength(prior, WordLength)
  {
    forall k :: 0 <= k < |prior| ==> Agrees(w, prior[k], target)
  }

  /** Passing every feedback of a longer guess list is passing those of its
      prefix and of its last guess. */
  lemma AgreesAllSnoc(w: string, prior: seq<string>, target: string)
    requires |target| == WordLength && AllOfLength(prior, WordLength) && prior != []
    ensures AllOfLength(prior[..|prior| - 1], WordLength)
    ensures AgreesAll(w, prior, target) <==>
              AgreesAll(w, prior[..|prior| - 1], target) && Agrees(w, prior[|prior| - 1], target)
  {
    var init := prior[..|prior| - 1];
    assert forall k :: 0 <= k < |init| ==> init[k] == prior[k];
  }

  /** A word remains exactly when it was a candidate and passes the feedback
      of every earlier guess. */
  lemma {:induction false} RemainingIff(words: seq<string>, target: string, prior: seq<string>, w: string)
    requires |target| == WordLength
    requires AllOfLength(words, WordLength) && AllOfLength(prior, WordLength)
    ensures w in Remaining(words, target, prior) <==> w in words && AgreesAll(w, prior, target)
    decreases |prior|
  {
    if prior != [] {
      var init, g := prior[..|prior| - 1], prior[|prior| - 1];
      AgreesAllSnoc(w, prior, target);
      RemainingIff(words, target, init, w);
      var before := Remaining(words, target, init);
      FeedbackCheckable(before, g, target);
      assert w in Remaining(words, target, prior) <==> w in before && Agrees(w, g, target);
    }
  }

  /** The target is never narrowed away. */
  lemma TargetRemains(words: seq<string>, target: string, prior: seq<string>)
    requires |target| == WordLength
    requires AllOfLength(words, WordLength) && AllOfLength(prior, WordLength)
    requires target in words
    ensures target in Remaining(words, target, prior)
  {
    forall k | 0 <= k < |prior| ensures Agrees(target, prior[k], target) {
      TargetAccepted(prior[k], target);
    }
    assert AgreesAll(target, prior, target);
    RemainingIff(words, target, prior, target);
  }

  /** Each guess is the first remaining candidate. */
  predicate FirstCandidates(words: seq<string>, target: string, guesses: seq<string>)
    requires |target| == WordLength
    requires AllOfLength(words, WordLength) && AllOfLength(guesses, WordLength)
  {
    forall j :: 0 <= j < |guesses| ==>
      Remaining(words, target, guesses[..j]) != [] &&
      guesses[j] == Remaining(words, target, guesses[..j])[0]
  }

  /** One more guess narrows the remaining candidates with its feedback. */
  lemma RemainingSnoc(words: seq<string>, target: string, prior: seq<string>, g: string)
    requires |target| == WordLength && |g| == WordLength
    requires AllOfLength(words, WordLength) && AllOfLength(prior, WordLength)
    ensures AllOfLength(prior + [g], WordLength)
    ensures Classifiable(g, target)
    ensures AllCheckable(Remaining(words, target, prior), Feedback(g, target))
    ensures Remaining(words, target, prior + [g]) ==
              Filter(Remaining(words, target, prior), Feedback(g, target))
  {
    var next := prior + [g];
    assert next[..|next| - 1] == prior;
    FeedbackCheckable(Remaining(words, target, prior), g, target);
  }

  /** Guessing the first remaining candidate keeps every guess a first
      remaining candidate. */
  lemma FirstCandidatesSnoc(words: seq<string>, target: string, prior: seq<string>)
    requires |target| == WordLength
    requires AllOfLength(words, WordLength) && AllOfLength(prior, WordLength)
    requires FirstCandidates(words, target, prior)
    requires Remaining(words, target, prior) != []
    ensures AllOfLength(prior + [Remaining(words, target, prior)[0]], WordLength)
    ensures FirstCandidates(words, target, prior + [Remaining(words, target, prior)[0]])
  {
    var next := prior + [Remaining(words, target, prior)[0]];
    forall j | 0 <= j < |next|
      ensures Remaining(words, target, next[..j]) != []
      ensures next[j] == Remaining(words, target, next[..j])[0]
    {
      SnocPrefix(prior, Remaining(words, target, prior)[0], j);
    }
  }

  /** The prefixes of a sequence with one more element at the end. */
  lemma SnocPrefix<T>(s: seq<T>, x: T, j: nat)
    requires j <= |s|
    ensures (s + [x])[..j] == s[..j]
    ensures j < |s| ==> (s + [x])[j] == s[j]
    ensures (s + [x])[..|s|] == s
  {
  }

  /** Guesses chosen as first remaining candidates agree with the feedback of
      every earlier guess, and therefore no non-winning word is guessed twice. */
  lemma ConsistentGuesses(words: seq<string>, target: string, guesses: seq<string>)
    requires |target| == WordLength
    requires AllOfLength(words, WordLength) && AllOfLength(guesses, WordLength)
    requires FirstCandidates(words, target, guesses)
    ensures forall j, k :: 0 <= k < j < |guesses| ==>
              Agrees(guesses[j], guesses[k], target) &&
              (guesses[k] != target ==> guesses[j] != guesses[k])
  {
    forall j, k | 0 <= k < j < |guesses|
      ensures Agrees(guesses[j], guesses[k], target)
      ensures guesses[k] != target ==> guesses[j] != guesses[k]
    {
      var prior := guesses[..j];
      assert guesses[j] in Remaining(words, target, prior);
      RemainingIff(words, target, prior, guesses[j]);
      assert prior[k] == guesses[k];
      assert Agrees(guesses[j], prior[k], target);
      OnlyTargetAcceptsOwnFeedback(guesses[k], target);
    }
  }

  /** The rest of a solve run once `prior` has been guessed: guess the first
      remaining candidate; stop on the target, at the turn limit, or when
      narrowing leaves nothing. Returns how the run ends and all guesses. */
  function SolveFrom(words: seq<string>, target: string, prior: seq<string>)
    : (r: (SolveOutcome, seq<string>))
    requires |target| == WordLength
    requires AllOfLength(words, WordLength) && AllOfLength(prior, WordLength)
    requires |prior| < MaxTurns && Remaining(words, target, prior) != []
    ensures |prior| < |r.1| <= MaxTurns && AllOfLength(r.1, WordLength)
    ensures r.0 == TurnLimit ==> |r.1| == MaxTurns
    ensures r.0 == NoCandidates ==> |r.1| < MaxTurns && Remaining(words, target, r.1) == []
    decreases MaxTurns - |prior|
  {
    var next := prior + [Remaining(words, target, prior)[0]];
    assert AllOfLength(next, WordLength);
    if next[|prior|] == target then (Solved, next)
    else if |next| >= MaxTurns then (TurnLimit, next)
    else if Remaining(words, target, next) == [] then (NoCandidates, next)
    else SolveFrom(words, target, next)
  }

  /** Every guess of a run is the first remaining candidate at its turn. */
  lemma {:induction false} SolveFromFirstCandidates(words: seq<string>, target: string, prior: seq<string>)
    requires |target| == WordLength
    requires AllOfLength(words, WordLength) && AllOfLength(prior, WordLength)
    requires |prior| < MaxTurns && Remaining(words, target, prior) != []
    requires FirstCandidates(words, target, prior)
    ensures FirstCandidates(words, target, SolveFrom(words, target, prior).1)
    decreases MaxTurns - |prior|
  {
    var next := prior + [Remaining(words, target, prior)[0]];
    FirstCandidatesSnoc(words, target, prior);
    if next[|prior|] != target && |next| < MaxTurns && Remaining(words, target, next) != [] {
      assert SolveFrom(words, target, prior) == SolveFrom(words, target, next);
      SolveFromFirstCandidates(words, target, next);
    }
  }

  /** A run stops as soon as it guesses the target, so only its last guess
      can be the target, and it is `Solved` exactly when that one is. */
  lemma {:induction false} SolveFromStopsAtTarget(words: seq<string>, target: string, prior: seq<string>)
    requires |target| == WordLength
    requires AllOfLength(words, WordLength) && AllOfLength(prior, WordLength)
    requires |prior| < MaxTurns && Remaining(words, target, prior) != []
    requires forall j :: 0 <= j < |prior| ==> prior[j] != target
    ensures var (outcome, guesses) := SolveFrom(words, target, prior);
            (forall j :: 0 <= j < |guesses| - 1 ==> guesses[j] != target) &&
            (outcome == Solved <==> guesses[|guesses| - 1] == target)
    decreases MaxTurns - |prior|
  {
    var next := prior + [Remaining(words, target, prior)[0]];
    assert AllOfLength(next, WordLength);
    if next[|prior|] != target && |next| < MaxTurns && Remaining(words, target, next) != [] {
      forall j | 0 <= j < |next| ensures next[j] != target {
        if j < |prior| {
          assert next[j] == prior[j];
        }
      }
      assert SolveFrom(words, target, prior) == SolveFrom(words, target, next);
      SolveFromStopsAtTarget(words, target, next);
    } else {
      assert SolveFrom(words, target, prior).1 == next;
      forall j | 0 <= j < |next| - 1 ensures next[j] != target {
        assert next[j] == prior[j];
      }
    }
  }

  /** With the target among the words, a run never runs out of candidates. */
  lemma {:induction false} SolveFromKeepsTarget(words: seq<string>, target: string, prior: seq<string>)
    requires |target| == WordLength
    requires AllOfLength(words, WordLength) && AllOfLength(prior, WordLength)
    requires |prior| < MaxTurns && Remaining(words, target, prior) != []
    requires target in words
    ensures SolveFrom(words, target, prior).0 != NoCandidates
    decreases MaxTurns - |prior|
  {
    var next := prior + [Remaining(words, target, prior)[0]];
    assert AllOfLength(next, WordLength);
    TargetRemains(words, target, next);
    if next[|prior|] != target && |next| < MaxTurns {
      SolveFromKeepsTarget(words, target, next);
    }
  }

  /** solve: the guarantees of a whole run from the full word list. */
  lemma SolveGuarantees(words: seq<string>, target: string)
    requires words != [] && |target| == WordLength && AllOfLength(words, WordLength)
    ensures AllOfLength([], WordLength) && Remaining(words, target, []) != []
    ensures var (outcome, guesses) := SolveFrom(words, target, []);
            1 <= |guesses| <= MaxTurns &&
            AllOfLength(guesses, WordLength) && FirstCandidates(words, target, guesses) &&
            (forall j :: 0 <= j < |guesses| - 1 ==> guesses[j] != target) &&
            (outcome == Solved <==> guesses[|guesses| - 1] == target) &&
            (outcome == TurnLimit ==> |guesses| == MaxTurns) &&
            (outcome == NoCandidates ==>
               |guesses| < MaxTurns && Remaining(words, target, guesses) == []) &&
            (target in words ==> outcome != NoCandidates)
  {
    SolveFromFirstCandidates(words, target, []);
    SolveFromStopsAtTarget(words, target, []);
    if target in words {
      SolveFromKeepsTarget(words, target, []);
    }
  }

  /** solve: turn counter and candidate list updated in a loop. Returns how it
      ended, the final turn number and the guesses made. */
  method Solve(words: seq<string>, target: string)
    returns (outcome: SolveOutcome, turn: nat, guesses: seq<string>)
    requires words != []
    requires |target| == WordLength
    requires AllOfLength(words, WordLength)
    ensures AllOfLength([], WordLength) && Remaining(words, target, []) != []
    ensures turn == |guesses| && (outcome, guesses) == SolveFrom(words, target, [])
  {
    turn := 0;
    guesses := [];
    var possible := words;
    while true
      invariant turn == |guesses| < MaxTurns && AllOfLength(guesses, WordLength)
      invariant possible == Remaining(words, target, guesses) && possible != []
      invariant SolveFrom(words, target, guesses) == SolveFrom(words, target, [])
      decreases MaxTurns - turn
    {
      ghost var prior := guesses;
      turn := turn + 1;
      var mostPopular := possible[0];
      guesses := guesses + [mostPopular];
      assert guesses[|prior|] == mostPopular;
      assert |mostPopular| == WordLength && AllOfLength(guesses, WordLength);
      assert Classifiable(mostPopular, target) by {
        SameLengthClassifiable(mostPopular, target);
      }
      var hints := GetHints(mostPopular, target);
      var win := IsWinner(hints);
      assert win <==> mostPopular == target by {
        WinIffEqual(mostPopular, target);
      }
      if win {
        outcome := Solved;
        return;
      }
      if turn >= MaxTurns {
        outcome := TurnLimit;
        return;
      }
      assert AllCheckable(possible, hints)
          && Filter(possible, hints) == Remaining(words, target, guesses) by {
        RemainingSnoc(words, target, prior, mostPopular);
      }
      possible := NarrowGuesses(possible, hints);
      if |possible| <= 0 {
        outcome := NoCandidates;
        return;
      }
    }
  }
}
