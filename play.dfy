/** Interactive loop (play): show the most frequent remaining candidate,
    read the player's hint string for it, and narrow, until the player
    reports all green or no candidate is left. Console input is a sequence of
    lines with their line terminator already removed. */
module Player {
  import opened Hints
  import opened Narrow
  import opened WordList


  /** The hint string that ends the game. */
  const AllGreenLine: string := "ggggg"

  /** Where a game stands: still playing, won, or out of candidates. */
  datatype Status = Playing | Won | Exhausted

  /** The loop state: the turn counter and the remaining candidates. */
  datatype Game = Game(turn: nat, possible: seq<string>)

  /** The hints built from a hint string: kind from the string, letter from
      the guess, position from the index. */
  function LineHints(line: string, guess: string): (hs: seq<Hint>)
    requires |line| <= |guess|
    ensures |hs| == |line|
    ensures forall k :: 0 <= k < |hs| ==>
              hs[k].kind == line[k] && hs[k].letter == guess[k] && hs[k].position == k
  {
    seq(|line|, k requires 0 <= k < |line| => Hint(guess[k], k, line[k]))
  }

  /** A player who types the kinds the target would give reproduces exactly
      the hints of get_hints. */
  lemma HonestLineHints(guess: string, target: string)
    requires |guess| == |target|
    ensures Classifiable(guess, target)
    ensures LineHints(Kinds(Feedback(guess, target)), guess) == Feedback(guess, target)
  {
    SameLengthClassifiable(guess, target);
  }

  /** Such a player types the all-green string exactly when the shown word
      is the target. */
  lemma HonestLineWins(guess: string, target: string)
    requires |guess| == WordLength && |target| == WordLength
    ensures Classifiable(guess, target)
    ensures Kinds(Feedback(guess, target)) == AllGreenLine <==> guess == target
  {
    WinIffEqual(guess, target);
    var line := Kinds(Feedback(guess, target));
    if AllGreen(Feedback(guess, target)) {
      assert forall i :: 0 <= i < WordLength ==> line[i] == AllGreenLine[i];
    }
  }

  /** One iteration of the loop, for one input line. */
  function PlayTurn(g: Game, line: string): (r: (Game, Status))
    requires g.possible != [] && AllOfLength(g.possible, WordLength)
    ensures |line| != WordLength ==> r == (g, Playing)
    ensures |line| == WordLength ==> r.0.turn == g.turn + 1
    ensures r.1 == Won <==> line == AllGreenLine
    ensures AllOfLength(r.0.possible, WordLength)
    ensures r.1 == Exhausted <==> r.0.possible == []
  {
    if |line| != WordLength then (g, Playing)
    else if line == AllGreenLine then (Game(g.turn + 1, g.possible), Won)
    else
      var hints := LineHints(line, g.possible[0]);
      FixedLengthCheckable(g.possible, hints, WordLength);
      var narrowed := Filter(g.possible, hints);
      (Game(g.turn + 1, narrowed), if narrowed == [] then Exhausted else Playing)
  }

  /** A turn on a non-winning hint string of the right length narrows the
      candidates with the hints it spells on the shown word. */
  lemma NarrowingTurn(g: Game, line: string, hints: seq<Hint>)
    requires g.possible != [] && AllOfLength(g.possible, WordLength)
    requires |line| == WordLength && line != AllGreenLine
    requires |g.possible[0]| == WordLength && hints == LineHints(line, g.possible[0])
    ensures AllCheckable(g.possible, hints)
    ensures PlayTurn(g, line).0 == Game(g.turn + 1, Filter(g.possible, hints))
    ensures PlayTurn(g, line).1 == if Filter(g.possible, hints) == [] then Exhausted else Playing
  {
    FixedLengthCheckable(g.possible, hints, WordLength);
  }

  /** A turn keeps a subsequence of the candidates, in their order. */
  lemma PlayTurnSubsequence(g: Game, line: string)
    requires g.possible != [] && AllOfLength(g.possible, WordLength)
    ensures IsSubsequence(PlayTurn(g, line).0.possible, g.possible)
  {
    if |line| != WordLength || line == AllGreenLine {
      SubsequenceReflexive(g.possible);
    } else {
      var hints := LineHints(line, g.possible[0]);
      FixedLengthCheckable(g.possible, hints, WordLength);
      FilterIsSubsequence(g.possible, hints);
    }
  }

  /** The game played on a sequence of input lines: `Playing` in the result
      means the input ran out first. */
  function PlayRun(g: Game, lines: seq<string>): (r: (Status, Game))
    requires g.possible != [] && AllOfLength(g.possible, WordLength)
    ensures AllOfLength(r.1.possible, WordLength)
    ensures g.turn <= r.1.turn <= g.turn + |lines|
    ensures r.0 != Exhausted <==> r.1.possible != []
    decreases |lines|
  {
    if lines == [] then (Playing, g)
    else
      var (g', status) := PlayTurn(g, lines[0]);
      if status != Playing then (status, g')
      else PlayRun(g', lines[1..])
  }

  /** A turn that leaves the game going hands the rest of the input on. */
  lemma PlayRunContinues(g: Game, lines: seq<string>)
    requires g.possible != [] && AllOfLength(g.possible, WordLength)
    requires lines != [] && PlayTurn(g, lines[0]).1 == Playing
    ensures PlayRun(g, lines) == PlayRun(PlayTurn(g, lines[0]).0, lines[1..])
  {
  }

  /** A turn that ends the game ends the run, whatever input is left. */
  lemma PlayRunStops(g: Game, lines: seq<string>)
    requires g.possible != [] && AllOfLength(g.possible, WordLength)
    requires lines != [] && PlayTurn(g, lines[0]).1 != Playing
    ensures PlayRun(g, lines) == (PlayTurn(g, lines[0]).1, PlayTurn(g, lines[0]).0)
  {
  }

  /** Whatever the input, the final candidates are a subsequence of the
      words the game started with. */
  lemma {:induction false} PlayRunSubsequence(g: Game, lines: seq<string>)
    requires g.possible != [] && AllOfLength(g.possible, WordLength)
    ensures IsSubsequence(PlayRun(g, lines).1.possible, g.possible)
    ensures |PlayRun(g, lines).1.possible| <= |g.possible|
    decreases |lines|
  {
    if lines == [] {
      SubsequenceReflexive(g.possible);
    } else {
      var (g', status) := PlayTurn(g, lines[0]);
      PlayTurnSubsequence(g, lines[0]);
      if status == Playing {
        PlayRunSubsequence(g', lines[1..]);
        SubsequenceTransitive(PlayRun(g', lines[1..]).1.possible, g'.possible, g.possible);
      }
    }
    SubsequenceShorter(PlayRun(g, lines).1.possible, g.possible);
  }

  /** The hints of the turns a run narrows with, in order: one per line of
      the right length other than the all-green one, up to the turn that
      ends the game. */
  function TurnHints(g: Game, lines: seq<string>): (r: seq<seq<Hint>>)
    requires g.possible != [] && AllOfLength(g.possible, WordLength)
    ensures |r| <= |lines|
    ensures forall k :: 0 <= k < |r| ==> |r[k]| == WordLength
    decreases |lines|
  {
    if lines == [] then []
    else if |lines[0]| != WordLength then TurnHints(g, lines[1..])
    else if lines[0] == AllGreenLine then []
    else
      var (g', status) := PlayTurn(g, lines[0]);
      [LineHints(lines[0], g.possible[0])] +
        (if status == Playing then TurnHints(g', lines[1..]) else [])
  }

  /** The word passes every one of a sequence of hint lists. */
  predicate AcceptsEvery(w: string, turns: seq<seq<Hint>>) {
    forall k :: 0 <= k < |turns| ==> Accepts(w, turns[k])
  }

  /** Passing a first hint list and then the rest. */
  lemma AcceptsEveryCons(w: string, hints: seq<Hint>, rest: seq<seq<Hint>>)
    ensures AcceptsEvery(w, [hints] + rest) <==> Accepts(w, hints) && AcceptsEvery(w, rest)
  {
    var turns := [hints] + rest;
    assert turns[0] == hints;
    assert forall k :: 0 <= k < |rest| ==> turns[k + 1] == rest[k];
  }

  /** A word is among the final candidates exactly when it was a candidate
      at the start and passes the hints of every turn the run narrowed with. */
  lemma {:induction false} PlayRunIff(g: Game, lines: seq<string>, w: string)
    requires g.possible != [] && AllOfLength(g.possible, WordLength)
    ensures w in PlayRun(g, lines).1.possible <==>
              w in g.possible && AcceptsEvery(w, TurnHints(g, lines))
    decreases |lines|
  {
    if lines == [] {
    } else if |lines[0]| != WordLength {
      assert PlayRun(g, lines) == PlayRun(g, lines[1..]);
      assert TurnHints(g, lines) == TurnHints(g, lines[1..]);
      PlayRunIff(g, lines[1..], w);
    } else if lines[0] == AllGreenLine {
      PlayRunStops(g, lines);
      assert TurnHints(g, lines) == [];
    } else {
      NarrowingRunStep(g, lines, w);
      var g' := PlayTurn(g, lines[0]).0;
      if PlayTurn(g, lines[0]).1 == Playing {
        PlayRunIff(g', lines[1..], w);
      }
    }
  }

  /** One narrowing turn of a run, for `PlayRunIff`: the turn's hints come
      first, the candidates are filtered with them, and the rest of the run
      goes on from the narrowed game. */
  lemma NarrowingRunStep(g: Game, lines: seq<string>, w: string)
    requires g.possible != [] && AllOfLength(g.possible, WordLength)
    requires lines != [] && |lines[0]| == WordLength && lines[0] != AllGreenLine
    ensures var (g', status) := PlayTurn(g, lines[0]);
            var hints := LineHints(lines[0], g.possible[0]);
            (w in g'.possible <==> w in g.possible && Accepts(w, hints)) &&
            (status == Playing ==>
               PlayRun(g, lines) == PlayRun(g', lines[1..]) &&
               (AcceptsEvery(w, TurnHints(g, lines)) <==>
                  Accepts(w, hints) && AcceptsEvery(w, TurnHints(g', lines[1..])))) &&
            (status != Playing ==>
               PlayRun(g, lines) == (status, g') &&
               (AcceptsEvery(w, TurnHints(g, lines)) <==> Accepts(w, hints)))
  {
    assert g.possible[0] in g.possible;
    var hints := LineHints(lines[0], g.possible[0]);
    NarrowingTurn(g, lines[0], hints);
    var (g', status) := PlayTurn(g, lines[0]);
    if status == Playing {
      PlayRunContinues(g, lines);
      var rest := TurnHints(g', lines[1..]);
      assert TurnHints(g, lines) == [hints] + rest;
      AcceptsEveryCons(w, hints, rest);
    } else {
      PlayRunStops(g, lines);
      assert TurnHints(g, lines) == [hints] + [];
      AcceptsEveryCons(w, hints, []);
    }
  }

  /** The lines of the right length. */
  function WellSized(lines: seq<string>): (r: seq<string>)
    ensures forall k :: 0 <= k < |r| ==> |r[k]| == WordLength
  {
    if lines == [] then []
    else (if |lines[0]| == WordLength then [lines[0]] else []) + WellSized(lines[1..])
  }

  /** Lines of the wrong length are rejected without using a turn: the game
      ends the same way, in the same state, once they are deleted. */
  lemma {:induction false} WrongLengthLinesIgnored(g: Game, lines: seq<string>)
    requires g.possible != [] && AllOfLength(g.possible, WordLength)
    ensures PlayRun(g, lines) == PlayRun(g, WellSized(lines))
    decreases |lines|
  {
    if lines != [] {
      var ws, ws' := WellSized(lines), WellSized(lines[1..]);
      if |lines[0]| != WordLength {
        assert ws == ws';
        assert PlayRun(g, lines) == PlayRun(g, lines[1..]);
        WrongLengthLinesIgnored(g, lines[1..]);
      } else {
        var (g', status) := PlayTurn(g, lines[0]);
        assert ws == [lines[0]] + ws';
        assert ws != [] && ws[0] == lines[0] && ws[1..] == ws';
        if status == Playing {
          assert PlayRun(g, lines) == PlayRun(g', lines[1..]);
          assert PlayRun(g, ws) == PlayRun(g', ws');
          WrongLengthLinesIgnored(g', lines[1..]);
        }
      }
    }
  }

  /** A player who answers for a target that is still a candidate never
      loses it: the turn ends in a win exactly when the shown word is the
      target, and otherwise the target is still a candidate. */
  lemma HonestTurnKeepsTarget(g: Game, target: string)
    requires g.possible != [] && AllOfLength(g.possible, WordLength)
    requires target in g.possible
    ensures |g.possible[0]| == WordLength && |target| == WordLength
    ensures Classifiable(g.possible[0], target)
    ensures var r := PlayTurn(g, Kinds(Feedback(g.possible[0], target)));
            (r.1 == Won <==> g.possible[0] == target) &&
            (r.1 != Won ==> r.1 == Playing && target in r.0.possible)
  {
    var guess := g.possible[0];
    HonestLineWins(guess, target);
    HonestLineHints(guess, target);
    var line := Kinds(Feedback(guess, target));
    if line != AllGreenLine {
      TargetAccepted(guess, target);
      FixedLengthCheckable(g.possible, Feedback(guess, target), WordLength);
    }
  }

  /** The hint-building loop of play: one hint per character of the hint
      string, with the letter at the same position of the shown word. */
  method ReadHints(line: string, guess: string) returns (hints: seq<Hint>)
    requires |line| <= |guess|
    ensures |hints| == |line|
    ensures forall k :: 0 <= k < |line| ==>
              hints[k].kind == line[k] && hints[k].letter == guess[k] && hints[k].position == k
    ensures hints == LineHints(line, guess)
  {
    hints := [];
    var pos := 0;
    while pos < |line|
      invariant 0 <= pos <= |line|
      invariant |hints| == pos
      invariant forall k :: 0 <= k < pos ==> hints[k] == Hint(guess[k], k, line[k])
    {
      hints := hints + [Hint(guess[pos], pos, line[pos])];
      pos := pos + 1;
    }
  }

  /** play: the turn counter goes up each iteration and back down for a
      hint string of the wrong length; the all-green string ends the game;
      any other string becomes hints on the shown word and narrows the
      candidates, ending the game when none is left. */
  method Play(words: seq<string>, lines: seq<string>)
    returns (status: Status, turn: nat, possible: seq<string>)
    requires words != [] && AllOfLength(words, WordLength)
    ensures (status, Game(turn, possible)) == PlayRun(Game(0, words), lines)
  {
    turn := 0;
    possible := words;
    var i := 0;
    while i < |lines|
      invariant 0 <= i <= |lines|
      invariant possible != [] && AllOfLength(possible, WordLength)
      invariant PlayRun(Game(turn, possible), lines[i..]) == PlayRun(Game(0, words), lines)
    {
      ghost var g0 := Game(turn, possible);
      assert lines[i..][0] == lines[i] && lines[i..][1..] == lines[i + 1..];
      turn := turn + 1;
      var guess := possible[0];
      var hint := lines[i];
      i := i + 1;
      if |hint| != WordLength {
        turn := turn - 1;
        PlayRunContinues(g0, lines[i - 1..]);
        continue;
      }
      if hint == AllGreenLine {
        status := Won;
        PlayRunStops(g0, lines[i - 1..]);
        return;
      }
      var hints := ReadHints(hint, guess);
      NarrowingTurn(g0, hint, hints);
      possible := NarrowGuesses(possible, hints);
      if |possible| <= 0 {
        status := Exhausted;
        PlayRunStops(g0, lines[i - 1..]);
        return;
      }
      PlayRunContinues(g0, lines[i - 1..]);
    }
    status := Playing;
    assert lines[i..] == [];
  }
}
