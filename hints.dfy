/** Feedback engine: the per-letter hints for a guess against a known target
    (get_hints) and the all-green check (is_winner).

    Classification uses plain containment of the letter in the target, not the
    count-aware duplicate-letter rule of the original game: every occurrence of
    a guess letter that appears somewhere in the target gets green or yellow. */
module Hints {

  /** One letter of feedback. `kind` is 'g' (green), 'y' (yellow) or 'b'
      (black) when computed from a target; hints typed by a player may carry
      any character, so it stays a `char`. */
  datatype Hint = Hint(letter: char, position: nat, kind: char)

  /** get_hints reads `target[i]` only when `guess[i]` occurs in the target;
      that read must be in range. Holds whenever |guess| <= |target|. */
  predicate Classifiable(guess: string, target: string) {
    forall i :: 0 <= i < |guess| && guess[i] in target ==> i < |target|
  }

  /** The kind given to letter `c` at position `i`. */
  function Kind(c: char, i: nat, target: string): (k: char)
    requires c in target ==> i < |target|
    ensures k == 'b' <==> c !in target
    ensures k == 'g' <==> i < |target| && target[i] == c
    ensures k == 'y' <==> c in target && target[i] != c
  {
    if c in target then (if target[i] == c then 'g' else 'y') else 'b'
  }

  /** The hints get_hints returns: one per guess letter, in guess order. */
  function Feedback(guess: string, target: string): (hs: seq<Hint>)
    requires Classifiable(guess, target)
    ensures |hs| == |guess|
    ensures forall i :: 0 <= i < |hs| ==> hs[i].letter == guess[i] && hs[i].position == i
    ensures forall i :: 0 <= i < |hs| ==> (hs[i].kind == 'b' <==> guess[i] !in target)
    ensures forall i :: 0 <= i < |hs| ==>
              (hs[i].kind == 'g' <==> i < |target| && target[i] == guess[i])
    ensures forall i :: 0 <= i < |hs| ==>
              (hs[i].kind == 'y' <==> guess[i] in target && target[i] != guess[i])
  {
    seq(|guess|, i requires 0 <= i < |guess| => Hint(guess[i], i, Kind(guess[i], i, target)))
  }

  /** Every hint is green; vacuously true of no hints. */
  predicate AllGreen(hints: seq<Hint>) {
    forall i :: 0 <= i < |hints| ==> hints[i].kind == 'g'
  }

  /** The sequence of kinds of a hint list, as a player would type it. */
  function Kinds(hints: seq<Hint>): (s: string)
    ensures |s| == |hints|
    ensures forall i :: 0 <= i < |s| ==> s[i] == hints[i].kind
  {
    seq(|hints|, i requires 0 <= i < |hints| => hints[i].kind)
  }

  /** get_hints: walks the guess with a position counter and pushes one hint
      per letter. */
  method GetHints(guess: string, target: string) returns (hints: seq<Hint>)
    requires Classifiable(guess, target)
    ensures hints == Feedback(guess, target)
  {
    var pos := 0;
    hints := [];
    while pos < |guess|
      invariant 0 <= pos <= |guess|
      invariant |hints| == pos
      invariant forall k :: 0 <= k < pos ==> hints[k] == Feedback(guess, target)[k]
    {
      var c := guess[pos];
      var kind := 'b';
      if c in target {
        if target[pos] == c {
          kind := 'g';
        } else {
          kind := 'y';
        }
      }
      if c !in target {
        kind := 'b';
      }
      hints := hints + [Hint(c, pos, kind)];
      pos := pos + 1;
    }
  }

  /** is_winner: returns false at the first hint that is not green. */
  method IsWinner(hints: seq<Hint>) returns (win: bool)
    ensures win == AllGreen(hints)
  {
    for i := 0 to |hints|
      invariant forall k :: 0 <= k < i ==> hints[k].kind == 'g'
    {
      if hints[i].kind != 'g' {
        return false;
      }
    }
    return true;
  }

  /** Same-length words are always classifiable. */
  lemma SameLengthClassifiable(guess: string, target: string)
    requires |guess| == |target|
    ensures Classifiable(guess, target)
  {
  }

  /** For words of equal length the feedback is all green exactly when the
      guess is the target; in particular every word wins against itself. */
  lemma {:induction false} WinIffEqual(guess: string, target: string)
    requires |guess| == |target|
    ensures Classifiable(guess, target)
    ensures AllGreen(Feedback(guess, target)) <==> guess == target
  {
    var hs := Feedback(guess, target);
    if AllGreen(hs) {
      forall i | 0 <= i < |guess| ensures guess[i] == target[i] {
        assert hs[i].kind == 'g';
      }
    }
  }

  /** A guess sharing no letter with the target gets only black hints, and
      conversely. */
  lemma AllBlackIffDisjoint(guess: string, target: string)
    requires Classifiable(guess, target)
    ensures (forall i :: 0 <= i < |guess| ==> Feedback(guess, target)[i].kind == 'b')
        <==> (forall c :: c in guess ==> c !in target)
  {
    var hs := Feedback(guess, target);
    if forall i :: 0 <= i < |guess| ==> hs[i].kind == 'b' {
      forall c | c in guess ensures c !in target {
        var i :| 0 <= i < |guess| && guess[i] == c;
        assert hs[i].kind == 'b';
      }
    }
  }

  /** The containment quirk: "geese" against "crane" yields b,y,y,b,g, so all
      three e's are credited although "crane" has one. */
  lemma DuplicateLettersNotCounted()
    ensures Kinds(Feedback("geese", "crane")) == "byybg"
  {
    var hs := Feedback("geese", "crane");
    assert hs[0].kind == 'b' && hs[1].kind == 'y' && hs[2].kind == 'y';
    assert hs[3].kind == 'b' && hs[4].kind == 'g';
  }
}
