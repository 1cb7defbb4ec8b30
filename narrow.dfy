/** Candidate narrower (narrow_guesses): a stable filter keeping the words
    consistent with every hint. */
module Narrow {
  import opened Hints

  /** A green or yellow hint reads `word[position]`, which must exist. */
  predicate Readable(word: string, h: Hint) {
    (h.kind == 'g' || h.kind == 'y') ==> h.position < |word|
  }

  /** The test of one hint: green pins the letter, yellow demands it
      elsewhere, black forbids it anywhere; any other kind is no constraint. */
  predicate Satisfies(word: string, h: Hint)
    requires Readable(word, h)
    ensures h.kind == 'y' ==> (Satisfies(word, h) <==>
              word[h.position] != h.letter &&
              exists j :: 0 <= j < |word| && j != h.position && word[j] == h.letter)
    ensures h.kind == 'b' ==> (Satisfies(word, h) <==>
              forall j :: 0 <= j < |word| ==> word[j] != h.letter)
    ensures h.kind !in {'g', 'y', 'b'} ==> Satisfies(word, h)
  {
    if h.kind == 'g' then word[h.position] == h.letter
    else if h.kind == 'y' then word[h.position] != h.letter && h.letter in word
    else if h.kind == 'b' then h.letter !in word
    else true
  }

  /** Hints are tested in order and testing stops at the first one that
      fails, so only the hints up to that one need to be readable. */
  predicate Checkable(word: string, hints: seq<Hint>) {
    hints == [] ||
    (Readable(word, hints[0]) && (Satisfies(word, hints[0]) ==> Checkable(word, hints[1..])))
  }

  /** The word passes every hint, tested in order. */
  predicate Survives(word: string, hints: seq<Hint>)
    requires Checkable(word, hints)
  {
    hints == [] || (Satisfies(word, hints[0]) && Survives(word, hints[1..]))
  }

  /** The hints can be tested against the word and it passes them all. */
  predicate Accepts(word: string, hints: seq<Hint>) {
    Checkable(word, hints) && Survives(word, hints)
  }

  predicate AllCheckable(words: seq<string>, hints: seq<Hint>) {
    forall w :: w in words ==> Checkable(w, hints)
  }

  /** `a` is `b` with some elements left out, the rest in their order. */
  ghost predicate IsSubsequence<T>(a: seq<T>, b: seq<T>)
    decreases |b|
  {
    if a == [] then true
    else if b == [] then false
    else (a[|a| - 1] == b[|b| - 1] && IsSubsequence(a[..|a| - 1], b[..|b| - 1]))
         || IsSubsequence(a, b[..|b| - 1])
  }

  /** The words that survive the hints, in their original order. */
  function Filter(words: seq<string>, hints: seq<Hint>): (r: seq<string>)
    requires AllCheckable(words, hints)
    ensures |r| <= |words|
    ensures forall w :: w in r <==> w in words && Survives(w, hints)
  {
    if words == [] then []
    else
      var last := words[|words| - 1];
      Filter(words[..|words| - 1], hints) + (if Survives(last, hints) then [last] else [])
  }

  /** narrow_guesses: for each word, test the hints in order with a validity
      flag, stopping at the first failure; push the survivors. */
  method NarrowGuesses(words: seq<string>, hints: seq<Hint>) returns (guesses: seq<string>)
    requires AllCheckable(words, hints)
    ensures guesses == Filter(words, hints)
  {
    guesses := [];
    for i := 0 to |words|
      invariant guesses == Filter(words[..i], hints)
    {
      var word := words[i];
      var isValid := true;
      var j := 0;
      while j < |hints|
        invariant 0 <= j <= |hints|
        invariant isValid
        invariant Checkable(word, hints[j..])
        invariant Survives(word, hints) <==> Survives(word, hints[j..])
      {
        var hint := hints[j];
        assert hints[j..][1..] == hints[j + 1..];
        if hint.kind == 'g' && word[hint.position] != hint.letter {
          isValid := false;
          break;
        }
        if hint.kind == 'y' && (word[hint.position] == hint.letter || hint.letter !in word) {
          isValid := false;
          break;
        }
        if hint.kind == 'b' && hint.letter in word {
          isValid := false;
          break;
        }
        j := j + 1;
      }
      assert isValid <==> Survives(word, hints);
      if isValid {
        guesses := guesses + [word];
      }
      assert words[..i + 1][..i] == words[..i];
    }
    assert words[..|words|] == words;
  }

  /** When every hint is readable, testing them in order is the same as
      requiring each of them. */
  lemma {:induction false} AcceptsIffEach(word: string, hints: seq<Hint>)
    requires forall k :: 0 <= k < |hints| ==> Readable(word, hints[k])
    ensures Checkable(word, hints)
    ensures Survives(word, hints) <==> forall k :: 0 <= k < |hints| ==> Satisfies(word, hints[k])
  {
    if hints != [] {
      AcceptsIffEach(word, hints[1..]);
      assert forall k :: 0 < k < |hints| ==> hints[k] == hints[1..][k - 1];
    }
  }

  /** The first `k` hints are readable and satisfied. */
  predicate PassesFirst(word: string, hints: seq<Hint>, k: nat)
    requires k <= |hints|
  {
    forall j :: 0 <= j < k ==> Readable(word, hints[j]) && Satisfies(word, hints[j])
  }

  /** Testing in order with a break: the hints can be tested exactly when
      every hint reached (all before it passed) is readable, and a testable
      word survives exactly when it passes all of them. */
  lemma {:induction false} TestedInOrder(word: string, hints: seq<Hint>)
    ensures Checkable(word, hints) <==>
              forall k :: 0 <= k < |hints| && PassesFirst(word, hints, k) ==> Readable(word, hints[k])
    ensures Checkable(word, hints) ==> (Survives(word, hints) <==> PassesFirst(word, hints, |hints|))
  {
    if hints != [] {
      var tail := hints[1..];
      TestedInOrder(word, tail);
      forall k | 0 <= k < |tail| ensures tail[k] == hints[k + 1] { }
      forall k | 0 <= k <= |tail|
        ensures PassesFirst(word, hints, k + 1) <==>
                  Readable(word, hints[0]) && Satisfies(word, hints[0]) && PassesFirst(word, tail, k)
      {
        if Readable(word, hints[0]) && Satisfies(word, hints[0]) && PassesFirst(word, tail, k) {
          forall j | 0 <= j < k + 1 ensures Readable(word, hints[j]) && Satisfies(word, hints[j]) {
            if j > 0 {
              assert hints[j] == tail[j - 1];
            }
          }
        }
      }
      assert PassesFirst(word, hints, 0);
      if forall k :: 0 <= k < |hints| && PassesFirst(word, hints, k) ==> Readable(word, hints[k]) {
        assert Readable(word, hints[0]);
        if Satisfies(word, hints[0]) {
          forall k | 0 <= k < |tail| && PassesFirst(word, tail, k) ensures Readable(word, tail[k]) {
            assert PassesFirst(word, hints, k + 1);
          }
        }
      }
      if Checkable(word, hints) {
        forall k | 0 <= k < |hints| && PassesFirst(word, hints, k) ensures Readable(word, hints[k]) {
          if k > 0 {
            assert Satisfies(word, hints[0]);
            assert PassesFirst(word, tail, k - 1);
          }
        }
      }
    }
  }

  /** The result of narrowing is a subsequence of the candidates. */
  lemma {:induction false} FilterIsSubsequence(words: seq<string>, hints: seq<Hint>)
    requires AllCheckable(words, hints)
    ensures IsSubsequence(Filter(words, hints), words)
  {
    if words != [] {
      var init := words[..|words| - 1];
      FilterIsSubsequence(init, hints);
      var last := words[|words| - 1];
      var r, r' := Filter(words, hints), Filter(init, hints);
      assert words[..|words| - 1] == init;
      if Survives(last, hints) {
        assert r == r' + [last];
        assert r[..|r| - 1] == r' && r[|r| - 1] == last;
      } else {
        assert r == r';
        if r != [] {
          SubsequenceOfPrefix(r, words);
        }
      }
    }
  }

  /** Narrowing keeps every copy of a surviving word and no copy of any
      other word. */
  lemma {:induction false} FilterKeepsEveryCopy(words: seq<string>, hints: seq<Hint>)
    requires AllCheckable(words, hints)
    ensures forall w :: multiset(Filter(words, hints))[w] ==
              if w in words && Survives(w, hints) then multiset(words)[w] else 0
  {
    if words != [] {
      var init, last := words[..|words| - 1], words[|words| - 1];
      FilterKeepsEveryCopy(init, hints);
      assert words == init + [last];
      var r, r' := Filter(words, hints), Filter(init, hints);
      assert r == r' + (if Survives(last, hints) then [last] else []);
      forall w ensures multiset(r)[w] ==
          if w in words && Survives(w, hints) then multiset(words)[w] else 0
      {
        assert w in words <==> w in init || w == last;
      }
    }
  }

  /** Dropping the last element of the larger sequence keeps a subsequence. */
  lemma SubsequenceOfPrefix<T>(a: seq<T>, b: seq<T>)
    requires b != [] && IsSubsequence(a, b[..|b| - 1])
    ensures IsSubsequence(a, b)
  {
  }

  /** A subsequence is never longer. */
  lemma {:induction false} SubsequenceShorter<T>(a: seq<T>, b: seq<T>)
    requires IsSubsequence(a, b)
    ensures |a| <= |b|
    decreases |b|
  {
    if a != [] && b != [] {
      if a[|a| - 1] == b[|b| - 1] && IsSubsequence(a[..|a| - 1], b[..|b| - 1]) {
        SubsequenceShorter(a[..|a| - 1], b[..|b| - 1]);
      } else {
        SubsequenceShorter(a, b[..|b| - 1]);
      }
    }
  }

  /** Being a subsequence is transitive. */
  lemma {:induction false} SubsequenceTransitive<T>(a: seq<T>, b: seq<T>, c: seq<T>)
    requires IsSubsequence(a, b) && IsSubsequence(b, c)
    ensures IsSubsequence(a, c)
    decreases |c|
  {
    if a != [] {
      assert b != [] && c != [];
      var a', b', c' := a[..|a| - 1], b[..|b| - 1], c[..|c| - 1];
      if b[|b| - 1] == c[|c| - 1] && IsSubsequence(b', c') {
        if a[|a| - 1] == b[|b| - 1] && IsSubsequence(a', b') {
          SubsequenceTransitive(a', b', c');
        } else {
          SubsequenceTransitive(a, b', c');
        }
      } else {
        SubsequenceTransitive(a, b, c');
      }
    }
  }

  /** Narrowing with no hints keeps every candidate. */
  lemma {:induction false} FilterNoHints(words: seq<string>)
    ensures AllCheckable(words, [])
    ensures Filter(words, []) == words
  {
    if words != [] {
      FilterNoHints(words[..|words| - 1]);
      assert words[..|words| - 1] + [words[|words| - 1]] == words;
    }
  }

  /** Narrowing twice with the same hints is narrowing once. */
  lemma {:induction false} FilterIdempotent(words: seq<string>, hints: seq<Hint>)
    requires AllCheckable(words, hints)
    ensures AllCheckable(Filter(words, hints), hints)
    ensures Filter(Filter(words, hints), hints) == Filter(words, hints)
  {
    if words != [] {
      var init, last := words[..|words| - 1], words[|words| - 1];
      FilterIdempotent(init, hints);
      var r, r' := Filter(words, hints), Filter(init, hints);
      assert words[..|words| - 1] == init;
      if Survives(last, hints) {
        assert r == r' + [last];
        assert r[..|r| - 1] == r' && r[|r| - 1] == last;
        assert Filter(r, hints) == Filter(r', hints) + [last];
      } else {
        assert r == r';
      }
    }
  }

  /** The target always passes the hints it produced for any guess, so
      narrowing with them never loses it. */
  lemma TargetAccepted(guess: string, target: string)
    requires Classifiable(guess, target)
    ensures Accepts(target, Feedback(guess, target))
  {
    var hs := Feedback(guess, target);
    AcceptsIffEach(target, hs);
  }

  /** A word passes the hints produced for itself only when it is the target:
      its own letters are never yellow or black against itself. */
  lemma OnlyTargetAcceptsOwnFeedback(word: string, target: string)
    requires |word| == |target|
    ensures Classifiable(word, target)
    ensures Accepts(word, Feedback(word, target)) <==> word == target
  {
    WinIffEqual(word, target);
    var hs := Feedback(word, target);
    AcceptsIffEach(word, hs);
    if Accepts(word, hs) {
      forall i | 0 <= i < |hs| ensures hs[i].kind == 'g' {
        assert Satisfies(word, hs[i]);
        assert word[i] in word;
      }
    } else {
      TargetAccepted(word, target);
    }
  }

  /** Every word has length `n`. */
  predicate AllOfLength(words: seq<string>, n: nat) {
    forall w :: w in words ==> |w| == n
  }

  /** Hints whose positions all lie below the common length of the words can
      be tested against every word. */
  lemma FixedLengthCheckable(words: seq<string>, hints: seq<Hint>, n: nat)
    requires AllOfLength(words, n)
    requires forall k :: 0 <= k < |hints| ==> hints[k].position < n
    ensures AllCheckable(words, hints)
  {
    forall w | w in words ensures Checkable(w, hints) {
      AcceptsIffEach(w, hints);
    }
  }

  /** Every sequence is a subsequence of itself. */
  lemma {:induction false} SubsequenceReflexive<T>(a: seq<T>)
    ensures IsSubsequence(a, a)
  {
    if a != [] {
      SubsequenceReflexive(a[..|a| - 1]);
    }
  }
}
