/** Word source loader (the line loop of parse_words): each line of the word
    file is `word<TAB>frequency`; five-character words are appended in file
    order until `count` of them have been taken. */
module WordList {

  /** One item of the file's line iterator: a line, or a read failure. */
  datatype LineRead = Line(text: string) | ReadError(code: nat)

  /** Opening the word file either yields its lines or fails. */
  datatype WordFile = Opened(lines: seq<LineRead>) | OpenError(code: nat)

  /** The io::Result<()> returned by parse_words. */
  datatype Outcome = Pass | Fail(code: nat)

  const Tab: char := '\t'
  /** The length of a word, and of a hint string. */
  const WordLength: nat := 5

  /** The fields joined back with the separator between each pair. */
  function Join(fields: seq<string>, sep: char): (s: string)
    requires fields != []
  {
    if |fields| == 1 then fields[0]
    else Join(fields[..|fields| - 1], sep) + [sep] + fields[|fields| - 1]
  }

  /** How many times `x` occurs in `s`. */
  function Occurrences(s: string, x: char): (n: nat)
    ensures n == 0 <==> x !in s
  {
    if s == [] then 0
    else
      assert s == s[..|s| - 1] + [s[|s| - 1]];
      Occurrences(s[..|s| - 1], x) + (if s[|s| - 1] == x then 1 else 0)
  }

  /** The fields of `s` between occurrences of `sep` (str::split with a char
      pattern), built from the left one character at a time. */
  function Split(s: string, sep: char): (fields: seq<string>)
    ensures fields != []
  {
    if s == [] then [[]]
    else
      var init, c := Split(s[..|s| - 1], sep), s[|s| - 1];
      if c == sep then init + [[]]
      else init[..|init| - 1] + [init[|init| - 1] + [c]]
  }

  /** There is one more field than separators, and no field holds the
      separator. */
  lemma SplitFields(s: string, sep: char)
    ensures forall k :: 0 <= k < |Split(s, sep)| ==> sep !in Split(s, sep)[k]
    ensures |Split(s, sep)| == Occurrences(s, sep) + 1
    ensures |Split(s, sep)| >= 2 <==> sep in s
  {
    SplitFieldsFree(s, sep);
    SplitCount(s, sep);
  }

  lemma {:induction false} SplitFieldsFree(s: string, sep: char)
    ensures forall k :: 0 <= k < |Split(s, sep)| ==> sep !in Split(s, sep)[k]
  {
    if s != [] {
      var s', c := s[..|s| - 1], s[|s| - 1];
      SplitFieldsFree(s', sep);
      var init, fields := Split(s', sep), Split(s, sep);
      if c != sep {
        assert fields == init[..|init| - 1] + [init[|init| - 1] + [c]];
        forall k | 0 <= k < |fields| ensures sep !in fields[k] {
          if k < |fields| - 1 {
            assert fields[k] == init[k];
          } else {
            assert fields[k] == init[|init| - 1] + [c];
          }
        }
      }
    }
  }

  lemma {:induction false} SplitCount(s: string, sep: char)
    ensures |Split(s, sep)| == Occurrences(s, sep) + 1
    ensures |Split(s, sep)| >= 2 <==> sep in s
  {
    if s != [] {
      SplitCount(s[..|s| - 1], sep);
    }
  }

  /** A line that holds the separator splits into at least two fields. */
  lemma SplitAtSeparator(s: string, sep: char)
    requires sep in s
    ensures |Split(s, sep)| >= 2
  {
    SplitCount(s, sep);
  }

  /** The field before the last one (the last being the frequency). */
  function WordField(line: string): (w: string)
    requires Tab in line
    ensures Tab !in w
  {
    SplitFieldsFree(line, Tab);
    SplitAtSeparator(line, Tab);
    var fields := Split(line, Tab);
    fields[|fields| - 2]
  }

  /** Every line that the loop reaches before it stops has a tab: the loop
      stops at a read error, or once the `c`-th word has been appended. */
  predicate Parsable(lines: seq<LineRead>, c: nat) {
    lines == [] ||
    match lines[0]
    case ReadError(_) => true
    case Line(t) =>
      Tab in t &&
      ((|WordField(t)| == WordLength && c <= 1) ||
       Parsable(lines[1..], if |WordField(t)| == WordLength then c - 1 else c))
  }

  /** What the loop appends, and what parse_words then returns, when `c`
      more words are wanted. */
  function Scan(lines: seq<LineRead>, c: nat): (r: (seq<string>, Outcome))
    requires c >= 1 && Parsable(lines, c)
    ensures |r.0| <= c
    ensures forall k :: 0 <= k < |r.0| ==> |r.0[k]| == WordLength
    decreases |lines|
  {
    if lines == [] then ([], Pass)
    else
      match lines[0]
      case ReadError(e) => ([], Fail(e))
      case Line(t) =>
        var w := WordField(t);
        if |w| != WordLength then Scan(lines[1..], c)
        else if c == 1 then ([w], Pass)
        else
          var rest := Scan(lines[1..], c - 1);
          ([w] + rest.0, rest.1)
  }

  /** parse_words: open the file (an open failure is returned at once), then
      run the line loop. Words appended before a read error stay appended. */
  method ParseWords(words: seq<string>, file: WordFile, count: nat)
    returns (words': seq<string>, result: Outcome)
    requires count >= 1
    requires file.Opened? ==> Parsable(file.lines, count)
    ensures file.OpenError? ==> words' == words && result == Fail(file.code)
    ensures file.Opened? ==>
              words' == words + Scan(file.lines, count).0 && result == Scan(file.lines, count).1
    ensures |words| <= |words'| <= |words| + count && words'[..|words|] == words
    ensures forall k :: |words| <= k < |words'| ==> |words'[k]| == WordLength
  {
    match file {
      case OpenError(e) =>
        return words, Fail(e);
      case Opened(lines) =>
        words', result := ReadLines(words, lines, count);
    }
  }

  /** The line loop of parse_words: split each line at tabs, drop the
      frequency field, append the field before it when it has five
      characters, and stop after `count` words or at the first read error. */
  method ReadLines(words: seq<string>, lines: seq<LineRead>, count: nat)
    returns (words': seq<string>, result: Outcome)
    requires count >= 1 && Parsable(lines, count)
    ensures words' == words + Scan(lines, count).0 && result == Scan(lines, count).1
  {
    var c := count;
    words' := words;
    var i := 0;
    while i < |lines|
      invariant 0 <= i <= |lines| && c >= 1
      invariant Parsable(lines[i..], c)
      invariant words' + Scan(lines[i..], c).0 == words + Scan(lines, count).0
      invariant Scan(lines[i..], c).1 == Scan(lines, count).1
    {
      ghost var rest := lines[i..];
      assert rest[0] == lines[i] && rest[1..] == lines[i + 1..];
      var line := lines[i];
      i := i + 1;
      match line {
        case ReadError(e) =>
          assert Scan(rest, c) == ([], Fail(e));
          assert words' + [] == words';
          return words', Fail(e);
        case Line(l) =>
          ScanStep(rest, c);
          var word := TakeWordField(l);
          if |word| != WordLength {
            continue;
          }
          ghost var before := words';
          words' := words' + [word];
          c := c - 1;
          if c <= 0 {
            assert words' + [] == before + [word];
            break;
          }
          assert words' + Scan(lines[i..], c).0 == before + ([word] + Scan(lines[i..], c).0);
      }
    }
    result := Pass;
  }

  /** The word of one line: split it at tabs, drop the frequency field and
      take the field that is then last. */
  method TakeWordField(l: string) returns (word: string)
    requires Tab in l
    ensures word == WordField(l)
  {
    var split := Split(l, Tab);
    SplitAtSeparator(l, Tab);
    split := split[..|split| - 1];  // drop the frequency field
    word := split[|split| - 1];
  }

  /** One line of the loop: a line whose word field has the wrong length is
      skipped; a five-character one is taken, and ends the scan when it is
      the last word wanted. */
  lemma ScanStep(lines: seq<LineRead>, c: nat)
    requires c >= 1 && Parsable(lines, c) && lines != [] && lines[0].Line?
    ensures Tab in lines[0].text
    ensures |WordField(lines[0].text)| != WordLength ==>
              Parsable(lines[1..], c) && Scan(lines, c) == Scan(lines[1..], c)
    ensures |WordField(lines[0].text)| == WordLength && c == 1 ==>
              Scan(lines, c) == ([WordField(lines[0].text)], Pass)
    ensures |WordField(lines[0].text)| == WordLength && c > 1 ==>
              Parsable(lines[1..], c - 1) &&
              Scan(lines, c) == ([WordField(lines[0].text)] + Scan(lines[1..], c - 1).0,
                                 Scan(lines[1..], c - 1).1)
  {
  }

  /** Joining the fields of a split gives back the line. */
  lemma {:induction false} JoinSplit(s: string, sep: char)
    ensures Join(Split(s, sep), sep) == s
  {
    if s != [] {
      var s', c := s[..|s| - 1], s[|s| - 1];
      var init := Split(s', sep);
      JoinSplit(s', sep);
      assert s == s' + [c];
      if c != sep {
        var fields := Split(s, sep);
        assert fields == init[..|init| - 1] + [init[|init| - 1] + [c]];
        if |init| > 1 {
          assert fields[..|fields| - 1] == init[..|init| - 1];
        }
      }
    }
  }

  /** Splitting a line that has no separator gives that line alone. */
  lemma {:induction false} SplitNoSeparator(s: string, sep: char)
    requires sep !in s
    ensures Split(s, sep) == [s]
  {
    if s != [] {
      SplitNoSeparator(s[..|s| - 1], sep);
      assert s == s[..|s| - 1] + [s[|s| - 1]];
    }
  }

  /** Appending a separator and a separator-free field adds one field. */
  lemma {:induction false} SplitAppendField(prefix: string, sep: char, f: string)
    requires sep !in f
    ensures Split(prefix + [sep] + f, sep) == Split(prefix, sep) + [f]
    decreases |f|
  {
    var s := prefix + [sep] + f;
    var fields := Split(prefix, sep);
    if f == [] {
      assert s[..|s| - 1] == prefix && s[|s| - 1] == sep;
    } else {
      var f', c := f[..|f| - 1], f[|f| - 1];
      assert c != sep;
      assert s[..|s| - 1] == prefix + [sep] + f' && s[|s| - 1] == c;
      SplitAppendField(prefix, sep, f');
      var init := fields + [f'];
      assert Split(s, sep) == init[..|init| - 1] + [init[|init| - 1] + [c]];
      assert init[..|init| - 1] == fields && init[|init| - 1] == f';
      assert f' + [c] == f;
    }
  }

  /** Splitting joined separator-free fields gives the fields back. */
  lemma {:induction false} SplitJoin(fields: seq<string>, sep: char)
    requires fields != []
    requires forall k :: 0 <= k < |fields| ==> sep !in fields[k]
    ensures Split(Join(fields, sep), sep) == fields
  {
    if |fields| == 1 {
      SplitNoSeparator(fields[0], sep);
    } else {
      var init, last := fields[..|fields| - 1], fields[|fields| - 1];
      assert init + [last] == fields;
      assert forall k :: 0 <= k < |init| ==> init[k] == fields[k];
      SplitJoin(init, sep);
      assert Join(fields, sep) == Join(init, sep) + [sep] + last;
      SplitAppendField(Join(init, sep), sep, last);
    }
  }

  /** The word field of `word<TAB>frequency` is the word. */
  lemma WordFieldOfEntry(word: string, frequency: string)
    requires Tab !in word && Tab !in frequency
    ensures Tab in word + [Tab] + frequency
    ensures WordField(word + [Tab] + frequency) == word
  {
    SplitNoSeparator(word, Tab);
    SplitAppendField(word, Tab, frequency);
    assert (word + [Tab] + frequency)[|word|] == Tab;
  }

  /** The word field is the tab-free field that ends just before the last
      tab: the line is some prefix that is empty or ends with a tab, then the
      word, then a tab, then a tab-free frequency. */
  lemma WordFieldShape(line: string)
    requires Tab in line
    ensures exists p, f :: line == p + WordField(line) + [Tab] + f && Tab !in f &&
                           (p == [] || p[|p| - 1] == Tab)
  {
    var fields := Split(line, Tab);
    SplitFields(line, Tab);
    JoinSplit(line, Tab);
    var n := |fields|;
    var init, f := fields[..n - 1], fields[n - 1];
    var w := WordField(line);
    assert Tab !in f;
    assert line == Join(init, Tab) + [Tab] + f;
    assert w == init[|init| - 1];
    if |init| == 1 {
      assert line == [] + w + [Tab] + f;
    } else {
      var p := Join(init[..|init| - 1], Tab) + [Tab];
      assert Join(init, Tab) == p + w;
      assert line == p + w + [Tab] + f;
    }
  }

  /** Every successfully read line has a tab. */
  predicate WellFormed(lines: seq<LineRead>) {
    forall k :: 0 <= k < |lines| && lines[k].Line? ==> Tab in lines[k].text
  }

  /** A file whose every line has a tab never makes the loop fail to find
      a word field. */
  lemma {:induction false} WellFormedParsable(lines: seq<LineRead>, c: nat)
    requires WellFormed(lines)
    ensures Parsable(lines, c)
    decreases |lines|
  {
    if lines != [] && lines[0].Line? {
      assert WellFormed(lines[1..]) by {
        forall k | 0 <= k < |lines| - 1 && lines[1..][k].Line? ensures Tab in lines[1..][k].text {
          assert lines[1..][k] == lines[k + 1];
        }
      }
      var w := WordField(lines[0].text);
      if |w| != WordLength {
        WellFormedParsable(lines[1..], c);
      } else if c > 1 {
        WellFormedParsable(lines[1..], c - 1);
      }
    }
  }

  /** The lines read before the first read error. */
  function BeforeError(lines: seq<LineRead>): (r: seq<LineRead>)
    ensures |r| <= |lines| && r == lines[..|r|]
    ensures forall k :: 0 <= k < |r| ==> r[k].Line?
    ensures |r| < |lines| ==> lines[|r|].ReadError?
  {
    if lines == [] || lines[0].ReadError? then []
    else [lines[0]] + BeforeError(lines[1..])
  }

  /** The five-character word fields of the lines that have a tab, in line
      order. */
  function FiveLetterWords(lines: seq<LineRead>): (r: seq<string>)
    ensures forall k :: 0 <= k < |r| ==> |r[k]| == WordLength
  {
    if lines == [] then []
    else
      var rest := FiveLetterWords(lines[1..]);
      match lines[0]
      case ReadError(_) => rest
      case Line(t) =>
        if Tab in t && |WordField(t)| == WordLength then [WordField(t)] + rest else rest
  }

  /** The first `n` elements, or all of them when there are fewer. */
  function Take<T>(s: seq<T>, n: nat): (r: seq<T>)
    ensures |r| <= n && |r| <= |s| && r == s[..|r|]
    ensures |r| == n || r == s
  {
    if |s| <= n then s else s[..n]
  }

  /** parse_words appends the first `c` five-character words read before the
      first read error, in file order; it fails exactly when an error is
      reached before `c` words were found, and then with that error. */
  lemma {:induction false} ScanTakesFirstWords(lines: seq<LineRead>, c: nat)
    requires c >= 1 && Parsable(lines, c)
    ensures Scan(lines, c).0 == Take(FiveLetterWords(BeforeError(lines)), c)
    ensures Scan(lines, c).1.Pass? <==>
              BeforeError(lines) == lines || |FiveLetterWords(BeforeError(lines))| >= c
    ensures Scan(lines, c).1.Fail? ==> Scan(lines, c).1.code == lines[|BeforeError(lines)|].code
    decreases |lines|
  {
    if lines != [] && lines[0].Line? {
      var t, tail := lines[0].text, lines[1..];
      ScanStep(lines, c);
      var w := WordField(t);
      var before := BeforeError(lines);
      assert before == [lines[0]] + BeforeError(tail);
      assert before[1..] == BeforeError(tail);
      if |w| != WordLength {
        ScanTakesFirstWords(tail, c);
        assert FiveLetterWords(before) == FiveLetterWords(before[1..]);
      } else if c == 1 {
        assert FiveLetterWords(before) == [w] + FiveLetterWords(before[1..]);
      } else {
        ScanTakesFirstWords(tail, c - 1);
        assert FiveLetterWords(before) == [w] + FiveLetterWords(before[1..]);
      }
    }
  }
}
