# wordle-solver, modelled in Dafny

A model of the Wordle solver in `src/main.rs`. It has five parts, each in its own module:

- **Feedback engine** (`Hints`, hints.dfy). `get_hints` gives each letter of a guess a kind:
  - `'g'` when the target has the same letter at the same position;
  - `'y'` when the letter occurs somewhere else in the target;
  - `'b'` when the letter does not occur in the target.

  `is_winner` checks that every hint is green. Classification uses plain containment, so duplicate letters are not counted. The model keeps this behaviour.
- **Candidate narrower** (`Narrow`, narrow.dfy). `narrow_guesses` is a stable filter. It tests a word against the hints in order and stops at the first hint that fails.
- **Word list loader** (`WordList`, words.dfy). This is the line loop of `parse_words`:
  - it splits each line at tabs;
  - it drops the frequency field and takes the field before it;
  - it keeps five-character words;
  - it stops after `count` words or at the first read error.
- **Solver loop** (`Solver`, solve.dfy). `solve` guesses the first remaining candidate and scores it against the known target. It then stops on a win or at turn 6, or narrows the candidates. It also stops when no candidate is left.
- **Interactive loop** (`Player`, play.dfy). `play` shows the first candidate and reads the player's hint string:
  - a string of the wrong length is rejected without using a turn;
  - `ggggg` wins;
  - any other string becomes hints on the shown word and narrows the candidates.

Each loop of the source is a method with loop invariants. Each method is proved equal to a pure specification function:
- `GetHints` equals `Feedback`;
- `IsWinner` equals `AllGreen`;
- `NarrowGuesses` equals `Filter`;
- `ParseWords` equals `Scan`;
- `Solve` equals `SolveFrom`;
- `Play` equals `PlayRun`.

The properties are proved as lemmas about those functions.

Panics of the source are preconditions, stated as exactly as the code allows:
- `get_hints` reads `target[i]` only when `guess[i]` occurs in the target (`Classifiable`).
- `narrow_guesses` reads `word[position]` only for green and yellow hints, and only up to the first hint that fails (`Checkable`).
- The `parse_words` loop needs a tab only on the lines it actually reaches (`Parsable`).
- `solve` and `play` need a non-empty word list, because they read the first candidate before anything else.
- `solve` and `play` also need every word to have five characters (`AllOfLength(words, 5)`). This is what `parse_words` produces (src/main.rs:127-130), and it keeps every hint position readable in every candidate.

On a line with more than one tab, the word is the field before the last one (src/main.rs:124-126), not the first field.

## Model

| member | source | states |
|---|---|---|
| Hints.Feedback | src/main.rs:243-266 | One hint per guess letter, in order. Hint `i` carries `guess[i]` and position `i`. It is black exactly when the letter is absent from the target, green exactly when `target[i]` is that letter, and yellow exactly when the letter is in the target but not at `i`. |
| Hints.Kind | src/main.rs:246-258 | The kind of one letter: black exactly when the letter is absent from the target, green exactly when the target has it at that position, yellow exactly when it is in the target but not there. |
| Hints.GetHints | src/main.rs:242-268 | The position-counter loop returns exactly `Feedback(guess, target)`. |
| Hints.IsWinner | src/main.rs:271-278 | The early-return loop is true exactly when every hint is green, so it is true for no hints. |
| Hints.WinIffEqual | src/main.rs:242-278 | For words of equal length, the hints are all green exactly when the guess is the target. In particular, every word wins against itself. |
| Hints.AllBlackIffDisjoint | src/main.rs:246-258 | Every hint is black exactly when the guess shares no letter with the target. |
| Hints.DuplicateLettersNotCounted | src/main.rs:246-258 | Duplicates are credited by containment: `geese` against `crane` gives `byybg`. |
| Narrow.Filter | src/main.rs:213-239 | The result is never longer than the input. A word is in it exactly when it is in the input and passes every hint. |
| Narrow.FilterKeepsEveryCopy | src/main.rs:213-239 | Narrowing keeps every copy of a surviving word and no copy of any other word: the count of each word in the result is its count in the input if it survives, and 0 otherwise. |
| Narrow.NarrowGuesses | src/main.rs:213-239 | The loop over words, with its validity flag and break, returns exactly `Filter(words, hints)`. |
| Narrow.Satisfies | src/main.rs:217-232 | The test of one hint, by position:<br>• yellow holds exactly when the letter is not at the hint's position but occurs at some other position;<br>• black holds exactly when the letter occurs at no position;<br>• any kind other than `g`, `y` or `b` always holds. |
| Narrow.TestedInOrder | src/main.rs:217-233 | The hints are tested in order and the test stops at the first failure. The hints can be tested (`Checkable`) exactly when every hint reached is readable, meaning every hint whose predecessors all passed. A testable word survives exactly when it passes all of them. |
| Narrow.AcceptsIffEach | src/main.rs:216-236 | When every hint is readable, passing the hints in order means satisfying each one: green pins the letter, yellow needs it elsewhere, black forbids it, and any other kind is no constraint. |
| Narrow.FilterIsSubsequence | src/main.rs:213-239 | Narrowing keeps a subsequence of the candidates in their original order. |
| Narrow.FilterNoHints | src/main.rs:216-236 | With no hints, narrowing returns its input unchanged. |
| Narrow.FilterIdempotent | src/main.rs:213-239 | Narrowing twice with the same hints equals narrowing once. |
| Narrow.TargetAccepted | src/main.rs:213-268 | The target passes the hints that any guess receives against it, so narrowing never drops it. |
| Narrow.OnlyTargetAcceptsOwnFeedback | src/main.rs:213-268 | A word passes the hints it received itself exactly when it is the target. |
| WordList.Split | src/main.rs:124 | Like `str::split`, it always yields at least one field (one empty field for an empty line). What the fields are is stated by `SplitFields`, `JoinSplit` and `SplitJoin`. |
| WordList.SplitFields | src/main.rs:124 | A split has exactly one more field than the line has separators (so at least two exactly when the line holds the separator), and no field holds the separator. |
| WordList.JoinSplit | src/main.rs:124 | Joining the fields of a split gives back the line. |
| WordList.SplitJoin | src/main.rs:124 | Splitting joined separator-free fields gives the fields back. |
| WordList.WordFieldOfEntry | src/main.rs:124-126 | The word taken from `word<TAB>frequency` is `word`. |
| WordList.WordField | src/main.rs:125-126 | The field taken after dropping the frequency field never holds a tab. |
| WordList.TakeWordField | src/main.rs:124-126 | The split at tabs, the `pop` of the frequency field and the `pop` of the word give exactly `WordField(line)`. |
| WordList.WordFieldShape | src/main.rs:124-126 | The line is a prefix that is empty or ends with a tab, then the word field, then a tab, then a tab-free frequency. So the word is the field just before the last tab. |
| WordList.Scan | src/main.rs:121-138 | The loop appends at most `c` words, each of five characters. |
| WordList.WellFormedParsable | src/main.rs:121-136 | If every line that is read has a tab, the word field is always found. |
| WordList.ScanTakesFirstWords | src/main.rs:121-138 | The words appended are the first `c` five-character word fields before the first read error, in file order. The result is an error exactly when a read error comes before `c` words were found, and then it is that error. |
| WordList.ReadLines | src/main.rs:120-140 | The line loop appends exactly `Scan`'s words to `words` and returns `Scan`'s outcome. |
| WordList.ParseWords | src/main.rs:116-141 | An open failure is returned with `words` untouched. Otherwise the line loop runs: `words` becomes itself followed by `Scan`'s words, and the result is `Scan`'s outcome. The old contents are kept, at most `count` words are added, and each has five characters. |
| Solver.Remaining | src/main.rs:161 | The candidates left after narrowing with each earlier guess's hints in turn all have five letters. Which words remain, and in what order, is stated by `RemainingIff` and `RemainingSubsequence`. |
| Solver.RemainingSubsequence | src/main.rs:146-161 | Narrowing never reorders: the remaining candidates are a subsequence of the words, so there are never more of them. |
| Solver.RemainingIff | src/main.rs:147-166 | After a sequence of guesses, a word remains exactly when it was a candidate and passes the hints of every earlier guess. |
| Solver.TargetRemains | src/main.rs:152-161 | A target that is among the words is never narrowed away. |
| Solver.ConsistentGuesses | src/main.rs:147-166 | Every guess passes the hints of every earlier guess, and no guess other than the target is guessed twice. |
| Solver.SolveFrom | src/main.rs:147-166 | A run adds at least one guess and never passes turn 6. `TurnLimit` happens only at turn 6. `NoCandidates` happens only before turn 6 with nothing left. |
| Solver.SolveFromFirstCandidates | src/main.rs:150 | Every guess of a run is the first remaining candidate at its turn. |
| Solver.SolveFromStopsAtTarget | src/main.rs:152-156 | Only the last guess can be the target, and the run is `Solved` exactly when it is. |
| Solver.SolveFromKeepsTarget | src/main.rs:161-166 | With the target among the words, a run never ends with no candidates. |
| Solver.SolveGuarantees | src/main.rs:144-168 | A whole run from the word list:<br>• makes 1 to 6 guesses of five letters, each the first remaining candidate;<br>• is solved exactly on the target, and only the last guess can be the target;<br>• hits the turn limit only at turn 6;<br>• ends without candidates only before turn 6, and never when the target is a word. |
| Solver.Solve | src/main.rs:144-168 | The loop, with its turn counter, `get_hints`/`is_winner` test and narrowing, returns the outcome and guesses of `SolveFrom` from no guesses. The turn number is the number of guesses. |
| Player.LineHints | src/main.rs:193-201 | One hint per character of the hint string. Hint `k` has kind `line[k]`, letter `guess[k]` and position `k`. |
| Player.ReadHints | src/main.rs:193-201 | The hint-building loop gives one hint per character of the hint string. Hint `k` has kind `line[k]`, letter `guess[k]` and position `k`. |
| Player.HonestLineHints | src/main.rs:193-201 | A player who types the kinds the target would give reproduces exactly the hints of `get_hints`. |
| Player.HonestLineWins | src/main.rs:189-192 | Such a player types `ggggg` exactly when the shown word is the target. |
| Player.PlayTurn | src/main.rs:175-208 | One turn:<br>• a line of the wrong length changes nothing and the game goes on;<br>• any other line uses one turn;<br>• the game is won exactly on `ggggg`;<br>• the game is exhausted exactly when no candidate is left. |
| Player.PlayTurnSubsequence | src/main.rs:193-203 | A turn keeps a subsequence of the candidates in their order. |
| Player.HonestTurnKeepsTarget | src/main.rs:189-208 | If the player answers honestly for a target that is still a candidate, the turn is won exactly when the shown word is the target. Otherwise the game goes on and the target is still a candidate. |
| Player.PlayRun | src/main.rs:175-209 | Over a line sequence, the turn count grows by at most the number of lines. The game ends exhausted exactly when no candidate is left. |
| Player.PlayRunSubsequence | src/main.rs:175-209 | Whatever the input, the final candidates are a subsequence of the initial words, so there are never more of them. |
| Player.TurnHints | src/main.rs:184-203 | A run narrows with at most one hint list per input line, and each list has five hints, one per letter of the shown word. |
| Player.PlayRunIff | src/main.rs:175-209 | A word is among the final candidates exactly when it was a candidate at the start and passes the hints of every turn the run narrowed with (`TurnHints`). Those are the hints spelled on the shown word by each line of the right length other than `ggggg`, in order, up to the turn that ends the game. |
| Player.WrongLengthLinesIgnored | src/main.rs:184-188 | Deleting every line of the wrong length from the input changes neither the outcome, nor the turn count, nor the candidates. |
| Player.Play | src/main.rs:171-210 | The loop, with its turn counter that goes up and back down on rejected lines, returns the status, turn and candidates of `PlayRun` from turn 0 with all the words. |

## Left out

- `download_words` is not modelled: it is a network fetch and a file write.
- `main` and the command-line structs are not modelled; they are argument parsing. Their target-length check becomes the requirement `|target| == 5` of `Solve`.
- File opening, `BufReader` and console reads become parameters:
  - a `WordFile` that is either opened lines or an open error;
  - a sequence of lines that are read, or that fail to read with an error code;
  - a sequence of hint strings, with the trailing newline already removed by `hint.pop()`.
- Console output and timing are not modelled; they do not affect behaviour.
- Panics are not modelled as behaviour; they are preconditions:
  - `unwrap` on an empty candidate list;
  - a line without a tab;
  - a hint position past the end of a word;
  - `get_hints` reading past the end of the target.
- WordList.ParseWords: requires `count >= 1`. With `count == 0`, `c - 1` underflows a `u64`: a debug build panics and a release build wraps, so there is effectively no cap.
- Player.Play: when the input runs out, the model stops with status `Playing`. At end of input the source reads empty lines and rejects them forever.
- Player.Play: the turn counter is an unbounded integer. The source's `u32` could wrap only after 2^32 accepted turns.
- Lengths are counted in characters throughout. The source counts hint strings and targets in bytes with `len()`, and words in characters; the two agree for ASCII input.
