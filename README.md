# Wordle in Dafny

This project models the terminal Wordle game in `src/main.rs`, a single Rust file.

- **Word list.** The list is read from a text file. Every line of exactly five alphabetic characters is kept, upper-cased.
- **Round.** Each round draws a secret word at random. The player gets up to six guesses, typed one per line.
- **Validation.** Each line is trimmed and upper-cased. It is rejected if it holds a non-letter, or else if its length is not five.
- **Scoring.** An accepted guess is scored position by position:
  - a letter equal to the secret's letter at that position is a full match;
  - a letter found elsewhere in the secret is a half match;
  - any other letter is no match.
  - Letters of the secret are not used up.
- **Display.** The scored guess is shown as coloured cells.
- **End of round.** Five full matches win. The sixth guess without them loses.
- **Play again.** The game then asks whether to play again. It goes on for `y` and stops for `N`, and asks again for anything else.

The modules follow the parts of `main.rs`:

| module | file | models |
|---|---|---|
| `Wrappers` | `wrappers.dfy` | `Option` and `Result` |
| `Text` | `text.dfy` | `trim`, whitespace, ASCII letters and upper-casing, `split` and `join` |
| `Words` | `words.dfy` | `load_words` |
| `Guess` | `guess.dfy` | the check inside `input_guess`, and its read loop |
| `Evaluation` | `evaluation.dfy` | `Match` and `evaluate_guess` |
| `Format` | `format.dfy` | `format_match`, and a parser that reads its output back |
| `Game` | `game.dfy` | `playagain`, `random_word`, the round state of `main` and its game loop |

The three pieces of round state in `main` (`attempts`, `chosen_word` and `max_attempts`) make up the class `Game.Round`.

The game loop of `main` is the method `Game.Play`:
- **Drawing.** The random choices are a sequence `draws`. Round `k` uses `words[draws[k] % |words|]`.
- **Input.** Standard input is a sequence of lines.
- **Result.** Besides the reason it stopped, `Play` returns a log of `Event`s, one per scored guess. The predicate `GoodLog` ties each event to the source:
  - the input lines it consumed, and the messages printed for the rejected ones;
  - the secret drawn for its round;
  - its attempt number;
  - its score, outcome and rendered line.

The lemmas then state what holds over the whole run:
- `WonIffSecret`: a guess wins exactly when it is the secret.
- `LostAfterSixMisses`: a round is lost only after six wrong guesses at the same secret.

Where the code and its description differ, the model follows the code:
- **Playing again does not zero `attempts`.** It only clears `chosen_word` (src/main.rs:175). `attempts` is zeroed when the next secret is drawn (src/main.rs:133). `Round.Reset` keeps `attempts`, and `Round.Begin` zeroes it.
- **The word list keeps duplicates.** `load_words` collects into a `Vec`, so a word that appears twice in the file appears twice in the list (`LoadWordsSample`).

## Model

| member | source | states |
|---|---|---|
| Text.IsSpace | src/main.rs:33 | the characters `trim` removes: those with the Unicode White_Space property |
| Text.IsAlpha | src/main.rs:20 | `char::is_alphabetic` on ASCII: an upper-case or a lower-case letter |
| Text.AllAlpha | src/main.rs:35 | `chars().all(char::is_alphabetic)`: every character is a letter, so the empty string passes |
| Text.ToUpper | src/main.rs:33 | a lower-case ASCII letter becomes the upper-case form of the same letter of the alphabet, and every other character is unchanged; being a letter is kept |
| Text.Upper | src/main.rs:21 | `to_uppercase` keeps the length and upper-cases each character in place |
| Text.TrimStart | src/main.rs:33 | `trim_start`: the line without its leading whitespace |
| Text.TrimEnd | src/main.rs:33 | `trim_end`: the line without its trailing whitespace |
| Text.Trim | src/main.rs:33 | `trim`: both ends stripped; its properties are stated by `TrimSpec` and `TrimSlice` |
| Text.Join | src/main.rs:81 | `join`: the pieces with the separator between each neighbouring pair |
| Text.TrimSpec | src/main.rs:33 | `trim` never lengthens its input, and the result neither starts nor ends with whitespace |
| Text.TrimSlice | src/main.rs:89 | the trimmed text is a contiguous slice of the line, and only whitespace lies before and after it |
| Text.TrimBlank | src/main.rs:33 | a line of whitespace only trims to the empty string |
| Text.TrimUntouched | src/main.rs:33 | a line with no whitespace at either end is unchanged by `trim` |
| Text.UpperKeepsAlpha | src/main.rs:33-35 | upper-casing keeps a line all-alphabetic exactly when it was, and makes every letter upper-case |
| Text.UpperIdempotent | src/main.rs:40 | upper-casing an upper-cased line again changes nothing |
| Text.Split | src/main.rs:19 | `split` on a line feed yields at least one piece, and no piece contains a line feed |
| Text.JoinSplit | src/main.rs:19 | joining the pieces of a split with the separator gives back the original text |
| Text.SplitAround | src/main.rs:19 | splitting `a + "\n" + b` yields the pieces of `a` followed by the pieces of `b` |
| Words.IsCandidate | src/main.rs:20 | the filter closure: five characters, all alphabetic |
| Words.IsWord | src/main.rs:20-21 | what the word list holds: five upper-case letters |
| Words.Keep | src/main.rs:20-22 | the filter and map over the lines, in order |
| Words.Kept | src/main.rs:20-21 | what one line contributes: its upper-cased form when it has five characters that are all alphabetic, nothing otherwise |
| Words.LoadWords | src/main.rs:17-23 | `load_words`: the filter and map over the pieces of the text split at line feeds; its properties are stated by the lemmas below |
| Words.KeepWords | src/main.rs:20-21 | the filter never yields more words than there are lines, and each word is five upper-case letters |
| Words.LoadWordsAreWords | src/main.rs:17-23 | every word `load_words` returns has length 5, is alphabetic and is upper-case |
| Words.KeepAppend | src/main.rs:20-22 | the filter keeps the lines' relative order: filtering a concatenation is the concatenation of the filtered parts |
| Words.KeepMember | src/main.rs:20-21 | a word is in the result exactly when some line passes the filter and upper-cases to it |
| Words.KeepOne | src/main.rs:20-21 | a single line is kept, upper-cased, exactly when it has five characters that are all alphabetic |
| Words.LoadWordsAround | src/main.rs:17-23 | a line feed splits the file into two parts whose word lists are concatenated |
| Words.LoadWordsLine | src/main.rs:17-23 | a text without line feeds gives its upper-cased form if it passes the filter, and nothing otherwise |
| Words.LoadWordsCons | src/main.rs:17-23 | a leading line contributes its own verdict, followed by the word list of the rest |
| Words.LoadWordsFive | src/main.rs:17-23 | five lines ending in line feeds give their verdicts in order, and the empty piece after the last line feed gives nothing |
| Words.LoadWordsSample | src/main.rs:17-23 | on a sample file: short and non-alphabetic lines are dropped, a lower-case line is upper-cased, and a repeated word is kept twice |
| Guess.Message | src/main.rs:36-38 | the two rejection messages, word for word |
| Guess.MessagesDistinct | src/main.rs:36-38 | the two rejections print different messages |
| Guess.Validate | src/main.rs:33-41 | the decision on one line: rejected as non-alphabetic, rejected for its length, or accepted with its guess; its properties are stated by `ValidateSpec` |
| Guess.Info | src/main.rs:35-40 | the message printed for one line: the message of its rejection, nothing for an accepted line |
| Guess.InfoSpec | src/main.rs:35-40 | a line prints nothing exactly when it is accepted, and a rejected line prints the message for its own rejection |
| Guess.Informed | src/main.rs:35-38 | the messages printed for the lines from a given one on, one per line, each the message of that line |
| Guess.InformedSnoc | src/main.rs:26-42 | one more line read adds its message to those already printed |
| Guess.ValidateSpec | src/main.rs:33-41 | the check on one line has three results. A trimmed line with a non-letter is rejected as non-alphabetic. One that is all letters but not five long is rejected for its length. Otherwise it is accepted, and the guess is the trimmed line upper-cased: five upper-case letters (the three cases, both directions) |
| Guess.ValidateBlank | src/main.rs:35-38 | an empty or blank line is rejected for its length, not as non-alphabetic, because the alphabetic test comes first; it prints the length message |
| Guess.ValidateWord | src/main.rs:33-40 | a playable word is accepted unchanged |
| Guess.ValidateIdempotent | src/main.rs:33-40 | an accepted guess, typed again, is accepted again unchanged |
| Guess.ValidateSamples | src/main.rs:33-41 | `" crane\n"` is accepted as `CRANE`, and `ab1` is rejected as non-alphabetic before its length is looked at, printing the alphabet message |
| Guess.ReadGuess | src/main.rs:26-42 | the prompt loop returns the first line the check accepts, with its guess, and every earlier line was rejected. If the input runs out first, every remaining line was rejected. It also returns the messages printed on the way: one per rejected line, in order, each the message for that line's rejection |
| Evaluation.Classify | src/main.rs:54-62 | at each of the five positions: full exactly when the guess letter equals the secret letter there; half exactly when it differs but the secret contains it anywhere (no consumption); positions the zip does not reach stay no match |
| Evaluation.Verdict | src/main.rs:54-62 | the verdict at one position: full, then half by `contains`, then none; none where the zip does not reach |
| Evaluation.FullCount | src/main.rs:52-57 | the number of full matches; its properties are stated by `FullCountSpec` |
| Evaluation.FullCountSpec | src/main.rs:52-57 | the full-match count is at most the number of positions. It equals that number exactly when every position is full, and is zero exactly when none is |
| Evaluation.Evaluate | src/main.rs:49-66 | the result is `None` exactly when no secret is chosen. Otherwise it is the classification filled in place in a five-slot array, with the number of its full entries |
| Evaluation.EvaluateSelf | src/main.rs:54-57 | guessing the secret scores five full matches and a count of 5 |
| Evaluation.FiveFullIffEqual | src/main.rs:54-57 | for two words, the count is 5 exactly when the guess is the secret |
| Evaluation.DisjointAllMiss | src/main.rs:58-61 | a guess sharing no letter with the secret scores no match at every position, and a count of 0 |
| Evaluation.HalfNotConsumed | src/main.rs:58-59 | when the secret holds a letter once, two other guess positions with that letter are both half matches: scoring the first does not use the letter up for the second |
| Evaluation.ReversedSample | src/main.rs:54-62 | `EDCBA` against `ABCDE` scores half, half, full, half, half, and a count of 1 |
| Evaluation.DoubledLetterSample | src/main.rs:54-62 | `AABCD` against `ABCDE` scores full, then four halves: the repeated `A` is a half match too |
| Format.Style | src/main.rs:72-76 | each match kind's colour code is eight characters long |
| Format.StyleRoundTrip | src/main.rs:72-76 | each colour code is read back as the match kind it stands for |
| Format.StyleOfExact | src/main.rs:72-76 | only the three colour codes are read as a match kind at all |
| Format.StyleOf | src/main.rs:72-76 | which match kind a colour code stands for; the inverse of `Style` by `StyleRoundTrip` and `StyleOfExact` |
| Format.Pairs | src/main.rs:71-78 | the segments pushed for the first `k` positions: colour code, then letter |
| Format.Segments | src/main.rs:69-80 | all segments: one pair per position the zip reaches, then the reset code |
| Format.Rendering | src/main.rs:81 | the segments joined by single spaces; its shape is stated by `RenderingCells` and its inverse by `ParseRendering` |
| Format.Cell | src/main.rs:77-81 | one rendered position: colour code, space, letter, space, eleven characters |
| Format.Cells | src/main.rs:71-81 | the rendered positions in order, eleven characters each |
| Format.Parse | src/main.rs:68-82 | reads a rendered line back into letters and match kinds; the inverse of `Rendering` by `ParseRendering` |
| Format.FormatMatch | src/main.rs:68-82 | the push loop builds the style and letter segments of the scored positions plus the reset code, joined by single spaces |
| Format.SegmentsShape | src/main.rs:69-80 | for a five-letter guess there are 11 segments: the colour code of position `i` at index `2i`, its letter at `2i + 1`, and the reset code last |
| Format.PairsShape | src/main.rs:71-78 | after `k` positions the loop has pushed `2k` segments, alternating colour code and letter |
| Format.JoinPairs | src/main.rs:81 | joining the pushed pairs with spaces, followed by a space, gives the cells "code, space, letter, space" |
| Format.RenderingCells | src/main.rs:80-81 | the rendered line is the cells of the scored positions followed by the reset code, and is `11n + 4` characters long |
| Format.CellsAt | src/main.rs:71-78 | the `i`-th eleven characters of the cells are the cell of position `i` |
| Format.CellRenderedAt | src/main.rs:71-81 | cell `i` of the rendered line is the colour code of match `i`, a space, guess letter `i`, a space |
| Format.ParseRendering | src/main.rs:68-82 | parsing the rendered line gives back exactly the scored letters and their match kinds |
| Format.RenderingInjective | src/main.rs:68-82 | two five-letter guesses render to the same line only if their letters and their match kinds are the same |
| Game.Decide | src/main.rs:154-167 | won exactly when the count is 5; otherwise lost exactly when `attempts >= max_attempts`; otherwise the round goes on |
| Game.PlayAgain | src/main.rs:89-94 | continue exactly when the trimmed line is `y`, stop exactly when it is `N`, and ask again otherwise |
| Game.PlayAgainSamples | src/main.rs:89-94 | `"y\n"` continues and `" N"` stops, while `n`, `Y` and `yes` all ask again |
| Game.PlayAgainYes | src/main.rs:89-91 | `"y\n"` trims to `y` and continues |
| Game.PlayAgainNo | src/main.rs:89-93 | `" N"` trims to `N` and stops |
| Game.PlayAgainUntrimmed | src/main.rs:89-94 | `n`, `Y` and `yes` get no decision (ask again) |
| Game.ReadReply | src/main.rs:85-95 | the play-again loop returns the first decided line and its answer, and every earlier line asked again. If the input runs out first, no remaining line decides |
| Game.Choose | src/main.rs:45-47 | a word is drawn exactly when the list is non-empty, and the drawn word is a member of the list |
| Game.Round.constructor | src/main.rs:126-128 | the game starts with no secret, `attempts` 0 and `max_attempts` 6 |
| Game.Round.Begin | src/main.rs:131-135 | only when no secret is active: a secret is drawn and `attempts` zeroed. Otherwise secret and attempts are unchanged |
| Game.Round.Attempt | src/main.rs:137-167 | `attempts` goes up by exactly one and the secret is unchanged. The result is `None` exactly when no secret is active; otherwise it is the classification, its count, and the outcome decided with the new attempt count |
| Game.Round.Reset | src/main.rs:174-175 | playing again clears the secret and leaves `attempts` and `max_attempts` as they are |
| Game.Round.Valid | src/main.rs:126-128 | the round state's invariant: `max_attempts` is 6, `attempts` never exceeds it, and an active secret is a playable word |
| Game.NextRound | src/main.rs:131-132 | the next guess belongs to the same round while the round goes on, and to a new round, with a new draw, after a win or a loss |
| Game.NextAttempt | src/main.rs:131-137 | the prompt number of the next guess: 1 at the first guess of a round (attempts zeroed on the draw, then counted), one more than the previous guess within a round |
| Game.Replied | src/main.rs:85-95 | the line at which the play-again loop first gets a decision, and that decision |
| Game.PromptAt | src/main.rs:130-139 | where the next guess prompt starts reading: at the start, right after the previous guess, or after the `y` that followed a finished round |
| Game.Follows | src/main.rs:130-139 | a guess follows the previous one with the round, attempt number and first input line above |
| Game.GoodEvent | src/main.rs:137-157 | one scored guess as the source performs it: the secret of its round's draw, the rejected lines and their messages, the accepted guess, its attempt number, score, outcome and rendered line |
| Game.GoodLog | src/main.rs:130-179 | a run: every guess is a good event and follows the one before it |
| Game.Linked | src/main.rs:131-137 | the bookkeeping of a run: secrets come from the draws, and round and attempt numbers go on from guess to guess |
| Game.Stopped | src/main.rs:169-178 | the reason a run ended holds: an `N` answer, the input ending before an answer or before an accepted guess (with the messages printed), or the draws running out |
| Game.LoopState | src/main.rs:126-137 | what holds at the top of each pass of the loop: a secret is active exactly while the last round goes on, with the attempt count of its last guess |
| Game.GoodLogSnoc | src/main.rs:130-179 | a good run, extended by a good guess that follows its last one, is a good run |
| Game.GoodLogAt | src/main.rs:130-179 | every guess of a good run was read, scored and rendered as the source does, and follows the one before it |
| Game.GoodLogLinked | src/main.rs:130-179 | in a good run, each guess's secret is the word drawn for its round, and its round and attempt numbers continue from the previous guess |
| Game.RoundHistory | src/main.rs:131-137 | the guess with attempt number `a` is the `a`-th of its round. The `a - 1` guesses before it have the same round and secret, attempt numbers counting up to `a`, and each let the round go on |
| Game.ScoredAt | src/main.rs:154-157 | any guess of a run wins exactly when it is the secret, and loses only as the sixth attempt |
| Game.WonIffSecret | src/main.rs:144-155 | with a word list of playable words, a scored guess wins exactly when it is the secret |
| Game.LostAfterSixMisses | src/main.rs:156-157 | a round is lost only on its sixth guess, after six guesses at the same secret, none of them the secret |
| Game.ContinueLoop | src/main.rs:165-166 | after a guess that lets the round go on, the loop state holds at the next input line |
| Game.ResetLoop | src/main.rs:174-175 | after a won or lost round and a `y`, the loop state holds at the line after the answer, with no secret active |
| Game.Score | src/main.rs:130-152 | it draws a secret if none is active, reads a guess and scores it. Otherwise it stops because the draws or the input ran out |
| Game.Reply | src/main.rs:169-178 | after a won or lost round: on `y` the secret is cleared and the loop goes on after the answer; on `N` or at the end of input the run stops for that reason |
| Game.Turn | src/main.rs:130-179 | one pass of the loop keeps the run good. It either re-establishes the loop state at a strictly later input line or stops for a reason that holds |
| Game.Play | src/main.rs:111-179 | no words means no game. Otherwise every guess in the returned run was read, scored, decided and rendered as the source does, with the messages printed for the lines rejected before it, and the run stopped for the reason returned |

## Left out

- Reading the word file, the command-line arguments and the default path, and every `process::exit` error path (src/main.rs:99-117, 139-150, 158-164, 169-172): these are I/O and process control. `Play` takes the file's text, and its `None` result stands for the exit on an empty word list.
- Printing: the prompts, the banner, the `You WON!` / `You LOST!` lines and the stdout flush are not modelled. Some of the text that would be printed is kept as data instead:
  - the rejection messages printed for the lines before each guess (`Event.infos`, and `infos` of `GuessInputEnded`);
  - the rendered line (`Event.display`);
  - the attempt number of each prompt (`Event.attempt`);
  - the secret (`Event.secret`).
- Random choice: the `rand` crate is replaced by the parameter `draws`. `Play` also stops with `OutOfDraws` when the draws run out, a case the source does not have.
- End of input: at end of input, Rust's `read_line` returns an empty line, so `input_guess` and `playagain` would ask again for ever. The model stops the run (`GuessInputEnded`, `ReplyInputEnded`) instead of not terminating. I/O errors on input are treated the same way.
- Text.IsAlpha: `char::is_alphabetic` and `to_uppercase` are modelled on ASCII letters only, so a line with non-ASCII letters is rejected as non-alphabetic. For the same reason `len()` (a count of bytes) is modelled as a count of characters.
- Integer widths: `attempts` and `full_match_count` are `u8` in the source and `nat` here. Neither can exceed 6, so no wrap-around can happen.
- Evaluation.Evaluate: requires that at most five positions are zipped. The source indexes a five-slot array and would panic beyond that. Guesses are always five letters by then, and secrets are always five letters.
