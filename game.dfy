/**
  The game loop of `main`: the round state (`attempts`, `chosen_word`,
  `max_attempts`), the play-again decision, and the loop that drives rounds
  from the word list, the random draws and the lines read from standard input.
 */
module Game {
  import opened Wrappers
  import opened Text
  import opened Words
  import opened Guess
  import opened Evaluation
  import opened Format

  /** `max_attempts`. */
  const MaxAttempts: nat := 6

  datatype Outcome = Won | Lost | Continue

  /** The decision after each scored guess: five full matches win, otherwise the last attempt loses. */
  function Decide(count: nat, attempts: nat, maxAttempts: nat): (o: Outcome)
    ensures o == Won <==> count == 5
    ensures o == Lost <==> count != 5 && attempts >= maxAttempts
    ensures o == Continue <==> count != 5 && attempts < maxAttempts
  {
    if count == 5 then Won else if attempts >= maxAttempts then Lost else Continue
  }

  /** The decision `playagain` takes on one line: exactly `y` or exactly `N` after trimming, else ask again. */
  function PlayAgain(line: string): (r: Option<bool>)
    ensures r == Some(true) <==> Trim(line) == "y"
    ensures r == Some(false) <==> Trim(line) == "N"
    ensures r.None? <==> Trim(line) != "y" && Trim(line) != "N"
  {
    var input := Trim(line);
    if input == "y" then Some(true)
    else if input == "N" then Some(false)
    else None
  }

  /**
    The case of the two answers matters, and only the single letters count.
    The sample strings are parameters fixed by `requires` rather than
    literals in the `ensures`, so the solver unfolds `Trim` on them only
    where the proof asks; the three lemmas below take them the same way.
   */
  lemma PlayAgainSamples(yes: string, no: string, n: string, y: string, word: string)
    requires yes == "y\n" && no == " N" && n == "n" && y == "Y" && word == "yes"
    ensures PlayAgain(yes) == Some(true) && PlayAgain(no) == Some(false)
    ensures PlayAgain(n).None? && PlayAgain(y).None? && PlayAgain(word).None?
  {
    PlayAgainYes(yes);
    PlayAgainNo(no);
    PlayAgainUntrimmed(n);
    PlayAgainUntrimmed(y);
    PlayAgainUntrimmed(word);
  }

  /** A `y` followed by a line feed continues. */
  lemma PlayAgainYes(line: string)
    requires line == "y\n"
    ensures PlayAgain(line) == Some(true)
  {
    assert !IsSpace(line[0]) && IsSpace(line[1]);
    assert TrimStart(line) == line;
    assert TrimEnd(line[..1]) == line[..1];
    assert Trim(line) == "y";
  }

  /** An `N` after a space stops. */
  lemma PlayAgainNo(line: string)
    requires line == " N"
    ensures PlayAgain(line) == Some(false)
  {
    assert IsSpace(line[0]) && !IsSpace(line[1]);
    assert TrimStart(line[1..]) == line[1..];
    assert TrimEnd(line[1..]) == line[1..];
    assert Trim(line) == "N";
  }

  /** Lower-case `n`, upper-case `Y` and the word `yes` all ask again. */
  lemma PlayAgainUntrimmed(line: string)
    requires line == "n" || line == "Y" || line == "yes"
    ensures PlayAgain(line).None?
  {
    assert !IsSpace(line[0]) && !IsSpace(line[|line| - 1]);
    TrimUntouched(line);
    assert line[0] != 'N' && (line[0] != 'y' || |line| != 1);
    assert line != "y" && line != "N";
  }

  /**
    The `playagain` loop over the lines still unread, from index `from`: it
    stops at the first decided line; every line before it asked again.
   */
  method ReadReply(stdin: seq<string>, from: nat) returns (r: Option<(nat, bool)>)
    ensures r.Some? ==> Replied(stdin, from, r.value.0, r.value.1)
    ensures r.None? ==> forall i :: from <= i < |stdin| ==> PlayAgain(stdin[i]).None?
  {
    if from >= |stdin| {
      return None;
    }
    var i := from;
    while i < |stdin|
      invariant from <= i <= |stdin|
      invariant forall k :: from <= k < i ==> PlayAgain(stdin[k]).None?
    {
      var answer := PlayAgain(stdin[i]);
      if answer.Some? {
        return Some((i, answer.value));
      }
      i := i + 1;
    }
    return None;
  }

  /** Line `at` of the input, read from `from` on, is the first decided answer, and it is `answer`. */
  ghost predicate Replied(stdin: seq<string>, from: nat, at: nat, answer: bool)
  {
    from <= at < |stdin| && PlayAgain(stdin[at]) == Some(answer)
    && forall i :: from <= i < at ==> PlayAgain(stdin[i]).None?
  }

  /** `random_word`: the draw `pick` stands for the random index; an empty list gives nothing. */
  function Choose(words: seq<string>, pick: nat): (r: Option<string>)
    ensures r.Some? <==> |words| > 0
    ensures r.Some? ==> r.value in words
  {
    if |words| == 0 then None else Some(words[pick % |words|])
  }

  /** The round state kept by `main`. */
  class Round {
    var attempts: nat
    var chosen: Option<string>
    const maxAttempts: nat

    ghost predicate Valid()
      reads this
    {
      maxAttempts == MaxAttempts && attempts <= maxAttempts
      && (chosen.Some? ==> IsWord(chosen.value))
    }

    constructor ()
      ensures Valid() && attempts == 0 && chosen == None
    {
      attempts := 0;
      chosen := None;
      maxAttempts := MaxAttempts;
    }

    /** A secret is drawn, and the attempts zeroed, only when none is active. */
    method Begin(words: seq<string>, pick: nat)
      requires Valid()
      requires forall k :: 0 <= k < |words| ==> IsWord(words[k])
      modifies this
      ensures Valid()
      ensures old(chosen).None? ==> chosen == Choose(words, pick) && attempts == 0
      ensures old(chosen).Some? ==> chosen == old(chosen) && attempts == old(attempts)
    {
      if chosen.None? {
        chosen := Choose(words, pick);
        attempts := 0;
      }
    }

    /**
      One guess: the attempt is counted, the guess is scored against the
      secret, and the outcome decided. `None` when no secret is active.
     */
    method Attempt(guess: string) returns (r: Option<(seq<Match>, nat, Outcome)>)
      requires Valid() && attempts < maxAttempts
      modifies this
      ensures Valid() && attempts == old(attempts) + 1 && chosen == old(chosen)
      ensures r.None? <==> chosen.None?
      ensures chosen.Some? ==>
        var m := Classify(guess, chosen.value);
        r.value == (m, FullCount(m), Decide(FullCount(m), attempts, maxAttempts))
    {
      attempts := attempts + 1;
      var scored := Evaluate(guess, chosen);
      if scored.None? {
        return None;
      }
      var (matches, count) := scored.value;
      var outcome := if count == 5 then Won else if attempts >= maxAttempts then Lost else Continue;
      return Some((matches, count, outcome));
    }

    /** Playing again clears the secret; the attempts are zeroed by the next draw. */
    method Reset()
      requires Valid()
      modifies this
      ensures Valid() && chosen == None && attempts == old(attempts)
    {
      chosen := None;
    }
  }

  /**
    One scored guess of a run: the round it belongs to, the input line where
    its prompt started and the line that was accepted, the `INFO:` messages
    printed for the lines rejected in between, the attempt number
    shown in the prompt, the guess, the secret, the score, the outcome and the
    line shown.
   */
  datatype Event = Event(round: nat, prompt: nat, line: nat, infos: seq<string>, attempt: nat,
                         guess: string, secret: string, matches: seq<Match>, count: nat,
                         outcome: Outcome, display: string)

  /** Why a run ended. */
  datatype Stop =
    | Quit(at: nat)                                // the player answered `N` on line `at`
    | ReplyInputEnded                              // the input ended before a play-again answer
    | GuessInputEnded(at: nat, infos: seq<string>) // the input ended, from line `at`, before an accepted guess
    | OutOfDraws(at: nat)                          // no random draw left for the next round

  /** Each event on its own: the guess came from the input, and was scored and rendered as the source does. */
  ghost predicate GoodEvent(words: seq<string>, draws: seq<nat>, stdin: seq<string>, e: Event)
  {
    && e.round < |draws| && Choose(words, draws[e.round]) == Some(e.secret)
    && e.prompt <= e.line < |stdin|
    && (forall i :: e.prompt <= i < e.line ==> Validate(stdin[i]).Err?)
    && Validate(stdin[e.line]) == Ok(e.guess)
    && e.prompt + |e.infos| == e.line && Informed(stdin, e.prompt, e.infos)
    && 1 <= e.attempt <= MaxAttempts
    && e.matches == Classify(e.guess, e.secret)
    && e.count == FullCount(e.matches)
    && e.outcome == Decide(e.count, e.attempt, MaxAttempts)
    && e.display == Rendering(e.guess, e.matches)
  }

  /** The last event so far, if any. */
  function Last(log: seq<Event>): Option<Event>
  {
    if |log| == 0 then None else Some(log[|log| - 1])
  }

  /** The round the next guess belongs to. */
  function NextRound(prev: Option<Event>): nat
  {
    match prev
    case None => 0
    case Some(a) => if a.outcome == Continue then a.round else a.round + 1
  }

  /** The attempt number of the next guess: one more within a round, 1 in a new round. */
  function NextAttempt(prev: Option<Event>): nat
  {
    match prev
    case None => 1
    case Some(a) => if a.outcome == Continue then a.attempt + 1 else 1
  }

  /**
    Where the next guess prompt starts reading: at the start, right after the
    previous guess, or after the `y` that followed a won or lost round.
   */
  ghost predicate PromptAt(stdin: seq<string>, prev: Option<Event>, p: nat)
  {
    match prev
    case None => p == 0
    case Some(a) =>
      if a.outcome == Continue then p == a.line + 1
      else 1 <= p && Replied(stdin, a.line + 1, p - 1, true)
  }

  /** Event `e` is the guess that comes after `prev`: its round, attempt number and first input line. */
  ghost predicate Follows(stdin: seq<string>, prev: Option<Event>, e: Event)
  {
    e.round == NextRound(prev) && e.attempt == NextAttempt(prev) && PromptAt(stdin, prev, e.prompt)
  }

  /** A run: every event is good and follows the one before it. */
  ghost predicate GoodLog(words: seq<string>, draws: seq<nat>, stdin: seq<string>, log: seq<Event>)
  {
    |log| > 0 ==>
      var init := log[..|log| - 1];
      GoodLog(words, draws, stdin, init)
      && GoodEvent(words, draws, stdin, log[|log| - 1])
      && Follows(stdin, Last(init), log[|log| - 1])
  }

  /** A good run extended by a good event that follows its last one is a good run. */
  lemma GoodLogSnoc(words: seq<string>, draws: seq<nat>, stdin: seq<string>, log: seq<Event>, e: Event)
    requires GoodLog(words, draws, stdin, log) && GoodEvent(words, draws, stdin, e)
    requires Follows(stdin, Last(log), e)
    ensures GoodLog(words, draws, stdin, log + [e])
  {
    assert (log + [e])[..|log|] == log;
  }

  lemma LastSnoc(log: seq<Event>, e: Event)
    ensures Last(log + [e]) == Some(e)
  {
  }

  /** Every event of a good run is good and follows the events before it. */
  lemma {:induction false} GoodLogAt(words: seq<string>, draws: seq<nat>, stdin: seq<string>, log: seq<Event>, k: nat)
    requires GoodLog(words, draws, stdin, log) && k < |log|
    ensures GoodEvent(words, draws, stdin, log[k])
    ensures Follows(stdin, if k == 0 then None else Some(log[k - 1]), log[k])
  {
    var init := log[..|log| - 1];
    if k == |log| - 1 {
      if k > 0 {
        assert Last(init) == Some(log[k - 1]);
      }
    } else {
      GoodLogAt(words, draws, stdin, init, k);
      assert init[k] == log[k];
      if k > 0 {
        assert init[k - 1] == log[k - 1];
      }
    }
  }

  /**
    The bookkeeping of a run, without the input and the scoring: every
    event's secret is the word drawn for its round, and round and attempt
    numbers go on from event to event.
   */
  ghost predicate Linked(words: seq<string>, draws: seq<nat>, log: seq<Event>)
  {
    && (forall k :: 0 <= k < |log| ==>
          log[k].round < |draws| && Choose(words, draws[log[k].round]) == Some(log[k].secret))
    && (|log| > 0 ==> log[0].round == 0 && log[0].attempt == 1)
    && (forall k :: 0 < k < |log| ==>
          log[k].round == NextRound(Some(log[k - 1])) && log[k].attempt == NextAttempt(Some(log[k - 1])))
  }

  lemma GoodLogLinked(words: seq<string>, draws: seq<nat>, stdin: seq<string>, log: seq<Event>)
    requires GoodLog(words, draws, stdin, log)
    ensures Linked(words, draws, log)
  {
    forall k | 0 <= k < |log|
      ensures log[k].round < |draws| && Choose(words, draws[log[k].round]) == Some(log[k].secret)
      ensures k == 0 ==> log[k].round == 0 && log[k].attempt == 1
      ensures k > 0 ==> log[k].round == NextRound(Some(log[k - 1])) && log[k].attempt == NextAttempt(Some(log[k - 1]))
    {
      GoodLogAt(words, draws, stdin, log, k);
    }
  }

  /**
    The guess with attempt number `a` is the `a`-th guess of its round: the
    `a - 1` guesses before it belong to the same round and secret, carry the
    attempt numbers counting up to `a`, and each let the round go on.
   */
  lemma {:induction false} RoundHistory(words: seq<string>, draws: seq<nat>, log: seq<Event>, k: nat)
    requires Linked(words, draws, log) && k < |log|
    ensures 1 <= log[k].attempt <= k + 1
    ensures forall j :: k - log[k].attempt < j < k ==>
      && log[j].round == log[k].round && log[j].secret == log[k].secret
      && log[j].attempt == log[k].attempt - (k - j) && log[j].outcome == Continue
  {
    if k > 0 {
      RoundHistory(words, draws, log, k - 1);
      if log[k].attempt > 1 {
        assert log[k - 1].outcome == Continue;
        assert log[k - 1].round == log[k].round;
      }
    }
  }

  /** Within a good run with playable words, a guess wins exactly when it is the secret, and loses only as the sixth. */
  lemma ScoredAt(words: seq<string>, draws: seq<nat>, stdin: seq<string>, log: seq<Event>, j: nat)
    requires forall k :: 0 <= k < |words| ==> IsWord(words[k])
    requires GoodLog(words, draws, stdin, log) && j < |log|
    ensures log[j].outcome == Won <==> log[j].guess == log[j].secret
    ensures log[j].outcome == Lost ==> log[j].attempt == MaxAttempts
  {
    GoodLogAt(words, draws, stdin, log, j);
    WonIffSecret(words, draws, stdin, log[j]);
  }

  /** With playable words, a guess wins exactly when it is the secret. */
  lemma WonIffSecret(words: seq<string>, draws: seq<nat>, stdin: seq<string>, e: Event)
    requires forall k :: 0 <= k < |words| ==> IsWord(words[k])
    requires GoodEvent(words, draws, stdin, e)
    ensures e.outcome == Won <==> e.guess == e.secret
  {
    ValidateSpec(stdin[e.line]);
    FiveFullIffEqual(e.guess, e.secret);
  }

  /**
    A round is lost only on its sixth guess, after six guesses at the same
    secret none of which was the secret.
   */
  lemma LostAfterSixMisses(words: seq<string>, draws: seq<nat>, stdin: seq<string>, log: seq<Event>, k: nat)
    requires forall j :: 0 <= j < |words| ==> IsWord(words[j])
    requires GoodLog(words, draws, stdin, log) && k < |log| && log[k].outcome == Lost
    ensures log[k].attempt == MaxAttempts && k >= 5
    ensures forall j :: k - 6 < j <= k ==>
      log[j].round == log[k].round && log[j].secret == log[k].secret && log[j].guess != log[k].secret
  {
    ScoredAt(words, draws, stdin, log, k);
    GoodLogLinked(words, draws, stdin, log);
    RoundHistory(words, draws, log, k);
    forall j | k - 6 < j <= k
      ensures log[j].round == log[k].round && log[j].secret == log[k].secret && log[j].guess != log[k].secret
    {
      ScoredAt(words, draws, stdin, log, j);
    }
  }

  /** The previous guess ended its round, won or lost. */
  predicate RoundOver(prev: Option<Event>)
  {
    prev.Some? && prev.value.outcome != Continue
  }

  /** The reason given for stopping is what actually stopped the run. */
  ghost predicate Stopped(draws: seq<nat>, stdin: seq<string>, log: seq<Event>, stop: Stop)
  {
    var prev := Last(log);
    match stop
    case Quit(at) =>
      RoundOver(prev) && Replied(stdin, prev.value.line + 1, at, false)
    case ReplyInputEnded =>
      RoundOver(prev) && forall i :: prev.value.line < i < |stdin| ==> PlayAgain(stdin[i]).None?
    case GuessInputEnded(at, infos) =>
      PromptAt(stdin, prev, at) && NextRound(prev) < |draws|
      && (forall i :: at <= i < |stdin| ==> Validate(stdin[i]).Err?)
      && at + |infos| >= |stdin| && Informed(stdin, at, infos)
    case OutOfDraws(at) =>
      PromptAt(stdin, prev, at) && NextRound(prev) == |draws| && (prev.None? || RoundOver(prev))
  }

  /** The previous guess left its round going. */
  predicate InRound(prev: Option<Event>)
  {
    prev.Some? && prev.value.outcome == Continue
  }

  /**
    What holds at the top of each pass of the game loop besides the run so
    far being good: `cursor` is where the next prompt reads, `d` draws are used, and a
    secret is active exactly while the last round goes on, with the attempt
    count of its last guess.
   */
  ghost predicate LoopState(round: Round, words: seq<string>, draws: seq<nat>, stdin: seq<string>,
                            log: seq<Event>, cursor: nat, d: nat)
    reads round
  {
    var prev := Last(log);
    && round.Valid()
    && |words| > 0 && (forall k :: 0 <= k < |words| ==> IsWord(words[k]))
    && cursor <= |stdin| && d <= |draws|
    && PromptAt(stdin, prev, cursor)
    && (round.chosen.Some? <==> InRound(prev))
    && (round.chosen.None? ==> d == NextRound(prev))
    && (round.chosen.Some? ==>
          && d == NextRound(prev) + 1 && d <= |draws|
          && round.chosen == Choose(words, draws[d - 1])
          && round.chosen == Some(prev.value.secret)
          && round.attempts == prev.value.attempt < MaxAttempts)
  }

  /** After a guess that lets the round go on, the loop state holds at the next line. */
  lemma ContinueLoop(round: Round, words: seq<string>, draws: seq<nat>, stdin: seq<string>,
                     log: seq<Event>, e: Event, d: nat)
    requires round.Valid() && |words| > 0 && (forall k :: 0 <= k < |words| ==> IsWord(words[k]))
    requires e.outcome == Continue && e.line < |stdin|
    requires d == e.round + 1 && d <= |draws| && round.chosen == Choose(words, draws[d - 1])
    requires round.chosen == Some(e.secret) && round.attempts == e.attempt < MaxAttempts
    ensures LoopState(round, words, draws, stdin, log + [e], e.line + 1, d)
  {
    LastSnoc(log, e);
    var prev := Last(log + [e]);
    assert prev == Some(e);
    assert PromptAt(stdin, prev, e.line + 1);
    assert round.chosen.Some? <==> InRound(prev);
    assert d == NextRound(prev) + 1;
  }

  /** After a won or lost round and a `y` on line `at`, the loop state holds at the line after it. */
  lemma ResetLoop(round: Round, words: seq<string>, draws: seq<nat>, stdin: seq<string>,
                  log: seq<Event>, e: Event, at: nat, d: nat)
    requires round.Valid() && round.chosen == None
    requires |words| > 0 && (forall k :: 0 <= k < |words| ==> IsWord(words[k]))
    requires e.outcome != Continue
    requires Replied(stdin, e.line + 1, at, true) && d == e.round + 1 && d <= |draws|
    ensures LoopState(round, words, draws, stdin, log + [e], at + 1, d)
  {
    LastSnoc(log, e);
    var prev := Last(log + [e]);
    assert prev == Some(e);
    assert PromptAt(stdin, prev, at + 1);
    assert round.chosen.Some? <==> InRound(prev);
    assert d == NextRound(prev);
  }

  /**
    The guess half of a pass of the game loop: draw a secret if none is
    active, read a guess from `cursor` on and score it. Either the run stops
    for the reason returned, or `e` is the scored guess and `d'` the draws
    used, with the round's secret and attempt count those of `e`. When the
    run stops, `e` is a placeholder that no contract speaks of.
   */
  method Score(round: Round, words: seq<string>, draws: seq<nat>, stdin: seq<string>,
               log: seq<Event>, cursor: nat, d: nat)
    returns (e: Event, d': nat, stop: Option<Stop>)
    requires LoopState(round, words, draws, stdin, log, cursor, d)
    modifies round
    ensures stop.Some? ==> Stopped(draws, stdin, log, stop.value)
    ensures stop.None? ==>
      && round.Valid() && cursor <= e.line < |stdin|
      && GoodEvent(words, draws, stdin, e) && Follows(stdin, Last(log), e)
      && d' == e.round + 1 && d' <= |draws| && round.chosen == Choose(words, draws[d' - 1])
      && round.chosen == Some(e.secret) && round.attempts == e.attempt
  {
    d' := d;
    e := Event(0, 0, 0, [], 0, "", "", [], 0, Won, ""); // the placeholder returned beside a stop
    if round.chosen.None? {
      if d == |draws| {
        return e, d, Some(OutOfDraws(cursor));
      }
      round.Begin(words, draws[d]);
      d' := d + 1;
    }
    // The source counts the attempt before it reads the guess; the prompt
    // shows that count, which is what `round.attempts` holds once
    // `Attempt` has run, so reading first changes nothing observable.
    var read, infos := ReadGuess(stdin, cursor);
    if read.None? {
      return e, d', Some(GuessInputEnded(cursor, infos));
    }
    var (line, guess) := read.value;
    var scored := round.Attempt(guess);
    var (matches, count, outcome) := scored.value;
    var display := FormatMatch(guess, matches);
    e := Event(d' - 1, cursor, line, infos, round.attempts, guess, round.chosen.value,
               matches, count, outcome, display);
    stop := None;
  }

  /**
    The play-again half of a pass of the game loop, after the won or lost
    guess `e`: read the answer; on `y` clear the secret and go on from the
    line after it, otherwise stop.
   */
  method Reply(round: Round, words: seq<string>, draws: seq<nat>, stdin: seq<string>,
               log: seq<Event>, e: Event, d: nat)
    returns (cursor: nat, stop: Option<Stop>)
    requires round.Valid() && |words| > 0 && (forall k :: 0 <= k < |words| ==> IsWord(words[k]))
    requires e.outcome != Continue && d == e.round + 1 && d <= |draws|
    modifies round
    ensures stop.None? ==> LoopState(round, words, draws, stdin, log + [e], cursor, d) && e.line < cursor
    ensures stop.Some? ==> Stopped(draws, stdin, log + [e], stop.value)
  {
    LastSnoc(log, e);
    cursor := e.line + 1;
    var reply := ReadReply(stdin, cursor);
    if reply.None? {
      return cursor, Some(ReplyInputEnded);
    }
    var (at, again) := reply.value;
    if !again {
      return cursor, Some(Quit(at));
    }
    round.Reset();
    ResetLoop(round, words, draws, stdin, log, e, at, d);
    cursor, stop := at + 1, None;
  }

  /**
    One pass of the game loop: score a guess, and after a won or lost round
    read the play-again answer. Either the loop goes on from a later input
    line, or the run stops for the reason returned.
   */
  method Turn(round: Round, words: seq<string>, draws: seq<nat>, stdin: seq<string>,
              log: seq<Event>, cursor: nat, d: nat)
    returns (log': seq<Event>, cursor': nat, d': nat, stop: Option<Stop>)
    requires GoodLog(words, draws, stdin, log) && LoopState(round, words, draws, stdin, log, cursor, d)
    modifies round
    ensures GoodLog(words, draws, stdin, log')
    ensures stop.None? ==> LoopState(round, words, draws, stdin, log', cursor', d') && cursor < cursor'
    ensures stop.Some? ==> Stopped(draws, stdin, log', stop.value)
  {
    var e;
    e, d', stop := Score(round, words, draws, stdin, log, cursor, d);
    if stop.Some? {
      return log, cursor, d', stop;
    }
    GoodLogSnoc(words, draws, stdin, log, e);
    LastSnoc(log, e);
    log' := log + [e];
    cursor' := e.line + 1;
    if e.outcome == Continue {
      ContinueLoop(round, words, draws, stdin, log, e, d');
      return log', cursor', d', None;
    }
    cursor', stop := Reply(round, words, draws, stdin, log, e, d');
  }

  /**
    `main` after the word file is read: no words is an error; otherwise rounds
    are played until the player answers `N`, the input ends, or no draw is
    left. `draws` stands for the successive random choices and `stdin` for the
    lines typed.
   */
  method Play(content: string, draws: seq<nat>, stdin: seq<string>) returns (r: Option<(seq<Event>, Stop)>)
    ensures r.None? <==> LoadWords(content) == []
    ensures r.Some? ==>
      GoodLog(LoadWords(content), draws, stdin, r.value.0) && Stopped(draws, stdin, r.value.0, r.value.1)
  {
    var words := LoadWords(content);
    LoadWordsAreWords(content);
    if |words| == 0 {
      return None;
    }
    var round := new Round();
    var log: seq<Event> := [];
    var cursor: nat := 0;
    var d: nat := 0;
    while true
      invariant fresh(round)
      invariant GoodLog(words, draws, stdin, log)
      invariant LoopState(round, words, draws, stdin, log, cursor, d)
      decreases |stdin| - cursor
    {
      var stop;
      log, cursor, d, stop := Turn(round, words, draws, stdin, log, cursor, d);
      if stop.Some? {
        return Some((log, stop.value));
      }
    }
  }
}
