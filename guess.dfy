/**
  The check `input_guess` applies to each line the player types: trim,
  upper-case, then reject a non-alphabetic line before a line of the wrong
  length; otherwise the line is the guess.
 */
module Guess {
  import opened Wrappers
  import opened Text
  import opened Words

  datatype GuessError = NotAlphabetic | WrongLength

  /** The message printed for each rejection: the `INFO:` lines of the prompt loop. */
  function Message(e: GuessError): string
  {
    match e
    case NotAlphabetic => "INFO: Word should contain only alphabets"
    case WrongLength => "INFO: Must provide word of length 5"
  }

  /** The two rejections print different messages, so the message tells which test failed. */
  lemma MessagesDistinct()
    ensures Message(NotAlphabetic) != Message(WrongLength)
  {
    assert Message(NotAlphabetic)[6] != Message(WrongLength)[6];
  }

  /** The decision taken on one line of input. */
  function Validate(line: string): Result<string, GuessError>
  {
    var input := Upper(Trim(line));
    if !AllAlpha(input) then Err(NotAlphabetic)
    else if |input| != 5 then Err(WrongLength)
    else Ok(Upper(input))
  }

  /**
    A line is rejected as non-alphabetic exactly when its trimmed text has a
    character that is not a letter, for its length exactly when it is all
    letters but not five of them, and accepted exactly when it trims to a
    candidate word; the guess is then the trimmed line in upper case.
   */
  lemma ValidateSpec(line: string)
    ensures Validate(line) == Err(NotAlphabetic) <==> !AllAlpha(Trim(line))
    ensures Validate(line) == Err(WrongLength) <==> AllAlpha(Trim(line)) && |Trim(line)| != 5
    ensures Validate(line).Ok? <==> IsCandidate(Trim(line))
    ensures Validate(line).Ok? ==> IsWord(Validate(line).value) && Validate(line).value == Upper(Trim(line))
  {
    var input := Upper(Trim(line));
    UpperKeepsAlpha(Trim(line));
    UpperIdempotent(input);
  }

  /** Blank input, the empty line included, is rejected for its length, not as non-alphabetic. */
  lemma ValidateBlank(line: string)
    requires forall i :: 0 <= i < |line| ==> IsSpace(line[i])
    ensures Validate(line) == Err(WrongLength)
    ensures Info(line) == "INFO: Must provide word of length 5"
  {
    TrimBlank(line);
  }

  /** A playable word is accepted as it is. */
  lemma ValidateWord(w: string)
    requires IsWord(w)
    ensures Validate(w) == Ok(w)
  {
    assert !IsSpace(w[0]) && !IsSpace(w[4]);
    TrimUntouched(w);
    assert Upper(w) == w;
  }

  /** An accepted guess, typed again, is accepted again unchanged. */
  lemma ValidateIdempotent(line: string)
    requires Validate(line).Ok?
    ensures Validate(Validate(line).value) == Validate(line)
  {
    ValidateWord(Validate(line).value);
  }

  /**
    Surrounding whitespace and letter case do not matter; a short
    non-alphabetic line is rejected as non-alphabetic. The sample strings are
    parameters fixed by `requires` rather than literals in the `ensures`, so
    the solver unfolds `Trim` on them only where the proof asks.
   */
  lemma ValidateSamples(a: string, b: string)
    requires a == " crane\n" && b == "ab1"
    ensures Validate(a) == Ok("CRANE")
    ensures Validate(b) == Err(NotAlphabetic)
    ensures Info(b) == "INFO: Word should contain only alphabets"
  {
    assert IsSpace(a[0]) && !IsSpace(a[1]);
    assert TrimStart(a) == a[1..];
    assert TrimEnd(a[1..]) == "crane";
    assert Upper("crane") == "CRANE";
    assert Upper(Upper("crane")) == "CRANE";
    TrimUntouched(b);
    assert !IsAlpha(b[2]);
  }

  /**
    The `input_guess` loop over the lines still unread, from index `from`:
    it stops at the first line that `Validate` accepts, and every line
    before it was rejected. `None` means the input ran out first. `infos`
    are the `INFO:` messages printed on the way, one per rejected line.
   */
  method ReadGuess(stdin: seq<string>, from: nat) returns (r: Option<(nat, string)>, infos: seq<string>)
    ensures r.Some? ==> from <= r.value.0 < |stdin| && Validate(stdin[r.value.0]) == Ok(r.value.1)
    ensures r.Some? ==> forall i :: from <= i < r.value.0 ==> Validate(stdin[i]).Err?
    ensures r.None? ==> forall i :: from <= i < |stdin| ==> Validate(stdin[i]).Err?
    ensures Informed(stdin, from, infos)
    ensures r.Some? ==> from + |infos| == r.value.0
    ensures r.None? ==> from + |infos| >= |stdin|
  {
    infos := [];
    if from >= |stdin| {
      return None, infos;
    }
    var i := from;
    while i < |stdin|
      invariant from <= i <= |stdin|
      invariant forall k :: from <= k < i ==> Validate(stdin[k]).Err?
      invariant from + |infos| == i && Informed(stdin, from, infos)
    {
      var v := Validate(stdin[i]);
      if v.Ok? {
        return Some((i, v.value)), infos;
      }
      assert Info(stdin[i]) == Message(v.error);
      InformedSnoc(stdin, from, infos, Message(v.error));
      infos := infos + [Message(v.error)];
      i := i + 1;
    }
    return None, infos;
  }

  /** The message printed for a line: the one for its rejection, none (empty) for an accepted line. */
  function Info(line: string): string
  {
    match Validate(line)
    case Err(e) => Message(e)
    case Ok(_) => ""
  }

  /** A line prints nothing exactly when it is accepted; a rejected line prints the message for its rejection. */
  lemma InfoSpec(line: string)
    ensures Info(line) == "" <==> Validate(line).Ok?
    ensures Validate(line).Err? ==> Info(line) == Message(Validate(line).error)
  {
  }

  /** `infos` are the messages printed for the lines from `from` on, one per line. */
  predicate Informed(stdin: seq<string>, from: nat, infos: seq<string>)
  {
    forall j :: 0 <= j < |infos| ==> from + j < |stdin| && infos[j] == Info(stdin[from + j])
  }

  lemma InformedSnoc(stdin: seq<string>, from: nat, infos: seq<string>, info: string)
    requires Informed(stdin, from, infos) && from + |infos| < |stdin|
    requires info == Info(stdin[from + |infos|])
    ensures Informed(stdin, from, infos + [info])
  {
    var next := infos + [info];
    forall j | 0 <= j < |next|
      ensures from + j < |stdin| && next[j] == Info(stdin[from + j])
    {
      if j < |infos| {
        assert next[j] == infos[j];
      }
    }
    assert Informed(stdin, from, next);
  }
}
