/**
  `evaluate_guess`: position by position, a letter equal to the secret's
  letter there is a full match, a letter found anywhere else in the secret is a
  half match, and any other letter is no match. Letters of the secret are not
  used up, so one secret letter can make several guess letters half matches.
 */
module Evaluation {
  import opened Wrappers
  import opened Text
  import opened Words

  /** One position's verdict. `Miss` is the source's `NONE`. */
  datatype Match = Full | Half | Miss

  function Min(a: nat, b: nat): nat { if a <= b then a else b }

  /**
    The classification of all five positions. Like the source's zip of the two
    strings, only positions that both strings have are scored; the others keep
    the initial `Miss`.
   */
  function Classify(guess: string, secret: string): (r: seq<Match>)
    ensures |r| == 5
    ensures forall i :: 0 <= i < 5 ==>
      (r[i] == Full <==> i < |guess| && i < |secret| && guess[i] == secret[i])
    ensures forall i :: 0 <= i < 5 ==>
      (r[i] == Half <==> i < |guess| && i < |secret| && guess[i] != secret[i] && guess[i] in secret)
  {
    seq(5, i requires 0 <= i < 5 => Verdict(guess, secret, i))
  }

  /** The verdict at position `i`. */
  function Verdict(guess: string, secret: string, i: nat): Match
  {
    if i < |guess| && i < |secret| then
      (if guess[i] == secret[i] then Full else if guess[i] in secret then Half else Miss)
    else Miss
  }

  /** The number of full matches. */
  function FullCount(m: seq<Match>): nat
  {
    if |m| == 0 then 0 else (if m[0] == Full then 1 else 0) + FullCount(m[1..])
  }

  /** At most one per position; as many as positions exactly when all are full, none exactly when none is. */
  lemma {:induction false} FullCountSpec(m: seq<Match>)
    ensures FullCount(m) <= |m|
    ensures FullCount(m) == |m| <==> forall i :: 0 <= i < |m| ==> m[i] == Full
    ensures FullCount(m) == 0 <==> forall i :: 0 <= i < |m| ==> m[i] != Full
  {
    if |m| > 0 {
      FullCountSpec(m[1..]);
      assert forall i :: 1 <= i < |m| ==> m[i] == m[1..][i - 1];
    }
  }

  lemma {:induction false} FullCountAppend(a: seq<Match>, b: seq<Match>)
    ensures FullCount(a + b) == FullCount(a) + FullCount(b)
  {
    if |a| == 0 {
      assert a + b == b;
    } else {
      assert (a + b)[1..] == a[1..] + b;
      FullCountAppend(a[1..], b);
    }
  }

  /**
    `evaluate_guess`: `None` exactly when no secret is chosen; otherwise the
    classification and its number of full matches. The source indexes a
    five-slot array by the zipped position, so at most five positions may be
    scored.
   */
  method Evaluate(guess: string, chosen: Option<string>) returns (r: Option<(seq<Match>, nat)>)
    requires chosen.Some? ==> Min(|guess|, |chosen.value|) <= 5
    ensures r.None? <==> chosen.None?
    ensures chosen.Some? ==>
      r.value.0 == Classify(guess, chosen.value) && r.value.1 == FullCount(r.value.0)
  {
    if chosen.None? {
      return None;
    }
    var secret := chosen.value;
    var matches := new Match[5](_ => Miss);
    var fullMatchCount := 0;
    var n := Min(|guess|, |secret|);
    for i := 0 to n
      invariant forall k :: 0 <= k < i ==> matches[k] == Verdict(guess, secret, k)
      invariant forall k :: i <= k < 5 ==> matches[k] == Miss
      invariant fullMatchCount == FullCount(matches[..i])
    {
      var g, c := guess[i], secret[i];
      if g == c {
        matches[i] := Full;
        fullMatchCount := fullMatchCount + 1;
      } else if g in secret {
        matches[i] := Half;
      } else {
        matches[i] := Miss;
      }
      assert matches[i] == Verdict(guess, secret, i);
      assert matches[..i + 1] == matches[..i] + [matches[i]];
      FullCountAppend(matches[..i], [matches[i]]);
    }
    Filled(matches[..], Classify(guess, secret), n, fullMatchCount);
    return Some((matches[..], fullMatchCount));
  }

  /** Five slots that agree with `spec` up to `n` and are misses after it, so both are equal and counted alike. */
  lemma Filled(m: seq<Match>, spec: seq<Match>, n: nat, count: nat)
    requires |m| == 5 && |spec| == 5 && n <= 5
    requires forall k :: 0 <= k < n ==> m[k] == spec[k]
    requires forall k :: n <= k < 5 ==> m[k] == Miss && spec[k] == Miss
    requires count == FullCount(m[..n])
    ensures m == spec && count == FullCount(m)
  {
    assert m == m[..n] + m[n..];
    FullCountAppend(m[..n], m[n..]);
    FullCountSpec(m[n..]);
    assert forall k :: 0 <= k < |m[n..]| ==> m[n..][k] != Full;
  }

  /** Guessing the secret itself scores five full matches. */
  lemma EvaluateSelf(secret: string)
    requires IsWord(secret)
    ensures Classify(secret, secret) == [Full, Full, Full, Full, Full]
    ensures FullCount(Classify(secret, secret)) == 5
  {
    FullCountSpec(Classify(secret, secret));
  }

  /** For two words, five full matches happen exactly when the guess is the secret. */
  lemma FiveFullIffEqual(guess: string, secret: string)
    requires IsWord(guess) && IsWord(secret)
    ensures FullCount(Classify(guess, secret)) == 5 <==> guess == secret
  {
    FullCountSpec(Classify(guess, secret));
    if FullCount(Classify(guess, secret)) == 5 {
      assert forall i :: 0 <= i < 5 ==> guess[i] == secret[i];
    }
  }

  /** A guess sharing no letter with the secret scores no match anywhere. */
  lemma DisjointAllMiss(guess: string, secret: string)
    requires IsWord(guess) && IsWord(secret)
    requires forall i :: 0 <= i < 5 ==> guess[i] !in secret
    ensures Classify(guess, secret) == [Miss, Miss, Miss, Miss, Miss]
    ensures FullCount(Classify(guess, secret)) == 0
  {
    FullCountSpec(Classify(guess, secret));
    assert forall i :: 0 <= i < 5 ==> guess[i] != secret[i];
  }

  /**
    No letter consumption: if the secret holds a letter once, at position `p`,
    two other guess positions carrying that letter are both half matches; the
    first does not use the letter up for the second.
   */
  lemma HalfNotConsumed(guess: string, secret: string, p: nat, i: nat, j: nat)
    requires IsWord(guess) && IsWord(secret)
    requires p < 5 && i < 5 && j < 5 && i != p && j != p && i != j
    requires guess[i] == secret[p] && guess[j] == secret[p]
    requires forall q :: 0 <= q < 5 && q != p ==> secret[q] != secret[p]
    ensures Classify(guess, secret)[i] == Half && Classify(guess, secret)[j] == Half
  {
  }

  /**
    The reversed word: only the middle letter sits in place. The sample
    strings are parameters fixed by `requires` rather than literals in the
    `ensures`, so the solver unfolds `Classify` on them only where the proof
    asks.
   */
  lemma ReversedSample(secret: string, guess: string)
    requires secret == "ABCDE" && guess == "EDCBA"
    ensures Classify(guess, secret) == [Half, Half, Full, Half, Half]
    ensures FullCount(Classify(guess, secret)) == 1
  {
    assert guess[0] == secret[4] && guess[1] == secret[3] && guess[3] == secret[1] && guess[4] == secret[0];
    assert guess[2] == secret[2];
    assert Classify(guess, secret) == [Half, Half, Full, Half, Half];
    assert [Half, Half, Full, Half, Half][1..] == [Half, Full, Half, Half];
    assert [Half, Full, Half, Half][1..] == [Full, Half, Half];
  }

  /** A doubled `A` against a secret with one `A`: the second is still a half match. (Samples as parameters, as above.) */
  lemma DoubledLetterSample(secret: string, guess: string)
    requires secret == "ABCDE" && guess == "AABCD"
    ensures Classify(guess, secret) == [Full, Half, Half, Half, Half]
    ensures FullCount(Classify(guess, secret)) == 1
  {
    assert guess[1] == secret[0] && guess[2] == secret[1] && guess[3] == secret[2] && guess[4] == secret[3];
    assert [Full, Half, Half, Half, Half][1..] == [Half, Half, Half, Half];
  }
}
