/**
  `format_match`: for each scored position a colour code chosen by the match
  kind, then the letter; then the reset code; all pieces joined by single
  spaces.
 */
module Format {
  import opened Wrappers
  import opened Text
  import opened Evaluation

  /** Black on green, black on yellow, black on white, and back to normal. */
  const FullStyle: string := "\U{1b}[30;42m"
  const HalfStyle: string := "\U{1b}[30;43m"
  const MissStyle: string := "\U{1b}[30;47m"
  const ResetStyle: string := "\U{1b}[0m"

  function Style(m: Match): (s: string)
    ensures |s| == 8
  {
    match m
    case Full => FullStyle
    case Half => HalfStyle
    case Miss => MissStyle
  }

  /** Which match kind a colour code stands for, if any: the codes differ only in their seventh character. */
  function StyleOf(s: string): Option<Match>
  {
    if |s| != 8 || s[0] != '\U{1b}' || s[1] != '[' || s[2] != '3' || s[3] != '0' || s[4] != ';'
       || s[5] != '4' || s[7] != 'm'
    then None
    else if s[6] == '2' then Some(Full)
    else if s[6] == '3' then Some(Half)
    else if s[6] == '7' then Some(Miss)
    else None
  }

  /** Each colour code is read back as its own kind. */
  lemma StyleRoundTrip(m: Match)
    ensures StyleOf(Style(m)) == Some(m)
  {
  }

  /** Only the three colour codes are read as a kind at all. */
  lemma StyleOfExact(s: string)
    ensures StyleOf(s).Some? ==> Style(StyleOf(s).value) == s
  {
  }

  /** The segments pushed for the first `k` positions: colour code, then letter. */
  function Pairs(guess: string, matches: seq<Match>, k: nat): seq<string>
    requires k <= |guess| && k <= |matches|
  {
    if k == 0 then [] else Pairs(guess, matches, k - 1) + [Style(matches[k - 1]), [guess[k - 1]]]
  }

  /** All segments: one pair per position both the guess and the matches have, then the reset code. */
  function Segments(guess: string, matches: seq<Match>): seq<string>
    requires |matches| == 5
  {
    Pairs(guess, matches, Min(5, |guess|)) + [ResetStyle]
  }

  function Rendering(guess: string, matches: seq<Match>): string
    requires |matches| == 5
  {
    Join(Segments(guess, matches), " ")
  }

  /** `format_match`: the loop pushes the segments, then they are joined. */
  method FormatMatch(guess: string, matches: seq<Match>) returns (s: string)
    requires |matches| == 5
    ensures s == Rendering(guess, matches)
  {
    var segments: seq<string> := [];
    var n := Min(5, |guess|);
    for i := 0 to n
      invariant segments == Pairs(guess, matches, i)
    {
      segments := segments + [Style(matches[i])];
      segments := segments + [[guess[i]]];
    }
    segments := segments + [ResetStyle];
    s := Join(segments, " ");
  }

  /** For a guess of five or more letters: eleven segments, colour and letter alternating, reset last. */
  lemma {:induction false} SegmentsShape(guess: string, matches: seq<Match>)
    requires |guess| >= 5 && |matches| == 5
    ensures |Segments(guess, matches)| == 11
    ensures forall i :: 0 <= i < 5 ==>
      Segments(guess, matches)[2 * i] == Style(matches[i]) && Segments(guess, matches)[2 * i + 1] == [guess[i]]
    ensures Segments(guess, matches)[10] == ResetStyle
  {
    PairsShape(guess, matches, 5);
  }

  lemma {:induction false} PairsShape(guess: string, matches: seq<Match>, k: nat)
    requires k <= |guess| && k <= |matches|
    ensures |Pairs(guess, matches, k)| == 2 * k
    ensures forall i :: 0 <= i < k ==>
      Pairs(guess, matches, k)[2 * i] == Style(matches[i]) && Pairs(guess, matches, k)[2 * i + 1] == [guess[i]]
  {
    if k > 0 {
      PairsShape(guess, matches, k - 1);
    }
  }

  /** The rendered cells of the first `k` positions: colour code, space, letter, space. */
  function Cells(guess: string, matches: seq<Match>, k: nat): (s: string)
    requires k <= |guess| && k <= |matches|
    ensures |s| == 11 * k
  {
    if k == 0 then "" else Cells(guess, matches, k - 1) + Cell(matches[k - 1], guess[k - 1])
  }

  /** One rendered cell: colour code, space, letter, space. */
  function Cell(kind: Match, letter: char): (s: string)
    ensures |s| == 11
  {
    Style(kind) + " " + [letter] + " "
  }

  lemma {:induction false} JoinPairs(guess: string, matches: seq<Match>, k: nat)
    requires 1 <= k <= |guess| && k <= |matches|
    ensures Join(Pairs(guess, matches, k), " ") + " " == Cells(guess, matches, k)
  {
    var p := Pairs(guess, matches, k - 1);
    var st, ch := Style(matches[k - 1]), [guess[k - 1]];
    assert Pairs(guess, matches, k) == (p + [st]) + [ch];
    JoinSnoc(p + [st], ch, " ");
    if k == 1 {
      assert p + [st] == [st];
      assert Cells(guess, matches, k) == Cell(matches[k - 1], guess[k - 1]);
    } else {
      JoinSnoc(p, st, " ");
      JoinPairs(guess, matches, k - 1);
      Regroup(Join(p, " "), st, " ", ch);
    }
  }

  lemma Regroup(j: string, st: string, sp: string, ch: string)
    ensures j + sp + st + sp + ch + sp == (j + sp) + (st + sp + ch + sp)
  {
  }

  /** The rendered line is the cells of the scored positions followed by the reset code. */
  lemma RenderingCells(guess: string, matches: seq<Match>)
    requires |matches| == 5
    ensures Rendering(guess, matches) == Cells(guess, matches, Min(5, |guess|)) + ResetStyle
    ensures |Rendering(guess, matches)| == 11 * Min(5, |guess|) + 4
  {
    var n := Min(5, |guess|);
    if n == 0 {
      assert Segments(guess, matches) == [ResetStyle];
    } else {
      JoinSnoc(Pairs(guess, matches, n), ResetStyle, " ");
      JoinPairs(guess, matches, n);
    }
  }

  /** The `i`-th cell of a rendered line: the eleven characters from position `11 * i` on. */
  function CellAt(s: string, i: nat): string
    requires 11 * i + 11 <= |s|
  {
    s[11 * i..11 * i + 11]
  }

  /** A well-formed cell: a colour code, a space, the letter, a space. */
  predicate CellOk(c: string)
  {
    |c| == 11 && StyleOf(c[..8]).Some? && c[8] == ' ' && c[10] == ' '
  }

  /** The match kind of a cell's colour code. */
  function KindOf(c: string): Match
    requires |c| >= 8
  {
    match StyleOf(c[..8])
    case Some(kind) => kind
    case None => Miss
  }

  /** Reads a rendered line back into its letters and match kinds: well-formed cells, then the reset code. */
  function Parse(s: string): Option<(string, seq<Match>)>
  {
    if |s| < 4 || s[|s| - 4..] != ResetStyle || (|s| - 4) % 11 != 0 then None
    else
      var n := (|s| - 4) / 11;
      if forall i :: 0 <= i < n ==> CellOk(CellAt(s, i)) then
        Some((seq(n, i requires 0 <= i < n => CellAt(s, i)[9]),
              seq(n, i requires 0 <= i < n => KindOf(CellAt(s, i)))))
      else None
  }

  /** The `i`-th cell of the first `k` is the cell of position `i`. */
  lemma {:induction false} CellsAt(guess: string, matches: seq<Match>, k: nat, i: nat)
    requires i < k <= |guess| && k <= |matches|
    ensures 11 * i + 11 <= |Cells(guess, matches, k)|
    ensures CellAt(Cells(guess, matches, k), i) == Cell(matches[i], guess[i])
  {
    var prev := Cells(guess, matches, k - 1);
    var c := Cell(matches[k - 1], guess[k - 1]);
    assert Cells(guess, matches, k) == prev + c;
    if i == k - 1 {
      SplitAt(prev, c);
    } else {
      CellsAt(guess, matches, k - 1, i);
      SliceLeft(prev, c, 11 * i, 11 * i + 11);
    }
  }

  lemma SliceLeft<T>(a: seq<T>, b: seq<T>, lo: nat, hi: nat)
    requires lo <= hi <= |a|
    ensures (a + b)[lo..hi] == a[lo..hi]
  {
  }

  lemma SplitAt<T>(a: seq<T>, b: seq<T>)
    ensures (a + b)[|a|..] == b && (a + b)[..|a|] == a
  {
  }

  lemma CellParts(kind: Match, letter: char)
    ensures var c := Cell(kind, letter); c[..8] == Style(kind) && c[8] == ' ' && c[9] == letter && c[10] == ' '
  {
  }

  /** Cell `i` of the rendered line is the cell of position `i`, for each scored position. */
  lemma CellRenderedAt(guess: string, matches: seq<Match>, i: nat)
    requires |matches| == 5 && i < Min(5, |guess|)
    ensures |Rendering(guess, matches)| == 11 * Min(5, |guess|) + 4
    ensures CellAt(Rendering(guess, matches), i) == Cell(matches[i], guess[i])
  {
    var n := Min(5, |guess|);
    RenderingCells(guess, matches);
    CellsAt(guess, matches, n, i);
    SliceLeft(Cells(guess, matches, n), ResetStyle, 11 * i, 11 * i + 11);
  }

  /** The rendered line determines the scored letters and their match kinds. */
  lemma ParseRendering(guess: string, matches: seq<Match>)
    requires |matches| == 5
    ensures var n := Min(5, |guess|);
      Parse(Rendering(guess, matches)) == Some((guess[..n], matches[..n]))
  {
    var n := Min(5, |guess|);
    RenderingCells(guess, matches);
    var s := Rendering(guess, matches);
    SplitAt(Cells(guess, matches, n), ResetStyle);
    assert s[|s| - 4..] == ResetStyle;
    assert (|s| - 4) / 11 == n && (|s| - 4) % 11 == 0;
    forall i | 0 <= i < n
      ensures CellOk(CellAt(s, i)) && CellAt(s, i)[9] == guess[i] && KindOf(CellAt(s, i)) == matches[i]
    {
      CellRenderedAt(guess, matches, i);
      CellParts(matches[i], guess[i]);
      StyleRoundTrip(matches[i]);
    }
    assert seq(n, i requires 0 <= i < n => CellAt(s, i)[9]) == guess[..n];
    assert seq(n, i requires 0 <= i < n => KindOf(CellAt(s, i))) == matches[..n];
  }

  /** Two five-letter guesses render alike only if their letters and match kinds are the same. */
  lemma RenderingInjective(g1: string, m1: seq<Match>, g2: string, m2: seq<Match>)
    requires |g1| == 5 && |g2| == 5 && |m1| == 5 && |m2| == 5
    requires Rendering(g1, m1) == Rendering(g2, m2)
    ensures g1 == g2 && m1 == m2
  {
    ParseRendering(g1, m1);
    ParseRendering(g2, m2);
    assert g1[..5] == g1 && g2[..5] == g2 && m1[..5] == m1 && m2[..5] == m2;
  }
}
