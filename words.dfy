/**
  The word list: `load_words` splits the file's text on line feeds, keeps the
  lines that are exactly five letters long, and upper-cases them.
 */
module Words {
  import opened Text

  /** A playable word: five upper-case ASCII letters. */
  predicate IsWord(w: string)
  {
    |w| == 5 && forall i :: 0 <= i < |w| ==> IsUpper(w[i])
  }

  /** The filter of `load_words`: five characters, all alphabetic. */
  predicate IsCandidate(line: string)
  {
    |line| == 5 && AllAlpha(line)
  }

  /** The filter-then-map over the lines, in their order. */
  function Keep(lines: seq<string>): seq<string>
  {
    if |lines| == 0 then [] else Kept(lines[0]) + Keep(lines[1..])
  }

  /** What one line contributes: its upper-case form if it passes the filter, else nothing. */
  function Kept(line: string): seq<string>
  {
    if IsCandidate(line) then [Upper(line)] else []
  }

  /** `load_words`. */
  function LoadWords(content: string): seq<string>
  {
    Keep(Split(content, '\n'))
  }

  /** At most one word per line, and every word kept is five upper-case letters. */
  lemma {:induction false} KeepWords(lines: seq<string>)
    ensures |Keep(lines)| <= |lines|
    ensures forall k :: 0 <= k < |Keep(lines)| ==> IsWord(Keep(lines)[k])
  {
    if |lines| > 0 {
      KeepWords(lines[1..]);
      var line := lines[0];
      if IsCandidate(line) {
        UpperKeepsAlpha(line);
      }
    }
  }

  /** Every word `load_words` returns is five upper-case letters. */
  lemma LoadWordsAreWords(content: string)
    ensures forall k :: 0 <= k < |LoadWords(content)| ==> IsWord(LoadWords(content)[k])
  {
    KeepWords(Split(content, '\n'));
  }

  /** One line: kept, upper-cased, exactly when it passes the filter. */
  lemma KeepOne(line: string)
    ensures Keep([line]) == if IsCandidate(line) then [Upper(line)] else []
  {
    assert [line][1..] == [];
  }

  /** The filter keeps the relative order of the lines. */
  lemma {:induction false} KeepAppend(a: seq<string>, b: seq<string>)
    ensures Keep(a + b) == Keep(a) + Keep(b)
  {
    if |a| == 0 {
      assert a + b == b;
    } else {
      assert (a + b)[1..] == a[1..] + b;
      KeepAppend(a[1..], b);
    }
  }

  /** A word is in the result exactly when some line passes the filter and upper-cases to it. */
  lemma {:induction false} KeepMember(lines: seq<string>, w: string)
    ensures w in Keep(lines) <==> exists k :: 0 <= k < |lines| && IsCandidate(lines[k]) && w == Upper(lines[k])
  {
    if |lines| > 0 {
      KeepMember(lines[1..], w);
      if w in Keep(lines[1..]) {
        var k :| 0 <= k < |lines[1..]| && IsCandidate(lines[1..][k]) && w == Upper(lines[1..][k]);
        assert lines[k + 1] == lines[1..][k];
      }
      if exists k :: 0 <= k < |lines| && IsCandidate(lines[k]) && w == Upper(lines[k]) {
        var k :| 0 <= k < |lines| && IsCandidate(lines[k]) && w == Upper(lines[k]);
        if k > 0 {
          assert lines[1..][k - 1] == lines[k];
        }
      }
    }
  }

  /** A line feed in the text separates two independent parts of the word list. */
  lemma LoadWordsAround(a: string, b: string)
    ensures LoadWords(a + "\n" + b) == LoadWords(a) + LoadWords(b)
  {
    SplitAround(a, b, '\n');
    KeepAppend(Split(a, '\n'), Split(b, '\n'));
  }

  /** A text without line feeds is one line. */
  lemma LoadWordsLine(line: string)
    requires '\n' !in line
    ensures LoadWords(line) == if IsCandidate(line) then [Upper(line)] else []
  {
    SplitOneLine(line);
    KeepOne(line);
  }

  lemma {:induction false} SplitOneLine(line: string)
    requires '\n' !in line
    ensures Split(line, '\n') == [line]
  {
    if |line| > 0 {
      assert '\n' !in line[1..];
      SplitOneLine(line[1..]);
      assert line == [line[0]] + line[1..];
    }
  }

  /** Prepending one line to a text prepends that line's verdict to the word list. */
  lemma LoadWordsCons(line: string, rest: string)
    requires '\n' !in line
    ensures LoadWords(line + "\n" + rest) == Kept(line) + LoadWords(rest)
  {
    LoadWordsAround(line, rest);
    LoadWordsLine(line);
  }

  /** Five lines, each ended by a line feed, contribute their verdicts in order. */
  lemma LoadWordsFive(a: string, b: string, c: string, d: string, e: string)
    requires '\n' !in a && '\n' !in b && '\n' !in c && '\n' !in d && '\n' !in e
    ensures LoadWords(a + "\n" + b + "\n" + c + "\n" + d + "\n" + e + "\n")
         == Kept(a) + Kept(b) + Kept(c) + Kept(d) + Kept(e)
  {
    var t4 := e + "\n";
    var t3 := d + "\n" + t4;
    var t2 := c + "\n" + t3;
    var t1 := b + "\n" + t2;
    assert a + "\n" + b + "\n" + c + "\n" + d + "\n" + e + "\n" == a + "\n" + t1;
    assert t4 == e + "\n" + "";
    LoadWordsLine("");
    LoadWordsCons(e, "");
    LoadWordsCons(d, t4);
    LoadWordsCons(c, t3);
    LoadWordsCons(b, t2);
    LoadWordsCons(a, t1);
    Concat5(Kept(a), Kept(b), Kept(c), Kept(d), Kept(e));
  }

  lemma Concat5<T>(a: seq<T>, b: seq<T>, c: seq<T>, d: seq<T>, e: seq<T>)
    ensures a + (b + (c + (d + (e + [])))) == a + b + c + d + e
  {
    assert e + [] == e;
  }

  /**
    Too short and non-alphabetic lines are dropped, a lower-case line is
    upper-cased, and a repeated word is kept twice (the list is not a set).
    The sample lines are parameters fixed by `requires` rather than literals
    in the `ensures`, so the solver unfolds `LoadWords` on them only where
    the proof asks.
   */
  lemma LoadWordsSample(a: string, b: string, c: string, d: string, e: string)
    requires a == "HELLO" && b == "AB" && c == "WORLD" && d == "12345" && e == "hello"
    ensures LoadWords(a + "\n" + b + "\n" + c + "\n" + d + "\n" + e + "\n") == ["HELLO", "WORLD", "HELLO"]
  {
    LoadWordsFive(a, b, c, d, e);
    KeptSamples(a, b, c, d, e);
  }

  /** The verdict on each sample line on its own. */
  lemma KeptSamples(a: string, b: string, c: string, d: string, e: string)
    requires a == "HELLO" && b == "AB" && c == "WORLD" && d == "12345" && e == "hello"
    ensures Kept(a) == ["HELLO"] && Kept(b) == [] && Kept(c) == ["WORLD"] && Kept(d) == [] && Kept(e) == ["HELLO"]
  {
    assert Upper(a) == a && Upper(c) == c && Upper(e) == "HELLO";
    assert !IsAlpha(d[0]);
  }
}
