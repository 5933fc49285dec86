/** What wrapping keeps: the text, the short lines, and the width. */
module LineWrapLaw {
  import opened Strings
  import opened LineWrap

  // ---------- the text ----------

  /** The text without its blanks. */
  function Solid(s: string): string {
    if s == "" then "" else (if s[0] == ' ' then "" else [s[0]]) + Solid(s[1..])
  }

  lemma {:induction false} SolidConcat(a: string, b: string)
    ensures Solid(a + b) == Solid(a) + Solid(b)
  {
    if a == "" {
      assert a + b == b;
    } else {
      assert (a + b)[1..] == a[1..] + b;
      SolidConcat(a[1..], b);
    }
  }

  lemma {:induction false} ConcatConcat(a: seq<string>, b: seq<string>)
    ensures Concat(a + b) == Concat(a) + Concat(b)
  {
    if a == [] {
      assert a + b == b;
    } else {
      assert (a + b)[1..] == a[1..] + b;
      ConcatConcat(a[1..], b);
      Assoc(a[0], Concat(a[1..]), Concat(b));
    }
  }

  lemma ConcatOne(s: string)
    ensures Concat([s]) == s
  {
    assert Concat([s][1..]) == "";
  }

  lemma {:induction false} SolidJoin(words: seq<string>)
    ensures Solid(Join(words, ' ')) == Solid(Concat(words))
  {
    if |words| == 1 {
      assert words == [words[0]];
      ConcatOne(words[0]);
    } else if |words| > 1 {
      SolidJoin(words[1..]);
      SolidConcat(words[0] + [' '], Join(words[1..], ' '));
      SolidConcat(words[0], [' ']);
      SolidBlank();
      SolidConcat(words[0], Concat(words[1..]));
    }
  }

  lemma SolidBlank()
    ensures Solid([' ']) == ""
  {
    assert Solid([' '][1..]) == "";
  }

  /** The wrapped words hold the characters of the line in progress and of the words. */
  lemma {:induction false} WrapWordsKeep(words: seq<string>, current: string)
    ensures Solid(Concat(WrapWords(words, current))) == Solid(current) + Solid(Concat(words))
    decreases |words|
  {
    hide Solid, Chunked;
    SolidNone();
    if words == [] {
      ConcatOne(current);
      assert Solid(current) + "" == Solid(current);
    } else {
      var w, rest := words[0], words[1..];
      SolidConcat(w, Concat(rest));
      if current == "" {
        assert Solid("") + Solid(Concat(words)) == Solid(Concat(words));
        if |w| > WIDTH {
          WrapWordsKeep(rest, "");
          ConcatConcat(Chunked(w, WIDTH), WrapWords(rest, ""));
          ChunkedFacts(w, WIDTH);
          SolidConcat(w, Concat(WrapWords(rest, "")));
          assert Solid("") + Solid(Concat(rest)) == Solid(Concat(rest));
        } else {
          WrapWordsKeep(rest, w);
        }
      } else if |current| + 1 + |w| <= WIDTH {
        WrapWordsKeep(rest, current + " " + w);
        SolidConcat(current + " ", w);
        SolidConcat(current, " ");
        SolidBlank();
        assert Solid(current) + "" == Solid(current);
        Assoc(Solid(current), Solid(w), Solid(Concat(rest)));
      } else {
        WrapWordsKeep(rest, w);
        assert ([current] + WrapWords(rest, w))[1..] == WrapWords(rest, w);
        SolidConcat(current, Concat(WrapWords(rest, w)));
      }
    }
  }

  lemma SolidNone()
    ensures Solid("") == ""
  {
  }

  lemma WrapLineKeeps(line: string)
    ensures Solid(Concat(WrapLine(line))) == Solid(line)
  {
    hide Solid, WrapWords;
    if |line| <= WIDTH {
      ConcatOne(line);
    } else {
      var words := Split(line, ' ');
      WrapWordsKeep(words, "");
      SolidNone();
      SolidJoin(words);
      JoinSplit(line, ' ');
      assert "" + Solid(line) == Solid(line);
    }
  }

  /** The lines of a body, each without its trailing carriage returns, put together. */
  function Chomped(lines: seq<string>): string {
    if lines == [] then "" else Chomp(lines[0]) + Chomped(lines[1..])
  }

  lemma {:induction false} WrapLinesKeep(lines: seq<string>)
    ensures Solid(Concat(WrapLines(lines))) == Solid(Chomped(lines))
  {
    hide Solid, WrapLine, Chomp;
    if lines != [] {
      WrapLineKeeps(Chomp(lines[0]));
      WrapLinesKeep(lines[1..]);
      ConcatConcat(WrapLine(Chomp(lines[0])), WrapLines(lines[1..]));
      SolidConcat(Concat(WrapLine(Chomp(lines[0]))), Concat(WrapLines(lines[1..])));
      SolidConcat(Chomp(lines[0]), Chomped(lines[1..]));
    }
  }

  /** Wrapping keeps the text: blanks aside, the output is the body without its line breaks and
      without the carriage returns at the ends of its lines. */
  lemma WrappedKeepsText(body: string)
    ensures Solid(Concat(Wrapped(body))) == Solid(Chomped(Split(body, '\n')))
  {
    hide Solid, WrapLines, Chomped;
    WrapLinesKeep(Split(body, '\n'));
    ConcatOne("");
    if WrapLines(Split(body, '\n')) == [] {
      assert Concat([]) == "";
    }
  }

  // ---------- the width ----------

  /** Is there a word longer than the width while a line is in progress? This is the branch that
      starts a new line with a word it does not measure. */
  predicate Overruns(words: seq<string>, current: string)
    decreases |words|
  {
    words != [] && (
      var w, rest := words[0], words[1..];
      if current == "" then Overruns(rest, if |w| > WIDTH then "" else w)
      else if |current| + 1 + |w| <= WIDTH then Overruns(rest, current + " " + w)
      else |w| > WIDTH || Overruns(rest, w))
  }

  predicate Fits(lines: seq<string>) {
    forall i | 0 <= i < |lines| :: |lines[i]| <= WIDTH
  }

  lemma FitsConcat(a: seq<string>, b: seq<string>)
    ensures Fits(a + b) <==> Fits(a) && Fits(b)
  {
    assert forall i | 0 <= i < |a| :: (a + b)[i] == a[i];
    assert forall i | 0 <= i < |b| :: (a + b)[|a| + i] == b[i];
  }

  /** A line in progress that is too wide comes out too wide. */
  lemma {:induction false} WideStays(words: seq<string>, current: string)
    requires |current| > WIDTH
    ensures !Fits(WrapWords(words, current))
  {
    assert WrapWords(words, current)[0] == current;
  }

  lemma {:induction false} FitsIff(words: seq<string>, current: string)
    requires |current| <= WIDTH
    ensures Fits(WrapWords(words, current)) <==> !Overruns(words, current)
    decreases |words|
  {
    hide Chunked, Fits;
    if words == [] {
      FitsShort(current);
    } else {
      var w, rest := words[0], words[1..];
      if current == "" {
        if |w| > WIDTH {
          FitsIff(rest, "");
          ChunksFit(w);
          FitsConcat(Chunked(w, WIDTH), WrapWords(rest, ""));
        } else {
          FitsIff(rest, w);
        }
      } else if |current| + 1 + |w| <= WIDTH {
        FitsIff(rest, current + " " + w);
      } else {
        FitsShort(current);
        FitsConcat([current], WrapWords(rest, w));
        if |w| > WIDTH {
          WideStays(rest, w);
        } else {
          FitsIff(rest, w);
        }
      }
    }
  }

  lemma FitsShort(current: string)
    ensures |current| <= WIDTH ==> Fits([current]) && Fits([])
  {
  }

  lemma ChunksFit(w: string)
    ensures Fits(Chunked(w, WIDTH))
  {
    ChunkedFacts(w, WIDTH);
  }

  /** The same for a whole line, and for a whole body. */
  predicate LineOverruns(line: string) {
    |line| > WIDTH && Overruns(Split(line, ' '), "")
  }

  predicate AnyOverruns(lines: seq<string>) {
    exists i | 0 <= i < |lines| :: LineOverruns(Chomp(lines[i]))
  }

  lemma {:induction false} LinesFitIff(lines: seq<string>)
    ensures Fits(WrapLines(lines)) <==> !AnyOverruns(lines)
  {
    hide WrapWords, Overruns, Fits, Chomp;
    if lines == [] {
      FitsShort("");
    } else {
      var line := Chomp(lines[0]);
      LinesFitIff(lines[1..]);
      FitsConcat(WrapLine(line), WrapLines(lines[1..]));
      FitsShort(line);
      FitsIff(Split(line, ' '), "");
      assert forall i | 0 <= i < |lines[1..]| :: lines[1..][i] == lines[i + 1];
    }
  }

  /** Every output line is at most 400 characters, exactly when no line of the body has a word over
      400 characters come up while an output line is in progress. */
  lemma WrappedFitsIff(body: string)
    ensures Fits(Wrapped(body)) <==> !AnyOverruns(Split(body, '\n'))
  {
    hide WrapLines, Fits, AnyOverruns, Split;
    LinesFitIff(Split(body, '\n'));
    FitsShort("");
  }

  lemma {:induction false} ShortWordsNeverOverrun(words: seq<string>, current: string)
    requires Fits(words) && |current| <= WIDTH
    ensures !Overruns(words, current)
    decreases |words|
  {
    if words != [] {
      var w, rest := words[0], words[1..];
      assert |w| <= WIDTH && Fits(rest);
      var joined := |current| + 1 + |w| <= WIDTH;
      ShortWordsNeverOverrun(rest, if current == "" then w else if joined then current + " " + w else w);
    }
  }

  /** Without words over 400 characters there are no output lines over 400 characters. */
  lemma ShortWordsFit(body: string)
    requires forall i | 0 <= i < |Split(body, '\n')| :: Fits(Split(Chomp(Split(body, '\n')[i]), ' '))
    ensures Fits(Wrapped(body))
  {
    hide Wrapped, Fits, Overruns, Chomp, Split;
    var lines := Split(body, '\n');
    WrappedFitsIff(body);
    forall i | 0 <= i < |lines|
      ensures !LineOverruns(Chomp(lines[i]))
    {
      ShortWordsNeverOverrun(Split(Chomp(lines[i]), ' '), "");
    }
  }

  /** An overlong word behind a short one goes out whole, for every such pair of words. */
  lemma OverlongSecondWord(a: string, w: string)
    requires a != "" && |a| <= WIDTH < |w| && Free(Only(' '), a) && Free(Only(' '), w)
    ensures WrapLine(a + [' '] + w) == [a, w]
  {
    hide Split, Free;
    var line := a + [' '] + w;
    SplitCons(a, w, ' ');
    SplitOne(w, ' ');
    var words := [a, w];
    assert Split(line, ' ') == words;
    assert words[1..] == [w] && [w][1..] == [];
    assert WrapWords([], w) == [w];
    assert WrapWords([w], a) == [a] + [w];
    assert WrapWords(words, "") == WrapWords([w], a);
    assert [a] + [w] == words;
    assert |line| > WIDTH;
  }

  /** What an overlong output line can be: a word of its source line, and not the first one. */
  lemma {:induction false} WideIsWord(words: seq<string>, current: string, o: string)
    requires o in WrapWords(words, current) && |o| > WIDTH
    ensures o == current || o in words
    ensures current == "" ==> words != [] && o in words[1..]
    decreases |words|
  {
    hide Chunked;
    if words != [] {
      var w, rest := words[0], words[1..];
      if current == "" {
        if |w| > WIDTH {
          ChunkedFacts(w, WIDTH);
          assert o in WrapWords(rest, "");
          WideIsWord(rest, "", o);
        } else {
          WideIsWord(rest, w, o);
        }
      } else if |current| + 1 + |w| <= WIDTH {
        WideIsWord(rest, current + " " + w, o);
      } else if o != current {
        WideIsWord(rest, w, o);
      }
    }
  }

  lemma {:induction false} LaterWordsShorter(words: seq<string>, o: string)
    requires words != [] && o in words[1..]
    ensures |o| < |Join(words, ' ')|
  {
    if o != words[1] {
      assert o in words[1..][1..];
      LaterWordsShorter(words[1..], o);
    } else {
      assert |Join(words[1..], ' ')| >= |words[1]|;
    }
  }

  /** An output line over 400 characters is a single word without blanks, shorter than its line. */
  lemma WideLine(line: string, o: string)
    requires |line| > WIDTH && o in WrapLine(line) && |o| > WIDTH
    ensures Free(Only(' '), o) && |o| < |line|
  {
    hide WrapWords;
    var words := Split(line, ' ');
    WideIsWord(words, "", o);
    LaterWordsShorter(words, o);
    JoinSplit(line, ' ');
    SplitFree(line, ' ');
    var i :| 0 <= i < |words| && words[i] == o;
  }

  // ---------- which words stand on which line ----------

  /** How words are laid out on lines: each line is the next few of them with one blank between each two, as
      many as have room. A word wider than a line that comes first is cut up; empty words are dropped where a
      line starts, at the beginning, behind a word that was cut up and at a break (`starting`). */
  ghost predicate Laid(lines: seq<string>, words: seq<string>, starting: bool)
    decreases |words|
  {
    if words == [] then lines == []
    else if starting && words[0] == "" then Laid(lines, words[1..], true)
    else if starting && |words[0]| > WIDTH then
      var pieces := Chunked(words[0], WIDTH);
      pieces <= lines && Laid(lines[|pieces|..], words[1..], true)
    else
      exists j | 0 < j <= |words| :: FillsLine(lines, words, j) && Laid(lines[1..], words[j..], AtBlank(words, j))
  }

  /** The first line is the first `j` words: they fit, unless it is one word alone, and the next does not. */
  predicate FillsLine(lines: seq<string>, words: seq<string>, j: nat)
    requires j <= |words|
  {
    && lines != [] && lines[0] == Join(words[..j], ' ')
    && (j > 1 ==> |lines[0]| <= WIDTH)
    && (j < |words| ==> |lines[0]| + 1 + |words[j]| > WIDTH)
  }

  predicate AtBlank(words: seq<string>, j: nat) {
    j < |words| && words[j] == ""
  }

  lemma {:induction false} JoinSnoc(parts: seq<string>, w: string)
    requires parts != []
    ensures Join(parts + [w], ' ') == Join(parts, ' ') + " " + w
  {
    if |parts| > 1 {
      assert (parts + [w])[1..] == parts[1..] + [w];
      JoinSnoc(parts[1..], w);
      assert parts[0] + [' '] + (Join(parts[1..], ' ') + " " + w)
        == parts[0] + [' '] + Join(parts[1..], ' ') + " " + w;
    } else {
      assert parts + [w] == [parts[0], w] && [parts[0], w][1..] == [w];
    }
  }

  lemma JoinNonEmpty(parts: seq<string>)
    requires parts != [] && parts[0] != ""
    ensures Join(parts, ' ') != ""
  {
  }

  lemma LaidFirst(lines: seq<string>, words: seq<string>, starting: bool, j: nat)
    requires words != [] && words[0] != "" && (starting ==> |words[0]| <= WIDTH)
    requires 0 < j <= |words| && FillsLine(lines, words, j) && Laid(lines[1..], words[j..], AtBlank(words, j))
    ensures Laid(lines, words, starting)
  {
    hide FillsLine, AtBlank;
  }

  lemma LaidFresh(lines: seq<string>, words: seq<string>)
    requires words != [] && words[0] != "" && |words[0]| <= WIDTH && Laid(lines, words, false)
    ensures Laid(lines, words, true)
  {
    hide FillsLine, AtBlank;
  }

  /** Filling a line that has a block of words so far. */
  lemma {:induction false} WordsLaid(words: seq<string>, block: seq<string>)
    requires block != [] ==> block[0] != "" && (|block| > 1 ==> |Join(block, ' ')| <= WIDTH)
    ensures block == [] ==> Laid(WrapWords(words, ""), words, true)
    ensures block != [] ==> Laid(WrapWords(words, Join(block, ' ')), block + words, false)
    decreases |words|, 1
  {
    hide Chunked, Join, Laid;
    if block == [] {
      FreshLaid(words);
    } else {
      var current := Join(block, ' ');
      JoinNonEmpty(block);
      if words == [] {
        LastLaid(block);
      } else {
        var w, rest := words[0], words[1..];
        if |current| + 1 + |w| <= WIDTH {
          JoinSnoc(block, w);
          WordsLaid(rest, block + [w]);
          assert block + [w] + rest == block + words;
        } else {
          BreakLaid(words, block);
        }
      }
    }
  }

  lemma {:induction false} FreshLaid(words: seq<string>)
    ensures Laid(WrapWords(words, ""), words, true)
    decreases |words|, 0
  {
    hide Chunked, Join;
    if words != [] {
      var w, rest := words[0], words[1..];
      if w == "" {
        FreshLaid(rest);
      } else if |w| > WIDTH {
        FreshLaid(rest);
        var pieces := Chunked(w, WIDTH);
        assert (pieces + WrapWords(rest, ""))[|pieces|..] == WrapWords(rest, "");
      } else {
        WordsLaid(rest, [w]);
        assert [w] + rest == words;
        JoinOne(w);
        LaidFresh(WrapWords(words, ""), words);
      }
    }
  }

  lemma JoinOne(w: string)
    ensures Join([w], ' ') == w
  {
  }

  lemma LastLaid(block: seq<string>)
    requires block != [] && block[0] != "" && (|block| > 1 ==> |Join(block, ' ')| <= WIDTH)
    ensures Laid([Join(block, ' ')], block + [], false)
  {
    hide Join;
    var words := block + [];
    assert words[..|block|] == block && words[|block|..] == [];
    assert Laid([Join(block, ' ')][1..], words[|block|..], AtBlank(words, |block|));
    LaidFirst([Join(block, ' ')], words, false, |block|);
  }

  lemma {:induction false} BreakLaid(words: seq<string>, block: seq<string>)
    requires block != [] && block[0] != "" && (|block| > 1 ==> |Join(block, ' ')| <= WIDTH)
    requires words != [] && |Join(block, ' ')| + 1 + |words[0]| > WIDTH
    ensures Laid([Join(block, ' ')] + WrapWords(words[1..], words[0]), block + words, false)
    decreases |words|, 0
  {
    hide Join, Chunked, WrapWords;
    var w, rest := words[0], words[1..];
    var more := WrapWords(rest, w);
    var all := block + words;
    if w == "" {
      FreshLaid(rest);
      assert Laid(more, words, true);
    } else {
      WordsLaid(rest, [w]);
      JoinOne(w);
      assert [w] + rest == words;
    }
    var lines := [Join(block, ' ')] + more;
    assert all[..|block|] == block && all[|block|..] == words && lines[1..] == more;
    LaidFirst(lines, all, false, |block|);
  }

  /** A long line is laid out in its words, greedily. */
  lemma LineLaid(line: string)
    requires |line| > WIDTH
    ensures Laid(WrapLine(line), Split(line, ' '), true)
  {
    hide Laid, WrapWords;
    FreshLaid(Split(line, ' '));
  }

  predicate NoneEmpty(words: seq<string>) {
    forall i | 0 <= i < |words| :: words[i] != ""
  }

  lemma {:induction false} WordsBack(words: seq<string>, current: string)
    requires current != "" && NoneEmpty(words)
    ensures Join(WrapWords(words, current), ' ') == Join([current] + words, ' ')
    ensures WrapWords(words, current) != []
    decreases |words|
  {
    if words == [] {
      assert [current] + words == [current];
    } else {
      var w, rest := words[0], words[1..];
      assert [w] + rest == words && words[0] != "" && NoneEmpty(rest);
      JoinCons(current, words, ' ');
      if |current| + 1 + |w| <= WIDTH {
        WordsBack(rest, current + " " + w);
        JoinTwo(current, w, rest);
      } else {
        WordsBack(rest, w);
        JoinCons(current, WrapWords(rest, w), ' ');
      }
    }
  }

  lemma JoinTwo(a: string, w: string, rest: seq<string>)
    ensures Join([a + " " + w] + rest, ' ') == a + [' '] + Join([w] + rest, ' ')
  {
    if rest == [] {
      assert [a + " " + w] + rest == [a + " " + w] && [w] + rest == [w];
    } else {
      JoinCons(a + " " + w, rest, ' ');
      JoinCons(w, rest, ' ');
      assert a + " " + w + [' '] + Join(rest, ' ') == a + [' '] + (w + [' '] + Join(rest, ' '));
    }
  }

  /** Joined with blanks, the output lines give a long line back whose blanks are single and whose first word
      has at most 400 characters. */
  lemma BlanksBack(line: string)
    requires |line| > WIDTH
    requires NoneEmpty(Split(line, ' ')) && |Split(line, ' ')[0]| <= WIDTH
    ensures Join(WrapLine(line), ' ') == line
  {
    hide Join, Split;
    var words := Split(line, ' ');
    JoinSplit(line, ' ');
    WordsBack(words[1..], words[0]);
    assert [words[0]] + words[1..] == words;
  }

  // ---------- short lines, and getting the body back ----------

  /** A line that wrapping leaves as it is. */
  predicate Verbatim(line: string) {
    |line| <= WIDTH && (line != "" ==> line[|line| - 1] != '\r')
  }

  lemma VerbatimStays(line: string)
    ensures Verbatim(line) ==> WrapLine(Chomp(line)) == [line]
  {
    if Verbatim(line) {
      TrimEndIdle(Only('\r'), line);
    }
  }

  /** A line that is not left as it is comes out in strictly shorter lines, if it comes out at all. */
  lemma ChangedShrinks(line: string, o: string)
    requires !Verbatim(line) && o in WrapLine(Chomp(line))
    ensures |o| < |line|
  {
    var c := Chomp(line);
    if |c| <= WIDTH {
      assert Verbatim(c);
      TrimEndCuts(Only('\r'), line);
    } else if |o| > WIDTH {
      WideLine(c, o);
    }
  }

  /** It comes out in no line at all only when it is blank throughout. */
  lemma VanishedIsBlank(line: string)
    requires WrapLine(Chomp(line)) == []
    ensures |Chomp(line)| > WIDTH && Solid(Chomp(line)) == ""
  {
    WrapLineKeeps(Chomp(line));
  }

  lemma {:induction false} BlankHasBlank(s: string)
    requires s != "" && Solid(s) == ""
    ensures s[0] == ' '
  {
  }

  lemma {:induction false} LinesSource(lines: seq<string>, o: string)
    requires o in WrapLines(lines) && |o| > WIDTH
    ensures Free(Only(' '), o)
  {
    hide WrapLine, Chomp;
    if lines != [] {
      if o in WrapLine(Chomp(lines[0])) {
        WideOut(Chomp(lines[0]), o);
      } else {
        LinesSource(lines[1..], o);
      }
    }
  }

  lemma WideOut(line: string, o: string)
    requires o in WrapLine(line) && |o| > WIDTH
    ensures Free(Only(' '), o)
  {
    if |line| > WIDTH {
      WideLine(line, o);
    }
  }

  lemma {:induction false} LinesBackIff(lines: seq<string>)
    ensures WrapLines(lines) == lines <==> forall i | 0 <= i < |lines| :: Verbatim(lines[i])
  {
    hide WrapLine, Chomp, Verbatim;
    if lines != [] {
      var line, rest := lines[0], lines[1..];
      var first := WrapLine(Chomp(line));
      LinesBackIff(rest);
      VerbatimStays(line);
      assert lines == [line] + rest;
      if Verbatim(line) {
        assert ([line] + WrapLines(rest))[1..] == WrapLines(rest);
        assert forall i | 0 <= i < |rest| :: rest[i] == lines[i + 1];
      } else if WrapLines(lines) == lines {
        ChangedGone(line, rest);
      }
    }
  }

  /** The heart of it: a changed line is never found again at its place in the output. */
  lemma ChangedGone(line: string, rest: seq<string>)
    requires !Verbatim(line)
    ensures WrapLines([line] + rest) != [line] + rest
  {
    hide WrapLine, Chomp, Verbatim, Solid;
    var first := WrapLine(Chomp(line));
    var out := first + WrapLines(rest);
    assert ([line] + rest)[1..] == rest && WrapLines([line] + rest) == out;
    if first != [] {
      ChangedShrinks(line, first[0]);
      assert out[0] == first[0];
    } else if out != [] {
      VanishedIsBlank(line);
      assert out[0] in WrapLines(rest);
      BlankHead(line);
      if |out[0]| > WIDTH {
        LinesSource(rest, out[0]);
      }
    }
  }

  lemma BlankHead(line: string)
    requires |Chomp(line)| > WIDTH && Solid(Chomp(line)) == ""
    ensures |line| > WIDTH && !Free(Only(' '), line)
  {
    TrimEndCuts(Only('\r'), line);
    BlankHasBlank(Chomp(line));
    assert line[0] == Chomp(line)[0];
  }

  lemma {:induction false} SubFree(s: string, n: nat, c: char)
    requires n <= |s| && Free(Only(c), s)
    ensures Free(Only(c), s[..n]) && Free(Only(c), s[n..])
  {
  }

  lemma {:induction false} ChunksKeepFree(s: string, width: nat, c: char)
    requires width > 0 && Free(Only(c), s)
    ensures forall i | 0 <= i < |Chunked(s, width)| :: Free(Only(c), Chunked(s, width)[i])
    decreases |s|
  {
    hide Free;
    if s != "" {
      var n := CutLength(s, width);
      SubFree(s, n, c);
      ChunksKeepFree(s[n..], width, c);
    }
  }

  predicate AllFree(lines: seq<string>, c: char) {
    forall i | 0 <= i < |lines| :: Free(Only(c), lines[i])
  }

  lemma AllFreeConcat(a: seq<string>, b: seq<string>, c: char)
    requires AllFree(a, c) && AllFree(b, c)
    ensures AllFree(a + b, c)
  {
  }

  lemma {:induction false} WordsKeepFree(words: seq<string>, current: string)
    requires Free(Only('\n'), current) && AllFree(words, '\n')
    ensures AllFree(WrapWords(words, current), '\n')
    decreases |words|
  {
    hide Free, Chunked;
    if words != [] {
      var w, rest := words[0], words[1..];
      FreeBlank();
      assert AllFree(rest, '\n');
      if current == "" {
        if |w| > WIDTH {
          ChunksKeepFree(w, WIDTH, '\n');
          WordsKeepFree(rest, "");
          AllFreeConcat(Chunked(w, WIDTH), WrapWords(rest, ""), '\n');
        } else {
          WordsKeepFree(rest, w);
        }
      } else if |current| + 1 + |w| <= WIDTH {
        FreeConcat(Only('\n'), current, " ");
        FreeConcat(Only('\n'), current + " ", w);
        WordsKeepFree(rest, current + " " + w);
      } else {
        WordsKeepFree(rest, w);
        AllFreeConcat([current], WrapWords(rest, w), '\n');
      }
    }
  }

  lemma FreeBlank()
    ensures Free(Only('\n'), " ") && Free(Only('\n'), "")
  {
  }

  lemma {:induction false} LinesKeepFree(lines: seq<string>)
    requires AllFree(lines, '\n')
    ensures AllFree(WrapLines(lines), '\n')
  {
    hide WrapWords, Free;
    if lines != [] {
      var line := Chomp(lines[0]);
      LinesKeepFree(lines[1..]);
      TrimEndCuts(Only('\r'), lines[0]);
      SubFree(lines[0], |line|, '\n');
      SplitKeepsLineFree(line);
      FreeBlank();
      WordsKeepFree(Split(line, ' '), "");
      AllFreeConcat(WrapLine(line), WrapLines(lines[1..]), '\n');
    }
  }

  lemma {:induction false} SplitKeepsLineFree(s: string)
    requires Free(Only('\n'), s)
    ensures AllFree(Split(s, ' '), '\n')
    decreases |s|
  {
    hide Free;
    var k := Find(Only(' '), s);
    if k < |s| {
      SubFree(s, k, '\n');
      SubFree(s, k + 1, '\n');
      SplitKeepsLineFree(s[k + 1..]);
    }
  }

  /** No output line holds a line break. */
  lemma WrappedIsLines(body: string)
    ensures AllFree(Wrapped(body), '\n')
  {
    SplitFree(body, '\n');
    LinesKeepFree(Split(body, '\n'));
  }

  /** Joining the output lines gives the body back, exactly when each of its lines has at most 400
      characters and does not end in a carriage return. */
  lemma JoinWrappedIff(body: string)
    ensures Join(Wrapped(body), '\n') == body
      <==> forall i | 0 <= i < |Split(body, '\n')| :: Verbatim(Split(body, '\n')[i])
  {
    hide WrapLines, Verbatim, Join, Split;
    var lines := Split(body, '\n');
    var out := Wrapped(body);
    WrappedIsLines(body);
    SplitJoin(out, '\n');
    JoinSplit(body, '\n');
    LinesBackIff(lines);
    if WrapLines(lines) == [] && lines == [""] {
      EmptyLineStays();
    }
  }

  lemma EmptyLineStays()
    ensures WrapLines([""]) != []
  {
    VerbatimStays("");
  }
}
