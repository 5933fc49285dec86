/** `wrap_body` and `chunks` of `src/bridge/mod.rs`: cutting a message body into IRC lines. */
module LineWrap {
  import opened Strings

  const WIDTH: nat := 400

  // ---------- chunks ----------

  /** Does a character of `s` start at byte `k`, or is `k` its end? */
  predicate IsCharBoundary(s: string, k: nat) {
    k == 0 || (s != "" && k >= Utf8Len(s[0]) && IsCharBoundary(s[1..], k - Utf8Len(s[0])))
  }

  /** Number of characters before byte `k`. */
  function CharIndex(s: string, k: nat): (i: nat)
    requires IsCharBoundary(s, k)
    ensures i <= |s|
  {
    if k == 0 then 0 else 1 + CharIndex(s[1..], k - Utf8Len(s[0]))
  }

  /** Characters in the shortest prefix of at least `width` bytes, or all of them. */
  function CutLength(s: string, width: nat): (n: nat)
    ensures n <= |s|
    ensures s != "" && width > 0 ==> n > 0
    ensures n <= width
  {
    if s == "" || width == 0 then 0
    else 1 + CutLength(s[1..], if width > Utf8Len(s[0]) then width - Utf8Len(s[0]) else 0)
  }

  /** What `chunks` yields. */
  function Chunked(s: string, width: nat): seq<string>
    requires width > 0
    decreases |s|
  {
    if s == "" then []
    else var n := CutLength(s, width); [s[..n]] + Chunked(s[n..], width)
  }

  lemma {:induction false} BoundaryOfPrefix(s: string, i: nat)
    requires i <= |s|
    ensures IsCharBoundary(s, ByteLen(s[..i])) && CharIndex(s, ByteLen(s[..i])) == i
  {
    if i > 0 {
      assert s[..i][1..] == s[1..][..i - 1];
      BoundaryOfPrefix(s[1..], i - 1);
    }
  }

  /** Boundaries behind a prefix are the boundaries of the rest. */
  lemma {:induction false} BoundaryShift(s: string, i: nat, k: nat)
    requires i <= |s|
    ensures IsCharBoundary(s, ByteLen(s[..i]) + k) <==> IsCharBoundary(s[i..], k)
    ensures IsCharBoundary(s[i..], k) ==> CharIndex(s, ByteLen(s[..i]) + k) == i + CharIndex(s[i..], k)
  {
    if i > 0 {
      assert s[..i][1..] == s[1..][..i - 1];
      assert s[i..] == s[1..][i - 1..];
      BoundaryShift(s[1..], i - 1, k);
    }
  }

  /** The cut is the first boundary at or after `width` bytes. */
  lemma {:induction false} CutIsFirst(s: string, width: nat, k: nat)
    requires k <= ByteLen(s)
    ensures width <= ByteLen(s) ==> ByteLen(s[..CutLength(s, width)]) >= width
    ensures width > ByteLen(s) ==> CutLength(s, width) == |s|
    ensures width <= k < ByteLen(s[..CutLength(s, width)]) ==> !IsCharBoundary(s, k)
  {
    if s != "" && width > 0 {
      var u := Utf8Len(s[0]);
      var w' := if width > u then width - u else 0;
      var n := CutLength(s, width);
      assert s[..n][1..] == s[1..][..n - 1];
      CutIsFirst(s[1..], w', if k >= u then k - u else 0);
    }
  }

  /** `&s[start..end]` on byte offsets, which panics off a boundary. */
  function ByteSlice(s: string, start: nat, end: nat): string
    requires IsCharBoundary(s, start) && IsCharBoundary(s, end) && CharIndex(s, start) <= CharIndex(s, end)
  {
    s[CharIndex(s, start)..CharIndex(s, end)]
  }

  lemma SliceOf(s: string, i: nat, j: nat)
    requires i <= j <= |s|
    ensures var a, b := ByteLen(s[..i]), ByteLen(s[..j]);
      && IsCharBoundary(s, a) && IsCharBoundary(s, b) && CharIndex(s, a) <= CharIndex(s, b)
      && ByteSlice(s, a, b) == s[i..j]
  {
    BoundaryOfPrefix(s, i);
    BoundaryOfPrefix(s, j);
  }

  /** Byte offsets grow with character positions. */
  lemma OffsetsGrow(s: string, i: nat, j: nat)
    requires i <= j <= |s|
    ensures ByteLen(s[..j]) == ByteLen(s[..i]) + ByteLen(s[i..j])
    ensures ByteLen(s[..j]) <= ByteLen(s) && (ByteLen(s[..j]) == ByteLen(s) <==> j == |s|)
  {
    assert s[..j] == s[..i] + s[i..j];
    ByteLenConcat(s[..i], s[i..j]);
    Glue(s, j);
    ByteLenConcat(s[..j], s[j..]);
  }

  /** Where the next cut is, and that nothing between the wanted width and it is a boundary. */
  lemma CutOffset(s: string, i: nat, width: nat)
    requires i < |s| && width > 0
    ensures var start, goal := ByteLen(s[..i]), ByteLen(s[..i + CutLength(s[i..], width)]);
      && goal <= ByteLen(s) && IsCharBoundary(s, goal)
      && (start + width <= goal || goal == ByteLen(s))
      && forall k: nat :: start + width <= k < goal ==> !IsCharBoundary(s, k)
  {
    hide IsCharBoundary, CutLength, ByteLen;
    var t := s[i..];
    var n := CutLength(t, width);
    OffsetsGrow(s, i, i + n);
    assert s[i..i + n] == t[..n];
    BoundaryOfPrefix(s, i + n);
    OffsetsGrow(s, i, |s|);
    assert s[i..|s|] == t && s[..|s|] == s;
    CutIsFirst(t, width, ByteLen(t));
    OffsetsGrow(t, 0, n);
    assert t[0..n] == t[..n];
    forall k: nat | ByteLen(s[..i]) + width <= k < ByteLen(s[..i + n])
      ensures !IsCharBoundary(s, k)
    {
      CutIsFirst(t, width, k - ByteLen(s[..i]));
      BoundaryShift(s, i, k - ByteLen(s[..i]));
    }
  }

  /** The loop of `chunks`, on byte offsets. It never slices off a boundary. */
  method Chunks(s: string, width: nat) returns (out: seq<string>)
    requires width > 0
    ensures out == Chunked(s, width)
  {
    hide ByteLen, CutLength, IsCharBoundary, ByteSlice;
    out := [];
    var start := 0;
    ghost var i := 0;
    assert s[..0] == "" && s[0..] == s;
    NoBytes();
    while start < ByteLen(s)
      invariant i <= |s| && start == ByteLen(s[..i])
      invariant Chunked(s, width) == out + Chunked(s[i..], width)
      decreases |s| - i
    {
      OffsetsGrow(s, i, i);
      var end := NextCut(s, start, width, i);
      ghost var n := CutLength(s[i..], width);
      SliceOf(s, i, i + n);
      assert s[i..i + n] == s[i..][..n];
      Suffix(s, i, n);
      Assoc(out, [s[i..][..n]], Chunked(s[i + n..], width));
      out := out + [ByteSlice(s, start, end)];
      start := end;
      i := i + n;
    }
    OffsetsGrow(s, i, i);
    assert s[i..] == "" && out + [] == out;
  }

  lemma NoBytes()
    ensures ByteLen("") == 0
  {
  }

  /** The inner loop: forward to the next boundary. */
  method NextCut(s: string, start: nat, width: nat, ghost i: nat) returns (end: nat)
    requires i < |s| && start == ByteLen(s[..i]) && width > 0
    ensures end == ByteLen(s[..i + CutLength(s[i..], width)])
  {
    hide ByteLen, CutLength, IsCharBoundary;
    CutOffset(s, i, width);
    ghost var goal := ByteLen(s[..i + CutLength(s[i..], width)]);
    end := if start + width < ByteLen(s) then start + width else ByteLen(s);
    while end < ByteLen(s) && !IsCharBoundary(s, end)
      invariant end <= goal && (start + width <= end || end == ByteLen(s))
      decreases goal - end
    {
      end := end + 1;
    }
  }

  /** The pieces are the word, cut: nothing lost, no piece empty or wider than `width` characters,
      and every piece but the last at least `width` bytes and less than one character over. */
  lemma {:induction false} ChunkedFacts(s: string, width: nat)
    requires width > 0
    ensures Concat(Chunked(s, width)) == s
    ensures forall i | 0 <= i < |Chunked(s, width)| :: var p := Chunked(s, width)[i];
      p != "" && |p| <= width && (i + 1 < |Chunked(s, width)| ==> width <= ByteLen(p) <= width + 3)
    decreases |s|
  {
    if s != "" {
      var n := CutLength(s, width);
      ChunkedFacts(s[n..], width);
      CutBytes(s, width);
      Glue(s, n);
      assert Chunked(s, width)[1..] == Chunked(s[n..], width);
    }
  }

  lemma {:induction false} CutBytes(s: string, width: nat)
    requires width > 0
    ensures ByteLen(s[..CutLength(s, width)]) <= width + 3
    ensures CutLength(s, width) < |s| ==> ByteLen(s[..CutLength(s, width)]) >= width
  {
    if s != "" {
      var u := Utf8Len(s[0]);
      var n := CutLength(s, width);
      assert s[..n][1..] == s[1..][..n - 1];
      if width > u {
        CutBytes(s[1..], width - u);
      } else {
        assert s[1..][..0] == "";
      }
    }
  }

  function Concat(parts: seq<string>): string {
    if parts == [] then "" else parts[0] + Concat(parts[1..])
  }

  // ---------- wrapping ----------

  /** The words still to place, and the line in progress. */
  function WrapWords(words: seq<string>, current: string): seq<string>
    decreases |words|
  {
    if words == [] then (if current == "" then [] else [current])
    else
      var w, rest := words[0], words[1..];
      if current == "" then
        if |w| > WIDTH then Chunked(w, WIDTH) + WrapWords(rest, "") else WrapWords(rest, w)
      else if |current| + 1 + |w| <= WIDTH then WrapWords(rest, current + " " + w)
      else [current] + WrapWords(rest, w)
  }

  function WrapLine(line: string): seq<string> {
    if |line| <= WIDTH then [line] else WrapWords(Split(line, ' '), "")
  }

  function Chomp(line: string): string {
    TrimEnd(Only('\r'), line)
  }

  function WrapLines(lines: seq<string>): seq<string> {
    if lines == [] then [] else WrapLine(Chomp(lines[0])) + WrapLines(lines[1..])
  }

  /** What `wrap_body` yields. */
  function Wrapped(body: string): (r: seq<string>)
    ensures |r| >= 1
  {
    var out := WrapLines(Split(body, '\n'));
    if out == [] then [""] else out
  }

  /** The loops of `wrap_body`. */
  method WrapBody(body: string) returns (out: seq<string>)
    ensures out == Wrapped(body)
  {
    hide WrapLine;
    out := [];
    var lines := Split(body, '\n');
    var i := 0;
    while i < |lines|
      invariant i <= |lines|
      invariant WrapLines(lines) == out + WrapLines(lines[i..])
    {
      Suffix(lines, i, 1);
      var line := TrimEnd(Only('\r'), lines[i]);
      Assoc(out, WrapLine(line), WrapLines(lines[i + 1..]));
      if |line| <= WIDTH {
        ShortLine(line);
        out := out + [line];
      } else {
        out := WrapLong(out, line);
      }
      i := i + 1;
    }
    assert lines[i..] == [];
    assert out + [] == out;
    if out == [] {
      out := out + [""];
    }
  }

  lemma ShortLine(line: string)
    requires |line| <= WIDTH
    ensures WrapLine(line) == [line]
  {
  }

  /** The loop over the words of a long line. */
  method WrapLong(before: seq<string>, line: string) returns (out: seq<string>)
    requires |line| > WIDTH
    ensures out == before + WrapLine(line)
  {
    out := before;
    var words := Split(line, ' ');
    var current := "";
    var i := 0;
    while i < |words|
      invariant i <= |words|
      invariant before + WrapLine(line) == out + WrapWords(words[i..], current)
    {
      var word := words[i];
      ghost var rest := words[i + 1..];
      Suffix(words, i, 1);
      if current == "" {
        if |word| > WIDTH {
          var pieces := Chunks(word, WIDTH);
          Assoc(out, pieces, WrapWords(rest, ""));
          out := out + pieces;
        } else {
          current := word;
        }
      } else if |current| + 1 + |word| <= WIDTH {
        current := current + " " + word;
      } else {
        Assoc(out, [current], WrapWords(rest, word));
        out := out + [current];
        current := word;
      }
      i := i + 1;
    }
    assert words[i..] == [];
    if current != "" {
      out := out + [current];
    } else {
      assert out + [] == out;
    }
  }
}
