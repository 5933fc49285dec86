/** Character classes and the string searches the rest of the model is written with.
    A Dafny `char` is one Unicode scalar value, as a Rust `char` is. */
module Strings {

  datatype Option<+T> = None | Some(value: T)

  /** The character classes the source searches for or trims. */
  datatype CharClass =
    | Only(c: char)
    | White
    | WhiteOr(c: char)
    | LineBreak
    | Edge

  /** The Unicode White_Space property, which `char::is_whitespace` and `str::trim` use. */
  predicate IsWhite(c: char) {
    var n := c as int;
    || 0x9 <= n <= 0xD || n == 0x20 || n == 0x85 || n == 0xA0 || n == 0x1680
    || 0x2000 <= n <= 0x200A || n == 0x2028 || n == 0x2029 || n == 0x202F || n == 0x205F || n == 0x3000
  }

  predicate Matches(k: CharClass, c: char) {
    match k
    case Only(d) => c == d
    case White => IsWhite(c)
    case WhiteOr(d) => c == d || IsWhite(c)
    case LineBreak => c == '\n' || c == '\r'
    case Edge => c == '_' || c == '.'
  }

  predicate Free(k: CharClass, s: string) {
    forall i | 0 <= i < |s| :: !Matches(k, s[i])
  }

  predicate AllMatch(k: CharClass, s: string) {
    forall i | 0 <= i < |s| :: Matches(k, s[i])
  }

  lemma Assoc<T>(a: seq<T>, b: seq<T>, c: seq<T>)
    ensures a + (b + c) == (a + b) + c
  {
  }

  lemma Glue<T>(s: seq<T>, k: nat)
    requires k <= |s|
    ensures s[..k] + s[k..] == s
  {
  }

  lemma Suffix<T>(s: seq<T>, i: nat, k: nat)
    requires i + k <= |s|
    ensures s[i..][k..] == s[i + k..]
  {
  }

  /** Index of the first character in the class, or the length when there is none. */
  function Find(k: CharClass, s: string): (r: nat)
    ensures r <= |s|
  {
    if s == "" || Matches(k, s[0]) then 0 else 1 + Find(k, s[1..])
  }

  /** It is the first one. */
  lemma {:induction false} FindFirst(k: CharClass, s: string)
    ensures Free(k, s[..Find(k, s)])
    ensures Find(k, s) < |s| ==> Matches(k, s[Find(k, s)])
  {
    if s != "" && !Matches(k, s[0]) {
      FindFirst(k, s[1..]);
      var r := Find(k, s);
      assert s[..r] == [s[0]] + s[1..][..r - 1];
    }
  }

  /** Skipping a prefix without matches. */
  lemma {:induction false} FindSkip(k: CharClass, a: string, b: string)
    requires Free(k, a)
    ensures Find(k, a + b) == |a| + Find(k, b)
  {
    if a == "" {
      assert a + b == b;
    } else {
      assert (a + b)[1..] == a[1..] + b;
      FindSkip(k, a[1..], b);
    }
  }

  /** The first match, when the string is given as what precedes it, the match, and the rest. */
  lemma FindAt(k: CharClass, a: string, c: char, b: string)
    requires Free(k, a) && Matches(k, c)
    ensures var s := a + ([c] + b);
      Find(k, s) == |a| && s[..|a|] == a && s[|a|..] == [c] + b && s[|a| + 1..] == b
  {
    FindSkip(k, a, [c] + b);
  }

  lemma FreeConcat(k: CharClass, a: string, b: string)
    ensures Free(k, a + b) <==> Free(k, a) && Free(k, b)
  {
    assert forall i | 0 <= i < |a| :: (a + b)[i] == a[i];
    assert forall i | 0 <= i < |b| :: (a + b)[|a| + i] == b[i];
  }

  /** First position at which `p` starts in `s`, or the length when there is none. */
  function FindSub(s: string, p: string): (r: nat)
    requires p != ""
    ensures r <= |s|
    ensures r < |s| ==> r + |p| <= |s|
  {
    if s == "" || p <= s then 0 else 1 + FindSub(s[1..], p)
  }

  function TrimStart(k: CharClass, s: string): (r: string)
    ensures |r| <= |s|
    ensures r != "" ==> !Matches(k, r[0])
  {
    if s != "" && Matches(k, s[0]) then TrimStart(k, s[1..]) else s
  }

  function TrimEnd(k: CharClass, s: string): (r: string)
    ensures |r| <= |s|
    ensures r != "" ==> !Matches(k, r[|r| - 1])
  {
    if s != "" && Matches(k, s[|s| - 1]) then TrimEnd(k, s[..|s| - 1]) else s
  }

  lemma TrimStartIdle(k: CharClass, s: string)
    requires s != "" ==> !Matches(k, s[0])
    ensures TrimStart(k, s) == s
  {
  }

  lemma TrimEndIdle(k: CharClass, s: string)
    requires s != "" ==> !Matches(k, s[|s| - 1])
    ensures TrimEnd(k, s) == s
  {
  }

  /** What is cut off matches the class throughout. */
  lemma {:induction false} TrimStartCuts(k: CharClass, s: string)
    ensures var r := TrimStart(k, s); r == s[|s| - |r|..] && AllMatch(k, s[..|s| - |r|])
  {
    if s != "" && Matches(k, s[0]) {
      var t := s[1..];
      TrimStartCuts(k, t);
      var r := TrimStart(k, s);
      assert s[..|s| - |r|] == [s[0]] + t[..|t| - |r|];
    }
  }

  lemma {:induction false} TrimEndCuts(k: CharClass, s: string)
    ensures var r := TrimEnd(k, s); r == s[..|r|] && AllMatch(k, s[|r|..])
  {
    if s != "" && Matches(k, s[|s| - 1]) {
      var t := s[..|s| - 1];
      TrimEndCuts(k, t);
      var r := TrimEnd(k, s);
      assert s[|r|..] == t[|r|..] + [s[|s| - 1]];
    }
  }

  function Trim(s: string): string {
    TrimEnd(White, TrimStart(White, s))
  }

  function LowerChar(c: char): char {
    if 'A' <= c <= 'Z' then (c as int + 32) as char else c
  }

  function UpperChar(c: char): char {
    if 'a' <= c <= 'z' then (c as int - 32) as char else c
  }

  function Lower(s: string): (r: string)
    ensures |r| == |s| && forall i | 0 <= i < |s| :: r[i] == LowerChar(s[i])
  {
    seq(|s|, i requires 0 <= i < |s| => LowerChar(s[i]))
  }

  function Upper(s: string): (r: string)
    ensures |r| == |s| && forall i | 0 <= i < |s| :: r[i] == UpperChar(s[i])
  {
    seq(|s|, i requires 0 <= i < |s| => UpperChar(s[i]))
  }

  lemma LowerConcat(a: string, b: string)
    ensures Lower(a + b) == Lower(a) + Lower(b)
  {
  }

  predicate IsDigit(c: char) { '0' <= c <= '9' }

  predicate IsHex(c: char) { '0' <= c <= '9' || 'a' <= c <= 'f' || 'A' <= c <= 'F' }

  /** Bytes a character takes in UTF-8. */
  function Utf8Len(c: char): (n: nat)
    ensures 1 <= n <= 4
  {
    var v := c as int;
    if v < 0x80 then 1 else if v < 0x800 then 2 else if v < 0x10000 then 3 else 4
  }

  function ByteLen(s: string): (n: nat)
    ensures |s| <= n <= 4 * |s|
  {
    if s == "" then 0 else Utf8Len(s[0]) + ByteLen(s[1..])
  }

  lemma {:induction false} ByteLenConcat(a: string, b: string)
    ensures ByteLen(a + b) == ByteLen(a) + ByteLen(b)
  {
    if a == "" {
      assert a + b == b;
    } else {
      assert (a + b)[1..] == a[1..] + b;
      ByteLenConcat(a[1..], b);
    }
  }

  /** The pieces between separators; always at least one. */
  function Split(s: string, sep: char): (r: seq<string>)
    ensures |r| >= 1
    decreases |s|
  {
    var k := Find(Only(sep), s);
    if k == |s| then [s] else [s[..k]] + Split(s[k + 1..], sep)
  }

  lemma {:induction false} SplitFree(s: string, sep: char)
    ensures forall i | 0 <= i < |Split(s, sep)| :: Free(Only(sep), Split(s, sep)[i])
    decreases |s|
  {
    var k := Find(Only(sep), s);
    FindFirst(Only(sep), s);
    if k == |s| {
      assert s[..k] == s;
    } else {
      SplitFree(s[k + 1..], sep);
    }
  }

  function Join(parts: seq<string>, sep: char): string {
    if parts == [] then ""
    else if |parts| == 1 then parts[0]
    else parts[0] + [sep] + Join(parts[1..], sep)
  }

  /** Splitting loses nothing. */
  lemma {:induction false} JoinSplit(s: string, sep: char)
    ensures Join(Split(s, sep), sep) == s
    decreases |s|
  {
    var k := Find(Only(sep), s);
    if k < |s| {
      FindFirst(Only(sep), s);
      JoinSplit(s[k + 1..], sep);
      JoinCons(s[..k], Split(s[k + 1..], sep), sep);
      assert s == s[..k] + [sep] + s[k + 1..];
    }
  }

  lemma JoinCons(p: string, rest: seq<string>, sep: char)
    requires |rest| >= 1
    ensures Join([p] + rest, sep) == p + [sep] + Join(rest, sep)
  {
    assert ([p] + rest)[1..] == rest;
  }

  lemma SplitCons(p: string, s: string, sep: char)
    requires Free(Only(sep), p)
    ensures Split(p + [sep] + s, sep) == [p] + Split(s, sep)
  {
    var t := p + [sep] + s;
    assert t == p + ([sep] + s);
    FindSkip(Only(sep), p, [sep] + s);
    assert t[|p| + 1..] == s && t[..|p|] == p;
  }

  /** Joining separator-free pieces and splitting again gives the pieces back. */
  lemma {:induction false} SplitJoin(parts: seq<string>, sep: char)
    requires |parts| >= 1
    requires forall i | 0 <= i < |parts| :: Free(Only(sep), parts[i])
    ensures Split(Join(parts, sep), sep) == parts
  {
    if |parts| == 1 {
      SplitOne(parts[0], sep);
    } else {
      SplitJoin(parts[1..], sep);
      SplitCons(parts[0], Join(parts[1..], sep), sep);
      assert parts == [parts[0]] + parts[1..];
    }
  }

  lemma SplitOne(p: string, sep: char)
    requires Free(Only(sep), p)
    ensures Split(p, sep) == [p]
  {
    FindSkip(Only(sep), p, "");
    assert p + "" == p;
  }
}
