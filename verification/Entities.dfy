/** The entity codec of `src/format/mod.rs`: `escape_html` and `decode_entities`. */
module Entities {
  import opened Strings
  import opened Decimal

  /** `str::replace` of one character by a string. */
  function Replace(s: string, c: char, sub: string): string {
    if s == "" then "" else (if s[0] == c then sub else [s[0]]) + Replace(s[1..], c, sub)
  }

  function EscapeHtml(s: string): string {
    Replace(Replace(Replace(s, '&', "&amp;"), '<', "&lt;"), '>', "&gt;")
  }

  function EscapeChar(c: char): (r: string)
    ensures r != ""
    ensures Free(Only('<'), r) && Free(Only('>'), r)
  {
    if c == '&' then "&amp;" else if c == '<' then "&lt;" else if c == '>' then "&gt;" else [c]
  }

  /** The three replacements, done one character at a time. */
  function Escape(s: string): (r: string)
    ensures |r| >= |s|
    ensures Free(Only('<'), r) && Free(Only('>'), r)
  {
    if s == "" then "" else EscapeChar(s[0]) + Escape(s[1..])
  }

  /** The character an entity name stands for. */
  function Named(ent: string): (r: Option<char>)
  {
    if ent == "amp" then Some('&')
    else if ent == "lt" then Some('<')
    else if ent == "gt" then Some('>')
    else if ent == "quot" then Some('"')
    else if ent == "apos" then Some('\'')
    else
      var code :=
        if "#x" <= ent && ParseUnsigned(ent[2..], 16, 0xFFFF_FFFF).Some? then ParseUnsigned(ent[2..], 16, 0xFFFF_FFFF)
        else if "#" <= ent then ParseUnsigned(ent[1..], 10, 0xFFFF_FFFF)
        else None;
      match code
      case Some(n) => if n < 0xD800 || 0xE000 <= n < 0x11_0000 then Some(n as char) else None
      case None => None
  }

  /** What an `&` at the head of `s` turns into, and how many characters that uses up.
      The window of 12 is counted in UTF-8 bytes from the `&`. */
  function Entity(s: string): (r: (string, nat))
    requires s != "" && s[0] == '&'
    ensures 1 <= r.1 <= |s|
  {
    var end := Find(Only(';'), s);
    if end == |s| || ByteLen(s[..end]) > 12 then ("&", 1)
    else
      match Named(s[1..end])
      case Some(c) => ([c], end + 1)
      case None => (s[..end + 1], end + 1)
  }

  /** What `decode_entities` yields. */
  function Decode(s: string): string {
    if s == "" then ""
    else if s[0] != '&' then [s[0]] + Decode(s[1..])
    else var (piece, used) := Entity(s); piece + Decode(s[used..])
  }

  /** Text without `&` passes through the decoder. */
  lemma {:induction false} DecodeSkip(a: string, rest: string)
    requires Free(Only('&'), a)
    ensures Decode(a + rest) == a + Decode(rest)
  {
    if a == "" {
      assert a + rest == rest;
    } else {
      assert (a + rest)[1..] == a[1..] + rest;
      assert !Matches(Only('&'), a[0]);
      DecodeSkip(a[1..], rest);
      assert a == [a[0]] + a[1..];
    }
  }

  lemma DecodePlain(s: string)
    requires Free(Only('&'), s)
    ensures Decode(s) == s
  {
    DecodeSkip(s, "");
    assert s + "" == s;
  }

  lemma NoneFound(c: char, s: string)
    requires Find(Only(c), s) == |s|
    ensures Free(Only(c), s)
  {
    FindFirst(Only(c), s);
    assert s[..|s|] == s;
  }

  /** The head of a string up to and over its first `&`. */
  lemma DecodeTurn(s: string, pos: nat, piece: string, used: nat)
    requires pos == Find(Only('&'), s) < |s| && s[pos] == '&'
    requires (piece, used) == Entity(s[pos..])
    ensures Decode(s) == (s[..pos] + piece) + Decode(s[pos..][used..])
  {
    var a, b := s[..pos], s[pos..];
    FindFirst(Only('&'), s);
    Glue(s, pos);
    DecodeSkip(a, b);
    Assoc(a, piece, Decode(b[used..]));
  }

  /** The loop of `decode_entities`. */
  method DecodeEntities(s: string) returns (out: string)
    ensures out == Decode(s)
  {
    var pos := Find(Only('&'), s);
    if pos == |s| {
      NoneFound('&', s);
      DecodePlain(s);
      return s;
    }
    out := "";
    var rest := s;
    while pos < |rest|
      invariant pos == Find(Only('&'), rest)
      invariant Decode(s) == out + Decode(rest)
      decreases |rest|
    {
      FindFirst(Only('&'), rest);
      var piece, used := DecodeOne(rest[pos..]);
      DecodeTurn(rest, pos, piece, used);
      Assoc(out, rest[..pos] + piece, Decode(rest[pos..][used..]));
      out := out + (rest[..pos] + piece);
      rest := rest[pos..][used..];
      pos := Find(Only('&'), rest);
    }
    NoneFound('&', rest);
    DecodePlain(rest);
    out := out + rest;
  }

  /** One turn of that loop, at an `&`. */
  method DecodeOne(rest: string) returns (piece: string, used: nat)
    requires rest != "" && rest[0] == '&'
    ensures (piece, used) == Entity(rest)
  {
    var end := Find(Only(';'), rest);
    if end == |rest| || ByteLen(rest[..end]) > 12 {
      return "&", 1;
    }
    var ent := rest[1..end];
    match Named(ent)
    case Some(c) => return [c], end + 1;
    case None => return rest[..end + 1], end + 1;
  }

  lemma {:induction false} ReplaceConcat(a: string, b: string, c: char, sub: string)
    ensures Replace(a + b, c, sub) == Replace(a, c, sub) + Replace(b, c, sub)
  {
    if a == "" {
      assert a + b == b;
    } else {
      assert (a + b)[1..] == a[1..] + b;
      ReplaceConcat(a[1..], b, c, sub);
    }
  }

  lemma ReplaceOne(c: char, d: char, sub: string)
    ensures Replace([c], d, sub) == if c == d then sub else [c]
  {
    assert Replace([c][1..], d, sub) == "";
  }

  /** One character through the three replacements. */
  lemma EscapeHtmlChar(c: char)
    ensures EscapeHtml([c]) == EscapeChar(c)
  {
    ReplaceOne(c, '&', "&amp;");
    if c == '&' {
      ReplaceIdle("&amp;", '<', "&lt;");
      ReplaceIdle("&amp;", '>', "&gt;");
    } else if c == '<' {
      ReplaceOne(c, '<', "&lt;");
      ReplaceIdle("&lt;", '>', "&gt;");
    } else {
      ReplaceIdle([c], '<', "&lt;");
      ReplaceOne(c, '>', "&gt;");
    }
  }

  lemma {:induction false} ReplaceIdle(s: string, c: char, sub: string)
    requires Free(Only(c), s)
    ensures Replace(s, c, sub) == s
  {
    if s != "" {
      assert !Matches(Only(c), s[0]);
      ReplaceIdle(s[1..], c, sub);
    }
  }

  /** The three sequential replacements are one character-wise map: replacing `&` first keeps
      the later replacements from touching what the first produced. */
  lemma {:induction false} EscapeIsMap(s: string)
    ensures EscapeHtml(s) == Escape(s)
  {
    if s != "" {
      var a, b := s[..1], s[1..];
      assert s == a + b && a == [s[0]];
      ReplaceConcat(a, b, '&', "&amp;");
      ReplaceConcat(Replace(a, '&', "&amp;"), Replace(b, '&', "&amp;"), '<', "&lt;");
      var a', b' := Replace(Replace(a, '&', "&amp;"), '<', "&lt;"), Replace(Replace(b, '&', "&amp;"), '<', "&lt;");
      ReplaceConcat(a', b', '>', "&gt;");
      EscapeHtmlChar(s[0]);
      EscapeIsMap(b);
    }
  }

  lemma {:induction false} EscapeConcat(a: string, b: string)
    ensures Escape(a + b) == Escape(a) + Escape(b)
  {
    if a == "" {
      assert a + b == b;
    } else {
      assert (a + b)[1..] == a[1..] + b;
      EscapeConcat(a[1..], b);
    }
  }

  lemma {:induction false} AsciiBytes(s: string)
    requires forall i | 0 <= i < |s| :: Utf8Len(s[i]) == 1
    ensures ByteLen(s) == |s|
  {
    if s != "" { AsciiBytes(s[1..]); }
  }

  /** An entity written out in full stays inside the window and is decoded, whatever follows it. */
  lemma EntityInFull(ent: string, rest: string)
    requires |ent| <= 11 && Free(Only(';'), ent) && Named(ent).Some?
    requires forall i | 0 <= i < |ent| :: Utf8Len(ent[i]) == 1
    ensures Entity("&" + ent + ";" + rest) == ([Named(ent).value], |ent| + 2)
  {
    var s := "&" + ent + ";" + rest;
    FindSkip(Only(';'), "&" + ent, ";" + rest);
    assert s == ("&" + ent) + (";" + rest);
    var end := 1 + |ent|;
    assert s[..end] == "&" + ent;
    AsciiBytes("&" + ent);
    assert s[1..end] == ent;
  }

  lemma DecodeEscapedChar(c: char, rest: string)
    ensures Decode(EscapeChar(c) + rest) == [c] + Decode(rest)
  {
    if c in "&<>" {
      var ent := if c == '&' then "amp" else if c == '<' then "lt" else "gt";
      var s := "&" + ent + ";" + rest;
      EntityInFull(ent, rest);
      assert EscapeChar(c) + rest == s;
      assert s[|ent| + 2..] == rest;
    } else {
      DecodeSkip([c], rest);
    }
  }

  /** Decoding undoes escaping, for every string. */
  lemma {:induction false} DecodeEscape(s: string)
    ensures Decode(Escape(s)) == s
  {
    if s != "" {
      DecodeEscape(s[1..]);
      DecodeEscapedChar(s[0], Escape(s[1..]));
    }
  }

  /** The codec round trip, stated of the source's own `escape_html`. */
  lemma DecodeEscapeHtml(s: string)
    ensures Decode(EscapeHtml(s)) == s
  {
    EscapeIsMap(s);
    DecodeEscape(s);
  }

  /** Three characters are written as entities, and all others as they are. */
  lemma EscapedSigns(a: string, b: string)
    ensures EscapeHtml(a + ("&" + b)) == EscapeHtml(a) + ("&amp;" + EscapeHtml(b))
    ensures EscapeHtml(a + ("<" + b)) == EscapeHtml(a) + ("&lt;" + EscapeHtml(b))
    ensures EscapeHtml(a + (">" + b)) == EscapeHtml(a) + ("&gt;" + EscapeHtml(b))
    ensures '&' !in a && '<' !in a && '>' !in a ==> EscapeHtml(a) == a
  {
    hide Replace, EscapeHtml, Escape;
    EscapedSign(a, '&', b);
    EscapedSign(a, '<', b);
    EscapedSign(a, '>', b);
    if '&' !in a && '<' !in a && '>' !in a {
      NothingEscaped(a);
    }
  }

  lemma EscapedSign(a: string, c: char, b: string)
    ensures EscapeHtml(a + ([c] + b)) == EscapeHtml(a) + (EscapeChar(c) + EscapeHtml(b))
  {
    hide Replace, EscapeHtml, EscapeChar;
    EscapeIsMap(a);
    EscapeIsMap(b);
    EscapeIsMap(a + ([c] + b));
    EscapeConcat(a, [c] + b);
    assert ([c] + b)[1..] == b;
  }

  lemma NothingEscaped(a: string)
    requires '&' !in a && '<' !in a && '>' !in a
    ensures EscapeHtml(a) == a
  {
    hide Replace;
    ReplaceIdle(a, '&', "&amp;");
    ReplaceIdle(a, '<', "&lt;");
    ReplaceIdle(a, '>', "&gt;");
  }

  // ---------- the entities ----------

  lemma DecodeWritten(ent: string, rest: string)
    requires |ent| <= 11 && Free(Only(';'), ent) && Named(ent).Some?
    requires forall i | 0 <= i < |ent| :: Utf8Len(ent[i]) == 1
    ensures Decode("&" + ent + ";" + rest) == [Named(ent).value] + Decode(rest)
  {
    hide Named, Entity;
    EntityInFull(ent, rest);
    var s := "&" + ent + ";" + rest;
    assert s[|ent| + 2..] == rest;
  }

  /** The five names. */
  lemma NamedEntities(rest: string)
    ensures Decode("&amp;" + rest) == "&" + Decode(rest)
    ensures Decode("&lt;" + rest) == "<" + Decode(rest)
    ensures Decode("&gt;" + rest) == ">" + Decode(rest)
  {
    hide Decode;
    DecodeWritten("amp", rest);
    DecodeWritten("lt", rest);
    DecodeWritten("gt", rest);
    assert "&" + "amp" + ";" == "&amp;" && "&" + "lt" + ";" == "&lt;" && "&" + "gt" + ";" == "&gt;";
  }

  lemma QuoteEntities(rest: string)
    ensures Decode("&quot;" + rest) == "\"" + Decode(rest)
    ensures Decode("&apos;" + rest) == "'" + Decode(rest)
  {
    hide Decode;
    QuoteNames();
    DecodeWritten("quot", rest);
    DecodeWritten("apos", rest);
    assert "&" + "quot" + ";" == "&quot;" && "&" + "apos" + ";" == "&apos;";
  }

  lemma QuoteNames()
    ensures Named("quot") == Some('"') && Named("apos") == Some('\'')
  {
    assert "quot"[0] == 'q' && "apos"[1] == 'p';
  }

  /** Numbers that are characters. */
  predicate IsScalar(n: nat) { n < 0xD800 || 0xE000 <= n < 0x11_0000 }

  lemma NamedNumber(ent: string)
    requires ent != "" && ent[0] == '#'
    ensures var hex := if "#x" <= ent then ParseUnsigned(ent[2..], 16, 0xFFFF_FFFF) else None;
      var code := if hex.Some? then hex else ParseUnsigned(ent[1..], 10, 0xFFFF_FFFF);
      Named(ent) == if code.Some? && IsScalar(code.value) then Some(code.value as char) else None
  {
  }

  /** A decimal reference to a character is that character, and one to anything else stands as it is. */
  lemma DecimalEntity(n: nat, rest: string)
    ensures IsScalar(n) ==> Decode("&" + ("#" + Print(n)) + ";" + rest) == [n as char] + Decode(rest)
    ensures !IsScalar(n) ==>
      Decode("&" + ("#" + Print(n)) + ";" + rest) == "&" + ("#" + Print(n)) + ";" + Decode(rest)
  {
    hide Named, Decode, Digits, Entity;
    var ent := "#" + Print(n);
    assert ent[1..] == Print(n);
    DigitsPrint(n);
    NamedNumber(ent);
    NumberShape(n);
    if IsScalar(n) {
      NumberWidth(n);
      DecodeWritten(ent, rest);
    } else {
      DecodeUnknown(ent, rest);
    }
  }

  lemma NumberShape(n: nat)
    ensures var ent := "#" + Print(n);
      && Free(Only(';'), ent) && Free(Only('&'), ent) && !("#x" <= ent)
      && ParseUnsigned(Print(n), 10, 0xFFFF_FFFF) == (if n <= 0xFFFF_FFFF then Some(n) else None)
      && forall i | 0 <= i < |ent| :: Utf8Len(ent[i]) == 1
  {
    DigitsPrint(n);
    var ent := "#" + Print(n);
    assert IsDigit(Print(n)[0]) && ent[1] == Print(n)[0];
    forall i | 0 <= i < |ent|
      ensures ent[i] != ';' && ent[i] != '&' && Utf8Len(ent[i]) == 1
    {
      assert i > 0 ==> IsDigit(Print(n)[i - 1]);
    }
  }

  lemma NumberWidth(n: nat)
    requires n < 0x11_0000
    ensures |Print(n)| <= 7
  {
    assert Pow10(1) == 10 && Pow10(2) == 100 && Pow10(3) == 1000 && Pow10(4) == 10_000;
    assert Pow10(5) == 100_000 && Pow10(6) == 1_000_000 && Pow10(7) == 10_000_000;
    PrintLength(n, 7);
  }

  /** What is no entity is left as it is written, inside the window and beyond it. */
  lemma DecodeUnknown(ent: string, rest: string)
    requires Free(Only(';'), ent) && Free(Only('&'), ent) && Named(ent).None?
    ensures Decode("&" + ent + ";" + rest) == "&" + ent + ";" + Decode(rest)
  {
    hide Named, Decode;
    var s := "&" + ent + ";" + rest;
    DecodeSkip(";", rest);
    DecodeSkip(ent, ";" + rest);
    UnknownPiece(ent, rest);
    if Entity(s).1 == 1 {
      assert s[1..] == ent + (";" + rest);
      assert "&" + (ent + (";" + Decode(rest))) == "&" + ent + ";" + Decode(rest);
    } else {
      assert s[|ent| + 2..] == rest;
    }
    DecodeHead(s);
  }

  lemma DecodeHead(s: string)
    requires s != "" && s[0] == '&'
    ensures Decode(s) == Entity(s).0 + Decode(s[Entity(s).1..])
  {
    hide Entity;
  }

  lemma UnknownPiece(ent: string, rest: string)
    requires Free(Only(';'), ent) && Named(ent).None?
    ensures var s := "&" + ent + ";" + rest;
      Entity(s) == ("&", 1) || Entity(s) == ("&" + ent + ";", |ent| + 2)
  {
    hide Named;
    var s := "&" + ent + ";" + rest;
    FindSkip(Only(';'), "&" + ent, ";" + rest);
    assert s == ("&" + ent) + (";" + rest);
    assert s[1..1 + |ent|] == ent && s[..|ent| + 2] == "&" + ent + ";";
  }

  /** The same for a hexadecimal reference of up to nine digits. */
  lemma HexEntity(h: string, n: nat, rest: string)
    requires 0 < |h| <= 9 && (forall i | 0 <= i < |h| :: IsHex(h[i])) && Digits(h, 16) == Some(n)
    ensures IsScalar(n) ==> Decode("&" + ("#x" + h) + ";" + rest) == [n as char] + Decode(rest)
    ensures !IsScalar(n) ==> Decode("&" + ("#x" + h) + ";" + rest) == "&" + ("#x" + h) + ";" + Decode(rest)
  {
    hide Named, Decode, Digits, Entity;
    var ent := "#x" + h;
    assert ent[2..] == h && "#x" <= ent;
    HexShape(h);
    assert h[0] != '+' by { assert IsHex(h[0]); }
    NamedNumber(ent);
    if IsScalar(n) {
      DecodeWritten(ent, rest);
    } else {
      DecodeUnknown(ent, rest);
    }
  }

  lemma HexShape(h: string)
    requires forall i | 0 <= i < |h| :: IsHex(h[i])
    ensures var ent := "#x" + h;
      && Free(Only(';'), ent) && Free(Only('&'), ent)
      && ParseUnsigned(ent[1..], 10, 0xFFFF_FFFF) == None
      && forall i | 0 <= i < |ent| :: Utf8Len(ent[i]) == 1
  {
    var ent := "#x" + h;
    forall i | 0 <= i < |ent|
      ensures ent[i] != ';' && ent[i] != '&' && Utf8Len(ent[i]) == 1
    {
      assert i > 1 ==> IsHex(h[i - 2]);
    }
    assert ent[1..] == "x" + h;
    NoLetter("x" + h);
  }

  lemma {:induction false} NoLetter(s: string)
    requires s != "" && s[0] == 'x'
    ensures Digits(s, 10) == None
  {
    if |s| > 1 {
      NoLetter(s[..|s| - 1]);
    }
  }

  /** An entity that does not end within twelve bytes of its `&` is none, and the `&` stands for itself. */
  lemma LongEntity(ent: string, rest: string)
    requires Free(Only(';'), ent)
    ensures ByteLen(ent) > 11 ==> Decode("&" + ent + ";" + rest) == "&" + Decode(ent + ";" + rest)
    ensures Decode("&" + ent) == "&" + Decode(ent)
  {
    hide Named;
    var s := "&" + ent + ";" + rest;
    FindSkip(Only(';'), "&" + ent, ";" + rest);
    FindSkip(Only(';'), "&" + ent, "");
    assert s == ("&" + ent) + (";" + rest) && ("&" + ent) + "" == "&" + ent;
    assert s[..1 + |ent|] == "&" + ent && s[1..] == ent + ";" + rest && ("&" + ent)[1..] == ent;
    ByteLenConcat("&", ent);
    assert ByteLen("&") == 1 by { AsciiBytes("&"); }
  }
}
