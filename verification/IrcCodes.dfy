/** mIRC control codes: the tokenizer, the style state machine, and what a coded text means. */
module IrcCodes {
  import opened Strings
  import opened Decimal

  // ---------- styles ----------

  /** `I2MState`; colours are `#RRGGBB` strings. */
  datatype Style = Style(
    bold: bool, italic: bool, underlined: bool, strike: bool, monospace: bool,
    fg: Option<string>, bg: Option<string>)

  const PLAIN: Style := Style(false, false, false, false, false, None, None)

  const BOLD: char := '\U{02}'
  const COLOR: char := '\U{03}'
  const HEXCOLOR: char := '\U{04}'
  const RESET: char := '\U{0F}'
  const MONO: char := '\U{11}'
  const ITALIC: char := '\U{1D}'
  const STRIKE: char := '\U{1E}'
  const UNDERLINE: char := '\U{1F}'

  predicate IsToggle(c: char) {
    c == BOLD || c == MONO || c == ITALIC || c == STRIKE || c == UNDERLINE || c == RESET
  }

  predicate IsCtrl(c: char) {
    IsToggle(c) || c == COLOR || c == HEXCOLOR
  }

  predicate NoCtrl(s: string) {
    forall i | 0 <= i < |s| :: !IsCtrl(s[i])
  }

  predicate AllDigits(s: string) { forall i | 0 <= i < |s| :: IsDigit(s[i]) }

  predicate AllHex(s: string) { forall i | 0 <= i < |s| :: IsHex(s[i]) }

  type Rgb = n: nat | n <= 0xFF_FFFF

  /** `COLOR2HEX`, as numbers. */
  const PALETTE: seq<Rgb> := [
    0xFFFFFF, 0x000000, 0x0000FF, 0x009300, 0xFF0000, 0x7F0000, 0x9C009C, 0xFC7F00,
    0xFFFF00, 0x00FC00, 0x009393, 0x00FFFF, 0x0080FF, 0xFF00FF, 0x7F7F7F, 0xD2D2D2,
    0x470000, 0x472100, 0x474700, 0x324700, 0x004700, 0x00472C, 0x004747, 0x002747,
    0x000047, 0x2E0047, 0x470047, 0x47002A, 0x740000, 0x743A00, 0x747400, 0x517400,
    0x007400, 0x007449, 0x007474, 0x004074, 0x000074, 0x4B0074, 0x740074, 0x740045,
    0xB50000, 0xB56300, 0xB5B500, 0x7DB500, 0x00B500, 0x00B571, 0x00B5B5, 0x0063B5,
    0x0000B5, 0x7500B5, 0xB500B5, 0xB5006B, 0xFF0000, 0xFF8C00, 0xFFFF00, 0xB2FF00,
    0x00FF00, 0x00FFA0, 0x00FFFF, 0x008CFF, 0x0000FF, 0xA500FF, 0xFF00FF, 0xFF0098,
    0xFF5959, 0xFFB459, 0xFFFF71, 0xCFFF60, 0x6FFF6F, 0x65FFC9, 0x6DFFFF, 0x59B4FF,
    0x5959FF, 0xC459FF, 0xFF66FF, 0xFF59BC, 0xFF9C9C, 0xFFD39C, 0xFFFF9C, 0xE2FF9C,
    0x9CFF9C, 0x9CFFDB, 0x9CFFFF, 0x9CD3FF, 0x9C9CFF, 0xDC9CFF, 0xFF9CFF, 0xFF94D3,
    0x000000, 0x131313, 0x282828, 0x363636, 0x4D4D4D, 0x656565, 0x818181, 0x9F9F9F,
    0xBCBCBC, 0xE2E2E2, 0xFFFFFF
  ]

  function HexDigit(d: nat): (c: char)
    requires d < 16
    ensures IsHex(c) && UpperChar(c) == c
  {
    if d < 10 then ('0' as int + d) as char else ('A' as int + d - 10) as char
  }

  /** The last `w` hexadecimal digits of `n`, upper case. */
  function HexDigits(n: nat, w: nat): (s: string)
    ensures |s| == w
    ensures forall i | 0 <= i < w :: IsHex(s[i]) && UpperChar(s[i]) == s[i]
  {
    if w == 0 then "" else HexDigits(n / 16, w - 1) + [HexDigit(n % 16)]
  }

  /** `color2hex`: 99 and everything above it is no colour. */
  function Color2Hex(n: nat): Option<string> {
    if n <= 98 then Some("#" + HexDigits(PALETTE[n], 6)) else None
  }

  function Pow16(w: nat): (p: nat)
    ensures p >= 1
  {
    if w == 0 then 1 else 16 * Pow16(w - 1)
  }

  lemma {:induction false} HexDigitsRead(n: nat, w: nat)
    requires n < Pow16(w)
    ensures Digits(HexDigits(n, w), 16) == Some(n)
  {
    if w > 0 {
      var s := HexDigits(n, w);
      HexDigitsRead(n / 16, w - 1);
      assert s[..|s| - 1] == HexDigits(n / 16, w - 1);
      assert DigitValue(HexDigit(n % 16), 16) == Some(n % 16);
    }
  }

  /** The colour of a number is `#` and six upper-case hex digits that read as its palette entry. */
  lemma PaletteReadsBack(n: nat)
    requires n <= 98
    ensures var c := Color2Hex(n);
      && c.Some? && |c.value| == 7 && c.value[0] == '#'
      && AllHex(c.value[1..]) && Upper(c.value[1..]) == c.value[1..]
      && ParseUnsigned(c.value[1..], 16, 0xFF_FFFF) == Some(PALETTE[n])
  {
    var h := HexDigits(PALETTE[n], 6);
    assert ("#" + h)[1..] == h;
    SixDigits();
    HexDigitsRead(PALETTE[n], 6);
    assert IsHex(h[0]);
  }

  lemma SixDigits()
    ensures Pow16(6) == 0x100_0000
  {
    assert Pow16(1) == 16 && Pow16(2) == 256 && Pow16(3) == 4096;
    assert Pow16(4) == 65_536 && Pow16(5) == 1_048_576;
  }

  // ---------- tokens ----------

  datatype Token = Txt(text: string) | Ctrl(code: string)

  /** How many of the first `max` characters are digits (hex digits), up to the first that is not. */
  function Leading(hex: bool, s: string, max: nat): (n: nat)
    ensures n <= |s| && n <= max
    ensures forall i | 0 <= i < n :: if hex then IsHex(s[i]) else IsDigit(s[i])
    ensures n < max && n < |s| ==> !(if hex then IsHex(s[n]) else IsDigit(s[n]))
  {
    if max == 0 || s == "" || !(if hex then IsHex(s[0]) else IsDigit(s[0])) then 0
    else 1 + Leading(hex, s[1..], max - 1)
  }

  function TwoDigits(s: string): string {
    if |s| == 1 then "0" + s else s
  }

  /** After `\x03`: the normalized specification and the number of characters read. */
  function DecimalSpec(s: string): (r: (string, nat))
    ensures r.1 <= |s|
  {
    var n := Leading(false, s, 2);
    if n == 0 then ("", 0)
    else if n < |s| && s[n] == ',' then
      var m := Leading(false, s[n + 1..], 2);
      (TwoDigits(s[..n]) + "," + TwoDigits(s[n + 1..n + 1 + m]), n + 1 + m)
    else (TwoDigits(s[..n]), n)
  }

  /** After `\x04`. Hex digits that make no full colour are read and dropped. */
  function HexSpec(s: string): (r: (string, nat))
    ensures r.1 <= |s|
  {
    var n := Leading(true, s, 6);
    if n < 6 then ("", n)
    else if 6 < |s| && s[6] == ',' then
      var m := Leading(true, s[7..], 6);
      if m == 6 then (s[..6] + "," + s[7..13], 13) else (s[..6], 7 + m)
    else (s[..6], 6)
  }

  /** The control code at the head of `s`: its normal form and its length in the input. */
  function CodeAt(s: string): (r: (string, nat))
    requires s != "" && IsCtrl(s[0])
    ensures 1 <= r.1 <= |s| && r.0 != ""
  {
    if s[0] == COLOR then var (spec, used) := DecimalSpec(s[1..]); ([COLOR] + spec, 1 + used)
    else if s[0] == HEXCOLOR then var (spec, used) := HexSpec(s[1..]); ([HEXCOLOR] + spec, 1 + used)
    else ([s[0]], 1)
  }

  /** Put text in front of a token list. */
  function WithText(t: string, tokens: seq<Token>): seq<Token> {
    if t == "" then tokens
    else if tokens != [] && tokens[0].Txt? then [Txt(t + tokens[0].text)] + tokens[1..]
    else [Txt(t)] + tokens
  }

  /** What `tokenize_irc` yields. */
  function Lex(s: string): seq<Token>
    decreases |s|
  {
    if s == "" then []
    else if IsCtrl(s[0]) then var (code, used) := CodeAt(s); [Ctrl(code)] + Lex(s[used..])
    else WithText([s[0]], Lex(s[1..]))
  }

  // ---------- the tokenizer itself ----------

  lemma WithTextTwice(a: string, b: string, tokens: seq<Token>)
    ensures WithText(a, WithText(b, tokens)) == WithText(a + b, tokens)
  {
    assert a == "" ==> a + b == b;
    assert b == "" ==> a + b == a;
    if tokens != [] && tokens[0].Txt? {
      Assoc(a, b, tokens[0].text);
    }
  }

  method TakeLeading(hex: bool, s: string, max: nat) returns (n: nat)
    ensures n == Leading(hex, s, max)
  {
    n := 0;
    while n < max && n < |s| && (if hex then IsHex(s[n]) else IsDigit(s[n]))
      invariant n <= max && n <= |s|
      invariant Leading(hex, s, max) == n + Leading(hex, s[n..], max - n)
    {
      assert s[n..][1..] == s[n + 1..];
      n := n + 1;
    }
  }

  method ReadDecimal(s: string) returns (spec: string, used: nat)
    ensures (spec, used) == DecimalSpec(s)
  {
    used := TakeLeading(false, s, 2);
    spec := s[..used];
    if used == 0 {
      spec := "";
    } else if used < |s| && s[used] == ',' {
      if |spec| == 1 {
        spec := "0" + spec;
      }
      spec := spec + ",";
      used := used + 1;
      var m := TakeLeading(false, s[used..], 2);
      var bg := s[used..used + m];
      used := used + m;
      if bg != "" {
        if |bg| == 1 {
          bg := "0" + bg;
        }
        spec := spec + bg;
      } else {
        assert spec + bg == spec;
      }
    } else if |spec| == 1 {
      spec := "0" + spec;
    }
  }

  method ReadHex(s: string) returns (spec: string, used: nat)
    ensures (spec, used) == HexSpec(s)
  {
    used := TakeLeading(true, s, 6);
    spec := "";
    if used == 6 {
      spec := s[..6];
      if used < |s| && s[used] == ',' {
        used := 7;
        var m := TakeLeading(true, s[7..], 6);
        used := used + m;
        if m == 6 {
          spec := spec + "," + s[7..13];
        }
      }
    }
  }

  /** The `push_text` closure: empty text is dropped, text after text is merged. */
  method PushText(tokens: seq<Token>, s: string) returns (r: seq<Token>)
    ensures tokens == [] || tokens[|tokens| - 1].Ctrl? ==> r == tokens + WithText(s, [])
    ensures tokens != [] && tokens[|tokens| - 1].Txt? ==>
      r == tokens[..|tokens| - 1] + [Txt(tokens[|tokens| - 1].text + s)]
  {
    if s == "" {
      assert tokens != [] && tokens[|tokens| - 1].Txt? ==>
        tokens[|tokens| - 1].text + s == tokens[|tokens| - 1].text;
      return tokens;
    }
    if tokens != [] && tokens[|tokens| - 1].Txt? {
      r := tokens[|tokens| - 1 := Txt(tokens[|tokens| - 1].text + s)];
    } else {
      r := tokens + [Txt(s)];
    }
  }

  /** Text waiting in `cur`, in front of an ordinary character and of a control code. */
  lemma CurText(cur: string, s: string)
    requires s != "" && !IsCtrl(s[0])
    ensures WithText(cur, Lex(s)) == WithText(cur + [s[0]], Lex(s[1..]))
  {
    WithTextTwice(cur, [s[0]], Lex(s[1..]));
  }

  lemma CurCode(cur: string, s: string)
    requires s != "" && IsCtrl(s[0])
    ensures WithText(cur, Lex(s)) == WithText(cur, []) + [Ctrl(CodeAt(s).0)] + Lex(s[CodeAt(s).1..])
  {
    hide CodeAt;
  }

  /** The loop of `tokenize_irc`. */
  method TokenizeIrc(text: string) returns (tokens: seq<Token>)
    ensures tokens == Lex(text)
  {
    hide WithText, CodeAt, IsCtrl;
    tokens := [];
    var cur := "";
    var i := 0;
    WithNoText(Lex(text));
    while i < |text|
      invariant i <= |text|
      invariant tokens != [] ==> tokens[|tokens| - 1].Ctrl?
      invariant Lex(text) == tokens + WithText(cur, Lex(text[i..]))
      decreases |text| - i
    {
      var rest := text[i..];
      if IsCtrl(rest[0]) {
        CurCode(cur, rest);
        var code, used := ReadCode(rest);
        Assoc(tokens, WithText(cur, []) + [Ctrl(code)], Lex(rest[used..]));
        Assoc(tokens, WithText(cur, []), [Ctrl(code)]);
        tokens := PushText(tokens, cur);
        tokens := tokens + [Ctrl(code)];
        cur := "";
        WithNoText(Lex(rest[used..]));
        Suffix(text, i, used);
        i := i + used;
      } else {
        CurText(cur, rest);
        cur := cur + [rest[0]];
        Suffix(text, i, 1);
        i := i + 1;
      }
    }
    tokens := PushText(tokens, cur);
  }

  lemma WithNoText(tokens: seq<Token>)
    ensures WithText("", tokens) == tokens
  {
  }

  method ReadCode(s: string) returns (code: string, used: nat)
    requires s != "" && IsCtrl(s[0])
    ensures (code, used) == CodeAt(s)
  {
    if s[0] == COLOR {
      var spec, n := ReadDecimal(s[1..]);
      code, used := [COLOR] + spec, 1 + n;
    } else if s[0] == HEXCOLOR {
      var spec, n := ReadHex(s[1..]);
      code, used := [HEXCOLOR] + spec, 1 + n;
    } else {
      code, used := [s[0]], 1;
    }
  }

  // ---------- meaning ----------

  /** `apply_ctrl`. */
  function ApplyCtrl(st: Style, code: string): Style {
    if code == "" then st
    else if code[0] == RESET then PLAIN
    else if code[0] == BOLD then st.(bold := !st.bold)
    else if code[0] == MONO then st.(monospace := !st.monospace)
    else if code[0] == ITALIC then st.(italic := !st.italic)
    else if code[0] == STRIKE then st.(strike := !st.strike)
    else if code[0] == UNDERLINE then st.(underlined := !st.underlined)
    else if code[0] == COLOR || code[0] == HEXCOLOR then
      var spec := code[1..];
      var k := Find(Only(','), spec);
      var fgs, bgs := spec[..k], if k < |spec| then spec[k + 1..] else "";
      if code[0] == COLOR then st.(fg := PaletteColor(fgs), bg := if bgs == "" then None else PaletteColor(bgs))
      else st.(fg := HexColor(fgs), bg := HexColor(bgs))
    else st
  }

  function PaletteColor(s: string): Option<string> {
    var n := ParseUnsigned(s, 10, 0xFFFF_FFFF_FFFF_FFFF);
    if n.Some? then Color2Hex(n.value) else None
  }

  function HexColor(s: string): Option<string> {
    if ByteLen(s) == 6 then Some("#" + s) else None
  }

  /** One visible character with its style. */
  datatype Cell = Cell(ch: char, style: Style)

  function Styled(t: string, st: Style): (r: seq<Cell>)
    ensures |r| == |t|
    ensures forall i | 0 <= i < |t| :: r[i] == Cell(t[i], st)
  {
    seq(|t|, i requires 0 <= i < |t| => Cell(t[i], st))
  }

  /** The meaning of a token list: its visible characters, each with the style in force. */
  function Interp(tokens: seq<Token>, st: Style): seq<Cell> {
    if tokens == [] then []
    else
      match tokens[0]
      case Txt(t) => Styled(t, st) + Interp(tokens[1..], st)
      case Ctrl(c) => Interp(tokens[1..], ApplyCtrl(st, c))
  }

  /** The style in force after a token list. */
  function EndStyle(tokens: seq<Token>, st: Style): Style {
    if tokens == [] then st
    else EndStyle(tokens[1..], if tokens[0].Ctrl? then ApplyCtrl(st, tokens[0].code) else st)
  }

  /** The meaning of an IRC text. */
  function Meaning(s: string): seq<Cell> {
    Interp(Lex(s), PLAIN)
  }

  lemma {:induction false} InterpConcat(a: seq<Token>, b: seq<Token>, st: Style)
    ensures Interp(a + b, st) == Interp(a, st) + Interp(b, EndStyle(a, st))
    ensures EndStyle(a + b, st) == EndStyle(b, EndStyle(a, st))
  {
    hide ApplyCtrl;
    if a == [] {
      assert a + b == b;
    } else {
      assert (a + b)[1..] == a[1..] + b;
      var st' := if a[0].Ctrl? then ApplyCtrl(st, a[0].code) else st;
      InterpConcat(a[1..], b, st');
      if a[0].Txt? {
        Assoc(Styled(a[0].text, st), Interp(a[1..], st), Interp(b, EndStyle(a[1..], st)));
      }
    }
  }
}
