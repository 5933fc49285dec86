# matrix2078, verified

matrix2078 is a gateway that lets IRC clients use Matrix rooms. This project models the algorithms
inside it and proves what they are for. Where the code does not keep a promise on all inputs, the
project says exactly on which inputs it does.

Code that loops and updates is written as methods and classes, each proved equal to a function of its
inputs or of its old state; the theorems are about those functions. `dafny verify dfyconfig.toml`
checks everything.

## The clusters

**Formatting** (`src/format/mod.rs`). IRC control codes and Matrix HTML are given one common meaning: a
sequence of characters, each with bold, italic, underline, strike, monospace, foreground and background
(`IrcCodes.Cell`). `IrcCodes.Meaning` reads it off a coded text with the tokenizer and the style machine;
`HtmlMeaning.Flatten` reads it off an HTML tree as the styles of a character's ancestors: a style tag switches
its style on, and a font changes the colours it sets and inherits the others. Both compilers are proved
against these two. Linking is modelled as it is done; the results about the meaning of HTML made from IRC are for
link-free texts, which hold neither `mailto:` nor `://`, with an empty nick list (`Links.LinkFree`).

- `Entities`, `Html`, `MarkupLaw`, `NestingLaw`, `HtmlText`, `HtmlPrint`: the entity codec, the tolerant parser,
  how it reads tags, attributes and comments, what it makes of bad nesting, that it keeps all text on any input,
  and that it reads every printed tree back.
- `IrcCodes`, `IrcCanon`: the tokenizer, its normal forms, and when printing tokens loses something.
- `Links`, `UrlLaw`, `LinkLaw`: the URL and user id passes, what the two expressions match, and that linking URLs
  changes no text.
- `HtmlToIrc`, `HtmlMeaning`, `ControlLaw`, `CommaLaw`, `HtmlToIrcLaw`: HTML to control codes preserves meaning, exactly when.
  The conditions are on the tree alone. `TagLaw` says in plain characters what every tag is sent as.
- `IrcToHtml`, `IrcToHtmlLaw`, `PlainBodyLaw`: control codes to HTML preserves meaning for every link-free
  text; the plain body and when HTML is dropped. `CodeLaw` says in plain characters what every code becomes.
- `FormatRoundTrip`: IRC to HTML to IRC, exactly when, for every link-free text.

**Calendar** (`Calendar`, `IsoTime`). Milliseconds to civil date to text and back for every `u64`, and the
ordering claim of section 5.1 of RFC 3339 with its sharp bound.

**Connection** (`Multiline`, `MultilineLaw`, `MultilineRoundTrip`, `Writer`). The incoming `draft/multiline`
batches over any interleaving, the outgoing batches and their round trip, and the two-lane writer with
its keepalive.

**Rooms** (`Rooms`, `RoomsLaw`). The room to channel map over any run of its operations, with the file it
saves.

**Bodies and history** (`LineWrap`, `LineWrapLaw`, `History`). Word wrapping on byte offsets, and the paged
backward walk against a take-and-filter specification.

**Verification flows** (`Verification`, `VerificationLaw`). The registry and its driver, which works on a
snapshot, interleaved step by step with registrations and with requests that move on their own.

`Strings` and `Decimal` hold the searches, trims, case maps and number formats the rest is written with.

## What the proofs found

Each is a lemma at inputs the code accepts; the rows of the model table give the exact conditions.

- A foreground-only colour directly followed by a comma loses the comma: when tokens are printed
  (`IrcCanon.SecondCommaUnstable`) and on the way through HTML (`FormatRoundTrip.CommaIsEaten`).
- A background without a foreground does not survive HTML to IRC, whatever its colour
  (`FormatRoundTrip.BareBackgroundStays`).
- Everything behind a `<br>` that is not written as `<br/>` is lost: `parse_html` puts it inside the `br`, and
  `transform_m2i` drops the children of a `br`. Of `a<br>b` only `a` is sent
  (`HtmlToIrcLaw.UnclosedBreakLosesRest`).
- A control code in an HTML text is obeyed by the receiver and not shown (`ControlLaw.ControlLoss`).
- A font that sets only a foreground, inside one that sets both colours, loses the background it inherits:
  `<font data-mx-color="#FF0000" data-mx-bg-color="#00FF00">a<font data-mx-color="#0000FF">b</font></font>`
  shows `b` without one (`HtmlToIrcLaw.InnerFontLosesGround`).
- A style tag inside a tag of the same style switches the style off (`HtmlToIrcLaw.DoubledTagIsPlain`).
- A styled text with a carriage return does not come back from HTML unchanged
  (`FormatRoundTrip.CarriageReturnIsLost`).
- `wrap_body` promises lines of at most 400 characters; a word over 400 characters that comes up while an
  output line is in progress goes out whole (`LineWrapLaw.OverlongSecondWord`).
- Refreshing a query does not look for a free nick, so two rooms of one nick, kept apart when they are mapped,
  collide on the first refresh (`RoomsLaw.RefreshedQueryCollides`).
- Sanitizing a name twice can change it again: the cut at 32 characters is made after trimming
  (`RoomsLaw.SanitizedAgainIsShorter`).
- A connection can be closed with no PING before it when ticks are more than 390 seconds apart
  (`Writer.LateTickClosesUnpinged`).
- From the first time of year 10000 on, not all pairs of times sort as text (`IsoTime.OrderedBelowIff`).
- A topic edit is not saved, and turning a room into a query, or changing its nick, is not saved when the topic
  stays (`RoomsLaw.FileIsCurrentIff`, `RoomsLaw.QueryTurnUnsaved`).

## Model

| member | source | states |
|---|---|---|
| Entities.DecodeEntities | src/format/mod.rs:23-59 | the decoding loop computes the recursive decoder on every string, runaway `&` and unknown entities included |
| Entities.EscapeIsMap | src/format/mod.rs:653-655 | the three sequential replacements of escape_html equal one character-wise map: no replacement touches another's output |
| Entities.EntityInFull | src/format/mod.rs:33-48 | an entity written out in full lies within the 12-byte window and is decoded, whatever follows it |
| Entities.EscapedSigns | src/format/mod.rs:653-655 | `&`, `<` and `>` are written `&amp;`, `&lt;` and `&gt;` wherever they stand, and text without them as it is |
| Entities.DecodeEscapeHtml | src/format/mod.rs:23-59 | decoding undoes escape_html for every string |
| Entities.NamedEntities | src/format/mod.rs:39-45 | `&amp;`, `&lt;` and `&gt;` in front of any text decode to their characters |
| Entities.QuoteEntities | src/format/mod.rs:39-45 | `&quot;` and `&apos;` decode to the double and the single quote |
| Entities.DecimalEntity | src/format/mod.rs:45-54 | a decimal reference decodes to the character of that number, and stays as it is written exactly when there is none |
| Entities.HexEntity | src/format/mod.rs:45-54 | the same for hexadecimal references of up to nine digits |
| Entities.LongEntity | src/format/mod.rs:29-37 | an `&` with no `;` within twelve bytes stands for itself |
| Html.ParseAttributes | src/format/mod.rs:89-117 | the attribute loop yields the attributes in order: names lower-cased, values decoded, quoted or bare or missing, nameless ones dropped |
| Html.ParseHtml | src/format/mod.rs:122-210 | the parser loop terminates on any input and builds the tree of the reference consumer |
| Html.TakeTag | src/format/mod.rs:164-200 | a closing tag pops every open element down to the innermost one of its name and is ignored when there is none |
| NestingLaw.LastNamedIff | src/format/mod.rs:166-168 | the position found holds the innermost open element of the name, and none is found exactly when no open element has it |
| NestingLaw.CloseFolds | src/format/mod.rs:169-186 | closing down to a position leaves the elements below it as they are and hands them one element with all those above folded into it, in order |
| NestingLaw.ClosingTag | src/format/mod.rs:166-186 | a closing tag does that to the innermost element of its name, and nothing when no open element has it |
| NestingLaw.EndCloses | src/format/mod.rs:201-210 | at the end of any input, everything still open is folded into one last element |
| NestingLaw.MisnestedParse | src/format/mod.rs:157-200 | for any two names and plain texts, an element opened inside another and closed behind it ends with the outer one, and the texts behind stand outside of both |
| NestingLaw.BreakInBold | src/format/mod.rs:166-186 | the text behind `</b>` stands outside of a `<br>` that was left open inside the `b` |
| MarkupLaw.QuotedAttr | src/format/mod.rs:89-117 | a quoted value runs to the next quote with any blanks around the `=`; name in lower case, value decoded |
| MarkupLaw.UnquotedAttr | src/format/mod.rs:89-117 | an unquoted value runs to the next blank |
| MarkupLaw.BareAttr | src/format/mod.rs:89-117 | a name without a value has the empty one |
| MarkupLaw.NamelessAttr | src/format/mod.rs:89-117 | a value without a name is dropped |
| MarkupLaw.TagKinds | src/format/mod.rs:157-165 | a tag opens, closes or does both by where its slash is, and its name is read in lower case |
| MarkupLaw.TagWithAttrs | src/format/mod.rs:157-165 | what stands behind the name are its attributes, with or without a slash at the end |
| MarkupLaw.CommentRead | src/format/mod.rs:141-155 | a comment reaches to the first `-->` and becomes one node |
| MarkupLaw.UnfinishedTag | src/format/mod.rs:157 | a tag that never ends is dropped with everything behind it and the text before it is kept |
| HtmlText.ParseKeepsText | src/format/mod.rs:122-210 | on any tag soup the text of the tree, in document order, is the decoded text outside tags and comments up to the first unterminated one |
| HtmlText.ConsumeBuilt | src/format/mod.rs:122-210 | the loop invariant behind it: finished text, then the text of each open element, then pending text, then what the input still holds |
| HtmlPrint.ParsePrint | src/format/mod.rs:122-210 | parsing a printed tree gives the tree back up to merging neighbouring texts: names, attributes, nesting, order and all text survive |
| IrcCodes.TokenizeIrc | src/format/mod.rs:476-577 | the tokenizer loop computes the recursive lexer on every text |
| IrcCodes.PushText | src/format/mod.rs:478-490 | empty text is dropped and text after text is merged |
| IrcCodes.PaletteReadsBack | src/format/mod.rs:405-443 | the colour of each number up to 98 is `#` and six upper-case hex digits that read back as its palette entry |
| IrcCodes.InterpConcat | src/format/mod.rs:580-631 | meaning is compositional: running two token lists in a row shows the first, then the second from the style the first left |
| IrcCanon.LexIsCanon | src/format/mod.rs:476-577 | every token list the tokenizer makes is canonical: texts non-empty, control-free and never adjacent, every colour in normal form |
| IrcCanon.LexPrintIff | src/format/mod.rs:476-577 | printing canonical tokens and tokenizing again is the identity exactly when no code runs into the text behind it |
| IrcCanon.LexLoss | src/format/mod.rs:476-577 | printing and tokenizing never gains visible text, and loses some whenever a code runs into its text |
| IrcCanon.LexStableIff | src/format/mod.rs:476-577 | for every text, tokenize-print-tokenize is stable exactly when no foreground-only hex colour is followed by text starting with a comma |
| IrcCanon.SecondCommaUnstable | src/format/mod.rs:540-571 | that exception occurs, with every hex colour |
| IrcCanon.LexAppend | src/format/mod.rs:476-577 | text that no code could read into can be appended without changing what came before |
| HtmlToIrc.NormColorIff | src/format/mod.rs:245-252 | an attribute yields a colour exactly when it is six hex digits with nothing but `#` before them, and then those digits in upper case |
| HtmlToIrc.CollapseParagraphs | src/format/mod.rs:338-367 | the nested loop over runs of paragraphs computes the one-pass collapse |
| HtmlToIrc.ParagraphsByLevel | src/format/mod.rs:338-367 | collapsing all levels at once gives the tree that collapsing each level in turn gives |
| HtmlToIrc.TransformByLevel | src/format/mod.rs:258-334 | and the text written from it is the text the recursion writes that collapses each level as it reaches it |
| HtmlMeaning.EmitElement | src/format/mod.rs:258-334 | an element is written as its opening code, its children and its closing code, with the colours outside restored |
| HtmlMeaning.PiecesPrintNode | src/format/mod.rs:258-334 | the emitted text is the print of a list of texts and codes |
| HtmlMeaning.PiecesRunNode | src/format/mod.rs:258-334 | running a subtree's codes shows its characters in the sent styles and ends in the style it started from |
| HtmlToIrcLaw.SubtreeRestores | src/format/mod.rs:258-334 | the text of any subtree, in any context and read back in any style that agrees with it, ends in the style it started from, unless a comma in it is read into a colour |
| HtmlToIrcLaw.SqueezeFacts | src/format/mod.rs:258-275 | newline squeezing never lengthens, leaves no line break and is the identity exactly on text without any |
| CommaLaw.UngluedIff | src/format/mod.rs:234-242 | no emitted code runs into the text behind it exactly when the tree has no text starting with a comma directly behind a colour of which one half is missing |
| ControlLaw.PiecesTexts | src/format/mod.rs:258-275 | a control code reaches the emitted text exactly when some transformed text of the tree holds one |
| ControlLaw.ControlLoss | src/format/mod.rs:476-577 | emitted text with a control code of its own is read back with strictly fewer visible characters, however the code is read |
| HtmlToIrcLaw.EmittedMeaning | src/format/mod.rs:258-334 | the emitted text read back, in any context, shows exactly the sent characters and restores the style, or shows strictly fewer; the tree decides which |
| HtmlToIrcLaw.HtmlToIrcPreservesIff | src/format/mod.rs:258-334 | HTML to IRC shows every character outside quoted replies with the styles of its ancestors, exactly when no text holds a control code, no text starts with a comma directly behind a half-set colour, no style is open an even number of times around a character, wherever a background is in force the innermost coloured font sets both colours, no line break is squeezed, and no `br` encloses anything visible |
| HtmlToIrcLaw.MatrixToIrcPreservesIff | src/format/mod.rs:384-390 | the same for a whole document, with the blanks that are trimmed off put back |
| HtmlToIrcLaw.UnclosedBreakLosesRest | src/format/mod.rs:295 | of two plain texts with `<br>` between them the document holds both, only the first is sent, and the meaning changes |
| HtmlToIrcLaw.InnerFontLosesGround | src/format/mod.rs:305-318 | a text in a foreground-only font inside a font of both colours means both and is shown without the background |
| HtmlToIrcLaw.DoubledTagIsPlain | src/format/mod.rs:319-331 | a text in two tags of the same style means that style and is shown plain |
| TagLaw.ParseElement | src/format/mod.rs:122-210 | an element around plain text, with any plain attributes, is parsed to that element |
| TagLaw.BoldTags | src/format/mod.rs:218 | every one-line text in `strong` or `b` is sent between two codes 02 |
| TagLaw.ItalicTags | src/format/mod.rs:220 | in `em` or `i` between two codes 1D |
| TagLaw.UnderlineTag | src/format/mod.rs:222 | in `u` between two codes 1F |
| TagLaw.StrikeTags | src/format/mod.rs:221 | in `del`, `strike` or `s` between two codes 1E |
| TagLaw.MonoTags | src/format/mod.rs:219 | any text in `pre` or `code` is sent between two codes 11; `pre` keeps its line breaks |
| TagLaw.ListTags | src/format/mod.rs:296-304 | lists start with a line break, items with an asterisk and a blank, and end with a line break |
| TagLaw.OtherTags | src/format/mod.rs:277-318 | `br` is a line break; `font` and `span` without colours and `a` without a target are their text |
| TagLaw.ReplyTag | src/format/mod.rs:276 | a quoted reply is not sent |
| TagLaw.ParagraphTag | src/format/mod.rs:338-367 | one paragraph is its text |
| TagLaw.ParagraphsJoined | src/format/mod.rs:338-367 | any number of paragraphs in a row are sent a line each |
| TagLaw.UnknownTag | src/format/mod.rs:319-331 | any name but these is transparent |
| TagLaw.AnchorTag | src/format/mod.rs:277-294 | a link is sent as the permalink's identifier, else as its text, with the URL in angle brackets unless it is the text |
| TagLaw.BreaksSqueezed | src/format/mod.rs:265-275 | a run of line breaks, with a blank before it or one inside it, is sent as one blank |
| TagLaw.ForegroundCode | src/format/mod.rs:234-242 | a foreground is sent as code 04 and its digits in upper case, and taken back by 03 and 99,99 |
| TagLaw.BothColorsCode | src/format/mod.rs:234-242 | with a background, both are sent behind 04 with a comma between them |
| TagLaw.BackgroundCode | src/format/mod.rs:234-242 | a background alone is sent over black, and 03 with 99 behind it |
| Links.LinkLine | src/format/mod.rs:694-704 | the loop over a line's URLs links the leftmost matches, closing punctuation outside, and escapes the rest |
| Links.LinkMentions | src/format/mod.rs:705-726 | the loop over the user ids in the HTML links those on the nick list and keeps the others |
| Links.NoNicksNoMention | src/format/mod.rs:705-726 | with an empty nick list the second pass changes nothing |
| Links.LinkFreeEscapes | src/format/mod.rs:694-704 | a link-free line is only escaped |
| LinkLaw.LinksKeepText | src/format/mod.rs:694-704 | whatever URLs a line holds, the document of the linked line holds exactly the line's text |
| UrlLaw.UrlAtIff | src/format/mod.rs:682-684 | a URL of a given length starts a text exactly when its characters match the URL expression and the next one is a blank or the end |
| UrlLaw.AnchorIs | src/format/mod.rs:697-702 | a URL becomes a link to itself, and any closing brackets, dots and commas at its end stay behind the link |
| UrlLaw.FirstUrl | src/format/mod.rs:694-704 | what stands before the first URL of a line is escaped, the URL is linked, and the rest is treated alike |
| UrlLaw.UserIdIff | src/format/mod.rs:685-687 | a user id of a given length starts a text exactly when its characters match the user id expression and the next one does not |
| UrlLaw.MentionIs | src/format/mod.rs:710-724 | a member's user id, with or without its sigil, becomes its permalink under its local part; any other stays as it is |
| UrlLaw.FirstUserId | src/format/mod.rs:705-726 | what stands before the first user id is kept, the id is looked up, and the rest is treated alike |
| IrcToHtml.Linkify | src/format/mod.rs:678-730 | the line loop links each line and puts a break between lines |
| IrcToHtml.LexLinkFree | src/format/mod.rs:764-769 | the runs of a link-free text are link-free: no link reaches over a control code |
| IrcToHtml.IrcToMatrix | src/format/mod.rs:742-783 | the conversion loop computes plain body and HTML body, and drops HTML that equals the escaped plain body |
| IrcToHtml.LinkFreeMessage | src/format/mod.rs:742-783 | linking leaves the HTML body of a link-free text alone |
| IrcToHtmlLaw.FlattenMarks | src/format/mod.rs:657-676 | the tags wrap_html puts around a text paint exactly the styles that are on |
| IrcToHtmlLaw.HtmlBodyDocument | src/format/mod.rs:742-783 | the HTML body of a link-free text is parsed to the tree it was printed from |
| IrcToHtmlLaw.IrcToHtmlPreserves | src/format/mod.rs:742-783 | for every link-free text, parsing the HTML body and flattening it gives the meaning of the control codes, colours up to letter case |
| PlainBodyLaw.MarkersCount | src/format/mod.rs:633-651 | a code writes a style's marker once if it flips that style and not otherwise |
| PlainBodyLaw.MarkersComeInPairs | src/format/mod.rs:742-783 | in every message each kind of marker is written an even number of times |
| PlainBodyLaw.PlainIsBody | src/format/mod.rs:780 | there is never a reset at the end of the plain body to trim |
| PlainBodyLaw.PlainBodyShape | src/format/mod.rs:742-783 | the plain body is the visible text plus its markers in length, and is the visible text exactly when there are no markers |
| PlainBodyLaw.PlainBodyConcat | src/format/mod.rs:749-776 | the plain body of a run of tokens is the bodies of its parts, each from the style the part starts in |
| PlainBodyLaw.SignsOfRun | src/format/mod.rs:749-776 | the body of a run has each sign as often as its visible text and once more for each flip of its style, and every other character as often as the visible text |
| PlainBodyLaw.SignsOfBody | src/format/mod.rs:742-783 | the same of the plain body of every message, with an even number of flips of each style |
| CodeLaw.BoldMessage | src/format/mod.rs:633-676 | any text between two codes 02 has `*` on both sides in the plain body and is in `b` in the HTML |
| CodeLaw.MonoMessage | src/format/mod.rs:633-676 | between two codes 11: a backtick, and `code` |
| CodeLaw.ItalicMessage | src/format/mod.rs:633-676 | between two codes 1D: `/`, and `i` |
| CodeLaw.UnderlineMessage | src/format/mod.rs:633-676 | between two codes 1F: `_`, and `u` |
| CodeLaw.StrikeMessage | src/format/mod.rs:633-676 | between two codes 1E: `~`, and `strike` |
| CodeLaw.AllStyles | src/format/mod.rs:633-676 | with all five styles on, the markers and the tags come in their fixed order |
| CodeLaw.HexForeground | src/format/mod.rs:540-571 | code 04 with six digits puts any text behind it that does not start with a comma in a font of that colour and leaves the plain body alone |
| CodeLaw.HexBoth | src/format/mod.rs:540-571 | with a second colour behind a comma that is the background |
| CodeLaw.PaletteForeground | src/format/mod.rs:605-620 | code 03 with a two-digit number does the same with that palette entry |
| CodeLaw.PaletteBoth | src/format/mod.rs:605-620 | and with two numbers with both entries |
| CodeLaw.OneDigit | src/format/mod.rs:505-539 | a one-digit number is read as the two-digit one with a zero in front |
| PlainBodyLaw.HtmlDroppedIff | src/format/mod.rs:778-782 | the HTML of a link-free text is dropped exactly when all visible text is unstyled, there is no line break and no style flips; the plain body is then the visible text |
| FormatRoundTrip.RoundTripIff | src/format/mod.rs:384-390 | IRC to HTML to IRC gives a link-free text back with the same styled characters, exactly when no run has a carriage return, no run has a background alone and no foreground-only run starts with a comma |
| FormatRoundTrip.RunIsLost | src/format/mod.rs:742-783 | any styled run that breaks one of the three changes the meaning of the whole text that comes back |
| FormatRoundTrip.BareBackgroundStays | src/format/mod.rs:234-242 | for every palette colour and every text, the text on that background alone yields HTML and comes back with another meaning |
| FormatRoundTrip.CommaIsEaten | src/format/mod.rs:540-571 | for every hex colour, a text that starts with a comma, behind that colour and an empty toggle pair, yields HTML and comes back with another meaning |
| FormatRoundTrip.CarriageReturnIsLost | src/format/mod.rs:265-275 | every bold text with a carriage return yields HTML and comes back with another meaning |
| Calendar.YearOfEraFinds | src/ircd/proto.rs:95 | the closed formula finds the year that contains the day, for every day of the 400-year era |
| Calendar.DaysOfCivil | src/ircd/proto.rs:90-102 | every day number yields a date with a valid month and a day valid in that month and leap year, and counts back to itself |
| Calendar.CivilOfDays | src/bridge/history.rs:57-64 | every calendar date is the date of its day number |
| Calendar.CivilOrdered | src/ircd/proto.rs:90-102 | later days have later dates |
| IsoTime.ParseRender | src/bridge/history.rs:34-67 | parse_iso_time reads iso_time back for every u64 |
| Decimal.ParseSigned | src/bridge/history.rs:40-50 | a printed number is read with a sign in front as that number under that sign |
| IsoTime.RenderShape | src/ircd/proto.rs:75-88 | below year 10000 the signs of a rendered time stand where section 5.6 of RFC 3339 has them and all else is digits |
| IsoTime.FractionDigits | src/bridge/history.rs:51-56 | a fraction is thousandths: missing digits are zeros, digits behind the third are ignored |
| IsoTime.ParseDateTime | src/bridge/history.rs:34-67 | any date and clock, with or without a fraction, are read as the seconds they count to; a time before 1970 loses its sign |
| IsoTime.MoreParts | src/bridge/history.rs:39-50 | anything behind the third number of a date or a clock is ignored, and fewer than three are no time |
| IsoTime.RenderOrdered | src/ircd/proto.rs:75-88 | below year 10000 times render to 24 characters and sort as strings in the order of time |
| IsoTime.BelowYear10000 | src/ircd/proto.rs:81-83 | a time's year has at most four digits exactly when the time is before the given millisecond |
| IsoTime.YearTenThousandDisorder | src/ircd/proto.rs:75-88 | the first time of year 10000 sorts before the last of year 9999 |
| IsoTime.OrderedBelowIff | src/ircd/proto.rs:75-88 | all times below a bound sort as text exactly when the bound is not past the start of year 10000 |
| LineWrap.Chunks | src/bridge/mod.rs:1358-1370 | the byte-offset loop terminates, slices only at character boundaries and computes the character-level cut |
| LineWrap.CutIsFirst | src/bridge/mod.rs:1362-1365 | each cut is the first character boundary at or after the width |
| LineWrap.ChunkedFacts | src/bridge/mod.rs:1358-1370 | the pieces concatenate to the word; none is empty or over the width in characters; all but the last have at least the width in bytes and less than a character more |
| LineWrap.WrapBody | src/bridge/mod.rs:1319-1356 | the wrapping loops compute the recursive wrapper on every body |
| LineWrapLaw.WrappedKeepsText | src/bridge/mod.rs:1319-1356 | blanks aside, the output is the body without line breaks and without carriage returns at line ends |
| LineWrapLaw.LineLaid | src/bridge/mod.rs:1330-1351 | a long line is laid out greedily: each output line is the next few words with one blank between each two, as many as have room; a first word over 400 characters is cut up, and empty words go where a line starts |
| LineWrapLaw.BlanksBack | src/bridge/mod.rs:1330-1351 | joined with blanks, the output lines give back any long line with single blanks and a first word of at most 400 characters |
| LineWrapLaw.WrappedFitsIff | src/bridge/mod.rs:1319-1356 | every output line has at most 400 characters, exactly when no word over 400 characters comes up while an output line is in progress |
| LineWrapLaw.ShortWordsFit | src/bridge/mod.rs:1319-1356 | a body without words over 400 characters comes out without lines over 400 characters |
| LineWrapLaw.OverlongSecondWord | src/bridge/mod.rs:1343-1346 | an overlong word behind a short one goes out whole |
| LineWrapLaw.WideLine | src/bridge/mod.rs:1319-1356 | an output line over 400 characters is a single blank-free word of a longer source line |
| LineWrapLaw.WideIsWord | src/bridge/mod.rs:1319-1356 | and that word was not the first on its source line |
| LineWrapLaw.WrappedIsLines | src/bridge/mod.rs:1319-1356 | no output line holds a line break |
| LineWrapLaw.JoinWrappedIff | src/bridge/mod.rs:1319-1356 | joining the output lines gives the body back, exactly when every line has at most 400 characters and does not end in a carriage return |
| Multiline.Intake.constructor | src/ircd/server.rs:708-713 | a connection starts with no open batch |
| Multiline.Intake.Receive | src/ircd/server.rs:766-805 | one turn of the intake: tagged lines of open batches are absorbed, BATCH is handled, the rest is dispatched |
| Multiline.Intake.HandleBatch | src/ircd/server.rs:1186-1236 | closing flushes and removes; opening a multiline batch replaces whatever was open under the reference; other batches are ignored |
| Multiline.JoinBatch | src/ircd/server.rs:1208-1214 | lines are separated by newlines except before concat lines |
| MultilineLaw.Demultiplexes | src/ircd/server.rs:766-805 | over any run, a batch is open exactly when opened and not closed since, and holds exactly the lines tagged with its reference since the latest opening, in arrival order |
| MultilineLaw.FlushIsExact | src/ircd/server.rs:1203-1223 | the body flushed at a close joins exactly those lines; closing what is not open does nothing |
| MultilineLaw.BodyGrows | src/ircd/server.rs:1208-1214 | the first line of a body stands alone, a glued line appends its text and any other a line break and its text |
| MultilineLaw.BodyIsGroups | src/ircd/server.rs:1208-1214 | a body is its lines cut in front of each unglued one, each group put together, joined with line breaks |
| MultilineLaw.FlushJoinsGroups | src/ircd/server.rs:1203-1223 | over any run, that is the body flushed at a close |
| MultilineLaw.TwoLineBatch | src/ircd/server.rs:766-805 | from any state, a batch of two lines under either tag is flushed as both texts, on one line exactly when the second has the concat tag, and is gone |
| MultilineLaw.OpensAndCloses | src/ircd/server.rs:1203-1234 | a `-` closes whatever else the command says; a `+` opens exactly for the multiline kind in any case |
| MultilineLaw.OthersDoNotMatter | src/ircd/server.rs:766-805 | messages of other batches and all other traffic leave a batch alone |
| MultilineLaw.LineStays | src/ircd/server.rs:781-802 | an absorbed line keeps its place until something begins or ends its batch |
| MultilineLaw.EveryLineAccounted | src/ircd/server.rs:766-805 | every PRIVMSG and NOTICE of a run has one account, kept by the run: dispatched, waiting, flushed in a body, or discarded by a re-open |
| MultilineRoundTrip.BodyToIrc | src/bridge/mod.rs:1209-1299 | the loops build the batch for capable clients and one message per non-blank line for the others |
| MultilineRoundTrip.OneLineMessage | src/bridge/mod.rs:1287-1298 | a body of one line of at most 400 characters is one NOTICE, ACTION or PRIVMSG with the tags of the event, and nothing if it is blank, with or without multiline |
| MultilineRoundTrip.WithoutMultiline | src/bridge/mod.rs:1287-1298 | without multiline exactly the wrapped lines that are not blank go out, in order, each with the tags of the event |
| MultilineRoundTrip.TagsAre | src/bridge/mod.rs:1230-1245 | the tags of the event are its time, its id and what it replies to |
| MultilineRoundTrip.BatchShape | src/bridge/mod.rs:1246-1286 | with multiline every line goes out, blank or not, between an opening with those tags and a closing; the reference is the event's id without its sigil |
| MultilineRoundTrip.BatchDelivers | src/bridge/mod.rs:1246-1286 | fed to the intake in any state, the batch delivers target, kind, reply and the joined lines, of an emote each in its own ACTION frame, leaves no batch of its reference open and touches no other |
| MultilineRoundTrip.EmoteLines | src/bridge/mod.rs:1221-1229 | each line of an emote, and only of an emote that is no notice, is sent in an ACTION frame |
| MultilineRoundTrip.BodyComesBackIff | src/bridge/mod.rs:1246-1286 | the delivered body is the sent body, blank lines included, exactly when every line has at most 400 characters and does not end in a carriage return |
| Rooms.SanitizeBase | src/bridge/rooms.rs:171-192 | the character loop computes the sanitized base |
| Rooms.Pigeonhole | src/bridge/rooms.rs:135-168 | if the bare name and every candidate before suffix i are taken, there are at least i - 1 taken names |
| Rooms.FreeSuffix | src/bridge/rooms.rs:153-168 | the search finds the least free suffix, at most one more than the names taken |
| Rooms.RoomMaps.constructor | src/bridge/rooms.rs:40-46 | the map starts as what the file holds, or empty |
| Rooms.RoomMaps.PruneTo | src/bridge/rooms.rs:58-65 | exactly the live rooms stay, and the file is written when one went |
| Rooms.RoomMaps.GetByChannel | src/bridge/rooms.rs:79-82 | the first entry with that channel in any ASCII case, never a query |
| Rooms.RoomMaps.GetByQuery | src/bridge/rooms.rs:84-89 | the first entry with that nick in any ASCII case |
| Rooms.RoomMaps.Ensure | src/bridge/rooms.rs:91-107 | refreshes a mapped room's topic or maps a new one, saves when it changed something, and returns the room's entry |
| Rooms.RoomMaps.EnsureQuery | src/bridge/rooms.rs:109-131 | the same for queries, which lose their channel |
| Rooms.RoomMaps.SetTopic | src/bridge/mod.rs:1490-1495 | a topic edit changes the one entry and is not saved |
| Rooms.UniqueIsOne | src/bridge/rooms.rs:153-168 | the taken names and the base determine the picked name, and it is free |
| Rooms.RoomMaps.PickChannel | src/bridge/rooms.rs:153-168 | the search loop terminates and returns the bare name if free, else the least free suffix |
| Rooms.RoomMaps.PickQuery | src/bridge/rooms.rs:133-151 | the same for query nicks |
| RoomsLaw.SanitizeIsBase | src/bridge/rooms.rs:171-192 | every base has 1 to 32 characters of the allowed alphabet and does not start with an underscore or dot |
| RoomsLaw.CollapseRuns | src/bridge/rooms.rs:171-185 | runs of allowed characters come out in lower case and each run of anything else as one underscore |
| RoomsLaw.NothingKept | src/bridge/rooms.rs:186-191 | a name without allowed characters becomes `room` |
| RoomsLaw.SanitizeFixedIff | src/bridge/rooms.rs:171-192 | a name is left alone exactly when it is such a base and also ends in neither |
| RoomsLaw.SanitizeTwiceIff | src/bridge/rooms.rs:186-187 | sanitizing is idempotent on an input exactly when its collapsed and trimmed form has at most 32 characters or its 32nd is neither an underscore nor a dot |
| RoomsLaw.SanitizedAgainIsShorter | src/bridge/rooms.rs:186-187 | a cut right behind an underscore or dot leaves a name that sanitizing again shortens |
| RoomsLaw.UniqueChannelIs | src/bridge/rooms.rs:153-168 | a new channel is non-empty, lower case and no other room's |
| RoomsLaw.UniqueChannelLeast | src/bridge/rooms.rs:153-168 | it is the bare name if free, else the least free suffix from 2 on, within the number of rooms plus one |
| RoomsLaw.CandidateText | src/bridge/rooms.rs:144-145 | the suffix is an underscore and the number in decimal |
| RoomsLaw.UniqueQueryIs | src/bridge/rooms.rs:133-151 | a new query nick collides with no nick in any case, and is the bare nick or the one with the least suffix |
| RoomsLaw.ApplyValid | src/bridge/rooms.rs:59-131 | every operation keeps room ids distinct, non-empty channels distinct and lower case, and channels empty exactly for queries |
| RoomsLaw.ApplyStable | src/bridge/rooms.rs:59-131 | no operation but pruning the room or turning it into a query changes its channel |
| RoomsLaw.RunKeeps | src/bridge/rooms.rs:59-131 | over any run both hold throughout, and restarting from the file gives every channel room its channel |
| RoomsLaw.ChannelLookup | src/bridge/rooms.rs:79-82 | looking a name up finds a channel room exactly when the name is an ASCII-case variant of its channel |
| RoomsLaw.QueryLookup | src/bridge/rooms.rs:84-89 | a nick finds the first room whose query nick has its letters in any case, and none exactly when there is none |
| RoomsLaw.EntryAfter | src/bridge/rooms.rs:58-131 | what any room is mapped to after any operation: a refresh takes over the topic, for a query also the nick, a new room gets a name of its own, and no other room is changed |
| RoomsLaw.EnsureQueryDistinctIff | src/bridge/rooms.rs:109-131 | mapping a query keeps query nicks distinct exactly when the room is new or no other room has the nick |
| RoomsLaw.RefreshedQueryCollides | src/bridge/rooms.rs:112-121 | two rooms mapped under one nick are kept apart, and refreshing the second gives both the same nick |
| RoomsLaw.FileIsCurrentIff | src/bridge/rooms.rs:59-131 | an operation leaves an up-to-date file behind exactly when it edits a mapped room's topic from outside, or turns a mapped room into a query or changes its nick under the topic it has |
| RoomsLaw.QueryTurnUnsaved | src/bridge/rooms.rs:112-121 | a channel room turned into a query under the same topic keeps its channel in the file |
| Writer.ConnectionWriter.constructor | src/ircd/server.rs:286-289 | the writer starts with empty open lanes and a fresh clock |
| Writer.ConnectionWriter.Turn | src/ircd/server.rs:290-349 | one turn of the biased select: priority lane, then timer, then normal lane, with every way the loop ends |
| Writer.ConnectionWriter.Keepalive | src/ircd/server.rs:306-331 | the timer branch: notice activity, time out at 480 s, PING once from 90 s on |
| Writer.LanesConserve | src/ircd/server.rs:277-351 | over any run, what was handed out plus what is queued is what was enqueued, per lane, in order |
| Writer.PriorityFirst | src/ircd/server.rs:291-348 | a normal message goes out only when every priority message enqueued so far has |
| Writer.TurnsDrain | src/ircd/server.rs:290-349 | from any running state with an open priority lane, as many successful turns without a tick as messages are queued hand out all of them, the priority lane first, each lane in order |
| Writer.EverythingGoesOut | src/ircd/server.rs:290-349 | after those turns everything ever enqueued has been handed out on both lanes |
| Writer.FarewellComesLast | src/ircd/server.rs:340-347 | the relay's farewell is said exactly at a turn without a tick that finds both lanes empty and the normal lane closed, so behind everything ever enqueued |
| Writer.StopsIff | src/ircd/server.rs:290-349 | a turn stops the writer exactly when the priority lane has ended, a send failed, or it said that the client timed out or the relay closed |
| Writer.OnePingPerSilence | src/ircd/server.rs:306-331 | between two keepalive PINGs there is client activity |
| Writer.PingedIff | src/ircd/server.rs:306-331 | while the writer runs, so also in front of every ping timeout, there is an unanswered PING exactly when a handled tick since the last activity found the client idle for at least 90 s and less than 480 s |
| Writer.TimeoutFollowsPing | src/ircd/server.rs:306-331 | with ticks at most t apart, t up to 390 s, every ping timeout follows an unanswered PING sent at least 390 s - t earlier: 360 s for t of 30 s |
| Writer.SilentPeerDropped | src/ircd/server.rs:313-319 | a tick that finds the client silent for 480 s ends the writer for good |
| Writer.LateTickClosesUnpinged | src/ircd/server.rs:306-331 | the bound of 390 s is sharp: with ticks a millisecond further apart a connection is closed with no PING |
| History.WalkBackward | src/bridge/history.rs:201-233 | the paging loop computes the recursive walk, failed requests included |
| History.ReverseInPlace | src/bridge/history.rs:238 | the in-place reversal reverses |
| History.Latest | src/bridge/history.rs:235-240 | the query for the newest messages is the reversed walk without a predicate |
| History.LatestSince | src/bridge/history.rs:242-247 | the one since a time keeps events at or after it |
| History.BeforeTimestamp | src/bridge/history.rs:249-255 | the one before a time keeps events strictly before it |
| History.WalkRefines | src/bridge/history.rs:201-233 | although it stops fetching early, the walk returns the first limit selected events over any number of available pages that covers those it asks for |
| History.FetchedIs | src/bridge/history.rs:201-255 | every query returns, oldest first, exactly the newest limit relayable events that satisfy its predicate among the first ten pages, or among those before a failing page it does not ask for |
| History.AnswerIs | src/bridge/history.rs:201-255 | everything in an answer was relayed and is kept; what is kept and missing is missing because the limit is full, and is no newer than anything in the answer |
| History.LatestIs | src/bridge/history.rs:235-240 | below the limit the newest messages are all that was relayed on the pages |
| History.SinceIs | src/bridge/history.rs:242-247 | only items with a time at or after the anchor, and all of them below the limit |
| History.BeforeIs | src/bridge/history.rs:249-255 | only items with a time before the anchor, and all of them below the limit |
| History.TenPages | src/bridge/history.rs:225-229 | a timeline that never ends is followed for ten pages |
| History.AskedSuffices | src/bridge/history.rs:225-229 | a query asks for no page beyond those that fill its limit |
| History.SelectedIff | src/bridge/history.rs:218-224 | an item is selected exactly when an event of the timeline is relayable as it and it satisfies the predicate |
| History.FailsIff | src/bridge/history.rs:207-233 | a query fails exactly when a page it asks for fails; pages it does not need cannot make it fail |
| History.FetchedInOrder | src/bridge/history.rs:235-255 | from a newest-first timeline every answer is in chronological order |
| Verification.Hub.constructor | src/matrix/verification.rs:70-79 | the hub starts empty |
| Verification.Hub.Register | src/matrix/verification.rs:126-152 | a registration is appended, unless its flow id is registered |
| Verification.Hub.EditFirst | src/matrix/verification.rs:273-285 | set_sas and set_emojis_shown change the first entry with the flow id and nothing else |
| Verification.Hub.Finished | src/matrix/verification.rs:242-262 | the scan yields every entry whose request has ended, with its outcome, in order |
| Verification.Hub.Retain | src/matrix/verification.rs:268-269 | retain removes exactly the ended entries with the flow id |
| Verification.Hub.Drive | src/matrix/verification.rs:164-271 | each action of the driver is the step of the state machine that its position in the pass calls for |
| VerificationLaw.StepKeeps | src/matrix/verification.rs:126-285 | every step of every party keeps the invariant: distinct flows, a snapshot that is never out of date, true outcomes, and the account of every registration |
| VerificationLaw.EveryRun | src/matrix/verification.rs:126-285 | over any interleaving flow ids stay distinct, a registration's end is announced exactly once when it leaves and not before, its SAS is picked up at most once and its emojis prompted for at most once and only after that, and what is left of the snapshot is what is registered |
| VerificationLaw.ShownWhenPresentable | src/matrix/verification.rs:221-237 | a SAS that can be presented and was not shown is prompted for if it has emojis, and marked as shown, whatever others do in between; any other is passed over |
| VerificationLaw.AskedWhenLive | src/matrix/verification.rs:184-210 | a registration without a SAS is asked for one exactly when its request has not ended and is not passive |
| VerificationLaw.KeptWhenFound | src/matrix/verification.rs:211-220 | a SAS that is found is accepted when the other side started it and kept in the registration, whatever others do in between |
| VerificationLaw.PassPrompts | src/matrix/verification.rs:164-239 | a pass looks at every registration there is when it begins: each SAS that can be presented and was not shown is prompted for |
| VerificationLaw.WhoAccepts | src/matrix/verification.rs:211-218 | in every run the SAS of a registration is accepted exactly when the registration says that the other side started it |
| VerificationLaw.OutcomeIsFinal | src/matrix/verification.rs:241-271 | an announced outcome is the request's outcome for the rest of the run |
| VerificationLaw.AnnounceRemoves | src/matrix/verification.rs:266-270 | announcing an end removes exactly the entry it is about |
| VerificationLaw.PassForgets | src/matrix/verification.rs:241-271 | a request that has ended before the pass collects is announced once and forgotten when the pass is over, whatever happens meanwhile |
| VerificationLaw.PassEnds | src/matrix/verification.rs:164-271 | within a pass the driver's next action always brings it closer to the end and nothing else moves it |

## Left out

- HtmlToIrcLaw.HtmlToIrcPreservesIff: a quoted reply (`mx-reply`) is meant to show nothing; trees with links are not covered; `matrix_to_target` and its percent decoding appear only as a given map of targets.
- HtmlToIrcLaw.MatrixToIrcPreservesIff: the same, and the blanks at both ends that `trim` removes are put back before comparing.
- FormatRoundTrip.RoundTripIff: link-free text and an empty nick list only; colours compare up to the case of their hex digits, and the trimmed blanks are put back.
- IrcToHtmlLaw.IrcToHtmlPreserves: link-free text and an empty nick list only; colours compare up to the case of their hex digits.
- PlainBodyLaw.HtmlDroppedIff: link-free text and an empty nick list only.
- LinkLaw.LinksKeepText: the URL pass only; a mention shows the local part of the user id instead of the id.
- IsoTime.ParseRender: integers are unbounded; overflow of the 64-bit arithmetic and the panic on slicing a non-ASCII fraction, both only on text that `iso_time` does not write, are not modelled.
- MultilineRoundTrip.BatchDelivers: the receiver's parsing of a raw BATCH line is modelled, not taken from the irc crate, which is not part of this repository.
- MultilineRoundTrip.BodyComesBackIff: the same; emotes are left out, because each of their lines carries its own ACTION frame; a body that stays one line is sent without a batch and has nothing to undo.
- MultilineLaw.EveryLineAccounted: what dispatch and the relay then do with a line or body is not modelled.
- Multiline.Intake.Receive: of a dispatched message only that it is dispatched.
- Rooms.RoomMaps.PruneTo: saving is taken to succeed; the source logs a failed write and goes on.
- RoomsLaw.RunKeeps: it starts from a valid map just loaded; a file edited by hand into an invalid map is not covered.
- Writer.ConnectionWriter.Turn: the capacity of the two channels, and with it the waiting of senders, is not modelled; nor are the tags that are filtered for the client. Times are given with each event.
- History.WalkBackward: `/messages` is a map from tokens to pages that does not change during a walk; `item_from_event` is given with each event.
- Verification.Hub.Drive: SAS objects are opaque and answer as the run says, so which of the two calls the driver makes to get one is not recorded; a found SAS and its acceptance are one event; an announcement and the removal that follows it are one step.
- VerificationLaw.EveryRun: delivery of a notice to the client, which `try_send` may drop, is not modelled, nor is the notice that greets a registration.
- JOIN before PRIVMSG under interleaving, the order of the backward half of `around_msgid`, and the end anchor of CHATHISTORY BETWEEN: the code does not keep these claims, and none of the three is modelled.
- Lists, `strip_reply_fallback`, CAP negotiation, registration, NAMES, WHO, MOTD and metadata: single-branch or easy.
- State encryption, media signing, configuration and MIME tables: opaque or easy.
- Sockets, TLS, tasks and Matrix HTTP calls: only the queues and the answers they give appear.
