/** `JSON.stringify` of an array of strings, and a reader for that text:
    strings are quoted with `"` and `\` escaped, the C0 control characters
    written as `\b`, `\f`, `\n`, `\r`, `\t` or `\u00xx` (lower-case hex), and
    the items separated by `,` with no white space. */
module JsonText {
  import opened Options
  import opened JsText

  /** A lower-case hexadecimal digit. */
  function HexDigit(d: nat): (c: char)
    requires d < 16
    ensures IsDigitIn(c, 16) && DigitValue(c, 16) == d
  {
    if d < 10 then ('0' as int + d) as char else ('a' as int + d - 10) as char
  }

  /** How `JSON.stringify` writes one character of a string. */
  function EscapeChar(c: char): (e: string)
    ensures |e| >= 1 && e[0] != '"'
  {
    if c == '"' then "\\\""
    else if c == '\\' then "\\\\"
    else if c == '\U{8}' then "\\b"
    else if c == '\U{C}' then "\\f"
    else if c == '\n' then "\\n"
    else if c == '\r' then "\\r"
    else if c == '\t' then "\\t"
    else if c < ' ' then "\\u00" + [HexDigit(c as int / 16), HexDigit(c as int % 16)]
    else [c]
  }

  /** The body of a JSON string literal. */
  function Escape(s: string): string {
    if s == "" then "" else EscapeChar(s[0]) + Escape(s[1..])
  }

  /** A JSON string literal. */
  function Quote(s: string): string {
    "\"" + Escape(s) + "\""
  }

  /** The items of a JSON array of strings, comma-separated. */
  function Items(xs: seq<string>): (r: string)
    ensures |xs| >= 1 ==> |r| >= 2 && r[0] == '"'
  {
    if |xs| == 0 then "" else if |xs| == 1 then Quote(xs[0]) else Quote(xs[0]) + "," + Items(xs[1..])
  }

  /** `JSON.stringify(xs)` for an array of strings. */
  function StringifyList(xs: seq<string>): string {
    "[" + Items(xs) + "]"
  }

  // ---------------------------------------------------------------------
  // Reading the text back

  /** The value of four hexadecimal digits. */
  function Hex4(s: string): nat
    requires |s| == 4 && AllDigits(s, 16)
  {
    DigitValue(s[0], 16) * 4096 + DigitValue(s[1], 16) * 256 + DigitValue(s[2], 16) * 16 + DigitValue(s[3], 16)
  }

  /** One character of a string literal's body, and how many characters of
      text it took; None for a raw control character, a bad escape or a
      `\u` escape of a surrogate. */
  function ReadChar(s: string): (r: Option<(char, nat)>)
    requires s != "" && s[0] != '"'
    ensures r.Some? ==> 1 <= r.value.1 <= |s|
  {
    if s[0] != '\\' then (if s[0] < ' ' then None else Some((s[0], 1)))
    else if |s| < 2 then None
    else if s[1] == '"' then Some(('"', 2))
    else if s[1] == '\\' then Some(('\\', 2))
    else if s[1] == '/' then Some(('/', 2))
    else if s[1] == 'b' then Some(('\U{8}', 2))
    else if s[1] == 'f' then Some(('\U{C}', 2))
    else if s[1] == 'n' then Some(('\n', 2))
    else if s[1] == 'r' then Some(('\r', 2))
    else if s[1] == 't' then Some(('\t', 2))
    else if s[1] == 'u' && |s| >= 6 && AllDigits(s[2..6], 16) then
      var v := Hex4(s[2..6]);
      if 0xD800 <= v < 0xE000 then None else Some((v as char, 6))
    else None
  }

  /** The body of a string literal up to its closing quote, and the text
      after that quote. */
  function ReadString(s: string): (r: Option<(string, string)>)
    ensures r.Some? ==> |r.value.1| < |s|
    decreases |s|
  {
    if s == "" then None
    else if s[0] == '"' then Some(("", s[1..]))
    else
      match ReadChar(s)
      case None => None
      case Some((c, n)) =>
        match ReadString(s[n..])
        case None => None
        case Some((t, rest)) => Some(([c] + t, rest))
  }

  /** The items of an array of strings after its `[`, through the `]`
      that must end the text. */
  function ReadItems(s: string): Option<seq<string>>
    decreases |s|
  {
    if s == "" || s[0] != '"' then None
    else
      match ReadString(s[1..])
      case None => None
      case Some((x, rest)) =>
        if rest == "]" then Some([x])
        else if rest != "" && rest[0] == ',' then
          match ReadItems(rest[1..])
          case None => None
          case Some(xs) => Some([x] + xs)
        else None
  }

  /** A reader for the text `StringifyList` writes: an array of strings
      with no white space between its tokens. */
  function ParseList(s: string): Option<seq<string>> {
    if s == "[]" then Some([])
    else if s == "" || s[0] != '[' then None
    else ReadItems(s[1..])
  }

  /** A control character written as `\u00xx` reads back as itself. */
  lemma ReadControlChar(c: char, t: string)
    requires c < ' '
    ensures var e := "\\u00" + [HexDigit(c as int / 16), HexDigit(c as int % 16)];
      ReadChar(e + t) == Some((c, 6))
  {
    var e := "\\u00" + [HexDigit(c as int / 16), HexDigit(c as int % 16)];
    var s := e + t;
    assert s[2..6] == "00" + [HexDigit(c as int / 16), HexDigit(c as int % 16)];
    assert Hex4(s[2..6]) == c as int;
  }

  /** Each written character reads back as itself, using up exactly what
      was written for it. */
  lemma ReadEscapedChar(c: char, t: string)
    ensures ReadChar(EscapeChar(c) + t) == Some((c, |EscapeChar(c)|))
  {
    if c != '"' && c != '\\' && c != '\U{8}' && c != '\U{C}' && c != '\n' && c != '\r' && c != '\t' && c < ' ' {
      ReadControlChar(c, t);
    }
  }

  /** Reading a written string body and its closing quote gives back the
      string and the text that follows. */
  lemma {:induction false} ReadEscaped(s: string, rest: string)
    ensures ReadString(Escape(s) + "\"" + rest) == Some((s, rest))
  {
    if s == "" {
      assert Escape(s) + "\"" + rest == "\"" + rest;
    } else {
      var e := EscapeChar(s[0]);
      var u := Escape(s[1..]) + "\"" + rest;
      assert Escape(s) + "\"" + rest == e + u;
      ReadEscapedChar(s[0], u);
      assert (e + u)[|e|..] == u;
      ReadEscaped(s[1..], rest);
      assert [s[0]] + s[1..] == s;
    }
  }

  /** A written item followed by any text: the string read is the item,
      and the text after its closing quote is what followed it. */
  lemma ReadQuoted(x: string, tail: string)
    ensures var text := Quote(x) + tail;
      text != "" && text[0] == '"' && ReadString(text[1..]) == Some((x, tail))
  {
    var text := Quote(x) + tail;
    assert text[1..] == Escape(x) + "\"" + tail;
    ReadEscaped(x, tail);
  }

  /** The last item of a written array is read back. */
  lemma ReadLastItem(x: string)
    ensures ReadItems(Quote(x) + "]") == Some([x])
  {
    ReadQuoted(x, "]");
  }

  /** An item written before a comma is read, and the reader goes on with
      the text after the comma. */
  lemma ReadItemBeforeComma(x: string, rest: string, xs: seq<string>)
    requires ReadItems(rest) == Some(xs)
    ensures ReadItems(Quote(x) + "," + rest) == Some([x] + xs)
  {
    var tail := "," + rest;
    assert Quote(x) + "," + rest == Quote(x) + tail;
    ReadQuoted(x, tail);
    assert tail != "]" && tail[0] == ',';
    assert tail[1..] == rest;
  }

  /** Reading the written items back, for a list of at least one string. */
  lemma {:induction false} ReadWrittenItems(xs: seq<string>)
    requires |xs| >= 1
    ensures ReadItems(Items(xs) + "]") == Some(xs)
  {
    if |xs| == 1 {
      assert Items(xs) == Quote(xs[0]);
      ReadLastItem(xs[0]);
      assert [xs[0]] == xs;
    } else {
      var rest := Items(xs[1..]) + "]";
      ReadWrittenItems(xs[1..]);
      assert Items(xs) + "]" == Quote(xs[0]) + "," + rest;
      ReadItemBeforeComma(xs[0], rest, xs[1..]);
      assert [xs[0]] + xs[1..] == xs;
    }
  }

  /** Parsing the stringified list gives back the list. */
  lemma ParseStringified(xs: seq<string>)
    ensures ParseList(StringifyList(xs)) == Some(xs)
  {
    if |xs| >= 1 {
      var text := StringifyList(xs);
      assert text[1..] == Items(xs) + "]";
      assert text[1] == '"';
      ReadWrittenItems(xs);
    }
  }
}
