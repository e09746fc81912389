/**
 * The text of an index tuple: `JSON.stringify` of an array of strings, and a
 * reader for such arrays as RFC 8259 has them, without white space.
 */
module IndexText {
  import opened Prelude
  import opened Text

  const HEX_DIGITS := "0123456789abcdef"

  /** A character inside quotes: the quote, the backslash and the controls are escaped. */
  function EscapedChar(c: char): (s: string)
    ensures s != ""
  {
    if c == '"' then "\\\""
    else if c == '\\' then "\\\\"
    else if c == '\U{8}' then "\\b"
    else if c == '\t' then "\\t"
    else if c == '\n' then "\\n"
    else if c == '\U{C}' then "\\f"
    else if c == '\r' then "\\r"
    else if c < ' ' then "\\u00" + [HEX_DIGITS[c as int / 16], HEX_DIGITS[c as int % 16]]
    else [c]
  }

  function Escaped(s: string): (t: string) {
    if s == "" then "" else EscapedChar(s[0]) + Escaped(s[1..])
  }

  function Quoted(s: string): (t: string) {
    "\"" + Escaped(s) + "\""
  }

  function Items(parts: seq<string>): (t: string)
    requires parts != []
  {
    if |parts| == 1 then Quoted(parts[0]) + "]" else Quoted(parts[0]) + "," + Items(parts[1..])
  }

  /** `JSON.stringify(parts)`. */
  function Stringified(parts: seq<string>): (t: string) {
    if parts == [] then "[]" else "[" + Items(parts)
  }

  // ----------------------------------------------------------------- reading

  function HexDigit(c: char): (d: Option<nat>)
    ensures d.Some? ==> d.value < 16
  {
    if IsDigit(c) then Some(c as int - '0' as int)
    else if 'a' <= c <= 'f' then Some(c as int - 'a' as int + 10)
    else if 'A' <= c <= 'F' then Some(c as int - 'A' as int + 10)
    else None
  }

  /** A four-digit escape; the two halves of a pair of surrogates are not read. */
  function HexChar(t: string): (c: Option<char>)
    requires |t| >= 4
  {
    var a, b, d, e := HexDigit(t[0]), HexDigit(t[1]), HexDigit(t[2]), HexDigit(t[3]);
    if a.None? || b.None? || d.None? || e.None? then None
    else
      var code := 0x1000 * a.value + 0x100 * b.value + 0x10 * d.value + e.value;
      if 0xD800 <= code < 0xE000 then None else Some(code as char)
  }

  /** The first character inside quotes and what follows it; nothing at a closing quote or a malformed text. */
  function ReadChar(t: string): (r: Option<(char, string)>)
    ensures r.Some? ==> |r.value.1| < |t|
  {
    if t == "" || t[0] == '"' || t[0] < ' ' then None
    else if t[0] != '\\' then Some((t[0], t[1..]))
    else if |t| < 2 then None
    else
      match t[1]
      case '"' => Some(('"', t[2..]))
      case '\\' => Some(('\\', t[2..]))
      case '/' => Some(('/', t[2..]))
      case 'b' => Some(('\U{8}', t[2..]))
      case 'f' => Some(('\U{C}', t[2..]))
      case 'n' => Some(('\n', t[2..]))
      case 'r' => Some(('\r', t[2..]))
      case 't' => Some(('\t', t[2..]))
      case 'u' =>
        if |t| < 6 || HexChar(t[2..]).None? then None else Some((HexChar(t[2..]).value, t[6..]))
      case _ => None
  }

  /** The rest of a quoted string up to its closing quote, and what follows that. */
  function ReadString(t: string): (r: Option<(string, string)>)
    ensures r.Some? ==> |r.value.1| < |t|
    decreases |t|
  {
    if t != "" && t[0] == '"' then Some(("", t[1..]))
    else
      match ReadChar(t)
      case None => None
      case Some((c, later)) =>
        match ReadString(later)
        case None => None
        case Some((s, rest)) => Some(([c] + s, rest))
  }

  /** The items of an array up to its end. */
  function ReadItems(t: string): (r: Option<seq<string>>)
    decreases |t|
  {
    if t == "" || t[0] != '"' then None
    else
      match ReadString(t[1..])
      case None => None
      case Some((s, rest)) =>
        if rest == "]" then Some([s])
        else if rest == "" || rest[0] != ',' then None
        else
          match ReadItems(rest[1..])
          case None => None
          case Some(later) => Some([s] + later)
  }

  function ReadArray(t: string): (r: Option<seq<string>>) {
    if t == "[]" then Some([])
    else if t == "" || t[0] != '[' then None
    else ReadItems(t[1..])
  }

  // -------------------------------------------------------------- round trip

  lemma ReadsBackChar(c: char, later: string)
    ensures ReadChar(EscapedChar(c) + later) == Some((c, later))
    ensures (EscapedChar(c) + later)[0] != '"'
  {
    var e := EscapedChar(c);
    var t := e + later;
    if |e| == 1 {
      assert t[1..] == later;
    } else if |e| == 2 {
      assert t[0] == e[0] && t[1] == e[1] && t[2..] == later;
    } else {
      ReadsBackControl(c, later);
    }
  }

  lemma ReadsBackControl(c: char, later: string)
    requires c < ' '
    ensures var t := "\\u00" + [HEX_DIGITS[c as int / 16], HEX_DIGITS[c as int % 16]] + later;
      ReadChar(t) == Some((c, later)) && t[0] != '"'
  {
    var high, low := HEX_DIGITS[c as int / 16], HEX_DIGITS[c as int % 16];
    var t := "\\u00" + [high, low] + later;
    assert t[2..][0] == '0' && t[2..][1] == '0' && t[2..][2] == high && t[2..][3] == low && t[6..] == later;
    HexOfDigit(c as int / 16);
    HexOfDigit(c as int % 16);
    hide HexDigit;
    assert HexDigit('0') == Some(0) by { HexOfDigit(0); }
    assert HexChar(t[2..]) == Some(c);
  }

  lemma HexOfDigit(d: nat)
    requires d < 16
    ensures HexDigit(HEX_DIGITS[d]) == Some(d)
  {
  }

  lemma {:induction false} ReadsBackString(s: string, rest: string)
    ensures ReadString(Escaped(s) + "\"" + rest) == Some((s, rest))
  {
    hide ReadChar, EscapedChar;
    var t := Escaped(s) + "\"" + rest;
    if s == "" {
      assert t[1..] == rest;
    } else {
      var later := Escaped(s[1..]) + "\"" + rest;
      assert t == EscapedChar(s[0]) + later;
      ReadsBackChar(s[0], later);
      ReadsBackString(s[1..], rest);
      assert s == [s[0]] + s[1..];
    }
  }

  lemma {:induction false} ReadsBackItems(parts: seq<string>)
    requires parts != []
    ensures ReadItems(Items(parts)) == Some(parts)
  {
    hide ReadString, Escaped;
    var t := Items(parts);
    var rest := if |parts| == 1 then "]" else "," + Items(parts[1..]);
    assert t[1..] == Escaped(parts[0]) + "\"" + rest;
    ReadsBackString(parts[0], rest);
    assert parts == [parts[0]] + parts[1..];
    if |parts| > 1 {
      ReadsBackItems(parts[1..]);
      assert rest[1..] == Items(parts[1..]);
    } else {
      assert parts == [parts[0]];
    }
  }

  /** Every tuple of strings is read back from its text. */
  lemma ReadsBackArray(parts: seq<string>)
    ensures ReadArray(Stringified(parts)) == Some(parts)
  {
    hide Items, ReadItems;
    if parts != [] {
      ReadsBackItems(parts);
      assert Stringified(parts)[1..] == Items(parts);
      ItemsStart(parts);
    }
  }

  lemma ItemsStart(parts: seq<string>)
    requires parts != []
    ensures Items(parts) != "" && Items(parts)[0] == '"'
  {
  }

  /** The escapes as they stand. */
  lemma EscapesAsTheyStand()
    ensures EscapedChar('"') == "\\\"" && EscapedChar('\\') == "\\\\" && EscapedChar('\n') == "\\n"
    ensures EscapedChar('\U{1F}') == "\\u001f" && EscapedChar('\U{8}') == "\\b" && EscapedChar('\t') == "\\t"
    ensures EscapedChar('\U{C}') == "\\f" && EscapedChar('\r') == "\\r" && EscapedChar('a') == "a"
  {
  }

  /** A text without quotes, backslashes and controls is written as it is. */
  lemma {:induction false} PlainText(s: string)
    requires forall i | 0 <= i < |s| :: s[i] >= ' ' && s[i] != '"' && s[i] != '\\'
    ensures Escaped(s) == s
  {
    if s != "" {
      PlainText(s[1..]);
      assert s == [s[0]] + s[1..];
    }
  }

  /** Tuples as they stand: brackets, quotes and commas. */
  lemma TuplesAsTheyStand(a: string, b: string)
    ensures Stringified([]) == "[]"
    ensures Stringified([a]) == "[" + ("\"" + Escaped(a) + "\"" + "]")
    ensures Stringified([a, b]) == "[" + ("\"" + Escaped(a) + "\"" + "," + ("\"" + Escaped(b) + "\"" + "]"))
  {
    hide Escaped;
    assert [a, b][1..] == [b];
    assert Items([b]) == Quoted(b) + "]";
    assert Items([a, b]) == Quoted(a) + "," + Items([b]);
  }
}
