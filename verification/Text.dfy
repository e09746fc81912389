/** String operations of the source: splitting at a character, decimal print and parse. */
module Text {
  import opened Prelude

  // ------------------------------------------------------------------ split

  /** `s.split(sep)` for a one-character separator. */
  function Split(s: string, sep: char): (parts: seq<string>)
    ensures parts != []
  {
    if s == "" then [""]
    else
      var rest := Split(s[1..], sep);
      if s[0] == sep then [""] + rest else [[s[0]] + rest[0]] + rest[1..]
  }

  function Join(parts: seq<string>, sep: char): (s: string)
    requires parts != []
  {
    if |parts| == 1 then parts[0] else parts[0] + [sep] + Join(parts[1..], sep)
  }

  predicate Free(parts: seq<string>, sep: char) {
    forall i | 0 <= i < |parts| :: sep !in parts[i]
  }

  lemma {:induction false} JoinSplit(s: string, sep: char)
    ensures Join(Split(s, sep), sep) == s && Free(Split(s, sep), sep)
  {
    if s != "" {
      JoinSplit(s[1..], sep);
      var rest := Split(s[1..], sep);
      assert s == [s[0]] + s[1..];
      if s[0] != sep {
        assert Split(s, sep)[1..] == rest[1..];
        assert sep !in [s[0]] + rest[0];
      } else {
        assert Split(s, sep)[1..] == rest;
      }
    }
  }

  lemma {:induction false} SplitOne(p: string, tail: string, sep: char)
    requires sep !in p && (tail == "" || tail[0] == sep)
    ensures Split(p + tail, sep) == [p] + (if tail == "" then [] else Split(tail[1..], sep))
  {
    if p == "" {
      assert p + tail == tail;
    } else {
      SplitOne(p[1..], tail, sep);
      assert (p + tail)[1..] == p[1..] + tail;
      assert p == [p[0]] + p[1..];
    }
  }

  /** Splitting a join of separator-free parts gives the parts back. */
  lemma {:induction false} SplitJoin(parts: seq<string>, sep: char)
    requires parts != [] && Free(parts, sep)
    ensures Split(Join(parts, sep), sep) == parts
  {
    if |parts| == 1 {
      SplitOne(parts[0], "", sep);
      assert parts[0] + "" == parts[0];
    } else {
      SplitJoin(parts[1..], sep);
      var tail := [sep] + Join(parts[1..], sep);
      SplitOne(parts[0], tail, sep);
      assert parts[0] + tail == Join(parts, sep);
      assert tail[1..] == Join(parts[1..], sep);
    }
  }

  // ---------------------------------------------------------------- decimal

  predicate IsDigit(c: char) {
    '0' <= c <= '9'
  }

  predicate IsDigits(s: string) {
    s != "" && forall i | 0 <= i < |s| :: IsDigit(s[i])
  }

  function DigitChar(d: nat): (c: char)
    requires d < 10
    ensures IsDigit(c) && c as int - '0' as int == d
  {
    ('0' as int + d) as char
  }

  function NatValue(s: string): (n: nat)
    requires s == "" || IsDigits(s)
  {
    if s == "" then 0
    else
      assert IsDigit(s[|s| - 1]);
      10 * NatValue(s[..|s| - 1]) + (s[|s| - 1] as int - '0' as int)
  }

  function ShowNat(n: nat): (s: string)
    ensures IsDigits(s)
  {
    if n < 10 then [DigitChar(n)] else ShowNat(n / 10) + [DigitChar(n % 10)]
  }

  /** `String(n)` of an integer. */
  function Show(n: int): (s: string) {
    if n < 0 then "-" + ShowNat(-n) else ShowNat(n)
  }

  /** Value of a plain decimal integer literal, with or without a minus sign. */
  function IntegerLiteral(s: string): (n: Option<int>) {
    if IsDigits(s) then Some(NatValue(s) as int)
    else if s != "" && s[0] == '-' && IsDigits(s[1..]) then var v: int := NatValue(s[1..]); Some(-v)
    else None
  }

  lemma {:induction false} NatValueShow(n: nat)
    ensures NatValue(ShowNat(n)) == n
  {
    var s := ShowNat(n);
    if n < 10 {
      assert s[..0] == "";
    } else {
      NatValueShow(n / 10);
      assert s[..|s| - 1] == ShowNat(n / 10);
    }
  }

  /** Printing an integer in decimal and reading it back. */
  lemma IntegerLiteralShow(n: int)
    ensures IntegerLiteral(Show(n)) == Some(n)
  {
    if n < 0 {
      NatValueShow(-n);
      assert Show(n)[1..] == ShowNat(-n);
      assert !IsDigit(Show(n)[0]);
    } else {
      NatValueShow(n);
    }
  }

  /** Texts as they stand: places count from the right, a negative number opens with a minus sign. */
  lemma TextsAsTheyStand()
    ensures Show(1205) == "1205" && Show(0) == "0" && Show(-7) == "-7"
    ensures IntegerLiteral("1205") == Some(1205) && IntegerLiteral("-7") == Some(-7) && IntegerLiteral("12a") == None
    ensures Join(["a", "", "b"], '.') == "a..b" && Split("a..b", '.') == ["a", "", "b"]
  {
    assert ShowNat(12) == "12" && ShowNat(120) == "120" && ShowNat(1205) == "1205";
    IntegerLiteralShow(1205);
    IntegerLiteralShow(-7);
    assert Show(-7) == "-7";
    assert "12a"[2] == 'a' && !IsDigit('a');
    assert ["a", "", "b"][1..] == ["", "b"] && ["", "b"][1..] == ["b"];
    assert Join(["", "b"], '.') == ".b";
    assert Join(["a", "", "b"], '.') == "a" + ['.'] + ".b" == "a..b";
    SplitJoin(["a", "", "b"], '.');
  }
}
