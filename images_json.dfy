/** The `images` field of a survey: a list of image references written as a
    JSON array of strings. Strings are read and written with the escapes of
    JSON; whitespace between tokens is not modelled. */
module ImagesJson {
  import opened Wrappers

  /** No raw control character (U+0000 to U+001F) anywhere in `s`. */
  predicate Printable(s: string)
  {
    forall i :: 0 <= i < |s| ==> s[i] >= ' '
  }

  /** The letter of the two-character escape `JSON.stringify` writes for `c`,
      if it has one. */
  function ShortEscape(c: char): Option<char>
  {
    if c == '"' then Some('"')
    else if c == '\\' then Some('\\')
    else if c == 8 as char then Some('b')
    else if c == 12 as char then Some('f')
    else if c == '\n' then Some('n')
    else if c == '\r' then Some('r')
    else if c == '\t' then Some('t')
    else None
  }

  /** The character a two-character escape stands for, as `JSON.parse`
      reads it; `u` is handled separately. */
  function Unescape(letter: char): (r: Option<char>)
    ensures forall c :: ShortEscape(c) == Some(letter) ==> r == Some(c)
  {
    if letter == '"' then Some('"')
    else if letter == '\\' then Some('\\')
    else if letter == '/' then Some('/')
    else if letter == 'b' then Some(8 as char)
    else if letter == 'f' then Some(12 as char)
    else if letter == 'n' then Some('\n')
    else if letter == 'r' then Some('\r')
    else if letter == 't' then Some('\t')
    else None
  }

  /** A lower-case hexadecimal digit, as in the `\u00XX` escapes. */
  function HexDigit(n: int): (r: char)
    requires 0 <= n < 16
    ensures HexValue(r) == Some(n)
  {
    if n < 10 then ('0' as int + n) as char else ('a' as int + n - 10) as char
  }

  function HexValue(c: char): (r: Option<int>)
    ensures r.Some? ==> 0 <= r.value < 16 && c >= ' '
  {
    if '0' <= c <= '9' then Some(c as int - '0' as int)
    else if 'a' <= c <= 'f' then Some(c as int - 'a' as int + 10)
    else if 'A' <= c <= 'F' then Some(c as int - 'A' as int + 10)
    else None
  }

  /** How `JSON.stringify` writes one character inside a string literal:
      itself, a two-character escape, or `\u00XX` for the remaining control
      characters. */
  function EscapeChar(c: char): (r: string)
    ensures Printable(r)
    ensures r == [c] <==> c >= ' ' && c != '"' && c != '\\'
  {
    match ShortEscape(c)
    case Some(letter) => ['\\', letter]
    case None =>
      if c < ' ' then ['\\', 'u', '0', '0', HexDigit(c as int / 16), HexDigit(c as int % 16)]
      else [c]
  }

  /** The body of the string literal `JSON.stringify` writes for `s`. */
  function Escape(s: string): (r: string)
    ensures Printable(r)
  {
    if s == [] then [] else EscapeChar(s[0]) + Escape(s[1..])
  }

  function Quote(s: string): string
  {
    "\"" + Escape(s) + "\""
  }

  /** The elements of a non-empty array, comma separated. */
  function Elements(list: seq<string>): string
  {
    if list == [] then []
    else if |list| == 1 then Quote(list[0])
    else Quote(list[0]) + "," + Elements(list[1..])
  }

  lemma {:induction false} ElementsPrintable(list: seq<string>)
    ensures Printable(Elements(list))
  {
    if list != [] {
      PrintableConcat("\"" + Escape(list[0]), "\"");
      PrintableConcat("\"", Escape(list[0]));
      if |list| > 1 {
        ElementsPrintable(list[1..]);
        PrintableConcat(Quote(list[0]), ",");
        PrintableConcat(Quote(list[0]) + ",", Elements(list[1..]));
      }
    }
  }

  /** `JSON.stringify` of a list of strings: bracketed, and with every
      control character escaped. */
  function Encode(list: seq<string>): (r: string)
    ensures |r| >= 2 && r[0] == '[' && r[|r| - 1] == ']'
    ensures Printable(r)
  {
    ElementsPrintable(list);
    PrintableConcat("[", Elements(list));
    PrintableConcat("[" + Elements(list), "]");
    "[" + Elements(list) + "]"
  }

  /** What the new-survey screen stores in `images`: the encoded list, or
      nothing at all when no image was picked. */
  function ImagesField(list: seq<string>): (r: Option<string>)
    ensures r.None? <==> list == []
    ensures r.Some? ==> r.value != "" && Printable(r.value)
  {
    if |list| > 0 then Some(Encode(list)) else None
  }

  /** Reads an escape after its backslash: the character it stands for and
      what follows it. A `\u` escape naming a surrogate half is refused. */
  function ReadEscape(s: string): (r: Option<(char, string)>)
    ensures r.Some? ==> |r.value.1| < |s|
  {
    if s == [] then None
    else if s[0] == 'u' then
      if |s| < 5 then None
      else
        match (HexValue(s[1]), HexValue(s[2]), HexValue(s[3]), HexValue(s[4]))
        case (Some(a), Some(b), Some(c), Some(d)) =>
          var code := 4096 * a + 256 * b + 16 * c + d;
          if 0xD800 <= code < 0xE000 then None else Some((code as char, s[5..]))
        case _ => None
    else
      match Unescape(s[0])
      case None => None
      case Some(c) => Some((c, s[1..]))
  }

  /** Reads the rest of a string literal after its opening quote: the
      unescaped text, and what follows the closing quote. A raw control
      character ends the read with a failure, as in `JSON.parse`. */
  function ReadString(s: string): (r: Option<(string, string)>)
    ensures r.Some? ==> |r.value.1| < |s|
  {
    if s == [] then None
    else if s[0] == '"' then Some(([], s[1..]))
    else if s[0] < ' ' then None
    else if s[0] == '\\' then
      match ReadEscape(s[1..])
      case None => None
      case Some((c, after)) =>
        match ReadString(after)
        case None => None
        case Some((text, rest)) => Some(([c] + text, rest))
    else
      match ReadString(s[1..])
      case None => None
      case Some((text, rest)) => Some(([s[0]] + text, rest))
  }

  /** Reads `"…","…",…]`: one or more string literals and the closing bracket. */
  function ReadElements(s: string): (r: Option<seq<string>>)
    ensures r.Some? ==> |r.value| > 0
    decreases |s|
  {
    if s == [] || s[0] != '"' then None
    else
      match ReadString(s[1..])
      case None => None
      case Some((text, rest)) =>
        if rest == "]" then Some([text])
        else if |rest| > 0 && rest[0] == ',' then
          match ReadElements(rest[1..])
          case None => None
          case Some(more) => Some([text] + more)
        else None
  }

  /** `JSON.parse` of the field, or None where it would throw. Whitespace
      between tokens is refused too, although `JSON.parse` skips it. */
  function Decode(s: string): (r: Option<seq<string>>)
    ensures s == "" ==> r == None
  {
    if s == "[]" then Some([])
    else if |s| > 0 && s[0] == '[' then ReadElements(s[1..])
    else None
  }

  lemma PrintableConcat(a: string, b: string)
    ensures Printable(a + b) <==> Printable(a) && Printable(b)
  {
    if Printable(a) && Printable(b) {
      forall i | 0 <= i < |a + b|
        ensures (a + b)[i] >= ' '
      {
        if i >= |a| {
          assert (a + b)[i] == b[i - |a|];
        }
      }
    }
    if Printable(a + b) {
      forall i | 0 <= i < |a|
        ensures a[i] >= ' '
      {
        assert a[i] == (a + b)[i];
      }
      forall i | 0 <= i < |b|
        ensures b[i] >= ' '
      {
        assert b[i] == (a + b)[i + |a|];
      }
    }
  }

  /** `s` is a stretch without raw control characters followed by `rest`. */
  predicate PrintableUpTo(s: string, rest: string)
  {
    |rest| <= |s| && s[|s| - |rest|..] == rest && Printable(s[..|s| - |rest|])
  }

  lemma PrintableHead(s: string)
    requires s != [] && s[0] >= ' '
    ensures PrintableUpTo(s, s[1..])
  {
  }

  lemma PrintableUpToJoin(s: string, mid: string, rest: string)
    requires PrintableUpTo(s, mid) && PrintableUpTo(mid, rest)
    ensures PrintableUpTo(s, rest)
  {
    var k := |s| - |mid|;
    assert s[k..] == mid;
    forall i | 0 <= i < |s| - |rest|
      ensures s[i] >= ' '
    {
      if i >= k {
        assert s[i] == s[k..][i - k];
      }
    }
    assert s[|s| - |rest|..] == s[k..][|mid| - |rest|..];
  }

  lemma PrintableWhole(s: string, rest: string)
    requires PrintableUpTo(s, rest) && Printable(rest)
    ensures Printable(s)
  {
    assert s == s[..|s| - |rest|] + rest;
    PrintableConcat(s[..|s| - |rest|], rest);
  }

  lemma ReadEscapePrintable(s: string)
    requires ReadEscape(s).Some?
    ensures PrintableUpTo(s, ReadEscape(s).value.1)
  {
    if s[0] == 'u' {
      assert forall i :: 1 <= i < 5 ==> HexValue(s[i]).Some?;
    }
  }

  /** A string literal that reads holds no raw control character. */
  lemma {:induction false} ReadStringPrintable(s: string)
    requires ReadString(s).Some?
    ensures PrintableUpTo(s, ReadString(s).value.1)
    decreases |s|
  {
    var rest := ReadString(s).value.1;
    PrintableHead(s);
    if s[0] == '"' {
    } else if s[0] == '\\' {
      var after := ReadEscape(s[1..]).value.1;
      ReadEscapePrintable(s[1..]);
      PrintableUpToJoin(s, s[1..], after);
      ReadStringPrintable(after);
      PrintableUpToJoin(s, after, rest);
    } else {
      ReadStringPrintable(s[1..]);
      PrintableUpToJoin(s, s[1..], rest);
    }
  }

  lemma {:induction false} ReadElementsPrintable(s: string)
    requires ReadElements(s).Some?
    ensures Printable(s)
    decreases |s|
  {
    var rest := ReadString(s[1..]).value.1;
    PrintableHead(s);
    ReadStringPrintable(s[1..]);
    PrintableUpToJoin(s, s[1..], rest);
    if rest != "]" {
      ReadElementsPrintable(rest[1..]);
      PrintableHead(rest);
      PrintableWhole(rest, rest[1..]);
    }
    PrintableWhole(s, rest);
  }

  /** Text that `Decode` accepts holds no raw control character. `JSON.parse`
      throws on one inside a string literal; between tokens it would skip a
      tab, line feed or carriage return as whitespace, which `Decode` does not
      model and refuses. */
  lemma DecodePrintable(s: string)
    ensures Decode(s).Some? ==> Printable(s)
  {
    if Decode(s).Some? && s != "[]" {
      ReadElementsPrintable(s[1..]);
      PrintableHead(s);
      PrintableWhole(s, s[1..]);
    }
  }

  /** One character of escaped text, then the rest of the literal. */
  lemma EscapeStep(text: string, rest: string)
    requires text != []
    ensures Escape(text) + "\"" + rest == EscapeChar(text[0]) + (Escape(text[1..]) + "\"" + rest)
  {
  }

  /** An escape written for `c` reads back as `c`. */
  lemma ReadEscapeChar(c: char, tail: string)
    requires EscapeChar(c) != [c]
    ensures |EscapeChar(c)| >= 2 && EscapeChar(c)[0] == '\\'
    ensures ReadEscape(EscapeChar(c)[1..] + tail) == Some((c, tail))
  {
    var e := EscapeChar(c);
    var s := e[1..] + tail;
    match ShortEscape(c)
    case Some(letter) =>
      assert s[0] == letter && s[1..] == tail;
    case None =>
      var n := c as int;
      assert s[..5] == ['u', '0', '0', HexDigit(n / 16), HexDigit(n % 16)];
      assert s[5..] == tail;
  }

  lemma {:induction false} ReadEscaped(text: string, rest: string)
    ensures ReadString(Escape(text) + "\"" + rest) == Some((text, rest))
  {
    if text == [] {
      assert Escape(text) + "\"" + rest == "\"" + rest;
      assert ("\"" + rest)[1..] == rest;
    } else {
      var c := text[0];
      var tail := Escape(text[1..]) + "\"" + rest;
      ReadEscaped(text[1..], rest);
      EscapeStep(text, rest);
      assert [c] + text[1..] == text;
      ReadCharStep(c, tail, text[1..], rest);
    }
  }

  /** One written character in front of a literal that reads. */
  lemma ReadCharStep(c: char, tail: string, text: string, rest: string)
    requires ReadString(tail) == Some((text, rest))
    ensures ReadString(EscapeChar(c) + tail) == Some(([c] + text, rest))
  {
    var e := EscapeChar(c);
    var s := e + tail;
    if e == [c] {
      assert s[0] == c && s[1..] == tail;
    } else {
      ReadEscapeChar(c, tail);
      assert s[0] == '\\' && s[1..] == e[1..] + tail;
    }
  }

  lemma ReadLastElement(text: string)
    ensures ReadElements(Quote(text) + "]") == Some([text])
  {
    var s := Quote(text) + "]";
    assert s[1..] == Escape(text) + "\"" + "]";
    ReadEscaped(text, "]");
  }

  lemma ReadFirstElement(text: string, more: string, list: seq<string>)
    requires ReadElements(more) == Some(list)
    ensures ReadElements(Quote(text) + "," + more) == Some([text] + list)
  {
    var s := Quote(text) + "," + more;
    var rest := "," + more;
    assert s[0] == '"';
    assert s[1..] == Escape(text) + "\"" + rest;
    ReadEscaped(text, rest);
    assert rest != "]" by {
      assert more != [];
    }
    assert rest[0] == ',' && rest[1..] == more;
    ElementsStep(s, text, rest, list);
  }

  /** `ReadElements` past a first literal that a comma follows. */
  lemma ElementsStep(s: string, text: string, rest: string, list: seq<string>)
    requires s != [] && s[0] == '"' && ReadString(s[1..]) == Some((text, rest))
    requires rest != "]" && |rest| > 0 && rest[0] == ',' && ReadElements(rest[1..]) == Some(list)
    ensures ReadElements(s) == Some([text] + list)
  {
  }

  lemma {:induction false} ReadEncodedElements(list: seq<string>)
    requires list != []
    ensures ReadElements(Elements(list) + "]") == Some(list)
    decreases |list|
  {
    if |list| == 1 {
      ReadLastElement(list[0]);
      assert [list[0]] == list;
    } else {
      ReadEncodedElements(list[1..]);
      ReadFirstElement(list[0], Elements(list[1..]) + "]", list[1..]);
      assert Elements(list) + "]" == Quote(list[0]) + "," + (Elements(list[1..]) + "]");
      assert [list[0]] + list[1..] == list;
    }
  }

  /** Reading back a stored list gives the same references in the same order. */
  lemma DecodeEncode(list: seq<string>)
    ensures Decode(Encode(list)) == Some(list)
  {
    if list != [] {
      var elements := Elements(list);
      var s := "[" + elements + "]";
      assert |elements| >= 2 by {
        assert |Quote(list[0])| >= 2;
      }
      ReadEncodedElements(list);
      assert s[0] == '[' && s[1..] == elements + "]";
      DecodeArray(s, list);
    }
  }

  /** `Decode` of a bracket followed by elements that read back. */
  lemma DecodeArray(s: string, list: seq<string>)
    requires |s| > 2 && s[0] == '[' && ReadElements(s[1..]) == Some(list)
    ensures Decode(s) == Some(list)
  {
  }
}
