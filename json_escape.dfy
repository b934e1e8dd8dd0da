/** `escapeForJson` (src/main.cpp) and a decoder for the string-body grammar of
    section 7 of RFC 8259, against which the escaper is proved correct. */
module JsonEscape {
  import opened Wrappers

  const Backspace: char := '\U{0008}'
  const FormFeed: char := '\U{000C}'

  /** A lower-case hexadecimal digit, as `std::hex` prints it. */
  function HexDigit(d: nat): (c: char)
    requires d < 16
  {
    if d < 10 then ('0' as int + d) as char else ('a' as int + d - 10) as char
  }

  /** The text `escapeForJson` appends for one character. The character type
      is taken as unsigned: every character from 32 up passes through. */
  function EscapeChar(c: char): string {
    if c == '\\' then "\\\\"
    else if c == '"' then "\\\""
    else if c == Backspace then "\\b"
    else if c == FormFeed then "\\f"
    else if c == '\n' then "\\n"
    else if c == '\r' then "\\r"
    else if c == '\t' then "\\t"
    else if c < ' ' then "\\u00" + [HexDigit(c as int / 16), HexDigit(c as int % 16)]
    else [c]
  }

  /** Each character's escape: backslash and quote get a backslash before
      them, the five named control characters their letter escapes, every
      other control character `\u00` and two lower-case hex digits, and
      every other character stands for itself. No escape holds a character
      below U+0020; DEL and characters from U+0080 up pass through. */
  lemma EscapeCharCases(c: char)
    ensures var r := EscapeChar(c);
      && 1 <= |r| <= 6
      && (forall k :: 0 <= k < |r| ==> r[k] >= ' ')
      && (r == [c] <==> (c >= ' ' && c != '"' && c != '\\'))
      && (|r| > 1 ==> r[0] == '\\')
      && (c == '\\' ==> r == "\\\\") && (c == '"' ==> r == "\\\"")
      && (c == Backspace ==> r == "\\b") && (c == FormFeed ==> r == "\\f")
      && (c == '\n' ==> r == "\\n") && (c == '\r' ==> r == "\\r") && (c == '\t' ==> r == "\\t")
      && (c < ' ' && c !in {Backspace, FormFeed, '\n', '\r', '\t'} ==>
            r == "\\u00" + [HexDigit(c as int / 16), HexDigit(c as int % 16)])
  {
  }

  /** The complete escaped text: the escapes of the characters, in order. */
  function Escape(s: string): string {
    if s == [] then [] else EscapeChar(s[0]) + Escape(s[1..])
  }

  /** Escaping distributes over concatenation. */
  lemma {:induction false} EscapeAppend(a: string, b: string)
    ensures Escape(a + b) == Escape(a) + Escape(b)
  {
    if a == [] {
      assert a + b == b;
    } else {
      assert (a + b)[0] == a[0];
      assert (a + b)[1..] == a[1..] + b;
      EscapeAppend(a[1..], b);
    }
  }

  /** `escapeForJson`: one pass over the input, appending each character's
      escape to `result`. */
  method EscapeForJson(str: string) returns (result: string)
    ensures result == Escape(str)
  {
    result := [];
    for i := 0 to |str|
      invariant result == Escape(str[..i])
    {
      var c := str[i];
      var piece: string;
      if c == '\\' {
        piece := "\\\\";
      } else if c == '"' {
        piece := "\\\"";
      } else if c == Backspace {
        piece := "\\b";
      } else if c == FormFeed {
        piece := "\\f";
      } else if c == '\n' {
        piece := "\\n";
      } else if c == '\r' {
        piece := "\\r";
      } else if c == '\t' {
        piece := "\\t";
      } else if c < ' ' {
        piece := "\\u00" + [HexDigit(c as int / 16), HexDigit(c as int % 16)];
      } else {
        piece := [c];
      }
      assert piece == EscapeChar(c);
      EscapeStep(str, i);
      result := result + piece;
    }
    assert str[..|str|] == str;
  }

  lemma EscapeStep(str: string, i: nat)
    requires i < |str|
    ensures Escape(str[..i + 1]) == Escape(str[..i]) + EscapeChar(str[i])
  {
    assert str[..i + 1] == str[..i] + [str[i]];
    EscapeAppend(str[..i], [str[i]]);
  }

  /** The escaped text holds no raw control character. */
  lemma {:induction false} EscapeNoControl(s: string)
    ensures forall k :: 0 <= k < |Escape(s)| ==> Escape(s)[k] >= ' '
  {
    if s != [] {
      EscapeCharCases(s[0]);
      EscapeNoControl(s[1..]);
    }
  }

  /** The escaped text holds a double quote only right after a backslash.
      That backslash may itself be the second half of an escaped backslash
      (as in `\\"` read on its own); that no quote of the output is left
      unescaped follows from `EscapeRoundTrip`, since `Unescape` refuses a
      bare `"`. */
  lemma {:induction false} EscapeQuotesEscaped(s: string)
    ensures forall k :: 0 <= k < |Escape(s)| && Escape(s)[k] == '"' ==> k > 0 && Escape(s)[k - 1] == '\\'
  {
    if s != [] {
      EscapeQuotesEscaped(s[1..]);
      EscapeCharCases(s[0]);
      var h, t := EscapeChar(s[0]), Escape(s[1..]);
      assert Escape(s) == h + t;
      forall k | 0 <= k < |h + t| && (h + t)[k] == '"'
        ensures k > 0 && (h + t)[k - 1] == '\\'
      {
        if k >= |h| {
          assert t[k - |h|] == '"';
          if k - |h| == 0 {
            assert false;
          }
        }
      }
    }
  }

  // ---------------------------------------------------------------------
  // Decoding a JSON string body, section 7 of RFC 8259.

  /** The value of a hexadecimal digit of either case. */
  function HexValue(c: char): (r: Option<nat>)
    ensures r.Some? ==> r.value < 16
  {
    if '0' <= c <= '9' then Some(c as int - '0' as int)
    else if 'a' <= c <= 'f' then Some(c as int - 'a' as int + 10)
    else if 'A' <= c <= 'F' then Some(c as int - 'A' as int + 10)
    else None
  }

  /** The value of four hexadecimal digits. */
  function Hex4(h: string): (r: Option<nat>)
    requires |h| == 4
    ensures r.Some? ==> r.value < 0x10000
  {
    match (HexValue(h[0]), HexValue(h[1]), HexValue(h[2]), HexValue(h[3]))
    case (Some(a), Some(b), Some(c), Some(d)) => Some(((a * 16 + b) * 16 + c) * 16 + d)
    case _ => None
  }

  /** The character a two-character escape `\e` stands for. */
  function ShortEscape(e: char): Option<char> {
    if e == '"' then Some('"')
    else if e == '\\' then Some('\\')
    else if e == '/' then Some('/')
    else if e == 'b' then Some(Backspace)
    else if e == 'f' then Some(FormFeed)
    else if e == 'n' then Some('\n')
    else if e == 'r' then Some('\r')
    else if e == 't' then Some('\t')
    else None
  }

  function Prepend(c: char, rest: Option<string>): Option<string> {
    match rest
    case Some(s) => Some([c] + s)
    case None => None
  }

  /** The characters a JSON string body denotes, or None when the body is not
      well formed: a raw control character or `"`, an unknown escape, a
      truncated or non-hexadecimal `\u` escape. A `\u` escape naming a UTF-16
      surrogate is refused, since surrogate pairs are not decoded. */
  function Unescape(t: string): Option<string>
    decreases |t|
  {
    if t == [] then Some([])
    else if t[0] == '\\' then
      if |t| < 2 then None
      else if t[1] == 'u' then
        if |t| < 6 then None
        else match Hex4(t[2..6])
          case None => None
          case Some(v) =>
            if 0xD800 <= v < 0xE000 then None else Prepend(v as char, Unescape(t[6..]))
      else match ShortEscape(t[1])
        case None => None
        case Some(c) => Prepend(c, Unescape(t[2..]))
    else if t[0] < ' ' || t[0] == '"' then None
    else Prepend(t[0], Unescape(t[1..]))
  }

  lemma HexDigitValue(d: nat)
    requires d < 16
    ensures HexValue(HexDigit(d)) == Some(d)
  {
  }

  /** Decoding one character's escape followed by more text. */
  lemma UnescapeChar(c: char, rest: string)
    ensures Unescape(EscapeChar(c) + rest) == Prepend(c, Unescape(rest))
  {
    var t := EscapeChar(c) + rest;
    if c < ' ' && c !in {Backspace, FormFeed, '\n', '\r', '\t'} {
      var hi, lo := c as int / 16, c as int % 16;
      HexDigitValue(hi);
      HexDigitValue(lo);
      assert t[2..6] == ['0', '0', HexDigit(hi), HexDigit(lo)];
      assert Hex4(t[2..6]) == Some(c as int);
      assert t[6..] == rest;
    } else if |EscapeChar(c)| == 2 {
      assert t[2..] == rest;
    } else {
      assert t[1..] == rest;
    }
  }

  /** Decoding the escaped text gives back the original text. */
  lemma {:induction false} EscapeRoundTrip(s: string)
    ensures Unescape(Escape(s)) == Some(s)
  {
    if s != [] {
      EscapeRoundTrip(s[1..]);
      UnescapeChar(s[0], Escape(s[1..]));
      assert [s[0]] + s[1..] == s;
    }
  }

  /** Hence escaping never maps two texts to one. */
  lemma EscapeInjective(a: string, b: string)
    requires Escape(a) == Escape(b)
    ensures a == b
  {
    EscapeRoundTrip(a);
    EscapeRoundTrip(b);
  }
}
