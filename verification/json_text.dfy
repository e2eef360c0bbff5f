/** The text that `json.dumps({"uid": user_id})` writes for the refresh-session
    store, and a reader for exactly that layout. `json.dumps` escapes with
    its default `ensure_ascii=True`: quote and backslash, the five named
    control escapes, every other character outside `' '..'~'` as `\uXXXX`
    (lower-case hex), and a character above U+FFFF as a surrogate pair. */
module JsonText {
  import opened Wrappers

  /** One lower-case hexadecimal digit. */
  function HexDigit(d: int): (c: char)
    requires 0 <= d < 16
  {
    if d < 10 then ('0' as int + d) as char else ('a' as int + d - 10) as char
  }

  /** The value of a hexadecimal digit of either case, as `json.loads` reads it. */
  function HexValue(c: char): Option<int>
  {
    if '0' <= c <= '9' then Some(c as int - '0' as int)
    else if 'a' <= c <= 'f' then Some(c as int - 'a' as int + 10)
    else if 'A' <= c <= 'F' then Some(c as int - 'A' as int + 10)
    else None
  }

  /** `'{0:04x}'.format(u)` for a 16-bit code unit. */
  function Hex4(u: int): (s: string)
    requires 0 <= u < 0x1_0000
    ensures |s| == 4
  {
    var q1, d0 := u / 16, u % 16;
    var q2, d1 := q1 / 16, q1 % 16;
    var q3, d2 := q2 / 16, q2 % 16;
    [HexDigit(q3), HexDigit(d2), HexDigit(d1), HexDigit(d0)]
  }

  /** Reads four hexadecimal digits as a 16-bit code unit. */
  function ReadHex4(s: string): Option<int>
    requires |s| == 4
  {
    match (HexValue(s[0]), HexValue(s[1]), HexValue(s[2]), HexValue(s[3]))
    case (Some(a), Some(b), Some(c), Some(d)) => Some(((a * 16 + b) * 16 + c) * 16 + d)
    case _ => None
  }

  const Backspace: char := 8 as char
  const FormFeed: char := 12 as char

  /** `\uXXXX` for one UTF-16 code unit. */
  function UnitEscape(u: int): (s: string)
    requires 0 <= u < 0x1_0000
    ensures |s| == 6
  {
    "\\u" + Hex4(u)
  }

  /** How one character of a string value is written. */
  function EscapeChar(c: char): string
  {
    if c == '"' then "\\\""
    else if c == '\\' then "\\\\"
    else if c == '\n' then "\\n"
    else if c == '\r' then "\\r"
    else if c == '\t' then "\\t"
    else if c == Backspace then "\\b"
    else if c == FormFeed then "\\f"
    else if ' ' <= c <= '~' then [c]
    else if c as int < 0x1_0000 then UnitEscape(c as int)
    else
      var v := c as int - 0x1_0000;
      UnitEscape(0xD800 + v / 1024) + UnitEscape(0xDC00 + v % 1024)
  }

  /** The body of a string literal (without its quotes). */
  function Escape(s: string): string
  {
    if |s| == 0 then [] else EscapeChar(s[0]) + Escape(s[1..])
  }

  /** `json.dumps({"uid": uid})`, with the default `": "` separator. */
  function DumpsUid(uid: string): string
  {
    "{\"uid\": \"" + Escape(uid) + "\"}"
  }

  /** Reads one escape sequence at the head of `t`: the character and the
      number of characters used. A surrogate must come as a high/low pair,
      since a lone one is not a character of the model. */
  function ReadEscape(t: string): (r: Option<(char, nat)>)
    requires |t| > 0 && t[0] == '\\'
    ensures r.Some? ==> 2 <= r.value.1 <= |t|
  {
    if |t| < 2 then None
    else if t[1] == '"' then Some(('"', 2))
    else if t[1] == '\\' then Some(('\\', 2))
    else if t[1] == '/' then Some(('/', 2))
    else if t[1] == 'b' then Some((Backspace, 2))
    else if t[1] == 'f' then Some((FormFeed, 2))
    else if t[1] == 'n' then Some(('\n', 2))
    else if t[1] == 'r' then Some(('\r', 2))
    else if t[1] == 't' then Some(('\t', 2))
    else if t[1] == 'u' && |t| >= 6 then
      match ReadHex4(t[2..6])
      case None => None
      case Some(hi) =>
        if 0xDC00 <= hi < 0xE000 then None
        else if 0xD800 <= hi < 0xDC00 then
          if |t| >= 12 && t[6] == '\\' && t[7] == 'u' then
            match ReadHex4(t[8..12])
            case Some(lo) =>
              if 0xDC00 <= lo < 0xE000 && 0 <= hi then
                Some(((0x1_0000 + (hi - 0xD800) * 1024 + (lo - 0xDC00)) as char, 12))
              else None
            case None => None
          else None
        else if 0 <= hi then Some((hi as char, 6))
        else None
    else None
  }

  /** Reads a string body up to its closing quote; returns the value and
      what follows the quote. Raw control characters are refused. */
  function ReadString(t: string): Option<(string, string)>
    decreases |t|
  {
    if |t| == 0 then None
    else if t[0] == '"' then Some(([], t[1..]))
    else if t[0] == '\\' then
      match ReadEscape(t)
      case None => None
      case Some((c, n)) =>
        match ReadString(t[n..])
        case None => None
        case Some((v, rest)) => Some(([c] + v, rest))
    else if t[0] < ' ' then None
    else
      match ReadString(t[1..])
      case None => None
      case Some((v, rest)) => Some(([t[0]] + v, rest))
  }

  const UidPrefix: string := "{\"uid\": \""

  /** Reads back the `uid` of a value laid out as `DumpsUid` writes it. */
  function ParseUid(t: string): Option<string>
  {
    if |t| >= |UidPrefix| && t[..|UidPrefix|] == UidPrefix then
      match ReadString(t[|UidPrefix|..])
      case Some((v, rest)) => if rest == "}" then Some(v) else None
      case None => None
    else None
  }

  lemma HexDigitValue(d: int)
    requires 0 <= d < 16
    ensures HexValue(HexDigit(d)) == Some(d)
  {
  }

  lemma ReadHex4Hex4(u: int)
    requires 0 <= u < 0x1_0000
    ensures ReadHex4(Hex4(u)) == Some(u)
  {
    var q1, d0 := u / 16, u % 16;
    var q2, d1 := q1 / 16, q1 % 16;
    var q3, d2 := q2 / 16, q2 % 16;
    HexDigitValue(q3);
    HexDigitValue(d2);
    HexDigitValue(d1);
    HexDigitValue(d0);
    assert u == q1 * 16 + d0;
    assert q1 == q2 * 16 + d1;
    assert q2 == q3 * 16 + d2;
  }

  /** A character that needs escaping. */
  predicate NeedsEscape(c: char) {
    c == '"' || c == '\\' || !(' ' <= c <= '~')
  }

  lemma ReadEscapeUnit(v: int, tail: string)
    requires 0 <= v < 0xD800 || 0xE000 <= v < 0x1_0000
    ensures ReadEscape(UnitEscape(v) + tail) == Some((v as char, 6))
  {
    var t := UnitEscape(v) + tail;
    ReadHex4Hex4(v);
    assert t[2..6] == Hex4(v);
  }

  /** A high/low surrogate pair of escapes reads back as the character
      they encode. */
  lemma ReadEscapeSurrogates(hi: int, lo: int, tail: string)
    requires 0xD800 <= hi < 0xDC00 && 0xDC00 <= lo < 0xE000
    ensures ReadEscape(UnitEscape(hi) + UnitEscape(lo) + tail)
            == Some(((0x1_0000 + (hi - 0xD800) * 1024 + (lo - 0xDC00)) as char, 12))
  {
    var t := UnitEscape(hi) + UnitEscape(lo) + tail;
    ReadHex4Hex4(hi);
    ReadHex4Hex4(lo);
    assert t[2..6] == Hex4(hi);
    assert t[6] == '\\' && t[7] == 'u';
    assert t[8..12] == Hex4(lo);
  }

  lemma ReadEscapePair(c: char, tail: string)
    requires c as int >= 0x1_0000
    ensures ReadEscape(EscapeChar(c) + tail) == Some((c, 12))
  {
    var w := c as int - 0x1_0000;
    var hi, lo := 0xD800 + w / 1024, 0xDC00 + w % 1024;
    assert EscapeChar(c) == UnitEscape(hi) + UnitEscape(lo);
    ReadEscapeSurrogates(hi, lo, tail);
    assert (hi - 0xD800) * 1024 + (lo - 0xDC00) == w;
  }

  /** An escape sequence written for `c` reads back as `c`, whatever follows. */
  lemma ReadEscapeOf(c: char, tail: string)
    requires NeedsEscape(c)
    ensures |EscapeChar(c)| >= 2 && EscapeChar(c)[0] == '\\'
    ensures ReadEscape(EscapeChar(c) + tail) == Some((c, |EscapeChar(c)|))
  {
    var v := c as int;
    if c == '"' || c == '\\' || c == '\n' || c == '\r' || c == '\t' || c == Backspace || c == FormFeed {
    } else if v < 0x1_0000 {
      ReadEscapeUnit(v, tail);
    } else {
      ReadEscapePair(c, tail);
    }
  }

  /** Reading an escaped character back yields it, whatever follows. */
  lemma ReadEscapeChar(c: char, tail: string)
    ensures ReadString(EscapeChar(c) + tail) == (
      match ReadString(tail)
      case None => None
      case Some((v, rest)) => Some(([c] + v, rest)))
  {
    var t := EscapeChar(c) + tail;
    if NeedsEscape(c) {
      ReadEscapeOf(c, tail);
      assert t[|EscapeChar(c)|..] == tail;
    } else {
      assert t[1..] == tail;
    }
  }

  /** Round trip of a string body followed by its closing quote. */
  lemma {:induction false} ReadStringEscape(s: string, tail: string)
    ensures ReadString(Escape(s) + "\"" + tail) == Some((s, tail))
  {
    if |s| == 0 {
      assert Escape(s) + "\"" + tail == "\"" + tail;
    } else {
      var rest := Escape(s[1..]) + "\"" + tail;
      assert Escape(s) + "\"" + tail == EscapeChar(s[0]) + rest;
      ReadEscapeChar(s[0], rest);
      ReadStringEscape(s[1..], tail);
      assert [s[0]] + s[1..] == s;
    }
  }

  /** Round trip: the stored text reads back as the user id it was made from. */
  lemma ParseDumpsUid(uid: string)
    ensures ParseUid(DumpsUid(uid)) == Some(uid)
  {
    var t := DumpsUid(uid);
    assert t[..|UidPrefix|] == UidPrefix;
    assert t[|UidPrefix|..] == Escape(uid) + "\"" + "}";
    ReadStringEscape(uid, "}");
  }

  /** Distinct user ids are stored as distinct texts. */
  lemma DumpsUidInjective(a: string, b: string)
    requires DumpsUid(a) == DumpsUid(b)
    ensures a == b
  {
    ParseDumpsUid(a);
    ParseDumpsUid(b);
  }
}
