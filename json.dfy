/**
 * json.dumps on a list of strings, with its default settings: items
 * separated by ", ", strings in double quotes, and every character outside
 * ' '..'~' written as a \uXXXX escape (ensure_ascii), lower-case hex, with a
 * surrogate pair above U+FFFF.
 */
module Json {
  import opened Wrappers
  import opened Strings

  /** A character json.dumps writes as itself inside a string. */
  predicate IsPlain(c: char) {
    ' ' <= c <= '~' && c != '"' && c != '\\'
  }

  predicate AllPlain(s: string) {
    forall i :: 0 <= i < |s| ==> IsPlain(s[i])
  }

  function HexDigit(n: nat): (c: char)
    requires n < 16
    ensures IsPlain(c)
  {
    if n < 10 then ('0' as int + n) as char else ('a' as int + n - 10) as char
  }

  /** \uXXXX for a code unit below 0x10000. */
  function UnicodeEscape(n: nat): (r: string)
    requires n < 0x1_0000
    ensures |r| == 6 && r[0] == '\\' && r[1] == 'u'
  {
    ['\\', 'u', HexDigit(n / 0x1000), HexDigit(n / 0x100 % 16), HexDigit(n / 0x10 % 16), HexDigit(n % 16)]
  }

  /** How json.dumps writes one character inside a string literal. */
  function EscapeChar(c: char): (r: string)
    ensures r == [c] <==> IsPlain(c)
    ensures !IsPlain(c) ==> |r| >= 2 && r[0] == '\\'
  {
    if c == '"' then "\\\""
    else if c == '\\' then "\\\\"
    else if c == '\n' then "\\n"
    else if c == '\r' then "\\r"
    else if c == '\t' then "\\t"
    else if c == '\U{8}' then "\\b"
    else if c == '\U{C}' then "\\f"
    else if ' ' <= c <= '~' then [c]
    else if c as int < 0x1_0000 then UnicodeEscape(c as int)
    else
      var n := c as int - 0x1_0000;
      UnicodeEscape(0xD800 + n / 0x400) + UnicodeEscape(0xDC00 + n % 0x400)
  }

  function EscapeAll(s: string): (r: string)
    ensures AllPlain(s) ==> r == s
  {
    if s == [] then [] else EscapeChar(s[0]) + EscapeAll(s[1..])
  }

  /** json.dumps(s) for a string s. */
  function EncodeString(s: string): (r: string)
    ensures AllPlain(s) ==> r == "\"" + s + "\""
  {
    "\"" + EscapeAll(s) + "\""
  }

  function EncodeItems(items: seq<string>): string
  {
    if items == [] then ""
    else if |items| == 1 then EncodeString(items[0])
    else EncodeString(items[0]) + ", " + EncodeItems(items[1..])
  }

  /** json.dumps(items) for a list of strings. */
  function EncodeStringList(items: seq<string>): (r: string)
    ensures |r| >= 2 && r[0] == '[' && r[|r| - 1] == ']'
    ensures r == "[]" <==> items == []
  {
    var body := EncodeItems(items);
    assert items != [] ==> body != [] && body[0] == '"';
    "[" + body + "]"
  }

  /**
   * Reads back a list of strings from its JSON text, when no item needed an
   * escape. Text of any other form gives None.
   */
  function DecodePlainList(s: string): (r: Option<seq<string>>)
  {
    if |s| < 2 || s[0] != '[' || s[|s| - 1] != ']' then None
    else if s == "[]" then Some([])
    else DecodeItems(s[1..|s| - 1])
  }

  function DecodeItems(t: string): (r: Option<seq<string>>)
    ensures r.Some? ==> |r.value| >= 1
    decreases |t|
  {
    if t == [] || t[0] != '"' then None
    else
      match FindFrom(t, "\"", 1)
      case None => None
      case Some(j) =>
        var rest := t[j + 1..];
        if rest == [] then Some([t[1..j]])
        else if |rest| >= 2 && rest[..2] == ", " then
          match DecodeItems(rest[2..])
          case None => None
          case Some(items) => Some([t[1..j]] + items)
        else None
  }

  /** The quoted item at the front of t is read up to its closing quote. */
  lemma DecodeFirstItem(w: string, rest: string)
    requires AllPlain(w)
    ensures var t := "\"" + w + "\"" + rest;
      FindFrom(t, "\"", 1) == Some(|w| + 1) && t[1..|w| + 1] == w && t[|w| + 2..] == rest
  {
    var t := "\"" + w + "\"" + rest;
    assert OccursAt(t, "\"", |w| + 1);
    forall j: nat | 1 <= j < |w| + 1 ensures !OccursAt(t, "\"", j) {
      assert t[j] == w[j - 1];
    }
    assert t[1..|w| + 1] == w;
    assert t[|w| + 2..] == rest;
  }

  /** Reading a plain quoted item, then whatever follows it. */
  lemma DecodeItemsStep(w: string, rest: string)
    requires AllPlain(w)
    ensures DecodeItems("\"" + w + "\"" + rest) ==
      if rest == [] then Some([w])
      else if |rest| >= 2 && rest[..2] == ", " then
        match DecodeItems(rest[2..]) case None => None case Some(items) => Some([w] + items)
      else None
  {
    DecodeFirstItem(w, rest);
  }

  lemma {:induction false} DecodeEncodeItems(items: seq<string>)
    requires |items| >= 1
    requires forall k :: 0 <= k < |items| ==> AllPlain(items[k])
    ensures DecodeItems(EncodeItems(items)) == Some(items)
    decreases |items|
  {
    var w := items[0];
    if |items| == 1 {
      assert EncodeItems(items) == "\"" + w + "\"" + "";
      assert DecodeItems("\"" + w + "\"" + "") == Some(items) by {
        DecodeItemsStep(w, "");
        assert items == [w];
      }
    } else {
      var tail := EncodeItems(items[1..]);
      var rest := ", " + tail;
      assert EncodeItems(items) == "\"" + w + "\"" + rest;
      DecodeEncodeItems(items[1..]);
      assert DecodeItems(rest[2..]) == Some(items[1..]) by {
        assert rest[2..] == tail;
      }
      assert DecodeItems("\"" + w + "\"" + rest) == Some([w] + items[1..]) by {
        DecodeItemsStep(w, rest);
        assert rest[..2] == ", ";
      }
      assert [w] + items[1..] == items;
    }
  }

  /** Every list of strings that need no escape reads back from its JSON text. */
  lemma DecodeEncodeList(items: seq<string>)
    requires forall k :: 0 <= k < |items| ==> AllPlain(items[k])
    ensures DecodePlainList(EncodeStringList(items)) == Some(items)
  {
    if items != [] {
      DecodeEncodeItems(items);
      var s := EncodeStringList(items);
      assert s[1..|s| - 1] == EncodeItems(items);
    }
  }
}
