/**
 * How a JavaScript parser reads a single-quoted string literal, as far as the
 * reply button's inline handler needs it (mini_app/script.js:282), and the
 * escaping that makes any string safe to place inside such a literal.
 */
module JsLiteral {
  import opened Wrappers

  /** The outcome of reading the source text that follows an opening `'`. */
  datatype Scan =
    | Closed(value: string, rest: string)  // the literal denotes `value`; `rest` is read as code
    | Unterminated                          // the text ends, or a line break comes, before the closing `'`
    | Unsupported                           // an escape this model does not decode (`\x`, `\u`, digits, line continuation)

  /** The character a backslash escape `\c` denotes, for the escapes modelled here. */
  function EscapeValue(c: char): Option<char> {
    match c
    case 'n' => Some('\n')
    case 'r' => Some('\r')
    case 't' => Some('\t')
    case 'b' => Some('\U{0008}')
    case 'f' => Some('\U{000C}')
    case 'v' => Some('\U{000B}')
    case _ =>
      if c in "xu0123456789\n\r\U{2028}\U{2029}" then None
      else Some(c)
  }

  /** Reads a single-quoted literal's body up to its closing quote. */
  function ScanSingleQuoted(t: string): (r: Scan)
    ensures r.Closed? ==> |r.value| <= |t| && |r.rest| < |t| && r.rest == t[|t| - |r.rest|..]
  {
    if t == [] then Unterminated
    else if t[0] == '\'' then Closed([], t[1..])
    else if t[0] == '\n' || t[0] == '\r' then Unterminated
    else if t[0] == '\\' then
      if |t| == 1 then Unterminated
      else match EscapeValue(t[1])
        case None => Unsupported
        case Some(c) => Prepend(c, ScanSingleQuoted(t[2..]))
    else Prepend(t[0], ScanSingleQuoted(t[1..]))
  }

  function Prepend(c: char, r: Scan): Scan {
    if r.Closed? then Closed([c] + r.value, r.rest) else r
  }

  /** The characters that cannot stand for themselves inside a single-quoted literal. */
  predicate NeedsJsEscape(c: char) {
    c == '\\' || c == '\'' || c == '\n' || c == '\r'
  }

  function JsEscapeChar(c: char): string {
    match c
    case '\\' => "\\\\"
    case '\'' => "\\'"
    case '\n' => "\\n"
    case '\r' => "\\r"
    case _ => [c]
  }

  /** Escapes a string for placement between single quotes. */
  function JsEscape(s: string): string {
    if s == [] then [] else JsEscapeChar(s[0]) + JsEscape(s[1..])
  }

  /** A string without quotes, backslashes or line breaks reads back as itself. */
  lemma {:induction false} ScanPlain(s: string, rest: string)
    requires forall i | 0 <= i < |s| :: !NeedsJsEscape(s[i])
    ensures ScanSingleQuoted(s + "'" + rest) == Closed(s, rest)
  {
    if s == [] {
      assert s + "'" + rest == "'" + rest;
    } else {
      var t := s + "'" + rest;
      assert t[0] == s[0];
      assert t[1..] == s[1..] + "'" + rest;
      ScanPlain(s[1..], rest);
      assert s == [s[0]] + s[1..];
    }
  }

  /**
   * Text whose first quote is at position k, with no backslash or line break
   * before it, reads as the text before the quote; what follows the quote is code.
   */
  lemma {:induction false} ScanUntilQuote(t: string, k: nat)
    requires k < |t| && t[k] == '\''
    requires forall i | 0 <= i < k :: !NeedsJsEscape(t[i])
    ensures ScanSingleQuoted(t) == Closed(t[..k], t[k + 1..])
  {
    if k > 0 {
      assert !NeedsJsEscape(t[0]);
      ScanUntilQuote(t[1..], k - 1);
      assert t[1..][..k - 1] == t[1..k] && t[1..][k..] == t[k + 1..];
      assert t[..k] == [t[0]] + t[1..k];
    }
  }

  /** Reading one escaped character yields that character and then reads on. */
  lemma ScanEscapedChar(c: char, tail: string)
    ensures ScanSingleQuoted(JsEscapeChar(c) + tail) == Prepend(c, ScanSingleQuoted(tail))
  {
    var t := JsEscapeChar(c) + tail;
    if NeedsJsEscape(c) {
      var d := JsEscapeChar(c)[1];
      assert t[0] == '\\' && t[1] == d && t[2..] == tail;
      assert EscapeValue(d) == Some(c) by {
        assert d in "\\'nr";
      }
    } else {
      assert t[0] == c;
      assert t[1..] == tail;
    }
  }

  /** The escaped string read between quotes denotes the original string, and reading stops at the closing quote. */
  lemma {:induction false} ScanJsEscape(s: string, rest: string)
    ensures ScanSingleQuoted(JsEscape(s) + "'" + rest) == Closed(s, rest)
  {
    if s == [] {
      assert JsEscape(s) + "'" + rest == "'" + rest;
    } else {
      var tail := JsEscape(s[1..]) + "'" + rest;
      assert JsEscape(s) + "'" + rest == JsEscapeChar(s[0]) + tail;
      ScanEscapedChar(s[0], tail);
      ScanJsEscape(s[1..], rest);
      assert s == [s[0]] + s[1..];
    }
  }
}
