/**
 * The reply button of the admin's inbox (mini_app/script.js:282): its inline
 * handler `openReplyModal(id, '<argument>')` carries the shown text as a
 * single-quoted JavaScript literal inside an HTML attribute. The browser first
 * decodes the attribute's character references and then parses the handler.
 */
module ReplyButton {
  import opened JsValues
  import opened Replace
  import opened Html
  import opened Display
  import opened JsLiteral

  /**
   * The argument as written: `escapeHtml(text || caption || placeholder).replace(/'/g, "\\'")`.
   * The trailing replace never changes anything, since escaped text holds no `'`.
   */
  function ReplyButtonArgument(text: JsValue, caption: JsValue): (r: string)
    ensures r == EscapeHtml(Str(DisplayText(text, caption)))
    ensures '\'' !in r
  {
    ReplaceAll(EscapeHtml(Str(DisplayText(text, caption))), '\'', "\\'")
  }

  /** Escaping a quote after `escapeHtml` is the identity on every string. */
  lemma QuoteReplaceIsIdentity(s: string)
    ensures ReplaceAll(EscapeText(s), '\'', "\\'") == EscapeText(s)
  {
    PipelineIsMap(s);
    EscapeCharsNoRawSpecials(s);
  }

  /**
   * What the handler's literal denotes: the attribute's character references are
   * decoded (on an `escapeHtml` output every `&` begins one of the five entities,
   * so decoding those five is the browser's decoding) and the literal is read up
   * to its closing quote, followed in the source by `')`.
   */
  function HandlerLiteral(argument: string): Scan {
    ScanSingleQuoted(Unescape(argument) + "')")
  }

  /** Unfolds `HandlerLiteral` for a known decoding of the attribute. */
  lemma HandlerLiteralOf(argument: string, decoded: string)
    requires Unescape(argument) == decoded
    ensures HandlerLiteral(argument) == ScanSingleQuoted(decoded + "')")
  {
  }

  /** As written, decoding the attribute gives back the shown text. */
  lemma AsWrittenDecodes(text: JsValue, caption: JsValue)
    ensures Unescape(ReplyButtonArgument(text, caption)) == DisplayText(text, caption)
  {
    UnescapeEscapeChars(DisplayText(text, caption));
  }

  /** As written, a shown text without quotes, backslashes or line breaks reaches the modal intact. */
  lemma AsWrittenPlainTextArrives(text: JsValue, caption: JsValue)
    requires forall i | 0 <= i < |DisplayText(text, caption)| :: !NeedsJsEscape(DisplayText(text, caption)[i])
    ensures HandlerLiteral(ReplyButtonArgument(text, caption)) == Closed(DisplayText(text, caption), ")")
  {
    var d := DisplayText(text, caption);
    AsWrittenDecodes(text, caption);
    HandlerLiteralOf(ReplyButtonArgument(text, caption), d);
    QuoteThenParen(d);
    ScanPlain(d, ")");
  }

  /**
   * As written, a `'` in the shown text closes the literal early: the handler
   * receives only the text before it, and the rest of the user's text is parsed
   * as JavaScript code.
   */
  lemma AsWrittenQuoteEndsLiteral(text: JsValue, caption: JsValue, k: nat)
    requires k < |DisplayText(text, caption)| && DisplayText(text, caption)[k] == '\''
    requires forall i | 0 <= i < k :: !NeedsJsEscape(DisplayText(text, caption)[i])
    ensures var d := DisplayText(text, caption);
      HandlerLiteral(ReplyButtonArgument(text, caption)) == Closed(d[..k], d[k + 1..] + "')")
  {
    var d := DisplayText(text, caption);
    AsWrittenDecodes(text, caption);
    HandlerLiteralOf(ReplyButtonArgument(text, caption), d);
    QuoteInside(d, k);
    ScanUntilQuote(d + "')", k);
  }

  lemma QuoteInside(d: string, k: nat)
    requires k < |d|
    ensures (d + "')")[k] == d[k]
    ensures (d + "')")[..k] == d[..k] && (d + "')")[k + 1..] == d[k + 1..] + "')"
    ensures forall i | 0 <= i < k :: (d + "')")[i] == d[i]
  {
  }

  /**
   * A user who sends `');alert(1);//` has `alert(1)` run in the admin's page
   * when the admin clicks that message's reply button.
   */
  lemma AsWrittenInjection(message: string)
    requires message == "');alert(1);//"
    ensures HandlerLiteral(ReplyButtonArgument(Str(message), Null)) == Closed("", ");alert(1);//')")
  {
    assert DisplayText(Str(message), Null) == message;
    AsWrittenQuoteEndsLiteral(Str(message), Null, 0);
    assert message[..0] == "" && message[1..] + "')" == ");alert(1);//')";
  }

  /**
   * The corrected argument: escape for the JavaScript literal first and for the
   * HTML attribute second. Whatever the text, the handler receives it intact.
   */
  function ReplyButtonArgumentFixed(text: JsValue, caption: JsValue): (r: string)
    ensures HandlerLiteral(r) == Closed(DisplayText(text, caption), ")")
    ensures NoRawSpecials(r)
  {
    var d := DisplayText(text, caption);
    var q := JsEscape(d);
    FixedDecodes(d);
    HandlerLiteralOf(EscapeHtml(Str(q)), q);
    ScanJsEscape(d, ")");
    QuoteThenParen(q);
    EscapeHtml(Str(q))
  }

  lemma QuoteThenParen(q: string)
    ensures q + "')" == q + "'" + ")"
  {
  }

  lemma FixedDecodes(d: string)
    ensures Unescape(EscapeHtml(Str(JsEscape(d)))) == JsEscape(d)
  {
    var q := JsEscape(d);
    if q != [] {
      UnescapeEscapeChars(q);
    }
  }
}
