# Mini App front end of the contact-the-admin relay bot, in Dafny

The bot relays messages from Telegram users to a pool of admins. Users write
through a chat command or through a Telegram Mini App, and admins answer. This
project models the logic of the Mini App's script, `mini_app/script.js`:

- `escapeHtml`: the five chained global replaces that escape `&`, `<`, `>`,
  `"` and `'` before text is written into the page.
- The `||` fallbacks that choose the text, the name and the answer shown for
  each message.
- The inline handler of the admin's reply button, which quotes the shown text
  as a JavaScript string literal inside an HTML attribute.
- The send and reply guards: trimmed text must be non-empty, and a reply also
  needs a message id.
- The reply modal's state: `currentMessageId`, the reply text area, the
  modal's visibility and its preview.

Modules, one per concern:

- `Wrappers` (`wrappers.dfy`): `Option`.
- `JsValues` (`js_values.dfy`): a JSON field as the script sees it (absent,
  `null` or a string), JavaScript truthiness, and the value of an `a || b || 'x'`
  chain.
- `Replace` (`replace.dfy`): `s.replace(/c/g, rep)` for a one-character pattern
  that matches itself and a replacement without `$`, the only kind the script
  uses (:282, :530-534).
- `Html` (`html.dfy`): `escapeHtml`, its reference per-character substitution,
  entity decoding, and the theorems that connect them.
- `JsTrim` (`js_trim.dfy`): `String.prototype.trim` with ECMAScript's
  whitespace and line-terminator sets.
- `Display` (`display.dfy`): the display fallbacks.
- `JsLiteral` (`js_literal.dfy`): how a single-quoted JavaScript literal is
  read, and the escaping that makes any string safe inside one.
- `ReplyButton` (`reply_button.dfy`): the reply button's argument, as written
  and corrected.
- `Guards` (`guards.dfy`): the send and reply decisions, and the `ReplyModal`
  class.

The main theorem is `Html.PipelineIsMap`. It states that the chain of five
global replaces equals one left-to-right substitution of every character by its
entity. That holds because `&` is replaced first, and no entity introduced by a
pass contains a character that a later pass rewrites. The other results about
escaping follow from it:
- no raw `<`, `>`, `"` or `'` in the output;
- every `&` in the output begins an entity;
- the chain distributes over concatenation;
- text without specials comes back unchanged;
- decoding recovers the input, so escaping is injective.

Two details of the code shape the model:

- The counter shows `length/4096` (:503) and switches to the waiting colour from
  4000 characters on (:505). The send handler (:564-575) still sends longer
  text, so `Guards.SendDecision` checks non-emptiness only.
- The reply guard checks `currentMessageId` for JavaScript truthiness (:581). A
  message id of 0 would block a reply, and the model keeps that edge case
  (`Guards.IdIsSet`).

## Model

| member | source | states |
|---|---|---|
| JsValues.FirstTruthy | mini_app/script.js:83 | a chain of JavaScript or-operators ending in a fallback literal yields the first truthy value's string, or the fallback when none is truthy; a non-empty fallback makes the result non-empty |
| Display.DisplayText | mini_app/script.js:177 | the shown text is the text when non-empty, else the caption when non-empty, else `Медиа-сообщение`; it is never empty |
| Display.DisplayName | mini_app/script.js:265 | the shown name is the first name when non-empty, else the username when non-empty, else `User`; it is never empty |
| Display.DisplayAnswer | mini_app/script.js:190 | the shown answer is the answer text when non-empty, else `Ответ получен` in the sender's list and `Ответ отправлен` in the admin's list (:291); it is never empty |
| Replace.ReplaceAll | mini_app/script.js:530-534 | a global one-character replace leaves a string without that character unchanged, and it leaves no occurrence of the character when the replacement has none |
| Replace.ReplaceAllConcat | mini_app/script.js:530-534 | a global one-character replace distributes over concatenation |
| Html.EscapeHtml | mini_app/script.js:527-535 | a falsy argument gives the empty string, and only a falsy one does; a string's result equals the per-character entity substitution, holds no raw `<`, `>`, `"` or `'`, and is the input itself when the input has none of the five specials |
| Html.EscapeChar | mini_app/script.js:530-534 | each of the five specials becomes an entity that starts with `&` and has no other `&`; every other character stands for itself |
| Html.EscapeTextChar | mini_app/script.js:530-534 | on one character the five passes yield exactly that character's entity: no pass rewrites what an earlier pass introduced |
| Html.PipelineIsMap | mini_app/script.js:529-534 | the five chained global replaces equal the single left-to-right per-character substitution |
| Html.EscapeTextConcat | mini_app/script.js:529-534 | escaping is compositional: escape(a + b) == escape(a) + escape(b) |
| Html.EscapeCharsConcat | mini_app/script.js:529-534 | the per-character substitution is compositional too |
| Html.EscapeCharsNoRawSpecials | mini_app/script.js:531-534 | escaped text contains none of `<`, `>`, `"`, `'` |
| Html.EscapeCharsPlain | mini_app/script.js:529-534 | text with none of the five specials comes back unchanged |
| Html.EscapeCharsNonEmpty | mini_app/script.js:529-534 | escaping never shortens text, and non-empty text escapes to non-empty text |
| Html.AmpersandsStartEntities | mini_app/script.js:530-534 | every `&` in the output begins one of `&amp;`, `&lt;`, `&gt;`, `&quot;`, `&#039;`, so decoding those five entities is the browser's full decoding of such text; that no entity is escaped twice is what `Html.PipelineIsMap` and `Html.UnescapeEscape` state |
| Html.UnescapeStep | mini_app/script.js:530-534 | decoding an entity followed by any text yields its character followed by the decoding of that text |
| Html.UnescapeEscape | mini_app/script.js:529-534 | decoding the five entities in the output recovers the input |
| Html.EscapeInjective | mini_app/script.js:529-534 | two different strings never escape to the same HTML |
| JsTrim.TrimStart | mini_app/script.js:565 | dropping leading whitespace leaves a suffix that starts with a non-space, and everything dropped is whitespace |
| JsTrim.TrimEnd | mini_app/script.js:565 | dropping trailing whitespace leaves a prefix that ends with a non-space, and everything dropped is whitespace |
| JsTrim.Trim | mini_app/script.js:565 | `trim()` yields a slice of the input with only whitespace cut off either side; the slice neither starts nor ends with whitespace, and it is empty exactly when the input is all whitespace |
| Guards.SendDecision | mini_app/script.js:564-575 | a message is sent exactly when the text holds a non-whitespace character, and then the trimmed, non-empty text is what is sent; otherwise the user is asked for text |
| Guards.ReplyDecision | mini_app/script.js:578-583 | a reply is sent exactly when the trimmed answer is non-empty and `currentMessageId` is set and non-zero; it carries that id and the trimmed answer |
| Guards.ReplyModal.constructor | mini_app/script.js:5 | at load no message id is set and the modal is hidden and empty |
| Guards.ReplyModal.Open | mini_app/script.js:479-489 | `openReplyModal` sets `currentMessageId` to the given id, shows the modal, previews the escaped original and keeps the typed text |
| Guards.ReplyModal.OpenFromButton | mini_app/script.js:282 | with the corrected quoting, clicking a reply button opens the modal for that id, previewing exactly the message's shown text |
| Guards.ReplyModal.Close | mini_app/script.js:492-496 | `closeModal` hides the modal, clears the text and resets `currentMessageId` to null, after which no typed answer can be sent |
| Guards.ReplyModal.Type | mini_app/script.js:579 | typing sets the value the reply handler reads and changes nothing else |
| Guards.ReplyModal.ClickSendReply | mini_app/script.js:578-583 | the send-reply click sends the trimmed answer for the current id exactly when both guards hold, and changes no state |
| Guards.ReplyModal.ReplyAnswered | mini_app/script.js:452-467 | a successful reply closes the modal; a failed one leaves the state as it was |
| ReplyButton.ReplyButtonArgument | mini_app/script.js:282 | the `.replace(/'/g, "\\'")` after `escapeHtml` changes nothing: the argument equals the escaped shown text and holds no `'` |
| ReplyButton.QuoteReplaceIsIdentity | mini_app/script.js:282 | replacing `'` in any `escapeHtml` output is the identity |
| ReplyButton.AsWrittenDecodes | mini_app/script.js:282 | decoding the attribute written at :282 gives back the shown text |
| ReplyButton.AsWrittenPlainTextArrives | mini_app/script.js:282 | as written, a shown text without quotes, backslashes or line breaks reaches `openReplyModal` intact |
| ReplyButton.AsWrittenQuoteEndsLiteral | mini_app/script.js:282 | as written, a `'` in the shown text closes the handler's literal early; the text after it is parsed as code |
| ReplyButton.AsWrittenInjection | mini_app/script.js:282 | as written, the message `');alert(1);//` leaves an empty literal and makes `;alert(1);//')` handler code |
| ReplyButton.ReplyButtonArgumentFixed | mini_app/script.js:282 | corrected: for every message the handler's literal denotes exactly the shown text (up to the NUL replacement named under Left out), and the attribute holds no raw special |
| ReplyButton.FixedDecodes | mini_app/script.js:282 | decoding the corrected attribute gives back the JavaScript-escaped shown text |
| JsLiteral.ScanSingleQuoted | mini_app/script.js:282 | a literal that closes leaves as code a proper suffix of the text read, and its value is no longer than that text |
| JsLiteral.ScanUntilQuote | mini_app/script.js:282 | text whose first `'` is at position k, with no backslash or line break before it, reads as the text before the quote, and everything after the quote is read as code |
| JsLiteral.ScanPlain | mini_app/script.js:282 | text without quotes, backslashes or line breaks, followed by a quote, reads as itself |
| JsLiteral.ScanEscapedChar | mini_app/script.js:282 | reading one JavaScript-escaped character yields that character and then reads on |
| JsLiteral.ScanJsEscape | mini_app/script.js:282 | any JavaScript-escaped text, followed by a quote, reads back as the original text, and reading stops at that quote |

## Left out

- Rendering is left out. The `innerHTML` templates of `displayUserMessages`, `displayInboxMessages` and `displayStats` (mini_app/script.js:138-386) assemble page text and have no contract. The fallbacks and escapes inside them are modelled above. `user.first_name || 'User'` at :338 is one more instance of `JsValues.FirstTruthy`.
- Network calls are left out: `authenticate`, the `load*` functions and the `fetch` bodies of `sendMessage` and `sendReply`. The server's reply enters the model only as the `ok` flag of `Guards.ReplyModal.ReplyAnswered`.
- The globals `userData` and `isAdmin` (:3-4, :25-26) are left out, because they only copy the authentication response.
- Telegram WebApp SDK calls (`tg.expand`, `tg.showPopup`, colours) are left out: they belong to a foreign library. `Guards.SendAction.AskForText` stands for the popup.
- Date formatting with `toLocaleString('ru-RU', …)` is left out, because it depends on the locale library.
- Event-listener wiring, tab switching and keyboard shortcuts (:538-616) are left out. Cmd/Ctrl+Enter clicks the same buttons, and Escape or a click outside calls the same `closeModal`, which `Guards.ReplyModal.Close` models.
- The character counter (:499-510) is left out, because it only writes a DOM style. Its text is `length/4096`, and it turns to the waiting colour when `length >= 4000`.
- Strings are sequences of Unicode scalar values, not UTF-16 code units. Lone surrogates cannot be represented, and lengths of astral characters differ. Only ASCII characters matter to the escaping.
- Html.EscapeHtml: only absent, `null` and string arguments are modelled. A truthy non-string, such as a number, has no `replace` method and would throw.
- JsLiteral.ScanSingleQuoted: the escapes `\x`, `\u`, octal digits and line continuations are reported as `Unsupported` rather than decoded. The corrected quoting never produces them.
- ReplyButton.HandlerLiteral: the browser's HTML decoding of the attribute is modelled as decoding the five entities only. Every `&` in an `escapeHtml` output begins one of them (`Html.AmpersandsStartEntities`), so on such text the two decodings agree. The HTML tokenizer also replaces U+0000 in an attribute value with U+FFFD; that is not modelled, so a shown text containing NUL would reach `openReplyModal` with U+FFFD in its place, even with the corrected quoting.
- The relay server is not part of this model. Submission, rate limits, bans, admin replies with `#id text` and the confirmation codes are not among the modelled files: `keep_alive.py` answers a fixed health string, `api.py` echoes its request, and `main.py` holds one query whose `execute_query` is undefined.

## Findings

| source | as written | input that shows it | evidently intended | confidence | as-written member | corrected member |
|---|---|---|---|---|---|---|
| mini_app/script.js:282 | the shown text is HTML-escaped and then `'` is replaced by `\'`; the replace finds nothing, and the browser turns `&#039;` back into `'` before parsing the `onclick` handler | a user message `');alert(1);//`: the admin's handler becomes `openReplyModal(id, '');alert(1);//')`, and a plain `it's` breaks the button | the literal denotes the shown text: escape for JavaScript first (`\`, `'`, line breaks), then for HTML | high; not executed | ReplyButton.AsWrittenInjection | ReplyButton.ReplyButtonArgumentFixed |
