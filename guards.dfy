/**
 * The send and reply buttons of the Mini App and the reply modal's state
 * (mini_app/script.js:5, :478-496, :563-583, :459).
 */
module Guards {
  import opened Wrappers
  import opened JsValues
  import opened JsTrim
  import opened Html
  import opened ReplyButton
  import opened JsLiteral

  /** What a click on the send button does. */
  datatype SendAction = SendMessage(text: string) | AskForText

  /**
   * The send button's handler (:564-575): the trimmed text is sent when it is
   * non-empty; otherwise the user is asked to type something.
   */
  function SendDecision(value: string): (r: SendAction)
    ensures r.SendMessage? <==> !AllSpace(value)
    ensures r.SendMessage? ==> r.text == Trim(value) && r.text != []
    ensures r.SendMessage? ==> !IsJsSpace(r.text[0]) && !IsJsSpace(r.text[|r.text| - 1])
  {
    var text := Trim(value);
    if text != [] then SendMessage(text) else AskForText
  }

  /** The request `sendReply(messageId, answer)` makes. */
  datatype Reply = Reply(messageId: int, answer: string)

  /** JavaScript truthiness of `currentMessageId`: `null` and the number 0 are falsy. */
  predicate IdIsSet(current: Option<int>) {
    current.Some? && current.value != 0
  }

  /**
   * The reply button's handler (:578-583): a reply is sent only when the trimmed
   * answer is non-empty and a message id is set; otherwise nothing happens.
   */
  function ReplyDecision(value: string, current: Option<int>): (r: Option<Reply>)
    ensures r.Some? <==> IdIsSet(current) && !AllSpace(value)
    ensures r.Some? ==> r.value.messageId == current.value && r.value.answer == Trim(value)
    ensures r.Some? ==> r.value.answer != [] && r.value.messageId != 0
  {
    var answer := Trim(value);
    if answer != [] && IdIsSet(current) then Some(Reply(current.value, answer)) else None
  }

  /**
   * The reply modal: the module-level `currentMessageId` (:5), the reply text
   * area's value, the modal's visibility and the quoted original it previews.
   */
  class ReplyModal {
    var currentMessageId: Option<int>
    var replyText: string
    var visible: bool
    var preview: string

    /** The page as loaded: no message chosen, nothing typed, the modal hidden. */
    constructor ()
      ensures currentMessageId == None && replyText == [] && !visible && preview == []
    {
      currentMessageId := None;
      replyText := [];
      visible := false;
      preview := [];
    }

    /** `openReplyModal(messageId, originalText)` (:479-489): remembers the id and previews the escaped original. */
    method Open(messageId: int, originalText: string)
      modifies this
      ensures currentMessageId == Some(messageId) && visible
      ensures preview == EscapeHtml(Str(originalText))
      ensures replyText == old(replyText)
    {
      currentMessageId := Some(messageId);
      preview := EscapeHtml(Str(originalText));
      visible := true;
    }

    /**
     * A click on an inbox reply button (:282), with the handler's argument built by
     * the corrected quoting: the modal previews exactly the message's shown text.
     */
    method OpenFromButton(messageId: int, text: JsValue, caption: JsValue)
      modifies this
      ensures currentMessageId == Some(messageId) && visible
      ensures preview == EscapeHtml(Str(Display.DisplayText(text, caption)))
      ensures replyText == old(replyText)
    {
      var literal := HandlerLiteral(ReplyButtonArgumentFixed(text, caption));
      Open(messageId, literal.value);
    }

    /** `closeModal()` (:492-496): hides the modal, clears the text and forgets the id. */
    method Close()
      modifies this
      ensures currentMessageId == None && replyText == [] && !visible
      ensures preview == old(preview)
      ensures forall value :: ReplyDecision(value, currentMessageId) == None
    {
      visible := false;
      replyText := [];
      currentMessageId := None;
    }

    /** The admin types into the reply text area. */
    method Type(value: string)
      modifies this
      ensures replyText == value
      ensures currentMessageId == old(currentMessageId) && visible == old(visible) && preview == old(preview)
    {
      replyText := value;
    }

    /** A click on the send-reply button (:578-583): the reply it sends, if any; no state changes. */
    method ClickSendReply() returns (r: Option<Reply>)
      ensures r.Some? <==> IdIsSet(currentMessageId) && !AllSpace(replyText)
      ensures r.Some? ==> r.value.messageId == currentMessageId.value && r.value.answer == Trim(replyText)
    {
      r := ReplyDecision(replyText, currentMessageId);
    }

    /** The server's answer to `sendReply` (:452-467): on success the modal is closed, otherwise left as it is. */
    method ReplyAnswered(ok: bool)
      modifies this
      ensures ok ==> currentMessageId == None && replyText == [] && !visible && preview == old(preview)
      ensures !ok ==> (currentMessageId == old(currentMessageId) && replyText == old(replyText) &&
                       visible == old(visible) && preview == old(preview))
    {
      if ok {
        Close();
      }
    }
  }

  /**
   * An example scenario, not a member of the script: opening, answering and
   * closing the modal; a reply goes out once, and after closing nothing more is sent.
   */
  method ReplyFlow(messageId: int, answer: string)
    requires messageId != 0 && !AllSpace(answer)
  {
    var modal := new ReplyModal();
    modal.Open(messageId, "question");
    modal.Type(answer);
    var first := modal.ClickSendReply();
    assert first == Some(Reply(messageId, Trim(answer)));
    modal.ReplyAnswered(true);
    modal.Type(answer);
    var second := modal.ClickSendReply();
    assert second == None;
  }
}
