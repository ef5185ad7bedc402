/**
 * The `||` fallbacks that choose what the message lists show
 * (mini_app/script.js:83, :177, :190, :265, :278, :291).
 */
module Display {
  import opened JsValues

  const MediaPlaceholder: string := "Медиа-сообщение"
  const DefaultName: string := "User"
  const AnswerReceived: string := "Ответ получен"
  const AnswerSent: string := "Ответ отправлен"

  /** `msg.text || msg.caption || 'Медиа-сообщение'`: the text, else the caption, else the placeholder. */
  function DisplayText(text: JsValue, caption: JsValue): (r: string)
    ensures r != []
    ensures Truthy(text) ==> r == text.s
    ensures !Truthy(text) && Truthy(caption) ==> r == caption.s
    ensures !Truthy(text) && !Truthy(caption) ==> r == MediaPlaceholder
  {
    var vs := [text, caption];
    assert vs[0] == text && vs[1] == caption;
    FirstTruthy(vs, MediaPlaceholder)
  }

  /** `first_name || username || 'User'`: the first name, else the username, else `User`. */
  function DisplayName(firstName: JsValue, username: JsValue): (r: string)
    ensures r != []
    ensures Truthy(firstName) ==> r == firstName.s
    ensures !Truthy(firstName) && Truthy(username) ==> r == username.s
    ensures !Truthy(firstName) && !Truthy(username) ==> r == DefaultName
  {
    var vs := [firstName, username];
    assert vs[0] == firstName && vs[1] == username;
    FirstTruthy(vs, DefaultName)
  }

  /**
   * `msg.answer_text || 'Ответ получен'` in the sender's list (:190) and
   * `msg.answer_text || 'Ответ отправлен'` in the admin's list (:291).
   */
  function DisplayAnswer(answerText: JsValue, adminList: bool): (r: string)
    ensures r != []
    ensures Truthy(answerText) ==> r == answerText.s
    ensures !Truthy(answerText) && !adminList ==> r == AnswerReceived
    ensures !Truthy(answerText) && adminList ==> r == AnswerSent
  {
    FirstTruthy([answerText], if adminList then AnswerSent else AnswerReceived)
  }
}
