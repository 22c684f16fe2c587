/** The message box (src/components/ChatInput.tsx): a draft is sent trimmed, and only
    when it holds something besides whitespace and the box is enabled; Enter without
    Shift submits, and the send button is disabled exactly when a submit would send
    nothing. */
module ChatInput {

  import opened Options
  import opened Strings

  /** The effect of one submit: the draft left in the box, and the text handed to the
      send callback, if any. */
  datatype Submission = Submission(draft: string, sent: Option<string>)

  /** `handleSubmit`: sends the trimmed draft and clears the box, or does nothing. */
  function HandleSubmit(draft: string, disabled: bool): (r: Submission)
    ensures r.sent.Some? <==> !disabled && !AllSpace(draft)
    ensures r.sent.Some? ==>
      && |r.sent.value| > 0 && IsTrimmed(r.sent.value)
      && exists i, j :: 0 <= i <= j <= |draft| && r.sent.value == draft[i..j]
                        && AllSpace(draft[..i]) && AllSpace(draft[j..])
    ensures r.sent.Some? ==> r.draft == ""
    ensures r.sent.None? ==> r.draft == draft
  {
    var text := Trim(draft);
    TrimEmptyIffAllSpace(draft);
    TrimIsInfix(draft);
    if |text| > 0 && !disabled then Submission("", Some(text)) else Submission(draft, None)
  }

  /** `handleKeyDown`: Enter without Shift is taken over and submits (sending or not);
      every other key goes to the text area, so Shift+Enter inserts a line break. */
  function HandleKeyDown(key: string, shift: bool, draft: string, disabled: bool): (r: Option<Submission>)
    ensures r.Some? <==> key == "Enter" && !shift
    ensures r.Some? ==> (r.value.sent.Some? <==> !disabled && !AllSpace(draft))
    ensures r.Some? ==> r.value == HandleSubmit(draft, disabled)
    ensures r.Some? && r.value.sent.Some? ==> r.value.sent.value == Trim(draft) && r.value.draft == ""
    ensures r.Some? && r.value.sent.None? ==> r.value.draft == draft
  {
    if key == "Enter" && !shift then Some(HandleSubmit(draft, disabled)) else None
  }

  /** The send button's `disabled` attribute. */
  function SendButtonDisabled(draft: string, disabled: bool): (b: bool)
    ensures b <==> disabled || AllSpace(draft)
  {
    TrimEmptyIffAllSpace(draft);
    Trim(draft) == "" || disabled
  }

  /** Clicking the button and pressing Enter agree: either sends exactly when the button
      is enabled. */
  lemma ButtonEnabledIffSubmitSends(draft: string, disabled: bool)
    ensures !SendButtonDisabled(draft, disabled) <==> HandleSubmit(draft, disabled).sent.Some?
    ensures !SendButtonDisabled(draft, disabled) <==> HandleKeyDown("Enter", false, draft, disabled).value.sent.Some?
  {
  }

  /** The text sent is the draft's trim. */
  lemma SentIsTrim(draft: string, disabled: bool)
    requires HandleSubmit(draft, disabled).sent.Some?
    ensures HandleSubmit(draft, disabled).sent.value == Trim(draft)
  {
  }

  /** A second submit right after a send sends nothing: the box was cleared. */
  lemma NoDoubleSend(draft: string, disabled: bool)
    requires HandleSubmit(draft, disabled).sent.Some?
    ensures HandleSubmit(HandleSubmit(draft, disabled).draft, disabled) == Submission("", None)
  {
  }
}
