/** The input bar of `src/components/ChatInput.tsx`: what a send hands on,
    when the send button is enabled, and what is shown while the character
    sleeps. The draft is the text field plus the image the camera hook holds
    (a base64 string, or nothing). */
module ChatInput {
  import opened Types
  import opened Text

  /** Sent in place of the text when only an image was given. */
  const DefaultText: string := "이거 봐봐!"

  /** What the user has typed and attached. */
  datatype Draft = Draft(text: string, image: Option<string>)

  /** What `onSend` receives. */
  datatype Sent = Sent(text: string, image: Option<string>)

  /** The draft after a send attempt, and what was sent, if anything. */
  datatype SendResult = SendResult(draft: Draft, sent: Option<Sent>)

  /** The props the page passes in. */
  datatype Props = Props(disabled: bool, isSleeping: bool)

  /** There is something to send: non-blank text or an image. */
  predicate HasContent(d: Draft)
  {
    Trim(d.text) != [] || Truthy(d.image)
  }

  /** `handleSend`. A blank draft without an image sends nothing and keeps the
      draft. Otherwise the trimmed text, or the default text when it is blank,
      goes out with the image if there is one, and the draft is emptied. */
  function HandleSend(d: Draft): (r: SendResult)
    ensures r.sent.Some? <==> HasContent(d)
    ensures r.sent.None? ==> r.draft == d
    ensures r.sent.Some? ==> r.draft == Draft("", None)
    ensures r.sent.Some? && !AllSpace(d.text) ==> r.sent.value.text == Trim(d.text)
    ensures r.sent.Some? && AllSpace(d.text) ==> r.sent.value.text == DefaultText
    ensures r.sent.Some? ==> r.sent.value.image == (if Truthy(d.image) then d.image else None)
  {
    var trimmed := Trim(d.text);
    if trimmed == [] && !Truthy(d.image) then SendResult(d, None)
    else
      var text := if trimmed != [] then trimmed else DefaultText;
      var image := if Truthy(d.image) then d.image else None;
      SendResult(Draft("", None), Some(Sent(text, image)))
  }

  /** Sending cuts white space from the ends of the text and nothing else. */
  lemma SentIsTrimmed(d: Draft)
    requires HandleSend(d).sent.Some? && !AllSpace(d.text)
    ensures TrimmedFrom(d.text, HandleSend(d).sent.value.text)
  {
    TrimSlice(d.text);
  }

  /** Not blank, and no white space at either end. */
  predicate Clean(t: string)
  {
    t != [] && !IsJsSpace(t[0]) && !IsJsSpace(t[|t| - 1])
  }

  /** What goes out is never blank and carries no surrounding white space. */
  lemma SentTextIsClean(d: Draft)
    requires HandleSend(d).sent.Some?
    ensures Clean(HandleSend(d).sent.value.text)
  {
    var t := HandleSend(d).sent.value.text;
    if AllSpace(d.text) {
      DefaultTextIsClean();
      assert t == DefaultText;
    } else {
      assert t == Trim(d.text);
    }
  }

  /** A fact about the default-text constant, used by `SentTextIsClean` for
      the blank-draft case: it is not blank and has no surrounding white
      space. */
  lemma DefaultTextIsClean()
    ensures Clean(DefaultText)
  {
  }

  /** The send button's enabled state. */
  predicate SendEnabled(p: Props, d: Draft)
  {
    !(p.disabled || (Trim(d.text) == [] && !Truthy(d.image)))
  }

  /** The button is enabled exactly when the input is not disabled and a
      click would actually send. */
  lemma ButtonMatchesGuard(p: Props, d: Draft)
    ensures SendEnabled(p, d) <==> !p.disabled && HandleSend(d).sent.Some?
  {
  }

  /** What the component renders: only a banner while sleeping; otherwise the
      camera button, the text area and the send button with their enabled
      states. */
  datatype View =
    | SleepingBanner
    | Controls(cameraEnabled: bool, textEnabled: bool, sendEnabled: bool)

  function Render(p: Props, d: Draft): (v: View)
    ensures v.SleepingBanner? <==> p.isSleeping
    ensures v.Controls? ==> v.cameraEnabled == !p.disabled && v.textEnabled == !p.disabled
    ensures v.Controls? ==> (v.sendEnabled <==> !p.disabled && HasContent(d))
  {
    if p.isSleeping then SleepingBanner
    else Controls(!p.disabled, !p.disabled, SendEnabled(p, d))
  }

  /** A disabled input offers no control that could start a send. */
  lemma DisabledOffersNothing(p: Props, d: Draft)
    requires p.disabled
    ensures var v := Render(p, d);
      v.SleepingBanner? || (!v.cameraEnabled && !v.textEnabled && !v.sendEnabled)
  {
  }
}
