/** The enrollment request dialog (components/EnrollmentModal.tsx). Its
    submit handler awaits the parent's `onSubmit`, so it is split in two
    transitions: `Begin` runs up to the await and `Complete` runs once the
    parent's promise settles. While it is pending the dialog is loading. */
module EnrollmentModal {
  import opened Common
  import opened Text

  // The texts the screen shows.
  const SomethingWentWrong := "Something went wrong. Please try again."

  datatype Modal = Modal(message: string, loading: bool)

  /** What the dialog does outside itself: an alert, a call of the parent's
      `onSubmit` with the request message, or a call of its `onClose`. */
  datatype Event = Alert(title: string, message: string) | OnSubmit(requestMessage: string) | OnClose

  datatype Step = Step(next: Modal, events: seq<Event>)

  const Closed := Modal("", false)

  const MinimumLength := 10

  const MessageRequired := "Message Required"

  const TooShort := "Please provide a detailed message (at least 10 characters) explaining why you want to take this test."

  /** The request message is long enough once trimmed. The length is
      JavaScript's `length`, in UTF-16 code units, so a character outside
      the Basic Multilingual Plane (an emoji, say) counts twice. */
  predicate Detailed(message: string) {
    Utf16Length(Trim(message)) >= MinimumLength
  }

  /** `onChangeText` of the message input, which is not editable while loading. */
  function Edit(m: Modal, text: string): (r: Modal)
    ensures !m.loading ==> r == m.(message := text)
    ensures m.loading ==> r == m
  {
    if m.loading then m else m.(message := text)
  }

  /** `handleSubmit` up to the await: a message shorter than ten code units
      once trimmed is refused with an alert; otherwise the dialog starts
      loading and hands the trimmed message to `onSubmit`. */
  function Begin(m: Modal): (r: Step)
    ensures !Detailed(m.message) ==> r.next == m && |r.events| == 1 && r.events[0].Alert?
    ensures Detailed(m.message) ==> r.next == m.(loading := true) && r.events == [OnSubmit(Trim(m.message))]
  {
    var trimmed := Trim(m.message);
    if Utf16Length(trimmed) < MinimumLength then
      Step(m, [Alert(MessageRequired, TooShort)])
    else
      Step(m.(loading := true), [OnSubmit(trimmed)])
  }

  /** What `onSubmit` receives is the typed message with surrounding
      whitespace cut away: at least ten UTF-16 code units (so at least five
      characters), starting and ending with a non-whitespace character. */
  lemma SentMessage(m: Modal)
    requires Detailed(m.message)
    ensures Begin(m).events == [OnSubmit(Trim(m.message))]
    ensures var sent := Trim(m.message);
            && Utf16Length(sent) >= MinimumLength && |sent| >= MinimumLength / 2
            && !IsWhitespace(sent[0]) && !IsWhitespace(sent[|sent| - 1])
            && exists i :: TrimsTo(m.message, sent, i)
  {
    var sent := Trim(m.message);
    assert |sent| >= MinimumLength / 2 by {
      assert 2 * |sent| >= Utf16Length(sent) >= MinimumLength;
    }
  }

  /** Five emoji are ten code units: any five characters outside the Basic
      Multilingual Plane are sent as typed, though they are only five
      characters. */
  lemma EmojiCountTwice(e: string)
    requires |e| == 5 && forall i :: 0 <= i < |e| ==> e[i] as int > 0xFFFF
    ensures Utf16Length(e) == MinimumLength
    ensures Begin(Modal(e, false)) == Step(Modal(e, true), [OnSubmit(e)])
  {
    Utf16LengthAllAstral(e);
    AstralNotWhitespace(e[0]);
    AstralNotWhitespace(e[4]);
    TrimUnchanged(e);
  }

  /** How the parent's `onSubmit` promise settled. */
  datatype Settled = Resolved | Rejected

  /** `handleSubmit` after the await: on success the message is cleared and
      the dialog asks to be closed; on failure the message stays and an
      alert is shown. Either way loading ends. */
  function Complete(m: Modal, s: Settled): (r: Step)
    ensures !r.next.loading
    ensures s.Resolved? ==> r.next.message == "" && r.events == [OnClose]
    ensures s.Rejected? ==> r.next.message == m.message && OnClose !in r.events && |r.events| == 1
  {
    match s
    case Resolved => Step(Modal("", false), [OnClose])
    case Rejected => Step(m.(loading := false), [Alert("Error", SomethingWentWrong)])
  }

  /** `handleClose`: ignored while loading, otherwise clears the message and
      asks to be closed. */
  function Close(m: Modal): (r: Step)
    ensures m.loading ==> r == Step(m, [])
    ensures !m.loading ==> r.next == Closed && r.events == [OnClose]
  {
    if m.loading then Step(m, []) else Step(m.(message := ""), [OnClose])
  }

  /** The send button's `disabled` prop. */
  predicate SubmitDisabled(m: Modal) {
    m.loading || Utf16Length(Trim(m.message)) < MinimumLength
  }

  /** When not loading, the send button is enabled exactly when pressing it
      would reach `onSubmit`. */
  lemma DisabledIffRefused(m: Modal)
    requires !m.loading
    ensures !SubmitDisabled(m) <==> OnSubmit(Trim(m.message)) in Begin(m).events
  {
    if Detailed(m.message) {
      DetailedIsSent(m);
    } else {
      ShortIsRefused(m);
    }
  }

  /** A long enough message reaches `onSubmit`. */
  lemma DetailedIsSent(m: Modal)
    requires Detailed(m.message)
    ensures OnSubmit(Trim(m.message)) in Begin(m).events
  {
    assert Begin(m).events[0] == OnSubmit(Trim(m.message));
  }

  /** A message too short once trimmed does not reach `onSubmit`. */
  lemma ShortIsRefused(m: Modal)
    requires !Detailed(m.message)
    ensures OnSubmit(Trim(m.message)) !in Begin(m).events
  {
    AlertOnly(Begin(m).events, OnSubmit(Trim(m.message)));
  }

  /** A lone alert holds no call of `onSubmit`. */
  lemma AlertOnly(events: seq<Event>, x: Event)
    requires |events| == 1 && events[0].Alert? && x.OnSubmit?
    ensures x !in events
  {
  }

  /** The handler itself has no loading guard: only the disabled button keeps
      a second request from being made while the first is pending. */
  lemma HandlerHasNoLoadingGuard(m: Modal)
    requires Detailed(m.message)
    ensures var pending := Begin(m).next;
            pending.loading && SubmitDisabled(pending)
            && Begin(pending).events == [OnSubmit(Trim(m.message))]
  {
  }

  /** A full round: once the request is sent and the parent's promise
      resolves, the dialog is back to its closed state and has asked to
      close; while it was pending, closing and typing did nothing. */
  lemma SubmitRound(m: Modal, text: string)
    requires Detailed(m.message) && !m.loading
    ensures var pending := Begin(m).next;
            && Close(pending) == Step(pending, [])
            && Edit(pending, text) == pending
            && Complete(pending, Resolved) == Step(Closed, [OnClose])
            && Complete(pending, Rejected).next == m
  {
  }
}
