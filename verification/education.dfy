/** The enquiry form of the education screen (components/EducationScreen.tsx).
    The submit handler awaits the API, so it is split in two transitions:
    `BeginEnquiry` validates and sends, `CompleteEnquiry` handles the reply.
    Between the two an enquiry is in flight. */
module Education {
  import opened Common
  import opened Text
  import Api

  // The texts the screen shows.
  const ThanksPrefix := "Thank you for your enquiry about "
  const ThanksSuffix := ". We'll get back to you soon!"
  const EnquiryFailed := "Failed to submit enquiry"
  const EnquiryThrew := "Failed to submit enquiry. Please try again."

  datatype Form = Form(name: string, mobile: string, email: string, message: string)

  const EmptyForm := Form("", "", "", "")

  datatype Screen = Screen(modalVisible: bool, selectedService: string, submitting: bool, form: Form)

  datatype Event = Alert(title: string, message: string) | Request(call: Api.Call)

  datatype Step = Step(next: Screen, events: seq<Event>)

  /** `s.trim() || undefined`. */
  function OptionalField(s: string): (r: Option<string>)
    ensures r.None? <==> Blank(s)
    ensures r.Some? ==> r.value == Trim(s) && r.value != ""
  {
    if Blank(s) then None else Some(Trim(s))
  }

  /** The body `submitEnquiry` receives for a form and the selected service. */
  function EnquiryOf(f: Form, service: string): (e: Api.Enquiry)
    ensures e.fullName == Trim(f.name) && e.mobileNumber == Trim(f.mobile)
    ensures e.emailAddress == OptionalField(f.email) && e.message == OptionalField(f.message)
    ensures e.programName == service
  {
    Api.Enquiry(Trim(f.name), Trim(f.mobile), OptionalField(f.email), OptionalField(f.message), service)
  }

  /** `handleBannerPress(type)`. */
  function BannerPress(s: Screen, service: string): (r: Screen)
    ensures r == s.(selectedService := service, modalVisible := true)
  {
    s.(selectedService := service, modalVisible := true)
  }

  /** `closeEnquiryModal`: hides the dialog and empties the form. It has no
      in-flight guard of its own (only the cancel button is disabled). */
  function CloseModal(s: Screen): (r: Screen)
    ensures !r.modalVisible && r.form == EmptyForm
    ensures r.selectedService == s.selectedService && r.submitting == s.submitting
  {
    s.(modalVisible := false, form := EmptyForm)
  }

  /** `handleEnquirySubmit` up to the await: a blank name or mobile number
      is refused first; then a submit while one is in flight is ignored;
      otherwise the enquiry is sent and marked in flight. */
  function BeginEnquiry(s: Screen): (r: Step)
    ensures (Blank(s.form.name) || Blank(s.form.mobile)) ==>
              r.next == s && r.events == [Alert("Error", RequiredFieldsMissing)]
    ensures !(Blank(s.form.name) || Blank(s.form.mobile)) && s.submitting ==> r == Step(s, [])
    ensures (exists c :: Request(c) in r.events) <==> !Blank(s.form.name) && !Blank(s.form.mobile) && !s.submitting
    ensures !Blank(s.form.name) && !Blank(s.form.mobile) && !s.submitting ==>
              r.next == s.(submitting := true)
              && r.events == [Request(Api.SubmitEnquiry(EnquiryOf(s.form, s.selectedService)))]
  {
    if Blank(s.form.name) || Blank(s.form.mobile) then
      Step(s, [Alert("Error", RequiredFieldsMissing)])
    else if s.submitting then
      Step(s, [])
    else
      var c := Api.SubmitEnquiry(EnquiryOf(s.form, s.selectedService));
      assert Request(c) in [Request(c)];
      Step(s.(submitting := true), [Request(c)])
  }

  /** The parts of the server's reply the screen reads. */
  datatype EnquiryReply = EnquiryReply(success: bool, message: Option<string>)

  /** Whether a settled call counts as `response.success`. */
  predicate Succeeded(o: Api.Outcome<Api.Reply<EnquiryReply>>) {
    o.Returned? && o.value.Parsed? && o.value.body.success
  }

  /** `handleEnquirySubmit` after the await: on success the dialog closes and
      the form is emptied; on an unsuccessful reply or a thrown error the
      form is kept. The in-flight flag is cleared in every case. */
  function CompleteEnquiry(s: Screen, o: Api.Outcome<Api.Reply<EnquiryReply>>): (r: Step)
    ensures !r.next.submitting && r.next.selectedService == s.selectedService && |r.events| == 1
    ensures Succeeded(o) ==> !r.next.modalVisible && r.next.form == EmptyForm
    ensures !Succeeded(o) ==> r.next == s.(submitting := false)
  {
    match o
    case Returned(Parsed(EnquiryReply(true, _))) =>
      Step(s.(modalVisible := false, form := EmptyForm, submitting := false),
           [Alert("Success!", ThanksPrefix + s.selectedService + ThanksSuffix)])
    case Returned(Parsed(EnquiryReply(false, m))) =>
      Step(s.(submitting := false), [Alert("Error", MessageOr(m, EnquiryFailed))])
    case Returned(Envelope(m)) =>
      Step(s.(submitting := false), [Alert("Error", MessageOr(Some(m), EnquiryFailed))])
    case Threw(_) =>
      Step(s.(submitting := false), [Alert("Error", EnquiryThrew)])
  }

  /** The body sent always satisfies the form's own rules: both required
      fields are non-blank and already trimmed, an optional field is either
      absent or non-empty and trimmed, and the programme is the banner the
      user pressed. */
  lemma SentEnquiryIsClean(s: Screen)
    requires exists c :: Request(c) in BeginEnquiry(s).events
    ensures var e := BeginEnquiry(s).events[0].call.enquiry;
            && e.fullName != "" && Trim(e.fullName) == e.fullName
            && e.mobileNumber != "" && Trim(e.mobileNumber) == e.mobileNumber
            && (e.emailAddress.Some? ==> e.emailAddress.value != "" && Trim(e.emailAddress.value) == e.emailAddress.value)
            && (e.message.Some? ==> e.message.value != "" && Trim(e.message.value) == e.message.value)
            && e.programName == s.selectedService
  {
    TrimIdempotent(s.form.name);
    TrimIdempotent(s.form.mobile);
    TrimIdempotent(s.form.email);
    TrimIdempotent(s.form.message);
  }

  /** While an enquiry is in flight a second submit sends nothing; once it
      settles the next submit of the same form is sent again. */
  lemma InFlightGuard(s: Screen, o: Api.Outcome<Api.Reply<EnquiryReply>>)
    requires !Blank(s.form.name) && !Blank(s.form.mobile) && !s.submitting
    requires !Succeeded(o)
    ensures var pending := BeginEnquiry(s).next;
            && BeginEnquiry(pending) == Step(pending, [])
            && BeginEnquiry(CompleteEnquiry(pending, o).next) == BeginEnquiry(s)
  {
  }

  /** A form emptied on success is refused by validation, not by the guard. */
  lemma ResetFormIsRefused(s: Screen, o: Api.Outcome<Api.Reply<EnquiryReply>>)
    requires Succeeded(o)
    ensures var after := CompleteEnquiry(s, o).next;
            BeginEnquiry(after).events == [Alert("Error", RequiredFieldsMissing)]
  {
    var after := CompleteEnquiry(s, o).next;
    assert Trim(after.form.name) == "" by { BlankIffAllWhitespace(""); }
  }
}
