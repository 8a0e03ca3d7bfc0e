/** The contact form's submit handler: trim the three fields, run the three
    checks in order, and only when all pass put the submit button into its
    sending state and hand the payload to the email relay; when the send
    settles, report the outcome and restore the button. */
module ContactForm {
  import opened Optional
  import opened Text
  import opened EmailPattern
  import opened Toasts

  const MissingFieldsMessage := "Please fill in all required fields."
  const BadEmailMessage := "Please enter a valid email address."
  const NotConfiguredMessage := "Email service is not configured yet."
  const SentMessage := "Message sent successfully. Thank you!"
  const FailedMessage := "Something went wrong while sending. Please try again."

  /** The text content of the button while a send is in flight (the spinner
      element it also holds is empty). */
  const SendingLabel := "Sending..."

  /** The raw values of the `name`, `email` and `message` controls; `None`
      when the form has no control of that name. */
  datatype Form = Form(name: Option<string>, email: Option<string>, message: Option<string>)

  /** Whether `window.emailjs` and `window.EMAILJS_CONFIG` are present. */
  datatype Service = Service(client: bool, config: bool)

  /** The template variables handed to the relay's send call. */
  datatype Payload = Payload(fromName: string, replyTo: string, message: string)

  /** What validation decides: one of the three errors, or a send. */
  datatype Verdict = MissingFields | BadEmail | NotConfigured | Send(payload: Payload)

  datatype Button = Button(disabled: bool, loading: bool, caption: string)

  /** The part of the page the handler reads and writes. `sent` lists every
      payload handed to the relay, oldest first. */
  datatype Page = Page(
    form: Form,
    defaults: Form,
    button: Option<Button>,
    service: Service,
    hasToastRoot: bool,
    toasts: seq<Toast>,
    sent: seq<Payload>)

  /** A send in flight: what was sent and the label to put back afterwards. */
  datatype Pending = Pending(payload: Payload, originalLabel: string)

  /** How the relay's send promise settles. A synchronous throw from the
      relay's initialisation lands in the same `catch` and is a `Reject`. */
  datatype SendResult = Resolve | Reject

  /** `control?.value.trim()`: undefined for a missing control. */
  function TrimmedValue(v: Option<string>): Option<string>
  {
    match v
    case None => None
    case Some(s) => Some(Trim(s))
  }

  /** JavaScript falsiness of a trimmed field: undefined or the empty string. */
  predicate Falsy(v: Option<string>)
  {
    v.None? || v.value == []
  }

  /** A raw control value that fails the required-field check: the control
      is missing or holds nothing but whitespace. */
  predicate Blank(v: Option<string>)
  {
    v.None? || AllSpace(v.value)
  }

  /** The three checks of the handler, in order; the first that fails
      decides the error. */
  function Validate(f: Form, svc: Service): (v: Verdict)
    ensures v == MissingFields <==> Blank(f.name) || Blank(f.email) || Blank(f.message)
    ensures v == BadEmail <==>
              && !Blank(f.name) && !Blank(f.email) && !Blank(f.message)
              && !WellFormedEmail(Trim(f.email.value))
    ensures v == NotConfigured <==>
              && !Blank(f.name) && !Blank(f.email) && !Blank(f.message)
              && WellFormedEmail(Trim(f.email.value))
              && !(svc.client && svc.config)
    ensures v.Send? <==>
              && !Blank(f.name) && !Blank(f.email) && !Blank(f.message)
              && WellFormedEmail(Trim(f.email.value))
              && svc.client && svc.config
    ensures v.Send? ==> v.payload == Payload(Trim(f.name.value), Trim(f.email.value), Trim(f.message.value))
  {
    var name := TrimmedValue(f.name);
    var email := TrimmedValue(f.email);
    var message := TrimmedValue(f.message);
    if Falsy(name) || Falsy(email) || Falsy(message) then MissingFields
    else if !TestEmail(email.value) then BadEmail
    else if !svc.client || !svc.config then NotConfigured
    else Send(Payload(name.value, email.value, message.value))
  }

  function ErrorMessage(v: Verdict): string
    requires !v.Send?
  {
    match v
    case MissingFields => MissingFieldsMessage
    case BadEmail => BadEmailMessage
    case NotConfigured => NotConfiguredMessage
  }

  /** The synchronous part of the handler, up to the `await`. Returns the
      page and, when a send was started, what is pending. An error toasts
      and returns before the button or the relay is touched. When the checks
      pass but the form has no submit button, reading its label throws
      before anything is sent, and the page is left as it was. */
  function OnSubmit(pg: Page): (r: (Page, Option<Pending>))
    ensures r.1.Some? <==> Validate(pg.form, pg.service).Send? && pg.button.Some?
    ensures r.0.form == pg.form
    ensures r.1.None? ==> r.0.button == pg.button && r.0.sent == pg.sent
    ensures !Validate(pg.form, pg.service).Send? ==>
              r.0.toasts == ShowToast(pg.toasts, pg.hasToastRoot, ErrorMessage(Validate(pg.form, pg.service)), Error)
    ensures Validate(pg.form, pg.service).Send? && pg.button.None? ==> r.0 == pg
    ensures r.1.Some? ==> r.1.value.payload == Validate(pg.form, pg.service).payload
    ensures r.1.Some? ==> && r.0.button == Some(Button(true, true, SendingLabel))
                          && r.0.sent == pg.sent + [r.1.value.payload]
                          && r.0.toasts == pg.toasts
                          && r.1.value.originalLabel == pg.button.value.caption
  {
    var v := Validate(pg.form, pg.service);
    if !v.Send? then
      (pg.(toasts := ShowToast(pg.toasts, pg.hasToastRoot, ErrorMessage(v), Error)), None)
    else if pg.button.None? then
      (pg, None)
    else
      var b := pg.button.value;
      (pg.(button := Some(Button(true, true, SendingLabel)), sent := pg.sent + [v.payload]),
       Some(Pending(v.payload, b.caption)))
  }

  /** The part of the handler after the `await`: the `try` body or the
      `catch`, then the `finally` that always restores the button. */
  function OnSettle(pg: Page, p: Pending, result: SendResult): (r: Page)
    requires pg.button.Some?
    ensures r.button == Some(Button(false, false, p.originalLabel))
    ensures r.sent == pg.sent
    ensures result == Resolve ==> r.form == pg.defaults
    ensures result == Resolve ==> r.toasts == ShowToast(pg.toasts, pg.hasToastRoot, SentMessage, Success)
    ensures result == Reject ==> r.form == pg.form
    ensures result == Reject ==> r.toasts == ShowToast(pg.toasts, pg.hasToastRoot, FailedMessage, Error)
  {
    var settled :=
      match result
      case Resolve =>
        pg.(form := pg.defaults,
            toasts := ShowToast(pg.toasts, pg.hasToastRoot, SentMessage, Success))
      case Reject =>
        pg.(toasts := ShowToast(pg.toasts, pg.hasToastRoot, FailedMessage, Error));
    settled.(button := Some(Button(false, false, p.originalLabel)))
  }

  /** One whole submission: the handler runs and, if it started a send,
      that send settles with `result`. */
  function Submit(pg: Page, result: SendResult): (r: Page)
    ensures r.defaults == pg.defaults && r.service == pg.service && r.hasToastRoot == pg.hasToastRoot
    ensures |pg.sent| <= |r.sent| <= |pg.sent| + 1 && r.sent[..|pg.sent|] == pg.sent
    ensures |pg.toasts| <= |r.toasts| <= |pg.toasts| + 1 && r.toasts[..|pg.toasts|] == pg.toasts
  {
    var (mid, pending) := OnSubmit(pg);
    match pending
    case None => mid
    case Some(p) => OnSettle(mid, p, result)
  }

  /** A blank required field is reported as such whatever the email looks
      like and whatever the configuration: the page gains only that toast
      and nothing is sent. */
  lemma BlankFieldStops(pg: Page, result: SendResult)
    requires Blank(pg.form.name) || Blank(pg.form.email) || Blank(pg.form.message)
    ensures Submit(pg, result) ==
            pg.(toasts := ShowToast(pg.toasts, pg.hasToastRoot, MissingFieldsMessage, Error))
  {
  }

  /** Every error path leaves the button and the relay untouched and only
      adds the toast of the first failing check. */
  lemma ErrorPathsToastOnly(pg: Page, result: SendResult)
    requires !Validate(pg.form, pg.service).Send?
    ensures var r := Submit(pg, result);
            && r.button == pg.button
            && r.sent == pg.sent
            && r.form == pg.form
            && r.toasts == ShowToast(pg.toasts, pg.hasToastRoot,
                                     ErrorMessage(Validate(pg.form, pg.service)), Error)
  {
  }

  /** When all checks pass, exactly one send happens, carrying the trimmed
      fields; otherwise none does. */
  lemma ExactlyOneSend(pg: Page, result: SendResult)
    ensures var r := Submit(pg, result);
            if Validate(pg.form, pg.service).Send? && pg.button.Some? then
              r.sent == pg.sent + [Payload(Trim(pg.form.name.value), Trim(pg.form.email.value),
                                           Trim(pg.form.message.value))]
            else
              r.sent == pg.sent
  {
  }

  /** Whether the send resolves or rejects, the button ends enabled, not
      loading, and with the label it had before the submission. */
  lemma ButtonRestored(pg: Page, result: SendResult)
    ensures Validate(pg.form, pg.service).Send? && pg.button.Some? ==>
              Submit(pg, result).button == Some(Button(false, false, pg.button.value.caption))
  {
  }

  /** A resolved send resets the form and adds the success toast; a
      rejected one keeps the form and adds the generic failure toast. */
  lemma SettleOutcome(pg: Page, result: SendResult)
    ensures Validate(pg.form, pg.service).Send? && pg.button.Some? ==>
            var r := Submit(pg, result);
            match result
            case Resolve =>
              r.form == pg.defaults
              && r.toasts == ShowToast(pg.toasts, pg.hasToastRoot, SentMessage, Success)
            case Reject =>
              r.form == pg.form
              && r.toasts == ShowToast(pg.toasts, pg.hasToastRoot, FailedMessage, Error)
  {
  }

  /** The payload that goes out is clean: the name and message are
      non-empty with no surrounding whitespace, and the reply address is a
      well-formed address. */
  lemma SentPayloadIsClean(f: Form, svc: Service)
    ensures Validate(f, svc).Send? ==>
            var p := Validate(f, svc).payload;
            && p.fromName != [] && !IsSpace(p.fromName[0]) && !IsSpace(p.fromName[|p.fromName| - 1])
            && p.message != [] && !IsSpace(p.message[0]) && !IsSpace(p.message[|p.message| - 1])
            && WellFormedEmail(p.replyTo)
  {
    if Validate(f, svc).Send? {
      var p := Validate(f, svc).payload;
      TrimmedFieldIsClean(f.name.value);
      TrimmedFieldIsClean(f.message.value);
      assert WellFormedEmail(p.replyTo);
    }
  }

  lemma TrimmedFieldIsClean(s: string)
    requires !AllSpace(s)
    ensures Trim(s) != [] && !IsSpace(Trim(s)[0]) && !IsSpace(Trim(s)[|Trim(s)| - 1])
  {
  }
}
