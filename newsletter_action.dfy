/**
 * The request handler of the newsletter form: a fixed sequence of early
 * returns (method gate, rate limit, development reset, presence check,
 * `addSubscriber`) followed by the mapping of thrown errors to HTTP statuses.
 */
module NewsletterAction {
  import opened Wrappers
  import opened Text
  import opened Newsletter

  /** The two form fields the handler reads; `None` is a field that is not sent. */
  datatype Form = Form(email: Option<string>, reset: Option<string>)

  /**
   * The parts of a request the handler looks at: `verb` is `request.method`,
   * and `form` is `Failure(message)` when reading the body as form data throws
   * an error with that message.
   */
  datatype Request = Request(
    verb: string,
    forwardedFor: Option<string>,
    realIp: Option<string>,
    form: Result<Form, string>)

  datatype Body =
    | PlainText(text: string)
    | ErrorJson(error: string)
    | ResetJson(success: bool, message: string)
    | SubscribedJson(success: bool, message: string, id: string, email: string, subscribedAt: string)

  datatype Response = Response(status: nat, body: Body)

  const ResetMessage: string := "Rate limits have been reset for development."
  const ThankYouMessage: string :=
    "Thank you for subscribing! You'll receive updates when I publish new ideas and projects."

  const MethodNotAllowed: Response := Response(405, PlainText("Method not allowed"))
  const TooManyAttempts: Response := Response(429, ErrorJson("Too many attempts. Please try again later."))
  const EmailRequired: Response := Response(400, ErrorJson("Email is required"))
  const ResetDone: Response := Response(200, ResetJson(true, ResetMessage))

  /** The human-readable text a failure response carries. */
  function FailureText(body: Body): string
  {
    match body
    case PlainText(t) => t
    case ErrorJson(e) => e
    case _ => ""
  }

  /**
   * The client key: `x-forwarded-for`, else `x-real-ip`, else `"unknown"`; an
   * absent or empty header falls through to the next choice.
   */
  function ClientIp(req: Request): (ip: string)
    ensures ip != "" && RateLimitKey(ip) == ip
    ensures Truthy(req.forwardedFor) ==> ip == req.forwardedFor.value
    ensures !Truthy(req.forwardedFor) && Truthy(req.realIp) ==> ip == req.realIp.value
    ensures !Truthy(req.forwardedFor) && !Truthy(req.realIp) ==> ip == "unknown"
  {
    Or(req.forwardedFor, Or(req.realIp, "unknown"))
  }

  /** The `catch` block: the status and message for an error thrown with `message`. */
  function ErrorResponse(message: string): (resp: Response)
    ensures resp.body.ErrorJson? && |resp.body.error| > 0
    ensures resp.status in {400, 409, 500}
    ensures resp.status == 400 <==> message == InvalidEmailFormat
    ensures resp.status == 409 <==> message == AlreadySubscribed
  {
    if message == InvalidEmailFormat then
      Response(400, ErrorJson("Please enter a valid email address"))
    else if message == AlreadySubscribed then
      Response(409, ErrorJson("This email is already subscribed"))
    else
      Response(500, ErrorJson("Something went wrong. Please try again."))
  }

  /** The request is a POST and the rate limit lets it through. */
  predicate Admitted(limits: map<string, Entry>, req: Request, now: nat) {
    req.verb == "POST" && RateLimitStep(limits, ClientIp(req), now).allowed
  }

  /** The rate-limit map once the request's attempt is counted. */
  function Counted(limits: map<string, Entry>, req: Request, now: nat): map<string, Entry> {
    RateLimitStep(limits, ClientIp(req), now).limits
  }

  /** The form asks for the development reset. */
  predicate IsResetRequest(form: Form) {
    form.reset == Some("ratelimits")
  }

  /**
   * `handleNewsletterAction` against the service `svc` at time `now`; `id` and
   * `subscribedAt` are what the id generator and the clock would give a new
   * subscriber.
   */
  method HandleNewsletterAction(svc: SubscriptionService, req: Request, now: nat, id: string, subscribedAt: string)
    returns (resp: Response)
    requires svc.Valid()
    modifies svc
    ensures svc.Valid()
    // Only POST gets past the gate, and a refused method changes nothing.
    ensures req.verb != "POST" ==>
      resp == MethodNotAllowed
      && svc.rateLimits == old(svc.rateLimits) && svc.subscribers == old(svc.subscribers)
    // The rate limit comes before the form is read: a denied request changes nothing,
    // whatever its fields hold (a reset request included).
    ensures req.verb == "POST" && !Admitted(old(svc.rateLimits), req, now) ==>
      resp == TooManyAttempts
      && svc.rateLimits == old(svc.rateLimits) && svc.subscribers == old(svc.subscribers)
    // A body that cannot be read as a form goes to the error mapping.
    ensures (Admitted(old(svc.rateLimits), req, now) && req.form.Failure?) ==>
      resp == ErrorResponse(req.form.error)
      && svc.rateLimits == Counted(old(svc.rateLimits), req, now)
      && svc.subscribers == old(svc.subscribers)
    // The development reset clears every record and adds no subscriber, with or without an email.
    ensures (Admitted(old(svc.rateLimits), req, now) && req.form.Success? && IsResetRequest(req.form.value)) ==>
      resp == ResetDone && svc.rateLimits == map[] && svc.subscribers == old(svc.subscribers)
    // A missing or empty email is refused before addSubscriber is reached.
    ensures (Admitted(old(svc.rateLimits), req, now) && req.form.Success? && !IsResetRequest(req.form.value)
             && Or(req.form.value.email, "") == "") ==>
      resp == EmailRequired
      && svc.rateLimits == Counted(old(svc.rateLimits), req, now)
      && svc.subscribers == old(svc.subscribers)
    // Otherwise the attempt is counted and addSubscriber decides.
    ensures (Admitted(old(svc.rateLimits), req, now) && req.form.Success? && !IsResetRequest(req.form.value)
             && Or(req.form.value.email, "") != "") ==>
      var email := req.form.value.email.value;
      && svc.rateLimits == Counted(old(svc.rateLimits), req, now)
      && (!IsValidEmail(email) ==>
            resp == ErrorResponse(InvalidEmailFormat) && svc.subscribers == old(svc.subscribers))
      && (IsValidEmail(email) && old(svc.EmailExists(email)) ==>
            resp == ErrorResponse(AlreadySubscribed) && svc.subscribers == old(svc.subscribers))
      && (IsValidEmail(email) && !old(svc.EmailExists(email)) ==>
            && resp == Response(200, SubscribedJson(true, ThankYouMessage, id, LowerStr(email), subscribedAt))
            && svc.subscribers == old(svc.subscribers) + [Subscriber(id, LowerStr(email), subscribedAt, Active)])
    // Every failure carries a non-empty message.
    ensures resp.status != 200 ==> |FailureText(resp.body)| > 0
  {
    if req.verb != "POST" {
      return MethodNotAllowed;
    }
    var clientIp := ClientIp(req);
    var allowed := svc.CheckRateLimit(clientIp, now);
    if !allowed {
      return TooManyAttempts;
    }
    if req.form.Failure? {
      return ErrorResponse(req.form.error);
    }
    var form := req.form.value;
    if form.reset == Some("ratelimits") {
      svc.ResetRateLimits();
      return ResetDone;
    }
    if form.email.None? || form.email.value == "" {
      return EmailRequired;
    }
    var email := form.email.value;
    var added := svc.AddSubscriber(email, id, subscribedAt);
    match added {
      case Success(subscriber) =>
        resp := Response(200, SubscribedJson(true, ThankYouMessage, subscriber.id, subscriber.email, subscriber.subscribedAt));
      case Failure(message) =>
        resp := ErrorResponse(message);
    }
  }
}
