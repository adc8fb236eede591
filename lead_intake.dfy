/**
 * The lead endpoint `/api/notify-lead`: normalise the submitted fields,
 * validate name, email and message in that order, consume one unit of the
 * per-email rate limit, insert one row into `leads`, and, when configured,
 * send one notification email whose failure is swallowed.
 *
 * The handler is a function of the request and of what each collaborator
 * answers; it returns the HTTP response and the trace of collaborator calls
 * it made.
 */
module NotifyLead {
  import opened JsText
  import EmailPattern
  import Validator

  /** The body fields the handler reads. `None` is an absent or falsy JSON value. */
  datatype LeadBody = LeadBody(
    nombre: Option<string>,
    email: Option<string>,
    telefono: Option<string>,
    mensaje: Option<string>,
    coche_interes: Option<string>,
    car_id: Option<string>,
    page_url: Option<string>,
    user_agent: Option<string>)

  /** The normalised submission. */
  datatype Lead = Lead(
    nombre: string,
    email: string,
    telefono: Option<string>,
    mensaje: string,
    coche_interes: Option<string>,
    car_id: Option<string>,
    page_url: string,
    user_agent: string)

  /** One element of the JSON array posted to `leads`. */
  datatype LeadRow = LeadRow(
    nombre: string,
    email: string,
    telefono: Option<string>,
    mensaje: string,
    coche_interes: Option<string>,
    car_id: Option<string>,
    page_url: string,
    user_agent: string,
    estado: string)

  /** What `ratelimit.limit(key)` resolves to. */
  datatype RateLimitReply = RateLimitReply(success: bool, limit: int, remaining: int, reset: int)

  datatype RateLimitOutcome = RateLimitThrew | RateLimitReplied(reply: RateLimitReply)

  /**
   * The parsed insert reply: not an array (including a body that is not JSON),
   * or an array given by the `id` of each element (`None` when absent or falsy).
   */
  datatype InsertJson = NotAnArray | JsonArray(ids: seq<Option<string>>)

  datatype InsertOutcome = InsertThrew | InsertReplied(ok: bool, json: InsertJson)

  /** The environment variables the handler reads. */
  datatype LeadEnv = LeadEnv(
    supabaseUrl: Option<string>,
    serviceRole: Option<string>,
    resendKey: Option<string>,
    leadsTo: Option<string>,
    leadsFrom: Option<string>)

  /** The collaborator calls, in the order they are made. */
  datatype Effect =
    | RateLimitCall(key: string)
    | InsertCall(payload: seq<LeadRow>)
    | EmailCall(from: string, to: string, row: LeadRow)

  datatype LeadResponse =
    | ErrorReply(status: int, error: string)
    | TooManyRequests(limit: int, remaining: int, reset: int)
    | LeadSaved(id: Option<string>, remaining: int, reset: int)
  {
    function Status(): int {
      match this
      case ErrorReply(status, _) => status
      case TooManyRequests(_, _, _) => 429
      case LeadSaved(_, _, _) => 200
    }
  }

  const UuidLength: nat := 36
  const MaxTextLength: nat := 500
  const MinNameLength: nat := 2
  const MinMessageLength: nat := 10
  const KeyPrefix := "lead_limit:"
  const NewLeadState := "nuevo"
  const DefaultFrom := "onboarding@resend.dev"

  // ---------------------------------------------------------------------
  // Normalisation
  // ---------------------------------------------------------------------

  /** `(v || "").toString().trim() || null`: the trimmed text, or `None` when that is empty. */
  function OptionalField(v: Option<string>): (r: Option<string>)
    ensures r.None? <==> forall i :: 0 <= i < |OrEmpty(v)| ==> IsSpace(OrEmpty(v)[i])
    ensures r.Some? ==> r.value == Trim(OrEmpty(v)) && r.value != ""
  {
    TrimEmptyIffAllSpace(OrEmpty(v));
    var t := Trim(OrEmpty(v));
    if t == "" then None else Some(t)
  }

  /** A character of the class `[0-9a-f-]` under the `i` flag. */
  predicate UuidChar(c: char) {
    ('0' <= c <= '9') || ('a' <= c <= 'f') || ('A' <= c <= 'F') || c == '-'
  }

  /** `/^[0-9a-f-]{36}$/i.test(t)`. */
  predicate UuidShaped(t: string) {
    |t| == UuidLength && forall i :: 0 <= i < |t| ==> UuidChar(t[i])
  }

  /** `car_id`: the trimmed input when it is UUID-shaped, otherwise `None`. */
  function CarIdField(v: Option<string>): (r: Option<string>)
    ensures r.Some? <==> UuidShaped(Trim(OrEmpty(v)))
    ensures r.Some? ==> r.value == Trim(OrEmpty(v))
  {
    var t := Trim(OrEmpty(v));
    if UuidShaped(t) then Some(t) else None
  }

  /** `(v || "").toString().slice(0, 500)`. */
  function TruncatedField(v: Option<string>): (r: string)
    ensures |r| <= MaxTextLength && |r| <= |OrEmpty(v)|
    ensures r == OrEmpty(v)[..|r|]
    ensures |OrEmpty(v)| <= MaxTextLength ==> r == OrEmpty(v)
  {
    Prefix(OrEmpty(v), MaxTextLength)
  }

  /** Lines 39–51 of the handler. */
  function Normalize(b: LeadBody): Lead {
    Lead(
      nombre := Trim(OrEmpty(b.nombre)),
      email := ToLower(Trim(OrEmpty(b.email))),
      telefono := OptionalField(b.telefono),
      mensaje := Trim(OrEmpty(b.mensaje)),
      coche_interes := OptionalField(b.coche_interes),
      car_id := CarIdField(b.car_id),
      page_url := TruncatedField(b.page_url),
      user_agent := TruncatedField(b.user_agent))
  }

  /** The row posted to `leads`: the normalised fields unchanged, plus `estado`. */
  function RowOf(l: Lead): LeadRow {
    LeadRow(l.nombre, l.email, l.telefono, l.mensaje, l.coche_interes, l.car_id,
            l.page_url, l.user_agent, NewLeadState)
  }

  // ---------------------------------------------------------------------
  // Validation
  // ---------------------------------------------------------------------

  /**
   * The three checks of lines 56–64, taken in order; the result is the error
   * of the first one that fails, or `None` when all pass.
   */
  function FirstInvalid(l: Lead): (r: Option<string>)
    ensures r.None? <==>
      |l.nombre| >= MinNameLength && EmailPattern.MatchesRegex(l.email) && |l.mensaje| >= MinMessageLength
    ensures r == Some("invalid_name") <==> |l.nombre| < MinNameLength
    ensures r == Some("invalid_email") <==>
      |l.nombre| >= MinNameLength && !EmailPattern.MatchesRegex(l.email)
    ensures r == Some("invalid_message") <==>
      |l.nombre| >= MinNameLength && EmailPattern.MatchesRegex(l.email) && |l.mensaje| < MinMessageLength
  {
    if l.nombre == "" || |l.nombre| < MinNameLength then Some("invalid_name")
    else if l.email == "" || !EmailPattern.Matches(l.email) then Some("invalid_email")
    else if l.mensaje == "" || |l.mensaje| < MinMessageLength then Some("invalid_message")
    else None
  }

  // ---------------------------------------------------------------------
  // Persistence reply and notification
  // ---------------------------------------------------------------------

  /** `Array.isArray(sbJson) && sbJson[0]?.id ? sbJson[0].id : null`. */
  function LeadId(json: InsertJson): (r: Option<string>)
    ensures r.Some? <==> json.JsonArray? && |json.ids| > 0 && Truthy(json.ids[0])
    ensures r.Some? ==> r == json.ids[0]
  {
    if json.JsonArray? && |json.ids| > 0 && Truthy(json.ids[0]) then json.ids[0] else None
  }

  /** Lines 130–171: one email call when both the key and the recipient are set. */
  function Notify(env: LeadEnv, row: LeadRow): (calls: seq<Effect>)
    ensures |calls| <= 1
    ensures |calls| == 1 <==> Truthy(env.resendKey) && Truthy(env.leadsTo)
    ensures |calls| == 1 ==> calls[0].EmailCall? && calls[0].to == env.leadsTo.value && calls[0].row == row
  {
    var from := if Truthy(env.leadsFrom) then env.leadsFrom.value else DefaultFrom;
    if Truthy(env.resendKey) && Truthy(env.leadsTo) then [EmailCall(from, env.leadsTo.value, row)] else []
  }

  // ---------------------------------------------------------------------
  // The handler
  // ---------------------------------------------------------------------

  /**
   * The whole handler. The email call sits inside a `try`/`catch` that only
   * logs a failure, so whether the send throws has no bearing on the response
   * or on the calls made, and it is not a parameter.
   */
  function Handle(httpMethod: string, body: LeadBody, env: LeadEnv, rate: RateLimitOutcome,
                  insert: InsertOutcome): (LeadResponse, seq<Effect>)
  {
    if httpMethod != "POST" then (ErrorReply(405, "method_not_allowed"), [])
    else Admit(Normalize(body), env, rate, insert)
  }

  /** The rate-limit key: the prefix followed by the normalised email. */
  function KeyOf(lead: Lead): string {
    KeyPrefix + lead.email
  }

  /** Everything after the method guard, for the normalised submission `lead`. */
  function Admit(lead: Lead, env: LeadEnv, rate: RateLimitOutcome,
                 insert: InsertOutcome): (LeadResponse, seq<Effect>)
  {
    match FirstInvalid(lead)
    case Some(err) => (ErrorReply(400, err), [])
    case None =>
      var key := KeyOf(lead);
      match rate
      case RateLimitThrew => (ErrorReply(500, "internal_error"), [RateLimitCall(key)])
      case RateLimitReplied(d) =>
        if !d.success then (TooManyRequests(d.limit, d.remaining, d.reset), [RateLimitCall(key)])
        else if !Truthy(env.supabaseUrl) || !Truthy(env.serviceRole) then
          (ErrorReply(500, "server_misconfigured"), [RateLimitCall(key)])
        else
          var row := RowOf(lead);
          var calls := [RateLimitCall(key), InsertCall([row])];
          match insert
          case InsertThrew => (ErrorReply(500, "internal_error"), calls)
          case InsertReplied(ok, json) =>
            if !ok then (ErrorReply(500, "db_insert_failed"), calls)
            else
              // a thrown send is caught and only logged, so its fate changes nothing
              (LeadSaved(LeadId(json), d.remaining, d.reset), calls + Notify(env, row))
  }

  // ---------------------------------------------------------------------
  // Properties of the handler
  // ---------------------------------------------------------------------

  /** A POST goes on to the admission stages with the normalised body. */
  lemma PostIsAdmit(body: LeadBody, env: LeadEnv, rate: RateLimitOutcome,
                    insert: InsertOutcome)
    ensures Handle("POST", body, env, rate, insert) ==
            Admit(Normalize(body), env, rate, insert)
  {
  }

  /** A method other than POST is refused before anything else happens. */
  lemma NonPostRefused(httpMethod: string, body: LeadBody, env: LeadEnv, rate: RateLimitOutcome,
                       insert: InsertOutcome)
    requires httpMethod != "POST"
    ensures Handle(httpMethod, body, env, rate, insert) == (ErrorReply(405, "method_not_allowed"), [])
  {
  }

  /** Every response carries one of the five status codes the handler uses. */
  lemma StatusCodes(httpMethod: string, body: LeadBody, env: LeadEnv, rate: RateLimitOutcome,
                    insert: InsertOutcome)
    ensures Handle(httpMethod, body, env, rate, insert).0.Status() in {200, 400, 405, 429, 500}
  {
    if httpMethod == "POST" {
      AdmitStatusCodes(Normalize(body), env, rate, insert);
    }
  }

  lemma AdmitStatusCodes(lead: Lead, env: LeadEnv, rate: RateLimitOutcome,
                         insert: InsertOutcome)
    ensures Admit(lead, env, rate, insert).0.Status() in {200, 400, 429, 500}
  {
  }

  /**
   * An invalid submission gets the error of the first failing check and
   * reaches no collaborator: no rate-limit call, no insert, no email.
   */
  lemma InvalidRefusedBeforeRateLimit(lead: Lead, env: LeadEnv, rate: RateLimitOutcome,
                                      insert: InsertOutcome)
    requires FirstInvalid(lead).Some?
    ensures Admit(lead, env, rate, insert) == (ErrorReply(400, FirstInvalid(lead).value), [])
  {
  }

  /** A denial of the rate limit answers 429 with the limiter's numbers, after one call keyed by the email. */
  lemma RateLimitDenial(lead: Lead, env: LeadEnv, d: RateLimitReply, insert: InsertOutcome)
    requires FirstInvalid(lead).None? && !d.success
    ensures Admit(lead, env, RateLimitReplied(d), insert) ==
            (TooManyRequests(d.limit, d.remaining, d.reset), [RateLimitCall(KeyOf(lead))])
  {
  }

  /** Missing database settings are found only once the rate limit has been consumed. */
  lemma MisconfiguredAfterRateLimit(lead: Lead, env: LeadEnv, d: RateLimitReply,
                                    insert: InsertOutcome)
    requires FirstInvalid(lead).None? && d.success
    requires !Truthy(env.supabaseUrl) || !Truthy(env.serviceRole)
    ensures Admit(lead, env, RateLimitReplied(d), insert) ==
            (ErrorReply(500, "server_misconfigured"), [RateLimitCall(KeyOf(lead))])
  {
  }

  /**
   * An insert happens exactly when the submission is valid, the limiter
   * allowed it and the database is configured; it is the second call, after
   * the rate-limit call, and it posts the one normalised row with
   * `estado = "nuevo"` and nothing else.
   */
  lemma InsertOnlyWhenAdmitted(lead: Lead, env: LeadEnv, rate: RateLimitOutcome,
                               insert: InsertOutcome)
    ensures var tr := Admit(lead, env, rate, insert).1;
      (exists i :: 0 <= i < |tr| && tr[i].InsertCall?) <==>
        (FirstInvalid(lead).None? && rate.RateLimitReplied? && rate.reply.success
         && Truthy(env.supabaseUrl) && Truthy(env.serviceRole))
    ensures var tr := Admit(lead, env, rate, insert).1;
      forall i :: 0 <= i < |tr| && tr[i].InsertCall? ==>
        i == 1 && tr[0] == RateLimitCall(KeyOf(lead)) && tr[i].payload == [RowOf(lead)]
  {
    var tr := Admit(lead, env, rate, insert).1;
    if FirstInvalid(lead).None? && rate.RateLimitReplied? && rate.reply.success
       && Truthy(env.supabaseUrl) && Truthy(env.serviceRole) {
      assert tr[1].InsertCall?;
    }
  }

  /** The inserted row is the normalised submission, field for field. */
  lemma RowIsNormalisedLead(body: LeadBody)
    ensures var r := RowOf(Normalize(body));
      && r.nombre == Trim(OrEmpty(body.nombre))
      && r.email == ToLower(Trim(OrEmpty(body.email)))
      && r.mensaje == Trim(OrEmpty(body.mensaje))
      && r.estado == "nuevo"
      && |r.page_url| <= MaxTextLength && |r.user_agent| <= MaxTextLength
      && r.page_url == OrEmpty(body.page_url)[..|r.page_url|]
      && r.user_agent == OrEmpty(body.user_agent)[..|r.user_agent|]
      && r.telefono == OptionalField(body.telefono)
      && r.coche_interes == OptionalField(body.coche_interes)
      && r.car_id == CarIdField(body.car_id)
      && r.page_url == TruncatedField(body.page_url)
      && r.user_agent == TruncatedField(body.user_agent)
      && (r.car_id.Some? ==> UuidShaped(r.car_id.value))
      && (r.telefono.Some? ==> r.telefono.value != "")
      && (r.coche_interes.Some? ==> r.coche_interes.value != "")
  {
  }

  /** A UUID-shaped `car_id` is stored as it was sent. */
  lemma UuidKept(s: string)
    requires UuidShaped(s)
    ensures CarIdField(Some(s)) == Some(s)
  {
    assert NoSpace(s) by {
      forall i | 0 <= i < |s| ensures !IsSpace(s[i]) { assert UuidChar(s[i]); }
    }
    TrimNoSpace(s);
  }

  /** A `car_id` that is not UUID-shaped, `"not-a-uuid"`, becomes null. */
  lemma NonUuidCarIdNulled()
    ensures CarIdField(Some("not-a-uuid")) == None
  {
    TrimSpec("not-a-uuid");
  }

  /** A well-formed UUID `car_id` is kept as sent. */
  lemma UuidCarIdKept()
    ensures CarIdField(Some("3fa85f64-5717-4562-b3fc-2c963f66afa6")) == Some("3fa85f64-5717-4562-b3fc-2c963f66afa6")
  {
    var u := "3fa85f64-5717-4562-b3fc-2c963f66afa6";
    assert UuidShaped(u);
    UuidKept(u);
  }

  /** A rejected insert answers `db_insert_failed` and sends no email. */
  lemma InsertRejected(lead: Lead, env: LeadEnv, d: RateLimitReply, json: InsertJson)
    requires FirstInvalid(lead).None? && d.success
    requires Truthy(env.supabaseUrl) && Truthy(env.serviceRole)
    ensures Admit(lead, env, RateLimitReplied(d), InsertReplied(false, json)) ==
            (ErrorReply(500, "db_insert_failed"), [RateLimitCall(KeyOf(lead)), InsertCall([RowOf(lead)])])
  {
  }

  /**
   * An accepted insert answers 200 with the first row's id when there is one
   * and `null` otherwise, together with the limiter's numbers.
   */
  lemma InsertAccepted(lead: Lead, env: LeadEnv, d: RateLimitReply, json: InsertJson)
    requires FirstInvalid(lead).None? && d.success
    requires Truthy(env.supabaseUrl) && Truthy(env.serviceRole)
    ensures var resp := Admit(lead, env, RateLimitReplied(d), InsertReplied(true, json)).0;
      && resp == LeadSaved(LeadId(json), d.remaining, d.reset)
      && resp.Status() == 200
      && (json.NotAnArray? || json.ids == [] ==> resp.id.None?)
  {
  }

  /**
   * At most one email is attempted; it is the last call, and it is made
   * exactly when the lead was saved and both the key and the recipient are set.
   */
  lemma EmailAtMostOnce(lead: Lead, env: LeadEnv, rate: RateLimitOutcome,
                        insert: InsertOutcome)
    ensures var (resp, tr) := Admit(lead, env, rate, insert);
      && (forall i, j :: 0 <= i < |tr| && 0 <= j < |tr| && tr[i].EmailCall? && tr[j].EmailCall? ==> i == j)
      && (forall i :: 0 <= i < |tr| && tr[i].EmailCall? ==> i == |tr| - 1 && tr[i].to == env.leadsTo.value)
      && ((exists i :: 0 <= i < |tr| && tr[i].EmailCall?) <==>
            resp.LeadSaved? && Truthy(env.resendKey) && Truthy(env.leadsTo))
  {
    var (resp, tr) := Admit(lead, env, rate, insert);
    if resp.LeadSaved? && Truthy(env.resendKey) && Truthy(env.leadsTo) {
      assert tr[2].EmailCall?;
    }
  }

  /**
   * Notification never changes the response: whether email is configured or
   * not, the answer is the same. A send that throws is caught and only logged
   * (the `try`/`catch` of lines 134-171), so its fate is not an input at all.
   */
  lemma NotificationNeverChangesResponse(httpMethod: string, body: LeadBody, env1: LeadEnv, env2: LeadEnv,
                                         rate: RateLimitOutcome, insert: InsertOutcome)
    requires env1.supabaseUrl == env2.supabaseUrl && env1.serviceRole == env2.serviceRole
    ensures Handle(httpMethod, body, env1, rate, insert).0 == Handle(httpMethod, body, env2, rate, insert).0
  {
    if httpMethod == "POST" {
      AdmitIgnoresNotification(Normalize(body), env1, env2, rate, insert);
    }
  }

  lemma AdmitIgnoresNotification(lead: Lead, env1: LeadEnv, env2: LeadEnv,
                                 rate: RateLimitOutcome, insert: InsertOutcome)
    requires env1.supabaseUrl == env2.supabaseUrl && env1.serviceRole == env2.serviceRole
    ensures Admit(lead, env1, rate, insert).0 == Admit(lead, env2, rate, insert).0
  {
  }

  /** A thrown rate-limit call or insert is caught and answered `internal_error`. */
  lemma FaultsAreInternalError(lead: Lead, env: LeadEnv, rate: RateLimitOutcome,
                               insert: InsertOutcome)
    requires FirstInvalid(lead).None?
    requires rate.RateLimitThrew? ||
             (rate.reply.success && Truthy(env.supabaseUrl) && Truthy(env.serviceRole) && insert.InsertThrew?)
    ensures Admit(lead, env, rate, insert).0 == ErrorReply(500, "internal_error")
  {
  }

  /** The call trace is always a prefix of: rate limit, insert, email. */
  lemma TraceShape(lead: Lead, env: LeadEnv, rate: RateLimitOutcome, insert: InsertOutcome)
    ensures var tr := Admit(lead, env, rate, insert).1;
      && |tr| <= 3
      && (|tr| >= 1 ==> tr[0] == RateLimitCall(KeyOf(lead)))
      && (|tr| >= 2 ==> tr[1] == InsertCall([RowOf(lead)]))
      && (|tr| == 3 ==> tr[2].EmailCall? && tr[2].row == RowOf(lead))
  {
  }

  /** A field of visible ASCII characters comes through trimming unchanged. */
  lemma VisibleFieldKept(s: string)
    requires VisibleAscii(s)
    ensures Trim(OrEmpty(Some(s))) == s
  {
    VisibleAsciiNoSpace(s);
    TrimNoSpace(s);
  }

  /**
   * A submission with a valid name and email but a message of fewer than 10
   * characters (visible ASCII, so trimming keeps it as sent) is refused with
   * `invalid_message`, whatever the optional fields, before any collaborator
   * is called.
   */
  lemma ShortMessageIsInvalid(name: string, email: string, msg: string, body: LeadBody, env: LeadEnv,
                              rate: RateLimitOutcome, insert: InsertOutcome)
    requires body.nombre == Some(name) && body.email == Some(email) && body.mensaje == Some(msg)
    requires VisibleAscii(name) && |name| >= MinNameLength
    requires EmailPattern.MatchesRegex(email)
    requires VisibleAscii(msg) && |msg| < MinMessageLength
    ensures Handle("POST", body, env, rate, insert) == (ErrorReply(400, "invalid_message"), [])
  {
    VisibleFieldKept(name);
    VisibleFieldKept(msg);
    EmailPattern.MatchHasNoSpace(email);
    TrimNoSpace(email);
    EmailPattern.LowerKeepsMatch(email);
    var l := Normalize(body);
    assert l.nombre == name && l.mensaje == msg && EmailPattern.MatchesRegex(l.email);
    PostIsAdmit(body, env, rate, insert);
    InvalidRefusedBeforeRateLimit(l, env, rate, insert);
  }

  lemma ExampleEmailMatches()
    ensures EmailPattern.MatchesRegex("a@b.com")
  {
    var e := "a@b.com";
    VisibleAsciiNoSpace(e);
    assert e[1] == '@' && e[3] == '.';
    assert EmailPattern.PlainRun(e, 0, 1) && EmailPattern.PlainRun(e, 2, 3) && EmailPattern.PlainRun(e, 4, 7);
  }

  /**
   * A submission with name "Jo", email "a@b.com" and message
   * "short" is refused with `invalid_message`, before any collaborator is called.
   */
  lemma ShortMessageRefused(env: LeadEnv, rate: RateLimitOutcome, insert: InsertOutcome)
    ensures Handle("POST", LeadBody(Some("Jo"), Some("a@b.com"), None, Some("short"), None, None, None, None),
                   env, rate, insert) == (ErrorReply(400, "invalid_message"), [])
  {
    assert VisibleAscii("Jo") && VisibleAscii("short");
    ExampleEmailMatches();
    ShortMessageIsInvalid("Jo", "a@b.com", "short",
                          LeadBody(Some("Jo"), Some("a@b.com"), None, Some("short"), None, None, None, None),
                          env, rate, insert);
  }

  /**
   * The browser validator never accepts an address that the endpoint then
   * refuses: after trimming and lower-casing it still matches the expression.
   */
  lemma ClientEmailPassesServer(body: LeadBody)
    requires Validator.Email(body.email)
    ensures EmailPattern.MatchesRegex(Normalize(body).email)
    ensures FirstInvalid(Normalize(body)) != Some("invalid_email")
  {
    var e := body.email.value;
    EmailPattern.MatchHasNoSpace(e);
    TrimNoSpace(e);
    EmailPattern.LowerKeepsMatch(e);
  }
}
