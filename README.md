# Dealership site: lead intake, match alerts, form validators and the auth drawer

This project is a Dafny model of the decision logic in a car-dealership
marketing site. The rest of the site is glue between HTTP handlers and hosted
services. The model covers four pieces of code:

- **`/api/notify-lead`** (`api/notify-lead.js`) takes a contact form
  submission through these steps:
  - it normalises the fields: trim, lower-case the email, null-if-blank,
    a UUID-shape test for `car_id`, and 500-character truncation;
  - it validates name, email and message in that order;
  - it consumes one unit of the per-email rate limit;
  - it inserts one row into `leads`, after checking the database settings;
  - it answers with the new row's id;
  - when email is configured, it sends one notification whose failure is
    swallowed.

  The handler (`NotifyLead.Handle`) is a pure function. Its inputs are the
  request and what each collaborator answered. It returns the HTTP response
  and the trace of collaborator calls it made.
- **`/api/notify-matches`** (`api/notify-matches.js`) works from a car id:
  - it loads the car and filters every buyer preference against it;
  - it looks up the matching buyers' addresses;
  - it builds the car's deep link (`encodeURIComponent` of the slug is
    modelled in `UriComponent`);
  - it mails each address in turn;
  - it writes one `notify_log` row per match.

  The filter, lists and link are functions. The send loop is a method with a
  loop (`NotifyMatches.SendAlerts`). The handler is a method that returns the
  response and the call trace (`NotifyMatches.Handle`).
- **`Validator`** (`public/js/utils.js`) holds four browser-side predicates:
  email, phone digit count, required minimum length and maximum length.
  The email expression `^[^\s@]+@[^\s@]+\.[^\s@]+$` is shared with the lead
  endpoint. It is modelled once (`EmailPattern`), both as a language and as a
  direct test, and the two are proved equal.
- **The auth widget's drawer menu** (`public/js/auth-widget.js`) works as
  follows:
  - `Drawer` is a class whose `children` field is the drawer's child list;
  - each `render` first removes the items it marked earlier (`CleanupInjected`);
  - it then inserts "Login", or "Preferencias" and "Salir", before the first
    "contacto" item or at the end;
  - after a failed session lookup it always appends "Login".

  The function `Rendered` specifies the drawer after a render. The lemmas
  about it show that repeated renders never pile up items and never reorder
  the page's own items. The display-name fallback is a function.

JavaScript's `trim`, `toLowerCase`, `slice(0, n)` and `split(c)[0]`, and
truthiness, are modelled in `JsText`.

What the code does, in places where a reader might expect otherwise:

- The handler validates the body **before** it calls the rate limiter, so an
  invalid submission never uses up the rate limit.
- There is no fallback insert path. One failed insert answers
  `db_insert_failed`.
- An insert that succeeds without an id still answers 200 with `id: null`.
- The endpoint never checks the phone number. Only the browser
  `Validator.phone` does, and it asks for 9–15 digits.
- There is no `invalid_json` answer that any input can reach.
- Validation stops at the first failing field.
- The match notifier does not skip pairs already logged. It mails every
  recipient, one mail per address and not one per match, and then writes the
  log rows.

## Model

| member | source | states |
|---|---|---|
| JsText.OrEmpty | api/notify-lead.js:39-51 | the falsy-to-empty coercion before `toString()`: a present value reads as itself, and an absent or falsy one as the empty string |
| JsText.Truthy | api/notify-lead.js:91 | JavaScript truthiness of an optional string: present and non-empty; the contracts of `NotifyLead.LeadId`, `NotifyLead.Notify`, `NotifyLead.MisconfiguredAfterRateLimit` and `NotifyMatches.Handle` are stated with it |
| JsText.IsSpace | api/notify-lead.js:39-45 | the ECMAScript WhiteSpace and LineTerminator code points, which `trim` removes and `\s` matches; `JsText.TrimSpec`, `JsText.LowerCharKeeps` and `EmailPattern.MatchHasNoSpace` state what rests on it |
| JsText.Trim | api/notify-lead.js:39-45 | `String.prototype.trim`, pinned down by `JsText.TrimSpec` (only whitespace removed, only at the ends, none left at either end) and `JsText.TrimEmptyIffAllSpace` |
| JsText.TrimSpec | api/notify-lead.js:39-45 | `trim` removes only whitespace, only from the ends, and what is left neither starts nor ends with whitespace |
| JsText.TrimEmptyIffAllSpace | api/notify-lead.js:41-43 | a trimmed field is empty exactly when every character of the input is whitespace |
| JsText.ToLower | api/notify-lead.js:40 | lower-casing keeps the length and maps each character on its own |
| JsText.LowerCharKeeps | api/notify-lead.js:40 | lower-casing creates and removes no whitespace, `@` or `.` |
| JsText.Prefix | api/notify-lead.js:50-51 | `slice(0, 500)` gives a prefix of the input with at most 500 characters, and the whole input when it is short enough |
| JsText.BeforeFirst | public/js/auth-widget.js:135 | `split("@")[0]` is the longest prefix with no `@`, and it ends where the first `@` stands |
| EmailPattern.Matches | public/js/utils.js:74 | the direct test (local part before the first `@`, no whitespace, no second `@`, a `.` inside the domain) accepts exactly the strings the expression matches |
| EmailPattern.MatchHasNoSpace | api/notify-lead.js:59 | no string the expression matches contains whitespace |
| EmailPattern.LowerKeepsMatch | api/notify-lead.js:40-59 | lower-casing a matching address keeps it matching |
| Validator.Email | public/js/utils.js:73-76 | `email` holds exactly for a present input that matches the expression and has at most 254 characters |
| Validator.Digits | public/js/utils.js:78 | removing non-digits keeps every digit, as often as it occurs, and nothing else |
| Validator.Phone | public/js/utils.js:77-80 | an absent phone fails, and a passing phone has at least 9 characters |
| Validator.PhoneIgnoresSeparators | public/js/utils.js:77-80 | inserting any run of non-digits anywhere never changes the verdict |
| Validator.PhoneOfDigits | public/js/utils.js:77-80 | for an input of digits only, `phone` holds exactly when there are 9 to 15 of them |
| Validator.DigitsAppend | public/js/utils.js:78 | digit extraction distributes over concatenation |
| Validator.Required | public/js/utils.js:81-83 | an absent or empty input fails, a present one passes any minimum of zero or less, and a passing input is at least the minimum long |
| Validator.RequiredByDefault | public/js/utils.js:81 | with the default minimum of 1, `required` holds exactly when the input has a non-whitespace character |
| Validator.RequiredBlankAtZero | public/js/utils.js:82 | a blank but non-empty input passes with minimum 0, and an empty one fails |
| Validator.RequiredMonotone | public/js/utils.js:81-83 | lowering the minimum never turns a pass into a failure |
| Validator.MaxLength | public/js/utils.js:84-86 | an absent or empty input passes, and a passing non-empty input is at most the maximum long, untrimmed |
| Validator.MaxLengthMonotone | public/js/utils.js:84-86 | raising the maximum never turns a pass into a failure |
| NotifyLead.Handle | api/notify-lead.js:21-188 | the whole handler: `NotifyLead.NonPostRefused` answers any method but POST, `NotifyLead.PostIsAdmit` hands a POST to `NotifyLead.Admit` with the normalised body, and `NotifyLead.StatusCodes`, `NotifyLead.NotificationNeverChangesResponse` and `NotifyLead.ShortMessageIsInvalid` hold of it as a whole |
| NotifyLead.Admit | api/notify-lead.js:56-182 | validation, rate limit, configuration check, insert, notification and answer; each outcome is pinned down by `NotifyLead.InvalidRefusedBeforeRateLimit`, `NotifyLead.RateLimitDenial`, `NotifyLead.MisconfiguredAfterRateLimit`, `NotifyLead.InsertRejected`, `NotifyLead.InsertAccepted`, `NotifyLead.FaultsAreInternalError`, `NotifyLead.InsertOnlyWhenAdmitted`, `NotifyLead.EmailAtMostOnce` and `NotifyLead.TraceShape` |
| NotifyLead.Normalize | api/notify-lead.js:39-51 | the normalised submission; `NotifyLead.RowIsNormalisedLead` states every field, `NotifyLead.VisibleFieldKept` and `NotifyLead.UuidKept` say when a field is kept as sent, and `NotifyLead.ClientEmailPassesServer` that the email keeps matching |
| NotifyLead.RowOf | api/notify-lead.js:96-106 | the one row posted to `leads`; `NotifyLead.RowIsNormalisedLead` states it field for field, with `estado = "nuevo"` |
| NotifyLead.KeyOf | api/notify-lead.js:69 | `lead_limit:` followed by the normalised email; `NotifyLead.RateLimitDenial` and `NotifyLead.TraceShape` show it is the key of the one rate-limit call |
| NotifyLead.UuidShaped | api/notify-lead.js:46 | `/^[0-9a-f-]{36}$/i`: exactly 36 characters, each a hex digit of either case or `-`; `NotifyLead.UuidKept`, `NotifyLead.NonUuidCarIdNulled` and `NotifyLead.UuidCarIdKept` pin it down |
| NotifyLead.OptionalField | api/notify-lead.js:41-43 | `telefono` and `coche_interes` are null exactly when the input is all whitespace, and are otherwise the non-empty trimmed text |
| NotifyLead.CarIdField | api/notify-lead.js:45-48 | `car_id` is kept exactly when its trimmed form is 36 characters of `[0-9a-fA-F-]`, and then it is kept trimmed |
| NotifyLead.UuidKept | api/notify-lead.js:45-48 | a UUID-shaped `car_id` is stored exactly as sent |
| NotifyLead.NonUuidCarIdNulled | api/notify-lead.js:45-48 | `"not-a-uuid"` becomes null |
| NotifyLead.UuidCarIdKept | api/notify-lead.js:45-48 | `"3fa85f64-5717-4562-b3fc-2c963f66afa6"` is kept as sent |
| NotifyLead.TruncatedField | api/notify-lead.js:50-51 | `page_url` and `user_agent` are prefixes of their input, at most 500 characters long, and whole when short enough |
| NotifyLead.FirstInvalid | api/notify-lead.js:56-64 | the answer is the error of the first failing check out of name (at least 2 characters), email (matching the expression) and message (at least 10); none is given exactly when all three pass |
| NotifyLead.NonPostRefused | api/notify-lead.js:25-27 | any other method answers 405 `method_not_allowed` and calls nothing |
| NotifyLead.StatusCodes | api/notify-lead.js:24-187 | every response has status 200, 400, 405, 429 or 500 |
| NotifyLead.InvalidRefusedBeforeRateLimit | api/notify-lead.js:56-64 | an invalid submission answers 400 with the first failing check's error before any rate-limit call, insert or email |
| NotifyLead.RateLimitDenial | api/notify-lead.js:69-83 | a denial answers 429 with the limiter's `limit`, `remaining` and `reset`, after one rate-limit call keyed `lead_limit:` plus the normalised email, and makes no insert and sends no email |
| NotifyLead.MisconfiguredAfterRateLimit | api/notify-lead.js:88-94 | missing database settings answer 500 `server_misconfigured` only after the rate limit was consumed |
| NotifyLead.InsertOnlyWhenAdmitted | api/notify-lead.js:96-117 | an insert is made exactly when the submission is valid, the limiter allowed it and the database is configured; it is the second call, and it posts the one normalised row |
| NotifyLead.RowIsNormalisedLead | api/notify-lead.js:96-106 | the posted row is the normalised submission field for field (trimmed name and message, trimmed lower-cased email, the optional, `car_id` and truncated fields as their normalisers give them), with `estado = "nuevo"` |
| NotifyLead.LeadId | api/notify-lead.js:125 | the id is the first element's `id` when the reply is an array whose first id is set, and null otherwise |
| NotifyLead.InsertRejected | api/notify-lead.js:119-123 | a non-OK insert answers 500 `db_insert_failed` and sends no email |
| NotifyLead.InsertAccepted | api/notify-lead.js:177-182 | an OK insert answers 200 with the id or null, the limiter's `remaining` and `reset`, and null for a reply that is not an array or is empty |
| NotifyLead.Notify | api/notify-lead.js:130-134 | exactly one email call is made to `LEADS_TO_EMAIL` when both the key and the recipient are set, and none otherwise |
| NotifyLead.EmailAtMostOnce | api/notify-lead.js:134-171 | at most one email is attempted; it is the last call, and it is made exactly when the lead was saved and email is configured |
| NotifyLead.NotificationNeverChangesResponse | api/notify-lead.js:134-171 | whether email is configured or not, the response is the same; a send that throws is caught and only logged, so its fate is not an input of the handler |
| NotifyLead.FaultsAreInternalError | api/notify-lead.js:184-187 | a thrown rate-limit call or insert answers 500 `internal_error` |
| NotifyLead.TraceShape | api/notify-lead.js:70-153 | the calls made are always a prefix of: rate limit, insert of the row, email of the row |
| NotifyLead.VisibleFieldKept | api/notify-lead.js:39-41 | a field of visible ASCII characters is kept exactly as sent |
| NotifyLead.ShortMessageIsInvalid | api/notify-lead.js:39-64 | a POST with a long enough visible name, a well-formed email and a visible message under the minimum length answers 400 `invalid_message`, with no call made |
| NotifyLead.ExampleEmailMatches | api/notify-lead.js:59 | "a@b.com" matches the email expression |
| NotifyLead.ShortMessageRefused | api/notify-lead.js:62-64 | the example body (name "Jo", email "a@b.com", message "short") answers 400 `invalid_message`, with no call made |
| NotifyLead.ClientEmailPassesServer | api/notify-lead.js:39-61 | an address the browser `Validator.email` accepts still matches after the endpoint trims and lower-cases it, so it is never refused as `invalid_email` |
| UriComponent.HexDigit | api/notify-matches.js:56 | a value below 16 becomes an upper-case hex digit that reads back as that value |
| UriComponent.Escape | api/notify-matches.js:56 | a byte becomes `%` and two upper-case hex digits, high digit first, that read back as the byte |
| UriComponent.Utf8 | api/notify-matches.js:56 | a code point becomes 1 to 4 bytes, and a single byte exactly below U+0080 |
| UriComponent.EncodeChar | api/notify-matches.js:56 | an unreserved character stays as it is, and any other becomes 3 to 12 characters starting with `%` |
| UriComponent.Encode | api/notify-matches.js:56 | `encodeURIComponent` output holds only unreserved characters and `%`, is at least as long as the input, and leaves an all-unreserved input unchanged |
| UriComponent.EncodeAppend | api/notify-matches.js:56 | encoding distributes over concatenation |
| UriComponent.Utf8RoundTrip | api/notify-matches.js:56 | the UTF-8 lead byte announces the sequence's length, and decoding the bytes gives the code point back |
| UriComponent.DecodeEscapeBytes | api/notify-matches.js:56 | reading the `%XY` groups back gives exactly the escaped bytes |
| UriComponent.DecodeEscapedChar | api/notify-matches.js:56 | a reserved character's escapes decode back to that character, whatever follows them |
| UriComponent.DecodeEncode | api/notify-matches.js:56 | decoding the encoded text gives the original text back, so the slug arrives in the link intact |
| NotifyMatches.Fits | api/notify-matches.js:29 | `fits`: no list, or an empty one, admits anything, and a non-empty list admits exactly its entries (`NotifyMatches.FitsListed`) |
| NotifyMatches.InRange | api/notify-matches.js:30 | `inRange`: present bounds are inclusive, absent bounds admit everything and crossed bounds nothing (`NotifyMatches.InRangeBounds`) |
| NotifyMatches.PrefMatches | api/notify-matches.js:32-42 | the filter's test; `NotifyMatches.OptOut`, `NotifyMatches.MissingAttributesAreZero` and `NotifyMatches.UnconstrainedMatchesAll` pin down its edge cases, and `NotifyMatches.MatchesCount` ties `NotifyMatches.Matches` to it |
| NotifyMatches.UserIds | api/notify-matches.js:47 | the user ids the admin lookup asks for, one per match, in match order; `NotifyMatches.Handle` ensures the lookup carries exactly these ids for the matches |
| NotifyMatches.Origin | api/notify-matches.js:55 | `SITE_ORIGIN`, empty when unset, with one trailing `/` removed; `NotifyMatches.StripTrailingSlash`, `NotifyMatches.TrailingSlashIgnored`, `NotifyMatches.OnlyOneSlashRemoved` and `NotifyMatches.UnsetOriginIsRelative` pin it down |
| NotifyMatches.CarUrl | api/notify-matches.js:55-57 | the car link: by encoded slug when the slug is truthy (`NotifyMatches.SlugStaysOneParameter`, with `UriComponent.DecodeEncode` for the slug's round trip), by `car.id` otherwise (`NotifyMatches.NoSlugUsesId`) |
| NotifyMatches.FitsListed | api/notify-matches.js:29 | a non-empty list constraint admits exactly the cars whose attribute is one of its entries |
| NotifyMatches.InRangeBounds | api/notify-matches.js:30 | bounds are inclusive at both ends, crossed bounds admit nothing, and absent bounds admit everything |
| NotifyMatches.OptOut | api/notify-matches.js:33 | only an explicit `false` opts out, and an unset flag counts as opted in |
| NotifyMatches.MissingAttributesAreZero | api/notify-matches.js:34-36 | a missing price, year or mileage is read as 0 |
| NotifyMatches.UnconstrainedMatchesAll | api/notify-matches.js:29-42 | a preference that constrains nothing matches every car unless it opted out |
| NotifyMatches.Matches | api/notify-matches.js:32-42 | every kept preference fits the car and comes from the input |
| NotifyMatches.MatchesIsSubsequence | api/notify-matches.js:32 | the matches are an order-preserving selection from the preferences |
| NotifyMatches.MatchesCount | api/notify-matches.js:32-42 | each fitting preference is kept as often as it occurs, and each other one is dropped |
| NotifyMatches.MatchesAppend | api/notify-matches.js:32 | filtering distributes over concatenation |
| NotifyMatches.Recipients | api/notify-matches.js:52 | `toList` holds only non-empty addresses and is no longer than the user list |
| NotifyMatches.RecipientsCount | api/notify-matches.js:52 | each non-empty address occurs in `toList` exactly as often as a user carries it |
| NotifyMatches.RecipientsAppend | api/notify-matches.js:52 | `toList` keeps the users' order |
| NotifyMatches.LogPayload | api/notify-matches.js:80 | one `{user_id, car_id}` row per match, in match order |
| NotifyMatches.StripTrailingSlash | api/notify-matches.js:55 | exactly one trailing `/` is removed when there is one, and nothing otherwise |
| NotifyMatches.TrailingSlashIgnored | api/notify-matches.js:55-57 | one trailing slash on the origin makes no difference to the link |
| NotifyMatches.OnlyOneSlashRemoved | api/notify-matches.js:55 | of two trailing slashes, one stays |
| NotifyMatches.UnsetOriginIsRelative | api/notify-matches.js:55-57 | with no origin set, the link is the site-relative `/car.html` path |
| NotifyMatches.SlugStaysOneParameter | api/notify-matches.js:56 | a slug link is `…/car.html?slug=` followed by the encoded slug, in which no `&`, `=`, `#` or space can appear |
| NotifyMatches.NoSlugUsesId | api/notify-matches.js:56-57 | without a truthy slug the link is `…/car.html?id=` followed by the car id |
| NotifyMatches.Alerts | api/notify-matches.js:70-76 | one send per address of `toList`, in order, each with the car link |
| NotifyMatches.SendAlerts | api/notify-matches.js:70-76 | the loop sends to every address in order; a send that throws ends it after that send, and the loop reports it |
| NotifyMatches.AlertAndLog | api/notify-matches.js:59-86 | with a key and recipients every address is mailed in order; a throwing send answers 500 and ends the request before the log; otherwise the log rows follow the alerts and the answer is `sent: toList.length`, or 500 when the log write throws |
| NotifyMatches.Handle | api/notify-matches.js:5-90 | covers the whole request: (1) non-POST answers 405 and a missing `car_id` answers 400, both before any call; (2) the car lookup comes first, and a missing car answers 404; (3) zero matches answer `sent: 0` with no user lookup, mail or log; (4) mail goes out only with a key and a non-empty `toList`; (5) the log rows are written after the mail whether or not mail went out; (6) `sent` is `toList.length`; (7) every throw answers 500 `internal_error` |
| JsText.TrimmedLowerIsSpec | public/js/auth-widget.js:124 | stripping whitespace one character at a time from each end and then comparing lower-cased characters decides exactly `s.trim().toLowerCase() === w` |
| AuthWidget.IsContact | public/js/auth-widget.js:124 | the `find` test on a drawer child; `AuthWidget.ContactIsLowerTrim` proves it is exactly `text.trim().toLowerCase() === "contacto"` |
| AuthWidget.ContactIsLowerTrim | public/js/auth-widget.js:124 | the contact test is exactly "trimmed and lower-cased text equals `contacto`" |
| AuthWidget.FirstWhere | public/js/auth-widget.js:124 | `Array.prototype.find` as an index, pinned down by `AuthWidget.FirstWhereSpec`; `AuthWidget.Find` is the loop that computes it |
| AuthWidget.FirstContact | public/js/auth-widget.js:124 | the index of the first "contacto" child, or the length when there is none; `AuthWidget.Drawer.FindContact` computes it and `AuthWidget.PlacedBeforeContact` is stated with it |
| AuthWidget.FirstWhereSpec | public/js/auth-widget.js:124 | `find` returns the first element that passes: none before it passes, and it does when found |
| AuthWidget.Find | public/js/auth-widget.js:124 | the search loop returns the index of the first element that passes, or the length |
| AuthWidget.Drawer.FindContact | public/js/auth-widget.js:218 | the drawer's search finds the first "contacto" child |
| AuthWidget.Drawer.CleanupInjected | public/js/auth-widget.js:97-100 | the cleanup loop leaves exactly the unmarked children, in their order |
| AuthWidget.PageItems | public/js/auth-widget.js:99 | what cleanup leaves; `AuthWidget.PageItemsCount`, `AuthWidget.PageItemsUnmarked` and `AuthWidget.PageItemsAppend` pin it down, and `AuthWidget.Drawer.CleanupInjected` computes it |
| AuthWidget.InjectedItems | public/js/auth-widget.js:99 | the marked items, in order, which cleanup removes; every one is marked, and `AuthWidget.RenderInjectsExactly` states them after a render |
| AuthWidget.PageItemsCount | public/js/auth-widget.js:99 | cleanup keeps every unmarked item as often as it occurs and no marked one |
| AuthWidget.PageItemsAppend | public/js/auth-widget.js:99 | cleanup distributes over concatenation |
| AuthWidget.PageItemsUnmarked | public/js/auth-widget.js:99 | nothing marked is left after cleanup |
| AuthWidget.Drawer.InsertBefore | public/js/auth-widget.js:126 | the item is placed right before the reference child and nothing else moves |
| AuthWidget.Drawer.AppendChild | public/js/auth-widget.js:128 | the item is placed last and nothing else moves |
| AuthWidget.InsertedTwice | public/js/auth-widget.js:220-221 | two insertions before the same child leave the pair adjacent and in order |
| AuthWidget.Drawer.InsertLogin | public/js/auth-widget.js:115-130 | "Login" goes right before the first "contacto" child, or last when there is none, and nothing else moves |
| AuthWidget.Drawer.InsertAccountLinks | public/js/auth-widget.js:203-225 | "Preferencias" then "Salir" go, adjacent and in that order, right before the first "contacto" child, or last when there is none, and nothing else moves |
| AuthWidget.InjectedFor | public/js/auth-widget.js:115-256 | the items a render adds: "Login" when signed out or after a failure, "Preferencias" then "Salir" when signed in; `AuthWidget.OutcomeItemsNotContacts` and `AuthWidget.RenderInjectsExactly` are stated with it |
| AuthWidget.Rendered | public/js/auth-widget.js:102-258 | the drawer after a render; `AuthWidget.Drawer.Render` is proved to produce it, and `AuthWidget.RenderKeepsPageItems`, `AuthWidget.RenderInjectsExactly`, `AuthWidget.SignedOutPlacement`, `AuthWidget.SignedInPlacement`, `AuthWidget.FailedRenderAppends` and `AuthWidget.RenderIdempotent` state what it is |
| AuthWidget.Drawer.Render | public/js/auth-widget.js:102-258 | the drawer after any of the three render paths is the page items with the outcome's items placed as `Rendered` says |
| AuthWidget.RenderKeepsPageItems | public/js/auth-widget.js:115-256 | the page's own items survive every render, all of them and in their order |
| AuthWidget.RenderInjectsExactly | public/js/auth-widget.js:115-256 | after a render the marked items are exactly the outcome's (Login, or Preferencias then Salir), and nothing from earlier renders is left |
| AuthWidget.OutcomeItemsNotContacts | public/js/auth-widget.js:117-124 | no item a render adds ("Login", "Preferencias", "Salir") reads as "contacto" |
| AuthWidget.PlacedBeforeContact | public/js/auth-widget.js:124-126 | placing items right before the first "contacto" leaves that item the first one, and placing them at the end of a list without one adds none |
| AuthWidget.SignedOutPlacement | public/js/auth-widget.js:115-130 | signed out, the drawer gains one item, "Login", right before the first "contacto" item or last when there is none |
| AuthWidget.SignedInPlacement | public/js/auth-widget.js:203-225 | signed in, "Preferencias" then "Salir" sit together right before the first "contacto" item or last when there is none |
| AuthWidget.SignedInHasNoLogin | public/js/auth-widget.js:203-225 | once signed in, no "Login" item is left |
| AuthWidget.FailedRenderAppends | public/js/auth-widget.js:249-256 | after a failed session lookup, "Login" is appended last even when a "contacto" item exists |
| AuthWidget.RenderIdempotent | public/js/auth-widget.js:262-267 | whatever an earlier render added, the next render gives what it would give on the page alone |
| AuthWidget.RenderTwice | public/js/auth-widget.js:262-267 | rendering twice with the same outcome leaves the drawer as one render did |
| AuthWidget.DisplayName | public/js/auth-widget.js:135 | the name shown is never empty |
| AuthWidget.MetadataNameFirst | public/js/auth-widget.js:135 | a set metadata name always wins |
| AuthWidget.LocalPartShown | public/js/auth-widget.js:135 | without a metadata name, the address's local part is shown when non-empty |
| AuthWidget.NoLocalPartFallsBack | public/js/auth-widget.js:135 | without a metadata name, an address starting with `@`, or no address, shows "Cuenta" |
| AuthWidget.DisplayNameHasNoAtFromEmail | public/js/auth-widget.js:135 | without a metadata name, the name shown contains no `@` |

## Left out

- HTML bodies and subject lines of both emails carry no decision logic and are not modelled. This covers the lead notification (api/notify-lead.js:136-165) and the car alert (api/notify-matches.js:60-67). The 429 answer's `message` text is left out too.
- The `try { body = req.body }` guard and its `invalid_json` answer (api/notify-lead.js:33-37) cannot fail as written and are not modelled.
- A failed lead notification is caught and only logged (api/notify-lead.js:168-170). It changes neither the answer nor any later call, so the model has no input for it.
- The rate limiter's sliding window (2 per 10 minutes) is an external library. `ratelimit.limit` is an input decision (`RateLimitOutcome`).
- Supabase REST and auth admin, Resend, and all `fetch` transport are opaque. Each call's reply, or the fact that it threw, is a parameter. The URLs, headers and credentials in the requests are not modelled.
- JSON values are typed. Body fields are strings or absent, with a falsy value read as absent. Cars and preferences have string, integer and string-list columns. So a non-string `toString()`, `String(v)` on a non-string attribute and a reply that is not an array (where `prefs.filter` or `.map` would throw) are not modelled.
- `(usersJson.users || usersJson)` is modelled as the list of users directly.
- The matcher ignores the status of Resend replies: a non-OK reply is not an exception, so it never changes the answer. Only a thrown send is modelled.
- The report of how the `notify_log` write went is likewise unread. Only whether the write throws is modelled.
- The body's `car_id` goes unencoded into the car lookup URL (api/notify-matches.js:16) and into the log rows (line 80). The `?id=` link carries the car row's own `id`, also unencoded (line 57). The user ids go unencoded into the admin lookup (line 47). The model records each id as it is. Query injection through them is outside the model.
- JsText.LowerChar maps only ASCII A–Z and the Latin-1 capitals, not all of Unicode `toLowerCase`. This is exact for every character that could lower-case to a letter of `contacto`, and for `@`, `.` and the whitespace the email expression cares about. Characters outside that range are left as they are.
- JsText.ToLower maps one character to one character. JavaScript's `toLowerCase` does not always: U+0130 becomes two code units, and a final capital sigma lower-cases according to its context. Neither case can reach `contacto`, `@` or `.`.
- Validator.Phone takes a string. `Validator.phone` calls `.replace` on its argument without `toString()`, so a non-string phone value would throw; that case is not modelled.
- Lengths count Unicode code points, where JavaScript counts UTF-16 code units. The two differ only for characters beyond U+FFFF.
- UriComponent.Decode is the inverse used to show the encoding loses nothing. It is specified only on the output of `Encode` (`UriComponent.DecodeEncode`). On any other input its result is unspecified, where `decodeURIComponent` would throw `URIError`. Examples are a malformed escape such as `%ZZ`, an overlong sequence such as `%C0%80` and a bad continuation byte such as `%C3%41`.
- UriComponent.Encode does not model the `URIError` that `encodeURIComponent` raises for a lone surrogate. Dafny's `char` cannot hold one.
- In the auth widget, the desktop and mobile `innerHTML` painting, avatars, CSS injection, the logout flow (`signOut`, `hardReload`, timers) and `onAuthStateChange` wiring are not modelled. The session lookup's outcome is an input (`AuthOutcome`). The three renders of lines 262-267 appear as repeated `Render` calls (`RenderIdempotent`).
- The drawer is taken to exist. When it does not, the `if (drawerNav)` guards skip the drawer work and nothing else changes.
- The cleanup query matches marked descendants at any depth. The model has only the drawer's direct children, which is where the widget puts its items.
- AuthWidget.DisplayName: a metadata name that is truthy but not a string is not modelled.
- `NotificationSystem`, `sanitizeHTML`, `safeInnerHTML` and `safeTextContent` in `public/js/utils.js` are DOM-bound and are not modelled.
- `api/vitals-check.js` (external PageSpeed call, floating-point thresholds) is not modelled.
- `api/test-ratelimit.js`, `pages/api/test-ratelimit.js`, `api/manifest.js` and `api/public-config.js` are thin wrappers or static data and are not modelled.
