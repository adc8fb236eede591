/**
 * The new-car alert endpoint: given a car id it loads the car and every
 * buyer preference, keeps the preferences the car fits, looks up those
 * buyers' addresses, mails each of them a link to the car and records one
 * log row per matching preference.
 *
 * The database, the auth admin lookup and the mail service are not modelled;
 * what each call returned (or that it threw) is a parameter, and the calls
 * made are returned as a trace of effects.
 */
module NotifyMatches {
  import opened JsText
  import UriComponent

  /** A row of `cars`: absent columns and JSON nulls are `None`. */
  datatype Car = Car(
    id: string, slug: Option<string>,
    brand: Option<string>, model: Option<string>, fuel: Option<string>,
    gearbox: Option<string>, body: Option<string>,
    price: Option<int>, year: Option<int>, km: Option<int>)

  /** A row of `buyer_prefs`: list constraints, opt-out flag and bounds. */
  datatype Pref = Pref(
    user_id: string, notify_email: Option<bool>,
    brands: Option<seq<string>>, models: Option<seq<string>>, fuel: Option<seq<string>>,
    gearbox: Option<seq<string>>, body: Option<seq<string>>,
    budget_min: Option<int>, budget_max: Option<int>,
    year_min: Option<int>, year_max: Option<int>, km_max: Option<int>)

  /** An auth user as the admin lookup returns it; only the address matters. */
  datatype User = User(email: Option<string>)

  /** A `notify_log` row. */
  datatype LogRow = LogRow(user_id: string, car_id: string)

  /** What a collaborator call gave back: a value, or an exception. */
  datatype Fetched<T> = Threw | Got(value: T)

  datatype MatchEnv = MatchEnv(siteOrigin: Option<string>, resendKey: Option<string>)

  datatype Effect =
    | FetchCar(carId: string)
    | FetchPrefs
    | FetchUsers(userIds: seq<string>)
    | SendAlert(to: string, carUrl: string)
    | WriteLog(rows: seq<LogRow>)

  datatype MatchResponse = MatchError(status: int, error: string) | MatchSent(sent: nat)

  const Internal: MatchResponse := MatchError(500, "internal_error")
  const CarPage: string := "/car.html"

  /** `v ?? 0`. */
  function OrZero(v: Option<int>): int {
    if v.Some? then v.value else 0
  }

  /** `fits(arr, v)`: no list, or an empty one, admits anything; otherwise `v` must be listed. */
  predicate Fits(arr: Option<seq<string>>, v: Option<string>) {
    arr.None? || |arr.value| == 0 || (v.Some? && v.value in arr.value)
  }

  /** `inRange(min, max, val)`: each bound, when present, is inclusive. */
  predicate InRange(min: Option<int>, max: Option<int>, val: int) {
    (min.None? || val >= min.value) && (max.None? || val <= max.value)
  }

  /** The filter's test: opted in, inside every bound, and fitting every list. */
  predicate PrefMatches(p: Pref, car: Car) {
    && p.notify_email != Some(false)
    && InRange(p.budget_min, p.budget_max, OrZero(car.price))
    && InRange(p.year_min, p.year_max, OrZero(car.year))
    && (p.km_max.None? || OrZero(car.km) <= p.km_max.value)
    && Fits(p.brands, car.brand)
    && Fits(p.models, car.model)
    && Fits(p.fuel, car.fuel)
    && Fits(p.gearbox, car.gearbox)
    && Fits(p.body, car.body)
  }

  /** `prefs.filter(...)`: the preferences the car fits. */
  function Matches(prefs: seq<Pref>, car: Car): (r: seq<Pref>)
    ensures |r| <= |prefs|
    ensures forall i :: 0 <= i < |r| ==> PrefMatches(r[i], car)
    ensures forall p :: p in r ==> p in prefs
  {
    if prefs == [] then []
    else (if PrefMatches(prefs[0], car) then [prefs[0]] else []) + Matches(prefs[1..], car)
  }

  /** `xs` is `ys` with some elements dropped and the rest kept in order. */
  ghost predicate IsSubsequence<T>(xs: seq<T>, ys: seq<T>)
    decreases |ys|
  {
    xs == [] || (ys != [] && ((xs[0] == ys[0] && IsSubsequence(xs[1..], ys[1..])) || IsSubsequence(xs, ys[1..])))
  }

  /** `usersJson.map(u => u.email).filter(Boolean)`: the addresses, falsy ones dropped. */
  function Recipients(users: seq<User>): (r: seq<string>)
    ensures |r| <= |users|
    ensures forall i :: 0 <= i < |r| ==> r[i] != ""
  {
    if users == [] then []
    else (if Truthy(users[0].email) then [users[0].email.value] else []) + Recipients(users[1..])
  }

  /** The user ids the admin lookup is asked for, one per match. */
  function UserIds(ms: seq<Pref>): seq<string> {
    seq(|ms|, i requires 0 <= i < |ms| => ms[i].user_id)
  }

  /** `matches.map(m => ({ user_id: m.user_id, car_id }))`. */
  function LogPayload(ms: seq<Pref>, carId: string): (rows: seq<LogRow>)
    ensures |rows| == |ms|
    ensures forall i :: 0 <= i < |ms| ==> rows[i] == LogRow(ms[i].user_id, carId)
  {
    seq(|ms|, i requires 0 <= i < |ms| => LogRow(ms[i].user_id, carId))
  }

  /** `s.replace(/\/$/, "")`: one trailing slash, if any, removed. */
  function StripTrailingSlash(s: string): (r: string)
    ensures s == r || s == r + "/"
    ensures |s| > 0 && s[|s| - 1] == '/' ==> s == r + "/"
    ensures (|s| == 0 || s[|s| - 1] != '/') ==> r == s
  {
    if |s| > 0 && s[|s| - 1] == '/' then s[..|s| - 1] else s
  }

  /** The site origin with its trailing slash removed; empty when unset. */
  function Origin(siteOrigin: Option<string>): string {
    StripTrailingSlash(OrEmpty(siteOrigin))
  }

  /** `carUrl`: the car page addressed by encoded slug when there is one, else by id. */
  function CarUrl(siteOrigin: Option<string>, car: Car): string {
    if Truthy(car.slug)
    then Origin(siteOrigin) + CarPage + "?slug=" + UriComponent.Encode(car.slug.value)
    else Origin(siteOrigin) + CarPage + "?id=" + car.id
  }

  /** One `SendAlert` per address, in order. */
  function Alerts(toList: seq<string>, url: string): (r: seq<Effect>)
    ensures |r| == |toList|
    ensures forall i :: 0 <= i < |r| ==> r[i] == SendAlert(toList[i], url)
  {
    seq(|toList|, i requires 0 <= i < |toList| => SendAlert(toList[i], url))
  }

  /**
   * The `for (const email of toList)` loop: one send per address, in order.
   * A send that throws (at index `failsAt`) ends the loop; the exception is
   * not caught here.
   */
  method SendAlerts(toList: seq<string>, url: string, failsAt: Option<nat>) returns (sent: seq<Effect>, threw: bool)
    ensures threw <==> failsAt.Some? && failsAt.value < |toList|
    ensures sent == if threw then Alerts(toList, url)[..failsAt.value + 1] else Alerts(toList, url)
  {
    sent := [];
    threw := false;
    for i := 0 to |toList|
      invariant sent == Alerts(toList, url)[..i]
      invariant failsAt.Some? ==> failsAt.value >= i
    {
      assert Alerts(toList, url)[..i + 1] == Alerts(toList, url)[..i] + [SendAlert(toList[i], url)];
      sent := sent + [SendAlert(toList[i], url)];
      if failsAt == Some(i) {
        threw := true;
        return;
      }
    }
    assert Alerts(toList, url)[..|toList|] == Alerts(toList, url);
  }

  /** The request names a car and the car was found. */
  predicate CarFound(httpMethod: string, carId: Option<string>, car: Fetched<Option<Car>>) {
    httpMethod == "POST" && Truthy(carId) && car.Got? && car.value.Some?
  }

  /** Some preference matched the car that was found. */
  predicate HasMatches(httpMethod: string, carId: Option<string>, car: Fetched<Option<Car>>, prefs: Fetched<seq<Pref>>) {
    CarFound(httpMethod, carId, car) && prefs.Got? && Matches(prefs.value, car.value.value) != []
  }

  /** A key and recipients were present, so the send loop started, and one of its sends threw. */
  predicate SendThrew(toList: seq<string>, resendKey: Option<string>, failsAt: Option<nat>) {
    Truthy(resendKey) && |toList| > 0 && failsAt.Some? && failsAt.value < |toList|
  }

  /**
   * The handler. `carId` is the body's `car_id`; `car`, `prefs` and `users`
   * are what the three lookups gave; `sendFailsAt` is the index of the first
   * send that throws, if any; `logThrows` says whether the log write throws.
   */
  method Handle(httpMethod: string, carId: Option<string>, env: MatchEnv,
                car: Fetched<Option<Car>>, prefs: Fetched<seq<Pref>>, users: Fetched<seq<User>>,
                sendFailsAt: Option<nat>, logThrows: bool)
    returns (resp: MatchResponse, trace: seq<Effect>)
    // 405 and 400 come before any call
    ensures httpMethod != "POST" ==> resp == MatchError(405, "method_not_allowed") && trace == []
    ensures httpMethod == "POST" && !Truthy(carId) ==> resp == MatchError(400, "missing_car_id") && trace == []
    // the car lookup comes first, and a missing car is a 404
    ensures httpMethod == "POST" && Truthy(carId) ==> |trace| >= 1 && trace[0] == FetchCar(carId.value)
    ensures httpMethod == "POST" && Truthy(carId) && car.Threw? ==> resp == Internal && trace == [FetchCar(carId.value)]
    ensures httpMethod == "POST" && Truthy(carId) && car == Got(None) ==>
              resp == MatchError(404, "car_not_found") && trace == [FetchCar(carId.value)]
    // then the preferences; no match ends the request with nothing sent and nothing logged
    ensures CarFound(httpMethod, carId, car) ==> |trace| >= 2 && trace[..2] == [FetchCar(carId.value), FetchPrefs]
    ensures CarFound(httpMethod, carId, car) && prefs.Threw? ==> resp == Internal && |trace| == 2
    ensures CarFound(httpMethod, carId, car) && prefs.Got? && Matches(prefs.value, car.value.value) == [] ==>
              resp == MatchSent(0) && |trace| == 2
    // then the users of the matches, the alerts and the log
    ensures HasMatches(httpMethod, carId, car, prefs) ==>
              |trace| >= 3 && trace[2] == FetchUsers(UserIds(Matches(prefs.value, car.value.value)))
    ensures HasMatches(httpMethod, carId, car, prefs) && users.Threw? ==> resp == Internal && |trace| == 3
    ensures HasMatches(httpMethod, carId, car, prefs) && users.Got? ==>
              var ms := Matches(prefs.value, car.value.value);
              var toList := Recipients(users.value);
              var alerts := if Truthy(env.resendKey) && |toList| > 0
                            then Alerts(toList, CarUrl(env.siteOrigin, car.value.value)) else [];
              if SendThrew(toList, env.resendKey, sendFailsAt)
              then resp == Internal && trace[3..] == alerts[..sendFailsAt.value + 1]
              else (trace[3..] == alerts + [WriteLog(LogPayload(ms, carId.value))]
                    && resp == (if logThrows then Internal else MatchSent(|toList|)))
  {
    if httpMethod != "POST" {
      return MatchError(405, "method_not_allowed"), [];
    }
    if !Truthy(carId) {
      return MatchError(400, "missing_car_id"), [];
    }
    var id := carId.value;
    trace := [FetchCar(id)];
    if car.Threw? {
      return Internal, trace;
    }
    if car.value.None? {
      return MatchError(404, "car_not_found"), trace;
    }
    var c := car.value.value;
    trace := trace + [FetchPrefs];
    if prefs.Threw? {
      return Internal, trace;
    }
    var ms := Matches(prefs.value, c);
    if |ms| == 0 {
      return MatchSent(0), trace;
    }
    trace := trace + [FetchUsers(UserIds(ms))];
    if users.Threw? {
      return Internal, trace;
    }
    var toList := Recipients(users.value);
    var tail;
    resp, tail := AlertAndLog(ms, id, toList, CarUrl(env.siteOrigin, c), env.resendKey, sendFailsAt, logThrows);
    trace := trace + tail;
    assert trace[3..] == tail;
  }

  /**
   * The end of the handler, once the recipients are known: the alerts when a
   * key is set and there is someone to mail, then the log write, then the
   * answer. `tail` is the calls made.
   */
  method AlertAndLog(ms: seq<Pref>, carId: string, toList: seq<string>, url: string,
                     resendKey: Option<string>, sendFailsAt: Option<nat>, logThrows: bool)
    returns (resp: MatchResponse, tail: seq<Effect>)
    ensures var alerts := if Truthy(resendKey) && |toList| > 0 then Alerts(toList, url) else [];
            if SendThrew(toList, resendKey, sendFailsAt)
            then resp == Internal && tail == alerts[..sendFailsAt.value + 1]
            else (tail == alerts + [WriteLog(LogPayload(ms, carId))]
                  && resp == (if logThrows then Internal else MatchSent(|toList|)))
  {
    tail := [];
    if Truthy(resendKey) && |toList| > 0 {
      var threw;
      tail, threw := SendAlerts(toList, url, sendFailsAt);
      if threw {
        return Internal, tail;
      }
    }
    tail := tail + [WriteLog(LogPayload(ms, carId))];
    if logThrows {
      return Internal, tail;
    }
    resp := MatchSent(|toList|);
  }

  // ---------------------------------------------------------------------------
  // Properties of the filter
  // ---------------------------------------------------------------------------

  /** A listed constraint admits exactly the cars whose attribute is one of its entries. */
  lemma FitsListed(arr: seq<string>, v: Option<string>)
    requires |arr| > 0
    ensures Fits(Some(arr), v) <==> exists i :: 0 <= i < |arr| && v == Some(arr[i])
  {
    if v.Some? && v.value in arr {
      var i :| 0 <= i < |arr| && arr[i] == v.value;
      assert v == Some(arr[i]);
    }
  }

  /** Bounds are inclusive at both ends, and crossed bounds admit nothing. */
  lemma InRangeBounds(min: int, max: int, val: int)
    ensures InRange(Some(min), Some(max), min) <==> min <= max
    ensures InRange(Some(min), Some(max), max) <==> min <= max
    ensures max < min ==> !InRange(Some(min), Some(max), val)
    ensures InRange(None, None, val)
  {
  }

  /** Only an explicit `false` opts out; an unset flag counts as opted in. */
  lemma OptOut(p: Pref, car: Car)
    ensures p.notify_email == Some(false) ==> !PrefMatches(p, car)
    ensures PrefMatches(p.(notify_email := None), car) <==> PrefMatches(p.(notify_email := Some(true)), car)
  {
  }

  /** A missing price, year or mileage is read as 0. */
  lemma MissingAttributesAreZero(p: Pref, car: Car)
    ensures PrefMatches(p, car.(price := None)) <==> PrefMatches(p, car.(price := Some(0)))
    ensures PrefMatches(p, car.(year := None)) <==> PrefMatches(p, car.(year := Some(0)))
    ensures PrefMatches(p, car.(km := None)) <==> PrefMatches(p, car.(km := Some(0)))
  {
  }

  /** A preference that constrains nothing matches every car, unless it opted out. */
  lemma UnconstrainedMatchesAll(user: string, notify: Option<bool>, car: Car)
    requires notify != Some(false)
    ensures PrefMatches(Pref(user, notify, None, None, None, None, None, None, None, None, None, None), car)
  {
  }

  /** The matches are an order-preserving selection from the preferences. */
  lemma {:induction false} MatchesIsSubsequence(prefs: seq<Pref>, car: Car)
    ensures IsSubsequence(Matches(prefs, car), prefs)
  {
    if prefs != [] {
      var rest := Matches(prefs[1..], car);
      MatchesIsSubsequence(prefs[1..], car);
      if PrefMatches(prefs[0], car) {
        assert Matches(prefs, car) == [prefs[0]] + rest;
        assert ([prefs[0]] + rest)[1..] == rest;
      } else {
        assert Matches(prefs, car) == rest;
      }
    }
  }

  /** Every matching preference is kept as often as it occurs, every other one dropped. */
  lemma {:induction false} MatchesCount(prefs: seq<Pref>, car: Car, p: Pref)
    ensures multiset(Matches(prefs, car))[p] == if PrefMatches(p, car) then multiset(prefs)[p] else 0
  {
    if prefs != [] {
      MatchesCount(prefs[1..], car, p);
      assert prefs == [prefs[0]] + prefs[1..];
    }
  }

  /** Filtering two lists of preferences one after the other is filtering their concatenation. */
  lemma {:induction false} MatchesAppend(a: seq<Pref>, b: seq<Pref>, car: Car)
    ensures Matches(a + b, car) == Matches(a, car) + Matches(b, car)
  {
    if a == [] {
      assert a + b == b;
    } else {
      assert (a + b)[0] == a[0] && (a + b)[1..] == a[1..] + b;
      MatchesAppend(a[1..], b, car);
    }
  }

  // ---------------------------------------------------------------------------
  // Properties of the recipients and the link
  // ---------------------------------------------------------------------------

  /** Each non-empty address occurs in `toList` exactly as often as a user carries it. */
  lemma {:induction false} RecipientsCount(users: seq<User>, e: string)
    requires e != ""
    ensures multiset(Recipients(users))[e] == multiset(users)[User(Some(e))]
  {
    if users != [] {
      RecipientsCount(users[1..], e);
      assert users == [users[0]] + users[1..];
    }
  }

  /** `toList` keeps the order of the users it comes from. */
  lemma {:induction false} RecipientsAppend(a: seq<User>, b: seq<User>)
    ensures Recipients(a + b) == Recipients(a) + Recipients(b)
  {
    if a == [] {
      assert a + b == b;
    } else {
      assert (a + b)[0] == a[0] && (a + b)[1..] == a[1..] + b;
      RecipientsAppend(a[1..], b);
    }
  }

  /**
   * A slug link ends in the encoded slug, which cannot contain `&`, `=`, `#`
   * or a space, so the slug can never add another query parameter.
   */
  lemma SlugStaysOneParameter(siteOrigin: Option<string>, car: Car)
    requires Truthy(car.slug)
    ensures var head := Origin(siteOrigin) + CarPage + "?slug=";
            var url := CarUrl(siteOrigin, car);
            && |head| <= |url| && url[..|head|] == head
            && url[|head|..] == UriComponent.Encode(car.slug.value)
            && forall i :: |head| <= i < |url| ==> url[i] != '&' && url[i] != '=' && url[i] != '#' && url[i] != ' '
  {
    var head := Origin(siteOrigin) + CarPage + "?slug=";
    var enc := UriComponent.Encode(car.slug.value);
    assert CarUrl(siteOrigin, car) == head + enc;
    forall i | |head| <= i < |head + enc|
      ensures (head + enc)[i] != '&' && (head + enc)[i] != '=' && (head + enc)[i] != '#' && (head + enc)[i] != ' '
    {
      assert (head + enc)[i] == enc[i - |head|];
      assert UriComponent.Safe(enc[i - |head|]);
    }
  }

  /** Without a slug (absent or empty) the link names the car by its id. */
  lemma NoSlugUsesId(siteOrigin: Option<string>, car: Car)
    requires !Truthy(car.slug)
    ensures CarUrl(siteOrigin, car) == Origin(siteOrigin) + "/car.html?id=" + car.id
  {
  }

  /** One trailing slash on the origin makes no difference to the link. */
  lemma TrailingSlashIgnored(origin: string, car: Car)
    requires |origin| == 0 || origin[|origin| - 1] != '/'
    ensures CarUrl(Some(origin + "/"), car) == CarUrl(Some(origin), car)
  {
    assert (origin + "/")[..|origin|] == origin;
  }

  /** Only one slash is removed: a second one stays in the link. */
  lemma OnlyOneSlashRemoved(origin: string)
    ensures Origin(Some(origin + "//")) == origin + "/"
  {
    assert (origin + "//")[..|origin| + 1] == origin + "/";
  }

  /** With no origin configured the link is a site-relative path. */
  lemma UnsetOriginIsRelative(car: Car)
    ensures CarUrl(None, car) == CarUrl(Some(""), car)
    ensures CarUrl(None, car)[..|CarPage|] == CarPage
  {
  }
}
