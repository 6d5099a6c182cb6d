/**
 * The request layer of the client: the date code sent to the service, the
 * response wrapper, the reading of a raw response, and the loop that fetches
 * several consecutive days by following each payload's `nextDate`.
 * The HTTP transport is a parameter: `respond(i, request)` is the response
 * to the `i`-th request the loop sends.
 */
module WebUntis {
  import opened Wrappers
  import opened Text
  import opened Payloads

  // ---------------------------------------------------------------- dates

  /** A UTC calendar date. */
  datatype Date = Date(year: int, month: int, day: int)

  predicate IsLeapYear(y: int) {
    y % 4 == 0 && (y % 100 != 0 || y % 400 == 0)
  }

  function DaysInMonth(y: int, m: int): int {
    if m == 2 then (if IsLeapYear(y) then 29 else 28)
    else if m == 4 || m == 6 || m == 9 || m == 11 then 30
    else 31
  }

  /** A date whose ISO text has a four-digit year. */
  predicate ValidDate(dt: Date) {
    && 0 <= dt.year <= 9999
    && 1 <= dt.month <= 12
    && 1 <= dt.day <= DaysInMonth(dt.year, dt.month)
  }

  /** The date part of `toISOString()`: `YYYY-MM-DD`, zero-padded. */
  function IsoDate(dt: Date): (r: string)
    requires ValidDate(dt)
    ensures |r| == 10 && r[4] == '-' && r[7] == '-'
  {
    Fixed(dt.year, 4) + "-" + Fixed(dt.month, 2) + "-" + Fixed(dt.day, 2)
  }

  /** `s.replace(/-/g, "")`. */
  function RemoveDashes(s: string): (r: string)
    ensures forall i :: 0 <= i < |r| ==> r[i] != '-'
  {
    if s == [] then []
    else (if s[0] == '-' then [] else [s[0]]) + RemoveDashes(s[1..])
  }

  lemma {:induction false} RemoveDashesAppend(a: string, b: string)
    ensures RemoveDashes(a + b) == RemoveDashes(a) + RemoveDashes(b)
  {
    if a != [] {
      assert (a + b)[0] == a[0] && (a + b)[1..] == a[1..] + b;
      RemoveDashesAppend(a[1..], b);
    } else {
      assert a + b == b;
    }
  }

  lemma {:induction false} RemoveDashesDigits(s: string)
    requires AllDigits(s)
    ensures RemoveDashes(s) == s
  {
    if s != [] {
      assert IsDigit(s[0]);
      RemoveDashesDigits(s[1..]);
    }
  }

  function DigitValue(c: char): (v: nat)
    requires IsDigit(c)
    ensures v < 10
  {
    (c as int) - ('0' as int)
  }

  function Pow10(k: nat): (p: nat)
    ensures p >= 1
  {
    if k == 0 then 1 else 10 * Pow10(k - 1)
  }

  /** `Number.parseInt` on a text made of decimal digits only. */
  function ParseDigits(s: string): (n: nat)
    requires AllDigits(s)
    ensures n < Pow10(|s|)
  {
    if s == [] then 0
    else
      assert IsDigit(s[|s| - 1]) && AllDigits(s[..|s| - 1]);
      ParseDigits(s[..|s| - 1]) * 10 + DigitValue(s[|s| - 1])
  }

  lemma DigitCharValue(d: nat)
    requires d < 10
    ensures IsDigit(DigitChar(d)) && DigitValue(DigitChar(d)) == d
  {
    assert d == 0 || d == 1 || d == 2 || d == 3 || d == 4 || d == 5 || d == 6 || d == 7 || d == 8 || d == 9;
  }

  lemma AllDigitsAppend(a: string, b: string)
    requires AllDigits(a) && AllDigits(b)
    ensures AllDigits(a + b)
  {
    forall i | 0 <= i < |a + b| ensures IsDigit((a + b)[i]) {
      if i >= |a| { assert (a + b)[i] == b[i - |a|]; }
    }
  }

  /** Reading a concatenation of digit texts shifts the first by the second's length. */
  lemma {:induction false} ParseDigitsAppend(a: string, b: string)
    requires AllDigits(a) && AllDigits(b)
    ensures AllDigits(a + b)
    ensures ParseDigits(a + b) == ParseDigits(a) * Pow10(|b|) + ParseDigits(b)
    decreases |b|
  {
    AllDigitsAppend(a, b);
    if b == [] {
      assert a + b == a;
    } else {
      var b' := b[..|b| - 1];
      var c := b[|b| - 1];
      assert AllDigits(b') && IsDigit(c);
      assert b == b' + [c];
      assert a + b == (a + b') + [c];
      ParseDigitsAppend(a, b');
      ParseDigitsSnoc(a + b', c);
      ParseDigitsSnoc(b', c);
      Shift(ParseDigits(a), Pow10(|b'|), ParseDigits(b'), DigitValue(c));
    }
  }

  /** Reading one digit more. */
  lemma ParseDigitsSnoc(s: string, c: char)
    requires AllDigits(s) && IsDigit(c)
    ensures AllDigits(s + [c])
    ensures ParseDigits(s + [c]) == ParseDigits(s) * 10 + DigitValue(c)
  {
    AllDigitsAppend(s, [c]);
    assert (s + [c])[..|s|] == s;
  }

  lemma Shift(x: int, p: int, y: int, v: int)
    ensures (x * p + y) * 10 + v == x * (10 * p) + (y * 10 + v)
  {
  }

  lemma ParseFixedOne(n: nat)
    ensures AllDigits(Fixed(n, 1)) && ParseDigits(Fixed(n, 1)) == n % 10
  {
    assert Fixed(n, 1) == [DigitChar(n % 10)];
    DigitCharValue(n % 10);
    assert Fixed(n, 1)[..0] == [];
  }

  lemma ParseFixedTwo(n: nat)
    requires n < 100
    ensures ParseDigits(Fixed(n, 2)) == n
  {
    assert Fixed(n, 2) == Fixed(n / 10, 1) + [DigitChar(n % 10)];
    ParseFixedOne(n / 10);
    ParseFixedOne(n);
    assert Fixed(n, 1) == [DigitChar(n % 10)];
    ParseDigitsAppend(Fixed(n / 10, 1), [DigitChar(n % 10)]);
  }

  lemma ParseFixedFour(n: nat)
    requires n < 10000
    ensures ParseDigits(Fixed(n, 4)) == n
  {
    FixedFourSplit(n);
    ParseFixedTwo(n / 100);
    ParseFixedTwo(n % 100);
    ParseDigitsAppend(Fixed(n / 100, 2), Fixed(n % 100, 2));
    assert Pow10(|Fixed(n % 100, 2)|) == 100 by { assert Pow10(2) == 10 * Pow10(1); }
    assert (n / 100) * 100 + n % 100 == n;
  }

  /** The digits of the date code: year, month and day, zero-padded. */
  function DateDigits(dt: Date): string
    requires ValidDate(dt)
  {
    Fixed(dt.year, 4) + Fixed(dt.month, 2) + Fixed(dt.day, 2)
  }

  lemma DateDigitsValue(dt: Date)
    requires ValidDate(dt)
    ensures AllDigits(DateDigits(dt))
    ensures ParseDigits(DateDigits(dt)) == dt.year * 10000 + dt.month * 100 + dt.day
  {
    ParseFixedFour(dt.year);
    ParseFixedTwo(dt.month);
    ParseFixedTwo(dt.day);
    ParseThreeParts(Fixed(dt.year, 4), Fixed(dt.month, 2), Fixed(dt.day, 2));
    Shift100(dt.year, dt.month, dt.day);
  }

  /** A digit text followed by two two-digit texts. */
  lemma ParseThreeParts(a: string, b: string, c: string)
    requires AllDigits(a) && AllDigits(b) && AllDigits(c) && |b| == 2 && |c| == 2
    ensures AllDigits(a + b + c)
    ensures ParseDigits(a + b + c) == (ParseDigits(a) * 100 + ParseDigits(b)) * 100 + ParseDigits(c)
  {
    Pow10Two();
    ParseDigitsAppend(a, b);
    ParseDigitsAppend(a + b, c);
  }

  lemma Pow10Two()
    ensures Pow10(2) == 100
  {
    assert Pow10(2) == 10 * Pow10(1);
  }

  lemma IsoDateWithoutDashes(dt: Date)
    requires ValidDate(dt)
    ensures RemoveDashes(IsoDate(dt)) == DateDigits(dt)
  {
    var y, m, d := Fixed(dt.year, 4), Fixed(dt.month, 2), Fixed(dt.day, 2);
    assert IsoDate(dt) == y + ("-" + (m + ("-" + d)));
    RemoveDashesAppend(y, "-" + (m + ("-" + d)));
    RemoveDashesAppend("-", m + ("-" + d));
    RemoveDashesAppend(m, "-" + d);
    RemoveDashesAppend("-", d);
    assert RemoveDashes("-") == [];
    RemoveDashesDigits(y);
    RemoveDashesDigits(m);
    RemoveDashesDigits(d);
    assert DateDigits(dt) == y + (m + d);
  }

  /** `formatDate`: the ISO date without its dashes, read as a number. */
  function FormatDate(dt: Date): (code: int)
    requires ValidDate(dt)
    ensures code == dt.year * 10000 + dt.month * 100 + dt.day
  {
    IsoDateWithoutDashes(dt);
    DateDigitsValue(dt);
    ParseDigits(RemoveDashes(IsoDate(dt)))
  }

  /** Year, month and day can be read back from the code. */
  lemma FormatDateDecodes(dt: Date)
    requires ValidDate(dt)
    ensures FormatDate(dt) / 10000 == dt.year
    ensures (FormatDate(dt) / 100) % 100 == dt.month
    ensures FormatDate(dt) % 100 == dt.day
  {
    DecodeCode(dt.year, dt.month, dt.day);
  }

  lemma DecodeCode(y: nat, m: nat, d: nat)
    requires m < 100 && d < 100
    ensures (y * 10000 + m * 100 + d) / 10000 == y
    ensures ((y * 10000 + m * 100 + d) / 100) % 100 == m
    ensures (y * 10000 + m * 100 + d) % 100 == d
  {
    var code := y * 10000 + m * 100 + d;
    var low := m * 100 + d;
    assert code == y * 10000 + low && 0 <= low < 10000;
    assert code / 100 == y * 100 + m;
  }

  /** Different dates get different codes. */
  lemma FormatDateInjective(a: Date, b: Date)
    requires ValidDate(a) && ValidDate(b) && FormatDate(a) == FormatDate(b)
    ensures a == b
  {
    FormatDateDecodes(a);
    FormatDateDecodes(b);
  }

  /** The decimal text of the code of a day with a four-digit year is its eight digits. */
  lemma FormatDateText(dt: Date)
    requires ValidDate(dt) && dt.year >= 1000
    ensures DecimalString(FormatDate(dt)) == DateDigits(dt)
  {
    DigitsDate(dt.year, dt.month, dt.day);
  }

  lemma ExampleDigits(dt: Date)
    requires dt == Date(2024, 1, 15)
    ensures DateDigits(dt) == "20240115"
  {
    FixedDateExample(dt.year, dt.month, dt.day);
  }

  lemma ExampleIso(dt: Date)
    requires dt == Date(2024, 1, 15)
    ensures IsoDate(dt) == "2024-01-15"
  {
    FixedDateExample(dt.year, dt.month, dt.day);
  }

  /** 2024-01-15 is sent as `20240115`, and its ISO text is `2024-01-15`. */
  lemma FormatDateExample(dt: Date)
    requires dt == Date(2024, 1, 15)
    ensures ValidDate(dt)
    ensures FormatDate(dt) == 20240115 && DecimalString(FormatDate(dt)) == "20240115"
    ensures IsoDate(dt) == "2024-01-15"
  {
    assert ValidDate(dt);
    FormatDateText(dt);
    ExampleDigits(dt);
    ExampleIso(dt);
  }

  // ------------------------------------------------------------ responses

  datatype Error =
    | CommunicationError(message: string)
    | UntisError(message: string, data: string, code: int)

  const UnexpectedResponse: string := "WebUntis response was of unexpected"

  /** `WebUntisResponse`; a payload is `None` where the service's `payload` is `null` or missing. */
  datatype WebUntisResponse = WebUntisResponse(payloads: seq<Option<Payload>>, error: Option<Error>)
  {
    predicate HasData(): (r: bool)
      ensures r <==> payloads != []
    {
      |payloads| > 0
    }

    predicate HasError(): (r: bool)
      ensures r <==> error.Some?
    {
      error != None
    }
  }

  /** The constructor: a `null` payload list is stored as the empty one. */
  function NewResponse(payloads: Option<seq<Option<Payload>>>, error: Option<Error>): (r: WebUntisResponse)
    ensures payloads.None? ==> !r.HasData()
    ensures payloads.Some? ==> r.payloads == payloads.value
    ensures r.HasError() <==> error.Some?
    ensures r.error == error
  {
    WebUntisResponse(payloads.GetOr([]), error)
  }

  /** The error object in a response body. */
  datatype ErrorData = ErrorData(message: string, data: string, code: int)

  /** A response body: its `payload` and `error` members, `None` where `null` or missing. */
  datatype ResponseData = ResponseData(payload: Option<Payload>, error: Option<ErrorData>)

  /** `parseResponse`; `data` is `None` where the body is falsy. */
  function ParseResponse(data: Option<ResponseData>): (r: WebUntisResponse)
    ensures r.HasData() && |r.payloads| == 1
    ensures data.None? ==> r.payloads == [None] && r.error == Some(CommunicationError(UnexpectedResponse))
    ensures data.Some? ==> r.payloads == [data.value.payload]
    ensures data.Some? ==> (r.HasError() <==> data.value.error.Some?)
    ensures data.Some? && data.value.error.Some? ==>
      var e := data.value.error.value;
      r.error == Some(UntisError(e.message, e.data, e.code))
  {
    match data
    case None => NewResponse(Some([None]), Some(CommunicationError(UnexpectedResponse)))
    case Some(d) =>
      var error := match d.error
        case None => None
        case Some(e) => Some(UntisError(e.message, e.data, e.code));
      NewResponse(Some([d.payload]), error)
  }

  // ----------------------------------------------------------- pagination

  /** The two request bodies: `getSubstitution` and `getTablesMinimal`. */
  datatype Kind = SubstitutionData | TablesMinimal

  datatype Request = Request(kind: Kind, formatName: string, schoolName: string, date: int)

  /** How a fetch ends: with a response, or with the `TypeError` of reading
      `nextDate` from a `null` payload. */
  datatype Outcome = Returned(response: WebUntisResponse) | Threw

  /** The response carries a payload that names a next date. */
  predicate Continues(r: WebUntisResponse) {
    !r.HasError() && r.HasData() && r.payloads[0].Some? && r.payloads[0].value.nextDate.Some?
  }

  function NextDate(r: WebUntisResponse): int
    requires Continues(r)
  {
    r.payloads[0].value.nextDate.value
  }

  /** The loop from a state: `sent` requests so far, `payloads` kept so far,
      the next date and the remaining count. */
  function Paginate(respond: (nat, Request) -> WebUntisResponse, kind: Kind, formatName: string, schoolName: string,
                    reqDate: int, num: int, sent: seq<Request>, payloads: seq<Option<Payload>>): (seq<Request>, Outcome)
    decreases num
  {
    if num <= 0 then (sent, Returned(WebUntisResponse(payloads, None)))
    else
      var request := Request(kind, formatName, schoolName, reqDate);
      var response := respond(|sent|, request);
      var sent' := sent + [request];
      if response.HasError() then (sent', Returned(WebUntisResponse(payloads, response.error)))
      else if !response.HasData() then (sent', Returned(WebUntisResponse(payloads, None)))
      else match response.payloads[0]
        case None => (sent', Threw)
        case Some(p) =>
          if p.nextDate.None? then (sent', Returned(WebUntisResponse(payloads + [Some(p)], None)))
          else Paginate(respond, kind, formatName, schoolName, p.nextDate.value, num - 1, sent', payloads + [Some(p)])
  }

  /** Requests with the given fixed parts, the first at `start`, each
      response before the last one naming the date of the next request. */
  ghost predicate Linked(respond: (nat, Request) -> WebUntisResponse, kind: Kind, formatName: string, schoolName: string,
                         start: int, sent: seq<Request>)
  {
    && (forall k :: 0 <= k < |sent| ==>
          sent[k].kind == kind && sent[k].formatName == formatName && sent[k].schoolName == schoolName)
    && (sent != [] ==> sent[0].date == start)
    && (forall k :: 0 <= k < |sent| - 1 ==>
          Continues(respond(k, sent[k])) && sent[k + 1].date == NextDate(respond(k, sent[k])))
  }

  /** The loop state between two iterations: every response so far named a
      next date, its payload was kept, and the next request goes to the
      date the last one named. */
  ghost predicate Chained(respond: (nat, Request) -> WebUntisResponse, kind: Kind, formatName: string, schoolName: string,
                          start: int, reqDate: int, sent: seq<Request>, payloads: seq<Option<Payload>>)
  {
    && Linked(respond, kind, formatName, schoolName, start, sent)
    && |payloads| == |sent|
    && (forall k :: 0 <= k < |sent| ==>
          Continues(respond(k, sent[k])) && payloads[k] == respond(k, sent[k]).payloads[0])
    && (sent == [] ==> reqDate == start)
    && (sent != [] ==> reqDate == NextDate(respond(|sent| - 1, sent[|sent| - 1])))
  }

  /** The payloads of the responses to the first `n` requests, in order. */
  ghost function Kept(respond: (nat, Request) -> WebUntisResponse, sent: seq<Request>, n: nat): (ps: seq<Option<Payload>>)
    requires n <= |sent| && forall k :: 0 <= k < n ==> respond(k, sent[k]).payloads != []
    ensures |ps| == n && forall k :: 0 <= k < n ==> ps[k] == respond(k, sent[k]).payloads[0]
  {
    seq(n, k requires 0 <= k < n => respond(k, sent[k]).payloads[0])
  }

  /** How a fetch ends on the response `last`, with the payloads kept before
      it: an error is returned with those payloads; a response without
      payloads returns them; a `null` payload throws; any other payload is
      kept and returned with them. */
  function Finish(last: WebUntisResponse, before: seq<Option<Payload>>): Outcome {
    if last.HasError() then Returned(WebUntisResponse(before, last.error))
    else if !last.HasData() then Returned(WebUntisResponse(before, None))
    else if last.payloads[0].None? then Threw
    else Returned(WebUntisResponse(before + [last.payloads[0]], None))
  }

  /** What a finished fetch of at most `limit` requests satisfies: the
      requests are linked, there is one exactly when `limit` is positive, a
      response that names a next date is followed by another request unless
      the limit is reached, and the outcome is what the last response makes
      of the payloads before it. */
  ghost predicate Ended(respond: (nat, Request) -> WebUntisResponse, kind: Kind, formatName: string, schoolName: string,
                        start: int, limit: nat, sent: seq<Request>, outcome: Outcome)
  {
    && Linked(respond, kind, formatName, schoolName, start, sent)
    && |sent| <= limit
    && (sent == [] <==> limit == 0)
    && (sent == [] ==> outcome == Returned(WebUntisResponse([], None)))
    && (sent != [] ==>
          var last := respond(|sent| - 1, sent[|sent| - 1]);
          && (Continues(last) ==> |sent| == limit)
          && outcome == Finish(last, Kept(respond, sent, |sent| - 1)))
  }

  /** `Ended`, read back: the payloads returned are the payloads of the first
      requests, in order, none `null`; the outcome carries an error exactly
      when the last response has one, and then the payloads before it; it is
      a throw exactly when the last response holds a `null` payload. */
  lemma EndedOutcome(respond: (nat, Request) -> WebUntisResponse, kind: Kind, formatName: string, schoolName: string,
                     start: int, limit: nat, sent: seq<Request>, outcome: Outcome)
    requires Ended(respond, kind, formatName, schoolName, start, limit, sent, outcome)
    ensures outcome.Returned? ==>
      var ps := outcome.response.payloads;
      && |ps| <= |sent|
      && (forall k :: 0 <= k < |ps| ==>
            respond(k, sent[k]).HasData() && ps[k] == respond(k, sent[k]).payloads[0] && ps[k].Some?)
    ensures (outcome.Returned? && outcome.response.HasError())
      <==> (sent != [] && respond(|sent| - 1, sent[|sent| - 1]).HasError())
    ensures outcome.Returned? && outcome.response.HasError() ==>
      && |outcome.response.payloads| == |sent| - 1
      && outcome.response.error == respond(|sent| - 1, sent[|sent| - 1]).error
    ensures outcome.Threw? <==>
      && sent != [] && !respond(|sent| - 1, sent[|sent| - 1]).HasError()
      && respond(|sent| - 1, sent[|sent| - 1]).HasData() && respond(|sent| - 1, sent[|sent| - 1]).payloads[0] == None
  {
    if sent != [] {
      var last := respond(|sent| - 1, sent[|sent| - 1]);
      var before := Kept(respond, sent, |sent| - 1);
      if outcome.Returned? && !last.HasError() && last.HasData() {
        var ps := outcome.response.payloads;
        assert ps == before + [last.payloads[0]];
        forall k | 0 <= k < |ps|
          ensures respond(k, sent[k]).HasData() && ps[k] == respond(k, sent[k]).payloads[0] && ps[k].Some?
        {
          if k < |before| {
            assert ps[k] == before[k];
          }
        }
      }
    }
  }

  /** An error response is not dropped: a fetch whose one response is an
      error cannot end with an error-free outcome. */
  lemma ErrorNotDropped(kind: Kind, formatName: string, schoolName: string, start: int, limit: nat, e: Error)
    ensures var respond := (i: nat, r: Request) => WebUntisResponse([], Some(e));
      !Ended(respond, kind, formatName, schoolName, start, limit, [Request(kind, formatName, schoolName, start)],
             Returned(WebUntisResponse([], None)))
  {
  }

  /** A response that names a next date is followed by another request
      while the limit allows one: one request is not a finished fetch. */
  lemma ContinuesNotEnded(kind: Kind, formatName: string, schoolName: string, start: int, limit: nat,
                          p: Payload, outcome: Outcome)
    requires p.nextDate.Some? && limit > 1
    ensures var respond := (i: nat, r: Request) => WebUntisResponse([Some(p)], None);
      !Ended(respond, kind, formatName, schoolName, start, limit, [Request(kind, formatName, schoolName, start)], outcome)
  {
  }

  /** Sending the next request keeps the requests linked. */
  lemma LinkedExtend(respond: (nat, Request) -> WebUntisResponse, kind: Kind, formatName: string, schoolName: string,
                     start: int, reqDate: int, sent: seq<Request>, payloads: seq<Option<Payload>>)
    requires Chained(respond, kind, formatName, schoolName, start, reqDate, sent, payloads)
    ensures Linked(respond, kind, formatName, schoolName, start, sent + [Request(kind, formatName, schoolName, reqDate)])
  {
    var sent' := sent + [Request(kind, formatName, schoolName, reqDate)];
    forall k | 0 <= k < |sent'| - 1
      ensures Continues(respond(k, sent'[k])) && sent'[k + 1].date == NextDate(respond(k, sent'[k]))
    {
      assert sent'[k] == sent[k];
    }
  }

  /** A response that names a next date extends the chain. */
  lemma ChainedExtend(respond: (nat, Request) -> WebUntisResponse, kind: Kind, formatName: string, schoolName: string,
                      start: int, reqDate: int, sent: seq<Request>, payloads: seq<Option<Payload>>)
    requires Chained(respond, kind, formatName, schoolName, start, reqDate, sent, payloads)
    requires Continues(respond(|sent|, Request(kind, formatName, schoolName, reqDate)))
    ensures var request := Request(kind, formatName, schoolName, reqDate);
      var response := respond(|sent|, request);
      Chained(respond, kind, formatName, schoolName, start, NextDate(response),
              sent + [request], payloads + [response.payloads[0]])
  {
    LinkedExtend(respond, kind, formatName, schoolName, start, reqDate, sent, payloads);
  }

  /** A response that names a next date moves the loop on to that date. */
  lemma PaginateContinues(respond: (nat, Request) -> WebUntisResponse, kind: Kind, formatName: string, schoolName: string,
                          reqDate: int, num: int, sent: seq<Request>, payloads: seq<Option<Payload>>)
    requires num > 0 && Continues(respond(|sent|, Request(kind, formatName, schoolName, reqDate)))
    ensures var request := Request(kind, formatName, schoolName, reqDate);
      var response := respond(|sent|, request);
      Paginate(respond, kind, formatName, schoolName, reqDate, num, sent, payloads)
        == Paginate(respond, kind, formatName, schoolName, NextDate(response), num - 1,
                    sent + [request], payloads + [response.payloads[0]])
  {
  }

  /** A response that names no next date ends the loop after one request,
      whatever the remaining count. */
  lemma PaginateStops(respond: (nat, Request) -> WebUntisResponse, kind: Kind, formatName: string, schoolName: string,
                      reqDate: int, num: int, sent: seq<Request>, payloads: seq<Option<Payload>>)
    requires num > 0 && !Continues(respond(|sent|, Request(kind, formatName, schoolName, reqDate)))
    ensures Paginate(respond, kind, formatName, schoolName, reqDate, num, sent, payloads)
      == Paginate(respond, kind, formatName, schoolName, reqDate, 1, sent, payloads)
    ensures |Paginate(respond, kind, formatName, schoolName, reqDate, num, sent, payloads).0| == |sent| + 1
  {
  }

  /** The payloads of a chained state are those of its requests. */
  lemma ChainedKept(respond: (nat, Request) -> WebUntisResponse, kind: Kind, formatName: string, schoolName: string,
                    start: int, reqDate: int, sent: seq<Request>, payloads: seq<Option<Payload>>)
    requires Chained(respond, kind, formatName, schoolName, start, reqDate, sent, payloads)
    ensures payloads == Kept(respond, sent, |sent|)
    ensures sent != [] ==> payloads == Kept(respond, sent, |sent| - 1) + [respond(|sent| - 1, sent[|sent| - 1]).payloads[0]]
  {
    if sent != [] {
      var before := Kept(respond, sent, |sent| - 1);
      assert forall k :: 0 <= k < |sent| - 1 ==> (before + [respond(|sent| - 1, sent[|sent| - 1]).payloads[0]])[k] == before[k];
    }
  }

  /** From a chained state with `num` requests left, the loop ends as
      `Ended` says for the limit of the requests sent and those left. */
  lemma {:induction false} PaginateEnds(respond: (nat, Request) -> WebUntisResponse, kind: Kind,
                                        formatName: string, schoolName: string, start: int,
                                        reqDate: int, num: int, sent: seq<Request>, payloads: seq<Option<Payload>>)
    requires Chained(respond, kind, formatName, schoolName, start, reqDate, sent, payloads)
    ensures var (sent', outcome) := Paginate(respond, kind, formatName, schoolName, reqDate, num, sent, payloads);
      && Ended(respond, kind, formatName, schoolName, start, |sent| + (if num > 0 then num else 0), sent', outcome)
      && |sent| <= |sent'|
    decreases num
  {
    ChainedKept(respond, kind, formatName, schoolName, start, reqDate, sent, payloads);
    if num > 0 {
      var request := Request(kind, formatName, schoolName, reqDate);
      var response := respond(|sent|, request);
      LinkedExtend(respond, kind, formatName, schoolName, start, reqDate, sent, payloads);
      if Continues(response) {
        PaginateContinues(respond, kind, formatName, schoolName, reqDate, num, sent, payloads);
        ChainedExtend(respond, kind, formatName, schoolName, start, reqDate, sent, payloads);
        PaginateEnds(respond, kind, formatName, schoolName, start, NextDate(response), num - 1,
                     sent + [request], payloads + [response.payloads[0]]);
      } else {
        PaginateStops(respond, kind, formatName, schoolName, reqDate, num, sent, payloads);
        StopEnds(respond, kind, formatName, schoolName, start, reqDate, |sent| + num, sent, payloads);
      }
    }
  }

  /** A response that names no next date ends the loop as `Ended` says. */
  lemma StopEnds(respond: (nat, Request) -> WebUntisResponse, kind: Kind, formatName: string, schoolName: string,
                 start: int, reqDate: int, limit: nat, sent: seq<Request>, payloads: seq<Option<Payload>>)
    requires Chained(respond, kind, formatName, schoolName, start, reqDate, sent, payloads)
    requires Linked(respond, kind, formatName, schoolName, start, sent + [Request(kind, formatName, schoolName, reqDate)])
    requires !Continues(respond(|sent|, Request(kind, formatName, schoolName, reqDate))) && |sent| < limit
    ensures var (sent', outcome) := Paginate(respond, kind, formatName, schoolName, reqDate, 1, sent, payloads);
      Ended(respond, kind, formatName, schoolName, start, limit, sent', outcome)
  {
    var request := Request(kind, formatName, schoolName, reqDate);
    var sent' := sent + [request];
    assert sent'[|sent|] == request;
    forall k | 0 <= k < |sent| ensures sent'[k] == sent[k] { }
    ChainedKept(respond, kind, formatName, schoolName, start, reqDate, sent, payloads);
    assert Kept(respond, sent', |sent|) == Kept(respond, sent, |sent|);
  }

  /**
   * The loop of `getSubstitution` and `getTablesMinimal`: up to `num`
   * requests, starting at the code of `date`, each next one at the
   * `nextDate` of the payload before; it stops at an error (kept, with the
   * payloads gathered before it), at a response without payloads, or at a
   * payload without a next date.
   */
  method FetchDays(respond: (nat, Request) -> WebUntisResponse, kind: Kind, formatName: string, schoolName: string,
                   date: Date, num: int)
    returns (sent: seq<Request>, outcome: Outcome)
    requires ValidDate(date)
    ensures (sent, outcome) == Paginate(respond, kind, formatName, schoolName, FormatDate(date), num, [], [])
    ensures Ended(respond, kind, formatName, schoolName, FormatDate(date), if num > 0 then num else 0, sent, outcome)
  {
    var n := num;
    var reqDate := FormatDate(date);
    var payloads: seq<Option<Payload>> := [];
    sent := [];
    var stopped := false;
    outcome := Threw;
    while n > 0
      invariant Paginate(respond, kind, formatName, schoolName, reqDate, n, sent, payloads)
             == Paginate(respond, kind, formatName, schoolName, FormatDate(date), num, [], [])
      invariant num <= 0 ==> sent == [] && payloads == [] && n == num
      decreases n
    {
      var request := Request(kind, formatName, schoolName, reqDate);
      var response := respond(|sent|, request);
      if Continues(response) {
        PaginateContinues(respond, kind, formatName, schoolName, reqDate, n, sent, payloads);
      }
      sent := sent + [request];
      if response.HasError() {
        outcome, stopped := Returned(WebUntisResponse(payloads, response.error)), true;
        break;
      }
      if !response.HasData() {
        outcome, stopped := Returned(WebUntisResponse(payloads, None)), true;
        break;
      }
      var payload := response.payloads[0];
      if payload.None? {
        stopped := true;
        break;
      }
      payloads := payloads + [payload];
      if payload.value.nextDate.None? {
        outcome, stopped := Returned(WebUntisResponse(payloads, None)), true;
        break;
      }
      reqDate := payload.value.nextDate.value;
      n := n - 1;
    }
    if !stopped {
      outcome := Returned(WebUntisResponse(payloads, None));
    }
    assert (sent, outcome) == Paginate(respond, kind, formatName, schoolName, FormatDate(date), num, [], []);
    PaginateEnds(respond, kind, formatName, schoolName, FormatDate(date), FormatDate(date), num, [], []);
  }
}
