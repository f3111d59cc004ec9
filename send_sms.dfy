/** The `send-sms` edge function: phone gates, the rate limit, the choice and
    issue of a verification code, and the dispatch on the message type. The
    helpers of the shared security module are oracles held in `SmsEnv`. */
module SendSms {
  import opened Wrappers
  import opened Text
  import opened Calendar
  import opened Store

  /** The `type` of a request; anything outside the five known names is `Unknown`. */
  datatype MessageType =
    | Verification
    | BookingConfirmation
    | BookingCancelled
    | BookingUpdated
    | BookingReminder
    | Unknown(name: string)

  /** The optional `data` of a request (an absent `data` has every field `None`). */
  datatype SmsData = SmsData(code: Option<string>, date: Option<Day>, time: Option<string>, name: Option<string>)

  /** A request body. A missing `phone` behaves as the empty string: both are falsy. */
  datatype SmsRequest = SmsRequest(phone: string, kind: MessageType, data: SmsData)

  /** What the function depends on besides the request and the code table:
      `normalize` is `normalizePhone` (`None` when it throws), `validIsraeli`
      is `isValidIsraeliPhone`, `rateAllowed` the answer of `checkRateLimit`,
      `isTest` is `isTestAccount`, `testCode` is `getTestCode()`, `random` the
      value `Math.floor(100000 + Math.random() * 900000)`, then the gateway's
      credentials and whether its response was ok, and the clock. */
  datatype SmsEnv = SmsEnv(
    normalize: string -> Option<string>,
    validIsraeli: string -> bool,
    rateAllowed: bool,
    isTest: string -> bool,
    testCode: Option<string>,
    random: nat,
    gatewayConfigured: bool,
    gatewayOk: bool,
    now: Instant)

  /** `phone.startsWith("+972") ? "0" + phone.slice(4) : phone`: the number
      both booking functions address their confirmation to. */
  function ConfirmationPhone(phone: string): (r: string)
    ensures StartsWith(phone, "+972") ==> r == "0" + phone[4..]
    ensures !StartsWith(phone, "+972") ==> r == phone
  {
    if StartsWith(phone, "+972") then "0" + phone[4..] else phone
  }

  datatype SmsResult =
    | PhoneRequired
    | InvalidPhone
    | RateLimited
    | InvalidType
    | TestAccountSkipped
    | GatewayNotConfigured
    | GatewayFailed
    | Sent

  /** The HTTP status of each result. */
  function Status(r: SmsResult): (s: nat)
    ensures s == 200 <==> r.TestAccountSkipped? || r.Sent?
    ensures s == 429 <==> r.RateLimited?
  {
    match r
    case RateLimited => 429
    case TestAccountSkipped => 200
    case Sent => 200
    case _ => 500
  }

  const NormalExpiryMs: int := 5 * 60 * 1000
  const TestExpiryMs: int := 30 * 24 * 60 * 60 * 1000

  /** The phone the request is for once it has passed the phone gates. */
  predicate PhoneOk(req: SmsRequest, env: SmsEnv) {
    req.phone != "" && env.normalize(req.phone).Some? && env.validIsraeli(env.normalize(req.phone).value)
  }

  /** The code sent: the configured test code for a test account, else the
      caller's `data.code` when truthy, else the random six-digit value. */
  function ChooseCode(isTest: bool, testCode: Option<string>, dataCode: Option<string>, random: nat): (c: string)
    ensures isTest && Truthy(testCode) ==> c == testCode.value
    ensures !(isTest && Truthy(testCode)) && Truthy(dataCode) ==> c == dataCode.value
    ensures !(isTest && Truthy(testCode)) && !Truthy(dataCode) ==> c == DecimalString(random)
  {
    if isTest && Truthy(testCode) then testCode.value
    else if Truthy(dataCode) then dataCode.value
    else DecimalString(random)
  }

  /** A randomly chosen code has six digits, so `verify-code` will accept its format. */
  lemma RandomCodeSixDigits(isTest: bool, testCode: Option<string>, dataCode: Option<string>, random: nat)
    requires 100000 <= random <= 999999
    requires !(isTest && Truthy(testCode)) && !Truthy(dataCode)
    ensures IsSixDigits(ChooseCode(isTest, testCode, dataCode, random))
  {
    SixDigitDecimal(random);
  }

  /** The verification codes of one phone. */
  function CodesOf(codes: seq<VerificationCode>, phone: string): (r: seq<VerificationCode>)
    ensures |r| <= |codes|
    ensures forall i :: 0 <= i < |r| ==> r[i].phone == phone
  {
    if codes == [] then []
    else (if codes[0].phone == phone then [codes[0]] else []) + CodesOf(codes[1..], phone)
  }

  /** Every code of a phone is a code of the table. */
  lemma {:induction false} CodesOfAreCodes(codes: seq<VerificationCode>, phone: string)
    ensures forall x :: x in CodesOf(codes, phone) ==> x in codes
  {
    if codes != [] {
      CodesOfAreCodes(codes[1..], phone);
    }
  }

  /** `.delete().eq("phone", phone)` on `verification_codes`. */
  function DeletePhone(codes: seq<VerificationCode>, phone: string): (r: seq<VerificationCode>)
    ensures |r| <= |codes|
    ensures forall i :: 0 <= i < |r| ==> r[i].phone != phone && r[i] in codes
  {
    if codes == [] then []
    else (if codes[0].phone != phone then [codes[0]] else []) + DeletePhone(codes[1..], phone)
  }

  lemma {:induction false} CodesOfDeletePhone(codes: seq<VerificationCode>, phone: string, other: string)
    ensures CodesOf(DeletePhone(codes, phone), other) == if other == phone then [] else CodesOf(codes, other)
  {
    if codes != [] {
      CodesOfDeletePhone(codes[1..], phone, other);
      var rest := DeletePhone(codes[1..], phone);
      if codes[0].phone != phone {
        assert DeletePhone(codes, phone) == [codes[0]] + rest;
        assert ([codes[0]] + rest)[1..] == rest;
      } else {
        assert DeletePhone(codes, phone) == rest;
      }
    }
  }

  lemma {:induction false} CodesOfAppend(codes: seq<VerificationCode>, c: VerificationCode, phone: string)
    ensures CodesOf(codes + [c], phone) == CodesOf(codes, phone) + (if c.phone == phone then [c] else [])
  {
    if codes == [] {
      assert codes + [c] == [c] && [c][1..] == [];
    } else {
      var tail := codes[1..];
      assert (codes + [c])[0] == codes[0] && (codes + [c])[1..] == tail + [c];
      CodesOfAppend(tail, c, phone);
    }
  }

  /** Delete every code of the phone, then insert the new one. */
  function IssueCode(codes: seq<VerificationCode>, issued: VerificationCode): (r: seq<VerificationCode>)
    ensures 1 <= |r| <= |codes| + 1 && r[|r| - 1] == issued
    ensures forall i :: 0 <= i < |r| - 1 ==> r[i].phone != issued.phone
  {
    DeletePhone(codes, issued.phone) + [issued]
  }

  /** After issuing, the phone has exactly the new code, and every other
      phone keeps its codes. */
  lemma IssueCodeEffect(codes: seq<VerificationCode>, issued: VerificationCode, other: string)
    ensures CodesOf(IssueCode(codes, issued), issued.phone) == [issued]
    ensures other != issued.phone ==> CodesOf(IssueCode(codes, issued), other) == CodesOf(codes, other)
  {
    CodesOfAppend(DeletePhone(codes, issued.phone), issued, issued.phone);
    CodesOfDeletePhone(codes, issued.phone, issued.phone);
    CodesOfAppend(DeletePhone(codes, issued.phone), issued, other);
    CodesOfDeletePhone(codes, issued.phone, other);
  }

  /** What issuing keeps: no phone holds more than one code. */
  ghost predicate OneCodePerPhone(codes: seq<VerificationCode>) {
    forall p :: |CodesOf(codes, p)| <= 1
  }

  lemma IssueKeepsOneCodePerPhone(codes: seq<VerificationCode>, issued: VerificationCode)
    requires OneCodePerPhone(codes)
    ensures OneCodePerPhone(IssueCode(codes, issued))
  {
    forall p ensures |CodesOf(IssueCode(codes, issued), p)| <= 1 {
      IssueCodeEffect(codes, issued, p);
    }
  }

  lemma DeletePhoneKeepsIds(codes: seq<VerificationCode>, phone: string, next: nat)
    requires IdsOk(codes, CodeId, next)
    ensures IdsOk(DeletePhone(codes, phone), CodeId, next)
    decreases |codes|
  {
    if codes != [] {
      var tail := codes[1..];
      TailKeepsIds(codes, CodeId, next);
      DeletePhoneKeepsIds(tail, phone, next);
      var rest := DeletePhone(tail, phone);
      if codes[0].phone != phone {
        forall k | 0 <= k < |rest| ensures CodeId(rest[k]) != CodeId(codes[0]) {
          var j :| 0 <= j < |tail| && tail[j] == rest[k];
          assert tail[j] == codes[j + 1];
        }
        ConsKeepsIds(codes[0], rest, CodeId, next);
      }
    }
  }


  /** Whether the request gets as far as issuing a code. */
  predicate IssuesCode(req: SmsRequest, env: SmsEnv) {
    PhoneOk(req, env) && env.rateAllowed && req.kind == Verification
  }

  /** The normalised phone of a request that passed the phone gates. */
  function Normalized(req: SmsRequest, env: SmsEnv): string
    requires PhoneOk(req, env)
  {
    env.normalize(req.phone).value
  }

  function NewCode(req: SmsRequest, env: SmsEnv, id: nat): (c: VerificationCode)
    requires PhoneOk(req, env)
    ensures c.phone == Normalized(req, env) && !c.verified && c.id == id
    ensures c.expiresAt == env.now + (if env.isTest(c.phone) then TestExpiryMs else NormalExpiryMs)
  {
    var phone := Normalized(req, env);
    var isTest := env.isTest(phone);
    VerificationCode(id, phone, ChooseCode(isTest, env.testCode, req.data.code, env.random),
      env.now + (if isTest then TestExpiryMs else NormalExpiryMs), false)
  }

  /** The response, gate by gate. */
  function Outcome(req: SmsRequest, env: SmsEnv): (r: SmsResult)
    ensures req.phone == "" ==> r == PhoneRequired
    ensures req.phone != "" && !PhoneOk(req, env) ==> r == InvalidPhone
    ensures PhoneOk(req, env) && !env.rateAllowed ==> r == RateLimited
    ensures PhoneOk(req, env) && env.rateAllowed && req.kind.Unknown? ==> r == InvalidType
    ensures r == TestAccountSkipped <==> IssuesCode(req, env) && env.isTest(Normalized(req, env))
    ensures r == Sent ==> PhoneOk(req, env) && env.rateAllowed && env.gatewayConfigured && env.gatewayOk
    ensures PhoneOk(req, env) && env.rateAllowed && !req.kind.Unknown? && r != TestAccountSkipped ==>
      (r == Sent <==> env.gatewayConfigured && env.gatewayOk) &&
      (r == GatewayNotConfigured <==> !env.gatewayConfigured) &&
      (r == GatewayFailed <==> env.gatewayConfigured && !env.gatewayOk)
  {
    if req.phone == "" then PhoneRequired
    else if !PhoneOk(req, env) then InvalidPhone
    else if !env.rateAllowed then RateLimited
    else if req.kind.Unknown? then InvalidType
    else if req.kind == Verification && env.isTest(Normalized(req, env)) then TestAccountSkipped
    else if !env.gatewayConfigured then GatewayNotConfigured
    else if !env.gatewayOk then GatewayFailed
    else Sent
  }

  /** A test account's verification request succeeds whatever the gateway does. */
  lemma TestAccountSkipsGateway(req: SmsRequest, env: SmsEnv, configured: bool, ok: bool)
    requires IssuesCode(req, env) && env.isTest(Normalized(req, env))
    ensures Outcome(req, env.(gatewayConfigured := configured, gatewayOk := ok)) == TestAccountSkipped
  {
  }

  /** The handler: the code table changes only for a verification request that
      passes the phone and rate gates, and then in the issue step alone, before
      (and whatever) the gateway answers. */
  method HandleSendSms(db: Db, req: SmsRequest, env: SmsEnv) returns (res: SmsResult)
    requires db.Valid()
    modifies db
    ensures db.Valid()
    ensures res == Outcome(req, env)
    ensures IssuesCode(req, env) ==>
      db.codes == IssueCode(old(db.codes), NewCode(req, env, old(db.nextId))) && db.nextId == old(db.nextId) + 1
    ensures !IssuesCode(req, env) ==> db.codes == old(db.codes) && db.nextId == old(db.nextId)
    ensures db.bookings == old(db.bookings) && db.closed == old(db.closed)
  {
    if req.phone == "" {
      return PhoneRequired;
    }
    var normalized := env.normalize(req.phone);
    if normalized.None? || !env.validIsraeli(normalized.value) {
      return InvalidPhone;
    }
    var phone := normalized.value;
    if !env.rateAllowed {
      return RateLimited;
    }
    var isTest := env.isTest(phone);
    match req.kind {
      case Verification =>
        var issued := NewCode(req, env, db.nextId);
        DeletePhoneKeepsIds(db.codes, phone, db.nextId);
        AppendFreshId(DeletePhone(db.codes, phone), CodeId, db.nextId, issued);
        db.codes := DeletePhone(db.codes, phone) + [issued];
        db.nextId := db.nextId + 1;
        if isTest {
          return TestAccountSkipped;
        }
      case Unknown(_) =>
        return InvalidType;
      case _ =>
    }
    if !env.gatewayConfigured {
      return GatewayNotConfigured;
    }
    if !env.gatewayOk {
      return GatewayFailed;
    }
    return Sent;
  }
}
