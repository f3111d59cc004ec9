/** The `verify-code` edge function: required fields, the six-digit format,
    the lookup of an unverified, unexpired code, and marking it verified. */
module VerifyCode {
  import opened Text
  import opened Calendar
  import opened Store
  import opened SendSms

  datatype VerifyResult =
    | MissingInput
    | BadFormat
    | DatabaseError
    | NoMatch
    | Verified(id: nat)

  /** The HTTP status: thrown errors answer 500, a wrong or expired code 200
      with `success: false`, and a match 200 with `success: true`. */
  function VerifyStatus(r: VerifyResult): (s: nat)
    ensures s == 200 <==> r.NoMatch? || r.Verified?
  {
    if r.NoMatch? || r.Verified? then 200 else 500
  }

  /** The decision, from the request and the code table. More than one
      matching row makes `maybeSingle` fail, which is thrown as a database error. */
  function VerifyOutcome(codes: seq<VerificationCode>, phone: string, code: string, now: Instant): (r: VerifyResult)
    ensures (phone == "" || code == "") <==> r.MissingInput?
    ensures phone != "" && code != "" && !IsSixDigits(code) <==> r.BadFormat?
    ensures r.NoMatch? ==> CodeMatches(codes, phone, code, now) == []
    ensures r.Verified? ==> exists i :: 0 <= i < |codes| && codes[i].id == r.id && Usable(codes[i], phone, code, now)
  {
    if phone == "" || code == "" then MissingInput
    else if !IsSixDigits(code) then BadFormat
    else
      var m := CodeMatches(codes, phone, code, now);
      match MaybeSingle(m)
      case ManyRows => DatabaseError
      case NoRow => NoMatch
      case OneRow(c) =>
        assert c in m;
        Verified(c.id)
  }

  /** The handler: on success exactly the matched row is marked verified; on
      every other outcome the store is left as it was. */
  method HandleVerifyCode(db: Db, phone: string, code: string, now: Instant) returns (res: VerifyResult)
    requires db.Valid()
    modifies db
    ensures db.Valid()
    ensures res == VerifyOutcome(old(db.codes), phone, code, now)
    ensures res.Verified? ==> db.codes == MarkVerified(old(db.codes), res.id)
    ensures !res.Verified? ==> db.codes == old(db.codes)
    ensures db.bookings == old(db.bookings) && db.closed == old(db.closed) && db.nextId == old(db.nextId)
  {
    if phone == "" || code == "" {
      return MissingInput;
    }
    if !IsSixDigits(code) {
      return BadFormat;
    }
    var found := MaybeSingle(CodeMatches(db.codes, phone, code, now));
    if found.ManyRows? {
      return DatabaseError;
    }
    if found.NoRow? {
      return NoMatch;
    }
    var row := found.row;
    MarkVerifiedKeepsIds(db.codes, row.id, db.nextId);
    db.codes := MarkVerified(db.codes, row.id);
    return Verified(row.id);
  }

  lemma MarkVerifiedKeepsIds(codes: seq<VerificationCode>, id: nat, next: nat)
    requires IdsOk(codes, CodeId, next)
    ensures IdsOk(MarkVerified(codes, id), CodeId, next)
  {
    var r := MarkVerified(codes, id);
    assert forall i :: 0 <= i < |r| ==> r[i].id == codes[i].id;
  }

  /** With unique ids, marking the id of row i changes that row's flag and no
      other row. */
  lemma MarkVerifiedOnlyThatRow(codes: seq<VerificationCode>, i: nat)
    requires i < |codes| && UniqueIds(codes, CodeId)
    ensures MarkVerified(codes, codes[i].id) == codes[i := codes[i].(verified := true)]
  {
    var r := MarkVerified(codes, codes[i].id);
    forall j | 0 <= j < |codes| && j != i ensures r[j] == codes[j] {
      assert CodeId(codes[j]) != CodeId(codes[i]);
    }
  }

  lemma {:induction false} MatchesWithinPhone(codes: seq<VerificationCode>, phone: string, code: string, now: Instant)
    ensures |CodeMatches(codes, phone, code, now)| <= |CodesOf(codes, phone)|
  {
    if codes != [] {
      MatchesWithinPhone(codes[1..], phone, code, now);
    }
  }

  /** While no phone holds two codes (what `send-sms` keeps), a well-formed
      request is verified exactly when a row with this phone and code is
      unverified and unexpired, and the row verified is that row. */
  lemma VerifySucceedsIff(codes: seq<VerificationCode>, phone: string, code: string, now: Instant)
    requires OneCodePerPhone(codes)
    requires phone != "" && IsSixDigits(code)
    ensures VerifyOutcome(codes, phone, code, now).Verified? <==>
      exists i :: 0 <= i < |codes| && Usable(codes[i], phone, code, now)
    ensures !VerifyOutcome(codes, phone, code, now).Verified? ==> VerifyOutcome(codes, phone, code, now).NoMatch?
  {
    var m := CodeMatches(codes, phone, code, now);
    MatchesWithinPhone(codes, phone, code, now);
    assert |CodesOf(codes, phone)| <= 1;
    if exists i :: 0 <= i < |codes| && Usable(codes[i], phone, code, now) {
      var i :| 0 <= i < |codes| && Usable(codes[i], phone, code, now);
      assert codes[i] in m;
    }
  }

  /** Marking a code verified changes no code's phone, so every phone keeps
      as many codes as it had. */
  lemma {:induction false} MarkVerifiedKeepsCodesOf(codes: seq<VerificationCode>, id: nat, p: string)
    ensures |CodesOf(MarkVerified(codes, id), p)| == |CodesOf(codes, p)|
  {
    if codes != [] {
      var m := MarkVerified(codes, id);
      assert m[0].phone == codes[0].phone;
      assert m[1..] == MarkVerified(codes[1..], id);
      MarkVerifiedKeepsCodesOf(codes[1..], id, p);
    }
  }

  /** A verification keeps "at most one code per phone", so the precondition
      of `VerifySucceedsIff` survives it. */
  lemma MarkVerifiedKeepsOneCodePerPhone(codes: seq<VerificationCode>, id: nat)
    requires OneCodePerPhone(codes)
    ensures OneCodePerPhone(MarkVerified(codes, id))
  {
    forall p ensures |CodesOf(MarkVerified(codes, id), p)| <= 1 {
      MarkVerifiedKeepsCodesOf(codes, id, p);
    }
  }

  /** A verified code cannot be verified again, now or later. */
  lemma VerifySingleUse(codes: seq<VerificationCode>, phone: string, code: string, now: Instant, later: Instant)
    requires UniqueIds(codes, CodeId)
    requires VerifyOutcome(codes, phone, code, now).Verified?
    requires now <= later
    ensures VerifyOutcome(MarkVerified(codes, VerifyOutcome(codes, phone, code, now).id), phone, code, later) == NoMatch
  {
    SingleUse(codes, phone, code, now, later);
  }

  lemma {:induction false} CodeMatchesAppend(codes: seq<VerificationCode>, c: VerificationCode, phone: string, code: string, now: Instant)
    ensures CodeMatches(codes + [c], phone, code, now) ==
      CodeMatches(codes, phone, code, now) + (if Usable(c, phone, code, now) then [c] else [])
  {
    if codes == [] {
      assert ([] + [c])[1..] == [];
    } else {
      assert (codes + [c])[1..] == codes[1..] + [c];
      CodeMatchesAppend(codes[1..], c, phone, code, now);
    }
  }

  /** A code just issued by `send-sms` verifies exactly until its expiry, for
      a request whose phone is the normalised phone the code was stored under
      (the lookup compares the phone as sent, without normalising it). */
  lemma IssueThenVerify(codes: seq<VerificationCode>, issued: VerificationCode, now: Instant)
    requires !issued.verified && IsSixDigits(issued.code) && issued.phone != ""
    ensures VerifyOutcome(IssueCode(codes, issued), issued.phone, issued.code, now) ==
      if now < issued.expiresAt then Verified(issued.id) else NoMatch
  {
    var kept := DeletePhone(codes, issued.phone);
    CodeMatchesAppend(kept, issued, issued.phone, issued.code, now);
    NoCodeMatches(kept, issued.phone, issued.code, now);
  }
}
