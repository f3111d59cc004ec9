/** The in-memory stand-in for the hosted database: three tables of rows, the
    queries the handlers share, and PostgREST's `maybeSingle` reading of a query. */
module Store {
  import opened Wrappers
  import opened Calendar

  /** A row of `bookings`. `status` is free text: the code writes "confirmed",
      filters on `!= "cancelled"` and lets an admin edit set anything. */
  datatype Booking = Booking(
    id: nat,
    name: string,
    phone: string,
    date: Day,
    time: string,
    status: string,
    reminderSent: bool)

  /** A row of `closed_slots`; `time == None` closes the whole day. */
  datatype ClosedSlot = ClosedSlot(id: nat, date: Day, time: Option<string>)

  /** A row of `verification_codes`. */
  datatype VerificationCode = VerificationCode(
    id: nat,
    phone: string,
    code: string,
    expiresAt: Instant,
    verified: bool)

  /** Every filter that skips cancelled bookings uses `status !== "cancelled"`. */
  predicate Active(b: Booking) {
    b.status != "cancelled"
  }

  /** What `maybeSingle()` makes of a result set: no row, the row, or (for more
      than one row) `data: null` together with an error. */
  datatype Single<T> = NoRow | OneRow(row: T) | ManyRows

  function MaybeSingle<T>(rows: seq<T>): (r: Single<T>)
    ensures r.NoRow? <==> rows == []
    ensures r.OneRow? <==> |rows| == 1
    ensures r.OneRow? ==> r.row == rows[0]
  {
    if |rows| == 0 then NoRow else if |rows| == 1 then OneRow(rows[0]) else ManyRows
  }

  // ---- Row ids: unique inside a table, and below the next id to hand out ----

  function BookingId(b: Booking): nat { b.id }
  function ClosedId(c: ClosedSlot): nat { c.id }
  function CodeId(c: VerificationCode): nat { c.id }

  predicate UniqueIds<T>(rows: seq<T>, idOf: T -> nat) {
    forall i, j :: 0 <= i < j < |rows| ==> idOf(rows[i]) != idOf(rows[j])
  }

  predicate IdsBelow<T>(rows: seq<T>, idOf: T -> nat, next: nat) {
    forall i :: 0 <= i < |rows| ==> idOf(rows[i]) < next
  }

  predicate IdsOk<T>(rows: seq<T>, idOf: T -> nat, next: nat) {
    UniqueIds(rows, idOf) && IdsBelow(rows, idOf, next)
  }

  /** Dropping the first row keeps the ids unique and below the counter. */
  lemma TailKeepsIds<T>(rows: seq<T>, idOf: T -> nat, next: nat)
    requires rows != [] && IdsOk(rows, idOf, next)
    ensures IdsOk(rows[1..], idOf, next)
  {
    var tail := rows[1..];
    forall k, l | 0 <= k < l < |tail| ensures idOf(tail[k]) != idOf(tail[l]) {
      assert tail[k] == rows[k + 1] && tail[l] == rows[l + 1];
    }
    forall k | 0 <= k < |tail| ensures idOf(tail[k]) < next {
      assert tail[k] == rows[k + 1];
    }
  }

  /** Putting a row whose id none of the others has, below the counter, in
      front keeps the ids unique and below the counter. */
  lemma ConsKeepsIds<T>(x: T, rest: seq<T>, idOf: T -> nat, next: nat)
    requires IdsOk(rest, idOf, next) && idOf(x) < next
    requires forall k :: 0 <= k < |rest| ==> idOf(rest[k]) != idOf(x)
    ensures IdsOk([x] + rest, idOf, next)
  {
    var r := [x] + rest;
    forall i, j | 0 <= i < j < |r| ensures idOf(r[i]) != idOf(r[j]) {
      assert r[j] == rest[j - 1];
      if i > 0 {
        assert r[i] == rest[i - 1];
      }
    }
    forall i | 0 <= i < |r| ensures idOf(r[i]) < next {
      if i > 0 {
        assert r[i] == rest[i - 1];
      }
    }
  }

  /** Appending a row with the next id keeps the ids unique and below the
      incremented counter. */
  lemma AppendFreshId<T>(rows: seq<T>, idOf: T -> nat, next: nat, row: T)
    requires IdsOk(rows, idOf, next) && idOf(row) == next
    ensures IdsOk(rows + [row], idOf, next + 1)
  {
    var r := rows + [row];
    forall i, j | 0 <= i < j < |r| ensures idOf(r[i]) != idOf(r[j]) {
      assert r[i] == rows[i];
    }
  }

  /** `.delete().eq("id", id)`: every row carrying `id` goes, the rest stay in order. */
  function RemoveId<T>(rows: seq<T>, idOf: T -> nat, id: nat): (r: seq<T>)
    ensures |r| <= |rows|
  {
    if rows == [] then []
    else (if idOf(rows[0]) != id then [rows[0]] else []) + RemoveId(rows[1..], idOf, id)
  }

  /** No remaining row carries the deleted id, and every remaining row was there. */
  lemma {:induction false} RemoveIdSound<T>(rows: seq<T>, idOf: T -> nat, id: nat)
    ensures forall x :: x in RemoveId(rows, idOf, id) <==> x in rows && idOf(x) != id
  {
    if rows != [] {
      RemoveIdSound(rows[1..], idOf, id);
      assert rows == [rows[0]] + rows[1..];
    }
  }

  /** Deleting an id that no row carries leaves the table as it was. */
  lemma {:induction false} RemoveAbsentId<T>(rows: seq<T>, idOf: T -> nat, id: nat)
    requires forall i :: 0 <= i < |rows| ==> idOf(rows[i]) != id
    ensures RemoveId(rows, idOf, id) == rows
  {
    if rows != [] {
      RemoveAbsentId(rows[1..], idOf, id);
    }
  }

  /** With unique ids, deleting the id of row i removes exactly that row and
      keeps the others in order. */
  lemma {:induction false} RemoveUniqueId<T>(rows: seq<T>, idOf: T -> nat, i: nat)
    requires i < |rows| && UniqueIds(rows, idOf)
    ensures RemoveId(rows, idOf, idOf(rows[i])) == rows[..i] + rows[i + 1..]
  {
    var id := idOf(rows[i]);
    var tail := rows[1..];
    if i == 0 {
      assert forall k :: 0 <= k < |tail| ==> idOf(tail[k]) != id by {
        forall k | 0 <= k < |tail| ensures idOf(tail[k]) != id {
          assert tail[k] == rows[k + 1];
        }
      }
      RemoveAbsentId(tail, idOf, id);
      assert RemoveId(rows, idOf, id) == [] + RemoveId(tail, idOf, id);
    } else {
      assert tail[i - 1] == rows[i];
      assert UniqueIds(tail, idOf) by {
        forall k, l | 0 <= k < l < |tail| ensures idOf(tail[k]) != idOf(tail[l]) {
          assert tail[k] == rows[k + 1] && tail[l] == rows[l + 1];
        }
      }
      RemoveUniqueId(tail, idOf, i - 1);
      assert idOf(rows[0]) != id;
      assert RemoveId(rows, idOf, id) == [rows[0]] + RemoveId(tail, idOf, id);
      assert tail[..i - 1] == rows[1..i] && tail[i..] == rows[i + 1..];
      assert [rows[0]] + rows[1..i] == rows[..i];
    }
  }

  /** Removing one row keeps the ids unique and below the counter. */
  lemma RemoveKeepsIds<T>(rows: seq<T>, idOf: T -> nat, next: nat, i: nat)
    requires i < |rows| && IdsOk(rows, idOf, next)
    ensures IdsOk(rows[..i] + rows[i + 1..], idOf, next)
  {
    var r := rows[..i] + rows[i + 1..];
    forall k | 0 <= k < |r| ensures idOf(r[k]) < next && r[k] == rows[if k < i then k else k + 1] {
    }
    forall k, l | 0 <= k < l < |r| ensures idOf(r[k]) != idOf(r[l]) {
      assert r[k] == rows[if k < i then k else k + 1];
      assert r[l] == rows[if l < i then l else l + 1];
    }
  }

  /** Deleting by id keeps the ids unique and below the counter. */
  lemma RemoveIdKeepsIds<T>(rows: seq<T>, idOf: T -> nat, next: nat, id: nat)
    requires IdsOk(rows, idOf, next)
    ensures IdsOk(RemoveId(rows, idOf, id), idOf, next)
  {
    if exists i :: 0 <= i < |rows| && idOf(rows[i]) == id {
      var i :| 0 <= i < |rows| && idOf(rows[i]) == id;
      RemoveUniqueId(rows, idOf, i);
      RemoveKeepsIds(rows, idOf, next, i);
    } else {
      RemoveAbsentId(rows, idOf, id);
    }
  }

  /** The database. Ids are handed out from one counter, as a fresh uuid would be. */
  class Db {
    var bookings: seq<Booking>
    var closed: seq<ClosedSlot>
    var codes: seq<VerificationCode>
    var nextId: nat

    ghost predicate Valid()
      reads this
    {
      IdsOk(bookings, BookingId, nextId) && IdsOk(closed, ClosedId, nextId) && IdsOk(codes, CodeId, nextId)
    }

    constructor ()
      ensures Valid()
      ensures bookings == [] && closed == [] && codes == [] && nextId == 0
    {
      bookings, closed, codes, nextId := [], [], [], 0;
    }
  }

  // ---- Booking queries shared by the handlers ----

  /** Non-cancelled bookings at (`d`, `t`), in table order: the rows behind
      `.eq("booking_date").eq("booking_time").neq("status", "cancelled")`. */
  function ActiveAt(bs: seq<Booking>, d: Day, t: string): (r: seq<Booking>)
    ensures |r| <= |bs|
    ensures forall b :: b in r <==> b in bs && b.date == d && b.time == t && Active(b)
  {
    if bs == [] then []
    else (if bs[0].date == d && bs[0].time == t && Active(bs[0]) then [bs[0]] else []) + ActiveAt(bs[1..], d, t)
  }

  lemma {:induction false} NoActiveAt(bs: seq<Booking>, d: Day, t: string)
    requires forall i :: 0 <= i < |bs| ==> !(bs[i].date == d && bs[i].time == t && Active(bs[i]))
    ensures ActiveAt(bs, d, t) == []
  {
    if bs != [] {
      NoActiveAt(bs[1..], d, t);
    }
  }

  /** The uniqueness the booking flow is after: at most one non-cancelled
      booking per (date, time). */
  ghost predicate OneActivePerSlot(bs: seq<Booking>) {
    forall i, j :: 0 <= i < j < |bs| && Active(bs[i]) && Active(bs[j]) ==>
      bs[i].date != bs[j].date || bs[i].time != bs[j].time
  }

  /** Removing rows keeps the slot uniqueness. */
  lemma RemoveKeepsOneActivePerSlot(bs: seq<Booking>, i: nat)
    requires i < |bs| && OneActivePerSlot(bs)
    ensures OneActivePerSlot(bs[..i] + bs[i + 1..])
  {
    var r := bs[..i] + bs[i + 1..];
    forall k, l | 0 <= k < l < |r| && Active(r[k]) && Active(r[l])
      ensures r[k].date != r[l].date || r[k].time != r[l].time
    {
      var k' := if k < i then k else k + 1;
      var l' := if l < i then l else l + 1;
      assert r[k] == bs[k'] && r[l] == bs[l'] && k' < l';
    }
  }

  // ---- Verification-code queries ----

  /** A code row the lookup `.eq("phone").eq("code").eq("verified", false)
      .gt("expires_at", now)` returns. */
  predicate Usable(c: VerificationCode, phone: string, code: string, now: Instant) {
    c.phone == phone && c.code == code && !c.verified && c.expiresAt > now
  }

  function CodeMatches(codes: seq<VerificationCode>, phone: string, code: string, now: Instant): (r: seq<VerificationCode>)
    ensures |r| <= |codes|
    ensures forall c :: c in r <==> c in codes && Usable(c, phone, code, now)
  {
    if codes == [] then []
    else (if Usable(codes[0], phone, code, now) then [codes[0]] else []) + CodeMatches(codes[1..], phone, code, now)
  }

  lemma {:induction false} NoCodeMatches(codes: seq<VerificationCode>, phone: string, code: string, now: Instant)
    requires forall i :: 0 <= i < |codes| ==> !Usable(codes[i], phone, code, now)
    ensures CodeMatches(codes, phone, code, now) == []
  {
    if codes != [] {
      NoCodeMatches(codes[1..], phone, code, now);
    }
  }

  /** `.update({ verified: true }).eq("id", id)` on `verification_codes`. */
  function MarkVerified(codes: seq<VerificationCode>, id: nat): (r: seq<VerificationCode>)
    ensures |r| == |codes|
    ensures forall i :: 0 <= i < |codes| ==>
      r[i] == if codes[i].id == id then codes[i].(verified := true) else codes[i]
  {
    if codes == [] then []
    else [if codes[0].id == id then codes[0].(verified := true) else codes[0]] + MarkVerified(codes[1..], id)
  }

  /** With unique code ids, once the only usable match has been marked, none is
      left: a code cannot be used twice, even at a later instant. */
  lemma SingleUse(codes: seq<VerificationCode>, phone: string, code: string, now: Instant, later: Instant)
    requires UniqueIds(codes, CodeId)
    requires MaybeSingle(CodeMatches(codes, phone, code, now)).OneRow?
    requires now <= later
    ensures CodeMatches(MarkVerified(codes, CodeMatches(codes, phone, code, now)[0].id), phone, code, later) == []
  {
    var m := CodeMatches(codes, phone, code, now);
    var c := m[0];
    assert m == [c];
    var after := MarkVerified(codes, c.id);
    forall i | 0 <= i < |after| ensures !Usable(after[i], phone, code, later) {
      if codes[i].id != c.id {
        assert codes[i] != c;
        assert codes[i] !in m;
        assert !Usable(codes[i], phone, code, now);
      }
    }
    NoCodeMatches(after, phone, code, later);
  }
}
