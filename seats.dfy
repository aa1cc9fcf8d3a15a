/** The seat handlers: the in-memory registry of temporary seat holds and the sweep that
    evicts stale ones, the seat list with its held flags, claiming and releasing a hold,
    booking held seats, cancelling a booking, and reading back a booking's seat numbers. */
module Seats {
  import opened JsValues
  import opened Strings
  import opened Sorting
  import opened Store

  /** How long a hold lasts before the sweep evicts it: five minutes, in milliseconds. */
  const ReservationTimeout: int := 5 * 60 * 1000

  /** Where a hold sits in the registry: `temporaryReservations[showtimeId][seatId]`. */
  datatype HoldKey = HoldKey(showtimeId: int, seatId: int)

  /** A hold: the socket that claimed the seat, and when. */
  datatype Hold = Hold(socketId: string, timestamp: int)

  type Holds = map<HoldKey, Hold>

  /** What is emitted to a showtime's room. */
  datatype Payload =
    | SeatTemporarilyReserved(seatId: int, socketId: string)
    | SeatReservationReleased(seatId: int, socketId: string)
    | SeatReservationExpired(seatId: int, socketId: string)
    | SeatsBooked(seatIds: seq<int>, bookingId: int, bookedBy: Option<string>)
    | BookingCancelled(seatIds: seq<int>, bookingId: int)

  /** An emit to the room `showtime_<room>`. */
  datatype Event = Event(room: int, payload: Payload)

  // ---------------------------------------------------------------------------
  // the sweep

  /** The sweep's test: strictly more than the timeout has passed since the claim. */
  predicate Expired(h: Hold, now: int) {
    now - h.timestamp > ReservationTimeout
  }

  /** The registry after a sweep at `now`. */
  function Unexpired(holds: Holds, now: int): Holds {
    map k | k in holds && !Expired(holds[k], now) :: holds[k]
  }

  /** The event announcing that the hold at `k` expired. */
  function ExpiryEvent(k: HoldKey, h: Hold): Event {
    Event(k.showtimeId, SeatReservationExpired(k.seatId, h.socketId))
  }

  /** One expiry event per key, in order. */
  function ExpiryEvents(ks: seq<HoldKey>, holds: Holds): (es: seq<Event>)
    requires forall i :: 0 <= i < |ks| ==> ks[i] in holds
    ensures |es| == |ks|
    ensures forall i :: 0 <= i < |ks| ==> es[i] == ExpiryEvent(ks[i], holds[ks[i]])
  {
    if ks == [] then [] else ExpiryEvents(ks[..|ks| - 1], holds) + [ExpiryEvent(ks[|ks| - 1], holds[ks[|ks| - 1]])]
  }

  /** The registry part-way through a sweep: the keys in `left` are still to be visited. */
  function PartlySwept(holds: Holds, left: set<HoldKey>, now: int): Holds {
    map k | k in holds && (k in left || !Expired(holds[k], now)) :: holds[k]
  }

  /** Visiting one more key deletes it when its hold has expired. */
  lemma PartlySweptStep(holds: Holds, left: set<HoldKey>, k: HoldKey, now: int)
    requires k in left && k in holds
    ensures PartlySwept(holds, left - {k}, now) ==
            if Expired(holds[k], now) then PartlySwept(holds, left, now) - {k} else PartlySwept(holds, left, now)
  {
  }

  /** The keys visited so far whose holds had expired, each counted once. */
  ghost predicate ExpiredSoFar(expired: seq<HoldKey>, holds: Holds, left: set<HoldKey>, now: int) {
    forall k :: multiset(expired)[k] == if k in holds && k !in left && Expired(holds[k], now) then 1 else 0
  }

  /** Visiting one more key lists it when its hold has expired. */
  lemma ExpiredSoFarStep(expired: seq<HoldKey>, holds: Holds, left: set<HoldKey>, k: HoldKey, now: int)
    requires ExpiredSoFar(expired, holds, left, now)
    requires k in left && k in holds
    ensures ExpiredSoFar(if Expired(holds[k], now) then expired + [k] else expired, holds, left - {k}, now)
  {
  }

  /** The nested `forEach` of the sweep: visits every key once, in an order the
      registry chooses, dropping each expired hold. `expired` lists the dropped keys in
      the order they were visited. */
  method SweepHolds(holds: Holds, now: int) returns (kept: Holds, expired: seq<HoldKey>)
    ensures kept == Unexpired(holds, now)
    ensures forall k :: multiset(expired)[k] == if k in holds && Expired(holds[k], now) then 1 else 0
    ensures forall i :: 0 <= i < |expired| ==> expired[i] in holds
  {
    kept := holds;
    var left := holds.Keys;
    expired := [];
    assert PartlySwept(holds, left, now) == kept;
    while left != {}
      invariant left <= holds.Keys
      invariant kept == PartlySwept(holds, left, now)
      invariant ExpiredSoFar(expired, holds, left, now)
      invariant forall i :: 0 <= i < |expired| ==> expired[i] in holds
      decreases |left|
    {
      var k := Choose(left);
      PartlySweptStep(holds, left, k, now);
      ExpiredSoFarStep(expired, holds, left, k, now);
      if Expired(holds[k], now) {
        kept := kept - {k};
        expired := expired + [k];
      }
      left := left - {k};
    }
    assert PartlySwept(holds, {}, now) == Unexpired(holds, now);
  }

  /** After a sweep no hold is older than the timeout, every younger hold is kept as it
      was, and a second sweep at the same instant changes nothing. */
  lemma SweepMeaning(holds: Holds, now: int)
    ensures forall k :: k in Unexpired(holds, now) ==> now - Unexpired(holds, now)[k].timestamp <= ReservationTimeout
    ensures forall k :: k in holds && now - holds[k].timestamp <= ReservationTimeout ==>
              k in Unexpired(holds, now) && Unexpired(holds, now)[k] == holds[k]
    ensures Unexpired(Unexpired(holds, now), now) == Unexpired(holds, now)
  {
  }

  /** A later sweep keeps no hold an earlier one evicts. */
  lemma LaterSweepKeepsLess(holds: Holds, now: int, later: int)
    requires now <= later
    ensures Unexpired(holds, later).Keys <= Unexpired(holds, now).Keys
  {
  }

  // ---------------------------------------------------------------------------
  // reserveSeat

  datatype ReserveReply =
    | ReserveFieldsRequired
    | AlreadyReserved(reservedBy: string)
    | HoldPlaced
    | HoldReleased
    | NotOwnHold

  /** What a reserve request answers, the registry after it, and what it emits. */
  datatype ReserveOutcome = ReserveOutcome(resp: Response<ReserveReply>, holds: Holds, emitted: seq<Event>)

  /** `reserveSeat` on the registry, at time `now`. */
  function Reserve(holds: Holds, showtimeId: int, seatId: Option<int>, socketId: Option<string>,
                   isReserving: bool, now: int): (r: ReserveOutcome)
    ensures r.resp.status == 400 <==> !(TruthyId(seatId) && TruthyStr(socketId))
    ensures r.resp.status == 400 ==> r == ReserveOutcome(Response(400, ReserveFieldsRequired), holds, [])
    ensures TruthyId(seatId) && TruthyStr(socketId) ==>
              var key := HoldKey(showtimeId, seatId.value);
              (r.resp.status == 409 <==> isReserving && key in holds) &&
              (r.resp.status == 409 ==>
                 r == ReserveOutcome(Response(409, AlreadyReserved(holds[key].socketId)), holds, [])) &&
              (r.resp.status == 403 <==> !isReserving && !(key in holds && holds[key].socketId == socketId.value)) &&
              (r.resp.status == 403 ==> r == ReserveOutcome(Response(403, NotOwnHold), holds, [])) &&
              (isReserving && key !in holds ==>
                 r.resp == Response(200, HoldPlaced) &&
                 key in r.holds && r.holds[key] == Hold(socketId.value, now) &&
                 r.emitted == [Event(showtimeId, SeatTemporarilyReserved(seatId.value, socketId.value))]) &&
              (!isReserving && key in holds && holds[key].socketId == socketId.value ==>
                 r.resp == Response(200, HoldReleased) && key !in r.holds &&
                 r.emitted == [Event(showtimeId, SeatReservationReleased(seatId.value, socketId.value))]) &&
              (forall k :: k != key ==> (k in r.holds <==> k in holds) && (k in holds ==> r.holds[k] == holds[k]))
  {
    if !(TruthyId(seatId) && TruthyStr(socketId)) then
      ReserveOutcome(Response(400, ReserveFieldsRequired), holds, [])
    else
      var key := HoldKey(showtimeId, seatId.value);
      var socket := socketId.value;
      if isReserving then
        if key in holds then ReserveOutcome(Response(409, AlreadyReserved(holds[key].socketId)), holds, [])
        else ReserveOutcome(Response(200, HoldPlaced), holds[key := Hold(socket, now)],
                            [Event(showtimeId, SeatTemporarilyReserved(seatId.value, socket))])
      else if key in holds && holds[key].socketId == socket then
        ReserveOutcome(Response(200, HoldReleased), holds - {key},
                       [Event(showtimeId, SeatReservationReleased(seatId.value, socket))])
      else ReserveOutcome(Response(403, NotOwnHold), holds, [])
  }

  /** Claiming a seat you already hold is a conflict like any other, and the hold keeps
      its original timestamp. */
  lemma ReserveOwnHoldConflicts(holds: Holds, showtimeId: int, seatId: int, socketId: string, now: int)
    requires seatId != 0 && socketId != []
    requires HoldKey(showtimeId, seatId) in holds && holds[HoldKey(showtimeId, seatId)].socketId == socketId
    ensures Reserve(holds, showtimeId, Some(seatId), Some(socketId), true, now) ==
            ReserveOutcome(Response(409, AlreadyReserved(socketId)), holds, [])
  {
  }

  /** Releasing a hold you just placed gives back the registry you started from; nobody
      else can release it. */
  lemma ReserveThenRelease(holds: Holds, showtimeId: int, seatId: int, socketId: string, other: string,
                           now: int, later: int)
    requires seatId != 0 && socketId != [] && other != [] && other != socketId
    requires HoldKey(showtimeId, seatId) !in holds
    ensures var placed := Reserve(holds, showtimeId, Some(seatId), Some(socketId), true, now).holds;
            Reserve(placed, showtimeId, Some(seatId), Some(socketId), false, later).holds == holds &&
            Reserve(placed, showtimeId, Some(seatId), Some(other), false, later).resp.status == 403
  {
    var key := HoldKey(showtimeId, seatId);
    var placed := holds[key := Hold(socketId, now)];
    assert placed - {key} == holds;
  }

  /** A hold placed at `now` survives every sweep up to the timeout after it. */
  lemma FreshHoldSurvivesSweep(holds: Holds, showtimeId: int, seatId: int, socketId: string,
                               now: int, sweep: int)
    requires seatId != 0 && socketId != []
    requires HoldKey(showtimeId, seatId) !in holds
    requires sweep <= now + ReservationTimeout
    ensures HoldKey(showtimeId, seatId) in
              Unexpired(Reserve(holds, showtimeId, Some(seatId), Some(socketId), true, now).holds, sweep)
  {
  }

  // ---------------------------------------------------------------------------
  // getSeatsByShowtime

  /** A seat row with its `temporarilyReserved` flag. */
  datatype SeatView = SeatView(row: SeatRow, temporarilyReserved: bool)

  datatype SeatsReply = SeatsShowtimeNotFound | SeatList(seats: seq<SeatView>)

  function ViewNumber(v: SeatView): int {
    v.row.seat.seatNumber
  }

  /** `seatRows.map(seat => ({ ...seat, temporarilyReserved }))`: every row unchanged,
      flagged exactly when the registry has an entry for it. */
  function Annotate(rows: seq<SeatRow>, holds: Holds, showtimeId: int): (vs: seq<SeatView>)
    ensures |vs| == |rows|
    ensures forall i :: 0 <= i < |rows| ==>
              vs[i].row == rows[i] && (vs[i].temporarilyReserved <==> HoldKey(showtimeId, rows[i].seatId) in holds)
  {
    if rows == [] then []
    else [SeatView(rows[0], HoldKey(showtimeId, rows[0].seatId) in holds)] + Annotate(rows[1..], holds, showtimeId)
  }

  /** The annotated list holds each row as often as the row list does, each with its flag. */
  lemma {:induction false} AnnotateCounts(rows: seq<SeatRow>, holds: Holds, showtimeId: int, v: SeatView)
    ensures multiset(Annotate(rows, holds, showtimeId))[v] ==
            if v.temporarilyReserved == (HoldKey(showtimeId, v.row.seatId) in holds) then multiset(rows)[v.row] else 0
  {
    if rows != [] {
      var first := SeatView(rows[0], HoldKey(showtimeId, rows[0].seatId) in holds);
      AnnotateCounts(rows[1..], holds, showtimeId, v);
      assert multiset(Annotate(rows, holds, showtimeId)) == multiset{first} + multiset(Annotate(rows[1..], holds, showtimeId));
      assert rows == [rows[0]] + rows[1..];
      assert multiset(rows) == multiset{rows[0]} + multiset(rows[1..]);
    }
  }

  // ---------------------------------------------------------------------------
  // bookSeats: the checks

  /** `temporaryReservations[showtimeId]?.[seatId]` exists and was claimed by `socketId`.
      Its age is not looked at. */
  predicate HeldBy(holds: Holds, showtimeId: int, seatId: int, socketId: Option<string>) {
    HoldKey(showtimeId, seatId) in holds && socketId == Some(holds[HoldKey(showtimeId, seatId)].socketId)
  }

  /** `seatIds.filter(...)`: the requested seats not held by the caller, in request order. */
  function InvalidHolds(holds: Holds, showtimeId: int, seatIds: seq<int>, socketId: Option<string>): (r: seq<int>)
    ensures |r| <= |seatIds|
  {
    if seatIds == [] then []
    else
      (if HeldBy(holds, showtimeId, seatIds[0], socketId) then [] else [seatIds[0]]) +
        InvalidHolds(holds, showtimeId, seatIds[1..], socketId)
  }

  /** The filter lists exactly the requested seats the caller does not hold. */
  lemma {:induction false} InvalidHoldsMembers(holds: Holds, showtimeId: int, seatIds: seq<int>,
                                               socketId: Option<string>)
    ensures forall x :: x in InvalidHolds(holds, showtimeId, seatIds, socketId) <==>
              x in seatIds && !HeldBy(holds, showtimeId, x, socketId)
    ensures InvalidHolds(holds, showtimeId, seatIds, socketId) == [] <==>
              forall i :: 0 <= i < |seatIds| ==> HeldBy(holds, showtimeId, seatIds[i], socketId)
  {
    if seatIds != [] {
      InvalidHoldsMembers(holds, showtimeId, seatIds[1..], socketId);
      assert seatIds == [seatIds[0]] + seatIds[1..];
      if forall i :: 0 <= i < |seatIds| ==> HeldBy(holds, showtimeId, seatIds[i], socketId) {
        forall i | 0 <= i < |seatIds[1..]|
          ensures HeldBy(holds, showtimeId, seatIds[1..][i], socketId)
        {
          assert seatIds[1..][i] == seatIds[i + 1];
        }
      }
    }
  }

  /** The filter keeps request order: the invalid seats of two request parts are those of
      the first part followed by those of the second. */
  lemma {:induction false} InvalidHoldsAppend(holds: Holds, showtimeId: int, a: seq<int>, b: seq<int>,
                                              socketId: Option<string>)
    ensures InvalidHolds(holds, showtimeId, a + b, socketId) ==
            InvalidHolds(holds, showtimeId, a, socketId) + InvalidHolds(holds, showtimeId, b, socketId)
  {
    if a == [] {
      assert a + b == b;
    } else {
      var head := if HeldBy(holds, showtimeId, a[0], socketId) then [] else [a[0]];
      assert InvalidHolds(holds, showtimeId, a + b, socketId) ==
             head + InvalidHolds(holds, showtimeId, a[1..] + b, socketId) by {
        assert (a + b)[0] == a[0] && (a + b)[1..] == a[1..] + b;
      }
      InvalidHoldsAppend(holds, showtimeId, a[1..], b, socketId);
    }
  }

  /** The seat exists, belongs to the showtime and is available. */
  predicate Bookable(t: Tables, showtimeId: int, seatId: int) {
    seatId in t.seats && t.seats[seatId].showtimeId == showtimeId && t.seats[seatId].status == Available
  }

  /** The position of the first seat from `from` on that cannot be booked. */
  function FirstProblem(t: Tables, showtimeId: int, seatIds: seq<int>, from: nat): (r: Option<nat>)
    requires from <= |seatIds|
    ensures r.None? <==> forall i :: from <= i < |seatIds| ==> Bookable(t, showtimeId, seatIds[i])
    ensures r.Some? ==> from <= r.value < |seatIds| && !Bookable(t, showtimeId, seatIds[r.value]) &&
                        forall i :: from <= i < r.value ==> Bookable(t, showtimeId, seatIds[i])
    decreases |seatIds| - from
  {
    if from == |seatIds| then None
    else if !Bookable(t, showtimeId, seatIds[from]) then Some(from)
    else FirstProblem(t, showtimeId, seatIds, from + 1)
  }

  datatype BookReply =
    | SeatIdsRequired
    | LoginRequired
    | HoldsInvalid(invalidSeats: seq<int>)
    | BookShowtimeNotFound
    | SeatNotFound(seatId: int)
    | SeatNotAvailable(seatId: int)
    | BookServerError
    | SeatsBookedReply(bookingId: int, seatIds: seq<int>)

  /** The first check `bookSeats` fails, in the order it makes them, or None when every
      check passes. `seatIds` is None when the body's field is missing or not an array. */
  function Rejection(holds: Holds, t: Tables, showtimeId: int, seatIds: Option<seq<int>>,
                     socketId: Option<string>, userId: Option<int>): (r: Option<Response<BookReply>>)
    ensures r.None? <==>
              seatIds.Some? && seatIds.value != [] && TruthyId(userId) &&
              (forall i :: 0 <= i < |seatIds.value| ==> HeldBy(holds, showtimeId, seatIds.value[i], socketId)) &&
              showtimeId in t.showtimes &&
              (forall i :: 0 <= i < |seatIds.value| ==> Bookable(t, showtimeId, seatIds.value[i]))
    ensures r.Some? && r.value.status == 409 && r.value.body.HoldsInvalid? ==>
              seatIds.Some? && r.value.body.invalidSeats == InvalidHolds(holds, showtimeId, seatIds.value, socketId) &&
              r.value.body.invalidSeats != []
    ensures seatIds.None? || seatIds.value == [] ==> r == Some(Response(400, SeatIdsRequired))
    ensures seatIds.Some? && seatIds.value != [] && !TruthyId(userId) ==> r == Some(Response(401, LoginRequired))
    ensures seatIds.Some? && seatIds.value != [] && TruthyId(userId) ==>
              var invalid := InvalidHolds(holds, showtimeId, seatIds.value, socketId);
              (invalid != [] ==> r == Some(Response(409, HoldsInvalid(invalid)))) &&
              (invalid == [] && showtimeId !in t.showtimes ==> r == Some(Response(404, BookShowtimeNotFound))) &&
              (invalid == [] && showtimeId in t.showtimes && FirstProblem(t, showtimeId, seatIds.value, 0).Some? ==>
                 var seatId := seatIds.value[FirstProblem(t, showtimeId, seatIds.value, 0).value];
                 r == Some(if seatId in t.seats && t.seats[seatId].showtimeId == showtimeId
                           then Response(409, SeatNotAvailable(seatId))
                           else Response(404, SeatNotFound(seatId))))
  {
    if seatIds.None? || seatIds.value == [] then Some(Response(400, SeatIdsRequired))
    else if !TruthyId(userId) then Some(Response(401, LoginRequired))
    else
      var ids := seatIds.value;
      var invalid := InvalidHolds(holds, showtimeId, ids, socketId);
      InvalidHoldsMembers(holds, showtimeId, ids, socketId);
      if invalid != [] then
        Some(Response(409, HoldsInvalid(invalid)))
      else if showtimeId !in t.showtimes then Some(Response(404, BookShowtimeNotFound))
      else
        match FirstProblem(t, showtimeId, ids, 0)
        case None => None
        case Some(i) =>
          var seatId := ids[i];
          if seatId in t.seats && t.seats[seatId].showtimeId == showtimeId
          then Some(Response(409, SeatNotAvailable(seatId)))
          else Some(Response(404, SeatNotFound(seatId)))
  }

  /** The checks look at who holds each seat and never at when it was claimed: two
      registries with the same holders reject alike. */
  lemma HoldAgeIgnored(h1: Holds, h2: Holds, t: Tables, showtimeId: int, seatIds: Option<seq<int>>,
                       socketId: Option<string>, userId: Option<int>)
    requires h1.Keys == h2.Keys
    requires forall k :: k in h1 ==> h1[k].socketId == h2[k].socketId
    ensures Rejection(h1, t, showtimeId, seatIds, socketId, userId) ==
            Rejection(h2, t, showtimeId, seatIds, socketId, userId)
  {
    if seatIds.Some? {
      InvalidHoldsAlike(h1, h2, showtimeId, seatIds.value, socketId);
    }
  }

  lemma {:induction false} InvalidHoldsAlike(h1: Holds, h2: Holds, showtimeId: int, seatIds: seq<int>,
                                             socketId: Option<string>)
    requires h1.Keys == h2.Keys
    requires forall k :: k in h1 ==> h1[k].socketId == h2[k].socketId
    ensures InvalidHolds(h1, showtimeId, seatIds, socketId) == InvalidHolds(h2, showtimeId, seatIds, socketId)
    decreases |seatIds|
  {
    if seatIds != [] {
      InvalidHoldsAlike(h1, h2, showtimeId, seatIds[1..], socketId);
    }
  }

  /** The seat checks come after the hold checks: a request for a seat nobody holds for
      the caller is answered 409 with that seat listed, whatever the seat table says. */
  lemma UnheldSeatListed(holds: Holds, t: Tables, showtimeId: int, seatIds: seq<int>,
                         socketId: Option<string>, userId: int, i: nat)
    requires userId != 0 && i < |seatIds|
    requires !HeldBy(holds, showtimeId, seatIds[i], socketId)
    ensures var r := Rejection(holds, t, showtimeId, Some(seatIds), socketId, Some(userId));
            r.Some? && r.value.status == 409 && r.value.body.HoldsInvalid? && seatIds[i] in r.value.body.invalidSeats
  {
    InvalidHoldsMembers(holds, showtimeId, seatIds, socketId);
    assert seatIds[i] in seatIds;
  }

  // ---------------------------------------------------------------------------
  // bookSeats: the write

  /** Where the transaction fails: the insert of the booking, the update of the seat at
      a position of the request (no failure when there is no such position), or the
      commit. */
  datatype BookFault = NoFault | InsertFails | UpdateFails(at: nat) | CommitFails

  predicate Fails(fault: BookFault, n: nat) {
    fault.InsertFails? || fault.CommitFails? || (fault.UpdateFails? && fault.at < n)
  }

  /** How many seats' holds were deleted before the failure. */
  function DeletedBefore(fault: BookFault, n: nat): nat {
    match fault
    case InsertFails => 0
    case UpdateFails(at) => if at < n then at else n
    case _ => n
  }

  /** The registry without the holds on the listed seats of the showtime. */
  function ReleaseHolds(holds: Holds, showtimeId: int, seatIds: seq<int>): Holds {
    map k | k in holds && !(k.showtimeId == showtimeId && k.seatId in seatIds) :: holds[k]
  }

  /** `UPDATE seats SET availabilitystatus = 'booked', bookingid = $1` on each listed seat. */
  function MarkBooked(seats: map<int, Seat>, seatIds: seq<int>, bookingId: int): map<int, Seat> {
    map k | k in seats :: if k in seatIds then seats[k].(status := Booked, bookingId := Some(bookingId)) else seats[k]
  }

  /** The tables after a committed booking: one new confirmed booking under the next id,
      and the listed seats booked under it. */
  function BookedTables(t: Tables, userId: int, showtimeId: int, bookingDate: int, seatIds: seq<int>): Tables {
    var id := t.nextBookingId;
    t.(bookings := t.bookings[id := Booking(userId, showtimeId, bookingDate, Confirmed)],
       seats := MarkBooked(t.seats, seatIds, id),
       nextBookingId := id + 1)
  }

  /** A committed booking adds exactly one confirmed booking, for the user and showtime;
      every listed seat is booked under it and every other seat is unchanged; and tables
      that were valid and consistent stay so when every check passed. */
  lemma BookedTablesMeaning(t: Tables, userId: int, showtimeId: int, bookingDate: int, seatIds: seq<int>)
    requires t.Valid() && t.Consistent()
    requires showtimeId in t.showtimes
    requires forall i :: 0 <= i < |seatIds| ==> Bookable(t, showtimeId, seatIds[i])
    ensures var b := BookedTables(t, userId, showtimeId, bookingDate, seatIds);
            b.Valid() && b.Consistent() &&
            t.nextBookingId !in t.bookings &&
            b.bookings == t.bookings[t.nextBookingId := Booking(userId, showtimeId, bookingDate, Confirmed)] &&
            b.seats.Keys == t.seats.Keys &&
            (forall k :: k in seatIds ==> k in b.seats && b.seats[k] == t.seats[k].(status := Booked, bookingId := Some(t.nextBookingId))) &&
            (forall k :: k in t.seats && k !in seatIds ==> b.seats[k] == t.seats[k])
  {
    var b := BookedTables(t, userId, showtimeId, bookingDate, seatIds);
    forall k | k in seatIds
      ensures k in t.seats && t.seats[k].showtimeId == showtimeId
    {
      var i :| 0 <= i < |seatIds| && seatIds[i] == k;
      assert Bookable(t, showtimeId, seatIds[i]);
    }
  }

  // ---------------------------------------------------------------------------
  // cancelBooking

  datatype CancelReply =
    | CancelLoginRequired
    | BookingNotFound
    | ShowtimeStarted
    | CancelServerError
    | BookingCancelledReply(bookingId: int, releasedSeats: seq<int>)

  /** `SELECT * FROM bookings WHERE bookingid = $1 AND userid = $2` finds a row. */
  predicate OwnBooking(t: Tables, bookingId: int, userId: int) {
    bookingId in t.bookings && t.bookings[bookingId].userId == userId
  }

  /** The booking's showtime row exists and has started by `now`. Without the row the
      check is skipped. */
  predicate Started(t: Tables, bookingId: int, now: int)
    requires bookingId in t.bookings
  {
    var sid := t.bookings[bookingId].showtimeId;
    sid in t.showtimes && now >= t.showtimes[sid].start
  }

  /** `UPDATE seats SET availabilitystatus = 'available', bookingid = NULL WHERE bookingid = $1`. */
  function ReleaseBooking(seats: map<int, Seat>, bookingId: int): map<int, Seat> {
    map k | k in seats :: if seats[k].bookingId == Some(bookingId) then seats[k].(status := Available, bookingId := None) else seats[k]
  }

  /** The tables after a committed cancellation. */
  function CancelledTables(t: Tables, bookingId: int): Tables
    requires bookingId in t.bookings
  {
    t.(seats := ReleaseBooking(t.seats, bookingId),
       bookings := t.bookings[bookingId := t.bookings[bookingId].(status := Cancelled)])
  }

  /** After a cancellation no seat carries the booking any more, so cancelling again
      releases nothing and leaves the tables as they are; valid and consistent tables
      stay so. */
  lemma CancelledTablesMeaning(t: Tables, bookingId: int)
    requires bookingId in t.bookings
    ensures var c := CancelledTables(t, bookingId);
            (forall k :: k in c.seats ==> c.seats[k].bookingId != Some(bookingId)) &&
            CancelledTables(c, bookingId) == c &&
            c.bookings[bookingId].status == Cancelled
    ensures t.Valid() && t.Consistent() ==> CancelledTables(t, bookingId).Valid() && CancelledTables(t, bookingId).Consistent()
  {
    var c := CancelledTables(t, bookingId);
    assert ReleaseBooking(c.seats, bookingId) == c.seats;
    assert c.bookings[bookingId := c.bookings[bookingId].(status := Cancelled)] == c.bookings;
  }

  /** Cancelling a booking just made gives every seat back as it was; only the cancelled
      booking row remains. */
  lemma BookThenCancel(t: Tables, userId: int, showtimeId: int, bookingDate: int, seatIds: seq<int>)
    requires t.Valid() && t.Consistent()
    requires showtimeId in t.showtimes
    requires forall i :: 0 <= i < |seatIds| ==> Bookable(t, showtimeId, seatIds[i])
    ensures var b := BookedTables(t, userId, showtimeId, bookingDate, seatIds);
            var c := CancelledTables(b, t.nextBookingId);
            c.seats == t.seats &&
            c.bookings == t.bookings[t.nextBookingId := Booking(userId, showtimeId, bookingDate, Cancelled)]
  {
    var id := t.nextBookingId;
    var b := BookedTables(t, userId, showtimeId, bookingDate, seatIds);
    var c := CancelledTables(b, id);
    forall k | k in t.seats
      ensures c.seats[k] == t.seats[k]
    {
      if k in seatIds {
        var i :| 0 <= i < |seatIds| && seatIds[i] == k;
        assert Bookable(t, showtimeId, seatIds[i]);
      } else {
        assert t.seats[k].bookingId != Some(id);
      }
    }
    assert c.seats == t.seats;
  }

  // ---------------------------------------------------------------------------
  // the seat-number parse of getUserBookings

  /** `parseInt` of each piece. */
  function ParseAll(pieces: seq<string>): (r: seq<Option<int>>)
    ensures |r| == |pieces|
    ensures forall i :: 0 <= i < |r| ==> r[i] == ParseInt(pieces[i])
  {
    if pieces == [] then [] else [ParseInt(pieces[0])] + ParseAll(pieces[1..])
  }

  /** `seat_numbers ? seat_numbers.split(',').map(n => parseInt(n)) : []`, where None is NULL. */
  function SeatNumbers(aggregated: Option<string>): seq<Option<int>> {
    if TruthyStr(aggregated) then ParseAll(Split(aggregated.value, ',')) else []
  }

  /** The decimal text of each number, as `seatnumber::text` writes it. */
  function Decimals(nums: seq<int>): (r: seq<string>)
    ensures |r| == |nums|
    ensures forall i :: 0 <= i < |r| ==> r[i] == IntToDecimal(nums[i])
  {
    if nums == [] then [] else [IntToDecimal(nums[0])] + Decimals(nums[1..])
  }

  /** The decimal text of an integer holds no comma. */
  lemma NoCommaInDecimal(i: int)
    ensures ',' !in IntToDecimal(i) && IntToDecimal(i) != []
  {
    var m: nat := if i < 0 then -i else i;
    var digits := NatToDecimal(m);
    assert forall j :: 0 <= j < |digits| ==> digits[j] != ',';
    if i < 0 {
      assert IntToDecimal(i) == "-" + digits;
    }
  }

  /** The seat numbers of a booking, aggregated as comma-separated text, are read back
      exactly; a booking without seats aggregates to NULL and reads back as no numbers. */
  lemma SeatNumbersRoundTrip(nums: seq<int>)
    ensures |nums| >= 1 ==> SeatNumbers(Some(Join(Decimals(nums), ','))) == seq(|nums|, i requires 0 <= i < |nums| => Some(nums[i]))
    ensures SeatNumbers(None) == []
  {
    if |nums| >= 1 {
      var texts := Decimals(nums);
      forall i | 0 <= i < |texts|
        ensures ',' !in texts[i]
      {
        NoCommaInDecimal(nums[i]);
      }
      SplitJoin(texts, ',');
      NoCommaInDecimal(nums[0]);
      JoinNonEmpty(texts, ',');
      forall i | 0 <= i < |nums|
        ensures ParseInt(texts[i]) == Some(nums[i])
      {
        ParseIntDecimal(nums[i]);
      }
    }
  }

  /** A join whose first piece is not empty is not empty. */
  lemma JoinNonEmpty(pieces: seq<string>, sep: char)
    requires |pieces| >= 1 && pieces[0] != []
    ensures Join(pieces, sep) != []
  {
  }

  // ---------------------------------------------------------------------------
  // the controller

  /** The seat controller's state: the module-level hold registry, the database, and
      the socket.io emits so far. */
  class SeatsController {
    /** `temporaryReservations`, one key per (showtime, seat). The empty inner
        dictionaries it leaves behind are not observable and are not represented. */
    var holds: Holds
    var db: Tables
    /** Every emit so far, oldest first. */
    var events: seq<Event>

    constructor(db: Tables)
      ensures holds == map[] && this.db == db && events == []
    {
      holds := map[];
      this.db := db;
      events := [];
    }

    /** One run of the `setInterval` callback at time `now`: every hold older than the
        timeout is deleted and announced in the showtime's room, once. `expired` lists
        the evicted keys in the order they were visited. */
    method Sweep(now: int) returns (expired: seq<HoldKey>)
      modifies this
      ensures holds == Unexpired(old(holds), now)
      ensures forall k :: multiset(expired)[k] == if k in old(holds) && Expired(old(holds)[k], now) then 1 else 0
      ensures forall i :: 0 <= i < |expired| ==> expired[i] in old(holds)
      ensures events == old(events) + ExpiryEvents(expired, old(holds))
      ensures db == old(db)
    {
      var h0 := holds;
      var kept;
      kept, expired := SweepHolds(h0, now);
      holds := kept;
      events := events + ExpiryEvents(expired, h0);
    }

    /** `reserveSeat` at time `now`. */
    method ReserveSeat(showtimeId: int, seatId: Option<int>, socketId: Option<string>, isReserving: bool, now: int)
      returns (resp: Response<ReserveReply>)
      modifies this
      ensures var r := Reserve(old(holds), showtimeId, seatId, socketId, isReserving, now);
              resp == r.resp && holds == r.holds && events == old(events) + r.emitted
      ensures db == old(db)
    {
      var r := Reserve(holds, showtimeId, seatId, socketId, isReserving, now);
      holds := r.holds;
      events := events + r.emitted;
      resp := r.resp;
    }

    /** `getSeatsByShowtime`: the showtime's seats by seat number, each with its held
        flag. It changes nothing. */
    method GetSeatsByShowtime(showtimeId: int) returns (resp: Response<SeatsReply>)
      ensures showtimeId !in db.showtimes ==> resp == Response(404, SeatsShowtimeNotFound)
      ensures showtimeId in db.showtimes ==>
                resp.status == 200 && resp.body.SeatList? && SortedBy(resp.body.seats, ViewNumber) &&
                forall v :: multiset(resp.body.seats)[v] ==
                  if IsRowOf(db.seats, v.row) && v.row.seat.showtimeId == showtimeId &&
                     v.temporarilyReserved == (HoldKey(showtimeId, v.row.seatId) in holds)
                  then 1 else 0
    {
      if showtimeId !in db.showtimes {
        return Response(404, SeatsShowtimeNotFound);
      }
      var rows := SeatsOfShowtime(db.seats, showtimeId);
      var views := Annotate(rows, holds, showtimeId);
      forall v: SeatView
        ensures multiset(views)[v] ==
                  if IsRowOf(db.seats, v.row) && v.row.seat.showtimeId == showtimeId &&
                     v.temporarilyReserved == (HoldKey(showtimeId, v.row.seatId) in holds)
                  then 1 else 0
      {
        AnnotateCounts(rows, holds, showtimeId, v);
      }
      resp := Response(200, SeatList(views));
    }

    /** `bookSeats`: the checks in order, then the transaction. A failing transaction
        rolls the tables back, but the holds deleted before the failure stay deleted. */
    method BookSeats(showtimeId: int, seatIds: Option<seq<int>>, socketId: Option<string>,
                     userId: Option<int>, bookingDate: int, fault: BookFault)
      returns (resp: Response<BookReply>)
      modifies this
      ensures var rejection := Rejection(old(holds), old(db), showtimeId, seatIds, socketId, userId);
              rejection.Some? ==> resp == rejection.value && holds == old(holds) && db == old(db) && events == old(events)
      ensures Rejection(old(holds), old(db), showtimeId, seatIds, socketId, userId).None? && !Fails(fault, |seatIds.value|) ==>
                resp == Response(201, SeatsBookedReply(old(db).nextBookingId, seatIds.value)) &&
                db == BookedTables(old(db), userId.value, showtimeId, bookingDate, seatIds.value) &&
                holds == ReleaseHolds(old(holds), showtimeId, seatIds.value) &&
                events == old(events) + [Event(showtimeId, SeatsBooked(seatIds.value, old(db).nextBookingId, socketId))]
      ensures Rejection(old(holds), old(db), showtimeId, seatIds, socketId, userId).None? && Fails(fault, |seatIds.value|) ==>
                resp == Response(500, BookServerError) && db == old(db) && events == old(events) &&
                holds == ReleaseHolds(old(holds), showtimeId, seatIds.value[..DeletedBefore(fault, |seatIds.value|)])
    {
      if seatIds.None? || seatIds.value == [] {
        return Response(400, SeatIdsRequired);
      }
      if !TruthyId(userId) {
        return Response(401, LoginRequired);
      }
      var ids := seatIds.value;
      var invalid := InvalidHolds(holds, showtimeId, ids, socketId);
      if invalid != [] {
        return Response(409, HoldsInvalid(invalid));
      }
      if showtimeId !in db.showtimes {
        return Response(404, BookShowtimeNotFound);
      }
      for i := 0 to |ids|
        invariant forall j :: 0 <= j < i ==> Bookable(db, showtimeId, ids[j])
      {
        var seatId := ids[i];
        if !(seatId in db.seats && db.seats[seatId].showtimeId == showtimeId) {
          return Response(404, SeatNotFound(seatId));
        }
        if db.seats[seatId].status != Available {
          return Response(409, SeatNotAvailable(seatId));
        }
      }
      resp := WriteBooking(showtimeId, ids, socketId, userId.value, bookingDate, fault);
    }

    /** The transaction of `bookSeats`, once every check has passed. */
    method WriteBooking(showtimeId: int, ids: seq<int>, socketId: Option<string>, userId: int,
                        bookingDate: int, fault: BookFault)
      returns (resp: Response<BookReply>)
      requires forall j :: 0 <= j < |ids| ==> Bookable(db, showtimeId, ids[j])
      modifies this
      ensures !Fails(fault, |ids|) ==>
                resp == Response(201, SeatsBookedReply(old(db).nextBookingId, ids)) &&
                db == BookedTables(old(db), userId, showtimeId, bookingDate, ids) &&
                holds == ReleaseHolds(old(holds), showtimeId, ids) &&
                events == old(events) + [Event(showtimeId, SeatsBooked(ids, old(db).nextBookingId, socketId))]
      ensures Fails(fault, |ids|) ==>
                resp == Response(500, BookServerError) && db == old(db) && events == old(events) &&
                holds == ReleaseHolds(old(holds), showtimeId, ids[..DeletedBefore(fault, |ids|)])
    {
      var saved := db;
      assert ReleaseHolds(holds, showtimeId, ids[..0]) == holds;
      if fault.InsertFails? {
        return Response(500, BookServerError);
      }
      var id := db.nextBookingId;
      db := db.(bookings := db.bookings[id := Booking(userId, showtimeId, bookingDate, Confirmed)],
                nextBookingId := id + 1);
      for i := 0 to |ids|
        invariant db == saved.(bookings := saved.bookings[id := Booking(userId, showtimeId, bookingDate, Confirmed)],
                               seats := MarkBooked(saved.seats, ids[..i], id),
                               nextBookingId := id + 1)
        invariant holds == ReleaseHolds(old(holds), showtimeId, ids[..i])
        invariant events == old(events)
        invariant !(fault.UpdateFails? && fault.at < i)
      {
        if fault == UpdateFails(i) {
          assert DeletedBefore(fault, |ids|) == i;
          db := saved;
          return Response(500, BookServerError);
        }
        var seatId := ids[i];
        assert Bookable(saved, showtimeId, ids[i]);
        MarkBookedStep(saved.seats, ids, i, id);
        db := db.(seats := db.seats[seatId := db.seats[seatId].(status := Booked, bookingId := Some(id))]);
        ReleaseHoldsStep(old(holds), showtimeId, ids, i);
        if HoldKey(showtimeId, seatId) in holds {
          holds := holds - {HoldKey(showtimeId, seatId)};
        }
      }
      assert ids[..|ids|] == ids;
      if fault.CommitFails? {
        assert DeletedBefore(fault, |ids|) == |ids|;
        db := saved;
        return Response(500, BookServerError);
      }
      events := events + [Event(showtimeId, SeatsBooked(ids, id, socketId))];
      resp := Response(201, SeatsBookedReply(id, ids));
    }

    /** `cancelBooking` at time `now`; `fault` is a failure inside the transaction. */
    method CancelBooking(bookingId: int, userId: Option<int>, now: int, fault: bool)
      returns (resp: Response<CancelReply>)
      modifies this
      ensures holds == old(holds)
      ensures !TruthyId(userId) ==>
                resp == Response(401, CancelLoginRequired) && db == old(db) && events == old(events)
      ensures TruthyId(userId) && !OwnBooking(old(db), bookingId, userId.value) ==>
                resp == Response(404, BookingNotFound) && db == old(db) && events == old(events)
      ensures TruthyId(userId) && OwnBooking(old(db), bookingId, userId.value) && Started(old(db), bookingId, now) ==>
                resp == Response(400, ShowtimeStarted) && db == old(db) && events == old(events)
      ensures TruthyId(userId) && OwnBooking(old(db), bookingId, userId.value) && !Started(old(db), bookingId, now) && fault ==>
                resp == Response(500, CancelServerError) && db == old(db) && events == old(events)
      ensures TruthyId(userId) && OwnBooking(old(db), bookingId, userId.value) && !Started(old(db), bookingId, now) && !fault ==>
                resp.status == 200 && resp.body.BookingCancelledReply? && resp.body.bookingId == bookingId &&
                (forall k :: multiset(resp.body.releasedSeats)[k] ==
                   if k in old(db).seats && old(db).seats[k].bookingId == Some(bookingId) then 1 else 0) &&
                db == CancelledTables(old(db), bookingId) &&
                events == old(events) + [Event(old(db).bookings[bookingId].showtimeId,
                                               BookingCancelled(resp.body.releasedSeats, bookingId))]
    {
      if !TruthyId(userId) {
        return Response(401, CancelLoginRequired);
      }
      if !OwnBooking(db, bookingId, userId.value) {
        return Response(404, BookingNotFound);
      }
      var showtimeId := db.bookings[bookingId].showtimeId;
      if showtimeId in db.showtimes && now >= db.showtimes[showtimeId].start {
        return Response(400, ShowtimeStarted);
      }
      if fault {
        return Response(500, CancelServerError);
      }
      var released := SelectSeatIds(db.seats, (s: Seat) => s.bookingId == Some(bookingId));
      db := CancelledTables(db, bookingId);
      events := events + [Event(showtimeId, BookingCancelled(released, bookingId))];
      resp := Response(200, BookingCancelledReply(bookingId, released));
    }
  }

  /** Marking one more requested seat. */
  lemma MarkBookedStep(seats: map<int, Seat>, ids: seq<int>, i: nat, id: int)
    requires i < |ids| && ids[i] in seats
    ensures MarkBooked(seats, ids[..i + 1], id) ==
            MarkBooked(seats, ids[..i], id)[ids[i] := seats[ids[i]].(status := Booked, bookingId := Some(id))]
  {
    assert ids[..i + 1] == ids[..i] + [ids[i]];
  }

  /** Deleting the hold on one more requested seat. */
  lemma ReleaseHoldsStep(holds: Holds, showtimeId: int, ids: seq<int>, i: nat)
    requires i < |ids|
    ensures ReleaseHolds(holds, showtimeId, ids[..i + 1]) ==
            ReleaseHolds(holds, showtimeId, ids[..i]) - {HoldKey(showtimeId, ids[i])}
  {
    assert ids[..i + 1] == ids[..i] + [ids[i]];
  }
}
