/** The showtime handlers: adding a showtime with its numbered seats, moving a showtime,
    deleting one, the overlap test both of the first two use, and the folding of the
    joined showtime/seat rows into one record per showtime. */
module Showtimes {
  import opened JsValues
  import opened Store
  import opened Sorting

  const MillisPerMinute: int := 60000

  /** The end of a showing that starts at `start` and runs `duration` minutes. */
  function EndTime(start: int, duration: int): int {
    start + duration * MillisPerMinute
  }

  /** The result kinds of the showtime handlers. */
  datatype Reply =
    | FieldsRequired
    | MovieNotFound
    | ShowtimeNotFound
    | TimeslotConflict
    | HasBookings
    | ServerError
    | ShowtimeAdded(showtimeId: int)
    | ShowtimeUpdated
    | ShowtimeDeleted

  /** A handler's response together with the tables after it. */
  datatype Outcome = Outcome(resp: Response<Reply>, tables: Tables)

  // ---------------------------------------------------------------------------
  // the overlap test

  /** The WHERE clause of the conflict query for a new slot [start, end) against an
      existing showtime, as written: its first two disjuncts are the same test, and the
      third catches a showtime that starts inside the slot. */
  predicate Conflicts(s: Showtime, start: int, end: int) {
    (s.start < end && s.end > start) ||
    (s.start < end && s.end > start) ||
    (s.start >= start && s.start < end)
  }

  /** Instant `i` lies within the showtime. */
  predicate During(s: Showtime, i: int) {
    s.start <= i < s.end
  }

  /** For two non-empty intervals the test is exactly "they share an instant". */
  lemma ConflictMeansSharedInstant(s: Showtime, start: int, end: int)
    requires s.start < s.end && start < end
    ensures Conflicts(s, start, end) <==>
            exists i :: During(s, i) && During(Showtime(s.movieId, start, end), i)
  {
    if Conflicts(s, start, end) {
      var i := if s.start < start then start else s.start;
      assert During(s, i) && During(Showtime(s.movieId, start, end), i);
    }
  }

  /** Back-to-back slots do not conflict: one that ends when the other starts. */
  lemma BackToBackAccepted(s: Showtime, start: int, end: int)
    requires s.start < s.end && start < end
    requires s.end == start || s.start == end
    ensures !Conflicts(s, start, end)
  {
  }

  /** The conflict query of `addShowtime`: it joins `movies`, so a showtime whose film row
      is gone is not counted. */
  predicate AddConflict(t: Tables, start: int, end: int) {
    exists k :: k in t.showtimes && t.showtimes[k].movieId in t.movies &&
                Conflicts(t.showtimes[k], start, end)
  }

  /** The conflict query of `updateShowtime`: every showtime but the one being moved. */
  predicate UpdateConflict(t: Tables, id: int, start: int, end: int) {
    exists k :: k in t.showtimes && k != id && Conflicts(t.showtimes[k], start, end)
  }

  // ---------------------------------------------------------------------------
  // addShowtime

  /** How many seats the loop `for (i = 1; i <= totalSeats; i++)` inserts. */
  function SeatCount(totalSeats: int): (n: nat)
    ensures totalSeats >= 0 ==> n == totalSeats
    ensures totalSeats < 0 ==> n == 0
  {
    if totalSeats < 0 then 0 else totalSeats
  }

  /** Seat id `k` is among the `n` ids handed out from `first` on. */
  predicate InBlock(k: int, first: int, n: nat) {
    first <= k < first + n
  }

  /** The `n` seats inserted for a new showtime, taking the seat ids `first`, `first + 1`, ...
      as the sequence hands them out: seat id `first + i - 1` is seat number `i`, available
      and unbooked. */
  function NewSeats(showtimeId: int, first: int, n: nat): (m: map<int, Seat>)
    ensures forall k :: k in m <==> InBlock(k, first, n)
    ensures forall k :: k in m ==> m[k] == Seat(showtimeId, k - first + 1, Available, None)
  {
    map k | first <= k < first + n && InBlock(k, first, n) :: Seat(showtimeId, k - first + 1, Available, None)
  }

  /** The new seats are numbered exactly 1 to `n`: every number in that range belongs to
      one seat, no other number occurs, and no two seats share a number. */
  lemma NewSeatNumbers(showtimeId: int, first: int, n: nat, num: int)
    ensures (exists k :: k in NewSeats(showtimeId, first, n) &&
                         NewSeats(showtimeId, first, n)[k].seatNumber == num) <==> 1 <= num <= n
    ensures forall k, k' :: (k in NewSeats(showtimeId, first, n) && k' in NewSeats(showtimeId, first, n) &&
                             NewSeats(showtimeId, first, n)[k].seatNumber ==
                             NewSeats(showtimeId, first, n)[k'].seatNumber) ==> k == k'
  {
    var m := NewSeats(showtimeId, first, n);
    if 1 <= num <= n {
      assert first + num - 1 in m;
    }
  }

  lemma NewSeatsStep(showtimeId: int, first: int, n: nat)
    ensures NewSeats(showtimeId, first, n + 1) ==
            NewSeats(showtimeId, first, n)[first + n := Seat(showtimeId, n + 1, Available, None)]
  {
  }

  /** The request names a truthy `movieId` and `totalSeats` (present and not 0) and has a
      `startTime`. */
  predicate AddRequestComplete(movieId: Option<int>, startTime: Option<int>, totalSeats: Option<int>) {
    TruthyId(movieId) && startTime.Some? && TruthyId(totalSeats)
  }

  /** The tables after a successful add: the showtime under the sequence's next id, and
      its `n` seats. */
  function AddedTables(t: Tables, movieId: int, start: int, end: int, n: nat): Tables {
    t.(showtimes := t.showtimes[t.nextShowtimeId := Showtime(movieId, start, end)],
       seats := t.seats + NewSeats(t.nextShowtimeId, t.nextSeatId, n),
       nextShowtimeId := t.nextShowtimeId + 1,
       nextSeatId := t.nextSeatId + n)
  }

  /** `addShowtime`. The request fields are optional values. `fault` says whether a write
      of the transaction fails, after which it is rolled back. The checks come in order:
      400 for an incomplete request, 404 for an unknown film, 409 for a conflicting slot;
      only then is anything written. */
  method AddShowtime(t: Tables, movieId: Option<int>, startTime: Option<int>,
                     totalSeats: Option<int>, fault: bool) returns (r: Outcome)
    ensures !AddRequestComplete(movieId, startTime, totalSeats) ==>
              r == Outcome(Response(400, FieldsRequired), t)
    ensures AddRequestComplete(movieId, startTime, totalSeats) && movieId.value !in t.movies ==>
              r == Outcome(Response(404, MovieNotFound), t)
    ensures AddRequestComplete(movieId, startTime, totalSeats) && movieId.value in t.movies ==>
              var end := EndTime(startTime.value, t.movies[movieId.value].duration);
              (AddConflict(t, startTime.value, end) ==> r == Outcome(Response(409, TimeslotConflict), t)) &&
              (!AddConflict(t, startTime.value, end) && fault ==> r == Outcome(Response(500, ServerError), t)) &&
              (!AddConflict(t, startTime.value, end) && !fault ==>
                 r == Outcome(Response(201, ShowtimeAdded(t.nextShowtimeId)),
                              AddedTables(t, movieId.value, startTime.value, end, SeatCount(totalSeats.value))))
  {
    if !AddRequestComplete(movieId, startTime, totalSeats) {
      return Outcome(Response(400, FieldsRequired), t);
    }
    var mid := movieId.value;
    if mid !in t.movies {
      return Outcome(Response(404, MovieNotFound), t);
    }
    var start := startTime.value;
    var end := EndTime(start, t.movies[mid].duration);
    if AddConflict(t, start, end) {
      return Outcome(Response(409, TimeslotConflict), t);
    }
    if fault {
      return Outcome(Response(500, ServerError), t);
    }
    var sid := t.nextShowtimeId;
    var seats := InsertSeats(t.seats, sid, t.nextSeatId, totalSeats.value);
    r := Outcome(Response(201, ShowtimeAdded(sid)),
                 t.(showtimes := t.showtimes[sid := Showtime(mid, start, end)],
                    seats := seats,
                    nextShowtimeId := sid + 1,
                    nextSeatId := t.nextSeatId + SeatCount(totalSeats.value)));
  }

  /** The seat loop of `addShowtime`: seat `i`, for `i` from 1 while `i <= totalSeats`,
      gets the next seat id. */
  method InsertSeats(seats: map<int, Seat>, showtimeId: int, first: int, totalSeats: int)
    returns (seats': map<int, Seat>)
    ensures seats' == seats + NewSeats(showtimeId, first, SeatCount(totalSeats))
  {
    seats' := seats;
    var i := 1;
    while i <= totalSeats
      invariant 1 <= i <= SeatCount(totalSeats) + 1
      invariant seats' == seats + NewSeats(showtimeId, first, i - 1)
    {
      NewSeatsStep(showtimeId, first, i - 1);
      seats' := seats'[first + i - 1 := Seat(showtimeId, i, Available, None)];
      i := i + 1;
    }
  }

  /** A successful add keeps the tables valid and consistent, and the seats of the new
      showtime are exactly the seats it inserted. */
  lemma AddedShowtimeSeats(t: Tables, movieId: int, start: int, end: int, n: nat)
    requires t.Valid() && t.Consistent()
    ensures AddedTables(t, movieId, start, end, n).Valid()
    ensures AddedTables(t, movieId, start, end, n).Consistent()
    ensures var t' := AddedTables(t, movieId, start, end, n);
            forall k :: k in t'.seats && t'.seats[k].showtimeId == t.nextShowtimeId <==>
                        k in NewSeats(t.nextShowtimeId, t.nextSeatId, n)
  {
    var added := NewSeats(t.nextShowtimeId, t.nextSeatId, n);
    var t' := AddedTables(t, movieId, start, end, n);
    forall k | k in t'.seats && t'.seats[k].bookingId.Some?
      ensures k !in added && k in t.seats
    {
    }
  }

  // ---------------------------------------------------------------------------
  // updateShowtime

  /** `updateShowtime` for the showtime `id`: it needs a truthy `movieId` and a
      `startTime`, an existing showtime and film, and a slot that meets no other
      showtime; then it rewrites the film and both instants and nothing else. */
  function UpdateShowtime(t: Tables, id: int, movieId: Option<int>, startTime: Option<int>,
                          fault: bool): (r: Outcome)
    ensures r.resp.status == 400 <==> !(TruthyId(movieId) && startTime.Some?)
    ensures r.resp.status == 404 <==> TruthyId(movieId) && startTime.Some? &&
                                      (id !in t.showtimes || movieId.value !in t.movies)
    ensures r.resp.status == 404 && id !in t.showtimes ==> r.resp.body == ShowtimeNotFound
    ensures r.resp.status == 409 <==> TruthyId(movieId) && startTime.Some? &&
                                      id in t.showtimes && movieId.value in t.movies &&
                                      UpdateConflict(t, id, startTime.value,
                                                     EndTime(startTime.value, t.movies[movieId.value].duration))
    ensures r.resp.status != 200 ==> r.tables == t
    ensures r.resp.status == 200 <==> r.resp.status !in {400, 404, 409} && !fault
    ensures r.resp.status == 200 ==>
              r.tables == t.(showtimes := t.showtimes[id := Showtime(movieId.value, startTime.value,
                                                      EndTime(startTime.value, t.movies[movieId.value].duration))])
    ensures r.resp.status in {200, 400, 404, 409, 500}
  {
    if !(TruthyId(movieId) && startTime.Some?) then Outcome(Response(400, FieldsRequired), t)
    else if id !in t.showtimes then Outcome(Response(404, ShowtimeNotFound), t)
    else if movieId.value !in t.movies then Outcome(Response(404, MovieNotFound), t)
    else
      var start := startTime.value;
      var end := EndTime(start, t.movies[movieId.value].duration);
      if UpdateConflict(t, id, start, end) then Outcome(Response(409, TimeslotConflict), t)
      else if fault then Outcome(Response(500, ServerError), t)
      else Outcome(Response(200, ShowtimeUpdated),
                   t.(showtimes := t.showtimes[id := Showtime(movieId.value, start, end)]))
  }

  /** Moving a showtime never conflicts with its own old slot: when no other showtime
      meets the new slot, the move succeeds. */
  lemma UpdateIgnoresItself(t: Tables, id: int, movieId: int, start: int)
    requires id in t.showtimes && movieId != 0 && movieId in t.movies
    requires forall k :: k in t.showtimes && k != id ==>
               !Conflicts(t.showtimes[k], start, EndTime(start, t.movies[movieId].duration))
    ensures UpdateShowtime(t, id, Some(movieId), Some(start), false).resp.status == 200
  {
  }

  /** A successful move keeps the tables valid and consistent. */
  lemma UpdateKeepsTables(t: Tables, id: int, movieId: Option<int>, startTime: Option<int>)
    requires t.Valid() && t.Consistent()
    ensures UpdateShowtime(t, id, movieId, startTime, false).tables.Valid()
    ensures UpdateShowtime(t, id, movieId, startTime, false).tables.Consistent()
  {
  }

  // ---------------------------------------------------------------------------
  // deleteShowtime

  /** Some booking, of any status, is for the showtime. */
  predicate Booked(t: Tables, id: int) {
    exists b :: b in t.bookings && t.bookings[b].showtimeId == id
  }

  /** `deleteShowtime`: refused for an unknown showtime and for one that any booking
      refers to; otherwise the showtime and its seats go, and nothing else changes. */
  function DeleteShowtime(t: Tables, id: int, fault: bool): (r: Outcome)
    ensures r.resp.status == 404 <==> id !in t.showtimes
    ensures r.resp.status == 400 <==> id in t.showtimes && Booked(t, id)
    ensures r.resp.status != 200 ==> r.tables == t
    ensures r.resp.status == 200 <==> id in t.showtimes && !Booked(t, id) && !fault
    ensures r.resp.status == 200 ==>
              r.tables.showtimes == t.showtimes - {id} &&
              (forall k :: k in r.tables.seats <==> k in t.seats && t.seats[k].showtimeId != id) &&
              (forall k :: k in r.tables.seats ==> r.tables.seats[k] == t.seats[k]) &&
              r.tables.movies == t.movies && r.tables.bookings == t.bookings
    ensures r.resp.status in {200, 400, 404, 500}
  {
    if id !in t.showtimes then Outcome(Response(404, ShowtimeNotFound), t)
    else if Booked(t, id) then Outcome(Response(400, HasBookings), t)
    else if fault then Outcome(Response(500, ServerError), t)
    else
      Outcome(Response(200, ShowtimeDeleted),
              t.(showtimes := t.showtimes - {id},
                 seats := map k | k in t.seats && t.seats[k].showtimeId != id :: t.seats[k]))
  }

  /** A cancelled booking still blocks deletion: the check ignores booking status. */
  lemma CancelledBookingBlocksDelete(t: Tables, id: int, b: int, fault: bool)
    requires id in t.showtimes && b in t.bookings
    requires t.bookings[b].showtimeId == id && t.bookings[b].status == Cancelled
    ensures DeleteShowtime(t, id, fault).resp.status == 400
  {
  }

  /** A successful delete keeps the tables valid and consistent: no seat or booking is
      left pointing at the removed showtime. */
  lemma DeleteKeepsTables(t: Tables, id: int)
    requires t.Valid() && t.Consistent()
    ensures DeleteShowtime(t, id, false).tables.Valid()
    ensures DeleteShowtime(t, id, false).tables.Consistent()
  {
    var r := DeleteShowtime(t, id, false);
    if r.resp.status == 200 {
      var t' := r.tables;
      forall b | b in t'.bookings
        ensures t'.bookings[b].showtimeId in t'.showtimes
      {
        assert t.bookings[b].showtimeId != id;
      }
    }
  }

  // ---------------------------------------------------------------------------
  // getShowtimesByMovie: grouping the joined rows

  /** One row of the showtimes/movies/seats join; the seat columns are null for a
      showtime without seats (LEFT JOIN). */
  datatype JoinedRow = JoinedRow(
    showtimeId: int, movieId: int, start: int, end: int,
    title: string, genre: string, duration: int,
    seatId: Option<int>, seatNumber: Option<int>, status: Option<string>)

  /** A seat as it is pushed into a showtime record. */
  datatype SeatEntry = SeatEntry(seatId: int, seatNumber: Option<int>, status: Option<string>)

  /** A showtime record of the response. */
  datatype ShowtimeRecord = ShowtimeRecord(
    showtimeId: int, movieId: int, start: int, end: int,
    title: string, genre: string, duration: int,
    seats: seq<SeatEntry>)

  /** The record a row opens, before any seat is added. */
  function Header(row: JoinedRow): ShowtimeRecord {
    ShowtimeRecord(row.showtimeId, row.movieId, row.start, row.end,
                   row.title, row.genre, row.duration, [])
  }

  /** The distinct showtime ids of the rows, in the order of their first appearance. */
  function FirstAppearance(rows: seq<JoinedRow>): (ids: seq<int>)
    ensures forall i, j :: 0 <= i < j < |ids| ==> ids[i] != ids[j]
    ensures forall k :: 0 <= k < |rows| ==> rows[k].showtimeId in ids
  {
    if rows == [] then []
    else
      var prefix := rows[..|rows| - 1];
      var p := FirstAppearance(prefix);
      var id := rows[|rows| - 1].showtimeId;
      assert forall k :: 0 <= k < |prefix| ==> prefix[k] == rows[k];
      if id in p then p else p + [id]
  }

  /** Every id listed comes from some row. */
  lemma {:induction false} FirstAppearanceFromRows(rows: seq<JoinedRow>, id: int)
    requires id in FirstAppearance(rows)
    ensures exists k :: 0 <= k < |rows| && rows[k].showtimeId == id
  {
    var prefix := rows[..|rows| - 1];
    if id in FirstAppearance(prefix) {
      FirstAppearanceFromRows(prefix, id);
      var k :| 0 <= k < |prefix| && prefix[k].showtimeId == id;
      assert rows[k] == prefix[k];
    } else {
      assert rows[|rows| - 1].showtimeId == id;
    }
  }

  /** One more row adds at most its own id, at the end. */
  lemma FirstAppearanceStep(rows: seq<JoinedRow>, n: nat)
    requires n < |rows|
    ensures FirstAppearance(rows[..n + 1]) == FirstAppearance(rows[..n]) ||
            FirstAppearance(rows[..n + 1]) == FirstAppearance(rows[..n]) + [rows[n].showtimeId]
  {
    TakeOfTake(rows, n, n + 1);
  }

  /** The ids that first appear in a prefix of the rows come first, in the same order. */
  lemma {:induction false} FirstAppearancePrefix(rows: seq<JoinedRow>, n: nat)
    requires n <= |rows|
    ensures |FirstAppearance(rows[..n])| <= |FirstAppearance(rows)|
    ensures FirstAppearance(rows[..n]) == FirstAppearance(rows)[..|FirstAppearance(rows[..n])|]
    decreases |rows| - n
  {
    if n == |rows| {
      TakeAll(rows);
    } else {
      FirstAppearancePrefix(rows, n + 1);
      FirstAppearanceStep(rows, n);
      var p := FirstAppearance(rows[..n]);
      var q := FirstAppearance(rows[..n + 1]);
      var all := FirstAppearance(rows);
      if q == p {
        TakeAll(p);
      } else {
        InitOfSnoc(p, rows[n].showtimeId);
      }
      PrefixTransitive(p, q, all);
    }
  }

  /** The seats of showtime `id` in row order: one entry per row with that id and a
      truthy seat id. */
  function SeatsFor(rows: seq<JoinedRow>, id: int): seq<SeatEntry> {
    if rows == [] then []
    else
      var p := SeatsFor(rows[..|rows| - 1], id);
      var row := rows[|rows| - 1];
      if row.showtimeId == id && TruthyId(row.seatId)
      then p + [SeatEntry(row.seatId.value, row.seatNumber, row.status)]
      else p
  }

  /** The showtime columns of the first row with showtime `id`. */
  function HeaderOf(rows: seq<JoinedRow>, id: int): ShowtimeRecord
    requires id in FirstAppearance(rows)
  {
    var prefix := rows[..|rows| - 1];
    if id in FirstAppearance(prefix) then HeaderOf(prefix, id) else Header(rows[|rows| - 1])
  }

  /** The record the response holds for showtime `id`. */
  function RecordFor(rows: seq<JoinedRow>, id: int): ShowtimeRecord
    requires id in FirstAppearance(rows)
  {
    HeaderOf(rows, id).(seats := SeatsFor(rows, id))
  }

  /** The seat entry a row with a truthy seat id contributes. */
  function EntryOf(row: JoinedRow): SeatEntry
    requires TruthyId(row.seatId)
  {
    SeatEntry(row.seatId.value, row.seatNumber, row.status)
  }

  /** `records` and `position` are what the grouping loop holds after the rows `rows`:
      one record per showtime in first-appearance order, and the `Map` from each
      showtime id to its record's place. */
  ghost predicate Grouped(rows: seq<JoinedRow>, records: seq<ShowtimeRecord>, position: map<int, nat>) {
    var ids := FirstAppearance(rows);
    |records| == |ids| &&
    (forall id :: id in position <==> id in ids) &&
    (forall id :: id in position ==> position[id] < |ids| && ids[position[id]] == id) &&
    (forall i :: 0 <= i < |records| ==> records[i] == RecordFor(rows, ids[i]))
  }

  /** The grouping loop of `getShowtimesByMovie`, over the rows of its query: a `Map`
      from showtime id to record, filled in row order, then its values in insertion
      order. There is one record per distinct showtime, in first-appearance order,
      holding that showtime's first row and its seats in row order; a row without a
      seat still opens its showtime's record. */
  method GroupRows(rows: seq<JoinedRow>) returns (records: seq<ShowtimeRecord>)
    ensures |records| == |FirstAppearance(rows)|
    ensures forall i :: 0 <= i < |records| ==> records[i] == RecordFor(rows, FirstAppearance(rows)[i])
  {
    records := [];
    var position: map<int, nat> := map[];
    for n := 0 to |rows|
      invariant Grouped(rows[..n], records, position)
    {
      var row := rows[n];
      var id := row.showtimeId;
      ghost var records0, position0 := records, position;
      if id !in position {
        position := position[id := |records|];
        records := records + [Header(row)];
      }
      if TruthyId(row.seatId) {
        var at := position[id];
        records := records[at := records[at].(seats := records[at].seats + [EntryOf(row)])];
      }
      TakeOneMore(rows, n);
      GroupedStep(rows[..n], row, records0, position0, records, position);
    }
    TakeAll(rows);
  }

  /** One turn of the grouping loop keeps `Grouped`. */
  lemma GroupedStep(before: seq<JoinedRow>, row: JoinedRow,
                    records: seq<ShowtimeRecord>, position: map<int, nat>,
                    records': seq<ShowtimeRecord>, position': map<int, nat>)
    requires Grouped(before, records, position)
    requires position' == if row.showtimeId in position then position
                          else position[row.showtimeId := |records|]
    requires var extended := if row.showtimeId in position then records else records + [Header(row)];
             records' == if TruthyId(row.seatId)
                         then extended[position'[row.showtimeId] :=
                                     extended[position'[row.showtimeId]].(seats :=
                                       extended[position'[row.showtimeId]].seats + [EntryOf(row)])]
                         else extended
    ensures Grouped(before + [row], records', position')
  {
    var after := before + [row];
    var id := row.showtimeId;
    RowStep(before, row);
    var ids := FirstAppearance(before);
    var ids' := FirstAppearance(after);
    forall i | 0 <= i < |records'|
      ensures records'[i] == RecordFor(after, ids'[i])
    {
      var x := ids'[i];
      if i < |ids| {
        assert x == ids[i];
        if x == id && TruthyId(row.seatId) {
          assert position'[id] == i;
        }
      } else {
        assert x == id && id !in ids;
        SeatsForUnlisted(before, x);
      }
    }
  }

  /** What one more row does to the specification of the grouping. */
  lemma RowStep(before: seq<JoinedRow>, row: JoinedRow)
    ensures var after := before + [row];
            FirstAppearance(after) ==
              if row.showtimeId in FirstAppearance(before) then FirstAppearance(before)
              else FirstAppearance(before) + [row.showtimeId]
    ensures forall id :: id in FirstAppearance(before) ==>
              HeaderOf(before + [row], id) == HeaderOf(before, id)
    ensures row.showtimeId !in FirstAppearance(before) ==>
              HeaderOf(before + [row], row.showtimeId) == Header(row)
    ensures forall id :: id != row.showtimeId || !TruthyId(row.seatId) ==>
              SeatsFor(before + [row], id) == SeatsFor(before, id)
    ensures TruthyId(row.seatId) ==>
              SeatsFor(before + [row], row.showtimeId) == SeatsFor(before, row.showtimeId) + [EntryOf(row)]
  {
    InitOfSnoc(before, row);
  }

  /** A showtime none of the rows names has no seats. */
  lemma {:induction false} SeatsForUnlisted(rows: seq<JoinedRow>, id: int)
    requires id !in FirstAppearance(rows)
    ensures SeatsFor(rows, id) == []
  {
    if rows != [] {
      var prefix := rows[..|rows| - 1];
      assert id !in FirstAppearance(prefix);
      SeatsForUnlisted(prefix, id);
    }
  }
}
