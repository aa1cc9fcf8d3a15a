/** The database tables the handlers read and write, as in-memory maps from primary key
    to row, together with the next value of each table's id sequence. SQL itself is not
    modelled: each query a handler issues is a function or a query method over these maps. */
module Store {
  import opened JsValues
  import opened Sorting

  /** A row of `movies`; only the running time in minutes matters here. */
  datatype Movie = Movie(duration: int)

  /** A row of `showtimes`: the film, and start and end instants in milliseconds. */
  datatype Showtime = Showtime(movieId: int, start: int, end: int)

  /** `seats.availabilitystatus`: 'available' or 'booked'. */
  datatype SeatStatus = Available | Booked

  /** A row of `seats`. */
  datatype Seat = Seat(showtimeId: int, seatNumber: int, status: SeatStatus, bookingId: Option<int>)

  /** `bookings.availabilitystatus`: 'confirmed' or 'cancelled'. */
  datatype BookingStatus = Confirmed | Cancelled

  /** A row of `bookings`; the booking date is an opaque day value. */
  datatype Booking = Booking(userId: int, showtimeId: int, bookingDate: int, status: BookingStatus)

  /** A seat row as a query returns it: its key together with its columns. */
  datatype SeatRow = SeatRow(seatId: int, seat: Seat)

  /** The four tables and the next value of the three SERIAL sequences. */
  datatype Tables = Tables(
    movies: map<int, Movie>,
    showtimes: map<int, Showtime>,
    seats: map<int, Seat>,
    bookings: map<int, Booking>,
    nextShowtimeId: int,
    nextSeatId: int,
    nextBookingId: int)
  {
    /** Every id handed out so far lies below its sequence's next value, so the next
        value names no row yet. */
    predicate Valid() {
      (forall k :: k in showtimes ==> k < nextShowtimeId) &&
      (forall k :: k in seats ==> k < nextSeatId) &&
      (forall k :: k in bookings ==> k < nextBookingId)
    }

    /** The rows agree with each other: every seat and every booking belongs to an
        existing showtime, a seat is booked exactly when it carries a booking id, and
        that booking exists, is confirmed and is for the seat's showtime. */
    predicate Consistent() {
      (forall k :: k in seats ==> seats[k].showtimeId in showtimes) &&
      (forall b :: b in bookings ==> bookings[b].showtimeId in showtimes) &&
      (forall k :: k in seats ==> (seats[k].status == Booked <==> seats[k].bookingId.Some?)) &&
      (forall k :: k in seats && seats[k].bookingId.Some? ==>
         seats[k].bookingId.value in bookings &&
         bookings[seats[k].bookingId.value].status == Confirmed &&
         bookings[seats[k].bookingId.value].showtimeId == seats[k].showtimeId)
    }
  }

  /** `r` is a row of the seat table. */
  predicate IsRowOf(seats: map<int, Seat>, r: SeatRow) {
    r.seatId in seats && seats[r.seatId] == r.seat
  }

  function SeatNumber(r: SeatRow): int {
    r.seat.seatNumber
  }

  /** Some element of a non-empty set: the database's choice of which row comes next. */
  method Choose<K>(keys: set<K>) returns (k: K)
    requires keys != {}
    ensures k in keys
  {
    k :| k in keys;
  }

  /** `SELECT * FROM seats WHERE <keep>`: every matching row exactly once, in an order
      the database chooses. */
  method SelectSeats(seats: map<int, Seat>, keep: Seat -> bool) returns (rows: seq<SeatRow>)
    ensures forall r :: multiset(rows)[r] == if IsRowOf(seats, r) && keep(r.seat) then 1 else 0
  {
    rows := [];
    var left := seats.Keys;
    while left != {}
      invariant left <= seats.Keys
      invariant forall r :: multiset(rows)[r] ==
                  if IsRowOf(seats, r) && r.seatId !in left && keep(r.seat) then 1 else 0
      decreases |left|
    {
      var k := Choose(left);
      if keep(seats[k]) {
        rows := rows + [SeatRow(k, seats[k])];
      }
      left := left - {k};
    }
  }

  /** `SELECT seatid FROM seats WHERE <keep>`: the id of every matching seat exactly once. */
  method SelectSeatIds(seats: map<int, Seat>, keep: Seat -> bool) returns (ids: seq<int>)
    ensures forall k :: multiset(ids)[k] == if k in seats && keep(seats[k]) then 1 else 0
  {
    ids := [];
    var left := seats.Keys;
    while left != {}
      invariant left <= seats.Keys
      invariant forall k :: multiset(ids)[k] == if k in seats && k !in left && keep(seats[k]) then 1 else 0
      decreases |left|
    {
      var k := Choose(left);
      if keep(seats[k]) {
        ids := ids + [k];
      }
      left := left - {k};
    }
  }

  /** `SELECT ... FROM seats WHERE showtimeid = $1 ORDER BY seatnumber`: the seats of one
      showtime, each once, by seat number (equal numbers in an unspecified order). */
  method SeatsOfShowtime(seats: map<int, Seat>, showtimeId: int) returns (rows: seq<SeatRow>)
    ensures SortedBy(rows, SeatNumber)
    ensures forall r :: multiset(rows)[r] ==
              if IsRowOf(seats, r) && r.seat.showtimeId == showtimeId then 1 else 0
  {
    var found := SelectSeats(seats, (s: Seat) => s.showtimeId == showtimeId);
    rows := SortBy(found, SeatNumber);
  }
}
