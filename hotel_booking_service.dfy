/**
 * The booking service: one object owns the store of bookings and the size
 * of the room pool, and each request handler is a method on it. The
 * handlers that change the store update the `bookings` field in place
 * (append, removal at a position, replacement of one entry); each is
 * proved to produce exactly the outcome and store of its rule in
 * `BookingRules`, and to keep the store invariants.
 */
module BookingService {
  import opened BookingRules

  class HotelBookingService {
    /** Rooms are numbered 1..roomCount; the source configures ten. */
    const roomCount: nat
    /** The active bookings, in the order they were made. */
    var bookings: seq<Booking>

    /** Every booking names a room of the pool and a non-empty range, and no
        room is double-booked. */
    ghost predicate Valid()
      reads this
    {
      WellFormed(bookings, roomCount) && NoDoubleBooking(bookings)
    }

    constructor (roomCount: nat)
      ensures Valid()
      ensures this.roomCount == roomCount && bookings == []
    {
      this.roomCount := roomCount;
      bookings := [];
    }

    /** The lowest-numbered room free for the range, scanning 1..roomCount. */
    method FindAvailableRoom(checkIn: int, checkOut: int) returns (room: Option<int>)
      ensures room == FirstAvailableRoom(bookings, roomCount, checkIn, checkOut)
    {
      var k := 1;
      while k <= roomCount && !IsRoomAvailable(bookings, k, checkIn, checkOut)
        invariant 1 <= k <= roomCount + 1
        invariant forall m :: 1 <= m < k ==> !IsRoomAvailable(bookings, m, checkIn, checkOut)
      {
        k := k + 1;
      }
      room := if k <= roomCount then Some(k) else None;
    }

    /** The position of the first booking matching q, scanning the store. */
    method FindBookingIndex(q: Query) returns (index: Option<nat>)
      ensures index == FindIndex(bookings, q)
    {
      var i := 0;
      while i < |bookings| && !Matches(q, bookings[i])
        invariant 0 <= i <= |bookings|
        invariant forall j :: 0 <= j < i ==> !Matches(q, bookings[j])
      {
        i := i + 1;
      }
      index := if i < |bookings| then Some(i) else None;
      assert index.Some? ==> IsFirstMatch(bookings, q, i);
    }

    /** Create a booking in the first available room. */
    method BookRoom(name: string, email: string, checkIn: int, checkOut: int) returns (r: Result<Booking>)
      requires Valid() && checkIn < checkOut
      modifies this
      ensures Valid()
      ensures Step(r, bookings) == Book(old(bookings), roomCount, name, email, checkIn, checkOut)
    {
      BookKeepsInvariant(bookings, roomCount, name, email, checkIn, checkOut);
      var room := FindAvailableRoom(checkIn, checkOut);
      if room.None? {
        r := Err(NoRoomsAvailable);
        return;
      }
      var booking := Booking(name, email, room.value, checkIn, checkOut);
      bookings := bookings + [booking];
      r := Ok(booking);
    }

    /** All bookings for the email, or NoBookingFound. */
    method GetBookingDetails(email: string) returns (r: Result<seq<Booking>>)
      ensures r == Lookup(bookings, email)
      ensures r.Ok? ==> forall b :: b in r.value ==> b in bookings && b.email == email
    {
      r := Lookup(bookings, email);
    }

    /** The (name, room) of every booking. */
    method GetAllGuests() returns (guests: seq<Guest>)
      ensures guests == GuestList(bookings)
      ensures |guests| == |bookings|
    {
      guests := GuestList(bookings);
    }

    /** Remove the first booking with this email and room number. */
    method CancelBooking(email: string, roomNumber: int) returns (r: Result<()>)
      requires Valid() && roomNumber >= 1
      modifies this
      ensures Valid()
      ensures Step(r, bookings) == Cancel(old(bookings), email, roomNumber)
    {
      CancelKeepsInvariant(bookings, roomCount, email, roomNumber);
      var found := FindBookingIndex(ByEmailAndRoom(email, roomNumber));
      if found.None? {
        r := Err(BookingNotFound);
        return;
      }
      var i := found.value;
      bookings := bookings[..i] + bookings[i + 1..];
      r := Ok(());
    }

    /** Move the first booking for the email to new dates: in its own room
        if that room is free for them, else in the first available room. */
    method ModifyBooking(email: string, checkIn: int, checkOut: int) returns (r: Result<Modified>)
      requires Valid() && checkIn < checkOut
      modifies this
      ensures Valid()
      ensures Step(r, bookings) == Modify(old(bookings), roomCount, email, checkIn, checkOut)
    {
      ModifyKeepsInvariant(bookings, roomCount, email, checkIn, checkOut);
      var found := FindBookingIndex(ByEmail(email));
      if found.None? {
        r := Err(BookingNotFound);
        return;
      }
      var i := found.value;
      var existing := bookings[i];
      if CurrentRoomFree(bookings, i, checkIn, checkOut) {
        var updated := existing.(checkInDate := checkIn, checkOutDate := checkOut);
        bookings := bookings[i := updated];
        r := Ok(SameRoom(updated));
        return;
      }
      var room := FindAvailableRoom(checkIn, checkOut);
      if room.None? {
        r := Err(NoRoomsAvailable);
        return;
      }
      var updated := existing.(roomNumber := room.value, checkInDate := checkIn, checkOutDate := checkOut);
      bookings := bookings[i := updated];
      r := Ok(NewRoom(updated));
    }
  }
}
