/**
 * The rules of the in-memory hotel booking engine, stated on values.
 *
 * The store is an ordered sequence of bookings over a pool of rooms
 * numbered 1..n. Dates are day numbers; a stay occupies the half-open
 * range [checkInDate, checkOutDate). Every operation of the engine is a
 * function from the store before the call to a `Step`: the outcome the
 * caller sees and the store after the call.
 */
module BookingRules {

  datatype Option<T> = None | Some(value: T)

  /** One booking record, as the engine stores it. */
  datatype Booking = Booking(
    name: string,
    email: string,
    roomNumber: int,
    checkInDate: int,
    checkOutDate: int)

  /** An entry of the guest list: the projection of a booking on name and room. */
  datatype Guest = Guest(name: string, roomNumber: int)

  /** The domain errors the engine reports. */
  datatype Error = NoRoomsAvailable | NoBookingFound | BookingNotFound

  datatype Result<T> = Ok(value: T) | Err(error: Error)

  /** A successful modification, tagged with the message the engine chooses:
      the booking kept its room, or it was moved to a new one. */
  datatype Modified = SameRoom(booking: Booking) | NewRoom(booking: Booking)

  /** What the caller sees and what the store holds after one operation. */
  datatype Step<T> = Step(outcome: Result<T>, store: seq<Booking>)

  // ---------------------------------------------------------------------
  // Overlap predicate

  /** The engine's overlap condition for a requested range [aIn, aOut)
      and a booked range [bIn, bOut). */
  predicate Overlap(aIn: int, aOut: int, bIn: int, bOut: int) {
    aIn < bOut && aOut > bIn
  }

  /** Day d falls within the stay [checkIn, checkOut). */
  predicate Stays(d: int, checkIn: int, checkOut: int) {
    checkIn <= d < checkOut
  }

  /** The overlap condition is symmetric, ranges that only touch do not
      overlap (same-day turnover), and a non-empty range overlaps itself. */
  lemma OverlapLaws(aIn: int, aOut: int, bIn: int, bOut: int)
    ensures Overlap(aIn, aOut, bIn, bOut) <==> Overlap(bIn, bOut, aIn, aOut)
    ensures aOut == bIn ==> !Overlap(aIn, aOut, bIn, bOut)
    ensures aIn < aOut ==> Overlap(aIn, aOut, aIn, aOut)
  {
  }

  /** For well-formed ranges the overlap condition means exactly that some
      day belongs to both stays. */
  lemma OverlapIffSharedDay(aIn: int, aOut: int, bIn: int, bOut: int)
    requires aIn < aOut && bIn < bOut
    ensures Overlap(aIn, aOut, bIn, bOut) <==> exists d :: Stays(d, aIn, aOut) && Stays(d, bIn, bOut)
  {
    if Overlap(aIn, aOut, bIn, bOut) {
      var d := if aIn < bIn then bIn else aIn;
      assert Stays(d, aIn, aOut) && Stays(d, bIn, bOut);
    }
  }

  // ---------------------------------------------------------------------
  // Availability and first-fit allocation

  /** Booking b holds `room` and overlaps the requested range. */
  predicate Clashes(b: Booking, room: int, checkIn: int, checkOut: int) {
    b.roomNumber == room && Overlap(checkIn, checkOut, b.checkInDate, b.checkOutDate)
  }

  /** No booking of the store holds `room` over an overlapping range. */
  predicate IsRoomAvailable(bs: seq<Booking>, room: int, checkIn: int, checkOut: int) {
    forall i :: 0 <= i < |bs| ==> !Clashes(bs[i], room, checkIn, checkOut)
  }

  /** The first room among k..n that is available. */
  function FirstAvailableRoomFrom(bs: seq<Booking>, n: nat, k: int, checkIn: int, checkOut: int): (r: Option<int>)
    requires 1 <= k <= n + 1
    decreases n + 1 - k
    ensures r.Some? ==> k <= r.value <= n && IsRoomAvailable(bs, r.value, checkIn, checkOut)
    ensures r.Some? ==> forall m :: k <= m < r.value ==> !IsRoomAvailable(bs, m, checkIn, checkOut)
    ensures r.None? <==> forall m :: k <= m <= n ==> !IsRoomAvailable(bs, m, checkIn, checkOut)
  {
    if k == n + 1 then None
    else if IsRoomAvailable(bs, k, checkIn, checkOut) then Some(k)
    else FirstAvailableRoomFrom(bs, n, k + 1, checkIn, checkOut)
  }

  /** First-fit allocation: the lowest-numbered room in 1..n with no
      overlapping booking, or None when every room is taken. */
  function FirstAvailableRoom(bs: seq<Booking>, n: nat, checkIn: int, checkOut: int): (r: Option<int>)
    ensures r.Some? ==> 1 <= r.value <= n && IsRoomAvailable(bs, r.value, checkIn, checkOut)
    ensures r.Some? ==> forall m :: 1 <= m < r.value ==> !IsRoomAvailable(bs, m, checkIn, checkOut)
    ensures r.None? <==> forall m :: 1 <= m <= n ==> !IsRoomAvailable(bs, m, checkIn, checkOut)
  {
    FirstAvailableRoomFrom(bs, n, 1, checkIn, checkOut)
  }

  // ---------------------------------------------------------------------
  // Finding a booking by position

  /** The two searches the engine runs over the store: by email alone
      (modify) and by email and room number together (cancel). */
  datatype Query = ByEmail(email: string) | ByEmailAndRoom(email: string, roomNumber: int)

  predicate Matches(q: Query, b: Booking) {
    match q
    case ByEmail(email) => b.email == email
    case ByEmailAndRoom(email, room) => b.email == email && b.roomNumber == room
  }

  /** Index i holds the first booking of the store that matches q. */
  predicate IsFirstMatch(bs: seq<Booking>, q: Query, i: int) {
    0 <= i < |bs| && Matches(q, bs[i]) && forall j :: 0 <= j < i ==> !Matches(q, bs[j])
  }

  function FindIndexFrom(bs: seq<Booking>, q: Query, k: nat): (r: Option<nat>)
    requires k <= |bs|
    decreases |bs| - k
    ensures r.Some? ==> k <= r.value < |bs| && Matches(q, bs[r.value])
    ensures r.Some? ==> forall j :: k <= j < r.value ==> !Matches(q, bs[j])
    ensures r.None? <==> forall j :: k <= j < |bs| ==> !Matches(q, bs[j])
  {
    if k == |bs| then None
    else if Matches(q, bs[k]) then Some(k)
    else FindIndexFrom(bs, q, k + 1)
  }

  /** The position of the first matching booking, None where the source's
      findIndex yields -1. */
  function FindIndex(bs: seq<Booking>, q: Query): (r: Option<nat>)
    ensures r.Some? ==> IsFirstMatch(bs, q, r.value)
    ensures r.None? <==> forall j :: 0 <= j < |bs| ==> !Matches(q, bs[j])
  {
    FindIndexFrom(bs, q, 0)
  }

  // ---------------------------------------------------------------------
  // Store invariants

  /** Every booking names a room of the pool and a non-empty range. */
  predicate WellFormed(bs: seq<Booking>, n: nat) {
    forall i :: 0 <= i < |bs| ==> 1 <= bs[i].roomNumber <= n && bs[i].checkInDate < bs[i].checkOutDate
  }

  /** No two distinct bookings hold the same room over overlapping ranges. */
  ghost predicate NoDoubleBooking(bs: seq<Booking>) {
    forall i, j ::
      0 <= i < |bs| && 0 <= j < |bs| && i != j && bs[i].roomNumber == bs[j].roomNumber ==>
        !Overlap(bs[i].checkInDate, bs[i].checkOutDate, bs[j].checkInDate, bs[j].checkOutDate)
  }

  // ---------------------------------------------------------------------
  // Create

  /** Create a booking: the first available room is taken for the guest and
      the booking is appended to the store. */
  function Book(bs: seq<Booking>, n: nat, name: string, email: string, checkIn: int, checkOut: int): (s: Step<Booking>)
    requires checkIn < checkOut
    ensures s.outcome.Err? <==> forall k :: 1 <= k <= n ==> !IsRoomAvailable(bs, k, checkIn, checkOut)
    ensures s.outcome.Err? ==> s.outcome.error == NoRoomsAvailable && s.store == bs
    ensures s.outcome.Ok? ==>
      var b := s.outcome.value;
      && b.name == name && b.email == email
      && b.checkInDate == checkIn && b.checkOutDate == checkOut
      && 1 <= b.roomNumber <= n
      && IsRoomAvailable(bs, b.roomNumber, checkIn, checkOut)
      && (forall k :: 1 <= k < b.roomNumber ==> !IsRoomAvailable(bs, k, checkIn, checkOut))
      && s.store == bs + [b]
  {
    match FirstAvailableRoom(bs, n, checkIn, checkOut)
    case None => Step(Err(NoRoomsAvailable), bs)
    case Some(room) =>
      var b := Booking(name, email, room, checkIn, checkOut);
      Step(Ok(b), bs + [b])
  }

  lemma BookKeepsInvariant(bs: seq<Booking>, n: nat, name: string, email: string, checkIn: int, checkOut: int)
    requires WellFormed(bs, n) && NoDoubleBooking(bs) && checkIn < checkOut
    ensures WellFormed(Book(bs, n, name, email, checkIn, checkOut).store, n)
    ensures NoDoubleBooking(Book(bs, n, name, email, checkIn, checkOut).store)
  {
    var s := Book(bs, n, name, email, checkIn, checkOut);
    if s.outcome.Ok? {
      var b := s.outcome.value;
      var t := s.store;
      forall i, j | 0 <= i < |t| && 0 <= j < |t| && i != j && t[i].roomNumber == t[j].roomNumber
        ensures !Overlap(t[i].checkInDate, t[i].checkOutDate, t[j].checkInDate, t[j].checkOutDate)
      {
        if i == |bs| {
          assert !Clashes(bs[j], b.roomNumber, checkIn, checkOut);
        } else if j == |bs| {
          assert !Clashes(bs[i], b.roomNumber, checkIn, checkOut);
        }
      }
    }
  }

  // ---------------------------------------------------------------------
  // Lookup by email

  /** The bookings of the store that carry `email`, in store order. */
  function BookingsFor(bs: seq<Booking>, email: string): (r: seq<Booking>)
    ensures forall b :: b in r ==> b in bs && b.email == email
    ensures forall b {:trigger multiset(r)[b]} ::
      multiset(r)[b] == if b.email == email then multiset(bs)[b] else 0
  {
    if bs == [] then []
    else
      assert bs == [bs[0]] + bs[1..];
      (if bs[0].email == email then [bs[0]] else []) + BookingsFor(bs[1..], email)
  }

  /** Filtering keeps store order: it distributes over concatenation. */
  lemma {:induction false} BookingsForConcat(a: seq<Booking>, b: seq<Booking>, email: string)
    ensures BookingsFor(a + b, email) == BookingsFor(a, email) + BookingsFor(b, email)
  {
    if a == [] {
      assert a + b == b;
    } else {
      assert (a + b)[0] == a[0];
      assert (a + b)[1..] == a[1..] + b;
      BookingsForConcat(a[1..], b, email);
    }
  }

  /** Read bookings by email: the matching bookings, or NoBookingFound when
      there are none. */
  function Lookup(bs: seq<Booking>, email: string): (r: Result<seq<Booking>>)
    ensures r.Err? <==> forall i :: 0 <= i < |bs| ==> bs[i].email != email
    ensures r.Err? ==> r.error == NoBookingFound
    ensures r.Ok? ==> r.value == BookingsFor(bs, email) && |r.value| > 0
  {
    var found := BookingsFor(bs, email);
    if |found| > 0 then
      assert multiset(found)[found[0]] > 0;
      assert found[0] in bs;
      Ok(found)
    else
      assert forall i :: 0 <= i < |bs| ==> bs[i].email != email by {
        forall i | 0 <= i < |bs| ensures bs[i].email != email {
          assert multiset(found)[bs[i]] == 0;
        }
      }
      Err(NoBookingFound)
  }

  // ---------------------------------------------------------------------
  // Guest list

  /** One (name, room) entry per booking, in store order. */
  function GuestList(bs: seq<Booking>): (r: seq<Guest>)
    ensures |r| == |bs|
    ensures forall i :: 0 <= i < |bs| ==> r[i] == Guest(bs[i].name, bs[i].roomNumber)
  {
    if bs == [] then [] else [Guest(bs[0].name, bs[0].roomNumber)] + GuestList(bs[1..])
  }

  // ---------------------------------------------------------------------
  // Cancel

  /** Cancel: the first booking with both the email and the room number is
      removed; the others keep their order. */
  function Cancel(bs: seq<Booking>, email: string, roomNumber: int): (s: Step<()>)
    requires roomNumber >= 1
    ensures s.outcome.Err? <==>
      forall i :: 0 <= i < |bs| ==> !(bs[i].email == email && bs[i].roomNumber == roomNumber)
    ensures s.outcome.Err? ==> s.outcome.error == BookingNotFound && s.store == bs
    ensures s.outcome.Ok? ==>
      exists i :: IsFirstMatch(bs, ByEmailAndRoom(email, roomNumber), i) && s.store == bs[..i] + bs[i + 1..]
  {
    match FindIndex(bs, ByEmailAndRoom(email, roomNumber))
    case None => Step(Err(BookingNotFound), bs)
    case Some(i) =>
      assert IsFirstMatch(bs, ByEmailAndRoom(email, roomNumber), i);
      Step(Ok(()), bs[..i] + bs[i + 1..])
  }

  /** Removing one booking keeps both store invariants. */
  lemma RemoveKeepsInvariant(bs: seq<Booking>, n: nat, i: int)
    requires WellFormed(bs, n) && NoDoubleBooking(bs) && 0 <= i < |bs|
    ensures WellFormed(bs[..i] + bs[i + 1..], n)
    ensures NoDoubleBooking(bs[..i] + bs[i + 1..])
  {
    var t := bs[..i] + bs[i + 1..];
    assert forall k :: 0 <= k < |t| ==> t[k] == bs[if k < i then k else k + 1];
  }

  lemma CancelKeepsInvariant(bs: seq<Booking>, n: nat, email: string, roomNumber: int)
    requires WellFormed(bs, n) && NoDoubleBooking(bs) && roomNumber >= 1
    ensures WellFormed(Cancel(bs, email, roomNumber).store, n)
    ensures NoDoubleBooking(Cancel(bs, email, roomNumber).store)
  {
    var s := Cancel(bs, email, roomNumber);
    if s.outcome.Ok? {
      var i :| IsFirstMatch(bs, ByEmailAndRoom(email, roomNumber), i) && s.store == bs[..i] + bs[i + 1..];
      RemoveKeepsInvariant(bs, n, i);
    }
  }

  // ---------------------------------------------------------------------
  // Modify

  /** Check of the current room for the new range that ignores only the
      booking being modified (position i). */
  predicate CurrentRoomFree(bs: seq<Booking>, i: int, checkIn: int, checkOut: int)
    requires 0 <= i < |bs|
  {
    forall j :: 0 <= j < |bs| && j != i ==> !Clashes(bs[j], bs[i].roomNumber, checkIn, checkOut)
  }

  /** The two-phase policy applied to the booking at position i, given the
      verdict of the current-room check: keep the room, else first fit over
      the whole store (the booking's own old entry included). */
  function ModifyAt(bs: seq<Booking>, n: nat, i: nat, checkIn: int, checkOut: int, currentRoomFree: bool): Step<Modified>
    requires i < |bs|
  {
    if currentRoomFree then
      var b := bs[i].(checkInDate := checkIn, checkOutDate := checkOut);
      Step(Ok(SameRoom(b)), bs[i := b])
    else
      match FirstAvailableRoom(bs, n, checkIn, checkOut)
      case None => Step(Err(NoRoomsAvailable), bs)
      case Some(room) =>
        var b := bs[i].(roomNumber := room, checkInDate := checkIn, checkOutDate := checkOut);
        Step(Ok(NewRoom(b)), bs[i := b])
  }

  /** Modify the dates of the first booking for `email`, keeping its room
      when no other booking there overlaps the new range, moving it to the
      first available room otherwise. */
  function Modify(bs: seq<Booking>, n: nat, email: string, checkIn: int, checkOut: int): (s: Step<Modified>)
    requires checkIn < checkOut
    ensures (s.outcome.Err? && s.outcome.error == BookingNotFound) <==>
      forall j :: 0 <= j < |bs| ==> bs[j].email != email
    ensures s.outcome.Err? ==> s.store == bs
    ensures forall i {:trigger IsFirstMatch(bs, ByEmail(email), i)} | IsFirstMatch(bs, ByEmail(email), i) ::
      var kept := bs[i].(checkInDate := checkIn, checkOutDate := checkOut);
      && (CurrentRoomFree(bs, i, checkIn, checkOut) ==>
           s == Step(Ok(SameRoom(kept)), bs[i := kept]))
      && (!CurrentRoomFree(bs, i, checkIn, checkOut) &&
          (forall k :: 1 <= k <= n ==> !IsRoomAvailable(bs, k, checkIn, checkOut)) ==>
           s == Step(Err(NoRoomsAvailable), bs))
      && (!CurrentRoomFree(bs, i, checkIn, checkOut) &&
          (exists k :: 1 <= k <= n && IsRoomAvailable(bs, k, checkIn, checkOut)) ==>
           s.outcome.Ok?)
      && (!CurrentRoomFree(bs, i, checkIn, checkOut) && s.outcome.Ok? ==>
           var b := s.outcome.value.booking;
           && s.outcome.value.NewRoom?
           && b == kept.(roomNumber := b.roomNumber)
           && 1 <= b.roomNumber <= n
           && b.roomNumber != bs[i].roomNumber
           && IsRoomAvailable(bs, b.roomNumber, checkIn, checkOut)
           && (forall k :: 1 <= k < b.roomNumber ==> !IsRoomAvailable(bs, k, checkIn, checkOut))
           && s.store == bs[i := b])
  {
    match FindIndex(bs, ByEmail(email))
    case None => Step(Err(BookingNotFound), bs)
    case Some(i) => ModifyAt(bs, n, i, checkIn, checkOut, CurrentRoomFree(bs, i, checkIn, checkOut))
  }

  /** Replacing the entry at position i by b keeps the invariants when b is
      well formed and no other booking clashes with it. */
  lemma ReplaceKeepsInvariant(bs: seq<Booking>, n: nat, i: int, b: Booking)
    requires WellFormed(bs, n) && NoDoubleBooking(bs) && 0 <= i < |bs|
    requires 1 <= b.roomNumber <= n && b.checkInDate < b.checkOutDate
    requires forall j :: 0 <= j < |bs| && j != i ==> !Clashes(bs[j], b.roomNumber, b.checkInDate, b.checkOutDate)
    ensures WellFormed(bs[i := b], n)
    ensures NoDoubleBooking(bs[i := b])
  {
    var t := bs[i := b];
    forall j, k | 0 <= j < |t| && 0 <= k < |t| && j != k && t[j].roomNumber == t[k].roomNumber
      ensures !Overlap(t[j].checkInDate, t[j].checkOutDate, t[k].checkInDate, t[k].checkOutDate)
    {
      if j == i {
        assert !Clashes(bs[k], b.roomNumber, b.checkInDate, b.checkOutDate);
      } else if k == i {
        assert !Clashes(bs[j], b.roomNumber, b.checkInDate, b.checkOutDate);
      }
    }
  }

  lemma ModifyKeepsInvariant(bs: seq<Booking>, n: nat, email: string, checkIn: int, checkOut: int)
    requires WellFormed(bs, n) && NoDoubleBooking(bs) && checkIn < checkOut
    ensures WellFormed(Modify(bs, n, email, checkIn, checkOut).store, n)
    ensures NoDoubleBooking(Modify(bs, n, email, checkIn, checkOut).store)
  {
    var s := Modify(bs, n, email, checkIn, checkOut);
    if s.outcome.Ok? {
      var i := FindIndex(bs, ByEmail(email)).value;
      var b := s.outcome.value.booking;
      assert s.store == bs[i := b];
      if CurrentRoomFree(bs, i, checkIn, checkOut) {
        ReplaceKeepsInvariant(bs, n, i, b);
      } else {
        assert IsRoomAvailable(bs, b.roomNumber, checkIn, checkOut);
        ReplaceKeepsInvariant(bs, n, i, b);
      }
    }
  }

  /** The fallback search counts the guest's own old entry, yet finds the
      same room as a search that leaves that entry out: the room it sits in
      is taken by another booking anyway. */
  lemma FallbackIgnoresOwnBooking(bs: seq<Booking>, n: nat, i: int, checkIn: int, checkOut: int)
    requires 0 <= i < |bs| && !CurrentRoomFree(bs, i, checkIn, checkOut)
    ensures FirstAvailableRoom(bs, n, checkIn, checkOut) == FirstAvailableRoom(bs[..i] + bs[i + 1..], n, checkIn, checkOut)
  {
    var t := bs[..i] + bs[i + 1..];
    assert forall k :: 0 <= k < |t| ==> t[k] == bs[if k < i then k else k + 1];
    var j :| 0 <= j < |bs| && j != i && Clashes(bs[j], bs[i].roomNumber, checkIn, checkOut);
    assert t[if j < i then j else j - 1] == bs[j];
    forall m ensures IsRoomAvailable(bs, m, checkIn, checkOut) <==> IsRoomAvailable(t, m, checkIn, checkOut) {
      if m == bs[i].roomNumber {
        assert !IsRoomAvailable(bs, m, checkIn, checkOut);
        assert !IsRoomAvailable(t, m, checkIn, checkOut);
      } else {
        if !IsRoomAvailable(bs, m, checkIn, checkOut) {
          var k :| 0 <= k < |bs| && Clashes(bs[k], m, checkIn, checkOut);
          assert k != i;
          assert t[if k < i then k else k - 1] == bs[k];
        }
        if !IsRoomAvailable(t, m, checkIn, checkOut) {
          var k :| 0 <= k < |t| && Clashes(t[k], m, checkIn, checkOut);
          assert t[k] == bs[if k < i then k else k + 1];
        }
      }
    }
    var r1 := FirstAvailableRoom(bs, n, checkIn, checkOut);
    var r2 := FirstAvailableRoom(t, n, checkIn, checkOut);
    if r1.Some? && r2.Some? {
      assert !(r1.value < r2.value) && !(r2.value < r1.value);
    }
  }

  // ---------------------------------------------------------------------
  // Guest list across operations

  lemma GuestListAfterBook(bs: seq<Booking>, n: nat, name: string, email: string, checkIn: int, checkOut: int)
    requires checkIn < checkOut
    ensures var s := Book(bs, n, name, email, checkIn, checkOut);
      GuestList(s.store) ==
        if s.outcome.Ok? then GuestList(bs) + [Guest(name, s.outcome.value.roomNumber)] else GuestList(bs)
  {
    var s := Book(bs, n, name, email, checkIn, checkOut);
    if s.outcome.Ok? {
      var g := GuestList(bs) + [Guest(name, s.outcome.value.roomNumber)];
      assert |GuestList(s.store)| == |g|;
      assert forall k :: 0 <= k < |g| ==> GuestList(s.store)[k] == g[k];
    }
  }

  /** Removing the booking at position i removes the guest at position i. */
  lemma GuestListRemove(bs: seq<Booking>, i: int)
    requires 0 <= i < |bs|
    ensures GuestList(bs[..i] + bs[i + 1..]) == GuestList(bs)[..i] + GuestList(bs)[i + 1..]
  {
    var t := bs[..i] + bs[i + 1..];
    var g := GuestList(bs)[..i] + GuestList(bs)[i + 1..];
    assert |GuestList(t)| == |g|;
    forall k | 0 <= k < |g| ensures GuestList(t)[k] == g[k] {
      var src := if k < i then k else k + 1;
      assert t[k] == bs[src];
      assert g[k] == GuestList(bs)[src];
    }
  }

  lemma GuestListAfterCancel(bs: seq<Booking>, email: string, roomNumber: int)
    requires roomNumber >= 1
    ensures var s := Cancel(bs, email, roomNumber);
      s.outcome.Ok? ==> exists i :: 0 <= i < |bs| && GuestList(s.store) == GuestList(bs)[..i] + GuestList(bs)[i + 1..]
  {
    var s := Cancel(bs, email, roomNumber);
    if s.outcome.Ok? {
      var i :| IsFirstMatch(bs, ByEmailAndRoom(email, roomNumber), i) && s.store == bs[..i] + bs[i + 1..];
      GuestListRemove(bs, i);
    }
  }
}
