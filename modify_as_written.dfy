/**
 * The current-room check of modify as the source writes it. The check is
 * meant to ignore the guest's own booking, but it skips every booking that
 * carries the guest's email. Create never refuses a second booking for the
 * same email, so a guest may hold two bookings in one room, and moving one
 * of them onto the other's dates then passes the check: two bookings end
 * up in one room over the same range. The service uses the corrected check
 * `BookingRules.CurrentRoomFree`; the two agree whenever every email holds
 * at most one booking.
 */
module ModifyAsWritten {
  import opened BookingRules

  /** The check as written: no booking of another email holds `room` over
      an overlapping range. */
  predicate CurrentRoomFreeAsWritten(bs: seq<Booking>, room: int, email: string, checkIn: int, checkOut: int) {
    forall j :: 0 <= j < |bs| && bs[j].email != email ==> !Clashes(bs[j], room, checkIn, checkOut)
  }

  /** Modify exactly as the source does it: the same two phases as
      `BookingRules.Modify`, with the check as written. When the check as
      written fails, the corrected check fails too (the clashing booking has
      another email, so it is not the guest's own), and the fallback is that
      of `BookingRules.Modify`, with all of its guarantees. */
  function ModifyAsWritten(bs: seq<Booking>, n: nat, email: string, checkIn: int, checkOut: int): (s: Step<Modified>)
    requires checkIn < checkOut
    ensures (s.outcome.Err? && s.outcome.error == BookingNotFound) <==>
      forall j :: 0 <= j < |bs| ==> bs[j].email != email
    ensures s.outcome.Err? ==> s.store == bs
    ensures forall i {:trigger IsFirstMatch(bs, ByEmail(email), i)} | IsFirstMatch(bs, ByEmail(email), i) ::
      CurrentRoomFreeAsWritten(bs, bs[i].roomNumber, email, checkIn, checkOut) ==>
        var kept := bs[i].(checkInDate := checkIn, checkOutDate := checkOut);
        s == Step(Ok(SameRoom(kept)), bs[i := kept])
    ensures forall i {:trigger IsFirstMatch(bs, ByEmail(email), i)} | IsFirstMatch(bs, ByEmail(email), i) ::
      !CurrentRoomFreeAsWritten(bs, bs[i].roomNumber, email, checkIn, checkOut) ==>
        s == Modify(bs, n, email, checkIn, checkOut)
  {
    match FindIndex(bs, ByEmail(email))
    case None => Step(Err(BookingNotFound), bs)
    case Some(i) =>
      ModifyAt(bs, n, i, checkIn, checkOut, CurrentRoomFreeAsWritten(bs, bs[i].roomNumber, email, checkIn, checkOut))
  }

  /** Each email holds at most one booking. */
  ghost predicate UniqueEmails(bs: seq<Booking>) {
    forall i, j :: 0 <= i < |bs| && 0 <= j < |bs| && i != j ==> bs[i].email != bs[j].email
  }

  /** Where each email holds at most one booking the check as written and
      the corrected check coincide, so the source and the model agree. */
  lemma AgreesWhenEmailsUnique(bs: seq<Booking>, n: nat, email: string, checkIn: int, checkOut: int)
    requires UniqueEmails(bs) && checkIn < checkOut
    ensures ModifyAsWritten(bs, n, email, checkIn, checkOut) == Modify(bs, n, email, checkIn, checkOut)
  {
    var found := FindIndex(bs, ByEmail(email));
    if found.Some? {
      var i := found.value;
      assert forall j :: 0 <= j < |bs| ==> (j != i <==> bs[j].email != email);
      assert CurrentRoomFreeAsWritten(bs, bs[i].roomNumber, email, checkIn, checkOut)
        == CurrentRoomFree(bs, i, checkIn, checkOut);
    }
  }

  /** Two creates for one guest, on days 12-13 and 14-15, both land in room
      1 and keep the invariant; moving the first onto days 14-15 with the
      check as written puts two bookings in room 1 over the same days. */
  lemma AsWrittenDoubleBooks()
    ensures
      var email := "monika@gmail.com";
      var first := Booking("Monika M", email, 1, 12, 13);
      var second := Booking("Monika M", email, 1, 14, 15);
      var store := Book(Book([], 10, "Monika M", email, 12, 13).store, 10, "Monika M", email, 14, 15).store;
      && store == [first, second]
      && NoDoubleBooking(store)
      && !NoDoubleBooking(ModifyAsWritten(store, 10, email, 14, 15).store)
  {
    var email := "monika@gmail.com";
    var first := Booking("Monika M", email, 1, 12, 13);
    var second := Booking("Monika M", email, 1, 14, 15);
    assert IsRoomAvailable([], 1, 12, 13);
    var s1 := Book([], 10, "Monika M", email, 12, 13);
    assert s1.store == [first];
    assert IsRoomAvailable([first], 1, 14, 15);
    var s2 := Book(s1.store, 10, "Monika M", email, 14, 15);
    assert s2.store == [first, second];
    var store := [first, second];
    assert IsFirstMatch(store, ByEmail(email), 0);
    assert CurrentRoomFreeAsWritten(store, 1, email, 14, 15);
    var after := ModifyAsWritten(store, 10, email, 14, 15).store;
    assert after == [second, second];
    assert after[0].roomNumber == after[1].roomNumber;
  }

  /** On the same store the corrected check sees the second booking in room
      1, and the booking moves to room 2 instead. */
  lemma CorrectedMovesToFreeRoom()
    ensures
      var email := "monika@gmail.com";
      var store := [Booking("Monika M", email, 1, 12, 13), Booking("Monika M", email, 1, 14, 15)];
      var moved := Booking("Monika M", email, 2, 14, 15);
      && Modify(store, 10, email, 14, 15) == Step(Ok(NewRoom(moved)), [moved, store[1]])
      && NoDoubleBooking(Modify(store, 10, email, 14, 15).store)
  {
    var email := "monika@gmail.com";
    var store := [Booking("Monika M", email, 1, 12, 13), Booking("Monika M", email, 1, 14, 15)];
    assert IsFirstMatch(store, ByEmail(email), 0);
    assert !CurrentRoomFree(store, 0, 14, 15) by {
      assert Clashes(store[1], 1, 14, 15);
    }
    assert !IsRoomAvailable(store, 1, 14, 15) by {
      assert Clashes(store[1], 1, 14, 15);
    }
    assert IsRoomAvailable(store, 2, 14, 15);
    ModifyKeepsInvariant(store, 10, email, 14, 15);
  }
}
