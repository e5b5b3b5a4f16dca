/**
 * The behaviours the repository's tests exercise, plus two code paths of
 * the program (a second guest on the same dates, and a repeated cancel), on
 * concrete stores of a ten-room hotel. Dates are day numbers within
 * January 2025 (day 12 is 2025-01-12).
 */
module Scenarios {
  import opened BookingRules

  const Monika := "monika@gmail.com"

  /** A first booking on an empty store gets room 1. */
  lemma FirstBookingGetsRoomOne()
    ensures Book([], 10, "Monika M", Monika, 12, 13)
         == Step(Ok(Booking("Monika M", Monika, 1, 12, 13)), [Booking("Monika M", Monika, 1, 12, 13)])
  {
    assert IsRoomAvailable([], 1, 12, 13);
  }

  /** The same dates requested by a second guest get the next room. */
  lemma SameDatesGetNextRoom()
    ensures
      var first := Booking("Monika M", Monika, 1, 12, 13);
      Book([first], 10, "Jane Smith", "jane@example.com", 12, 13).outcome
        == Ok(Booking("Jane Smith", "jane@example.com", 2, 12, 13))
  {
    var first := Booking("Monika M", Monika, 1, 12, 13);
    assert !IsRoomAvailable([first], 1, 12, 13) by {
      assert Clashes([first][0], 1, 12, 13);
    }
    assert IsRoomAvailable([first], 2, 12, 13);
  }

  /** Looking up an email with no booking fails. */
  lemma LookupOfUnknownEmailFails()
    ensures Lookup([Booking("Monika M", Monika, 1, 12, 13)], "nonexistent@example.com") == Err(NoBookingFound)
  {
  }

  /** A booking can be cancelled once; the second cancel finds nothing. */
  lemma CancelTwice()
    ensures
      var once := Cancel([Booking("Monika M", Monika, 1, 12, 13)], Monika, 1);
      && once == Step(Ok(()), [])
      && Cancel(once.store, Monika, 1) == Step(Err(BookingNotFound), [])
  {
    var store := [Booking("Monika M", Monika, 1, 12, 13)];
    assert IsFirstMatch(store, ByEmailAndRoom(Monika, 1), 0);
  }

  /** Moving the only booking of room 1 to new dates keeps room 1. */
  lemma ModifyKeepsFreeRoom()
    ensures
      var store := [Booking("Monika M", Monika, 1, 12, 13)];
      Modify(store, 10, Monika, 14, 15)
        == Step(Ok(SameRoom(Booking("Monika M", Monika, 1, 14, 15))), [Booking("Monika M", Monika, 1, 14, 15)])
  {
    var store := [Booking("Monika M", Monika, 1, 12, 13)];
    assert IsFirstMatch(store, ByEmail(Monika), 0);
  }

  /** When another guest holds room 1 on the new dates, the booking moves
      to a room other than 1. */
  lemma ModifyMovesOffTakenRoom()
    ensures
      var store := [Booking("Monika M", Monika, 1, 12, 13), Booking("Another User", "another@example.com", 1, 14, 15)];
      var s := Modify(store, 10, Monika, 14, 15);
      && s.outcome.Ok? && s.outcome.value.NewRoom?
      && s.outcome.value.booking.roomNumber != 1
  {
    var store := [Booking("Monika M", Monika, 1, 12, 13), Booking("Another User", "another@example.com", 1, 14, 15)];
    assert IsFirstMatch(store, ByEmail(Monika), 0);
    assert !CurrentRoomFree(store, 0, 14, 15) by {
      assert Clashes(store[1], 1, 14, 15);
    }
    assert IsRoomAvailable(store, 2, 14, 15);
  }

  /** With all ten rooms taken by other guests, a modify for an email that
      holds no booking reports BookingNotFound: the email search comes
      before any room search. */
  lemma ModifyWithoutBookingIsNotFound()
    ensures
      var store := seq(10, i requires 0 <= i < 10 => Booking("User", "user@example.com", i + 1, 14, 15));
      Modify(store, 10, Monika, 14, 15) == Step(Err(BookingNotFound), store)
  {
    var store := seq(10, i requires 0 <= i < 10 => Booking("User", "user@example.com", i + 1, 14, 15));
    assert forall j :: 0 <= j < |store| ==> store[j].email != Monika;
  }
}
