# Hotel room booking engine, in Dafny

This project models the in-memory booking engine of a small hotel booking
service. The service keeps an ordered list of bookings over a fixed pool of
rooms numbered 1..N (N = 10 in the source). It offers five operations:

- create a booking in the first free room;
- look up the bookings for an email;
- list the guests as (name, room) pairs;
- cancel a booking by email and room number;
- modify a booking's dates. Modify keeps the booking's current room when it
  can, and otherwise falls back to the first free room.

The central property is the store invariant: no two bookings in the same
room have overlapping date ranges.

Layout:

- `booking_rules.dfy`, module `BookingRules`: the rules stated on values.
  It holds the overlap predicate, room availability, first-fit allocation,
  the `findIndex` searches, the email filter, the guest projection, and one
  step function per operation (`Book`, `Lookup`, `Cancel`, `Modify`). Each
  step function maps the store before a call to the outcome and the store
  after it. The module also has the invariants (`WellFormed`,
  `NoDoubleBooking`) and lemmas proving that every operation keeps them.
- `hotel_booking_service.dfy`, module `BookingService`: class
  `HotelBookingService`. It has a `bookings: seq<Booking>` field that the
  methods update in place and a `roomCount` constant. Loops implement the
  room scan and the index search. Each method is proved to give exactly the
  outcome and new store of its rule, and to keep `Valid()` (both
  invariants).
- `capacity.dfy`, module `Capacity`: at most N bookings cover any one day,
  and a create request covering a day on which N bookings already stay is
  refused.
- `modify_as_written.dfy`, module `ModifyAsWritten`: the source's
  current-room check exactly as written (see Findings), with a counterexample
  and a proof that it agrees with the corrected check when each email holds
  at most one booking.
- `scenarios.dfy`, module `Scenarios`: the situations the repository's tests
  exercise, plus two code paths of the program (a second guest on the same
  dates, and a repeated cancel), on concrete stores.

Modelling choices:

- Dates are integer day numbers. A stay occupies `[checkInDate, checkOutDate)`.
- Outcomes are `Result` values carrying an error kind: `NoRoomsAvailable`,
  `NoBookingFound` (lookup) or `BookingNotFound` (cancel and modify).
- The two success messages of modify are the tags `SameRoom` and `NewRoom`.

Points where the code does something other than what a reader might expect,
and the model follows the code:

- One might expect the fallback search of modify to leave out the guest's own
  booking, as the comment on line 93 does for the current-room check. The
  code counts it. `BookingRules.FallbackIgnoresOwnBooking` proves that the
  result is the same either way.
- The test at tests/app.test.js:292-313 expects a modify for an email without
  a booking, with all rooms full, to fail with "No rooms available". Lines
  82-86 look the email up first and answer "Booking not found"
  (`Scenarios.ModifyWithoutBookingIsNotFound`).
- Some test assertions expect a `booking` response key, and the plain
  "updated successfully" message for the new-room branch
  (tests/app.test.js:247, 282-283). The code returns `details` and the
  "with a new room" message, which the model's `NewRoom` tag follows.

## Model

| member | source | states |
|---|---|---|
| `BookingRules.Overlap` | src/services/hotelBookingService.js:9-10 | defines the overlap condition: the requested check-in is before the booked check-out and the requested check-out is after the booked check-in |
| `BookingRules.IsRoomAvailable` | src/services/hotelBookingService.js:5-13 | defines availability: no booking of the store holds the room over an overlapping range |
| `BookingRules.OverlapLaws` | src/services/hotelBookingService.js:9-10 | the overlap condition is symmetric; ranges that only touch never overlap; a non-empty range overlaps itself |
| `BookingRules.OverlapIffSharedDay` | src/services/hotelBookingService.js:9-10 | for well-formed ranges, overlap holds exactly when some day lies in both stays |
| `BookingRules.FirstAvailableRoom` | src/services/hotelBookingService.js:20-22 | returns the lowest room in 1..N with no overlapping booking in it; returns None exactly when every room 1..N has one |
| `BookingRules.FindIndex` | src/services/hotelBookingService.js:61 | returns the first position whose booking matches the query; returns None (the source's -1) exactly when none matches |
| `BookingRules.Book` | src/services/hotelBookingService.js:16-39 | fails with NoRoomsAvailable, store unchanged, exactly when all rooms 1..N clash; otherwise appends exactly one booking (the input name, email and dates, in the lowest free room) and leaves earlier bookings unchanged |
| `BookingRules.BookKeepsInvariant` | src/services/hotelBookingService.js:20-36 | create keeps every booking in a pool room with a non-empty range, and keeps the store free of double bookings |
| `BookingRules.BookingsFor` | src/services/hotelBookingService.js:44 | holds only bookings of the store with the queried email, each as often as the store holds it |
| `BookingRules.BookingsForConcat` | src/services/hotelBookingService.js:44 | the email filter distributes over concatenation, so it keeps store order |
| `BookingRules.Lookup` | src/services/hotelBookingService.js:42-50 | fails with NoBookingFound exactly when no booking has the email; otherwise returns the non-empty filtered list |
| `BookingRules.GuestList` | src/services/hotelBookingService.js:53-56 | one (name, room) entry per booking, same length as the store, entry i taken from booking i |
| `BookingRules.Cancel` | src/services/hotelBookingService.js:59-75 | fails with BookingNotFound, store unchanged, exactly when no booking has both the email and the room; otherwise removes only the first such booking, and the rest keep their order |
| `BookingRules.RemoveKeepsInvariant` | src/services/hotelBookingService.js:72 | removing one booking keeps both store invariants |
| `BookingRules.CancelKeepsInvariant` | src/services/hotelBookingService.js:59-75 | cancel keeps both store invariants |
| `BookingRules.Modify` | src/services/hotelBookingService.js:78-137 | fails with BookingNotFound, store unchanged, exactly when no booking has the email. If no other booking in the current room overlaps the new dates, only that booking's dates change. Otherwise, if some room is free, it succeeds by moving the booking to the lowest free room, which differs from the old room; if none is free it fails with NoRoomsAvailable and leaves the store unchanged |
| `BookingRules.CurrentRoomFree` | src/services/hotelBookingService.js:91-98 | defines the corrected current-room check: no booking other than the one being modified holds its room over an overlapping range |
| `BookingRules.ModifyAt` | src/services/hotelBookingService.js:100-136 | defines the two phases after the lookup: keep the room and change only the dates when the check passes; otherwise take the first available room, or fail with NoRoomsAvailable and leave the store unchanged |
| `BookingRules.ReplaceKeepsInvariant` | src/services/hotelBookingService.js:102-103 | replacing one entry by a well-formed booking that clashes with no other booking keeps both invariants |
| `BookingRules.ModifyKeepsInvariant` | src/services/hotelBookingService.js:78-137 | modify (with the corrected current-room check) keeps both store invariants |
| `BookingRules.FallbackIgnoresOwnBooking` | src/services/hotelBookingService.js:112-120 | in the fallback branch, searching the whole store finds the same room as searching without the guest's own booking |
| `BookingRules.GuestListAfterBook` | src/services/hotelBookingService.js:36 | after a successful create the guest list gains exactly (name, assigned room) at its end; after a failed one it is unchanged |
| `BookingRules.GuestListRemove` | src/services/hotelBookingService.js:72 | removing the booking at position i removes exactly guest i |
| `BookingRules.GuestListAfterCancel` | src/services/hotelBookingService.js:59-75 | a successful cancel removes exactly one entry of the guest list |
| `Capacity.AtMostRoomCountConcurrent` | src/services/hotelBookingService.js:2 | in a store that keeps the invariants, at most N bookings cover any one day |
| `Capacity.FullHouseRejects` | src/services/hotelBookingService.js:20-26 | when N bookings already cover a day, a create covering that day fails with NoRoomsAvailable |
| `ModifyAsWritten.CurrentRoomFreeAsWritten` | src/services/hotelBookingService.js:91-98 | defines the current-room check as written: no booking with another email holds the room over an overlapping range |
| `ModifyAsWritten.ModifyAsWritten` | src/services/hotelBookingService.js:78-137 | modify with the check as written: BookingNotFound exactly when no booking has the email; the room is kept whenever no booking of another email overlaps in it; when the check fails, the result equals the corrected modify's, so its fallback guarantees hold |
| `ModifyAsWritten.AgreesWhenEmailsUnique` | src/services/hotelBookingService.js:93 | when each email holds at most one booking, modify as written equals the corrected modify |
| `ModifyAsWritten.AsWrittenDoubleBooks` | src/services/hotelBookingService.js:93 | two creates for one email on days 12-13 and 14-15 give a valid store; modifying the first booking to 14-15 as written double-books room 1 |
| `ModifyAsWritten.CorrectedMovesToFreeRoom` | src/services/hotelBookingService.js:112-131 | on that store the corrected modify moves the booking to room 2 and keeps the invariant |
| `BookingService.HotelBookingService.constructor` | src/services/hotelBookingService.js:1-2 | a new service has no bookings, the given room count, and is valid |
| `BookingService.HotelBookingService.FindAvailableRoom` | src/services/hotelBookingService.js:112-120 | the room scan returns the first-fit room of the current store |
| `BookingService.HotelBookingService.FindBookingIndex` | src/services/hotelBookingService.js:82 | the index scan returns the first matching position of the current store |
| `BookingService.HotelBookingService.BookRoom` | src/services/hotelBookingService.js:16-39 | the outcome and new store are those of `Book`; the store stays valid |
| `BookingService.HotelBookingService.GetBookingDetails` | src/services/hotelBookingService.js:42-50 | returns the outcome of `Lookup`, whose entries are bookings of the store with the email; it does not change the store |
| `BookingService.HotelBookingService.GetAllGuests` | src/services/hotelBookingService.js:53-56 | returns the guest list, one entry per booking; it does not change the store |
| `BookingService.HotelBookingService.CancelBooking` | src/services/hotelBookingService.js:59-75 | the outcome and new store are those of `Cancel`; the store stays valid |
| `BookingService.HotelBookingService.ModifyBooking` | src/services/hotelBookingService.js:78-137 | the outcome and new store are those of `Modify`; the store stays valid |
| `Scenarios.FirstBookingGetsRoomOne` | tests/app.test.js:39-57 | the first booking on an empty ten-room store gets room 1 |
| `Scenarios.SameDatesGetNextRoom` | src/services/hotelBookingService.js:20-22 | a second guest asking for the same dates gets room 2 |
| `Scenarios.LookupOfUnknownEmailFails` | tests/app.test.js:149-154 | a lookup for an email with no booking fails with NoBookingFound |
| `Scenarios.CancelTwice` | src/services/hotelBookingService.js:61-72 | cancelling the only booking empties the store (as tests/app.test.js:192-211 expects), and repeating the same cancel fails with BookingNotFound |
| `Scenarios.ModifyKeepsFreeRoom` | tests/app.test.js:228-253 | moving the only booking of room 1 to new dates keeps room 1 |
| `Scenarios.ModifyMovesOffTakenRoom` | tests/app.test.js:255-290 | when another guest holds room 1 on the new dates, the booking moves to a room other than 1 |
| `Scenarios.ModifyWithoutBookingIsNotFound` | src/services/hotelBookingService.js:82-86 | with all rooms full, a modify for an email without a booking fails with BookingNotFound, not NoRoomsAvailable |

## Findings

| source | as written | input that shows it | evidently intended | confidence | as-written member | corrected member |
|---|---|---|---|---|---|---|
| src/services/hotelBookingService.js:93 | the current-room check skips every booking with the guest's email, not only the one being modified | create twice for one email, days 12-13 then 14-15 (both room 1), then modify that email to days 14-15: both bookings hold room 1 on days 14-15 | skip only the booking at `bookingIndex`, as the comment on that line says; `BookingRules.ModifyKeepsInvariant` proves the corrected modify never double-books | high, not executed | `ModifyAsWritten.AsWrittenDoubleBooks` | `BookingRules.Modify` |

## Left out

- BookingService.HotelBookingService.ModifyBooking: uses the corrected current-room check (see Findings). The check as written is `ModifyAsWritten.ModifyAsWritten`, and `ModifyAsWritten.AgreesWhenEmailsUnique` proves the two agree whenever each email holds at most one booking.
- HTTP transport, status codes, JSON bodies and message texts: outcomes are error kinds, plus the `SameRoom`/`NewRoom` tags for the two modify messages. Routing (src/routes/hotelRoomBookings.js) and the server start (src/app.js) are not part of this model.
- Request validation: it is a call into an external library. Only two of its rules are kept, as preconditions:
  - check-out strictly after check-in on create and modify (src/validations/bookingValidations.js:16-21, 49-54);
  - room number at least 1 on cancel (src/validations/bookingValidations.js:36).
  Email syntax, ISO-8601 syntax and required-field checks are not modelled.
- Date parsing: dates are integer day numbers. `new Date(...)` millisecond values and invalid dates (whose comparisons are all false) are not modelled.
- Room numbers sent as strings: the cancel search compares with strict equality, so a room number "1" that the validator accepts would never match. The model types room numbers as integers.
- Lines 68-69 (freeing a room object) have no effect, because the pool holds plain numbers. They are not modelled.
- Object identity: the source returns the very object stored in the list and mutates its fields in place. The model returns a value and replaces the entry at its position, so aliasing between a response and the store is not captured.
- Module-level state and the test setup that does not reset it: the store is an explicitly constructed object.
- Concurrency: requests run one at a time, and so do the modelled operations.
