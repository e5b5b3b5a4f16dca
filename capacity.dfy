/**
 * Capacity of the room pool: in a store that keeps its invariants, at most
 * n bookings cover any one day, and a create request covering a day on
 * which n bookings already stay is refused.
 */
module Capacity {
  import opened BookingRules

  /** Positions of the bookings whose stay covers day d. */
  ghost function InResidence(bs: seq<Booking>, d: int): set<nat> {
    set i: nat | i < |bs| && Stays(d, bs[i].checkInDate, bs[i].checkOutDate)
  }

  /** The room numbers 1..n. */
  ghost function Pool(n: nat): (p: set<int>)
    ensures forall k :: k in p <==> 1 <= k <= n
  {
    if n == 0 then {} else Pool(n - 1) + {n}
  }

  lemma {:induction false} PoolSize(n: nat)
    ensures |Pool(n)| == n
  {
    if n > 0 {
      PoolSize(n - 1);
      assert n !in Pool(n - 1);
    }
  }

  /** Bookings in pairwise distinct rooms of R are no more than R has rooms. */
  lemma {:induction false} DistinctRoomsBound(bs: seq<Booking>, s: set<nat>, r: set<int>)
    requires forall i :: i in s ==> i < |bs| && bs[i].roomNumber in r
    requires forall i, j :: i in s && j in s && i != j ==> bs[i].roomNumber != bs[j].roomNumber
    ensures |s| <= |r|
  {
    if s != {} {
      var i :| i in s;
      var s' := s - {i};
      var r' := r - {bs[i].roomNumber};
      DistinctRoomsBound(bs, s', r');
    }
  }

  lemma SubsetSize(a: set<nat>, b: set<nat>)
    requires a <= b
    ensures |a| <= |b|
  {
    assert b == a + (b - a);
  }

  /** At most n bookings stay on any one day. */
  lemma AtMostRoomCountConcurrent(bs: seq<Booking>, n: nat, d: int)
    requires WellFormed(bs, n) && NoDoubleBooking(bs)
    ensures |InResidence(bs, d)| <= n
  {
    var s := InResidence(bs, d);
    forall i, j | i in s && j in s && i != j
      ensures bs[i].roomNumber != bs[j].roomNumber
    {
      assert Overlap(bs[i].checkInDate, bs[i].checkOutDate, bs[j].checkInDate, bs[j].checkOutDate);
    }
    DistinctRoomsBound(bs, s, Pool(n));
    PoolSize(n);
  }

  /** When n bookings already stay on day d, a request covering d fails
      with NoRoomsAvailable. */
  lemma FullHouseRejects(bs: seq<Booking>, n: nat, d: int, name: string, email: string, checkIn: int, checkOut: int)
    requires WellFormed(bs, n) && NoDoubleBooking(bs)
    requires |InResidence(bs, d)| == n
    requires checkIn < checkOut && Stays(d, checkIn, checkOut)
    ensures Book(bs, n, name, email, checkIn, checkOut).outcome == Err(NoRoomsAvailable)
  {
    var s := Book(bs, n, name, email, checkIn, checkOut);
    if s.outcome.Ok? {
      BookKeepsInvariant(bs, n, name, email, checkIn, checkOut);
      var t := s.store;
      assert InResidence(bs, d) + {|bs|} <= InResidence(t, d);
      assert |InResidence(bs, d) + {|bs|}| == n + 1;
      SubsetSize(InResidence(bs, d) + {|bs|}, InResidence(t, d));
      AtMostRoomCountConcurrent(t, n, d);
      assert false;
    }
  }
}
