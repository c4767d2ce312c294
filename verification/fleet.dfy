/**
  Selling vehicles: the simulator's working copy loses, one step at a time,
  every record of the vehicle whose id comes first in the copy.
*/
module Fleet {
  import opened Seqs
  import opened Periods

  /** The vehicle id of every record, in order (`Select(v => v.VehicleId)`). */
  function Ids(xs: seq<Period>): (ids: seq<int>)
    ensures |ids| == |xs|
    ensures forall i :: 0 <= i < |xs| ==> ids[i] == xs[i].vehicleId
  {
    if xs == [] then [] else [xs[0].vehicleId] + Ids(xs[1..])
  }

  /** The fleet: distinct vehicle ids in order of first appearance. */
  function DistinctIds(xs: seq<Period>): (fleet: seq<int>)
  {
    Distinct(Ids(xs))
  }

  /** `RemoveAll(v => v.VehicleId == id)`: every record of one vehicle deleted. */
  function RemoveVehicle(xs: seq<Period>, id: int): (r: seq<Period>)
    ensures |r| <= |xs|
  {
    if xs == [] then []
    else if xs[0].vehicleId == id then RemoveVehicle(xs[1..], id)
    else [xs[0]] + RemoveVehicle(xs[1..], id)
  }

  /** The ids left after removing a vehicle are the ids with that vehicle dropped. */
  lemma {:induction false} RemoveVehicleIds(xs: seq<Period>, id: int)
    ensures Ids(RemoveVehicle(xs, id)) == Drop(Ids(xs), id)
  {
    if xs != [] {
      assert Ids(xs)[1..] == Ids(xs[1..]);
      RemoveVehicleIds(xs[1..], id);
    }
  }

  /** Reference definition: the records of the vehicles not in `sold`, in their original order. */
  function Without(xs: seq<Period>, sold: set<int>): (r: seq<Period>)
    ensures |r| <= |xs|
  {
    if xs == [] then []
    else if xs[0].vehicleId in sold then Without(xs[1..], sold)
    else [xs[0]] + Without(xs[1..], sold)
  }

  /** The filter keeps exactly the records whose vehicle is not sold. */
  lemma {:induction false} WithoutMembers(xs: seq<Period>, sold: set<int>)
    ensures forall p :: p in Without(xs, sold) <==> p in xs && p.vehicleId !in sold
  {
    if xs != [] {
      WithoutMembers(xs[1..], sold);
      assert forall p :: p in xs <==> p == xs[0] || p in xs[1..];
    }
  }

  lemma {:induction false} WithoutNothing(xs: seq<Period>)
    ensures Without(xs, {}) == xs
  {
    if xs != [] {
      WithoutNothing(xs[1..]);
    }
  }

  lemma {:induction false} RemoveVehicleIsWithout(xs: seq<Period>, id: int)
    ensures RemoveVehicle(xs, id) == Without(xs, {id})
  {
    if xs != [] {
      RemoveVehicleIsWithout(xs[1..], id);
    }
  }

  /** Filtering twice is filtering once by both sets. */
  lemma {:induction false} WithoutTwice(xs: seq<Period>, a: set<int>, b: set<int>)
    ensures Without(Without(xs, a), b) == Without(xs, a + b)
  {
    if xs != [] {
      WithoutTwice(xs[1..], a, b);
      if xs[0].vehicleId !in a {
        assert Without(xs, a)[0] == xs[0];
        assert Without(xs, a)[1..] == Without(xs[1..], a);
      }
    }
  }

  /**
    The filter keeps the relative order: the survivors of a prefix come
    before the survivors of the rest.
  */
  lemma {:induction false} WithoutAppend(a: seq<Period>, b: seq<Period>, sold: set<int>)
    ensures Without(a + b, sold) == Without(a, sold) + Without(b, sold)
  {
    if a == [] {
      assert a + b == b;
    } else {
      assert (a + b)[0] == a[0];
      assert (a + b)[1..] == a[1..] + b;
      WithoutAppend(a[1..], b, sold);
    }
  }

  /** Once every vehicle of the data is sold, no record is left. */
  lemma {:induction false} WithoutEveryVehicle(xs: seq<Period>, sold: set<int>)
    requires forall i :: 0 <= i < |xs| ==> xs[i].vehicleId in sold
    ensures Without(xs, sold) == []
  {
    if xs != [] {
      WithoutEveryVehicle(xs[1..], sold);
    }
  }

  /** Removing the first vehicle of the copy drops it from the front of the fleet. */
  lemma RemoveFirstVehicle(xs: seq<Period>)
    requires |xs| > 0
    ensures DistinctIds(xs)[0] == xs[0].vehicleId
    ensures DistinctIds(RemoveVehicle(xs, DistinctIds(xs)[0])) == DistinctIds(xs)[1..]
  {
    RemoveVehicleIds(xs, xs[0].vehicleId);
  }

  /**
    The removal loop: `soldCount` times, delete every record of the first
    distinct vehicle id of the copy. `None` is the exception LINQ's `First()`
    throws once the copy is empty.
  */
  function SellFirst(copy: seq<Period>, soldCount: nat): (r: Option<seq<Period>>)
    decreases soldCount
  {
    if soldCount == 0 then Some(copy)
    else if copy == [] then None
    else SellFirst(RemoveVehicle(copy, DistinctIds(copy)[0]), soldCount - 1)
  }

  /** One step of the removal loop sells the vehicle of the copy's first record. */
  lemma SellFirstStep(copy: seq<Period>, soldCount: nat)
    requires |copy| > 0 && soldCount > 0
    ensures SellFirst(copy, soldCount) == SellFirst(RemoveVehicle(copy, copy[0].vehicleId), soldCount - 1)
    ensures |DistinctIds(RemoveVehicle(copy, copy[0].vehicleId))| + 1 == |DistinctIds(copy)|
  {
    RemoveFirstVehicle(copy);
  }

  /** With enough vehicles in the copy, the removal loop completes. */
  lemma {:induction false} SellFirstCompletes(copy: seq<Period>, soldCount: nat)
    requires soldCount <= |DistinctIds(copy)|
    ensures SellFirst(copy, soldCount).Some?
    decreases soldCount
  {
    if soldCount > 0 {
      SellFirstStep(copy, soldCount);
      SellFirstCompletes(RemoveVehicle(copy, copy[0].vehicleId), soldCount - 1);
    }
  }

  /** Asked to sell more vehicles than the copy holds, the removal loop fails. */
  lemma {:induction false} SellFirstFails(copy: seq<Period>, soldCount: nat)
    requires soldCount > |DistinctIds(copy)|
    ensures SellFirst(copy, soldCount) == None
    decreases soldCount
  {
    if copy != [] {
      SellFirstStep(copy, soldCount);
      SellFirstFails(RemoveVehicle(copy, copy[0].vehicleId), soldCount - 1);
    }
  }

  /** The removal loop completes exactly when there are enough vehicles to sell. */
  lemma SellFirstSucceeds(copy: seq<Period>, soldCount: nat)
    ensures SellFirst(copy, soldCount).Some? <==> soldCount <= |DistinctIds(copy)|
  {
    if soldCount <= |DistinctIds(copy)| {
      SellFirstCompletes(copy, soldCount);
    } else {
      SellFirstFails(copy, soldCount);
    }
  }

  /** The vehicles sold after `soldCount` steps: the first `soldCount` of the fleet. */
  function Sold(xs: seq<Period>, soldCount: nat): (sold: set<int>)
    requires soldCount <= |DistinctIds(xs)|
  {
    set id | id in DistinctIds(xs)[..soldCount]
  }

  /** Every step sells a different vehicle: `soldCount` steps sell `soldCount` vehicles. */
  lemma SoldCount(xs: seq<Period>, soldCount: nat)
    requires soldCount <= |DistinctIds(xs)|
    ensures |Sold(xs, soldCount)| == soldCount
  {
    var prefix := DistinctIds(xs)[..soldCount];
    assert NoDuplicates(prefix);
    NoDuplicatesCardinality(prefix);
  }

  /** Selling no vehicle leaves the copy as it was. */
  lemma SellNothing(xs: seq<Period>)
    ensures Sold(xs, 0) == {}
    ensures SellFirst(xs, 0) == Some(xs)
    ensures SellFirst(xs, 0) == Some(Without(xs, Sold(xs, 0)))
  {
    assert Sold(xs, 0) == {};
    WithoutNothing(xs);
  }

  /** The vehicles sold in `soldCount` steps: the copy's first vehicle, then those sold from what is left. */
  lemma SoldAfterFirst(xs: seq<Period>, soldCount: nat)
    requires 0 < soldCount <= |DistinctIds(xs)|
    requires soldCount - 1 <= |DistinctIds(RemoveVehicle(xs, xs[0].vehicleId))|
    ensures Sold(xs, soldCount) == {xs[0].vehicleId} + Sold(RemoveVehicle(xs, xs[0].vehicleId), soldCount - 1)
  {
    var fleet := DistinctIds(xs);
    RemoveFirstVehicle(xs);
    assert DistinctIds(RemoveVehicle(xs, xs[0].vehicleId))[..soldCount - 1] == fleet[1..soldCount];
    assert fleet[..soldCount] == [fleet[0]] + fleet[1..soldCount];
  }

  /** If the loop projects after the first sale, it projects after all of them. */
  lemma ProjectionStep(xs: seq<Period>, soldCount: nat)
    requires 0 < soldCount <= |DistinctIds(xs)|
    requires soldCount - 1 <= |DistinctIds(RemoveVehicle(xs, xs[0].vehicleId))|
    requires var rest := RemoveVehicle(xs, xs[0].vehicleId);
      SellFirst(rest, soldCount - 1) == Some(Without(rest, Sold(rest, soldCount - 1)))
    ensures SellFirst(xs, soldCount) == Some(Without(xs, Sold(xs, soldCount)))
  {
    var id := xs[0].vehicleId;
    var rest := RemoveVehicle(xs, id);
    SellFirstStep(xs, soldCount);
    SoldAfterFirst(xs, soldCount);
    RemoveVehicleIsWithout(xs, id);
    WithoutTwice(xs, {id}, Sold(rest, soldCount - 1));
  }

  /**
    After `soldCount` steps the copy is the input restricted to the vehicles
    outside the first `soldCount` distinct ids.
  */
  lemma {:induction false} SellFirstIsProjection(xs: seq<Period>, soldCount: nat)
    requires soldCount <= |DistinctIds(xs)|
    ensures SellFirst(xs, soldCount) == Some(Without(xs, Sold(xs, soldCount)))
    decreases soldCount
  {
    if soldCount == 0 {
      SellNothing(xs);
    } else {
      RemoveFirstVehicle(xs);
      SellFirstIsProjection(RemoveVehicle(xs, xs[0].vehicleId), soldCount - 1);
      ProjectionStep(xs, soldCount);
    }
  }

  /** The copy left after selling `soldCount` vehicles. */
  function Remaining(xs: seq<Period>, soldCount: nat): (copy: seq<Period>)
    requires soldCount <= |DistinctIds(xs)|
    ensures copy == Without(xs, Sold(xs, soldCount))
    ensures forall p :: p in copy ==> p in xs
  {
    SellFirstSucceeds(xs, soldCount);
    SellFirstIsProjection(xs, soldCount);
    WithoutMembers(xs, Sold(xs, soldCount));
    SellFirst(xs, soldCount).value
  }

  /** Selling the whole fleet leaves nothing. */
  lemma SellWholeFleet(xs: seq<Period>)
    ensures Remaining(xs, |DistinctIds(xs)|) == []
  {
    var fleet := DistinctIds(xs);
    assert fleet[..|fleet|] == fleet;
    forall i | 0 <= i < |xs|
      ensures xs[i].vehicleId in Sold(xs, |fleet|)
    {
      assert Ids(xs)[i] == xs[i].vehicleId;
    }
    WithoutEveryVehicle(xs, Sold(xs, |fleet|));
  }
}
