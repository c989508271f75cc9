/** Value types shared by every component of the delivery planner: coordinates
    identified by their exact text, directed street segments, delivery requests,
    delivery results and commands, and the geometry the planner borrows from
    outside (great-circle distance and bearings), passed in as plain functions. */
module GeoTypes {

  datatype Option<T> = None | Some(value: T)

  /** A point on the map. Two coordinates are equal exactly when their latitude
      texts and their longitude texts are equal, as the source's GeoCoord equality
      compares the text it was built from. */
  datatype GeoCoord = GeoCoord(latitudeText: string, longitudeText: string)

  /** A directed piece of street from `start` to `end`. */
  datatype StreetSegment = StreetSegment(start: GeoCoord, end: GeoCoord, name: string)

  /** The same piece of street travelled the other way. */
  function Reverse(s: StreetSegment): StreetSegment {
    StreetSegment(s.end, s.start, s.name)
  }

  /** Reversing twice gives the segment back, and a segment between two
      different coordinates differs from its reverse, so the forward and
      reverse copies a map line produces are two distinct segments. */
  lemma ReverseTwice(s: StreetSegment)
    ensures Reverse(Reverse(s)) == s
    ensures s.start != s.end ==> Reverse(s) != s
  {
  }

  /** An item to drop off at a location; the planner's synthetic return stop has item "". */
  datatype DeliveryRequest = DeliveryRequest(item: string, location: GeoCoord)

  datatype DeliveryResult = DeliverySuccess | NoRoute | BadCoord

  datatype DeliveryCommand =
    | Proceed(direction: string, streetName: string, distance: real)
    | Turn(direction: string, streetName: string)
    | Deliver(item: string)

  /** The geometry the core calls but does not define: distanceEarthMiles,
      angleOfLine and angleBetween2Lines. */
  datatype Geometry = Geometry(
    distance: (GeoCoord, GeoCoord) -> real,
    angleOfLine: StreetSegment -> real,
    angleBetween: (StreetSegment, StreetSegment) -> real)
  {
    /** The only facts about distances the proofs rely on. */
    ghost predicate Valid() {
      && (forall a, b :: distance(a, b) >= 0.0)
      && (forall a :: distance(a, a) == 0.0)
    }

    function Length(s: StreetSegment): real {
      distance(s.start, s.end)
    }

    /** Total length of a list of segments, summed front to back. */
    function SumLength(route: seq<StreetSegment>): real {
      if route == [] then 0.0 else Length(route[0]) + SumLength(route[1..])
    }
  }

  lemma {:induction false} SumLengthNonNegative(geo: Geometry, route: seq<StreetSegment>)
    requires geo.Valid()
    ensures geo.SumLength(route) >= 0.0
  {
    if route != [] {
      SumLengthNonNegative(geo, route[1..]);
    }
  }
}
