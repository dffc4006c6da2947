/**
 * The shapes of the hotel, flight and package records that the hotel filter
 * and the bookmark repository read.  Only the fields those operations use are
 * kept; prices are integral amounts and distances exact reals.
 */
module Catalog {
  import opened Options

  datatype City = Makkah | Madinah | Jeddah

  /** The city as the source spells it ('makkah', 'madinah', 'jeddah'). */
  function CityName(c: City): string {
    match c
    case Makkah => "makkah"
    case Madinah => "madinah"
    case Jeddah => "jeddah"
  }

  datatype PriceRange = PriceRange(min: int, max: int, currency: string)

  /**
   * A hotel as `getHotelsWithDistanceToHaram` hands it to the filter.
   * `distanceToHaram` is None where the source holds NaN (a hotel in neither
   * holy city), which is falsy like `undefined`.
   */
  datatype Hotel = Hotel(
    id: string,
    name: string,
    city: City,
    priceRange: PriceRange,
    rating: real,
    amenities: seq<string>,
    distanceToHaram: Option<real>)

  datatype Flight = Flight(
    id: string,
    airline: string,
    flightNumber: string,
    departureCity: string,
    arrivalCity: string,
    price: int,
    currency: string)

  datatype UmrahPackage = UmrahPackage(
    id: string,
    name: string,
    duration: int,
    price: int,
    currency: string)
}
