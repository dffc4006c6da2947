/**
 * The two library functions of the mock catalogue: the hotel filter, a single
 * `filter` with an early-return predicate, and the clothing classifier, an
 * if-chain over the temperature.
 */
module MockData {
  import opened Options
  import opened Catalog
  import opened Subsequences

  datatype CityChoice = AllCities | OnlyCity(city: City)

  /** The optional properties of the `filters` argument; None is an absent property. */
  datatype HotelFilters = HotelFilters(
    city: Option<CityChoice>,
    priceMin: Option<int>,
    priceMax: Option<int>,
    rating: Option<real>,
    amenities: Option<seq<string>>,
    maxDistance: Option<real>)

  /** JavaScript truthiness of an optional number: present and not zero. */
  predicate IsSet(o: Option<int>) { o.Some? && o.value != 0 }

  predicate IsSetReal(o: Option<real>) { o.Some? && o.value != 0.0 }

  /** The filter callback, check by check, in the source's order. */
  predicate KeepHotel(h: Hotel, f: HotelFilters) {
    if f.city.Some? && f.city.value.OnlyCity? && h.city != f.city.value.city then false
    else if IsSet(f.priceMin) && h.priceRange.min < f.priceMin.value then false
    else if IsSet(f.priceMax) && h.priceRange.max > f.priceMax.value then false
    else if IsSetReal(f.rating) && h.rating < f.rating.value then false
    else if f.amenities.Some? && |f.amenities.value| > 0
            && !(forall a :: a in f.amenities.value ==> a in h.amenities) then false
    else if IsSetReal(f.maxDistance) && IsSetReal(h.distanceToHaram)
            && h.distanceToHaram.value > f.maxDistance.value then false
    else true
  }

  /** `filterHotels(filters)` over the given hotel list. */
  function FilterHotels(hotels: seq<Hotel>, f: HotelFilters): seq<Hotel> {
    if hotels == [] then []
    else
      var rest := FilterHotels(hotels[..|hotels| - 1], f);
      var h := hotels[|hotels| - 1];
      if KeepHotel(h, f) then rest + [h] else rest
  }

  /** The result keeps the input's order: it is a subsequence of the hotel list. */
  lemma {:induction false} FilterHotelsIsSubsequence(hotels: seq<Hotel>, f: HotelFilters)
    ensures IsSubsequence(FilterHotels(hotels, f), hotels)
  {
    if hotels != [] {
      var front := hotels[..|hotels| - 1];
      FilterHotelsIsSubsequence(front, f);
      var r := FilterHotels(hotels, f);
      if KeepHotel(hotels[|hotels| - 1], f) {
        assert r[..|r| - 1] == FilterHotels(front, f);
      }
    }
  }

  /** A hotel is in the result exactly when it is in the input and the callback keeps it. */
  lemma {:induction false} FilterHotelsMembers(hotels: seq<Hotel>, f: HotelFilters, h: Hotel)
    ensures h in FilterHotels(hotels, f) <==> h in hotels && KeepHotel(h, f)
  {
    if hotels != [] {
      var front := hotels[..|hotels| - 1];
      FilterHotelsMembers(front, f, h);
      assert hotels == front + [hotels[|hotels| - 1]];
    }
  }

  /**
   * Each hotel occurs in the result as often as in the input when the
   * callback keeps it, and not at all otherwise.
   */
  lemma {:induction false} FilterHotelsCounts(hotels: seq<Hotel>, f: HotelFilters, h: Hotel)
    ensures multiset(FilterHotels(hotels, f))[h] == if KeepHotel(h, f) then multiset(hotels)[h] else 0
  {
    if hotels != [] {
      var front := hotels[..|hotels| - 1];
      FilterHotelsCounts(front, f, h);
      assert hotels == front + [hotels[|hotels| - 1]];
    }
  }

  /** Every hotel returned satisfies each filter that is switched on. */
  lemma FilterHotelsSound(hotels: seq<Hotel>, f: HotelFilters, h: Hotel)
    requires h in FilterHotels(hotels, f)
    ensures h in hotels
    ensures f.city.Some? && f.city.value.OnlyCity? ==> h.city == f.city.value.city
    ensures IsSet(f.priceMin) ==> h.priceRange.min >= f.priceMin.value
    ensures IsSet(f.priceMax) ==> h.priceRange.max <= f.priceMax.value
    ensures IsSetReal(f.rating) ==> h.rating >= f.rating.value
    ensures f.amenities.Some? ==> forall a :: a in f.amenities.value ==> a in h.amenities
    ensures IsSetReal(f.maxDistance) && IsSetReal(h.distanceToHaram) ==>
              h.distanceToHaram.value <= f.maxDistance.value
  {
    FilterHotelsMembers(hotels, f, h);
  }

  /**
   * The filter is exact: a hotel meeting every switched-on filter is returned.
   * A hotel whose distance is unknown or zero is never dropped for distance.
   */
  lemma FilterHotelsComplete(hotels: seq<Hotel>, f: HotelFilters, h: Hotel)
    requires h in hotels
    requires f.city.Some? && f.city.value.OnlyCity? ==> h.city == f.city.value.city
    requires IsSet(f.priceMin) ==> h.priceRange.min >= f.priceMin.value
    requires IsSet(f.priceMax) ==> h.priceRange.max <= f.priceMax.value
    requires IsSetReal(f.rating) ==> h.rating >= f.rating.value
    requires f.amenities.Some? ==> forall a :: a in f.amenities.value ==> a in h.amenities
    requires IsSetReal(f.maxDistance) && IsSetReal(h.distanceToHaram) ==>
               h.distanceToHaram.value <= f.maxDistance.value
    ensures h in FilterHotels(hotels, f)
  {
    FilterHotelsMembers(hotels, f, h);
  }

  /** The filters with every falsy or inert value (0, 'all', an empty amenity list) made absent. */
  function WithoutInertFilters(f: HotelFilters): HotelFilters {
    HotelFilters(
      if f.city == Some(AllCities) then None else f.city,
      if f.priceMin == Some(0) then None else f.priceMin,
      if f.priceMax == Some(0) then None else f.priceMax,
      if f.rating == Some(0.0) then None else f.rating,
      if f.amenities == Some([]) then None else f.amenities,
      if f.maxDistance == Some(0.0) then None else f.maxDistance)
  }

  /** A filter set to 0 (or to 'all', or to no amenities) behaves as an absent one. */
  lemma {:induction false} InertFiltersChangeNothing(hotels: seq<Hotel>, f: HotelFilters)
    ensures FilterHotels(hotels, WithoutInertFilters(f)) == FilterHotels(hotels, f)
  {
    if hotels != [] {
      InertFiltersChangeNothing(hotels[..|hotels| - 1], f);
      var h := hotels[|hotels| - 1];
      assert KeepHotel(h, WithoutInertFilters(f)) == KeepHotel(h, f);
    }
  }

  /** `getClothingRecommendations(t)` answers CLOTHING_RECOMMENDATIONS at this index. */
  function ClothingRecommendationIndex(temperature: real): (i: nat)
    ensures i < 3
  {
    if temperature >= 30.0 then 0 else if temperature >= 20.0 then 1 else 2
  }

  /** The three bands: hot from 30 degrees, warm from 20 up to 30, mild below 20. */
  lemma ClothingBands(t: real)
    ensures ClothingRecommendationIndex(t) == 0 <==> t >= 30.0
    ensures ClothingRecommendationIndex(t) == 1 <==> 20.0 <= t < 30.0
    ensures ClothingRecommendationIndex(t) == 2 <==> t < 20.0
  {
  }

  /** A warmer day never gets a recommendation meant for a cooler band. */
  lemma ClothingMonotone(cooler: real, warmer: real)
    requires cooler <= warmer
    ensures ClothingRecommendationIndex(warmer) <= ClothingRecommendationIndex(cooler)
  {
  }
}
