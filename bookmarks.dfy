/**
 * The bookmark repository: one ordered list of bookmarks kept in browser
 * storage.  Every operation reads the whole list, changes it and writes it
 * back; a read or write that throws is a parameter of the call.
 */
module Bookmarks {
  import opened Options
  import opened Subsequences
  import opened Decimal
  import opened Catalog
  import opened Text
  import opened Lookup

  datatype BookmarkType = HotelType | FlightType | PackageType

  datatype Bookmark = Bookmark(
    id: string,
    kind: BookmarkType,
    referenceId: string,
    name: string,
    description: string,
    createdAt: string,
    notes: Option<string>)

  // ---------------------------------------------------------------------
  // The records the three add operations build
  // ---------------------------------------------------------------------

  /** `bookmark-${Date.now()}` for the clock reading `clockMs`. */
  function BookmarkId(clockMs: int): string {
    "bookmark-" + IntToString(clockMs)
  }

  /** The clock reading can be read back from the id. */
  lemma IdReadsBackClock(clockMs: int)
    ensures |BookmarkId(clockMs)| > 9 && BookmarkId(clockMs)[..9] == "bookmark-"
    ensures NumberValue(BookmarkId(clockMs)[9..]) == Some(clockMs)
  {
    assert BookmarkId(clockMs)[9..] == IntToString(clockMs);
    IntToStringRoundTrip(clockMs);
  }

  /** Bookmarks made at different clock readings get different ids. */
  lemma DistinctClocksDistinctIds(a: int, b: int)
    requires a != b
    ensures BookmarkId(a) != BookmarkId(b)
  {
    IdReadsBackClock(a);
    IdReadsBackClock(b);
  }

  function HotelDescription(hotel: Hotel): string {
    CityName(hotel.city) + " - " + IntToString(hotel.priceRange.min) + "-"
      + IntToString(hotel.priceRange.max) + " " + hotel.priceRange.currency
  }

  function FlightName(flight: Flight): string {
    flight.airline + " - " + flight.flightNumber
  }

  function FlightDescription(flight: Flight): string {
    flight.departureCity + " to " + flight.arrivalCity + " - "
      + IntToString(flight.price) + " " + flight.currency
  }

  function PackageDescription(pkg: UmrahPackage): string {
    IntToString(pkg.duration) + " days - " + IntToString(pkg.price) + " " + pkg.currency
  }

  function NewHotelBookmark(hotel: Hotel, clockMs: int, createdAt: string, notes: Option<string>): (b: Bookmark)
    ensures b.kind == HotelType && b.referenceId == hotel.id && b.name == hotel.name
    ensures b.description == HotelDescription(hotel)
    ensures b.id == BookmarkId(clockMs) && b.createdAt == createdAt && b.notes == notes
  {
    Bookmark(BookmarkId(clockMs), HotelType, hotel.id, hotel.name, HotelDescription(hotel), createdAt, notes)
  }

  function NewFlightBookmark(flight: Flight, clockMs: int, createdAt: string, notes: Option<string>): (b: Bookmark)
    ensures b.kind == FlightType && b.referenceId == flight.id
    ensures b.name == FlightName(flight) && b.description == FlightDescription(flight)
    ensures b.id == BookmarkId(clockMs) && b.createdAt == createdAt && b.notes == notes
  {
    Bookmark(BookmarkId(clockMs), FlightType, flight.id, FlightName(flight), FlightDescription(flight), createdAt, notes)
  }

  function NewPackageBookmark(pkg: UmrahPackage, clockMs: int, createdAt: string, notes: Option<string>): (b: Bookmark)
    ensures b.kind == PackageType && b.referenceId == pkg.id && b.name == pkg.name
    ensures b.description == PackageDescription(pkg)
    ensures b.id == BookmarkId(clockMs) && b.createdAt == createdAt && b.notes == notes
  {
    Bookmark(BookmarkId(clockMs), PackageType, pkg.id, pkg.name, PackageDescription(pkg), createdAt, notes)
  }

  /** A hotel in Makkah priced 250 to 500 USD is described as "makkah - 250-500 USD". */
  lemma HotelDescriptionExample(hotel: Hotel)
    requires hotel.city == Makkah && hotel.priceRange == PriceRange(250, 500, "USD")
    ensures HotelDescription(hotel) == "makkah - 250-500 USD"
  {
    assert NatToString(2) == "2" && NatToString(25) == "25" && NatToString(250) == "250";
    assert NatToString(5) == "5" && NatToString(50) == "50" && NatToString(500) == "500";
  }

  /** The hotel description as words and spaces. */
  lemma HotelDescriptionShape(hotel: Hotel)
    ensures HotelDescription(hotel)
         == CityName(hotel.city) + [' '] + "-" + [' ']
            + (IntToString(hotel.priceRange.min) + "-" + IntToString(hotel.priceRange.max)
               + [' '] + hotel.priceRange.currency)
  {
    assert " - " == [' '] + "-" + [' '];
  }

  /**
   * The hotel description splits at its spaces into the city, a dash, the
   * price range and the words of the currency, and a range of non-negative
   * prices splits at its dash into the two prices.
   */
  lemma HotelDescriptionReadsBack(hotel: Hotel)
    ensures var range := IntToString(hotel.priceRange.min) + "-" + IntToString(hotel.priceRange.max);
            var words := Split(HotelDescription(hotel), ' ');
            && words == [CityName(hotel.city), "-", range] + Split(hotel.priceRange.currency, ' ')
            && (' ' !in hotel.priceRange.currency ==>
                  words == [CityName(hotel.city), "-", range, hotel.priceRange.currency])
    ensures hotel.priceRange.min >= 0 && hotel.priceRange.max >= 0 ==>
            var prices := Split(IntToString(hotel.priceRange.min) + "-" + IntToString(hotel.priceRange.max), '-');
            |prices| == 2 && NumberValue(prices[0]) == Some(hotel.priceRange.min)
                          && NumberValue(prices[1]) == Some(hotel.priceRange.max)
  {
    var city, currency := CityName(hotel.city), hotel.priceRange.currency;
    var range := IntToString(hotel.priceRange.min) + "-" + IntToString(hotel.priceRange.max);
    var tail := range + [' '] + currency;
    IntToStringExcludes(hotel.priceRange.min, ' ');
    IntToStringExcludes(hotel.priceRange.max, ' ');
    assert ' ' !in range;
    calc {
      Split(HotelDescription(hotel), ' ');
      { HotelDescriptionShape(hotel); }
      Split(city + [' '] + "-" + [' '] + tail, ' ');
      { SplitAroundWord(city, "-", tail, ' '); }
      Split(city, ' ') + ["-"] + Split(tail, ' ');
      { WordThenRest(range, currency, ' '); }
      Split(city, ' ') + ["-"] + ([range] + Split(currency, ' '));
      { SplitWithoutSeparator(city, ' '); }
      [city, "-", range] + Split(currency, ' ');
    }
    if ' ' !in currency {
      SplitWithoutSeparator(currency, ' ');
    }
    if hotel.priceRange.min >= 0 && hotel.priceRange.max >= 0 {
      PriceRangeReadsBack(hotel.priceRange.min, hotel.priceRange.max);
    }
  }

  /** "min-max" of two non-negative prices splits at its dash into the two prices. */
  lemma PriceRangeReadsBack(min: int, max: int)
    requires min >= 0 && max >= 0
    ensures var prices := Split(IntToString(min) + "-" + IntToString(max), '-');
            |prices| == 2 && NumberValue(prices[0]) == Some(min) && NumberValue(prices[1]) == Some(max)
  {
    var lo, hi := IntToString(min), IntToString(max);
    DigitsExclude(lo, '-');
    DigitsExclude(hi, '-');
    WordThenRest(lo, hi, '-');
    SplitWithoutSeparator(hi, '-');
    IntToStringRoundTrip(min);
    IntToStringRoundTrip(max);
  }

  /** The flight name splits into the airline's words, a dash and the flight number's words. */
  lemma FlightNameReadsBack(flight: Flight)
    ensures var words := Split(FlightName(flight), ' ');
            && words == Split(flight.airline, ' ') + ["-"] + Split(flight.flightNumber, ' ')
            && (' ' !in flight.airline && ' ' !in flight.flightNumber ==>
                  words == [flight.airline, "-", flight.flightNumber])
  {
    assert FlightName(flight) == flight.airline + [' '] + "-" + [' '] + flight.flightNumber;
    SplitAroundWord(flight.airline, "-", flight.flightNumber, ' ');
    if ' ' !in flight.airline && ' ' !in flight.flightNumber {
      SplitWithoutSeparator(flight.airline, ' ');
      SplitWithoutSeparator(flight.flightNumber, ' ');
    }
  }

  /** A number's text followed by a space splits off as one word. */
  lemma NumberThenWords(n: int, rest: string)
    ensures Split(IntToString(n) + [' '] + rest, ' ') == [IntToString(n)] + Split(rest, ' ')
  {
    IntToStringExcludes(n, ' ');
    WordThenRest(IntToString(n), rest, ' ');
  }

  /** The flight description as words and spaces. */
  lemma FlightDescriptionShape(flight: Flight)
    ensures FlightDescription(flight)
         == flight.departureCity + [' '] + "to" + [' ']
            + (flight.arrivalCity + [' '] + "-" + [' '] + (IntToString(flight.price) + [' '] + flight.currency))
  {
    assert " to " == [' '] + "to" + [' '];
    assert " - " == [' '] + "-" + [' '];
  }

  /** The flight description splits into its cities' words, the price and the currency's words. */
  lemma FlightDescriptionWords(flight: Flight)
    ensures Split(FlightDescription(flight), ' ')
         == Split(flight.departureCity, ' ') + ["to"] + Split(flight.arrivalCity, ' ')
            + ["-", IntToString(flight.price)] + Split(flight.currency, ' ')
  {
    var dep, arr, cur := flight.departureCity, flight.arrivalCity, flight.currency;
    var price := IntToString(flight.price);
    var tail := price + [' '] + cur;
    var middle := arr + [' '] + "-" + [' '] + tail;
    calc {
      Split(FlightDescription(flight), ' ');
      { FlightDescriptionShape(flight); }
      Split(dep + [' '] + "to" + [' '] + middle, ' ');
      { SplitAroundWord(dep, "to", middle, ' '); }
      Split(dep, ' ') + ["to"] + Split(middle, ' ');
      { SplitAroundWord(arr, "-", tail, ' '); }
      Split(dep, ' ') + ["to"] + (Split(arr, ' ') + ["-"] + Split(tail, ' '));
      { NumberThenWords(flight.price, cur); }
      Split(dep, ' ') + ["to"] + (Split(arr, ' ') + ["-"] + ([price] + Split(cur, ' ')));
      Split(dep, ' ') + ["to"] + Split(arr, ' ') + ["-", price] + Split(cur, ' ');
    }
  }

  /**
   * The flight description splits into the departure city's words, "to", the
   * arrival city's words, a dash, the price, which reads back, and the words
   * of the currency.
   */
  lemma FlightDescriptionReadsBack(flight: Flight)
    ensures var price := IntToString(flight.price);
            var words := Split(FlightDescription(flight), ' ');
            && words == Split(flight.departureCity, ' ') + ["to"] + Split(flight.arrivalCity, ' ')
                        + ["-", price] + Split(flight.currency, ' ')
            && NumberValue(price) == Some(flight.price)
            && (' ' !in flight.departureCity && ' ' !in flight.arrivalCity && ' ' !in flight.currency ==>
                  words == [flight.departureCity, "to", flight.arrivalCity, "-", price, flight.currency])
  {
    FlightDescriptionWords(flight);
    IntToStringRoundTrip(flight.price);
    if ' ' !in flight.departureCity && ' ' !in flight.arrivalCity && ' ' !in flight.currency {
      SplitWithoutSeparator(flight.departureCity, ' ');
      SplitWithoutSeparator(flight.arrivalCity, ' ');
      SplitWithoutSeparator(flight.currency, ' ');
    }
  }

  /** The package description as words and spaces. */
  lemma PackageDescriptionShape(pkg: UmrahPackage)
    ensures PackageDescription(pkg)
         == IntToString(pkg.duration) + [' '] + "days" + [' ']
            + ("-" + [' '] + (IntToString(pkg.price) + [' '] + pkg.currency))
  {
    assert " days - " == [' '] + "days" + [' '] + ("-" + [' ']);
  }

  /** The package description splits into the duration, "days", a dash, the price and the currency's words. */
  lemma PackageDescriptionWords(pkg: UmrahPackage)
    ensures Split(PackageDescription(pkg), ' ')
         == [IntToString(pkg.duration), "days", "-", IntToString(pkg.price)] + Split(pkg.currency, ' ')
  {
    var duration, price := IntToString(pkg.duration), IntToString(pkg.price);
    var tail := price + [' '] + pkg.currency;
    IntToStringExcludes(pkg.duration, ' ');
    calc {
      Split(PackageDescription(pkg), ' ');
      { PackageDescriptionShape(pkg); }
      Split(duration + [' '] + "days" + [' '] + ("-" + [' '] + tail), ' ');
      { SplitAroundWord(duration, "days", "-" + [' '] + tail, ' '); }
      Split(duration, ' ') + ["days"] + Split("-" + [' '] + tail, ' ');
      { SplitWithoutSeparator(duration, ' '); WordThenRest("-", tail, ' '); }
      [duration] + ["days"] + (["-"] + Split(tail, ' '));
      { NumberThenWords(pkg.price, pkg.currency); }
      [duration] + ["days"] + (["-"] + ([price] + Split(pkg.currency, ' ')));
      [duration, "days", "-", price] + Split(pkg.currency, ' ');
    }
  }

  /**
   * The package description splits into the duration and the price, which
   * read back, and the words of the currency.
   */
  lemma PackageDescriptionReadsBack(pkg: UmrahPackage)
    ensures var duration, price := IntToString(pkg.duration), IntToString(pkg.price);
            var words := Split(PackageDescription(pkg), ' ');
            && words == [duration, "days", "-", price] + Split(pkg.currency, ' ')
            && NumberValue(duration) == Some(pkg.duration) && NumberValue(price) == Some(pkg.price)
            && (' ' !in pkg.currency ==> words == [duration, "days", "-", price, pkg.currency])
  {
    PackageDescriptionWords(pkg);
    IntToStringRoundTrip(pkg.duration);
    IntToStringRoundTrip(pkg.price);
    if ' ' !in pkg.currency {
      SplitWithoutSeparator(pkg.currency, ' ');
    }
  }

  // ---------------------------------------------------------------------
  // The list operations
  // ---------------------------------------------------------------------

  /** `getAllBookmarks()`: the stored list, or [] when the key is unset or the read throws. */
  function Loaded(stored: Option<seq<Bookmark>>, readFails: bool): seq<Bookmark> {
    if readFails || stored.None? then [] else stored.value
  }

  /** `bookmarks.some(b => b.type === kind && b.referenceId === referenceId)`. */
  predicate IsBookmarked(bookmarks: seq<Bookmark>, kind: BookmarkType, referenceId: string) {
    exists i :: 0 <= i < |bookmarks| && bookmarks[i].kind == kind && bookmarks[i].referenceId == referenceId
  }

  /** No two bookmarks are for the same item. */
  predicate NoDuplicates(bookmarks: seq<Bookmark>) {
    forall i, j :: 0 <= i < j < |bookmarks| ==>
      bookmarks[i].kind != bookmarks[j].kind || bookmarks[i].referenceId != bookmarks[j].referenceId
  }

  /** `filter(b => b.type === kind)`. */
  function OfType(bookmarks: seq<Bookmark>, kind: BookmarkType): seq<Bookmark> {
    if bookmarks == [] then []
    else
      var rest := OfType(bookmarks[..|bookmarks| - 1], kind);
      var b := bookmarks[|bookmarks| - 1];
      if b.kind == kind then rest + [b] else rest
  }

  /** `filter(b => b.id !== id)`. */
  function WithoutId(bookmarks: seq<Bookmark>, id: string): seq<Bookmark> {
    if bookmarks == [] then []
    else
      var rest := WithoutId(bookmarks[..|bookmarks| - 1], id);
      var b := bookmarks[|bookmarks| - 1];
      if b.id != id then rest + [b] else rest
  }

  /** How many bookmarks carry the id. */
  function CountWithId(bookmarks: seq<Bookmark>, id: string): nat {
    if bookmarks == [] then 0
    else CountWithId(bookmarks[..|bookmarks| - 1], id) + (if bookmarks[|bookmarks| - 1].id == id then 1 else 0)
  }

  /** The id `findIndex(b => b.id === id)` compares. */
  function BookmarkIdOf(b: Bookmark): string { b.id }

  /** The stored list after a call, and the call's boolean answer. */
  datatype Outcome = Outcome(stored: Option<seq<Bookmark>>, ok: bool)

  /** A write of `bookmarks`: nothing changes when it throws. */
  function Written(stored: Option<seq<Bookmark>>, bookmarks: seq<Bookmark>, writeFails: bool): Outcome {
    if writeFails then Outcome(stored, false) else Outcome(Some(bookmarks), true)
  }

  /** `add*Bookmark` with the record it builds. */
  function AddOutcome(stored: Option<seq<Bookmark>>, rec: Bookmark, readFails: bool, writeFails: bool): Outcome {
    var bookmarks := Loaded(stored, readFails);
    if IsBookmarked(bookmarks, rec.kind, rec.referenceId) then Outcome(stored, false)
    else Written(stored, bookmarks + [rec], writeFails)
  }

  /** `removeBookmark(id)`. */
  function RemoveOutcome(stored: Option<seq<Bookmark>>, id: string, readFails: bool, writeFails: bool): Outcome {
    var bookmarks := Loaded(stored, readFails);
    var updated := WithoutId(bookmarks, id);
    if |updated| == |bookmarks| then Outcome(stored, false)
    else Written(stored, updated, writeFails)
  }

  /** `updateBookmarkNotes(id, notes)`. */
  function NotesOutcome(stored: Option<seq<Bookmark>>, id: string, notes: string, readFails: bool, writeFails: bool): Outcome {
    var bookmarks := Loaded(stored, readFails);
    match FirstIndexOf(bookmarks, BookmarkIdOf, id)
    case None => Outcome(stored, false)
    case Some(i) => Written(stored, bookmarks[i := bookmarks[i].(notes := Some(notes))], writeFails)
  }

  /** `clearAllBookmarks()`. */
  function ClearOutcome(stored: Option<seq<Bookmark>>, writeFails: bool): Outcome {
    Written(stored, [], writeFails)
  }

  class BookmarkService {
    /** What storage holds under the key `umrah_bookmarks`; None while the key is unset. */
    var stored: Option<seq<Bookmark>>

    constructor (initial: Option<seq<Bookmark>>)
      ensures stored == initial
    {
      stored := initial;
    }

    /** `getAllBookmarks()`. */
    method GetAllBookmarks(readFails: bool) returns (bookmarks: seq<Bookmark>)
      ensures readFails || stored.None? ==> bookmarks == []
      ensures !readFails && stored.Some? ==> bookmarks == stored.value
    {
      if readFails {
        return [];
      }
      match stored {
        case None => bookmarks := [];
        case Some(s) => bookmarks := s;
      }
    }

    /** `getBookmarksByType(kind)`. */
    method GetBookmarksByType(kind: BookmarkType, readFails: bool) returns (bookmarks: seq<Bookmark>)
      ensures bookmarks == OfType(Loaded(stored, readFails), kind)
    {
      var all := GetAllBookmarks(readFails);
      bookmarks := OfType(all, kind);
    }

    /** `storageService.set(BOOKMARK_KEY, bookmarks)` inside the try block. */
    method Save(bookmarks: seq<Bookmark>, writeFails: bool) returns (ok: bool)
      modifies this
      ensures Outcome(stored, ok) == Written(old(stored), bookmarks, writeFails)
    {
      if writeFails {
        return false;
      }
      stored := Some(bookmarks);
      ok := true;
    }

    /** The body shared by the three add operations, given the record they build. */
    method AddRecord(rec: Bookmark, readFails: bool, writeFails: bool) returns (ok: bool)
      modifies this
      ensures Outcome(stored, ok) == AddOutcome(old(stored), rec, readFails, writeFails)
    {
      var bookmarks := GetAllBookmarks(readFails);
      if IsBookmarked(bookmarks, rec.kind, rec.referenceId) {
        return false;
      }
      bookmarks := bookmarks + [rec];
      ok := Save(bookmarks, writeFails);
    }

    /** `addHotelBookmark(hotel, notes)` at clock reading `clockMs`. */
    method AddHotelBookmark(hotel: Hotel, notes: Option<string>, clockMs: int, createdAt: string,
                            readFails: bool, writeFails: bool) returns (ok: bool)
      modifies this
      ensures Outcome(stored, ok)
              == AddOutcome(old(stored), NewHotelBookmark(hotel, clockMs, createdAt, notes), readFails, writeFails)
    {
      ok := AddRecord(NewHotelBookmark(hotel, clockMs, createdAt, notes), readFails, writeFails);
    }

    /** `addFlightBookmark(flight, notes)` at clock reading `clockMs`. */
    method AddFlightBookmark(flight: Flight, notes: Option<string>, clockMs: int, createdAt: string,
                             readFails: bool, writeFails: bool) returns (ok: bool)
      modifies this
      ensures Outcome(stored, ok)
              == AddOutcome(old(stored), NewFlightBookmark(flight, clockMs, createdAt, notes), readFails, writeFails)
    {
      ok := AddRecord(NewFlightBookmark(flight, clockMs, createdAt, notes), readFails, writeFails);
    }

    /** `addPackageBookmark(pkg, notes)` at clock reading `clockMs`. */
    method AddPackageBookmark(pkg: UmrahPackage, notes: Option<string>, clockMs: int, createdAt: string,
                              readFails: bool, writeFails: bool) returns (ok: bool)
      modifies this
      ensures Outcome(stored, ok)
              == AddOutcome(old(stored), NewPackageBookmark(pkg, clockMs, createdAt, notes), readFails, writeFails)
    {
      ok := AddRecord(NewPackageBookmark(pkg, clockMs, createdAt, notes), readFails, writeFails);
    }

    /** `removeBookmark(id)`. */
    method RemoveBookmark(id: string, readFails: bool, writeFails: bool) returns (ok: bool)
      modifies this
      ensures Outcome(stored, ok) == RemoveOutcome(old(stored), id, readFails, writeFails)
    {
      var bookmarks := GetAllBookmarks(readFails);
      var updated := WithoutId(bookmarks, id);
      if |updated| == |bookmarks| {
        return false;
      }
      ok := Save(updated, writeFails);
    }

    /** `updateBookmarkNotes(id, notes)`. */
    method UpdateBookmarkNotes(id: string, notes: string, readFails: bool, writeFails: bool) returns (ok: bool)
      modifies this
      ensures Outcome(stored, ok) == NotesOutcome(old(stored), id, notes, readFails, writeFails)
    {
      var bookmarks := GetAllBookmarks(readFails);
      var index := FirstIndexOf(bookmarks, BookmarkIdOf, id);
      if index.None? {
        return false;
      }
      bookmarks := bookmarks[index.value := bookmarks[index.value].(notes := Some(notes))];
      ok := Save(bookmarks, writeFails);
    }

    /** `clearAllBookmarks()`. */
    method ClearAllBookmarks(writeFails: bool) returns (ok: bool)
      modifies this
      ensures Outcome(stored, ok) == ClearOutcome(old(stored), writeFails)
    {
      ok := Save([], writeFails);
    }
  }

  // ---------------------------------------------------------------------
  // Reading and the type filter
  // ---------------------------------------------------------------------

  /** The type filter keeps exactly the bookmarks of that type. */
  lemma {:induction false} OfTypeMembers(bookmarks: seq<Bookmark>, kind: BookmarkType, b: Bookmark)
    ensures b in OfType(bookmarks, kind) <==> b in bookmarks && b.kind == kind
  {
    if bookmarks != [] {
      var front := bookmarks[..|bookmarks| - 1];
      OfTypeMembers(front, kind, b);
      assert bookmarks == front + [bookmarks[|bookmarks| - 1]];
    }
  }

  /** ... in stored order. */
  lemma {:induction false} OfTypeIsSubsequence(bookmarks: seq<Bookmark>, kind: BookmarkType)
    ensures IsSubsequence(OfType(bookmarks, kind), bookmarks)
  {
    if bookmarks != [] {
      var front := bookmarks[..|bookmarks| - 1];
      OfTypeIsSubsequence(front, kind);
      var r := OfType(bookmarks, kind);
      if bookmarks[|bookmarks| - 1].kind == kind {
        assert r[..|r| - 1] == OfType(front, kind);
      }
    }
  }

  /** Each bookmark of the type occurs as often as stored; no other bookmark occurs. */
  lemma {:induction false} OfTypeCounts(bookmarks: seq<Bookmark>, kind: BookmarkType, b: Bookmark)
    ensures multiset(OfType(bookmarks, kind))[b] == if b.kind == kind then multiset(bookmarks)[b] else 0
  {
    if bookmarks != [] {
      var front := bookmarks[..|bookmarks| - 1];
      OfTypeCounts(front, kind, b);
      assert bookmarks == front + [bookmarks[|bookmarks| - 1]];
    }
  }

  /** A failed read and an unset key both read as the empty list. */
  lemma LoadedEmpty(stored: Option<seq<Bookmark>>)
    ensures Loaded(stored, true) == [] && Loaded(None, false) == []
    ensures stored.Some? ==> Loaded(stored, false) == stored.value
  {
  }

  // ---------------------------------------------------------------------
  // Adding
  // ---------------------------------------------------------------------

  /** An item already bookmarked is refused and nothing is written. */
  lemma AddRejectsDuplicate(stored: Option<seq<Bookmark>>, rec: Bookmark, readFails: bool, writeFails: bool)
    requires IsBookmarked(Loaded(stored, readFails), rec.kind, rec.referenceId)
    ensures AddOutcome(stored, rec, readFails, writeFails) == Outcome(stored, false)
  {
  }

  /**
   * A successful add appends exactly the new record at the end, keeping every
   * earlier record in place; it succeeds exactly when the item is new and the
   * write goes through.
   */
  lemma AddAppendsAtEnd(stored: Option<seq<Bookmark>>, rec: Bookmark, readFails: bool, writeFails: bool)
    ensures var out := AddOutcome(stored, rec, readFails, writeFails);
            var before := Loaded(stored, readFails);
            && (out.ok <==> !IsBookmarked(before, rec.kind, rec.referenceId) && !writeFails)
            && (!out.ok ==> out.stored == stored)
            && (out.ok ==> out.stored.Some?
                           && |out.stored.value| == |before| + 1
                           && out.stored.value[..|before|] == before
                           && out.stored.value[|before|] == rec)
  {
    var before := Loaded(stored, readFails);
    assert (before + [rec])[..|before|] == before;
  }

  /** An add after a failed read overwrites the store with the one new record. */
  lemma AddAfterFailedRead(stored: Option<seq<Bookmark>>, rec: Bookmark)
    ensures AddOutcome(stored, rec, true, false) == Outcome(Some([rec]), true)
  {
    var before := Loaded(stored, true);
    assert !IsBookmarked(before, rec.kind, rec.referenceId);
    assert before + [rec] == [rec];
  }

  /** Adding keeps the stored list free of two bookmarks for one item. */
  lemma AddKeepsNoDuplicates(stored: Option<seq<Bookmark>>, rec: Bookmark, readFails: bool, writeFails: bool)
    requires NoDuplicates(Loaded(stored, false))
    ensures NoDuplicates(Loaded(AddOutcome(stored, rec, readFails, writeFails).stored, false))
  {
    var before := Loaded(stored, readFails);
    var out := AddOutcome(stored, rec, readFails, writeFails);
    if out.ok {
      var after := before + [rec];
      assert out.stored == Some(after);
      forall i, j | 0 <= i < j < |after|
        ensures after[i].kind != after[j].kind || after[i].referenceId != after[j].referenceId
      {
        if j == |before| {
          assert after[i] == before[i];
        }
      }
    }
  }

  // ---------------------------------------------------------------------
  // Removing
  // ---------------------------------------------------------------------

  /** The id filter keeps exactly the bookmarks with another id. */
  lemma {:induction false} WithoutIdMembers(bookmarks: seq<Bookmark>, id: string, b: Bookmark)
    ensures b in WithoutId(bookmarks, id) <==> b in bookmarks && b.id != id
  {
    if bookmarks != [] {
      var front := bookmarks[..|bookmarks| - 1];
      WithoutIdMembers(front, id, b);
      assert bookmarks == front + [bookmarks[|bookmarks| - 1]];
    }
  }

  /** ... in their old relative order. */
  lemma {:induction false} WithoutIdIsSubsequence(bookmarks: seq<Bookmark>, id: string)
    ensures IsSubsequence(WithoutId(bookmarks, id), bookmarks)
  {
    if bookmarks != [] {
      var front := bookmarks[..|bookmarks| - 1];
      WithoutIdIsSubsequence(front, id);
      var r := WithoutId(bookmarks, id);
      if bookmarks[|bookmarks| - 1].id != id {
        assert r[..|r| - 1] == WithoutId(front, id);
      }
    }
  }

  /** Each bookmark with another id is kept as often as stored; none with the id is kept. */
  lemma {:induction false} WithoutIdCounts(bookmarks: seq<Bookmark>, id: string, b: Bookmark)
    ensures multiset(WithoutId(bookmarks, id))[b] == if b.id != id then multiset(bookmarks)[b] else 0
  {
    if bookmarks != [] {
      var front := bookmarks[..|bookmarks| - 1];
      WithoutIdCounts(front, id, b);
      assert bookmarks == front + [bookmarks[|bookmarks| - 1]];
    }
  }

  /** The filter drops one bookmark per record with the id. */
  lemma {:induction false} WithoutIdLength(bookmarks: seq<Bookmark>, id: string)
    ensures |WithoutId(bookmarks, id)| == |bookmarks| - CountWithId(bookmarks, id)
    ensures CountWithId(bookmarks, id) == 0 <==> forall i :: 0 <= i < |bookmarks| ==> bookmarks[i].id != id
  {
    if bookmarks != [] {
      var front := bookmarks[..|bookmarks| - 1];
      WithoutIdLength(front, id);
    }
  }

  /**
   * `removeBookmark` answers false and writes nothing when no bookmark has the
   * id; when it answers true, no bookmark with the id is left, the others
   * keep their order, and every record with the id is dropped.
   */
  lemma RemoveEffects(stored: Option<seq<Bookmark>>, id: string, readFails: bool, writeFails: bool)
    ensures var out := RemoveOutcome(stored, id, readFails, writeFails);
            var before := Loaded(stored, readFails);
            && (out.ok <==> (exists i :: 0 <= i < |before| && before[i].id == id) && !writeFails)
            && (!out.ok ==> out.stored == stored)
            && (out.ok ==> out.stored.Some?
                           && (forall b :: b in out.stored.value ==> b.id != id)
                           && (forall b :: b in before && b.id != id ==> b in out.stored.value)
                           && IsSubsequence(out.stored.value, before)
                           && |out.stored.value| == |before| - CountWithId(before, id))
  {
    var before := Loaded(stored, readFails);
    var out := RemoveOutcome(stored, id, readFails, writeFails);
    WithoutIdLength(before, id);
    WithoutIdIsSubsequence(before, id);
    forall b | true
      ensures b in WithoutId(before, id) <==> b in before && b.id != id
    {
      WithoutIdMembers(before, id, b);
    }
  }

  /** Dropping the records with an id keeps the list free of two bookmarks for one item. */
  lemma {:induction false} WithoutIdKeepsNoDuplicates(bookmarks: seq<Bookmark>, id: string)
    requires NoDuplicates(bookmarks)
    ensures NoDuplicates(WithoutId(bookmarks, id))
  {
    if bookmarks != [] {
      var front, last := bookmarks[..|bookmarks| - 1], bookmarks[|bookmarks| - 1];
      WithoutIdKeepsNoDuplicates(front, id);
      var rest := WithoutId(front, id);
      if last.id != id {
        var r := rest + [last];
        forall i, j | 0 <= i < j < |r|
          ensures r[i].kind != r[j].kind || r[i].referenceId != r[j].referenceId
        {
          if j == |rest| {
            WithoutIdMembers(front, id, r[i]);
            var k :| 0 <= k < |front| && front[k] == r[i];
            assert bookmarks[k] == r[i] && bookmarks[|bookmarks| - 1] == r[j];
          }
        }
      }
    }
  }

  /** `removeBookmark` keeps the stored list free of two bookmarks for one item. */
  lemma RemoveKeepsNoDuplicates(stored: Option<seq<Bookmark>>, id: string, readFails: bool, writeFails: bool)
    requires NoDuplicates(Loaded(stored, false))
    ensures NoDuplicates(Loaded(RemoveOutcome(stored, id, readFails, writeFails).stored, false))
  {
    WithoutIdKeepsNoDuplicates(Loaded(stored, readFails), id);
  }

  /** After a failed read, `removeBookmark` finds nothing to remove. */
  lemma RemoveAfterFailedRead(stored: Option<seq<Bookmark>>, id: string, writeFails: bool)
    ensures RemoveOutcome(stored, id, true, writeFails) == Outcome(stored, false)
  {
  }

  /** With unique ids, a successful remove shortens the list by exactly one. */
  lemma {:induction false} RemoveUniqueId(bookmarks: seq<Bookmark>, id: string, i: nat)
    requires i < |bookmarks| && bookmarks[i].id == id
    requires forall j :: 0 <= j < |bookmarks| && j != i ==> bookmarks[j].id != id
    ensures |WithoutId(bookmarks, id)| == |bookmarks| - 1
  {
    CountOne(bookmarks, id, i);
    WithoutIdLength(bookmarks, id);
  }

  lemma {:induction false} CountOne(bookmarks: seq<Bookmark>, id: string, i: nat)
    requires i < |bookmarks| && bookmarks[i].id == id
    requires forall j :: 0 <= j < |bookmarks| && j != i ==> bookmarks[j].id != id
    ensures CountWithId(bookmarks, id) == 1
  {
    var front := bookmarks[..|bookmarks| - 1];
    if i == |bookmarks| - 1 {
      WithoutIdLength(front, id);
    } else {
      CountOne(front, id, i);
    }
  }

  // ---------------------------------------------------------------------
  // Updating notes
  // ---------------------------------------------------------------------

  /**
   * `updateBookmarkNotes` answers false and writes nothing when no bookmark
   * has the id; on success only the notes of the first bookmark with the id
   * change, and the list keeps its length and every other record.
   */
  lemma NotesEffects(stored: Option<seq<Bookmark>>, id: string, notes: string, readFails: bool, writeFails: bool)
    ensures var out := NotesOutcome(stored, id, notes, readFails, writeFails);
            var before := Loaded(stored, readFails);
            && (out.ok <==> (exists i :: 0 <= i < |before| && before[i].id == id) && !writeFails)
            && (!out.ok ==> out.stored == stored)
            && (out.ok ==> out.stored.Some?
                           && |out.stored.value| == |before|
                           && forall i :: 0 <= i < |before| ==>
                                if before[i].id == id && forall j :: 0 <= j < i ==> before[j].id != id
                                then out.stored.value[i] == before[i].(notes := Some(notes))
                                else out.stored.value[i] == before[i])
  {
  }

  /** `updateBookmarkNotes` keeps the stored list free of two bookmarks for one item. */
  lemma NotesKeepsNoDuplicates(stored: Option<seq<Bookmark>>, id: string, notes: string, readFails: bool, writeFails: bool)
    requires NoDuplicates(Loaded(stored, false))
    ensures NoDuplicates(Loaded(NotesOutcome(stored, id, notes, readFails, writeFails).stored, false))
  {
  }

  // ---------------------------------------------------------------------
  // Clearing
  // ---------------------------------------------------------------------

  /** `clearAllBookmarks` leaves the empty list, and doing it twice is doing it once. */
  lemma ClearEffects(stored: Option<seq<Bookmark>>)
    ensures ClearOutcome(stored, false) == Outcome(Some([]), true)
    ensures ClearOutcome(ClearOutcome(stored, false).stored, false) == ClearOutcome(stored, false)
    ensures Loaded(ClearOutcome(stored, false).stored, false) == []
    ensures ClearOutcome(stored, true) == Outcome(stored, false)
    ensures NoDuplicates(Loaded(ClearOutcome(stored, false).stored, false))
  {
  }
}
