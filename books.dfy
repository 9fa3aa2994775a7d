/** The location drop-down and filter of the book listing pages: `/books`
    de-duplicates and filters locations after `trim().toLowerCase()`, while
    `/browse-books` de-duplicates and filters them exactly. */
module Books {
  import opened Wrappers
  import opened Text
  import opened Collections

  /** A document of the `books` collection, with the fields the location logic
      reads; `location` is missing on books listed without one. */
  datatype Book = Book(id: string, title: string, owner: string, location: Option<string>)

  /** `if (book.location)`: a location that is present and not the empty string. */
  predicate HasLocation(b: Book) {
    b.location.Some? && b.location.value != ""
  }

  /** `book.location || ""` */
  function LocationText(b: Book): string {
    b.location.GetOr("")
  }

  /** `(book.location || "").trim().toLowerCase()`: the key locations are compared by. */
  function LocationKey(b: Book): string {
    Normalize(LocationText(b))
  }

  /** The books that contribute to the drop-down. */
  function Located(books: seq<Book>): seq<Book> {
    Filter(books, HasLocation)
  }

  /** `book.location.trim()`: the spelling a location is offered under. */
  function Spelling(b: Book): string {
    Trim(LocationText(b))
  }

  /** `uniqueLocations` of `/books`: per normalised location, in the order the
      normalised locations first occur, the trimmed spelling of the first book
      that has it. */
  function UniqueLocations(books: seq<Book>): seq<string> {
    Spellings(KeepFirst(Located(books), LocationKey))
  }

  /** `Array.from(locationMap.values())` once the map holds the first book of
      each location, in order. */
  function Spellings(firsts: seq<Book>): seq<string> {
    seq(|firsts|, k requires 0 <= k < |firsts| => Spelling(firsts[k]))
  }

  lemma SpellingsSnoc(firsts: seq<Book>, b: Book)
    ensures Spellings(firsts + [b]) == Spellings(firsts) + [Spelling(b)]
  {
    assert forall k :: 0 <= k < |firsts| ==> (firsts + [b])[k] == firsts[k];
  }

  /** Only a book with a location joins the books that have one. */
  lemma LocatedSnoc(books: seq<Book>, b: Book)
    ensures Located(books + [b]) == if HasLocation(b) then Located(books) + [b] else Located(books)
  {
    FilterAppend(books, [b], HasLocation);
    assert Filter([b], HasLocation) == (if HasLocation(b) then [b] else []) + Filter([], HasLocation);
  }

  /** One step of the location fold. */
  lemma UniqueLocationsSnoc(books: seq<Book>, b: Book)
    ensures Keys(Located(books + [b]), LocationKey) ==
      Keys(Located(books), LocationKey) + (if HasLocation(b) then {LocationKey(b)} else {})
    ensures UniqueLocations(books + [b]) ==
      if !HasLocation(b) || LocationKey(b) in Keys(Located(books), LocationKey) then UniqueLocations(books)
      else UniqueLocations(books) + [Spelling(b)]
  {
    LocatedSnoc(books, b);
    if HasLocation(b) {
      KeysSnoc(Located(books), b, LocationKey);
      KeepFirstSnoc(Located(books), b, LocationKey);
      SpellingsSnoc(KeepFirst(Located(books), LocationKey), b);
    }
  }

  /** A pass of the `/books` loop body that sets a new key: the map then holds
      the keys and spellings of one more book. */
  lemma LocationAdded(books: seq<Book>, i: nat, locationMap: map<string, string>, order: seq<string>)
    requires i < |books| && HasLocation(books[i]) && LocationKey(books[i]) !in locationMap
    requires locationMap.Keys == Keys(Located(books[..i]), LocationKey)
    requires ReadsBackAs(locationMap, order, UniqueLocations(books[..i]))
    ensures locationMap[LocationKey(books[i]) := Spelling(books[i])].Keys == Keys(Located(books[..i + 1]), LocationKey)
    ensures ReadsBackAs(locationMap[LocationKey(books[i]) := Spelling(books[i])],
      order + [LocationKey(books[i])], UniqueLocations(books[..i + 1]))
  {
    assert books[..i + 1] == books[..i] + [books[i]];
    UniqueLocationsSnoc(books[..i], books[i]);
    ReadsBackInsert(locationMap, order, UniqueLocations(books[..i]), LocationKey(books[i]), Spelling(books[i]));
  }

  /** A pass of the `/books` loop body that sets nothing: the book has no
      location, or its key is already held. */
  lemma LocationSkipped(books: seq<Book>, i: nat, locationMap: map<string, string>, order: seq<string>)
    requires i < |books| && (!HasLocation(books[i]) || LocationKey(books[i]) in locationMap)
    requires locationMap.Keys == Keys(Located(books[..i]), LocationKey)
    requires ReadsBackAs(locationMap, order, UniqueLocations(books[..i]))
    ensures locationMap.Keys == Keys(Located(books[..i + 1]), LocationKey)
    ensures ReadsBackAs(locationMap, order, UniqueLocations(books[..i + 1]))
  {
    assert books[..i + 1] == books[..i] + [books[i]];
    UniqueLocationsSnoc(books[..i], books[i]);
  }

  /** The drop-down as `/books` computes it: a `Map` from normalised location to
      trimmed spelling, set only for a key it does not hold yet, read back in
      insertion order. */
  method CollectUniqueLocations(books: seq<Book>) returns (uniqueLocations: seq<string>)
    ensures uniqueLocations == UniqueLocations(books)
  {
    var locationMap: map<string, string> := map[];
    var order: seq<string> := [];  // the keys of locationMap in insertion order
    var i := 0;
    while i < |books|
      invariant 0 <= i <= |books|
      invariant locationMap.Keys == Keys(Located(books[..i]), LocationKey)
      invariant ReadsBackAs(locationMap, order, UniqueLocations(books[..i]))
    {
      var book := books[i];
      if book.location.Some? && book.location.value != "" {
        var loc := LocationKey(book);  // book.location.trim().toLowerCase()
        if loc !in locationMap {
          LocationAdded(books, i, locationMap, order);
          locationMap := locationMap[loc := Spelling(book)];  // book.location.trim()
          order := order + [loc];
        } else {
          LocationSkipped(books, i, locationMap, order);
        }
      } else {
        LocationSkipped(books, i, locationMap, order);
      }
      i := i + 1;
    }
    assert books[..i] == books;
    uniqueLocations := seq(|order|, k requires 0 <= k < |order| => locationMap[order[k]]);
  }

  /** Each offered location normalises to the key of the book it was taken from. */
  lemma OfferedKeys(books: seq<Book>)
    ensures |UniqueLocations(books)| == |KeepFirst(Located(books), LocationKey)|
    ensures forall k :: 0 <= k < |UniqueLocations(books)| ==>
      UniqueLocations(books)[k] == Spelling(KeepFirst(Located(books), LocationKey)[k]) &&
      Normalize(UniqueLocations(books)[k]) == LocationKey(KeepFirst(Located(books), LocationKey)[k])
  {
    var firsts, u := KeepFirst(Located(books), LocationKey), UniqueLocations(books);
    forall k | 0 <= k < |u| ensures Normalize(u[k]) == LocationKey(firsts[k]) {
      NormalizeTrim(LocationText(firsts[k]));
    }
  }

  /** No two offered locations are equal after trimming and lower-casing. */
  lemma UniqueLocationsDistinct(books: seq<Book>)
    ensures forall a, b :: 0 <= a < b < |UniqueLocations(books)| ==>
      Normalize(UniqueLocations(books)[a]) != Normalize(UniqueLocations(books)[b])
  {
    KeepFirstSpec(Located(books), LocationKey);
    OfferedKeys(books);
  }

  /** Every book that has a location finds its normalised location offered:
      the drop-down misses no location. */
  lemma UniqueLocationsCover(books: seq<Book>)
    ensures forall b :: b in books && HasLocation(b) ==>
      exists k :: 0 <= k < |UniqueLocations(books)| && Normalize(UniqueLocations(books)[k]) == LocationKey(b)
  {
    var located := Located(books);
    var firsts := KeepFirst(located, LocationKey);
    KeepFirstSpec(located, LocationKey);
    OfferedKeys(books);
    FilterMembers(books, HasLocation);
    forall b | b in books && HasLocation(b)
      ensures exists k :: 0 <= k < |firsts| && LocationKey(firsts[k]) == LocationKey(b)
    {
      assert b in located;
      assert LocationKey(b) in Keys(firsts, LocationKey);
    }
  }

  /** Every offered location comes from a book that has a location: books with
      a missing or empty location add nothing. */
  lemma UniqueLocationsFromBooks(books: seq<Book>)
    ensures forall k :: 0 <= k < |UniqueLocations(books)| ==>
      exists b :: b in books && HasLocation(b) && LocationKey(b) == Normalize(UniqueLocations(books)[k])
  {
    var firsts := KeepFirst(Located(books), LocationKey);
    KeepFirstSpec(Located(books), LocationKey);
    OfferedKeys(books);
    FilterMembers(books, HasLocation);
    forall k | 0 <= k < |firsts| ensures firsts[k] in books && HasLocation(firsts[k]) {
      assert firsts[k] in Located(books);
    }
  }

  /** Each offered location is the trimmed spelling of the first book, among
      those with a location, whose normalised location it stands for. */
  lemma UniqueLocationsFirstSpelling(books: seq<Book>)
    ensures forall k :: 0 <= k < |UniqueLocations(books)| ==>
      Normalize(UniqueLocations(books)[k]) in Keys(Located(books), LocationKey) &&
      UniqueLocations(books)[k] ==
        Spelling(Located(books)[FirstIndexOf(Located(books), LocationKey, Normalize(UniqueLocations(books)[k]))])
  {
    KeepFirstSpec(Located(books), LocationKey);
    OfferedKeys(books);
  }

  function AtLocation(key: string): Book -> bool {
    b => LocationKey(b) == key
  }

  /** `filteredBooks` of `/books`: every book when no location is selected,
      otherwise the books whose normalised location is the normalised selection. */
  function FilterByLocation(books: seq<Book>, selectedLocation: string): seq<Book> {
    if selectedLocation == "" then books
    else Filter(books, AtLocation(Normalize(selectedLocation)))
  }

  /** An empty selection returns the books unchanged; any other selection
      returns, in their order and with all their copies, exactly the books whose
      normalised location (a missing one read as "") is the normalised selection. */
  lemma FilterByLocationSpec(books: seq<Book>, more: seq<Book>, selectedLocation: string, b: Book)
    ensures selectedLocation == "" ==> FilterByLocation(books, selectedLocation) == books
    ensures selectedLocation != "" ==>
      multiset(FilterByLocation(books, selectedLocation))[b] ==
        if LocationKey(b) == Normalize(selectedLocation) then multiset(books)[b] else 0
    ensures FilterByLocation(books + more, selectedLocation) ==
      FilterByLocation(books, selectedLocation) + FilterByLocation(more, selectedLocation)
  {
    if selectedLocation != "" {
      FilterCount(books, AtLocation(Normalize(selectedLocation)), b);
      FilterAppend(books, more, AtLocation(Normalize(selectedLocation)));
    }
  }

  /** Choosing an offered location never gives an empty listing: at least the
      book the location was taken from is shown. */
  lemma OfferedLocationsSelectBooks(books: seq<Book>)
    ensures forall l :: l in UniqueLocations(books) ==> FilterByLocation(books, l) != []
  {
    var located := Located(books);
    var firsts, u := KeepFirst(located, LocationKey), UniqueLocations(books);
    KeepFirstSpec(located, LocationKey);
    FilterMembers(books, HasLocation);
    forall l | l in u ensures FilterByLocation(books, l) != [] {
      var k :| 0 <= k < |u| && u[k] == l;
      var b := firsts[k];
      assert b in located;
      var i :| 0 <= i < |books| && books[i] == b;
      if l != "" {
        NormalizeTrim(LocationText(b));
        assert AtLocation(Normalize(l))(books[i]);
        FilterMembers(books, AtLocation(Normalize(l)));
      }
    }
  }

  /** A selection of blanks is truthy, so it filters, but it normalises to ""
      and therefore keeps only the books without a location. */
  lemma BlankSelectionKeepsUnlocated()
    ensures FilterByLocation([Book("1", "Emma", "a@x.com", None), Book("2", "Dune", "b@x.com", Some("Pune"))], " ") ==
      [Book("1", "Emma", "a@x.com", None)]
  {
    var b1, b2 := Book("1", "Emma", "a@x.com", None), Book("2", "Dune", "b@x.com", Some("Pune"));
    assert Normalize(" ") == "" by {
      assert IsSpace(" "[0]);
      assert TrimStart(" ") == TrimStart(" "[1..]);
    }
    assert LocationKey(b1) == "";
    TrimmedIsFixed("Pune");
    assert |LocationKey(b2)| == 4;
    assert [b1, b2][1..] == [b2];
  }

  // ----------------------------------------------------------- browse-books

  function Id<T>(x: T): T {
    x
  }

  /** `books.map(book => book.location)` */
  function Locations(books: seq<Book>): seq<Option<string>> {
    seq(|books|, k requires 0 <= k < |books| => books[k].location)
  }

  /** `uniqueLocations` of `/browse-books`: `[...new Set(locations)]`, which
      compares exactly and keeps a missing location as an entry of its own. */
  function BrowseLocations(books: seq<Book>): seq<Option<string>> {
    KeepFirst(Locations(books), Id)
  }

  /** The browse drop-down lists every distinct location of the books, missing
      included, once each, in the order of first occurrence. */
  lemma BrowseLocationsDistinct(books: seq<Book>)
    ensures forall a, b :: 0 <= a < b < |BrowseLocations(books)| ==> BrowseLocations(books)[a] != BrowseLocations(books)[b]
    ensures forall k :: 0 <= k < |books| ==> books[k].location in BrowseLocations(books)
    ensures forall l :: l in BrowseLocations(books) ==> exists k :: 0 <= k < |books| && books[k].location == l
    ensures forall a, b :: 0 <= a < b < |BrowseLocations(books)| ==>
      BrowseLocations(books)[a] in Keys(Locations(books), Id) &&
      BrowseLocations(books)[b] in Keys(Locations(books), Id) &&
      FirstIndexOf(Locations(books), Id, BrowseLocations(books)[a]) <
      FirstIndexOf(Locations(books), Id, BrowseLocations(books)[b])
  {
    var ls, r := Locations(books), BrowseLocations(books);
    KeepFirstSpec(ls, Id);
    forall k | 0 <= k < |books| ensures books[k].location in r {
      assert Id(ls[k]) in Keys(r, Id);
    }
    forall l | l in r ensures exists k :: 0 <= k < |books| && books[k].location == l {
      assert Id(l) in Keys(ls, Id);
    }
  }

  function HasExactLocation(selectedLocation: string): Book -> bool {
    (b: Book) => b.location == Some(selectedLocation)
  }

  /** `books` of `/browse-books`: every book when no location is selected,
      otherwise those whose location is exactly the selection. */
  function BrowseFilter(books: seq<Book>, selectedLocation: string): seq<Book> {
    if selectedLocation == "" then books
    else Filter(books, HasExactLocation(selectedLocation))
  }

  /** The exact browse filter keeps a sub-list of what the normalising `/books`
      filter keeps for the same selection. */
  lemma BrowseFilterWithinFilter(books: seq<Book>, selectedLocation: string)
    ensures BrowseFilter(books, selectedLocation) ==
      if selectedLocation == "" then FilterByLocation(books, selectedLocation)
      else Filter(FilterByLocation(books, selectedLocation), HasExactLocation(selectedLocation))
  {
    if selectedLocation != "" {
      FilterWeaker(books, HasExactLocation(selectedLocation), AtLocation(Normalize(selectedLocation)));
    }
  }

  /** A selection in another letter case finds the book on `/books` but not on
      `/browse-books`. */
  lemma BrowseFilterIsExact()
    ensures BrowseFilter([Book("2", "Dune", "b@x.com", Some("Pune"))], "pune") == []
    ensures FilterByLocation([Book("2", "Dune", "b@x.com", Some("Pune"))], "pune") ==
      [Book("2", "Dune", "b@x.com", Some("Pune"))]
  {
    var b := Book("2", "Dune", "b@x.com", Some("Pune"));
    assert !HasExactLocation("pune")(b);
    TrimmedIsFixed("Pune");
    TrimmedIsFixed("pune");
    assert Lower("Pune") == "pune";
    assert Lower("pune") == "pune";
    assert LocationKey(b) == Normalize("pune");
    assert AtLocation(Normalize("pune"))(b);
  }
}
