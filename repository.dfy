/** The book store behind `BookRepository`: a table of books keyed by id,
    with ids drawn from an increasing counter. The functions on `Table` state
    what each repository operation does; the class `BookRepository` is the
    store itself and its methods are proved equal to them. */
module Repository {
  import opened Wrappers
  import opened Entities
  import opened ExampleMatcher
  import opened Paging

  /** The persisted books by id, and the id the next insertion receives. */
  datatype Table = Table(books: map<int, Book>, nextId: nat)

  /** Every stored book carries its own key, and every key was handed out
      by the counter, which starts at one. */
  predicate WellFormed(t: Table)
  {
    && t.nextId >= 1
    && forall k :: k in t.books ==> 1 <= k < t.nextId && t.books[k].id == Some(k)
  }

  const EmptyTable: Table := Table(map[], 1)

  /** `existsByIsbn`. */
  predicate IsbnTaken(t: Table, isbn: string): (r: bool)
    ensures r <==> isbn in (set k | k in t.books :: t.books[k].isbn)
  {
    exists k :: k in t.books && t.books[k].isbn == isbn
  }

  /** The catalog invariant the services keep: no two stored books share an isbn. */
  predicate UniqueIsbns(t: Table)
  {
    forall j, k :: j in t.books && k in t.books && t.books[j].isbn == t.books[k].isbn ==> j == k
  }

  /** `findById`. */
  function Lookup(t: Table, id: int): (r: Option<Book>)
    ensures r.Some? <==> id in t.books
    ensures r.Some? ==> r.value == t.books[id]
  {
    if id in t.books then Some(t.books[id]) else None
  }

  /** The table after a `save`, and the book `save` returns. */
  datatype Saved = Saved(table: Table, book: Book)

  /** `save`: a book whose id is stored overwrites that record; any other book
      is inserted under a fresh id. */
  function Put(t: Table, b: Book): (r: Saved)
    ensures r.book.id.Some? && r.book == b.(id := r.book.id)
    ensures r.table.books == t.books[r.book.id.value := r.book]
    ensures r.table.nextId >= t.nextId
  {
    if b.id.Some? && b.id.value in t.books then
      Saved(t.(books := t.books[b.id.value := b]), b)
    else
      var stored := b.(id := Some(t.nextId));
      Saved(Table(t.books[t.nextId := stored], t.nextId + 1), stored)
  }

  /** `delete`: removes the record with the book's id; a book without a
      stored id leaves the table as it is. */
  function Remove(t: Table, b: Book): (r: Table)
    ensures r.nextId == t.nextId
    ensures forall k :: k in r.books <==> k in t.books && Some(k) != b.id
    ensures forall k :: k in r.books ==> r.books[k] == t.books[k]
  {
    if b.id.Some? then t.(books := t.books - {b.id.value}) else t
  }

  /** The stored books with ids in `[0, n)`, in ascending id order. */
  function RowsBelow(books: map<int, Book>, n: nat): seq<Book>
  {
    if n == 0 then []
    else RowsBelow(books, n - 1) + (if n - 1 in books then [books[n - 1]] else [])
  }

  /** The table in insertion order: ids are handed out in increasing order and
      an overwrite keeps its id, so ascending ids are insertion order. */
  function Rows(t: Table): seq<Book>
  {
    RowsBelow(t.books, t.nextId)
  }

  /** The first row carrying the isbn. */
  function FirstWithIsbn(rows: seq<Book>, isbn: string): (r: Option<Book>)
    ensures r.Some? ==> r.value in rows && r.value.isbn == isbn
    ensures r.Some? ==> exists i :: 0 <= i < |rows| && rows[i] == r.value && forall j :: 0 <= j < i ==> rows[j].isbn != isbn
    ensures r.None? ==> forall b :: b in rows ==> b.isbn != isbn
  {
    if rows == [] then None
    else if rows[0].isbn == isbn then Some(rows[0])
    else
      var r := FirstWithIsbn(rows[1..], isbn);
      if r.Some? then
        var i :| 0 <= i < |rows| - 1 && rows[1..][i] == r.value && forall j :: 0 <= j < i ==> rows[1..][j].isbn != isbn;
        assert rows[i + 1] == r.value && forall j :: 0 <= j < i + 1 ==> rows[j].isbn != isbn;
        r
      else r
  }

  /** Lookup by isbn, scanning in insertion order. */
  function FindByIsbn(t: Table, isbn: string): (r: Option<Book>)
    ensures r.Some? ==> r.value.isbn == isbn && r.value in Rows(t)
    ensures r.None? ==> forall b :: b in Rows(t) ==> b.isbn != isbn
  {
    FirstWithIsbn(Rows(t), isbn)
  }

  /** `findAll(example, pageable)`: the requested page of the matching rows. */
  function Query(t: Table, probe: BookProbe, req: PageRequest): (r: Page<Book>)
    ensures r.pageNumber == req.page && r.pageSize == req.size
    ensures |r.content| <= req.size && |r.content| <= r.totalElements
    ensures forall b :: b in r.content ==> Matches(probe, b)
  {
    PageOf(Filter(probe, Rows(t)), req)
  }

  /** The rows are exactly the stored books whose ids lie below `n`. */
  lemma {:induction false} RowsBelowMembers(books: map<int, Book>, n: nat, b: Book)
    ensures b in RowsBelow(books, n) <==> exists k :: 0 <= k < n && k in books && books[k] == b
  {
    if n > 0 {
      RowsBelowMembers(books, n - 1, b);
    }
  }

  /** Every row carries an id, and the ids strictly increase along the rows. */
  predicate IdsIncreasing(rows: seq<Book>)
  {
    && (forall i :: 0 <= i < |rows| ==> rows[i].id.Some?)
    && (forall i, j :: 0 <= i < j < |rows| ==> rows[i].id.value < rows[j].id.value)
  }

  /** When every book is stored under its own id, the scan below `n` lists
      the books in strictly increasing id order, all ids below `n`. */
  lemma {:induction false} RowsBelowIncreasing(books: map<int, Book>, n: nat)
    requires forall k :: k in books ==> books[k].id == Some(k)
    ensures IdsIncreasing(RowsBelow(books, n))
    ensures forall i :: 0 <= i < |RowsBelow(books, n)| ==> RowsBelow(books, n)[i].id.value < n
  {
    if n > 0 {
      RowsBelowIncreasing(books, n - 1);
    }
  }

  /** Filtering keeps a subsequence, so increasing ids stay increasing. */
  lemma {:induction false} FilterKeepsIncreasing(probe: BookProbe, rows: seq<Book>)
    requires IdsIncreasing(rows)
    ensures IdsIncreasing(Filter(probe, rows))
  {
    if rows != [] {
      var init, last := rows[..|rows| - 1], rows[|rows| - 1];
      FilterKeepsIncreasing(probe, init);
      var f := Filter(probe, init);
      forall i | 0 <= i < |f| ensures f[i].id.value < last.id.value {
        assert f[i] in init;
      }
    }
  }

  /** In a well-formed table the rows are exactly the stored books. */
  lemma RowsAreStored(t: Table, b: Book)
    requires WellFormed(t)
    ensures b in Rows(t) <==> exists k :: k in t.books && t.books[k] == b
  {
    RowsBelowMembers(t.books, t.nextId, b);
  }

  /** Saving keeps the table well formed. */
  lemma PutWellFormed(t: Table, b: Book)
    requires WellFormed(t)
    ensures WellFormed(Put(t, b).table)
  {
  }

  /** Saving a book with no stored id assigns the counter's id, which was
      never handed out before, and advances the counter. */
  lemma PutAssignsFreshId(t: Table, b: Book)
    requires WellFormed(t)
    requires b.id.None? || b.id.value !in t.books
    ensures var s := Put(t, b).book;
      && s.id.Some? && s.id.value >= 1 && s.id.value !in t.books
      && s == b.(id := s.id)
      && Put(t, b).table.books == t.books[s.id.value := s]
      && s.id == Some(t.nextId) && Put(t, b).table.nextId == t.nextId + 1
  {
  }

  /** Ids are never reused: a book saved after a delete never receives the
      deleted book's id. */
  lemma DeletedIdNotReused(t: Table, d: Book, b: Book)
    requires WellFormed(t) && d.id.Some? && d.id.value in t.books
    requires b.id.None? || b.id.value !in Remove(t, d).books
    ensures Put(Remove(t, d), b).book.id != d.id
  {
  }

  /** Saving a book whose id is stored replaces that record and nothing else. */
  lemma PutReplaces(t: Table, b: Book, k: int)
    requires b.id == Some(k) && k in t.books
    ensures Put(t, b) == Saved(t.(books := t.books[k := b]), b)
  {
  }

  /** After a save, the saved book is found by its id and by its isbn. */
  lemma PutThenFound(t: Table, b: Book)
    ensures var s := Put(t, b);
      && s.book.id.Some?
      && Lookup(s.table, s.book.id.value) == Some(s.book)
      && IsbnTaken(s.table, b.isbn)
  {
    var s := Put(t, b);
    assert s.table.books[s.book.id.value].isbn == b.isbn;
  }

  /** A save changes no record other than the one it returns. */
  lemma PutKeepsOthers(t: Table, b: Book, k: int)
    requires Put(t, b).book.id != Some(k)
    ensures Lookup(Put(t, b).table, k) == Lookup(t, k)
  {
  }

  /** After a delete, the book's id is no longer found. */
  lemma RemoveThenAbsent(t: Table, b: Book)
    requires b.id.Some?
    ensures Lookup(Remove(t, b), b.id.value) == None
    ensures forall k :: k != b.id.value ==> Lookup(Remove(t, b), k) == Lookup(t, k)
  {
  }

  /** An empty store holds no isbn. */
  lemma EmptyHasNoIsbn(isbn: string)
    ensures !IsbnTaken(EmptyTable, isbn)
  {
  }

  /** A found book has the requested id, and nothing is found for an absent id. */
  lemma LookupFindsStored(t: Table, id: int)
    requires WellFormed(t)
    ensures Lookup(t, id).Some? <==> id in t.books
    ensures Lookup(t, id).Some? ==> Lookup(t, id).value.id == Some(id)
  {
  }

  /** On any table a found book is a stored record with the isbn; on a
      well-formed one the lookup fails only when no record has the isbn. */
  lemma FindByIsbnSound(t: Table, isbn: string)
    ensures FindByIsbn(t, isbn).Some? ==>
      var b := FindByIsbn(t, isbn).value;
      b.isbn == isbn && exists k :: k in t.books && t.books[k] == b
    ensures WellFormed(t) ==> (FindByIsbn(t, isbn).Some? <==> IsbnTaken(t, isbn))
  {
    var r := FindByIsbn(t, isbn);
    if r.Some? {
      RowsBelowMembers(t.books, t.nextId, r.value);
    }
    if WellFormed(t) {
      FindByIsbnAgrees(t, isbn);
    }
  }

  /** The isbn lookup finds a book exactly when `existsByIsbn` holds, and the
      book it finds is stored with that isbn. */
  lemma FindByIsbnAgrees(t: Table, isbn: string)
    requires WellFormed(t)
    ensures FindByIsbn(t, isbn).Some? <==> IsbnTaken(t, isbn)
    ensures FindByIsbn(t, isbn).Some? ==>
      var b := FindByIsbn(t, isbn).value;
      b.isbn == isbn && b.id.Some? && b.id.value in t.books && t.books[b.id.value] == b
  {
    var r := FindByIsbn(t, isbn);
    if r.Some? {
      RowsAreStored(t, r.value);
    } else if IsbnTaken(t, isbn) {
      var k :| k in t.books && t.books[k].isbn == isbn;
      RowsAreStored(t, t.books[k]);
    }
  }

  /** With unique isbns, the isbn lookup returns the one book holding it. */
  lemma FindByIsbnUnique(t: Table, k: int)
    requires WellFormed(t) && UniqueIsbns(t) && k in t.books
    ensures FindByIsbn(t, t.books[k].isbn) == Some(t.books[k])
  {
    var isbn := t.books[k].isbn;
    assert IsbnTaken(t, isbn);
    FindByIsbnAgrees(t, isbn);
    var b := FindByIsbn(t, isbn).value;
    var j := b.id.value;
    assert j in t.books && t.books[j] == b && b.isbn == isbn;
    assert t.books[j].isbn == t.books[k].isbn;
    assert j == k;
  }

  /** `findAll` selects exactly the stored books that match the probe. Its
      page is the slice of those matches at the requested offset, at most one
      page long, together with their total count and the echoed request.
      No book is listed twice, so the count is the number of stored books
      that match. */
  lemma QueryCharacterization(t: Table, probe: BookProbe, req: PageRequest)
    requires WellFormed(t)
    ensures var matches := Filter(probe, Rows(t));
      && (forall b :: b in matches <==> (exists k :: k in t.books && t.books[k] == b) && Matches(probe, b))
      && (forall i, j :: 0 <= i < j < |matches| ==> matches[i] != matches[j])
      && Query(t, probe, req) == Page(Window(matches, Offset(req), Offset(req) + req.size), |matches|, req.page, req.size)
  {
    var matches := Filter(probe, Rows(t));
    RowsBelowIncreasing(t.books, t.nextId);
    FilterKeepsIncreasing(probe, Rows(t));
    forall b ensures b in matches <==> (exists k :: k in t.books && t.books[k] == b) && Matches(probe, b) {
      RowsAreStored(t, b);
      if b in Rows(t) && Matches(probe, b) {
        FilterComplete(probe, Rows(t), b);
      }
    }
  }

  /** The keys whose books match the probe. */
  ghost function MatchingKeys(probe: BookProbe, books: map<int, Book>): set<int>
  {
    set k | k in books && Matches(probe, books[k])
  }

  /** The members of `keys` below `n`. */
  function KeysBelow(keys: set<int>, n: nat): set<int>
  {
    set k | k in keys && 0 <= k < n
  }

  /** Raising the bound by one adds `n` exactly when it is a member. */
  lemma KeysBelowStep(keys: set<int>, n: nat)
    ensures n in keys ==> |KeysBelow(keys, n + 1)| == |KeysBelow(keys, n)| + 1
    ensures n !in keys ==> KeysBelow(keys, n + 1) == KeysBelow(keys, n)
  {
    if n in keys {
      assert KeysBelow(keys, n + 1) == KeysBelow(keys, n) + {n};
    } else {
      assert KeysBelow(keys, n + 1) == KeysBelow(keys, n);
    }
  }

  /** The scan below `n` finds one match per matching key below `n`. */
  lemma {:induction false} MatchCountBelow(probe: BookProbe, books: map<int, Book>, n: nat)
    ensures |Filter(probe, RowsBelow(books, n))| == |KeysBelow(MatchingKeys(probe, books), n)|
  {
    var keys := MatchingKeys(probe, books);
    if n == 0 {
      assert KeysBelow(keys, n) == {};
    } else {
      var m := n - 1;
      MatchCountBelow(probe, books, m);
      ScanStep(probe, books, m);
      KeysBelowStep(keys, m);
      if m in keys {
        assert m in books && Matches(probe, books[m]);
      } else {
        assert !(m in books && Matches(probe, books[m]));
      }
    }
  }

  /** `totalElements` of `findAll` is the number of stored books that match. */
  lemma MatchCount(t: Table, probe: BookProbe, req: PageRequest)
    requires WellFormed(t)
    ensures Query(t, probe, req).totalElements == |set k | k in t.books && Matches(probe, t.books[k])|
  {
    var keys := MatchingKeys(probe, t.books);
    MatchCountBelow(probe, t.books, t.nextId);
    assert KeysBelow(keys, t.nextId) == keys;
  }

  /** One more id scanned adds the book stored under it, if it matches. */
  lemma ScanStep(probe: BookProbe, books: map<int, Book>, id: nat)
    ensures id in books && Matches(probe, books[id]) ==>
      Filter(probe, RowsBelow(books, id + 1)) == Filter(probe, RowsBelow(books, id)) + [books[id]]
    ensures !(id in books && Matches(probe, books[id])) ==>
      Filter(probe, RowsBelow(books, id + 1)) == Filter(probe, RowsBelow(books, id))
  {
    var rows := RowsBelow(books, id);
    if id in books {
      assert RowsBelow(books, id + 1) == rows + [books[id]];
      assert (rows + [books[id]])[..|rows|] == rows;
    } else {
      assert RowsBelow(books, id + 1) == rows + [];
      assert rows + [] == rows;
    }
  }

  /** The state of the `findAll` scan once the ids below `id` are read: the
      number of matches so far, and those of them that fall in `[lo, hi)`. */
  predicate Scanned(probe: BookProbe, books: map<int, Book>, id: nat, lo: nat, hi: nat, count: nat, content: seq<Book>)
    requires lo <= hi
  {
    var matches := Filter(probe, RowsBelow(books, id));
    count == |matches| && content == Window(matches, lo, hi)
  }

  /** Before any id is read the scan has seen nothing. */
  lemma ScanStarts(probe: BookProbe, books: map<int, Book>, lo: nat, hi: nat)
    requires lo <= hi
    ensures Scanned(probe, books, 0, lo, hi, 0, [])
  {
  }

  /** Once every id below the counter is read, the scan state is the page
      that `Query` describes. */
  lemma ScanEnds(t: Table, probe: BookProbe, req: PageRequest, count: nat, content: seq<Book>)
    requires Scanned(probe, t.books, t.nextId, Offset(req), Offset(req) + req.size, count, content)
    ensures Page(content, count, req.page, req.size) == Query(t, probe, req)
  {
  }

  /** Reading one more id advances the scan state; `hit` says whether a
      matching book is stored under it. */
  lemma ScanAdvances(probe: BookProbe, books: map<int, Book>, id: nat, lo: nat, hi: nat, count: nat, content: seq<Book>, hit: bool)
    requires lo <= hi && Scanned(probe, books, id, lo, hi, count, content)
    requires hit == (id in books && Matches(probe, books[id]))
    ensures hit && lo <= count < hi ==> Scanned(probe, books, id + 1, lo, hi, count + 1, content + [books[id]])
    ensures hit && !(lo <= count < hi) ==> Scanned(probe, books, id + 1, lo, hi, count + 1, content)
    ensures !hit ==> Scanned(probe, books, id + 1, lo, hi, count, content)
  {
    ScanStep(probe, books, id);
    if hit {
      var matches := Filter(probe, RowsBelow(books, id));
      WindowSnoc(matches, books[id], lo, hi);
      assert |matches + [books[id]]| == count + 1;
    }
  }

  /** The in-memory stand-in for the JPA repository. */
  class BookRepository {
    var books: map<int, Book>
    var nextId: nat

    function State(): Table
      reads this
    {
      Table(books, nextId)
    }

    ghost predicate Valid()
      reads this
    {
      WellFormed(State())
    }

    constructor ()
      ensures Valid() && State() == EmptyTable
    {
      books := map[];
      nextId := 1;
    }

    /** Whether some stored book carries the isbn. */
    function ExistsByIsbn(isbn: string): (r: bool)
      reads this
      ensures r <==> exists k :: k in books && books[k].isbn == isbn
    {
      IsbnTaken(State(), isbn)
    }

    /** The record stored under the id, if any. */
    function FindById(id: int): (r: Option<Book>)
      reads this
      ensures r.Some? <==> id in books
      ensures r.Some? ==> r.value == books[id]
    {
      Lookup(State(), id)
    }

    method Save(b: Book) returns (saved: Book)
      requires Valid()
      modifies this
      ensures Valid()
      ensures Saved(State(), saved) == Put(old(State()), b)
    {
      PutWellFormed(State(), b);
      if b.id.Some? && b.id.value in books {
        books := books[b.id.value := b];
        saved := b;
      } else {
        saved := b.(id := Some(nextId));
        books := books[nextId := saved];
        nextId := nextId + 1;
      }
    }

    method Delete(b: Book)
      requires Valid()
      modifies this
      ensures Valid()
      ensures State() == Remove(old(State()), b)
    {
      if b.id.Some? {
        books := books - {b.id.value};
      }
    }

    /** Scans the table in id order, counting the matches and keeping those
        that fall on the requested page. */
    method FindAll(probe: BookProbe, req: PageRequest) returns (page: Page<Book>)
      ensures page == Query(State(), probe, req)
    {
      var lo := Offset(req);
      var hi := lo + req.size;
      var count := 0;
      var content := [];
      var id := 0;
      ScanStarts(probe, books, lo, hi);
      while id < nextId
        invariant 0 <= id <= nextId
        invariant Scanned(probe, books, id, lo, hi, count, content)
      {
        var hit := id in books && Matches(probe, books[id]);
        ScanAdvances(probe, books, id, lo, hi, count, content, hit);
        if hit {
          if lo <= count < hi {
            content := content + [books[id]];
          }
          count := count + 1;
        }
        id := id + 1;
      }
      ScanEnds(State(), probe, req, count, content);
      page := Page(content, count, req.page, req.size);
    }
  }
}
