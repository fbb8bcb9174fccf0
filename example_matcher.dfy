/** The query-by-example matcher that `BookServiceImpl.find` builds: every
    non-null field of the probe must match, string fields match as a
    case-insensitive prefix (`STARTING` with `withIgnoreCase`), and the
    criteria are combined with AND. */
module ExampleMatcher {
  import opened Wrappers
  import opened Entities

  /** A partial book used as search criteria; `None` stands for a null field. */
  datatype BookProbe = BookProbe(id: Option<int>, title: Option<string>, author: Option<string>, isbn: Option<string>)

  /** The probe with every field null. */
  const AnyBook: BookProbe := BookProbe(None, None, None, None)

  /** The probe that asks for every field of `b`. */
  function ProbeOf(b: Book): BookProbe
  {
    BookProbe(b.id, Some(b.title), Some(b.author), Some(b.isbn))
  }

  /** Lower-case folding, restricted to the ASCII letters. */
  function Lower(c: char): (d: char)
    ensures 'A' <= c <= 'Z' ==> d as int == c as int + 32
    ensures !('A' <= c <= 'Z') ==> d == c
    ensures !('A' <= d <= 'Z')
  {
    if 'A' <= c <= 'Z' then (c as int + 32) as char else c
  }

  function LowerStr(s: string): (r: string)
    ensures |r| == |s|
    ensures forall i :: 0 <= i < |s| ==> r[i] == Lower(s[i])
  {
    if s == [] then [] else [Lower(s[0])] + LowerStr(s[1..])
  }

  /** `value` starts with `prefix` when case is ignored. */
  predicate StartsWithIgnoreCase(value: string, prefix: string)
  {
    if prefix == [] then true
    else value != [] && Lower(value[0]) == Lower(prefix[0]) && StartsWithIgnoreCase(value[1..], prefix[1..])
  }

  /** A null criterion matches every value; a set one is compared as
      `lower(value) LIKE lower(criterion) || '%'`. */
  predicate FieldMatches(criterion: Option<string>, value: string): (m: bool)
    ensures m <==> criterion.None? || LowerStr(criterion.value) <= LowerStr(value)
  {
    criterion.None? || (StartsWithIsLoweredPrefix(value, criterion.value); StartsWithIgnoreCase(value, criterion.value))
  }

  /** The example matcher: the non-string `id` is compared for equality when
      set, and every set string criterion is a prefix of its field once both
      are lower-cased. */
  predicate Matches(probe: BookProbe, b: Book): (m: bool)
    ensures m <==>
      && (probe.id.None? || probe.id == b.id)
      && (probe.title.None? || LowerStr(probe.title.value) <= LowerStr(b.title))
      && (probe.author.None? || LowerStr(probe.author.value) <= LowerStr(b.author))
      && (probe.isbn.None? || LowerStr(probe.isbn.value) <= LowerStr(b.isbn))
  {
    && (probe.id.None? || probe.id == b.id)
    && FieldMatches(probe.title, b.title)
    && FieldMatches(probe.author, b.author)
    && FieldMatches(probe.isbn, b.isbn)
  }

  /** The rows that match the probe, in the order of `rows`. */
  function Filter(probe: BookProbe, rows: seq<Book>): (r: seq<Book>)
    ensures |r| <= |rows|
    ensures forall b :: b in r ==> b in rows && Matches(probe, b)
  {
    if rows == [] then []
    else
      var last := rows[|rows| - 1];
      Filter(probe, rows[..|rows| - 1]) + (if Matches(probe, last) then [last] else [])
  }

  /** The recursive matcher agrees with comparing the lower-cased strings with
      the sequence-prefix operator. */
  lemma {:induction false} StartsWithIsLoweredPrefix(value: string, prefix: string)
    ensures StartsWithIgnoreCase(value, prefix) <==> LowerStr(prefix) <= LowerStr(value)
  {
    if prefix != [] && value != [] {
      StartsWithIsLoweredPrefix(value[1..], prefix[1..]);
      assert LowerStr(prefix) == [Lower(prefix[0])] + LowerStr(prefix[1..]);
      assert LowerStr(value) == [Lower(value[0])] + LowerStr(value[1..]);
    }
  }

  /** A match never has a longer prefix than value. */
  lemma {:induction false} StartsWithNoLonger(value: string, prefix: string)
    requires StartsWithIgnoreCase(value, prefix)
    ensures |prefix| <= |value|
  {
    if prefix != [] {
      StartsWithNoLonger(value[1..], prefix[1..]);
    }
  }

  /** Every leading part of a value, in any case, matches it. */
  lemma {:induction false} StartsWithOwnPrefix(value: string, k: nat)
    requires k <= |value|
    ensures StartsWithIgnoreCase(value, value[..k])
    ensures StartsWithIgnoreCase(value, LowerStr(value[..k]))
  {
    if k > 0 {
      StartsWithOwnPrefix(value[1..], k - 1);
      assert value[..k][1..] == value[1..][..k - 1];
      assert LowerStr(value[..k])[1..] == LowerStr(value[1..][..k - 1]);
    }
  }

  /** Case-insensitive prefix matching is transitive. */
  lemma {:induction false} StartsWithTransitive(value: string, middle: string, prefix: string)
    requires StartsWithIgnoreCase(value, middle) && StartsWithIgnoreCase(middle, prefix)
    ensures StartsWithIgnoreCase(value, prefix)
  {
    if prefix != [] {
      StartsWithTransitive(value[1..], middle[1..], prefix[1..]);
    }
  }

  /** Changing the case of the criterion does not change the outcome. */
  lemma {:induction false} StartsWithIgnoresCriterionCase(value: string, prefix: string)
    ensures StartsWithIgnoreCase(value, LowerStr(prefix)) == StartsWithIgnoreCase(value, prefix)
  {
    if prefix != [] && value != [] {
      StartsWithIgnoresCriterionCase(value[1..], prefix[1..]);
      assert LowerStr(prefix)[1..] == LowerStr(prefix[1..]);
    }
  }

  /** The probe with only nulls selects every book. */
  lemma AnyBookMatchesAll(b: Book)
    ensures Matches(AnyBook, b)
  {
  }

  /** A probe built from a book's own fields selects that book. */
  lemma ProbeOfMatches(b: Book)
    ensures Matches(ProbeOf(b), b)
  {
    StartsWithOwnPrefix(b.title, |b.title|);
    StartsWithOwnPrefix(b.author, |b.author|);
    StartsWithOwnPrefix(b.isbn, |b.isbn|);
    assert b.title[..|b.title|] == b.title;
    assert b.author[..|b.author|] == b.author;
    assert b.isbn[..|b.isbn|] == b.isbn;
  }

  /** Setting a null title criterion can only narrow the selection. */
  lemma NarrowingByTitle(probe: BookProbe, title: string, b: Book)
    requires probe.title.None? && Matches(probe.(title := Some(title)), b)
    ensures Matches(probe, b)
  {
  }

  /** Every stored row that matches the probe is selected. */
  lemma {:induction false} FilterComplete(probe: BookProbe, rows: seq<Book>, b: Book)
    requires b in rows && Matches(probe, b)
    ensures b in Filter(probe, rows)
  {
    if b != rows[|rows| - 1] {
      assert rows == rows[..|rows| - 1] + [rows[|rows| - 1]];
      FilterComplete(probe, rows[..|rows| - 1], b);
    }
  }

  /** Filtering distributes over concatenation, so the selection keeps the
      order of the rows. */
  lemma {:induction false} FilterAppend(probe: BookProbe, xs: seq<Book>, ys: seq<Book>)
    ensures Filter(probe, xs + ys) == Filter(probe, xs) + Filter(probe, ys)
  {
    if ys == [] {
      assert xs + ys == xs;
    } else {
      var init := ys[..|ys| - 1];
      assert (xs + ys)[..|xs + ys| - 1] == xs + init;
      FilterAppend(probe, xs, init);
    }
  }

  /** The probe with only nulls selects all rows, in order. */
  lemma {:induction false} FilterAnyBook(rows: seq<Book>)
    ensures Filter(AnyBook, rows) == rows
  {
    if rows != [] {
      var init, last := rows[..|rows| - 1], rows[|rows| - 1];
      FilterAnyBook(init);
      assert Matches(AnyBook, last);
      assert Filter(AnyBook, rows) == Filter(AnyBook, init) + [last];
      assert rows == init + [last];
    }
  }
}
