/** Page requests and pages as Spring Data's `PageRequest` and `PageImpl`
    produce them: a zero-based page number, a positive page size, the slice
    of the matches for that page and the total number of matches. */
module Paging {

  /** `PageRequest.of` refuses a size below one. */
  type PageSize = s: int | s >= 1 witness 1

  datatype PageRequest = PageRequest(page: nat, size: PageSize)

  datatype Page<T> = Page(content: seq<T>, totalElements: nat, pageNumber: nat, pageSize: PageSize)

  function Min(a: int, b: int): int
  {
    if a <= b then a else b
  }

  /** Index of the first element of the requested page. */
  function Offset(req: PageRequest): nat
  {
    req.page * req.size
  }

  /** The elements of `xs` whose positions lie in `[lo, hi)`. */
  function Window<T>(xs: seq<T>, lo: nat, hi: nat): (r: seq<T>)
    requires lo <= hi
    ensures |r| == if lo >= |xs| then 0 else Min(hi, |xs|) - lo
    ensures forall j :: 0 <= j < |r| ==> lo + j < |xs| && r[j] == xs[lo + j]
  {
    xs[Min(lo, |xs|)..Min(hi, |xs|)]
  }

  /** The page `req` asks for out of the matches `xs`. */
  function PageOf<T>(xs: seq<T>, req: PageRequest): (p: Page<T>)
    ensures p.totalElements == |xs|
    ensures p.pageNumber == req.page && p.pageSize == req.size
    ensures |p.content| == if Offset(req) >= |xs| then 0 else Min(req.size, |xs| - Offset(req))
    ensures forall j :: 0 <= j < |p.content| ==> p.content[j] == xs[Offset(req) + j]
  {
    Page(Window(xs, Offset(req), Offset(req) + req.size), |xs|, req.page, req.size)
  }

  /** `Page.getTotalPages`: the number of pages of a positive size needed for `total` elements. */
  function TotalPages(total: nat, size: PageSize): nat
  {
    (total + size - 1) / size
  }

  /** Appending one element extends a window exactly when its position lies inside it. */
  lemma WindowSnoc<T>(xs: seq<T>, x: T, lo: nat, hi: nat)
    requires lo <= hi
    ensures Window(xs + [x], lo, hi) == Window(xs, lo, hi) + (if lo <= |xs| < hi then [x] else [])
  {
    var l, r := Window(xs + [x], lo, hi), Window(xs, lo, hi) + (if lo <= |xs| < hi then [x] else []);
    assert |l| == |r|;
    forall j | 0 <= j < |l| ensures l[j] == r[j] {
      if lo + j < |xs| {
        assert l[j] == xs[lo + j];
      }
    }
  }

  lemma MulMonotone(a: nat, b: nat, s: nat)
    requires a <= b
    ensures a * s <= b * s
  {
  }

  /** A page has content if and only if its number is below the number of pages. */
  lemma PageNonEmptyIff<T>(xs: seq<T>, req: PageRequest)
    ensures PageOf(xs, req).content != [] <==> req.page < TotalPages(|xs|, req.size)
  {
    var n, s, p := |xs|, req.size as int, req.page;
    var q := TotalPages(n, req.size);
    var r := (n + s - 1) % s;
    assert n + s - 1 == q * s + r && 0 <= r < s;
    if p < q {
      MulMonotone(p, q - 1, s);
      assert (q - 1) * s == q * s - s;
      assert p * s < n;
    } else {
      MulMonotone(q, p, s);
      assert p * s >= n;
    }
  }

  /** The contents of the first `k` pages, one after the other. */
  function FirstPages<T>(xs: seq<T>, size: PageSize, k: nat): seq<T>
  {
    if k == 0 then [] else FirstPages(xs, size, k - 1) + PageOf(xs, PageRequest(k - 1, size)).content
  }

  /** Consecutive pages tile the matches without gap or overlap. */
  lemma {:induction false} PagesTile<T>(xs: seq<T>, size: PageSize, k: nat)
    ensures FirstPages(xs, size, k) == xs[..Min(k * size, |xs|)]
  {
    if k > 0 {
      PagesTile(xs, size, k - 1);
      var lo := (k - 1) * size;
      assert lo + size == k * size;
      MulMonotone(k - 1, k, size);
      var page := PageOf(xs, PageRequest(k - 1, size)).content;
      assert xs[..Min(k * size, |xs|)] == xs[..Min(lo, |xs|)] + page;
    }
  }

  /** The pages together have room for every element. */
  lemma TotalPagesCover(total: nat, size: PageSize)
    ensures TotalPages(total, size) * size >= total
  {
    var a := total + size - 1;
    var q, r := a / size, a % size;
    assert a == q * size + r && r < size;
  }

  /** Reading every page in turn yields all matches, in order. */
  lemma AllPagesYieldAll<T>(xs: seq<T>, size: PageSize)
    ensures FirstPages(xs, size, TotalPages(|xs|, size)) == xs
  {
    PagesTile(xs, size, TotalPages(|xs|, size));
    TotalPagesCover(|xs|, size);
    assert xs[..|xs|] == xs;
  }
}
