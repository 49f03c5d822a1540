/**
 * Pagination of the public feed (GET /api/books): the `page` and `limit`
 * query parameters with their fallbacks, the `skip` / `limit` window over
 * the newest-first listing, and `totalPages`.
 */
module Paging {
  import opened Js
  import opened JsString
  import opened Ordering

  /** A query-string parameter: absent, given once, or repeated (Express then yields an array). */
  datatype QueryParam = Absent | Single(text: string) | Repeated(texts: seq<string>)

  /**
   * `parseInt(req.query.x)`, without a radix: the argument is first
   * converted to a string, so an absent parameter reads as `"undefined"`
   * and a repeated one as its values joined by commas.
   */
  function ParseQuery(q: QueryParam): Num {
    match q
    case Absent => ParseIntAuto("undefined")
    case Single(text) => ParseIntAuto(text)
    case Repeated(texts) => if texts == [] then ParseIntAuto("") else ParseIntAuto(Join(texts, ','))
  }

  /** `n || fallback`: NaN and 0 are falsy and give way to the fallback. */
  function IntOr(n: Num, fallback: int): (r: int)
    ensures n.Int? && n.value != 0 ==> r == n.value
    ensures !(n.Int? && n.value != 0) ==> r == fallback
  {
    match n
    case Int(v) => if v != 0 then v else fallback
    case NaN => fallback
  }

  const DefaultPage: int := 1
  const DefaultLimit: int := 5

  /** `parseInt(req.query.page) || 1`. */
  function PageNumber(q: QueryParam): int {
    IntOr(ParseQuery(q), DefaultPage)
  }

  /** `parseInt(req.query.limit) || 5`. */
  function PageLimit(q: QueryParam): int {
    IntOr(ParseQuery(q), DefaultLimit)
  }

  /** `(page - 1) * limit`: how many documents the page skips. */
  function Skip(page: int, limit: int): int {
    (page - 1) * limit
  }

  function Min(a: int, b: int): int {
    if a <= b then a else b
  }

  /** `.skip(skip).limit(count)` on a listing: at most `count` consecutive entries starting at `skip`. */
  function Window<T>(xs: seq<T>, skip: nat, count: nat): (w: seq<T>)
    ensures |w| <= count
    ensures |w| == if skip >= |xs| then 0 else Min(count, |xs| - skip)
    ensures forall i :: 0 <= i < |w| ==> w[i] == xs[skip + i]
  {
    if skip >= |xs| then [] else xs[skip..Min(skip + count, |xs|)]
  }

  /** Page `page` of `xs` with `limit` entries per page. */
  function PageOf<T>(xs: seq<T>, page: int, limit: int): seq<T>
    requires page >= 1 && limit >= 1
  {
    Window(xs, Skip(page, limit), limit)
  }

  /** `Math.ceil(total / limit)` for a non-zero integer limit. */
  function TotalPages(total: nat, limit: int): (pages: int)
    requires limit != 0
    ensures limit > 0 ==> pages >= 0
    ensures total == 0 ==> pages == 0
    ensures limit > 0 && total > 0 ==> (pages - 1) * limit < total <= pages * limit
  {
    if limit > 0 then
      var q := (total + limit - 1) / limit;
      assert q * limit <= total + limit - 1 < q * limit + limit;
      assert (q - 1) * limit == q * limit - limit;
      q
    else -(total / -limit)
  }

  /** Pages 1 to `n`, one after the other. */
  function FirstPages<T>(xs: seq<T>, limit: int, n: nat): seq<T>
    requires limit >= 1
  {
    if n == 0 then [] else FirstPages(xs, limit, n - 1) + PageOf(xs, n, limit)
  }

  // ---------------------------------------------------------------------
  // Properties

  /**
   * Neither parameter can end up 0: a missing, non-numeric or zero value
   * falls back to page 1 and limit 5, and any other integer is kept.
   */
  lemma PaginationDefaults(q: QueryParam)
    ensures PageNumber(q) != 0 && PageLimit(q) != 0
    ensures ParseQuery(q).NaN? || ParseQuery(q) == Int(0) ==> PageNumber(q) == 1 && PageLimit(q) == 5
    ensures ParseQuery(q).Int? && ParseQuery(q).value != 0 ==>
      PageNumber(q) == ParseQuery(q).value && PageLimit(q) == ParseQuery(q).value
    ensures q.Absent? ==> PageNumber(q) == 1 && PageLimit(q) == 5
  {
    if q.Absent? {
      ParseIntNaN("", "", "undefined");
      assert "" + "" + "undefined" == "undefined";
      TrimStartNoop("undefined");
      assert !HexPrefixed(Unsigned("undefined"));
    }
  }

  /** A parameter spelled as a non-zero integer is taken as given: `?page=3` means page 3. */
  lemma PaginationReadsDecimal(n: int)
    requires n != 0
    ensures PageNumber(Single(IntToDecimal(n))) == n
    ensures PageLimit(Single(IntToDecimal(n))) == n
  {
    ParseIntAutoOfDecimal(n);
  }

  /** The parameters are read without a radix, so `?page=0x10` asks for page 16. */
  lemma PaginationReadsHex()
    ensures PageNumber(Single("0x10")) == 16
  {
    ParseIntAutoHex();
  }

  /** A later page starts no earlier than the end of an earlier one. */
  lemma LaterPageStartsAfter(p1: int, p2: int, limit: int)
    requires 1 <= p1 < p2 && limit >= 1
    ensures Skip(p1, limit) + limit <= Skip(p2, limit)
  {
    var d := p2 - 1 - p1;
    assert Skip(p2, limit) == Skip(p1, limit) + limit + d * limit;
    assert d * limit >= 0;
  }

  /** Windows over a listing without repeats share no entry when the second starts after the first ends. */
  lemma WindowsDisjoint<T>(xs: seq<T>, s1: nat, s2: nat, count: nat)
    requires Distinct(xs)
    requires s1 + count <= s2
    ensures forall x :: x in Window(xs, s1, count) ==> x !in Window(xs, s2, count)
  {
    var w1 := Window(xs, s1, count);
    var w2 := Window(xs, s2, count);
    forall x | x in w1
      ensures x !in w2
    {
      var i :| 0 <= i < |w1| && w1[i] == x;
      assert w1[i] == xs[s1 + i];
      forall j | 0 <= j < |w2|
        ensures w2[j] != x
      {
        assert w2[j] == xs[s2 + j];
        assert s1 + i < s2 + j;
      }
    }
  }

  /** Two different pages of a listing without repeats share no entry. */
  lemma PagesDisjoint<T>(xs: seq<T>, p1: int, p2: int, limit: int)
    requires Distinct(xs)
    requires p1 >= 1 && p2 >= 1 && limit >= 1 && p1 != p2
    ensures forall x :: x in PageOf(xs, p1, limit) ==> x !in PageOf(xs, p2, limit)
  {
    if p1 < p2 {
      LaterPageStartsAfter(p1, p2, limit);
      WindowsDisjoint(xs, Skip(p1, limit), Skip(p2, limit), limit);
    } else {
      LaterPageStartsAfter(p2, p1, limit);
      WindowsDisjoint(xs, Skip(p2, limit), Skip(p1, limit), limit);
    }
  }

  /** Each page starts where the previous one stopped. */
  lemma NextSkip(n: int, limit: int)
    ensures Skip(n, limit) == (n - 1) * limit
    ensures n * limit == Skip(n, limit) + limit
  {
  }

  /** The first `n` pages together are the first `n * limit` entries of the listing. */
  lemma {:induction false} FirstPagesArePrefix<T>(xs: seq<T>, limit: int, n: nat)
    requires limit >= 1
    ensures FirstPages(xs, limit, n) == xs[..Min(n * limit, |xs|)]
  {
    if n > 0 {
      FirstPagesArePrefix(xs, limit, n - 1);
      NextSkip(n, limit);
      WindowExtendsPrefix(xs, Skip(n, limit), limit);
    }
  }

  /** The prefix up to `skip` followed by the window at `skip` is the prefix up to `skip + count`. */
  lemma WindowExtendsPrefix<T>(xs: seq<T>, skip: nat, count: nat)
    ensures xs[..Min(skip, |xs|)] + Window(xs, skip, count) == xs[..Min(skip + count, |xs|)]
  {
    if skip < |xs| {
      assert xs[..skip] + xs[skip..Min(skip + count, |xs|)] == xs[..Min(skip + count, |xs|)];
    }
  }

  /**
   * Reading pages 1 to `totalPages` one after another returns the whole
   * listing, in order: infinite scroll misses nothing and repeats nothing.
   */
  lemma PagesCoverListing<T>(xs: seq<T>, limit: int)
    requires limit >= 1
    ensures FirstPages(xs, limit, TotalPages(|xs|, limit)) == xs
  {
    var n := TotalPages(|xs|, limit);
    FirstPagesArePrefix(xs, limit, n);
    assert n * limit >= |xs|;
  }
}
