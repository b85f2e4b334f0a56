/** The paginated lead listing `getLeads`
    (src/controller/AdminController/leadController.js, lines 184-210). The
    store's sort (`uploadSequence` descending, then `createdAt`) is an input:
    `sorted` is the collection in the order the query returns it. */
module LeadListing {
  import opened JsValues
  import opened LeadStore

  /** `Math.floor(a / b)` for a non-zero integer divisor. */
  function FloorDiv(a: int, b: int): int
    requires b != 0
  {
    if b > 0 then a / b else (-a) / (-b)
  }

  /** `Math.ceil(a / b)` for a non-zero integer divisor. */
  function CeilDiv(a: int, b: int): int
    requires b != 0
  {
    -FloorDiv(-a, b)
  }

  /** The ceiling is the least multiple count that covers `a`. */
  lemma CeilDivIsCeiling(a: int, b: int)
    requires b > 0
    ensures (CeilDiv(a, b) - 1) * b < a <= CeilDiv(a, b) * b
  {
    var q, r := (-a) / b, (-a) % b;
    assert -a == q * b + r && 0 <= r < b;
    assert CeilDiv(a, b) == -q;
  }

  datatype Pagination = Pagination(currentPage: int, totalPages: Option<int>, totalItems: nat,
                                   hasNext: bool, hasPrev: bool)

  /** The response, or the 500 answer when the store refuses the query (a
      negative `skip`). */
  datatype Listing = Listing(leads: seq<Record>, pagination: Pagination) | QueryFailed

  /** How many documents `.limit(n)` lets through: all of them for 0, the
      absolute value otherwise. */
  function Take(n: int, available: nat): nat {
    if n == 0 then available
    else var m := if n < 0 then -n else n; if m < available then m else available
  }

  /** Lines 186-206, for numeric `page` and `limit` query values (absent ones
      default to 1 and 50). `totalPages` is null (`Infinity` or `NaN` in
      JSON) when `limit` is 0. */
  function GetLeads(page: Option<int>, limit: Option<int>, sorted: seq<Record>): (r: Listing)
    ensures r.Listing? <==> (page.GetOr(1) - 1) * limit.GetOr(50) >= 0
    ensures r.Listing? ==>
      var p, l := page.GetOr(1), limit.GetOr(50);
      var skip := (p - 1) * l;
      && r.pagination.currentPage == p
      && r.pagination.totalItems == |sorted|
      && r.pagination.totalPages == (if l == 0 then None else Some(CeilDiv(|sorted|, l)))
      && |r.leads| == (if skip < |sorted| then Take(l, |sorted| - skip) else 0)
      && (l > 0 ==> |r.leads| <= l)
      && (forall k | 0 <= k < |r.leads| :: skip + k < |sorted| && r.leads[k] == sorted[skip + k])
      && (r.pagination.hasNext <==> skip + |r.leads| < |sorted|)
      && (r.pagination.hasPrev <==> p > 1)
  {
    var p, l := page.GetOr(1), limit.GetOr(50);
    var skip := (p - 1) * l;
    if skip < 0 then QueryFailed
    else
      var from := if skip < |sorted| then skip else |sorted|;
      var leads := sorted[from..][..Take(l, |sorted| - from)];
      Listing(leads, Pagination(p, if l == 0 then None else Some(CeilDiv(|sorted|, l)), |sorted|,
                                skip + |leads| < |sorted|, p > 1))
  }

  lemma MulLe(a: int, b: int, l: int)
    requires a <= b && l >= 0
    ensures a * l <= b * l
  {
    assert b * l - a * l == (b - a) * l;
  }

  /** `p` pages of `l` items stop short of `n` items exactly when `p` is
      below the page count. */
  lemma PagesShortOf(p: int, l: int, n: int)
    requires l > 0
    ensures p * l < n <==> p < CeilDiv(n, l)
  {
    var c := CeilDiv(n, l);
    CeilDivIsCeiling(n, l);
    if p < c {
      MulLe(p, c - 1, l);
    } else {
      MulLe(c, p, l);
    }
  }

  /** With a positive limit, a page has a next page exactly when its number
      is below the page count. */
  lemma HasNextIffMorePages(p: int, l: int, sorted: seq<Record>)
    requires p >= 1 && l > 0
    ensures var r := GetLeads(Some(p), Some(l), sorted);
      r.Listing? && (r.pagination.hasNext <==> p < r.pagination.totalPages.value)
  {
    var skip := (p - 1) * l;
    assert skip + l == p * l;
    MulLe(0, p - 1, l);
    PagesShortOf(p, l, |sorted|);
  }

  /** With a positive limit, item `k` is on page `k / limit + 1`, at
      position `k % limit`: the pages together list every item once. */
  lemma PageOfItem(k: nat, l: int, sorted: seq<Record>)
    requires l > 0 && k < |sorted|
    ensures var r := GetLeads(Some(k / l + 1), Some(l), sorted);
      r.Listing? && k % l < |r.leads| && r.leads[k % l] == sorted[k]
  {
    var r := GetLeads(Some(k / l + 1), Some(l), sorted);
    var skip := k / l * l;
    assert skip + k % l == k;
    assert skip <= k;
  }

  /** Record `a` comes no later than `b` in descending upload-sequence order,
      a missing number sorting last. */
  predicate NotAfter(a: Record, b: Record) {
    b.uploadSequence.None? || (a.uploadSequence.Some? && a.uploadSequence.value >= b.uploadSequence.value)
  }

  predicate SortedDesc(s: seq<Record>) {
    forall i, j | 0 <= i < j < |s| :: NotAfter(s[i], s[j])
  }

  /** A page of the sorted collection is itself in descending order. */
  lemma PageSorted(page: Option<int>, limit: Option<int>, sorted: seq<Record>)
    requires SortedDesc(sorted)
    ensures var r := GetLeads(page, limit, sorted);
      r.Listing? ==> SortedDesc(r.leads)
  {
    var r := GetLeads(page, limit, sorted);
    if r.Listing? {
      var skip := (page.GetOr(1) - 1) * limit.GetOr(50);
      forall i, j | 0 <= i < j < |r.leads| ensures NotAfter(r.leads[i], r.leads[j]) {
        assert r.leads[i] == sorted[skip + i] && r.leads[j] == sorted[skip + j];
      }
    }
  }
}
