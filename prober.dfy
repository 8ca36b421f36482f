/** `get_bound_year`: walks year pages outward from a known-good year until
    a fetch fails or a configured limit is reached. */
module Prober {
  import opened Common
  import opened Fetching

  const ANCHOR_YEAR := 2019
  const DEFAULT_MAX_YEAR := 3000
  const DEFAULT_MIN_YEAR := 1990

  /** "max" walks toward later years, "min" toward earlier ones. */
  datatype Direction = Later | Earlier

  /** The direction a bound type names; any other text names none. */
  function ParseBoundType(boundType: string): Option<Direction>
  {
    if boundType == "max" then Some(Later)
    else if boundType == "min" then Some(Earlier)
    else None
  }

  /** The next year in the walk. */
  function Step(dir: Direction, year: int): int
  {
    if dir == Later then year + 1 else year - 1
  }

  /** One year back toward the anchor. */
  function Back(dir: Direction, year: int): int
  {
    if dir == Later then year - 1 else year + 1
  }

  /** The `k`-th year of a walk that starts at `year`. */
  function Offset(dir: Direction, year: int, k: nat): int
  {
    if dir == Later then year + k else year - k
  }

  /** The configured limit a walk in `dir` stops at. */
  function Limit(dir: Direction, maxYear: int, minYear: int): int
  {
    if dir == Later then maxYear else minYear
  }

  /** The loop runs only strictly between the limits. */
  predicate Inside(year: int, maxYear: int, minYear: int)
  {
    year < maxYear && year > minYear
  }

  /** Where the loop of `get_bound_year` ends when it is at `year` with a
      status of 200 in hand. A failed fetch (-1) returns the year one step
      back; another status leaves the loop past the year it was seen at. */
  function Probe(dir: Direction, year: int, maxYear: int, minYear: int, status: int -> int): int
    decreases if dir == Later then maxYear - year else year - minYear
  {
    if !Inside(year, maxYear, minYear) then year
    else
      var st := status(year);
      if st == FAILURE_STATUS then Back(dir, year)
      else if st == 200 then Probe(dir, Step(dir, year), maxYear, minYear, status)
      else Step(dir, year)
  }

  /** The years whose pages that walk fetches, in order. */
  function Probes(dir: Direction, year: int, maxYear: int, minYear: int, status: int -> int): seq<int>
    decreases if dir == Later then maxYear - year else year - minYear
  {
    if !Inside(year, maxYear, minYear) then []
    else if status(year) == 200 then [year] + Probes(dir, Step(dir, year), maxYear, minYear, status)
    else [year]
  }

  /** The status `get_bound_year` sees for each year: that of the year's
      page, with -1 for a failed request. */
  function YearStatus(fetch: string -> Fetch): int -> int
  {
    year => Status(fetch(LinkYear(year)))
  }

  /** `get_bound_year`: fails on a bound type other than "max" or "min",
      otherwise walks from the anchor year. */
  function BoundYear(boundType: string, maxYear: int, minYear: int, fetch: string -> Fetch): (r: Result<int>)
    ensures r.Err? <==> boundType != "max" && boundType != "min"
    ensures r.Err? ==> r.error == BadBoundType
  {
    match ParseBoundType(boundType)
    case None => Err(BadBoundType)
    case Some(dir) => Ok(Probe(dir, ANCHOR_YEAR, maxYear, minYear, YearStatus(fetch)))
  }

  /** `get_bound_year`, loop and all: `currYear` and `status` are updated
      until the status is not 200 or the year leaves the open range. */
  method GetBoundYear(boundType: string, maxYear: int, minYear: int, fetch: string -> Fetch)
    returns (r: Result<int>, ghost probed: seq<int>)
    ensures r == BoundYear(boundType, maxYear, minYear, fetch)
    ensures ParseBoundType(boundType).None? ==> probed == []
    ensures ParseBoundType(boundType).Some? ==>
              probed == Probes(ParseBoundType(boundType).value, ANCHOR_YEAR, maxYear, minYear, YearStatus(fetch))
  {
    var currYear := ANCHOR_YEAR;
    var status := 200;
    probed := [];
    var bound := ParseBoundType(boundType);
    if bound.None? {
      return Err(BadBoundType), probed;
    }
    var dir := bound.value;
    ghost var statusOf := YearStatus(fetch);
    ghost var goal := Probe(dir, ANCHOR_YEAR, maxYear, minYear, statusOf);
    ghost var trace := Probes(dir, ANCHOR_YEAR, maxYear, minYear, statusOf);
    while status == 200 && currYear < maxYear && currYear > minYear
      invariant status == 200 ==> Probe(dir, currYear, maxYear, minYear, statusOf) == goal
      invariant status != 200 ==> currYear == goal
      invariant status == 200 ==> probed + Probes(dir, currYear, maxYear, minYear, statusOf) == trace
      invariant status != 200 ==> probed == trace
      decreases if dir == Later then maxYear - currYear else currYear - minYear
    {
      ghost var rest := Probes(dir, currYear, maxYear, minYear, statusOf);
      probed := probed + [currYear];
      status := Status(fetch(LinkYear(currYear)));
      assert status == statusOf(currYear);
      if status == 200 {
        assert rest == [currYear] + Probes(dir, Step(dir, currYear), maxYear, minYear, statusOf);
        assert probed + Probes(dir, Step(dir, currYear), maxYear, minYear, statusOf) == trace;
      }
      if status == FAILURE_STATUS {
        return Ok(Back(dir, currYear)), probed;
      }
      currYear := Step(dir, currYear);
    }
    assert status == 200 ==> probed + [] == probed;
    return Ok(currYear), probed;
  }

  /** The years a walk fetches are consecutive from its start, each once
      and each strictly inside the limits, and every fetch but the last
      returned 200. */
  lemma {:induction false} ProbesShape(dir: Direction, year: int, maxYear: int, minYear: int, status: int -> int)
    ensures var p := Probes(dir, year, maxYear, minYear, status);
            && (forall k :: 0 <= k < |p| ==> p[k] == Offset(dir, year, k) && Inside(p[k], maxYear, minYear))
            && (forall k :: 0 <= k < |p| - 1 ==> status(p[k]) == 200)
    decreases if dir == Later then maxYear - year else year - minYear
  {
    if Inside(year, maxYear, minYear) && status(year) == 200 {
      var next := Step(dir, year);
      ProbesShape(dir, next, maxYear, minYear, status);
      var rest := Probes(dir, next, maxYear, minYear, status);
      var p := Probes(dir, year, maxYear, minYear, status);
      assert p == [year] + rest;
      forall k | 1 <= k < |p|
        ensures p[k] == Offset(dir, year, k) && Inside(p[k], maxYear, minYear)
      {
        assert p[k] == rest[k - 1] == Offset(dir, next, k - 1);
      }
      forall k | 1 <= k < |p| - 1 ensures status(p[k]) == 200 {
        assert p[k] == rest[k - 1];
      }
    }
  }

  /** What a walk returns: its start when nothing was fetched, one year
      back from a failed last fetch, the configured limit (never fetched)
      when the last fetch returned 200, and one year past a last fetch with
      any other status. */
  lemma {:induction false} ProbeResult(dir: Direction, year: int, maxYear: int, minYear: int, status: int -> int)
    ensures var p := Probes(dir, year, maxYear, minYear, status);
            var r := Probe(dir, year, maxYear, minYear, status);
            && (p == [] ==> r == year && !Inside(year, maxYear, minYear))
            && (p != [] ==>
                  var last := status(p[|p| - 1]);
                  && (last == FAILURE_STATUS ==> r == Back(dir, p[|p| - 1]))
                  && (last == 200 ==> r == Step(dir, p[|p| - 1]) == Limit(dir, maxYear, minYear))
                  && (last != 200 && last != FAILURE_STATUS ==> r == Step(dir, p[|p| - 1])))
    decreases if dir == Later then maxYear - year else year - minYear
  {
    if Inside(year, maxYear, minYear) && status(year) == 200 {
      var next := Step(dir, year);
      ProbeResult(dir, next, maxYear, minYear, status);
      var rest := Probes(dir, next, maxYear, minYear, status);
      var p := Probes(dir, year, maxYear, minYear, status);
      assert p == [year] + rest;
      if rest != [] {
        assert p[|p| - 1] == rest[|rest| - 1];
      }
    }
  }

  /** A walk whose first `n` years answer 200 and whose next year fails
      returns the year before the failing one. */
  lemma {:induction false} ProbeFirstFailure(dir: Direction, year: int, n: nat, maxYear: int, minYear: int,
                                             status: int -> int)
    requires forall k :: 0 <= k <= n ==> Inside(Offset(dir, year, k), maxYear, minYear)
    requires forall k :: 0 <= k < n ==> status(Offset(dir, year, k)) == 200
    requires status(Offset(dir, year, n)) == FAILURE_STATUS
    ensures Probe(dir, year, maxYear, minYear, status) == Back(dir, Offset(dir, year, n))
    decreases n
  {
    if n > 0 {
      var next := Step(dir, year);
      assert Inside(Offset(dir, year, 0), maxYear, minYear);
      assert status(Offset(dir, year, 0)) == 200;
      forall k | 0 <= k <= n - 1 ensures Offset(dir, next, k) == Offset(dir, year, k + 1) { }
      ProbeFirstFailure(dir, next, n - 1, maxYear, minYear, status);
    }
  }

  /** A walk that never fails before its limit returns the limit. */
  lemma {:induction false} ProbeReachesLimit(dir: Direction, year: int, n: nat, maxYear: int, minYear: int,
                                             status: int -> int)
    requires Offset(dir, year, n) == Limit(dir, maxYear, minYear)
    requires forall k :: 0 <= k < n ==> Inside(Offset(dir, year, k), maxYear, minYear)
    requires forall k :: 0 <= k < n ==> status(Offset(dir, year, k)) == 200
    ensures Probe(dir, year, maxYear, minYear, status) == Limit(dir, maxYear, minYear)
    decreases n
  {
    if n > 0 {
      var next := Step(dir, year);
      assert Inside(Offset(dir, year, 0), maxYear, minYear);
      assert status(Offset(dir, year, 0)) == 200;
      forall k | 0 <= k <= n - 1 ensures Offset(dir, next, k) == Offset(dir, year, k + 1) { }
      ProbeReachesLimit(dir, next, n - 1, maxYear, minYear, status);
    }
  }

  /** When the anchor year's own fetch fails, "max" gives the year before
      it and "min" the year after it. */
  lemma AnchorFails(maxYear: int, minYear: int, fetch: string -> Fetch)
    requires minYear < ANCHOR_YEAR < maxYear
    requires Status(fetch(LinkYear(ANCHOR_YEAR))) == FAILURE_STATUS
    ensures BoundYear("max", maxYear, minYear, fetch) == Ok(2018)
    ensures BoundYear("min", maxYear, minYear, fetch) == Ok(2020)
  {
  }

  /** When the anchor year answers neither 200 nor a failure, the walk still
      steps past it: "max" gives the year after it and "min" the year
      before it, neither of which was fetched or served a page. */
  lemma AnchorNoPage(maxYear: int, minYear: int, fetch: string -> Fetch)
    requires minYear < ANCHOR_YEAR < maxYear
    requires fetch(LinkYear(ANCHOR_YEAR)).NoContent?
    ensures BoundYear("max", maxYear, minYear, fetch) == Ok(2020)
    ensures BoundYear("min", maxYear, minYear, fetch) == Ok(2018)
  {
  }

  /** With the default limits, a site that serves 2019 to 2025 and fails
      at 2026 has 2025 as its last year. */
  lemma LastYearScenario(fetch: string -> Fetch)
    requires forall y :: ANCHOR_YEAR <= y <= 2025 ==> Status(fetch(LinkYear(y))) == 200
    requires Status(fetch(LinkYear(2026))) == FAILURE_STATUS
    ensures BoundYear("max", DEFAULT_MAX_YEAR, DEFAULT_MIN_YEAR, fetch) == Ok(2025)
  {
    var status := YearStatus(fetch);
    forall k | 0 <= k < 7 ensures status(Offset(Later, ANCHOR_YEAR, k)) == 200 {
      assert ANCHOR_YEAR <= ANCHOR_YEAR + k <= 2025;
    }
    ProbeFirstFailure(Later, ANCHOR_YEAR, 7, DEFAULT_MAX_YEAR, DEFAULT_MIN_YEAR, status);
  }
}
