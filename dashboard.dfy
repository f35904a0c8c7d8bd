/** What the two Streamlit dashboards share: the three display tiers a room
    can be in, and the row filtering that narrows a table by a predicate
    while keeping its order. The rows are the `/rooms/all` entries. */
module Dashboard {

  /** `"Free"`, `"Partial"` or `"Full"`; a timetable booking counts as
      full. */
  datatype Tier = Free | Partial | Full

  /** `occupancy_level >= FULL_THRESHOLD` is full. */
  const FullThreshold := 95
  /** `occupancy_level > PARTIAL_THRESHOLD` is at least partial. */
  const PartialThreshold := 30

  function TierName(t: Tier): string
  {
    match t
    case Free => "Free"
    case Partial => "Partial"
    case Full => "Full"
  }

  /** Tier names tell the tiers apart, so the status selector picks out
      exactly one tier. */
  lemma TierNamesDistinct(a: Tier, b: Tier)
    ensures TierName(a) == TierName(b) <==> a == b
  {
  }

  /** A boolean mask applied to a table: the rows that satisfy `f`, in
      their original order. */
  function Filter<T>(s: seq<T>, f: T -> bool): (r: seq<T>)
    ensures |r| <= |s|
    ensures forall i | 0 <= i < |r| :: r[i] in s && f(r[i])
    ensures forall i | 0 <= i < |s| && f(s[i]) :: s[i] in r
  {
    if s == [] then []
    else
      var rest := Filter(s[..|s| - 1], f);
      var x := s[|s| - 1];
      assert s == s[..|s| - 1] + [x];
      if f(x) then rest + [x] else rest
  }

  /** The mask keeps every passing row exactly as often as the table holds
      it, and no other row. */
  lemma {:induction false} FilterCounts<T>(s: seq<T>, f: T -> bool)
    ensures forall x :: multiset(Filter(s, f))[x] == if f(x) then multiset(s)[x] else 0
  {
    if s != [] {
      var init, x := s[..|s| - 1], s[|s| - 1];
      FilterCounts(init, f);
      assert s == init + [x];
      assert Filter(s, f) == Filter(init, f) + (if f(x) then [x] else []);
    }
  }

  /** Masking twice is masking once by the conjunction. */
  lemma {:induction false} FilterTwice<T>(s: seq<T>, f: T -> bool, g: T -> bool, h: T -> bool)
    requires forall x :: h(x) == (f(x) && g(x))
    ensures Filter(Filter(s, f), g) == Filter(s, h)
  {
    if s != [] {
      var init := s[..|s| - 1];
      FilterTwice(init, f, g, h);
      var x := s[|s| - 1];
      if f(x) {
        assert (Filter(init, f) + [x])[..|Filter(init, f)|] == Filter(init, f);
      }
    }
  }

  /** A mask that every row passes leaves the table as it was. */
  lemma {:induction false} FilterAll<T>(s: seq<T>, f: T -> bool)
    requires forall x :: f(x)
    ensures Filter(s, f) == s
  {
    if s != [] {
      var init, x := s[..|s| - 1], s[|s| - 1];
      FilterAll(init, f);
      assert Filter(s, f) == Filter(init, f) + [x];
      assert s == init + [x];
    }
  }

  /** Masks that agree on every row agree on the table. */
  lemma {:induction false} FilterSame<T>(s: seq<T>, f: T -> bool, g: T -> bool)
    requires forall x :: f(x) == g(x)
    ensures Filter(s, f) == Filter(s, g)
  {
    if s != [] {
      FilterSame(s[..|s| - 1], f, g);
    }
  }
}
