/** `ORDER BY date ASC` over an in-memory result set. The ordering has no
    tiebreak in the database; the model keeps rows with equal dates in table
    order (a stable insertion sort). */
module DateOrder {

  predicate SortedBy<T>(xs: seq<T>, date: T -> int) {
    forall i, j | 0 <= i < j < |xs| :: date(xs[i]) <= date(xs[j])
  }

  /** Puts `x` in front of the first element that is not earlier than it. */
  function Insert<T>(x: T, xs: seq<T>, date: T -> int): (r: seq<T>)
    requires SortedBy(xs, date)
    ensures SortedBy(r, date)
    ensures multiset(r) == multiset(xs) + multiset{x}
    decreases |xs|
  {
    if xs == [] || date(x) <= date(xs[0]) then
      [x] + xs
    else
      var rest := Insert(x, xs[1..], date);
      FirstIsEarliest(xs[0], rest, x, xs[1..], date);
      assert xs == [xs[0]] + xs[1..];
      [xs[0]] + rest
  }

  /** An element no later than everything that went into `rest` may lead it. */
  lemma FirstIsEarliest<T>(first: T, rest: seq<T>, x: T, tail: seq<T>, date: T -> int)
    requires SortedBy(rest, date)
    requires multiset(rest) == multiset(tail) + multiset{x}
    requires date(first) <= date(x)
    requires forall y | y in tail :: date(first) <= date(y)
    ensures SortedBy([first] + rest, date)
  {
    forall k | 0 <= k < |rest| ensures date(first) <= date(rest[k]) {
      assert rest[k] in multiset(rest);
    }
  }

  /** The rows of `xs` in non-decreasing date order. */
  function SortByDate<T>(xs: seq<T>, date: T -> int): (r: seq<T>)
    ensures SortedBy(r, date)
    ensures multiset(r) == multiset(xs)
    decreases |xs|
  {
    if xs == [] then
      []
    else
      assert xs == [xs[0]] + xs[1..];
      Insert(xs[0], SortByDate(xs[1..], date), date)
  }
}
