/** Single-row selections of SQL: `WHERE keep ORDER BY key ASC LIMIT 1` and
    `MIN(key)` pick a row of least key among those kept, `... DESC LIMIT 1`
    and `MAX(key)` one of greatest key. */
module Selection {
  import opened Outcomes

  /** The first row passing `keep` whose key is least among the rows passing `keep`. */
  function ArgMin<T>(xs: seq<T>, key: T -> int, keep: T -> bool): (r: Option<T>)
    ensures r.None? <==> forall x :: x in xs ==> !keep(x)
    ensures r.Some? ==> r.value in xs && keep(r.value)
    ensures r.Some? ==> forall x :: x in xs && keep(x) ==> key(r.value) <= key(x)
    decreases |xs|
  {
    if xs == [] then None
    else
      var rest := ArgMin(xs[1..], key, keep);
      assert forall x :: x in xs ==> x == xs[0] || x in xs[1..];
      if keep(xs[0]) && (rest.None? || key(xs[0]) <= key(rest.value)) then Some(xs[0]) else rest
  }

  /** The last row passing `keep` whose key is greatest among the rows passing `keep`. */
  function ArgMax<T>(xs: seq<T>, key: T -> int, keep: T -> bool): (r: Option<T>)
    ensures r.None? <==> forall x :: x in xs ==> !keep(x)
    ensures r.Some? ==> r.value in xs && keep(r.value)
    ensures r.Some? ==> forall x :: x in xs && keep(x) ==> key(x) <= key(r.value)
    decreases |xs|
  {
    if xs == [] then None
    else
      var rest := ArgMax(xs[1..], key, keep);
      assert forall x :: x in xs ==> x == xs[0] || x in xs[1..];
      if keep(xs[0]) && (rest.None? || key(xs[0]) > key(rest.value)) then Some(xs[0]) else rest
  }

  /** The row before row `i`, if any: the tip a row appended at `i` links to. */
  function Previous<T>(xs: seq<T>, i: nat): (r: Option<T>)
    requires i <= |xs|
    ensures r.None? <==> i == 0
    ensures r.Some? ==> r.value == xs[i - 1]
  {
    if i == 0 then None else Some(xs[i - 1])
  }
}
