/** The Python list operations the front ends use on the task list. */
module Lists {
  import opened Wrappers

  /**
   * The position Python's `xs[index]` addresses in a list of length `len`:
   * a negative index counts from the end; anything outside `-len .. len-1`
   * raises `IndexError`, here `None`.
   */
  function PyIndex(index: int, len: nat): (r: Option<nat>)
    ensures r.Some? <==> 0 <= index + len && index < len
    ensures r.Some? ==> r.value < len && r.value % len == index % len
  {
    if 0 <= index < len then Some(index)
    else if 0 <= index + len && index < 0 then Some(index + len)
    else None
  }

  /** `xs.pop(i)` for an in-range position: `xs` without its element at `i`. */
  function RemoveAt<T>(xs: seq<T>, i: nat): (r: seq<T>)
    requires i < |xs|
    ensures |r| == |xs| - 1
    ensures forall j :: 0 <= j < i ==> r[j] == xs[j]
    ensures forall j :: i <= j < |r| ==> r[j] == xs[j + 1]
    ensures multiset(r) + multiset{xs[i]} == multiset(xs)
  {
    assert xs == xs[..i] + [xs[i]] + xs[i + 1..];
    xs[..i] + xs[i + 1..]
  }

  /** `xs.index(x)`: the position of the first occurrence of `x`. */
  function FirstIndex<T(==)>(xs: seq<T>, x: T): (r: nat)
    requires x in xs
    ensures r < |xs| && xs[r] == x
    ensures forall j :: 0 <= j < r ==> xs[j] != x
  {
    if xs[0] == x then 0 else 1 + FirstIndex(xs[1..], x)
  }

  /** `xs.remove(x)`: `xs` without the first occurrence of `x`. */
  function RemoveFirst<T(==)>(xs: seq<T>, x: T): (r: seq<T>)
    requires x in xs
    ensures |r| == |xs| - 1
    ensures multiset(r) == multiset(xs) - multiset{x}
    ensures var i := FirstIndex(xs, x);
            (forall j :: 0 <= j < i ==> r[j] == xs[j]) && (forall j :: i <= j < |r| ==> r[j] == xs[j + 1])
  {
    RemoveAt(xs, FirstIndex(xs, x))
  }

  /** `xs[xs.index(x)] = y`: the first occurrence of `x` becomes `y`. */
  function ReplaceFirst<T(==)>(xs: seq<T>, x: T, y: T): (r: seq<T>)
    requires x in xs
    ensures |r| == |xs|
    ensures var i := FirstIndex(xs, x);
            r[i] == y && forall j :: 0 <= j < |xs| && j != i ==> r[j] == xs[j]
  {
    xs[FirstIndex(xs, x) := y]
  }
}
