/** Python list operations the mailbox relies on, with their exact semantics. */
module Lists {
  import opened Results

  /** `set(xs)` */
  function SetOf<T(==)>(xs: seq<T>): (r: set<T>)
    ensures forall x :: x in r ==> x in xs
    ensures forall i :: 0 <= i < |xs| ==> xs[i] in r
  {
    set x | x in xs
  }

  /** `xs[k]`: negative indices count from the end, anything else outside the list raises. */
  function Index<T>(xs: seq<T>, k: int): (r: Result<T>)
    ensures r.Ok? <==> -|xs| <= k < |xs|
    ensures 0 <= k < |xs| ==> r == Ok(xs[k])
    ensures -|xs| <= k < 0 ==> r == Ok(xs[|xs| + k])
    ensures r.Err? ==> r.error == IndexError
  {
    if 0 <= k < |xs| then Ok(xs[k])
    else if -|xs| <= k < 0 then Ok(xs[|xs| + k])
    else Err(IndexError)
  }

  /** Position of the first occurrence of `x`. */
  function IndexOf<T(==)>(xs: seq<T>, x: T): (k: nat)
    requires x in xs
    ensures k < |xs| && xs[k] == x && x !in xs[..k]
  {
    if xs[0] == x then 0
    else
      var k := 1 + IndexOf(xs[1..], x);
      assert xs[..k] == [xs[0]] + xs[1..][..k - 1];
      k
  }

  /** What `xs.remove(x)` leaves behind when `x` is present; `xs` itself otherwise.
      The elements before the first `x` stay in place and those after it move up one. */
  function RemoveFirst<T(==)>(xs: seq<T>, x: T): (r: seq<T>)
    ensures x !in xs ==> r == xs
    ensures x in xs ==> |r| == |xs| - 1 && multiset(r) == multiset(xs) - multiset{x}
    ensures x in xs ==> forall i :: 0 <= i < |r| ==> r[i] == if i < IndexOf(xs, x) then xs[i] else xs[i + 1]
  {
    if x in xs then
      var k := IndexOf(xs, x);
      assert xs == xs[..k] + [x] + xs[k + 1..];
      xs[..k] + xs[k + 1..]
    else xs
  }

  /** Removing an element that occurs after a prefix not containing it. */
  lemma RemoveFirstAfter<T>(a: seq<T>, x: T, b: seq<T>)
    requires x !in a
    ensures RemoveFirst(a + [x] + b, x) == a + b
  {
    var s := a + [x] + b;
    assert s[|a|] == x;
    var k := IndexOf(s, x);
    assert k == |a|;
    assert s[..k] == a;
    assert s[k + 1..] == b;
  }

  /** `xs.remove(x)`: removes the first occurrence, raises ValueError when there is none. */
  function Remove<T(==)>(xs: seq<T>, x: T): (r: Result<seq<T>>)
    ensures r.Err? <==> x !in xs
    ensures r.Err? ==> r.error == ValueError
    ensures r.Ok? ==> r.value == RemoveFirst(xs, x)
    ensures r.Ok? ==> |r.value| == |xs| - 1 && multiset(r.value) == multiset(xs) - multiset{x}
  {
    if x in xs then Ok(RemoveFirst(xs, x)) else Err(ValueError)
  }

  /** The entries of `m` whose keys lie in `[lo, hi)`, in ascending key order. */
  function Items<V>(m: map<nat, V>, lo: nat, hi: nat): (r: seq<(nat, V)>)
    ensures forall p :: p in r ==> lo <= p.0 < hi && p.0 in m && m[p.0] == p.1
    ensures forall k :: k in m && lo <= k < hi ==> (k, m[k]) in r
    ensures forall i, j :: 0 <= i < j < |r| ==> r[i].0 < r[j].0
    ensures forall i :: 0 <= i < |r| ==> lo <= r[i].0 < hi
    decreases hi - lo
  {
    if lo >= hi then []
    else (if lo in m then [(lo, m[lo])] else []) + Items(m, lo + 1, hi)
  }
}
