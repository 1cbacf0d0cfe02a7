/** The message sets of IMAP commands (RFC 3501 section 9, `sequence-set`), as the
    protocol layer hands them to the mailbox: a list of ranges whose ends are numbers
    or `*`. Once the mailbox tells the set what `*` stands for (its `last` value), the
    set denotes a finite set of naturals; a range may be written in either order. */
module MessageSets {

  datatype Bound = Num(n: nat) | Star
  datatype Span = Span(lo: Bound, hi: Bound)
  type MessageSet = seq<Span>

  function Value(b: Bound, last: nat): nat {
    match b
    case Num(n) => n
    case Star => last
  }

  /** The numbers from `l` to `h` inclusive. */
  function Interval(l: nat, h: nat): (r: set<nat>)
    ensures forall n: nat :: n in r <==> l <= n <= h
    decreases h - l + 1
  {
    if l > h then {} else {l} + Interval(l + 1, h)
  }

  /** n lies within the range once `*` is `last`, whichever end is the larger. */
  predicate InSpan(n: nat, sp: Span, last: nat) {
    var a, b := Value(sp.lo, last), Value(sp.hi, last);
    a <= n <= b || b <= n <= a
  }

  /** n lies within some range of the message set once `*` is `last`. */
  predicate InSet(n: nat, ms: MessageSet, last: nat) {
    exists k :: 0 <= k < |ms| && InSpan(n, ms[k], last)
  }

  /** The numbers one range stands for once `*` is `last`. */
  function SpanMembers(sp: Span, last: nat): (r: set<nat>)
    ensures forall n: nat :: n in r <==> InSpan(n, sp, last)
  {
    var a, b := Value(sp.lo, last), Value(sp.hi, last);
    if a <= b then Interval(a, b) else Interval(b, a)
  }

  /** The numbers a whole message set stands for once `*` is `last`. */
  function Resolve(ms: MessageSet, last: nat): (r: set<nat>)
    ensures forall n: nat :: n in r <==> InSet(n, ms, last)
  {
    if ms == [] then {}
    else
      var r := SpanMembers(ms[0], last) + Resolve(ms[1..], last);
      assert forall n: nat :: InSet(n, ms, last) <==> InSpan(n, ms[0], last) || InSet(n, ms[1..], last) by {
        forall n: nat ensures InSet(n, ms, last) ==> InSpan(n, ms[0], last) || InSet(n, ms[1..], last) {
          if InSet(n, ms, last) && !InSpan(n, ms[0], last) {
            var k :| 0 <= k < |ms| && InSpan(n, ms[k], last);
            assert ms[1..][k - 1] == ms[k];
          }
        }
        forall n: nat ensures InSet(n, ms[1..], last) ==> InSet(n, ms, last) {
          if InSet(n, ms[1..], last) {
            var k :| 0 <= k < |ms| - 1 && InSpan(n, ms[1..][k], last);
            assert ms[k + 1] == ms[1..][k];
          }
        }
      }
      r
  }

  /** `*` alone stands for exactly the `last` value. */
  lemma StarIsLast(last: nat)
    ensures Resolve([Span(Star, Star)], last) == {last}
  {
    assert InSpan(last, Span(Star, Star), last);
  }

  /** A single number `n` (written `n` or `n:n`) stands for itself alone. */
  lemma SingleNumber(n: nat, last: nat)
    ensures Resolve([Span(Num(n), Num(n))], last) == {n}
  {
    assert InSpan(n, Span(Num(n), Num(n)), last);
  }

  /** `1:*` stands for every number from 1 to `last`, and `*:1` for the same. */
  lemma OneToStar(last: nat)
    ensures Resolve([Span(Num(1), Star)], last) == Resolve([Span(Star, Num(1))], last)
    ensures last >= 1 ==> forall n: nat :: n in Resolve([Span(Num(1), Star)], last) <==> 1 <= n <= last
  {
    var fwd, bwd := Resolve([Span(Num(1), Star)], last), Resolve([Span(Star, Num(1))], last);
    forall n: nat ensures n in fwd <==> n in bwd {
      assert InSet(n, [Span(Num(1), Star)], last) <==> InSpan(n, Span(Num(1), Star), last);
      assert InSet(n, [Span(Star, Num(1))], last) <==> InSpan(n, Span(Star, Num(1)), last);
    }
  }
}
