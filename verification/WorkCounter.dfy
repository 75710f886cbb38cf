/** Work counters of logical datagrams: how often the slaves answer a tiled address range, and why
    that is the expected count exactly when no slave's window is split between two datagrams. */
module WorkCounter {
  import opened Basics
  import opened Segments

  /** The bits one slave maps in one direction: from bit a up to bit b of the logical space. */
  datatype Span = Span(a: int, b: int)

  predicate NonEmpty(s: Span) { s.a < s.b }

  /** A datagram over the bits [lo, hi) reaches the span. */
  predicate Reaches(s: Span, lo: int, hi: int) {
    s.a < s.b && lo < hi && s.a < hi && lo < s.b
  }

  /** Number of slaves with something mapped: the expected count of a direction. */
  function Expected(spans: seq<Span>): nat {
    if spans == [] then 0 else Bit(NonEmpty(spans[0])) + Expected(spans[1..])
  }

  lemma {:induction false} ExpectedAppend(a: seq<Span>, s: Span)
    ensures Expected(a + [s]) == Expected(a) + Bit(NonEmpty(s))
  {
    if a == [] {
      assert ([] + [s])[1..] == [];
    } else {
      assert (a + [s])[1..] == a[1..] + [s];
      ExpectedAppend(a[1..], s);
    }
  }

  /** Number of slaves that answer one datagram; a slave adds once however many windows it has. */
  function Hits(spans: seq<Span>, lo: int, hi: int): nat {
    if spans == [] then 0 else Bit(Reaches(spans[0], lo, hi)) + Hits(spans[1..], lo, hi)
  }

  /** Answers to a chain of datagrams of the lengths `lens` (bytes) from the byte `from`. */
  function TotalHits(spans: seq<Span>, from: nat, lens: seq<nat>): nat
    decreases lens
  {
    if lens == [] then 0
    else Hits(spans, 8 * from, 8 * (from + lens[0])) + TotalHits(spans, from + lens[0], lens[1..])
  }

  /** Datagrams of the chain that reach one span. */
  function Touches(s: Span, from: nat, lens: seq<nat>): nat
    decreases lens
  {
    if lens == [] then 0
    else Bit(Reaches(s, 8 * from, 8 * (from + lens[0]))) + Touches(s, from + lens[0], lens[1..])
  }

  /** One datagram of the chain covers the whole span. */
  predicate Unsplit(s: Span, from: nat, lens: seq<nat>)
    decreases lens
  {
    lens != [] && ((8 * from <= s.a && s.b <= 8 * (from + lens[0])) || Unsplit(s, from + lens[0], lens[1..]))
  }

  lemma {:induction false} TotalByHead(spans: seq<Span>, from: nat, lens: seq<nat>)
    requires spans != []
    ensures TotalHits(spans, from, lens) == Touches(spans[0], from, lens) + TotalHits(spans[1..], from, lens)
    decreases lens
  {
    if lens != [] { TotalByHead(spans, from + lens[0], lens[1..]); }
  }

  lemma {:induction false} TotalOfNone(from: nat, lens: seq<nat>)
    ensures TotalHits([], from, lens) == 0
    decreases lens
  {
    if lens != [] { TotalOfNone(from + lens[0], lens[1..]); }
  }

  lemma {:induction false} BehindUntouched(s: Span, from: nat, lens: seq<nat>)
    requires s.b <= 8 * from
    ensures Touches(s, from, lens) == 0
    ensures NonEmpty(s) ==> !Unsplit(s, from, lens)
    decreases lens
  {
    if lens != [] { BehindUntouched(s, from + lens[0], lens[1..]); }
  }

  /** A span inside the chain is reached at least once, and exactly once when it is not split. */
  lemma {:induction false} TouchedOnce(s: Span, from: nat, lens: seq<nat>)
    requires NonEmpty(s) && 8 * from < s.b <= 8 * (from + Sum(lens))
    ensures Touches(s, from, lens) >= 1
    ensures 8 * from <= s.a ==> (Touches(s, from, lens) == 1 <==> Unsplit(s, from, lens))
    decreases lens
  {
    assert lens != [];
    var next, rest := from + lens[0], lens[1..];
    if s.b <= 8 * next {
      BehindUntouched(s, next, rest);
    } else {
      TouchedOnce(s, next, rest);
      if 8 * from <= s.a && s.a < 8 * next {
        SplitStays(s, next, rest);
      }
    }
  }

  lemma {:induction false} SplitStays(s: Span, from: nat, lens: seq<nat>)
    requires s.a < 8 * from
    ensures !Unsplit(s, from, lens)
    decreases lens
  {
    if lens != [] { SplitStays(s, from + lens[0], lens[1..]); }
  }

  predicate AllInside(spans: seq<Span>, lo: int, hi: int) {
    forall k :: 0 <= k < |spans| && NonEmpty(spans[k]) ==> lo <= spans[k].a && spans[k].b <= hi
  }

  predicate NoneSplit(spans: seq<Span>, from: nat, lens: seq<nat>) {
    forall k :: 0 <= k < |spans| && NonEmpty(spans[k]) ==> Unsplit(spans[k], from, lens)
  }

  /** The answers to a chain of datagrams over everything mapped are never fewer than expected, and
      as many as expected exactly when the chain splits no slave's span. */
  lemma {:induction false} CountsAreExact(spans: seq<Span>, from: nat, lens: seq<nat>)
    requires AllInside(spans, 8 * from, 8 * (from + Sum(lens)))
    ensures TotalHits(spans, from, lens) >= Expected(spans)
    ensures TotalHits(spans, from, lens) == Expected(spans) <==> NoneSplit(spans, from, lens)
  {
    if spans == [] {
      TotalOfNone(from, lens);
    } else {
      var s, rest := spans[0], spans[1..];
      assert forall k :: 0 <= k < |rest| ==> rest[k] == spans[k + 1];
      CountsAreExact(rest, from, lens);
      TotalByHead(spans, from, lens);
      if NonEmpty(s) {
        TouchedOnce(s, from, lens);
      } else {
        EmptyUntouched(s, from, lens);
      }
      assert NoneSplit(spans, from, lens) <==>
             (NonEmpty(s) ==> Unsplit(s, from, lens)) && NoneSplit(rest, from, lens) by {
        if NoneSplit(rest, from, lens) {
          forall k | 1 <= k < |spans| && NonEmpty(spans[k]) ensures Unsplit(spans[k], from, lens) {
            assert spans[k] == rest[k - 1];
          }
        }
      }
    }
  }

  lemma {:induction false} EmptyUntouched(s: Span, from: nat, lens: seq<nat>)
    requires !NonEmpty(s)
    ensures Touches(s, from, lens) == 0
    decreases lens
  {
    if lens != [] { EmptyUntouched(s, from + lens[0], lens[1..]); }
  }

  /** Bytes kept together by the segmentation keep a span inside them in one datagram. */
  lemma {:induction false} WithinUnsplit(s: Span, segs: seq<nat>, base: nat, a: int, b: int)
    requires Within(segs, base, a, b) && 8 * a <= s.a && s.b <= 8 * b
    ensures Unsplit(s, base, segs)
  {
    if !(base <= a && b <= base + segs[0]) { WithinUnsplit(s, segs[1..], base + segs[0], a, b); }
  }
}
