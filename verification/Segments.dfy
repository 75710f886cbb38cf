/** Cutting the logical address space into datagram segments: the arithmetic of
    ecx_config_map_group, as a fold over the sizes it accounts, and what holds of the result. */
module Segments {

  /** EC_MAXLRWDATA - EC_FIRSTDCDATAGRAM: the frame limit 1518 without Ethernet header 14, length 2,
      datagram header 10, work counter 2 and FCS 4, less the 20 bytes of the clock datagram. */
  const SEGMENT_LIMIT := 1518 - 14 - 2 - 10 - 2 - 4 - 20
  const EC_MAXIOSEGMENTS := 64

  /** Segments closed so far, and the size of the open one. */
  datatype Cut = Cut(closed: seq<nat>, size: nat)

  /** Account `diff` more bytes. With the table full, bytes that do not fit are dropped. */
  function Account(c: Cut, diff: nat): Cut {
    if c.size + diff > SEGMENT_LIMIT then
      if |c.closed| < EC_MAXIOSEGMENTS - 1 then Cut(c.closed + [c.size], diff) else c
    else c.(size := c.size + diff)
  }

  function AccountAll(c: Cut, diffs: seq<nat>): Cut {
    if diffs == [] then c else Account(AccountAll(c, diffs[..|diffs| - 1]), diffs[|diffs| - 1])
  }

  const EMPTY := Cut([], 0)

  function Table(c: Cut): seq<nat> { c.closed + [c.size] }

  function Sum(s: seq<nat>): nat {
    if s == [] then 0 else s[0] + Sum(s[1..])
  }

  lemma {:induction false} SumAppend(a: seq<nat>, b: seq<nat>)
    ensures Sum(a + b) == Sum(a) + Sum(b)
  {
    if a == [] {
      assert a + b == b;
    } else {
      SumAppend(a[1..], b);
      assert (a + b)[1..] == a[1..] + b;
    }
  }

  lemma {:induction false} AccountAppend(c: Cut, a: seq<nat>, b: seq<nat>)
    ensures AccountAll(c, a + b) == AccountAll(AccountAll(c, a), b)
  {
    if b == [] {
      assert a + b == a;
    } else {
      var n := |b| - 1;
      AccountAppend(c, a, b[..n]);
      assert (a + b)[..|a + b| - 1] == a + b[..n];
      assert (a + b)[|a + b| - 1] == b[n];
    }
  }

  /** Nothing was dropped while accounting `diffs`: first fit needs at most 64 segments. */
  predicate Fits(diffs: seq<nat>) {
    diffs == [] ||
    (Fits(diffs[..|diffs| - 1]) &&
     var c := AccountAll(EMPTY, diffs[..|diffs| - 1]);
     diffs[|diffs| - 1] > 0 && c.size + diffs[|diffs| - 1] > SEGMENT_LIMIT ==> |c.closed| < EC_MAXIOSEGMENTS - 1)
  }

  /** The segments add up to all bytes exactly when nothing was dropped; else bytes are missing. */
  lemma {:induction false} SegmentsAddUp(diffs: seq<nat>)
    ensures Sum(Table(AccountAll(EMPTY, diffs))) <= Sum(diffs)
    ensures Sum(Table(AccountAll(EMPTY, diffs))) == Sum(diffs) <==> Fits(diffs)
    ensures |Table(AccountAll(EMPTY, diffs))| <= EC_MAXIOSEGMENTS
  {
    if diffs != [] {
      var pre, d := diffs[..|diffs| - 1], diffs[|diffs| - 1];
      SegmentsAddUp(pre);
      assert diffs == pre + [d];
      SumAppend(pre, [d]);
      assert Sum([d]) == d;
      AccountSum(AccountAll(EMPTY, pre), d);
    }
  }

  lemma AccountSum(c: Cut, d: nat)
    ensures Sum(Table(Account(c, d))) ==
            Sum(Table(c)) + if c.size + d > SEGMENT_LIMIT && |c.closed| >= EC_MAXIOSEGMENTS - 1 then 0 else d
  {
    SumAppend(c.closed, [c.size]);
    SumAppend(c.closed, [c.size + d]);
    SumAppend(c.closed + [c.size], [d]);
    assert Sum([c.size]) == c.size && Sum([d]) == d && Sum([c.size + d]) == c.size + d;
  }

  /** Some segment of the table, laid out from `base`, holds all of [a, b). */
  predicate Within(segs: seq<nat>, base: nat, a: int, b: int) {
    segs != [] && ((base <= a && b <= base + segs[0]) || Within(segs[1..], base + segs[0], a, b))
  }

  lemma {:induction false} WithinAppend(segs: seq<nat>, more: seq<nat>, base: nat, a: int, b: int)
    requires Within(segs, base, a, b)
    ensures Within(segs + more, base, a, b)
  {
    assert (segs + more)[1..] == segs[1..] + more;
    if !(base <= a && b <= base + segs[0]) {
      WithinAppend(segs[1..], more, base + segs[0], a, b);
    }
  }

  /** The open segment, grown or not, holds what lies behind the closed ones. */
  lemma {:induction false} WithinLast(closed: seq<nat>, size: nat, base: nat, a: int, b: int)
    requires base + Sum(closed) <= a && b <= base + Sum(closed) + size
    ensures Within(closed + [size], base, a, b)
  {
    if closed != [] {
      assert (closed + [size])[1..] == closed[1..] + [size];
      WithinLast(closed[1..], size, base + closed[0], a, b);
    }
  }

  lemma {:induction false} WithinGrows(closed: seq<nat>, size: nat, more: nat, base: nat, a: int, b: int)
    requires Within(closed + [size], base, a, b)
    ensures Within(closed + [size + more], base, a, b)
  {
    if closed != [] {
      assert (closed + [size])[1..] == closed[1..] + [size];
      assert (closed + [size + more])[1..] == closed[1..] + [size + more];
      if !(base <= a && b <= base + closed[0]) {
        WithinGrows(closed[1..], size, more, base + closed[0], a, b);
      }
    }
  }

  lemma AccountKeepsWithin(c: Cut, d: nat, base: nat, a: int, b: int)
    requires Within(Table(c), base, a, b)
    ensures Within(Table(Account(c, d)), base, a, b)
  {
    if c.size + d <= SEGMENT_LIMIT {
      WithinGrows(c.closed, c.size, d, base, a, b);
    } else if |c.closed| < EC_MAXIOSEGMENTS - 1 {
      WithinAppend(Table(c), [d], base, a, b);
    }
  }

  lemma {:induction false} AccountAllKeepsWithin(c: Cut, diffs: seq<nat>, base: nat, a: int, b: int)
    requires Within(Table(c), base, a, b)
    ensures Within(Table(AccountAll(c, diffs)), base, a, b)
  {
    if diffs != [] {
      AccountAllKeepsWithin(c, diffs[..|diffs| - 1], base, a, b);
      AccountKeepsWithin(AccountAll(c, diffs[..|diffs| - 1]), diffs[|diffs| - 1], base, a, b);
    }
  }

  lemma {:induction false} FitsPrefix(a: seq<nat>, b: seq<nat>)
    requires Fits(a + b)
    ensures Fits(a)
  {
    if b == [] {
      assert a + b == a;
    } else {
      assert (a + b)[..|a + b| - 1] == a + b[..|b| - 1];
      FitsPrefix(a, b[..|b| - 1]);
    }
  }

  /** A piece just accounted ends the table. */
  lemma LastPiece(c: Cut, d: nat, base: nat, a: nat)
    requires a == base + Sum(Table(c)) && (d > 0 && c.size + d > SEGMENT_LIMIT ==> |c.closed| < EC_MAXIOSEGMENTS - 1)
    ensures Within(Table(Account(c, d)), base, a, a + d)
  {
    SumAppend(c.closed, [c.size]);
    if c.size + d <= SEGMENT_LIMIT {
      WithinLast(c.closed, c.size + d, base, a, a + d);
    } else if |c.closed| < EC_MAXIOSEGMENTS - 1 {
      WithinLast(c.closed + [c.size], d, base, a, a + d);
    } else {
      WithinLast(c.closed, c.size, base, a, a);
    }
  }

  /** Datagrams never break what was accounted in one piece: the bytes accounted with `d` lie in one
      segment, whatever follows. */
  lemma PieceUnbroken(pre: seq<nat>, d: nat, post: seq<nat>, base: nat)
    requires Fits(pre + [d] + post)
    ensures Within(Table(AccountAll(EMPTY, pre + [d] + post)), base, base + Sum(pre), base + Sum(pre) + d)
  {
    var c := AccountAll(EMPTY, pre);
    assert Fits(pre + [d]) by { FitsPrefix(pre + [d], post); }
    assert Fits(pre) && (pre + [d])[..|pre|] == pre by { FitsPrefix(pre, [d]); }
    assert Sum(Table(c)) == Sum(pre) by { SegmentsAddUp(pre); }
    LastPiece(c, d, base, base + Sum(pre));
    AccountAllKeepsWithin(Account(c, d), post, base, base + Sum(pre), base + Sum(pre) + d);
    AccountAppend(EMPTY, pre + [d], post);
  }

  /** Pieces within the limit make segments within the limit: no frame gets longer than 1514 bytes. */
  lemma {:induction false} SegmentsBounded(diffs: seq<nat>, limit: nat)
    requires limit >= SEGMENT_LIMIT && forall k :: 0 <= k < |diffs| ==> diffs[k] <= limit
    ensures forall k :: 0 <= k < |Table(AccountAll(EMPTY, diffs))| ==> Table(AccountAll(EMPTY, diffs))[k] <= limit
  {
    if diffs != [] {
      SegmentsBounded(diffs[..|diffs| - 1], limit);
      var c := AccountAll(EMPTY, diffs[..|diffs| - 1]);
      assert forall k :: 0 <= k < |c.closed| ==> c.closed[k] == Table(c)[k];
      assert c.size == Table(c)[|c.closed|];
    }
  }

  /** Accounting more never touches the closed segments, and the open one only grows. */
  lemma {:induction false} CutExtends(c: Cut, diffs: seq<nat>)
    ensures var t := Table(AccountAll(c, diffs));
      |c.closed| < |t| && t[..|c.closed|] == c.closed && t[|c.closed|] >= c.size
  {
    if diffs != [] { CutExtends(c, diffs[..|diffs| - 1]); }
  }

  /** Where the output part ends: behind the segments closed by then and `size` bytes of the next,
      and what remains is the input part. */
  lemma SharedSegment(outDiffs: seq<nat>, inDiffs: seq<nat>)
    requires Fits(outDiffs + inDiffs)
    ensures var c := AccountAll(EMPTY, outDiffs);
      var t := Table(AccountAll(EMPTY, outDiffs + inDiffs));
      && Sum(t) == Sum(outDiffs) + Sum(inDiffs)
      && |c.closed| < |t| && c.size <= t[|c.closed|]
      && Sum(t[..|c.closed|]) + c.size == Sum(outDiffs)
      && Sum(t[|c.closed|..]) == c.size + Sum(inDiffs)
  {
    var c := AccountAll(EMPTY, outDiffs);
    var t := Table(AccountAll(EMPTY, outDiffs + inDiffs));
    assert |c.closed| < |t| && t[..|c.closed|] == c.closed && t[|c.closed|] >= c.size by {
      AccountAppend(EMPTY, outDiffs, inDiffs);
      CutExtends(c, inDiffs);
    }
    assert Sum(Table(c)) == Sum(outDiffs) by {
      FitsPrefix(outDiffs, inDiffs);
      SegmentsAddUp(outDiffs);
    }
    assert Sum(t) == Sum(outDiffs) + Sum(inDiffs) by {
      SegmentsAddUp(outDiffs + inDiffs);
      SumAppend(outDiffs, inDiffs);
    }
    CutSums(c, t, |c.closed|);
  }

  lemma CutSums(c: Cut, t: seq<nat>, n: nat)
    requires n == |c.closed| <= |t| && t[..n] == c.closed
    ensures Sum(Table(c)) == Sum(t[..n]) + c.size && Sum(t) == Sum(t[..n]) + Sum(t[n..])
  {
    SumAppend(c.closed, [c.size]);
    SumAppend(t[..n], t[n..]);
    assert t == t[..n] + t[n..] && Sum([c.size]) == c.size;
  }
}
