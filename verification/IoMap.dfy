/** ecx_config_map_group and ecx_config_overlap_map_group: all slaves of a group get their windows,
    outputs first or overlapping the inputs, and the address space is cut into segments. */
module IoMap {
  import opened Basics
  import opened FmmuMapping
  import opened Segments

  predicate InGroup(s: SlaveMap, group: nat) {
    group == 0 || s.group == group
  }

  /** Slave takes part in the mapping of direction d. */
  predicate Takes(s: SlaveMap, group: nat, d: Direction) {
    InGroup(s, group) && Bits(s, d) > 0
  }

  /** The windows of one direction over a whole slave list. `pts[k]` is the allocation point (a bit
      position) after slave k, `ws[k]` the windows of slave k. */
  datatype Layout = Layout(pts: seq<nat>, ws: seq<seq<Fmmu>>)

  /** `r` is the record `s` with the windows `ws` of direction d entered from some free entry on. */
  ghost predicate IsMapped(s: SlaveMap, d: Direction, ws: seq<Fmmu>, base: nat, r: SlaveMap) {
    exists first: nat :: s.fmmuUnused <= first <= |s.fmmu| && (d.Output? || s.obits == 0 ==> first == s.fmmuUnused)
                         && r == Mapped(s, d, first, ws, base)
  }

  /** One slave: record `s` became `r`, with windows `ws` between the bit positions `from` and `to`.
      A slave left out keeps its record. */
  ghost predicate SlaveDone(s: SlaveMap, r: SlaveMap, group: nat, d: Direction, base: nat, from: nat, to: nat,
                            ws: seq<Fmmu>) {
    if Takes(s, group, d)
    then |s.sms| == EC_MAXSM && IsPlacement(s, d, from, ws, to) && IsMapped(s, d, ws, base, r) && AllWindows(s, d, ws)
    else to == from && ws == [] && r == s
  }

  ghost predicate LaidAt(was: seq<SlaveMap>, now: seq<SlaveMap>, group: nat, d: Direction, base: nat, l: Layout, k: nat)
    requires 1 <= k < |was| && k < |now| && k < |l.pts| && k < |l.ws|
  {
    SlaveDone(was[k], now[k], group, d, base, l.pts[k - 1], l.pts[k], l.ws[k])
  }

  /** Slaves 1 to n are laid out. */
  ghost predicate Laid(was: seq<SlaveMap>, now: seq<SlaveMap>, group: nat, d: Direction, base: nat, l: Layout, n: nat) {
    && n < |was| == |now| && |l.pts| == |l.ws| == n + 1 && l.ws[0] == []
    && forall k :: 1 <= k <= n ==> LaidAt(was, now, group, d, base, l, k)
  }

  /** How far the byte address moves between two allocation points. */
  function Moved(from: nat, to: nat): nat {
    if to / 8 >= from / 8 then to / 8 - from / 8 else 0
  }

  /** Bytes accounted, one entry for each slave up to k that takes part. */
  ghost function Diffs(was: seq<SlaveMap>, group: nat, d: Direction, pts: seq<nat>, k: nat): seq<nat>
    requires k < |was| && k < |pts|
  {
    if k == 0 then []
    else Diffs(was, group, d, pts, k - 1) + if Takes(was[k], group, d) then [Moved(pts[k - 1], pts[k])] else []
  }

  /** Number of slaves up to k that add to the expected work counter of a direction. */
  ghost function Adding(ws: seq<seq<Fmmu>>, k: nat): nat
    requires k < |ws|
  {
    if k == 0 then 0 else Adding(ws, k - 1) + Bit(SomeNonEmpty(ws[k]))
  }

  lemma PlacementMoves(s: SlaveMap, d: Direction, start: nat, ws: seq<Fmmu>, end: nat)
    requires |s.sms| == EC_MAXSM && IsPlacement(s, d, start, ws, end)
    ensures start <= end && Moved(start, end) == end / 8 - start / 8
  {
  }

  lemma {:induction false} DiffsAddUp(was: seq<SlaveMap>, now: seq<SlaveMap>, group: nat, d: Direction, base: nat,
                                      l: Layout, n: nat, k: nat)
    requires Laid(was, now, group, d, base, l, n) && k <= n
    ensures l.pts[0] <= l.pts[k] && Sum(Diffs(was, group, d, l.pts, k)) == l.pts[k] / 8 - l.pts[0] / 8
  {
    if k > 0 {
      DiffsAddUp(was, now, group, d, base, l, n, k - 1);
      assert LaidAt(was, now, group, d, base, l, k);
      if Takes(was[k], group, d) { PlacementMoves(was[k], d, l.pts[k - 1], l.ws[k], l.pts[k]); }
      SumAppend(Diffs(was, group, d, l.pts, k - 1), [Moved(l.pts[k - 1], l.pts[k])]);
      assert Sum([Moved(l.pts[k - 1], l.pts[k])]) == Moved(l.pts[k - 1], l.pts[k]);
      assert Diffs(was, group, d, l.pts, k - 1) + [] == Diffs(was, group, d, l.pts, k - 1);
    }
  }

  lemma {:induction false} DiffsPrefix(was: seq<SlaveMap>, group: nat, d: Direction, p: seq<nat>, q: seq<nat>, k: nat)
    requires k < |was| && k < |p| && p <= q
    ensures Diffs(was, group, d, p, k) == Diffs(was, group, d, q, k)
  {
    if k > 0 { DiffsPrefix(was, group, d, p, q, k - 1); }
  }

  lemma {:induction false} AddingPrefix(p: seq<seq<Fmmu>>, q: seq<seq<Fmmu>>, k: nat)
    requires k < |p| && p <= q
    ensures Adding(p, k) == Adding(q, k)
  {
    if k > 0 { AddingPrefix(p, q, k - 1); }
  }

  /** One more slave behind a finished layout. */
  function LaidNext(l: Layout, pt: nat, ws: seq<Fmmu>): Layout {
    Layout(l.pts + [pt], l.ws + [ws])
  }

  lemma LaidGrows(was: seq<SlaveMap>, now: seq<SlaveMap>, next: seq<SlaveMap>, group: nat, d: Direction, base: nat,
                  l: Layout, n: nat, pt: nat, ws: seq<Fmmu>)
    requires Laid(was, now, group, d, base, l, n) && n + 1 < |was| == |next|
    requires forall j :: 1 <= j <= n ==> next[j] == now[j]
    requires SlaveDone(was[n + 1], next[n + 1], group, d, base, l.pts[n], pt, ws)
    ensures Laid(was, next, group, d, base, LaidNext(l, pt, ws), n + 1)
    ensures Diffs(was, group, d, LaidNext(l, pt, ws).pts, n + 1)
            == Diffs(was, group, d, l.pts, n) + if Takes(was[n + 1], group, d) then [Moved(l.pts[n], pt)] else []
    ensures Adding(LaidNext(l, pt, ws).ws, n + 1) == Adding(l.ws, n) + Bit(SomeNonEmpty(ws))
  {
    var l' := LaidNext(l, pt, ws);
    forall k | 1 <= k <= n
      ensures LaidAt(was, next, group, d, base, l', k)
    {
      assert LaidAt(was, now, group, d, base, l, k);
    }
    DiffsPrefix(was, group, d, l.pts, l'.pts, n);
    AddingPrefix(l.ws, l'.ws, n);
  }

  /** State of the slave loop of one direction: slaves 1 to k are laid out and counted. */
  ghost predicate MapDone(was: seq<SlaveMap>, now: seq<SlaveMap>, group: nat, d: Direction, base: nat, l: Layout,
                          k: nat, from: nat, to: nat, diffs: seq<nat>, added: nat)
  {
    && Laid(was, now, group, d, base, l, k) && l.pts[0] == from && l.pts[k] == to
    && diffs == Diffs(was, group, d, l.pts, k) && added == Adding(l.ws, k)
  }

  lemma MapStart(was: seq<SlaveMap>, group: nat, d: Direction, base: nat, from: nat)
    requires |was| > 0
    ensures MapDone(was, was, group, d, base, Layout([from], [[]]), 0, from, from, [], 0)
  {
  }

  lemma MapNext(was: seq<SlaveMap>, now: seq<SlaveMap>, next: seq<SlaveMap>, group: nat, d: Direction, base: nat,
                l: Layout, k: nat, from: nat, to: nat, diffs: seq<nat>, added: nat, pt: nat, ws: seq<Fmmu>)
    returns (l': Layout, diffs': seq<nat>)
    requires MapDone(was, now, group, d, base, l, k, from, to, diffs, added) && k + 1 < |was| == |next|
    requires forall j :: 1 <= j <= k ==> next[j] == now[j]
    requires SlaveDone(was[k + 1], next[k + 1], group, d, base, to, pt, ws)
    ensures MapDone(was, next, group, d, base, l', k + 1, from, pt, diffs', added + Bit(SomeNonEmpty(ws)))
    ensures forall c ::
      AccountAll(c, diffs') == if Takes(was[k + 1], group, d) then Account(AccountAll(c, diffs), Moved(to, pt))
                               else AccountAll(c, diffs)
  {
    LaidGrows(was, now, next, group, d, base, l, k, pt, ws);
    l', diffs' := LaidNext(l, pt, ws), Diffs(was, group, d, LaidNext(l, pt, ws).pts, k + 1);
    forall c
      ensures AccountAll(c, diffs')
              == if Takes(was[k + 1], group, d) then Account(AccountAll(c, diffs), Moved(to, pt))
              else AccountAll(c, diffs)
    {
      AccountNext(c, diffs, Moved(to, pt));
    }
  }

  lemma AccountNext(c: Cut, diffs: seq<nat>, d: nat)
    ensures AccountAll(c, diffs + [d]) == Account(AccountAll(c, diffs), d)
    ensures diffs + [] == diffs
  {
    assert (diffs + [d])[..|diffs|] == diffs;
  }

  /** Byte accounted for a half-used last byte. */
  function Rest(point: nat): seq<nat> {
    if point % 8 != 0 then [1] else []
  }

  /** A direction that starts and is finished at whole bytes is as long as what was accounted for it. */
  lemma DirectionEnds(was: seq<SlaveMap>, now: seq<SlaveMap>, group: nat, d: Direction, base: nat, l: Layout, n: nat,
                      start: nat, end: nat)
    requires Laid(was, now, group, d, base, l, n) && l.pts[0] == 8 * start && 8 * end == (l.pts[n] + 7) / 8 * 8
    ensures end == start + Sum(Diffs(was, group, d, l.pts, n) + Rest(l.pts[n]))
  {
    DiffsAddUp(was, now, group, d, base, l, n, n);
    SumAppend(Diffs(was, group, d, l.pts, n), Rest(l.pts[n]));
    assert Sum([1]) == 1;
  }

  /** The whole mapping of a group: the slave list between outputs and inputs, the layouts of both
      directions, and everything accounted for each. */
  datatype Plan = Plan(mid: seq<SlaveMap>, lo: Layout, li: Layout, outDiffs: seq<nat>, inDiffs: seq<nat>)

  ghost predicate IsPlan(was: seq<SlaveMap>, now: seq<SlaveMap>, group: nat, logstart: nat, base: nat, p: Plan) {
    var n := |was| - 1;
    && n >= 1
    && Laid(was, p.mid, group, Output, base, p.lo, n) && Laid(p.mid, now, group, Input, base, p.li, n)
    && p.lo.pts[0] == 8 * logstart
    && p.outDiffs == Diffs(was, group, Output, p.lo.pts, n) + Rest(p.lo.pts[n])
    && p.li.pts[0] == 8 * (logstart + Sum(p.outDiffs))
    && p.inDiffs == Diffs(p.mid, group, Input, p.li.pts, n) + Rest(p.li.pts[n])
  }

  // ----- the overlapped map

  lemma RoundUp(byte: nat, bit: nat)
    requires bit <= 7
    ensures (8 * byte + bit + 7) / 8 * 8 == 8 * (if bit == 0 then byte else byte + 1)
  {
  }

  /** One direction of one slave: finished at bit `end`, rounded up to byte `to`. */
  datatype Half = Half(to: nat, end: nat, ws: seq<Fmmu>)

  ghost predicate HalfDone(s: SlaveMap, r: SlaveMap, group: nat, d: Direction, base: nat, from: nat, h: Half) {
    SlaveDone(s, r, group, d, base, 8 * from, h.end, h.ws) && 8 * h.to == (h.end + 7) / 8 * 8 && h.to >= from
  }

  /** First byte behind both directions of slave k: where slave k+1 starts. */
  function Reach(o: seq<Half>, i: seq<Half>, k: nat): nat
    requires k < |o| && k < |i|
  {
    Max(o[k].to, i[k].to)
  }

  /** Outputs and inputs of slave k both start at the byte behind its predecessors. */
  ghost predicate OverlaidAt(was: seq<SlaveMap>, mid: seq<SlaveMap>, now: seq<SlaveMap>, group: nat, base: nat,
                             o: seq<Half>, i: seq<Half>, k: nat)
    requires 1 <= k < |was| && k < |mid| && k < |now| && k < |o| && k < |i|
  {
    && HalfDone(was[k], mid[k], group, Output, base, Reach(o, i, k - 1), o[k])
    && HalfDone(mid[k], now[k], group, Input, base, Reach(o, i, k - 1), i[k])
  }

  ghost predicate Overlaid(was: seq<SlaveMap>, mid: seq<SlaveMap>, now: seq<SlaveMap>, group: nat, base: nat,
                           o: seq<Half>, i: seq<Half>, n: nat)
  {
    && n < |was| == |now| && |mid| == |o| == |i| == n + 1 && o[0].ws == i[0].ws == []
    && forall k :: 1 <= k <= n ==> OverlaidAt(was, mid, now, group, base, o, i, k)
  }

  ghost function OverlapDiffs(was: seq<SlaveMap>, group: nat, o: seq<Half>, i: seq<Half>, k: nat): seq<nat>
    requires k < |was| && k < |o| && k < |i|
  {
    if k == 0 then []
    else OverlapDiffs(was, group, o, i, k - 1)
         + if InGroup(was[k], group) then [Moved(8 * Reach(o, i, k - 1), 8 * Reach(o, i, k))] else []
  }

  ghost function AddingHalves(h: seq<Half>, k: nat): nat
    requires k < |h|
  {
    if k == 0 then 0 else AddingHalves(h, k - 1) + Bit(SomeNonEmpty(h[k].ws))
  }

  lemma {:induction false} OverlapDiffsPrefix(a: seq<SlaveMap>, b: seq<SlaveMap>, group: nat, o: seq<Half>,
                                              o': seq<Half>, i: seq<Half>, i': seq<Half>, k: nat)
    requires k < |a| && k < |b| && k < |o| && k < |i| && o <= o' && i <= i' && forall j :: 0 <= j <= k ==> a[j] == b[j]
    ensures OverlapDiffs(a, group, o, i, k) == OverlapDiffs(b, group, o', i', k)
    ensures AddingHalves(o, k) == AddingHalves(o', k) && AddingHalves(i, k) == AddingHalves(i', k)
  {
    if k > 0 { OverlapDiffsPrefix(a, b, group, o, o', i, i', k - 1); }
  }

  lemma OverlaidGrows(was: seq<SlaveMap>, mid: seq<SlaveMap>, now: seq<SlaveMap>, next: seq<SlaveMap>, group: nat,
                      base: nat, o: seq<Half>, i: seq<Half>, n: nat, mid': SlaveMap, out: Half, in_: Half)
    requires n + 1 < |was| == |next| && Overlaid(was, mid, now, group, base, o, i, n)
    requires forall j :: 1 <= j <= n ==> next[j] == now[j]
    requires HalfDone(was[n + 1], mid', group, Output, base, Reach(o, i, n), out)
    requires HalfDone(mid', next[n + 1], group, Input, base, Reach(o, i, n), in_)
    ensures Overlaid(was, mid + [mid'], next, group, base, o + [out], i + [in_], n + 1)
  {
    var m, o', i' := mid + [mid'], o + [out], i + [in_];
    forall k | 1 <= k <= n
      ensures OverlaidAt(was, m, next, group, base, o', i', k)
    {
      assert OverlaidAt(was, mid, now, group, base, o, i, k);
    }
    assert OverlaidAt(was, m, next, group, base, o', i', n + 1);
  }

  lemma OverlapDiffsGrow(was: seq<SlaveMap>, group: nat, o: seq<Half>, i: seq<Half>, n: nat, out: Half, in_: Half)
    requires n + 1 < |was| && |o| == |i| == n + 1 && Reach(o, i, n) <= Max(out.to, in_.to)
    ensures OverlapDiffs(was, group, o + [out], i + [in_], n + 1)
            == OverlapDiffs(was, group, o, i, n)
              + if InGroup(was[n + 1], group) then [Max(out.to, in_.to) - Reach(o, i, n)] else []
    ensures AddingHalves(o + [out], n + 1) == AddingHalves(o, n) + Bit(SomeNonEmpty(out.ws))
    ensures AddingHalves(i + [in_], n + 1) == AddingHalves(i, n) + Bit(SomeNonEmpty(in_.ws))
  {
    OverlapDiffsPrefix(was, was, group, o, o + [out], i, i + [in_], n);
  }

  /** State of the overlapping loop: slaves 1 to k are laid out and counted. */
  ghost predicate OverlapDone(was: seq<SlaveMap>, mid: seq<SlaveMap>, now: seq<SlaveMap>, group: nat, base: nat,
                              o: seq<Half>, i: seq<Half>, k: nat, logstart: nat, diffs: seq<nat>, outs: nat, ins: nat)
  {
    && Overlaid(was, mid, now, group, base, o, i, k) && o[0].to == i[0].to == logstart
    && diffs == OverlapDiffs(was, group, o, i, k) && outs == AddingHalves(o, k) && ins == AddingHalves(i, k)
  }

  lemma OverlapNext(was: seq<SlaveMap>, mid: seq<SlaveMap>, now: seq<SlaveMap>, next: seq<SlaveMap>, group: nat,
                    base: nat, o: seq<Half>, i: seq<Half>, k: nat, m: nat, logstart: nat, diffs: seq<nat>, outs: nat,
                    ins: nat, mid': SlaveMap, out: Half, in_: Half)
    returns (diffs': seq<nat>)
    requires 1 <= k < |was| == |next| == |now| && forall j :: 1 <= j < k ==> next[j] == now[j]
    requires OverlapDone(was, mid, now, group, base, o, i, k - 1, logstart, diffs, outs, ins) && m == Reach(o, i, k - 1)
    requires HalfDone(was[k], mid', group, Output, base, m, out) && HalfDone(mid', next[k], group, Input, base, m, in_)
    ensures OverlapDone(was, mid + [mid'], next, group, base, o + [out], i + [in_], k, logstart, diffs',
                        outs + Bit(SomeNonEmpty(out.ws)), ins + Bit(SomeNonEmpty(in_.ws)))
    ensures AccountAll(EMPTY, diffs') == if InGroup(was[k], group)
                                         then Account(AccountAll(EMPTY, diffs), Max(out.to, in_.to) - m)
                                         else AccountAll(EMPTY, diffs)
    ensures Reach(o + [out], i + [in_], k) == Max(out.to, in_.to)
  {
    OverlaidGrows(was, mid, now, next, group, base, o, i, k - 1, mid', out, in_);
    OverlapDiffsGrow(was, group, o, i, k - 1, out, in_);
    diffs' := OverlapDiffs(was, group, o + [out], i + [in_], k);
    AccountIf(diffs, InGroup(was[k], group), Max(out.to, in_.to) - m, diffs');
  }

  lemma AccountIf(diffs: seq<nat>, takes: bool, diff: nat, diffs': seq<nat>)
    requires diffs' == diffs + if takes then [diff] else []
    ensures AccountAll(EMPTY, diffs')
            == if takes then Account(AccountAll(EMPTY, diffs), diff) else AccountAll(EMPTY, diffs)
  {
    if takes { AccountNext(EMPTY, diffs, diff); } else { assert diffs' == diffs; }
  }

  lemma ReachMoves(was: seq<SlaveMap>, mid: seq<SlaveMap>, now: seq<SlaveMap>, group: nat, base: nat,
                   o: seq<Half>, i: seq<Half>, n: nat, k: nat)
    requires Overlaid(was, mid, now, group, base, o, i, n) && 1 <= k <= n && o[0].to == i[0].to
    ensures Reach(o, i, k - 1) <= Reach(o, i, k)
            && Moved(8 * Reach(o, i, k - 1), 8 * Reach(o, i, k)) == Reach(o, i, k) - Reach(o, i, k - 1)
    ensures !InGroup(was[k], group) ==> Reach(o, i, k) == Reach(o, i, k - 1)
  {
    assert OverlaidAt(was, mid, now, group, base, o, i, k);
  }

  /** The segments of an overlapped map add up to the larger of the two direction lengths. */
  lemma {:induction false} OverlapAddsUp(was: seq<SlaveMap>, mid: seq<SlaveMap>, now: seq<SlaveMap>, group: nat,
                                         base: nat, o: seq<Half>, i: seq<Half>, n: nat, k: nat)
    requires Overlaid(was, mid, now, group, base, o, i, n) && k <= n && o[0].to == i[0].to
    ensures Reach(o, i, 0) <= Reach(o, i, k)
    ensures Sum(OverlapDiffs(was, group, o, i, k)) == Reach(o, i, k) - Reach(o, i, 0)
  {
    if k > 0 {
      var before, from, to := OverlapDiffs(was, group, o, i, k - 1), Reach(o, i, k - 1), Reach(o, i, k);
      OverlapAddsUp(was, mid, now, group, base, o, i, n, k - 1);
      ReachMoves(was, mid, now, group, base, o, i, n, k);
      SumAppend(before, [to - from]);
      assert Sum([to - from]) == to - from;
      assert before + [] == before;
    }
  }

  /** Both directions of the last slave end at or behind the start of the group. */
  lemma LastHalves(was: seq<SlaveMap>, mid: seq<SlaveMap>, now: seq<SlaveMap>, group: nat, base: nat,
                   o: seq<Half>, i: seq<Half>, n: nat)
    requires 1 <= n && Overlaid(was, mid, now, group, base, o, i, n) && o[0].to == i[0].to
    ensures o[n].to >= o[0].to && i[n].to >= o[0].to
  {
    OverlapAddsUp(was, mid, now, group, base, o, i, n, n - 1);
    assert OverlaidAt(was, mid, now, group, base, o, i, n);
  }

  /** The overlapped mapping of a group: slave lists between the directions and after both, and
      where each direction of each slave ends. */
  datatype OverlapPlan = OverlapPlan(mid: seq<SlaveMap>, now: seq<SlaveMap>, o: seq<Half>, i: seq<Half>)

  function Shifted(s: SlaveMap, offset: nat): SlaveMap {
    if s.inputs.Some? then s.(inputs := Some(s.inputs.value + offset)) else s
  }

  // ----- no two slaves share a bit

  lemma {:induction false} ConsecutiveBounds(ws: seq<Fmmu>, from: int, to: int, k: nat)
    requires Consecutive(ws, from, to)
    ensures from <= to
    ensures k < |ws| ==> from <= FirstBit(ws[k]) <= EndBit(ws[k]) <= to
  {
    if ws != [] { ConsecutiveBounds(ws[1..], EndBit(ws[0]), to, if k == 0 then 0 else k - 1); }
  }

  lemma {:induction false} PointsAscend(was: seq<SlaveMap>, now: seq<SlaveMap>, group: nat, d: Direction, base: nat,
                                        l: Layout, n: nat, j: nat, k: nat)
    requires Laid(was, now, group, d, base, l, n) && j <= k <= n
    ensures l.pts[j] <= l.pts[k]
    decreases k - j
  {
    if j < k {
      PointsAscend(was, now, group, d, base, l, n, j, k - 1);
      assert LaidAt(was, now, group, d, base, l, k);
    }
  }

  /** In one direction, the windows of an earlier slave end before those of a later one begin. */
  lemma WindowsApart(was: seq<SlaveMap>, now: seq<SlaveMap>, group: nat, d: Direction, base: nat, l: Layout, n: nat,
                     j: nat, k: nat, x: nat, y: nat)
    requires Laid(was, now, group, d, base, l, n) && 1 <= j < k <= n && x < |l.ws[j]| && y < |l.ws[k]|
    ensures EndBit(l.ws[j][x]) <= FirstBit(l.ws[k][y])
  {
    assert LaidAt(was, now, group, d, base, l, j) && LaidAt(was, now, group, d, base, l, k);
    ConsecutiveBounds(l.ws[j], Aligned(l.pts[j - 1], Bytes(was[j], d)), l.pts[j], x);
    ConsecutiveBounds(l.ws[k], Aligned(l.pts[k - 1], Bytes(was[k], d)), l.pts[k], y);
    PointsAscend(was, now, group, d, base, l, n, j, k - 1);
  }

  /** Every output window of a group ends before every input window begins, at the byte where the
      output part ends. */
  lemma OutputsBeforeInputs(was: seq<SlaveMap>, now: seq<SlaveMap>, group: nat, logstart: nat, base: nat, p: Plan,
                            j: nat, k: nat, x: nat, y: nat)
    requires IsPlan(was, now, group, logstart, base, p) && 1 <= j < |was| && 1 <= k < |was|
    requires x < |p.lo.ws[j]| && y < |p.li.ws[k]|
    ensures 8 * logstart <= FirstBit(p.lo.ws[j][x])
    ensures EndBit(p.lo.ws[j][x]) <= 8 * (logstart + Sum(p.outDiffs)) <= FirstBit(p.li.ws[k][y])
    ensures EndBit(p.li.ws[k][y]) <= 8 * (logstart + Sum(p.outDiffs) + Sum(p.inDiffs))
  {
    var n := |was| - 1;
    OutputPart(was, now, group, logstart, base, p);
    assert LaidAt(was, p.mid, group, Output, base, p.lo, j) && LaidAt(p.mid, now, group, Input, base, p.li, k);
    ConsecutiveBounds(p.lo.ws[j], Aligned(p.lo.pts[j - 1], Bytes(was[j], Output)), p.lo.pts[j], x);
    ConsecutiveBounds(p.li.ws[k], Aligned(p.li.pts[k - 1], Bytes(p.mid[k], Input)), p.li.pts[k], y);
    PointsAscend(was, p.mid, group, Output, base, p.lo, n, 0, j - 1);
    PointsAscend(was, p.mid, group, Output, base, p.lo, n, j, n);
    PointsAscend(p.mid, now, group, Input, base, p.li, n, 0, k - 1);
    PointsAscend(p.mid, now, group, Input, base, p.li, n, k, n);
  }

  lemma OutputPart(was: seq<SlaveMap>, now: seq<SlaveMap>, group: nat, logstart: nat, base: nat, p: Plan)
    requires IsPlan(was, now, group, logstart, base, p)
    ensures p.lo.pts[|was| - 1] <= 8 * (logstart + Sum(p.outDiffs))
    ensures p.li.pts[|was| - 1] <= 8 * (logstart + Sum(p.outDiffs) + Sum(p.inDiffs))
  {
    var n := |was| - 1;
    DirectionLength(was, p.mid, group, Output, base, p.lo, n);
    DirectionLength(p.mid, now, group, Input, base, p.li, n);
  }

  lemma DirectionLength(was: seq<SlaveMap>, now: seq<SlaveMap>, group: nat, d: Direction, base: nat, l: Layout, n: nat)
    requires Laid(was, now, group, d, base, l, n) && l.pts[0] % 8 == 0
    ensures l.pts[n] <= l.pts[0] + 8 * Sum(Diffs(was, group, d, l.pts, n) + Rest(l.pts[n]))
  {
    DiffsAddUp(was, now, group, d, base, l, n, n);
    SumAppend(Diffs(was, group, d, l.pts, n), Rest(l.pts[n]));
    assert Sum([1]) == 1;
  }

  /** In the overlapped map, nothing of a later slave begins before everything of an earlier one ends. */
  lemma {:induction false} OverlappedApart(was: seq<SlaveMap>, mid: seq<SlaveMap>, now: seq<SlaveMap>, group: nat,
                                           base: nat, o: seq<Half>, i: seq<Half>, n: nat, j: nat, k: nat)
    requires Overlaid(was, mid, now, group, base, o, i, n) && 1 <= j < k <= n
    ensures forall x :: 0 <= x < |o[j].ws| ==> EndBit(o[j].ws[x]) <= 8 * Reach(o, i, k - 1)
    ensures forall x :: 0 <= x < |i[j].ws| ==> EndBit(i[j].ws[x]) <= 8 * Reach(o, i, k - 1)
    ensures forall y :: 0 <= y < |o[k].ws| ==> 8 * Reach(o, i, k - 1) <= FirstBit(o[k].ws[y])
    ensures forall y :: 0 <= y < |i[k].ws| ==> 8 * Reach(o, i, k - 1) <= FirstBit(i[k].ws[y])
  {
    ReachAscends(was, mid, now, group, base, o, i, n, j, k - 1);
    HalvesWithin(was, mid, now, group, base, o, i, n, j);
    HalvesWithin(was, mid, now, group, base, o, i, n, k);
  }

  lemma {:induction false} ReachAscends(was: seq<SlaveMap>, mid: seq<SlaveMap>, now: seq<SlaveMap>, group: nat,
                                        base: nat, o: seq<Half>, i: seq<Half>, n: nat, j: nat, k: nat)
    requires Overlaid(was, mid, now, group, base, o, i, n) && j <= k <= n
    ensures Reach(o, i, j) <= Reach(o, i, k)
    decreases k - j
  {
    if j < k {
      ReachAscends(was, mid, now, group, base, o, i, n, j, k - 1);
      assert OverlaidAt(was, mid, now, group, base, o, i, k);
    }
  }

  /** Both directions of slave k lie between the reach of its predecessors and its own, and start
      together at the former. */
  lemma HalvesWithin(was: seq<SlaveMap>, mid: seq<SlaveMap>, now: seq<SlaveMap>, group: nat, base: nat,
                     o: seq<Half>, i: seq<Half>, n: nat, k: nat)
    requires Overlaid(was, mid, now, group, base, o, i, n) && 1 <= k <= n
    ensures forall x :: 0 <= x < |o[k].ws| ==>
            8 * Reach(o, i, k - 1) <= FirstBit(o[k].ws[x]) && EndBit(o[k].ws[x]) <= 8 * Reach(o, i, k)
    ensures forall x :: 0 <= x < |i[k].ws| ==>
            8 * Reach(o, i, k - 1) <= FirstBit(i[k].ws[x]) && EndBit(i[k].ws[x]) <= 8 * Reach(o, i, k)
    ensures |o[k].ws| > 0 ==> FirstBit(o[k].ws[0]) == 8 * Reach(o, i, k - 1)
    ensures |i[k].ws| > 0 ==> FirstBit(i[k].ws[0]) == 8 * Reach(o, i, k - 1)
  {
    assert OverlaidAt(was, mid, now, group, base, o, i, k);
    var from := Reach(o, i, k - 1);
    HalfWithin(was[k], mid[k], group, Output, base, from, o[k]);
    HalfWithin(mid[k], now[k], group, Input, base, from, i[k]);
  }

  lemma HalfWithin(s: SlaveMap, r: SlaveMap, group: nat, d: Direction, base: nat, from: nat, h: Half)
    requires HalfDone(s, r, group, d, base, from, h)
    ensures forall x :: 0 <= x < |h.ws| ==> 8 * from <= FirstBit(h.ws[x]) && EndBit(h.ws[x]) <= 8 * h.to
    ensures |h.ws| > 0 ==> FirstBit(h.ws[0]) == 8 * from
  {
    forall x | 0 <= x < |h.ws|
      ensures 8 * from <= FirstBit(h.ws[x]) && EndBit(h.ws[x]) <= 8 * h.to
    {
      ConsecutiveBounds(h.ws, 8 * from, h.end, x);
    }
  }

  lemma BytesMoved(logAddr0: nat, bitPos0: nat, logAddr: nat, bitPos: nat)
    requires bitPos0 <= 7 && bitPos <= 7 && 8 * logAddr0 + bitPos0 <= 8 * logAddr + bitPos
    ensures logAddr0 <= logAddr && Moved(8 * logAddr0 + bitPos0, 8 * logAddr + bitPos) == logAddr - logAddr0
  {
  }

  lemma MappedIsDone(s: SlaveMap, group: nat, d: Direction, base: nat, first: nat, from: nat, to: nat, ws: seq<Fmmu>)
    requires |s.sms| == EC_MAXSM && Takes(s, group, d) && IsPlacement(s, d, from, ws, to) && AllWindows(s, d, ws)
    requires s.fmmuUnused <= first <= |s.fmmu| && (d.Output? || s.obits == 0 ==> first == s.fmmuUnused)
    ensures SlaveDone(s, Mapped(s, d, first, ws, base), group, d, base, from, to, ws)
    ensures from <= to && Moved(from, to) == to / 8 - from / 8
  {
    PlacementMoves(s, d, from, ws, to);
  }

  /** One direction of one slave: what the slave loops need of it. */
  method MapOne(s: SlaveMap, d: Direction, group: nat, logstart: nat, logAddr0: nat, bitPos0: nat)
    returns (r: SlaveMap, ws: seq<Fmmu>, logAddr: nat, bitPos: nat, adds: bool, ghost first: nat)
    requires WellFormed(s) && Bits(s, d) >= 1 && bitPos0 <= 7
    ensures bitPos <= 7 && s.fmmuUnused <= first <= |s.fmmu| && (d.Output? || s.obits == 0 ==> first == s.fmmuUnused)
    ensures r == Mapped(s, d, first, ws, if group != 0 then logstart else 0)
    ensures IsPlacement(s, d, 8 * logAddr0 + bitPos0, ws, 8 * logAddr + bitPos) && adds == SomeNonEmpty(ws)
    ensures AllWindows(s, d, ws)
  {
    var from;
    r, from, ws, logAddr, bitPos, adds := CreateMapping(s, d, group, logstart, logAddr0, bitPos0);
    first := from;
    CutCount(s, d, ws);
  }

  /** A group of the group list together with the slave list. */
  class Group {
    const number: nat
    const logstartaddr: nat
    var obytes: nat
    var ibytes: nat
    var inputs: nat
    var nsegments: nat
    var isegment: nat
    var ioffset: nat
    var outputsWKC: nat
    var inputsWKC: nat
    var blockLRW: nat
    const iosegment: array<nat>
    const slaves: array<SlaveMap>

    ghost predicate Valid()
      reads this
    {
      iosegment.Length == EC_MAXIOSEGMENTS && slaves.Length > 0
    }

    ghost predicate Open(c: Cut, cur: nat, size: nat)
      requires Valid()
      reads this, iosegment
    {
      cur < EC_MAXIOSEGMENTS && c == Cut(iosegment[..cur], size)
    }

    /** Account `diff` bytes to the open segment, or close it and open the next. */
    method AccountBytes(cur0: nat, size0: nat, diff: nat, ghost c: Cut) returns (cur: nat, size: nat)
      requires Valid() && Open(c, cur0, size0)
      modifies iosegment
      ensures Open(Account(c, diff), cur, size)
    {
      cur, size := cur0, size0;
      if size + diff > SEGMENT_LIMIT {
        iosegment[cur] := size;
        if cur < EC_MAXIOSEGMENTS - 1 {
          cur := cur + 1;
          size := diff;
        }
      } else {
        size := size + diff;
      }
    }

    function Base(): nat { if number != 0 then logstartaddr else 0 }

    /** One slave of the slave loop of one direction. */
    method MapSlave(d: Direction, k: nat, logAddr0: nat, bitPos0: nat, cur0: nat, size0: nat, ghost c: Cut)
      returns (logAddr: nat, bitPos: nat, cur: nat, size: nat, adds: bool, ghost ws: seq<Fmmu>)
      requires Valid() && Open(c, cur0, size0) && bitPos0 <= 7 && 1 <= k < slaves.Length && WellFormed(slaves[k])
      modifies iosegment, slaves
      ensures bitPos <= 7 && adds == SomeNonEmpty(ws)
      ensures forall j :: 0 <= j < slaves.Length && j != k ==> slaves[j] == old(slaves[j])
      ensures SlaveDone(old(slaves[k]), slaves[k], number, d, Base(), 8 * logAddr0 + bitPos0, 8 * logAddr + bitPos, ws)
      ensures Open(if Takes(old(slaves[k]), number, d)
                   then Account(c, Moved(8 * logAddr0 + bitPos0, 8 * logAddr + bitPos)) else c,
                   cur, size)
    {
      logAddr, bitPos, cur, size, adds, ws := logAddr0, bitPos0, cur0, size0, false, [];
      if InGroup(slaves[k], number) {
        if Bits(slaves[k], d) > 0 {
          var r;
          ghost var first;
          r, ws, logAddr, bitPos, adds, first := MapOne(slaves[k], d, number, logstartaddr, logAddr0, bitPos0);
          MappedIsDone(slaves[k], number, d, Base(), first, 8 * logAddr0 + bitPos0, 8 * logAddr + bitPos, ws);
          slaves[k] := r;
          BytesMoved(logAddr0, bitPos0, logAddr, bitPos);
          var diff := logAddr - logAddr0;
          cur, size := AccountBytes(cur0, size0, diff, c);
        }
      }
    }

    /** The slave loop of one direction. */
    method MapSlaves(d: Direction, logAddr0: nat, bitPos0: nat, cur0: nat, size0: nat, ghost c: Cut)
      returns (logAddr: nat, bitPos: nat, cur: nat, size: nat, added: nat, ghost l: Layout)
      requires Valid() && Open(c, cur0, size0) && bitPos0 <= 7
      requires forall k :: 1 <= k < slaves.Length ==> WellFormed(slaves[k])
      modifies iosegment, slaves
      ensures bitPos <= 7
      ensures slaves[0] == old(slaves[0])
      ensures Laid(old(slaves[..]), slaves[..], number, d, Base(), l, slaves.Length - 1)
      ensures l.pts[0] == 8 * logAddr0 + bitPos0 && l.pts[slaves.Length - 1] == 8 * logAddr + bitPos
      ensures Open(AccountAll(c, Diffs(old(slaves[..]), number, d, l.pts, slaves.Length - 1)), cur, size)
      ensures added == Adding(l.ws, slaves.Length - 1)
    {
      logAddr, bitPos, cur, size, added := logAddr0, bitPos0, cur0, size0, 0;
      ghost var was, from := slaves[..], 8 * logAddr0 + bitPos0;
      l := Layout([from], [[]]);
      ghost var diffs: seq<nat> := [];
      MapStart(was, number, d, Base(), from);
      var slave := 1;
      while slave < slaves.Length
        invariant 1 <= slave <= slaves.Length && bitPos <= 7
        invariant MapDone(was, slaves[..], number, d, Base(), l, slave - 1, from, 8 * logAddr + bitPos, diffs, added)
        invariant Open(AccountAll(c, diffs), cur, size)
        invariant forall k :: 0 <= k < slaves.Length && (k == 0 || slave <= k) ==> slaves[k] == was[k]
      {
        ghost var ws, now, to := [], slaves[..], 8 * logAddr + bitPos;
        var adds;
        logAddr, bitPos, cur, size, adds, ws := MapSlave(d, slave, logAddr, bitPos, cur, size, AccountAll(c, diffs));
        l, diffs := MapNext(was, now, slaves[..], number, d, Base(), l, slave - 1, from, to, diffs, added,
                            8 * logAddr + bitPos, ws);
        added := added + Bit(adds);
        slave := slave + 1;
      }
    }

    /** A half-used byte at the end of a direction is finished and accounted. */
    method FinishByte(logAddr0: nat, bitPos: nat, cur0: nat, size0: nat, ghost c: Cut)
      returns (logAddr: nat, cur: nat, size: nat)
      requires Valid() && Open(c, cur0, size0) && bitPos <= 7
      modifies iosegment
      ensures 8 * logAddr == (8 * logAddr0 + bitPos + 7) / 8 * 8
      ensures Open(AccountAll(c, Rest(8 * logAddr0 + bitPos)), cur, size)
    {
      logAddr, cur, size := logAddr0, cur0, size0;
      if bitPos != 0 {
        logAddr := logAddr + 1;
        cur, size := AccountBytes(cur, size, 1, c);
        assert [1][..0] == [];
      }
    }

    /** All slaves of one direction, then the half-used last byte. */
    method MapDirection(d: Direction, logAddr0: nat, cur0: nat, size0: nat, ghost c: Cut)
      returns (logAddr: nat, cur: nat, size: nat, added: nat, ghost l: Layout, ghost diffs: seq<nat>)
      requires Valid() && Open(c, cur0, size0)
      requires forall k :: 1 <= k < slaves.Length ==> WellFormed(slaves[k])
      modifies iosegment, slaves
      ensures slaves[0] == old(slaves[0]) && forall k :: 1 <= k < slaves.Length ==> WellFormed(slaves[k])
      ensures Laid(old(slaves[..]), slaves[..], number, d, Base(), l, slaves.Length - 1)
      ensures l.pts[0] == 8 * logAddr0
      ensures diffs == Diffs(old(slaves[..]), number, d, l.pts, slaves.Length - 1) + Rest(l.pts[slaves.Length - 1])
      ensures logAddr == logAddr0 + Sum(diffs) && Open(AccountAll(c, diffs), cur, size)
      ensures added == Adding(l.ws, slaves.Length - 1)
    {
      ghost var was, n := slaves[..], slaves.Length - 1;
      var bitPos;
      logAddr, bitPos, cur, size, added, l := MapSlaves(d, logAddr0, 0, cur0, size0, c);
      ghost var laid, now := Diffs(was, number, d, l.pts, n), slaves[..];
      logAddr, cur, size := FinishByte(logAddr, bitPos, cur, size, AccountAll(c, laid));
      assert slaves[..] == now;
      diffs := laid + Rest(l.pts[n]);
      AccountAppend(c, laid, Rest(l.pts[n]));
      LaidKeepsForm(was, now, number, d, Base(), l, n);
      DirectionEnds(was, now, number, d, Base(), l, n, logAddr0, logAddr);
    }

    /** Everything behind the output loop. */
    method FixOutputs(logAddr: nat, cur: nat, size: nat, added: nat, ghost c: Cut)
      requires Valid() && Open(c, cur, size) && logAddr >= logstartaddr
      modifies this`obytes, this`nsegments, this`isegment, this`ioffset, this`outputsWKC
      ensures obytes == logAddr - logstartaddr && outputsWKC == added
      ensures Open(c, cur, size) && isegment == |c.closed| && ioffset == c.size
    {
      outputsWKC := added;
      obytes := logAddr - logstartaddr;
      nsegments, isegment, ioffset := cur + 1, cur, size;
    }

    /** The output half: also fixes where the inputs will start. */
    method MapOutputs() returns (logAddr: nat, cur: nat, size: nat, ghost l: Layout, ghost diffs: seq<nat>)
      requires Valid() && forall k :: 1 <= k < slaves.Length ==> WellFormed(slaves[k])
      modifies this`obytes, this`nsegments, this`isegment, this`ioffset, this`outputsWKC, iosegment, slaves
      ensures slaves[0] == old(slaves[0]) && forall k :: 1 <= k < slaves.Length ==> WellFormed(slaves[k])
      ensures Laid(old(slaves[..]), slaves[..], number, Output, Base(), l, slaves.Length - 1)
              && l.pts[0] == 8 * logstartaddr
      ensures diffs == Diffs(old(slaves[..]), number, Output, l.pts, slaves.Length - 1) + Rest(l.pts[slaves.Length - 1])
      ensures obytes == Sum(diffs) && logAddr == logstartaddr + obytes && outputsWKC == Adding(l.ws, slaves.Length - 1)
      ensures Open(AccountAll(EMPTY, diffs), cur, size)
      ensures isegment == |AccountAll(EMPTY, diffs).closed| && ioffset == AccountAll(EMPTY, diffs).size
    {
      assert iosegment[..0] == [];
      var added;
      logAddr, cur, size, added, l, diffs := MapDirection(Output, logstartaddr, 0, 0, EMPTY);
      FixOutputs(logAddr, cur, size, added, AccountAll(EMPTY, diffs));
    }

    /** Everything behind the input loop. */
    method FinishGroup(logAddr: nat, cur: nat, size: nat, added: nat, ghost c: Cut)
      requires Valid() && Open(c, cur, size) && logAddr >= logstartaddr + obytes
      modifies this`ibytes, this`inputs, this`nsegments, this`inputsWKC, this`blockLRW, iosegment
      ensures logAddr == logstartaddr + obytes + ibytes && inputsWKC == added && inputs == obytes
      ensures nsegments <= EC_MAXIOSEGMENTS && iosegment[..nsegments] == Table(c)
      ensures blockLRW == old(blockLRW) + Blocking(slaves[..], number, slaves.Length - 1)
    {
      inputsWKC := added;
      CountBlocking();
      CloseTable(cur, size, c);
      inputs := obytes;
      ibytes := logAddr - logstartaddr - obytes;
    }

    /** The input half: closes the segment table. */
    method MapInputs(logAddr0: nat, cur0: nat, size0: nat, ghost c: Cut)
      returns (logAddr: nat, ghost l: Layout, ghost diffs: seq<nat>)
      requires Valid() && Open(c, cur0, size0) && logAddr0 == logstartaddr + obytes
      requires forall k :: 1 <= k < slaves.Length ==> WellFormed(slaves[k])
      modifies this`ibytes, this`inputs, this`nsegments, this`inputsWKC, this`blockLRW, iosegment, slaves
      ensures slaves[0] == old(slaves[0])
      ensures Laid(old(slaves[..]), slaves[..], number, Input, Base(), l, slaves.Length - 1) && l.pts[0] == 8 * logAddr0
      ensures diffs == Diffs(old(slaves[..]), number, Input, l.pts, slaves.Length - 1) + Rest(l.pts[slaves.Length - 1])
      ensures ibytes == Sum(diffs) && logAddr == logAddr0 + ibytes && inputsWKC == Adding(l.ws, slaves.Length - 1)
      ensures inputs == obytes
      ensures nsegments <= EC_MAXIOSEGMENTS && iosegment[..nsegments] == Table(AccountAll(c, diffs))
      ensures blockLRW == old(blockLRW) + Blocking(slaves[..], number, slaves.Length - 1)
    {
      var cur, size, added;
      logAddr, cur, size, added, l, diffs := MapDirection(Input, logAddr0, cur0, size0, c);
      FinishGroup(logAddr, cur, size, added, AccountAll(c, diffs));
    }

    /** ecx_config_map_group. The plan `p` says where everything went. */
    method MapGroup() returns (mapped: nat, ghost p: Plan)
      requires Valid() && forall k :: 1 <= k < slaves.Length ==> WellFormed(slaves[k])
      modifies this, iosegment, slaves
      ensures slaves[0] == old(slaves[0])
      ensures slaves.Length == 1 ==> mapped == 0 && slaves[..] == old(slaves[..])
      ensures slaves.Length > 1 ==>
        && IsPlan(old(slaves[..]), slaves[..], number, logstartaddr, Base(), p)
        && mapped == obytes + ibytes && obytes == Sum(p.outDiffs) && ibytes == Sum(p.inDiffs)
        && inputs == obytes
        && nsegments <= EC_MAXIOSEGMENTS && iosegment[..nsegments] == Table(AccountAll(EMPTY, p.outDiffs + p.inDiffs))
        && isegment == |AccountAll(EMPTY, p.outDiffs).closed| && ioffset == AccountAll(EMPTY, p.outDiffs).size
        && outputsWKC == Adding(p.lo.ws, slaves.Length - 1) && inputsWKC == Adding(p.li.ws, slaves.Length - 1)
        && blockLRW == old(blockLRW) + Blocking(slaves[..], number, slaves.Length - 1)
    {
      mapped := 0;
      p := Plan([], Layout([], []), Layout([], []), [], []);
      if slaves.Length > 1 {
        nsegments, outputsWKC, inputsWKC := 0, 0, 0;
        ghost var lo, li, outDiffs, inDiffs;
        var logAddr, cur, size;
        logAddr, cur, size, lo, outDiffs := MapOutputs();
        ghost var mid := slaves[..];
        logAddr, li, inDiffs := MapInputs(logAddr, cur, size, AccountAll(EMPTY, outDiffs));
        AccountAppend(EMPTY, outDiffs, inDiffs);
        mapped := logAddr - logstartaddr;
        p := Plan(mid, lo, li, outDiffs, inDiffs);
      }
    }

    /** One direction of one slave in the overlapped map: from the byte `from`, finished to a byte. */
    method OverlapDirection(d: Direction, k: nat, from: nat) returns (adds: bool, h: Half)
      requires Valid() && 1 <= k < slaves.Length && WellFormed(slaves[k]) && InGroup(slaves[k], number)
      modifies slaves
      ensures forall j :: 0 <= j < slaves.Length && j != k ==> slaves[j] == old(slaves[j])
      ensures HalfDone(old(slaves[k]), slaves[k], number, d, Base(), from, h) && adds == SomeNonEmpty(h.ws)
      ensures WellFormed(slaves[k]) && InGroup(slaves[k], number) && slaves[k].blockLRW == old(slaves[k].blockLRW)
    {
      var to, end, ws := from, 8 * from, [];
      adds := false;
      if Bits(slaves[k], d) > 0 {
        var r, bitPos;
        ghost var first;
        r, ws, to, bitPos, adds, first := MapOne(slaves[k], d, number, logstartaddr, from, 0);
        end := 8 * to + bitPos;
        MappedIsDone(slaves[k], number, d, Base(), first, 8 * from, end, ws);
        slaves[k] := r;
        RoundUp(to, bitPos);
        if bitPos != 0 {
          to := to + 1;
        }
      }
      h := Half(to, end, ws);
    }

    /** Both directions of one slave from the byte `m`, and the accounting of the larger one. */
    method OverlapSlave(k: nat, m: nat, cur0: nat, size0: nat, ghost c: Cut)
      returns (cur: nat, size: nat, addsOut: bool, addsIn: bool, out: Half, in_: Half, ghost mid: SlaveMap)
      requires Valid() && 1 <= k < slaves.Length && WellFormed(slaves[k]) && Open(c, cur0, size0)
      modifies slaves, iosegment
      ensures forall j :: 0 <= j < slaves.Length && j != k ==> slaves[j] == old(slaves[j])
      ensures HalfDone(old(slaves[k]), mid, number, Output, Base(), m, out) && addsOut == SomeNonEmpty(out.ws)
      ensures HalfDone(mid, slaves[k], number, Input, Base(), m, in_) && addsIn == SomeNonEmpty(in_.ws)
      ensures Open(if InGroup(old(slaves[k]), number) then Account(c, Max(out.to, in_.to) - m) else c, cur, size)
    {
      cur, size, addsOut, addsIn, mid := cur0, size0, false, false, slaves[k];
      out, in_ := Half(m, 8 * m, []), Half(m, 8 * m, []);
      if InGroup(slaves[k], number) {
        addsOut, out := OverlapDirection(Output, k, m);
        mid := slaves[k];
        addsIn, in_ := OverlapDirection(Input, k, m);
        cur, size := AccountBytes(cur, size, Max(out.to, in_.to) - m, c);
      }
    }

    /** One round of the slave loop of the overlapped map. */
    method OverlapStep(k: nat, m0: nat, cur0: nat, size0: nat, outs0: nat, ins0: nat, o0: seq<Half>, i0: seq<Half>,
                       ghost was: seq<SlaveMap>, ghost mid0: seq<SlaveMap>, ghost diffs0: seq<nat>)
      returns (m: nat, cur: nat, size: nat, outs: nat, ins: nat, o: seq<Half>, i: seq<Half>, ghost mid: seq<SlaveMap>,
               ghost diffs: seq<nat>)
      requires Valid() && 1 <= k < slaves.Length == |was| && slaves[k] == was[k] && WellFormed(was[k])
      requires OverlapDone(was, mid0, slaves[..], number, Base(), o0, i0, k - 1, logstartaddr, diffs0, outs0, ins0)
      requires m0 == Reach(o0, i0, k - 1) && Open(AccountAll(EMPTY, diffs0), cur0, size0)
      modifies slaves, iosegment
      ensures OverlapDone(was, mid, slaves[..], number, Base(), o, i, k, logstartaddr, diffs, outs, ins)
      ensures m == Reach(o, i, k) && Open(AccountAll(EMPTY, diffs), cur, size)
      ensures forall j :: 0 <= j < slaves.Length && j != k ==> slaves[j] == old(slaves[j])
    {
      ghost var mid', now := slaves[k], slaves[..];
      var addsOut, addsIn, out, in_;
      cur, size, addsOut, addsIn, out, in_, mid' := OverlapSlave(k, m0, cur0, size0, AccountAll(EMPTY, diffs0));
      diffs := OverlapNext(was, mid0, now, slaves[..], number, Base(), o0, i0, k, m0, logstartaddr, diffs0, outs0,
                           ins0, mid', out, in_);
      outs, ins := outs0 + Bit(addsOut), ins0 + Bit(addsIn);
      o, i, mid := o0 + [out], i0 + [in_], mid0 + [mid'];
      m := Max(out.to, in_.to);
    }

    /** That loop. */
    method OverlapSlaves()
      returns (cur: nat, size: nat, outs: nat, ins: nat, o: seq<Half>, i: seq<Half>, ghost mid: seq<SlaveMap>)
      requires Valid() && forall k :: 1 <= k < slaves.Length ==> WellFormed(slaves[k])
      modifies slaves, iosegment
      ensures slaves[0] == old(slaves[0])
      ensures Overlaid(old(slaves[..]), mid, slaves[..], number, Base(), o, i, slaves.Length - 1)
      ensures o[0].to == i[0].to == logstartaddr
      ensures Open(AccountAll(EMPTY, OverlapDiffs(old(slaves[..]), number, o, i, slaves.Length - 1)), cur, size)
      ensures outs == AddingHalves(o, slaves.Length - 1) && ins == AddingHalves(i, slaves.Length - 1)
    {
      ghost var was := slaves[..];
      assert iosegment[..0] == [];
      cur, size, outs, ins := 0, 0, 0, 0;
      var start := Half(logstartaddr, 8 * logstartaddr, []);
      o, i, mid := [start], [start], [slaves[0]];
      ghost var diffs: seq<nat> := [];
      var m := logstartaddr;
      var k := 1;
      while k < slaves.Length
        invariant 1 <= k <= slaves.Length
        invariant OverlapDone(was, mid, slaves[..], number, Base(), o, i, k - 1, logstartaddr, diffs, outs, ins)
        invariant m == Reach(o, i, k - 1) && Open(AccountAll(EMPTY, diffs), cur, size)
        invariant forall j :: 0 <= j < slaves.Length && (j == 0 || k <= j) ==> slaves[j] == was[j]
      {
        m, cur, size, outs, ins, o, i, mid, diffs :=
          OverlapStep(k, m, cur, size, outs, ins, o, i, was, mid, diffs);
        k := k + 1;
      }
    }

    /** Move the input pointers of all slaves behind the outputs, also of slaves outside the group. */
    method ShiftInputs(offset: nat)
      requires Valid()
      modifies slaves
      ensures slaves[0] == old(slaves[0])
      ensures forall k :: 1 <= k < slaves.Length ==> slaves[k] == Shifted(old(slaves[k]), offset)
    {
      var slave := 1;
      while slave < slaves.Length
        invariant 1 <= slave <= slaves.Length && slaves[0] == old(slaves[0])
        invariant forall k :: 1 <= k < slave ==> slaves[k] == Shifted(old(slaves[k]), offset)
        invariant forall k :: slave <= k < slaves.Length ==> slaves[k] == old(slaves[k])
      {
        slaves[slave] := Shifted(slaves[slave], offset);
        slave := slave + 1;
      }
    }

    /** ecx_config_overlap_map_group: outputs and inputs of a slave share one logical range. */
    method OverlapMapGroup() returns (mapped: nat, ghost p: OverlapPlan)
      requires Valid() && forall k :: 1 <= k < slaves.Length ==> WellFormed(slaves[k])
      modifies this, iosegment, slaves
      ensures slaves[0] == old(slaves[0])
      ensures slaves.Length == 1 ==> mapped == 0 && slaves[..] == old(slaves[..])
      ensures slaves.Length > 1 ==>
        && var n := slaves.Length - 1;
        && Overlaid(old(slaves[..]), p.mid, p.now, number, Base(), p.o, p.i, n)
        && p.o[0].to == p.i[0].to == logstartaddr
        && logstartaddr + obytes == p.o[n].to && logstartaddr + ibytes == p.i[n].to
        && mapped == obytes + ibytes && inputs == obytes && isegment == 0 && ioffset == 0
        && nsegments <= EC_MAXIOSEGMENTS
        && iosegment[..nsegments] == Table(AccountAll(EMPTY, OverlapDiffs(old(slaves[..]), number, p.o, p.i, n)))
        && (forall k :: 1 <= k <= n ==> slaves[k] == Shifted(p.now[k], obytes))
        && outputsWKC == AddingHalves(p.o, n) && inputsWKC == AddingHalves(p.i, n)
        && blockLRW == old(blockLRW) + Blocking(p.now, number, n)
    {
      mapped := 0;
      p := OverlapPlan([], [], [], []);
      if slaves.Length > 1 {
        ghost var n, was := slaves.Length - 1, slaves[..];
        ghost var mid;
        var cur, size, outs, ins, o, i;
        cur, size, outs, ins, o, i, mid := OverlapSlaves();
        p := OverlapPlan(mid, slaves[..], o, i);
        LastHalves(was, mid, slaves[..], number, Base(), o, i, n);
        FinishOverlap(cur, size, outs, ins, o[slaves.Length - 1].to, i[slaves.Length - 1].to,
                      AccountAll(EMPTY, OverlapDiffs(was, number, o, i, n)));
        ShiftInputs(obytes);
        mapped := obytes + ibytes;
      }
    }

    /** Everything behind the slave loop but the pointers: the segment table, the lengths, the counts. */
    method FinishOverlap(cur: nat, size: nat, outs: nat, ins: nat, soLogAddr: nat, siLogAddr: nat, ghost c: Cut)
      requires Valid() && Open(c, cur, size) && soLogAddr >= logstartaddr && siLogAddr >= logstartaddr
      modifies this, iosegment
      ensures logstartaddr + obytes == soLogAddr && logstartaddr + ibytes == siLogAddr
      ensures inputs == obytes && isegment == 0 && ioffset == 0 && outputsWKC == outs && inputsWKC == ins
      ensures nsegments <= EC_MAXIOSEGMENTS && iosegment[..nsegments] == Table(c)
      ensures blockLRW == old(blockLRW) + Blocking(slaves[..], number, slaves.Length - 1)
    {
      nsegments, outputsWKC, inputsWKC := 0, outs, ins;
      CountBlocking();
      CloseTable(cur, size, c);
      isegment, ioffset := 0, 0;
      obytes, ibytes := soLogAddr - logstartaddr, siLogAddr - logstartaddr;
      inputs := obytes;
    }

    /** The open segment ends the table. */
    method CloseTable(cur: nat, size: nat, ghost c: Cut)
      requires Valid() && Open(c, cur, size)
      modifies this`nsegments, iosegment
      ensures nsegments <= EC_MAXIOSEGMENTS && iosegment[..nsegments] == Table(c)
    {
      ghost var closed := iosegment[..cur];
      iosegment[cur] := size;
      assert iosegment[..cur] == closed;
      assert iosegment[..cur + 1] == closed + [size];
      nsegments := cur + 1;
    }

    /** Slaves of the group that cannot do LRW. */
    method CountBlocking()
      requires Valid()
      modifies this`blockLRW
      ensures blockLRW == old(blockLRW) + Blocking(slaves[..], number, slaves.Length - 1)
    {
      var slave := 1;
      while slave < slaves.Length
        invariant 1 <= slave <= slaves.Length
        invariant blockLRW == old(blockLRW) + Blocking(slaves[..], number, slave - 1)
      {
        if InGroup(slaves[slave], number) && slaves[slave].blockLRW {
          blockLRW := blockLRW + 1;
        }
        slave := slave + 1;
      }
    }
  }

  function Blocking(list: seq<SlaveMap>, group: nat, k: nat): nat
    requires k < |list|
  {
    if k == 0 then 0 else Blocking(list, group, k - 1) + if InGroup(list[k], group) && list[k].blockLRW then 1 else 0
  }

  /** Process data are sent without LRW if and only if a slave of the group cannot do it; group 0 is all slaves. */
  lemma {:induction false} BlockingIff(list: seq<SlaveMap>, group: nat, k: nat)
    requires k < |list|
    ensures Blocking(list, group, k) > 0 <==>
              exists j :: 1 <= j <= k && (group == 0 || list[j].group == group) && list[j].blockLRW
  {
    if k > 0 { BlockingIff(list, group, k - 1); }
  }

  lemma LaidKeepsForm(was: seq<SlaveMap>, now: seq<SlaveMap>, group: nat, d: Direction, base: nat, l: Layout, n: nat)
    requires Laid(was, now, group, d, base, l, n) && n + 1 == |was|
    requires forall k :: 1 <= k <= n ==> WellFormed(was[k])
    ensures forall k :: 1 <= k <= n ==> WellFormed(now[k])
  {
    forall k | 1 <= k <= n
      ensures WellFormed(now[k])
    {
      assert LaidAt(was, now, group, d, base, l, k);
    }
  }
}
