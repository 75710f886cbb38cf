/** Bit-granular allocation of FMMU windows for one slave: ecx_config_create_output_mappings and
    ecx_config_create_input_mappings, which differ only in the direction. */
module FmmuMapping {
  import opened Basics

  datatype Direction = Output | Input

  /** Sync manager: start address, length, type (3 outputs, 4 inputs). */
  datatype Sm = Sm(start: nat, length: nat, smtype: nat)

  /** FMMU: a logical window, from bit `startbit` of byte `logStart` to bit `endbit` of its last
      byte, mapped to physical memory. Type 1 reads (inputs), type 2 writes (outputs). */
  datatype Fmmu = Fmmu(logStart: nat, logLength: nat, startbit: nat, endbit: nat, physStart: nat,
                       fmmutype: nat, active: bool)

  datatype SlaveMap = SlaveMap(group: nat, obits: nat, obytes: nat, ibits: nat, ibytes: nat,
                               sms: seq<Sm>, fmmu: seq<Fmmu>, fmmuUnused: nat,
                               outputs: Option<int>, ostartbit: nat, inputs: Option<int>, istartbit: nat,
                               blockLRW: bool)

  function Bits(s: SlaveMap, d: Direction): nat { if d.Output? then s.obits else s.ibits }
  function Bytes(s: SlaveMap, d: Direction): nat { if d.Output? then s.obytes else s.ibytes }
  function SmType(d: Direction): nat { if d.Output? then 3 else 4 }
  function FmmuType(d: Direction): nat { if d.Output? then 2 else 1 }

  /** What ecx_map_sm leaves behind: sizes below 8 bits have no byte size. */
  predicate Sized(s: SlaveMap, d: Direction) {
    Bytes(s, d) == if Bits(s, d) < 8 then 0 else (Bits(s, d) + 7) / 8
  }

  predicate WellFormed(s: SlaveMap) {
    |s.sms| == EC_MAXSM && s.fmmuUnused <= |s.fmmu| && Sized(s, Output) && Sized(s, Input)
  }

  /** Total length of the sync managers below n that carry direction d. */
  function SmTotal(s: SlaveMap, d: Direction, n: nat): nat
    requires n <= |s.sms|
  {
    if n == 0 then 0
    else SmTotal(s, d, n - 1) + if s.sms[n - 1].smtype == SmType(d) then s.sms[n - 1].length else 0
  }

  /** The sync managers of the direction are long enough; sizes below a byte need none. */
  predicate Covered(s: SlaveMap, d: Direction)
    requires |s.sms| == EC_MAXSM
  {
    Bytes(s, d) <= SmTotal(s, d, EC_MAXSM - 1)
  }

  // ----- windows as bit ranges of the logical address space

  function FirstBit(w: Fmmu): int { 8 * w.logStart + w.startbit }

  /** First bit behind a window. */
  function EndBit(w: Fmmu): int { 8 * (w.logStart + w.logLength - 1) + w.endbit + 1 }

  /** The windows follow each other without gap or overlap from bit `from` to bit `to`. */
  predicate Consecutive(ws: seq<Fmmu>, from: int, to: int) {
    if ws == [] then from == to
    else FirstBit(ws[0]) == from && from <= EndBit(ws[0]) && Consecutive(ws[1..], EndBit(ws[0]), to)
  }

  lemma {:induction false} ConsecutiveAppend(ws: seq<Fmmu>, w: Fmmu, from: int, mid: int)
    requires Consecutive(ws, from, mid) && FirstBit(w) == mid <= EndBit(w)
    ensures Consecutive(ws + [w], from, EndBit(w))
  {
    if ws == [] {
      assert (ws + [w])[1..] == [];
    } else {
      ConsecutiveAppend(ws[1..], w, EndBit(ws[0]), mid);
      assert (ws + [w])[1..] == ws[1..] + [w];
    }
  }

  predicate TouchesSome(ws: seq<Fmmu>, from: int, to: int) {
    exists k :: 0 <= k < |ws| && FirstBit(ws[k]) < to && from < EndBit(ws[k]) && FirstBit(ws[k]) < EndBit(ws[k])
  }

  /** Consecutive windows touch a bit range exactly when their union does. */
  lemma {:induction false} TouchesUnion(ws: seq<Fmmu>, a: int, b: int, from: int, to: int)
    requires Consecutive(ws, a, b) && from < to
    ensures a <= b
    ensures TouchesSome(ws, from, to) <==> a < b && a < to && from < b
  {
    if ws != [] {
      var rest := ws[1..];
      TouchesUnion(rest, EndBit(ws[0]), b, from, to);
      if TouchesSome(rest, from, to) {
        var k :| 0 <= k < |rest| && FirstBit(rest[k]) < to && from < EndBit(rest[k])
            && FirstBit(rest[k]) < EndBit(rest[k]);
        assert ws[k + 1] == rest[k];
      }
      if TouchesSome(ws, from, to) {
        var k :| 0 <= k < |ws| && FirstBit(ws[k]) < to && from < EndBit(ws[k]) && FirstBit(ws[k]) < EndBit(ws[k]);
        if k > 0 { assert rest[k - 1] == ws[k]; }
      }
      if a < b && a < to && from < b && EndBit(ws[0]) > a && from < EndBit(ws[0]) {
        assert FirstBit(ws[0]) < to;
      }
    }
  }

  /** Windows hold some bit exactly when their union does. */
  lemma {:induction false} SomeNonEmptyUnion(ws: seq<Fmmu>, d: Direction, a: int, b: int)
    requires Consecutive(ws, a, b) && Activated(ws, d)
    ensures SomeNonEmpty(ws) <==> a < b
    ensures a <= b
  {
    if ws != [] {
      var rest := ws[1..];
      assert forall k :: 0 <= k < |rest| ==> rest[k] == ws[k + 1];
      SomeNonEmptyUnion(rest, d, EndBit(ws[0]), b);
      if SomeNonEmpty(rest) {
        var k :| 0 <= k < |rest| && rest[k].logLength > 0;
        assert ws[k + 1].logLength > 0;
      }
      if SomeNonEmpty(ws) {
        var k :| 0 <= k < |ws| && ws[k].logLength > 0;
        if k > 0 { assert rest[k - 1].logLength > 0; }
      }
    }
  }

  /** Bit position where a slave's windows begin: byte-oriented slaves start on a byte. */
  function Aligned(pos: nat, bytes: nat): nat {
    if bytes == 0 then pos else (pos + 7) / 8 * 8
  }

  // ----- one address run of sync managers

  /** First sync manager of the direction at or behind smc; the last one if there is none. */
  function NextSm(s: SlaveMap, d: Direction, smc: nat): (r: nat)
    requires |s.sms| == EC_MAXSM && smc <= EC_MAXSM - 1
    ensures smc <= r <= EC_MAXSM - 1
    decreases EC_MAXSM - smc
  {
    if smc == EC_MAXSM - 1 || s.sms[smc].smtype == SmType(d) then smc else NextSm(s, d, smc + 1)
  }

  lemma {:induction false} NextSmIsFirst(s: SlaveMap, d: Direction, smc: nat)
    requires |s.sms| == EC_MAXSM && smc <= EC_MAXSM - 1
    ensures var r := NextSm(s, d, smc);
      && (r < EC_MAXSM - 1 ==> s.sms[r].smtype == SmType(d))
         && (forall j :: smc <= j < r ==> s.sms[j].smtype != SmType(d))
      && SmTotal(s, d, r) == SmTotal(s, d, smc)
    decreases EC_MAXSM - smc
  {
    if smc < EC_MAXSM - 1 && s.sms[smc].smtype != SmType(d) { NextSmIsFirst(s, d, smc + 1); }
  }

  /** End address of a sync manager, in 16 bits; start and length have 16 bits themselves. */
  function EndAddr(m: Sm): nat {
    var end := m.start + m.length;
    if end < 0x1_0000 then end else end - 0x1_0000
  }

  /** The sync managers behind `smc` that connect to it, as long as bits are missing: the one at which
      the run stops, and the bytes counted. */
  function RunOn(s: SlaveMap, d: Direction, smc: nat, byteCount: nat): (r: (nat, nat))
    requires |s.sms| == EC_MAXSM && smc <= EC_MAXSM - 1
    ensures smc <= r.0 <= EC_MAXSM - 1 && byteCount <= r.1
    decreases EC_MAXSM - smc
  {
    if 8 * byteCount >= Bits(s, d) || smc == EC_MAXSM - 1 then (smc, byteCount)
    else
      var n := NextSm(s, d, smc + 1);
      if s.sms[n].start > EndAddr(s.sms[smc]) then (n, byteCount) else RunOn(s, d, n, byteCount + s.sms[n].length)
  }

  /** One address run: where it stops, the bytes counted so far. It begins at NextSm(s, d, smc0). */
  function RunFrom(s: SlaveMap, d: Direction, smc0: nat, byteCount0: nat): (r: (nat, nat))
    requires |s.sms| == EC_MAXSM && smc0 <= EC_MAXSM - 1
    ensures smc0 <= r.0 <= EC_MAXSM - 1 && byteCount0 <= r.1
  {
    var first := NextSm(s, d, smc0);
    RunOn(s, d, first, byteCount0 + s.sms[first].length)
  }

  /** A run that does not end the mapping goes on to a later sync manager. */
  lemma RunMoves(s: SlaveMap, d: Direction, smc0: nat, byteCount0: nat, r: (nat, nat))
    requires |s.sms| == EC_MAXSM && smc0 < EC_MAXSM - 1 && r == RunFrom(s, d, smc0, byteCount0)
    ensures 8 * r.1 >= Bits(s, d) || r.0 > smc0
  {
  }

  /** Going on to the next sync manager of the direction misses none. */
  lemma NextCounts(s: SlaveMap, d: Direction, from: nat, n: nat, byteCount: nat)
    requires |s.sms| == EC_MAXSM && from <= EC_MAXSM - 1 && n == NextSm(s, d, from) && byteCount >= SmTotal(s, d, from)
    ensures byteCount >= SmTotal(s, d, n)
    ensures byteCount + s.sms[n].length >= SmTotal(s, d, n + 1)
  {
    NextSmIsFirst(s, d, from);
  }

  /** A run makes progress and misses no sync manager of the direction. */
  lemma {:induction false} RunOnCounts(s: SlaveMap, d: Direction, smc: nat, byteCount: nat, r: (nat, nat))
    requires |s.sms| == EC_MAXSM && smc < EC_MAXSM - 1 && byteCount >= SmTotal(s, d, smc + 1)
             && r == RunOn(s, d, smc, byteCount)
    ensures 8 * r.1 < Bits(s, d) ==> r.0 > smc && r.1 >= SmTotal(s, d, r.0)
    decreases EC_MAXSM - smc
  {
    if 8 * byteCount < Bits(s, d) {
      var n := NextSm(s, d, smc + 1);
      NextCounts(s, d, smc + 1, n, byteCount);
      if s.sms[n].start <= EndAddr(s.sms[smc]) && n < EC_MAXSM - 1 {
        RunOnCounts(s, d, n, byteCount + s.sms[n].length, r);
      }
    }
  }

  lemma RunCounts(s: SlaveMap, d: Direction, smc0: nat, byteCount0: nat, r: (nat, nat))
    requires |s.sms| == EC_MAXSM && smc0 < EC_MAXSM - 1 && byteCount0 >= SmTotal(s, d, smc0)
             && r == RunFrom(s, d, smc0, byteCount0)
    ensures 8 * r.1 < Bits(s, d) ==> r.1 >= SmTotal(s, d, r.0)
  {
    var first := NextSm(s, d, smc0);
    NextCounts(s, d, smc0, first, byteCount0);
    if first < EC_MAXSM - 1 { RunOnCounts(s, d, first, byteCount0 + s.sms[first].length, r); }
  }

  method FindSm(s: SlaveMap, d: Direction, smc0: nat) returns (smc: nat)
    requires |s.sms| == EC_MAXSM && smc0 <= EC_MAXSM - 1
    ensures smc == NextSm(s, d, smc0)
  {
    smc := smc0;
    while smc < EC_MAXSM - 1 && s.sms[smc].smtype != SmType(d)
      invariant smc0 <= smc <= EC_MAXSM - 1 && NextSm(s, d, smc0) == NextSm(s, d, smc)
    {
      smc := smc + 1;
    }
  }

  lemma RunOnNext(s: SlaveMap, d: Direction, smc: nat, byteCount: nat, n: nat)
    requires |s.sms| == EC_MAXSM && smc < EC_MAXSM - 1 && 8 * byteCount < Bits(s, d) && n == NextSm(s, d, smc + 1)
    ensures RunOn(s, d, smc, byteCount)
            == if s.sms[n].start > EndAddr(s.sms[smc]) then (n, byteCount)
            else RunOn(s, d, n, byteCount + s.sms[n].length)
  {
  }

  /** The next sync manager of the direction, if its address connects. */
  method NextConnected(s: SlaveMap, d: Direction, smc0: nat, byteCount0: nat, endAddr0: nat)
    returns (smc: nat, byteCount: nat, endAddr: nat, connected: bool)
    requires |s.sms| == EC_MAXSM && smc0 < EC_MAXSM - 1 && 8 * byteCount0 < Bits(s, d)
             && endAddr0 == EndAddr(s.sms[smc0])
    ensures smc0 < smc <= EC_MAXSM - 1 && (connected ==> endAddr == EndAddr(s.sms[smc]))
    ensures RunOn(s, d, smc0, byteCount0) == if connected then RunOn(s, d, smc, byteCount) else (smc, byteCount)
  {
    smc := FindSm(s, d, smc0 + 1);
    byteCount, endAddr, connected := byteCount0, endAddr0, true;
    RunOnNext(s, d, smc0, byteCount0, smc);
    if s.sms[smc].start > endAddr {
      connected := false;
    } else {
      byteCount := byteCount + s.sms[smc].length;
      endAddr := EndAddr(s.sms[smc]);
    }
  }

  lemma RunOnEnds(s: SlaveMap, d: Direction, smc: nat, byteCount: nat)
    requires |s.sms| == EC_MAXSM && smc <= EC_MAXSM - 1 && (8 * byteCount >= Bits(s, d) || smc == EC_MAXSM - 1)
    ensures RunOn(s, d, smc, byteCount) == (smc, byteCount)
  {
  }

  /** Collect the sync managers of one window: from the first of the direction at or behind `smc0`,
      as long as the next one connects and bits are missing. */
  method ScanRun(s: SlaveMap, d: Direction, smc0: nat, byteCount0: nat)
    returns (smc: nat, byteCount: nat, physStart: nat)
    requires |s.sms| == EC_MAXSM && smc0 < EC_MAXSM - 1
    ensures (smc, byteCount) == RunFrom(s, d, smc0, byteCount0) && physStart == s.sms[NextSm(s, d, smc0)].start
  {
    smc := FindSm(s, d, smc0);
    physStart := s.sms[smc].start;
    smc, byteCount := Collect(s, d, smc, byteCount0 + s.sms[smc].length);
  }

  /** The sync managers that connect to `smc0`. */
  method Collect(s: SlaveMap, d: Direction, smc0: nat, byteCount0: nat) returns (smc: nat, byteCount: nat)
    requires |s.sms| == EC_MAXSM && smc0 <= EC_MAXSM - 1
    ensures (smc, byteCount) == RunOn(s, d, smc0, byteCount0)
  {
    smc, byteCount := smc0, byteCount0;
    var endAddr, connected := EndAddr(s.sms[smc]), true;
    ghost var goal := RunOn(s, d, smc0, byteCount0);
    while connected && 8 * byteCount < Bits(s, d) && smc < EC_MAXSM - 1
      invariant smc <= EC_MAXSM - 1 && (connected ==> endAddr == EndAddr(s.sms[smc]))
      invariant goal == if connected then RunOn(s, d, smc, byteCount) else (smc, byteCount)
      decreases connected, EC_MAXSM - smc
    {
      smc, byteCount, endAddr, connected := NextConnected(s, d, smc, byteCount, endAddr);
    }
    if connected { RunOnEnds(s, d, smc, byteCount); }
  }

  /** Place one window at the allocation point (logAddr0, bitPos0) and move the point behind it. */
  method PlaceWindow(bits: nat, bytes: nat, byteCount: nat, done: nat, logAddr0: nat, bitPos0: nat)
    returns (w: Fmmu, size: nat, logAddr: nat, bitPos: nat)
    requires bits >= 1 && bitPos0 <= 7 && (bytes == 0 ==> bits < 8) && (bytes > 0 ==> done <= bytes)
    ensures bitPos <= 7
    ensures FirstBit(w) == Aligned(8 * logAddr0 + bitPos0, bytes)
    ensures EndBit(w) == 8 * logAddr + bitPos
    ensures 0 <= w.startbit <= 7 && 0 <= w.endbit <= 7 && size == w.logLength && !w.active
    ensures if bytes == 0 then EndBit(w) == FirstBit(w) + bits && size >= 1
            else EndBit(w) == FirstBit(w) + 8 * size
                 && size == if byteCount + done > bytes then bytes - done else byteCount
  {
    logAddr, bitPos := logAddr0, bitPos0;
    if bytes == 0 {
      var logStart, startbit := logAddr, bitPos;
      bitPos := bitPos + bits - 1;
      if bitPos > 7 {
        logAddr, bitPos := logAddr + 1, bitPos - 8;
      }
      size := logAddr - logStart + 1;
      w := Fmmu(logStart, size, startbit, bitPos, 0, 0, false);
      bitPos := bitPos + 1;
      if bitPos > 7 {
        logAddr, bitPos := logAddr + 1, bitPos - 8;
      }
    } else {
      if bitPos != 0 {
        logAddr, bitPos := logAddr + 1, 0;
      }
      var logStart, startbit := logAddr, bitPos;
      size := byteCount;
      if size + done > bytes {
        size := bytes - done;
      }
      logAddr := logAddr + size;
      w := Fmmu(logStart, size, startbit, 7, 0, 0, false);
    }
  }

  /** First entry at or behind the unused mark; an input mapping of a slave with outputs skips
      entries that already hold a window. */
  method FreeFmmu(s: SlaveMap, d: Direction) returns (fmmuc: nat)
    requires s.fmmuUnused <= |s.fmmu|
    ensures s.fmmuUnused <= fmmuc <= |s.fmmu|
    ensures d.Output? || s.obits == 0 ==> fmmuc == s.fmmuUnused
    ensures d.Input? && s.obits != 0 ==>
              (forall k :: s.fmmuUnused <= k < fmmuc ==> s.fmmu[k].logStart != 0)
              && (fmmuc == |s.fmmu| || s.fmmu[fmmuc].logStart == 0)
  {
    fmmuc := s.fmmuUnused;
    if d.Input? && s.obits != 0 {
      while fmmuc < |s.fmmu| && s.fmmu[fmmuc].logStart != 0
        invariant s.fmmuUnused <= fmmuc <= |s.fmmu|
        invariant forall k :: s.fmmuUnused <= k < fmmuc ==> s.fmmu[k].logStart != 0
      {
        fmmuc := fmmuc + 1;
      }
    }
  }

  /** Write entry i of the window table, which grows on demand. */
  function SetFmmu(table: seq<Fmmu>, i: nat, w: Fmmu): seq<Fmmu>
    requires i <= |table|
  {
    if i < |table| then table[i := w] else table + [w]
  }

  /** The table with the windows `ws` in the entries from `first` on, all others as before. */
  function WithWindows(table: seq<Fmmu>, first: nat, ws: seq<Fmmu>): (r: seq<Fmmu>)
    requires first <= |table|
    ensures first + |ws| <= |r|
  {
    table[..first] + ws + if first + |ws| < |table| then table[first + |ws|..] else []
  }

  /** Exactly the windows that hold a bit are active, with the type of the direction. */
  predicate Activated(ws: seq<Fmmu>, d: Direction) {
    forall k :: 0 <= k < |ws| ==>
      && (ws[k].active <==> ws[k].logLength > 0) && (ws[k].logLength > 0 <==> FirstBit(ws[k]) < EndBit(ws[k]))
      && (ws[k].active ==> ws[k].fmmutype == FmmuType(d))
  }

  predicate SomeNonEmpty(ws: seq<Fmmu>) {
    exists k :: 0 <= k < |ws| && ws[k].logLength > 0
  }

  /** The slave's pointer into the process image: its first window, unless it was set before. */
  function PlacedAt(was: Option<int>, ws: seq<Fmmu>, base: nat): Option<int> {
    if was.None? && ws != [] then Some(ws[0].logStart - base) else was
  }

  function StartBit(oldPtr: Option<int>, oldBit: nat, ws: seq<Fmmu>): nat {
    if oldPtr.None? && ws != [] then ws[0].startbit else oldBit
  }

  function Pointer(s: SlaveMap, d: Direction): Option<int> { if d.Output? then s.outputs else s.inputs }

  function StartOf(s: SlaveMap, d: Direction): nat { if d.Output? then s.ostartbit else s.istartbit }

  /** The pointer of a direction and its start bit lead to this bit of the process image. */
  predicate PointsTo(s: SlaveMap, d: Direction, bit: int) {
    Pointer(s, d).Some? && 8 * Pointer(s, d).value + StartOf(s, d) == bit
  }

  /** A pointer that was not set before leads to the first bit of the windows. */
  lemma FirstWindow(s: SlaveMap, d: Direction, first: nat, ws: seq<Fmmu>, base: nat, from: int, to: int)
    requires Consecutive(ws, from, to) && ws != [] && first <= |s.fmmu|
    ensures Pointer(s, d).None? ==> PointsTo(Mapped(s, d, first, ws, base), d, from - 8 * base)
    ensures forall e: Direction :: e != d ==>
              Pointer(Mapped(s, d, first, ws, base), e) == Pointer(s, e)
              && StartOf(Mapped(s, d, first, ws, base), e) == StartOf(s, e)
  {
  }

  function Mapped(s: SlaveMap, d: Direction, first: nat, ws: seq<Fmmu>, base: nat): SlaveMap
    requires first <= |s.fmmu|
  {
    var r := s.(fmmu := WithWindows(s.fmmu, first, ws), fmmuUnused := first + |ws|);
    if d.Output?
    then r.(outputs := PlacedAt(s.outputs, ws, base), ostartbit := StartBit(s.outputs, s.ostartbit, ws))
    else r.(inputs := PlacedAt(s.inputs, ws, base), istartbit := StartBit(s.inputs, s.istartbit, ws))
  }

  /** State of the allocation of one direction: windows so far, bytes done, allocation point. */
  ghost predicate Allocating(s: SlaveMap, d: Direction, start: nat, ws: seq<Fmmu>, done: nat, point: nat) {
    var bits, bytes := Bits(s, d), Bytes(s, d);
    && (ws == [] ==> done == 0 && point == start)
    && (ws != [] ==> Consecutive(ws, Aligned(start, bytes), point))
    && (ws != [] && bytes == 0 ==> done >= 1 && point == start + bits)
    && (bytes > 0 ==> done <= bytes)
    && (ws != [] && bytes > 0 ==> point == Aligned(start, bytes) + 8 * done)
    && Activated(ws, d)
  }

  lemma AllocateNext(s: SlaveMap, d: Direction, start: nat, ws: seq<Fmmu>, done: nat, point: nat,
                     w: Fmmu, size: nat, byteCount: nat, next: nat)
    requires WellFormed(s) && Bits(s, d) >= 1 && Allocating(s, d, start, ws, done, point)
    requires Bytes(s, d) == 0 ==> ws == []
    requires FirstBit(w) == Aligned(point, Bytes(s, d)) && EndBit(w) == next && w.logLength == size
    requires (w.active <==> w.logLength > 0) && (w.active ==> w.fmmutype == FmmuType(d))
    requires if Bytes(s, d) == 0 then next == FirstBit(w) + Bits(s, d) && size >= 1
             else next == FirstBit(w) + 8 * size
                  && size == if byteCount + done > Bytes(s, d) then Bytes(s, d) - done else byteCount
    ensures Allocating(s, d, start, ws + [w], done + size, next)
  {
    if ws == [] {
      assert Consecutive([], FirstBit(w), FirstBit(w));
      ConsecutiveAppend([], w, FirstBit(w), FirstBit(w));
    } else {
      ConsecutiveAppend(ws, w, Aligned(start, Bytes(s, d)), point);
    }
  }

  lemma NonEmptyNext(ws: seq<Fmmu>, w: Fmmu)
    ensures SomeNonEmpty(ws + [w]) == (SomeNonEmpty(ws) || w.logLength > 0)
  {
    var vs := ws + [w];
    if SomeNonEmpty(ws) {
      var k :| 0 <= k < |ws| && ws[k].logLength > 0;
      assert vs[k].logLength > 0;
    }
    if w.logLength > 0 {
      assert vs[|ws|].logLength > 0;
    }
  }

  /** Enter a finished window into the slave record; the first one places the slave's pointer. */
  method StoreWindow(r0: SlaveMap, d: Direction, fmmuc: nat, w: Fmmu, base: nat, ghost s: SlaveMap, ghost first: nat,
                     ghost ws: seq<Fmmu>)
    returns (r: SlaveMap)
    requires first <= |s.fmmu| && fmmuc == first + |ws|
             && r0 == Mapped(s, d, first, ws, base).(fmmuUnused := s.fmmuUnused)
    ensures r == Mapped(s, d, first, ws + [w], base).(fmmuUnused := s.fmmuUnused)
  {
    r := r0.(fmmu := SetFmmu(r0.fmmu, fmmuc, w));
    assert r.fmmu == WithWindows(s.fmmu, first, ws + [w]);
    if d.Output? && r.outputs.None? {
      r := r.(outputs := Some(w.logStart - base), ostartbit := w.startbit);
    }
    if d.Input? && r.inputs.None? {
      r := r.(inputs := Some(w.logStart - base), istartbit := w.startbit);
    }
  }

  /** Invariant of the window loop: `m` is the progress in sync managers and bytes. */
  datatype Progress = Progress(smc: nat, byteCount: nat, done: nat)

  ghost predicate Mapping(s: SlaveMap, d: Direction, start: nat, ws: seq<Fmmu>, m: Progress, logAddr: nat, bitPos: nat)
    requires |s.sms| == EC_MAXSM
  {
    && m.smc <= EC_MAXSM - 1 && bitPos <= 7 && (ws != [] && Bytes(s, d) > 0 ==> bitPos == 0)
    && Allocating(s, d, start, ws, m.done, 8 * logAddr + bitPos)
    && (ws == [] <==> m.smc == 0 && m.done == 0)
    && (Bytes(s, d) > 0 ==> m.done == Bytes(s, d) || (m.done >= m.byteCount && m.byteCount >= SmTotal(s, d, m.smc)))
  }

  predicate MoreToMap(s: SlaveMap, d: Direction, m: Progress) {
    m.smc < EC_MAXSM - 1 && m.done < (Bits(s, d) + 7) / 8
  }

  /** The windows `ws` are what direction d of the slave gets at bit position `start`, and move the
      allocation point to bit `end`: consecutive windows of exactly its bits when those are below 8,
      otherwise whole bytes from the next byte on, exactly its bytes when its sync managers cover them. */
  ghost predicate IsPlacement(s: SlaveMap, d: Direction, start: nat, ws: seq<Fmmu>, end: nat)
    requires |s.sms| == EC_MAXSM
  {
    var from := Aligned(start, Bytes(s, d));
    && Consecutive(ws, from, end) && Activated(ws, d)
    && (Bytes(s, d) == 0 ==> end == start + Bits(s, d))
    && (Bytes(s, d) > 0 ==> end % 8 == 0 && from <= end <= from + 8 * Bytes(s, d))
    && (Bytes(s, d) > 0 && Covered(s, d) ==> end == from + 8 * Bytes(s, d))
  }

  lemma PlacedFirst(s: SlaveMap, d: Direction, first: nat, ws: seq<Fmmu>, base: nat, start: nat, end: nat)
    requires |s.sms| == EC_MAXSM && ws != [] && first <= |s.fmmu|
    ensures IsPlacement(s, d, start, ws, end) && Pointer(s, d).None? ==>
              PointsTo(Mapped(s, d, first, ws, base), d, Aligned(start, Bytes(s, d)) - 8 * base)
  {
    if IsPlacement(s, d, start, ws, end) { FirstWindow(s, d, first, ws, base, Aligned(start, Bytes(s, d)), end); }
  }

  /** Byte-oriented slaves start on a byte. */
  lemma AlignedByte(pos: nat, bytes: nat)
    requires bytes > 0
    ensures Aligned(pos, bytes) % 8 == 0 && pos <= Aligned(pos, bytes)
  {
  }

  /** Behind whole bytes the allocation point is on a byte. */
  lemma PointOnByte(pos: nat, bytes: nat, size: nat, logAddr: nat, bitPos: nat)
    requires bytes > 0 && bitPos <= 7 && 8 * logAddr + bitPos == Aligned(pos, bytes) + 8 * size
    ensures bitPos == 0
  {
    AlignedByte(pos, bytes);
  }

  lemma SizedBytes(s: SlaveMap, d: Direction)
    requires Sized(s, d) && Bits(s, d) >= 1
    ensures (Bits(s, d) + 7) / 8 == if Bytes(s, d) == 0 then 1 else Bytes(s, d)
  {
  }

  lemma MappingDone(s: SlaveMap, d: Direction, start: nat, ws: seq<Fmmu>, m: Progress, logAddr: nat, bitPos: nat)
    requires WellFormed(s) && Bits(s, d) >= 1
    requires Mapping(s, d, start, ws, m, logAddr, bitPos) && !MoreToMap(s, d, m)
    ensures ws != [] && IsPlacement(s, d, start, ws, 8 * logAddr + bitPos)
  {
    SizedBytes(s, d);
    assert ws != [];
    if Bytes(s, d) > 0 { WholePlacement(start, Bytes(s, d), m.done, 8 * logAddr + bitPos); }
  }

  lemma WholePlacement(start: nat, bytes: nat, done: nat, end: nat)
    requires bytes > 0 && done <= bytes && end == Aligned(start, bytes) + 8 * done
    ensures end % 8 == 0 && Aligned(start, bytes) <= end <= Aligned(start, bytes) + 8 * bytes
  {
    AlignedByte(start, bytes);
  }

  lemma MappingStart(s: SlaveMap, d: Direction, logAddr: nat, bitPos: nat)
    requires WellFormed(s) && bitPos <= 7
    ensures Mapping(s, d, 8 * logAddr + bitPos, [], Progress(0, 0, 0), logAddr, bitPos)
  {
  }

  function PieceSize(bytes: nat, byteCount: nat, done: nat): nat
    requires done <= bytes
  {
    if byteCount + done > bytes then bytes - done else byteCount
  }

  /** Progress of one window: sync managers and bytes, until all are done. */
  lemma ProgressNext(s: SlaveMap, d: Direction, m0: Progress, m: Progress, size: nat)
    requires WellFormed(s) && Bits(s, d) >= 1 && MoreToMap(s, d, m0) && m0.smc <= m.smc <= EC_MAXSM - 1
    requires 8 * m.byteCount >= Bits(s, d) || m.smc > m0.smc
    requires m0.byteCount >= SmTotal(s, d, m0.smc) && 8 * m.byteCount < Bits(s, d) ==>
             m.byteCount >= SmTotal(s, d, m.smc)
    requires m.done == m0.done + size
    requires if Bytes(s, d) == 0 then size >= 1
             else m0.done < Bytes(s, d) && size == PieceSize(Bytes(s, d), m.byteCount, m0.done)
                  && m0.done >= m0.byteCount && m0.byteCount >= SmTotal(s, d, m0.smc)
    ensures Bytes(s, d) > 0 ==> m.done == Bytes(s, d) || (m.done >= m.byteCount && m.byteCount >= SmTotal(s, d, m.smc))
    ensures m.smc > m0.smc || !MoreToMap(s, d, m)
  {
  }

  lemma MappingNext(s: SlaveMap, d: Direction, start: nat, ws: seq<Fmmu>, m0: Progress, logAddr0: nat, bitPos0: nat,
                    w: Fmmu, m: Progress, logAddr: nat, bitPos: nat)
    requires WellFormed(s) && Bits(s, d) >= 1
    requires Mapping(s, d, start, ws, m0, logAddr0, bitPos0) && MoreToMap(s, d, m0)
    requires m0.smc <= m.smc <= EC_MAXSM - 1 && m0.byteCount <= m.byteCount && bitPos <= 7
    requires 8 * m.byteCount >= Bits(s, d) || m.smc > m0.smc
    requires m0.byteCount >= SmTotal(s, d, m0.smc) && 8 * m.byteCount < Bits(s, d) ==>
             m.byteCount >= SmTotal(s, d, m.smc)
    requires FirstBit(w) == Aligned(8 * logAddr0 + bitPos0, Bytes(s, d)) && EndBit(w) == 8 * logAddr + bitPos
    requires m.done == m0.done + w.logLength
    requires (w.active <==> w.logLength > 0) && (w.active ==> w.fmmutype == FmmuType(d))
    requires if Bytes(s, d) == 0 then EndBit(w) == FirstBit(w) + Bits(s, d) && w.logLength >= 1
             else EndBit(w) == FirstBit(w) + 8 * w.logLength
                  && w.logLength == if m.byteCount + m0.done > Bytes(s, d) then Bytes(s, d) - m0.done else m.byteCount
    ensures Mapping(s, d, start, ws + [w], m, logAddr, bitPos)
    ensures m.smc > m0.smc || !MoreToMap(s, d, m)
  {
    assert Allocating(s, d, start, ws + [w], m.done, 8 * logAddr + bitPos) by {
      AllocateNext(s, d, start, ws, m0.done, 8 * logAddr0 + bitPos0, w, w.logLength, m.byteCount, 8 * logAddr + bitPos);
    }
    ProgressNext(s, d, m0, m, w.logLength);
    if Bytes(s, d) > 0 { PointOnByte(8 * logAddr0 + bitPos0, Bytes(s, d), w.logLength, logAddr, bitPos); }
  }

  // ----- the physical side of the windows

  /** Progress of a slave that maps whole bytes after one more window. The byte count is never reset
      between windows: it covers all address runs so far. */
  function After(s: SlaveMap, d: Direction, m: Progress): (r: Progress)
    requires |s.sms| == EC_MAXSM && m.smc <= EC_MAXSM - 1 && m.done <= Bytes(s, d)
    ensures m.smc <= r.smc <= EC_MAXSM - 1 && m.byteCount <= r.byteCount && m.done <= r.done <= Bytes(s, d)
  {
    var (n, count) := RunFrom(s, d, m.smc, m.byteCount);
    Progress(n, count, m.done + PieceSize(Bytes(s, d), count, m.done))
  }

  const START := Progress(0, 0, 0)

  /** Progress before window k. */
  function Before(s: SlaveMap, d: Direction, k: nat): (r: Progress)
    requires |s.sms| == EC_MAXSM
    ensures r.smc <= EC_MAXSM - 1 && r.done <= Bytes(s, d)
  {
    if k == 0 then START else After(s, d, Before(s, d, k - 1))
  }

  /** Bytes of the address run behind window k. */
  function Run(s: SlaveMap, d: Direction, k: nat): nat
    requires |s.sms| == EC_MAXSM
  {
    Before(s, d, k + 1).byteCount - Before(s, d, k).byteCount
  }

  /** Window k starts where its address run starts. */
  predicate WindowIs(s: SlaveMap, d: Direction, w: Fmmu, k: nat)
    requires |s.sms| == EC_MAXSM
  {
    && w.physStart == s.sms[NextSm(s, d, Before(s, d, k).smc)].start
    && w.logLength == Before(s, d, k + 1).done - Before(s, d, k).done
    && MoreToMap(s, d, Before(s, d, k))
  }

  predicate WindowsAre(s: SlaveMap, d: Direction, ws: seq<Fmmu>)
    requires |s.sms| == EC_MAXSM
  {
    forall k :: 0 <= k < |ws| ==> WindowIs(s, d, ws[k], k)
  }

  /** The windows so far, on the physical side. */
  ghost predicate Physical(s: SlaveMap, d: Direction, ws: seq<Fmmu>, m: Progress)
    requires |s.sms| == EC_MAXSM
  {
    StartsRight(s, d, ws, m) && WholeSoFar(s, d, ws, m)
  }

  /** The first window starts at the first sync manager of the direction. */
  ghost predicate StartsRight(s: SlaveMap, d: Direction, ws: seq<Fmmu>, m: Progress)
    requires |s.sms| == EC_MAXSM
  {
    if ws == [] then m.smc == 0 else ws[0].physStart == s.sms[NextSm(s, d, 0)].start
  }

  ghost predicate WholeSoFar(s: SlaveMap, d: Direction, ws: seq<Fmmu>, m: Progress)
    requires |s.sms| == EC_MAXSM
  {
    if Bytes(s, d) > 0 then m == Before(s, d, |ws|) && WindowsAre(s, d, ws) else |ws| <= 1
  }

  /** All windows of a direction: one for bits, else as the address runs come until nothing is left to map. */
  ghost predicate WindowsCut(s: SlaveMap, d: Direction, ws: seq<Fmmu>)
    requires |s.sms| == EC_MAXSM
  {
    if Bytes(s, d) > 0 then WindowsAre(s, d, ws) && !MoreToMap(s, d, Before(s, d, |ws|)) else |ws| == 1
  }

  lemma WindowsNext(s: SlaveMap, d: Direction, ws: seq<Fmmu>, w: Fmmu, m0: Progress, m: Progress)
    requires |s.sms| == EC_MAXSM && WindowsAre(s, d, ws) && m0 == Before(s, d, |ws|) && m == After(s, d, m0)
             && MoreToMap(s, d, m0)
    requires w.physStart == s.sms[NextSm(s, d, m0.smc)].start && w.logLength == m.done - m0.done
    ensures WindowsAre(s, d, ws + [w]) && m == Before(s, d, |ws| + 1)
  {
    forall k | 0 <= k < |ws| + 1
      ensures WindowIs(s, d, (ws + [w])[k], k)
    {
      if k == |ws| { assert m == Before(s, d, k + 1); } else { assert WindowIs(s, d, ws[k], k); }
    }
  }

  /** The sync managers of the next window, and that the run goes on or ends the mapping. */
  method NextRun(s: SlaveMap, d: Direction, m0: Progress) returns (smc: nat, byteCount: nat, physStart: nat)
    requires WellFormed(s) && MoreToMap(s, d, m0)
    ensures (smc, byteCount) == RunFrom(s, d, m0.smc, m0.byteCount) && physStart == s.sms[NextSm(s, d, m0.smc)].start
    ensures m0.smc <= smc <= EC_MAXSM - 1 && m0.byteCount <= byteCount && (8 * byteCount >= Bits(s, d) || smc > m0.smc)
    ensures m0.byteCount >= SmTotal(s, d, m0.smc) && 8 * byteCount < Bits(s, d) ==> byteCount >= SmTotal(s, d, smc)
  {
    smc, byteCount, physStart := ScanRun(s, d, m0.smc, m0.byteCount);
    RunMoves(s, d, m0.smc, m0.byteCount, (smc, byteCount));
    if m0.byteCount >= SmTotal(s, d, m0.smc) { RunCounts(s, d, m0.smc, m0.byteCount, (smc, byteCount)); }
  }

  /** A window is active, with the type of its direction, if it holds something. */
  function Typed(w: Fmmu, d: Direction, physStart: nat): Fmmu {
    var v := w.(physStart := physStart);
    if w.logLength != 0 then v.(fmmutype := FmmuType(d), active := true) else v
  }

  lemma AfterIs(s: SlaveMap, d: Direction, m0: Progress, m: Progress)
    requires |s.sms| == EC_MAXSM && m0.smc <= EC_MAXSM - 1 && m0.done <= Bytes(s, d)
    requires (m.smc, m.byteCount) == RunFrom(s, d, m0.smc, m0.byteCount)
    requires m.done == m0.done + PieceSize(Bytes(s, d), m.byteCount, m0.done)
    ensures m == After(s, d, m0)
  {
  }

  /** One window: collect its sync managers, place it. */
  method NextWindow(s: SlaveMap, d: Direction, ghost start: nat, ghost ws: seq<Fmmu>, m0: Progress, logAddr0: nat,
                    bitPos0: nat)
    returns (w: Fmmu, m: Progress, logAddr: nat, bitPos: nat)
    requires WellFormed(s) && Bits(s, d) >= 1
    requires Mapping(s, d, start, ws, m0, logAddr0, bitPos0) && MoreToMap(s, d, m0) && Physical(s, d, ws, m0)
    ensures Mapping(s, d, start, ws + [w], m, logAddr, bitPos) && Physical(s, d, ws + [w], m)
    ensures m.smc > m0.smc || (m.smc == m0.smc && !MoreToMap(s, d, m))
  {
    var smc, byteCount, physStart := NextRun(s, d, m0);
    var size;
    w, size, logAddr, bitPos := PlaceWindow(Bits(s, d), Bytes(s, d), byteCount, m0.done, logAddr0, bitPos0);
    w := Typed(w, d, physStart);
    m := Progress(smc, byteCount, m0.done + size);
    MappingNext(s, d, start, ws, m0, logAddr0, bitPos0, w, m, logAddr, bitPos);
    if Bytes(s, d) > 0 { AfterIs(s, d, m0, m); }
    OneForBits(s, d, start, ws, m0, logAddr0, bitPos0);
    PhysicalNext(s, d, ws, m0, w, m);
  }

  /** Bits get one window. */
  lemma OneForBits(s: SlaveMap, d: Direction, start: nat, ws: seq<Fmmu>, m: Progress, logAddr: nat, bitPos: nat)
    requires WellFormed(s) && Bits(s, d) >= 1 && Mapping(s, d, start, ws, m, logAddr, bitPos) && MoreToMap(s, d, m)
    ensures Bytes(s, d) == 0 ==> ws == []
  {
    SizedBytes(s, d);
  }

  lemma PhysicalNext(s: SlaveMap, d: Direction, ws: seq<Fmmu>, m0: Progress, w: Fmmu, m: Progress)
    requires WellFormed(s) && Physical(s, d, ws, m0) && MoreToMap(s, d, m0)
             && w.physStart == s.sms[NextSm(s, d, m0.smc)].start
    requires if Bytes(s, d) > 0 then m0.done <= Bytes(s, d) && m == After(s, d, m0) && w.logLength == m.done - m0.done
             else ws == []
    ensures Physical(s, d, ws + [w], m)
  {
    StartNext(s, d, ws, m0, w, m);
    assert WholeSoFar(s, d, ws + [w], m) by {
      if Bytes(s, d) > 0 { WindowsNext(s, d, ws, w, m0, m); }
    }
  }

  lemma StartNext(s: SlaveMap, d: Direction, ws: seq<Fmmu>, m0: Progress, w: Fmmu, m: Progress)
    requires |s.sms| == EC_MAXSM && m0.smc <= EC_MAXSM - 1 && StartsRight(s, d, ws, m0)
             && w.physStart == s.sms[NextSm(s, d, m0.smc)].start
    ensures StartsRight(s, d, ws + [w], m)
  {
    assert (ws + [w])[0] == if ws == [] then w else ws[0];
  }

  /** State of the window loop: the slave record holds the windows so far. */
  ghost predicate Looping(s: SlaveMap, d: Direction, start: nat, first: nat, base: nat, ws: seq<Fmmu>, m: Progress,
                          logAddr: nat, bitPos: nat, r: SlaveMap, fmmuc: nat, adds: bool)
    requires |s.sms| == EC_MAXSM && first <= |s.fmmu|
  {
    && fmmuc == first + |ws| && adds == SomeNonEmpty(ws)
    && Mapping(s, d, start, ws, m, logAddr, bitPos) && Physical(s, d, ws, m)
    && r == Mapped(s, d, first, ws, base).(fmmuUnused := s.fmmuUnused)
  }

  /** One round of the window loop. */
  method MapWindow(s: SlaveMap, d: Direction, ghost first: nat, base: nat, ghost start: nat, r0: SlaveMap, fmmuc: nat,
                   ws0: seq<Fmmu>, m0: Progress, logAddr0: nat, bitPos0: nat, adds0: bool)
    returns (r: SlaveMap, ws: seq<Fmmu>, m: Progress, logAddr: nat, bitPos: nat, adds: bool)
    requires WellFormed(s) && Bits(s, d) >= 1 && first <= |s.fmmu| && MoreToMap(s, d, m0)
    requires Looping(s, d, start, first, base, ws0, m0, logAddr0, bitPos0, r0, fmmuc, adds0)
    ensures Looping(s, d, start, first, base, ws, m, logAddr, bitPos, r, fmmuc + 1, adds)
    ensures m.smc > m0.smc || (m.smc == m0.smc && !MoreToMap(s, d, m))
  {
    var w;
    w, m, logAddr, bitPos := NextWindow(s, d, start, ws0, m0, logAddr0, bitPos0);
    r := StoreWindow(r0, d, fmmuc, w, base, s, first, ws0);
    NonEmptyNext(ws0, w);
    ws, adds := ws0 + [w], adds0;
    if w.logLength != 0 {
      adds := true;
    }
  }

  /** The loop over the windows of one direction of one slave. */
  method MapWindows(s: SlaveMap, d: Direction, first: nat, base: nat, logAddr0: nat, bitPos0: nat)
    returns (r: SlaveMap, fmmuc: nat, ws: seq<Fmmu>, logAddr: nat, bitPos: nat, addsToWkc: bool, m: Progress)
    requires WellFormed(s) && Bits(s, d) >= 1 && bitPos0 <= 7 && first <= |s.fmmu|
    ensures Looping(s, d, 8 * logAddr0 + bitPos0, first, base, ws, m, logAddr, bitPos, r, fmmuc, addsToWkc)
            && !MoreToMap(s, d, m)
  {
    logAddr, bitPos, addsToWkc, r, ws, fmmuc, m := logAddr0, bitPos0, false, s, [], first, START;
    ghost var start := 8 * logAddr0 + bitPos0;
    LoopStart(s, d, first, base, logAddr, bitPos);
    while MoreToMap(s, d, m)
      invariant Looping(s, d, start, first, base, ws, m, logAddr, bitPos, r, fmmuc, addsToWkc)
      decreases EC_MAXSM - m.smc, MoreToMap(s, d, m)
    {
      r, ws, m, logAddr, bitPos, addsToWkc :=
        MapWindow(s, d, first, base, start, r, fmmuc, ws, m, logAddr, bitPos, addsToWkc);
      fmmuc := fmmuc + 1;
    }
  }

  lemma LoopStart(s: SlaveMap, d: Direction, first: nat, base: nat, logAddr: nat, bitPos: nat)
    requires WellFormed(s) && bitPos <= 7 && first <= |s.fmmu|
    ensures Looping(s, d, 8 * logAddr + bitPos, first, base, [], START, logAddr, bitPos, s, first, false)
  {
    assert WithWindows(s.fmmu, first, []) == s.fmmu;
    MappingStart(s, d, logAddr, bitPos);
  }

  lemma LoopEnds(s: SlaveMap, d: Direction, start: nat, first: nat, base: nat, ws: seq<Fmmu>, m: Progress, logAddr: nat,
                 bitPos: nat, r: SlaveMap, fmmuc: nat, adds: bool)
    requires WellFormed(s) && Bits(s, d) >= 1 && first <= |s.fmmu|
    requires Looping(s, d, start, first, base, ws, m, logAddr, bitPos, r, fmmuc, adds) && !MoreToMap(s, d, m)
    ensures bitPos <= 7 && ws != [] && IsPlacement(s, d, start, ws, 8 * logAddr + bitPos)
    ensures r.(fmmuUnused := fmmuc) == Mapped(s, d, first, ws, base) && adds == SomeNonEmpty(ws)
    ensures ws[0].physStart == s.sms[NextSm(s, d, 0)].start
    ensures WindowsCut(s, d, ws)
  {
    MappingDone(s, d, start, ws, m, logAddr, bitPos);
  }

  // ----- how many windows

  /** Every window moves on to a later sync manager, or is the last. */
  lemma AfterMoves(s: SlaveMap, d: Direction, m: Progress)
    requires |s.sms| == EC_MAXSM && m.done <= Bytes(s, d) && Bytes(s, d) > 0 && Sized(s, d) && MoreToMap(s, d, m)
    ensures After(s, d, m).smc > m.smc || !MoreToMap(s, d, After(s, d, m))
  {
    RunMoves(s, d, m.smc, m.byteCount, RunFrom(s, d, m.smc, m.byteCount));
  }

  /** Windows that follow the progress m. */
  function WindowsLeft(s: SlaveMap, d: Direction, m: Progress): nat
    requires |s.sms| == EC_MAXSM && m.smc <= EC_MAXSM - 1 && m.done <= Bytes(s, d) && Bytes(s, d) > 0 && Sized(s, d)
    decreases EC_MAXSM - m.smc, MoreToMap(s, d, m)
  {
    if !MoreToMap(s, d, m) then 0
    else
      AfterMoves(s, d, m);
      1 + WindowsLeft(s, d, After(s, d, m))
  }

  /** Windows of a direction: one for bits, else as many as the address runs need. */
  function WindowCount(s: SlaveMap, d: Direction): nat
    requires |s.sms| == EC_MAXSM && Sized(s, d)
  {
    if Bits(s, d) == 0 then 0 else if Bytes(s, d) == 0 then 1 else WindowsLeft(s, d, START)
  }

  predicate IsCount(s: SlaveMap, d: Direction, n: nat) {
    |s.sms| == EC_MAXSM && Sized(s, d) && n == WindowCount(s, d)
  }

  /** The windows are as many as the mapping makes. */
  ghost predicate AllWindows(s: SlaveMap, d: Direction, ws: seq<Fmmu>) {
    forall n: nat {:trigger IsCount(s, d, n)} :: IsCount(s, d, n) <==> n == |ws|
  }

  lemma LeftStep(s: SlaveMap, d: Direction, m: Progress, next: Progress)
    requires |s.sms| == EC_MAXSM && m.done <= Bytes(s, d) && Bytes(s, d) > 0 && Sized(s, d)
    requires MoreToMap(s, d, m) && next == After(s, d, m)
    ensures WindowsLeft(s, d, m) == 1 + WindowsLeft(s, d, next)
  {
  }

  lemma CutStep(s: SlaveMap, d: Direction, ws: seq<Fmmu>, k: nat, m: Progress, next: Progress)
    requires |s.sms| == EC_MAXSM && WindowsAre(s, d, ws) && k < |ws| && m == Before(s, d, k)
             && next == Before(s, d, k + 1)
    ensures MoreToMap(s, d, m) && next == After(s, d, m)
  {
    assert WindowIs(s, d, ws[k], k);
  }

  lemma {:induction false} CutLeft(s: SlaveMap, d: Direction, ws: seq<Fmmu>, k: nat, m: Progress)
    requires |s.sms| == EC_MAXSM && Sized(s, d) && Bytes(s, d) > 0 && WindowsCut(s, d, ws) && k <= |ws|
             && m == Before(s, d, k)
    ensures WindowsLeft(s, d, m) == |ws| - k
    decreases |ws| - k
  {
    if k < |ws| {
      var next := Before(s, d, k + 1);
      CutLeft(s, d, ws, k + 1, next);
      CutStep(s, d, ws, k, m, next);
      LeftStep(s, d, m, next);
    }
  }

  /** The loop makes exactly these windows. */
  lemma CutCount(s: SlaveMap, d: Direction, ws: seq<Fmmu>)
    requires WellFormed(s) && Bits(s, d) >= 1 && WindowsCut(s, d, ws)
    ensures AllWindows(s, d, ws)
  {
    if Bytes(s, d) > 0 { CutLeft(s, d, ws, 0, START); }
  }

  /** Map one direction of one slave. The allocation point is a byte address and a bit position;
      `group` and `logstart` only place the slave's pointer into the process image. */
  method CreateMapping(s: SlaveMap, d: Direction, group: nat, logstart: nat, logAddr0: nat, bitPos0: nat)
    returns (r: SlaveMap, first: nat, ws: seq<Fmmu>, logAddr: nat, bitPos: nat, addsToWkc: bool)
    requires WellFormed(s) && Bits(s, d) >= 1 && bitPos0 <= 7
    ensures bitPos <= 7 && s.fmmuUnused <= first <= |s.fmmu| && ws != []
    ensures d.Output? || s.obits == 0 ==> first == s.fmmuUnused
    ensures r == Mapped(s, d, first, ws, if group != 0 then logstart else 0)
    ensures IsPlacement(s, d, 8 * logAddr0 + bitPos0, ws, 8 * logAddr + bitPos)
    ensures Pointer(s, d).None? ==>
              PointsTo(r, d, Aligned(8 * logAddr0 + bitPos0, Bytes(s, d)) - 8 * if group != 0 then logstart else 0)
    ensures addsToWkc == SomeNonEmpty(ws)
    ensures ws[0].physStart == s.sms[NextSm(s, d, 0)].start
    ensures WindowsCut(s, d, ws)
  {
    first := FreeFmmu(s, d);
    var fmmuc, base, m := first, if group != 0 then logstart else 0, START;
    r, fmmuc, ws, logAddr, bitPos, addsToWkc, m := MapWindows(s, d, first, base, logAddr0, bitPos0);
    LoopEnds(s, d, 8 * logAddr0 + bitPos0, first, base, ws, m, logAddr, bitPos, r, fmmuc, addsToWkc);
    r := r.(fmmuUnused := fmmuc);
    PlacedFirst(s, d, first, ws, base, 8 * logAddr0 + bitPos0, 8 * logAddr + bitPos);
  }

  /** Lengths of the first n address runs. */
  function Runs(s: SlaveMap, d: Direction, n: nat): (r: seq<nat>)
    requires |s.sms| == EC_MAXSM
    ensures |r| == n
  {
    if n == 0 then [] else Runs(s, d, n - 1) + [Run(s, d, n - 1)]
  }

  /** No window reaches behind its address run. */
  predicate AllFit(ws: seq<Fmmu>, runs: seq<nat>)
    requires |ws| == |runs|
  {
    forall k :: 0 <= k < |ws| ==> ws[k].logLength <= runs[k]
  }

  /** The first run that is not empty; the number of runs if there is none. */
  function FirstRun(runs: seq<nat>): (j: nat)
    ensures j <= |runs| && (j < |runs| ==> runs[j] > 0) && forall k :: 0 <= k < j ==> runs[k] == 0
  {
    if runs == [] || runs[0] > 0 then 0
    else
      var j := FirstRun(runs[1..]);
      assert forall k :: 1 <= k < j + 1 ==> runs[k] == runs[1..][k - 1];
      j + 1
  }

  /** One window more: the count never shrinks, and the window is as long as the whole count or what is missing. */
  predicate IsStep(m: Progress, next: Progress, bytes: nat) {
    m.byteCount <= next.byteCount && m.done <= bytes && next.done == m.done + PieceSize(bytes, next.byteCount, m.done)
  }

  /** Window k is one step, and there was something to map. */
  predicate StepAt(ms: seq<Progress>, ws: seq<Fmmu>, runs: seq<nat>, bytes: nat, k: nat)
    requires k < |ws| && k + 1 < |ms| && k < |runs|
  {
    && IsStep(ms[k], ms[k + 1], bytes) && ms[k].done < bytes
    && ws[k].logLength == ms[k + 1].done - ms[k].done && runs[k] == ms[k + 1].byteCount - ms[k].byteCount
  }

  predicate StepsTo(ms: seq<Progress>, ws: seq<Fmmu>, runs: seq<nat>, bytes: nat, n: nat)
    requires n <= |ws| && n + 1 <= |ms| && n <= |runs|
  {
    forall k :: 0 <= k < n ==> StepAt(ms, ws, runs, bytes, k)
  }

  /** The progress over the windows `ws` of a slave, until all its bytes are mapped. */
  predicate IsWhole(ms: seq<Progress>, ws: seq<Fmmu>, runs: seq<nat>, bytes: nat) {
    && |ms| == |ws| + 1 == |runs| + 1 && ms[0].byteCount == 0 && ms[0].done == 0 && ms[|ws|].done == bytes
    && StepsTo(ms, ws, runs, bytes, |ws|)
  }

  /** Before the first run that is not empty, nothing is counted. */
  lemma {:induction false} NothingBefore(ms: seq<Progress>, ws: seq<Fmmu>, runs: seq<nat>, bytes: nat, k: nat)
    requires IsWhole(ms, ws, runs, bytes) && k <= FirstRun(runs)
    ensures ms[k].byteCount == 0 && ms[k].done == 0
    ensures k < FirstRun(runs) ==> ws[k].logLength == 0
  {
    if k > 0 { NothingBefore(ms, ws, runs, bytes, k - 1); }
    if k > 0 { assert StepAt(ms, ws, runs, bytes, k - 1); }
    if k < FirstRun(runs) { assert StepAt(ms, ws, runs, bytes, k); }
  }

  /** The windows fit when the first run that is not empty and the next one hold all bytes; else the
      window behind the former is too long. */
  lemma FitTwoRuns(ms: seq<Progress>, ws: seq<Fmmu>, runs: seq<nat>, bytes: nat)
    requires IsWhole(ms, ws, runs, bytes) && bytes > 0
    ensures var j := FirstRun(runs);
      j < |ws| && (AllFit(ws, runs) <==> runs[j] + (if j + 1 < |ws| then runs[j + 1] else 0) >= bytes)
  {
    var n, j := |ws|, FirstRun(runs);
    NothingBefore(ms, ws, runs, bytes, j);
    assert j < n;
    assert StepAt(ms, ws, runs, bytes, j);
    if j + 1 < n {
      assert StepAt(ms, ws, runs, bytes, j + 1);
      if j + 2 < n { assert StepAt(ms, ws, runs, bytes, j + 2); }
      if runs[j] + runs[j + 1] < bytes { assert ws[j + 1].logLength > runs[j + 1]; }
    }
    forall k | 0 <= k < j
      ensures ws[k].logLength == 0
    {
      NothingBefore(ms, ws, runs, bytes, k);
    }
  }

  /** What is counted covers the sync managers passed, until all bytes are done. */
  predicate Counted(s: SlaveMap, d: Direction, m: Progress)
    requires |s.sms| == EC_MAXSM && m.smc <= EC_MAXSM - 1
  {
    m.done == Bytes(s, d) || (m.done >= m.byteCount && m.byteCount >= SmTotal(s, d, m.smc))
  }

  lemma CountedNext(s: SlaveMap, d: Direction, m: Progress, next: Progress)
    requires WellFormed(s) && Bytes(s, d) > 0 && m.smc <= EC_MAXSM - 1 && m.done <= Bytes(s, d)
    requires Counted(s, d, m) && MoreToMap(s, d, m) && next == After(s, d, m)
    ensures Counted(s, d, next) && IsStep(m, next, Bytes(s, d))
  {
    RunCounts(s, d, m.smc, m.byteCount, (next.smc, next.byteCount));
  }

  lemma {:induction false} CountedBefore(s: SlaveMap, d: Direction, ws: seq<Fmmu>, k: nat)
    requires WellFormed(s) && Bytes(s, d) > 0 && WindowsAre(s, d, ws) && k <= |ws|
    ensures Counted(s, d, Before(s, d, k))
    ensures k > 0 ==> IsStep(Before(s, d, k - 1), Before(s, d, k), Bytes(s, d))
  {
    if k > 0 {
      CountedBefore(s, d, ws, k - 1);
      assert WindowIs(s, d, ws[k - 1], k - 1);
      CountedNext(s, d, Before(s, d, k - 1), Before(s, d, k));
    }
  }

  /** One window. */
  lemma StepBefore(s: SlaveMap, d: Direction, ws: seq<Fmmu>, k: nat)
    requires WellFormed(s) && Bytes(s, d) > 0 && WindowsAre(s, d, ws) && k < |ws|
    ensures IsStep(Before(s, d, k), Before(s, d, k + 1), Bytes(s, d)) && Before(s, d, k).done < Bytes(s, d)
    ensures ws[k].logLength == Before(s, d, k + 1).done - Before(s, d, k).done
  {
    CountedBefore(s, d, ws, k + 1);
    assert WindowIs(s, d, ws[k], k);
  }

  lemma StepsNext(ms: seq<Progress>, ws: seq<Fmmu>, runs: seq<nat>, bytes: nat, n: nat, m: Progress, run: nat)
    requires n < |ws| && |ms| == n + 1 && |runs| == n && StepsTo(ms, ws, runs, bytes, n)
    requires IsStep(ms[n], m, bytes) && ms[n].done < bytes && ws[n].logLength == m.done - ms[n].done
             && run == m.byteCount - ms[n].byteCount
    ensures StepsTo(ms + [m], ws, runs + [run], bytes, n + 1)
  {
    var ms', runs' := ms + [m], runs + [run];
    forall k | 0 <= k < n + 1
      ensures StepAt(ms', ws, runs', bytes, k)
    {
      if k < n { assert StepAt(ms, ws, runs, bytes, k); }
    }
  }

  lemma WholeMore(s: SlaveMap, d: Direction, ws: seq<Fmmu>, n: nat, ms: seq<Progress>, runs: seq<nat>, m: Progress,
                  run: nat)
    requires WellFormed(s) && Bytes(s, d) > 0 && WindowsAre(s, d, ws) && n < |ws| && |ms| == n + 1 && |runs| == n
    requires ms[n] == Before(s, d, n) && m == Before(s, d, n + 1) && run == Run(s, d, n)
             && StepsTo(ms, ws, runs, Bytes(s, d), n)
    ensures StepsTo(ms + [m], ws, runs + [run], Bytes(s, d), n + 1)
  {
    StepBefore(s, d, ws, n);
    StepsNext(ms, ws, runs, Bytes(s, d), n, m, run);
  }

  lemma {:induction false} WholeUpTo(s: SlaveMap, d: Direction, ws: seq<Fmmu>, n: nat)
    returns (ms: seq<Progress>, runs: seq<nat>)
    requires WellFormed(s) && Bytes(s, d) > 0 && WindowsAre(s, d, ws) && n <= |ws|
    ensures |ms| == n + 1 && ms[0] == START && ms[n] == Before(s, d, n)
    ensures runs == Runs(s, d, n) && StepsTo(ms, ws, runs, Bytes(s, d), n)
  {
    if n == 0 {
      ms, runs := [START], [];
    } else {
      ms, runs := WholeUpTo(s, d, ws, n - 1);
      var m, run := Before(s, d, n), Run(s, d, n - 1);
      WholeMore(s, d, ws, n - 1, ms, runs, m, run);
      ms, runs := ms + [m], runs + [run];
    }
  }

  lemma LastCounted(s: SlaveMap, d: Direction, ws: seq<Fmmu>)
    requires WellFormed(s) && Bytes(s, d) > 0 && Covered(s, d) && WindowsCut(s, d, ws)
    ensures Before(s, d, |ws|).done == Bytes(s, d)
  {
    CountedBefore(s, d, ws, |ws|);
  }

  /** When the sync managers cover the slave, its windows stay inside their address runs if and only if the
      first run that is not empty and the one behind it hold all its bytes: with a third one, the uncleared
      byte count has made the second window too long. */
  lemma WindowsFitTwoRuns(s: SlaveMap, d: Direction, ws: seq<Fmmu>)
    requires WellFormed(s) && Bytes(s, d) > 0 && Covered(s, d) && WindowsCut(s, d, ws)
    ensures var runs, j := Runs(s, d, |ws|), FirstRun(Runs(s, d, |ws|));
      j < |ws| && (AllFit(ws, runs) <==> runs[j] + (if j + 1 < |ws| then runs[j + 1] else 0) >= Bytes(s, d))
  {
    LastCounted(s, d, ws);
    var ms, runs := WholeUpTo(s, d, ws, |ws|);
    FitTwoRuns(ms, ws, runs, Bytes(s, d));
  }
}
