/** How many FMMU windows a slave gets, and whether the four entries of its table hold them. */
module FmmuTable {
  import opened Basics
  import opened FmmuMapping
  import opened Segments
  import opened IoMap

  const EC_MAXFMMU := 4

  /** Bytes that windows over these address runs hold: each is as long as all runs so far together. */
  function Held(runs: seq<nat>): nat {
    if runs == [] then 0 else Held(runs[..|runs| - 1]) + Sum(runs)
  }

  lemma HeldNext(runs: seq<nat>, run: nat)
    ensures Sum(runs + [run]) == Sum(runs) + run && Held(runs + [run]) == Held(runs) + Sum(runs) + run
  {
    assert Sum([run]) == run by { assert [run][1..] == []; }
    SumAppend(runs, [run]);
    assert (runs + [run])[..|runs|] == runs;
  }

  /** One window more, over one address run more. */
  ghost predicate WalkAt(at: nat -> Progress, runs: nat -> seq<nat>, bytes: nat, k: nat) {
    IsStep(at(k), at(k + 1), bytes) && runs(k + 1) == runs(k) + [at(k + 1).byteCount - at(k).byteCount]
  }

  ghost predicate Walk(at: nat -> Progress, runs: nat -> seq<nat>, bytes: nat) {
    at(0) == START && runs(0) == [] && forall k: nat :: WalkAt(at, runs, bytes, k)
  }

  lemma RunsNext(s: SlaveMap, d: Direction, k: nat, count: nat, count': nat)
    requires |s.sms| == EC_MAXSM && count == Before(s, d, k).byteCount <= count' == Before(s, d, k + 1).byteCount
    ensures Runs(s, d, k + 1) == Runs(s, d, k) + [count' - count]
  {
  }

  lemma AfterIsStep(s: SlaveMap, d: Direction, m: Progress, next: Progress)
    requires |s.sms| == EC_MAXSM && m.smc <= EC_MAXSM - 1 && m.done <= Bytes(s, d) && next == After(s, d, m)
    ensures IsStep(m, next, Bytes(s, d))
  {
  }

  lemma WindowWalks(s: SlaveMap, d: Direction, k: nat, m: Progress, next: Progress, runs: seq<nat>, runs': seq<nat>)
    requires |s.sms| == EC_MAXSM && m == Before(s, d, k) && next == Before(s, d, k + 1)
    requires runs == Runs(s, d, k) && runs' == Runs(s, d, k + 1)
    ensures IsStep(m, next, Bytes(s, d)) && runs' == runs + [next.byteCount - m.byteCount]
  {
    assert next == After(s, d, m);
    AfterIsStep(s, d, m, next);
    RunsNext(s, d, k, m.byteCount, next.byteCount);
  }

  lemma MappingWalks(s: SlaveMap, d: Direction)
    requires |s.sms| == EC_MAXSM
    ensures Walk((k: nat) => Before(s, d, k), (k: nat) => Runs(s, d, k), Bytes(s, d))
  {
    var at, runs := (k: nat) => Before(s, d, k), (k: nat) => Runs(s, d, k);
    forall k: nat
      ensures WalkAt(at, runs, Bytes(s, d), k)
    {
      WindowWalks(s, d, k, at(k), at(k + 1), runs(k), runs(k + 1));
    }
  }

  lemma WalkStep(m: Progress, next: Progress, bytes: nat, runs: seq<nat>)
    requires m.byteCount == Sum(runs) && m.done == Min(bytes, Held(runs)) && IsStep(m, next, bytes)
    ensures var runs' := runs + [next.byteCount - m.byteCount];
      next.byteCount == Sum(runs') && next.done == Min(bytes, Held(runs')) && Held(runs) <= Held(runs')
  {
    HeldNext(runs, next.byteCount - m.byteCount);
  }

  /** The byte count before window k is that of all runs so far, and the bytes mapped are what these hold. */
  lemma {:induction false} DoneIsHeld(at: nat -> Progress, runs: nat -> seq<nat>, bytes: nat, k: nat)
    requires Walk(at, runs, bytes)
    ensures at(k).byteCount == Sum(runs(k)) && at(k).done == Min(bytes, Held(runs(k)))
  {
    if k > 0 {
      assert WalkAt(at, runs, bytes, k - 1);
      DoneIsHeld(at, runs, bytes, k - 1);
      WalkStep(at(k - 1), at(k), bytes, runs(k - 1));
    }
  }

  lemma {:induction false} HeldGrows(at: nat -> Progress, runs: nat -> seq<nat>, bytes: nat, k: nat, n: nat)
    requires Walk(at, runs, bytes) && k <= n
    ensures Held(runs(k)) <= Held(runs(n))
    decreases n
  {
    if k < n {
      HeldGrows(at, runs, bytes, k, n - 1);
      assert WalkAt(at, runs, bytes, n - 1);
      DoneIsHeld(at, runs, bytes, n - 1);
      WalkStep(at(n - 1), at(n), bytes, runs(n - 1));
    }
  }

  /** The same of a slave. */
  lemma MappedHeld(s: SlaveMap, d: Direction, k: nat, n: nat)
    requires |s.sms| == EC_MAXSM
    ensures Before(s, d, k).done == Min(Bytes(s, d), Held(Runs(s, d, k)))
    ensures k <= n ==> Held(Runs(s, d, k)) <= Held(Runs(s, d, n))
  {
    var at, runs := (k: nat) => Before(s, d, k), (k: nat) => Runs(s, d, k);
    MappingWalks(s, d);
    DoneIsHeld(at, runs, Bytes(s, d), k);
    assert at(k) == Before(s, d, k) && runs(k) == Runs(s, d, k) && runs(n) == Runs(s, d, n);
    if k <= n { HeldGrows(at, runs, Bytes(s, d), k, n); }
  }

  /** Before window k of a slave of whole bytes. */
  lemma {:induction false} CountedWindow(s: SlaveMap, d: Direction, k: nat, m: Progress)
    requires WellFormed(s) && Bytes(s, d) > 0 && k <= WindowCount(s, d) && m == Before(s, d, k)
    ensures Counted(s, d, m) && WindowsLeft(s, d, m) == WindowCount(s, d) - k
  {
    if k > 0 {
      var prev := Before(s, d, k - 1);
      CountedWindow(s, d, k - 1, prev);
      LeftStep(s, d, prev, m);
      CountedNext(s, d, prev, m);
    }
  }

  lemma CountedEnds(s: SlaveMap, d: Direction, m: Progress)
    requires WellFormed(s) && Bytes(s, d) > 0 && Covered(s, d) && m.smc <= EC_MAXSM - 1 && m.done <= Bytes(s, d)
             && Counted(s, d, m)
    ensures m.done == Bytes(s, d) <==> !MoreToMap(s, d, m)
  {
    SizedBytes(s, d);
  }

  /** A covered slave of whole bytes needs exactly as many windows as hold its bytes, each of them as long as all
      address runs up to it. */
  lemma WindowsExact(s: SlaveMap, d: Direction, k: nat)
    requires WellFormed(s) && Bytes(s, d) > 0 && Covered(s, d)
    ensures WindowCount(s, d) <= k <==> Held(Runs(s, d, k)) >= Bytes(s, d)
  {
    var n := WindowCount(s, d);
    CountedWindow(s, d, n, Before(s, d, n));
    CountedEnds(s, d, Before(s, d, n));
    MappedHeld(s, d, n, k);
    if k < n {
      CountedWindow(s, d, k, Before(s, d, k));
      CountedEnds(s, d, Before(s, d, k));
      MappedHeld(s, d, k, k);
    }
  }

  /** k entries are enough for the windows of one direction. */
  predicate Enough(s: SlaveMap, d: Direction, k: nat)
    requires |s.sms| == EC_MAXSM
  {
    Bits(s, d) == 0 || if Bytes(s, d) == 0 then k >= 1 else Held(Runs(s, d, k)) >= Bytes(s, d)
  }

  lemma EnoughIff(s: SlaveMap, d: Direction, k: nat)
    requires WellFormed(s) && Covered(s, d)
    ensures WindowCount(s, d) <= k <==> Enough(s, d, k)
  {
    if Bytes(s, d) > 0 { WindowsExact(s, d, k); }
  }

  // ----- the table of a slave

  /** Records that differ in nothing that the windows of a direction depend on. */
  predicate SameDemand(s: SlaveMap, r: SlaveMap, d: Direction) {
    s.sms == r.sms && Bits(s, d) == Bits(r, d) && Bytes(s, d) == Bytes(r, d)
  }

  lemma {:induction false} SameNextSm(s: SlaveMap, r: SlaveMap, d: Direction, smc: nat)
    requires |s.sms| == EC_MAXSM && SameDemand(s, r, d) && smc <= EC_MAXSM - 1
    ensures NextSm(s, d, smc) == NextSm(r, d, smc)
    decreases EC_MAXSM - smc
  {
    if smc < EC_MAXSM - 1 { SameNextSm(s, r, d, smc + 1); }
  }

  lemma {:induction false} SameRunOn(s: SlaveMap, r: SlaveMap, d: Direction, smc: nat, byteCount: nat, x: (nat, nat))
    requires |s.sms| == EC_MAXSM && SameDemand(s, r, d) && smc <= EC_MAXSM - 1 && x == RunOn(s, d, smc, byteCount)
    ensures x == RunOn(r, d, smc, byteCount)
    decreases EC_MAXSM - smc
  {
    if 8 * byteCount >= Bits(s, d) || smc == EC_MAXSM - 1 {
      RunOnEnds(s, d, smc, byteCount);
      RunOnEnds(r, d, smc, byteCount);
    } else {
      var n := NextSm(s, d, smc + 1);
      SameNextSm(s, r, d, smc + 1);
      RunOnNext(s, d, smc, byteCount, n);
      RunOnNext(r, d, smc, byteCount, n);
      if s.sms[n].start <= EndAddr(s.sms[smc]) { SameRunOn(s, r, d, n, byteCount + s.sms[n].length, x); }
    }
  }

  lemma SameRunFrom(s: SlaveMap, r: SlaveMap, d: Direction, smc: nat, byteCount: nat, x: (nat, nat))
    requires |s.sms| == EC_MAXSM && SameDemand(s, r, d) && smc <= EC_MAXSM - 1 && x == RunFrom(s, d, smc, byteCount)
    ensures x == RunFrom(r, d, smc, byteCount)
  {
    SameNextSm(s, r, d, smc);
    var first := NextSm(s, d, smc);
    SameRunOn(s, r, d, first, byteCount + s.sms[first].length, x);
  }

  lemma SameAfter(s: SlaveMap, r: SlaveMap, d: Direction, m: Progress, next: Progress)
    requires |s.sms| == EC_MAXSM && SameDemand(s, r, d) && m.smc <= EC_MAXSM - 1 && m.done <= Bytes(s, d)
             && next == After(s, d, m)
    ensures next == After(r, d, m)
  {
    SameRunFrom(s, r, d, m.smc, m.byteCount, (next.smc, next.byteCount));
    AfterIs(r, d, m, next);
  }

  lemma {:induction false} SameLeft(s: SlaveMap, r: SlaveMap, d: Direction, m: Progress)
    requires |s.sms| == EC_MAXSM && SameDemand(s, r, d) && Sized(s, d) && Bytes(s, d) > 0
    requires m.smc <= EC_MAXSM - 1 && m.done <= Bytes(s, d)
    ensures WindowsLeft(s, d, m) == WindowsLeft(r, d, m)
    decreases EC_MAXSM - m.smc, MoreToMap(s, d, m)
  {
    if MoreToMap(s, d, m) {
      var next := After(s, d, m);
      SameAfter(s, r, d, m, next);
      AfterMoves(s, d, m);
      SameLeft(s, r, d, next);
      LeftStep(s, d, m, next);
      LeftStep(r, d, m, next);
    }
  }

  /** The windows of one direction do not change the number of those of the other. */
  lemma SameCount(s: SlaveMap, r: SlaveMap, d: Direction)
    requires |s.sms| == EC_MAXSM && SameDemand(s, r, d) && Sized(s, d)
    ensures WindowCount(s, d) == WindowCount(r, d)
  {
    if Bytes(s, d) > 0 { SameLeft(s, r, d, START); }
  }

  lemma DoneCount(s: SlaveMap, r: SlaveMap, group: nat, d: Direction, base: nat, from: nat, to: nat, ws: seq<Fmmu>)
    requires InGroup(s, group) && WellFormed(s) && SlaveDone(s, r, group, d, base, from, to, ws)
    ensures |ws| == WindowCount(s, d)
  {
    assert IsCount(s, d, WindowCount(s, d));
  }

  /** Windows are entered behind those of the table. */
  lemma EnteredBehind(s: SlaveMap, r: SlaveMap, group: nat, d: Direction, base: nat, from: nat, to: nat, ws: seq<Fmmu>)
    requires s.fmmuUnused == |s.fmmu| && SlaveDone(s, r, group, d, base, from, to, ws)
    ensures r.fmmu == s.fmmu + ws && r.fmmuUnused == |r.fmmu|
    ensures r == s.(fmmu := r.fmmu, fmmuUnused := r.fmmuUnused, outputs := r.outputs, ostartbit := r.ostartbit,
                    inputs := r.inputs, istartbit := r.istartbit)
  {
    if Takes(s, group, d) {
      var first: nat :| s.fmmuUnused <= first <= |s.fmmu| && r == Mapped(s, d, first, ws, base);
      assert WithWindows(s.fmmu, first, ws) == s.fmmu + ws;
    }
  }

  /** Both directions of a slave with an empty table: its windows are in the table, and nothing else. */
  lemma TableSize(s: SlaveMap, mid: SlaveMap, r: SlaveMap, group: nat, base: nat, a: nat, b: nat, ws: seq<Fmmu>,
                  a': nat, b': nat, ws': seq<Fmmu>)
    requires InGroup(s, group) && WellFormed(s) && s.fmmu == [] && s.fmmuUnused == 0
    requires SlaveDone(s, mid, group, Output, base, a, b, ws) && SlaveDone(mid, r, group, Input, base, a', b', ws')
    ensures r.fmmu == ws + ws' && |r.fmmu| == WindowCount(s, Output) + WindowCount(s, Input)
  {
    EnteredBehind(s, mid, group, Output, base, a, b, ws);
    EnteredBehind(mid, r, group, Input, base, a', b', ws');
    assert |ws| == WindowCount(s, Output) by { DoneCount(s, mid, group, Output, base, a, b, ws); }
    assert |ws'| == WindowCount(s, Input) by {
      DoneCount(mid, r, group, Input, base, a', b', ws');
      SameCount(s, mid, Input);
    }
  }

  /** The windows of slave k of a mapped group fit its table of four entries if and only if these can be shared out
      so that both directions have enough. */
  lemma TableHoldsIff(was: seq<SlaveMap>, now: seq<SlaveMap>, group: nat, logstart: nat, base: nat, p: Plan, k: nat)
    requires IsPlan(was, now, group, logstart, base, p) && 1 <= k < |was| && InGroup(was[k], group)
             && WellFormed(was[k])
    requires was[k].fmmu == [] && was[k].fmmuUnused == 0 && Covered(was[k], Output) && Covered(was[k], Input)
    ensures |now[k].fmmu| <= EC_MAXFMMU <==>
              exists n :: 0 <= n <= EC_MAXFMMU && Enough(was[k], Output, n) && Enough(was[k], Input, EC_MAXFMMU - n)
  {
    assert LaidAt(was, p.mid, group, Output, base, p.lo, k) && LaidAt(p.mid, now, group, Input, base, p.li, k);
    TableSize(was[k], p.mid[k], now[k], group, base, p.lo.pts[k - 1], p.lo.pts[k], p.lo.ws[k], p.li.pts[k - 1],
              p.li.pts[k], p.li.ws[k]);
    SharedIff(was[k]);
  }

  /** The same in an overlapped map. */
  lemma OverlapTableHoldsIff(was: seq<SlaveMap>, mid: seq<SlaveMap>, now: seq<SlaveMap>, group: nat, base: nat,
                             o: seq<Half>, i: seq<Half>, n: nat, k: nat)
    requires Overlaid(was, mid, now, group, base, o, i, n) && 1 <= k <= n && InGroup(was[k], group)
             && WellFormed(was[k])
    requires was[k].fmmu == [] && was[k].fmmuUnused == 0 && Covered(was[k], Output) && Covered(was[k], Input)
    ensures |now[k].fmmu| <= EC_MAXFMMU <==>
              exists n :: 0 <= n <= EC_MAXFMMU && Enough(was[k], Output, n) && Enough(was[k], Input, EC_MAXFMMU - n)
  {
    assert OverlaidAt(was, mid, now, group, base, o, i, k);
    var from := 8 * Reach(o, i, k - 1);
    TableSize(was[k], mid[k], now[k], group, base, from, o[k].end, o[k].ws, from, i[k].end, i[k].ws);
    SharedIff(was[k]);
  }

  lemma SharedIff(s: SlaveMap)
    requires WellFormed(s) && Covered(s, Output) && Covered(s, Input)
    ensures WindowCount(s, Output) + WindowCount(s, Input) <= EC_MAXFMMU <==>
              exists n :: 0 <= n <= EC_MAXFMMU && Enough(s, Output, n) && Enough(s, Input, EC_MAXFMMU - n)
  {
    forall n | 0 <= n <= EC_MAXFMMU
      ensures Enough(s, Output, n) <==> WindowCount(s, Output) <= n
      ensures Enough(s, Input, EC_MAXFMMU - n) <==> WindowCount(s, Input) <= EC_MAXFMMU - n
    {
      EnoughIff(s, Output, n);
      EnoughIff(s, Input, EC_MAXFMMU - n);
    }
    if WindowCount(s, Output) + WindowCount(s, Input) <= EC_MAXFMMU {
      assert Enough(s, Output, WindowCount(s, Output)) && Enough(s, Input, EC_MAXFMMU - WindowCount(s, Output));
    }
  }

  // ----- two slaves

  /** A slave of whole bytes with outputs in sync managers of these lengths, whose addresses do not connect. */
  function Separate(bytes: nat, lens: seq<nat>): SlaveMap
    requires |lens| <= EC_MAXSM && bytes > 0
  {
    var sms := seq(EC_MAXSM,
                   k requires 0 <= k => if k < |lens| then Sm(0x1000 + 0x100 * k, lens[k], SmType(Output))
                   else Sm(0, 0, 0));
    SlaveMap(0, 8 * bytes, bytes, 0, 0, sms, [], 0, None, 0, None, 0, false)
  }

  /** A sync manager that does not connect to the one behind it is an address run of its own. */
  lemma AfterSeparate(s: SlaveMap, d: Direction, m: Progress)
    requires |s.sms| == EC_MAXSM && m.smc < EC_MAXSM - 1 && m.done <= Bytes(s, d)
    requires s.sms[m.smc].smtype == SmType(d) == s.sms[m.smc + 1].smtype
             && s.sms[m.smc + 1].start > EndAddr(s.sms[m.smc])
    ensures var count := m.byteCount + s.sms[m.smc].length;
      After(s, d, m) == Progress(if 8 * count < Bits(s, d) then m.smc + 1 else m.smc, count,
                                 m.done + PieceSize(Bytes(s, d), count, m.done))
  {
    var count := m.byteCount + s.sms[m.smc].length;
    if 8 * count < Bits(s, d) {
      RunOnNext(s, d, m.smc, count, m.smc + 1);
    } else {
      RunOnEnds(s, d, m.smc, count);
    }
  }

  /** Before and behind one separate run. */
  lemma SeparateStep(s: SlaveMap, d: Direction, m: Progress, next: Progress)
    requires |s.sms| == EC_MAXSM && m.smc < EC_MAXSM - 1 && m.done < Bytes(s, d) && Sized(s, d)
    requires s.sms[m.smc].smtype == SmType(d) == s.sms[m.smc + 1].smtype
             && s.sms[m.smc + 1].start > EndAddr(s.sms[m.smc])
    requires next.byteCount == m.byteCount + s.sms[m.smc].length
             && next.done == m.done + PieceSize(Bytes(s, d), next.byteCount, m.done)
    requires next.smc == if 8 * next.byteCount < Bits(s, d) then m.smc + 1 else m.smc
    ensures MoreToMap(s, d, m) && next == After(s, d, m) && WindowsLeft(s, d, m) == 1 + WindowsLeft(s, d, next)
  {
    SizedBytes(s, d);
    AfterSeparate(s, d, m);
    LeftStep(s, d, m, next);
  }

  lemma FiveCovered(s: SlaveMap)
    requires s == Separate(104, [1, 1, 1, 1, 100, 0])
    ensures WellFormed(s) && Covered(s, Output)
  {
    assert SmTotal(s, Output, 2) == 2 && SmTotal(s, Output, 4) == 4 && SmTotal(s, Output, 5) == 104;
    assert SmTotal(s, Output, 7) >= SmTotal(s, Output, 6) >= 104;
  }

  /** Runs of 1, 1, 1, 1 and 100 bytes cover 104 bytes, and need five windows. */
  lemma FiveWindows(s: SlaveMap)
    requires s == Separate(104, [1, 1, 1, 1, 100, 0])
    ensures WellFormed(s) && Covered(s, Output) && WindowCount(s, Output) == 5 > EC_MAXFMMU
  {
    FiveCovered(s);
    var m1, m2, m3, m4, m5 :=
        Progress(1, 1, 1), Progress(2, 2, 3), Progress(3, 3, 6), Progress(4, 4, 10), Progress(4, 104, 104);
    SeparateStep(s, Output, START, m1);
    SeparateStep(s, Output, m1, m2);
    SeparateStep(s, Output, m2, m3);
    SeparateStep(s, Output, m3, m4);
    SeparateStep(s, Output, m4, m5);
  }

  lemma ThreeSteps(s: SlaveMap)
    requires s == Separate(6, [2, 2, 2])
    ensures WellFormed(s) && WindowCount(s, Output) == 2
    ensures Before(s, Output, 1) == Progress(1, 2, 2) && Before(s, Output, 2) == Progress(2, 4, 6)
  {
    var m1, m2 := Progress(1, 2, 2), Progress(2, 4, 6);
    SeparateStep(s, Output, START, m1);
    SeparateStep(s, Output, m1, m2);
    assert Before(s, Output, 1) == After(s, Output, START);
    assert Before(s, Output, 2) == After(s, Output, m1);
  }

  lemma ThreeCovered(s: SlaveMap)
    requires s == Separate(6, [2, 2, 2])
    ensures Covered(s, Output)
  {
    assert SmTotal(s, Output, 2) == 4 && SmTotal(s, Output, 3) == 6;
    assert SmTotal(s, Output, 7) >= SmTotal(s, Output, 5) >= 6;
  }

  /** Three runs of two bytes for six bytes get windows of two and of four: the second reaches behind its run. */
  lemma SecondWindowTooLong(s: SlaveMap, ws: seq<Fmmu>)
    requires s == Separate(6, [2, 2, 2]) && WindowsCut(s, Output, ws)
    ensures WellFormed(s) && Covered(s, Output) && |ws| == 2 && ws[0].logLength == 2 && ws[1].logLength == 4
    ensures !AllFit(ws, Runs(s, Output, 2)) && Run(s, Output, 1) == 2
  {
    ThreeSteps(s);
    ThreeCovered(s);
    CutCount(s, Output, ws);
    assert IsCount(s, Output, 2);
    assert WindowIs(s, Output, ws[0], 0) && WindowIs(s, Output, ws[1], 1);
    RunsNext(s, Output, 1, 2, 4);
    assert ws[1].logLength > Runs(s, Output, 2)[1];
  }

  // ----- a bound

  /** Sync managers of the direction below n. */
  function SmCount(s: SlaveMap, d: Direction, n: nat): nat
    requires n <= |s.sms|
  {
    if n == 0 then 0 else SmCount(s, d, n - 1) + if s.sms[n - 1].smtype == SmType(d) then 1 else 0
  }

  lemma {:induction false} SmCountGrows(s: SlaveMap, d: Direction, m: nat, n: nat)
    requires m <= n <= |s.sms|
    ensures SmCount(s, d, m) <= SmCount(s, d, n)
    ensures (forall j :: m <= j < n ==> s.sms[j].smtype != SmType(d)) ==> SmCount(s, d, m) == SmCount(s, d, n)
    decreases n
  {
    if m < n { SmCountGrows(s, d, m, n - 1); }
  }

  lemma RunOnMoves(s: SlaveMap, d: Direction, smc: nat, byteCount: nat, r: (nat, nat))
    requires |s.sms| == EC_MAXSM && smc < EC_MAXSM - 1 && r == RunOn(s, d, smc, byteCount)
    ensures r.0 >= smc && (8 * r.1 >= Bits(s, d) || r.0 > smc)
  {
  }

  /** The next window starts at a sync manager of the direction that no window before used. */
  lemma FreshSm(s: SlaveMap, d: Direction, m: Progress, next: Progress)
    requires WellFormed(s) && Bytes(s, d) > 0 && Covered(s, d) && m.smc <= EC_MAXSM - 1 && m.done <= Bytes(s, d)
    requires Counted(s, d, m) && MoreToMap(s, d, m) && next == After(s, d, m)
    ensures MoreToMap(s, d, next) ==> SmCount(s, d, m.smc) < SmCount(s, d, next.smc)
    ensures SmCount(s, d, m.smc) < SmCount(s, d, EC_MAXSM - 1)
  {
    var first := NextSm(s, d, m.smc);
    NextSmIsFirst(s, d, m.smc);
    assert first < EC_MAXSM - 1;
    SmCountGrows(s, d, m.smc, first);
    SmCountGrows(s, d, first + 1, EC_MAXSM - 1);
    RunOnMoves(s, d, first, m.byteCount + s.sms[first].length, (next.smc, next.byteCount));
    if next.smc > first { SmCountGrows(s, d, first + 1, next.smc); }
  }

  lemma {:induction false} WindowsUseSms(s: SlaveMap, d: Direction, ws: seq<Fmmu>, k: nat)
    requires WellFormed(s) && Bytes(s, d) > 0 && Covered(s, d) && WindowsAre(s, d, ws) && k <= |ws|
    ensures k <= SmCount(s, d, EC_MAXSM - 1)
    ensures MoreToMap(s, d, Before(s, d, k)) ==> k <= SmCount(s, d, Before(s, d, k).smc)
  {
    if k > 0 {
      WindowsUseSms(s, d, ws, k - 1);
      CountedBefore(s, d, ws, k - 1);
      assert WindowIs(s, d, ws[k - 1], k - 1);
      FreshSm(s, d, Before(s, d, k - 1), Before(s, d, k));
    }
  }

  /** A covered slave of whole bytes gets no more windows than it has sync managers of the direction: the four
      entries of the table suffice if it has at most four sync managers of both directions. */
  lemma WindowsAtMostSms(s: SlaveMap, d: Direction, ws: seq<Fmmu>)
    requires WellFormed(s) && Bytes(s, d) > 0 && Covered(s, d) && WindowsAre(s, d, ws)
    ensures |ws| <= SmCount(s, d, EC_MAXSM - 1)
  {
    WindowsUseSms(s, d, ws, |ws|);
  }
}
