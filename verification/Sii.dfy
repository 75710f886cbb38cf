/** Walking the slave information EEPROM (section 5.4 of ETG.1000.6): ecx_siifind and ecx_siiPDO. */
module Sii {
  import opened Basics
  import opened Bytes
  import opened SiiCache

  const ECT_SII_START := 0x0040
  const ECT_SII_PDO := 50
  const EC_MAXEEPDO := 0x200
  const END_OF_LIST := 0xFFFF
  /** The last address whose read stays inside the buffer with 4 and with 8 byte answers. */
  const LAST_SAFE := EC_MAXEEPBUF - 8

  function RomWord(dev: Device, slave: nat, a: nat): nat {
    (dev.rom(slave, a) as int) + 0x100 * (dev.rom(slave, a + 1) as int)
  }

  /** One byte, whatever happens to the cache. */
  method GetByte(ctx: Context, slave: nat, a: nat) returns (r: byte)
    requires ctx.Ready() && a <= LAST_SAFE
    modifies ctx`esislave, ctx.esibuf, ctx.esimap
    ensures ctx.Ready() && r == ctx.dev.rom(slave, a)
  {
    r := ctx.GetByte(slave, a);
  }

  method GetWord(ctx: Context, slave: nat, a: nat) returns (w: nat)
    requires ctx.Ready() && a + 1 <= LAST_SAFE
    modifies ctx`esislave, ctx.esibuf, ctx.esimap
    ensures ctx.Ready() && w == RomWord(ctx.dev, slave, a)
  {
    var lo := GetByte(ctx, slave, a);
    var hi := GetByte(ctx, slave, a + 1);
    w := (lo as int) + 0x100 * (hi as int);
  }

  // ----- sections

  /** A section: its category and its length in words. */
  datatype Section = Section(cat: nat, words: nat)

  /** From address a on stands a list of sections and the end mark. */
  predicate SectionsAt(dev: Device, slave: nat, a: nat, secs: seq<Section>)
    decreases |secs|
  {
    && a + 1 <= LAST_SAFE
    && if secs == [] then RomWord(dev, slave, a) == END_OF_LIST
       else && RomWord(dev, slave, a) == secs[0].cat != END_OF_LIST && RomWord(dev, slave, a + 2) == secs[0].words
            && SectionsAt(dev, slave, a + 4 + 2 * secs[0].words, secs[1..])
  }

  /** Address of section k of a list that starts at a. */
  function SectionAddress(secs: seq<Section>, a: nat, k: nat): nat
    requires k <= |secs|
    decreases k
  {
    if k == 0 then a else SectionAddress(secs[1..], a + 4 + 2 * secs[0].words, k - 1)
  }

  /** Index of the first section of a category; the number of sections if there is none. */
  function First(secs: seq<Section>, cat: nat): (k: nat)
    ensures k <= |secs| && (k < |secs| ==> secs[k].cat == cat) && forall j :: 0 <= j < k ==> secs[j].cat != cat
  {
    if secs == [] || secs[0].cat == cat then 0
    else
      var k := First(secs[1..], cat);
      assert forall j :: 1 <= j < k + 1 ==> secs[j] == secs[1..][j - 1];
      k + 1
  }

  /** What a search returns: the address of the length of the first section of the category, else 0. */
  function Found(secs: seq<Section>, a: nat, cat: nat): nat {
    var k := First(secs, cat);
    if k < |secs| || cat == END_OF_LIST then SectionAddress(secs, a, k) + 2 else 0
  }

  /** ecx_siifind. */
  method SiiFind(ctx: Context, slave: nat, cat: nat, ghost secs: seq<Section>) returns (a: nat)
    requires ctx.Ready() && SectionsAt(ctx.dev, slave, 2 * ECT_SII_START, secs)
    modifies ctx`esislave, ctx.esibuf, ctx.esimap
    ensures ctx.Ready() && a == Found(secs, 2 * ECT_SII_START, cat)
  {
    a := 2 * ECT_SII_START;
    var p := GetWord(ctx, slave, a);
    a := a + 2;
    ghost var rest := secs;
    while p != cat && p != END_OF_LIST
      invariant ctx.Ready() && a >= 2 && SectionsAt(ctx.dev, slave, a - 2, rest) && p == RomWord(ctx.dev, slave, a - 2)
      invariant Found(secs, 2 * ECT_SII_START, cat) == Found(rest, a - 2, cat)
      decreases |rest|
    {
      p := GetWord(ctx, slave, a);
      a := a + 2 + 2 * p;
      p := GetWord(ctx, slave, a);
      a := a + 2;
      rest := rest[1..];
    }
    if p != cat {
      a := 0;
    }
  }

  // ----- the PDO section

  /** A PDO: its index, its sync manager, the bit sizes of its entries. */
  datatype Pdo = Pdo(index: nat, syncm: byte, bits: seq<byte>)

  predicate Active(p: Pdo) { p.syncm < EC_MAXSM }

  /** From address a on stand these PDOs: 8 bytes each, and 8 for each entry with its bit size in the sixth. */
  predicate PdosAt(dev: Device, slave: nat, a: nat, pdos: seq<Pdo>)
    decreases |pdos|
  {
    a <= LAST_SAFE - 1 &&
    (pdos == [] ||
      (&& RomWord(dev, slave, a) == pdos[0].index && dev.rom(slave, a + 2) as int == |pdos[0].bits|
       && dev.rom(slave, a + 3) == pdos[0].syncm
       && (forall e :: 0 <= e < |pdos[0].bits| ==> dev.rom(slave, a + 8 + 8 * e + 5) == pdos[0].bits[e])
       && PdosAt(dev, slave, a + 8 + 8 * |pdos[0].bits|, pdos[1..])))
  }

  /** The PDO that the bytes from address a on look like. */
  function PdoAt(dev: Device, slave: nat, a: nat): Pdo {
    Pdo(RomWord(dev, slave, a), dev.rom(slave, a + 3),
        seq<byte>(dev.rom(slave, a + 2) as nat, e requires 0 <= e => dev.rom(slave, a + 8 + 8 * e + 5)))
  }

  /** The PDOs that are read of a section with these contents: even of an empty section one is read, in what
      follows it. */
  function Standing(dev: Device, slave: nat, a: nat, pdos: seq<Pdo>): (r: seq<Pdo>)
    ensures r != []
  {
    if pdos == [] then [PdoAt(dev, slave, a)] else pdos
  }

  /** Length of PDOs in words. */
  function Words(pdos: seq<Pdo>): nat {
    if pdos == [] then 0 else 4 + 4 * |pdos[0].bits| + Words(pdos[1..])
  }

  function BitSum(bits: seq<byte>): nat {
    if bits == [] then 0 else BitSum(bits[..|bits| - 1]) + bits[|bits| - 1]
  }

  /** Bits of the PDOs assigned to sync manager m. */
  function SmBits(pdos: seq<Pdo>, m: nat): nat {
    if pdos == [] then 0
    else SmBits(pdos[..|pdos| - 1], m) + if pdos[|pdos| - 1].syncm == m then BitSum(pdos[|pdos| - 1].bits) else 0
  }

  /** Bits of the PDOs assigned to any valid sync manager. */
  function ActiveBits(pdos: seq<Pdo>): nat {
    if pdos == [] then 0
    else ActiveBits(pdos[..|pdos| - 1]) + if Active(pdos[|pdos| - 1]) then BitSum(pdos[|pdos| - 1].bits) else 0
  }

  function Wrap(n: nat): nat { n % 0x1_0000 }

  /** Bits of the sync managers below n. */
  function AllSmBits(pdos: seq<Pdo>, n: nat): nat {
    if n == 0 then 0 else AllSmBits(pdos, n - 1) + SmBits(pdos, n - 1)
  }

  lemma {:induction false} NoBits(n: nat)
    ensures AllSmBits([], n) == 0
  {
    if n > 0 { NoBits(n - 1); }
  }

  lemma {:induction false} OnePdoMore(pdos: seq<Pdo>, p: Pdo, n: nat)
    ensures AllSmBits(pdos + [p], n) == AllSmBits(pdos, n) + if p.syncm as int < n then BitSum(p.bits) else 0
  {
    if n > 0 {
      OnePdoMore(pdos, p, n - 1);
      assert (pdos + [p])[..|pdos|] == pdos;
    }
  }

  /** The total size is the sum of the sizes of all sync managers. */
  lemma {:induction false} SizesAgree(pdos: seq<Pdo>)
    ensures AllSmBits(pdos, EC_MAXSM) == ActiveBits(pdos)
  {
    if pdos == [] {
      NoBits(EC_MAXSM);
    } else {
      var n := |pdos| - 1;
      SizesAgree(pdos[..n]);
      OnePdoMore(pdos[..n], pdos[n], EC_MAXSM);
      assert pdos[..n] + [pdos[n]] == pdos;
    }
  }

  /** ec_eepromPDOt; the lists start with the first PDO. Sizes have 16 bits. */
  datatype PdoInfo = PdoInfo(startpos: nat, length: nat, index: seq<nat>, syncm: seq<byte>, bitSize: seq<nat>,
                             smBitSize: seq<nat>)

  function Indices(pdos: seq<Pdo>): seq<nat> { seq(|pdos|, k requires 0 <= k < |pdos| => pdos[k].index) }
  function SyncMs(pdos: seq<Pdo>): seq<byte> { seq<byte>(|pdos|, k requires 0 <= k < |pdos| => pdos[k].syncm) }
  function BitSizes(pdos: seq<Pdo>): seq<nat> {
    seq(|pdos|, k requires 0 <= k < |pdos| => if Active(pdos[k]) then Wrap(BitSum(pdos[k].bits)) else 0)
  }
  function SmBitSizes(pdos: seq<Pdo>): seq<nat> { seq(EC_MAXSM, m requires 0 <= m => Wrap(SmBits(pdos, m))) }

  /** The entries of one PDO: their sizes are added up, the cursor moves 8 bytes and the counter 4 words for each. */
  method ReadEntries(ctx: Context, slave: nat, a0: nat, c0: nat, ghost bits: seq<byte>, e: nat)
    returns (size: nat, a: nat, c: nat)
    requires ctx.Ready() && e == |bits| && a0 + 8 * e <= LAST_SAFE
    requires forall k :: 0 <= k < e ==> ctx.dev.rom(slave, a0 + 8 * k + 5) == bits[k]
    modifies ctx`esislave, ctx.esibuf, ctx.esimap
    ensures ctx.Ready() && size == Wrap(BitSum(bits)) && a == a0 + 8 * e && c == c0 + 4 * e
  {
    size, a, c := 0, a0, c0;
    for er := 0 to e
      invariant ctx.Ready() && size == Wrap(BitSum(bits[..er])) && a == a0 + 8 * er && c == c0 + 4 * er
    {
      c := c + 4;
      a := a + 5;
      var b := GetByte(ctx, slave, a);
      assert bits[..er + 1][..er] == bits[..er];
      size := Wrap(size + b);
      a := a + 1 + 2;
    }
    assert bits[..e] == bits;
  }

  /** One PDO. */
  method ReadPdo(ctx: Context, slave: nat, a0: nat, c0: nat, ghost pdos: seq<Pdo>)
    returns (index: nat, syncm: byte, size: nat, a: nat, c: nat)
    requires ctx.Ready() && pdos != [] && PdosAt(ctx.dev, slave, a0, pdos)
    modifies ctx`esislave, ctx.esibuf, ctx.esimap
    ensures ctx.Ready() && index == pdos[0].index && syncm == pdos[0].syncm
    ensures size == if Active(pdos[0]) then Wrap(BitSum(pdos[0].bits)) else 0
    ensures a == a0 + 8 + 8 * |pdos[0].bits| && c == c0 + 4 + 4 * |pdos[0].bits|
  {
    ghost var bits := pdos[0].bits;
    a, c := a0, c0;
    index := GetWord(ctx, slave, a);
    a, size := a + 2, 0;
    c := c + 1;
    var e := GetByte(ctx, slave, a);
    syncm := GetByte(ctx, slave, a + 1);
    a := a + 2;
    a := a + 4;
    c := c + 2;
    if syncm < EC_MAXSM {
      size, a, c := ReadEntries(ctx, slave, a, c, bits, e);
      c := c + 1;
    } else {
      c := c + 4 * (e as int);
      a := a + 8 * (e as int);
      c := c + 1;
    }
  }

  /** The PDOs that fit the lists of the structure. */
  function Taken(pdos: seq<Pdo>): (r: seq<Pdo>)
    ensures |r| == Min(|pdos|, EC_MAXEEPDO - 1)
  {
    pdos[..Min(|pdos|, EC_MAXEEPDO - 1)]
  }

  ghost predicate Collected(info: PdoInfo, size: nat, done: seq<Pdo>) {
    && info.index == Indices(done) && info.syncm == SyncMs(done) && info.bitSize == BitSizes(done)
    && info.smBitSize == SmBitSizes(done) && size == Wrap(ActiveBits(done))
  }

  function Add(info: PdoInfo, index: nat, syncm: byte, bits: nat): PdoInfo
    requires |info.smBitSize| == EC_MAXSM
  {
    PdoInfo(info.startpos, info.length, info.index + [index], info.syncm + [syncm], info.bitSize + [bits],
            if syncm < EC_MAXSM then info.smBitSize[syncm := Wrap(info.smBitSize[syncm] + bits)] else info.smBitSize)
  }

  lemma CollectedMore(info: PdoInfo, size: nat, done: seq<Pdo>, p: Pdo)
    requires Collected(info, size, done)
    ensures var bits := if Active(p) then Wrap(BitSum(p.bits)) else 0;
      Collected(Add(info, p.index, p.syncm, bits), if Active(p) then Wrap(size + bits) else size, done + [p])
  {
    var bits := if Active(p) then Wrap(BitSum(p.bits)) else 0;
    ListsMore(info.index, info.syncm, info.bitSize, done, p, bits);
    SmBitsMore(done, p, info.smBitSize);
    TotalMore(done, p, size);
  }

  lemma ListsMore(index: seq<nat>, syncm: seq<byte>, bitSize: seq<nat>, done: seq<Pdo>, p: Pdo, bits: nat)
    requires index == Indices(done) && syncm == SyncMs(done) && bitSize == BitSizes(done)
    requires bits == if Active(p) then Wrap(BitSum(p.bits)) else 0
    ensures index + [p.index] == Indices(done + [p]) && syncm + [p.syncm] == SyncMs(done + [p])
    ensures bitSize + [bits] == BitSizes(done + [p])
  {
  }

  lemma TotalMore(done: seq<Pdo>, p: Pdo, size: nat)
    requires size == Wrap(ActiveBits(done))
    ensures (if Active(p) then Wrap(size + Wrap(BitSum(p.bits))) else size) == Wrap(ActiveBits(done + [p]))
  {
    assert (done + [p])[..|done|] == done;
    WrapAdd(ActiveBits(done), BitSum(p.bits));
  }

  lemma WrapAdd(x: nat, y: nat)
    ensures Wrap(Wrap(x) + Wrap(y)) == Wrap(x + y)
  {
  }

  lemma SmBitsMore(done: seq<Pdo>, p: Pdo, sizes: seq<nat>)
    requires sizes == SmBitSizes(done)
    ensures SmBitSizes(done + [p])
            == if Active(p) then sizes[p.syncm := Wrap(sizes[p.syncm] + Wrap(BitSum(p.bits)))] else sizes
  {
    assert (done + [p])[..|done|] == done;
    forall m | 0 <= m < EC_MAXSM
      ensures SmBitSizes(done + [p])[m] == Wrap(SmBits(done, m) + if p.syncm == m then BitSum(p.bits) else 0)
    {
    }
    if Active(p) { WrapAdd(SmBits(done, p.syncm), BitSum(p.bits)); }
  }

  /** The cursor and the word counter before PDO n: they move in lock-step. */
  ghost predicate Reading(dev: Device, slave: nat, startpos: nat, length: nat, pdos: seq<Pdo>, n: nat, a: nat, c: nat) {
    && n < Min(|pdos|, EC_MAXEEPDO - 1) && PdosAt(dev, slave, a, pdos[n..]) && a == startpos + 2 + 2 * (c - 1) && c >= 1
    && (c - 1 + Words(pdos[n..]) == length || (length == 0 && |pdos| == 1))
  }

  /** Enter a PDO into the lists and sizes. */
  method AddPdo(info0: PdoInfo, size0: nat, index: nat, syncm: byte, bits: nat, ghost done: seq<Pdo>, ghost p: Pdo)
    returns (info: PdoInfo, size: nat)
    requires Collected(info0, size0, done) && index == p.index && syncm == p.syncm
    requires bits == if Active(p) then Wrap(BitSum(p.bits)) else 0
    ensures Collected(info, size, done + [p]) && |info.index| == |done| + 1
    ensures info.startpos == info0.startpos && info.length == info0.length
  {
    CollectedMore(info0, size0, done, p);
    info, size := Add(info0, index, syncm, bits), size0;
    if syncm < EC_MAXSM {
      size := Wrap(size + bits);
    }
  }

  /** Behind PDO n the loop goes on exactly if there are more. */
  lemma ReadingNext(dev: Device, slave: nat, startpos: nat, length: nat, pdos: seq<Pdo>, n: nat, a0: nat, c0: nat,
                    a: nat, c: nat)
    requires Reading(dev, slave, startpos, length, pdos, n, a0, c0)
    requires a == a0 + 8 + 8 * |pdos[n].bits| && c == c0 + 4 + 4 * |pdos[n].bits|
    ensures n + 1 < EC_MAXEEPDO - 1 ==>
              if c < length then Reading(dev, slave, startpos, length, pdos, n + 1, a, c) else n + 1 == |pdos|
    ensures n + 1 >= EC_MAXEEPDO - 1 ==> n + 1 == Min(|pdos|, EC_MAXEEPDO - 1)
  {
    assert pdos[n..][1..] == pdos[n + 1..];
    assert Words(pdos[n..]) == 4 + 4 * |pdos[n].bits| + Words(pdos[n + 1..]);
    assert pdos[n + 1..] != [] ==> Words(pdos[n + 1..]) >= 4;
  }

  /** One round of the PDO loop. */
  method NextPdo(ctx: Context, slave: nat, info0: PdoInfo, size0: nat, a0: nat, c0: nat, ghost pdos: seq<Pdo>,
                 ghost n: nat)
    returns (info: PdoInfo, size: nat, a: nat, c: nat)
    requires ctx.Ready() && Reading(ctx.dev, slave, info0.startpos, info0.length, pdos, n, a0, c0)
    requires Collected(info0, size0, pdos[..n])
    modifies ctx`esislave, ctx.esibuf, ctx.esimap
    ensures ctx.Ready() && info.startpos == info0.startpos && info.length == info0.length
            && Collected(info, size, pdos[..n + 1])
    ensures if c < info.length then Reading(ctx.dev, slave, info.startpos, info.length, pdos, n + 1, a, c)
            else n + 1 == Min(|pdos|, EC_MAXEEPDO - 1)
  {
    var index, syncm, bits;
    index, syncm, bits, a, c := ReadPdo(ctx, slave, a0, c0, pdos[n..]);
    ReadingNext(ctx.dev, slave, info0.startpos, info0.length, pdos, n, a0, c0, a, c);
    assert pdos[..n + 1] == pdos[..n] + [pdos[n]];
    info, size := AddPdo(info0, size0, index, syncm, bits, pdos[..n], pdos[n]);
    if |info.index| >= EC_MAXEEPDO - 1 {
      c := info.length;
    }
  }

  /** What ecx_siiPDO looks at: a section list, in which the PDO section, if there is one, has these contents. */
  predicate PdoSection(dev: Device, slave: nat, t: nat, secs: seq<Section>, pdos: seq<Pdo>) {
    var start := PdoStart(secs, t);
    SectionsAt(dev, slave, 2 * ECT_SII_START, secs) &&
    (start > 0 ==> RomWord(dev, slave, start) == Words(pdos)
                   && PdosAt(dev, slave, start + 2, Standing(dev, slave, start + 2, pdos)))
  }

  /** Address of the length word of the PDO section: 0 for outputs, 1 for inputs. */
  function PdoStart(secs: seq<Section>, t: nat): nat {
    Found(secs, 2 * ECT_SII_START, ECT_SII_PDO + Min(t, 1))
  }

  /** That is behind the category of the first section 50 (RxPDO) for outputs, 51 (TxPDO) for inputs, if there is one.
      */
  lemma PdoStartIs(secs: seq<Section>, t: nat)
    ensures var cat := if t == 0 then 50 else 51;
      if exists j :: 0 <= j < |secs| && secs[j].cat == cat
      then exists k :: FirstOf(secs, cat, k) && PdoStart(secs, t) == SectionAddress(secs, 128, k) + 2
      else PdoStart(secs, t) == 0
  {
    FoundIs(secs, 128, if t == 0 then 50 else 51);
  }

  predicate FirstOf(secs: seq<Section>, cat: nat, k: nat) {
    k < |secs| && secs[k].cat == cat && forall j :: 0 <= j < k ==> secs[j].cat != cat
  }

  lemma FoundIs(secs: seq<Section>, a: nat, cat: nat)
    ensures cat == END_OF_LIST ||
      if exists j :: 0 <= j < |secs| && secs[j].cat == cat
      then exists k :: FirstOf(secs, cat, k) && Found(secs, a, cat) == SectionAddress(secs, a, k) + 2
      else Found(secs, a, cat) == 0
  {
    var k := First(secs, cat);
    assert k < |secs| ==> FirstOf(secs, cat, k);
  }

  /** The loop over the PDOs of a section. */
  method ReadPdos(ctx: Context, slave: nat, startpos: nat, length: nat, ghost pdos: seq<Pdo>)
    returns (size: nat, info: PdoInfo)
    requires ctx.Ready() && pdos != [] && PdosAt(ctx.dev, slave, startpos + 2, pdos)
    requires Words(pdos) == length || (length == 0 && |pdos| == 1)
    modifies ctx`esislave, ctx.esibuf, ctx.esimap
    ensures ctx.Ready() && info.startpos == startpos && info.length == length && Collected(info, size, Taken(pdos))
  {
    size, info := 0, PdoInfo(startpos, length, [], [], [], SmBitSizes([]));
    var a: nat, c: nat, more := startpos + 2, 1, true;
    ghost var n := 0;
    assert pdos[0..] == pdos && pdos[..0] == [];
    while more
      invariant ctx.Ready() && n <= Min(|pdos|, EC_MAXEEPDO - 1) && info.startpos == startpos && info.length == length
      invariant Collected(info, size, pdos[..n])
      invariant if more then Reading(ctx.dev, slave, startpos, length, pdos, n, a, c)
                else n == Min(|pdos|, EC_MAXEEPDO - 1)
      decreases Min(|pdos|, EC_MAXEEPDO - 1) - n, more
    {
      info, size, a, c := NextPdo(ctx, slave, info, size, a, c, pdos, n);
      n := n + 1;
      more := c < info.length;
    }
  }

  /** What is reported of a PDO section at `start`, or that there is none. */
  ghost predicate Reported(dev: Device, slave: nat, start: nat, pdos: seq<Pdo>, size: nat, info: PdoInfo) {
    info.startpos == start &&
    if start > 0 then info.length == Words(pdos) && Collected(info, size, Taken(Standing(dev, slave, start + 2, pdos)))
    else size == 0 && info.index == []
  }

  /** ecx_siiPDO. `secs` is the section list of the slave and `pdos` the contents of its PDO section. */
  method SiiPdo(ctx: Context, slave: nat, t0: nat, ghost secs: seq<Section>, ghost pdos: seq<Pdo>)
    returns (size: nat, info: PdoInfo)
    requires ctx.Ready() && PdoSection(ctx.dev, slave, t0, secs, pdos)
    modifies ctx`esislave, ctx.esibuf, ctx.esimap
    ensures ctx.Ready() && Reported(ctx.dev, slave, PdoStart(secs, t0), pdos, size, info)
  {
    var t := if t0 > 1 then 1 else t0;
    size, info := 0, PdoInfo(0, 0, [], [], [], SmBitSizes([]));
    var startpos := SiiFind(ctx, slave, ECT_SII_PDO + t, secs);
    if startpos > 0 {
      InsideSection(ctx.dev, slave, t0, secs, pdos, startpos, Standing(ctx.dev, slave, startpos + 2, pdos));
      size, info := ReadSection(ctx, slave, startpos, pdos);
    }
  }

  /** The section with its length word at `startpos`. */
  method ReadSection(ctx: Context, slave: nat, startpos: nat, ghost pdos: seq<Pdo>) returns (size: nat, info: PdoInfo)
    requires ctx.Ready() && 0 < startpos && startpos + 1 <= LAST_SAFE && InSection(ctx.dev, slave, startpos, pdos)
    modifies ctx`esislave, ctx.esibuf, ctx.esimap
    ensures ctx.Ready() && Reported(ctx.dev, slave, startpos, pdos, size, info)
  {
    var w := GetWord(ctx, slave, startpos);
    size, info := ReadPdos(ctx, slave, startpos, w, Standing(ctx.dev, slave, startpos + 2, pdos));
  }

  /** The length word at `start` is that of these contents, and behind it stands what is read. */
  ghost predicate InSection(dev: Device, slave: nat, start: nat, pdos: seq<Pdo>) {
    var standing := Standing(dev, slave, start + 2, pdos);
    && RomWord(dev, slave, start) == Words(pdos) && PdosAt(dev, slave, start + 2, standing) && standing != []
    && (Words(standing) == Words(pdos) || (Words(pdos) == 0 && |standing| == 1))
  }

  lemma InsideSection(dev: Device, slave: nat, t: nat, secs: seq<Section>, pdos: seq<Pdo>, start: nat,
                      standing: seq<Pdo>)
    requires PdoSection(dev, slave, t, secs, pdos) && start == PdoStart(secs, t) > 0
    requires standing == Standing(dev, slave, start + 2, pdos)
    ensures start + 1 <= LAST_SAFE && InSection(dev, slave, start, pdos)
  {
    EmptyIffNoWords(pdos);
  }

  lemma EmptyIffNoWords(pdos: seq<Pdo>)
    ensures Words(pdos) == 0 <==> pdos == []
  {
  }

  /** What is reported of an empty PDO section is the sum of its bits, which is 0, if and only if the bytes behind
      it do not look like an active PDO with bits in it; a PDO is listed in any case. */
  lemma EmptySectionIff(dev: Device, slave: nat, info: PdoInfo, size: nat, a: nat)
    requires Collected(info, size, Taken(Standing(dev, slave, a, [])))
    ensures size == ActiveBits([]) <==>
            !Active(PdoAt(dev, slave, a)) || BitSum(PdoAt(dev, slave, a).bits) % 0x1_0000 == 0
    ensures |info.index| == 1
  {
    var p := PdoAt(dev, slave, a);
    assert Taken([p]) == [p] && [p][..0] == [];
  }

  /** An EEPROM with an empty PDO section, a section of one word behind it, and a 16 where an entry would be. */
  function EmptySectionRom(a: nat): byte {
    if a == 128 then 50 else if a == 132 then 10 else if a == 134 then 1 else if a == 138 || a == 139 then 0xFF
    else if a == 145 then 16 else 0
  }

  lemma EmptySectionFound()
    ensures var secs := [Section(50, 0), Section(10, 1)]; PdoStart(secs, 0) == 130
  {
    var secs := [Section(50, 0), Section(10, 1)];
    assert First(secs, 50) == 0;
  }

  /** Its size is reported as 16 bits. */
  lemma EmptySectionMisread()
    ensures var dev, secs := Device((slave, a) => EmptySectionRom(a), _ => false), [Section(50, 0), Section(10, 1)];
      && PdoSection(dev, 1, 0, secs, []) && PdoStart(secs, 0) == 130
      && ActiveBits(Taken(Standing(dev, 1, 132, []))) == 16 != ActiveBits([])
  {
    var dev, secs := Device((slave, a) => EmptySectionRom(a), _ => false), [Section(50, 0), Section(10, 1)];
    EmptySectionFound();
    assert secs[1..] == [Section(10, 1)] && secs[1..][1..] == [];
    assert SectionsAt(dev, 1, 138, []) && SectionsAt(dev, 1, 132, secs[1..]);
    MisreadPdo(dev);
  }

  lemma MisreadPdo(dev: Device)
    requires forall a {:trigger dev.rom(1, a)} :: dev.rom(1, a) == EmptySectionRom(a)
    ensures PdosAt(dev, 1, 132, Standing(dev, 1, 132, [])) && ActiveBits(Taken(Standing(dev, 1, 132, []))) == 16
  {
    var p := PdoAt(dev, 1, 132);
    assert p.bits == [16] && [16 as byte][..0] == [] && BitSum([16]) == 16;
    assert Taken([p]) == [p] && [p][..0] == [] && [p][1..] == [];
  }

  /** The reported total is the sum of the sizes per sync manager, in 16 bits. */
  lemma TotalIsSumOfSms(info: PdoInfo, size: nat, done: seq<Pdo>)
    requires Collected(info, size, done)
    ensures size == Wrap(AllSmBits(done, EC_MAXSM))
            && forall m :: 0 <= m < EC_MAXSM ==> info.smBitSize[m] == Wrap(SmBits(done, m))
  {
    SizesAgree(done);
  }
}
