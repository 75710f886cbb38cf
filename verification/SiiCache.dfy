/** The EEPROM cache of ecx_siigetbyte: a bitmap tells which bytes of the buffer were read from the
    slave whose turn it is. */
module SiiCache {
  import opened Bytes

  const EC_MAXEEPBITMAP := 128
  const EC_MAXEEPBUF := EC_MAXEEPBITMAP * 32

  /** EEPROM contents of all slaves, by slave and byte address; which slaves answer with 8 bytes. */
  datatype Device = Device(rom: (nat, nat) -> byte, eight: nat -> bool)

  function ReadSize(dev: Device, slave: nat): nat { if dev.eight(slave) then 8 else 4 }

  /** A bitmap word is the set of its bits that are 1. */
  datatype Cache = Cache(slave: nat, buf: seq<byte>, map_: seq<set<nat>>)

  predicate Valid(c: Cache) {
    |c.buf| == EC_MAXEEPBUF && |c.map_| == EC_MAXEEPBITMAP
  }

  predicate Cached(m: seq<set<nat>>, a: nat) {
    a / 32 < |m| && a % 32 in m[a / 32]
  }

  /** Every byte marked in the bitmap is the EEPROM byte of the current slave. */
  predicate Coherent(c: Cache, dev: Device) {
    Valid(c) && forall a :: 0 <= a < EC_MAXEEPBUF && Cached(c.map_, a) ==> c.buf[a] == dev.rom(c.slave, a)
  }

  function Fetch(dev: Device, slave: nat, at: nat, n: nat): (r: seq<byte>)
    ensures |r| == n
  {
    seq<byte>(n, i requires 0 <= i => dev.rom(slave, at + i))
  }

  /** Set n bits from bit b of word w on, carrying over into the next words. */
  function Mark(m: seq<set<nat>>, w: nat, b: nat, n: nat): (r: seq<set<nat>>)
    requires b < 32 && 32 * w + b + n <= 32 * |m|
    ensures |r| == |m|
    decreases n
  {
    if n == 0 then m
    else
      var m' := m[w := m[w] + {b}];
      if b + 1 > 31 then Mark(m', w + 1, 0, n - 1) else Mark(m', w, b + 1, n - 1)
  }

  /** Exactly the n bytes become cached, word boundaries included. */
  lemma {:induction false} MarkExact(m: seq<set<nat>>, w: nat, b: nat, n: nat, a: nat)
    requires b < 32 && 32 * w + b + n <= 32 * |m| && a < 32 * |m|
    ensures Cached(Mark(m, w, b, n), a) <==> Cached(m, a) || 32 * w + b <= a < 32 * w + b + n
    decreases n
  {
    if n > 0 {
      var m' := m[w := m[w] + {b}];
      if b + 1 > 31 { MarkExact(m', w + 1, 0, n - 1, a); } else { MarkExact(m', w, b + 1, n - 1, a); }
    }
  }

  /** The read of a byte that is not cached stays inside the buffer. */
  predicate Inside(dev: Device, slave: nat, address: nat) {
    address < EC_MAXEEPBUF ==> address / 2 * 2 + ReadSize(dev, slave) <= EC_MAXEEPBUF
  }

  function Switched(c: Cache, slave: nat): Cache
    requires Valid(c)
  {
    if slave != c.slave then Cache(slave, c.buf, seq<set<nat>>(EC_MAXEEPBITMAP, _ => {})) else c
  }

  /** What the slave answers is stored and marked. */
  function Loaded(c: Cache, dev: Device, slave: nat, address: nat): (r: Cache)
    requires Valid(c) && Inside(dev, slave, address) && address < EC_MAXEEPBUF
    ensures Valid(r)
  {
    var at, n := address / 2 * 2, ReadSize(dev, slave);
    Cache(c.slave, Overwrite(c.buf, at, Fetch(dev, slave, at, n)), Mark(c.map_, at / 32, at % 32, n))
  }

  /** One request: the cache afterwards and the byte. */
  function Get(c: Cache, dev: Device, slave: nat, address: nat): (r: (Cache, byte))
    requires Valid(c) && Inside(dev, slave, address)
    ensures Valid(r.0)
  {
    var c1 := Switched(c, slave);
    if address >= EC_MAXEEPBUF then (c1, 0xff)
    else if Cached(c1.map_, address) then (c1, c1.buf[address])
    else
      var c2 := Loaded(c1, dev, slave, address);
      (c2, c2.buf[address])
  }

  /** A request keeps the cache coherent and returns the EEPROM byte of that slave. */
  lemma GetReads(c: Cache, dev: Device, slave: nat, address: nat)
    requires Coherent(c, dev) && Inside(dev, slave, address)
    ensures var (c', r) := Get(c, dev, slave, address);
      Coherent(c', dev) && r == if address < EC_MAXEEPBUF then dev.rom(slave, address) else 0xff
  {
    SwitchedCoherent(c, dev, slave);
    var c1 := Switched(c, slave);
    if address < EC_MAXEEPBUF && !Cached(c1.map_, address) { LoadedCoherent(c1, dev, slave, address); }
  }

  lemma SwitchedCoherent(c: Cache, dev: Device, slave: nat)
    requires Coherent(c, dev)
    ensures Coherent(Switched(c, slave), dev)
  {
  }

  /** What is loaded is right, and what was cached stays right. */
  lemma LoadedCoherent(c: Cache, dev: Device, slave: nat, address: nat)
    requires Coherent(c, dev) && c.slave == slave && Inside(dev, slave, address) && address < EC_MAXEEPBUF
    ensures Coherent(Loaded(c, dev, slave, address), dev)
            && Loaded(c, dev, slave, address).buf[address] == dev.rom(slave, address)
  {
    var at, n, c' := address / 2 * 2, ReadSize(dev, slave), Loaded(c, dev, slave, address);
    forall a | 0 <= a < EC_MAXEEPBUF && Cached(c'.map_, a)
      ensures c'.buf[a] == dev.rom(slave, a)
    {
      MarkExact(c.map_, at / 32, at % 32, n, a);
      if at <= a < at + n {
        assert c'.buf[a] == Fetch(dev, slave, at, n)[a - at];
      } else {
        assert c'.buf[a] == c.buf[a];
      }
    }
    assert c'.buf[address] == Fetch(dev, slave, at, n)[address - at];
  }

  datatype Call = Call(slave: nat, address: nat)

  predicate AllInside(dev: Device, calls: seq<Call>) {
    forall k :: 0 <= k < |calls| ==> Inside(dev, calls[k].slave, calls[k].address)
  }

  /** The answers to a sequence of requests. */
  function Answers(c: Cache, dev: Device, calls: seq<Call>): (r: seq<byte>)
    requires Valid(c) && AllInside(dev, calls)
    ensures |r| == |calls|
    decreases |calls|
  {
    if calls == [] then []
    else
      var (c', b) := Get(c, dev, calls[0].slave, calls[0].address);
      [b] + Answers(c', dev, calls[1..])
  }

  /** Over every sequence of requests for any slaves in any order, every answer is that slave's byte. */
  lemma {:induction false} EveryRunReads(c: Cache, dev: Device, calls: seq<Call>, k: nat)
    requires Coherent(c, dev) && AllInside(dev, calls) && k < |calls|
    ensures Answers(c, dev, calls)[k]
            == if calls[k].address < EC_MAXEEPBUF then dev.rom(calls[k].slave, calls[k].address) else 0xff
    decreases k
  {
    GetReads(c, dev, calls[0].slave, calls[0].address);
    if k > 0 { EveryRunReads(Get(c, dev, calls[0].slave, calls[0].address).0, dev, calls[1..], k - 1); }
  }

  /** The cache fields of the context. */
  class Context {
    var esislave: nat
    const esibuf: array<byte>
    const esimap: array<set<nat>>
    const dev: Device

    constructor (dev: Device)
      ensures Ready() && this.dev == dev && fresh(esibuf) && fresh(esimap)
    {
      esislave := 0;
      esibuf := new byte[EC_MAXEEPBUF](_ => 0);
      esimap := new set<nat>[EC_MAXEEPBITMAP](_ => {});
      this.dev := dev;
    }

    ghost function Abs(): Cache
      reads this, esibuf, esimap
    {
      Cache(esislave, esibuf[..], esimap[..])
    }

    ghost predicate Ready()
      reads this, esibuf, esimap
    {
      Coherent(Abs(), dev)
    }

    method ClearMap()
      requires esimap.Length == EC_MAXEEPBITMAP
      modifies esimap
      ensures esimap[..] == seq<set<nat>>(EC_MAXEEPBITMAP, _ => {})
    {
      forall i | 0 <= i < esimap.Length {
        esimap[i] := {};
      }
    }

    /** Set the bitmap for each byte that was read. */
    method MarkRead(eadr: nat, cnt: nat)
      requires esimap.Length == EC_MAXEEPBITMAP && 2 * eadr + cnt <= EC_MAXEEPBUF
      modifies esimap
      ensures esimap[..] == Mark(old(esimap[..]), 2 * eadr / 32, 2 * eadr % 32, cnt)
    {
      var mapw: nat := eadr / 16;
      var mapb: nat := 2 * eadr - 32 * mapw;
      ghost var all := Mark(esimap[..], mapw, mapb, cnt);
      for lp := 0 to cnt
        invariant mapb < 32 && 32 * mapw + mapb + (cnt - lp) <= EC_MAXEEPBUF
        invariant Mark(esimap[..], mapw, mapb, cnt - lp) == all
      {
        esimap[mapw] := esimap[mapw] + {mapb};
        mapb := mapb + 1;
        if mapb > 31 {
          mapb := 0;
          mapw := mapw + 1;
        }
      }
    }

    method Store(at: nat, data: seq<byte>)
      requires at + |data| <= esibuf.Length
      modifies esibuf
      ensures esibuf[..] == Overwrite(old(esibuf[..]), at, data)
    {
      forall i | 0 <= i < |data| {
        esibuf[at + i] := data[i];
      }
    }

    /** Another slave: everything cached is forgotten. */
    method Switch(slave: nat)
      requires Valid(Abs())
      modifies this`esislave, esimap
      ensures Abs() == Switched(old(Abs()), slave)
    {
      if slave != esislave {
        ClearMap();
        esislave := slave;
      }
    }

    /** Read 4 or 8 bytes from the slave. */
    method Load(slave: nat, address: nat)
      requires Valid(Abs()) && Inside(dev, slave, address) && address < EC_MAXEEPBUF && esislave == slave
      modifies esibuf, esimap
      ensures Abs() == Loaded(old(Abs()), dev, slave, address)
    {
      var eadr, cnt := address / 2, if dev.eight(slave) then 8 else 4;
      Store(2 * eadr, Fetch(dev, slave, 2 * eadr, cnt));
      MarkRead(eadr, cnt);
    }

    /** ecx_siigetbyte, with a read that succeeds. */
    method GetByte(slave: nat, address: nat) returns (r: byte)
      requires Ready() && Inside(dev, slave, address)
      modifies this`esislave, esibuf, esimap
      ensures Ready() && (Abs(), r) == Get(old(Abs()), dev, slave, address)
      ensures r == if address < EC_MAXEEPBUF then dev.rom(slave, address) else 0xff
    {
      GetReads(Abs(), dev, slave, address);
      r := 0xff;
      Switch(slave);
      if address < EC_MAXEEPBUF {
        var mapw := address / 32;
        var mapb := address - 32 * mapw;
        if mapb !in esimap[mapw] {
          Load(slave, address);
        }
        r := esibuf[address];
      }
    }
  }
}
