/** Frames the master builds of several datagrams: the status reads of ecx_FPRD_multi, and process data
    with the clock datagram behind them. */
module MasterFrames {
  import opened Basics
  import opened Bytes
  import opened Segments
  import opened Datagram
  import PD = ProcessData

  // ----- status reads

  const ECT_REG_ALSTAT := 0x0130
  const ALSTATUS_SIZE := 6
  const MAX_FPRD_MULTI := 64

  /** A read of the AL status of one slave. */
  function StatusRead(idx: byte, config: nat, follows: bool): Datagram {
    Datagram(EC_CMD_FPRD, idx, config, ECT_REG_ALSTAT, follows, seq<byte>(ALSTATUS_SIZE, _ => 0))
  }

  function StatusReads(idx: byte, config: seq<nat>): (r: seq<Datagram>)
    ensures |r| == |config|
  {
    seq(|config|, k requires 0 <= k < |config| => StatusRead(idx, config[k], k < |config| - 1))
  }

  lemma {:induction false} StatusStart(ds: seq<Datagram>, k: nat)
    requires k <= |ds| && forall j :: 0 <= j < k ==> |ds[j].data| == ALSTATUS_SIZE
    ensures Start(ds, k) == EC_ELENGTHSIZE + 18 * k
  {
    if k > 0 { StatusStart(ds, k - 1); }
  }

  /** The datagrams built so far: the first one is marked only when the second is added. */
  ghost function SoFar(idx: byte, config: seq<nat>, k: nat): (ds: seq<Datagram>)
    requires 1 <= k <= |config|
  {
    if k == 1 then [StatusRead(idx, config[0], false)] else StatusReads(idx, config)[..k]
  }

  lemma SoFarNext(idx: byte, config: seq<nat>, k: nat)
    requires 1 <= k < |config|
    ensures Marked(SoFar(idx, config, k)) + [StatusRead(idx, config[k], k < |config| - 1)] == SoFar(idx, config, k + 1)
    ensures Start(SoFar(idx, config, k), k) == EC_ELENGTHSIZE + 18 * k
    ensures Start(SoFar(idx, config, k + 1), k) == EC_ELENGTHSIZE + 18 * k
  {
    StatusStart(SoFar(idx, config, k), k);
    StatusStart(SoFar(idx, config, k + 1), k);
  }

  /** A frame with the reads of the first k slaves. */
  ghost predicate ReadsSoFar(b: seq<byte>, idx: byte, config: seq<nat>, k: nat, txlen: nat)
    requires 1 <= k <= |config|
  {
    IsFrame(b, SoFar(idx, config, k)) && txlen == ETH_HEADERSIZE + EC_ELENGTHSIZE + 18 * k
  }

  /** The frame with the read of the first slave. */
  method FirstStatusRead(frame: array<byte>, idx: byte, config: seq<nat>, zeros: seq<byte>) returns (txlen: nat)
    requires frame.Length == FRAMESIZE && zeros == seq<byte>(ALSTATUS_SIZE, _ => 0)
    requires 1 <= |config| && config[0] < 0x1_0000
    modifies frame
    ensures ReadsSoFar(frame[..], idx, config, 1, txlen)
  {
    txlen := SetupDatagram(frame, EC_CMD_FPRD, idx, config[0], ECT_REG_ALSTAT, zeros);
    assert DataOf(EC_CMD_FPRD, zeros) == zeros;
    StatusStart([StatusRead(idx, config[0], false)], 1);
  }

  /** The read of one more slave. */
  method AddStatusRead(frame: array<byte>, idx: byte, config: seq<nat>, slcnt: nat, txlen0: nat, zeros: seq<byte>)
    returns (txlen: nat, offset: nat)
    requires frame.Length == FRAMESIZE && zeros == seq<byte>(ALSTATUS_SIZE, _ => 0)
    requires 1 <= slcnt < |config| <= MAX_FPRD_MULTI && config[slcnt] < 0x1_0000
    requires ReadsSoFar(frame[..], idx, config, slcnt, txlen0)
    modifies frame
    ensures ReadsSoFar(frame[..], idx, config, slcnt + 1, txlen) && offset == EC_HEADERSIZE + 18 * slcnt
  {
    SoFarNext(idx, config, slcnt);
    txlen, offset := AddDatagram(frame, txlen0, EC_CMD_FPRD, idx, slcnt < |config| - 1, config[slcnt], ECT_REG_ALSTAT,
                                 zeros,
                                 SoFar(idx, config, slcnt));
    StatusStart(SoFar(idx, config, slcnt + 1), slcnt + 1);
  }

  /** The sending part of ecx_FPRD_multi: one frame that reads the AL status of up to 64 slaves. */
  method BuildStatusReads(frame: array<byte>, idx: byte, config: seq<nat>) returns (txlen: nat, pos: seq<nat>)
    requires frame.Length == FRAMESIZE && 1 <= |config| <= MAX_FPRD_MULTI
             && forall k :: 0 <= k < |config| ==> config[k] < 0x1_0000
    modifies frame
    ensures IsFrame(frame[..], StatusReads(idx, config))
            && txlen == ETH_HEADERSIZE + Start(StatusReads(idx, config), |config|)
    ensures |pos| == |config| && forall k :: 0 <= k < |pos| ==> pos[k] == EC_HEADERSIZE + 18 * k
  {
    var zeros := seq<byte>(ALSTATUS_SIZE, _ => 0);
    txlen := FirstStatusRead(frame, idx, config, zeros);
    pos := [EC_HEADERSIZE];
    var slcnt := 1;
    while slcnt < |config|
      invariant 1 <= slcnt <= |config| && |pos| == slcnt
      invariant ReadsSoFar(frame[..], idx, config, slcnt, txlen)
      invariant forall k :: 0 <= k < |pos| ==> pos[k] == EC_HEADERSIZE + 18 * k
    {
      var offset;
      txlen, offset := AddStatusRead(frame, idx, config, slcnt, txlen, zeros);
      pos := pos + [offset];
      slcnt := slcnt + 1;
    }
    AllReads(idx, config);
  }

  lemma AllReads(idx: byte, config: seq<nat>)
    requires 1 <= |config|
    ensures SoFar(idx, config, |config|) == StatusReads(idx, config)
    ensures Start(StatusReads(idx, config), |config|) == EC_ELENGTHSIZE + 18 * |config|
  {
    StatusStart(StatusReads(idx, config), |config|);
  }

  /** The positions are those of the data, in the frame that parses to one status read for each slave. */
  lemma StatusFrame(b: seq<byte>, idx: byte, config: seq<nat>, k: nat)
    requires 1 <= |config| <= MAX_FPRD_MULTI && IsFrame(b, StatusReads(idx, config)) && k < |config|
    ensures var ds := StatusReads(idx, config);
      Start(ds, k) + 10 == EC_HEADERSIZE + 18 * k && Parse(b[..Start(ds, |ds|)], EC_ELENGTHSIZE) == Sent(ds, 0)
  {
    var ds := StatusReads(idx, config);
    StatusStart(ds, k);
    StatusStart(ds, |ds|);
    FrameParses(b, ds);
  }

  /** What a slave has in its AL status registers. */
  datatype AlStatus = AlStatus(status: nat, code: nat)

  /** The six bytes of a status read: status, a word that is not used, code. */
  predicate Carries(b: seq<byte>, a: AlStatus) {
    |b| == ALSTATUS_SIZE && Word(b, 0) == a.status && Word(b, 4) == a.code
  }

  /** A datagram that reads the AL status of a slave. */
  predicate IsStatusRead(d: Datagram) {
    d.command == EC_CMD_FPRD && d.ado == ECT_REG_ALSTAT && |d.data| == ALSTATUS_SIZE
  }

  /** Behind the header of datagram k stands the status of the slave that it is addressed to. */
  predicate AnsweredAt(rxbuf: seq<byte>, ds: seq<Datagram>, k: nat, registers: nat -> AlStatus) {
    && k < |ds| && Start(ds, k) + 10 + ALSTATUS_SIZE <= |rxbuf|
    && Carries(rxbuf[Start(ds, k) + 10..Start(ds, k) + 10 + ALSTATUS_SIZE], registers(ds[k].adp))
  }

  /** Slaves with these registers, by configured address, answer the status reads of every frame. */
  ghost predicate SlavesAnswer(wire: seq<byte> -> seq<byte>, registers: nat -> AlStatus) {
    forall b, ds, k: nat {:trigger AnsweredAt(wire(b), ds, k, registers)} ::
      IsFrame(b, ds) && k < |ds| && IsStatusRead(ds[k]) ==> AnsweredAt(wire(b), ds, k, registers)
  }

  /** The receiving part: the data at the remembered positions. */
  method CollectStatus(rxbuf: seq<byte>, pos: seq<nat>, ghost ds: seq<Datagram>, ghost registers: nat -> AlStatus)
    returns (sl: seq<AlStatus>)
    requires |pos| == |ds|
    requires forall k :: 0 <= k < |pos| ==> pos[k] == Start(ds, k) + 10 && AnsweredAt(rxbuf, ds, k, registers)
    ensures |sl| == |ds| && forall k :: 0 <= k < |sl| ==> sl[k] == registers(ds[k].adp)
  {
    sl := [];
    for slcnt := 0 to |pos|
      invariant |sl| == slcnt && forall k :: 0 <= k < |sl| ==> sl[k] == registers(ds[k].adp)
    {
      assert AnsweredAt(rxbuf, ds, slcnt, registers);
      var b := rxbuf[pos[slcnt]..pos[slcnt] + ALSTATUS_SIZE];
      sl := sl + [AlStatus(Word(b, 0), Word(b, 4))];
    }
  }

  /** ecx_FPRD_multi, when the frame comes back. */
  method FprdMulti(config: seq<nat>, idx: byte, wire: seq<byte> -> seq<byte>, ghost registers: nat -> AlStatus)
    returns (sl: seq<AlStatus>)
    requires 1 <= |config| <= MAX_FPRD_MULTI && (forall k :: 0 <= k < |config| ==> config[k] < 0x1_0000)
    requires SlavesAnswer(wire, registers)
    ensures |sl| == |config| && forall k :: 0 <= k < |sl| ==> sl[k] == registers(config[k])
  {
    var frame := new byte[FRAMESIZE](_ => 0);
    var txlen, pos := BuildStatusReads(frame, idx, config);
    ghost var b, ds := frame[..], StatusReads(idx, config);
    var rxbuf := wire(frame[..]);
    forall k | 0 <= k < |pos|
      ensures pos[k] == Start(ds, k) + 10 && AnsweredAt(rxbuf, ds, k, registers)
    {
      StatusFrame(b, idx, config, k);
      assert IsFrame(b, ds) && IsStatusRead(ds[k]) && rxbuf == wire(b);
    }
    sl := CollectStatus(rxbuf, pos, ds, registers);
  }

  // ----- process data

  const DC_SIZE := 8

  /** A process-data frame, a segment and perhaps the clock datagram behind it, is at most 1514 bytes
      long with its Ethernet header: it fits the frame limit of 1518 less the 4 bytes of the FCS. */
  lemma ProcessFrameFits(segment: Datagram, clock: Datagram, diffs: seq<nat>, k: nat)
    requires (forall j :: 0 <= j < |diffs| ==> diffs[j] <= SEGMENT_LIMIT) && k < |Table(AccountAll(EMPTY, diffs))|
    requires |segment.data| <= Table(AccountAll(EMPTY, diffs))[k] && |clock.data| == DC_SIZE
    ensures ETH_HEADERSIZE + Start([segment, clock], 2) <= 1514 && ETH_HEADERSIZE + Start([segment], 1) <= 1514
  {
    SegmentsBounded(diffs, SEGMENT_LIMIT);
    assert Start([segment, clock], 2) == Start([segment, clock], 1) + 12 + |clock.data|;
    assert Start([segment, clock], 1) == EC_ELENGTHSIZE + 12 + |segment.data| == Start([segment], 1);
  }

  const EC_CMD_LWR: byte := 11
  const EC_CMD_LRW: byte := 12
  const EC_CMD_FRMW: byte := 14
  const ECT_REG_DCSYSTIME := 0x0910

  function CommandByte(cmd: PD.Command): byte {
    match cmd
    case LRD => EC_CMD_LRD
    case LWR => EC_CMD_LWR
    case LRW => EC_CMD_LRW
  }

  /** The datagrams of a process-data frame: the logical one, and behind the first of a cycle the clock. */
  function ProcessDatagrams(d: PD.Logical, idx: byte, data: seq<byte>, dcConfig: nat,
                            dcTime: seq<byte>): seq<Datagram> {
    var logical := Datagram(CommandByte(d.cmd), idx, d.addr % 0x1_0000, d.addr / 0x1_0000, d.dc,
                            DataOf(CommandByte(d.cmd), data));
    if d.dc then [logical, Datagram(EC_CMD_FRMW, idx, dcConfig, ECT_REG_DCSYSTIME, false, dcTime)] else [logical]
  }

  /** Build the frame of one datagram of a cycle. The offset that goes on the index stack for the clock is the
      one the cycle model uses, and the clock data stand there. */
  method BuildProcessFrame(frame: array<byte>, d: PD.Logical, idx: byte, data: seq<byte>, dcConfig: nat,
                           dcTime: seq<byte>)
    returns (txlen: nat, dcoffset: nat)
    requires frame.Length == FRAMESIZE && |data| == d.len <= SEGMENT_LIMIT && d.addr < 0x1_0000_0000
    requires dcConfig < 0x1_0000 && |dcTime| == DC_SIZE
    modifies frame
    ensures var ds := ProcessDatagrams(d, idx, data, dcConfig, dcTime);
      IsFrame(frame[..], ds) && txlen == ETH_HEADERSIZE + Start(ds, |ds|)
    ensures dcoffset == PD.DcOffset(d)
    ensures d.dc ==> dcoffset + DC_SIZE <= FRAMESIZE && frame[..][dcoffset..dcoffset + DC_SIZE] == dcTime
  {
    ghost var ds := ProcessDatagrams(d, idx, data, dcConfig, dcTime);
    var command := CommandByte(d.cmd);
    txlen := SetupDatagram(frame, command, idx, d.addr % 0x1_0000, d.addr / 0x1_0000, data);
    ghost var first := [Datagram(command, idx, d.addr % 0x1_0000, d.addr / 0x1_0000, false, DataOf(command, data))];
    LogicalStart(first, d.len);
    dcoffset := 0;
    if d.dc {
      txlen, dcoffset := AddDatagram(frame, txlen, EC_CMD_FRMW, idx, false, dcConfig, ECT_REG_DCSYSTIME, dcTime, first);
      assert Marked(first) + [Datagram(EC_CMD_FRMW, idx, dcConfig, ECT_REG_DCSYSTIME, false, dcTime)] == ds;
      LogicalStart(ds, d.len);
      assert At(frame[..], Start(ds, 1), ds[1]);
    }
  }

  lemma LogicalStart(ds: seq<Datagram>, n: nat)
    requires |ds| >= 1 && |ds[0].data| == n
    ensures Start(ds, 0) == 2 && Start(ds, 1) == 14 + n
  {
  }
}
