/** Receiving frames: the index allocator, the rx buffer states and the demultiplexing of nicdrv.c,
    over all interleavings of waiters and all arrival orders. */
module Transport {
  import opened Basics
  import opened Bytes

  const EC_BUFSIZE := 1518
  const ETH_P_ECAT := 0x88A4
  const EC_OTHERFRAME := -2

  datatype BufState = Empty | Alloc | Tx | Rcvd | Complete

  /** A packet on the wire: middle word of the source MAC, Ethernet type, EtherCAT part. */
  datatype Packet = Packet(source: nat, etype: nat, body: seq<byte>)

  /** The frame buffers without Ethernet header. */
  const BODYSIZE := EC_BUFSIZE - ETH_HEADERSIZE

  /** One receive stack. `wire` is what the coming polls of the socket yield: a packet or nothing. */
  datatype Stack = Stack(stat: seq<BufState>, rxbuf: seq<seq<byte>>, rxsa: seq<nat>, txlen: seq<nat>,
                         tempbuf: seq<byte>, wire: seq<Option<Packet>>)

  predicate Valid(s: Stack) {
    && |s.stat| == |s.rxbuf| == |s.rxsa| == |s.txlen| == EC_MAXBUF && |s.tempbuf| == BODYSIZE
    && (forall i :: 0 <= i < EC_MAXBUF ==> |s.rxbuf[i]| == BODYSIZE && s.txlen[i] <= BODYSIZE)
    && ValidWire(s.wire)
  }

  /** Index byte of an EtherCAT frame. */
  function IndexOf(body: seq<byte>): nat
    requires |body| >= 4
  {
    body[3]
  }

  /** Work counter of the last datagram: at the offset in the low 12 bits of the first word. */
  function WkcOf(body: seq<byte>): nat {
    Word(body, Word(body, 0) % 0x1000)
  }

  /** The packet belongs to the frame with index `idx`. */
  predicate Matches(p: Packet, idx: nat) {
    p.etype == ETH_P_ECAT && |p.body| >= 4 && IndexOf(p.body) == idx
  }

  // ----- what one call does

  /** The frame is already in its buffer? Then take it. */
  function CheckBuffer(s: Stack, idx: nat): (Stack, int)
    requires Valid(s) && idx < EC_MAXBUF
  {
    if s.stat[idx] == Rcvd then (s.(stat := s.stat[idx := Complete]), WkcOf(s.rxbuf[idx])) else (s, EC_NOFRAME)
  }

  function Store(s: Stack, idx: nat, p: Packet, st: BufState): Stack
    requires Valid(s) && idx < EC_MAXBUF && 4 <= |p.body| <= BODYSIZE
  {
    var temp := Overwrite(s.tempbuf, 0, p.body);
    s.(tempbuf := temp, stat := s.stat[idx := st], rxsa := s.rxsa[idx := p.source],
       rxbuf := s.rxbuf[idx := Overwrite(s.rxbuf[idx], 0, temp[..s.txlen[idx]])])
  }

  /** Read one packet from the socket; store it for whoever waits for it. */
  function PollSocket(s: Stack, idx: nat): (Stack, int)
    requires Valid(s) && idx < EC_MAXBUF
  {
    if s.wire == [] then (s, EC_NOFRAME)
    else
      var rest := s.(wire := s.wire[1..]);
      match s.wire[0]
      case None => (rest, EC_NOFRAME)
      case Some(p) =>
        if p.etype != ETH_P_ECAT then (rest.(tempbuf := Overwrite(s.tempbuf, 0, p.body)), EC_OTHERFRAME)
        else if IndexOf(p.body) == idx then
          var t := Store(rest, idx, p, Complete);
          (t, Word(t.rxbuf[idx], Word(p.body, 0) % 0x1000))
        else if IndexOf(p.body) < EC_MAXBUF && s.stat[IndexOf(p.body)] == Tx then
          (Store(rest, IndexOf(p.body), p, Rcvd), EC_OTHERFRAME)
        else (rest.(tempbuf := Overwrite(s.tempbuf, 0, p.body)), EC_OTHERFRAME)
  }

  predicate ValidWire(wire: seq<Option<Packet>>) {
    forall k :: 0 <= k < |wire| && wire[k].Some? ==> 4 <= |wire[k].value.body| <= BODYSIZE
  }

  /** What comes in after a frame was sent; None if it could not be sent. */
  type Arrivals = Option<seq<Option<Packet>>>

  predicate ValidArrivals(a: Arrivals) {
    a.Some? ==> ValidWire(a.value)
  }

  /** Send a frame and let the network answer. */
  function Transmit(s: Stack, idx: nat, a: Arrivals): (t: Stack)
    requires Valid(s) && idx < EC_MAXBUF && ValidArrivals(a)
    ensures Valid(t) && t.txlen == s.txlen
  {
    if a.None? then s.(stat := s.stat[idx := Empty]) else s.(stat := s.stat[idx := Tx], wire := s.wire + a.value)
  }

  lemma StepsKeepValid(s: Stack, idx: nat)
    requires Valid(s) && idx < EC_MAXBUF
    ensures Valid(CheckBuffer(s, idx).0) && Valid(PollSocket(s, idx).0)
    ensures PollSocket(s, idx).0.wire == if s.wire == [] then [] else s.wire[1..]
    ensures CheckBuffer(s, idx).0.txlen == PollSocket(s, idx).0.txlen == s.txlen
  {
    if s.wire != [] { assert forall k :: 0 <= k < |s.wire[1..]| ==> s.wire[1..][k] == s.wire[k + 1]; }
  }

  // ----- the imperative stack

  class RxStack {
    const stat: array<BufState>
    const rxbuf: array<seq<byte>>
    const rxsa: array<nat>
    const txlen: array<nat>
    var tempbuf: seq<byte>
    var wire: seq<Option<Packet>>

    /** ecx_setupnic, the buffers: all slots empty. `lengths` are those of the transmit buffers. */
    constructor (lengths: array<nat>)
      requires lengths.Length == EC_MAXBUF && forall i :: 0 <= i < EC_MAXBUF ==> lengths[i] <= BODYSIZE
      ensures Sound() && txlen == lengths && wire == []
      ensures fresh(stat) && fresh(rxbuf) && fresh(rxsa)
      ensures forall i :: 0 <= i < EC_MAXBUF ==> stat[i] == Empty
    {
      stat := new BufState[EC_MAXBUF](_ => Empty);
      rxbuf := new seq<byte>[EC_MAXBUF](_ => seq(BODYSIZE, _ => 0));
      rxsa := new nat[EC_MAXBUF](_ => 0);
      txlen := lengths;
      tempbuf := seq(BODYSIZE, _ => 0);
      wire := [];
    }

    ghost function Abs(): Stack
      reads this, stat, rxbuf, rxsa, txlen
    {
      Stack(stat[..], rxbuf[..], rxsa[..], txlen[..], tempbuf, wire)
    }

    ghost predicate Sound()
      reads this, stat, rxbuf, rxsa, txlen
    {
      Valid(Abs()) && rxsa != txlen
    }

    /** Non-blocking read of the socket. */
    method RecvPkt() returns (p: Option<Packet>)
      modifies this`wire
      ensures p == if old(wire) == [] then None else old(wire)[0]
      ensures wire == if old(wire) == [] then [] else old(wire)[1..]
    {
      p := None;
      if wire != [] {
        p := wire[0];
        wire := wire[1..];
      }
    }

    /** The sending half of ecx_outframe. */
    method Send(idx: nat, a: Arrivals)
      requires Sound() && idx < EC_MAXBUF && ValidArrivals(a)
      modifies this`wire, stat
      ensures Sound() && Abs() == Transmit(old(Abs()), idx, a)
    {
      stat[idx] := Tx;
      if a.None? {
        stat[idx] := Empty;
      } else {
        wire := wire + a.value;
      }
    }

    method StorePacket(idx: nat, p: Packet, st: BufState)
      requires Sound() && idx < EC_MAXBUF && 4 <= |p.body| <= BODYSIZE
      requires tempbuf == Overwrite(tempbuf, 0, p.body)
      modifies stat, rxbuf, rxsa
      ensures Abs() == Store(old(Abs()), idx, p, st)
    {
      rxbuf[idx] := Overwrite(rxbuf[idx], 0, tempbuf[..txlen[idx]]);
      stat[idx] := st;
      rxsa[idx] := p.source;
    }

    /** ecx_inframe up to the lock: the frame may be in its buffer already. */
    method Check(idx: nat) returns (rval: int)
      requires Sound() && idx < EC_MAXBUF
      modifies stat
      ensures Abs() == CheckBuffer(old(Abs()), idx).0 && rval == CheckBuffer(old(Abs()), idx).1
    {
      rval := EC_NOFRAME;
      if stat[idx] == Rcvd {
        rval := WkcOf(rxbuf[idx]);
        stat[idx] := Complete;
      }
    }

    /** ecx_inframe under the lock: one packet is read and stored for its waiter. */
    method Poll(idx: nat) returns (rval: int)
      requires Sound() && idx < EC_MAXBUF
      modifies this, stat, rxbuf, rxsa
      ensures Abs() == PollSocket(old(Abs()), idx).0 && rval == PollSocket(old(Abs()), idx).1
    {
      rval := EC_NOFRAME;
      ghost var s0 := Abs();
      StepsKeepValid(s0, idx);
      var got := RecvPkt();
      if got.Some? {
        var p := got.value;
        rval := EC_OTHERFRAME;
        tempbuf := Overwrite(tempbuf, 0, p.body);
        if p.etype == ETH_P_ECAT {
          var idxf := IndexOf(p.body);
          if idxf == idx {
            StorePacket(idx, p, Complete);
            rval := Word(rxbuf[idx], Word(p.body, 0) % 0x1000);
          } else if idxf < EC_MAXBUF && stat[idxf] == Tx {
            StorePacket(idxf, p, Rcvd);
          }
        }
      }
    }

    /** ecx_inframe without interference between its two halves. */
    method InFrame(idx: nat) returns (rval: int)
      requires Sound() && idx < EC_MAXBUF
      modifies this, stat, rxbuf, rxsa
      ensures Sound()
      ensures Abs() == InFrameOf(old(Abs()), idx).0 && rval == InFrameOf(old(Abs()), idx).1
    {
      StepsKeepValid(Abs(), idx);
      if stat[idx] == Rcvd {
        rval := Check(idx);
      } else {
        rval := Poll(idx);
      }
    }
  }

  function InFrameOf(s: Stack, idx: nat): (Stack, int)
    requires Valid(s) && idx < EC_MAXBUF
  {
    if s.stat[idx] == Rcvd then CheckBuffer(s, idx) else PollSocket(s, idx)
  }
}
