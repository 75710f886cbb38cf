/** A CoE slave that follows section 5.6.2 of ETG.1000.6 (SDO services; section 7.2.4 of CiA 301):
    what SDO transfers are proved against. */
module SdoServer {
  import opened Basics
  import opened Bytes
  import opened Segments

  const ECT_MBXT_COE := 3
  const ECT_COES_SDOREQ := 2
  const ECT_COES_SDORES := 3
  const ECT_SDO_ABORT: byte := 0x80

  /** A mailbox message: mailbox type, CoE service, and the SDO bytes. The length field of the mailbox
      header counts the two bytes of the CoE header and those. */
  datatype Mail = Mail(mtype: nat, service: nat, body: seq<byte>)

  // A receiver clears its mailbox buffer first: behind the message there are zeros.

  function Get(b: seq<byte>, i: nat): byte { if i < |b| then b[i] else 0 }

  function Part(b: seq<byte>, at: nat, n: nat): seq<byte> { seq<byte>(n, i requires 0 <= i => Get(b, at + i)) }

  function Short(b: seq<byte>, at: nat): nat { Get(b, at) + 0x100 * Get(b, at + 1) }

  function Long(b: seq<byte>, at: nat): nat { Short(b, at) + 0x1_0000 * Short(b, at + 2) }

  function LongBytes(n: nat): seq<byte>
    requires n < 0x1_0000_0000
  {
    WordBytes(n % 0x1_0000) + WordBytes(n / 0x1_0000)
  }

  function Zeros(n: nat): seq<byte> { seq(n, _ => 0) }

  /** A bit of the command byte, by its weight. */
  predicate HasBit(command: byte, weight: nat)
    requires weight > 0
  {
    command / weight % 2 == 1
  }

  datatype Key = Key(index: nat, sub: nat, complete: bool)

  function KeyOf(b: seq<byte>): Key { Key(Short(b, 1), Get(b, 3), HasBit(Get(b, 0), 0x10)) }

  /** The first request of a transfer, byte by byte: command specifier 1 (download) or 2 (upload) in the upper three
      bits, complete access in bit 4, index and subindex behind it. */
  predicate Asks(m: Mail, specifier: nat, index: nat, sub: nat, complete: bool) {
    && m.mtype == 3 && m.service == 2 && |m.body| >= 4 && m.body[0] / 0x20 == specifier
    && (m.body[0] / 0x10 % 2 == 1 <==> complete) && (m.body[1] as nat) + 0x100 * (m.body[2] as nat) == index
       && m.body[3] == sub
  }

  /** How uploads are answered: in the response itself, or in pieces of these lengths. */
  datatype Style = Expedited | Normal(lens: seq<nat>)

  datatype Transfer = Idle
                    | Download(key: Key, size: nat, got: seq<byte>, toggle: nat)
                    | Upload(rest: seq<byte>, lens: seq<nat>, toggle: nat)

  type AbortCode = c: nat | c < 0x1_0000_0000 witness 0

  /** `refused` are the objects that cannot be written, absent or read-only ones, with the code that tells so. */
  datatype Server = Server(store: map<Key, seq<byte>>, transfer: Transfer, style: Style, refused: map<Key, AbortCode>)

  function Response(command: byte, b: seq<byte>, data: seq<byte>): Mail {
    Mail(ECT_MBXT_COE, ECT_COES_SDORES, [command] + Part(b, 1, 3) + data)
  }

  function Abort(s: Server, b: seq<byte>, code: nat): (Server, Mail)
    requires code < 0x1_0000_0000
  {
    (s.(transfer := Idle), Mail(ECT_MBXT_COE, ECT_COES_SDOREQ, [ECT_SDO_ABORT] + Part(b, 1, 3) + LongBytes(code)))
  }

  function Toggled(toggle: nat): nat { if toggle == 0 then 0x10 else 0 }

  function ToggleOf(b: seq<byte>): nat { if HasBit(Get(b, 0), 0x10) then 0x10 else 0 }

  /** Initiate download: expedited or normal, with the first bytes. */
  function StartDownload(s: Server, b: seq<byte>): (Server, Mail) {
    var c, key := Get(b, 0), KeyOf(b);
    var reply := Response(0x60, b, Zeros(4));
    if key in s.refused then Abort(s, b, s.refused[key])
    else if HasBit(c, 2) then
      var n := if HasBit(c, 1) then 4 - c / 4 % 4 else 4;
      (s.(store := s.store[key := Part(b, 4, n)], transfer := Idle), reply)
    else
      var size, data := Long(b, 4), if |b| > 8 then b[8..] else [];
      if |data| >= size then (s.(store := s.store[key := data[..size]], transfer := Idle), reply)
      else (s.(transfer := Download(key, size, data, 0)), reply)
  }

  /** Data of a download segment: short ones are padded to seven bytes. */
  function SegmentData(b: seq<byte>): seq<byte> {
    if |b| == 8 then b[1..8 - Get(b, 0) / 2 % 8] else if |b| > 1 then b[1..] else []
  }

  function DownloadSegment(s: Server, b: seq<byte>): (Server, Mail) {
    if !s.transfer.Download? || ToggleOf(b) != s.transfer.toggle then Abort(s, b, 0x0503_0000)
    else
      var t := s.transfer;
      var got, reply := t.got + SegmentData(b), Mail(ECT_MBXT_COE, ECT_COES_SDORES, [0x20 + ToggleOf(b)] + Zeros(7));
      if !HasBit(Get(b, 0), 1) then (s.(transfer := t.(got := got, toggle := Toggled(t.toggle))), reply)
      else if |got| == t.size then (s.(store := s.store[t.key := got], transfer := Idle), reply)
      else Abort(s, b, 0x0607_0010)
  }

  function StartUpload(s: Server, b: seq<byte>): (Server, Mail) {
    var key := KeyOf(b);
    if key !in s.store || |s.store[key]| >= 0x8000_0000 then Abort(s, b, 0x0602_0000)
    else
      var v := s.store[key];
      if s.style.Expedited? && 1 <= |v| <= 4 then
        (s.(transfer := Idle), Response(0x43 + (4 - |v|) * 4, b, v + Zeros(4 - |v|)))
      else
        var lens := if s.style.Normal? then s.style.lens else [];
        var n := if lens == [] then |v| else Min(lens[0], |v|);
        (s.(transfer := if n < |v| then Upload(v[n..], lens[1..], 0) else Idle),
         Response(0x41, b, LongBytes(|v|) + v[..n]))
  }

  /** The next piece of an upload, padded to seven bytes; the number of padding bytes is in the command. */
  function PieceBody(data: seq<byte>, last: bool, toggle: nat): seq<byte>
    requires toggle <= 0x10
  {
    var pad := if |data| < 7 then 7 - |data| else 0;
    [(toggle + 2 * pad + if last then 1 else 0) as byte] + data + Zeros(pad)
  }

  function UploadSegment(s: Server, b: seq<byte>): (Server, Mail) {
    if !s.transfer.Upload? || s.transfer.toggle != ToggleOf(b) then Abort(s, b, 0x0503_0000)
    else
      var t := s.transfer;
      var n := if t.lens == [] then |t.rest| else Min(t.lens[0], |t.rest|);
      var last := |t.lens| <= 1;
      (s.(transfer := if last then Idle else Upload(t.rest[n..], t.lens[1..], Toggled(t.toggle))),
       Mail(ECT_MBXT_COE, ECT_COES_SDORES, PieceBody(t.rest[..n], last, t.toggle)))
  }

  /** One request, by its command specifier. */
  function Serve(s: Server, m: Mail): (Server, Mail) {
    match Get(m.body, 0) / 0x20
    case 0 => DownloadSegment(s, m.body)
    case 1 => StartDownload(s, m.body)
    case 2 => StartUpload(s, m.body)
    case 3 => UploadSegment(s, m.body)
    case _ => Abort(s, m.body, 0x0504_0001)
  }

  function Run(s: Server, log: seq<Mail>): Server
    decreases log
  {
    if log == [] then s else Run(Serve(s, log[0]).0, log[1..])
  }

  lemma {:induction false} RunSnoc(s: Server, log: seq<Mail>, m: Mail)
    ensures Run(s, log + [m]) == Serve(Run(s, log), m).0
    decreases log
  {
    if log == [] {
      assert Run(s, [m]) == Run(Serve(s, m).0, []);
    } else {
      assert (log + [m])[1..] == log[1..] + [m];
      RunSnoc(Serve(s, log[0]).0, log[1..], m);
    }
  }

  /** Whoever answers requests: the reply to the last of them, if any comes. */
  type Peer = seq<Mail> -> Option<Mail>

  /** Such a mailbox for every server. */
  function PeerOf(s: Server): Peer {
    (log: seq<Mail>) => if log == [] then None else Some(Serve(Run(s, log[..|log| - 1]), log[|log| - 1]).1)
  }

  /** The peer is a lossless mailbox with server s behind it. */
  ghost predicate Lossless(peer: Peer, s: Server) {
    forall log: seq<Mail>, m: Mail {:trigger peer(log + [m])} :: peer(log + [m]) == Some(Serve(Run(s, log), m).1)
  }

  lemma PeerIsLossless(s: Server)
    ensures Lossless(PeerOf(s), s)
  {
    forall log: seq<Mail>, m: Mail
      ensures PeerOf(s)(log + [m]) == Some(Serve(Run(s, log), m).1)
    {
      PeerAnswers(s, log, m);
    }
  }

  lemma PeerAnswers(s0: Server, log: seq<Mail>, m: Mail)
    ensures PeerOf(s0)(log + [m]) == Some(Serve(Run(s0, log), m).1)
    ensures Run(s0, log + [m]) == Serve(Run(s0, log), m).0
  {
    assert (log + [m])[..|log|] == log;
    RunSnoc(s0, log, m);
  }

  /** Server s behind a lossless mailbox. */
  method Attach(s: Server) returns (peer: Peer)
    ensures Lossless(peer, s)
  {
    PeerIsLossless(s);
    peer := PeerOf(s);
  }

  /** The length field of a mailbox has 16 bits. */
  const LONGEST_PIECE := 0xFFF0

  /** A way of splitting the value v that the protocol allows. */
  predicate Compliant(style: Style, v: seq<byte>) {
    match style
    case Expedited => 1 <= |v| <= 4
    case Normal(lens) => |lens| >= 1 && Sum(lens) == |v| && (|lens| > 1 ==> lens[0] < |v|)
                         && forall k :: 0 <= k < |lens| ==> lens[k] <= LONGEST_PIECE
  }
}
