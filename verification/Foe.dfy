/** File access over EtherCAT (ecx_FOEwrite, ecx_FOEread; section 5.8 of ETG.1000.6). */
module Foe {
  import opened Basics
  import opened Bytes

  datatype Message =
    | ReadReq(name: seq<byte>, password: nat)
    | WriteReq(name: seq<byte>, password: nat)
    | Data(number: nat, bytes: seq<byte>)
    | Ack(number: nat)
    | Error(code: nat)
    | Busy
    | Other

  const FILE_NOT_FOUND := 0x8001

  datatype Status = Success | Timeout | BufferTooSmall | PacketNumber | NotFound | FoeError | PacketError

  /** Whoever answers the messages sent so far: the reply to the last of them, if any comes. */
  type Peer = seq<Message> -> Option<Message>

  // ----- a file in packets

  /** Full packets of m bytes and one shorter packet that ends the file, empty if nothing is left. */
  function Pieces(p: seq<byte>, m: nat): (r: seq<seq<byte>>)
    requires m > 0
    ensures |r| >= 1
    decreases |p|
  {
    if |p| < m then [p] else [p[..m]] + Pieces(p[m..], m)
  }

  function Join(pieces: seq<seq<byte>>): seq<byte> {
    if pieces == [] then [] else pieces[0] + Join(pieces[1..])
  }

  /** All packets but the last are full, and the last is not. */
  predicate LastIsShort(pieces: seq<seq<byte>>, m: nat) {
    forall k :: 0 <= k < |pieces| ==> if k < |pieces| - 1 then |pieces[k]| == m else |pieces[k]| < m
  }

  /** The packets rebuild the file; all but the last are full, and the last is not. */
  lemma {:induction false} PiecesRebuild(p: seq<byte>, m: nat)
    requires m > 0
    ensures Join(Pieces(p, m)) == p && LastIsShort(Pieces(p, m), m)
    decreases |p|
  {
    if |p| < m {
      assert Join([p]) == p + Join([]);
    } else {
      PiecesRebuild(p[m..], m);
      assert p[..m] + p[m..] == p;
      assert Pieces(p, m)[1..] == Pieces(p[m..], m);
    }
  }

  /** Data messages with consecutive numbers behind `sent`. */
  function Numbered(pieces: seq<seq<byte>>, sent: nat): seq<Message> {
    seq(|pieces|, i requires 0 <= i < |pieces| => Data(sent + 1 + i, pieces[i]))
  }

  // ----- writing

  /** What is still to be sent: nothing behind the end of the file, unless the end packet is missing. */
  function Todo(rest: seq<byte>, finalZero: bool, m: nat): seq<seq<byte>>
    requires m > 0
  {
    if rest == [] && !finalZero then [] else Pieces(rest, m)
  }

  /** Everything a write sends if all goes well: for an empty file just the request. */
  function WriteMessages(req: Message, p: seq<byte>, m: nat): (r: seq<Message>)
    requires m > 0
    ensures |r| >= 1
  {
    [req] + Numbered(Todo(p, false, m), 0)
  }

  /** How a write ends on a reply, when the acknowledge of packet `sent` is awaited. */
  function StatusOf(reply: Option<Message>, sent: nat): Status {
    match reply
    case None => Timeout
    case Some(Ack(n)) => if n == sent then Success else PacketNumber
    case Some(Busy) => Success
    case Some(Error(code)) => if code == FILE_NOT_FOUND then NotFound else FoeError
    case Some(_) => PacketError
  }

  /** The first n messages were acknowledged in turn. */
  ghost predicate Acked(peer: Peer, log: seq<Message>, n: nat)
    requires n <= |log|
  {
    n == 0 || (peer(log[..n]) == Some(Ack(n - 1)) && Acked(peer, log, n - 1))
  }

  lemma {:induction false} AckedLonger(peer: Peer, log: seq<Message>, next: seq<Message>, n: nat)
    requires n <= |log| && log <= next && Acked(peer, log, n)
    ensures Acked(peer, next, n)
    decreases n
  {
    if n > 0 {
      assert next[..n] == log[..n];
      AckedLonger(peer, log, next, n - 1);
    }
  }

  /** What a write did: it sent a beginning of the messages, each after the acknowledge of the one
      before, up to the first other reply. */
  ghost predicate Wrote(peer: Peer, all: seq<Message>, log: seq<Message>, status: Status) {
    && 1 <= |log| <= |all| && log == all[..|log|] && Acked(peer, log, |log| - 1)
    && (|log| < |all| ==> peer(log) != Some(Ack(|log| - 1)))
    && status == StatusOf(peer(log), |log| - 1)
  }

  /** A message of the write goes out, and what is to do behind it. */
  method NextPacket(rest: seq<byte>, finalZero: bool, sent: nat, m: nat)
    returns (rest': seq<byte>, finalZero': bool, packet: Message)
    requires m > 0 && (rest != [] || finalZero)
    ensures Numbered(Todo(rest, finalZero, m), sent) == [packet] + Numbered(Todo(rest', finalZero', m), sent + 1)
    ensures |rest'| < |rest| || (rest == [] && finalZero && !finalZero' && rest' == [])
  {
    var tsize := if |rest| > m then m else |rest|;
    rest', finalZero' := rest[tsize..], false;
    if rest' == [] && tsize == m {
      finalZero' := true;
    }
    packet := Data(sent + 1, rest[..tsize]);
    assert rest[..|rest|] == rest;
    assert Todo(rest, finalZero, m) == [rest[..tsize]] + Todo(rest', finalZero', m);
  }

  /** The name in a request, cut to the mailbox. */
  function CutName(name: seq<byte>, m: nat): seq<byte> { if |name| > m then name[..m] else name }

  /** What is sent of a name: all of it, or as much as there is room for. */
  predicate NameFits(sent: seq<byte>, name: seq<byte>, room: nat) {
    sent <= name && (if |name| <= room then sent == name else |sent| == room)
  }

  /** Every write begins with a request for the file. */
  lemma RequestFirst(peer: Peer, name: seq<byte>, password: nat, p: seq<byte>, m: nat, log: seq<Message>,
                     status: Status)
    requires m > 0 && Wrote(peer, WriteMessages(WriteReq(CutName(name, m), password), p, m), log, status)
    ensures log[0].WriteReq? && log[0].password == password && NameFits(log[0].name, name, m)
  {
    assert log[0] == WriteMessages(WriteReq(CutName(name, m), password), p, m)[0];
  }

  /** ecx_FOEwrite. `mbxl` is the length of the write mailbox; a name too long for it is cut. */
  method FoeWrite(peer: Peer, name: seq<byte>, password: nat, p: seq<byte>, mbxl: nat)
    returns (status: Status, log: seq<Message>)
    requires mbxl > 12
    ensures Wrote(peer, WriteMessages(WriteReq(CutName(name, mbxl - 12), password), p, mbxl - 12), log, status)
  {
    var m := mbxl - 12;
    var fnsize := if |name| > m then m else |name|;
    assert name[..|name|] == name;
    var rest, finalZero, sent, workToDo := p, false, 0, true;
    log, status := [WriteReq(name[..fnsize], password)], Success;
    ghost var all := WriteMessages(log[0], p, m);
    while workToDo
      invariant workToDo ==>
                all == log + Numbered(Todo(rest, finalZero, m), sent) && |log| == sent + 1 && Acked(peer, log, sent)
      invariant !workToDo ==> Wrote(peer, all, log, status)
      decreases workToDo, |rest|, finalZero
    {
      workToDo := false;
      var reply := peer(log);
      status := StatusOf(reply, sent);
      if reply == Some(Ack(sent)) && (rest != [] || finalZero) {
        workToDo := true;
        var packet;
        rest, finalZero, packet := NextPacket(rest, finalZero, sent, m);
        AckedNext(peer, log, packet);
        log := log + [packet];
        sent := sent + 1;
      }
    }
  }

  lemma AckedNext(peer: Peer, log: seq<Message>, packet: Message)
    requires |log| >= 1 && Acked(peer, log, |log| - 1) && peer(log) == Some(Ack(|log| - 1))
    ensures Acked(peer, log + [packet], |log|)
  {
    AckedLonger(peer, log, log + [packet], |log| - 1);
    assert (log + [packet])[..|log|] == log;
  }

  // ----- a slave that receives a file

  /** Bytes so far, number of the next packet, whether the file is complete. */
  datatype Receiver = Receiver(bytes: seq<byte>, next: nat, complete: bool)

  const NOTHING := Receiver([], 0, false)

  /** One message: a packet shorter than m bytes ends the file. */
  function Receive(r: Receiver, msg: Message, m: nat): (Receiver, Message) {
    match msg
    case WriteReq(_, _) => (Receiver([], 1, false), Ack(0))
    case Data(n, d) =>
      if n == r.next && n > 0 && !r.complete then (Receiver(r.bytes + d, n + 1, |d| < m), Ack(n))
      else (r, Error(0x8004))
    case _ => (r, Error(0x8000))
  }

  function ReceiveAll(log: seq<Message>, m: nat): Receiver {
    if log == [] then NOTHING else Receive(ReceiveAll(log[..|log| - 1], m), log[|log| - 1], m).0
  }

  function ReceiverPeer(m: nat): Peer {
    (log: seq<Message>) => if log == [] then None
    else Some(Receive(ReceiveAll(log[..|log| - 1], m), log[|log| - 1], m).1)
  }

  /** The peer is such a slave. */
  ghost predicate Receives(peer: Peer, m: nat) {
    forall log: seq<Message>, msg: Message {:trigger peer(log + [msg])} ::
      peer(log + [msg]) == Some(Receive(ReceiveAll(log, m), msg, m).1)
  }

  lemma ReceiverReceives(m: nat)
    ensures Receives(ReceiverPeer(m), m)
  {
    forall log: seq<Message>, msg: Message
      ensures ReceiverPeer(m)(log + [msg]) == Some(Receive(ReceiveAll(log, m), msg, m).1)
    {
      assert (log + [msg])[..|log|] == log;
    }
  }

  lemma {:induction false} JoinSnoc(pieces: seq<seq<byte>>, d: seq<byte>)
    ensures Join(pieces + [d]) == Join(pieces) + d
  {
    if pieces == [] {
      assert Join([d]) == d + Join([]);
    } else {
      assert (pieces + [d])[1..] == pieces[1..] + [d];
      JoinSnoc(pieces[1..], d);
    }
  }

  /** A write request and the numbered packets. */
  predicate IsWrite(all: seq<Message>, pieces: seq<seq<byte>>) {
    |all| == |pieces| + 1 && all[0].WriteReq? && forall j :: 1 <= j < |all| ==> all[j] == Data(j, pieces[j - 1])
  }

  /** After the messages `log` the slave has the packets `got`, and acknowledged the last message. */
  predicate HasReceived(peer: Peer, log: seq<Message>, got: seq<seq<byte>>, complete: bool, m: nat) {
    ReceiveAll(log, m) == Receiver(Join(got), |got| + 1, complete) && peer(log) == Some(Ack(|got|))
  }

  lemma RequestReceived(peer: Peer, req: Message, m: nat)
    requires Receives(peer, m) && req.WriteReq?
    ensures HasReceived(peer, [req], [], false, m)
  {
    assert [req] == [] + [req];
  }

  /** One more packet arrives. */
  lemma PacketReceived(peer: Peer, log: seq<Message>, got: seq<seq<byte>>, d: seq<byte>, m: nat)
    requires Receives(peer, m) && HasReceived(peer, log, got, false, m)
    ensures HasReceived(peer, log + [Data(|got| + 1, d)], got + [d], |d| < m, m)
  {
    JoinSnoc(got, d);
  }

  /** After k messages of a write the slave has the first k-1 packets. */
  lemma {:induction false} ReceivedSoFar(peer: Peer, all: seq<Message>, pieces: seq<seq<byte>>, m: nat, k: nat,
                                         log: seq<Message>, got: seq<seq<byte>>)
    requires Receives(peer, m) && IsWrite(all, pieces) && LastIsShort(pieces, m) && 1 <= k <= |pieces| + 1
    requires log == all[..k] && got == pieces[..k - 1]
    ensures HasReceived(peer, log, got, k == |pieces| + 1 && |pieces| > 0, m)
    decreases k
  {
    if k == 1 {
      assert log == [all[0]] && got == [];
      RequestReceived(peer, all[0], m);
    } else {
      var log', got' := all[..k - 1], pieces[..k - 2];
      ReceivedSoFar(peer, all, pieces, m, k - 1, log', got');
      PacketReceived(peer, log', got', pieces[k - 2], m);
      assert log == log' + [Data(k - 1, pieces[k - 2])] && got == got' + [pieces[k - 2]];
    }
  }

  /** A write to a slave with an equal mailbox succeeds, and the slave ends with the complete file if
      and only if it is not empty: of an empty file not even the end packet is sent. */
  lemma WriteDelivers(peer: Peer, req: Message, p: seq<byte>, m: nat, log: seq<Message>, status: Status)
    requires Receives(peer, m) && req.WriteReq? && m > 0 && Wrote(peer, WriteMessages(req, p, m), log, status)
    ensures status == Success && log == WriteMessages(req, p, m)
    ensures ReceiveAll(log, m).complete <==> p != []
    ensures p != [] ==> ReceiveAll(log, m).bytes == p
  {
    var pieces := Todo(p, false, m);
    assert LastIsShort(pieces, m) && Join(pieces) == p by {
      if p != [] { PiecesRebuild(p, m); }
    }
    assert IsWrite(WriteMessages(req, p, m), pieces);
    AllReceived(peer, WriteMessages(req, p, m), pieces, m, log, status);
  }

  lemma AllReceived(peer: Peer, all: seq<Message>, pieces: seq<seq<byte>>, m: nat, log: seq<Message>, status: Status)
    requires Receives(peer, m) && IsWrite(all, pieces) && LastIsShort(pieces, m) && Wrote(peer, all, log, status)
    ensures status == Success && log == all && ReceiveAll(log, m) == Receiver(Join(pieces), |all|, pieces != [])
  {
    assert pieces[..|pieces|] == pieces && all[..|all|] == all && log[..|log|] == log;
    ReceivedSoFar(peer, all, pieces, m, |log|, log, pieces[..|log| - 1]);
  }

  // ----- reading

  /** How a read ended: its status, the bytes in the buffer, the messages sent. */
  datatype Reading = Reading(status: Status, bytes: seq<byte>, log: seq<Message>)

  /** The loop of a read into a buffer of `size` bytes: packets in turn, until one is not full. */
  function ReadLoop(peer: Peer, m: nat, size: nat, log: seq<Message>, bytes: seq<byte>, prev: nat): Reading
    requires m > 0 && |bytes| <= size
    decreases size - |bytes|
  {
    match peer(log)
    case None => Reading(Timeout, bytes, log)
    case Some(Data(n, d)) =>
      if n != prev + 1 || |bytes| + |d| > size then Reading(BufferTooSmall, bytes, log)
      else if |d| == m then ReadLoop(peer, m, size, log + [Ack(n)], bytes + d, prev + 1)
      else Reading(Success, bytes + d, log + [Ack(n)])
    case Some(Error(_)) => Reading(FoeError, bytes, log)
    case Some(_) => Reading(PacketError, bytes, log)
  }

  /** ecx_FOEread. The size of a full packet is taken from `mbxl`, the length of the write mailbox. */
  method FoeRead(peer: Peer, name: seq<byte>, password: nat, size: nat, mbxl: nat) returns (r: Reading)
    requires mbxl > 12
    ensures r == ReadLoop(peer, mbxl - 12, size, [ReadReq(CutName(name, mbxl - 12), password)], [], 0)
    ensures |r.log| > 0 && r.log[0].ReadReq? && r.log[0].password == password
            && NameFits(r.log[0].name, name, mbxl - 12)
  {
    var m := mbxl - 12;
    var fnsize := if |name| > m then m else |name|;
    assert name[..|name|] == name;
    var log, bytes, prev, status, workToDo := [ReadReq(name[..fnsize], password)], [], 0, Success, true;
    ghost var log0 := log;
    while workToDo
      invariant |bytes| <= size && log0 <= log
      invariant ReadLoop(peer, m, size, log0, [], 0)
                == if workToDo then ReadLoop(peer, m, size, log, bytes, prev) else Reading(status, bytes, log)
      decreases workToDo, size - |bytes|
    {
      workToDo := false;
      match peer(log) {
        case None => status := Timeout;
        case Some(Data(n, d)) =>
          prev := prev + 1;
          if n == prev && |bytes| + |d| <= size {
            bytes := bytes + d;
            if |d| == m {
              workToDo := true;
            }
            log := log + [Ack(n)];
            status := Success;
          } else {
            status := BufferTooSmall;
          }
        case Some(Error(_)) => status := FoeError;
        case Some(_) => status := PacketError;
      }
    }
    r := Reading(status, bytes, log);
  }

  /** The acknowledges of n packets behind the request. */
  function Acks(req: Message, n: nat): seq<Message> {
    if n == 0 then [req] else Acks(req, n - 1) + [Ack(n)]
  }

  /** The peer sent these packets in turn, each after the acknowledge of the one before, and only the last is not
      full. */
  predicate SentInTurn(peer: Peer, m: nat, req: Message, prev: nat, pieces: seq<seq<byte>>) {
    forall j :: 0 <= j < |pieces| ==>
      && peer(Acks(req, prev + j)) == Some(Data(prev + j + 1, pieces[j])) && (|pieces[j]| == m <==> j < |pieces| - 1)
  }

  lemma SentFirst(peer: Peer, m: nat, req: Message, prev: nat, d: seq<byte>, rest: seq<seq<byte>>)
    requires peer(Acks(req, prev)) == Some(Data(prev + 1, d)) && SentInTurn(peer, m, req, prev + 1, rest)
    requires |d| == m <==> rest != []
    ensures SentInTurn(peer, m, req, prev, [d] + rest) && Join([d] + rest) == d + Join(rest)
  {
    var pieces := [d] + rest;
    forall j | 0 <= j < |pieces|
      ensures peer(Acks(req, prev + j)) == Some(Data(prev + j + 1, pieces[j]))
              && (|pieces[j]| == m <==> j < |pieces| - 1)
    {
      if j > 0 {
        assert pieces[j] == rest[j - 1] && prev + j == prev + 1 + (j - 1);
      }
    }
    assert pieces[1..] == rest;
  }

  /** The loop of a read that ends with success, whatever the peer. */
  lemma {:induction false} LoopSound(peer: Peer, m: nat, size: nat, req: Message, bytes: seq<byte>, prev: nat)
    returns (pieces: seq<seq<byte>>)
    requires m > 0 && |bytes| <= size
    ensures var r := ReadLoop(peer, m, size, Acks(req, prev), bytes, prev);
      && |r.bytes| <= size
      && (r.status == Success ==> pieces != [] && SentInTurn(peer, m, req, prev, pieces)
                                  && r.bytes == bytes + Join(pieces) && r.log == Acks(req, prev + |pieces|))
    decreases size - |bytes|
  {
    pieces := [];
    match peer(Acks(req, prev)) {
      case Some(Data(n, d)) =>
        if n == prev + 1 && |bytes| + |d| <= size {
          if |d| == m {
            var rest := LoopSound(peer, m, size, req, bytes + d, prev + 1);
            if rest != [] && SentInTurn(peer, m, req, prev + 1, rest) {
              SentFirst(peer, m, req, prev, d, rest);
              pieces := [d] + rest;
              assert (bytes + d) + Join(rest) == bytes + (d + Join(rest));
            }
          } else {
            SentFirst(peer, m, req, prev, d, []);
            pieces := [d];
            assert [d] + [] == [d] && d + [] == d;
          }
        }
      case _ =>
    }
  }

  /** Success of a read, whatever the peer: it sent packets with the numbers 1, 2, 3 and so on, each after the
      acknowledge of the one before, of which only the last is not full, and the buffer has them joined. */
  lemma ReadSound(peer: Peer, m: nat, size: nat, req: Message) returns (pieces: seq<seq<byte>>)
    requires m > 0
    ensures var r := ReadLoop(peer, m, size, [req], [], 0);
      && |r.bytes| <= size
      && (r.status == Success ==> pieces != [] && SentInTurn(peer, m, req, 0, pieces) && r.bytes == Join(pieces)
                                  && r.log == Acks(req, |pieces|))
  {
    pieces := LoopSound(peer, m, size, req, [], 0);
    assert [] + Join(pieces) == Join(pieces);
  }

  // ----- a slave that sends a file

  /** The slave sends the file in packets of m bytes, the next one after each acknowledge. */
  function SenderPeer(file: seq<byte>, m: nat): Peer
    requires m > 0
  {
    (log: seq<Message>) =>
      if log == [] then None
      else match log[|log| - 1]
        case ReadReq(_, _) => Some(Data(1, Pieces(file, m)[0]))
        case Ack(n) => if n < |Pieces(file, m)| then Some(Data(n + 1, Pieces(file, m)[n])) else None
        case _ => Some(Error(0x8000))
  }

  /** With packets of equal size the reader collects the whole rest of the file. */
  lemma {:induction false} ReadsRest(file: seq<byte>, m: nat, size: nat, req: Message, k: nat)
    requires m > 0 && |file| <= size && req.ReadReq? && k < |Pieces(file, m)|
    ensures |Join(Pieces(file, m)[..k])| <= size
    ensures ReadLoop(SenderPeer(file, m), m, size, Acks(req, k), Join(Pieces(file, m)[..k]), k)
            == Reading(Success, file, Acks(req, |Pieces(file, m)|))
    decreases |Pieces(file, m)| - k
  {
    var pieces := Pieces(file, m);
    PiecesRebuild(file, m);
    JoinPrefix(pieces, k);
    JoinPrefix(pieces, k + 1);
    JoinSnoc(pieces[..k], pieces[k]);
    assert pieces[..k + 1] == pieces[..k] + [pieces[k]];
    if k + 1 < |pieces| {
      ReadsRest(file, m, size, req, k + 1);
    } else {
      assert pieces[..k + 1] == pieces;
    }
  }

  lemma {:induction false} JoinPrefix(pieces: seq<seq<byte>>, k: nat)
    requires k <= |pieces|
    ensures |Join(pieces[..k])| <= |Join(pieces)|
  {
    if k > 0 {
      assert pieces[..k][1..] == pieces[1..][..k - 1];
      JoinPrefix(pieces[1..], k - 1);
    }
  }

  lemma {:induction false} AcksLength(req: Message, n: nat)
    ensures |Acks(req, n)| == n + 1
  {
    if n > 0 { AcksLength(req, n - 1); }
  }

  /** Reading with full packets of m bytes from a slave that sends full packets of m' bytes: the read
      returns the file if and only if the sizes are equal, or the first packet holds all of it and is not
      taken for a full one; and it also stops exactly at the last packet if and only if that packet is
      the first one or the sizes are equal. */
  lemma ReadReturns(file: seq<byte>, m': nat, m: nat, size: nat, req: Message)
    requires m > 0 && m' > 0 && |file| <= size && req.ReadReq?
    ensures var r := ReadLoop(SenderPeer(file, m'), m, size, [req], [], 0);
      && (r.status == Success && r.bytes == file <==> m == m' || (|file| <= m' && |file| != m))
      && (r.status == Success && r.bytes == file && r.log == Acks(req, |Pieces(file, m')|)
          <==> m == m' || (|file| < m' && |file| != m))
  {
    if m == m' {
      assert Pieces(file, m)[..0] == [];
      ReadsRest(file, m, size, req, 0);
    } else {
      AcksLength(req, |Pieces(file, m')|);
    }
  }

  /** A write reports success if everything was acknowledged, and also whenever the slave is busy:
      that reply ends the loop although packets are left. */
  lemma SuccessMeans(peer: Peer, all: seq<Message>, log: seq<Message>, status: Status)
    requires Wrote(peer, all, log, status)
    ensures status == Success <==> (log == all && Acked(peer, all, |all|)) || peer(log) == Some(Busy)
  {
    assert log[..|log|] == log && all[..|all|] == all;
  }

  /** A file written and read back over mailboxes of equal length is the same file. */
  lemma WriteThenRead(peer: Peer, writeReq: Message, readReq: Message, p: seq<byte>, m: nat, log: seq<Message>,
                      status: Status, size: nat)
    requires writeReq.WriteReq? && readReq.ReadReq? && m > 0 && p != [] && |p| <= size
    requires Receives(peer, m) && Wrote(peer, WriteMessages(writeReq, p, m), log, status)
    ensures var r := ReadLoop(SenderPeer(ReceiveAll(log, m).bytes, m), m, size, [readReq], [], 0);
      r.status == Success && r.bytes == p
  {
    WriteDelivers(peer, writeReq, p, m, log, status);
    ReadReturns(p, m, m, size, readReq);
  }

  /** The number of packets: one for every full one, and one more. */
  lemma {:induction false} CountPieces(p: seq<byte>, m: nat)
    requires m > 0
    ensures var n := |Pieces(p, m)|; (n - 1) * m <= |p| < n * m
    decreases |p|
  {
    if |p| >= m {
      CountPieces(p[m..], m);
      var n := |Pieces(p[m..], m)|;
      assert n * m == (n - 1) * m + m && (n + 1) * m == n * m + m;
    }
  }

  /** ecx_FOEwrite to a slave with an equal mailbox. */
  method WriteToSlave(name: seq<byte>, password: nat, p: seq<byte>, mbxl: nat) returns (status: Status, got: Receiver)
    requires mbxl > 12
    ensures status == Success && (got.complete <==> p != []) && (p != [] ==> got.bytes == p)
  {
    var log;
    status, log := FoeWrite(ReceiverPeer(mbxl - 12), name, password, p, mbxl);
    ReceiverReceives(mbxl - 12);
    WriteDelivers(ReceiverPeer(mbxl - 12), WriteReq(CutName(name, mbxl - 12), password), p, mbxl - 12, log, status);
    got := ReceiveAll(log, mbxl - 12);
  }

  /** ecx_FOEread from a slave with an equal mailbox. */
  method ReadFromSlave(name: seq<byte>, password: nat, file: seq<byte>, size: nat, mbxl: nat) returns (read: Reading)
    requires mbxl > 12 && |file| <= size
    ensures read.status == Success && read.bytes == file
    ensures var n := |read.log| - 1; (n - 1) * (mbxl - 12) <= |file| < n * (mbxl - 12)
  {
    var m := mbxl - 12;
    ghost var req := ReadReq(CutName(name, m), password);
    ReadReturns(file, m, m, size, req);
    CountPieces(file, m);
    AcksLength(req, |Pieces(file, m)|);
    read := FoeRead(SenderPeer(file, m), name, password, size, mbxl);
  }

  /** What was written is read back. */
  method WriteAndReadBack(name: seq<byte>, password: nat, p: seq<byte>, size: nat, mbxl: nat)
    returns (written: Status, read: Reading)
    requires mbxl > 12 && p != [] && |p| <= size
    ensures written == Success && read.status == Success && read.bytes == p
  {
    var got;
    written, got := WriteToSlave(name, password, p, mbxl);
    read := ReadFromSlave(name, password, got.bytes, size, mbxl);
  }
}
