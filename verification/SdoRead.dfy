/** CoE SDO uploads (ecx_SDOread): against any peer, and against a compliant slave. */
module SdoRead {
  import opened Basics
  import opened Bytes
  import opened Segments
  import opened SdoServer
  import opened Sdo

  /** How a read ended: reported success, the bytes in the buffer, the requests sent; `done` is false
      while the segment loop still runs. */
  datatype Reading = Reading(ok: bool, data: seq<byte>, log: seq<Mail>, done: bool)

  function UploadRequest(command: byte, key: Key): Mail
    requires GoodKey(key)
  {
    Request(Header(command, key) + Zeros(4))
  }

  function FirstRequest(key: Key): Mail
    requires GoodKey(key)
  {
    UploadRequest(if key.complete then ECT_SDO_UP_REQ_CA else ECT_SDO_UP_REQ, key)
  }

  predicate IsPiece(m: Mail) {
    IsResponse(m) && Get(m.body, 0) / 0x20 == 0
  }

  /** The data taken from an upload segment: padding is removed from the last one only. Sizes are
      computed in 16 bits. */
  function PieceData(b: seq<byte>): seq<byte> {
    var n := Truncated(|b| + 0xFFFF);
    Part(b, 1, if HasBit(Get(b, 0), 1) && n == 7 then 7 - Get(b, 0) / 2 % 8 else n)
  }

  /** The segment loop, watched for a number of rounds. */
  function ReadSegments(peer: Peer, key: Key, log: seq<Mail>, data: seq<byte>, toggle: nat, rounds: nat): Reading
    requires GoodKey(key) && toggle <= 0x10
    decreases rounds
  {
    if rounds == 0 then Reading(false, data, log, false)
    else
      var next := log + [UploadRequest(ECT_SDO_SEG_UP_REQ + toggle, key)];
      match peer(next)
      case None => ReadSegments(peer, key, next, data, Toggled(toggle), rounds - 1)
      case Some(m) =>
        if !IsPiece(m) then Reading(false, data, next, true)
        else if HasBit(Get(m.body, 0), 1) then Reading(true, data + PieceData(m.body), next, true)
        else ReadSegments(peer, key, next, data + PieceData(m.body), Toggled(toggle), rounds - 1)
  }

  /** A whole read into a buffer of `size` bytes. */
  function ReadRun(peer: Peer, key: Key, size: nat, rounds: nat): Reading
    requires GoodKey(key)
  {
    var log := [FirstRequest(key)];
    match peer(log)
    case None => Reading(false, [], log, true)
    case Some(m) =>
      var c, n := Get(m.body, 0), Truncated(|m.body| + 0xFFF8);
      if !IsResponse(m) || Short(m.body, 1) != key.index then Reading(false, [], log, true)
      else if HasBit(c, 2) then
        var bytesize := 4 - c / 4 % 4;
        if size >= bytesize then Reading(true, Part(m.body, 4, bytesize), log, true) else Reading(false, [], log, true)
      else if Long(m.body, 4) > size then Reading(false, [], log, true)
      else if n < Long(m.body, 4) then ReadSegments(peer, key, log, Part(m.body, 8, n), 0, rounds)
      else Reading(true, Part(m.body, 8, Long(m.body, 4)), log, true)
  }

  /** The segment loop of ecx_SDOread. */
  method ReadPieces(peer: Peer, key: Key, log0: seq<Mail>, data0: seq<byte>, rounds: nat) returns (r: Reading)
    requires GoodKey(key)
    ensures r == ReadSegments(peer, key, log0, data0, 0, rounds)
  {
    var ok, data, log, toggle, notLast, k := false, data0, log0, 0, true, rounds;
    while notLast && k > 0
      invariant toggle == 0 || toggle == 0x10
      invariant notLast ==>
                ReadSegments(peer, key, log0, data0, 0, rounds) == ReadSegments(peer, key, log, data, toggle, k)
      invariant !notLast ==> ReadSegments(peer, key, log0, data0, 0, rounds) == Reading(ok, data, log, true)
    {
      log := log + [UploadRequest(ECT_SDO_SEG_UP_REQ + toggle, key)];
      var reply := peer(log);
      if reply.Some? {
        var b := reply.value.body;
        if IsPiece(reply.value) {
          ok := true;
          if HasBit(Get(b, 0), 1) {
            notLast := false;
          }
          data := data + PieceData(b);
        } else {
          ok, notLast := false, false;
        }
      }
      toggle := if toggle == 0 then 0x10 else 0;
      k := k - 1;
    }
    r := if notLast then Reading(false, data, log, false) else Reading(ok, data, log, true);
  }

  /** The reply is a CoE message (mailbox type 3) with an SDO response (service 3). */
  predicate SaysSo(r: Option<Mail>) { r.Some? && r.value.mtype == 3 && r.value.service == 3 }

  /** What was said on a read, in bytes: an upload of this object was asked for, and success was reported only if the
      first reply was a response for its index, and the last one of several a last segment. */
  predicate Talked(peer: Peer, r: Reading, index: nat, sub: nat, complete: bool) {
    && |r.log| >= 1 && Asks(r.log[0], 2, index, sub, complete)
    && (r.ok ==> SaysSo(peer(r.log[..1]))
                 && Get(peer(r.log[..1]).value.body, 1) + 0x100 * Get(peer(r.log[..1]).value.body, 2) == index)
    && (r.ok && |r.log| > 1 ==>
          SaysSo(peer(r.log)) && Get(peer(r.log).value.body, 0) < 0x20 && Get(peer(r.log).value.body, 0) % 2 == 1)
  }

  lemma {:induction false} SegmentsTalked(peer: Peer, key: Key, log: seq<Mail>, data: seq<byte>, toggle: nat,
                                          rounds: nat)
    requires GoodKey(key) && toggle <= 0x10
    ensures var r := ReadSegments(peer, key, log, data, toggle, rounds);
      && log <= r.log
      && (r.ok ==> |r.log| > |log| && SaysSo(peer(r.log)) && Get(peer(r.log).value.body, 0) < 0x20
                   && Get(peer(r.log).value.body, 0) % 2 == 1)
    decreases rounds
  {
    if rounds > 0 {
      var next := log + [UploadRequest(ECT_SDO_SEG_UP_REQ + toggle, key)];
      if peer(next).None? {
        SegmentsTalked(peer, key, next, data, Toggled(toggle), rounds - 1);
      } else if IsPiece(peer(next).value) && !HasBit(Get(peer(next).value.body, 0), 1) {
        SegmentsTalked(peer, key, next, data + PieceData(peer(next).value.body), Toggled(toggle), rounds - 1);
      }
    }
  }

  lemma ReadTalked(peer: Peer, key: Key, size: nat, rounds: nat)
    requires GoodKey(key)
    ensures Talked(peer, ReadRun(peer, key, size, rounds), key.index, key.sub, key.complete)
  {
    var log := [FirstRequest(key)];
    HeaderBytes(if key.complete then ECT_SDO_UP_REQ_CA else ECT_SDO_UP_REQ, key, Zeros(4));
    assert log[..1] == log;
    var reply := peer(log);
    if Announces(reply, key, size) {
      var data := Part(reply.value.body, 8, Truncated(|reply.value.body| + 0xFFF8));
      SegmentsTalked(peer, key, log, data, 0, rounds);
      assert ReadRun(peer, key, size, rounds).log[..1] == log;
    }
  }

  /** ecx_SDOread. */
  method SdoUpload(peer: Peer, index: nat, sub: nat, complete: bool, size: nat, rounds: nat) returns (r: Reading)
    requires index < 0x1_0000 && sub < 0x100 && size < 0x8000_0000
    ensures r == ReadRun(peer, Addressed(index, sub, complete), size, rounds)
    ensures Talked(peer, r, index, if complete && sub > 1 then 1 else sub, complete)
  {
    ReadTalked(peer, Addressed(index, sub, complete), size, rounds);
    var key := Key(index, if complete && sub > 1 then 1 else sub, complete);
    var log := [FirstRequest(key)];
    var reply := peer(log);
    r := Reading(false, [], log, true);
    if reply.Some? {
      var m := reply.value;
      if IsResponse(m) && Short(m.body, 1) == index {
        var c := Get(m.body, 0);
        if HasBit(c, 2) {
          var bytesize := 4 - c / 4 % 4;
          if size >= bytesize {
            r := Reading(true, Part(m.body, 4, bytesize), log, true);
          }
        } else {
          var len := Long(m.body, 4);
          if len <= size {
            var n := Truncated(|m.body| + 0xFFF8);
            if n < len {
              r := ReadPieces(peer, key, log, Part(m.body, 8, n), rounds);
            } else {
              r := Reading(true, Part(m.body, 8, len), log, true);
            }
          }
        }
      }
    }
  }

  // ----- reading from a compliant slave

  /** Every segment but the last fills the seven bytes below which padding is used. */
  predicate LongUntilLast(lens: seq<nat>) {
    |lens| <= 1 || (lens[0] >= 7 && LongUntilLast(lens[1..]))
  }

  /** The slave answers uploads with what remains of the value. */
  predicate Sending(s: Server, rest: seq<byte>, lens: seq<nat>, toggle: nat) {
    s.transfer == Upload(rest, lens, toggle) && SplitsInto(rest, lens) && (toggle == 0 || toggle == 0x10)
  }

  /** What the master takes from one piece: its bytes, and the padding if it is short but not the last. */
  lemma PieceTaken(data: seq<byte>, last: bool, toggle: nat)
    requires (toggle == 0 || toggle == 0x10) && |data| <= LONGEST_PIECE
    ensures var b := PieceBody(data, last, toggle);
      && Get(b, 0) / 0x20 == 0 && HasBit(Get(b, 0), 1) == last
      && PieceData(b) == if |data| < 7 && !last then data + Zeros(7 - |data|) else data
  {
    var b, pad := PieceBody(data, last, toggle), if |data| < 7 then 7 - |data| else 0;
    CommandBits(if last then 1 else 0, pad, toggle);
    assert Part(b, 1, |data| + pad) == data + Zeros(pad);
    assert Part(b, 1, |data|) == data;
  }

  /** One round: the slave sends its next piece. */
  lemma PieceServed(s: Server, key: Key, rest: seq<byte>, lens: seq<nat>, toggle: nat)
    requires GoodKey(key) && Sending(s, rest, lens, toggle)
    ensures lens[0] <= |rest|
    ensures var (s', reply) := Serve(s, UploadRequest(ECT_SDO_SEG_UP_REQ + toggle, key));
      && reply == Mail(ECT_MBXT_COE, ECT_COES_SDORES, PieceBody(rest[..lens[0]], |lens| == 1, toggle))
      && (|lens| > 1 ==> Sending(s', rest[lens[0]..], lens[1..], Toggled(toggle)))
  {
    SplitsNext(rest, lens);
  }

  /** Bytes that the master takes for data of short segments and are none: up to seven in each but the last. */
  function Padding(lens: seq<nat>): nat {
    if |lens| <= 1 then 0 else (if lens[0] < 7 then 7 - lens[0] else 0) + Padding(lens[1..])
  }

  lemma {:induction false} PaddingIff(lens: seq<nat>)
    ensures Padding(lens) == 0 <==> LongUntilLast(lens)
  {
    if |lens| > 1 { PaddingIff(lens[1..]); }
  }

  /** What the rest of an upload gives: exactly the rest if the pieces are long enough, and the padding with it. */
  predicate Exact(r: Reading, data: seq<byte>, lens: seq<nat>) {
    r.done && r.ok && |r.data| == |data| + Padding(lens) && (LongUntilLast(lens) ==> r.data == data)
  }

  predicate SplitsInto(rest: seq<byte>, lens: seq<nat>) {
    |lens| >= 1 && Sum(lens) == |rest| && forall k :: 0 <= k < |lens| ==> lens[k] <= LONGEST_PIECE
  }

  lemma SplitsNext(rest: seq<byte>, lens: seq<nat>)
    requires SplitsInto(rest, lens)
    ensures lens[0] <= |rest|
            && (if |lens| == 1 then rest[..lens[0]] == rest else SplitsInto(rest[lens[0]..], lens[1..]))
  {
    if |lens| == 1 { assert Sum(lens[1..]) == 0; }
  }

  /** The pieces as they come over the mailbox. */
  function Bodies(rest: seq<byte>, lens: seq<nat>, toggle: nat): seq<seq<byte>>
    requires SplitsInto(rest, lens) && toggle <= 0x10
    decreases |lens|
  {
    SplitsNext(rest, lens);
    [PieceBody(rest[..lens[0]], |lens| == 1, toggle)]
      + if |lens| == 1 then [] else Bodies(rest[lens[0]..], lens[1..], Toggled(toggle))
  }

  /** The peer answers the coming segment requests with these SDO bytes. */
  predicate Answers(peer: Peer, key: Key, log: seq<Mail>, toggle: nat, bodies: seq<seq<byte>>)
    requires GoodKey(key) && toggle <= 0x10
    decreases |bodies|
  {
    bodies == [] ||
    var next := log + [UploadRequest(ECT_SDO_SEG_UP_REQ + toggle, key)];
    peer(next) == Some(Mail(ECT_MBXT_COE, ECT_COES_SDORES, bodies[0]))
      && Answers(peer, key, next, Toggled(toggle), bodies[1..])
  }

  lemma {:induction false} SlaveAnswers(s0: Server, key: Key, log: seq<Mail>, rest: seq<byte>, lens: seq<nat>,
                                        toggle: nat)
    requires GoodKey(key) && Sending(Run(s0, log), rest, lens, toggle)
    ensures SplitsInto(rest, lens) && Answers(PeerOf(s0), key, log, toggle, Bodies(rest, lens, toggle))
    decreases |lens|
  {
    SplitsNext(rest, lens);
    var m := UploadRequest(ECT_SDO_SEG_UP_REQ + toggle, key);
    PeerAnswers(s0, log, m);
    PieceServed(Run(s0, log), key, rest, lens, toggle);
    if |lens| > 1 { SlaveAnswers(s0, key, log + [m], rest[lens[0]..], lens[1..], Toggled(toggle)); }
  }

  lemma {:induction false} PiecesRead(peer: Peer, key: Key, log: seq<Mail>, data: seq<byte>, rest: seq<byte>,
                                      lens: seq<nat>, toggle: nat, rounds: nat)
    requires GoodKey(key) && SplitsInto(rest, lens) && (toggle == 0 || toggle == 0x10) && rounds >= |lens|
    requires Answers(peer, key, log, toggle, Bodies(rest, lens, toggle))
    ensures Exact(ReadSegments(peer, key, log, data, toggle, rounds), data + rest, lens)
    decreases |lens|
  {
    SplitsNext(rest, lens);
    var b, last := PieceBody(rest[..lens[0]], |lens| == 1, toggle), |lens| == 1;
    var next := log + [UploadRequest(ECT_SDO_SEG_UP_REQ + toggle, key)];
    PieceTaken(rest[..lens[0]], last, toggle);
    PieceStep(peer, key, log, data, toggle, rounds, next, b);
    if !last {
      PiecesRead(peer, key, next, data + PieceData(b), rest[lens[0]..], lens[1..], Toggled(toggle), rounds - 1);
      ExactNext(ReadSegments(peer, key, log, data, toggle, rounds), data, rest, lens, PieceData(b));
    }
  }

  /** One round of the loop. */
  lemma PieceStep(peer: Peer, key: Key, log: seq<Mail>, data: seq<byte>, toggle: nat, rounds: nat, next: seq<Mail>,
                  b: seq<byte>)
    requires GoodKey(key) && toggle <= 0x10 && rounds > 0
    requires next == log + [UploadRequest(ECT_SDO_SEG_UP_REQ + toggle, key)]
    requires peer(next) == Some(Mail(ECT_MBXT_COE, ECT_COES_SDORES, b)) && Get(b, 0) / 0x20 == 0
    ensures ReadSegments(peer, key, log, data, toggle, rounds)
            == if HasBit(Get(b, 0), 1) then Reading(true, data + PieceData(b), next, true)
               else ReadSegments(peer, key, next, data + PieceData(b), Toggled(toggle), rounds - 1)
  {
  }

  /** What a piece that is not the last adds to the rest. */
  lemma ExactNext(r: Reading, data: seq<byte>, rest: seq<byte>, lens: seq<nat>, piece: seq<byte>)
    requires |lens| > 1 && lens[0] <= |rest|
    requires piece == if lens[0] < 7 then rest[..lens[0]] + Zeros(7 - lens[0]) else rest[..lens[0]]
    requires Exact(r, (data + piece) + rest[lens[0]..], lens[1..])
    ensures Exact(r, data + rest, lens)
  {
    assert rest[..lens[0]] + rest[lens[0]..] == rest;
    assert lens[0] >= 7 ==> (data + piece) + rest[lens[0]..] == data + rest;
  }

  /** Lengths of the pieces behind the first response. */
  function LaterPieces(style: Style): seq<nat> {
    if style.Normal? && |style.lens| > 1 then style.lens[1..] else []
  }

  /** The first response to an upload of v says how the rest comes. */
  predicate FirstReply(m: Mail, key: Key, v: seq<byte>, style: Style) {
    && IsResponse(m) && Short(m.body, 1) == key.index && |m.body| >= 8
    && match style
       case Expedited => |v| <= 4 && HasBit(Get(m.body, 0), 2) && Get(m.body, 0) / 4 % 4 == 4 - |v|
         && Part(m.body, 4, |v|) == v
       case Normal(lens) => |lens| >= 1 && lens[0] <= |v| && !HasBit(Get(m.body, 0), 2) && Long(m.body, 4) == |v|
                            && m.body[8..] == v[..lens[0]]
  }

  lemma SplitFirst(v: seq<byte>, lens: seq<nat>)
    requires Compliant(Normal(lens), v)
    ensures lens[0] <= |v| && (|lens| == 1 <==> lens[0] == |v|)
    ensures |lens| > 1 ==> SplitsInto(v[lens[0]..], lens[1..])
  {
    if |lens| == 1 { assert Sum(lens[1..]) == 0; }
  }

  lemma FirstRequestRead(key: Key)
    requires GoodKey(key)
    ensures var b := FirstRequest(key).body;
      Get(b, 0) / 0x20 == 2 && KeyOf(b) == key && Part(b, 1, 3) == WordBytes(key.index) + [key.sub]
  {
    HeaderRead(if key.complete then ECT_SDO_UP_REQ_CA else ECT_SDO_UP_REQ, key, Zeros(4));
  }

  /** A slave that has the object, with an allowed way of splitting its value. */
  predicate CanSend(s: Server, key: Key) {
    GoodKey(key) && key in s.store && |s.store[key]| < 0x8000_0000 && Compliant(s.style, s.store[key])
  }

  lemma UploadStarted(s: Server, key: Key)
    requires CanSend(s, key)
    ensures var v, later := s.store[key], LaterPieces(s.style);
      var (s', reply) := Serve(s, FirstRequest(key));
      && FirstReply(reply, key, v, s.style)
      && (later != [] ==> s.style.lens[0] < |v| && Sending(s', v[s.style.lens[0]..], later, 0))
  {
    FirstRequestRead(key);
    if s.style.Normal? { SplitFirst(s.store[key], s.style.lens); }
  }

  /** The master takes the first response apart. */
  lemma FirstTaken(peer: Peer, key: Key, size: nat, rounds: nat, v: seq<byte>, style: Style, m: Mail)
    requires GoodKey(key) && Compliant(style, v) && |v| <= size
    requires peer([FirstRequest(key)]) == Some(m) && FirstReply(m, key, v, style)
    ensures var r := ReadRun(peer, key, size, rounds);
      if LaterPieces(style) == [] then r == Reading(true, v, [FirstRequest(key)], true)
      else style.lens[0] <= |v| && r == ReadSegments(peer, key, [FirstRequest(key)], v[..style.lens[0]], 0, rounds)
  {
    if style.Normal? {
      SplitFirst(v, style.lens);
      var n := style.lens[0];
      assert Truncated(|m.body| + 0xFFF8) == n;
      assert Part(m.body, 8, n) == m.body[8..];
      assert v[..|v|] == v;
    }
  }

  /** An SDO read from a compliant slave behind a lossless mailbox ends with success, and with exactly
      the stored bytes if and only if every upload segment but the last carries at least seven. Else the
      padding of the short ones comes on top, and the buffer holds all only if it has room for it. */
  lemma ReadReturns(s: Server, key: Key, size: nat, rounds: nat)
    requires CanSend(s, key) && |s.store[key]| <= size && rounds >= |LaterPieces(s.style)|
    ensures var r := ReadRun(PeerOf(s), key, size, rounds);
      && r.done && r.ok && (r.data == s.store[key] <==> LongUntilLast(LaterPieces(s.style)))
      && |r.data| == |s.store[key]| + Padding(LaterPieces(s.style))
  {
    var v, m, later := s.store[key], FirstRequest(key), LaterPieces(s.style);
    UploadStarted(s, key);
    PeerAnswers(s, [], m);
    assert [] + [m] == [m];
    FirstTaken(PeerOf(s), key, size, rounds, v, s.style, Serve(s, m).1);
    if later != [] {
      var n := s.style.lens[0];
      SlaveAnswers(s, key, [m], v[n..], later, 0);
      PiecesRead(PeerOf(s), key, [m], v[..n], v[n..], later, 0, rounds);
      PaddingIff(later);
      Split(v, n);
    }
  }

  /** A read from a compliant slave into a buffer that does not hold the value ends at once, without success. */
  lemma SmallBufferRead(s: Server, key: Key, size: nat, rounds: nat)
    requires CanSend(s, key) && |s.store[key]| > size
    ensures ReadRun(PeerOf(s), key, size, rounds) == Reading(false, [], [FirstRequest(key)], true)
  {
    UploadStarted(s, key);
    PeerAnswers(s, [], FirstRequest(key));
    assert [] + [FirstRequest(key)] == [FirstRequest(key)];
    SmallBuffer(PeerOf(s), key, size, rounds, s.store[key], s.style, Serve(s, FirstRequest(key)).1);
  }

  lemma SmallBuffer(peer: Peer, key: Key, size: nat, rounds: nat, v: seq<byte>, style: Style, m: Mail)
    requires GoodKey(key) && |v| > size && peer([FirstRequest(key)]) == Some(m) && FirstReply(m, key, v, style)
    ensures ReadRun(peer, key, size, rounds) == Reading(false, [], [FirstRequest(key)], true)
  {
  }

  /** A read of an object that the slave does not have ends at once, without success. */
  lemma AbsentRead(s: Server, key: Key, size: nat, rounds: nat)
    requires GoodKey(key) && key !in s.store
    ensures ReadRun(PeerOf(s), key, size, rounds) == Reading(false, [], [FirstRequest(key)], true)
  {
    FirstRequestRead(key);
    PeerAnswers(s, [], FirstRequest(key));
    assert [] + [FirstRequest(key)] == [FirstRequest(key)];
  }

  /** What was written is read back: any 1 to 65535 bytes, for every way the slave may split them. */
  lemma WriteThenRead(peer: Peer, s: Server, key: Key, p: seq<byte>, maxdata: nat, log: seq<Mail>, ok: bool, size: nat,
                      rounds: nat)
    requires GoodKey(key) && 1 <= |p| < 0x1_0000 && maxdata + 8 <= SDO_ROOM
    requires Lossless(peer, s) && Wrote(peer, key, Requests(key, p, maxdata), log, ok)
    requires Compliant(s.style, p) && LongUntilLast(LaterPieces(s.style)) && |p| <= size
             && rounds >= |LaterPieces(s.style)|
    ensures ok <==> key !in s.refused
    ensures ok ==> var r := ReadRun(PeerOf(Run(s, log)), key, size, rounds); r.done && r.ok && r.data == p
  {
    WriteDelivers(peer, s, key, p, maxdata, log, ok);
    RunKeepsStyle(s, log);
    if ok { ReadReturns(Run(s, log), key, size, rounds); }
  }

  /** ecx_SDOread from a compliant slave behind a lossless mailbox. */
  method ReadFromSlave(s: Server, index: nat, sub: nat, complete: bool, size: nat, rounds: nat)
    returns (ok: bool, data: seq<byte>)
    requires index < 0x1_0000 && sub < 0x100 && size < 0x8000_0000 && rounds >= |LaterPieces(s.style)|
    requires CanSend(s, Addressed(index, sub, complete)) && |s.store[Addressed(index, sub, complete)]| <= size
    ensures ok && (data == s.store[Addressed(index, sub, complete)] <==> LongUntilLast(LaterPieces(s.style)))
  {
    ReadReturns(s, Addressed(index, sub, complete), size, rounds);
    var r := SdoUpload(PeerOf(s), index, sub, complete, size, rounds);
    ok, data := r.ok, r.data;
  }

  /** ecx_SDOwrite, then ecx_SDOread of the same object. */
  method WriteAndReadBack(s: Server, index: nat, sub: nat, complete: bool, p: seq<byte>, mbxl: nat, size: nat,
                          rounds: nat)
    returns (ok: bool, data: seq<byte>)
    requires index < 0x1_0000 && sub < 0x100 && 1 <= |p| < 0x1_0000 && 16 <= mbxl <= 1486 && |p| <= size < 0x8000_0000
    requires Compliant(s.style, p) && LongUntilLast(LaterPieces(s.style)) && rounds >= |LaterPieces(s.style)|
    ensures if Addressed(index, sub, complete) in s.refused then !ok else ok && data == p
  {
    var s';
    ok, s' := WriteToSlave(s, index, sub, complete, p, mbxl);
    data := [];
    if ok {
      ok, data := ReadFromSlave(s', index, sub, complete, size, rounds);
    }
  }

  // ----- when the segment loop ends

  /** The requests sent up to the k-th segment request. */
  function LogAfter(key: Key, log: seq<Mail>, toggle: nat, k: nat): seq<Mail>
    requires GoodKey(key) && toggle <= 0x10
    decreases k
  {
    if k == 0 then log
    else LogAfter(key, log + [UploadRequest(ECT_SDO_SEG_UP_REQ + toggle, key)], Toggled(toggle), k - 1)
  }

  /** Replies that end the loop: one that is no piece, and the last piece. Silence does not. */
  predicate Ends(reply: Option<Mail>) {
    reply.Some? && (!IsPiece(reply.value) || HasBit(Get(reply.value.body, 0), 1))
  }

  predicate EndsWithin(peer: Peer, key: Key, log: seq<Mail>, toggle: nat, rounds: nat)
    requires GoodKey(key) && toggle <= 0x10
  {
    exists k :: 1 <= k <= rounds && Ends(peer(LogAfter(key, log, toggle, k)))
  }

  /** The segment loop ends within some rounds if and only if one of its requests gets a reply that ends it. */
  lemma {:induction false} SegmentsEndIff(peer: Peer, key: Key, log: seq<Mail>, data: seq<byte>, toggle: nat,
                                          rounds: nat)
    requires GoodKey(key) && toggle <= 0x10
    ensures ReadSegments(peer, key, log, data, toggle, rounds).done <==> EndsWithin(peer, key, log, toggle, rounds)
    decreases rounds
  {
    if rounds > 0 {
      var next := log + [UploadRequest(ECT_SDO_SEG_UP_REQ + toggle, key)];
      var reply := peer(next);
      LaterEnds(peer, key, log, next, toggle, rounds);
      if !Ends(reply) {
        SegmentsEndIff(peer, key, next, if reply.Some? then data + PieceData(reply.value.body) else data,
                       Toggled(toggle), rounds - 1);
      }
    }
  }

  lemma LaterEnds(peer: Peer, key: Key, log: seq<Mail>, next: seq<Mail>, toggle: nat, rounds: nat)
    requires GoodKey(key) && toggle <= 0x10 && rounds > 0
             && next == log + [UploadRequest(ECT_SDO_SEG_UP_REQ + toggle, key)]
    ensures EndsWithin(peer, key, log, toggle, rounds) <==>
            Ends(peer(next)) || EndsWithin(peer, key, next, Toggled(toggle), rounds - 1)
  {
    var t := Toggled(toggle);
    assert LogAfter(key, next, t, 0) == next && LogAfter(key, log, toggle, 1) == next;
    if EndsWithin(peer, key, log, toggle, rounds) {
      var k :| 1 <= k <= rounds && Ends(peer(LogAfter(key, log, toggle, k)));
      assert LogAfter(key, log, toggle, k) == LogAfter(key, next, t, k - 1);
    }
    if EndsWithin(peer, key, next, t, rounds - 1) {
      var k :| 1 <= k <= rounds - 1 && Ends(peer(LogAfter(key, next, t, k)));
      assert LogAfter(key, log, toggle, k + 1) == LogAfter(key, next, t, k);
    }
  }

  /** The first reply announces more data than it holds, and the buffer is large enough. */
  predicate Announces(reply: Option<Mail>, key: Key, size: nat) {
    && reply.Some? && IsResponse(reply.value) && Short(reply.value.body, 1) == key.index
       && !HasBit(Get(reply.value.body, 0), 2)
    && Truncated(|reply.value.body| + 0xFFF8) < Long(reply.value.body, 4) <= size
  }

  /** A read ends within some rounds if and only if it is not segmented, or one of its segment requests
      gets a reply that ends the loop. */
  lemma ReadEndsIff(peer: Peer, key: Key, size: nat, rounds: nat)
    requires GoodKey(key)
    ensures ReadRun(peer, key, size, rounds).done <==>
              !Announces(peer([FirstRequest(key)]), key, size) || EndsWithin(peer, key, [FirstRequest(key)], 0, rounds)
  {
    var reply := peer([FirstRequest(key)]);
    if Announces(reply, key, size) {
      SegmentsEndIff(peer, key, [FirstRequest(key)], Part(reply.value.body, 8, Truncated(|reply.value.body| + 0xFFF8)),
                     0, rounds);
    }
  }

  /** If the slave falls silent in a segmented read, after any number of pieces, no number of rounds ends it. */
  lemma SilentSlaveHangsRead(peer: Peer, key: Key, size: nat, n: nat, rounds: nat)
    requires GoodKey(key) && Announces(peer([FirstRequest(key)]), key, size)
    requires forall k :: 1 <= k <= n ==> !Ends(peer(LogAfter(key, [FirstRequest(key)], 0, k)))
    requires forall k :: k > n ==> peer(LogAfter(key, [FirstRequest(key)], 0, k)).None?
    ensures !ReadRun(peer, key, size, rounds).done
  {
    ReadEndsIff(peer, key, size, rounds);
  }
}
