/** CoE SDO transfers (ecx_SDOwrite, ecx_SDOread): against any peer, and against a compliant slave. */
module Sdo {
  import opened Basics
  import opened Bytes
  import opened Segments
  import opened SdoServer

  const ECT_SDO_DOWN_INIT: byte := 0x21
  const ECT_SDO_DOWN_EXP: byte := 0x23
  const ECT_SDO_DOWN_INIT_CA: byte := 0x31
  const ECT_SDO_UP_REQ: byte := 0x40
  const ECT_SDO_UP_REQ_CA: byte := 0x50
  const ECT_SDO_SEG_UP_REQ: byte := 0x60

  /** Room for SDO bytes in the mailbox buffer of the master: EC_MAXMBX without mailbox and CoE header. */
  const SDO_ROOM := 1486 - 6 - 2

  predicate GoodKey(key: Key) {
    key.index < 0x1_0000 && key.sub < 0x100 && (key.complete ==> key.sub <= 1)
  }

  function Header(command: byte, key: Key): seq<byte>
    requires GoodKey(key)
  {
    [command] + WordBytes(key.index) + [key.sub]
  }

  function Request(body: seq<byte>): Mail { Mail(ECT_MBXT_COE, ECT_COES_SDOREQ, body) }

  // ----- what a write sends

  /** A frame size is kept in 16 bits. */
  function Truncated(size: nat): nat { size % 0x1_0000 }

  /** Data bytes of the first request of a normal download. */
  function FirstSize(size: nat, maxdata: nat): (n: nat)
    ensures n <= size && n <= maxdata
  {
    Min(Truncated(size), maxdata)
  }

  function FirstOut(key: Key, p: seq<byte>, maxdata: nat): (out: seq<byte>)
    requires GoodKey(key) && |p| < 0x8000_0000 && maxdata + 8 <= SDO_ROOM
    ensures |out| == SDO_ROOM
  {
    var n := FirstSize(|p|, maxdata);
    Header(if key.complete then ECT_SDO_DOWN_INIT_CA else ECT_SDO_DOWN_INIT, key) + LongBytes(|p|) + p[..n]
      + Zeros(SDO_ROOM - 8 - n)
  }

  /** The mailbox buffer is reused from one segment to the next: a segment overwrites its beginning. */
  function SegmentOut(out: seq<byte>, command: byte, data: seq<byte>): (r: seq<byte>)
    requires |out| == SDO_ROOM && |data| + 1 <= SDO_ROOM
    ensures |r| == SDO_ROOM
  {
    [command] + data + out[1 + |data|..]
  }

  /** The segments for `rest`: as long as the truncated rest does not fit one. */
  function SegmentRequests(out: seq<byte>, rest: seq<byte>, toggle: nat, maxdata: nat): seq<Mail>
    requires |out| == SDO_ROOM && 7 <= maxdata < SDO_ROOM && toggle <= 0x10
    decreases |rest|
  {
    var n := Truncated(|rest|);
    if n > maxdata then
      var out' := SegmentOut(out, toggle, rest[..maxdata]);
      [Request(out'[..1 + maxdata])] + SegmentRequests(out', rest[maxdata..], Toggled(toggle), maxdata)
    else if n < 7 then [Request(SegmentOut(out, 0x01 + (7 - n) * 2 + toggle, rest[..n])[..8])]
    else [Request(SegmentOut(out, 0x01 + toggle, rest[..n])[..1 + n])]
  }

  /** The segments behind the first request of a normal download, if it needs any. */
  function LaterRequests(key: Key, p: seq<byte>, maxdata: nat): seq<Mail>
    requires GoodKey(key) && |p| < 0x8000_0000 && maxdata + 8 <= SDO_ROOM
  {
    if Truncated(|p|) > maxdata then SegmentRequests(FirstOut(key, p, maxdata), p[maxdata..], 0, maxdata + 7) else []
  }

  /** Everything a write sends if all goes well. `maxdata` is the mailbox length less 16. */
  function Requests(key: Key, p: seq<byte>, maxdata: nat): (r: seq<Mail>)
    requires GoodKey(key) && |p| < 0x8000_0000 && maxdata + 8 <= SDO_ROOM
    ensures |r| >= 1
  {
    if |p| <= 4 && !key.complete then [Request(Header(ECT_SDO_DOWN_EXP + (4 - |p|) % 4 * 4, key) + p + Zeros(4 - |p|))]
    else
      var out, n := FirstOut(key, p, maxdata), FirstSize(|p|, maxdata);
      [Request(out[..8 + n])] + LaterRequests(key, p, maxdata)
  }

  // ----- replies

  predicate IsResponse(m: Mail) {
    m.mtype == ECT_MBXT_COE && m.service == ECT_COES_SDORES
  }

  /** The reply accepts the first request. */
  predicate InitGood(r: Option<Mail>, key: Key) {
    r.Some? && IsResponse(r.value) && Short(r.value.body, 1) == key.index && Get(r.value.body, 3) == key.sub
  }

  predicate SegmentGood(r: Option<Mail>) {
    r.Some? && IsResponse(r.value) && Get(r.value.body, 0) / 0x20 == 1
  }

  /** The reply to the first k requests lets the write go on. A segment that is not answered at all does too. */
  predicate GoesOn(peer: Peer, key: Key, log: seq<Mail>, k: nat)
    requires 1 <= k <= |log|
  {
    if k == 1 then InitGood(peer(log[..1]), key) else peer(log[..k]).None? || SegmentGood(peer(log[..k]))
  }

  predicate Good(peer: Peer, key: Key, log: seq<Mail>)
    requires |log| >= 1
  {
    if |log| == 1 then InitGood(peer(log), key) else SegmentGood(peer(log))
  }

  /** The reply is a CoE message (mailbox type 3) with an SDO response (service 3); if `first`, to a request for
      this object: index and subindex stand behind the command byte. */
  predicate Confirms(r: Option<Mail>, index: nat, sub: nat, first: bool) {
    && r.Some? && r.value.mtype == 3 && r.value.service == 3
    && (first ==> Get(r.value.body, 1) + 0x100 * Get(r.value.body, 2) == index && Get(r.value.body, 3) == sub)
    && (!first ==> Get(r.value.body, 0) / 0x20 == 1)
  }

  /** What a write did: it sent a beginning of the requests, up to the first bad reply, and reports the
      last exchange. */
  predicate Wrote(peer: Peer, key: Key, reqs: seq<Mail>, log: seq<Mail>, ok: bool) {
    && 1 <= |log| <= |reqs| && log == reqs[..|log|]
    && (forall k {:trigger GoesOn(peer, key, log, k)} :: 1 <= k < |log| ==> GoesOn(peer, key, log, k))
    && (|log| < |reqs| ==> !GoesOn(peer, key, log, |log|))
    && (ok <==> |log| == |reqs| && Good(peer, key, log))
  }

  /** All requests sent so far may be followed by the next one. */
  predicate Going(peer: Peer, key: Key, log: seq<Mail>) {
    |log| >= 1 && forall k {:trigger GoesOn(peer, key, log, k)} :: 1 <= k <= |log| ==> GoesOn(peer, key, log, k)
  }

  /** One more request: the write goes on with `left`, is finished, or stops at a bad reply. */
  lemma SentOneMore(peer: Peer, key: Key, all: seq<Mail>, log: seq<Mail>, m: Mail, left: seq<Mail>)
    requires Going(peer, key, log) && all == log + ([m] + left)
    ensures var next, reply := log + [m], peer(log + [m]);
      && all == next + left
      && (if reply.None? || SegmentGood(reply) then Going(peer, key, next) else Wrote(peer, key, all, next, false))
      && (left == [] ==> Wrote(peer, key, all, next, SegmentGood(reply)))
  {
    var next := log + [m];
    assert all == next + left;
    assert all[..|next|] == next == next[..|next|];
    forall k {:trigger GoesOn(peer, key, next, k)} | 1 <= k <= |log|
      ensures GoesOn(peer, key, next, k)
    {
      assert next[..k] == log[..k];
      assert GoesOn(peer, key, log, k);
    }
  }

  /** Build one segment in the mailbox buffer. */
  method NextSegment(out: seq<byte>, rest: seq<byte>, toggle: nat, maxdata: nat)
    returns (out': seq<byte>, rest': seq<byte>, m: Mail, notLast: bool)
    requires |out| == SDO_ROOM && 7 <= maxdata < SDO_ROOM && toggle <= 0x10
    ensures |out'| == SDO_ROOM && (notLast ==> |rest'| < |rest|)
    ensures SegmentRequests(out, rest, toggle, maxdata)
            == [m] + if notLast then SegmentRequests(out', rest', Toggled(toggle), maxdata) else []
  {
    var n, command: byte := Truncated(|rest|), 0x01;
    notLast := false;
    if n > maxdata {
      n, notLast, command := maxdata, true, 0x00;
    }
    var length := n + 1;
    if !notLast && n < 7 {
      length, command := 8, 0x01 + (7 - n) * 2;
    }
    out' := SegmentOut(out, command + toggle, rest[..n]);
    rest' := rest[n..];
    m := Request(out'[..length]);
  }

  /** The segments for `rest` are left of `all`. */
  ghost predicate Segmenting(peer: Peer, key: Key, all: seq<Mail>, log: seq<Mail>, out: seq<byte>, rest: seq<byte>,
                             toggle: nat, maxdata: nat) {
    && |out| == SDO_ROOM && 7 <= maxdata < SDO_ROOM && (toggle == 0 || toggle == 0x10) && Going(peer, key, log)
    && all == log + SegmentRequests(out, rest, toggle, maxdata)
  }

  /** One round of the segment loop; `more` tells whether there is another. */
  method WriteSegment(peer: Peer, key: Key, ghost all: seq<Mail>, log0: seq<Mail>, out0: seq<byte>, rest0: seq<byte>,
                      toggle: nat, maxdata: nat)
    returns (log: seq<Mail>, out: seq<byte>, rest: seq<byte>, ok: bool, more: bool)
    requires Segmenting(peer, key, all, log0, out0, rest0, toggle, maxdata)
    ensures if more then |rest| < |rest0| && Segmenting(peer, key, all, log, out, rest, Toggled(toggle), maxdata)
            else Wrote(peer, key, all, log, ok)
  {
    var m;
    out, rest, m, more := NextSegment(out0, rest0, toggle, maxdata);
    ghost var left := if more then SegmentRequests(out, rest, Toggled(toggle), maxdata) else [];
    SentOneMore(peer, key, all, log0, m, left);
    log := log0 + [m];
    var reply := peer(log);
    ok := reply.Some?;
    if reply.Some? && !SegmentGood(reply) {
      ok, more := false, false;
    }
  }

  /** The segment loop of a write. */
  method WriteSegments(peer: Peer, key: Key, first: Mail, out0: seq<byte>, p: seq<byte>, maxdata: nat,
                       ghost all: seq<Mail>)
    returns (ok: bool, log: seq<Mail>)
    requires Segmenting(peer, key, all, [first], out0, p, 0, maxdata)
    ensures Wrote(peer, key, all, log, ok)
  {
    var out, rest, toggle, notLast := out0, p, 0, true;
    log, ok := [first], true;
    while notLast
      invariant if notLast then Segmenting(peer, key, all, log, out, rest, toggle, maxdata)
                else Wrote(peer, key, all, log, ok)
      decreases notLast, |rest|
    {
      log, out, rest, ok, notLast := WriteSegment(peer, key, all, log, out, rest, toggle, maxdata);
      toggle := if toggle == 0 then 0x10 else 0;
    }
  }

  lemma HeaderBytes(command: byte, key: Key, tail: seq<byte>)
    requires GoodKey(key)
    ensures var b := Header(command, key) + tail;
      b[0] == command && (b[1] as nat) + 0x100 * (b[2] as nat) == key.index && b[3] == key.sub
  {
  }

  /** The first request of a write asks for a download of its object. */
  lemma FirstAsks(key: Key, p: seq<byte>, maxdata: nat)
    requires GoodKey(key) && |p| < 0x8000_0000 && maxdata + 8 <= SDO_ROOM
    ensures Asks(Requests(key, p, maxdata)[0], 1, key.index, key.sub, key.complete)
  {
    if |p| <= 4 && !key.complete {
      ExpeditedBits(|p|);
      var c: byte := ECT_SDO_DOWN_EXP + (4 - |p|) % 4 * 4;
      HeaderBytes(c, key, p + Zeros(4 - |p|));
      assert Header(c, key) + p + Zeros(4 - |p|) == Header(c, key) + (p + Zeros(4 - |p|));
    } else {
      var c: byte := if key.complete then ECT_SDO_DOWN_INIT_CA else ECT_SDO_DOWN_INIT;
      var n := FirstSize(|p|, maxdata);
      HeaderBytes(c, key, LongBytes(|p|) + p[..n]);
      assert FirstOut(key, p, maxdata)[..8 + n] == Header(c, key) + (LongBytes(|p|) + p[..n]);
    }
  }

  /** What was said on a write, in bytes: a download of this object was asked for, and success was reported only if
      that was confirmed, and the last segment too. */
  predicate Talked(peer: Peer, log: seq<Mail>, ok: bool, index: nat, sub: nat, complete: bool) {
    && |log| >= 1 && Asks(log[0], 1, index, sub, complete)
    && (ok ==> Confirms(peer(log[..1]), index, sub, true))
    && (ok && |log| > 1 ==> Confirms(peer(log), index, sub, false))
  }

  /** Success, whatever the peer. */
  lemma WriteTalked(peer: Peer, key: Key, p: seq<byte>, maxdata: nat, log: seq<Mail>, ok: bool)
    requires GoodKey(key) && |p| < 0x8000_0000 && maxdata + 8 <= SDO_ROOM
    requires Wrote(peer, key, Requests(key, p, maxdata), log, ok)
    ensures Talked(peer, log, ok, key.index, key.sub, key.complete)
  {
    FirstAsks(key, p, maxdata);
    assert log[0] == Requests(key, p, maxdata)[0];
    if ok {
      if |log| == 1 {
        assert log[..1] == log;
      } else {
        assert GoesOn(peer, key, log, 1);
      }
    }
  }

  /** A segment that is not answered does not stop a write, nor does one that is confirmed; any other reply does. */
  lemma StopsAtReply(peer: Peer, key: Key, reqs: seq<Mail>, log: seq<Mail>, ok: bool, k: nat)
    requires Wrote(peer, key, reqs, log, ok) && 1 < k <= |log| && k < |reqs|
    ensures k < |log| <==> peer(log[..k]) == None || Confirms(peer(log[..k]), key.index, key.sub, false)
  {
    assert log[..|log|] == log;
    if k < |log| { assert GoesOn(peer, key, log, k); }
  }

  /** What a call addresses: with complete access a subindex above 1 becomes 1. */
  function Addressed(index: nat, sub: nat, complete: bool): (key: Key)
    requires index < 0x1_0000 && sub < 0x100
    ensures GoodKey(key)
  {
    Key(index, if complete && sub > 1 then 1 else sub, complete)
  }

  /** ecx_SDOwrite. `mbxl` is the length of the write mailbox of the slave. */
  method SdoWrite(peer: Peer, index: nat, sub0: nat, complete: bool, p: seq<byte>, mbxl: nat)
    returns (ok: bool, log: seq<Mail>)
    requires index < 0x1_0000 && sub0 < 0x100 && |p| < 0x8000_0000 && 16 <= mbxl <= 1486
    ensures Wrote(peer, Addressed(index, sub0, complete), Requests(Addressed(index, sub0, complete), p, mbxl - 16), log,
                  ok)
    ensures Talked(peer, log, ok, index, if complete && sub0 > 1 then 1 else sub0, complete)
  {
    var maxdata := mbxl - 16;
    var sub := if complete && sub0 > 1 then 1 else sub0;
    var k := Key(index, sub, complete);
    if |p| <= 4 && !complete {
      log := [Request(Header(ECT_SDO_DOWN_EXP + (4 - |p|) % 4 * 4, k) + p + Zeros(4 - |p|))];
      ok := InitGood(peer(log), k);
    } else {
      var out, n := FirstOut(k, p, maxdata), FirstSize(|p|, maxdata);
      var first := Request(out[..8 + n]);
      log := [first];
      assert log[..1] == log;
      ok := InitGood(peer(log), k);
      if ok && Truncated(|p|) > maxdata {
        ok, log := WriteSegments(peer, k, first, out, p[n..], maxdata + 7, Requests(k, p, maxdata));
      }
    }
    WriteTalked(peer, k, p, maxdata, log, ok);
  }

  // ----- writing to a compliant slave

  /** What is stored after a write: `p` when its size fits 16 bits; an empty one is sent as four zero
      bytes unless complete access is used; of a longer one nothing is stored. */
  function StoredBy(store: map<Key, seq<byte>>, key: Key, p: seq<byte>): map<Key, seq<byte>> {
    if |p| == 0 && !key.complete then store[key := Zeros(4)]
    else if |p| < 0x1_0000 then store[key := p]
    else store
  }

  /** The slave received the beginning `got` of a download that will have |got| + |rest| bytes. */
  predicate Receiving(s: Server, key: Key, got: seq<byte>, size: nat, toggle: nat) {
    s.transfer == Download(key, size, got, toggle)
  }

  /** What one segment does to the slave: the server of the next state, and an accepting reply unless
      it is the last and the sizes differ. */
  lemma SegmentServed(s: Server, key: Key, got: seq<byte>, size: nat, toggle: nat, data: seq<byte>, last: bool, m: Mail)
    requires Receiving(s, key, got, size, toggle) && (toggle == 0 || toggle == 0x10)
    requires ToggleOf(m.body) == toggle && Get(m.body, 0) / 0x20 == 0 && HasBit(Get(m.body, 0), 1) == last
             && SegmentData(m.body) == data
    ensures var (s', reply) := Serve(s, m);
      if !last then Receiving(s', key, got + data, size, Toggled(toggle)) && s'.store == s.store
         && SegmentGood(Some(reply))
      else s'.store == (if |got + data| == size then s.store[key := got + data] else s.store)
           && (SegmentGood(Some(reply)) <==> |got + data| == size)
  {
  }

  lemma CommandBits(last: nat, pad: nat, toggle: nat)
    requires last <= 1 && pad <= 7 && (toggle == 0 || toggle == 0x10)
    ensures var c := last + pad * 2 + toggle;
      c < 0x20 && HasBit(c, 1) == (last == 1) && c / 2 % 8 == pad && HasBit(c, 0x10) == (toggle == 0x10)
  {
  }

  /** The slave reads from a segment what was put into it, whatever else is in the buffer. */
  lemma SegmentRead(out: seq<byte>, toggle: nat, data: seq<byte>, last: bool)
    requires |out| == SDO_ROOM && (toggle == 0 || toggle == 0x10) && |data| + 1 <= SDO_ROOM && (last || |data| >= 7)
    ensures var pad := if last && |data| < 7 then 7 - |data| else 0;
      var b := SegmentOut(out, (if last then 1 else 0) + pad * 2 + toggle, data)[..1 + |data| + pad];
      && ToggleOf(b) == toggle && Get(b, 0) / 0x20 == 0 && HasBit(Get(b, 0), 1) == last && SegmentData(b) == data
  {
    var pad, l := if last && |data| < 7 then 7 - |data| else 0, if last then 1 else 0;
    CommandBits(l, pad, toggle);
    var b := SegmentOut(out, l + pad * 2 + toggle, data)[..1 + |data| + pad];
    assert b[0] == l + pad * 2 + toggle && b[1..1 + |data|] == data;
  }

  /** The slave accepts all requests but perhaps the last, and that one as told. */
  predicate Accepts(s: Server, reqs: seq<Mail>, lastToo: bool)
    decreases reqs
  {
    && |reqs| >= 1
    && var (s', reply) := Serve(s, reqs[0]);
       if |reqs| == 1 then SegmentGood(Some(reply)) == lastToo
       else SegmentGood(Some(reply)) && Accepts(s', reqs[1..], lastToo)
  }

  /** All segments of a download: the slave stores everything if the rest fits 16 bits, and else
      refuses the last segment. */
  lemma {:induction false} SegmentsServed(s: Server, key: Key, got: seq<byte>, size: nat, out: seq<byte>,
                                          rest: seq<byte>, toggle: nat, maxdata: nat)
    requires Receiving(s, key, got, size, toggle) && size == |got| + |rest|
    requires |out| == SDO_ROOM && 7 <= maxdata < SDO_ROOM && (toggle == 0 || toggle == 0x10)
    ensures var reqs := SegmentRequests(out, rest, toggle, maxdata);
      && Run(s, reqs).store == (if |rest| < 0x1_0000 then s.store[key := got + rest] else s.store)
      && Accepts(s, reqs, |rest| < 0x1_0000)
    decreases |rest|
  {
    var n := Truncated(|rest|);
    var last, data := n <= maxdata, rest[..Min(n, maxdata)];
    var m, out' := SegmentsUnfold(out, rest, toggle, maxdata);
    SegmentServed(s, key, got, size, toggle, data, last, m);
    var s' := Serve(s, m).0;
    if last {
      ServedFirst(s, m, [], |rest| < 0x1_0000);
      Joined(got, rest, n);
    } else {
      SegmentsServed(s', key, got + data, size, out', rest[maxdata..], Toggled(toggle), maxdata);
      ServedFirst(s, m, SegmentRequests(out', rest[maxdata..], Toggled(toggle), maxdata), |rest| < 0x1_0000);
      Joined(got, rest, maxdata);
      StillLong(|rest|, maxdata);
    }
  }

  lemma Joined(got: seq<byte>, rest: seq<byte>, n: nat)
    requires n <= |rest|
    ensures (got + rest[..n]) + rest[n..] == got + rest
    ensures n == |rest| ==> rest[..n] == rest
  {
  }

  lemma ServedFirst(s: Server, m: Mail, later: seq<Mail>, lastToo: bool)
    ensures Run(s, [m] + later) == Run(Serve(s, m).0, later)
    ensures later == [] && SegmentGood(Some(Serve(s, m).1)) == lastToo ==> Accepts(s, [m] + later, lastToo)
    ensures SegmentGood(Some(Serve(s, m).1)) && Accepts(Serve(s, m).0, later, lastToo) ==>
            Accepts(s, [m] + later, lastToo)
  {
    var reqs := [m] + later;
    assert reqs[0] == m && reqs[1..] == later;
  }

  lemma SegmentsUnfold(out: seq<byte>, rest: seq<byte>, toggle: nat, maxdata: nat) returns (m: Mail, out': seq<byte>)
    requires |out| == SDO_ROOM && 7 <= maxdata < SDO_ROOM && (toggle == 0 || toggle == 0x10)
    ensures |out'| == SDO_ROOM
    ensures var n := Truncated(|rest|);
      && ToggleOf(m.body) == toggle && Get(m.body, 0) / 0x20 == 0 && HasBit(Get(m.body, 0), 1) == (n <= maxdata)
      && SegmentData(m.body) == rest[..Min(n, maxdata)]
      && SegmentRequests(out, rest, toggle, maxdata)
         == [m] + if n <= maxdata then [] else SegmentRequests(out', rest[maxdata..], Toggled(toggle), maxdata)
  {
    var n := Truncated(|rest|);
    var last, data := n <= maxdata, rest[..Min(n, maxdata)];
    SegmentRead(out, toggle, data, last);
    out' := SegmentOut(out, toggle, data);
    m := SegmentRequests(out, rest, toggle, maxdata)[0];
  }

  /** A size that does not fit 16 bits never becomes one that does: it is reduced only while its low
      16 bits exceed the reduction. */
  lemma StillLong(size: nat, maxdata: nat)
    requires Truncated(size) > maxdata
    ensures size - maxdata < 0x1_0000 <==> size < 0x1_0000
  {
  }

  /** Index, subindex and the reply address of a request. */
  lemma HeaderRead(command: byte, key: Key, tail: seq<byte>)
    requires GoodKey(key) && HasBit(command, 0x10) == key.complete
    ensures var b := Header(command, key) + tail;
      Get(b, 0) == command && KeyOf(b) == key && InitGood(Some(Response(0x60, b, Zeros(4))), key)
  {
    var b := Header(command, key) + tail;
    assert b[1..3] == WordBytes(key.index);
    var r := Response(0x60, b, Zeros(4)).body;
    assert r[1..3] == WordBytes(key.index);
  }

  lemma ExpeditedBits(n: nat)
    requires n <= 4
    ensures var c := ECT_SDO_DOWN_EXP + (4 - n) % 4 * 4;
      c < 0x40 && c / 0x20 == 1 && HasBit(c, 2) && HasBit(c, 1) && !HasBit(c, 0x10) && 4 - c / 4 % 4
        == if n == 0 then 4 else n
  {
  }

  lemma ExpeditedServed(s: Server, key: Key, p: seq<byte>)
    requires GoodKey(key) && !key.complete && |p| <= 4 && key !in s.refused
    ensures var (s', reply) :=
            Serve(s, Request(Header(ECT_SDO_DOWN_EXP + (4 - |p|) % 4 * 4, key) + p + Zeros(4 - |p|)));
      InitGood(Some(reply), key) && s'.store == s.store[key := if |p| == 0 then Zeros(4) else p]
  {
    var c: byte := ECT_SDO_DOWN_EXP + (4 - |p|) % 4 * 4;
    var tail := p + Zeros(4 - |p|);
    assert Header(c, key) + p + Zeros(4 - |p|) == Header(c, key) + tail;
    ExpeditedBits(|p|);
    HeaderRead(c, key, tail);
    ExpeditedData(Header(c, key), p);
    ExpeditedStored(s, key, Header(c, key) + tail, if |p| == 0 then Zeros(4) else p);
  }

  lemma ExpeditedData(header: seq<byte>, p: seq<byte>)
    requires |header| == 4 && |p| <= 4
    ensures Part(header + (p + Zeros(4 - |p|)), 4, if |p| == 0 then 4 else |p|) == if |p| == 0 then Zeros(4) else p
  {
    var b := header + (p + Zeros(4 - |p|));
    assert b[4..] == p + Zeros(4 - |p|);
  }

  lemma ExpeditedStored(s: Server, key: Key, b: seq<byte>, v: seq<byte>)
    requires key !in s.refused && KeyOf(b) == key && InitGood(Some(Response(0x60, b, Zeros(4))), key)
    requires Get(b, 0) / 0x20 == 1 && HasBit(Get(b, 0), 2) && HasBit(Get(b, 0), 1)
             && Part(b, 4, 4 - Get(b, 0) / 4 % 4) == v
    ensures var (s', reply) := Serve(s, Request(b)); InitGood(Some(reply), key) && s'.store == s.store[key := v]
  {
  }

  /** The slave took the first n bytes of p: it stored them if they are all. */
  predicate Started(s: Server, s': Server, key: Key, p: seq<byte>, n: nat)
    requires n <= |p|
  {
    if n == |p| then s'.store == s.store[key := p] else s'.store == s.store && Receiving(s', key, p[..n], |p|, 0)
  }

  lemma NormalServed(s: Server, key: Key, p: seq<byte>, maxdata: nat)
    requires GoodKey(key) && |p| < 0x8000_0000 && maxdata + 8 <= SDO_ROOM && key !in s.refused
    ensures var n := FirstSize(|p|, maxdata);
      var (s', reply) := Serve(s, Request(FirstOut(key, p, maxdata)[..8 + n]));
      InitGood(Some(reply), key) && Started(s, s', key, p, n)
  {
    var n := FirstSize(|p|, maxdata);
    var c: byte := if key.complete then ECT_SDO_DOWN_INIT_CA else ECT_SDO_DOWN_INIT;
    var b, tail := FirstOut(key, p, maxdata)[..8 + n], LongBytes(|p|) + p[..n];
    assert b == Header(c, key) + tail;
    HeaderRead(c, key, tail);
    NormalData(Header(c, key), p, n, b);
    NormalStored(s, key, b, p, n);
  }

  lemma NormalData(header: seq<byte>, p: seq<byte>, n: nat, b: seq<byte>)
    requires |header| == 4 && |p| < 0x8000_0000 && n <= |p| && b == header + (LongBytes(|p|) + p[..n])
    ensures Long(b, 4) == |p| && |b| == 8 + n && (n > 0 ==> b[8..] == p[..n])
  {
    assert b[4..8] == LongBytes(|p|);
  }

  lemma NormalStored(s: Server, key: Key, b: seq<byte>, p: seq<byte>, n: nat)
    requires key !in s.refused && KeyOf(b) == key && InitGood(Some(Response(0x60, b, Zeros(4))), key)
    requires Get(b, 0) / 0x20 == 1 && !HasBit(Get(b, 0), 2)
    requires n <= |p| && Long(b, 4) == |p| && |b| == 8 + n && (n > 0 ==> b[8..] == p[..n])
    ensures var (s', reply) := Serve(s, Request(b)); InitGood(Some(reply), key) && Started(s, s', key, p, n)
  {
    assert n == |p| ==> p[..n] == p;
  }

  lemma {:induction false} AcceptedAt(s: Server, reqs: seq<Mail>, lastToo: bool, j: nat)
    requires Accepts(s, reqs, lastToo) && j < |reqs|
    ensures SegmentGood(Some(Serve(Run(s, reqs[..j]), reqs[j]).1)) == (j < |reqs| - 1 || lastToo)
    decreases j
  {
    if j > 0 {
      AcceptedAt(Serve(s, reqs[0]).0, reqs[1..], lastToo, j - 1);
      assert reqs[..j][1..] == reqs[1..][..j - 1];
    }
  }

  /** What the slave replies to the k-th request, in terms of its state after the first. */
  lemma ReplyAt(peer: Peer, s: Server, first: Server, reqs: seq<Mail>, rest: seq<Mail>, k: nat)
    requires Lossless(peer, s) && 1 < k <= |reqs| && rest == reqs[1..] && first == Serve(s, reqs[0]).0
    ensures peer(reqs[..k]) == Some(Serve(Run(first, rest[..k - 2]), rest[k - 2]).1)
  {
    assert reqs[..k - 1][1..] == rest[..k - 2];
    assert reqs[..k] == reqs[..k - 1] + [reqs[k - 1]];
  }

  /** The slave answers every request of a write, and accepts all but perhaps the last. */
  lemma RepliesTo(peer: Peer, s: Server, first: Server, key: Key, reqs: seq<Mail>, rest: seq<Mail>, lastToo: bool,
                  k: nat)
    requires Lossless(peer, s) && 1 < k <= |reqs| && rest == reqs[1..] && first == Serve(s, reqs[0]).0
    ensures Accepts(first, rest, lastToo) ==>
      SegmentGood(peer(reqs[..k])) == (k < |reqs| || lastToo) && (k < |reqs| ==> GoesOn(peer, key, reqs, k))
  {
    ReplyAt(peer, s, first, reqs, rest, k);
    if Accepts(first, rest, lastToo) { AcceptedAt(first, rest, lastToo, k - 2); }
  }

  /** A write to a slave that answers everything sends everything. */
  lemma WroteAll(peer: Peer, s: Server, key: Key, reqs: seq<Mail>, lastToo: bool, log: seq<Mail>, ok: bool)
    requires Lossless(peer, s) && Wrote(peer, key, reqs, log, ok)
    requires InitGood(Some(Serve(s, reqs[0]).1), key)
    requires if |reqs| == 1 then lastToo else Accepts(Serve(s, reqs[0]).0, reqs[1..], lastToo)
    ensures log == reqs && ok == lastToo
  {
    assert reqs[..1] == [reqs[0]] && log[..1] == [reqs[0]];
    assert peer([] + [reqs[0]]) == Some(Serve(s, reqs[0]).1) && [] + [reqs[0]] == [reqs[0]];
    assert log[..|log|] == log && reqs[..|reqs|] == reqs;
    if |log| > 1 { RepliesTo(peer, s, Serve(s, reqs[0]).0, key, reqs, reqs[1..], lastToo, |log|); }
  }

  /** A download of an object that cannot be written is answered by an abort. */
  lemma RefusedServed(s: Server, key: Key, m: Mail)
    requires GoodKey(key) && Asks(m, 1, key.index, key.sub, key.complete) && key in s.refused
    ensures var (s', reply) := Serve(s, m);
      s'.store == s.store && reply.service != ECT_COES_SDORES && Get(reply.body, 0) == ECT_SDO_ABORT
  {
    assert KeyOf(m.body) == key;
  }

  /** Such a write stops at once, changes nothing, and reports no success. */
  lemma RefusedWrite(peer: Peer, s: Server, key: Key, p: seq<byte>, maxdata: nat, log: seq<Mail>, ok: bool)
    requires Lossless(peer, s) && GoodKey(key) && |p| < 0x8000_0000 && maxdata + 8 <= SDO_ROOM && key in s.refused
    requires Wrote(peer, key, Requests(key, p, maxdata), log, ok)
    ensures !ok && |log| == 1 && Run(s, log).store == s.store
  {
    var first := Requests(key, p, maxdata)[0];
    FirstAsks(key, p, maxdata);
    RefusedServed(s, key, first);
    assert log[..1] == [first] && peer([] + [first]) == Some(Serve(s, first).1) && [] + [first] == [first];
    assert !GoesOn(peer, key, log, 1);
    assert log == [first] && Run(s, log) == Run(Serve(s, first).0, []);
  }

  /** An SDO write to a compliant slave behind a lossless mailbox: if the object can be written, the slave ends with
      exactly the given bytes if and only if there are at most 65535 of them, and at least one unless complete
      access is used (an empty object becomes four zero bytes). Success is reported wrongly when the
      bytes are too many but their truncated size fits the first request. If the object cannot be written, nothing
      is changed and no success is reported. */
  lemma WriteDelivers(peer: Peer, s: Server, key: Key, p: seq<byte>, maxdata: nat, log: seq<Mail>, ok: bool)
    requires Lossless(peer, s) && GoodKey(key) && |p| < 0x8000_0000 && maxdata + 8 <= SDO_ROOM
    requires Wrote(peer, key, Requests(key, p, maxdata), log, ok)
    ensures Run(s, log).store == if key in s.refused then s.store else StoredBy(s.store, key, p)
    ensures ok <==> key !in s.refused && (|p| < 0x1_0000 || Truncated(|p|) <= maxdata)
  {
    if key in s.refused {
      RefusedWrite(peer, s, key, p, maxdata, log, ok);
    } else if |p| <= 4 && !key.complete {
      var reqs := Requests(key, p, maxdata);
      ExpeditedServed(s, key, p);
      WroteAll(peer, s, key, reqs, true, log, ok);
      assert Run(s, reqs) == Run(Serve(s, reqs[0]).0, []);
    } else {
      NormalDelivers(peer, s, key, p, maxdata, log, ok);
    }
  }

  lemma {:induction false} RunKeepsStyle(s: Server, log: seq<Mail>)
    ensures Run(s, log).style == s.style && Run(s, log).refused == s.refused
    decreases log
  {
    if log != [] { RunKeepsStyle(Serve(s, log[0]).0, log[1..]); }
  }

  /** ecx_SDOwrite to a compliant slave behind a lossless mailbox. */
  method WriteToSlave(s: Server, index: nat, sub: nat, complete: bool, p: seq<byte>, mbxl: nat)
    returns (ok: bool, s': Server)
    requires index < 0x1_0000 && sub < 0x100 && |p| < 0x8000_0000 && 16 <= mbxl <= 1486
    ensures WrittenTo(s, s', Addressed(index, sub, complete), p, mbxl - 16, ok)
  {
    var peer := Attach(s);
    var log;
    ok, log := SdoWrite(peer, index, sub, complete, p, mbxl);
    WriteEnds(peer, s, Addressed(index, sub, complete), p, mbxl - 16, log, ok);
    s' := Run(s, log);
  }

  /** The slave after a write, and its success. */
  ghost predicate WrittenTo(s: Server, s': Server, key: Key, p: seq<byte>, maxdata: nat, ok: bool) {
    && s'.style == s.style && s'.refused == s.refused
    && s'.store == (if key in s.refused then s.store else StoredBy(s.store, key, p))
    && (ok <==> key !in s.refused && (|p| < 0x1_0000 || Truncated(|p|) <= maxdata))
  }

  lemma WriteEnds(peer: Peer, s: Server, key: Key, p: seq<byte>, maxdata: nat, log: seq<Mail>, ok: bool)
    requires Lossless(peer, s) && GoodKey(key) && |p| < 0x8000_0000 && maxdata + 8 <= SDO_ROOM
    requires Wrote(peer, key, Requests(key, p, maxdata), log, ok)
    ensures WrittenTo(s, Run(s, log), key, p, maxdata, ok)
  {
    WriteDelivers(peer, s, key, p, maxdata, log, ok);
    RunKeepsStyle(s, log);
  }

  lemma NormalDelivers(peer: Peer, s: Server, key: Key, p: seq<byte>, maxdata: nat, log: seq<Mail>, ok: bool)
    requires Lossless(peer, s) && GoodKey(key) && |p| < 0x8000_0000 && maxdata + 8 <= SDO_ROOM
             && (|p| > 4 || key.complete) && key !in s.refused
    requires Wrote(peer, key, Requests(key, p, maxdata), log, ok)
    ensures Run(s, log).store == (if |p| < 0x1_0000 then s.store[key := p] else s.store)
    ensures ok <==> |p| < 0x1_0000 || Truncated(|p|) <= maxdata
  {
    NormalServed(s, key, p, maxdata);
    RequestsOf(peer, s, key, p, maxdata, Request(FirstOut(key, p, maxdata)[..8 + FirstSize(|p|, maxdata)]), log, ok);
  }

  lemma RequestsOf(peer: Peer, s: Server, key: Key, p: seq<byte>, maxdata: nat, first: Mail, log: seq<Mail>, ok: bool)
    requires Lossless(peer, s) && GoodKey(key) && |p| < 0x8000_0000 && maxdata + 8 <= SDO_ROOM
    requires Wrote(peer, key, [first] + LaterRequests(key, p, maxdata), log, ok)
    requires InitGood(Some(Serve(s, first).1), key)
    requires Started(s, Serve(s, first).0, key, p, FirstSize(|p|, maxdata))
    ensures Run(s, log).store == (if |p| < 0x1_0000 then s.store[key := p] else s.store)
    ensures ok <==> |p| < 0x1_0000 || Truncated(|p|) <= maxdata
  {
    var later := LaterRequests(key, p, maxdata);
    assert if later == [] then Truncated(|p|) <= maxdata else Accepts(Serve(s, first).0, later, |p| < 0x1_0000) by {
      LaterServed(s, Serve(s, first).0, key, p, maxdata);
    }
    WroteRest(peer, s, key, first, later, |p| < 0x1_0000 || later == [], log, ok);
    LaterServed(s, Serve(s, first).0, key, p, maxdata);
  }

  lemma LaterServed(s: Server, s': Server, key: Key, p: seq<byte>, maxdata: nat)
    requires GoodKey(key) && |p| < 0x8000_0000 && maxdata + 8 <= SDO_ROOM
    requires Started(s, s', key, p, FirstSize(|p|, maxdata))
    ensures var later := LaterRequests(key, p, maxdata);
      && Run(s', later).store == (if |p| < 0x1_0000 then s.store[key := p] else s.store)
      && (later == [] <==> Truncated(|p|) <= maxdata)
      && (later != [] ==> Accepts(s', later, |p| < 0x1_0000))
  {
    if Truncated(|p|) > maxdata { NormalSegments(s', key, p, maxdata); }
  }

  lemma WroteRest(peer: Peer, s: Server, key: Key, first: Mail, segs: seq<Mail>, lastToo: bool, log: seq<Mail>,
                  ok: bool)
    requires Lossless(peer, s) && Wrote(peer, key, [first] + segs, log, ok) && InitGood(Some(Serve(s, first).1), key)
    requires if segs == [] then lastToo else Accepts(Serve(s, first).0, segs, lastToo)
    ensures ok == lastToo && Run(s, log) == Run(Serve(s, first).0, segs)
  {
    var reqs := [first] + segs;
    assert reqs[0] == first && reqs[1..] == segs;
    WroteAll(peer, s, key, reqs, lastToo, log, ok);
  }

  lemma Split(p: seq<byte>, n: nat)
    requires n <= |p|
    ensures p[..n] + p[n..] == p
  {
  }

  lemma NormalSegments(s: Server, key: Key, p: seq<byte>, maxdata: nat)
    requires GoodKey(key) && |p| < 0x8000_0000 && maxdata + 8 <= SDO_ROOM && Truncated(|p|) > maxdata
    requires Receiving(s, key, p[..maxdata], |p|, 0)
    ensures var reqs := LaterRequests(key, p, maxdata);
      && Run(s, reqs).store == (if |p| < 0x1_0000 then s.store[key := p] else s.store)
      && Accepts(s, reqs, |p| < 0x1_0000)
  {
    SegmentsServed(s, key, p[..maxdata], |p|, FirstOut(key, p, maxdata), p[maxdata..], 0, maxdata + 7);
    assert p[..maxdata] + p[maxdata..] == p by { Split(p, maxdata); }
    StillLong(|p|, maxdata);
  }
}
