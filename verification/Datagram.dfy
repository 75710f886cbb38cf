/** Frames of several datagrams (section 5.4 of ETG.1000.4): ecx_setupdatagram and ecx_adddatagram write
    them, and following the length fields reads them back. Frames are without Ethernet header. */
module Datagram {
  import opened Basics
  import opened Bytes

  /** Header of the first datagram with the length word of the frame, and what follows the data. */
  const EC_HEADERSIZE := 12
  const EC_ELENGTHSIZE := 2
  const EC_WKCSIZE := 2
  const EC_ECATTYPE := 0x1000
  const EC_DATAGRAMFOLLOWS := 0x8000
  const FRAMESIZE := 1518 - ETH_HEADERSIZE

  const EC_CMD_NOP: byte := 0
  const EC_CMD_APRD: byte := 1
  const EC_CMD_FPRD: byte := 4
  const EC_CMD_BRD: byte := 7
  const EC_CMD_LRD: byte := 10

  datatype Datagram = Datagram(command: byte, index: byte, adp: nat, ado: nat, follows: bool, data: seq<byte>)

  predicate Fine(d: Datagram) {
    d.adp < 0x1_0000 && d.ado < 0x1_0000 && |d.data| < 0x800
  }

  /** Where datagram k starts; with k the number of datagrams, where the frame ends. */
  function Start(ds: seq<Datagram>, k: nat): (p: nat)
    requires k <= |ds|
    ensures p >= EC_ELENGTHSIZE
  {
    if k == 0 then EC_ELENGTHSIZE else Start(ds, k - 1) + 10 + |ds[k - 1].data| + EC_WKCSIZE
  }

  function HeaderBytes(d: Datagram): (h: seq<byte>)
    requires Fine(d)
    ensures |h| == 8
  {
    [d.command, d.index] + WordBytes(d.adp) + WordBytes(d.ado)
      + WordBytes(|d.data| + if d.follows then EC_DATAGRAMFOLLOWS else 0)
  }

  /** Datagram d stands at `pos`, with a zero work counter; the interrupt word is anything. */
  predicate At(b: seq<byte>, pos: nat, d: Datagram) {
    && Fine(d) && pos + 12 + |d.data| <= |b|
    && b[pos..pos + 8] == HeaderBytes(d) && b[pos + 10..pos + 10 + |d.data|] == d.data
    && b[pos + 10 + |d.data|..pos + 12 + |d.data|] == [0, 0]
  }

  predicate Built(b: seq<byte>, ds: seq<Datagram>, end: nat) {
    && |ds| >= 1 && end == Start(ds, |ds|) <= |b|
    && forall k {:trigger At(b, Start(ds, k), ds[k])} :: 0 <= k < |ds| ==> At(b, Start(ds, k), ds[k])
  }

  /** The frame holds the datagrams ds, and its length word counts them. */
  predicate IsFrame(b: seq<byte>, ds: seq<Datagram>) {
    |b| >= 2 && Built(b, ds, Start(ds, |ds|)) && b[..2] == LengthBytes(Start(ds, |ds|))
  }

  function LengthBytes(end: nat): seq<byte> {
    WordBytes((EC_ECATTYPE + (if end >= 2 then end - 2 else 0)) % 0x1_0000)
  }

  /** Data of a command that reads is cleared. */
  function DataOf(command: byte, data: seq<byte>): (r: seq<byte>)
    ensures |r| == |data|
  {
    if command in {EC_CMD_NOP, EC_CMD_APRD, EC_CMD_FPRD, EC_CMD_BRD, EC_CMD_LRD} then seq<byte>(|data|, _ => 0)
    else data
  }

  method WriteBytes(frame: array<byte>, at: nat, src: seq<byte>)
    requires at + |src| <= frame.Length
    modifies frame
    ensures frame[..] == Overwrite(old(frame[..]), at, src)
  {
    forall i | 0 <= i < |src| {
      frame[at + i] := src[i];
    }
  }

  /** Writing behind or before a stretch leaves it alone. */
  lemma Elsewhere(b: seq<byte>, at: nat, src: seq<byte>, lo: nat, hi: nat)
    requires at + |src| <= |b| && lo <= hi <= |b| && (hi <= at || at + |src| <= lo)
    ensures Overwrite(b, at, src)[lo..hi] == b[lo..hi]
  {
  }

  lemma Here(b: seq<byte>, at: nat, src: seq<byte>)
    requires at + |src| <= |b|
    ensures Overwrite(b, at, src)[at..at + |src|] == src
  {
  }

  /** The datagram bytes: header, data, cleared work counter. */
  method WriteDatagram(frame: array<byte>, pos: nat, d: Datagram)
    requires Fine(d) && pos + 12 + |d.data| <= frame.Length
    modifies frame
    ensures At(frame[..], pos, d) && frame[..pos] == old(frame[..pos])
  {
    ghost var b0 := frame[..];
    WriteBytes(frame, pos, HeaderBytes(d));
    ghost var b1 := frame[..];
    Here(b0, pos, HeaderBytes(d));
    Elsewhere(b0, pos, HeaderBytes(d), 0, pos);
    WriteBytes(frame, pos + 10, d.data);
    ghost var b2 := frame[..];
    Here(b1, pos + 10, d.data);
    Elsewhere(b1, pos + 10, d.data, 0, pos);
    Elsewhere(b1, pos + 10, d.data, pos, pos + 8);
    WriteBytes(frame, pos + 10 + |d.data|, [0, 0]);
    Here(b2, pos + 10 + |d.data|, [0, 0]);
    Elsewhere(b2, pos + 10 + |d.data|, [0, 0], 0, pos);
    Elsewhere(b2, pos + 10 + |d.data|, [0, 0], pos, pos + 8);
    Elsewhere(b2, pos + 10 + |d.data|, [0, 0], pos + 10, pos + 10 + |d.data|);
  }

  /** ecx_setupdatagram: the first datagram and the length word. Returns the length of the transmit buffer. */
  method SetupDatagram(frame: array<byte>, com: byte, idx: byte, adp: nat, ado: nat, data: seq<byte>)
    returns (txlen: nat)
    requires frame.Length == FRAMESIZE && EC_HEADERSIZE + |data| + EC_WKCSIZE <= FRAMESIZE && adp < 0x1_0000
             && ado < 0x1_0000
    modifies frame
    ensures IsFrame(frame[..], [Datagram(com, idx, adp, ado, false, DataOf(com, data))])
    ensures txlen == ETH_HEADERSIZE + Start([Datagram(com, idx, adp, ado, false, DataOf(com, data))], 1)
  {
    var d := Datagram(com, idx, adp, ado, false, DataOf(com, data));
    txlen := ETH_HEADERSIZE + EC_HEADERSIZE + EC_WKCSIZE + |data|;
    WriteBytes(frame, 0, WordBytes(EC_ECATTYPE + EC_HEADERSIZE + |data|));
    assert frame[..2] == WordBytes(EC_ECATTYPE + EC_HEADERSIZE + |data|);
    WriteDatagram(frame, EC_ELENGTHSIZE, d);
    assert Start([d], 1) == Start([d], 0) + 12 + |data|;
  }

  /** The flag of the first datagram is set. */
  function Marked(ds: seq<Datagram>): (r: seq<Datagram>)
    requires |ds| >= 1
    ensures |r| == |ds|
  {
    [ds[0].(follows := true)] + ds[1..]
  }

  lemma {:induction false} StartSame(ds: seq<Datagram>, es: seq<Datagram>, k: nat)
    requires k <= |ds| && k <= |es| && forall j :: 0 <= j < k ==> |ds[j].data| == |es[j].data|
    ensures Start(ds, k) == Start(es, k)
  {
    if k > 0 { StartSame(ds, es, k - 1); }
  }

  lemma {:induction false} StartGrows(ds: seq<Datagram>, j: nat, k: nat)
    requires j < k <= |ds|
    ensures Start(ds, j) + 12 + |ds[j].data| <= Start(ds, k)
    decreases k
  {
    if j < k - 1 { StartGrows(ds, j, k - 1); }
  }

  lemma DlengthBytes(d: Datagram)
    requires Fine(d)
    ensures HeaderBytes(d)[6] == |d.data| % 0x100 && HeaderBytes(d)[7] == |d.data| / 0x100
            + if d.follows then 0x80 else 0
  {
  }

  /** Setting the flag in the first datagram. */
  lemma MarkedAt(b: seq<byte>, d: Datagram, b': seq<byte>)
    requires At(b, 2, d) && |b'| == |b| && b'[9] == (if b[9] < 0x80 then b[9] + 0x80 else b[9])
    requires b'[2..9] == b[2..9] && b'[10..] == b[10..]
    ensures At(b', 2, d.(follows := true))
  {
    var e, n := d.(follows := true), |d.data|;
    DlengthBytes(d);
    DlengthBytes(e);
    assert b[9] == b[2..10][7];
    var h := [d.command, d.index] + WordBytes(d.adp) + WordBytes(d.ado);
    assert HeaderBytes(d)[..7] == h + [HeaderBytes(d)[6]] && HeaderBytes(e)[..7] == h + [HeaderBytes(e)[6]];
    assert b[2..9] == b[2..10][..7];
    assert b'[2..10] == b'[2..9] + [b'[9]];
    SameInside(b, b', 10, |b|, 12, 12 + n);
    SameInside(b, b', 10, |b|, 12 + n, 14 + n);
  }

  lemma SameInside(b: seq<byte>, b': seq<byte>, lo: nat, hi: nat, x: nat, y: nat)
    requires lo <= x <= y <= hi <= |b| && hi <= |b'| && b'[lo..hi] == b[lo..hi]
    ensures b'[x..y] == b[x..y]
  {
    forall i | x <= i < y
      ensures b'[i] == b[i]
    {
      assert b'[i] == b'[lo..hi][i - lo] == b[lo..hi][i - lo];
    }
  }

  lemma AtUnchanged(b: seq<byte>, b': seq<byte>, pos: nat, d: Datagram, lo: nat, hi: nat)
    requires At(b, pos, d) && lo <= pos && pos + 12 + |d.data| <= hi <= |b'| && hi <= |b| && b'[lo..hi] == b[lo..hi]
    ensures At(b', pos, d)
  {
    var n := |d.data|;
    SameInside(b, b', lo, hi, pos, pos + 8);
    SameInside(b, b', lo, hi, pos + 10, pos + 10 + n);
    SameInside(b, b', lo, hi, pos + 10 + n, pos + 12 + n);
  }

  /** The datagrams of a frame after its first one was marked and one more was written behind them. */
  lemma OneMoreBuilt(b: seq<byte>, b': seq<byte>, b'': seq<byte>, ds: seq<Datagram>, d: Datagram, end: nat)
    requires Built(b, ds, end) && |b''| == |b'| == |b|
    requires b'[9] == (if b[9] < 0x80 then b[9] + 0x80 else b[9]) && b'[2..9] == b[2..9] && b'[10..] == b[10..]
    requires b''[2..end] == b'[2..end] && At(b'', end, d)
    ensures Built(b'', Marked(ds) + [d], end + 12 + |d.data|)
  {
    var es := Marked(ds) + [d];
    StartSame(ds, es, |ds|);
    forall k {:trigger At(b'', Start(es, k), es[k])} | 0 <= k < |es|
      ensures At(b'', Start(es, k), es[k])
    {
      if k < |ds| {
        StartSame(ds, es, k);
        StartGrows(ds, k, |ds|);
        assert At(b, Start(ds, k), ds[k]);
        if k == 0 {
          MarkedAt(b, ds[0], b');
        } else {
          StartGrows(ds, 0, k);
          AtUnchanged(b, b', Start(ds, k), ds[k], 10, |b|);
        }
        AtUnchanged(b', b'', Start(es, k), es[k], 2, end);
      }
    }
  }

  lemma StartGrows0(ds: seq<Datagram>, k: nat)
    requires 0 < k <= |ds|
    ensures Start(ds, k) >= 14
  {
    StartGrows(ds, 0, k);
  }

  /** Write the length word and set the flag of the first datagram. */
  method MarkFirst(frame: array<byte>, elength: nat)
    requires frame.Length == FRAMESIZE && elength < 0x1_0000
    modifies frame
    ensures var b, b' := old(frame[..]), frame[..];
      && b'[..2] == WordBytes(elength) && b'[2..9] == b[2..9] && b'[10..] == b[10..]
      && b'[9] == (if b[9] < 0x80 then b[9] + 0x80 else b[9])
  {
    ghost var b := frame[..];
    WriteBytes(frame, 0, WordBytes(elength));
    ghost var w := frame[..];
    Here(b, 0, WordBytes(elength));
    Elsewhere(b, 0, WordBytes(elength), 2, FRAMESIZE);
    SameInside(b, w, 2, FRAMESIZE, 2, 9);
    SameInside(b, w, 2, FRAMESIZE, 10, FRAMESIZE);
    assert w[9] == w[2..FRAMESIZE][7] == b[2..FRAMESIZE][7] == b[9];
    if frame[9] < 0x80 {
      frame[9] := frame[9] + 0x80;
    }
    assert frame[..][..2] == w[..2] && frame[..][2..9] == w[2..9] && frame[..][10..] == w[10..];
  }

  /** ecx_adddatagram: returns the new length of the transmit buffer, and where the data of this
      datagram will be in the receive buffer. */
  method AddDatagram(frame: array<byte>, prevlength: nat, com: byte, idx: byte, more: bool, adp: nat, ado: nat,
                     data: seq<byte>, ghost ds: seq<Datagram>)
    returns (txlen: nat, offset: nat)
    requires frame.Length == FRAMESIZE && IsFrame(frame[..], ds) && prevlength == ETH_HEADERSIZE + Start(ds, |ds|)
    requires prevlength - ETH_HEADERSIZE + EC_HEADERSIZE + |data| <= FRAMESIZE && adp < 0x1_0000 && ado < 0x1_0000
    modifies frame
    ensures var all := Marked(ds) + [Datagram(com, idx, adp, ado, more, DataOf(com, data))];
      IsFrame(frame[..], all) && txlen == ETH_HEADERSIZE + Start(all, |all|) && offset == Start(all, |all| - 1) + 10
  {
    var d := Datagram(com, idx, adp, ado, more, DataOf(com, data));
    var end := prevlength - ETH_HEADERSIZE;
    ghost var b, all := frame[..], Marked(ds) + [d];
    StartGrows0(ds, |ds|);
    var elength := (frame[0] as int) + 0x100 * (frame[1] as int);
    LengthRead(b, end);
    MarkFirst(frame, elength + EC_HEADERSIZE + |data|);
    ghost var b' := frame[..];
    WriteDatagram(frame, end, d);
    FrameMade(b, b', frame[..], ds, d, end);
    txlen := prevlength + EC_HEADERSIZE - EC_ELENGTHSIZE + EC_WKCSIZE + |data|;
    offset := prevlength + EC_HEADERSIZE - EC_ELENGTHSIZE - ETH_HEADERSIZE;
  }

  /** The frame after one more datagram: b' has the new length and the mark, b'' the datagram too. */
  lemma FrameMade(b: seq<byte>, b': seq<byte>, b'': seq<byte>, ds: seq<Datagram>, d: Datagram, end: nat)
    requires IsFrame(b, ds) && end == Start(ds, |ds|) <= 0x600 && |b''| == |b'| == |b| && |d.data| < 0x800
    requires b'[..2] == WordBytes(EC_ECATTYPE + end - 2 + EC_HEADERSIZE + |d.data|)
    requires b'[9] == (if b[9] < 0x80 then b[9] + 0x80 else b[9]) && b'[2..9] == b[2..9] && b'[10..] == b[10..]
    requires b''[..end] == b'[..end] && At(b'', end, d)
    ensures var all := Marked(ds) + [d];
      IsFrame(b'', all) && Start(all, |all|) == end + 12 + |d.data| && Start(all, |all| - 1) == end
  {
    StartGrows0(ds, |ds|);
    StartSame(ds, Marked(ds) + [d], |ds|);
    assert b''[2..end] == b'[2..end] by { SameInside(b', b'', 0, end, 2, end); }
    assert b''[..2] == b'[..2] by { SameInside(b', b'', 0, end, 0, 2); }
    assert Built(b'', Marked(ds) + [d], end + 12 + |d.data|) by { OneMoreBuilt(b, b', b'', ds, d, end); }
    LengthWritten(end + 12 + |d.data|);
  }

  lemma LengthWritten(end: nat)
    requires 2 <= end <= 0x1000
    ensures LengthBytes(end) == WordBytes(EC_ECATTYPE + end - 2)
  {
  }

  lemma LengthRead(b: seq<byte>, end: nat)
    requires |b| >= 2 && 2 <= end <= 0x1000 && b[..2] == LengthBytes(end)
    ensures (b[0] as int) + 0x100 * (b[1] as int) == EC_ECATTYPE + end - 2
  {
    assert b[0] == b[..2][0] && b[1] == b[..2][1];
  }

  // ----- reading back

  /** What is read from one datagram of a frame. */
  datatype Parsed = Parsed(command: byte, index: byte, adp: nat, ado: nat, data: seq<byte>, wkc: nat)

  /** The datagrams from `pos` on, as long as the flag tells that another follows. */
  function Parse(b: seq<byte>, pos: nat): seq<Parsed>
    decreases |b| - pos
  {
    var dlength := Word(b, pos + 6);
    var n := dlength % 0x800;
    if pos + 12 + n > |b| then []
    else [Parsed(b[pos], b[pos + 1], Word(b, pos + 2), Word(b, pos + 4), b[pos + 10..pos + 10 + n],
                 Word(b, pos + 10 + n))]
         + if dlength >= EC_DATAGRAMFOLLOWS then Parse(b, pos + 12 + n) else []
  }

  function Sent(ds: seq<Datagram>, k: nat): seq<Parsed>
    requires k <= |ds|
    decreases |ds| - k
  {
    if k == |ds| then [] else [ParsedOf(ds[k])] + Sent(ds, k + 1)
  }

  function ParsedOf(d: Datagram): Parsed { Parsed(d.command, d.index, d.adp, d.ado, d.data, 0) }

  lemma WordAt(b: seq<byte>, lo: nat, hi: nat, s: seq<byte>, k: nat)
    requires lo <= hi <= |b| && b[lo..hi] == s && k + 1 < |s|
    ensures Word(b, lo + k) == Word(s, k)
  {
    assert b[lo + k] == b[lo..hi][k] && b[lo + k + 1] == b[lo..hi][k + 1];
  }

  /** One datagram is read as it was written. */
  lemma ReadOne(b: seq<byte>, pos: nat, d: Datagram)
    requires At(b, pos, d)
    ensures var n := |d.data|;
      && Word(b, pos + 6) % 0x800 == n && (Word(b, pos + 6) >= EC_DATAGRAMFOLLOWS <==> d.follows)
      && Parsed(b[pos], b[pos + 1], Word(b, pos + 2), Word(b, pos + 4), b[pos + 10..pos + 10 + n],
                Word(b, pos + 10 + n)) == ParsedOf(d)
  {
    var h, n := HeaderBytes(d), |d.data|;
    DlengthBytes(d);
    WordAt(b, pos, pos + 8, h, 2);
    WordAt(b, pos, pos + 8, h, 4);
    WordAt(b, pos, pos + 8, h, 6);
    WordAt(b, pos + 10 + n, pos + 12 + n, [0, 0], 0);
    assert b[pos] == b[pos..pos + 8][0] && b[pos + 1] == b[pos..pos + 8][1];
  }

  /** Every datagram but the last tells that another follows. */
  predicate Chained(ds: seq<Datagram>, k: nat) {
    forall j :: k <= j < |ds| - 1 ==> ds[j].follows
  }

  lemma ParseStep(b: seq<byte>, pos: nat, d: Datagram)
    requires At(b, pos, d)
    ensures Parse(b, pos) == [ParsedOf(d)] + if d.follows then Parse(b, pos + 12 + |d.data|) else []
  {
    ReadOne(b, pos, d);
  }

  lemma ParseEnd(b: seq<byte>)
    ensures Parse(b, |b|) == []
  {
  }

  /** What is read from datagram k on: the rest of the datagrams exactly if they are chained. */
  predicate ReadsRest(p: seq<Parsed>, ds: seq<Datagram>, k: nat)
    requires k <= |ds|
  {
    |p| <= |ds| - k && (p == Sent(ds, k) <==> Chained(ds, k))
  }

  /** What is read from datagram k on, by the datagrams alone. */
  function Followed(ds: seq<Datagram>, k: nat): seq<Parsed>
    requires k <= |ds|
    decreases |ds| - k
  {
    if k == |ds| then [] else [ParsedOf(ds[k])] + if ds[k].follows then Followed(ds, k + 1) else []
  }

  /** `parse` reads a datagram where one stands, and goes on behind it if it is marked. */
  ghost predicate Reads(parse: nat -> seq<Parsed>, b: seq<byte>) {
    && parse(|b|) == []
    && forall pos: nat, d {:trigger At(b, pos, d)} :: At(b, pos, d) ==>
         parse(pos) == [ParsedOf(d)] + (if d.follows then parse(pos + 12 + |d.data|) else [])
  }

  lemma ParseReads(b: seq<byte>)
    ensures Reads((pos: nat) => Parse(b, pos), b)
  {
    ParseEnd(b);
    forall pos: nat, d {:trigger At(b, pos, d)} | At(b, pos, d)
      ensures Parse(b, pos) == [ParsedOf(d)] + (if d.follows then Parse(b, pos + 12 + |d.data|) else [])
    {
      ParseStep(b, pos, d);
    }
  }

  lemma {:induction false} ParseFollows(parse: nat -> seq<Parsed>, b: seq<byte>, ds: seq<Datagram>, k: nat, pos: nat)
    requires Reads(parse, b) && Built(b, ds, |b|) && k <= |ds| && pos == Start(ds, k)
    ensures parse(pos) == Followed(ds, k)
    decreases |ds| - k
  {
    if k < |ds| {
      assert At(b, pos, ds[k]);
      ParseFollows(parse, b, ds, k + 1, pos + 12 + |ds[k].data|);
    }
  }

  lemma {:induction false} FollowedReads(ds: seq<Datagram>, k: nat)
    requires k < |ds|
    ensures ReadsRest(Followed(ds, k), ds, k)
    decreases |ds| - k
  {
    if k + 1 < |ds| { FollowedReads(ds, k + 1); }
    RestStep(Followed(ds, k + 1), ds, k);
  }

  lemma RestStep(next: seq<Parsed>, ds: seq<Datagram>, k: nat)
    requires k < |ds| && if k + 1 < |ds| then ReadsRest(next, ds, k + 1) else next == []
    ensures ReadsRest([ParsedOf(ds[k])] + if ds[k].follows then next else [], ds, k)
  {
    SentCount(ds, k + 1);
    FirstOfTwo(ParsedOf(ds[k]), if ds[k].follows then next else [], Sent(ds, k + 1));
    if k + 1 < |ds| { ChainedStep(ds, k); }
  }

  lemma ChainedStep(ds: seq<Datagram>, k: nat)
    requires k + 1 < |ds|
    ensures Chained(ds, k) <==> ds[k].follows && Chained(ds, k + 1)
  {
  }

  lemma FirstOfTwo(x: Parsed, p: seq<Parsed>, q: seq<Parsed>)
    ensures [x] + p == [x] + q <==> p == q
  {
    assert p == ([x] + p)[1..] && q == ([x] + q)[1..];
  }

  lemma {:induction false} SentCount(ds: seq<Datagram>, k: nat)
    requires k <= |ds|
    ensures |Sent(ds, k)| == |ds| - k
    decreases |ds| - k
  {
    if k < |ds| { SentCount(ds, k + 1); }
  }

  /** Build and parse are inverse: following the length fields of a frame gives back exactly its
      datagrams if and only if every one but the last was marked as followed. The length word leads
      to the work counter of the last datagram. */
  lemma FrameParses(b: seq<byte>, ds: seq<Datagram>)
    requires IsFrame(b, ds) && Start(ds, |ds|) <= 0x1000
    ensures Parse(b[..Start(ds, |ds|)], EC_ELENGTHSIZE) == Sent(ds, 0) <==> Chained(ds, 0)
    ensures Word(b, 0) % 0x1000 == Start(ds, |ds|) - EC_WKCSIZE == Start(ds, |ds| - 1) + 10 + |ds[|ds| - 1].data|
  {
    var end := Start(ds, |ds|);
    LengthRead(b, end);
    StartGrows0(ds, |ds|);
    assert ReadsRest(Parse(b[..end], EC_ELENGTHSIZE), ds, 0) by { ParseAll(b, ds, end); }
  }

  lemma ParseAll(b: seq<byte>, ds: seq<Datagram>, end: nat)
    requires Built(b, ds, end)
    ensures ReadsRest(Parse(b[..end], EC_ELENGTHSIZE), ds, 0)
  {
    BuiltCut(b, ds, end);
    ParseReads(b[..end]);
    ParseFollows((pos: nat) => Parse(b[..end], pos), b[..end], ds, 0, EC_ELENGTHSIZE);
    FollowedReads(ds, 0);
  }

  /** Nothing behind the last datagram matters. */
  lemma BuiltCut(b: seq<byte>, ds: seq<Datagram>, end: nat)
    requires Built(b, ds, end)
    ensures Built(b[..end], ds, end)
  {
    var cut := b[..end];
    forall k {:trigger At(cut, Start(ds, k), ds[k])} | 0 <= k < |ds|
      ensures At(cut, Start(ds, k), ds[k])
    {
      StartGrows(ds, k, |ds|);
      AtUnchanged(b, cut, Start(ds, k), ds[k], 0, end);
    }
  }

  /** Marking the first datagram is enough for two; with more, those in the middle need their own mark. */
  lemma AddedChain(ds: seq<Datagram>, d: Datagram)
    requires |ds| >= 1
    ensures Chained(Marked(ds) + [d], 0) <==> forall j :: 1 <= j < |ds| ==> ds[j].follows
  {
    var all := Marked(ds) + [d];
    assert all[0].follows && forall j :: 1 <= j < |ds| ==> all[j] == ds[j];
  }
}
