/** ecx_readstate: one broadcast read if it tells everything, else one read for each slave. */
module ReadState {
  import opened Bytes
  import opened Datagram
  import opened MasterFrames

  const EC_STATE_INIT: nat := 1
  const EC_STATE_PRE_OP: nat := 2
  const EC_STATE_BOOT: nat := 3
  const EC_STATE_SAFE_OP: nat := 4
  const EC_STATE_OPERATIONAL: nat := 8
  const EC_STATE_ERROR: nat := 0x10

  /** What the slave list says about a slave; entry 0 stands for all. */
  datatype SlaveState = SlaveState(state: nat, code: nat)

  predicate IsState(s: nat) {
    s == EC_STATE_INIT || s == EC_STATE_PRE_OP || s == EC_STATE_BOOT || s == EC_STATE_SAFE_OP
      || s == EC_STATE_OPERATIONAL
  }

  /** Bitwise or. */
  function Or(a: nat, b: nat): nat
    decreases a
  {
    if a == 0 then b else (if a % 2 == 1 || b % 2 == 1 then 1 else 0) + 2 * Or(a / 2, b / 2)
  }

  predicate HasError(status: nat) { status / EC_STATE_ERROR % 2 == 1 }

  /** What a broadcast read of the AL status collects: each slave adds its bits. */
  function Broadcast(al: seq<AlStatus>): nat {
    if al == [] then 0 else Or(Broadcast(al[..|al| - 1]), al[|al| - 1].status)
  }

  function Codes(al: seq<AlStatus>): nat {
    if al == [] then 0 else Or(Codes(al[..|al| - 1]), al[|al| - 1].code)
  }

  function Lowest(al: seq<AlStatus>): nat {
    if al == [] then 0xff
    else
      var low, s := Lowest(al[..|al| - 1]), al[|al| - 1].status % 0x10;
      if s < low then s else low
  }

  /** The slave list after reading every slave. */
  function Individual(al: seq<AlStatus>): (r: seq<SlaveState>)
    ensures |r| == |al| + 1
  {
    [SlaveState(Lowest(al), Codes(al))] + seq(|al|, k requires 0 <= k < |al| => SlaveState(al[k].status, al[k].code))
  }

  /** The broadcast tells everything: all slaves answered, none has an error, the bits are a state. */
  predicate IsFast(brd: nat, allPresent: bool) {
    !HasError(brd) && IsState(brd % 0x10) && allPresent
  }

  /** The slave list after the broadcast alone. */
  function Uniform(brd: nat, n: nat): (r: seq<SlaveState>)
    ensures |r| == n + 1
  {
    seq(n + 1, _ => SlaveState(brd % 0x10, 0))
  }

  class Master {
    /** The slave list, with an entry 0 for all slaves. */
    const slaves: array<SlaveState>
    /** The configured addresses of the slaves, and what comes back for a frame. */
    const config: seq<nat>
    const wire: seq<byte> -> seq<byte>
    /** What the slaves have in their status registers, by configured address; a slave that does not answer
        has zeros. `al` are those of the slave list. */
    ghost const registers: nat -> AlStatus
    ghost const al: seq<AlStatus>

    ghost predicate Valid() {
      && slaves.Length == |config| + 1 && |al| == |config| >= 1 && SlavesAnswer(wire, registers)
      && forall k :: 0 <= k < |config| ==> config[k] < 0x1_0000 && al[k] == registers(config[k])
    }

    /** The states of one chunk. */
    method FetchChunk(fslave: nat, lslave: nat) returns (sl: seq<AlStatus>)
      requires Valid() && 1 <= fslave <= lslave <= |config| && lslave - fslave < MAX_FPRD_MULTI
      ensures sl == al[fslave - 1..lslave]
    {
      sl := FprdMulti(config[fslave - 1..lslave], 0, wire, registers);
    }

    /** One chunk of the slow path. */
    method ReadChunk(fslave: nat, lslave: nat, lowest0: nat) returns (lowest: nat)
      requires Valid() && 1 <= fslave <= lslave <= |config| && lslave - fslave < MAX_FPRD_MULTI
      requires lowest0 == Lowest(al[..fslave - 1]) && slaves[0].code == Codes(al[..fslave - 1])
      modifies slaves
      ensures lowest == Lowest(al[..lslave]) && slaves[0] == old(slaves[0]).(code := Codes(al[..lslave]))
      ensures forall k :: 1 <= k < slaves.Length ==>
                slaves[k] == if fslave <= k <= lslave then SlaveState(al[k - 1].status, al[k - 1].code)
                else old(slaves[k])
    {
      lowest := lowest0;
      var sl := FetchChunk(fslave, lslave);
      var slave := fslave;
      while slave <= lslave
        invariant fslave <= slave <= lslave + 1
        invariant lowest == Lowest(al[..slave - 1]) && slaves[0] == old(slaves[0]).(code := Codes(al[..slave - 1]))
        invariant forall k :: 1 <= k < slaves.Length ==>
                    slaves[k] == if fslave <= k < slave then SlaveState(al[k - 1].status, al[k - 1].code)
                    else old(slaves[k])
      {
        var answer := sl[slave - fslave];
        assert al[..slave][..slave - 1] == al[..slave - 1] && al[..slave][slave - 1] == answer;
        if answer.status % 0x10 < lowest {
          lowest := answer.status % 0x10;
        }
        slaves[slave] := SlaveState(answer.status, answer.code);
        slaves[0] := slaves[0].(code := Or(slaves[0].code, answer.code));
        slave := slave + 1;
      }
    }

    /** One read for each slave, up to 64 in a frame. */
    method ReadAll() returns (lowest: nat)
      requires Valid()
      modifies slaves
      ensures slaves[..] == Individual(al) && lowest == Lowest(al)
    {
      slaves[0] := slaves[0].(code := 0);
      lowest := 0xff;
      var fslave, more := 1, true;
      assert al[..0] == [];
      while more
        invariant 1 <= fslave <= |config| + 1 && (more <==> fslave <= |config|)
        invariant lowest == Lowest(al[..fslave - 1]) && slaves[0].code == Codes(al[..fslave - 1])
        invariant forall k :: 1 <= k < fslave ==> slaves[k] == SlaveState(al[k - 1].status, al[k - 1].code)
        decreases |config| + 1 - fslave
      {
        var lslave := |config|;
        if lslave - fslave >= MAX_FPRD_MULTI {
          lslave := fslave + MAX_FPRD_MULTI - 1;
        }
        lowest := ReadChunk(fslave, lslave, lowest);
        fslave := lslave + 1;
        more := lslave < |config|;
      }
      assert al[..|al|] == al;
      slaves[0] := slaves[0].(state := lowest);
    }

    /** ecx_readstate. `brd` is what the broadcast read collected, `wkc` how many slaves it counted. */
    method ReadState(brd: nat, wkc: int) returns (lowest: nat)
      requires Valid()
      modifies slaves
      ensures slaves[..] == if IsFast(brd, wkc >= |al|) then Uniform(brd, |al|) else Individual(al)
      ensures lowest == if IsFast(brd, wkc >= |al|) then brd % 0x10 else Lowest(al)
    {
      var allPresent := wkc >= |config|;
      var bitwisestate := brd % 0x10;
      var noError := !HasError(brd);
      if noError {
        slaves[0] := slaves[0].(code := 0);
      }
      var sameState := IsState(bitwisestate);
      if sameState {
        slaves[0] := slaves[0].(state := bitwisestate);
      }
      if noError && sameState && allPresent {
        var slave := 1;
        while slave <= |config|
          invariant 1 <= slave <= |config| + 1 && slaves[0] == SlaveState(bitwisestate, 0)
          invariant forall k :: 1 <= k < slave ==> slaves[k] == SlaveState(bitwisestate, 0)
        {
          slaves[slave] := SlaveState(bitwisestate, 0);
          slave := slave + 1;
        }
        lowest := bitwisestate;
      } else {
        lowest := ReadAll();
      }
    }
  }

  // ----- the fast path against the slow one

  /** All slaves are in a proper state, without the error flag or any other bit. */
  predicate Proper(al: seq<AlStatus>) {
    forall k :: 0 <= k < |al| ==> IsState(al[k].status)
  }

  predicate AllIn(al: seq<AlStatus>, s: nat) {
    forall k :: 0 <= k < |al| ==> al[k].status == s
  }

  /** A state that is a single bit is reported by the broadcast only if all slaves are in it; what
      INIT and PRE_OP together show is also the bits of BOOT. */
  lemma {:induction false} BroadcastOfStates(al: seq<AlStatus>)
    requires Proper(al) && |al| >= 1
    ensures 0 < Broadcast(al) < 0x10
    ensures IsState(Broadcast(al)) && Broadcast(al) != EC_STATE_BOOT ==> AllIn(al, Broadcast(al))
  {
    var last := al[|al| - 1].status;
    if |al| > 1 {
      BroadcastOfStates(al[..|al| - 1]);
      StatesTogether(Broadcast(al[..|al| - 1]), last);
    } else {
      assert al[..0] == [] && Broadcast(al) == Or(0, last);
    }
  }

  lemma OrHalf(a: nat, b: nat)
    ensures Or(a, b) / 2 == Or(a / 2, b / 2) && (Or(a, b) % 2 == 1 <==> a % 2 == 1 || b % 2 == 1)
  {
  }

  lemma OrNibble(a: nat, b: nat)
    requires a < 0x10 && b < 0x10
    ensures Or(a, b) == OrBit(a, b, 1) + OrBit(a, b, 2) + OrBit(a, b, 4) + OrBit(a, b, 8)
  {
    Halves(a);
    Halves(b);
    OrHalf(a, b);
    OrHalf(a / 2, b / 2);
    OrHalf(a / 4, b / 4);
    OrHalf(a / 8, b / 8);
    assert Or(a / 8 / 2, b / 8 / 2) == 0;
  }

  function OrBit(a: nat, b: nat, w: nat): nat
    requires w > 0
  {
    if a / w % 2 == 1 || b / w % 2 == 1 then w else 0
  }

  lemma Halves(a: nat)
    ensures a / 2 / 2 == a / 4 && a / 4 / 2 == a / 8 && (a < 0x10 ==> a / 8 / 2 == 0)
  {
  }

  /** The bits so far and one more state. */
  lemma StatesTogether(b: nat, s: nat)
    requires 0 < b < 0x10 && IsState(s)
    ensures 0 < Or(b, s) < 0x10
    ensures IsState(Or(b, s)) && Or(b, s) != EC_STATE_BOOT ==> b == s == Or(b, s)
  {
    OrNibble(b, s);
  }

  lemma {:induction false} LowestOfSame(al: seq<AlStatus>, s: nat)
    requires AllIn(al, s) && IsState(s) && |al| >= 1
    ensures Lowest(al) == s
  {
    if |al| > 1 { LowestOfSame(al[..|al| - 1], s); } else { assert al[..0] == []; }
  }

  function States(list: seq<SlaveState>): seq<nat> {
    seq(|list|, k requires 0 <= k < |list| => list[k].state)
  }

  /** The error flag is collected like any other bit. */
  lemma ErrorCollected(a: nat, b: nat)
    ensures HasError(Or(a, b)) <==> HasError(a) || HasError(b)
  {
    var a2, b2 := a / 2, b / 2;
    var a4, b4 := a2 / 2, b2 / 2;
    var a8, b8 := a4 / 2, b4 / 2;
    var a16, b16 := a8 / 2, b8 / 2;
    OrHalf(a, b);
    OrHalf(a2, b2);
    OrHalf(a4, b4);
    OrHalf(a8, b8);
    OrHalf(a16, b16);
    assert a16 == a / 0x10 && b16 == b / 0x10 && Or(a, b) / 0x10 == Or(a16, b16);
  }

  lemma {:induction false} AnyError(al: seq<AlStatus>)
    ensures HasError(Broadcast(al)) <==> exists k :: 0 <= k < |al| && al[k].status / 0x10 % 2 == 1
  {
    if al != [] {
      var before := al[..|al| - 1];
      AnyError(before);
      ErrorCollected(Broadcast(before), al[|al| - 1].status);
      if exists k :: 0 <= k < |al| && al[k].status / 0x10 % 2 == 1 {
        var k :| 0 <= k < |al| && al[k].status / 0x10 % 2 == 1;
        if k < |al| - 1 { assert before[k] == al[k]; }
      }
    }
  }

  /** Whatever the slaves have in their registers: if one of them has the error flag (0x10), or fewer answered than
      there are, every slave is read. */
  lemma ErrorReadsAll(al: seq<AlStatus>, wkc: int)
    requires wkc < |al| || exists k :: 0 <= k < |al| && al[k].status / 0x10 % 2 == 1
    ensures !IsFast(Broadcast(al), wkc >= |al|)
  {
    AnyError(al);
  }

  /** All present, in the same state and without error: one broadcast is enough. */
  lemma {:induction false} SameReadsOnce(al: seq<AlStatus>, s: nat)
    requires |al| >= 1 && AllIn(al, s) && s in {1, 2, 3, 4, 8}
    ensures Broadcast(al) == s && IsFast(Broadcast(al), true)
  {
    if |al| > 1 {
      SameReadsOnce(al[..|al| - 1], s);
      OrNibble(s, s);
    } else {
      assert al[..0] == [];
    }
  }

  /** The lowest state is that of some slave, and none is lower. */
  lemma {:induction false} LowestIsLeast(al: seq<AlStatus>)
    requires |al| >= 1
    ensures forall k :: 0 <= k < |al| ==> Lowest(al) <= al[k].status % 0x10
    ensures exists k :: 0 <= k < |al| && Lowest(al) == al[k].status % 0x10
  {
    var before := al[..|al| - 1];
    if |al| > 1 {
      LowestIsLeast(before);
      var j :| 0 <= j < |before| && Lowest(before) == before[j].status % 0x10;
      assert al[j] == before[j];
      assert forall k :: 0 <= k < |before| ==> before[k] == al[k];
    } else {
      assert before == [] && Lowest(al) == al[0].status % 0x10;
    }
  }

  /** What ecx_readstate leaves when every slave answers. */
  function Result(al: seq<AlStatus>): seq<SlaveState> {
    if IsFast(Broadcast(al), true) then Uniform(Broadcast(al), |al|) else Individual(al)
  }

  /** With all slaves present and in a proper state the fast path gives the same states and lowest
      state as reading each slave, except when the collected bits are those of BOOT and not all slaves are
      in BOOT. */
  lemma {:induction false} FastRefinesSlow(al: seq<AlStatus>)
    requires Proper(al) && |al| >= 1
    ensures States(Result(al)) == States(Individual(al)) <==> Broadcast(al) != EC_STATE_BOOT || AllIn(al, EC_STATE_BOOT)
  {
    var b := Broadcast(al);
    BroadcastOfStates(al);
    var fast, slow := States(Uniform(b, |al|)), States(Individual(al));
    if IsState(b) {
      if AllIn(al, b) {
        LowestOfSame(al, b);
        assert fast == slow;
      } else {
        var k :| 0 <= k < |al| && al[k].status != b;
        assert fast[k + 1] == b && slow[k + 1] == al[k].status;
      }
    }
  }

  /** One slave in INIT and one in PRE_OP are both reported in BOOT. */
  lemma InitAndPreOpLookLikeBoot()
    ensures var al := [AlStatus(EC_STATE_INIT, 0), AlStatus(EC_STATE_PRE_OP, 0)];
      States(Result(al)) == [EC_STATE_BOOT, EC_STATE_BOOT, EC_STATE_BOOT]
      && States(Individual(al)) == [EC_STATE_INIT, EC_STATE_INIT, EC_STATE_PRE_OP]
  {
    var a, b := AlStatus(EC_STATE_INIT, 0), AlStatus(EC_STATE_PRE_OP, 0);
    assert [a, b][..1] == [a] && [a][..0] == [];
    assert Broadcast([a]) == Or(0, 1) && Broadcast([a, b]) == Or(1, 2);
    OrNibble(1, 2);
    assert Lowest([a]) == 1 && Lowest([a, b]) == 1;
  }
}
