/** The error list: a ring of 65 entries that behaves as a queue of at most 64 errors which drops the
    oldest one when it is full; and the check for SDO errors of the bus layer. */
module ErrorList {

  const EC_MAXELIST := 64

  datatype Error = Error(slave: nat, index: nat, sub: nat, etype: nat, code: int, signal: bool)

  /** ec_eringt, and the flag that there is an error. */
  datatype Ring = Ring(head: nat, tail: nat, errors: seq<Error>, ecaterror: bool)

  predicate Valid(r: Ring) {
    |r.errors| == EC_MAXELIST + 1 && r.head <= EC_MAXELIST && r.tail <= EC_MAXELIST
  }

  function Next(i: nat): nat { if i + 1 > EC_MAXELIST then 0 else i + 1 }

  /** ecx_pusherror. */
  function Push(r: Ring, e: Error): (r': Ring)
    requires Valid(r)
    ensures Valid(r')
  {
    var head := Next(r.head);
    Ring(head, if head == r.tail then Next(r.tail) else r.tail, r.errors[r.head := e.(signal := true)], true)
  }

  /** ecx_poperror. An empty list yields no error and clears the flag. */
  function Pop(r: Ring): (p: (Ring, bool, Error))
    requires Valid(r)
    ensures Valid(p.0)
  {
    var errors := r.errors[r.tail := r.errors[r.tail].(signal := false)];
    if r.head != r.tail then (Ring(r.head, Next(r.tail), errors, r.ecaterror), true, r.errors[r.tail])
    else (Ring(r.head, r.tail, errors, false), false, r.errors[r.tail])
  }

  // ----- the queue a ring stands for

  function Distance(head: nat, tail: nat): nat
    requires head <= EC_MAXELIST && tail <= EC_MAXELIST
  {
    if head >= tail then head - tail else head + EC_MAXELIST + 1 - tail
  }

  /** The errors from tail up to head. */
  function Queue(errors: seq<Error>, tail: nat, head: nat): (q: seq<Error>)
    requires |errors| == EC_MAXELIST + 1 && tail <= EC_MAXELIST && head <= EC_MAXELIST
    ensures |q| == Distance(head, tail)
    decreases Distance(head, tail)
  {
    if tail == head then [] else [errors[tail]] + Queue(errors, Next(tail), head)
  }

  function Abs(r: Ring): seq<Error>
    requires Valid(r)
  {
    Queue(r.errors, r.tail, r.head)
  }

  /** The queue that a list of 64 errors should be: the newest last, the oldest dropped if it is full. */
  function Enqueue(q: seq<Error>, e: Error): seq<Error> {
    (if |q| >= EC_MAXELIST then q[|q| - EC_MAXELIST + 1..] else q) + [e.(signal := true)]
  }

  /** Writing at head leaves the queue and appends behind it. */
  lemma {:induction false} QueueAppend(errors: seq<Error>, tail: nat, head: nat, e: Error)
    requires |errors| == EC_MAXELIST + 1 && tail <= EC_MAXELIST && head <= EC_MAXELIST && Next(head) != tail
    ensures Queue(errors[head := e], tail, Next(head)) == Queue(errors, tail, head) + [e]
    decreases Distance(head, tail)
  {
    if tail == head {
      assert Queue(errors[head := e], Next(tail), Next(head)) == [];
    } else {
      QueueAppend(errors, Next(tail), head, e);
    }
  }

  /** Writing outside the queue leaves it. */
  lemma {:induction false} QueueUnchanged(errors: seq<Error>, tail: nat, head: nat, at: nat, e: Error)
    requires |errors| == EC_MAXELIST + 1 && tail <= EC_MAXELIST && head <= EC_MAXELIST && at <= EC_MAXELIST
    requires Distance(at, tail) >= Distance(head, tail)
    ensures Queue(errors[at := e], tail, head) == Queue(errors, tail, head)
    decreases Distance(head, tail)
  {
    if tail != head { QueueUnchanged(errors, Next(tail), head, at, e); }
  }

  /** A full ring: writing at head and moving tail on drops the oldest error. */
  lemma PushRefines(r: Ring, e: Error)
    requires Valid(r)
    ensures Abs(Push(r, e)) == Enqueue(Abs(r), e) && |Abs(r)| <= EC_MAXELIST
  {
    var s := e.(signal := true);
    if Next(r.head) == r.tail {
      assert Abs(r) == [r.errors[r.tail]] + Queue(r.errors, Next(r.tail), r.head);
      QueueAppend(r.errors, Next(r.tail), r.head, s);
    } else {
      QueueAppend(r.errors, r.tail, r.head, s);
    }
  }

  lemma PopRefines(r: Ring)
    requires Valid(r)
    ensures var (r', some, e) := Pop(r);
      && (some <==> Abs(r) != [])
      && (some ==> Abs(r) == [e] + Abs(r') && r'.ecaterror == r.ecaterror)
      && (!some ==> Abs(r') == [] && !r'.ecaterror)
  {
    if r.head != r.tail {
      var e := r.errors[r.tail].(signal := false);
      QueueUnchanged(r.errors, Next(r.tail), r.head, r.tail, e);
    }
  }

  // ----- every run

  datatype Op = PushOp(e: Error) | PopOp

  /** What the pops of a run return. */
  function RingRun(r: Ring, ops: seq<Op>): seq<(bool, Error)>
    requires Valid(r)
    decreases |ops|
  {
    if ops == [] then []
    else match ops[0]
      case PushOp(e) => RingRun(Push(r, e), ops[1..])
      case PopOp => var (r', some, e) := Pop(r); [(some, e)] + RingRun(r', ops[1..])
  }

  /** A result of the ring agrees with one of the queue: the same error, or none at all. */
  predicate Agrees(x: (bool, Error), q: seq<Error>) {
    if q == [] then !x.0 else x == (true, q[0])
  }

  /** The results of the ring agree with those of the queue. */
  predicate SameRun(results: seq<(bool, Error)>, q: seq<Error>, ops: seq<Op>)
    decreases |ops|
  {
    if ops == [] then results == []
    else match ops[0]
      case PushOp(e) => SameRun(results, Enqueue(q, e), ops[1..])
      case PopOp => results != [] && Agrees(results[0], q)
                    && SameRun(results[1..], if q == [] then [] else q[1..], ops[1..])
  }

  /** Under every run of push and pop the ring is the queue of 64 errors that drops the oldest. */
  lemma {:induction false} EveryRunRefines(r: Ring, ops: seq<Op>)
    requires Valid(r)
    ensures SameRun(RingRun(r, ops), Abs(r), ops)
    decreases |ops|
  {
    if ops != [] {
      match ops[0]
      case PushOp(e) =>
        PushRefines(r, e);
        EveryRunRefines(Push(r, e), ops[1..]);
      case PopOp =>
        var (r', some, e) := Pop(r);
        PopRefines(r);
        EveryRunRefines(r', ops[1..]);
        assert ([(some, e)] + RingRun(r', ops[1..]))[1..] == RingRun(r', ops[1..]);
    }
  }

  // ----- the list in the context

  class Context {
    var head: nat
    var tail: nat
    const errors: array<Error>
    var ecaterror: bool

    constructor ()
      ensures Ok() && Contents() == [] && fresh(errors)
    {
      head, tail, ecaterror := 0, 0, false;
      errors := new Error[EC_MAXELIST + 1](_ => Error(0, 0, 0, 0, 0, false));
    }

    ghost function State(): Ring
      reads this, errors
    {
      Ring(head, tail, errors[..], ecaterror)
    }

    ghost predicate Ok()
      reads this, errors
    {
      Valid(State())
    }

    ghost function Contents(): seq<Error>
      requires Ok()
      reads this, errors
    {
      Abs(State())
    }

    method PushError(e: Error)
      requires Ok()
      modifies this, errors
      ensures Ok() && State() == Push(old(State()), e) && Contents() == Enqueue(old(Contents()), e) && ecaterror
    {
      PushRefines(State(), e);
      errors[head] := e;
      errors[head] := errors[head].(signal := true);
      head := head + 1;
      if head > EC_MAXELIST {
        head := 0;
      }
      if head == tail {
        tail := tail + 1;
      }
      if tail > EC_MAXELIST {
        tail := 0;
      }
      ecaterror := true;
    }

    method PopError() returns (some: bool, e: Error)
      requires Ok()
      modifies this, errors
      ensures Ok() && (State(), some, e) == Pop(old(State()))
      ensures if old(Contents()) == [] then !some && Contents() == [] && !ecaterror
              else some && e == old(Contents())[0] && Contents() == old(Contents())[1..] && ecaterror == old(ecaterror)
    {
      PopRefines(State());
      some := head != tail;
      e := errors[tail];
      errors[tail] := errors[tail].(signal := false);
      if some {
        tail := tail + 1;
        if tail > EC_MAXELIST {
          tail := 0;
        }
      } else {
        ecaterror := false;
      }
    }

    method IsError() returns (r: bool)
      requires Ok()
      ensures r == (Contents() != [])
    {
      r := head != tail;
    }

    /** checkForSdoErrors: pops up to and including the first error of the slave and index. */
    method CheckForSdoErrors(slave: nat, index: nat) returns (r: bool)
      requires Ok()
      modifies this, errors
      ensures Ok() && Contents() == old(Contents())[Searched(old(Contents()), slave, index)..]
      ensures r == Concerned(old(Contents()), slave, index)
      ensures r <==> exists k :: 0 <= k < |old(Contents())|
                                 && old(Contents())[k].slave == slave && old(Contents())[k].index == index
    {
      ghost var q := Contents();
      ghost var n := 0;
      var more := IsError();
      r := false;
      while more
        invariant Ok() && n <= |q| && Contents() == q[n..] && (more ==> n < |q|) && (!more && !r ==> n == |q|)
        invariant forall k :: 0 <= k < n ==> !Matches(q[k], slave, index) || (r && k == n - 1)
        invariant r ==> !more && n > 0 && Matches(q[n - 1], slave, index)
        decreases |q| - n, more
      {
        var some, e := PopError();
        n := n + 1;
        if some && e.slave == slave && e.index == index {
          r, more := true, false;
        } else {
          more := IsError();
        }
      }
      SearchedIs(q, slave, index, n, r);
    }
  }

  predicate Matches(e: Error, slave: nat, index: nat) { e.slave == slave && e.index == index }

  predicate Concerned(q: seq<Error>, slave: nat, index: nat) {
    exists k :: 0 <= k < |q| && Matches(q[k], slave, index)
  }

  /** Length of the prefix up to and including the first match; all if there is none. */
  function Searched(q: seq<Error>, slave: nat, index: nat): (n: nat)
    ensures n <= |q|
  {
    if q == [] then 0 else if Matches(q[0], slave, index) then 1 else 1 + Searched(q[1..], slave, index)
  }

  lemma {:induction false} SearchedIs(q: seq<Error>, slave: nat, index: nat, n: nat, found: bool)
    requires n <= |q| && forall k :: 0 <= k < n ==> !Matches(q[k], slave, index) || (found && k == n - 1)
    requires if found then n > 0 && Matches(q[n - 1], slave, index) else n == |q|
    ensures n == Searched(q, slave, index) && found == Concerned(q, slave, index)
    decreases |q|
  {
    if q != [] && !Matches(q[0], slave, index) {
      assert forall k :: 0 <= k < n - 1 ==> q[1..][k] == q[k + 1];
      SearchedIs(q[1..], slave, index, n - 1, found);
    }
  }
}
