/** The kernel as the console handle sees it: the control requests it can be sent,
    the VT numbers it counts as in use, the answer of the first-free query, the
    16-bit occupancy mask of the state query, and a schedule of failing requests. */
module Kernel {

  /** One request sent to the kernel, as recorded in the console's trace. */
  datatype Request =
    | OpenQry                // VT_OPENQRY: the first free VT number
    | GetState               // VT_GETSTATE: the active VT and the occupancy mask
    | Activate(n: int)       // VT_ACTIVATE
    | WaitActive(n: int)     // VT_WAITACTIVE
    | Disallocate(n: int)    // VT_DISALLOCATE
    | LockSwitch(arg: int)   // VT_LOCKSWITCH
    | UnlockSwitch(arg: int) // VT_UNLOCKSWITCH
    | OpenTty(n: int)        // opening the device file of VT n for reading and writing
    | VtWithNumber(n: int)   // building a VT handle that opens its own device file
    | VtWithFile(n: int)     // building a VT handle around an already open device file

  /** An I/O error; it names the position in the trace of the request that failed. */
  datatype IoError = IoError(at: nat)

  /** The outcome of a fallible call; `:-` propagates the error like Rust's `?`. */
  datatype Result<T> = Ok(value: T) | Err(error: IoError) {
    predicate IsFailure() { Err? }

    function PropagateFailure<U>(): Result<U>
      requires Err?
    {
      Err(error)
    }

    function Extract(): T
      requires Ok?
    {
      value
    }
  }

  /** The answer of the state query: the active VT and the occupancy of VTs 0 to 15
      (the pending-signal field is not modelled). */
  datatype VtStat = VtStat(active: int, state: bv16)

  // ---------------------------------------------------------------------------
  // First-free query

  /** The smallest number at least `i` that is not in `s`. */
  function LowestFreeFrom(s: set<int>, i: int): (r: int)
    ensures i <= r && r !in s
    ensures forall j :: i <= j < r ==> j in s
    decreases |s|
  {
    if i !in s then i
    else
      var w := LowestFreeFrom(s - {i}, i + 1);
      assert forall j :: i <= j < w ==> j in s by {
        forall j | i <= j < w
          ensures j in s
        {
          if j != i {
            assert j in s - {i};
          }
        }
      }
      w
  }

  /** The kernel's answer to the first-free query: the lowest VT number not in use. */
  function LowestFree(s: set<int>): (r: nat)
    ensures r !in s && forall j :: 0 <= j < r ==> j in s
  {
    LowestFreeFrom(s, 0)
  }

  /** `x` is the lowest natural number not in `t`, stated without computing it. */
  ghost predicate IsLowestFree(t: set<int>, x: int)
  {
    0 <= x && x !in t && forall j :: 0 <= j < x ==> j in t
  }

  /** `LowestFreeFrom` is characterised by its contract: any free `r >= i` below which
      everything from `i` is in use is the answer. */
  lemma LowestFreeUnique(s: set<int>, i: int, r: int)
    requires i <= r && r !in s
    requires forall j :: i <= j < r ==> j in s
    ensures LowestFreeFrom(s, i) == r
  {
  }

  /** Starting the search anywhere inside a run of used numbers gives the same answer. */
  lemma LowestFreeSkip(s: set<int>, a: int, b: int)
    requires a <= b
    requires forall j :: a <= j < b ==> j in s
    ensures LowestFreeFrom(s, a) == LowestFreeFrom(s, b)
  {
    var w := LowestFreeFrom(s, b);
    forall j | a <= j < w
      ensures j in s
    {
      if j >= b {
        assert b <= j < w;
      }
    }
    LowestFreeUnique(s, a, w);
  }

  // ---------------------------------------------------------------------------
  // Occupancy mask of the state query

  /** The mask with only bit `k` set. */
  function Bit(k: nat): bv16
    requires k < 16
  {
    1 << k
  }

  /** The occupancy mask restricted to the numbers below `i`. */
  function StateMask(s: set<int>, i: nat): bv16
    requires i <= 16
  {
    if i == 0 then 0
    else StateMask(s, i - 1) | (if i - 1 in s then Bit(i - 1) else 0)
  }

  lemma {:induction false} StateMaskBit(s: set<int>, i: nat, k: nat)
    requires i <= 16 && k < 16
    ensures (StateMask(s, i) & Bit(k) == 0) <==> (k >= i || k !in s)
  {
    if i > 0 {
      StateMaskBit(s, i - 1, k);
      var m := StateMask(s, i - 1);
      var b: bv16 := if i - 1 in s then Bit(i - 1) else 0;
      assert (m | b) & Bit(k) == (m & Bit(k)) | (b & Bit(k));
      assert (b & Bit(k) == 0) <==> (k != i - 1 || i - 1 !in s) by {
        BitDisjoint(i - 1, k);
      }
    }
  }

  lemma BitShift(k: nat)
    requires k + 1 < 16
    ensures Bit(k) << 1 == Bit(k + 1)
  {
  }

  lemma BitDisjoint(a: nat, b: nat)
    requires a < 16 && b < 16
    ensures (Bit(a) & Bit(b) == 0) <==> a != b
  {
  }

  /** Bit `k` of the occupancy mask `state` is set. */
  predicate BitSet(state: bv16, k: nat)
    requires k < 16
  {
    state & Bit(k) != 0
  }

  /** The `v_state` field of the state query: bit `k` is set exactly when VT `k` is in use. */
  function VState(s: set<int>): (m: bv16)
    ensures forall k :: 0 <= k < 16 ==> (BitSet(m, k) <==> k in s)
  {
    StateMaskBits(s);
    StateMask(s, 16)
  }

  lemma StateMaskBits(s: set<int>)
    ensures forall k :: 0 <= k < 16 ==> (BitSet(StateMask(s, 16), k) <==> k in s)
  {
    var m := StateMask(s, 16);
    forall k | 0 <= k < 16
      ensures BitSet(m, k) <==> k in s
    {
      StateMaskBit(s, 16, k);
    }
  }

  // ---------------------------------------------------------------------------
  // Failure schedule

  /** No request issued at a trace position in `[start, start + len)` fails. */
  ghost predicate NoFaults(faults: set<nat>, start: nat, len: nat)
  {
    forall t :: start <= t < start + len ==> t !in faults
  }

  /** The part of `plan` that is actually issued from trace position `start` on: every
      request up to and including the first one that fails. */
  function Issued(plan: seq<Request>, start: nat, faults: set<nat>): (r: seq<Request>)
    ensures |r| <= |plan| && r == plan[..|r|]
    ensures plan != [] ==> r != []
    ensures NoFaults(faults, start, |plan|) ==> r == plan
    decreases |plan|
  {
    if plan == [] then []
    else if start in faults then [plan[0]]
    else [plan[0]] + Issued(plan[1..], start + 1, faults)
  }

  /** When the request at plan position `k` is the first to fail, exactly the first
      `k + 1` requests are issued. */
  lemma {:induction false} IssuedUpTo(plan: seq<Request>, start: nat, faults: set<nat>, k: nat)
    requires k < |plan| && start + k in faults
    requires NoFaults(faults, start, k)
    ensures Issued(plan, start, faults) == plan[..k + 1]
    ensures !NoFaults(faults, start, |plan|)
    decreases k
  {
    if k > 0 {
      assert start !in faults;
      IssuedUpTo(plan[1..], start + 1, faults, k - 1);
      assert [plan[0]] + plan[1..][..k] == plan[..k + 1];
    }
  }

  /** The trace is `pre` followed by the first `k` requests of `plan`, none of which
      failed. */
  ghost predicate Clean(faults: set<nat>, pre: seq<Request>, plan: seq<Request>,
    trace: seq<Request>, k: nat)
  {
    k <= |plan| && trace == pre + plan[..k] && NoFaults(faults, |pre|, k)
  }

  /** The trace is `pre` followed by a nonempty prefix of `plan` whose last request is
      the first to fail. */
  ghost predicate Failed(faults: set<nat>, pre: seq<Request>, plan: seq<Request>,
    trace: seq<Request>)
  {
    && |pre| < |trace| <= |pre| + |plan|
    && trace == pre + plan[..|trace| - |pre|]
    && |trace| - 1 in faults
    && NoFaults(faults, |pre|, |trace| - |pre| - 1)
  }

  /** Issuing the next planned request after a clean prefix either fails, ending the
      trace with that request, or extends the clean prefix by one. */
  lemma CleanNext(faults: set<nat>, pre: seq<Request>, plan: seq<Request>,
    trace: seq<Request>, k: nat)
    requires Clean(faults, pre, plan, trace, k) && k < |plan|
    ensures |trace| == |pre| + k
    ensures |trace| in faults ==> Failed(faults, pre, plan, trace + [plan[k]])
    ensures |trace| !in faults ==> Clean(faults, pre, plan, trace + [plan[k]], k + 1)
  {
    assert plan[..k + 1] == plan[..k] + [plan[k]];
    assert trace + [plan[k]] == pre + plan[..k + 1];
  }

  /** A trace ending in the first failing request of `plan` is what `Issued` issues. */
  lemma FailedIssued(faults: set<nat>, pre: seq<Request>, plan: seq<Request>, trace: seq<Request>)
    requires Failed(faults, pre, plan, trace)
    ensures trace == pre + Issued(plan, |pre|, faults)
    ensures !NoFaults(faults, |pre|, |plan|)
  {
    IssuedUpTo(plan, |pre|, faults, |trace| - |pre| - 1);
  }

  /** A trace holding all of `plan` without a failure is what `Issued` issues. */
  lemma CleanIssued(faults: set<nat>, pre: seq<Request>, plan: seq<Request>, trace: seq<Request>)
    requires Clean(faults, pre, plan, trace, |plan|)
    ensures trace == pre + Issued(plan, |pre|, faults)
    ensures NoFaults(faults, |pre|, |plan|)
  {
    assert plan[..|plan|] == plan;
  }

}
