/** The VT allocation search of `Console::new_vt_with_minimum_number`, stated over the
    kernel's occupancy: which requests one allocation issues, which number it hands out,
    and the occupancy-mask scan that picks a number inside the first sixteen. */
module Allocation {
  import opened Kernel

  function Max(a: int, b: int): int
  {
    if a < b then b else a
  }

  // ---------------------------------------------------------------------------
  // The probe sequence

  /** The numbers in `[0, b)` that are not in `s`, in increasing order: the answers the
      first-free query gives one after the other when each answer is opened before the
      next query. */
  function FreeBelow(s: set<int>, b: nat): (r: seq<int>)
    ensures forall i :: 0 <= i < |r| ==> 0 <= r[i] < b && r[i] !in s
  {
    if b == 0 then []
    else
      var r := FreeBelow(s, b - 1);
      if b - 1 in s then r else r + [b - 1]
  }

  /** Every free number below `b` is in the probe sequence below `b`. */
  lemma {:induction false} FreeBelowComplete(s: set<int>, b: nat, x: int)
    requires 0 <= x < b && x !in s
    ensures x in FreeBelow(s, b)
    decreases b
  {
    if x < b - 1 {
      FreeBelowComplete(s, b - 1, x);
    }
  }

  /** The numbers a sequence of open files holds. */
  function Elements(xs: seq<int>): set<int>
  {
    set x | x in xs
  }

  /** The elements of a sequence extended by one. */
  lemma ElementsAppend(xs: seq<int>, x: int)
    ensures Elements(xs + [x]) == Elements(xs) + {x}
  {
  }

  /** The requests of the probe loop for the answers `ps`: one first-free query and one
      device open per answer. */
  function ProbeRequests(ps: seq<int>): (r: seq<Request>)
    ensures |r| == 2 * |ps|
  {
    if ps == [] then []
    else ProbeRequests(ps[..|ps| - 1]) + [OpenQry, OpenTty(ps[|ps| - 1])]
  }

  /** Round `i` of the probe requests for the answers `ps` is a first-free query
      followed by the open of answer `ps[i]`. */
  lemma {:induction false} ProbeRequestsAt(ps: seq<int>, i: nat)
    requires i < |ps|
    ensures 2 * i + 1 < |ProbeRequests(ps)|
    ensures ProbeRequests(ps)[2 * i] == OpenQry && ProbeRequests(ps)[2 * i + 1] == OpenTty(ps[i])
    decreases |ps|
  {
    var init := ps[..|ps| - 1];
    if i < |init| {
      ProbeRequestsAt(init, i);
      assert ps[i] == init[i];
    }
  }

  /** Once every free number below `b` is open, the first-free query answers the first
      free number at or above `b`. */
  lemma FreeBelowAnswer(s: set<int>, b: nat)
    ensures LowestFree(s + Elements(FreeBelow(s, b))) == LowestFreeFrom(s, b)
  {
    var f := LowestFreeFrom(s, b);
    var t := s + Elements(FreeBelow(s, b));
    forall j | 0 <= j < f
      ensures j in t
    {
      if j >= b {
        assert j in s;
      } else if j !in s {
        FreeBelowComplete(s, b, j);
      }
    }
    assert f !in t by {
      assert f !in FreeBelow(s, b);
    }
    LowestFreeUnique(t, 0, f);
  }

  /** The probe sequence below `c` is what the first-free query answers round after
      round: answer `i` is the lowest free number once the earlier answers are open. */
  lemma {:induction false} FreeBelowAnswers(s: set<int>, c: nat, i: nat)
    requires i < |FreeBelow(s, c)|
    ensures LowestFree(s + Elements(FreeBelow(s, c)[..i])) == FreeBelow(s, c)[i]
    decreases c
  {
    var r := FreeBelow(s, c - 1);
    if i < |r| {
      FreeBelowAnswers(s, c - 1, i);
      if c - 1 !in s {
        assert (r + [c - 1])[..i] == r[..i];
      }
    } else {
      assert FreeBelow(s, c)[..i] == r;
      FreeBelowAnswer(s, c - 1);
      LowestFreeUnique(s, c - 1, c - 1);
    }
  }

  // ---------------------------------------------------------------------------
  // The requests of one allocation

  /** The requests one allocation with minimum `min` issues, starting from occupancy `s`,
      when none of them fails: the first-free query alone when its answer reaches `min`;
      the state query and the handle for the lowest free number from `min` when that lies
      in the mask's window; otherwise the probe loop over every free number up to the
      lowest free one from `min`, whose device file backs the handle. */
  function Plan(s: set<int>, min: int): seq<Request>
  {
    var q := LowestFree(s);
    var w := Allocated(s, min);
    if q >= min then [OpenQry, VtWithNumber(q)]
    else if w < 16 then [OpenQry, GetState, VtWithNumber(w)]
    else ProbePlan(s, w)
  }

  /** The requests of an allocation that has to probe and ends with number `w`: both
      queries, one query and one device open per free number up to `w`, and the handle
      built around the last device opened. */
  function ProbePlan(s: set<int>, w: nat): seq<Request>
  {
    [OpenQry, GetState] + ProbeRequests(FreeBelow(s, w + 1)) + [VtWithFile(w)]
  }

  /** The number a successful allocation hands out: the lowest number at least `min`
      that is free when the allocation starts. */
  function Allocated(s: set<int>, min: int): (w: nat)
    ensures w >= min && w !in s
    ensures forall j :: min <= j < w && 0 <= j ==> j in s
  {
    LowestFreeFrom(s, Max(min, 0))
  }

  /** Fast path: when the first answer `q` reaches `min`, the allocation is `q` itself,
      one query and no state query. */
  lemma PlanFastPath(s: set<int>, min: int)
    requires LowestFree(s) >= min
    ensures Plan(s, min) == [OpenQry, VtWithNumber(LowestFree(s))]
    ensures GetState !in Plan(s, min)
    ensures Allocated(s, min) == LowestFree(s)
  {
    LowestFreeUnique(s, Max(min, 0), LowestFree(s));
  }

  /** `new_vt` asks for minimum 0, which every answer reaches. */
  lemma PlanMinimumZero(s: set<int>)
    ensures Plan(s, 0) == [OpenQry, VtWithNumber(LowestFree(s))]
  {
  }

  /** Mask path: when the first answer is below `min` and `k` is the first free number
      from `min` in the window, the allocation is `k` and nothing is probed. */
  lemma PlanMaskPath(s: set<int>, min: int, k: int)
    requires LowestFree(s) < min <= k < 16
    requires k !in s && forall p :: min <= p < k ==> p in s
    ensures Plan(s, min) == [OpenQry, GetState, VtWithNumber(k)]
    ensures forall n :: OpenTty(n) !in Plan(s, min)
    ensures Allocated(s, min) == k
  {
    LowestFreeUnique(s, min, k);
  }

  /** Probe path: when the first answer is below `min` and the window holds no free
      number from `min`, the allocation is the lowest free number from the probe
      threshold `Max(min, 16)` and the plan is the probe plan up to it. */
  lemma PlanProbePath(s: set<int>, min: int)
    requires LowestFree(s) < min
    requires forall p :: min <= p < 16 ==> p in s
    ensures Allocated(s, min) == LowestFreeFrom(s, Max(min, 16))
    ensures Plan(s, min) == ProbePlan(s, Allocated(s, min))
  {
    LowestFreeSkip(s, min, Max(min, 16));
  }

  /** The three shapes of a plan, by the branch the allocation takes: what each
      branch needs to know of the plan, stated over the allocated number `w` and, on the
      probe path, the probe schedule up to `w`. */
  lemma PlanCases(s: set<int>, min: int)
    ensures var w := Allocated(s, min);
      var plan := Plan(s, min);
      var probes := FreeBelow(s, w + 1);
      && (LowestFree(s) >= min ==> LowestFree(s) == w && plan == [OpenQry, VtWithNumber(w)])
      && (LowestFree(s) < min && w < 16 ==> plan == [OpenQry, GetState, VtWithNumber(w)])
      && (LowestFree(s) < min && w >= 16 ==>
            ProbeSchedule(s, Max(min, 16), probes, plan) && probes[|probes| - 1] == w)
  {
    var w := Allocated(s, min);
    if LowestFree(s) >= min {
      PlanFastPath(s, min);
    } else if w < 16 {
      PlanMaskPath(s, min, w);
    } else {
      PlanProbeSchedule(s, min);
    }
  }

  /** Round `i` of the probe loop, whose answer is `f`, stands at positions `2 + 2 * i`
      and `3 + 2 * i` of `plan`, before its last request. */
  predicate ProbeRoundAt(plan: seq<Request>, i: nat, f: int)
  {
    2 + 2 * i + 2 < |plan| && plan[2 + 2 * i] == OpenQry && plan[2 + 2 * i + 1] == OpenTty(f)
  }

  /** What the probe loop with threshold `n` relies on: the answers `probes` it is
      given, one per round, are free, every one but the last is below `n` and the last
      reaches it, each is the first-free answer once the earlier ones are open, and
      `plan` is both queries, the two requests of every round and the handle of the last
      answer. */
  ghost predicate ProbeSchedule(s: set<int>, n: int, probes: seq<int>, plan: seq<Request>)
  {
    && |probes| > 0 && probes[|probes| - 1] >= n
    && |plan| == 3 + 2 * |probes| && plan[..2] == [OpenQry, GetState]
    && plan[|plan| - 1] == VtWithFile(probes[|probes| - 1])
    && forall i {:trigger ScheduledRound(s, n, probes, plan, i)} ::
         0 <= i < |probes| ==> ScheduledRound(s, n, probes, plan, i)
  }

  /** Round `i` of a probe schedule: its answer is free, is the first-free answer once
      the earlier answers are open, stays below `n` unless it is the last one, and its
      two requests stand in the plan. */
  ghost predicate ScheduledRound(s: set<int>, n: int, probes: seq<int>, plan: seq<Request>, i: nat)
    requires i < |probes|
  {
    && probes[i] !in s
    && IsLowestFree(s + Elements(probes[..i]), probes[i])
    && (i + 1 < |probes| ==> probes[i] < n)
    && ProbeRoundAt(plan, i, probes[i])
  }

  /** The probe plan for the answers `probes`: both queries, the two requests of
      every round at positions `2 + 2 * i` and `3 + 2 * i`, and the handle of `w`. */
  lemma ProbePlanRounds(probes: seq<int>, w: int, plan: seq<Request>)
    requires plan == [OpenQry, GetState] + ProbeRequests(probes) + [VtWithFile(w)]
    ensures |plan| == 3 + 2 * |probes| && plan[..2] == [OpenQry, GetState]
    ensures plan[|plan| - 1] == VtWithFile(w)
    ensures forall i :: 0 <= i < |probes| ==> ProbeRoundAt(plan, i, probes[i])
  {
    forall i | 0 <= i < |probes|
      ensures ProbeRoundAt(plan, i, probes[i])
    {
      ProbePlanRound(probes, w, i);
    }
  }

  lemma ProbePlanRound(probes: seq<int>, w: int, i: nat)
    requires i < |probes|
    ensures ProbeRoundAt([OpenQry, GetState] + ProbeRequests(probes) + [VtWithFile(w)], i, probes[i])
  {
    var middle := ProbeRequests(probes);
    var plan := [OpenQry, GetState] + middle + [VtWithFile(w)];
    ProbeRequestsAt(probes, i);
    assert plan[2 + 2 * i] == middle[2 * i];
    assert plan[2 + 2 * i + 1] == middle[2 * i + 1];
  }

  /** The free numbers up to `w`, the lowest free number from `n`: they end with `w`,
      every earlier one is below `n`, none is in use, and each is the first-free answer
      once the earlier ones are open. */
  lemma FreeBelowSchedule(s: set<int>, n: int, w: nat)
    requires n <= w && w !in s && forall j :: n <= j < w ==> j in s
    ensures var probes := FreeBelow(s, w + 1);
      && |probes| > 0 && probes[|probes| - 1] == w
      && (forall i :: 0 <= i < |probes| - 1 ==> probes[i] < n)
      && (forall i :: 0 <= i < |probes| ==> probes[i] !in s)
      && (forall i :: 0 <= i < |probes| ==> IsLowestFree(s + Elements(probes[..i]), probes[i]))
  {
    var probes := FreeBelow(s, w + 1);
    var below := FreeBelow(s, w);
    assert probes == below + [w];
    forall i | 0 <= i < |probes| - 1
      ensures probes[i] < n
    {
      assert probes[i] == below[i];
    }
    forall i | 0 <= i < |probes|
      ensures IsLowestFree(s + Elements(probes[..i]), probes[i])
    {
      FreeBelowAnswers(s, w + 1, i);
    }
  }

  /** On the probe path the plan follows the schedule of the free numbers up to the
      allocated number, with threshold `Max(min, 16)`, and its last answer is the
      allocated number. */
  lemma PlanProbeSchedule(s: set<int>, min: int)
    requires LowestFree(s) < min
    requires forall p :: min <= p < 16 ==> p in s
    ensures var w := Allocated(s, min);
      var probes := FreeBelow(s, w + 1);
      ProbeSchedule(s, Max(min, 16), probes, Plan(s, min)) && probes[|probes| - 1] == w
  {
    PlanProbePath(s, min);
    var w := Allocated(s, min);
    var n := Max(min, 16);
    var probes := FreeBelow(s, w + 1);
    var plan := Plan(s, min);
    FreeBelowSchedule(s, n, w);
    ProbePlanRounds(probes, w, plan);
    forall i | 0 <= i < |probes|
      ensures ScheduledRound(s, n, probes, plan, i)
    {
    }
    assert probes[|probes| - 1] == w && w >= n;
    assert ProbeSchedule(s, n, probes, plan);
  }

  /** After the whole schedule is open, dropping every file but the last leaves only
      the last answer added, and dropping that too restores the occupancy. */
  lemma ScheduleRelease(s: set<int>, n: int, probes: seq<int>, plan: seq<Request>)
    requires ProbeSchedule(s, n, probes, plan)
    ensures var rest := probes[..|probes| - 1];
      var last := probes[|probes| - 1];
      var used := s + Elements(probes);
      && used - Elements(rest) == s + {last}
      && (used - {last}) - Elements(rest) == s
  {
    var rest := probes[..|probes| - 1];
    var last := probes[|probes| - 1];
    assert probes == rest + [last];
    assert ScheduledRound(s, n, probes, plan, |probes| - 1);
    ElementsAppend(rest, last);
    assert last !in Elements(rest) && Elements(rest) !! s by {
      forall i | 0 <= i < |rest|
        ensures rest[i] != last && rest[i] !in s
      {
        assert ScheduledRound(s, n, probes, plan, i);
        assert rest[i] == probes[i];
      }
    }
  }

  /** What round `i` of the probe loop needs of the schedule: its two requests in the
      plan, its answer as the first-free answer once the earlier ones are open, the
      earlier files dropped leaving the occupancy as it was, and the next prefix. */
  lemma ScheduleRound(s: set<int>, n: int, probes: seq<int>, plan: seq<Request>, i: nat)
    requires ProbeSchedule(s, n, probes, plan) && i < |probes|
    ensures var open := probes[..i];
      && ProbeRoundAt(plan, i, probes[i])
      && IsLowestFree(s + Elements(open), probes[i])
      && (s + Elements(open)) - Elements(open) == s
      && probes[..i + 1] == open + [probes[i]]
      && (i + 1 == |probes| ==> n <= probes[i])
      && (i + 1 < |probes| ==> probes[i] < n)
  {
    var open := probes[..i];
    assert ScheduledRound(s, n, probes, plan, i);
    assert Elements(open) !! s by {
      forall j | 0 <= j < |open|
        ensures open[j] !in s
      {
        assert ScheduledRound(s, n, probes, plan, j);
        assert open[j] == probes[j];
      }
    }
  }

  /** An answer of the schedule that reaches `n` is its last one. */
  lemma ScheduleLast(s: set<int>, n: int, probes: seq<int>, plan: seq<Request>, k: nat)
    requires ProbeSchedule(s, n, probes, plan)
    requires 0 < k <= |probes| && probes[k - 1] >= n
    ensures k == |probes|
  {
    assert ScheduledRound(s, n, probes, plan, k - 1);
  }

  // ---------------------------------------------------------------------------
  // The occupancy-mask scan

  /** The mask `1 << n` of src/console.rs:62 as the release build computes it: the shift amount is
      taken modulo the width, so for `n >= 16` the value is one the scan never reads. */
  function InitialMask(n: int): (m: bv16)
    ensures 0 <= n < 16 ==> m == Bit(n)
  {
    1 << (n % 16)
  }

  /** The same `1 << n` as a debug build computes it: a shift amount outside `[0, 16)`
      panics (`None`). */
  function InitialMaskChecked(n: int): (m: Option<bv16>)
    ensures m.Some? <==> 0 <= n < 16
    ensures m.Some? ==> m.value == Bit(n)
  {
    if 0 <= n < 16 then Some(1 << n) else None
  }

  datatype Option<T> = None | Some(value: T)

  /** In a debug build every allocation that reaches the scan with a minimum of 16 or more
      panics at src/console.rs:62 instead of probing. */
  lemma ScanEntryPanicsInDebugBuild(s: set<int>, min: int)
    requires LowestFree(s) < min && min >= 16
    ensures InitialMaskChecked(min).None?
    ensures Plan(s, min)[|Plan(s, min)| - 1] == VtWithFile(Allocated(s, min))
  {
  }

  /** A concrete instance: on an idle console (no VT in use) a request for minimum 20
      panics in a debug build, while the intended allocation is VT 20 by probing. */
  lemma ScanEntryPanicsExample()
    ensures LowestFree({}) == 0
    ensures InitialMaskChecked(20).None?
    ensures Allocated({}, 20) == 20
    ensures Plan({}, 20)[|Plan({}, 20)| - 1] == VtWithFile(20)
  {
    LowestFreeUnique({}, 0, 0);
    LowestFreeUnique({}, 20, 20);
  }

  /** Testing the state against the mask of bit `n` reads bit `n`. */
  lemma MaskTest(state: bv16, n: nat, mask: bv16)
    requires n < 16 && mask == Bit(n)
    ensures (state & mask == 0) <==> !BitSet(state, n)
  {
  }

  /** The scan of src/console.rs:61-70 over the occupancy mask `state`, from `min` upward: `found`
      with the first cleared bit at or above `min` inside the window, or not found with
      `n` left at the probe threshold `Max(min, 16)`. */
  method Scan(state: bv16, min: int) returns (found: bool, n: int)
    requires 0 <= min
    ensures found ==> min <= n < 16 && !BitSet(state, n)
    ensures forall p :: min <= p < n && p < 16 ==> BitSet(state, p)
    ensures !found ==> n == Max(min, 16)
  {
    n := min;
    found := false;
    var mask := InitialMask(n);
    while n < 16
      invariant min <= n <= Max(min, 16)
      invariant n < 16 ==> mask == Bit(n)
      invariant forall p :: min <= p < n && p < 16 ==> BitSet(state, p)
      invariant !found
    {
      MaskTest(state, n, mask);
      if state & mask == 0 {
        found := true;
        break;
      }
      if n + 1 < 16 {
        BitShift(n);
      }
      n := n + 1;
      mask := mask << 1;
    }
  }
}
