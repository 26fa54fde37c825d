/** The console handle of src/console.rs (`Console`, the owner of the descriptor of
    `/dev/console`) together with the kernel state its requests act on. Each control
    request is a method that appends the request to the trace and fails when the
    kernel's fault schedule says so; the public operations are built from them exactly
    as the source builds them from the ioctl wrappers. */
module ConsoleDevice {
  import opened Kernel
  import opened Allocation

  /** A VT handle as this model sees it: the number it is bound to. */
  datatype Vt = Vt(number: int)

  class Console {
    /** The VT numbers the kernel counts as in use. */
    var inUse: set<int>
    /** The foreground VT. */
    var active: int
    /** Whether VT switching is locked. */
    var switchLocked: bool
    /** Every request sent so far, oldest first. */
    var trace: seq<Request>
    /** The trace positions at which the kernel fails the request issued there. */
    const faults: set<nat>

    /** A console handle over a kernel in the given state, with no request sent yet. */
    constructor (inUse: set<int>, active: int, switchLocked: bool, faults: set<nat>)
      ensures this.inUse == inUse && this.active == active && this.switchLocked == switchLocked
      ensures this.faults == faults && trace == []
    {
      this.inUse := inUse;
      this.active := active;
      this.switchLocked := switchLocked;
      this.faults := faults;
      trace := [];
    }

    /** The kernel's reply to the request issued at trace position `at`. */
    function Reply<T>(at: nat, v: T): (r: Result<T>)
      ensures r.Err? <==> at in faults
      ensures r.Err? ==> r.error == IoError(at)
      ensures r.Ok? ==> r.value == v
    {
      if at in faults then Err(IoError(at)) else Ok(v)
    }

    // -------------------------------------------------------------------------
    // Control requests (the ioctl wrappers of src/ffi.rs) and device files

    /** Records `req` in the trace and says whether the kernel accepts it. */
    method Issue(req: Request) returns (ok: bool)
      modifies this`trace
      ensures trace == old(trace) + [req]
      ensures ok <==> |old(trace)| !in faults
    {
      ok := |trace| !in faults;
      trace := trace + [req];
    }

    /** `vt_openqry`: the lowest VT number not in use. */
    method VtOpenQry() returns (r: Result<int>)
      modifies this`trace
      ensures trace == old(trace) + [OpenQry]
      ensures r == Reply(|old(trace)|, LowestFree(inUse))
    {
      var ok := Issue(OpenQry);
      r := if ok then Ok(LowestFree(inUse)) else Err(IoError(|trace| - 1));
    }

    /** `vt_getstate`: the active VT and the occupancy mask of VTs 0 to 15. */
    method VtGetState() returns (r: Result<VtStat>)
      modifies this`trace
      ensures trace == old(trace) + [GetState]
      ensures r == Reply(|old(trace)|, VtStat(active, VState(inUse)))
    {
      var ok := Issue(GetState);
      r := if ok then Ok(VtStat(active, VState(inUse))) else Err(IoError(|trace| - 1));
    }

    /** `vt_activate`: asks the kernel to switch to VT `n`. */
    method VtActivate(n: int) returns (r: Result<()>)
      modifies this`trace
      ensures trace == old(trace) + [Activate(n)]
      ensures r == Reply(|old(trace)|, ())
    {
      var ok := Issue(Activate(n));
      r := if ok then Ok(()) else Err(IoError(|trace| - 1));
    }

    /** `vt_waitactive`: returns once VT `n` is the foreground VT. */
    method VtWaitActive(n: int) returns (r: Result<()>)
      modifies this`trace, this`active
      ensures trace == old(trace) + [WaitActive(n)]
      ensures r == Reply(|old(trace)|, ())
      ensures active == if r.Ok? then n else old(active)
    {
      var ok := Issue(WaitActive(n));
      if ok {
        active := n;
        r := Ok(());
      } else {
        r := Err(IoError(|trace| - 1));
      }
    }

    /** `vt_disallocate`: releases VT `n`. */
    method VtDisallocate(n: int) returns (r: Result<()>)
      modifies this`trace, this`inUse
      ensures trace == old(trace) + [Disallocate(n)]
      ensures r == Reply(|old(trace)|, ())
      ensures inUse == if r.Ok? then old(inUse) - {n} else old(inUse)
    {
      var ok := Issue(Disallocate(n));
      if ok {
        inUse := inUse - {n};
        r := Ok(());
      } else {
        r := Err(IoError(|trace| - 1));
      }
    }

    /** `vt_lockswitch`: forbids VT switching. */
    method VtLockSwitch(arg: int) returns (r: Result<()>)
      modifies this`trace, this`switchLocked
      ensures trace == old(trace) + [Request.LockSwitch(arg)]
      ensures r == Reply(|old(trace)|, ())
      ensures switchLocked == (r.Ok? || old(switchLocked))
    {
      var ok := Issue(Request.LockSwitch(arg));
      if ok {
        switchLocked := true;
        r := Ok(());
      } else {
        r := Err(IoError(|trace| - 1));
      }
    }

    /** `vt_unlockswitch`: allows VT switching again. */
    method VtUnlockSwitch(arg: int) returns (r: Result<()>)
      modifies this`trace, this`switchLocked
      ensures trace == old(trace) + [Request.UnlockSwitch(arg)]
      ensures r == Reply(|old(trace)|, ())
      ensures switchLocked == (r.Err? && old(switchLocked))
    {
      var ok := Issue(Request.UnlockSwitch(arg));
      if ok {
        switchLocked := false;
        r := Ok(());
      } else {
        r := Err(IoError(|trace| - 1));
      }
    }

    /** Opens the device file of VT `n`; while the file is open, VT `n` is in use. */
    method OpenTty(n: int) returns (r: Result<()>)
      modifies this`trace, this`inUse
      ensures trace == old(trace) + [Request.OpenTty(n)]
      ensures r == Reply(|old(trace)|, ())
      ensures inUse == if r.Ok? then old(inUse) + {n} else old(inUse)
    {
      var ok := Issue(Request.OpenTty(n));
      if ok {
        inUse := inUse + {n};
        r := Ok(());
      } else {
        r := Err(IoError(|trace| - 1));
      }
    }

    /** Drops the device file of VT `n` that this process opened: VT `n` is free again.
        Dropping a file cannot fail and is not a request. */
    method CloseTty(n: int)
      modifies this`inUse
      ensures inUse == old(inUse) - {n}
    {
      inUse := inUse - {n};
    }

    /** Drops every file of `files`, in order. */
    method CloseAll(files: seq<int>)
      modifies this`inUse
      ensures inUse == old(inUse) - Elements(files)
    {
      var i := 0;
      while i < |files|
        invariant 0 <= i <= |files|
        invariant inUse == old(inUse) - Elements(files[..i])
      {
        CloseTty(files[i]);
        assert files[..i + 1] == files[..i] + [files[i]];
        i := i + 1;
      }
      assert files[..i] == files;
    }

    /** `Vt::with_number`: builds the handle of VT `n`, which opens its device file. */
    method VtWithNumber(n: int) returns (r: Result<Vt>)
      modifies this`trace, this`inUse
      ensures trace == old(trace) + [Request.VtWithNumber(n)]
      ensures r == Reply(|old(trace)|, Vt(n))
      ensures inUse == if r.Ok? then old(inUse) + {n} else old(inUse)
    {
      var ok := Issue(Request.VtWithNumber(n));
      if ok {
        inUse := inUse + {n};
        r := Ok(Vt(n));
      } else {
        r := Err(IoError(|trace| - 1));
      }
    }

    /** `Vt::with_number_and_file`: builds the handle of VT `n` around its already open
        device file. */
    method VtWithFile(n: int) returns (r: Result<Vt>)
      modifies this`trace
      ensures trace == old(trace) + [Request.VtWithFile(n)]
      ensures r == Reply(|old(trace)|, Vt(n))
    {
      var ok := Issue(Request.VtWithFile(n));
      r := if ok then Ok(Vt(n)) else Err(IoError(|trace| - 1));
    }

    // -------------------------------------------------------------------------
    // Console operations

    /** `current_vt_number`: the foreground VT, from the state query. */
    method CurrentVtNumber() returns (r: Result<int>)
      modifies this`trace
      ensures trace == old(trace) + [GetState]
      ensures r == Reply(|old(trace)|, active)
    {
      var stat :- VtGetState();
      r := Ok(stat.active);
    }

    /** `new_vt`: an allocation with minimum 0, which the fast path serves whenever the
        first-free query answers a VT number. */
    method NewVt() returns (r: Result<Vt>)
      modifies this`trace, this`inUse
      ensures var plan := [OpenQry, Request.VtWithNumber(LowestFree(old(inUse)))];
        trace == old(trace) + Issued(plan, |old(trace)|, faults) &&
        (r.Ok? <==> NoFaults(faults, |old(trace)|, 2))
      ensures r.Err? ==> r.error == IoError(|trace| - 1)
      ensures r.Ok? ==> r.value == Vt(LowestFree(old(inUse)))
      ensures inUse == if r.Ok? then old(inUse) + {LowestFree(old(inUse))} else old(inUse)
    {
      PlanMinimumZero(inUse);
      PlanFastPath(inUse, 0);
      r := NewVtWithMinimumNumber(0);
    }

    /** `new_vt_with_minimum_number`: allocates a VT numbered at least `min`.
        The requests issued are those of `Plan`, cut after the first one that fails;
        the call fails exactly when one of them fails, with that request's error, and
        then leaves the occupancy as it found it (every probe file is dropped). On
        success the handle is for `Allocated(old(inUse), min)`, the lowest number at
        least `min` free at the call, and only that number has become used. */
    method NewVtWithMinimumNumber(min: int) returns (r: Result<Vt>)
      modifies this`trace, this`inUse
      ensures var plan := Plan(old(inUse), min);
        trace == old(trace) + Issued(plan, |old(trace)|, faults) &&
        (r.Ok? <==> NoFaults(faults, |old(trace)|, |plan|))
      ensures r.Err? ==> r.error == IoError(|trace| - 1)
      ensures r.Ok? ==> r.value == Vt(Allocated(old(inUse), min)) && r.value.number >= min
      ensures inUse == if r.Ok? then old(inUse) + {r.value.number} else old(inUse)
    {
      ghost var s := inUse;
      PlanCases(s, min);
      ghost var w := Allocated(s, min);
      r := Allocate(trace, Plan(s, min), s, w, FreeBelow(s, w + 1), min);
      if r.Err? {
        FailedIssued(faults, old(trace), Plan(s, min), trace);
      } else {
        CleanIssued(faults, old(trace), Plan(s, min), trace);
      }
    }

    /** The body of `new_vt_with_minimum_number` over its plan `plan`, given by branch:
        `w` is the lowest free number from `min`, and `probes` the probe schedule when
        the search has to probe. */
    method Allocate(ghost pre: seq<Request>, ghost plan: seq<Request>, ghost s: set<int>,
      ghost w: int, ghost probes: seq<int>, min: int) returns (r: Result<Vt>)
      requires inUse == s && trace == pre
      requires min <= w && w !in s && forall j :: min <= j < w && 0 <= j ==> j in s
      requires LowestFree(s) >= min ==> LowestFree(s) == w && plan == [OpenQry, Request.VtWithNumber(w)]
      requires LowestFree(s) < min && w < 16 ==> plan == [OpenQry, GetState, Request.VtWithNumber(w)]
      requires LowestFree(s) < min && w >= 16 ==>
        ProbeSchedule(s, Max(min, 16), probes, plan) && probes[|probes| - 1] == w
      modifies this`trace, this`inUse
      ensures r.Err? ==>
        inUse == s && Failed(faults, pre, plan, trace) && r.error == IoError(|trace| - 1)
      ensures r.Ok? ==> (r.value == Vt(w) && inUse == s + {w} && Clean(faults, pre, plan, trace, |plan|))
    {
      assert trace == pre + plan[..0];
      CleanNext(faults, pre, plan, trace, 0);
      var first := VtOpenQry();
      if first.Err? {
        return Err(first.error);
      }
      var n := first.value;

      if n >= min {
        CleanNext(faults, pre, plan, trace, 1);
        r := VtWithNumber(n);
        return;
      }

      // The occupancy mask covers VTs 0 to 15.
      n := min;
      CleanNext(faults, pre, plan, trace, 1);
      var stat := VtGetState();
      if stat.Err? {
        return Err(stat.error);
      }
      var found;
      found, n := Scan(stat.value.state, min);
      if found {
        assert n == w;
        CleanNext(faults, pre, plan, trace, 2);
        r := VtWithNumber(n);
        return;
      }

      // Probing: open each first-free answer until one reaches the threshold `n`.
      assert w >= 16;
      r := ProbeVt(pre, plan, s, probes, n);
    }

    /** The probing path of `new_vt_with_minimum_number` with threshold `n`: the probe
        loop, then the handle of the last answer built around the last file it opened,
        then every other probe file dropped. The requests issued are a prefix of `plan`,
        which follows the schedule `probes`. On failure the last request issued is the
        one that failed and the occupancy is as before the call; on success all of `plan`
        has been issued and only the last answer has become used. */
    method ProbeVt(ghost pre: seq<Request>, ghost plan: seq<Request>, ghost s: set<int>,
      ghost probes: seq<int>, n: int) returns (r: Result<Vt>)
      requires 0 < n && ProbeSchedule(s, n, probes, plan)
      requires inUse == s && Clean(faults, pre, plan, trace, 2)
      modifies this`trace, this`inUse
      ensures r.Err? ==>
        inUse == s && Failed(faults, pre, plan, trace) && r.error == IoError(|trace| - 1)
      ensures var w := probes[|probes| - 1];
        r.Ok? ==> (r.value == Vt(w) && inUse == s + {w} && Clean(faults, pre, plan, trace, |plan|))
    {
      var probed, files := ProbeLoop(pre, plan, s, probes, n);
      if probed.Err? {
        return Err(probed.error);
      }
      ScheduleRelease(s, n, probes, plan);
      r := ProbeFinish(pre, plan, s, files[|files| - 1], files[..|files| - 1]);
    }

    /** The end of the probing path: the handle of `last`, the last VT probed, is built
        around its open file, and the other probe files `rest` are dropped. */
    method ProbeFinish(ghost pre: seq<Request>, ghost plan: seq<Request>, ghost s: set<int>,
      last: int, rest: seq<int>) returns (r: Result<Vt>)
      requires inUse - Elements(rest) == s + {last}
      requires (inUse - {last}) - Elements(rest) == s
      requires 0 < |plan| && plan[|plan| - 1] == Request.VtWithFile(last)
      requires Clean(faults, pre, plan, trace, |plan| - 1)
      modifies this`trace, this`inUse
      ensures r.Err? ==>
        inUse == s && Failed(faults, pre, plan, trace) && r.error == IoError(|trace| - 1)
      ensures r.Ok? ==>
        r.value == Vt(last) && inUse == s + {last} && Clean(faults, pre, plan, trace, |plan|)
    {
      CleanNext(faults, pre, plan, trace, |plan| - 1);
      r := VtWithFile(last);
      if r.Err? {
        CloseTty(last);
      }
      CloseAll(rest);
    }

    /** The probe loop of src/console.rs:86-92: query the first free number and open its device
        file until an answer reaches `n`. Its answers are exactly `probes`; on failure
        every file opened so far is dropped. */
    method ProbeLoop(ghost pre: seq<Request>, ghost plan: seq<Request>, ghost s: set<int>,
      ghost probes: seq<int>, n: int) returns (r: Result<()>, files: seq<int>)
      requires 0 < n && ProbeSchedule(s, n, probes, plan)
      requires inUse == s && Clean(faults, pre, plan, trace, 2)
      modifies this`trace, this`inUse
      ensures r.Err? ==>
        inUse == s && Failed(faults, pre, plan, trace) && r.error == IoError(|trace| - 1)
      ensures r.Ok? ==> |files| > 0 && files[|files| - 1] >= n
      ensures r.Ok? ==>
        files == probes && inUse == s + Elements(files) && Clean(faults, pre, plan, trace, |plan| - 1)
    {
      files := [];
      var firstFree := 0;
      while firstFree < n
        invariant |files| <= |probes| && files == probes[..|files|]
        invariant inUse == s + Elements(files)
        invariant Clean(faults, pre, plan, trace, 2 + 2 * |files|)
        invariant files == [] ==> firstFree == 0
        invariant files != [] ==> firstFree == probes[|files| - 1]
        invariant |files| == |probes| ==> n <= firstFree
        decreases |probes| - |files|
      {
        ghost var i := |files|;
        ScheduleRound(s, n, probes, plan, i);
        var next := ProbeRound(pre, plan, s, probes[i], files);
        if next.Err? {
          return Err(next.error), files;
        }
        firstFree := next.value;
        files := files + [firstFree];
      }
      ScheduleLast(s, n, probes, plan, |files|);
      r := Ok(());
    }

    /** One round of the probe loop, after the answers `files` have been opened and
        the requests of `plan` before position `2 + 2 * |files|` issued: query the first
        free number, which is `answer`, and open its device file, the next two requests
        of the plan. On success `answer` is now in use; on failure the opened files are
        dropped. */
    method ProbeRound(ghost pre: seq<Request>, ghost plan: seq<Request>, ghost s: set<int>,
      ghost answer: int, files: seq<int>) returns (r: Result<int>)
      requires inUse == s + Elements(files) && inUse - Elements(files) == s
      requires IsLowestFree(inUse, answer)
      requires ProbeRoundAt(plan, |files|, answer)
      requires Clean(faults, pre, plan, trace, 2 + 2 * |files|)
      modifies this`trace, this`inUse
      ensures r.Err? ==>
        inUse == s && Failed(faults, pre, plan, trace) && r.error == IoError(|trace| - 1)
      ensures r.Ok? ==> (r.value == answer && inUse == s + Elements(files + [answer]) &&
        Clean(faults, pre, plan, trace, 4 + 2 * |files|))
    {
      ghost var k := 2 + 2 * |files|;
      LowestFreeUnique(inUse, 0, answer);
      CleanNext(faults, pre, plan, trace, k);
      var next := VtOpenQry();
      if next.Err? {
        CloseAll(files);
        return Err(next.error);
      }
      var f := next.value;
      CleanNext(faults, pre, plan, trace, k + 1);
      var probe := OpenTty(f);
      if probe.Err? {
        CloseAll(files);
        return Err(probe.error);
      }
      ElementsAppend(files, f);
      r := Ok(f);
    }

    /** `disallocate_vt`: releases the kernel resources of VT `n`. */
    method DisallocateVt(n: int) returns (r: Result<()>)
      modifies this`trace, this`inUse
      ensures trace == old(trace) + [Disallocate(n)]
      ensures r == Reply(|old(trace)|, ())
      ensures inUse == if r.Ok? then old(inUse) - {n} else old(inUse)
    {
      r := VtDisallocate(n);
    }

    /** `open_vt`: the handle of an existing VT `n`, without allocating one. */
    method OpenVt(n: int) returns (r: Result<Vt>)
      modifies this`trace, this`inUse
      ensures trace == old(trace) + [Request.VtWithNumber(n)]
      ensures r == Reply(|old(trace)|, Vt(n))
      ensures inUse == if r.Ok? then old(inUse) + {n} else old(inUse)
    {
      r := VtWithNumber(n);
    }

    /** `switch_to`: activate VT `n`, then wait until it is active; when the activate
        request fails, the wait is never issued and its error is returned. */
    method SwitchTo(n: int) returns (r: Result<()>)
      modifies this`trace, this`active
      ensures var t := |old(trace)|;
        if t in faults then
          trace == old(trace) + [Activate(n)] && r == Err(IoError(t)) && active == old(active)
        else
          trace == old(trace) + [Activate(n), WaitActive(n)] && r == Reply(t + 1, ()) &&
          active == if r.Ok? then n else old(active)
    {
      var activated := VtActivate(n);
      if activated.Err? {
        return Err(activated.error);
      }
      r := VtWaitActive(n);
    }

    /** `lock_switch`: exactly one request, the lock when `lock` holds and the unlock
        otherwise, both with argument 1. */
    method LockSwitch(lock: bool) returns (r: Result<()>)
      modifies this`trace, this`switchLocked
      ensures trace == old(trace) + [if lock then Request.LockSwitch(1) else Request.UnlockSwitch(1)]
      ensures r == Reply(|old(trace)|, ())
      ensures switchLocked == if r.Ok? then lock else old(switchLocked)
    {
      if lock {
        r := VtLockSwitch(1);
      } else {
        r := VtUnlockSwitch(1);
      }
    }
  }
}
