# vt-rs console: a Dafny model of VT allocation

This project models the console handle of the vt-rs crate. `Console` owns an open
descriptor of `/dev/console` and sends virtual-terminal (VT) control requests to the
Linux kernel through it. Its one algorithm is `new_vt_with_minimum_number`, which finds
a free VT numbered at least `min`. It works in three tiers:

1. It asks the kernel for the first free VT (`VT_OPENQRY`). If that number reaches
   `min`, it builds the handle for that number.
2. Otherwise it reads the 16-bit occupancy mask (`VT_GETSTATE`). It scans the mask from
   `min` up to 15 for a clear bit.
3. Otherwise it probes. It repeatedly asks for the first free VT and opens that VT's
   device file, which makes the kernel count it as used. It stops at the first answer
   that reaches the threshold `max(min, 16)`. It then builds the handle around that last
   open file and drops the other probe files.

Beside the search, the model covers the operations that delegate straight to requests:
`new_vt`, `current_vt_number`, `switch_to`, `lock_switch`, `open_vt` and
`disallocate_vt`.

The kernel is abstracted as fields of the `Console` class:
- `inUse`, the set of VT numbers the kernel counts as in use;
- `active`, the foreground VT;
- `switchLocked`, whether VT switching is locked;
- `trace`, every request sent so far;
- `faults`, a fixed schedule of failures. The request sent at trace position `t` fails
  exactly when `t` is in `faults`. `Console.Reply` is that schedule's verdict: the error
  of position `t`, or the kernel's answer.

The first-free query answers the lowest number not in `inUse`. The state query answers
the mask whose bit `k` is set exactly when VT `k` is in use. Opening a device file, or
building a handle with `Vt::with_number`, adds the VT to `inUse`. Dropping a file takes
it out again.

The model is deterministic for a given kernel state and fault schedule, so each
allocation has a declarative reference, split across the three files:
- `kernel.dfy` (module `Kernel`): the requests, the first-free answer, the occupancy
  mask, and the trace predicates. `Issued(plan, start, faults)` is a list of requests
  cut after its first failure.
- `allocation.dfy` (module `Allocation`): `Plan(s, min)`, the requests the allocation
  sends from occupancy `s` when nothing fails, and `Allocated(s, min)`, the number it
  hands out. It also holds the lemmas that tie the three tiers to those two functions,
  and the mask scan as the method `Scan`.
- `console.dfy` (module `ConsoleDevice`): the class `Console`. Each ioctl wrapper is a
  method that appends its request to the trace. The public operations are built from
  those methods the way the source builds them.

`NewVtWithMinimumNumber` is proved against `Plan` and `Allocated`. Its trace is exactly
`Issued(Plan(old inUse, min))`. It fails exactly when one of those requests fails, and
then returns that request's error with the occupancy unchanged. On success it returns the
lowest number at least `min` that was free at the call, and only that number has become
used.

## Model

| member | source | states |
|---|---|---|
| Kernel.LowestFreeFrom | src/ffi.rs:66 | the answer is at least the start, is free, and every number from the start up to it is in use |
| Kernel.LowestFree | src/console.rs:50 | the first-free answer is a free natural number and every smaller natural number is in use |
| Kernel.LowestFreeUnique | src/console.rs:50 | any free number at or above the start, below which everything from the start is used, is the first-free answer |
| Kernel.LowestFreeSkip | src/console.rs:56-70 | starting the search anywhere inside a run of used numbers gives the same answer |
| Kernel.StateMaskBit | src/ffi.rs:18-22 | bit `k` of the mask built from the numbers below `i` is clear exactly when `k >= i` or `k` is free |
| Kernel.VState | src/ffi.rs:67 | bit `k` of the `v_state` answer is set exactly when VT `k` is in use, for every `k` below 16 |
| Kernel.Issued | src/console.rs:50-95 | the requests actually sent are a prefix of the plan that is nonempty when the plan is; it is the whole plan when nothing fails |
| Kernel.IssuedUpTo | src/console.rs:50-95 | when the request at plan position `k` is the first to fail, exactly the first `k + 1` requests are sent and the plan as a whole is not fault-free |
| Kernel.CleanNext | src/console.rs:50-95 | sending the next planned request after a fault-free prefix either ends the trace with a failure at that request or extends the fault-free prefix by one |
| Kernel.FailedIssued | src/console.rs:50-95 | a trace that ends in the first failing request of the plan is what `Issued` sends, and the plan was not fault-free |
| Kernel.CleanIssued | src/console.rs:50-95 | a trace holding the whole plan without a failure is what `Issued` sends, and the plan was fault-free |
| Allocation.FreeBelow | src/console.rs:89-92 | every probe answer below `b` is a free number in `[0, b)` |
| Allocation.FreeBelowComplete | src/console.rs:89-92 | every free number below `b` appears among the probe answers below `b` |
| Allocation.FreeBelowAnswer | src/console.rs:89-92 | once every free number below `b` is open, the first-free query answers the first free number at or above `b` |
| Allocation.FreeBelowAnswers | src/console.rs:89-92 | probe answer `i` is the first-free answer once the earlier probe answers are open |
| Allocation.ProbeRequests | src/console.rs:89-91 | the probe loop sends two requests per answer |
| Allocation.ProbeRequestsAt | src/console.rs:89-91 | round `i` of the probe loop is a first-free query followed by the open of the device of answer `i` |
| Allocation.Allocated | src/console.rs:47-101 | the allocated number is at least `min`, is free, and every number from `min` up to it is in use |
| Allocation.PlanFastPath | src/console.rs:50-54 | when the first answer reaches `min`, that answer is the allocated number, the plan is that query and the handle, and no state query is sent |
| Allocation.PlanMinimumZero | src/console.rs:35-37 | with minimum 0 the plan is always the fast path |
| Allocation.PlanMaskPath | src/console.rs:56-73 | when the first answer is below `min` and `k` is the first free number from `min` below 16, the allocation is `k`, after the two queries and with no device opened |
| Allocation.PlanProbePath | src/console.rs:56-95 | when no number from `min` below 16 is free, the allocated number is the lowest free number from the threshold `max(min, 16)`, and the plan is the probe plan up to that number |
| Allocation.PlanCases | src/console.rs:50-98 | the plan in each of the three branches, in terms of the allocated number and, on the probe path, of its probe schedule |
| Allocation.ProbePlanRounds | src/console.rs:86-95 | the probe plan is the two queries, the two requests of each round at their positions, and last the handle built around a file |
| Allocation.FreeBelowSchedule | src/console.rs:88-92 | the probe answers up to the lowest free number `w` from the threshold are nonempty and end with `w`; every earlier answer is below the threshold; none was in use; each is the first-free answer in its round |
| Allocation.PlanProbeSchedule | src/console.rs:86-95 | on the probe path the plan follows the probe schedule with threshold `max(min, 16)`, and the last answer is the allocated number |
| Allocation.ScheduleRelease | src/console.rs:94-95 | after the probe loop, dropping every file but the last leaves only the allocated number added, and dropping that one too restores the occupancy |
| Allocation.ScheduleRound | src/console.rs:89-91 | each round's answer is the first-free answer once the earlier ones are open, its two requests are the next in the plan, and only the last round's answer reaches the threshold |
| Allocation.ScheduleLast | src/console.rs:89 | the loop condition fails only after the last scheduled answer, so the loop stops exactly there |
| Allocation.InitialMask | src/console.rs:62 | the starting mask is the single bit `n` whenever `n` lies in the window |
| Allocation.ScanEntryPanicsInDebugBuild | src/console.rs:62 | with `min >= 16` on the scan path, a debug build panics at the shift, although the allocation should end by probing |
| Allocation.ScanEntryPanicsExample | src/console.rs:62 | on an idle console, minimum 20 panics in a debug build, while the intended result is VT 20 by probing |
| Allocation.MaskTest | src/console.rs:64 | masking the state with bit `n` is zero exactly when bit `n` is clear |
| Allocation.Scan | src/console.rs:61-70 | if found, the result is a clear bit at or above `min` below 16; every bit from `min` below the result is set; if not found, the result is the probe threshold `max(min, 16)` |
| ConsoleDevice.Console.Issue | src/ffi.rs:24-64 | a request is appended to the trace and succeeds exactly when its position is not a fault |
| ConsoleDevice.Console.VtOpenQry | src/ffi.rs:66 | sends the first-free query; the answer is the lowest VT not in use |
| ConsoleDevice.Console.VtGetState | src/ffi.rs:67 | sends the state query; the answer holds the foreground VT and the occupancy mask |
| ConsoleDevice.Console.VtActivate | src/ffi.rs:68 | sends the activate request for VT `n` |
| ConsoleDevice.Console.VtWaitActive | src/ffi.rs:69 | sends the wait request for VT `n`; on success VT `n` is the foreground VT |
| ConsoleDevice.Console.VtDisallocate | src/ffi.rs:70 | sends the release request for VT `n`; on success `n` is no longer in use |
| ConsoleDevice.Console.VtLockSwitch | src/ffi.rs:71 | sends the lock request; on success switching is locked |
| ConsoleDevice.Console.VtUnlockSwitch | src/ffi.rs:72 | sends the unlock request; on success switching is unlocked |
| ConsoleDevice.Console.OpenTty | src/console.rs:91 | opening the device of VT `n` is a fallible request; on success `n` is in use |
| ConsoleDevice.Console.CloseTty | src/console.rs:90-97 | dropping a probe file frees its VT |
| ConsoleDevice.Console.CloseAll | src/console.rs:86-95 | dropping the probe files frees exactly their VTs |
| ConsoleDevice.Console.VtWithNumber | src/console.rs:54 | building the handle of VT `n` is a fallible request; on success it holds `n` and `n` is in use |
| ConsoleDevice.Console.VtWithFile | src/console.rs:95 | building the handle of VT `n` around an open file is a fallible request; on success it holds `n` |
| ConsoleDevice.Console.CurrentVtNumber | src/console.rs:25-28 | sends one state query and returns the foreground VT, or that query's error |
| ConsoleDevice.Console.NewVt | src/console.rs:35-37 | sends the first-free query and builds the handle of its answer; fails exactly when one of those two fails; on success only the answer becomes used |
| ConsoleDevice.Console.NewVtWithMinimumNumber | src/console.rs:47-101 | sends the allocation plan cut after its first failure; fails exactly when a request of the plan fails, with that request's error and the occupancy unchanged; on success returns the lowest number at least `min` free at the call, and only that number becomes used |
| ConsoleDevice.Console.Allocate | src/console.rs:47-98 | the branch structure of the allocation: the fast path, the mask path and the probe path each send their plan in order, stop at the first failure, and on success hand out the allocated number |
| ConsoleDevice.Console.ProbeVt | src/console.rs:86-95 | the probe path sends its plan up to the first failure; on success it returns the last probe answer with only that number added to the occupancy, and on failure the occupancy is as before |
| ConsoleDevice.Console.ProbeLoop | src/console.rs:86-92 | the loop's answers are exactly the probe schedule; on success at least one file is open, the last answer reaches the threshold and every answer is in use; on failure every opened file is dropped |
| ConsoleDevice.Console.ProbeRound | src/console.rs:89-91 | one round sends a query and an open; on success the answer is the lowest free number and is now in use; on failure the earlier files are dropped |
| ConsoleDevice.Console.ProbeFinish | src/console.rs:94-95 | the handle is built around the last file; the other files are dropped; on failure the last file is dropped too |
| ConsoleDevice.Console.DisallocateVt | src/console.rs:104-106 | sends exactly one release request for VT `n` and returns its outcome |
| ConsoleDevice.Console.OpenVt | src/console.rs:109-111 | builds the handle of VT `n` without any allocation query |
| ConsoleDevice.Console.SwitchTo | src/console.rs:114-118 | sends activate then wait for the same VT; when activate fails the wait is never sent and activate's error is returned |
| ConsoleDevice.Console.LockSwitch | src/console.rs:121-127 | sends exactly one request, the lock when `lock` holds and the unlock otherwise, both with argument 1 |

## Left out

- `Console::open` (src/console.rs:16-22) opens `/dev/console`, which is file-system I/O. The class constructor takes the kernel state as a parameter instead.
- `Console::blank_timer` (src/console.rs:133-139) reads a sysfs file and parses it with the library's integer parser. That is I/O over a library routine.
- The ioctl wrappers themselves (src/ffi.rs:24-64) are foreign calls and are not modelled. That covers the unsafe `ioctl` call, the uninitialised answer buffer and the EINTR retry loop. Each request is one fallible step whose failure comes from the fault schedule. The program builds every error as `io::Error::from_raw_os_error(res)` with `res == -1` (src/ffi.rs:37, 57), so every failure carries raw OS error -1; here an error only names the trace position of the failing request.
- The opcode constants and `TIOCLINUX` (src/ffi.rs:6-14, 73) are a table of kernel numbers with no logic.
- src/vt.rs is not part of this model. `Vt::with_number`, `Vt::with_number_and_file` and `VtNumber` are modelled as fallible requests that yield a handle holding the number. The same goes for the handle's attributes, blanking and drop-time deallocation.
- Device paths (`/dev/tty{n}`, src/console.rs:91) are not modelled. Opening the device of VT `n` is an abstract request that marks `n` in use.
- ConsoleDevice.Console.NewVt: when every VT is taken the first-free query answers `-1`, so `-1 >= 0` fails at src/console.rs:53 and `new_vt` goes through the scan and the probe loop, failing at the open of `/dev/tty-1` (src/console.rs:91). The model has no such answer, so `NewVt` (and `Allocation.PlanMinimumZero`) always takes the fast path.
- ConsoleDevice.Console.NewVtWithMinimumNumber: the kernel's maximum VT count and the `-1` answer of the first-free query when every VT is taken are not modelled; VT numbers are unbounded here. For a minimum above the kernel's maximum the program's probe loop gets the answer `-1`, the open of `/dev/tty-1` at src/console.rs:91 fails, and the allocation returns that I/O error after dropping its files. The model instead probes on and returns VT `min`.
- ConsoleDevice.Console.NewVtWithMinimumNumber: follows the release build of src/console.rs:62, where `1 << n` masks the shift amount (`Allocation.InitialMask`). In a debug build with `min >= 16` on the scan path the program panics after the state query, so its trace stops after `GetState`. The model does not capture that panic; the Findings row records it.
- `v_signal` of the state answer is not modelled.
- Integer widths are not modelled beyond the 16-bit mask. The `i32` casts of VT numbers and the `u16` of `v_active` never wrap here.
- Races with other processes that allocate VTs between a query and an open are the kernel's concern. The model runs one call at a time against a kernel only it changes.
- Closing a file is not a request in the trace and cannot fail.
- ConsoleDevice.Console.Allocate, ProbeVt, ProbeLoop, ProbeRound and ProbeFinish take ghost parameters for the plan and the probe schedule. Their contracts are stated relative to those parameters; `NewVtWithMinimumNumber` ties them to `Plan` and `Allocated`.

## Findings

| source | as written | input that shows it | evidently intended | confidence | as-written member | corrected member |
|---|---|---|---|---|---|---|
| src/console.rs:62 | `let mut mask = 1 << n;` is a `u16` shift (`Allocation.InitialMaskChecked` is its debug-build meaning: no value for an amount outside `[0, 16)`), because `mask` is later combined with the `u16` field `v_state`. A shift amount of 16 or more makes a debug build panic before the `while n < 16` test | `new_vt_with_minimum_number(20)` on an idle console (first free answer 0, below 20) | skip the scan and probe up to VT 20 | not executed | Allocation.ScanEntryPanicsExample | Allocation.Scan |
