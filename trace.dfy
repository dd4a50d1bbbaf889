/**
 * The tracing driver (`headless_debug` binary): find the `call [rax]` and
 * `call [rax + c]` sites, launch the target, rebase the sites to the runtime
 * image, put a breakpoint on each, record for every site the distinct vtable
 * pointers seen in `rax` with a method-count estimate, and after the process
 * exits define one vtable structure per site and comment the site with the
 * vtables seen there.
 *
 * The debugger is replaced by its observable results: the reason and
 * instruction pointer of the launch, and then the sequence of stops that
 * `go_and_wait` returns, each with the bytes the core writes for `rax` and
 * the process memory at that moment. Type definition in the reloaded view is
 * a parameter `accepts`: whether the platform parses the generated text.
 */
module Trace {
  import opened Wrappers
  import opened Words
  import opened Text
  import opened Image
  import opened VtableSize
  import opened CallScan
  import Debugger
  import TypeSynth

  // ---------------------------------------------------------------------------
  // Rebasing a position-independent image
  // ---------------------------------------------------------------------------

  /**
   * `rebase_offset`: the distance from the entry point in the file to the
   * instruction pointer at the launch stop, or 0 when the two agree or the
   * instruction pointer is 0. The subtraction is on i64 and wraps.
   */
  function RebaseOffset(runtimeIp: u64, fileEntry: u64): i64 {
    if runtimeIp != fileEntry && runtimeIp != 0 then WrappingSubI64(AsI64(runtimeIp), AsI64(fileEntry))
    else 0
  }

  /** `(c.addr as i64 + rebase_offset) as u64`: where a file address lies in the process. */
  function RuntimeAddr(fileAddr: u64, offset: i64): u64 {
    AsU64(WrappingAddI64(AsI64(fileAddr), offset))
  }

  /** The file address a runtime address came from. */
  function FileAddr(runtimeAddr: u64, offset: i64): u64 {
    WrappingSub(runtimeAddr, AsU64(offset))
  }

  /** Rebasing is adding the offset's two's-complement bits modulo 2^64. */
  lemma RuntimeAddrSpec(fileAddr: u64, offset: i64)
    ensures RuntimeAddr(fileAddr, offset) == WrappingAdd(fileAddr, AsU64(offset))
    ensures offset == 0 ==> RuntimeAddr(fileAddr, offset) == fileAddr
  {
  }

  /** Rebasing loses nothing: the file address is recovered, so distinct sites get distinct breakpoints. */
  lemma RebaseRoundTrip(a: u64, b: u64, offset: i64)
    ensures FileAddr(RuntimeAddr(a, offset), offset) == a
    ensures RuntimeAddr(a, offset) == RuntimeAddr(b, offset) ==> a == b
  {
    RuntimeAddrSpec(a, offset);
    RuntimeAddrSpec(b, offset);
    WrappingSubAdd(a, AsU64(offset));
    WrappingSubAdd(b, AsU64(offset));
  }

  /**
   * The offset is chosen so that the file's entry point rebases onto the
   * instruction pointer of the launch stop (whenever that is not 0), and it is
   * 0 exactly when no rebasing is detected.
   */
  lemma RebaseOffsetSpec(runtimeIp: u64, fileEntry: u64)
    ensures runtimeIp != 0 ==> RuntimeAddr(fileEntry, RebaseOffset(runtimeIp, fileEntry)) == runtimeIp
    ensures RebaseOffset(runtimeIp, fileEntry) == 0 <==> runtimeIp == fileEntry || runtimeIp == 0
  {
  }

  // ---------------------------------------------------------------------------
  // Breakpoints
  // ---------------------------------------------------------------------------

  /** The breakpoint addresses, in the order `add_breakpoint` is called. */
  function RuntimeAddrs(calls: seq<RaxDerefCall>, offset: i64): seq<u64> {
    if calls == [] then []
    else RuntimeAddrs(calls[..|calls| - 1], offset) + [RuntimeAddr(calls[|calls| - 1].addr, offset)]
  }

  /** `bp_to_call` after inserting every site at its runtime address, in order. */
  function BreakpointMapOf(calls: seq<RaxDerefCall>, offset: i64): map<u64, RaxDerefCall> {
    if calls == [] then map[]
    else
      var c := calls[|calls| - 1];
      BreakpointMapOf(calls[..|calls| - 1], offset)[RuntimeAddr(c.addr, offset) := c]
  }

  /** One breakpoint per site, at the site's runtime address, in the sites' order. */
  lemma {:induction false} RuntimeAddrsSpec(calls: seq<RaxDerefCall>, offset: i64)
    ensures |RuntimeAddrs(calls, offset)| == |calls|
    ensures forall k :: 0 <= k < |calls| ==> RuntimeAddrs(calls, offset)[k] == RuntimeAddr(calls[k].addr, offset)
  {
    if calls != [] {
      RuntimeAddrsSpec(calls[..|calls| - 1], offset);
    }
  }

  /** Some site's breakpoint lands on `r`. */
  predicate HasSiteAt(calls: seq<RaxDerefCall>, offset: i64, r: u64) {
    exists j :: 0 <= j < |calls| && RuntimeAddr(calls[j].addr, offset) == r
  }

  /** Site `j` is the last one whose breakpoint lands on `r`. */
  predicate LastSiteAt(calls: seq<RaxDerefCall>, offset: i64, j: nat, r: u64) {
    && j < |calls|
    && RuntimeAddr(calls[j].addr, offset) == r
    && forall l :: j < l < |calls| ==> RuntimeAddr(calls[l].addr, offset) != r
  }

  lemma HasSiteSnoc(calls: seq<RaxDerefCall>, offset: i64, r: u64)
    requires calls != []
    ensures HasSiteAt(calls, offset, r) <==>
      HasSiteAt(calls[..|calls| - 1], offset, r) || RuntimeAddr(calls[|calls| - 1].addr, offset) == r
  {
    var init := calls[..|calls| - 1];
    if HasSiteAt(calls, offset, r) {
      var j :| 0 <= j < |calls| && RuntimeAddr(calls[j].addr, offset) == r;
      if j < |init| {
        assert init[j] == calls[j];
      }
    }
    if HasSiteAt(init, offset, r) {
      var j :| 0 <= j < |init| && RuntimeAddr(init[j].addr, offset) == r;
      assert init[j] == calls[j];
    }
  }

  /** A runtime address is a key exactly when some site rebases onto it. */
  lemma {:induction false} BreakpointMapKeys(calls: seq<RaxDerefCall>, offset: i64, r: u64)
    ensures r in BreakpointMapOf(calls, offset) <==> HasSiteAt(calls, offset, r)
  {
    if calls != [] {
      BreakpointMapKeys(calls[..|calls| - 1], offset, r);
      HasSiteSnoc(calls, offset, r);
    }
  }

  /** Each key maps to the last site inserted there (a later insert replaces an earlier one). */
  lemma {:induction false} BreakpointMapValue(calls: seq<RaxDerefCall>, offset: i64, r: u64)
    requires r in BreakpointMapOf(calls, offset)
    ensures exists j: nat :: LastSiteAt(calls, offset, j, r) && calls[j] == BreakpointMapOf(calls, offset)[r]
  {
    var init := calls[..|calls| - 1];
    var c := calls[|calls| - 1];
    if r == RuntimeAddr(c.addr, offset) {
      assert LastSiteAt(calls, offset, |calls| - 1, r);
    } else {
      BreakpointMapValue(init, offset, r);
      var j: nat :| LastSiteAt(init, offset, j, r) && init[j] == BreakpointMapOf(init, offset)[r];
      assert calls[j] == init[j];
      assert LastSiteAt(calls, offset, j, r);
    }
  }

  /**
   * A runtime address is a key exactly when some site rebases onto it; it
   * maps to the last such site, whose file address the key rebases back to.
   */
  lemma BreakpointMapSpec(calls: seq<RaxDerefCall>, offset: i64, r: u64)
    ensures var m := BreakpointMapOf(calls, offset);
      && (r in m <==> exists j :: 0 <= j < |calls| && RuntimeAddr(calls[j].addr, offset) == r)
      && (r in m ==> m[r].addr == FileAddr(r, offset))
      && (r in m ==> exists j: nat :: LastSiteAt(calls, offset, j, r) && calls[j] == m[r])
  {
    BreakpointMapKeys(calls, offset, r);
    var m := BreakpointMapOf(calls, offset);
    if r in m {
      BreakpointMapValue(calls, offset, r);
      RebaseRoundTrip(m[r].addr, m[r].addr, offset);
    }
  }

  /** Every breakpoint leads to one of the scanned sites. */
  predicate BreakpointsFrom(bp: map<u64, RaxDerefCall>, calls: seq<RaxDerefCall>) {
    forall r :: r in bp ==> bp[r] in calls
  }

  /** Lines 122-127: one `add_breakpoint` and one insert per site. */
  method SetBreakpoints(calls: seq<RaxDerefCall>, offset: i64)
    returns (breakpoints: seq<u64>, bpToCall: map<u64, RaxDerefCall>)
    ensures breakpoints == RuntimeAddrs(calls, offset)
    ensures bpToCall == BreakpointMapOf(calls, offset)
  {
    breakpoints := [];
    bpToCall := map[];
    for k := 0 to |calls|
      invariant breakpoints == RuntimeAddrs(calls[..k], offset)
      invariant bpToCall == BreakpointMapOf(calls[..k], offset)
    {
      assert calls[..k + 1][..k] == calls[..k];
      var c := calls[k];
      var runtimeAddr := RuntimeAddr(c.addr, offset);
      breakpoints := breakpoints + [runtimeAddr];
      bpToCall := bpToCall[runtimeAddr := c];
    }
    assert calls[..|calls|] == calls;
  }

  /** The map built for the scanned sites only ever names scanned sites. */
  lemma BreakpointMapFrom(calls: seq<RaxDerefCall>, offset: i64)
    ensures BreakpointsFrom(BreakpointMapOf(calls, offset), calls)
  {
    var m := BreakpointMapOf(calls, offset);
    forall r | r in m
      ensures m[r] in calls
    {
      BreakpointMapValue(calls, offset, r);
    }
  }


  // ---------------------------------------------------------------------------
  // Observations
  // ---------------------------------------------------------------------------

  /** `VTableObservation`: a vtable pointer seen in `rax` and its estimated method count. */
  datatype VTableObservation = VTableObservation(vtablePtr: u64, methodCount: u64)

  /** `CallSiteInfo`: one call site (file address), its slot offset, its observations in order. */
  datatype CallSiteInfo = CallSiteInfo(addr: u64, offset: i64, observations: seq<VTableObservation>)

  /** What the driver sees at one return of `go_and_wait`. */
  datatype Stop = Stop(reason: Debugger.StopReason, ip: u64, raxWritten: seq<u8>, mem: LiveMemory)

  /** The loop's variables `call_sites` and `hit_count`. */
  datatype TraceState = TraceState(callSites: map<u64, CallSiteInfo>, hitCount: nat)

  /**
   * Which view sizes a vtable. `StaticView` is the file's view as the driver
   * does it; `LiveProcess` reads the process and classifies with the debugger's
   * view, as `determine_vtable_size_runtime` does.
   */
  datatype Sizing = StaticView(bv: BinaryView) | LiveProcess(liveView: BinaryView)

  /** How tracing ends: the process exited, the recorded stops ran out, or `unwrap` panicked. */
  datatype TraceEnd = Exited(state: TraceState) | StopsExhausted(state: TraceState) | Panicked

  /** `u64::from_le_bytes(rax_bytes[..8])` over the 64-byte register buffer. */
  function RaxOf(stop: Stop): u64 {
    FromLeBytes(Debugger.RegisterBuffer(stop.raxWritten)[..8])
  }

  predicate ContainsPtr(obs: seq<VTableObservation>, ptr: u64) {
    exists k :: 0 <= k < |obs| && obs[k].vtablePtr == ptr
  }

  /**
   * The method count recorded for `ptr`: the static estimate, whose `None` the
   * driver unwraps (a panic, `None` here), or the live estimate, whose `None`
   * (every probed slot a code pointer) counts as the full 1024 slots.
   */
  function MethodCount(sizing: Sizing, mem: LiveMemory, ptr: u64): (r: Option<u64>)
    ensures r.Some? ==> r.value <= SLOT_LIMIT
    ensures sizing.LiveProcess? ==> r.Some?
  {
    match sizing
    case StaticView(bv) =>
      StaticVtableSizeSpec(bv, ptr);
      (match StaticVtableSize(bv, ptr) case Some(n) => Some(n) case None => None)
    case LiveProcess(liveView) =>
      RuntimeVtableSizeSpec(mem, liveView, ptr);
      Some(RuntimeVtableSize(mem, liveView, ptr).GetOr(SLOT_LIMIT))
  }

  /** The site's entry as `entry(..).or_insert_with(..)` yields it. */
  function EntryFor(callSites: map<u64, CallSiteInfo>, call: RaxDerefCall): CallSiteInfo {
    if call.addr in callSites then callSites[call.addr] else CallSiteInfo(call.addr, call.offset, [])
  }

  /** Record `ptr` at the site of `call` unless that site has already seen it. */
  function Record(st: TraceState, call: RaxDerefCall, ptr: u64, methodCount: u64): TraceState {
    var entry := EntryFor(st.callSites, call);
    if ContainsPtr(entry.observations, ptr) then TraceState(st.callSites[call.addr := entry], st.hitCount)
    else
      TraceState(
        st.callSites[call.addr := entry.(observations := entry.observations + [VTableObservation(ptr, methodCount)])],
        st.hitCount + 1)
  }

  /** One pass of the loop body for a stop that is not the exit; `None` is the panic. */
  function Step(st: TraceState, bp: map<u64, RaxDerefCall>, sizing: Sizing, stop: Stop): Option<TraceState> {
    if stop.ip !in bp then Some(st)
    else
      var rax := RaxOf(stop);
      if rax == 0 then Some(st)
      else match MethodCount(sizing, stop.mem, rax)
        case None => None
        case Some(n) => Some(Record(st, bp[stop.ip], rax, n))
  }

  /** The tracing loop over the remaining stops. */
  function RunFrom(st: TraceState, bp: map<u64, RaxDerefCall>, sizing: Sizing, stops: seq<Stop>): TraceEnd
    decreases |stops|
  {
    if stops == [] then StopsExhausted(st)
    else if stops[0].reason == Debugger.ProcessExited then Exited(st)
    else match Step(st, bp, sizing, stops[0])
      case None => Panicked
      case Some(next) => RunFrom(next, bp, sizing, stops[1..])
  }

  const Initial: TraceState := TraceState(map[], 0)

  // ---------------------------------------------------------------------------
  // What one stop does
  // ---------------------------------------------------------------------------

  /** A stop away from every breakpoint, or with `rax == 0`, changes nothing. */
  lemma StepIgnores(st: TraceState, bp: map<u64, RaxDerefCall>, sizing: Sizing, stop: Stop)
    requires stop.ip !in bp || RaxOf(stop) == 0
    ensures Step(st, bp, sizing, stop) == Some(st)
  {
  }

  /**
   * A stop at a breakpoint with a non-null `rax` that can be sized: the site of
   * the breakpoint's call gets an entry (with the call's offset if it is new),
   * no other site changes, the pointer is then among the site's observations,
   * and it is appended with its method count, counting one hit, exactly when
   * the site had not seen it before.
   */
  lemma StepRecords(st: TraceState, bp: map<u64, RaxDerefCall>, sizing: Sizing, stop: Stop, n: u64)
    requires stop.ip in bp && RaxOf(stop) != 0 && MethodCount(sizing, stop.mem, RaxOf(stop)) == Some(n)
    ensures var call := bp[stop.ip]; var rax := RaxOf(stop);
      var old_ := EntryFor(st.callSites, call);
      var next := Step(st, bp, sizing, stop).value;
      && next.callSites.Keys == st.callSites.Keys + {call.addr}
      && (forall a :: a in st.callSites && a != call.addr ==> next.callSites[a] == st.callSites[a])
      && next.callSites[call.addr].addr == old_.addr && next.callSites[call.addr].offset == old_.offset
      && ContainsPtr(next.callSites[call.addr].observations, rax)
      && (ContainsPtr(old_.observations, rax) ==>
            next.callSites[call.addr] == old_ && next.hitCount == st.hitCount)
      && (!ContainsPtr(old_.observations, rax) ==>
            && next.callSites[call.addr].observations == old_.observations + [VTableObservation(rax, n)]
            && next.hitCount == st.hitCount + 1)
  {
    var rax := RaxOf(stop);
    var old_ := EntryFor(st.callSites, bp[stop.ip]);
    if !ContainsPtr(old_.observations, rax) {
      var obs := old_.observations + [VTableObservation(rax, n)];
      assert obs[|obs| - 1].vtablePtr == rax;
    }
  }

  /** Seeing the same stop twice records it once: the step is idempotent. */
  lemma StepIdempotent(st: TraceState, bp: map<u64, RaxDerefCall>, sizing: Sizing, stop: Stop)
    requires Step(st, bp, sizing, stop).Some?
    ensures var next := Step(st, bp, sizing, stop).value;
      Step(next, bp, sizing, stop) == Some(next)
  {
    var rax := RaxOf(stop);
    if stop.ip in bp && rax != 0 {
      var n := MethodCount(sizing, stop.mem, rax).value;
      StepRecords(st, bp, sizing, stop, n);
      var next := Step(st, bp, sizing, stop).value;
      var call := bp[stop.ip];
      assert EntryFor(next.callSites, call) == next.callSites[call.addr];
      assert next.callSites[call.addr := next.callSites[call.addr]] == next.callSites;
    }
  }

  // ---------------------------------------------------------------------------
  // The invariant of the tracing loop
  // ---------------------------------------------------------------------------

  /** The number of observations over all sites (the summary's `observations`). */
  ghost function TotalObservations(callSites: map<u64, CallSiteInfo>): nat
    decreases callSites.Keys
  {
    if callSites.Keys == {} then 0
    else
      var a :| a in callSites.Keys;
      |callSites[a].observations| + TotalObservations(callSites - {a})
  }

  /** The total can be taken apart at any site. */
  lemma {:induction false} TotalRemove(callSites: map<u64, CallSiteInfo>, a: u64)
    requires a in callSites
    ensures TotalObservations(callSites) == |callSites[a].observations| + TotalObservations(callSites - {a})
    decreases callSites.Keys
  {
    var b :| b in callSites.Keys && TotalObservations(callSites)
      == |callSites[b].observations| + TotalObservations(callSites - {b});
    if b != a {
      TotalRemove(callSites - {b}, a);
      TotalRemove(callSites - {a}, b);
      assert callSites - {b} - {a} == callSites - {a} - {b};
    }
  }

  /** Replacing or adding one site changes the total by the difference in its observations. */
  lemma TotalUpdate(callSites: map<u64, CallSiteInfo>, a: u64, info: CallSiteInfo)
    ensures TotalObservations(callSites[a := info]) ==
      TotalObservations(callSites) - (if a in callSites then |callSites[a].observations| else 0) + |info.observations|
  {
    var m := callSites[a := info];
    TotalRemove(m, a);
    assert m - {a} == callSites - {a};
    if a in callSites {
      TotalRemove(callSites, a);
    } else {
      assert callSites - {a} == callSites;
    }
  }

  predicate DistinctPtrs(obs: seq<VTableObservation>) {
    forall i, j :: 0 <= i < j < |obs| ==> obs[i].vtablePtr != obs[j].vtablePtr
  }

  /** A recorded site: keyed by its own address, with a scanned offset, and distinct non-null pointers. */
  predicate SiteConsistent(info: CallSiteInfo, a: u64, calls: seq<RaxDerefCall>) {
    && info.addr == a
    && RaxDerefCall(a, info.offset) in calls
    && |info.observations| >= 1
    && DistinctPtrs(info.observations)
    && forall k :: 0 <= k < |info.observations| ==>
         info.observations[k].vtablePtr != 0 && info.observations[k].methodCount <= SLOT_LIMIT
  }

  /**
   * The loop invariant: every site is consistent and `hit_count` equals the
   * number of observations, one hit per new (site, vtable) pair.
   */
  ghost predicate Consistent(st: TraceState, calls: seq<RaxDerefCall>) {
    && st.hitCount == TotalObservations(st.callSites)
    && forall a :: a in st.callSites ==> SiteConsistent(st.callSites[a], a, calls)
  }

  lemma ConsistentInitial(calls: seq<RaxDerefCall>)
    ensures Consistent(Initial, calls)
  {
  }

  /** Appending a pointer not yet seen keeps the pointers distinct and non-null. */
  lemma AppendKeepsSite(info: CallSiteInfo, a: u64, calls: seq<RaxDerefCall>, o: VTableObservation)
    requires info.addr == a && RaxDerefCall(a, info.offset) in calls
    requires info.observations == [] || SiteConsistent(info, a, calls)
    requires !ContainsPtr(info.observations, o.vtablePtr)
    requires o.vtablePtr != 0 && o.methodCount <= SLOT_LIMIT
    ensures SiteConsistent(info.(observations := info.observations + [o]), a, calls)
  {
    var obs := info.observations + [o];
    forall i, j | 0 <= i < j < |obs|
      ensures obs[i].vtablePtr != obs[j].vtablePtr
    {
      if j == |obs| - 1 {
        assert obs[i] == info.observations[i];
      }
    }
  }

  /** Every step the driver survives keeps the invariant. */
  lemma StepConsistent(st: TraceState, bp: map<u64, RaxDerefCall>, sizing: Sizing, stop: Stop, calls: seq<RaxDerefCall>)
    requires Consistent(st, calls) && BreakpointsFrom(bp, calls)
    requires Step(st, bp, sizing, stop).Some?
    ensures Consistent(Step(st, bp, sizing, stop).value, calls)
  {
    var rax := RaxOf(stop);
    if stop.ip in bp && rax != 0 {
      var n := MethodCount(sizing, stop.mem, rax).value;
      var call := bp[stop.ip];
      var entry := EntryFor(st.callSites, call);
      var next := Step(st, bp, sizing, stop).value;
      StepRecords(st, bp, sizing, stop, n);
      if ContainsPtr(entry.observations, rax) {
        assert next.callSites == st.callSites;
      } else {
        var info := entry.(observations := entry.observations + [VTableObservation(rax, n)]);
        assert next.callSites == st.callSites[call.addr := info];
        if call.addr !in st.callSites {
          assert RaxDerefCall(call.addr, entry.offset) == call;
        }
        AppendKeepsSite(entry, call.addr, calls, VTableObservation(rax, n));
        TotalUpdate(st.callSites, call.addr, info);
      }
    }
  }

  /** The invariant holds wherever the loop stops without panicking. */
  lemma {:induction false} RunConsistent(st: TraceState, bp: map<u64, RaxDerefCall>, sizing: Sizing, stops: seq<Stop>, calls: seq<RaxDerefCall>)
    requires Consistent(st, calls) && BreakpointsFrom(bp, calls)
    ensures !RunFrom(st, bp, sizing, stops).Panicked? ==> Consistent(RunFrom(st, bp, sizing, stops).state, calls)
    decreases |stops|
  {
    if stops != [] && stops[0].reason != Debugger.ProcessExited {
      var next := Step(st, bp, sizing, stops[0]);
      if next.Some? {
        StepConsistent(st, bp, sizing, stops[0], calls);
        RunConsistent(next.value, bp, sizing, stops[1..], calls);
      }
    }
  }

  /** Nothing after the first exit stop is looked at, and the run does end by exiting or panicking. */
  lemma {:induction false} RunStopsAtExit(st: TraceState, bp: map<u64, RaxDerefCall>, sizing: Sizing, stops: seq<Stop>, k: nat, more: seq<Stop>)
    requires k < |stops| && stops[k].reason == Debugger.ProcessExited
    ensures RunFrom(st, bp, sizing, stops[..k + 1] + more) == RunFrom(st, bp, sizing, stops)
    ensures !RunFrom(st, bp, sizing, stops).StopsExhausted?
    decreases k
  {
    var s := stops[..k + 1] + more;
    assert s[0] == stops[0];
    if k > 0 && stops[0].reason != Debugger.ProcessExited {
      var next := Step(st, bp, sizing, stops[0]);
      if next.Some? {
        RunStopsAtExit(next.value, bp, sizing, stops[1..], k - 1, more);
        assert s[1..] == stops[1..][..k] + more;
      }
    }
  }

  // ---------------------------------------------------------------------------
  // Sizing a runtime pointer in the file's view
  // ---------------------------------------------------------------------------

  /**
   * As written, the driver sizes the runtime vtable pointer in the file's
   * view. When the image has been rebased above every byte of that view (the
   * situation the rebase offset exists for), no slot reads, the estimate is
   * `None`, and the first breakpoint hit with a non-null `rax` panics.
   */
  lemma StaticSizingPanics(st: TraceState, bp: map<u64, RaxDerefCall>, bv: BinaryView, stop: Stop, rest: seq<Stop>)
    requires stop.reason != Debugger.ProcessExited && stop.ip in bp && RaxOf(stop) != 0
    requires RaxOf(stop) + MAX_VTABLE_SIZE <= U64_LIMIT
    requires forall a :: a in bv.bytes ==> a < RaxOf(stop)
    ensures Step(st, bp, StaticView(bv), stop) == None
    ensures RunFrom(st, bp, StaticView(bv), [stop] + rest) == Panicked
  {
    var rax := RaxOf(stop);
    forall k | 0 <= k < SLOT_LIMIT
      ensures ReadU64(bv, SlotAddr(rax, k)).None?
    {
      ReadU64Spec(bv, SlotAddr(rax, k));
      assert !Readable(bv, SlotAddr(rax, k));
    }
    StaticSizeOfUnreadable(bv, rax);
    assert ([stop] + rest)[0] == stop;
  }

  /**
   * Sizing in the live process never panics: every breakpoint hit with a
   * non-null `rax` is recorded, and the loop only ends at the exit (or when
   * the stops run out).
   */
  lemma {:induction false} LiveSizingNeverPanics(st: TraceState, bp: map<u64, RaxDerefCall>, liveView: BinaryView, stops: seq<Stop>)
    ensures !RunFrom(st, bp, LiveProcess(liveView), stops).Panicked?
    ensures stops != [] && stops[0].reason != Debugger.ProcessExited && stops[0].ip in bp && RaxOf(stops[0]) != 0 ==>
      var next := Step(st, bp, LiveProcess(liveView), stops[0]);
      next.Some? && ContainsPtr(next.value.callSites[bp[stops[0].ip].addr].observations, RaxOf(stops[0]))
    decreases |stops|
  {
    if stops != [] && stops[0].reason != Debugger.ProcessExited {
      var stop := stops[0];
      var next := Step(st, bp, LiveProcess(liveView), stop);
      assert next.Some?;
      if stop.ip in bp && RaxOf(stop) != 0 {
        StepRecords(st, bp, LiveProcess(liveView), stop, MethodCount(LiveProcess(liveView), stop.mem, RaxOf(stop)).value);
      }
      LiveSizingNeverPanics(next.value, bp, liveView, stops[1..]);
    }
  }

  // ---------------------------------------------------------------------------
  // The tracing loop
  // ---------------------------------------------------------------------------

  /** `entry.observations.iter().any(|o| o.vtable_ptr == rax)` */
  method AnySeen(obs: seq<VTableObservation>, ptr: u64) returns (seen: bool)
    ensures seen <==> ContainsPtr(obs, ptr)
  {
    for k := 0 to |obs|
      invariant forall l :: 0 <= l < k ==> obs[l].vtablePtr != ptr
    {
      if obs[k].vtablePtr == ptr {
        return true;
      }
    }
    return false;
  }

  /**
   * Lines 130-175: resume, stop at the exit, and at a breakpoint read `rax`,
   * size the vtable it points to and record it at the call site.
   */
  method Trace(bp: map<u64, RaxDerefCall>, sizing: Sizing, stops: seq<Stop>) returns (end: TraceEnd)
    ensures end == RunFrom(Initial, bp, sizing, stops)
  {
    var callSites: map<u64, CallSiteInfo> := map[];
    var hitCount: nat := 0;
    var i := 0;
    while i < |stops|
      invariant i <= |stops|
      invariant RunFrom(TraceState(callSites, hitCount), bp, sizing, stops[i..]) == RunFrom(Initial, bp, sizing, stops)
    {
      var stop := stops[i];
      assert stops[i..][0] == stop && stops[i..][1..] == stops[i + 1..];
      if stop.reason == Debugger.ProcessExited {
        return Exited(TraceState(callSites, hitCount));
      }
      var runtimeIp := stop.ip;
      if runtimeIp in bp {
        var call := bp[runtimeIp];
        var raxBytes := Debugger.RegisterBuffer(stop.raxWritten);
        var rax := FromLeBytes(raxBytes[..8]);
        if rax != 0 {
          var methodCount: u64;
          match sizing {
            case StaticView(bv) =>
              var n := DetermineVtableSize(bv, rax);
              if n.None? {
                return Panicked;
              }
              StaticVtableSizeSpec(bv, rax);
              methodCount := n.value;
            case LiveProcess(liveView) =>
              var n := DetermineVtableSizeRuntime(stop.mem, liveView, rax);
              RuntimeVtableSizeSpec(stop.mem, liveView, rax);
              methodCount := n.GetOr(SLOT_LIMIT);
          }
          var fileAddr := call.addr;
          var entry := if fileAddr in callSites then callSites[fileAddr] else CallSiteInfo(fileAddr, call.offset, []);
          var alreadySeen := AnySeen(entry.observations, rax);
          if !alreadySeen {
            entry := entry.(observations := entry.observations + [VTableObservation(rax, methodCount)]);
            hitCount := hitCount + 1;
          }
          callSites := callSites[fileAddr := entry];
        }
      }
      i := i + 1;
    }
    return StopsExhausted(TraceState(callSites, hitCount));
  }

  // ---------------------------------------------------------------------------
  // Defining the types
  // ---------------------------------------------------------------------------

  function MaxU64(a: u64, b: u64): u64 {
    if a >= b then a else b
  }

  /** `observations.iter().map(|o| o.method_count).max().unwrap_or(0)` */
  function MaxMethods(obs: seq<VTableObservation>): u64 {
    if obs == [] then 0 else MaxU64(MaxMethods(obs[..|obs| - 1]), obs[|obs| - 1].methodCount)
  }

  /** The largest method count observed, 0 for no observations. */
  lemma {:induction false} MaxMethodsSpec(obs: seq<VTableObservation>)
    ensures forall k :: 0 <= k < |obs| ==> obs[k].methodCount <= MaxMethods(obs)
    ensures obs == [] ==> MaxMethods(obs) == 0
    ensures obs != [] ==> exists k :: 0 <= k < |obs| && obs[k].methodCount == MaxMethods(obs)
  {
    if obs != [] {
      var init := obs[..|obs| - 1];
      MaxMethodsSpec(init);
      forall k | 0 <= k < |init|
        ensures obs[k].methodCount <= MaxMethods(obs)
      {
        assert obs[k] == init[k];
      }
      if init != [] && MaxMethods(obs) == MaxMethods(init) {
        var k :| 0 <= k < |init| && init[k].methodCount == MaxMethods(init);
        assert obs[k] == init[k];
      }
    }
  }

  /** One entry of the comment: `0x`, the vtable pointer in hex, then `(<n> methods)`. */
  function ObservationText(o: VTableObservation): string {
    "0x" + Hex(o.vtablePtr) + "(" + Dec(o.methodCount) + " methods)"
  }

  function ObservationTexts(obs: seq<VTableObservation>): seq<string> {
    seq(|obs|, k requires 0 <= k < |obs| => ObservationText(obs[k]))
  }

  /** The comment set at a defined site. */
  function VTablesComment(obs: seq<VTableObservation>): string {
    "VTables: " + Join(ObservationTexts(obs), ", ")
  }

  /** Position of the first `c` in `s` (`|s|` when there is none). */
  function IndexOf(s: string, c: char): nat {
    if s == [] || s[0] == c then 0 else 1 + IndexOf(s[1..], c)
  }

  lemma {:induction false} IndexOfSplit(h: string, r: string, c: char)
    requires forall i :: 0 <= i < |h| ==> h[i] != c
    ensures IndexOf(h + [c] + r, c) == |h|
  {
    if h != [] {
      assert (h + [c] + r)[1..] == h[1..] + [c] + r;
      IndexOfSplit(h[1..], r, c);
    }
  }

  /** Two strings that split at the first `c` agree on both parts. */
  lemma SplitAtDelimiter(h1: string, r1: string, h2: string, r2: string, c: char)
    requires forall i :: 0 <= i < |h1| ==> h1[i] != c
    requires forall i :: 0 <= i < |h2| ==> h2[i] != c
    requires h1 + [c] + r1 == h2 + [c] + r2
    ensures h1 == h2 && r1 == r2
  {
    var s := h1 + [c] + r1;
    IndexOfSplit(h1, r1, c);
    IndexOfSplit(h2, r2, c);
    assert h1 == s[..|h1|] == h2;
    assert r1 == s[|h1| + 1..] == r2;
  }

  /** Distinct observations print differently: the pointer and the count can be read off the text. */
  lemma ObservationTextInjective(o1: VTableObservation, o2: VTableObservation)
    requires ObservationText(o1) == ObservationText(o2)
    ensures o1 == o2
  {
    var h1, h2 := Hex(o1.vtablePtr), Hex(o2.vtablePtr);
    var r1, r2 := Dec(o1.methodCount) + " methods)", Dec(o2.methodCount) + " methods)";
    assert ObservationText(o1) == "0x" + (h1 + "(" + r1);
    assert ObservationText(o2) == "0x" + (h2 + "(" + r2);
    assert h1 + "(" + r1 == ObservationText(o1)[2..] == ObservationText(o2)[2..] == h2 + "(" + r2;
    HexShape(o1.vtablePtr);
    HexShape(o2.vtablePtr);
    SplitAtDelimiter(h1, r1, h2, r2, '(');
    HexRoundTrip(o1.vtablePtr);
    HexRoundTrip(o2.vtablePtr);
    var d1, d2 := Dec(o1.methodCount), Dec(o2.methodCount);
    assert |d1| == |d2|;
    assert d1 == r1[..|d1|] == r2[..|d2|] == d2;
    DecRoundTrip(o1.methodCount);
    DecRoundTrip(o2.methodCount);
  }

  /** The comment lists the observations in the order they were made: one more adds `, <text>` at the end. */
  lemma VTablesCommentAppend(obs: seq<VTableObservation>, o: VTableObservation)
    requires obs != []
    ensures VTablesComment(obs + [o]) == VTablesComment(obs) + ", " + ObservationText(o)
  {
    assert ObservationTexts(obs + [o]) == ObservationTexts(obs) + [ObservationText(o)];
    JoinAppend(ObservationTexts(obs), ObservationText(o), ", ");
  }

  /** The site gets a type: some method was counted and the platform parses the generated text. */
  predicate Defines(callSites: map<u64, CallSiteInfo>, a: u64, accepts: string -> bool) {
    && a in callSites
    && MaxMethods(callSites[a].observations) > 0
    && accepts(TypeSynth.TypeDefText(a, MaxMethods(callSites[a].observations)))
  }

  /** Type text per defined site, among the sites in `done`. */
  function DefinedTypesAmong(callSites: map<u64, CallSiteInfo>, done: set<u64>, accepts: string -> bool): map<u64, string> {
    map a | a in callSites && a in done && Defines(callSites, a, accepts) ::
      TypeSynth.TypeDefText(a, MaxMethods(callSites[a].observations))
  }

  /** Comment per defined site, among the sites in `done`. */
  function CommentsAmong(callSites: map<u64, CallSiteInfo>, done: set<u64>, accepts: string -> bool): map<u64, string> {
    map a | a in callSites && a in done && Defines(callSites, a, accepts) ::
      VTablesComment(callSites[a].observations)
  }

  /** Taking one more site into account adds its type exactly when it is defined. */
  lemma TypesAmongStep(callSites: map<u64, CallSiteInfo>, done: set<u64>, a: u64, accepts: string -> bool)
    requires a in callSites && a !in done
    ensures DefinedTypesAmong(callSites, done + {a}, accepts) ==
      if Defines(callSites, a, accepts)
      then DefinedTypesAmong(callSites, done, accepts)[a := TypeSynth.TypeDefText(a, MaxMethods(callSites[a].observations))]
      else DefinedTypesAmong(callSites, done, accepts)
  {
  }

  /** Taking one more site into account adds its comment exactly when it is defined. */
  lemma CommentsAmongStep(callSites: map<u64, CallSiteInfo>, done: set<u64>, a: u64, accepts: string -> bool)
    requires a in callSites && a !in done
    ensures CommentsAmong(callSites, done + {a}, accepts) ==
      if Defines(callSites, a, accepts)
      then CommentsAmong(callSites, done, accepts)[a := VTablesComment(callSites[a].observations)]
      else CommentsAmong(callSites, done, accepts)
  {
  }

  /**
   * Lines 191-205: every site with a positive maximum gets the structure text
   * for that many methods; where the platform accepts it, the site is also
   * commented with its vtables. The result does not depend on the map's
   * iteration order.
   */
  method DefineTypes(callSites: map<u64, CallSiteInfo>, accepts: string -> bool)
    returns (types: map<u64, string>, comments: map<u64, string>)
    ensures types == DefinedTypesAmong(callSites, callSites.Keys, accepts)
    ensures comments == CommentsAmong(callSites, callSites.Keys, accepts)
  {
    types, comments := map[], map[];
    var todo := callSites.Keys;
    while todo != {}
      invariant todo <= callSites.Keys
      invariant types == DefinedTypesAmong(callSites, callSites.Keys - todo, accepts)
      invariant comments == CommentsAmong(callSites, callSites.Keys - todo, accepts)
      decreases todo
    {
      var fileAddr :| fileAddr in todo;
      var info := callSites[fileAddr];
      var maxMethods := MaxMethods(info.observations);
      if maxMethods > 0 {
        var def := TypeSynth.GenerateVtableTypeDef(fileAddr, maxMethods);
        if accepts(def) {
          types := types[fileAddr := def];
          comments := comments[fileAddr := "VTables: " + Join(ObservationTexts(info.observations), ", ")];
        }
      }
      TypesAmongStep(callSites, callSites.Keys - todo, fileAddr, accepts);
      CommentsAmongStep(callSites, callSites.Keys - todo, fileAddr, accepts);
      assert callSites.Keys - (todo - {fileAddr}) == (callSites.Keys - todo) + {fileAddr};
      todo := todo - {fileAddr};
    }
  }

  /**
   * A site gets a type exactly when it gets a comment; the type is the
   * structure for the largest method count observed there, and the comment
   * lists every observation of the site.
   */
  lemma DefinedTypesSpec(callSites: map<u64, CallSiteInfo>, accepts: string -> bool, a: u64)
    ensures var types := DefinedTypesAmong(callSites, callSites.Keys, accepts);
      var comments := CommentsAmong(callSites, callSites.Keys, accepts);
      && (a in types <==> a in comments)
      && (a in types ==>
            && a in callSites
            && accepts(types[a])
            && types[a] == TypeSynth.TypeDefText(a, MaxMethods(callSites[a].observations))
            && |ObservationTexts(callSites[a].observations)| == |callSites[a].observations| > 0
            && (forall k :: 0 <= k < |callSites[a].observations| ==>
                  callSites[a].observations[k].methodCount <= MaxMethods(callSites[a].observations))
            && comments[a] == "VTables: " + Join(ObservationTexts(callSites[a].observations), ", "))
  {
    if a in callSites {
      MaxMethodsSpec(callSites[a].observations);
    }
  }

  // ---------------------------------------------------------------------------
  // The whole run
  // ---------------------------------------------------------------------------

  /** How `main` ends. */
  datatype Report =
    | NoCallSites
    | ExitedAtLaunch
    | Traced(breakpoints: seq<u64>, end: TraceEnd, types: map<u64, string>, comments: map<u64, string>)

  /**
   * `main` after the binary is loaded: scan, stop if there is nothing to
   * trace or the process exits at launch, rebase, set the breakpoints, trace,
   * and after the exit define the types and comments in the reloaded view.
   */
  method HeadlessMain(fs: seq<Function>, schedule: seq<nat>, fileEntry: u64,
                      launchReason: Debugger.StopReason, launchIp: u64,
                      sizing: Sizing, stops: seq<Stop>, accepts: string -> bool)
    returns (report: Report)
    requires CoversAll(schedule, |fs|)
    ensures var calls := CallsInFunctions(fs);
      var offset := RebaseOffset(launchIp, fileEntry);
      && (report.NoCallSites? <==> calls == [])
      && (report.ExitedAtLaunch? <==> calls != [] && launchReason == Debugger.ProcessExited)
      && (report.Traced? ==>
            && report.breakpoints == RuntimeAddrs(calls, offset)
            && report.end == RunFrom(Initial, BreakpointMapOf(calls, offset), sizing, stops)
            && (report.end.Exited? ==>
                  var cs := report.end.state.callSites;
                  && report.types == DefinedTypesAmong(cs, cs.Keys, accepts)
                  && report.comments == CommentsAmong(cs, cs.Keys, accepts))
            && (!report.end.Exited? ==> report.types == map[] && report.comments == map[]))
  {
    var raxCalls := FindRaxDerefCalls(fs, schedule);
    if raxCalls == [] {
      return NoCallSites;
    }
    if launchReason == Debugger.ProcessExited {
      return ExitedAtLaunch;
    }
    var rebaseOffset := RebaseOffset(launchIp, fileEntry);
    var breakpoints, bpToCall := SetBreakpoints(raxCalls, rebaseOffset);
    var end := Trace(bpToCall, sizing, stops);
    if !end.Exited? || end.state.callSites == map[] {
      return Traced(breakpoints, end, map[], map[]);
    }
    var types, comments := DefineTypes(end.state.callSites, accepts);
    return Traced(breakpoints, end, types, comments);
  }

  /**
   * After a traced run that exits, every recorded site is a scanned site with
   * distinct non-null vtable pointers, the hit count is the number of
   * observations, and every defined type belongs to such a site.
   */
  lemma TracedRunSpec(calls: seq<RaxDerefCall>, offset: i64, sizing: Sizing, stops: seq<Stop>, accepts: string -> bool)
    ensures var end := RunFrom(Initial, BreakpointMapOf(calls, offset), sizing, stops);
      end.Exited? ==>
        && Consistent(end.state, calls)
        && forall a :: a in DefinedTypesAmong(end.state.callSites, end.state.callSites.Keys, accepts) ==>
             SiteConsistent(end.state.callSites[a], a, calls)
  {
    BreakpointMapFrom(calls, offset);
    RunConsistent(Initial, BreakpointMapOf(calls, offset), sizing, stops, calls);
  }
}
