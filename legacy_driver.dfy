/**
 * The first, logging-only driver (`headless_debug` example in one file): the
 * same scan, breakpoints at the sites' FILE addresses (no rebasing), and at
 * every stop on a site a log line with `rax`, the load address
 * `rax + offset`, the word read there from the process, and the static
 * method-count estimate (printed, never unwrapped).
 */
module LegacyDriver {
  import opened Wrappers
  import opened Words
  import opened Image
  import opened VtableSize
  import opened CallScan
  import Debugger
  import Trace

  /** `rax_calls.iter().find(|c| c.addr == ip)`: the first site at `ip`. */
  function FirstCallAt(calls: seq<RaxDerefCall>, ip: u64): Option<RaxDerefCall> {
    if calls == [] then None
    else if calls[0].addr == ip then Some(calls[0])
    else FirstCallAt(calls[1..], ip)
  }

  /** The site found is the first one at `ip`; none is found exactly when no site is at `ip`. */
  lemma {:induction false} FirstCallAtSpec(calls: seq<RaxDerefCall>, ip: u64)
    ensures FirstCallAt(calls, ip).None? <==> forall k :: 0 <= k < |calls| ==> calls[k].addr != ip
    ensures FirstCallAt(calls, ip).Some? ==>
      exists k :: 0 <= k < |calls| && calls[k] == FirstCallAt(calls, ip).value && calls[k].addr == ip
        && forall l :: 0 <= l < k ==> calls[l].addr != ip
  {
    if calls != [] && calls[0].addr != ip {
      FirstCallAtSpec(calls[1..], ip);
      if FirstCallAt(calls, ip).Some? {
        var k :| 0 <= k < |calls[1..]| && calls[1..][k] == FirstCallAt(calls, ip).value && calls[1..][k].addr == ip
          && forall l :: 0 <= l < k ==> calls[1..][l].addr != ip;
        assert calls[k + 1] == calls[1..][k];
        forall l | 0 <= l < k + 1
          ensures calls[l].addr != ip
        {
          if l > 0 {
            assert calls[l] == calls[1..][l - 1];
          }
        }
      } else {
        forall k | 0 <= k < |calls|
          ensures calls[k].addr != ip
        {
          if k > 0 {
            assert calls[k] == calls[1..][k - 1];
          }
        }
      }
    } else if calls != [] {
      assert calls[0] == FirstCallAt(calls, ip).value;
    }
  }

  /** The linear search of line 205. */
  method FindCall(calls: seq<RaxDerefCall>, ip: u64) returns (found: Option<RaxDerefCall>)
    ensures found == FirstCallAt(calls, ip)
  {
    var i := 0;
    while i < |calls|
      invariant i <= |calls|
      invariant FirstCallAt(calls[i..], ip) == FirstCallAt(calls, ip)
    {
      assert calls[i..][0] == calls[i] && calls[i..][1..] == calls[i + 1..];
      if calls[i].addr == ip {
        return Some(calls[i]);
      }
      i := i + 1;
    }
    return None;
  }

  /** `rax.wrapping_add(call.offset as u64)` */
  function LoadAddr(rax: u64, offset: i64): u64 {
    WrappingAdd(rax, AsU64(offset))
  }

  /** The word read at the load address: the little-endian value of 8 returned bytes, otherwise 0. */
  function TargetAt(mem: LiveMemory, loadAddr: u64): u64 {
    if loadAddr in mem then
      (if |mem[loadAddr]| == 8 then FromLeBytes(mem[loadAddr]) else 0)
    else 0
  }

  /**
   * The target is the live word at the load address when the debugger returns
   * 8 bytes, and 0 otherwise, so an unreadable slot and a null slot log alike.
   */
  lemma TargetAtSpec(mem: LiveMemory, loadAddr: u64)
    ensures TargetAt(mem, loadAddr) == ReadU64Runtime(mem, loadAddr).GetOr(0)
    ensures loadAddr in mem && |mem[loadAddr]| == 8 ==> LeBytes(TargetAt(mem, loadAddr), 8) == mem[loadAddr]
  {
    ReadU64RuntimeSpec(mem, loadAddr);
  }

  /**
   * The logged load address is the address the traced call reads its target
   * from: evaluating the call's operand with the logged `rax` gives it.
   */
  lemma LoadAddrIsOperand(i: Instruction, c: RaxDerefCall, rax: u64)
    requires IsCallSite(i, c)
    ensures EvalAddress(i.target.src, rax) == Some(LoadAddr(rax, c.offset))
  {
    CheckRaxExprAddress(i.target.src, rax);
  }

  /** One log line. */
  datatype LegacyHit = LegacyHit(ip: u64, rax: u64, loadAddr: u64, target: u64, vtableSize: Option<nat>)

  /** What a stop that is not the exit logs, if anything. */
  function HitAt(calls: seq<RaxDerefCall>, bv: BinaryView, stop: Trace.Stop): Option<LegacyHit> {
    match FirstCallAt(calls, stop.ip)
    case None => None
    case Some(call) =>
      var rax := Trace.RaxOf(stop);
      var loadAddr := LoadAddr(rax, call.offset);
      Some(LegacyHit(stop.ip, rax, loadAddr, TargetAt(stop.mem, loadAddr), StaticVtableSize(bv, rax)))
  }

  /** The log of the loop, and whether it ended at the exit. */
  datatype LegacyTrace = LegacyTrace(hits: seq<LegacyHit>, exited: bool)

  function LegacyRunFrom(calls: seq<RaxDerefCall>, bv: BinaryView, stops: seq<Trace.Stop>): LegacyTrace
    decreases |stops|
  {
    if stops == [] then LegacyTrace([], false)
    else if stops[0].reason == Debugger.ProcessExited then LegacyTrace([], true)
    else
      var rest := LegacyRunFrom(calls, bv, stops[1..]);
      match HitAt(calls, bv, stops[0])
      case None => rest
      case Some(h) => LegacyTrace([h] + rest.hits, rest.exited)
  }

  /** Every logged stop is on a site, with the load address and target of the first site there. */
  predicate HitFits(calls: seq<RaxDerefCall>, stop: Trace.Stop, h: LegacyHit) {
    && FirstCallAt(calls, stop.ip).Some?
    && h.ip == stop.ip
    && h.rax == Trace.RaxOf(stop)
    && h.loadAddr == LoadAddr(h.rax, FirstCallAt(calls, stop.ip).value.offset)
    && h.target == TargetAt(stop.mem, h.loadAddr)
  }

  /** The log ends at the exit exactly when some stop is the exit. */
  lemma {:induction false} LegacyRunExits(calls: seq<RaxDerefCall>, bv: BinaryView, stops: seq<Trace.Stop>)
    ensures LegacyRunFrom(calls, bv, stops).exited <==>
      exists k :: 0 <= k < |stops| && stops[k].reason == Debugger.ProcessExited
    decreases |stops|
  {
    if stops != [] && stops[0].reason != Debugger.ProcessExited {
      LegacyRunExits(calls, bv, stops[1..]);
      if exists k :: 0 <= k < |stops| && stops[k].reason == Debugger.ProcessExited {
        var k :| 0 <= k < |stops| && stops[k].reason == Debugger.ProcessExited;
        assert stops[1..][k - 1] == stops[k];
      }
      if LegacyRunFrom(calls, bv, stops).exited {
        var k :| 0 <= k < |stops[1..]| && stops[1..][k].reason == Debugger.ProcessExited;
        assert stops[k + 1] == stops[1..][k];
      }
    }
  }

  /** At most one line per stop. */
  lemma {:induction false} LegacyRunLength(calls: seq<RaxDerefCall>, bv: BinaryView, stops: seq<Trace.Stop>)
    ensures |LegacyRunFrom(calls, bv, stops).hits| <= |stops|
    decreases |stops|
  {
    if stops != [] && stops[0].reason != Debugger.ProcessExited {
      LegacyRunLength(calls, bv, stops[1..]);
    }
  }

  /** Line `j` of the log comes from some stop on a site, and agrees with that stop. */
  predicate LoggedFrom(calls: seq<RaxDerefCall>, stops: seq<Trace.Stop>, h: LegacyHit) {
    exists k :: 0 <= k < |stops| && stops[k].reason != Debugger.ProcessExited && HitFits(calls, stops[k], h)
  }

  lemma LoggedFromTail(calls: seq<RaxDerefCall>, stops: seq<Trace.Stop>, h: LegacyHit)
    requires stops != [] && LoggedFrom(calls, stops[1..], h)
    ensures LoggedFrom(calls, stops, h)
  {
    var k :| 0 <= k < |stops[1..]| && stops[1..][k].reason != Debugger.ProcessExited && HitFits(calls, stops[1..][k], h);
    assert stops[k + 1] == stops[1..][k];
  }

  lemma HitAtFits(calls: seq<RaxDerefCall>, bv: BinaryView, stop: Trace.Stop)
    ensures HitAt(calls, bv, stop).Some? ==> HitFits(calls, stop, HitAt(calls, bv, stop).value)
  {
  }

  /** Line `j` comes from a stop on a site, with that site's load address and the word read there. */
  lemma {:induction false} LegacyRunFitsAt(calls: seq<RaxDerefCall>, bv: BinaryView, stops: seq<Trace.Stop>, j: nat)
    requires j < |LegacyRunFrom(calls, bv, stops).hits|
    ensures LoggedFrom(calls, stops, LegacyRunFrom(calls, bv, stops).hits[j])
    decreases |stops|
  {
    var t := LegacyRunFrom(calls, bv, stops);
    assert stops != [] && stops[0].reason != Debugger.ProcessExited;
    var rest := LegacyRunFrom(calls, bv, stops[1..]);
    LegacyRunStep(calls, bv, stops);
    var h := HitAt(calls, bv, stops[0]);
    if h.Some? && j == 0 {
      HitAtFits(calls, bv, stops[0]);
      assert t.hits[0] == h.value;
    } else {
      var j' := if h.Some? then j - 1 else j;
      assert t.hits[j] == rest.hits[j'];
      LegacyRunFitsAt(calls, bv, stops[1..], j');
      LoggedFromTail(calls, stops, rest.hits[j']);
    }
  }

  /** Every line comes from a stop on a site, with that site's load address and the word read there. */
  lemma LegacyRunFits(calls: seq<RaxDerefCall>, bv: BinaryView, stops: seq<Trace.Stop>)
    ensures var t := LegacyRunFrom(calls, bv, stops);
      forall j :: 0 <= j < |t.hits| ==> LoggedFrom(calls, stops, t.hits[j])
  {
    forall j | 0 <= j < |LegacyRunFrom(calls, bv, stops).hits|
      ensures LoggedFrom(calls, stops, LegacyRunFrom(calls, bv, stops).hits[j])
    {
      LegacyRunFitsAt(calls, bv, stops, j);
    }
  }

  /** The loop body on a stop that is not the exit. */
  lemma LegacyRunStep(calls: seq<RaxDerefCall>, bv: BinaryView, stops: seq<Trace.Stop>)
    requires stops != [] && stops[0].reason != Debugger.ProcessExited
    ensures var rest := LegacyRunFrom(calls, bv, stops[1..]);
      LegacyRunFrom(calls, bv, stops) ==
        if HitAt(calls, bv, stops[0]).Some? then LegacyTrace([HitAt(calls, bv, stops[0]).value] + rest.hits, rest.exited)
        else rest
  {
  }

  /** Lines 204-223: the log line for one stop, if it is on a site. */
  method LogStop(calls: seq<RaxDerefCall>, bv: BinaryView, stop: Trace.Stop) returns (line: Option<LegacyHit>)
    ensures line == HitAt(calls, bv, stop)
  {
    var ip := stop.ip;
    var found := FindCall(calls, ip);
    if found.None? {
      return None;
    }
    var call := found.value;
    var raxBytes := Debugger.RegisterBuffer(stop.raxWritten);
    var rax := FromLeBytes(raxBytes[..8]);
    var loadAddr := WrappingAdd(rax, AsU64(call.offset));
    var size := DetermineVtableSize(bv, rax);
    var target := 0;
    if loadAddr in stop.mem && |stop.mem[loadAddr]| == 8 {
      target := FromLeBytes(stop.mem[loadAddr]);
    }
    return Some(LegacyHit(ip, rax, loadAddr, target, size));
  }

  /** Appending a stop's line to the log so far keeps the loop invariant. */
  lemma LogAccumulates(calls: seq<RaxDerefCall>, bv: BinaryView, stops: seq<Trace.Stop>, hits: seq<LegacyHit>)
    requires stops != [] && stops[0].reason != Debugger.ProcessExited
    ensures var h := HitAt(calls, bv, stops[0]);
      var rest := LegacyRunFrom(calls, bv, stops[1..]);
      && (if h.Some? then hits + [h.value] else hits) + rest.hits == hits + LegacyRunFrom(calls, bv, stops).hits
      && rest.exited == LegacyRunFrom(calls, bv, stops).exited
  {
    LegacyRunStep(calls, bv, stops);
    var h := HitAt(calls, bv, stops[0]);
    if h.Some? {
      var rest := LegacyRunFrom(calls, bv, stops[1..]);
      assert hits + [h.value] + rest.hits == hits + ([h.value] + rest.hits);
    }
  }

  /** Lines 197-225: resume until the exit, logging each stop on a site. */
  method TraceLegacy(calls: seq<RaxDerefCall>, bv: BinaryView, stops: seq<Trace.Stop>) returns (t: LegacyTrace)
    ensures t == LegacyRunFrom(calls, bv, stops)
  {
    var hits: seq<LegacyHit> := [];
    var i := 0;
    while i < |stops|
      invariant i <= |stops|
      invariant hits + LegacyRunFrom(calls, bv, stops[i..]).hits == LegacyRunFrom(calls, bv, stops).hits
      invariant LegacyRunFrom(calls, bv, stops[i..]).exited == LegacyRunFrom(calls, bv, stops).exited
    {
      var stop := stops[i];
      assert stops[i..][0] == stop && stops[i..][1..] == stops[i + 1..];
      if stop.reason == Debugger.ProcessExited {
        assert hits + [] == hits;
        return LegacyTrace(hits, true);
      }
      var line := LogStop(calls, bv, stop);
      LogAccumulates(calls, bv, stops[i..], hits);
      if line.Some? {
        hits := hits + [line.value];
      }
      i := i + 1;
    }
    assert hits + [] == hits;
    return LegacyTrace(hits, false);
  }

  /** Breakpoint addresses: each site's file address, in order. */
  function SiteAddrs(calls: seq<RaxDerefCall>): seq<u64> {
    seq(|calls|, k requires 0 <= k < |calls| => calls[k].addr)
  }

  /** The first driver's breakpoints are the rebasing driver's with a zero offset. */
  lemma SiteAddrsUnrebased(calls: seq<RaxDerefCall>)
    ensures SiteAddrs(calls) == Trace.RuntimeAddrs(calls, 0)
  {
    Trace.RuntimeAddrsSpec(calls, 0);
    forall k | 0 <= k < |calls|
      ensures SiteAddrs(calls)[k] == Trace.RuntimeAddrs(calls, 0)[k]
    {
      Trace.RuntimeAddrSpec(calls[k].addr, 0);
    }
  }

  /** How this `main` ends. */
  datatype LegacyReport =
    | LegacyNoCallSites
    | LegacyExitedAtLaunch
    | LegacyTraced(breakpoints: seq<u64>, trace: LegacyTrace)

  /** `main` after loading: scan, launch, break at every site, trace. */
  method LegacyMain(fs: seq<Function>, bv: BinaryView, launchReason: Debugger.StopReason, stops: seq<Trace.Stop>)
    returns (report: LegacyReport)
    ensures var calls := CallsInFunctions(fs);
      && (report.LegacyNoCallSites? <==> calls == [])
      && (report.LegacyExitedAtLaunch? <==> calls != [] && launchReason == Debugger.ProcessExited)
      && (report.LegacyTraced? ==>
            report.breakpoints == SiteAddrs(calls) && report.trace == LegacyRunFrom(calls, bv, stops))
  {
    var raxCalls := FindRaxDerefCallsInOrder(fs);
    if raxCalls == [] {
      return LegacyNoCallSites;
    }
    if launchReason == Debugger.ProcessExited {
      return LegacyExitedAtLaunch;
    }
    var breakpoints: seq<u64> := [];
    for k := 0 to |raxCalls|
      invariant breakpoints == SiteAddrs(raxCalls[..k])
    {
      breakpoints := breakpoints + [raxCalls[k].addr];
    }
    assert raxCalls[..|raxCalls|] == raxCalls;
    var t := TraceLegacy(raxCalls, bv, stops);
    return LegacyTraced(breakpoints, t);
  }
}
