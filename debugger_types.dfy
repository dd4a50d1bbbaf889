/**
 * The value types of the debugger bindings: stop reasons and event types, the
 * conversions from the C structures the debugger core hands out, the register
 * value helpers and the `Display` texts.
 *
 * A C string pointer is an `Option<string>`: `None` is a null pointer.
 */
module Debugger {
  import opened Wrappers
  import opened Words
  import opened Text

  datatype StopReason =
    | UnknownReason | InitialBreakpoint | ProcessExited | AccessViolation | SingleStep
    | Calculation | Breakpoint | IllegalInstruction
    | SignalHup | SignalInt | SignalQuit | SignalIll | SignalAbrt | SignalEmt | SignalFpe
    | SignalKill | SignalBus | SignalSegv | SignalSys | SignalPipe | SignalAlrm | SignalTerm
    | SignalUrg | SignalStop | SignalTstp | SignalCont | SignalChld | SignalTtin | SignalTtou
    | SignalIo | SignalXcpu | SignalXfsz | SignalVtalrm | SignalProf | SignalWinch | SignalInfo
    | SignalUsr1 | SignalUsr2 | SignalStkflt | SignalBux | SignalPoll
    | ExcEmulation | ExcSoftware | ExcSyscall | ExcMachSyscall | ExcRpcAlert | ExcCrash
    | InternalError | InvalidStatusOrOperation | UserRequestedBreak | OperationNotSupported

  datatype EventType =
    | LaunchEventType | ResumeEventType | StepIntoEventType | StepOverEventType
    | StepReturnEventType | StepToEventType | RestartEventType | AttachEventType
    | DetachEventType | ConnectEventType | AdapterStoppedEventType
    | AdapterTargetExitedEventType | InvalidOperationEventType | InternalErrorEventType
    | TargetStoppedEventType | ErrorEventType | GeneralEventType | LaunchFailureEventType
    | StdoutMessageEventType | BackendMessageEventType | TargetExitedEventType
    | DetachedEventType | AbsoluteBreakpointAddedEvent | RelativeBreakpointAddedEvent
    | AbsoluteBreakpointRemovedEvent | RelativeBreakpointRemovedEvent
    | AbsoluteBreakpointEnabledEvent | RelativeBreakpointEnabledEvent
    | AbsoluteBreakpointDisabledEvent | RelativeBreakpointDisabledEvent
    | ActiveThreadChangedEvent | DebuggerAdapterChangedEvent | RegisterChangedEvent
    | ThreadStateChangedEvent | ForceMemoryCacheUpdateEvent

  type CStr = Option<string>

  /** `CStr::from_ptr(p).to_string_lossy()` for a non-null `p`, and the empty string for null. */
  function StringOrEmpty(p: CStr): string {
    match p
    case Some(s) => s
    case None => ""
  }

  predicate EndsWith(s: string, suffix: string) {
    |suffix| <= |s| && s[|s| - |suffix|..] == suffix
  }

  // ---------------------------------------------------------------------------
  // Events

  predicate IsStoppedEvent(t: EventType) {
    t == TargetStoppedEventType || t == AdapterStoppedEventType
  }

  predicate IsExitedEvent(t: EventType) {
    t == TargetExitedEventType || t == AdapterTargetExitedEventType
  }

  predicate IsAbsoluteBreakpointEvent(t: EventType) {
    t == AbsoluteBreakpointAddedEvent || t == AbsoluteBreakpointRemovedEvent
    || t == AbsoluteBreakpointEnabledEvent || t == AbsoluteBreakpointDisabledEvent
  }

  predicate IsMessageEvent(t: EventType) {
    t == StdoutMessageEventType || t == BackendMessageEventType
  }

  datatype TargetStoppedData = TargetStoppedData(reason: StopReason, lastActiveThread: u32, exitCode: u64)

  /** The event payload: one field per kind of event, all present whatever the type. */
  datatype RawEventData = RawEventData(
    targetStoppedData: TargetStoppedData,
    error: CStr,
    absoluteAddress: u64,
    exitCode: u64,
    message: CStr)

  datatype RawEvent = RawEvent(eventType: EventType, data: RawEventData)

  /** `DebuggerEvent`: the payload fields that apply to the event's type, the others `None`. */
  datatype DebuggerEvent = DebuggerEvent(
    eventType: EventType,
    stopReason: Option<StopReason>,
    exitCode: Option<u64>,
    errorMessage: Option<string>,
    address: Option<u64>,
    message: Option<string>)

  /** `DebuggerEvent::from_raw`: start with every optional field `None`, then fill in by event type. */
  method EventFromRaw(raw: RawEvent) returns (event: DebuggerEvent)
    ensures event.eventType == raw.eventType
    ensures event.stopReason.Some? <==> IsStoppedEvent(raw.eventType)
    ensures event.stopReason.Some? ==> event.stopReason.value == raw.data.targetStoppedData.reason
    ensures event.exitCode.Some? <==> IsStoppedEvent(raw.eventType) || IsExitedEvent(raw.eventType)
    ensures IsStoppedEvent(raw.eventType) ==> event.exitCode == Some(raw.data.targetStoppedData.exitCode)
    ensures IsExitedEvent(raw.eventType) ==> event.exitCode == Some(raw.data.exitCode)
    ensures event.errorMessage.Some? <==> raw.eventType == ErrorEventType && raw.data.error.Some?
    ensures event.errorMessage.Some? ==> event.errorMessage == raw.data.error
    ensures event.address.Some? <==> IsAbsoluteBreakpointEvent(raw.eventType)
    ensures event.address.Some? ==> event.address.value == raw.data.absoluteAddress
    ensures event.message.Some? <==> IsMessageEvent(raw.eventType) && raw.data.message.Some?
    ensures event.message.Some? ==> event.message == raw.data.message
  {
    event := DebuggerEvent(raw.eventType, None, None, None, None, None);
    match raw.eventType {
      case TargetStoppedEventType =>
        event := event.(stopReason := Some(raw.data.targetStoppedData.reason));
        event := event.(exitCode := Some(raw.data.targetStoppedData.exitCode));
      case AdapterStoppedEventType =>
        event := event.(stopReason := Some(raw.data.targetStoppedData.reason));
        event := event.(exitCode := Some(raw.data.targetStoppedData.exitCode));
      case TargetExitedEventType =>
        event := event.(exitCode := Some(raw.data.exitCode));
      case AdapterTargetExitedEventType =>
        event := event.(exitCode := Some(raw.data.exitCode));
      case ErrorEventType =>
        if raw.data.error.Some? {
          event := event.(errorMessage := Some(raw.data.error.value));
        }
      case AbsoluteBreakpointAddedEvent =>
        event := event.(address := Some(raw.data.absoluteAddress));
      case AbsoluteBreakpointRemovedEvent =>
        event := event.(address := Some(raw.data.absoluteAddress));
      case AbsoluteBreakpointEnabledEvent =>
        event := event.(address := Some(raw.data.absoluteAddress));
      case AbsoluteBreakpointDisabledEvent =>
        event := event.(address := Some(raw.data.absoluteAddress));
      case StdoutMessageEventType =>
        if raw.data.message.Some? {
          event := event.(message := Some(raw.data.message.value));
        }
      case BackendMessageEventType =>
        if raw.data.message.Some? {
          event := event.(message := Some(raw.data.message.value));
        }
      case _ =>
    }
  }

  // ---------------------------------------------------------------------------
  // Threads

  datatype RawThread = RawThread(mTid: u32, mRip: u64, mIsFrozen: bool)

  datatype DebugThread = DebugThread(tid: u32, rip: u64, isFrozen: bool)

  function ThreadFromRaw(raw: RawThread): DebugThread {
    DebugThread(raw.mTid, raw.mRip, raw.mIsFrozen)
  }

  function ThreadToRaw(t: DebugThread): RawThread {
    RawThread(t.tid, t.rip, t.isFrozen)
  }

  /** The two conversions are inverse to each other. */
  lemma ThreadRoundTrip(t: DebugThread, raw: RawThread)
    ensures ThreadFromRaw(ThreadToRaw(t)) == t
    ensures ThreadToRaw(ThreadFromRaw(raw)) == raw
  {
  }

  /** `Thread <tid> @ 0x<rip>`, then ` (frozen)` for a frozen thread. */
  function ThreadDisplay(t: DebugThread): string {
    "Thread " + Dec(t.tid) + " @ 0x" + Hex(t.rip) + (if t.isFrozen then " (frozen)" else "")
  }

  /** A number printed in hexadecimal ends in a digit, never in a closing parenthesis. */
  lemma HexEndsInDigit(prefix: string, n: nat)
    ensures var s := prefix + Hex(n); |s| > 0 && IsHexChar(s[|s| - 1])
  {
    HexShape(n);
    var s := prefix + Hex(n);
    assert s[|s| - 1] == Hex(n)[|Hex(n)| - 1];
  }

  /** The text ends in ` (frozen)` exactly when the thread is frozen. */
  lemma ThreadDisplaySpec(t: DebugThread)
    ensures EndsWith(ThreadDisplay(t), " (frozen)") <==> t.isFrozen
  {
    var s := ThreadDisplay(t);
    var prefix := "Thread " + Dec(t.tid) + " @ 0x";
    if !t.isFrozen {
      HexEndsInDigit(prefix, t.rip);
      assert s == prefix + Hex(t.rip) + "";
      assert s == prefix + Hex(t.rip);
      assert s[|s| - 9..][8] == s[|s| - 1] != ')';
    }
  }

  // ---------------------------------------------------------------------------
  // Frames, modules, breakpoints

  datatype RawFrame = RawFrame(mIndex: u64, mPc: u64, mSp: u64, mFp: u64,
                               mFunctionName: CStr, mFunctionStart: u64, mModule: CStr)

  datatype DebugFrame = DebugFrame(index: u64, pc: u64, sp: u64, fp: u64,
                                   functionName: string, functionStart: u64, moduleName: string)

  function FrameFromRaw(raw: RawFrame): DebugFrame {
    DebugFrame(raw.mIndex, raw.mPc, raw.mSp, raw.mFp, StringOrEmpty(raw.mFunctionName),
               raw.mFunctionStart, StringOrEmpty(raw.mModule))
  }

  /** `#<index> 0x<pc> in <function> (<module>)` */
  function FrameDisplay(f: DebugFrame): string {
    "#" + Dec(f.index) + " 0x" + Hex(f.pc) + " in " + f.functionName + " (" + f.moduleName + ")"
  }

  /** The frame text begins with `#` and the index in decimal, which reads back, and ends with `)`. */
  lemma FrameDisplaySpec(f: DebugFrame)
    ensures var s := FrameDisplay(f);
      && s[0] == '#' && s[|s| - 1] == ')'
      && 1 + |Dec(f.index)| <= |s| && DecValue(s[1..1 + |Dec(f.index)|]) == f.index
    ensures FrameFromRaw(RawFrame(f.index, f.pc, f.sp, f.fp, None, f.functionStart, None)).functionName == ""
  {
    var s := FrameDisplay(f);
    assert s[1..1 + |Dec(f.index)|] == Dec(f.index);
    DecRoundTrip(f.index);
  }

  datatype RawModule = RawModule(mName: CStr, mShortName: CStr, mAddress: u64, mSize: u64, mLoaded: bool)

  datatype DebugModule = DebugModule(name: string, shortName: string, address: u64, size: u64, loaded: bool)

  function ModuleFromRaw(raw: RawModule): DebugModule {
    DebugModule(StringOrEmpty(raw.mName), StringOrEmpty(raw.mShortName), raw.mAddress, raw.mSize, raw.mLoaded)
  }

  /** `<short name> @ 0x<address> (size: 0x<size>)` */
  function ModuleDisplay(m: DebugModule): string {
    m.shortName + " @ 0x" + Hex(m.address) + " (size: 0x" + Hex(m.size) + ")"
  }

  /** The module text shows the short name, address and size only: full name and load state do not change it. */
  lemma ModuleDisplaySpec(m: DebugModule, name: string, loaded: bool)
    ensures ModuleDisplay(m.(name := name, loaded := loaded)) == ModuleDisplay(m)
    ensures var s := ModuleDisplay(m);
      s[..|m.shortName|] == m.shortName && s[|s| - 1] == ')'
  {
  }

  datatype RawBreakpoint = RawBreakpoint(mModule: CStr, offset: u64, address: u64, enabled: bool)

  datatype DebugBreakpoint = DebugBreakpoint(moduleName: string, offset: u64, address: u64, enabled: bool)

  function BreakpointFromRaw(raw: RawBreakpoint): DebugBreakpoint {
    DebugBreakpoint(StringOrEmpty(raw.mModule), raw.offset, raw.address, raw.enabled)
  }

  /** `Breakpoint @ 0x<address>`, then ` (disabled)` for a disabled breakpoint. */
  function BreakpointDisplay(b: DebugBreakpoint): string {
    "Breakpoint @ 0x" + Hex(b.address) + (if b.enabled then "" else " (disabled)")
  }

  /** The text ends in ` (disabled)` exactly when the breakpoint is disabled. */
  lemma BreakpointDisplaySpec(b: DebugBreakpoint)
    ensures EndsWith(BreakpointDisplay(b), " (disabled)") <==> !b.enabled
  {
    var s := BreakpointDisplay(b);
    if b.enabled {
      HexEndsInDigit("Breakpoint @ 0x", b.address);
      assert s == "Breakpoint @ 0x" + Hex(b.address) + "";
      assert s == "Breakpoint @ 0x" + Hex(b.address);
      assert s[|s| - 11..][10] == s[|s| - 1] != ')';
    }
  }

  // ---------------------------------------------------------------------------
  // Registers

  /** Size of the value buffer of a raw register, and of `get_register_value`'s result. */
  const REGISTER_BUFFER_SIZE: nat := 64

  /** A raw register: `mValue` is the fixed 64-byte buffer. */
  datatype RawRegister = RawRegister(mName: CStr, mValue: seq<u8>, mWidth: u64, mRegisterIndex: u64, mHint: CStr)

  datatype DebugRegister = DebugRegister(name: string, value: seq<u8>, width: u64, registerIndex: u64, hint: string)

  function Min(a: nat, b: nat): nat {
    if a <= b then a else b
  }

  /** `DebugRegister::from_raw`: the value is capped at the buffer size, the width is kept. */
  function RegisterFromRaw(raw: RawRegister): DebugRegister
    requires |raw.mValue| == REGISTER_BUFFER_SIZE
  {
    var width := Min(raw.mWidth, REGISTER_BUFFER_SIZE);
    DebugRegister(StringOrEmpty(raw.mName), raw.mValue[..width], raw.mWidth,
                  raw.mRegisterIndex, StringOrEmpty(raw.mHint))
  }

  /** The value is the first `min(width, 64)` bytes of the buffer; a wider register keeps its width but only 64 bytes. */
  lemma RegisterFromRawSpec(raw: RawRegister)
    requires |raw.mValue| == REGISTER_BUFFER_SIZE
    ensures var r := RegisterFromRaw(raw);
      && |r.value| <= REGISTER_BUFFER_SIZE
      && r.value == raw.mValue[..|r.value|]
      && r.width == raw.mWidth
      && (raw.mWidth <= REGISTER_BUFFER_SIZE ==> |r.value| == raw.mWidth)
      && (raw.mWidth > REGISTER_BUFFER_SIZE ==> |r.value| == REGISTER_BUFFER_SIZE < r.width)
  {
  }

  /** The eight bytes `value_u64` decodes: the value's first bytes, zero-filled to eight. */
  function Word8(value: seq<u8>): (r: seq<u8>)
    ensures |r| == 8
  {
    var len := Min(|value|, 8);
    value[..len] + seq(8 - len, _ => 0)
  }

  /** What `value_u64` returns. */
  function RegisterWord(value: seq<u8>): u64 {
    FromLeBytes(Word8(value))
  }

  /**
   * `value_u64` is the little-endian value of the first `min(len, 8)` bytes,
   * zero-extended, and bytes beyond the eighth are ignored.
   */
  lemma RegisterWordSpec(value: seq<u8>)
    ensures var len := Min(|value|, 8);
      && RegisterWord(value) == LeValue(value[..len])
      && LeBytes(RegisterWord(value), 8)[..len] == value[..len]
      && RegisterWord(value) == RegisterWord(value[..len])
  {
    var len := Min(|value|, 8);
    LeValueZeroExtend(value[..len], 8 - len);
    FromLeBytesSpec(Word8(value));
    assert Word8(value)[..len] == value[..len];
    assert value[..len][..len] == value[..len];
  }

  /** `DebugRegister::value_u64`: copy up to eight bytes into a zeroed buffer and decode it. */
  method ValueU64(reg: DebugRegister) returns (v: u64)
    ensures v == RegisterWord(reg.value)
  {
    var buf := new u8[8](_ => 0);
    var len := Min(|reg.value|, 8);
    for k := 0 to len
      invariant buf[..k] == reg.value[..k]
      invariant forall j :: k <= j < 8 ==> buf[j] == 0
    {
      buf[k] := reg.value[k];
      assert buf[..k + 1] == buf[..k] + [buf[k]];
    }
    assert buf[..] == Word8(reg.value);
    v := FromLeBytes(buf[..]);
  }

  /** The debug form of a byte list: `[0a, ff, ...]`, two lower-case hex digits per byte. */
  function HexBytes(bs: seq<u8>): seq<string> {
    if bs == [] then [] else [Hex2(bs[0])] + HexBytes(bs[1..])
  }

  function ByteList(bs: seq<u8>): string {
    "[" + Join(HexBytes(bs), ", ") + "]"
  }

  /** A slice past a prefix is the same slice of what follows the prefix. */
  lemma ShiftSlice(p: string, rest: string, x: nat, y: nat)
    requires x <= y <= |rest|
    ensures (p + rest)[|p| + x..|p| + y] == rest[x..y]
  {
  }

  /** Byte `k` is printed as two hexadecimal digits at offset `4k` of the list body. */
  lemma {:induction false} HexBytesLayout(bs: seq<u8>)
    ensures var j := Join(HexBytes(bs), ", ");
      && |j| == (if bs == [] then 0 else 4 * |bs| - 2)
      && forall k :: 0 <= k < |bs| ==> j[4 * k..4 * k + 2] == Hex2(bs[k])
  {
    if |bs| == 1 {
      assert bs[1..] == [];
      assert HexBytes(bs) == [Hex2(bs[0])] + [];
    } else if |bs| > 1 {
      var rest := Join(HexBytes(bs[1..]), ", ");
      assert HexBytes(bs)[1..] == HexBytes(bs[1..]);
      var j := Join(HexBytes(bs), ", ");
      assert j == Hex2(bs[0]) + ", " + rest;
      HexBytesLayout(bs[1..]);
      var head := Hex2(bs[0]) + ", ";
      assert j == head + rest && |head| == 4;
      forall k | 0 <= k < |bs| ensures j[4 * k..4 * k + 2] == Hex2(bs[k]) {
        if k > 0 {
          ShiftSlice(head, rest, 4 * (k - 1), 4 * (k - 1) + 2);
          assert bs[k] == bs[1..][k - 1];
        }
      }
    }
  }

  /** `DebugRegister`'s `Display`. */
  function RegisterDisplay(reg: DebugRegister): string {
    if reg.width <= 8 then reg.name + " = 0x" + Hex(RegisterWord(reg.value))
    else reg.name + " = " + ByteList(reg.value)
  }

  /**
   * A register of at most eight bytes prints its `value_u64` in hexadecimal,
   * which reads back as the little-endian value; a wider one prints every byte
   * of its value, byte `k` as two digits at a fixed place.
   */
  lemma RegisterDisplaySpec(reg: DebugRegister)
    ensures var s := RegisterDisplay(reg);
      && s[..|reg.name|] == reg.name
      && (reg.width <= 8 ==>
            HexValue(s[|reg.name| + 5..]) == LeValue(reg.value[..Min(|reg.value|, 8)]))
      && (reg.width > 8 ==>
            && |s| == |reg.name| + 3 + (if reg.value == [] then 2 else 4 * |reg.value|)
            && forall k :: 0 <= k < |reg.value| ==>
                 s[|reg.name| + 4 + 4 * k..|reg.name| + 6 + 4 * k] == Hex2(reg.value[k]))
  {
    var s := RegisterDisplay(reg);
    if reg.width <= 8 {
      assert s[|reg.name| + 5..] == Hex(RegisterWord(reg.value));
      HexRoundTrip(RegisterWord(reg.value));
      RegisterWordSpec(reg.value);
    } else {
      var j := Join(HexBytes(reg.value), ", ");
      HexBytesLayout(reg.value);
      assert s == reg.name + " = [" + j + "]";
      forall k | 0 <= k < |reg.value|
        ensures s[|reg.name| + 4 + 4 * k..|reg.name| + 6 + 4 * k] == Hex2(reg.value[k])
      {
        assert s[|reg.name| + 4 + 4 * k..|reg.name| + 6 + 4 * k] == j[4 * k..4 * k + 2];
      }
    }
  }

  /**
   * `get_register_value`: a zeroed 64-byte buffer into which the debugger core
   * writes the register's bytes (`written`, cut to the buffer).
   */
  function RegisterBuffer(written: seq<u8>): (r: seq<u8>)
    ensures |r| == REGISTER_BUFFER_SIZE
  {
    var len := Min(|written|, REGISTER_BUFFER_SIZE);
    written[..len] + seq(REGISTER_BUFFER_SIZE - len, _ => 0)
  }

  /** The buffer always has 64 bytes: the written ones first, zeros after. */
  lemma RegisterBufferSpec(written: seq<u8>)
    ensures var r := RegisterBuffer(written); var len := Min(|written|, REGISTER_BUFFER_SIZE);
      && |r| == REGISTER_BUFFER_SIZE
      && r[..len] == written[..len]
      && forall k :: len <= k < REGISTER_BUFFER_SIZE ==> r[k] == 0
  {
  }
}
