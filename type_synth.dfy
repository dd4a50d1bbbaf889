/**
 * The pure parts of type synthesis in the tracing driver's utilities: the
 * C text of a vtable struct, the name it is declared under, and the search of
 * high-level IL for the variable a call goes through.
 */
module TypeSynth {
  import opened Wrappers
  import opened Words
  import opened Text

  /** The name `generate_vtable_type_def` declares: `VTable_<hex address>`. */
  function DefinedTypeName(callSiteAddr: u64): string {
    "VTable_" + Hex(callSiteAddr)
  }

  function HeaderLine(callSiteAddr: u64): string {
    "struct " + DefinedTypeName(callSiteAddr) + " {"
  }

  const DROP_LINE: string := "    void* drop;"
  const SIZE_LINE: string := "    uint64_t size;"
  const ALIGN_LINE: string := "    uint64_t align;"
  const CLOSE_LINE: string := "};"

  /** The line for method number `k` (counted from 1). */
  function MethodLine(k: nat): string {
    "    void* method" + Dec(k) + ";"
  }

  function MethodLines(n: nat): seq<string> {
    if n == 0 then [] else MethodLines(n - 1) + [MethodLine(n)]
  }

  /** The lines of the struct definition, in order. */
  function TypeDefLines(callSiteAddr: u64, methodCount: nat): seq<string> {
    [HeaderLine(callSiteAddr), DROP_LINE, SIZE_LINE, ALIGN_LINE] + MethodLines(methodCount) + [CLOSE_LINE]
  }

  /** The text `generate_vtable_type_def` returns: every line ends in a line feed. */
  function TypeDefText(callSiteAddr: u64, methodCount: nat): string {
    Lines(TypeDefLines(callSiteAddr, methodCount))
  }

  lemma {:induction false} MethodLinesSpec(n: nat)
    ensures |MethodLines(n)| == n
    ensures forall k :: 0 <= k < n ==> MethodLines(n)[k] == MethodLine(k + 1)
  {
    if n > 0 {
      MethodLinesSpec(n - 1);
    }
  }

  lemma LinesSnoc(ls: seq<string>, l: string)
    ensures Lines(ls + [l]) == Lines(ls) + l + "\n"
  {
    assert (ls + [l])[..|ls|] == ls;
  }

  /** `generate_vtable_type_def`: `format!` of the header, then `push_str` line by line. */
  method GenerateVtableTypeDef(callSiteAddr: u64, methodCount: u64) returns (def: string)
    ensures def == TypeDefText(callSiteAddr, methodCount)
  {
    def := HeaderLine(callSiteAddr) + "\n";
    LinesSnoc([], HeaderLine(callSiteAddr));
    ghost var ls := [HeaderLine(callSiteAddr)];
    LinesSnoc(ls, DROP_LINE);
    def, ls := def + DROP_LINE + "\n", ls + [DROP_LINE];
    LinesSnoc(ls, SIZE_LINE);
    def, ls := def + SIZE_LINE + "\n", ls + [SIZE_LINE];
    LinesSnoc(ls, ALIGN_LINE);
    def, ls := def + ALIGN_LINE + "\n", ls + [ALIGN_LINE];
    ghost var fixed := ls;
    assert fixed == [HeaderLine(callSiteAddr), DROP_LINE, SIZE_LINE, ALIGN_LINE];
    for i := 0 to methodCount
      invariant ls == fixed + MethodLines(i)
      invariant def == Lines(ls)
    {
      LinesSnoc(ls, MethodLine(i + 1));
      def, ls := def + MethodLine(i + 1) + "\n", ls + [MethodLine(i + 1)];
    }
    LinesSnoc(ls, CLOSE_LINE);
    def, ls := def + CLOSE_LINE + "\n", ls + [CLOSE_LINE];
    assert ls == TypeDefLines(callSiteAddr, methodCount);
  }

  /** A line made of printable pieces has no line feed in it. */
  predicate NoLineFeed(s: string) {
    forall i :: 0 <= i < |s| ==> s[i] != '\n'
  }

  lemma DefLinesHaveNoLineFeed(callSiteAddr: u64, methodCount: nat)
    ensures forall k :: 0 <= k < |TypeDefLines(callSiteAddr, methodCount)| ==>
      NoLineFeed(TypeDefLines(callSiteAddr, methodCount)[k])
  {
    var ls := TypeDefLines(callSiteAddr, methodCount);
    MethodLinesSpec(methodCount);
    HexShape(callSiteAddr);
    forall k | 0 <= k < |ls| ensures NoLineFeed(ls[k]) {
      if 4 <= k < 4 + methodCount {
        assert ls[k] == MethodLines(methodCount)[k - 4];
        DecShape(k - 3);
      }
    }
  }

  /**
   * The text is the header, exactly the three header fields, `method1` to
   * `methodN` in order and the closing line: `methodCount + 5` lines.
   */
  lemma TypeDefShape(callSiteAddr: u64, methodCount: nat)
    ensures var ls := TypeDefLines(callSiteAddr, methodCount);
      && |ls| == methodCount + 5
      && ls[0] == "struct VTable_" + Hex(callSiteAddr) + " {"
      && ls[1] == DROP_LINE && ls[2] == SIZE_LINE && ls[3] == ALIGN_LINE
      && (forall k :: 1 <= k <= methodCount ==> ls[3 + k] == MethodLine(k))
      && ls[methodCount + 4] == CLOSE_LINE
    ensures CountChar(TypeDefText(callSiteAddr, methodCount), '\n') == methodCount + 5
  {
    var ls := TypeDefLines(callSiteAddr, methodCount);
    MethodLinesSpec(methodCount);
    forall k | 1 <= k <= methodCount ensures ls[3 + k] == MethodLine(k) {
      assert ls[3 + k] == MethodLines(methodCount)[k - 1];
    }
    DefLinesHaveNoLineFeed(callSiteAddr, methodCount);
    LinesCount(ls);
  }

  /** Distinct call sites get distinct type names. */
  lemma DefinedTypeNameInjective(a: u64, b: u64)
    requires DefinedTypeName(a) == DefinedTypeName(b)
    ensures a == b
  {
    var pa := DefinedTypeName(a);
    assert pa[7..] == Hex(a);
    assert DefinedTypeName(b)[7..] == Hex(b);
    HexRoundTrip(a);
    HexRoundTrip(b);
  }

  /** The name `retype_vtable_variable` looks up, as written: `VTable<hex>` without the underscore. */
  function RetypeTypeName(callSiteAddr: u64): string {
    "VTable" + Hex(callSiteAddr)
  }

  /** The name it evidently means: the one the definition declares. */
  function CorrectedRetypeTypeName(callSiteAddr: u64): string {
    DefinedTypeName(callSiteAddr)
  }

  /** As written, the looked-up name is never the name of any defined vtable type. */
  lemma RetypeNameMismatch(a: u64, b: u64)
    ensures RetypeTypeName(a) != DefinedTypeName(b)
  {
    HexShape(a);
    assert RetypeTypeName(a)[6] == Hex(a)[0];
    assert DefinedTypeName(b)[6] == '_';
  }

  /** Corrected, the pointer type `struct <name>*` names exactly the struct declared for that call site. */
  lemma CorrectedRetypeNameMatches(a: u64, b: u64)
    ensures "struct " + CorrectedRetypeTypeName(a) + " {" == HeaderLine(a)
    ensures CorrectedRetypeTypeName(a) == DefinedTypeName(b) <==> a == b
  {
    if CorrectedRetypeTypeName(a) == DefinedTypeName(b) {
      DefinedTypeNameInjective(a, b);
    }
  }

  // ---------------------------------------------------------------------------
  // High-level IL: the variable a call goes through.

  /** A function variable; only its identity matters here. */
  datatype Variable = Variable(id: nat)

  /**
   * The HLIL expression kinds `extract_vars_from_expr` looks at. An operand is
   * `None` when `instruction_from_expr_index` finds no instruction for it.
   */
  datatype HlilExpr =
    | Deref(src: Option<HlilExpr>)
    | HAdd(left: Option<HlilExpr>, right: Option<HlilExpr>)
    | Var(v: Variable)
    | OtherHlil

  /** An HLIL instruction at an address: a call or tail call through `dest`, or anything else. */
  datatype HlilInstr =
    | HCall(address: u64, dest: Option<HlilExpr>)
    | HTailcall(address: u64, dest: Option<HlilExpr>)
    | HOther(address: u64)

  /** What `vars.extend(v)` adds for an optional sub-result. */
  function Extended(r: Option<seq<Variable>>): seq<Variable> {
    match r
    case Some(vs) => vs
    case None => []
  }

  /** `extract_vars_from_expr` */
  function ExtractVarsFromExpr(e: HlilExpr): Option<seq<Variable>> {
    var vars :=
      match e
      case Deref(src) =>
        (match src case Some(s) => Extended(ExtractVarsFromExpr(s)) case None => [])
      case HAdd(l, r) =>
        (match l case Some(x) => Extended(ExtractVarsFromExpr(x)) case None => [])
        + (match r case Some(y) => Extended(ExtractVarsFromExpr(y)) case None => [])
      case Var(v) => [v]
      case OtherHlil => [];
    if vars == [] then None else Some(vars)
  }

  /** The variable leaves of an expression reached through dereferences and additions, left before right. */
  function Leaves(e: HlilExpr): seq<Variable> {
    match e
    case Var(v) => [v]
    case Deref(src) => if src.Some? then Leaves(src.value) else []
    case HAdd(l, r) =>
      (if l.Some? then Leaves(l.value) else []) + (if r.Some? then Leaves(r.value) else [])
    case OtherHlil => []
  }

  /** The extraction collects exactly the variable leaves, and is `None` iff there are none. */
  lemma {:induction false} ExtractVarsSpec(e: HlilExpr)
    ensures ExtractVarsFromExpr(e) == (if Leaves(e) == [] then None else Some(Leaves(e)))
  {
    match e
    case Var(v) =>
    case OtherHlil =>
    case Deref(src) =>
      if src.Some? {
        ExtractVarsSpec(src.value);
      }
    case HAdd(l, r) =>
      if l.Some? {
        ExtractVarsSpec(l.value);
      }
      if r.Some? {
        ExtractVarsSpec(r.value);
      }
  }

  /** `extract_call_base_var`: the variables of a call's or tail call's destination. */
  function ExtractCallBaseVar(instr: HlilInstr): Option<seq<Variable>> {
    match instr
    case HCall(_, dest) => if dest.Some? then ExtractVarsFromExpr(dest.value) else None
    case HTailcall(_, dest) => if dest.Some? then ExtractVarsFromExpr(dest.value) else None
    case HOther(_) => None
  }

  /** Only calls and tail calls have a base variable, and a found list is never empty. */
  lemma ExtractCallBaseVarSpec(instr: HlilInstr)
    ensures ExtractCallBaseVar(instr).Some? ==> !instr.HOther? && instr.dest.Some?
    ensures ExtractCallBaseVar(instr).Some? ==>
      ExtractCallBaseVar(instr).value == Leaves(instr.dest.value) != []
  {
    if !instr.HOther? && instr.dest.Some? {
      ExtractVarsSpec(instr.dest.value);
    }
  }

  /** The variable retyped for an instruction: the first base variable, when it is at the call site. */
  function BaseVarAt(instr: HlilInstr, callSiteAddr: u64): Option<Variable> {
    if instr.address != callSiteAddr then None
    else match ExtractCallBaseVar(instr)
      case Some(vs) => if |vs| > 0 then Some(vs[0]) else None
      case None => None
  }

  function FirstBaseVar(instrs: seq<HlilInstr>, callSiteAddr: u64): Option<Variable> {
    if instrs == [] then None
    else if BaseVarAt(instrs[0], callSiteAddr).Some? then BaseVarAt(instrs[0], callSiteAddr)
    else FirstBaseVar(instrs[1..], callSiteAddr)
  }

  /** The variable the retyping picks: the first found, block by block. */
  function FirstBaseVarInBlocks(blocks: seq<seq<HlilInstr>>, callSiteAddr: u64): Option<Variable> {
    if blocks == [] then None
    else if FirstBaseVar(blocks[0], callSiteAddr).Some? then FirstBaseVar(blocks[0], callSiteAddr)
    else FirstBaseVarInBlocks(blocks[1..], callSiteAddr)
  }

  /**
   * The search loop of `retype_vtable_variable`: skip instructions at other
   * addresses, and retype the first variable of the first call there whose
   * destination has one.
   */
  method FindRetypeTarget(blocks: seq<seq<HlilInstr>>, callSiteAddr: u64) returns (target: Option<Variable>)
    ensures target == FirstBaseVarInBlocks(blocks, callSiteAddr)
  {
    for bi := 0 to |blocks|
      invariant FirstBaseVarInBlocks(blocks[bi..], callSiteAddr) == FirstBaseVarInBlocks(blocks, callSiteAddr)
    {
      var block := blocks[bi];
      for ii := 0 to |block|
        invariant FirstBaseVar(block[ii..], callSiteAddr) == FirstBaseVar(block, callSiteAddr)
      {
        var instr := block[ii];
        assert block[ii..][0] == instr && block[ii..][1..] == block[ii + 1..];
        if instr.address != callSiteAddr {
          continue;
        }
        var varRefs := ExtractCallBaseVar(instr);
        if varRefs.Some? {
          if |varRefs.value| > 0 {
            assert blocks[bi..][0] == block;
            return Some(varRefs.value[0]);
          }
        }
      }
      assert blocks[bi..][0] == block && blocks[bi..][1..] == blocks[bi + 1..];
    }
    return None;
  }

  /** A found variable is the first base variable of a call at the call site; none found means no call there has one. */
  lemma {:induction false} FirstBaseVarSpec(instrs: seq<HlilInstr>, callSiteAddr: u64)
    ensures FirstBaseVar(instrs, callSiteAddr).Some? ==>
      exists k :: 0 <= k < |instrs| && instrs[k].address == callSiteAddr
        && ExtractCallBaseVar(instrs[k]).Some?
        && ExtractCallBaseVar(instrs[k]).value[0] == FirstBaseVar(instrs, callSiteAddr).value
    ensures FirstBaseVar(instrs, callSiteAddr).None? ==>
      forall k :: 0 <= k < |instrs| && instrs[k].address == callSiteAddr ==> ExtractCallBaseVar(instrs[k]).None?
  {
    if instrs != [] {
      FirstBaseVarSpec(instrs[1..], callSiteAddr);
      ExtractCallBaseVarSpec(instrs[0]);
      if BaseVarAt(instrs[0], callSiteAddr).None? {
        forall k | 1 <= k < |instrs| ensures instrs[k] == instrs[1..][k - 1] {}
      }
    }
  }
}
