/**
 * The static call-site scanner: every `call [rax]` / `call [rax + c]` in the
 * lifted low-level IL of every function. The IL is reduced to the expression
 * kinds the scanner looks at; everything else is `OtherExpr` / `OtherInstr`.
 */
module CallScan {
  import opened Wrappers
  import opened Words

  /** An LLIL register operand: an architecture register (by name) or a temporary. */
  datatype Register = Arch(name: string) | Temp(index: nat)

  /** The LLIL expression kinds the scanner distinguishes. */
  datatype Expr =
    | Reg(reg: Register)
    | Const(value: u64)
    | Add(left: Expr, right: Expr)
    | Load(src: Expr)
    | OtherExpr

  /** An LLIL instruction at an address: a call through `target`, or anything else. */
  datatype Instruction = Call(address: u64, target: Expr) | OtherInstr(address: u64)

  type Block = seq<Instruction>

  /** A function; `llil` is `None` when `low_level_il()` fails. */
  datatype Function = Function(llil: Option<seq<Block>>)

  /** `RaxDerefCall { addr, offset }` */
  datatype RaxDerefCall = RaxDerefCall(addr: u64, offset: i64)

  const RAX: string := "rax"

  /** `check_rax_expr`: the offset `c` of an address expression `rax` or `rax + c`. */
  function CheckRaxExpr(e: Expr): Option<i64> {
    match e
    case Reg(r) =>
      if r.Arch? && r.name == RAX then Some(0) else None
    case Add(l, rt) =>
      if l.Reg? && l.reg.Arch? && l.reg.name == RAX && rt.Const? then Some(AsI64(rt.value))
      else None
    case _ => None
  }

  /** The address expressions the scanner accepts. */
  predicate IsRaxRelative(e: Expr) {
    e == Reg(Arch(RAX)) || (e.Add? && e.left == Reg(Arch(RAX)) && e.right.Const?)
  }

  /** Only `rax` and `rax + const` match: other registers, temporaries, a constant on the left and non-constant right operands do not. */
  lemma CheckRaxExprSpec(e: Expr)
    ensures CheckRaxExpr(e).Some? <==> IsRaxRelative(e)
    ensures e == Reg(Arch(RAX)) ==> CheckRaxExpr(e) == Some(0)
    ensures e.Add? && IsRaxRelative(e) ==> CheckRaxExpr(e) == Some(AsI64(e.right.value))
  {
  }

  /** Value of an address expression when rax holds `rax` (wrapping 64-bit addition); `None` when it reads anything else. */
  function EvalAddress(e: Expr, rax: u64): Option<u64> {
    match e
    case Reg(r) => if r == Arch(RAX) then Some(rax) else None
    case Const(c) => Some(c)
    case Add(l, rt) =>
      (match (EvalAddress(l, rax), EvalAddress(rt, rax))
       case (Some(a), Some(b)) => Some(WrappingAdd(a, b))
       case _ => None)
    case _ => None
  }

  /** The offset found is the right one: the call loads from `rax + (offset as u64)`, wrapping. */
  lemma CheckRaxExprAddress(e: Expr, rax: u64)
    requires CheckRaxExpr(e).Some?
    ensures EvalAddress(e, rax) == Some(WrappingAdd(rax, AsU64(CheckRaxExpr(e).value)))
  {
    CheckRaxExprSpec(e);
    if e.Add? {
      CastsRoundTrip(e.right.value, 0);
    }
  }

  /** Whether instruction `i` is a `call [rax + c]`, and the record it yields. */
  function CallsInInstr(i: Instruction): seq<RaxDerefCall> {
    if i.Call? && i.target.Load? then
      match CheckRaxExpr(i.target.src)
      case Some(off) => [RaxDerefCall(i.address, off)]
      case None => []
    else []
  }

  /** Instruction `i` is the call site recorded as `c`. */
  predicate IsCallSite(i: Instruction, c: RaxDerefCall) {
    i.Call? && i.target.Load? && CheckRaxExpr(i.target.src) == Some(c.offset) && c.addr == i.address
  }

  predicate Matches(i: Instruction) {
    i.Call? && i.target.Load? && CheckRaxExpr(i.target.src).Some?
  }

  /** The records of a run of instructions, in order. */
  function CallsInInstrs(ins: seq<Instruction>): seq<RaxDerefCall> {
    if ins == [] then [] else CallsInInstrs(ins[..|ins| - 1]) + CallsInInstr(ins[|ins| - 1])
  }

  /** The records of a run of blocks, block by block. */
  function CallsInBlocks(bs: seq<Block>): seq<RaxDerefCall> {
    if bs == [] then [] else CallsInBlocks(bs[..|bs| - 1]) + CallsInInstrs(bs[|bs| - 1])
  }

  /** One function's records: none when it has no LLIL. */
  function CallsInFunction(f: Function): seq<RaxDerefCall> {
    match f.llil
    case None => []
    case Some(bs) => CallsInBlocks(bs)
  }

  /** All records, function by function. */
  function CallsInFunctions(fs: seq<Function>): seq<RaxDerefCall> {
    if fs == [] then [] else CallsInFunctions(fs[..|fs| - 1]) + CallsInFunction(fs[|fs| - 1])
  }

  /** The instructions the scanner visits, in visiting order. */
  function BlocksInstructions(bs: seq<Block>): seq<Instruction> {
    if bs == [] then [] else BlocksInstructions(bs[..|bs| - 1]) + bs[|bs| - 1]
  }

  function FunctionInstructions(f: Function): seq<Instruction> {
    match f.llil
    case None => []
    case Some(bs) => BlocksInstructions(bs)
  }

  function AllInstructions(fs: seq<Function>): seq<Instruction> {
    if fs == [] then [] else AllInstructions(fs[..|fs| - 1]) + FunctionInstructions(fs[|fs| - 1])
  }

  lemma {:induction false} CallsInInstrsAppend(a: seq<Instruction>, b: seq<Instruction>)
    ensures CallsInInstrs(a + b) == CallsInInstrs(a) + CallsInInstrs(b)
    decreases |b|
  {
    if b == [] {
      assert a + b == a;
    } else {
      assert (a + b)[..|a + b| - 1] == a + b[..|b| - 1];
      CallsInInstrsAppend(a, b[..|b| - 1]);
    }
  }

  lemma {:induction false} CallsInBlocksFlat(bs: seq<Block>)
    ensures CallsInBlocks(bs) == CallsInInstrs(BlocksInstructions(bs))
  {
    if bs != [] {
      CallsInBlocksFlat(bs[..|bs| - 1]);
      CallsInInstrsAppend(BlocksInstructions(bs[..|bs| - 1]), bs[|bs| - 1]);
    }
  }

  /** Scanning function by function, block by block, is scanning the flat instruction list. */
  lemma {:induction false} CallsInFunctionsFlat(fs: seq<Function>)
    ensures CallsInFunctions(fs) == CallsInInstrs(AllInstructions(fs))
  {
    if fs != [] {
      var f := fs[|fs| - 1];
      CallsInFunctionsFlat(fs[..|fs| - 1]);
      if f.llil.Some? {
        CallsInBlocksFlat(f.llil.value);
      }
      CallsInInstrsAppend(AllInstructions(fs[..|fs| - 1]), FunctionInstructions(f));
    }
  }

  /** Every record comes from a matching call instruction at its address. */
  lemma {:induction false} CallsInInstrsSound(ins: seq<Instruction>)
    ensures forall c :: c in CallsInInstrs(ins) ==> exists i :: i in ins && IsCallSite(i, c)
  {
    if ins != [] {
      var init := ins[..|ins| - 1];
      CallsInInstrsSound(init);
      forall c | c in CallsInInstrs(ins) ensures exists i :: i in ins && IsCallSite(i, c) {
        if c in CallsInInstrs(init) {
          var i :| i in init && IsCallSite(i, c);
          assert i in ins;
        } else {
          assert IsCallSite(ins[|ins| - 1], c);
        }
      }
    }
  }

  /** Every matching call instruction is recorded, with its address and offset. */
  lemma {:induction false} CallsInInstrsComplete(ins: seq<Instruction>)
    ensures forall i :: i in ins && Matches(i) ==>
      RaxDerefCall(i.address, CheckRaxExpr(i.target.src).value) in CallsInInstrs(ins)
  {
    if ins != [] {
      var init := ins[..|ins| - 1];
      CallsInInstrsComplete(init);
      forall i | i in ins && Matches(i)
        ensures RaxDerefCall(i.address, CheckRaxExpr(i.target.src).value) in CallsInInstrs(ins)
      {
        if i !in init {
          assert i == ins[|ins| - 1];
        }
      }
    }
  }

  /** One record per matching instruction: exactly as many records as matching instructions. */
  function MatchCount(ins: seq<Instruction>): nat {
    if ins == [] then 0 else MatchCount(ins[..|ins| - 1]) + (if Matches(ins[|ins| - 1]) then 1 else 0)
  }

  lemma {:induction false} CallsInInstrsCount(ins: seq<Instruction>)
    ensures |CallsInInstrs(ins)| == MatchCount(ins) <= |ins|
  {
    if ins != [] {
      CallsInInstrsCount(ins[..|ins| - 1]);
    }
  }

  /** The scanner's output over a whole binary: sound, complete, one record per matching call, and functions without LLIL contribute nothing. */
  lemma ScanSpec(fs: seq<Function>)
    ensures var r := CallsInFunctions(fs);
      && |r| == MatchCount(AllInstructions(fs))
      && (forall c :: c in r ==> exists i :: i in AllInstructions(fs) && IsCallSite(i, c))
      && (forall i :: i in AllInstructions(fs) && Matches(i) ==>
            RaxDerefCall(i.address, CheckRaxExpr(i.target.src).value) in r)
    ensures forall f: Function :: f.llil.None? ==> CallsInFunction(f) == []
  {
    CallsInFunctionsFlat(fs);
    CallsInInstrsCount(AllInstructions(fs));
    CallsInInstrsSound(AllInstructions(fs));
    CallsInInstrsComplete(AllInstructions(fs));
  }

  /** The loop body shared by both scanners: one function's blocks and instructions. */
  method ScanFunctionCalls(f: Function) returns (funcCalls: seq<RaxDerefCall>)
    ensures funcCalls == CallsInFunction(f)
  {
    funcCalls := [];
    if f.llil.None? {
      return;
    }
    var bs := f.llil.value;
    for bi := 0 to |bs|
      invariant funcCalls == CallsInBlocks(bs[..bi])
    {
      var b := bs[bi];
      ghost var before := funcCalls;
      for ii := 0 to |b|
        invariant funcCalls == before + CallsInInstrs(b[..ii])
      {
        var i := b[ii];
        if i.Call? && i.target.Load? {
          var off := CheckRaxExpr(i.target.src);
          if off.Some? {
            funcCalls := funcCalls + [RaxDerefCall(i.address, off.value)];
          }
        }
        assert b[..ii + 1][..ii] == b[..ii];
      }
      assert b[..|b|] == b;
      assert bs[..bi + 1][..bi] == bs[..bi];
    }
    assert bs[..|bs|] == bs;
  }

  /** The single-threaded driver's `find_rax_deref_calls`: function, block, instruction order. */
  method FindRaxDerefCallsInOrder(fs: seq<Function>) returns (calls: seq<RaxDerefCall>)
    ensures calls == CallsInFunctions(fs)
  {
    calls := [];
    for k := 0 to |fs|
      invariant calls == CallsInFunctions(fs[..k])
    {
      if fs[k].llil.None? {
        assert fs[..k + 1][..k] == fs[..k];
        continue;
      }
      var funcCalls := ScanFunctionCalls(fs[k]);
      calls := calls + funcCalls;
      assert fs[..k + 1][..k] == fs[..k];
    }
    assert fs[..|fs|] == fs;
  }

  /** `schedule` visits every function (possibly in any order, possibly more than once). */
  predicate CoversAll(schedule: seq<nat>, n: nat) {
    && (forall t :: 0 <= t < |schedule| ==> schedule[t] < n)
    && (forall i :: 0 <= i < n ==> i in schedule)
  }

  /**
   * The parallel `find_rax_deref_calls`: each function's records are computed
   * by whichever worker picks it up, in the order `schedule` gives, and the
   * parallel collect assembles them in function order.
   */
  method FindRaxDerefCalls(fs: seq<Function>, schedule: seq<nat>) returns (calls: seq<RaxDerefCall>)
    requires CoversAll(schedule, |fs|)
    ensures calls == CallsInFunctions(fs)
  {
    var chunks: map<nat, seq<RaxDerefCall>> := map[];
    for t := 0 to |schedule|
      invariant forall i :: i in chunks ==> i < |fs| && chunks[i] == CallsInFunction(fs[i])
      invariant forall u :: 0 <= u < t ==> schedule[u] in chunks
    {
      var i := schedule[t];
      var funcCalls := ScanFunctionCalls(fs[i]);
      chunks := chunks[i := funcCalls];
    }
    calls := [];
    for k := 0 to |fs|
      invariant calls == CallsInFunctions(fs[..k])
    {
      assert k in schedule;
      calls := calls + chunks[k];
      assert fs[..k + 1][..k] == fs[..k];
    }
    assert fs[..|fs|] == fs;
  }
}
