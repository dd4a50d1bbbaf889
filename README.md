# binja-debugger-rust: the vtable-discovery pipeline in Dafny

This project models the vtable-discovery drivers built on the Binary Ninja
debugger bindings, and proves what they compute. The drivers work in four
stages:

1. **Scan statically.** They find every `call [rax]` / `call [rax + c]` site in
   the lifted IL of a binary.
2. **Trace.** They set a breakpoint on each site, run the program under the
   debugger, and at every hit read `rax` (the vtable pointer) and estimate how
   many method slots the vtable has.
3. **Synthesise.** For each call site they define a C struct type
   `VTable_<addr>` and a comment listing the vtables seen there.
4. **Scan for vtables directly.** A separate tool looks for vtables in a data
   section: it validates each header (drop, size, align), finds candidates in
   an aligned scan, and sizes each vtable against its neighbour.

The Rust binding layer's pure parts are modelled too:

- the register value decoding;
- the event conversion from the C structures;
- the thread round trip;
- the `Display` texts.

The model has one module per concern.

| module | file | models |
|---|---|---|
| `Words` | `words.dfy` | `u8`/`u32`/`u64`/`i64`, wrapping `u64` and `i64` arithmetic, `as` casts, little-endian bytes |
| `Text` | `text.dfy` | `{:x}` / `{}` / `{:02x}` formatting and reading back, `join`, line counting |
| `Image` | `image.dfy` | a binary view (byte map plus section table), `read_u64`, `is_code_ptr`, the debugger's `read_memory` |
| `CallScan` | `call_scan.dfy` | the LLIL tree, `check_rax_expr`, both versions of `find_rax_deref_calls` |
| `VtableSize` | `vtable_size.dfy` | the static and the runtime `determine_vtable_size*` |
| `VtableUtils` | `vtable_utils.dfy` | `examples/vtable_utils.rs`: header validation, `get_vtable_size`, `parse_vtable`, `compute_vtable_sizes` (in-place sort on an array), `scan_for_vtables` |
| `TypeSynth` | `type_synth.dfy` | `generate_vtable_type_def`, the name and target search of `retype_vtable_variable`, `extract_vars_from_expr` |
| `Macros` | `macros.dfy` | `comment!` |
| `Debugger` | `debugger_types.dfy` | the data types of `src/lib.rs`: `from_raw`/`to_raw`, `value_u64`, `Display`, `DebuggerEvent::from_raw`, `get_register_value`'s buffer |
| `Trace` | `trace.dfy` | `examples/headless_debug/main.rs`: rebasing, `bp_to_call`, the tracing loop, type and comment synthesis, `main` |
| `LegacyDriver` | `legacy_driver.dfy` | `examples/headless_debug.rs`: first-match dispatch, load address and target, the logging loop, `main` |

Memory, the section table, the IL, the debugger's stops and the type parser
are all inputs:

- A **debugger stop** is a `Trace.Stop`. It holds:
  - the stop reason;
  - the instruction pointer;
  - the bytes the debugger writes into the 64-byte register buffer for `rax`;
  - the process memory as seen through `read_memory(addr, 8)`.
- A **run** is the sequence of stops that successive `go_and_wait` calls return.

Where the code works step by step, the model is imperative: methods with
loops, proved equal to a specification function. These methods are:

- both scans;
- the size estimators;
- `get_vtable_size`, `parse_vtable` and `scan_for_vtables`;
- the sort, which runs in place on an `array`;
- the type text builder;
- the tracing loops;
- `DefineTypes`;
- both `main`s.

What the code promises is proved about those specification functions.

`examples/headless_debug.rs` repeats some helpers of
`examples/headless_debug/utils.rs` line for line:

- `read_u64` (lines 25-32);
- `is_code_ptr` (35-49);
- `determine_vtable_size` (75-84);
- `check_rax_expr` (87-113).

Each pair is one member here, and the rows below cite the `utils.rs` copy.
The sequential scanner of that file is `CallScan.FindRaxDerefCallsInOrder`.

## Model

| member | source | states |
|---|---|---|
| `Words.WrappingAddSpec` | examples/headless_debug/utils.rs:105 | `wrapping_add` is addition modulo 2^64 |
| `Words.WrappingSubAdd` | examples/headless_debug/main.rs:124 | wrapping subtraction undoes wrapping addition, so a rebased address can be mapped back |
| `Words.WrappingI64Spec` | examples/headless_debug/main.rs:112 | `i64` subtraction and addition agree with the mathematical ones modulo 2^64, and equal them when in range |
| `Words.AsI64` | examples/headless_debug/main.rs:112 | `x as i64` has the same bits as `x` and is negative exactly when the top bit is set |
| `Words.AsU64` | examples/headless_debug.rs:208 | `x as u64` is `x` modulo 2^64, the identity on non-negative values |
| `Words.CastsRoundTrip` | examples/headless_debug/main.rs:124 | `as i64` and `as u64` are inverse to each other |
| `Words.LeBytesOfValue` | examples/headless_debug/utils.rs:39 | the little-endian value of a byte string gives back those bytes |
| `Words.LeValueOfBytes` | examples/headless_debug/utils.rs:39 | the bytes of a value below 256^n read back as that value |
| `Words.LeValueZeroExtend` | src/lib.rs:699-702 | zero bytes appended at the top leave the little-endian value unchanged |
| `Words.FromLeBytesSpec` | examples/headless_debug/utils.rs:39 | `u64::from_le_bytes` of 8 bytes is a value whose 8 little-endian bytes are exactly those |
| `Image.ReadBytesSpec` | examples/headless_debug/utils.rs:38 | `bv.read` returns the longest readable prefix of the requested range, byte for byte, and stops at the first unreadable byte |
| `Image.ReadU64Spec` | examples/headless_debug/utils.rs:36-43 | `read_u64` is `Some` iff all 8 bytes are read, and then its value's little-endian bytes are the bytes in the view |
| `Image.ReadU64Runtime` | examples/headless_debug/main.rs:18-25 | the runtime read is `Some` iff the debugger returns exactly 8 bytes |
| `Image.ReadU64RuntimeSpec` | examples/headless_debug/utils.rs:140-143 | a successful runtime read is the little-endian value of the 8 returned bytes |
| `Image.FirstContainingIsCodeSpec` | examples/headless_debug/utils.rs:49-56 | the section loop answers yes iff some section contains the pointer, is read-only code, and no earlier section contains it |
| `Image.IsCodePtrSpec` | examples/headless_debug/utils.rs:45-57 | a code pointer is non-zero, and the first section in table order that contains it is read-only code; 0 and an address in no section are never code pointers |
| `Text.HexShape` | examples/headless_debug/macros.rs:23 | `{:x}` prints at least one lower-case digit, and has no leading zero unless the value is 0 |
| `Text.HexRoundTrip` | examples/headless_debug/macros.rs:23 | the hex text reads back as the number |
| `Text.DecShape` | examples/headless_debug/main.rs:200 | `{}` prints at least one decimal digit, with no leading zero unless the value is 0 |
| `Text.DecRoundTrip` | examples/headless_debug/main.rs:200 | the decimal text reads back as the number |
| `Text.Hex2` | src/lib.rs:711 | `{:02x}` of a byte is two hex digits that read back as the byte |
| `Text.LinesCount` | examples/headless_debug/utils.rs:177-185 | text built from lines without line feeds, one `\n` after each, has exactly one line feed per line and ends in one |
| `CallScan.CheckRaxExprSpec` | examples/headless_debug/utils.rs:114-138 | an offset is returned iff the expression is the architectural `rax`, or `rax + constant` with `rax` on the left; the offset is 0 for `rax` and `c as i64` for `rax + c`; every other expression gives `None` |
| `CallScan.CheckRaxExprAddress` | examples/headless_debug/utils.rs:124-130 | the offset found is the right one: the expression evaluates to `rax` plus the offset's bits, wrapping |
| `CallScan.CallsInInstrsSound` | examples/headless_debug/utils.rs:84-91 | every record comes from a call instruction at that address whose target is a load through a matching expression, with the matched offset |
| `CallScan.CallsInInstrsComplete` | examples/headless_debug/utils.rs:84-91 | every matching call instruction is recorded, at its address with its offset |
| `CallScan.CallsInInstrsCount` | examples/headless_debug/utils.rs:83-94 | exactly one record per matching instruction |
| `CallScan.CallsInFunctionsFlat` | examples/headless_debug.rs:54-71 | the scan's output is the records of all instructions in function, block, instruction order |
| `CallScan.ScanSpec` | examples/headless_debug/utils.rs:59-101 | the output has one record per matching instruction, each sound, all present, and functions without LLIL contribute nothing |
| `CallScan.ScanFunctionCalls` | examples/headless_debug/utils.rs:80-96 | the per-function closure's nested loops produce that function's records in block and instruction order |
| `CallScan.FindRaxDerefCallsInOrder` | examples/headless_debug.rs:52-73 | the sequential scanner returns the records in function → block → instruction order, skipping functions without LLIL |
| `CallScan.FindRaxDerefCalls` | examples/headless_debug/utils.rs:59-101 | whatever order the workers take the functions in, the collected result is the in-order one |
| `VtableSize.StaticSizeFromSpec` | examples/headless_debug/utils.rs:104-111 | from slot `j` on, the result is the first slot holding a readable non-code word; unreadable slots are skipped; `None` iff there is no such slot |
| `VtableSize.StaticVtableSizeSpec` | examples/headless_debug/utils.rs:103-112 | the static estimate is the index of the first readable non-code slot at `ptr+0x18+8k` (wrapping), at most 1023, and `None` iff no slot below `MAX_VTABLE_SIZE` is one |
| `VtableSize.StaticSizeOfUnreadable` | examples/headless_debug/utils.rs:105 | a pointer whose slots are all unreadable has no static estimate |
| `VtableSize.RuntimeSizeFromSpec` | examples/headless_debug/utils.rs:164-173 | from slot `j` on, the result is the first slot that is unreadable or holds a non-code word |
| `VtableSize.RuntimeVtableSizeSpec` | examples/headless_debug/utils.rs:159-174 | the runtime estimate stops at the first unreadable or non-code slot, at most 1023, and is `None` iff every slot is a code pointer |
| `VtableSize.RuntimeSizeExact` | examples/headless_debug/utils.rs:165-169 | a failed read at slot `n` after `n` code pointers gives exactly `n` |
| `VtableSize.DetermineVtableSize` | examples/headless_debug/utils.rs:103-112 | the loop returns the static estimate |
| `VtableSize.DetermineVtableSizeRuntime` | examples/headless_debug/utils.rs:159-174 | the loop returns the runtime estimate |
| `VtableUtils.BitAndPredecessor` | examples/vtable_utils.rs:66 | `x & (x - 1) == 0` holds for `x >= 1` iff `x` is a power of two |
| `VtableUtils.PowerOfTwoExamples` | examples/vtable_utils.rs:272-276 | 1 and 8 pass the power-of-two test; 3 fails it |
| `VtableUtils.IsValidVtableHeader` | examples/vtable_utils.rs:44-71 | a header is valid iff its three words are readable, the drop word is 0 or a code pointer, the size is at most 0x100000, and the alignment is a non-zero power of two at most 4096 |
| `VtableUtils.MethodsSpec` | examples/vtable_utils.rs:110-121 | each collected method is the readable code pointer in its slot below `max_size`; the slot after the last one is unreadable or not code, or lies past the bound |
| `VtableUtils.GetVtableSize` | examples/vtable_utils.rs:76-94 | the size is `24 + 8k` for the `k` consecutive code-pointer slots; it is exactly 24 when `max_size <= 24`, and below `max_size + 8` otherwise |
| `VtableUtils.CollectMethods` | examples/vtable_utils.rs:107-121 | the method loop collects exactly the methods of the scan |
| `VtableUtils.ParseVtable` | examples/vtable_utils.rs:97-134 | the method returns the parsed vtable of the specification |
| `VtableUtils.ParseVtableSpecFacts` | examples/vtable_utils.rs:97-134 | the result is `None` iff the header is invalid; otherwise it has the following: <ul><li>the address;</li><li>`method_count == methods.len()`;</li><li>the same size as `get_vtable_size`, `24 + 8*method_count`;</li><li>each method is the code pointer in its slot;</li><li>`has_drop` implies a code-pointer drop;</li><li>a bounded type size and a power-of-two alignment;</li><li>`is_zst` iff the size word is 0.</li></ul> |
| `VtableUtils.SortU64Spec` | examples/vtable_utils.rs:145 | the sorted list is ascending and a permutation of the input |
| `VtableUtils.SortedUnique` | examples/vtable_utils.rs:145 | two ascending permutations of the same list are equal, so any unstable sort gives the same list |
| `VtableUtils.SortUnstable` | examples/vtable_utils.rs:145 | the in-place sort leaves the array ascending and a permutation of what it held |
| `VtableUtils.InsertLast` | examples/vtable_utils.rs:145 | one insertion step extends the sorted prefix by one, permutes the array, and leaves the slots after `i` untouched |
| `VtableUtils.NeighbourBound` | examples/vtable_utils.rs:151-155 | the bound is the distance to the next sorted address (0 for a duplicate), or `0x200` for the last |
| `VtableUtils.ComputeVtableSizes` | examples/vtable_utils.rs:139-163 | the method sorts a copy and parses each address under its bound, as the specification says |
| `VtableUtils.ParseEach` | examples/vtable_utils.rs:149-160 | the loop keeps exactly the parsed vtables, in sorted order |
| `VtableUtils.SizesUpToOrigin` | examples/vtable_utils.rs:149-160 | each result is the parse of some sorted address under its neighbour bound, and there are no more results than addresses |
| `VtableUtils.SizesUpToOrder` | examples/vtable_utils.rs:149-160 | the results are in ascending address order |
| `VtableUtils.SizesUpToComplete` | examples/vtable_utils.rs:157-159 | every address with a valid header has a result |
| `VtableUtils.ComputeVtableSizesFacts` | examples/vtable_utils.rs:139-163 | empty input gives empty output; results are ascending, drawn from the input, no more than it, and include every address with a valid header |
| `VtableUtils.AlignUp8` | examples/vtable_utils.rs:173-174 | rounding up to 8 gives the least multiple of 8 not below the start |
| `VtableUtils.ScanForVtables` | examples/vtable_utils.rs:168-192 | the scanning loop returns the candidates of the specification |
| `VtableUtils.ScanFromBounds` | examples/vtable_utils.rs:176 | every candidate is 8-aligned and lies between the aligned start and `end - 24` |
| `VtableUtils.ScanFromCandidates` | examples/vtable_utils.rs:177-181 | every candidate has a valid header and a code pointer at `+24` |
| `VtableUtils.ScanFromSpacing` | examples/vtable_utils.rs:181-188 | candidates are strictly increasing, at least 24 bytes apart, because a hit skips the header |
| `VtableUtils.ScanWithCovers` | examples/vtable_utils.rs:176-189 | an aligned address in range that passes the test is a candidate, or lies in the 24 bytes of an earlier one |
| `VtableUtils.ScanForVtablesFacts` | examples/vtable_utils.rs:168-192 | the candidates are aligned, in range, valid, spaced by the header skip, and no passing address is missed except inside a skipped header |
| `TypeSynth.MethodLinesSpec` | examples/headless_debug/utils.rs:181-183 | there are `method_count` method lines, `method1` … `methodN` in order |
| `TypeSynth.GenerateVtableTypeDef` | examples/headless_debug/utils.rs:176-186 | the `push_str` loop builds the text of the definition's lines, each ended by a line feed |
| `TypeSynth.TypeDefShape` | examples/headless_debug/utils.rs:176-186 | the definition has `method_count + 5` lines: the following, in order: <ul><li>`struct VTable_<hex> {`;</li><li>drop, size and align;</li><li>the methods;</li><li>`};`.</li></ul> |
| `TypeSynth.DefinedTypeNameInjective` | examples/headless_debug/utils.rs:177 | different call sites get different type names |
| `TypeSynth.RetypeNameMismatch` | examples/headless_debug/utils.rs:214 | as written, the name `retype_vtable_variable` looks up is never the name of a defined vtable type |
| `TypeSynth.CorrectedRetypeNameMatches` | examples/headless_debug/utils.rs:177 | the corrected name is the defined struct's, and matches a site's type exactly for that site |
| `TypeSynth.ExtractVarsSpec` | examples/headless_debug/utils.rs:267-306 | the extraction collects the `Var` leaves reached through `Deref` and `Add`, left before right, and is `None` iff there are none |
| `TypeSynth.ExtractCallBaseVarSpec` | examples/headless_debug/utils.rs:248-265 | only a call or tail call with a destination yields variables, and then the non-empty leaves of the destination |
| `TypeSynth.FindRetypeTarget` | examples/headless_debug/utils.rs:231-245 | the search returns the first variable of the first instruction at the site that yields one, block by block |
| `TypeSynth.FirstBaseVarSpec` | examples/headless_debug/utils.rs:232-243 | a found variable comes from an instruction at the site, and none is found iff no instruction at the site yields one |
| `Macros.Comment` | examples/headless_debug/macros.rs:26 | the output starts with `{` and ends with `}` |
| `Macros.CommentRoundTrip` | examples/headless_debug/macros.rs:19-28 | reading the comment back gives the listed numbers in order, so the format loses nothing |
| `Macros.CommentEmpty` | examples/headless_debug/macros.rs:19-28 | an empty collection prints as `{}` |
| `Macros.CommentAppend` | examples/headless_debug/macros.rs:21-25 | items appear in iteration order: one more item adds `, 0x<hex>` before the closing brace |
| `Debugger.EventFromRaw` | src/lib.rs:786-835 | the event fields are set as follows, and every other event type leaves all optional fields `None`: <ul><li>`stop_reason` is `Some` exactly for the two stopped types;</li><li>`exit_code` is `Some` exactly for the stopped types (from the stop data) and the exited types (from the exit data);</li><li>`address` is `Some` exactly for the four absolute-breakpoint events;</li><li>`error_message` and `message` are `Some` exactly for their event types with a non-null string.</li></ul> |
| `Debugger.ThreadRoundTrip` | src/lib.rs:544-558 | `from_raw(to_raw(t)) == t` and `to_raw(from_raw(r)) == r` |
| `Debugger.ThreadDisplaySpec` | src/lib.rs:561-571 | the thread text ends in ` (frozen)` iff the thread is frozen |
| `Debugger.FrameDisplaySpec` | src/lib.rs:584-618 | the frame text starts `#<index>`, the index reads back, it ends in `)`, and a null name becomes empty |
| `Debugger.ModuleDisplaySpec` | src/lib.rs:629-661 | the module text starts with the short name, ends in `)`, and does not depend on the full name or the loaded flag |
| `Debugger.BreakpointDisplaySpec` | src/lib.rs:724-750 | the breakpoint text ends in ` (disabled)` iff the breakpoint is disabled |
| `Debugger.RegisterFromRawSpec` | src/lib.rs:673-695 | the value is the first `min(width, 64)` bytes of the raw buffer, and `width` keeps the raw width even when it exceeds 64 |
| `Debugger.RegisterWordSpec` | src/lib.rs:698-703 | `value_u64` is the little-endian value of the first `min(len, 8)` bytes, zero-extended; later bytes are ignored |
| `Debugger.ValueU64` | src/lib.rs:698-703 | the copy into the zeroed buffer computes that value |
| `Debugger.HexBytesLayout` | src/lib.rs:711 | the byte list prints byte `k` as two hex digits at position `4k`, separated by `, ` |
| `Debugger.RegisterDisplaySpec` | src/lib.rs:706-714 | a register of width at most 8 prints `name = 0x<hex>` of `value_u64`, which reads back; a wider one prints every byte at a fixed place |
| `Debugger.RegisterBufferSpec` | src/lib.rs:302-309 | `get_register_value` always returns 64 bytes: what the debugger wrote, then zeros |
| `Trace.RuntimeAddrSpec` | examples/headless_debug/main.rs:124 | rebasing adds the offset's two's-complement bits modulo 2^64; offset 0 keeps the static address |
| `Trace.RebaseRoundTrip` | examples/headless_debug/main.rs:122-127 | subtracting the offset recovers the static address, so distinct sites get distinct breakpoints |
| `Trace.RebaseOffsetSpec` | examples/headless_debug/main.rs:111-118 | the offset is 0 iff the runtime IP is the file entry or 0; otherwise the entry rebases onto the runtime IP |
| `Trace.RuntimeAddrsSpec` | examples/headless_debug/main.rs:123-125 | one breakpoint per site, at its runtime address, in site order |
| `Trace.BreakpointMapKeys` | examples/headless_debug/main.rs:122-127 | an address is a key of `bp_to_call` iff some site rebases onto it |
| `Trace.BreakpointMapSpec` | examples/headless_debug/main.rs:122-127 | the keys are the rebased site addresses; each maps to the last site inserted there, whose address is the key minus the offset |
| `Trace.SetBreakpoints` | examples/headless_debug/main.rs:122-127 | the loop adds the rebased breakpoints in order and builds the map |
| `Trace.BreakpointMapFrom` | examples/headless_debug/main.rs:126 | every map entry is a scanned call site |
| `Trace.MethodCount` | examples/headless_debug/main.rs:152 | a method count is at most 1024, and the live sizing policy always has one |
| `Trace.StepIgnores` | examples/headless_debug/main.rs:142-150 | a stop off the breakpoints, or with `rax == 0`, changes neither `call_sites` nor `hit_count` |
| `Trace.StepRecords` | examples/headless_debug/main.rs:152-173 | a breakpoint hit with a method count does the following: <ul><li>it adds the site's static address as a key;</li><li>it leaves other sites alone;</li><li>it keeps the site's address and offset;</li><li>it records the pointer;</li><li>it appends the pointer and increments `hit_count` iff the site had not seen that pointer; otherwise nothing changes.</li></ul> |
| `Trace.StepIdempotent` | examples/headless_debug/main.rs:161-173 | repeating the same stop changes nothing |
| `Trace.TotalUpdate` | examples/headless_debug/main.rs:216 | the observation total changes by the replaced entry's count |
| `Trace.AppendKeepsSite` | examples/headless_debug/main.rs:161-166 | appending an unseen non-null pointer keeps a site's pointers distinct |
| `Trace.StepConsistent` | examples/headless_debug/main.rs:144-174 | each loop pass keeps the invariant: <ul><li>`hit_count` equals the number of observations;</li><li>each entry is keyed by its static address, carries its site's offset, and holds at least one observation;</li><li>no entry holds two observations of the same pointer.</li></ul> |
| `Trace.RunConsistent` | examples/headless_debug/main.rs:134-175 | a run that does not panic ends with that invariant |
| `Trace.RunStopsAtExit` | examples/headless_debug/main.rs:134-140 | the loop ends at the first `ProcessExited`; later stops are never seen |
| `Trace.StaticSizingPanics` | examples/headless_debug/main.rs:152 | as written, a runtime vtable pointer outside the file image makes the static estimator return `None`, and the `unwrap` panics |
| `Trace.LiveSizingNeverPanics` | examples/headless_debug/main.rs:152 | sizing through the live process never panics, and a breakpoint hit with `rax != 0` is recorded |
| `Trace.AnySeen` | examples/headless_debug/main.rs:161 | `already_seen` holds iff some observation has that pointer |
| `Trace.Trace` | examples/headless_debug/main.rs:130-175 | the tracing loop ends as the run specification says: exited, panicked, or out of stops |
| `Trace.MaxMethodsSpec` | examples/headless_debug/main.rs:192 | `max_methods` bounds every count and is one of them, or 0 for no observations |
| `Trace.ObservationTextInjective` | examples/headless_debug/main.rs:200 | different observations print differently |
| `Trace.VTablesCommentAppend` | examples/headless_debug/main.rs:198-202 | comment entries are in observation order, joined by `, ` |
| `Trace.TypesAmongStep` | examples/headless_debug/main.rs:194-196 | taking one more site adds its type exactly when `max_methods > 0` and the definition parses |
| `Trace.CommentsAmongStep` | examples/headless_debug/main.rs:194-203 | taking one more site adds its comment exactly when its type is defined |
| `Trace.DefineTypes` | examples/headless_debug/main.rs:191-205 | the loop defines a type and sets a comment for exactly the sites the specification names |
| `Trace.DefinedTypesSpec` | examples/headless_debug/main.rs:191-205 | a site gets a comment iff it gets a type: it has observations, `max_methods > 0`, the text parses, the type is the generated definition for `max_methods`, and the comment is `VTables: ` and the entries |
| `Trace.HeadlessMain` | examples/headless_debug/main.rs:61-205 | the driver returns as follows: <ul><li>early iff no sites are found;</li><li>early iff the launch exits;</li><li>otherwise it sets the rebased breakpoints and runs the trace;</li><li>it defines types and comments only after the process exits.</li></ul> |
| `Trace.TracedRunSpec` | examples/headless_debug/main.rs:179-205 | after an exited run the invariant holds, and every site that gets a type is a consistent scanned site |
| `LegacyDriver.FirstCallAtSpec` | examples/headless_debug.rs:205 | the dispatch finds the first site at `ip`, and none iff no site is at `ip` |
| `LegacyDriver.FindCall` | examples/headless_debug.rs:205 | `find` returns that first site |
| `LegacyDriver.TargetAtSpec` | examples/headless_debug.rs:214-218 | the target is the runtime word at the load address when 8 bytes come back, and 0 otherwise |
| `LegacyDriver.LoadAddrIsOperand` | examples/headless_debug.rs:208 | `rax.wrapping_add(offset as u64)` is the address the call instruction loads from |
| `LegacyDriver.HitAtFits` | examples/headless_debug.rs:204-223 | a logged line has the stop's `ip` and `rax`, the first site's load address and the target read there |
| `LegacyDriver.LegacyRunExits` | examples/headless_debug.rs:197-202 | the log ends at the exit iff some stop is `ProcessExited` |
| `LegacyDriver.LegacyRunLength` | examples/headless_debug.rs:197-225 | there are no more log lines than stops |
| `LegacyDriver.LegacyRunFits` | examples/headless_debug.rs:197-225 | every log line comes from a non-exit stop at a site |
| `LegacyDriver.LogStop` | examples/headless_debug.rs:204-223 | one loop pass computes the line of the specification |
| `LegacyDriver.TraceLegacy` | examples/headless_debug.rs:197-225 | the loop produces the log of the run specification |
| `LegacyDriver.SiteAddrsUnrebased` | examples/headless_debug.rs:191-193 | the old driver's breakpoints are the new one's with offset 0: the static addresses |
| `LegacyDriver.LegacyMain` | examples/headless_debug.rs:150-193 | the driver returns early iff no sites are found, or when the launch exits; otherwise it puts breakpoints at the static addresses and logs the run |

## Left out

- Debug-build overflow panics are not modelled. `u64`/`i64` arithmetic (`runtime_ip as i64 - file_entry as i64`, `c.addr as i64 + rebase_offset`) wraps as in a release build.
- `hit_count` is an untyped integer literal, so Rust makes it `i32`. The model uses an unbounded `nat`: more than 2^31 distinct hits is out of reach.
- `start + section.len()` in `is_code_ptr` cannot overflow in the model. The section end is an unbounded integer.
- `VtableUtils.ScanForVtables`: requires `start + 7` and `end + 24` to fit in `u64`. Without that, the unchecked additions at examples/vtable_utils.rs:174-188 wrap in a release build, and the loop need not end.
- `VtableUtils.GetVtableSize`: the cursor `offset += 8` is unbounded here. Near the top of the address space, `addr + offset` in the source would overflow; the model reads at the wrapped address.
- `read_u64` and `is_code_ptr` are called but not defined in examples/vtable_utils.rs. The model uses the `utils.rs` definitions.
- Reporting is not modelled: the rayon `par_iter` workers, the `AtomicUsize` progress counters, and progress output. `collect` keeps the order of the input, so the parallel scan returns the sequential order. The worker order is the parameter `schedule`.
- I/O is not modelled: all `println!`/`eprintln!` output, argument parsing, session loading and `env_logger`.
- The debugger controller is not modelled. Its `DebuggerController` methods are FFI wrappers (`launch_and_wait`, `go_and_wait`, `ip`, `get_register_value`, `read_memory`, `add_breakpoint`, `quit_and_wait`). The stops they return are the input sequence.
- `Trace.HeadlessMain`: the real loop blocks in `go_and_wait` until the process exits. A finite stop sequence without an exit ends as `StopsExhausted`, and then no types are defined.
- The platform's type parser is not modelled. `define_vtable_type`'s `parse_types_from_source` and `define_user_type` are the predicate `accepts` on the generated text.
- Reloading the view and saving the database are not modelled (main.rs lines 184-187 and 207-212).
- `retype_vtable_variable`: only the type name and the choice of variable are modelled. `functions_containing`, `high_level_il`, `parse_type_string` and `create_user_var` are not.
- The HLIL expression arena is flattened into a tree. `instruction_from_expr_index` failing is the `None` child.
- The `curr_func!` macro is not modelled: it needs a live debugger and panics through `expect`.
- `find_vtables_in_relro` has no member of its own. The two functions it chains at examples/vtable_utils.rs:208-212 are modelled: `scan_for_vtables` over `[start, start + len)`, then `compute_vtable_sizes` on the candidates. Its section-name lookup (lines 197-206) and that file's `main` printing are left out.
- Macros.Comment: the items are unsigned integers (`seq<nat>`). `comment!` formats any item that implements `LowerHex`, and a negative signed item prints its two's-complement bits (`-1i32` as `0xffffffff`). Signed items are not modelled; the macro has no call site in these files.
- Not modelled in `src/lib.rs`: `DebugProcess::from_raw`, `stop_reason_string`, `available_debug_adapters`, the callback trampolines and all other `DebuggerController` FFI methods.
- `to_string_lossy` is the identity on the model's strings: invalid UTF-8 is not modelled.
- `usize` fields are `u64`.
- The drivers compare the stop reason against `ProcessExited` alone; no other stop reason changes what the model does.

## Findings

| source | as written | input that shows it | evidently intended | confidence | as-written member | corrected member |
|---|---|---|---|---|---|---|
| examples/headless_debug/main.rs:152 | `determine_vtable_size(&bv, rax).unwrap()` sizes a runtime vtable pointer with the static estimator over the file image | a PIE binary rebased above its image, so `rax` and every slot after it lie outside the view: every read fails, the estimate is `None`, and `unwrap` panics at the first hit | size the vtable through the live process (`determine_vtable_size_runtime`), with the slot limit when every slot is code | not executed | `Trace.StaticSizingPanics` | `Trace.LiveSizingNeverPanics` |
| examples/headless_debug/utils.rs:214 | `retype_vtable_variable` looks up `struct VTable{:x}*` | any call site, e.g. 0x401000: the defined type is `VTable_401000`, the looked-up one `VTable401000` | the name `generate_vtable_type_def` declares, `VTable_{:x}` | not executed | `TypeSynth.RetypeNameMismatch` | `TypeSynth.CorrectedRetypeNameMatches` |
