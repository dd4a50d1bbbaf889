/**
 * The two method-count estimators of the tracing driver's utilities. Both
 * probe the words at `ptr + 0x18 + 8*j` (wrapping) for the slots
 * j = 0 .. 1023, that is `i` in `(0x18..MAX_VTABLE_SIZE).step_by(8)`, and
 * stop at the first slot that is readable but not a code pointer. They differ
 * on an unreadable slot: the static one skips it, the runtime one stops there.
 */
module VtableSize {
  import opened Wrappers
  import opened Words
  import opened Image

  /** Byte offset of the first method slot: drop, size and align come first. */
  const HEADER: nat := 0x18
  /** `MAX_VTABLE_SIZE`: the probe offsets stay below it. */
  const MAX_VTABLE_SIZE: nat := 0x18 + 1024 * 8
  /** Number of slots probed. */
  const SLOT_LIMIT: nat := 1024

  /** Address probed for slot `j`: `ptr.wrapping_add(0x18 + 8*j)`. */
  function SlotAddr(ptr: u64, j: nat): u64
    requires j < SLOT_LIMIT
  {
    WrappingAdd(ptr, HEADER + 8 * j)
  }

  /** The loop's byte offset `i` and slot index `j` name the same probe. */
  lemma SlotOffset(ptr: u64, i: u64, j: nat)
    requires i == HEADER + 8 * j && j < SLOT_LIMIT
    ensures WrappingAdd(ptr, i) == SlotAddr(ptr, j) && (i - HEADER) / 8 == j
  {
  }

  /** Static scan ends at slot `j`: the word there reads, and is not a code pointer. */
  predicate StaticStop(bv: BinaryView, ptr: u64, j: nat)
    requires j < SLOT_LIMIT
  {
    var w := ReadU64(bv, SlotAddr(ptr, j));
    w.Some? && !IsCodePtr(bv, w.value)
  }

  /** Runtime scan ends at slot `j`: the word does not read, or is not a code pointer. */
  predicate RuntimeStop(mem: LiveMemory, liveView: BinaryView, ptr: u64, j: nat)
    requires j < SLOT_LIMIT
  {
    var w := ReadU64Runtime(mem, SlotAddr(ptr, j));
    w.None? || !IsCodePtr(liveView, w.value)
  }

  function StaticSizeFrom(bv: BinaryView, ptr: u64, j: nat): Option<nat>
    decreases SLOT_LIMIT - j
  {
    if j >= SLOT_LIMIT then None
    else if StaticStop(bv, ptr, j) then Some(j)
    else StaticSizeFrom(bv, ptr, j + 1)
  }

  function RuntimeSizeFrom(mem: LiveMemory, liveView: BinaryView, ptr: u64, j: nat): Option<nat>
    decreases SLOT_LIMIT - j
  {
    if j >= SLOT_LIMIT then None
    else if RuntimeStop(mem, liveView, ptr, j) then Some(j)
    else RuntimeSizeFrom(mem, liveView, ptr, j + 1)
  }

  /** What static `determine_vtable_size` returns. */
  function StaticVtableSize(bv: BinaryView, ptr: u64): Option<nat> {
    StaticSizeFrom(bv, ptr, 0)
  }

  /** What `determine_vtable_size_runtime` returns. */
  function RuntimeVtableSize(mem: LiveMemory, liveView: BinaryView, ptr: u64): Option<nat> {
    RuntimeSizeFrom(mem, liveView, ptr, 0)
  }

  lemma {:induction false} StaticSizeFromSpec(bv: BinaryView, ptr: u64, j: nat)
    ensures var r := StaticSizeFrom(bv, ptr, j);
      && (r.Some? ==> j <= r.value < SLOT_LIMIT && StaticStop(bv, ptr, r.value)
                      && forall k :: j <= k < r.value ==> !StaticStop(bv, ptr, k))
      && (r.None? ==> forall k :: j <= k < SLOT_LIMIT ==> !StaticStop(bv, ptr, k))
    decreases SLOT_LIMIT - j
  {
    if j < SLOT_LIMIT && !StaticStop(bv, ptr, j) {
      StaticSizeFromSpec(bv, ptr, j + 1);
    }
  }

  lemma {:induction false} RuntimeSizeFromSpec(mem: LiveMemory, liveView: BinaryView, ptr: u64, j: nat)
    ensures var r := RuntimeSizeFrom(mem, liveView, ptr, j);
      && (r.Some? ==> j <= r.value < SLOT_LIMIT && RuntimeStop(mem, liveView, ptr, r.value)
                      && forall k :: j <= k < r.value ==> !RuntimeStop(mem, liveView, ptr, k))
      && (r.None? ==> forall k :: j <= k < SLOT_LIMIT ==> !RuntimeStop(mem, liveView, ptr, k))
    decreases SLOT_LIMIT - j
  {
    if j < SLOT_LIMIT && !RuntimeStop(mem, liveView, ptr, j) {
      RuntimeSizeFromSpec(mem, liveView, ptr, j + 1);
    }
  }

  /**
   * The static estimate is the first readable non-code slot, unreadable slots
   * before it skipped; `None` exactly when no slot below the bound is one.
   */
  lemma StaticVtableSizeSpec(bv: BinaryView, ptr: u64)
    ensures var r := StaticVtableSize(bv, ptr);
      && (r.Some? ==> r.value <= 1023 && StaticStop(bv, ptr, r.value)
                      && forall k :: 0 <= k < r.value ==> !StaticStop(bv, ptr, k))
      && (r.None? <==> forall k :: 0 <= k < SLOT_LIMIT ==> !StaticStop(bv, ptr, k))
  {
    StaticSizeFromSpec(bv, ptr, 0);
  }

  /**
   * The runtime estimate is the first slot that fails to read or is not a code
   * pointer; `None` exactly when all 1024 slots are readable code pointers.
   */
  lemma RuntimeVtableSizeSpec(mem: LiveMemory, liveView: BinaryView, ptr: u64)
    ensures var r := RuntimeVtableSize(mem, liveView, ptr);
      && (r.Some? ==> r.value <= 1023 && RuntimeStop(mem, liveView, ptr, r.value)
                      && forall k :: 0 <= k < r.value ==> !RuntimeStop(mem, liveView, ptr, k))
      && (r.None? <==> forall k :: 0 <= k < SLOT_LIMIT ==> !RuntimeStop(mem, liveView, ptr, k))
  {
    RuntimeSizeFromSpec(mem, liveView, ptr, 0);
  }

  /**
   * n valid method slots followed by a live word that is not a code pointer give
   * exactly n, whatever lies beyond.
   */
  lemma RuntimeSizeExact(mem: LiveMemory, liveView: BinaryView, ptr: u64, n: nat)
    requires n < SLOT_LIMIT
    requires forall k :: 0 <= k < n ==> !RuntimeStop(mem, liveView, ptr, k)
    requires RuntimeStop(mem, liveView, ptr, n)
    ensures RuntimeVtableSize(mem, liveView, ptr) == Some(n)
  {
    RuntimeVtableSizeSpec(mem, liveView, ptr);
  }

  /** An image in which no slot is readable gives no estimate at all. */
  lemma StaticSizeOfUnreadable(bv: BinaryView, ptr: u64)
    requires forall k :: 0 <= k < SLOT_LIMIT ==> ReadU64(bv, SlotAddr(ptr, k)).None?
    ensures StaticVtableSize(bv, ptr) == None
  {
    StaticVtableSizeSpec(bv, ptr);
  }

  /** `determine_vtable_size` (static image): a probe loop with early return. */
  method DetermineVtableSize(bv: BinaryView, ptr: u64) returns (r: Option<nat>)
    ensures r == StaticVtableSize(bv, ptr)
  {
    var i: nat := HEADER;
    ghost var j: nat := 0;
    while i < MAX_VTABLE_SIZE
      invariant i == HEADER + 8 * j && j <= SLOT_LIMIT
      invariant StaticSizeFrom(bv, ptr, j) == StaticVtableSize(bv, ptr)
      decreases MAX_VTABLE_SIZE - i
    {
      SlotOffset(ptr, i, j);
      var w := ReadU64(bv, WrappingAdd(ptr, i));
      if w.Some? {
        if !IsCodePtr(bv, w.value) {
          return Some((i - HEADER) / 8);
        }
      }
      i := i + 8;
      j := j + 1;
    }
    return None;
  }

  /** `determine_vtable_size_runtime`: live reads, the debugger view's sections. */
  method DetermineVtableSizeRuntime(mem: LiveMemory, liveView: BinaryView, ptr: u64) returns (r: Option<nat>)
    ensures r == RuntimeVtableSize(mem, liveView, ptr)
  {
    var i: nat := HEADER;
    ghost var j: nat := 0;
    while i < MAX_VTABLE_SIZE
      invariant i == HEADER + 8 * j && j <= SLOT_LIMIT
      invariant RuntimeSizeFrom(mem, liveView, ptr, j) == RuntimeVtableSize(mem, liveView, ptr)
      decreases MAX_VTABLE_SIZE - i
    {
      SlotOffset(ptr, i, j);
      match ReadU64Runtime(mem, WrappingAdd(ptr, i)) {
        case Some(w) =>
          if !IsCodePtr(liveView, w) {
            return Some((i - HEADER) / 8);
          }
        case None =>
          return Some((i - HEADER) / 8);
      }
      i := i + 8;
      j := j + 1;
    }
    return None;
  }
}
