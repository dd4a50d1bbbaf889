/**
 * Vtable detection in the stand-alone scanner: the Rust vtable layout
 * (drop pointer, size, align, then method pointers), the header validator,
 * the bounded method scans, neighbour-bounded sizing of a sorted address list
 * and the aligned candidate scan over an address range.
 */
module VtableUtils {
  import opened Wrappers
  import opened Words
  import opened Image

  /** `VTABLE_HEADER_SIZE`: drop + size + align. */
  const VTABLE_HEADER_SIZE: nat := 24
  /** Largest type size a header may claim. */
  const MAX_TYPE_SIZE: nat := 0x100000
  /** Largest alignment a header may claim. */
  const MAX_TYPE_ALIGN: nat := 4096
  /** Scan bound for the last vtable of a sorted list. */
  const LAST_VTABLE_BOUND: nat := 0x200

  datatype VtableInfo = VtableInfo(
    address: u64,
    size: nat,
    dropFn: u64,
    typeSize: u64,
    typeAlign: u64,
    methodCount: nat,
    methods: seq<u64>)
  {
    /** `has_drop` */
    predicate HasDrop() {
      dropFn != 0
    }

    /** `is_zst` */
    predicate IsZst() {
      typeSize == 0
    }
  }

  // ---------------------------------------------------------------------------
  // Bitwise AND and powers of two

  /** Bitwise AND of two naturals, bit by bit from the least significant. */
  function BitAnd(a: nat, b: nat): nat
    decreases a
  {
    if a == 0 || b == 0 then 0
    else 2 * BitAnd(a / 2, b / 2) + (if a % 2 == 1 && b % 2 == 1 then 1 else 0)
  }

  /** n is 2^k for some k. */
  predicate IsPow2(n: nat)
    decreases n
  {
    n == 1 || (n > 1 && n % 2 == 0 && IsPow2(n / 2))
  }

  lemma {:induction false} BitAndSelf(a: nat)
    ensures BitAnd(a, a) == a
    decreases a
  {
    if a > 0 {
      BitAndSelf(a / 2);
    }
  }

  /**
   * The header's alignment test: for a nonzero `x`, `x & (x - 1) == 0` holds
   * exactly when `x` is a power of two.
   */
  lemma {:induction false} BitAndPredecessor(x: nat)
    requires x >= 1
    ensures BitAnd(x, x - 1) == 0 <==> IsPow2(x)
    decreases x
  {
    if x == 1 {
    } else if x % 2 == 0 {
      assert (x - 1) / 2 == x / 2 - 1;
      BitAndPredecessor(x / 2);
    } else {
      assert (x - 1) / 2 == x / 2;
      BitAndSelf(x / 2);
      assert BitAnd(x, x - 1) == 2 * (x / 2);
    }
  }

  /** The three cases of the unit test on the alignment check. */
  lemma PowerOfTwoExamples()
    ensures BitAnd(1, 1 - 1) == 0
    ensures BitAnd(8, 8 - 1) == 0
    ensures BitAnd(3, 3 - 1) != 0
  {
    BitAndPredecessor(8);
    BitAndPredecessor(3);
  }

  // ---------------------------------------------------------------------------
  // Header validation

  /** The three header words describe a plausible vtable. */
  predicate WellFormedHeader(bv: BinaryView, dropFn: u64, size: u64, align: u64) {
    && (dropFn == 0 || IsCodePtr(bv, dropFn))
    && size <= MAX_TYPE_SIZE
    && 1 <= align <= MAX_TYPE_ALIGN && IsPow2(align)
  }

  /** `is_valid_vtable_header`, with its early returns and the bit test on `align`. */
  function IsValidVtableHeader(bv: BinaryView, addr: u64): (r: bool)
    ensures r <==>
      && ReadU64(bv, addr).Some?
      && ReadU64(bv, WrappingAdd(addr, 8)).Some?
      && ReadU64(bv, WrappingAdd(addr, 16)).Some?
      && WellFormedHeader(bv, ReadU64(bv, addr).value, ReadU64(bv, WrappingAdd(addr, 8)).value,
                          ReadU64(bv, WrappingAdd(addr, 16)).value)
  {
    match ReadU64(bv, addr)
    case None => false
    case Some(dropFn) =>
      match ReadU64(bv, WrappingAdd(addr, 8))
      case None => false
      case Some(size) =>
        match ReadU64(bv, WrappingAdd(addr, 16))
        case None => false
        case Some(align) =>
          if dropFn != 0 && !IsCodePtr(bv, dropFn) then false
          else if size > MAX_TYPE_SIZE then false
          else if align == 0 || align > MAX_TYPE_ALIGN then false
          else
            BitAndPredecessor(align);
            BitAnd(align, align - 1) == 0
  }

  // ---------------------------------------------------------------------------
  // Method slots below a bound

  /**
   * The method pointers read from `offset` on: consecutive readable code
   * pointers while `offset < maxSize`, the first failed read or non-code word
   * ending the run.
   */
  function MethodsFrom(bv: BinaryView, addr: u64, maxSize: u64, offset: nat): seq<u64>
    decreases maxSize - offset
  {
    if offset >= maxSize then []
    else match ReadU64(bv, WrappingAdd(addr, offset))
      case None => []
      case Some(p) => if IsCodePtr(bv, p) then [p] + MethodsFrom(bv, addr, maxSize, offset + 8) else []
  }

  /** The method pointers of the vtable at `addr`, scanned below `maxSize`. */
  function Methods(bv: BinaryView, addr: u64, maxSize: u64): seq<u64> {
    MethodsFrom(bv, addr, maxSize, VTABLE_HEADER_SIZE)
  }

  lemma SameOffset(addr: u64, x: u64, y: u64)
    requires x == y
    ensures WrappingAdd(addr, x) == WrappingAdd(addr, y)
  {
  }

  /** Slot `j` from `offset` on is the code pointer read at `addr + offset + 8j`, below the bound. */
  lemma {:induction false} MethodsFromAt(bv: BinaryView, addr: u64, maxSize: u64, offset: nat, j: nat)
    requires j < |MethodsFrom(bv, addr, maxSize, offset)|
    ensures offset + 8 * j < maxSize
    ensures ReadU64(bv, WrappingAdd(addr, offset + 8 * j)) == Some(MethodsFrom(bv, addr, maxSize, offset)[j])
    ensures IsCodePtr(bv, MethodsFrom(bv, addr, maxSize, offset)[j])
    decreases j
  {
    if j > 0 {
      MethodsFromAt(bv, addr, maxSize, offset + 8, j - 1);
      SameOffset(addr, offset + 8 * j, offset + 8 + 8 * (j - 1));
    }
  }

  /**
   * The run from `offset` ends at the bound or at a slot below it that fails to
   * read or is not a code pointer; it overshoots the bound by less than a slot.
   */
  lemma {:induction false} MethodsFromEnd(bv: BinaryView, addr: u64, maxSize: u64, offset: nat)
    ensures var n := |MethodsFrom(bv, addr, maxSize, offset)|;
      && (offset + 8 * n < maxSize ==>
            var w := ReadU64(bv, WrappingAdd(addr, offset + 8 * n));
            w.None? || !IsCodePtr(bv, w.value))
      && (offset < maxSize ==> offset + 8 * n < maxSize + 8)
      && (offset >= maxSize ==> n == 0)
    decreases maxSize - offset
  {
    if offset < maxSize {
      var w := ReadU64(bv, WrappingAdd(addr, offset));
      if w.Some? && IsCodePtr(bv, w.value) {
        var n := |MethodsFrom(bv, addr, maxSize, offset + 8)|;
        assert |MethodsFrom(bv, addr, maxSize, offset)| == n + 1;
        MethodsFromEnd(bv, addr, maxSize, offset + 8);
        if offset + 8 + 8 * n < maxSize {
          SameOffset(addr, offset + 8 * (n + 1), offset + 8 + 8 * n);
        }
      }
    }
  }

  /**
   * The methods of a vtable: slot j is the code pointer read at
   * `addr + 24 + 8j`, below the bound; the slot after the last one is below the
   * bound only if it fails to read or is not a code pointer.
   */
  lemma MethodsSpec(bv: BinaryView, addr: u64, maxSize: u64)
    ensures var ms := Methods(bv, addr, maxSize);
      && (forall j :: 0 <= j < |ms| ==>
            && VTABLE_HEADER_SIZE + 8 * j < maxSize
            && ReadU64(bv, WrappingAdd(addr, VTABLE_HEADER_SIZE + 8 * j)) == Some(ms[j])
            && IsCodePtr(bv, ms[j]))
      && (VTABLE_HEADER_SIZE + 8 * |ms| < maxSize ==>
            var w := ReadU64(bv, WrappingAdd(addr, VTABLE_HEADER_SIZE + 8 * |ms|));
            w.None? || !IsCodePtr(bv, w.value))
  {
    var ms := Methods(bv, addr, maxSize);
    forall j | 0 <= j < |ms|
      ensures VTABLE_HEADER_SIZE + 8 * j < maxSize
      ensures ReadU64(bv, WrappingAdd(addr, VTABLE_HEADER_SIZE + 8 * j)) == Some(ms[j])
      ensures IsCodePtr(bv, ms[j])
    {
      MethodsFromAt(bv, addr, maxSize, VTABLE_HEADER_SIZE, j);
    }
    MethodsFromEnd(bv, addr, maxSize, VTABLE_HEADER_SIZE);
  }

  /**
   * `get_vtable_size`: `offset` and `size` advance together over the readable
   * code-pointer slots below `maxSize`.
   */
  method GetVtableSize(bv: BinaryView, addr: u64, maxSize: u64) returns (size: nat)
    ensures size == VTABLE_HEADER_SIZE + 8 * |Methods(bv, addr, maxSize)|
    ensures maxSize <= VTABLE_HEADER_SIZE ==> size == VTABLE_HEADER_SIZE
    ensures maxSize > VTABLE_HEADER_SIZE ==> size < maxSize + 8
  {
    MethodsFromEnd(bv, addr, maxSize, VTABLE_HEADER_SIZE);
    size := VTABLE_HEADER_SIZE;
    var offset: nat := VTABLE_HEADER_SIZE;
    while offset < maxSize
      invariant size == offset
      invariant VTABLE_HEADER_SIZE + 8 * |Methods(bv, addr, maxSize)|
             == offset + 8 * |MethodsFrom(bv, addr, maxSize, offset)|
      decreases maxSize - offset
    {
      var w := ReadU64(bv, WrappingAdd(addr, offset));
      if w.None? {
        break;
      }
      if !IsCodePtr(bv, w.value) {
        break;
      }
      offset := offset + 8;
      size := offset;
    }
  }

  // ---------------------------------------------------------------------------
  // Parsing one vtable

  /** What `parse_vtable` returns. */
  function ParseVtableSpec(bv: BinaryView, addr: u64, maxSize: u64): Option<VtableInfo> {
    if !IsValidVtableHeader(bv, addr) then None
    else
      var ms := Methods(bv, addr, maxSize);
      Some(VtableInfo(addr, VTABLE_HEADER_SIZE + 8 * |ms|, ReadU64(bv, addr).value,
                      ReadU64(bv, WrappingAdd(addr, 8)).value, ReadU64(bv, WrappingAdd(addr, 16)).value,
                      |ms|, ms))
  }

  /** `parse_vtable`: validate the header, read it, then collect the methods. */
  method ParseVtable(bv: BinaryView, addr: u64, maxSize: u64) returns (r: Option<VtableInfo>)
    ensures r == ParseVtableSpec(bv, addr, maxSize)
  {
    if !IsValidVtableHeader(bv, addr) {
      return None;
    }
    var dropFn := ReadU64(bv, addr).value;
    var typeSize := ReadU64(bv, WrappingAdd(addr, 8)).value;
    var typeAlign := ReadU64(bv, WrappingAdd(addr, 16)).value;
    var methods := CollectMethods(bv, addr, maxSize);
    var size := VTABLE_HEADER_SIZE + |methods| * 8;
    return Some(VtableInfo(addr, size, dropFn, typeSize, typeAlign, |methods|, methods));
  }

  /** The method loop of `parse_vtable`: push each readable code pointer below the bound. */
  method CollectMethods(bv: BinaryView, addr: u64, maxSize: u64) returns (methods: seq<u64>)
    ensures methods == Methods(bv, addr, maxSize)
  {
    methods := [];
    var offset: nat := VTABLE_HEADER_SIZE;
    while offset < maxSize
      invariant methods + MethodsFrom(bv, addr, maxSize, offset) == Methods(bv, addr, maxSize)
      decreases maxSize - offset
    {
      var w := ReadU64(bv, WrappingAdd(addr, offset));
      if w.None? {
        break;
      }
      if !IsCodePtr(bv, w.value) {
        break;
      }
      assert MethodsFrom(bv, addr, maxSize, offset) == [w.value] + MethodsFrom(bv, addr, maxSize, offset + 8);
      methods := methods + [w.value];
      offset := offset + 8;
    }
    assert MethodsFrom(bv, addr, maxSize, offset) == [];
  }

  /**
   * A parsed vtable: `None` exactly for an invalid header; otherwise it is at
   * `addr`, its size is the header plus 8 bytes per method (the same as
   * `get_vtable_size`), each method is the code pointer in its slot, a drop
   * function is a code pointer, the type size is bounded and the alignment is a
   * power of two, and the type is zero-sized exactly when the size word is 0.
   */
  lemma ParseVtableSpecFacts(bv: BinaryView, addr: u64, maxSize: u64)
    ensures var r := ParseVtableSpec(bv, addr, maxSize);
      && (r.None? <==> !IsValidVtableHeader(bv, addr))
      && (r.Some? ==>
            && r.value.address == addr
            && r.value.methodCount == |r.value.methods|
            && r.value.size == VTABLE_HEADER_SIZE + 8 * r.value.methodCount
            && r.value.methods == Methods(bv, addr, maxSize)
            && (forall j :: 0 <= j < r.value.methodCount ==>
                  && VTABLE_HEADER_SIZE + 8 * j < maxSize
                  && ReadU64(bv, WrappingAdd(addr, VTABLE_HEADER_SIZE + 8 * j)) == Some(r.value.methods[j])
                  && IsCodePtr(bv, r.value.methods[j]))
            && (r.value.HasDrop() ==> IsCodePtr(bv, r.value.dropFn))
            && r.value.typeSize <= MAX_TYPE_SIZE
            && 1 <= r.value.typeAlign <= MAX_TYPE_ALIGN && IsPow2(r.value.typeAlign)
            && (r.value.IsZst() <==> ReadU64(bv, WrappingAdd(addr, 8)) == Some(0)))
  {
    MethodsSpec(bv, addr, maxSize);
  }

  // ---------------------------------------------------------------------------
  // Sorting and neighbour-bounded sizing

  predicate Sorted(s: seq<u64>) {
    forall m, n :: 0 <= m < n < |s| ==> s[m] <= s[n]
  }

  /** `x` inserted before the first element not below it. */
  function Insert(x: u64, s: seq<u64>): seq<u64> {
    if s == [] || x <= s[0] then [x] + s else [s[0]] + Insert(x, s[1..])
  }

  /** The ascending arrangement of a list of addresses. */
  function SortU64(s: seq<u64>): seq<u64> {
    if s == [] then [] else Insert(s[0], SortU64(s[1..]))
  }

  lemma {:induction false} InsertPerm(x: u64, s: seq<u64>)
    ensures multiset(Insert(x, s)) == multiset{x} + multiset(s)
  {
    if s != [] && x > s[0] {
      InsertPerm(x, s[1..]);
      assert s == [s[0]] + s[1..];
    }
  }

  /** A lower bound of `x` and of all of `s` bounds `Insert(x, s)`. */
  lemma {:induction false} InsertLowerBound(x: u64, s: seq<u64>, b: u64)
    requires b <= x && forall k :: 0 <= k < |s| ==> b <= s[k]
    ensures forall k :: 0 <= k < |Insert(x, s)| ==> b <= Insert(x, s)[k]
  {
    if s != [] && x > s[0] {
      InsertLowerBound(x, s[1..], b);
      var r := Insert(x, s);
      assert r == [s[0]] + Insert(x, s[1..]);
      forall k | 0 <= k < |r| ensures b <= r[k] {
        if k > 0 {
          assert r[k] == Insert(x, s[1..])[k - 1];
        }
      }
    }
  }

  lemma {:induction false} InsertSorted(x: u64, s: seq<u64>)
    requires Sorted(s)
    ensures Sorted(Insert(x, s))
  {
    if s != [] && x > s[0] {
      InsertSorted(x, s[1..]);
      InsertLowerBound(x, s[1..], s[0]);
      var t := Insert(x, s[1..]);
      var r := Insert(x, s);
      assert r == [s[0]] + t;
      forall m, n | 0 <= m < n < |r| ensures r[m] <= r[n] {
        assert r[n] == t[n - 1];
        if m > 0 {
          assert r[m] == t[m - 1];
        }
      }
    }
  }

  /** Sorting yields an ascending permutation of its input. */
  lemma {:induction false} SortU64Spec(s: seq<u64>)
    ensures Sorted(SortU64(s))
    ensures multiset(SortU64(s)) == multiset(s)
  {
    if s != [] {
      SortU64Spec(s[1..]);
      InsertSorted(s[0], SortU64(s[1..]));
      InsertPerm(s[0], SortU64(s[1..]));
      assert s == [s[0]] + s[1..];
    }
  }

  /** Two ascending arrangements of the same elements are equal. */
  lemma {:induction false} SortedUnique(a: seq<u64>, b: seq<u64>)
    requires Sorted(a) && Sorted(b)
    requires multiset(a) == multiset(b)
    ensures a == b
  {
    assert |a| == |multiset(a)| == |multiset(b)| == |b|;
    if a != [] {
      SortedHeads(a, b);
      TailMultiset(a);
      TailMultiset(b);
      assert Sorted(a[1..]) && Sorted(b[1..]);
      SortedUnique(a[1..], b[1..]);
      assert a == [a[0]] + a[1..];
      assert b == [b[0]] + b[1..];
    }
  }

  /** Two non-empty ascending arrangements of the same elements start alike. */
  lemma SortedHeads(a: seq<u64>, b: seq<u64>)
    requires Sorted(a) && Sorted(b) && a != [] && b != []
    requires multiset(a) == multiset(b)
    ensures a[0] == b[0]
  {
    assert a[0] in multiset(b);
    var i :| 0 <= i < |b| && b[i] == a[0];
    assert b[0] in multiset(a);
    var k :| 0 <= k < |a| && a[k] == b[0];
    assert a[0] <= a[k] && b[0] <= b[i];
  }

  lemma TailMultiset(a: seq<u64>)
    requires a != []
    ensures multiset(a[1..]) == multiset(a) - multiset{a[0]}
  {
    assert a == [a[0]] + a[1..];
  }

  /** `sort_unstable` on the address buffer: insertion by adjacent swaps. */
  method SortUnstable(a: array<u64>)
    modifies a
    ensures Sorted(a[..])
    ensures multiset(a[..]) == multiset(old(a[..]))
  {
    var i := 0;
    while i < a.Length
      invariant 0 <= i <= a.Length
      invariant Sorted(a[..i])
      invariant multiset(a[..]) == multiset(old(a[..]))
    {
      InsertLast(a, i);
      i := i + 1;
    }
    assert a[..a.Length] == a[..];
  }

  /** Moves `a[i]` down into the sorted prefix `a[..i]`. */
  method InsertLast(a: array<u64>, i: nat)
    requires i < a.Length
    requires Sorted(a[..i])
    modifies a
    ensures Sorted(a[..i + 1])
    ensures multiset(a[..]) == multiset(old(a[..]))
    ensures a[i + 1..] == old(a[i + 1..])
  {
    var j := i;
    while j > 0 && a[j - 1] > a[j]
      invariant 0 <= j <= i
      invariant forall m, n :: 0 <= m < n <= i && m != j && n != j ==> a[m] <= a[n]
      invariant forall n :: j < n <= i ==> a[j] < a[n]
      invariant multiset(a[..]) == multiset(old(a[..]))
      invariant forall k :: i < k < a.Length ==> a[k] == old(a[k])
    {
      SwapDown(a, j);
      j := j - 1;
    }
  }

  /** Exchanges `a[j - 1]` and `a[j]`, leaving every other slot alone. */
  method SwapDown(a: array<u64>, j: nat)
    requires 0 < j < a.Length
    modifies a
    ensures a[j - 1] == old(a[j]) && a[j] == old(a[j - 1])
    ensures forall k :: 0 <= k < a.Length && k != j - 1 && k != j ==> a[k] == old(a[k])
    ensures multiset(a[..]) == multiset(old(a[..]))
  {
    a[j - 1], a[j] := a[j], a[j - 1];
  }

  /** Scan bound for the `i`-th sorted address: the gap to the next one, or 0x200 for the last. */
  function NeighbourBound(sorted: seq<u64>, i: nat): (b: u64)
    requires Sorted(sorted) && i < |sorted|
    ensures i + 1 < |sorted| ==> sorted[i] + b == sorted[i + 1]
    ensures i + 1 == |sorted| ==> b == LAST_VTABLE_BOUND
  {
    if i + 1 < |sorted| then sorted[i + 1] - sorted[i] else LAST_VTABLE_BOUND
  }

  /** The vtables parsed from the first `n` sorted addresses, each with its neighbour bound. */
  function SizesUpTo(bv: BinaryView, sorted: seq<u64>, n: nat): seq<VtableInfo>
    requires Sorted(sorted) && n <= |sorted|
  {
    if n == 0 then []
    else
      SizesUpTo(bv, sorted, n - 1)
      + match ParseVtableSpec(bv, sorted[n - 1], NeighbourBound(sorted, n - 1))
        case Some(info) => [info]
        case None => []
  }

  /** What `compute_vtable_sizes` returns. */
  function ComputeVtableSizesSpec(bv: BinaryView, addrs: seq<u64>): seq<VtableInfo> {
    if addrs == [] then []
    else
      SortU64Spec(addrs);
      var sorted := SortU64(addrs);
      SizesUpTo(bv, sorted, |sorted|)
  }

  /** `compute_vtable_sizes`: copy, sort in place, then parse each address under its bound. */
  method ComputeVtableSizes(bv: BinaryView, addrs: seq<u64>) returns (results: seq<VtableInfo>)
    ensures results == ComputeVtableSizesSpec(bv, addrs)
  {
    if |addrs| == 0 {
      return [];
    }
    var buf := new u64[|addrs|](k requires 0 <= k < |addrs| => addrs[k]);
    assert buf[..] == addrs;
    SortUnstable(buf);
    SortU64Spec(addrs);
    SortedUnique(buf[..], SortU64(addrs));
    results := ParseEach(bv, buf[..]);
  }

  /** The loop of `compute_vtable_sizes` over the sorted addresses. */
  method ParseEach(bv: BinaryView, sorted: seq<u64>) returns (results: seq<VtableInfo>)
    requires Sorted(sorted)
    ensures results == SizesUpTo(bv, sorted, |sorted|)
  {
    results := [];
    var i := 0;
    while i < |sorted|
      invariant 0 <= i <= |sorted|
      invariant results == SizesUpTo(bv, sorted, i)
    {
      var addr := sorted[i];
      var maxSize: u64 := if i + 1 < |sorted| then sorted[i + 1] - addr else LAST_VTABLE_BOUND;
      var info := ParseVtable(bv, addr, maxSize);
      if info.Some? {
        results := results + [info.value];
      }
      i := i + 1;
    }
  }

  /** Each of the first `n` results is the parse of one of the first `n` sorted addresses under its bound. */
  lemma {:induction false} SizesUpToOrigin(bv: BinaryView, sorted: seq<u64>, n: nat)
    requires Sorted(sorted) && n <= |sorted|
    ensures var r := SizesUpTo(bv, sorted, n);
      && |r| <= n
      && (forall k :: 0 <= k < |r| ==>
            exists i :: 0 <= i < n && sorted[i] == r[k].address
                        && ParseVtableSpec(bv, sorted[i], NeighbourBound(sorted, i)) == Some(r[k]))
  {
    if n > 0 {
      SizesUpToOrigin(bv, sorted, n - 1);
      var prev := SizesUpTo(bv, sorted, n - 1);
      var p := ParseVtableSpec(bv, sorted[n - 1], NeighbourBound(sorted, n - 1));
      var r := SizesUpTo(bv, sorted, n);
      assert r == prev + (if p.Some? then [p.value] else []);
      forall k | 0 <= k < |r|
        ensures exists i :: 0 <= i < n && sorted[i] == r[k].address
                            && ParseVtableSpec(bv, sorted[i], NeighbourBound(sorted, i)) == Some(r[k])
      {
        if k < |prev| {
          assert r[k] == prev[k];
        } else {
          assert r[k] == p.value && sorted[n - 1] == r[k].address;
        }
      }
    }
  }

  /** No result lies above address `b`. */
  predicate AllAtMost(r: seq<VtableInfo>, b: u64) {
    forall k :: 0 <= k < |r| ==> r[k].address <= b
  }

  /** The first `n` results are in ascending address order, none above `sorted[n - 1]`. */
  lemma {:induction false} SizesUpToOrder(bv: BinaryView, sorted: seq<u64>, n: nat)
    requires Sorted(sorted) && n <= |sorted|
    ensures var r := SizesUpTo(bv, sorted, n);
      && (forall k, l :: 0 <= k < l < |r| ==> r[k].address <= r[l].address)
      && (n > 0 ==> AllAtMost(r, sorted[n - 1]))
  {
    if n > 0 {
      SizesUpToOrder(bv, sorted, n - 1);
      var prev := SizesUpTo(bv, sorted, n - 1);
      var p := ParseVtableSpec(bv, sorted[n - 1], NeighbourBound(sorted, n - 1));
      var r := SizesUpTo(bv, sorted, n);
      assert r == prev + (if p.Some? then [p.value] else []);
      assert p.Some? ==> p.value.address == sorted[n - 1];
      if n == 1 {
        assert prev == [];
      } else {
        assert AllAtMost(prev, sorted[n - 2]);
        assert sorted[n - 2] <= sorted[n - 1];
      }
      assert AllAtMost(prev, sorted[n - 1]);
      forall k | 0 <= k < |r| ensures r[k].address <= sorted[n - 1] {
        if k < |prev| {
          assert r[k] == prev[k];
        } else {
          assert r[k] == p.value;
        }
      }
      forall k, l | 0 <= k < l < |r| ensures r[k].address <= r[l].address {
        assert r[k] == prev[k];
        if l < |prev| {
          assert r[l] == prev[l];
        } else {
          assert r[l] == p.value;
        }
      }
    }
  }

  /** Some result is for address `a`. */
  predicate HasResultFor(r: seq<VtableInfo>, a: u64) {
    exists k :: 0 <= k < |r| && r[k].address == a
  }

  /** Every one of the first `n` sorted addresses with a valid header has a result. */
  lemma {:induction false} SizesUpToComplete(bv: BinaryView, sorted: seq<u64>, n: nat)
    requires Sorted(sorted) && n <= |sorted|
    ensures forall i :: 0 <= i < n && IsValidVtableHeader(bv, sorted[i]) ==>
      HasResultFor(SizesUpTo(bv, sorted, n), sorted[i])
  {
    if n > 0 {
      SizesUpToComplete(bv, sorted, n - 1);
      var prev := SizesUpTo(bv, sorted, n - 1);
      var p := ParseVtableSpec(bv, sorted[n - 1], NeighbourBound(sorted, n - 1));
      var r := SizesUpTo(bv, sorted, n);
      assert r == prev + (if p.Some? then [p.value] else []);
      forall i | 0 <= i < n && IsValidVtableHeader(bv, sorted[i])
        ensures HasResultFor(r, sorted[i])
      {
        if i < n - 1 {
          assert HasResultFor(prev, sorted[i]);
          var k :| 0 <= k < |prev| && prev[k].address == sorted[i];
          assert r[k] == prev[k];
        } else {
          assert p.Some? && p.value.address == sorted[i];
          assert r[|r| - 1] == p.value;
        }
      }
    }
  }

  /**
   * `compute_vtable_sizes`: empty in, empty out; no more results than
   * addresses; results in ascending address order, each the parse of an input
   * address under its neighbour bound; and every input address with a valid
   * header has a result.
   */
  lemma ComputeVtableSizesFacts(bv: BinaryView, addrs: seq<u64>)
    ensures addrs == [] ==> ComputeVtableSizesSpec(bv, addrs) == []
    ensures var r := ComputeVtableSizesSpec(bv, addrs);
      && |r| <= |addrs|
      && (forall k :: 0 <= k < |r| ==> r[k].address in addrs)
      && (forall k, l :: 0 <= k < l < |r| ==> r[k].address <= r[l].address)
      && (forall a :: a in addrs && IsValidVtableHeader(bv, a) ==> exists k :: 0 <= k < |r| && r[k].address == a)
  {
    if addrs != [] {
      SortU64Spec(addrs);
      var sorted := SortU64(addrs);
      assert |sorted| == |addrs| by {
        assert |multiset(sorted)| == |multiset(addrs)|;
      }
      SizesUpToOrigin(bv, sorted, |sorted|);
      SizesUpToOrder(bv, sorted, |sorted|);
      SizesUpToComplete(bv, sorted, |sorted|);
      var r := ComputeVtableSizesSpec(bv, addrs);
      forall k | 0 <= k < |r| ensures r[k].address in addrs {
        var i :| 0 <= i < |sorted| && sorted[i] == r[k].address
                 && ParseVtableSpec(bv, sorted[i], NeighbourBound(sorted, i)) == Some(r[k]);
        assert sorted[i] in multiset(addrs);
      }
      forall a | a in addrs && IsValidVtableHeader(bv, a)
        ensures exists k :: 0 <= k < |r| && r[k].address == a
      {
        assert a in multiset(sorted);
        var i :| 0 <= i < |sorted| && sorted[i] == a;
        assert HasResultFor(r, sorted[i]);
      }
    }
  }

  // ---------------------------------------------------------------------------
  // Candidate scan

  /** `(addr + 7) & !7`: the first multiple of 8 at or above `x`. */
  function AlignUp8(x: nat): (r: nat)
    ensures r % 8 == 0 && x <= r < x + 8
  {
    (x + 7) - (x + 7) % 8
  }

  /** A valid header followed by a code pointer in the first method slot. */
  predicate IsVtableCandidate(bv: BinaryView, addr: u64) {
    && IsValidVtableHeader(bv, addr)
    && var first := ReadU64(bv, WrappingAdd(addr, VTABLE_HEADER_SIZE));
       first.Some? && IsCodePtr(bv, first.value)
  }

  /** The candidates found from cursor `addr` on: 24 bytes skipped after a hit, 8 otherwise. */
  function ScanFrom(bv: BinaryView, addr: nat, end: u64): seq<u64>
    decreases end - addr
  {
    if addr + VTABLE_HEADER_SIZE > end then []
    else if IsVtableCandidate(bv, addr) then [addr as u64] + ScanFrom(bv, addr + VTABLE_HEADER_SIZE, end)
    else ScanFrom(bv, addr + 8, end)
  }

  /** What `scan_for_vtables` returns. */
  function ScanForVtablesSpec(bv: BinaryView, start: u64, end: u64): seq<u64> {
    ScanFrom(bv, AlignUp8(start), end)
  }

  /**
   * `scan_for_vtables`. Its cursor arithmetic is unchecked `u64` addition, so
   * the range must leave room for the alignment round-up and the header.
   */
  method ScanForVtables(bv: BinaryView, start: u64, end: u64) returns (candidates: seq<u64>)
    requires start + 7 < U64_LIMIT
    requires end + VTABLE_HEADER_SIZE < U64_LIMIT
    ensures candidates == ScanForVtablesSpec(bv, start, end)
  {
    candidates := [];
    var addr: nat := AlignUp8(start);
    while addr + VTABLE_HEADER_SIZE <= end
      invariant candidates + ScanFrom(bv, addr, end) == ScanForVtablesSpec(bv, start, end)
      decreases end - addr
    {
      if IsValidVtableHeader(bv, addr) {
        var first := ReadU64(bv, WrappingAdd(addr, VTABLE_HEADER_SIZE));
        if first.Some? {
          if IsCodePtr(bv, first.value) {
            candidates := candidates + [addr as u64];
            addr := addr + VTABLE_HEADER_SIZE;
            continue;
          }
        }
      }
      addr := addr + 8;
    }
  }

  /** Every address in `r` is aligned and its header lies in `[lo, end)`. */
  predicate AlignedIn(r: seq<u64>, lo: nat, end: u64) {
    forall k :: 0 <= k < |r| ==> r[k] % 8 == 0 && lo <= r[k] && r[k] + VTABLE_HEADER_SIZE <= end
  }

  /** Every address in `r` passes the candidate test. */
  predicate AllCandidates(bv: BinaryView, r: seq<u64>) {
    forall k :: 0 <= k < |r| ==> IsVtableCandidate(bv, r[k])
  }

  /** Successive addresses in `r` are at least a header apart. */
  predicate Spaced(r: seq<u64>) {
    forall k, l :: 0 <= k < l < |r| ==> r[k] + VTABLE_HEADER_SIZE <= r[l]
  }

  /** Candidates found from an aligned cursor are aligned and lie between the cursor and `end - 24`. */
  lemma {:induction false} ScanFromBounds(bv: BinaryView, addr: nat, end: u64)
    requires addr % 8 == 0
    ensures AlignedIn(ScanFrom(bv, addr, end), addr, end)
    decreases end - addr
  {
    if addr + VTABLE_HEADER_SIZE <= end {
      var r := ScanFrom(bv, addr, end);
      var hit := IsVtableCandidate(bv, addr);
      var next := if hit then addr + VTABLE_HEADER_SIZE else addr + 8;
      var rest := ScanFrom(bv, next, end);
      ScanFromBounds(bv, next, end);
      assert r == (if hit then [addr as u64] else []) + rest;
      forall k | 0 <= k < |r|
        ensures r[k] % 8 == 0 && addr <= r[k] && r[k] + VTABLE_HEADER_SIZE <= end
      {
        if hit && k == 0 {
          assert r[k] == addr;
        } else {
          assert r[k] == rest[if hit then k - 1 else k];
        }
      }
    }
  }

  /** Everything the scan reports passes the candidate test. */
  lemma {:induction false} ScanFromCandidates(bv: BinaryView, addr: nat, end: u64)
    ensures AllCandidates(bv, ScanFrom(bv, addr, end))
    decreases end - addr
  {
    if addr + VTABLE_HEADER_SIZE <= end {
      var r := ScanFrom(bv, addr, end);
      var hit := IsVtableCandidate(bv, addr);
      var next := if hit then addr + VTABLE_HEADER_SIZE else addr + 8;
      var rest := ScanFrom(bv, next, end);
      ScanFromCandidates(bv, next, end);
      assert r == (if hit then [addr as u64] else []) + rest;
      forall k | 0 <= k < |r|
        ensures IsVtableCandidate(bv, r[k])
      {
        if hit && k == 0 {
          assert r[k] == addr;
        } else {
          assert r[k] == rest[if hit then k - 1 else k];
        }
      }
    }
  }

  /** Successive candidates are at least a header apart. */
  lemma {:induction false} ScanFromSpacing(bv: BinaryView, addr: nat, end: u64)
    requires addr % 8 == 0
    ensures Spaced(ScanFrom(bv, addr, end))
    decreases end - addr
  {
    if addr + VTABLE_HEADER_SIZE <= end {
      var r := ScanFrom(bv, addr, end);
      var hit := IsVtableCandidate(bv, addr);
      var next := if hit then addr + VTABLE_HEADER_SIZE else addr + 8;
      var rest := ScanFrom(bv, next, end);
      ScanFromSpacing(bv, next, end);
      ScanFromBounds(bv, next, end);
      if hit {
        assert r == [addr as u64] + rest;
        SpacedCons(addr as u64, rest, next, end);
      } else {
        assert r == rest;
      }
    }
  }

  /** Prepending an address a header below an aligned, spaced tail keeps it spaced. */
  lemma SpacedCons(x: u64, rest: seq<u64>, lo: nat, end: u64)
    requires Spaced(rest) && AlignedIn(rest, lo, end)
    requires x + VTABLE_HEADER_SIZE <= lo
    ensures Spaced([x] + rest)
  {
    var r := [x] + rest;
    forall k, l | 0 <= k < l < |r| ensures r[k] + VTABLE_HEADER_SIZE <= r[l] {
      assert r[l] == rest[l - 1];
      if k > 0 {
        assert r[k] == rest[k - 1];
      }
    }
  }

  /** Address `a` is the start of a found candidate or lies inside its skipped header. */
  predicate Covered(r: seq<u64>, a: u64) {
    a in r || exists k :: 0 <= k < |r| && r[k] < a < r[k] + VTABLE_HEADER_SIZE
  }

  /** A hit at `x` covers its own header, and keeps covered what the rest covers. */
  lemma CoveredCons(x: u64, rest: seq<u64>, a: u64)
    requires Covered(rest, a) || x <= a < x + VTABLE_HEADER_SIZE
    ensures Covered([x] + rest, a)
  {
    var r := [x] + rest;
    if x <= a < x + VTABLE_HEADER_SIZE {
      assert r[0] == x;
    } else if a in rest {
      assert a in r;
    } else {
      var k :| 0 <= k < |rest| && rest[k] < a < rest[k] + VTABLE_HEADER_SIZE;
      assert r[k + 1] == rest[k];
    }
  }

  /** The same cursor walk for an arbitrary candidate test `hit`. */
  function ScanWith(hit: u64 -> bool, addr: nat, end: u64): seq<u64>
    decreases end - addr
  {
    if addr + VTABLE_HEADER_SIZE > end then []
    else if hit(addr as u64) then [addr as u64] + ScanWith(hit, addr + VTABLE_HEADER_SIZE, end)
    else ScanWith(hit, addr + 8, end)
  }

  lemma {:induction false} ScanFromIsScanWith(bv: BinaryView, addr: nat, end: u64)
    ensures ScanFrom(bv, addr, end) == ScanWith((x: u64) => IsVtableCandidate(bv, x), addr, end)
    decreases end - addr
  {
    if addr + VTABLE_HEADER_SIZE <= end {
      ScanFromIsScanWith(bv, addr + VTABLE_HEADER_SIZE, end);
      ScanFromIsScanWith(bv, addr + 8, end);
    }
  }

  /** An aligned candidate `a` at or after the cursor is found or covered by an earlier hit. */
  lemma {:induction false} ScanWithCovers(hit: u64 -> bool, addr: nat, end: u64, a: u64)
    requires addr % 8 == 0 && a % 8 == 0
    requires addr <= a && a + VTABLE_HEADER_SIZE <= end && hit(a)
    ensures Covered(ScanWith(hit, addr, end), a)
    decreases end - addr
  {
    if hit(addr as u64) {
      var next := addr + VTABLE_HEADER_SIZE;
      if next <= a {
        assert next % 8 == 0;
        ScanWithCovers(hit, next, end, a);
      }
      CoveredCons(addr as u64, ScanWith(hit, next, end), a);
    } else {
      assert addr + 8 <= a;
      ScanWithCovers(hit, addr + 8, end, a);
    }
  }

  /** Every aligned candidate from the cursor on is found or covered by an earlier hit. */
  lemma ScanFromComplete(bv: BinaryView, addr: nat, end: u64)
    requires addr % 8 == 0
    ensures forall a: u64 ::
      (addr <= a && a + VTABLE_HEADER_SIZE <= end && a % 8 == 0 && IsVtableCandidate(bv, a)) ==>
      Covered(ScanFrom(bv, addr, end), a)
  {
    ScanFromIsScanWith(bv, addr, end);
    forall a: u64 | addr <= a && a + VTABLE_HEADER_SIZE <= end && a % 8 == 0 && IsVtableCandidate(bv, a)
      ensures Covered(ScanFrom(bv, addr, end), a)
    {
      ScanWithCovers((x: u64) => IsVtableCandidate(bv, x), addr, end, a);
    }
  }

  /**
   * `scan_for_vtables`: 8-aligned candidates in `[AlignUp8(start), end - 24]`,
   * each a valid header with a code pointer at `+24`, increasing by at least the
   * 24-byte skip; and every aligned candidate in range is found unless it lies
   * inside the skipped header of an earlier hit.
   */
  lemma ScanForVtablesFacts(bv: BinaryView, start: u64, end: u64)
    ensures var r := ScanForVtablesSpec(bv, start, end);
      && AlignedIn(r, AlignUp8(start), end)
      && AllCandidates(bv, r)
      && Spaced(r)
      && (forall a: u64 ::
            (AlignUp8(start) <= a && a + VTABLE_HEADER_SIZE <= end && a % 8 == 0 && IsVtableCandidate(bv, a)) ==>
            Covered(r, a))
  {
    ScanFromBounds(bv, AlignUp8(start), end);
    ScanFromCandidates(bv, AlignUp8(start), end);
    ScanFromSpacing(bv, AlignUp8(start), end);
    ScanFromComplete(bv, AlignUp8(start), end);
  }
}
