/**
 * The static image and the live process as the core sees them: readable bytes,
 * the section table, and the two 8-byte little-endian word reads
 * (`read_u64` on the image, `read_u64_runtime` through the debugger), plus the
 * code-pointer classifier `is_code_ptr`.
 */
module Image {
  import opened Wrappers
  import opened Words

  /** Section semantics as the binary loader reports them. */
  datatype Semantics = DefaultSection | ReadOnlyCode | ReadOnlyData | ReadWriteData | External

  datatype Section = Section(start: u64, len: u64, semantics: Semantics)

  /**
   * A binary view: the bytes it can read (an address absent from `bytes` is
   * unreadable) and its sections in the order the loader lists them.
   */
  datatype BinaryView = BinaryView(bytes: map<u64, u8>, sections: seq<Section>)

  /**
   * The live process as seen through `read_memory(addr, 8)`: an address maps to
   * the bytes the debugger returns for an 8-byte request there; an absent
   * address is a read that returns `None`.
   */
  type LiveMemory = map<u64, seq<u8>>

  predicate Readable(bv: BinaryView, a: int) {
    0 <= a < U64_LIMIT && a in bv.bytes
  }

  /** `bv.read(&mut buf, addr)` with a buffer of `n` bytes: the readable bytes from `addr` on. */
  function ReadBytes(bv: BinaryView, addr: nat, n: nat): (r: seq<u8>)
    ensures |r| <= n
    decreases n
  {
    if n == 0 || !Readable(bv, addr) then []
    else [bv.bytes[addr]] + ReadBytes(bv, addr + 1, n - 1)
  }

  /**
   * The bytes read are the image's bytes from `addr` on, and a short read stops
   * at the first unreadable address.
   */
  lemma {:induction false} ReadBytesSpec(bv: BinaryView, addr: nat, n: nat)
    ensures var r := ReadBytes(bv, addr, n);
      && (forall a :: addr <= a < addr + |r| ==> Readable(bv, a) && bv.bytes[a] == r[a - addr])
      && (|r| < n ==> !Readable(bv, addr + |r|))
    decreases n
  {
    if n > 0 && Readable(bv, addr) {
      ReadBytesSpec(bv, addr + 1, n - 1);
    }
  }

  /**
   * The little-endian value of the `n` bytes from `addr` on, when all of them
   * are readable.
   */
  function ReadLe(bv: BinaryView, addr: nat, n: nat): Option<nat>
    decreases n
  {
    if n == 0 then Some(0)
    else if !Readable(bv, addr) then None
    else match ReadLe(bv, addr + 1, n - 1)
      case None => None
      case Some(v) => Some(bv.bytes[addr] + 256 * v)
  }

  /** `read_u64`: the word at `addr` when `bv.read` fills all 8 bytes of the buffer. */
  function ReadU64(bv: BinaryView, addr: u64): Option<u64> {
    ReadLeBound(bv, addr, 8);
    Pow256Eight();
    match ReadLe(bv, addr, 8)
    case None => None
    case Some(v) => Some(v)
  }

  /** `n` bytes hold a value below 256^n. */
  lemma {:induction false} ReadLeBound(bv: BinaryView, addr: nat, n: nat)
    ensures ReadLe(bv, addr, n).Some? ==> ReadLe(bv, addr, n).value < Pow256(n)
    decreases n
  {
    if n > 0 {
      ReadLeBound(bv, addr + 1, n - 1);
    }
  }

  /** Reading `n` bytes at once succeeds exactly when the buffer read comes back full, with its value. */
  lemma {:induction false} ReadLeOfBytes(bv: BinaryView, addr: nat, n: nat)
    ensures ReadLe(bv, addr, n).Some? <==> |ReadBytes(bv, addr, n)| == n
    ensures ReadLe(bv, addr, n).Some? ==> ReadLe(bv, addr, n).value == LeValue(ReadBytes(bv, addr, n))
    decreases n
  {
    if n > 0 && Readable(bv, addr) {
      ReadLeOfBytes(bv, addr + 1, n - 1);
      var buf := ReadBytes(bv, addr, n);
      assert buf[1..] == ReadBytes(bv, addr + 1, n - 1);
    }
  }

  /**
   * `read_u64` is `bv.read` into an 8-byte buffer followed by
   * `u64::from_le_bytes`: a word exactly when all 8 bytes are readable, and
   * then those bytes are the little-endian encoding of the word.
   */
  lemma ReadU64Spec(bv: BinaryView, addr: u64)
    ensures ReadU64(bv, addr).Some? <==> |ReadBytes(bv, addr, 8)| == 8
    ensures ReadU64(bv, addr).Some? ==> ReadU64(bv, addr).value == FromLeBytes(ReadBytes(bv, addr, 8))
    ensures ReadU64(bv, addr).Some? <==> forall a :: addr <= a < addr + 8 ==> Readable(bv, a)
    ensures ReadU64(bv, addr).Some? ==>
      forall a :: addr <= a < addr + 8 ==> Readable(bv, a) && bv.bytes[a] == LeBytes(ReadU64(bv, addr).value, 8)[a - addr]
  {
    var buf := ReadBytes(bv, addr, 8);
    ReadLeOfBytes(bv, addr, 8);
    ReadBytesSpec(bv, addr, 8);
    if |buf| == 8 {
      FromLeBytesSpec(buf);
    }
    if |buf| < 8 {
      assert !Readable(bv, addr + |buf|);
    }
  }

  /** `read_u64_runtime`: a word only when the debugger returns exactly 8 bytes. */
  function ReadU64Runtime(mem: LiveMemory, addr: u64): (r: Option<u64>)
    ensures r.Some? <==> addr in mem && |mem[addr]| == 8
  {
    if addr in mem && |mem[addr]| == 8 then Some(FromLeBytes(mem[addr])) else None
  }

  /** A live word is the little-endian reading of the 8 bytes the debugger returned. */
  lemma ReadU64RuntimeSpec(mem: LiveMemory, addr: u64)
    ensures ReadU64Runtime(mem, addr).Some? ==> LeBytes(ReadU64Runtime(mem, addr).value, 8) == mem[addr]
  {
    if addr in mem && |mem[addr]| == 8 {
      FromLeBytesSpec(mem[addr]);
    }
  }

  predicate Contains(s: Section, ptr: u64) {
    s.start <= ptr < s.start + s.len
  }

  /**
   * The section loop of `is_code_ptr`: the first section, in table order, that
   * contains `ptr` decides; no containing section means no.
   */
  function FirstContainingIsCode(sections: seq<Section>, ptr: u64): bool {
    if |sections| == 0 then false
    else if Contains(sections[0], ptr) then sections[0].semantics == ReadOnlyCode
    else FirstContainingIsCode(sections[1..], ptr)
  }

  /**
   * The loop answers yes exactly when some section is read-only code, contains
   * `ptr`, and no earlier section contains it.
   */
  lemma {:induction false} FirstContainingIsCodeSpec(sections: seq<Section>, ptr: u64)
    ensures FirstContainingIsCode(sections, ptr) <==>
      exists i :: 0 <= i < |sections| && Contains(sections[i], ptr)
                  && sections[i].semantics == ReadOnlyCode
                  && (forall j :: 0 <= j < i ==> !Contains(sections[j], ptr))
  {
    if |sections| > 0 {
      if Contains(sections[0], ptr) {
        if sections[0].semantics != ReadOnlyCode {
          forall i | 0 < i < |sections| && Contains(sections[i], ptr)
            ensures exists j :: 0 <= j < i && Contains(sections[j], ptr)
          {
            assert Contains(sections[0], ptr);
          }
        }
      } else {
        FirstContainingIsCodeSpec(sections[1..], ptr);
        var rest := sections[1..];
        if FirstContainingIsCode(rest, ptr) {
          var i :| 0 <= i < |rest| && Contains(rest[i], ptr) && rest[i].semantics == ReadOnlyCode
                   && (forall j :: 0 <= j < i ==> !Contains(rest[j], ptr));
          forall j | 0 <= j < i + 1 ensures !Contains(sections[j], ptr) {
            if j > 0 {
              assert sections[j] == rest[j - 1];
            }
          }
          assert sections[i + 1] == rest[i];
        } else {
          forall i | 0 <= i < |sections| && Contains(sections[i], ptr) && sections[i].semantics == ReadOnlyCode
            ensures exists j :: 0 <= j < i && Contains(sections[j], ptr)
          {
            assert i > 0 && sections[i] == rest[i - 1];
            if forall j :: 0 <= j < i - 1 ==> !Contains(rest[j], ptr) {
              assert false;
            }
            var j :| 0 <= j < i - 1 && Contains(rest[j], ptr);
            assert sections[j + 1] == rest[j];
          }
        }
      }
    }
  }

  /**
   * `is_code_ptr` (and `is_code_ptr_runtime`, which is the same on the
   * debugger's view): never for 0; otherwise the first section containing the
   * pointer decides, and it must be read-only code.
   */
  function IsCodePtr(bv: BinaryView, ptr: u64): bool {
    ptr != 0 && FirstContainingIsCode(bv.sections, ptr)
  }

  /**
   * A code pointer is a nonzero address whose first containing section, in
   * table order, is read-only code; 0 and an address in no section are not
   * code pointers.
   */
  lemma IsCodePtrSpec(bv: BinaryView, ptr: u64)
    ensures IsCodePtr(bv, ptr) <==>
      ptr != 0 && (exists i :: 0 <= i < |bv.sections| && Contains(bv.sections[i], ptr)
                    && bv.sections[i].semantics == ReadOnlyCode
                    && (forall j :: 0 <= j < i ==> !Contains(bv.sections[j], ptr)))
    ensures ptr == 0 ==> !IsCodePtr(bv, ptr)
    ensures (forall i :: 0 <= i < |bv.sections| ==> !Contains(bv.sections[i], ptr)) ==> !IsCodePtr(bv, ptr)
  {
    FirstContainingIsCodeSpec(bv.sections, ptr);
  }
}
