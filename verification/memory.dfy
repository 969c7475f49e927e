/**
 * The process's memory as the patching code sees it: a byte-addressable store
 * whose pages carry protection flags, and the writer that overwrites bytes in
 * an executable page (`modifyBinary`).
 */
module Memory {
  import opened Words
  import opened Values

  /** `p & ^(2^k - 1)`: p with its k low-order bits cleared. */
  function ClearLowBits(p: nat, k: nat): nat
  {
    if k == 0 then p else 2 * ClearLowBits(p / 2, k - 1)
  }

  /** Clearing the k low bits rounds down to a multiple of 2^k. */
  lemma {:induction false} ClearLowBitsFloor(p: nat, k: nat)
    ensures ClearLowBits(p, k) == (p / Pow2(k)) * Pow2(k)
  {
    if k > 0 {
      ClearLowBitsFloor(p / 2, k - 1);
      DivDiv(p, 2, Pow2(k - 1));
    }
  }

  /**
   * `pageStart(ptr)` for the page size 2^pageShift: the start of the page
   * that holds ptr.
   */
  function PageStart(ptr: nat, pageShift: nat): (start: nat)
    ensures start % Pow2(pageShift) == 0
    ensures start <= ptr < start + Pow2(pageShift)
  {
    ClearLowBitsFloor(ptr, pageShift);
    var size := Pow2(pageShift);
    DivModUnique(ptr / size * size, size, ptr / size, 0);
    ClearLowBits(ptr, pageShift)
  }

  /**
   * The len bytes from target lie inside a memory of `size` bytes and inside
   * target's own page (page size 2^pageShift).
   */
  predicate FitsPage(size: nat, pageShift: nat, target: nat, len: nat)
  {
    target + len <= size && target + len <= PageStart(target, pageShift) + Pow2(pageShift)
  }

  /** Memory m with the bytes from `at` replaced by src. */
  function Write(m: seq<Byte>, at: nat, src: seq<Byte>): (r: seq<Byte>)
    requires at + |src| <= |m|
    ensures |r| == |m|
    ensures r[at..at + |src|] == src
    ensures forall a | 0 <= a < |m| && !(at <= a < at + |src|) :: r[a] == m[a]
  {
    m[..at] + src + m[at + |src|..]
  }

  /** Writing back what was there before undoes a write. */
  lemma WriteUndo(m: seq<Byte>, at: nat, src: seq<Byte>)
    requires at + |src| <= |m|
    ensures Write(Write(m, at, src), at, m[at..at + |src|]) == m
  {
    var w := Write(Write(m, at, src), at, m[at..at + |src|]);
    forall a | 0 <= a < |m|
      ensures w[a] == m[a]
    {
      if at <= a < at + |src| {
        assert w[a] == w[at..at + |src|][a - at];
      }
    }
  }

  /**
   * What `modifyBinary(target, bytes)` does in process p, from memory m0 and
   * protections prot0 to outcome r, memory m and protections prot. Let page
   * be the page holding target. It finishes exactly when the OS grants both
   * protection changes on page. If making page read/write/execute is
   * refused, it panics with nothing changed; otherwise bytes are written at
   * target, and then either page is made read/execute and it finishes, or
   * that is refused and it panics with page left read/write/execute.
   */
  ghost predicate Modified(p: Process, target: nat, bytes: seq<Byte>, m0: seq<Byte>, prot0: map<nat, Prot>,
                           r: Outcome, m: seq<Byte>, prot: map<nat, Prot>)
    requires target + |bytes| <= |m0|
  {
    var page := p.PageOf(target);
    && (r.Done? <==> p.Grants(page))
    && ((page, ReadWriteExec) in p.refused ==>
          r == Panic(MprotectFailed(page, ReadWriteExec)) && m == m0 && prot == prot0)
    && ((page, ReadWriteExec) !in p.refused ==> m == Write(m0, target, bytes))
    && ((page, ReadWriteExec) !in p.refused && (page, ReadExec) in p.refused ==>
          r == Panic(MprotectFailed(page, ReadExec)) && prot == prot0[page := ReadWriteExec])
    && (r.Done? ==> prot == prot0[page := ReadExec])
  }

  /**
   * Whether a pointer to address l reaches a storage location of vars.
   * Address 0 is the nil pointer (`reflect.Zero` of a pointer type) and is
   * never a location.
   */
  predicate Located(vars: map<nat, Value>, l: nat)
  {
    l != 0 && l in vars
  }

  /** A running process: its memory, the protection of its pages, and its typed variables. */
  class Process {
    /** Byte-addressable memory; an address is an index. */
    const mem: array<Byte>
    /** log2 of the OS page size (`syscall.Getpagesize()`). */
    const pageShift: nat
    /** The protection changes the OS rejects, as (page start, flags). */
    const refused: set<(nat, Prot)>
    /** The current protection of each page, keyed by its start address. */
    var prot: map<nat, Prot>
    /**
     * The contents of the typed storage locations (global and function
     * variables); see `Located` for which pointers reach one.
     */
    var vars: map<nat, Value>

    constructor (mem: array<Byte>, pageShift: nat, refused: set<(nat, Prot)>,
                 prot: map<nat, Prot>, vars: map<nat, Value>)
      ensures this.mem == mem && this.pageShift == pageShift && this.refused == refused
      ensures this.prot == prot && this.vars == vars
    {
      this.mem := mem;
      this.pageShift := pageShift;
      this.refused := refused;
      this.prot := prot;
      this.vars := vars;
    }

    /** The start of the page holding addr. */
    function PageOf(addr: nat): nat
    {
      PageStart(addr, pageShift)
    }

    /** The len bytes from target lie in memory, inside target's own page. */
    predicate FitsInPage(target: nat, len: nat)
    {
      FitsPage(mem.Length, pageShift, target, len)
    }

    /** The OS accepts both protection changes `modifyBinary` asks for on page. */
    predicate Grants(page: nat)
    {
      (page, ReadWriteExec) !in refused && (page, ReadExec) !in refused
    }

    /** The len bytes from target may be stored to: they fit in a page that allows writing. */
    predicate Writable(target: nat, len: nat)
      reads this
    {
      FitsInPage(target, len) && PageOf(target) in prot && prot[PageOf(target)].write
    }

    /** `syscall.Mprotect` on the page starting at `page`. */
    method Mprotect(page: nat, flags: Prot) returns (ok: bool)
      modifies this`prot
      ensures ok <==> (page, flags) !in refused
      ensures prot == if ok then old(prot)[page := flags] else old(prot)
    {
      ok := (page, flags) !in refused;
      if ok {
        prot := prot[page := flags];
      }
    }

    /** Go's `copy` into a view aliasing memory: a store, allowed only in a writable page. */
    method CopyIn(target: nat, src: seq<Byte>)
      requires Writable(target, |src|)
      modifies mem
      ensures mem[..] == Write(old(mem[..]), target, src)
    {
      forall i | 0 <= i < |src| {
        mem[target + i] := src[i];
      }
      assert mem[..] == Write(old(mem[..]), target, src) by {
        var w := Write(old(mem[..]), target, src);
        forall a | 0 <= a < mem.Length
          ensures mem[a] == w[a]
        {
          if target <= a < target + |src| {
            assert w[a] == w[target..target + |src|][a - target];
          }
        }
      }
    }

    /**
     * `modifyBinary(target, bytes)`: make target's page read/write/execute, copy
     * bytes over memory at target, make the page read/execute again; panic as
     * soon as a protection change is refused.
     */
    method ModifyBinary(target: nat, bytes: seq<Byte>) returns (r: Outcome)
      requires FitsInPage(target, |bytes|)
      modifies this`prot, mem
      ensures Modified(this, target, bytes, old(mem[..]), old(prot), r, mem[..], prot)
    {
      var page := PageOf(target);
      var ok := Mprotect(page, ReadWriteExec);
      if !ok {
        return Panic(MprotectFailed(page, ReadWriteExec));
      }
      CopyIn(target, bytes);
      ok := Mprotect(page, ReadExec);
      if !ok {
        return Panic(MprotectFailed(page, ReadExec));
      }
      r := Done;
    }
  }
}
