/**
 * A patch session (`Patches`): the backups of the functions it has redirected
 * and of the variables it has overwritten, and the operations that install
 * and revert them.
 */
module Patch {
  import opened Words
  import opened Values
  import opened Jmp
  import opened Memory
  import opened Stub

  /** `check(target, double)`: both must be functions of one and the same type. */
  function Check(target: Type, double: Type): (r: Outcome)
    ensures r.Done? <==> target.FuncType? && double == target
    ensures !target.FuncType? ==> r == Panic(TargetNotFunc)
    ensures target.FuncType? && !double.FuncType? ==> r == Panic(DoubleNotFunc)
    ensures target.FuncType? && double.FuncType? && double != target ==> r == Panic(TypeMismatch(target, double))
  {
    if !target.FuncType? then Panic(TargetNotFunc)
    else if !double.FuncType? then Panic(DoubleNotFunc)
    else if target != double then Panic(TypeMismatch(target, double))
    else Done
  }

  /**
   * The entry address of the function whose funcval is at address f:
   * `*(*uintptr)(getPointer(target))`, the code pointer stored there.
   */
  function Entry(m: seq<Byte>, f: nat): Word
    requires f + WordBytes <= |m|
  {
    ReadWord(m, f)
  }

  /**
   * `replace(target, replacement)`: back up the JmpLength bytes at entry
   * address target and write the trampoline through funcval `replacement`
   * over them.
   */
  method Replace(p: Process, target: nat, replacement: Word) returns (original: seq<Byte>, r: Outcome)
    requires p.FitsInPage(target, JmpLength)
    modifies p`prot, p.mem
    ensures original == old(p.mem[..])[target..target + JmpLength]
    ensures Modified(p, target, BuildJmpDirective(replacement), old(p.mem[..]), old(p.prot), r, p.mem[..], p.prot)
  {
    var mockCode := BuildJmpDirective(replacement);
    original := p.mem[target..target + |mockCode|];
    r := p.ModifyBinary(target, mockCode);
  }

  /** The funcval at f, and the window at its entry, can be read and patched in place. */
  predicate Patchable(p: Process, f: nat)
    reads p, p.mem
  {
    f + WordBytes <= p.mem.Length && p.FitsInPage(Entry(p.mem[..], f), JmpLength)
  }

  /** The ranges [a, a + n) and [b, b + k) do not overlap. */
  predicate Disjoint(a: nat, n: nat, b: nat, k: nat)
  {
    a + n <= b || b + k <= a
  }

  /** Writing one range leaves a disjoint range as it was. */
  lemma WriteElsewhere(m: seq<Byte>, at: nat, src: seq<Byte>, b: nat, n: nat)
    requires at + |src| <= |m| && b + n <= |m|
    requires Disjoint(at, |src|, b, n)
    ensures Write(m, at, src)[b..b + n] == m[b..b + n]
  {
    var w := Write(m, at, src);
    assert forall a | b <= a < b + n :: w[a] == m[a];
  }

  /**
   * Once the trampoline through funcval repl is written at entry, jumping
   * there reaches the code pointer the funcval held, provided the write
   * leaves the funcval alone.
   */
  lemma PatchedJump(m: seq<Byte>, entry: nat, repl: Word)
    requires entry + JmpLength <= |m| && repl + WordBytes <= |m|
    requires Disjoint(entry, JmpLength, repl, WordBytes)
    ensures var w := Write(m, entry, BuildJmpDirective(repl));
            JumpDestination(w, w[entry..entry + JmpLength]) == Some(ReadWord(m, repl))
  {
    var w := Write(m, entry, BuildJmpDirective(repl));
    TrampolineDestination(w, repl);
    WriteElsewhere(m, entry, BuildJmpDirective(repl), repl, WordBytes);
    SameWord(w, m, repl);
  }

  /** Every backed-up target's funcval lies in memory m. */
  ghost predicate FuncvalsIn(m: seq<Byte>, o: map<nat, seq<Byte>>)
  {
    forall f | f in o :: f + WordBytes <= |m|
  }

  /** The entry address of every backed-up target, read from its funcval in m. */
  ghost function Entries(m: seq<Byte>, o: map<nat, seq<Byte>>): (e: map<nat, nat>)
    requires FuncvalsIn(m, o)
    ensures e.Keys == o.Keys
  {
    map f | f in o :: Entry(m, f)
  }

  /** Every entry window [e[f], e[f] + |o[f]|) lies in a memory of `size` bytes. */
  ghost predicate WindowsIn(e: map<nat, nat>, o: map<nat, seq<Byte>>, size: nat)
  {
    forall f | f in o :: f in e && e[f] + |o[f]| <= size
  }

  /** Address a lies in the entry window of backed-up target f. */
  ghost predicate InWindow(e: map<nat, nat>, o: map<nat, seq<Byte>>, f: nat, a: nat)
    requires f in e && f in o
  {
    e[f] <= a < e[f] + |o[f]|
  }

  /** Address a lies in no entry window of a backed-up target. */
  ghost predicate OutsideWindows(e: map<nat, nat>, o: map<nat, seq<Byte>>, a: nat)
  {
    forall f | f in o && f in e :: !InWindow(e, o, f, a)
  }

  /** No two entry windows overlap. */
  ghost predicate WindowsDisjoint(e: map<nat, nat>, o: map<nat, seq<Byte>>)
  {
    forall f, g | f in o && g in o && f in e && g in e && f != g :: Disjoint(e[f], |o[f]|, e[g], |o[g]|)
  }

  /** Every backup holds the `JmpLength` bytes that `replace` saved. */
  predicate Backups(o: map<nat, seq<Byte>>)
  {
    forall f | f in o :: |o[f]| == JmpLength
  }

  /**
   * What `Reset` needs of the layout in memory m: every funcval is in
   * memory, every entry window of `JmpLength` bytes fits in memory and in
   * its page, and no window covers a funcval (so restoring one target never
   * moves another's entry).
   */
  ghost predicate ResetLayout(m: seq<Byte>, pageShift: nat, o: map<nat, seq<Byte>>)
    requires Backups(o)
  {
    && FuncvalsIn(m, o)
    && var e := Entries(m, o);
       && (forall f | f in o :: FitsPage(|m|, pageShift, e[f], JmpLength))
       && (forall f, g | f in o && g in o :: Disjoint(e[f], JmpLength, g, WordBytes))
  }

  /** The pages holding the entries of the targets in keys. */
  ghost function Pages(e: map<nat, nat>, pageShift: nat, keys: set<nat>): set<nat>
  {
    set f | f in keys && f in e :: PageStart(e[f], pageShift)
  }

  /**
   * Memory m part way through a restore that began from m0 with backups o
   * whose windows start at e: nothing outside the windows has changed, and
   * when no two windows overlap, the window of every target in done holds
   * its backup again and every other window is as it was.
   */
  ghost predicate Restored(e: map<nat, nat>, o: map<nat, seq<Byte>>, done: set<nat>, m0: seq<Byte>, m: seq<Byte>)
    requires WindowsIn(e, o, |m0|)
  {
    && |m| == |m0|
    && (forall a | 0 <= a < |m| && OutsideWindows(e, o, a) :: m[a] == m0[a])
    && (WindowsDisjoint(e, o) ==> forall f | f in done && f in o :: m[e[f]..e[f] + |o[f]|] == o[f])
    && (WindowsDisjoint(e, o) ==> forall f | f !in done && f in o :: m[e[f]..e[f] + |o[f]|] == m0[e[f]..e[f] + |o[f]|])
  }

  /** A layout fit for `Reset` keeps every window in memory. */
  lemma LayoutWindows(m: seq<Byte>, pageShift: nat, o: map<nat, seq<Byte>>)
    requires Backups(o) && ResetLayout(m, pageShift, o)
    ensures WindowsIn(Entries(m, o), o, |m|)
  {
  }

  /** While only window bytes change, every backed-up target keeps its entry address. */
  lemma EntryStable(m0: seq<Byte>, m: seq<Byte>, pageShift: nat, o: map<nat, seq<Byte>>, f: nat)
    requires Backups(o) && ResetLayout(m0, pageShift, o) && |m| == |m0| && f in o
    requires forall a | 0 <= a < |m| && OutsideWindows(Entries(m0, o), o, a) :: m[a] == m0[a]
    ensures f + WordBytes <= |m| && Entry(m, f) == Entries(m0, o)[f]
  {
    var e := Entries(m0, o);
    forall a | f <= a < f + WordBytes
      ensures m[a] == m0[a]
    {
      forall g | g in o && g in e
        ensures !InWindow(e, o, g, a)
      {
        assert Disjoint(e[g], |o[g]|, f, WordBytes);
      }
    }
    SameWord(m, m0, f);
  }

  /** Writing backup f back over its window keeps the restore on track and adds f to done. */
  lemma RestoreStep(e: map<nat, nat>, o: map<nat, seq<Byte>>, done: set<nat>, f: nat, m0: seq<Byte>, m: seq<Byte>)
    requires WindowsIn(e, o, |m0|) && f in o
    requires Restored(e, o, done, m0, m)
    ensures Restored(e, o, done + {f}, m0, Write(m, e[f], o[f]))
  {
    var w := Write(m, e[f], o[f]);
    forall a | 0 <= a < |w| && OutsideWindows(e, o, a)
      ensures w[a] == m0[a]
    {
      assert !InWindow(e, o, f, a);
    }
    if WindowsDisjoint(e, o) {
      forall g | g in o && g != f
        ensures w[e[g]..e[g] + |o[g]|] == m[e[g]..e[g] + |o[g]|]
      {
        WriteElsewhere(m, e[f], o[f], e[g], |o[g]|);
      }
    }
  }

  /** Protections prot with every page in pages set to read/execute. */
  function WithReadExec(prot: map<nat, Prot>, pages: set<nat>): (r: map<nat, Prot>)
    ensures r.Keys == prot.Keys + pages
    ensures forall pg | pg in r :: r[pg] == if pg in pages then ReadExec else prot[pg]
  {
    prot + map pg | pg in pages :: ReadExec
  }

  /** Setting one more target's page to read/execute extends the set of pages set so. */
  lemma ProtStep(prot0: map<nat, Prot>, e: map<nat, nat>, pageShift: nat, done: set<nat>, f: nat)
    requires f in e
    ensures WithReadExec(prot0, Pages(e, pageShift, done))[PageStart(e[f], pageShift) := ReadExec] ==
            WithReadExec(prot0, Pages(e, pageShift, done + {f}))
  {
    assert Pages(e, pageShift, done + {f}) == Pages(e, pageShift, done) + {PageStart(e[f], pageShift)};
  }

  /**
   * The state part way through `Reset`'s first loop, begun on memory m0
   * with backups o0 whose windows start at e, and with protections prot0:
   * the targets in done have had their windows written back, their pages
   * set to read/execute and their backups deleted; the remaining backups
   * are as they were.
   */
  ghost predicate Restoring(p: Process, e: map<nat, nat>, o0: map<nat, seq<Byte>>, m0: seq<Byte>, prot0: map<nat, Prot>,
                            done: set<nat>, originals: map<nat, seq<Byte>>, m: seq<Byte>, prot: map<nat, Prot>)
    requires WindowsIn(e, o0, |m0|)
  {
    && done <= o0.Keys && originals.Keys == o0.Keys - done
    && (forall f | f in originals :: originals[f] == o0[f])
    && Restored(e, o0, done, m0, m)
    && (forall f | f in done && f in e :: p.Grants(p.PageOf(e[f])))
    && prot == WithReadExec(prot0, Pages(e, p.pageShift, done))
  }

  /** One more backup written back, its page set to read/execute and the backup deleted. */
  lemma RestoringStep(p: Process, e: map<nat, nat>, o0: map<nat, seq<Byte>>, m0: seq<Byte>, prot0: map<nat, Prot>,
                      done: set<nat>, originals: map<nat, seq<Byte>>, m: seq<Byte>, prot: map<nat, Prot>, f: nat)
    requires WindowsIn(e, o0, |m0|) && f in originals
    requires Restoring(p, e, o0, m0, prot0, done, originals, m, prot)
    requires p.Grants(p.PageOf(e[f]))
    ensures Restoring(p, e, o0, m0, prot0, done + {f}, originals - {f}, Write(m, e[f], o0[f]),
                      prot[p.PageOf(e[f]) := ReadExec])
  {
    RestoreStep(e, o0, done, f, m0, m);
    ProtStep(prot0, e, p.pageShift, done, f);
  }

  /** When no backup is left, every target is restored and every entry page is read/execute. */
  lemma RestoringFinished(p: Process, e: map<nat, nat>, o0: map<nat, seq<Byte>>, m0: seq<Byte>, prot0: map<nat, Prot>,
                          done: set<nat>, m: seq<Byte>, prot: map<nat, Prot>)
    requires WindowsIn(e, o0, |m0|) && e.Keys == o0.Keys
    requires Restoring(p, e, o0, m0, prot0, done, map[], m, prot)
    ensures forall f | f in e :: p.Grants(p.PageOf(e[f]))
    ensures prot == WithReadExec(prot0, Pages(e, p.pageShift, e.Keys))
    ensures Restored(e, o0, e.Keys, m0, m)
  {
    assert done == o0.Keys;
  }

  /**
   * Where `Reset`'s first loop stopped, having written back the targets in
   * done, when writing back target f panicked: f's page refuses a protection
   * change, and every page of done accepted both. If making f's page
   * read/write/execute was refused, memory and protections are as the targets
   * in done left them; otherwise f's window was written back too, and f's page
   * is left read/write/execute.
   */
  ghost predicate Halted(p: Process, e: map<nat, nat>, o0: map<nat, seq<Byte>>, m0: seq<Byte>, prot0: map<nat, Prot>,
                         done: set<nat>, f: nat, r: Outcome, m: seq<Byte>, prot: map<nat, Prot>)
    requires WindowsIn(e, o0, |m0|) && f in o0
  {
    var page := p.PageOf(e[f]);
    && !p.Grants(page)
    && (forall g | g in done && g in e :: p.Grants(p.PageOf(e[g])))
    && ((page, ReadWriteExec) in p.refused ==>
          && r == Panic(MprotectFailed(page, ReadWriteExec))
          && Restored(e, o0, done, m0, m)
          && prot == WithReadExec(prot0, Pages(e, p.pageShift, done)))
    && ((page, ReadWriteExec) !in p.refused ==>
          && r == Panic(MprotectFailed(page, ReadExec))
          && Restored(e, o0, done + {f}, m0, m)
          && prot == WithReadExec(prot0, Pages(e, p.pageShift, done))[page := ReadWriteExec])
  }

  /**
   * How `Reset`'s first loop ends, begun on memory m0 with backups o0 and
   * protections prot0, and ending with outcome r, backups o, memory m and
   * protections prot: the backups left are backups it began with. It
   * finishes exactly when every entry page accepts both protection changes,
   * and then no backup is left, every entry page is read/execute and every
   * window is written back. On a panic it halted at a target whose backup is
   * kept, with every target whose backup is gone written back.
   */
  ghost predicate CodeRestored(p: Process, m0: seq<Byte>, o0: map<nat, seq<Byte>>, prot0: map<nat, Prot>,
                               r: Outcome, o: map<nat, seq<Byte>>, m: seq<Byte>, prot: map<nat, Prot>)
    requires FuncvalsIn(m0, o0)
  {
    var e := Entries(m0, o0);
    && WindowsIn(e, o0, |m0|)
    && o.Keys <= o0.Keys && (forall f | f in o :: o[f] == o0[f])
    && (r.Done? <==> forall f | f in e :: p.Grants(p.PageOf(e[f])))
    && (r.Done? ==>
          && o == map[]
          && prot == WithReadExec(prot0, Pages(e, p.pageShift, e.Keys))
          && Restored(e, o0, e.Keys, m0, m))
    && (r.Panic? ==> exists f | f in o :: Halted(p, e, o0, m0, prot0, o0.Keys - o.Keys, f, r, m, prot))
  }

  /** A loop halted at target f, its backup kept, is a first loop that ended in that panic. */
  lemma CodeHalted(p: Process, m0: seq<Byte>, o0: map<nat, seq<Byte>>, prot0: map<nat, Prot>, e: map<nat, nat>,
                   done: set<nat>, o: map<nat, seq<Byte>>, f: nat, r: Outcome, m: seq<Byte>, prot: map<nat, Prot>)
    requires FuncvalsIn(m0, o0) && e == Entries(m0, o0) && WindowsIn(e, o0, |m0|)
    requires done <= o0.Keys && o.Keys == o0.Keys - done && (forall g | g in o :: o[g] == o0[g])
    requires f in o && r.Panic? && Halted(p, e, o0, m0, prot0, done, f, r, m, prot)
    ensures CodeRestored(p, m0, o0, prot0, r, o, m, prot)
  {
    assert o0.Keys - o.Keys == done;
  }

  /** A loop that wrote back every target is a first loop that finished. */
  lemma CodeFinished(p: Process, m0: seq<Byte>, o0: map<nat, seq<Byte>>, prot0: map<nat, Prot>, e: map<nat, nat>,
                     done: set<nat>, m: seq<Byte>, prot: map<nat, Prot>)
    requires FuncvalsIn(m0, o0) && e == Entries(m0, o0) && WindowsIn(e, o0, |m0|)
    requires Restoring(p, e, o0, m0, prot0, done, map[], m, prot)
    ensures CodeRestored(p, m0, o0, prot0, Done, map[], m, prot)
  {
    RestoringFinished(p, e, o0, m0, prot0, done, m, prot);
  }

  /**
   * What `ApplyCore(target, replacement)` does, from backups o0, memory m0
   * and protections prot0 to outcome r, backups o, memory m and protections
   * prot: on a failed check, a repeated target or a nil target (reading its
   * funcval dereferences nil) it panics and changes nothing; otherwise it writes the trampoline through replacement's
   * funcval over the entry window of target and records the bytes that were
   * there, unless a protection change is refused (then no backup is
   * recorded, and the write happened only if the first change was granted).
   */
  ghost predicate CoreApplied(p: Process, target: Value, replacement: Value,
                              o0: map<nat, seq<Byte>>, m0: seq<Byte>, prot0: map<nat, Prot>,
                              r: Outcome, o: map<nat, seq<Byte>>, m: seq<Byte>, prot: map<nat, Prot>)
  {
    var check := Check(target.typ, replacement.typ);
    if check.Panic? then
      r == check && o == o0 && m == m0 && prot == prot0
    else if target.data in o0 then
      r == Panic(PatchExists) && o == o0 && m == m0 && prot == prot0
    else if target.data == 0 then
      r == Panic(NilDereference) && o == o0 && m == m0 && prot == prot0
    else
      target.data + WordBytes <= |m0| &&
      var entry := Entry(m0, target.data);
      var code := BuildJmpDirective(replacement.data);
      entry + JmpLength <= |m0| &&
      Modified(p, entry, code, m0, prot0, r, m, prot) &&
      o == if r.Done? then o0[target.data := m0[entry..entry + JmpLength]] else o0
  }

  /**
   * After a successful `ApplyCore`, calling target runs replacement: the
   * bytes at target's entry are a trampoline whose jump reaches the code
   * pointer held in replacement's funcval, provided that funcval lies
   * outside the window that was overwritten.
   */
  lemma PatchRedirects(p: Process, target: Value, replacement: Value,
                       o0: map<nat, seq<Byte>>, m0: seq<Byte>, prot0: map<nat, Prot>,
                       r: Outcome, o: map<nat, seq<Byte>>, m: seq<Byte>, prot: map<nat, Prot>)
    requires CoreApplied(p, target, replacement, o0, m0, prot0, r, o, m, prot) && r.Done?
    requires replacement.data + WordBytes <= |m0|
    requires Disjoint(Entry(m0, target.data), JmpLength, replacement.data, WordBytes)
    ensures var entry := Entry(m0, target.data);
            entry + JmpLength <= |m| &&
            JumpDestination(m, m[entry..entry + JmpLength]) == Some(Entry(m0, replacement.data))
  {
    PatchedJump(m0, Entry(m0, target.data), replacement.data);
  }

  /**
   * Memory m is memory M with the targets backed up in o patched, their
   * windows starting at e: each backup holds the bytes M had in that window,
   * and m differs from M only inside the windows.
   */
  ghost predicate PatchedAt(e: map<nat, nat>, o: map<nat, seq<Byte>>, M: seq<Byte>, m: seq<Byte>)
  {
    && WindowsIn(e, o, |M|)
    && |m| == |M|
    && (forall f | f in o :: o[f] == M[e[f]..e[f] + |o[f]|])
    && (forall a | 0 <= a < |m| && OutsideWindows(e, o, a) :: m[a] == M[a])
  }

  /** PatchedAt, with every target's entry read from its funcval in M. */
  ghost predicate Patched(M: seq<Byte>, o: map<nat, seq<Byte>>, m: seq<Byte>)
  {
    FuncvalsIn(M, o) && PatchedAt(Entries(M, o), o, M, m)
  }

  /** No entry window of a target in o covers the funcval at g. */
  ghost predicate ClearOf(e: map<nat, nat>, o: map<nat, seq<Byte>>, g: nat)
  {
    forall f | f in o && f in e :: Disjoint(e[f], |o[f]|, g, WordBytes)
  }

  /** The n bytes from b, clear of every window, are those of M. */
  lemma OutsideKept(e: map<nat, nat>, o: map<nat, seq<Byte>>, M: seq<Byte>, m: seq<Byte>, b: nat, n: nat)
    requires PatchedAt(e, o, M, m) && b + n <= |M|
    requires forall f | f in o && f in e :: Disjoint(e[f], |o[f]|, b, n)
    ensures m[b..b + n] == M[b..b + n]
  {
    forall a | b <= a < b + n
      ensures m[a] == M[a]
    {
      forall f | f in o && f in e
        ensures !InWindow(e, o, f, a)
      {
        assert Disjoint(e[f], |o[f]|, b, n);
      }
    }
  }

  /** Reading the entries of one more target: the old entries, and the new one. */
  lemma EntriesAdd(M: seq<Byte>, o: map<nat, seq<Byte>>, t: nat, w: seq<Byte>)
    requires FuncvalsIn(M, o) && t + WordBytes <= |M|
    ensures FuncvalsIn(M, o[t := w]) && Entries(M, o[t := w]) == Entries(M, o)[t := Entry(M, t)]
  {
  }

  /**
   * Patching one more target, whose window at entry overlaps none of those
   * patched so far, keeps memory a patched copy of M.
   */
  lemma PatchedAtStep(e: map<nat, nat>, o: map<nat, seq<Byte>>, M: seq<Byte>, m: seq<Byte>,
                      t: nat, entry: nat, code: seq<Byte>)
    requires PatchedAt(e, o, M, m) && t !in o && entry + |code| <= |M|
    requires forall f | f in o && f in e :: Disjoint(entry, |code|, e[f], |o[f]|)
    requires m[entry..entry + |code|] == M[entry..entry + |code|]
    ensures PatchedAt(e[t := entry], o[t := M[entry..entry + |code|]], M, Write(m, entry, code))
  {
    var e2, o2, w := e[t := entry], o[t := M[entry..entry + |code|]], Write(m, entry, code);
    forall a | 0 <= a < |w| && OutsideWindows(e2, o2, a)
      ensures w[a] == M[a]
    {
      assert !InWindow(e2, o2, t, a);
      forall f | f in o && f in e
        ensures !InWindow(e, o, f, a)
      {
        assert !InWindow(e2, o2, f, a);
      }
    }
  }

  /**
   * A successful `ApplyCore` keeps memory a patched copy of M, now with the
   * new target too, when the target's funcval lies outside the windows
   * patched so far and its own window overlaps none of them.
   */
  lemma PatchedStep(p: Process, target: Value, replacement: Value, M: seq<Byte>,
                    o0: map<nat, seq<Byte>>, m0: seq<Byte>, prot0: map<nat, Prot>,
                    o: map<nat, seq<Byte>>, m: seq<Byte>, prot: map<nat, Prot>)
    requires Patched(M, o0, m0)
    requires CoreApplied(p, target, replacement, o0, m0, prot0, Done, o, m, prot)
    requires target.data + WordBytes <= |M| && ClearOf(Entries(M, o0), o0, target.data)
    requires forall g | g in o0 :: Disjoint(Entry(M, target.data), JmpLength, Entries(M, o0)[g], |o0[g]|)
    ensures Patched(M, o, m)
  {
    CoreWrote(p, target, replacement, o0, m0, prot0, o, m, prot);
    var e0, t := Entries(M, o0), target.data;
    OutsideKept(e0, o0, M, m0, t, WordBytes);
    SameWord(m0, M, t);
    var entry, code := Entry(M, t), BuildJmpDirective(replacement.data);
    OutsideKept(e0, o0, M, m0, entry, JmpLength);
    PatchedAtStep(e0, o0, M, m0, t, entry, code);
    EntriesAdd(M, o0, t, m0[entry..entry + JmpLength]);
  }

  /** A successful `ApplyCore` wrote the trampoline over a new target's entry window and backed that window up. */
  lemma CoreWrote(p: Process, target: Value, replacement: Value,
                  o0: map<nat, seq<Byte>>, m0: seq<Byte>, prot0: map<nat, Prot>,
                  o: map<nat, seq<Byte>>, m: seq<Byte>, prot: map<nat, Prot>)
    requires CoreApplied(p, target, replacement, o0, m0, prot0, Done, o, m, prot)
    ensures target.data !in o0 && target.data + WordBytes <= |m0|
    ensures var entry := Entry(m0, target.data);
            && entry + JmpLength <= |m0|
            && m == Write(m0, entry, BuildJmpDirective(replacement.data))
            && o == o0[target.data := m0[entry..entry + JmpLength]]
  {
  }

  /** With the funcvals clear of every window, patching leaves every entry address where it was. */
  lemma PatchedEntries(M: seq<Byte>, o: map<nat, seq<Byte>>, m: seq<Byte>)
    requires Patched(M, o, m)
    requires forall g | g in o :: ClearOf(Entries(M, o), o, g)
    ensures FuncvalsIn(m, o) && Entries(m, o) == Entries(M, o)
  {
    var e := Entries(M, o);
    forall g | g in o
      ensures Entry(m, g) == e[g]
    {
      OutsideKept(e, o, M, m, g, WordBytes);
      SameWord(m, M, g);
    }
  }

  /**
   * Writing every backup back over a patched copy of M, windows pairwise
   * disjoint, gives M back.
   */
  lemma RestoreUndoes(M: seq<Byte>, o: map<nat, seq<Byte>>, m: seq<Byte>, m2: seq<Byte>)
    requires Patched(M, o, m) && WindowsDisjoint(Entries(M, o), o)
    requires Restored(Entries(M, o), o, o.Keys, m, m2)
    ensures m2 == M
  {
    var e := Entries(M, o);
    WindowsUndone(e, o, M, m, m2);
  }

  /** RestoreUndoes, for windows starting at e. */
  lemma WindowsUndone(e: map<nat, nat>, o: map<nat, seq<Byte>>, M: seq<Byte>, m: seq<Byte>, m2: seq<Byte>)
    requires WindowsIn(e, o, |M|) && |m| == |M| && |m2| == |M|
    requires forall f | f in o :: o[f] == M[e[f]..e[f] + |o[f]|] && m2[e[f]..e[f] + |o[f]|] == o[f]
    requires forall a | 0 <= a < |M| && OutsideWindows(e, o, a) :: m[a] == M[a] && m2[a] == m[a]
    ensures m2 == M
  {
    forall a | 0 <= a < |M|
      ensures m2[a] == M[a]
    {
      if !OutsideWindows(e, o, a) {
        var f :| f in o && f in e && InWindow(e, o, f, a);
        SameSliceAt(m2, M, o[f], e[f], a);
      }
    }
  }

  /** Two sequences holding the same bytes src from index i agree at every index inside them. */
  lemma SameSliceAt(x: seq<Byte>, y: seq<Byte>, src: seq<Byte>, i: nat, a: nat)
    requires i <= a < i + |src| <= |x| && i + |src| <= |y|
    requires x[i..i + |src|] == src && y[i..i + |src|] == src
    ensures x[a] == y[a]
  {
    assert x[a] == src[a - i] == y[a];
  }

  /**
   * Round trip: `Reset` on a session whose backups patch memory M, with
   * windows pairwise disjoint and clear of every funcval, finishing gives M
   * back and leaves no backup.
   */
  lemma ResetRoundTrip(p: Process, M: seq<Byte>, o: map<nat, seq<Byte>>, m: seq<Byte>, prot: map<nat, Prot>,
                       r: Outcome, o2: map<nat, seq<Byte>>, m2: seq<Byte>, prot2: map<nat, Prot>)
    requires Patched(M, o, m) && WindowsDisjoint(Entries(M, o), o)
    requires forall g | g in o :: ClearOf(Entries(M, o), o, g)
    requires FuncvalsIn(m, o) && CodeRestored(p, m, o, prot, r, o2, m2, prot2) && r.Done?
    ensures m2 == M && o2 == map[]
  {
    PatchedEntries(M, o, m);
    RestoreUndoes(M, o, m, m2);
  }

  /**
   * The first loop of a `Reset` with no function backup left, as after a
   * finished `Reset`: it finishes without changing memory or protections.
   */
  lemma NothingToRestore(p: Process, m0: seq<Byte>, prot0: map<nat, Prot>, r: Outcome, o: map<nat, seq<Byte>>,
                         m: seq<Byte>, prot: map<nat, Prot>)
    requires FuncvalsIn(m0, map[]) && CodeRestored(p, m0, map[], prot0, r, o, m, prot)
    ensures r == Done && o == map[] && m == m0 && prot == prot0
  {
    var e := Entries(m0, map[]);
    assert e == map[];
    assert Pages(e, p.pageShift, e.Keys) == {};
    forall a | 0 <= a < |m|
      ensures m[a] == m0[a]
    {
      assert OutsideWindows(e, map[], a);
    }
  }

  class Patches {
    /** Function patches: funcval address of the target -> the bytes its entry held. */
    var originals: map<nat, seq<Byte>>
    /** Variable overrides: location -> the value it held. */
    var values: map<nat, Value>

    predicate Valid()
      reads this
    {
      Backups(originals)
    }

    /** `create()` / `NewPatches()`. */
    constructor ()
      ensures Valid() && originals == map[] && values == map[]
    {
      originals := map[];
      values := map[];
    }

    /** `ApplyCore(target, replacement)` (also `ApplyFunc`, whose `reflect.ValueOf` wrapping is the identity here). */
    method ApplyCore(p: Process, target: Value, replacement: Value) returns (r: Outcome)
      requires Valid()
      requires Check(target.typ, replacement.typ).Done? && target.data !in originals && target.data != 0 ==>
                 Patchable(p, target.data)
      modifies this`originals, p`prot, p.mem
      ensures Valid()
      ensures CoreApplied(p, target, replacement,
                            old(originals), old(p.mem[..]), old(p.prot), r, originals, p.mem[..], p.prot)
    {
      r := Check(target.typ, replacement.typ);
      if r.Panic? {
        return;
      }
      if target.data in originals {
        return Panic(PatchExists);
      }
      if target.data == 0 {
        return Panic(NilDereference);
      }
      var entry := Entry(p.mem[..], target.data);
      var original;
      original, r := Replace(p, entry, replacement.data);
      if r.Panic? {
        return;
      }
      originals := originals[target.data := original];
    }

    /** `ApplyMethod(target, methodName, double)`: `methods` is the method set of target's type. */
    method ApplyMethod(p: Process, methods: map<string, Value>, name: string, double: Value) returns (r: Outcome)
      requires Valid()
      requires name in methods && Check(methods[name].typ, double.typ).Done? && methods[name].data !in originals &&
               methods[name].data != 0 ==>
                 Patchable(p, methods[name].data)
      modifies this`originals, p`prot, p.mem
      ensures Valid()
      ensures name !in methods ==>
                r == Panic(MethodNotFound(name)) &&
                originals == old(originals) && p.mem[..] == old(p.mem[..]) && p.prot == old(p.prot)
      ensures name in methods ==> CoreApplied(p, methods[name], double,
                            old(originals), old(p.mem[..]), old(p.prot), r, originals, p.mem[..], p.prot)
    {
      if name !in methods {
        return Panic(MethodNotFound(name));
      }
      r := ApplyCore(p, methods[name], double);
    }

    /**
     * `ApplyFuncSeq(target, outputs)`: patch target with a sequenced stub of
     * its own type whose funcval is placed at `closure`.
     */
    method ApplyFuncSeq(p: Process, target: Value, outputs: seq<OutputCell>, closure: Word)
      returns (r: Outcome, stub: SeqStub?)
      requires Valid()
      requires OutputsCheck(target.typ, outputs).Done? && target.data !in originals && target.data != 0 ==>
                 Patchable(p, target.data)
      modifies this`originals, p`prot, p.mem
      ensures Valid()
      ensures OutputsCheck(target.typ, outputs).Panic? ==>
                r == OutputsCheck(target.typ, outputs) && stub == null &&
                originals == old(originals) && p.mem[..] == old(p.mem[..]) && p.prot == old(p.prot)
      ensures OutputsCheck(target.typ, outputs).Done? ==>
                stub != null && fresh(stub) && stub.Valid() && stub.i == 0 && stub.slice == Flatten(outputs) &&
                stub.AsValue() == Value(target.typ, closure) &&
                CoreApplied(p, target, stub.AsValue(),
                            old(originals), old(p.mem[..]), old(p.prot), r, originals, p.mem[..], p.prot)
    {
      var double := GetDoubleFunc(target.typ, outputs, closure);
      if double.Err? {
        return Panic(double.error), null;
      }
      stub := double.value;
      r := ApplyCore(p, target, stub.AsValue());
    }

    /** `ApplyMethodSeq(target, methodName, outputs)`. */
    method ApplyMethodSeq(p: Process, methods: map<string, Value>, name: string, outputs: seq<OutputCell>, closure: Word)
      returns (r: Outcome, stub: SeqStub?)
      requires Valid()
      requires name in methods && OutputsCheck(methods[name].typ, outputs).Done? && methods[name].data !in originals &&
               methods[name].data != 0 ==>
                 Patchable(p, methods[name].data)
      modifies this`originals, p`prot, p.mem
      ensures Valid()
      ensures name !in methods ==>
                r == Panic(MethodNotFound(name)) && stub == null &&
                originals == old(originals) && p.mem[..] == old(p.mem[..]) && p.prot == old(p.prot)
      ensures name in methods && OutputsCheck(methods[name].typ, outputs).Panic? ==>
                r == OutputsCheck(methods[name].typ, outputs) && stub == null &&
                originals == old(originals) && p.mem[..] == old(p.mem[..]) && p.prot == old(p.prot)
      ensures name in methods && OutputsCheck(methods[name].typ, outputs).Done? ==>
                stub != null && fresh(stub) && stub.Valid() && stub.i == 0 && stub.slice == Flatten(outputs) &&
                stub.AsValue() == Value(methods[name].typ, closure) &&
                CoreApplied(p, methods[name], stub.AsValue(),
                            old(originals), old(p.mem[..]), old(p.prot), r, originals, p.mem[..], p.prot)
    {
      if name !in methods {
        return Panic(MethodNotFound(name)), null;
      }
      var m := methods[name];
      var double := GetDoubleFunc(m.typ, outputs, closure);
      if double.Err? {
        return Panic(double.error), null;
      }
      stub := double.value;
      r := ApplyCore(p, m, stub.AsValue());
    }

    /**
     * `ApplyGlobalVar(target, double)`: target must be a pointer; reading
     * through a nil pointer panics. The value it points to is backed up
     * (replacing any earlier backup of the same location), then overwritten
     * with double. Storing a double of another type panics after the backup
     * has been recorded.
     */
    method ApplyGlobalVar(p: Process, target: Value, double: Value) returns (r: Outcome)
      modifies this`values, p`vars
      ensures !target.typ.PtrType? ==>
                r == Panic(TargetNotPointer) && values == old(values) && p.vars == old(p.vars)
      ensures target.typ.PtrType? && !Located(old(p.vars), target.data) ==>
                r == Panic(NilPointer) && values == old(values) && p.vars == old(p.vars)
      ensures target.typ.PtrType? && Located(old(p.vars), target.data) ==>
                values == old(values)[target.data := old(p.vars)[target.data]]
      ensures target.typ.PtrType? && Located(old(p.vars), target.data) && double.typ == target.typ.elem ==>
                r == Done && p.vars == old(p.vars)[target.data := double]
      ensures target.typ.PtrType? && Located(old(p.vars), target.data) && double.typ != target.typ.elem ==>
                r == Panic(NotAssignable(target.typ.elem, double.typ)) && p.vars == old(p.vars)
    {
      if !target.typ.PtrType? {
        return Panic(TargetNotPointer);
      }
      if !Located(p.vars, target.data) {
        return Panic(NilPointer);
      }
      values := values[target.data := p.vars[target.data]];
      if double.typ != target.typ.elem {
        return Panic(NotAssignable(target.typ.elem, double.typ));
      }
      p.vars := p.vars[target.data := double];
      r := Done;
    }

    /**
     * `ApplyFuncVar(target, double)`: like `ApplyGlobalVar`, after checking
     * that the variable target points to and double are functions of one type.
     */
    method ApplyFuncVar(p: Process, target: Value, double: Value) returns (r: Outcome)
      modifies this`values, p`vars
      ensures !target.typ.PtrType? ==>
                r == Panic(TargetNotPointer) && values == old(values) && p.vars == old(p.vars)
      ensures target.typ.PtrType? && !Located(old(p.vars), target.data) ==>
                r == Panic(TargetNotFunc) && values == old(values) && p.vars == old(p.vars)
      ensures target.typ.PtrType? && Located(old(p.vars), target.data) && Check(target.typ.elem, double.typ).Panic? ==>
                r == Check(target.typ.elem, double.typ) && values == old(values) && p.vars == old(p.vars)
      ensures target.typ.PtrType? && Located(old(p.vars), target.data) && Check(target.typ.elem, double.typ).Done? ==>
                r == Done &&
                values == old(values)[target.data := old(p.vars)[target.data]] &&
                p.vars == old(p.vars)[target.data := double]
    {
      if !target.typ.PtrType? {
        return Panic(TargetNotPointer);
      }
      if !Located(p.vars, target.data) {
        return Panic(TargetNotFunc);
      }
      r := Check(target.typ.elem, double.typ);
      if r.Panic? {
        return;
      }
      r := ApplyGlobalVar(p, target, double);
    }

    /**
     * `ApplyFuncVarSeq(target, outputs)`: point the function variable target
     * points to at a sequenced stub of its type whose funcval is at `closure`.
     */
    method ApplyFuncVarSeq(p: Process, target: Value, outputs: seq<OutputCell>, closure: Word)
      returns (r: Outcome, stub: SeqStub?)
      modifies this`values, p`vars
      ensures !target.typ.PtrType? ==>
                r == Panic(TargetNotPointer) && stub == null && values == old(values) && p.vars == old(p.vars)
      ensures target.typ.PtrType? && (!Located(old(p.vars), target.data) || !target.typ.elem.FuncType?) ==>
                r == Panic(TargetNotFunc) && stub == null && values == old(values) && p.vars == old(p.vars)
      ensures target.typ.PtrType? && Located(old(p.vars), target.data) && target.typ.elem.FuncType? &&
              OutputsCheck(target.typ.elem, outputs).Panic? ==>
                r == OutputsCheck(target.typ.elem, outputs) && stub == null &&
                values == old(values) && p.vars == old(p.vars)
      ensures target.typ.PtrType? && Located(old(p.vars), target.data) && OutputsCheck(target.typ.elem, outputs).Done? ==>
                r == Done &&
                stub != null && fresh(stub) && stub.Valid() && stub.i == 0 && stub.slice == Flatten(outputs) &&
                stub.AsValue() == Value(target.typ.elem, closure) &&
                values == old(values)[target.data := old(p.vars)[target.data]] &&
                p.vars == old(p.vars)[target.data := stub.AsValue()]
    {
      if !target.typ.PtrType? {
        return Panic(TargetNotPointer), null;
      }
      if !Located(p.vars, target.data) || !target.typ.elem.FuncType? {
        return Panic(TargetNotFunc), null;
      }
      var double := GetDoubleFunc(target.typ.elem, outputs, closure);
      if double.Err? {
        return Panic(double.error), null;
      }
      stub := double.value;
      r := ApplyGlobalVar(p, target, stub.AsValue());
    }

    /**
     * `Reset()`: write every backed-up entry window back (in no particular
     * order), deleting each backup after it is written, then store every
     * backed-up variable value back. The variable backups are kept.
     */
    method Reset(p: Process) returns (r: Outcome)
      requires Valid()
      requires ResetLayout(p.mem[..], p.pageShift, originals)
      modifies this`originals, p`prot, p`vars, p.mem
      ensures Valid()
      ensures CodeRestored(p, old(p.mem[..]), old(originals), old(p.prot), r, originals, p.mem[..], p.prot)
      ensures p.vars == if r.Done? then old(p.vars) + values else old(p.vars)
    {
      ghost var vars := p.vars;
      r := RestoreCode(p);
      assert p.vars == vars;
      if r.Panic? {
        return;
      }
      ghost var prot, mem := p.prot, p.mem[..];
      RestoreVars(p);
      assert p.prot == prot && p.mem[..] == mem;
    }

    /** The first loop of `Reset`: write each backup back over its entry window and delete it. */
    method RestoreCode(p: Process) returns (r: Outcome)
      requires Valid()
      requires ResetLayout(p.mem[..], p.pageShift, originals)
      modifies this`originals, p`prot, p.mem
      ensures Valid()
      ensures CodeRestored(p, old(p.mem[..]), old(originals), old(p.prot), r, originals, p.mem[..], p.prot)
    {
      ghost var m0, o0 := p.mem[..], originals;
      ghost var e := Entries(m0, o0);
      LayoutWindows(m0, p.pageShift, o0);
      ghost var done: set<nat> := {};
      while originals != map[]
        invariant Valid()
        invariant Restoring(p, e, o0, m0, old(p.prot), done, originals, p.mem[..], p.prot)
        decreases originals.Keys
      {
        var f :| f in originals;
        r := RestoreOne(p, f, e, o0, m0, old(p.prot), done);
        if r.Panic? {
          CodeHalted(p, m0, o0, old(p.prot), e, done, originals, f, r, p.mem[..], p.prot);
          return;
        }
        done := done + {f};
      }
      CodeFinished(p, m0, o0, old(p.prot), e, done, p.mem[..], p.prot);
      r := Done;
    }

    /** One pass of `Reset`'s first loop: write the backup of target f back and delete it. */
    method RestoreOne(p: Process, f: nat, ghost e: map<nat, nat>, ghost o0: map<nat, seq<Byte>>, ghost m0: seq<Byte>,
                      ghost prot0: map<nat, Prot>, ghost done: set<nat>) returns (r: Outcome)
      requires Backups(o0) && ResetLayout(m0, p.pageShift, o0) && e == Entries(m0, o0) && WindowsIn(e, o0, |m0|)
      requires Valid() && f in originals
      requires Restoring(p, e, o0, m0, prot0, done, originals, p.mem[..], p.prot)
      modifies this`originals, p`prot, p.mem
      ensures Valid()
      ensures r.Done? <==> p.Grants(p.PageOf(e[f]))
      ensures r.Done? ==> Restoring(p, e, o0, m0, prot0, done + {f}, originals, p.mem[..], p.prot)
      ensures r.Panic? ==> originals == old(originals) && Halted(p, e, o0, m0, prot0, done, f, r, p.mem[..], p.prot)
    {
      EntryStable(m0, p.mem[..], p.pageShift, o0, f);
      var entry := Entry(p.mem[..], f);
      ghost var m, prot := p.mem[..], p.prot;
      r := p.ModifyBinary(entry, originals[f]);
      if r.Panic? {
        if (p.PageOf(entry), ReadWriteExec) !in p.refused {
          RestoreStep(e, o0, done, f, m0, m);
        }
        return;
      }
      RestoringStep(p, e, o0, m0, prot0, done, originals, m, prot, f);
      originals := originals - {f};
    }

    /** The second loop of `Reset`: store each backed-up value back into its variable. */
    method RestoreVars(p: Process)
      modifies p`vars
      ensures p.vars == old(p.vars) + values
    {
      var pending := values.Keys;
      while pending != {}
        invariant pending <= values.Keys
        invariant p.vars == old(p.vars) + map l | l in values.Keys - pending :: values[l]
        decreases pending
      {
        var l :| l in pending;
        p.vars := p.vars[l := values[l]];
        pending := pending - {l};
      }
    }
  }

  /**
   * `ApplyGlobalVar` of a double of the right type on a live location,
   * followed by a `Reset` that finishes: the location gets back the value it
   * held when it was overridden, and every other location ends as a `Reset`
   * alone would leave it.
   */
  method OverrideThenReset(patches: Patches, p: Process, target: Value, double: Value) returns (r: Outcome)
    requires patches.Valid() && ResetLayout(p.mem[..], p.pageShift, patches.originals)
    requires target.typ.PtrType? && Located(p.vars, target.data) && double.typ == target.typ.elem
    modifies patches`originals, patches`values, p`prot, p`vars, p.mem
    ensures r.Done? ==> p.vars == (old(p.vars) + old(patches.values))[target.data := old(p.vars)[target.data]]
  {
    ghost var vars0, values0 := p.vars, patches.values;
    var applied := patches.ApplyGlobalVar(p, target, double);
    r := patches.Reset(p);
    UpdateThenMerge(vars0, values0, target.data, double, vars0[target.data]);
  }

  /** Overriding a key on both sides of a merge leaves the right side's value. */
  lemma UpdateThenMerge<K, V>(a: map<K, V>, b: map<K, V>, k: K, x: V, y: V)
    ensures a[k := x] + b[k := y] == (a + b)[k := y]
  {
  }

  /**
   * Two `ApplyGlobalVar`s on one location, with doubles d1 then d2, followed
   * by a `Reset` that finishes: the second replaced the backup, so the
   * location ends holding d1 rather than its value before both.
   */
  method OverrideTwiceThenReset(patches: Patches, p: Process, target: Value, d1: Value, d2: Value) returns (r: Outcome)
    requires patches.Valid() && ResetLayout(p.mem[..], p.pageShift, patches.originals)
    requires target.typ.PtrType? && Located(p.vars, target.data) && d1.typ == d2.typ == target.typ.elem
    modifies patches`originals, patches`values, p`prot, p`vars, p.mem
    ensures r.Done? ==> p.vars == (old(p.vars) + old(patches.values))[target.data := d1]
  {
    ghost var mem, originals := p.mem[..], patches.originals;
    var first := patches.ApplyGlobalVar(p, target, d1);
    assert p.mem[..] == mem && patches.originals == originals;
    r := OverrideThenReset(patches, p, target, d2);
  }

  /**
   * A second `Reset` with nothing applied since a first one finished (no
   * function backup, every backed-up location holding its backup): it
   * finishes and changes neither memory, protections nor any location.
   */
  method ResetAgain(patches: Patches, p: Process) returns (r: Outcome)
    requires patches.Valid() && patches.originals == map[]
    requires forall l | l in patches.values :: l in p.vars && p.vars[l] == patches.values[l]
    modifies patches`originals, p`prot, p`vars, p.mem
    ensures r == Done && patches.originals == map[]
    ensures p.mem[..] == old(p.mem[..]) && p.prot == old(p.prot) && p.vars == old(p.vars)
  {
    ghost var m0, prot0 := p.mem[..], p.prot;
    r := patches.Reset(p);
    NothingToRestore(p, m0, prot0, r, patches.originals, p.mem[..], p.prot);
  }
}
