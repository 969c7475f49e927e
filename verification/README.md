# gomonkey patch core, modelled in Dafny

gomonkey is a Go library that redirects calls to a function at run time.
It overwrites the first bytes of the target function's machine code with a
12-byte x86-64 trampoline, `MOV rdx, imm64; JMP [rdx]`. The immediate is
the address of the replacement's *funcval*, the word in memory that holds
the replacement's code pointer, so the jump is memory-indirect. The
overwritten bytes are backed up in a patch session (`Patches`). `Reset`
writes them back. A session can also override variables (global variables
and function variables) and put their old values back on `Reset`. A
"sequenced" stub returns canned result tuples, one per call.

The model has six modules:

- `Words` (words.dfy): bytes, 64-bit words and their little-endian layout.
- `Values` (values.dfy): types and values, reduced to what the patching
  code inspects, plus faults and outcomes.
- `Jmp` (jmp.dfy): `buildJmpDirective` as a pure function, with a decoder
  as its inverse. Where executing the trampoline jumps is defined by
  reading the code pointer out of the funcval.
- `Memory` (memory.dfy): `pageStart`, and the class `Process`. A process
  holds a byte array as memory, a map of page protections, the protection
  changes the OS refuses, and typed variable locations. `modifyBinary` is
  a method on `Process`: make the page read/write/execute, copy the bytes
  in place, make the page read/execute again, and panic when a protection
  change is refused.
- `Stub` (stub.dfy): `getDoubleFunc` with its nested expansion loops, the
  counting closure as the class `SeqStub`, and `GetResultValues`.
- `Patch` (patch.dfy): `check`, `replace`, and the class `Patches` with its
  two maps, `originals` and `values`, and its methods. The value-level
  predicates `CoreApplied` and `CodeRestored` state what `ApplyCore` and
  `Reset` do. The lemmas beside them prove the round trips: after a patch a
  call reaches the replacement, and `Reset` gives back the memory from
  before the patches.

A panic is an `Outcome` (`Panic(fault)`) that the method returns. The
state it leaves behind is stated in the method's contract.

Where the code and the written design disagree, the model follows the code:

- `Reset` deletes each function backup after writing it back. It never
  deletes the variable backups, which stay in `values` (patch.go:134-136).
- `ApplyGlobalVar` records the backup before storing the double. A double
  of the wrong type panics after the backup has been recorded
  (patch.go:82-84).
- `ApplyGlobalVar` does not check for an existing backup. A second override
  of the same location replaces the backup with the first double.
- The trampoline's immediate is the replacement's funcval address
  (`getPointer(replacement)`, patch.go:144), not its entry address. The
  jump reads the entry from that funcval.

## Model

| member | source | states |
|---|---|---|
| Words.LeBytesAt | jmp_amd64.go:7-14 | byte k of the little-endian encoding of x is `x >> 8k` truncated to a byte |
| Words.LeOfLeBytes | jmp_amd64.go:7-14 | encoding a value that fits into n little-endian bytes and reading it back gives the value |
| Words.LeBytesOfLe | jmp_amd64.go:7-14 | reading n bytes as a little-endian number and encoding it into n bytes gives the bytes back |
| Words.WordBytesRoundTrip | jmp_amd64.go:7-14 | every 64-bit word written as 8 little-endian bytes reads back as itself |
| Jmp.BuildJmpDirective | jmp_amd64.go:4-23 | the trampoline is always 12 bytes long |
| Jmp.JmpLayout | jmp_amd64.go:7-22 | bytes 0-1 are `48 BA`, bytes 10-11 are `FF 22`, and byte k+2 is `byte(to >> 8k)` for k in 0..7 (little-endian address) |
| Jmp.JmpRoundTrip | jmp_amd64.go:7-21 | decoding the trampoline of any 64-bit address gives that address back |
| Jmp.JmpDecodeSound | jmp_amd64.go:19-22 | every byte string the decoder accepts is exactly the trampoline of the address it yields |
| Jmp.JmpInjective | jmp_amd64.go:7-21 | two trampolines are equal if and only if their addresses are |
| Jmp.TrampolineDestination | jmp_amd64.go:16-21 | executing the trampoline built from funcval address `to` reaches the code pointer stored at `to`, not `to` |
| Memory.ClearLowBitsFloor | patch.go:250-252 | masking off the k low bits rounds down to a multiple of 2^k |
| Memory.PageStart | patch.go:250-252 | `pageStart(p)` is a multiple of the page size, at most p, and less than one page below p |
| Memory.Write | modify_binary_linux.go:35 | `copy` into the window: the window holds the bytes, nothing outside it changes, the length is kept |
| Memory.WriteUndo | modify_binary_linux.go:35 | copying the old bytes back over a window undoes a copy |
| Memory.Process.Mprotect | modify_binary_linux.go:29-32 | a protection change succeeds exactly when the OS accepts it, and only then changes that page's flags |
| Memory.Process.CopyIn | modify_binary_linux.go:35 | the copy can only happen in a writable page that holds the window; the memory afterwards is the old memory with the window overwritten |
| Memory.Process.ModifyBinary | modify_binary_linux.go:23-42 | finishes exactly when both protection changes on target's page are granted; a refused RWX panics before the copy with nothing changed; otherwise the bytes are written and nothing else; a refused RX panics with the page left RWX; on success the page ends RX; only the page holding target changes |
| Stub.Repeats | patch.go:199-204 | a cell is repeated exactly max(1, `Times`) times: `Times` when it is at least 1, once otherwise |
| Stub.FlattenLength | patch.go:197-208 | the expansion has as many tuples as the cells' repeat counts add up to |
| Stub.FlattenAt | patch.go:197-208 | the calls served by cell c return c's tuple, in cell order |
| Stub.ExpandOutputs | patch.go:197-208 | the nested `append` loops build exactly the expansion |
| Stub.FirstMisfit | patch.go:223-231 | the first element that has no result type or holds a value of another type: every element before it fits, and it does not |
| Stub.ResultValuesFrom | patch.go:223-233 | the conversion loop from element k on succeeds exactly when no element from k on misfits; it converts each element in place, and otherwise panics for the first misfit |
| Stub.GetResultValues | patch.go:221-235 | succeeds exactly when every element fits its result type; then element i becomes result i's value, nil becoming that type's zero value; otherwise panics for the first misfit: `Out(i)` past the last result, or `Set` of a value of another type |
| Stub.CallResults | patch.go:212-216 | one call of the made function succeeds exactly when its tuple has one fitting value per result; a shorter tuple panics for the wrong return count, which `reflect.MakeFunc` checks |
| Stub.OutputsCheck | patch.go:191-195 | a non-function type, an empty table, or a first tuple whose length differs from the number of results panics; only the first cell is checked |
| Stub.GetDoubleFunc | patch.go:191-219 | panics exactly when the table check fails; otherwise makes a fresh stub of the given type, its counter at 0, over the expanded table |
| Stub.SeqStub.constructor | patch.go:210-212 | the made function starts with counter 0 over the expanded slice |
| Stub.SeqStub.Call | patch.go:212-218 | while calls remain, call k advances the counter by one and returns tuple k-1 as one call's results (or that call's panic); once the counter reaches the length, a call panics and leaves the counter alone; the counter stays in 0..len |
| Patch.Check | patch.go:149-161 | passes exactly when both are functions of one type; otherwise panics with the first failing check's reason |
| Patch.Replace | patch.go:172-189 | returns exactly the 12 bytes at target before the call, and writes the trampoline there as `modifyBinary` does |
| Patch.PatchedJump | patch.go:144 | after the trampoline through the replacement's funcval is written, jumping from the entry reaches the code pointer that funcval held |
| Patch.PatchRedirects | patch.go:139-147 | after a successful `ApplyCore`, the target's entry holds a jump to the replacement's entry, when the replacement's funcval is outside the overwritten window |
| Patch.RestoreStep | patch.go:129-131 | writing one backup back restores its window and keeps every other restored window and everything outside the windows |
| Patch.PatchedStep | patch.go:144-145 | each successful `ApplyCore` keeps memory a patched copy of the original memory, with one backup per patched window holding the original bytes |
| Patch.PatchedEntries | patch.go:130 | patching windows clear of every funcval leaves every target's entry address unchanged |
| Patch.RestoreUndoes | patch.go:128-132 | writing every backup back over the patched memory, with disjoint windows, gives the original memory back byte for byte |
| Patch.ResetRoundTrip | patch.go:128-147 | patches with disjoint windows followed by a `Reset` that finishes restore the memory from before the patches and leave no function backup |
| Patch.NothingToRestore | patch.go:128-132 | with no function backup left, the first loop of `Reset` finishes and changes neither memory nor protections |
| Patch.OverrideThenReset | patch.go:76-137 | `ApplyGlobalVar` then a `Reset` that finishes puts back the value the location held when it was overridden, and leaves every other location as `Reset` alone would |
| Patch.OverrideTwiceThenReset | patch.go:76-137 | after two `ApplyGlobalVar`s on one location, a `Reset` that finishes puts back the first double, because the second override replaced the backup |
| Patch.ResetAgain | patch.go:128-137 | a second `Reset` with nothing applied since a finished one finishes and changes neither memory, protections nor any variable |
| Patch.Patches.constructor | patch.go:49-51 | a new session has no backups |
| Patch.Patches.ApplyCore | patch.go:139-147 | a failed check, an existing backup, or a nil target (its funcval is read through a nil pointer) panics with nothing changed; otherwise the trampoline is written over the target's entry as `modifyBinary` does, and on success exactly one backup, the 12 old bytes, is added and every other backup is kept |
| Patch.Patches.ApplyMethod | patch.go:67-74 | an unknown method name panics with nothing changed; otherwise it is `ApplyCore` on the method's function value |
| Patch.Patches.ApplyFuncSeq | patch.go:98-103 | a failed table check panics with nothing changed and no stub; otherwise it makes a fresh stub of the target's own type, counter 0, over the expanded table, and it is `ApplyCore` with that stub's function value, so a nil target panics only after the stub is made |
| Patch.Patches.ApplyMethodSeq | patch.go:105-112 | an unknown method name or a failed table check panics with nothing changed and no stub; otherwise it makes a fresh stub of the method's type, counter 0, over the expanded table, and it is `ApplyCore` on the method with that stub's function value |
| Patch.Patches.ApplyGlobalVar | patch.go:76-86 | a non-pointer, or a nil pointer (reading it panics), panics with nothing changed; otherwise the old value is backed up, replacing any earlier backup; then the double is stored, or a double of another type panics with the location unchanged |
| Patch.Patches.ApplyFuncVar | patch.go:88-96 | a non-pointer panics; a nil pointer panics as "target is not a func"; a variable and double that are not functions of one type panic; each with nothing changed; otherwise the old value is backed up and the double stored |
| Patch.Patches.ApplyFuncVarSeq | patch.go:114-126 | a non-pointer, a nil pointer or a variable that is not a function, or a failed table check, panics with nothing changed and no stub; otherwise a fresh stub of the variable's type, counter 0, over the expanded table is made, the variable is backed up and set to that stub's function value |
| Patch.Patches.Reset | patch.go:128-137 | finishes exactly when every entry page accepts both protection changes; then no function backup is left, every entry page is read/execute, every window holds its backup (disjoint windows) and every variable holds its backup; a panic halts at a target whose page refused a change: its backup and every backup not yet written back are kept unchanged, every deleted backup was written back, protections are exactly those the writes so far set, and variables are untouched; nothing outside the windows changes |
| Patch.Patches.RestoreCode | patch.go:129-132 | the first loop of `Reset` as above, without the variables |
| Patch.CodeHalted | patch.go:129-132 | a loop halted at a target whose backup is kept ends the first loop in that panic, with the deleted backups exactly those written back |
| Patch.Patches.RestoreOne | patch.go:130-131 | one pass: writes one backup back and deletes it when its page accepts both changes; otherwise panics with the backups kept, the window written back only when the page was made writable, and that page left read/write/execute |
| Patch.Patches.RestoreVars | patch.go:134-136 | every backed-up location gets its backup value; other locations are untouched |

## Left out

- `getPointer` and `entryAddress` (patch.go:237-248) depend on Go's memory layout and on `unsafe`. A function value carries its funcval address, and a byte window is an index range of the process's byte array.
- `syscall.Mprotect` is modelled as deterministic: the process has a fixed set of (page, protection) requests the OS refuses. `syscall.Getpagesize` is a power of two, 2^pageShift.
- `modifyBinary` unprotects only target's page, and nothing in the code checks that the window stays inside it. The model requires it (`FitsInPage`).
- `reflect`: `MethodByName` is a map from method names to function values. Assignability in `Set` is type identity, both in `ApplyGlobalVar` and in `GetResultValues`. A `reflect.Value` map key is the address the value carries: the funcval for function backups, the location for variable backups.
- `reflect.MakeFunc`: the address of the funcval it allocates is a parameter of the methods that make a stub (`closure`); no bytes are written for it. The count of returned values that it checks is part of `CallResults`.
- Types are structural, except that a function type carries its name (empty for a type literal), so two named function types with one signature differ. Interface types are not part of this model.
- Patch.Patches.ApplyGlobalVar: assignability is type identity, so a double whose type only implements an interface-typed variable's type panics here, where Go's `Set` accepts it. The same holds for the results `GetResultValues` converts.
- Patch.Patches.Reset: a backed-up interface-typed variable that held nil is backed up in Go as an invalid `reflect.Value`, and `Set` of it panics after the code loop has finished. The model has no such variables, so its `Reset`, and `OverrideThenReset`, finish whenever the code loop does.
- Patch.Patches.ApplyMethod: the method's function value is fixed per (type, name), so a second patch of one method finds the first backup and panics. In Go each `MethodByName` call may yield a new `reflect.Value`, a different map key, so that check may not catch it there. The same holds for `ApplyMethodSeq`. The `reflect` package is not part of this model.
- A pointer reaches a storage location only when its address is not 0 (the nil pointer) and is a location of the process's variables (`Located`). `ApplyGlobalVar` panics for any other pointer before recording a backup, where Go's `Elem()` gives an invalid value whose `Interface()` panics. `ApplyFuncVar` and `ApplyFuncVarSeq` panic as "target is not a func", because the invalid value's kind is not `Func`.
- Go map iteration order is not modelled. `Reset` picks the next backup nondeterministically, and its contract holds for every order.
- Memory.Process.ModifyBinary: a panic is a returned `Outcome`, not an unwinding. The state at the panic is part of the contract.
- Patch.Patches.Reset: it requires `ResetLayout`: every funcval of a backed-up target lies inside memory, every 12-byte entry window lies inside its page, and no entry window covers a funcval word. Go keeps funcvals in data pages and function code in text pages, so the code cannot break this, but nothing in it checks it. The same holds for `RestoreCode`.
- Patch.Patches.Reset: it states the restored window contents only when no two windows overlap. With overlapping windows the final bytes depend on the iteration order.
- Patch.ResetRoundTrip: it assumes that every window is clear of every funcval, and that the windows are pairwise disjoint.
- The package-level wrappers and `ApplyFunc` (patch.go:21-63) forward to the session methods, `reflect.ValueOf` being the identity here. `NewPatches` and `create` are the `Patches` constructor.
- Executing the trampoline on a CPU, instruction-cache coherence, and other threads running the patched code are left out. `JumpDestination` only says where the jump goes.
- Panic messages and their `fmt.Sprintf` formatting are reduced to the `Fault` constructors.
