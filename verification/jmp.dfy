/**
 * The x86-64 trampoline written over a patched function's entry:
 *
 *   48 BA <imm64, little-endian>   MOV rdx, imm64
 *   FF 22                          JMP [rdx]
 *
 * The jump is memory-indirect: control goes to the code pointer stored in the
 * eight bytes at imm64 (the replacement's funcval), not to imm64 itself.
 */
module Jmp {
  import opened Words
  import opened Values

  /** Length of the trampoline in bytes. */
  const JmpLength: nat := 12

  /** `byte(to >> bits)`: shift right, then truncate to the low eight bits. */
  function ShiftByte(to: Word, bits: nat): Byte
  {
    (to / Pow2(bits)) % 256
  }

  /** `MOV rdx, imm64`: REX.W prefix and opcode, before the immediate. */
  const MovRdx: seq<Byte> := [0x48, 0xBA]

  /** `JMP [rdx]`: opcode and ModRM byte. */
  const JmpRdx: seq<Byte> := [0xFF, 0x22]

  /** The immediate operand: to's eight bytes `byte(to >> 8k)`, for k = 0, 1, ..., 7. */
  function Immediate(to: Word): (imm: seq<Byte>)
    ensures |imm| == WordBytes
  {
    seq(WordBytes, (k: nat) => ShiftByte(to, 8 * k))
  }

  /** `buildJmpDirective(to)`. */
  function BuildJmpDirective(to: Word): (code: seq<Byte>)
    ensures |code| == JmpLength
  {
    MovRdx + Immediate(to) + JmpRdx
  }

  /** Recognises a trampoline and yields the address its MOV loads into rdx. */
  function DecodeJmp(code: seq<Byte>): (r: Option<Word>)
    ensures r.Some? ==> |code| == JmpLength && code[..2] == [0x48, 0xBA] && code[10..] == [0xFF, 0x22]
  {
    if |code| == JmpLength && code[0] == 0x48 && code[1] == 0xBA && code[10] == 0xFF && code[11] == 0x22
    then
      LeWord(code[2..10]);
      Some(Le(code[2..10]))
    else None
  }

  /**
   * Where executing `code` sends control in memory `mem`: the code pointer read
   * from the funcval whose address the trampoline loads. None when `code` is
   * not a trampoline or the funcval lies outside memory.
   */
  function JumpDestination(mem: seq<Byte>, code: seq<Byte>): Option<Word>
  {
    match DecodeJmp(code)
    case Some(slot) =>
      if slot + WordBytes <= |mem| then Some(ReadWord(mem, slot)) else None
    case None => None
  }

  /** The fixed opcodes frame the address, stored least significant byte first. */
  lemma JmpLayout(to: Word)
    ensures BuildJmpDirective(to)[..2] == [0x48, 0xBA]
    ensures BuildJmpDirective(to)[10..] == [0xFF, 0x22]
    ensures BuildJmpDirective(to)[2..10] == LeBytes(to, WordBytes)
    ensures forall k | 0 <= k < WordBytes :: BuildJmpDirective(to)[k + 2] == ShiftByte(to, 8 * k)
  {
    var code, imm, le := BuildJmpDirective(to), Immediate(to), LeBytes(to, WordBytes);
    assert code[..2] == MovRdx && code[2..10] == imm && code[10..] == JmpRdx;
    forall k | 0 <= k < WordBytes
      ensures imm[k] == le[k]
    {
      LeBytesAt(to, WordBytes, k);
    }
  }

  /** Decoding the trampoline gives back the address it was built from. */
  lemma JmpRoundTrip(to: Word)
    ensures DecodeJmp(BuildJmpDirective(to)) == Some(to)
  {
    JmpLayout(to);
    WordBytesRoundTrip(to);
  }

  /** Every byte string the decoder accepts is the trampoline for the address it yields. */
  lemma JmpDecodeSound(code: seq<Byte>)
    requires DecodeJmp(code).Some?
    ensures BuildJmpDirective(DecodeJmp(code).value) == code
  {
    var to := DecodeJmp(code).value;
    JmpLayout(to);
    LeBytesOfLe(code[2..10]);
    SameThreeParts(BuildJmpDirective(to), code);
  }

  lemma SameThreeParts(a: seq<Byte>, b: seq<Byte>)
    requires |a| == |b| == JmpLength
    requires a[..2] == b[..2] && a[2..10] == b[2..10] && a[10..] == b[10..]
    ensures a == b
  {
    assert a == a[..2] + a[2..10] + a[10..];
    assert b == b[..2] + b[2..10] + b[10..];
  }

  /** Distinct addresses give distinct trampolines. */
  lemma JmpInjective(a: Word, b: Word)
    ensures BuildJmpDirective(a) == BuildJmpDirective(b) <==> a == b
  {
    JmpRoundTrip(a);
    JmpRoundTrip(b);
  }

  /**
   * Executing the trampoline built from a funcval address reaches the code
   * pointer stored at that address, not the address itself.
   */
  lemma TrampolineDestination(mem: seq<Byte>, to: Word)
    requires to + WordBytes <= |mem|
    ensures JumpDestination(mem, BuildJmpDirective(to)) == Some(ReadWord(mem, to))
  {
    JmpRoundTrip(to);
  }
}
