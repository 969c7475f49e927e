/** Bytes, 64-bit machine words and their little-endian layout in memory. */
module Words {

  /** One byte of memory (Go's `byte`). */
  type Byte = b: int | 0 <= b < 256

  /** One more than the largest 64-bit word. */
  const WordModulus: nat := 0x1_0000_0000_0000_0000

  /** A 64-bit machine word (Go's `uintptr` on amd64). */
  type Word = w: int | 0 <= w < WordModulus

  /** Number of bytes in a machine word. */
  const WordBytes: nat := 8

  function Pow2(n: nat): (r: nat)
    ensures r >= 1
  {
    if n == 0 then 1 else 2 * Pow2(n - 1)
  }

  lemma {:induction false} Pow2Add(a: nat, b: nat)
    ensures Pow2(a + b) == Pow2(a) * Pow2(b)
  {
    if a > 0 {
      Pow2Add(a - 1, b);
    }
  }

  lemma Pow2Word(n: nat)
    requires n == 8 * WordBytes
    ensures Pow2(n) == WordModulus
  {
    assert Pow2(8) == 0x100;
    Pow2Add(8, 8);
    assert Pow2(16) == 0x1_0000;
    Pow2Add(16, 16);
    assert Pow2(32) == 0x1_0000_0000;
    Pow2Add(32, 32);
  }

  /** Euclidean division is unique: a quotient/remainder pair in range is THE pair. */
  lemma DivModUnique(x: int, d: int, q: int, r: int)
    requires d > 0 && 0 <= r < d && x == q * d + r
    ensures x / d == q && x % d == r
  {
    var q', r' := x / d, x % d;
    assert (q - q') * d == r' - r by {
      assert (q - q') * d == q * d - q' * d;
    }
    if q > q' {
      MulAtLeast(q - q', d);
    } else if q < q' {
      MulAtLeast(q' - q, d);
    }
  }

  lemma MulAtLeast(k: int, d: int)
    requires k >= 1 && d > 0
    ensures k * d >= d
  {
  }

  /** Shifting right by a then by b bits is shifting by a + b bits. */
  lemma DivDiv(x: nat, a: nat, b: nat)
    requires a > 0 && b > 0
    ensures x / a / b == x / (a * b)
  {
    var q, r := x / (a * b), x % (a * b);
    var r1, r0 := r / a, r % a;
    assert r == r1 * a + r0;
    assert r1 < b;
    assert x == (q * b + r1) * a + r0;
    DivModUnique(x, a, q * b + r1, r0);
    DivModUnique(x / a, b, q, r1);
  }

  /** The value of a little-endian byte string (least significant byte first). */
  function Le(bs: seq<Byte>): nat
  {
    if |bs| == 0 then 0 else bs[0] + 256 * Le(bs[1..])
  }

  /** The n low-order bytes of x, least significant first. */
  function LeBytes(x: nat, n: nat): (bs: seq<Byte>)
    ensures |bs| == n
  {
    if n == 0 then [] else [x % 256] + LeBytes(x / 256, n - 1)
  }

  lemma {:induction false} LeBound(bs: seq<Byte>)
    ensures Le(bs) < Pow2(8 * |bs|)
  {
    if |bs| > 0 {
      var rest := Pow2(8 * (|bs| - 1));
      LeBound(bs[1..]);
      Pow2Add(8, 8 * (|bs| - 1));
      assert Pow2(8) == 256;
      assert Pow2(8 * |bs|) == 256 * rest;
      assert Le(bs) <= 255 + 256 * (rest - 1);
    }
  }

  /** Encoding x into n bytes and reading them back gives x, when x fits. */
  lemma {:induction false} LeOfLeBytes(x: nat, n: nat)
    requires x < Pow2(8 * n)
    ensures Le(LeBytes(x, n)) == x
  {
    if n > 0 {
      Pow2Add(8, 8 * (n - 1));
      assert Pow2(8) == 256;
      assert x / 256 < Pow2(8 * (n - 1)) by {
        DivModUnique(x, 256, x / 256, x % 256);
      }
      LeOfLeBytes(x / 256, n - 1);
      assert LeBytes(x, n)[1..] == LeBytes(x / 256, n - 1);
    }
  }

  /** Reading bytes as a number and writing the number back gives the bytes. */
  lemma {:induction false} LeBytesOfLe(bs: seq<Byte>)
    ensures LeBytes(Le(bs), |bs|) == bs
  {
    if |bs| > 0 {
      var x := Le(bs);
      DivModUnique(x, 256, Le(bs[1..]), bs[0]);
      LeBytesOfLe(bs[1..]);
      assert LeBytes(x, |bs|) == [bs[0]] + bs[1..];
    }
  }

  /** Byte k of the little-endian encoding is x shifted right by 8k bits, truncated to a byte. */
  lemma {:induction false} LeBytesAt(x: nat, n: nat, k: nat)
    requires k < n
    ensures LeBytes(x, n)[k] == (x / Pow2(8 * k)) % 256
  {
    if k > 0 {
      LeBytesAt(x / 256, n - 1, k - 1);
      Pow2Add(8, 8 * (k - 1));
      assert Pow2(8) == 256;
      DivDiv(x, 256, Pow2(8 * (k - 1)));
    }
  }

  /** Eight bytes read little-endian make a word. */
  lemma LeWord(bs: seq<Byte>)
    requires |bs| == WordBytes
    ensures Le(bs) < WordModulus
  {
    LeBound(bs);
    Pow2Word(8 * |bs|);
  }

  /** A word written as eight little-endian bytes reads back as itself. */
  lemma WordBytesRoundTrip(w: Word)
    ensures Le(LeBytes(w, WordBytes)) == w
  {
    var n := WordBytes;
    Pow2Word(8 * n);
    LeOfLeBytes(w, n);
  }

  /** The machine word stored little-endian at address `at`. */
  function ReadWord(m: seq<Byte>, at: nat): (w: Word)
    requires at + WordBytes <= |m|
  {
    LeWord(m[at..at + WordBytes]);
    Le(m[at..at + WordBytes])
  }

  /** A word depends only on its own eight bytes. */
  lemma SameWord(m1: seq<Byte>, m2: seq<Byte>, at: nat)
    requires at + WordBytes <= |m1| && at + WordBytes <= |m2|
    requires forall a | at <= a < at + WordBytes :: m1[a] == m2[a]
    ensures ReadWord(m1, at) == ReadWord(m2, at)
  {
    assert m1[at..at + WordBytes] == m2[at..at + WordBytes];
  }
}
