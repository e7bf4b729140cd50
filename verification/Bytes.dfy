/** Bytes, big-endian cells and the alignment arithmetic of the flattened format. */
module Bytes {
  newtype byte = b: int | 0 <= b < 0x100
  type u32 = w: int | 0 <= w < 0x1_0000_0000
  type u64 = w: int | 0 <= w < 0x1_0000_0000_0000_0000
  type bytes = seq<byte>

  const NUL: byte := 0
  const SLASH: byte := 47
  const AT_SIGN: byte := 64
  const COLON: byte := 58
  const TWO31: int := 0x8000_0000
  const TWO32: int := 0x1_0000_0000

  /** The low `n` bytes of `w`, most significant first. */
  function BigEndian(w: nat, n: nat): (r: bytes)
    ensures |r| == n
  {
    if n == 0 then [] else BigEndian(w / 0x100, n - 1) + [(w % 0x100) as byte]
  }

  /** The number written by bytes, most significant first. */
  function Number(s: bytes): (r: nat)
    ensures r < Pow256(|s|)
  {
    PowStep(if s == [] then 0 else |s| - 1);
    if s == [] then 0 else Number(s[..|s| - 1]) * 0x100 + s[|s| - 1] as int
  }

  function Pow256(n: nat): (r: nat)
    ensures n == 2 ==> r == 0x1_0000
    ensures n == 4 ==> r == 0x1_0000_0000
    ensures n == 6 ==> r == 0x1_0000_0000_0000
    ensures n == 8 ==> r == 0x1_0000_0000_0000_0000
  {
    if n == 0 then 1 else if n == 1 then 0x100 else 0x1_0000 * Pow256(n - 2)
  }

  lemma {:induction false} PowStep(n: nat)
    ensures Pow256(n + 1) == 0x100 * Pow256(n)
  {
    if n > 1 { PowStep(n - 2); }
  }

  /** The four big-endian bytes of a cell. */
  function Word(w: u32): (r: bytes)
    ensures |r| == 4
  {
    BigEndian(w, 4)
  }

  /** The cell stored in four big-endian bytes. */
  function Cell(s: bytes): u32
    requires |s| == 4
  {
    s[0] as int * 0x100_0000 + s[1] as int * 0x1_0000 + s[2] as int * 0x100 + s[3] as int
  }

  lemma CellIsNumber(s: bytes)
    requires |s| == 4
    ensures Cell(s) == Number(s)
  {
    assert s[..3][..2] == s[..2] && s[..2][..1] == s[..1];
    assert s[..1][..0] == [] && Number([]) == 0;
    assert Number(s[..1]) == s[0] as int;
    assert Number(s[..2]) == Number(s[..1]) * 0x100 + s[1] as int;
    assert Number(s[..3]) == Number(s[..2]) * 0x100 + s[2] as int;
  }

  lemma {:induction false} NumberOfBigEndian(w: nat, n: nat)
    requires w < Pow256(n)
    ensures Number(BigEndian(w, n)) == w
  {
    hide BigEndian, Number, Pow256;
    if n == 0 {
      NumberOfNone();
      assert w == 0 by { PowNone(); }
    } else {
      var x, b := w / 0x100, (w % 0x100) as byte;
      PowStep(n - 1);
      NumberOfBigEndian(x, n - 1);
      BigEndianMore(x, b, n - 1);
      var r := BigEndian(w, n);
      assert r == BigEndian(x, n - 1) + [b];
      assert r[..n - 1] == BigEndian(x, n - 1);
      NumberMore(r);
    }
  }

  lemma PowNone()
    ensures Pow256(0) == 1
  {
  }

  lemma CellOfWord(w: u32)
    ensures Cell(Word(w)) == w
  {
    CellIsNumber(Word(w));
    NumberOfBigEndian(w, 4);
  }

  lemma {:induction false} BigEndianOfNumber(s: bytes)
    ensures BigEndian(Number(s), |s|) == s
    decreases |s|
  {
    hide BigEndian, Number, Pow256;
    if s == [] {
      NumberOfNone();
    } else {
      var a, b := s[..|s| - 1], s[|s| - 1];
      BigEndianOfNumber(a);
      NumberMore(s);
      BigEndianMore(Number(a), b, |a|);
      assert s == a + [b];
    }
  }

  lemma NumberOfNone()
    ensures Number([]) == 0 && forall w: nat :: BigEndian(w, 0) == []
  {
  }

  lemma NumberMore(s: bytes)
    requires s != []
    ensures Number(s) == Number(s[..|s| - 1]) * 0x100 + s[|s| - 1] as int
  {
    hide Pow256;
  }

  /** One more byte at the end. */
  lemma BigEndianMore(x: nat, b: byte, n: nat)
    ensures BigEndian(x * 0x100 + b as int, n + 1) == BigEndian(x, n) + [b]
  {
    LastByte(x, b as int);
  }

  lemma LastByte(x: nat, b: nat)
    requires b < 0x100
    ensures (x * 0x100 + b) / 0x100 == x && (x * 0x100 + b) % 0x100 == b
  {
  }

  lemma WordOfCell(s: bytes)
    requires |s| == 4
    ensures Word(Cell(s)) == s
  {
    CellIsNumber(s);
    BigEndianOfNumber(s);
  }

  /** The cell at index `i`. */
  function Be32(m: bytes, i: nat): u32
    requires i + 4 <= |m|
  {
    Cell(m[i..i + 4])
  }

  /** Part of a slice is a slice. */
  lemma Sub<T>(s: seq<T>, o: nat, w: seq<T>, i: nat, j: nat)
    requires o + |w| <= |s| && s[o..o + |w|] == w && i <= j <= |w|
    ensures s[o + i..o + j] == w[i..j]
  {
    forall k | i <= k < j ensures s[o + k] == w[k] {
      assert s[o..o + |w|][k] == w[k];
    }
  }

  lemma SliceCut<T>(m: seq<T>, s: nat, e: nat, x: nat)
    requires s <= s + x <= e <= |m|
    ensures m[s..e][..x] == m[s..s + x] && m[s..e][x..] == m[s + x..e]
  {
  }

  lemma SliceJoin<T>(s: seq<T>, a: nat, b: nat, c: nat)
    requires a <= b <= c <= |s|
    ensures s[a..b] + s[b..c] == s[a..c]
  {
  }

  lemma Slices<T>(a: seq<T>, b: seq<T>, c: seq<T>, d: seq<T>, e: seq<T>)
    ensures var w := a + (b + c + d + e);
      w[|a|..|a| + |b|] == b && w[|a| + |b|..|a| + |b| + |c|] == c
      && w[|a| + |b| + |c|..|a| + |b| + |c| + |d|] == d
  {
  }

  /** A multiple of the tag size; written without `%` so that proofs stay linear. */
  predicate Aligned(x: nat) {
    if x < 4 then x == 0 else Aligned(x - 4)
  }

  /** Rounding up to a multiple of four (FDT_TAGALIGN). */
  function Align4(x: nat): (r: nat)
    ensures x <= r < x + 4
  {
    if x == 0 then 0 else if x <= 4 then 4 else 4 + Align4(x - 4)
  }

  lemma {:induction false} AlignedMod(x: nat)
    ensures Aligned(x) <==> x % 4 == 0
  {
    if x >= 4 { AlignedMod(x - 4); }
  }

  lemma {:induction false} Align4Div(x: nat)
    ensures Align4(x) == (x + 3) / 4 * 4
  {
    if x > 4 { Align4Div(x - 4); }
  }

  lemma {:induction false} AlignedSum(a: nat, b: nat)
    requires Aligned(a)
    ensures Aligned(a + b) <==> Aligned(b)
    decreases a
  {
    if a >= 4 { AlignedSum(a - 4, b); }
  }

  lemma {:induction false} AlignIs(x: nat, m: nat)
    requires Aligned(m) && x <= m < x + 4
    ensures Align4(x) == m
    decreases x
  {
    if x > 4 { AlignIs(x - 4, m - 4); }
  }

  lemma {:induction false} Align4Aligned(x: nat)
    ensures Aligned(Align4(x))
  {
    if x > 4 { Align4Aligned(x - 4); }
  }

  lemma {:induction false} Align4Mono(x: nat, y: nat)
    requires x <= y
    ensures Align4(x) <= Align4(y)
  {
    if x > 4 { Align4Mono(x - 4, y - 4); }
  }

  lemma AlignPadded(o: nat, n: nat, pad: nat)
    requires Aligned(o) && Aligned(n + pad) && pad < 4
    ensures Align4(o + n) == o + n + pad
  {
    AlignedSum(o, n + pad);
    AlignIs(o + n, o + n + pad);
  }

  /** Conversion of a mathematical integer to a 32-bit unsigned value. */
  function U32(x: int): u32 {
    if 0 <= x < 0x1_0000_0000 then x else x % 0x1_0000_0000
  }

  /** Conversion of a 32-bit unsigned value to a signed `int`. */
  function I32(x: u32): int {
    if x < 0x8000_0000 then x else x - 0x1_0000_0000
  }

  function Min(a: int, b: int): int {
    if a <= b then a else b
  }
}
