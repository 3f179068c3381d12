/** Option and Result types used where the Rust code returns `Option` or `Result`. */
module Wrappers {
  datatype Option<+T> = None | Some(value: T)

  datatype Result<+T, +E> = Ok(value: T) | Err(error: E)
}

/**
 Bytes, fixed-size byte strings and big-endian integers.

 A byte is an integer below 256, so that length arithmetic stays in plain integers; every
 narrowing cast of the Rust code (`as u8`, `as u16`) is written out.
 */
module Bytes {
  type Byte = b: int | 0 <= b < 0x100

  type Word16 = w: int | 0 <= w < 0x1_0000

  type Word32 = w: int | 0 <= w < 0x1_0000_0000

  type Bytes4 = s: seq<Byte> | |s| == 4 witness [0, 0, 0, 0]

  type Bytes8 = s: seq<Byte> | |s| == 8 witness seq(8, i => 0)

  type Bytes16 = s: seq<Byte> | |s| == 16 witness seq(16, i => 0)

  type Bytes20 = s: seq<Byte> | |s| == 20 witness seq(20, i => 0)

  type Bytes24 = s: seq<Byte> | |s| == 24 witness seq(24, i => 0)

  type Bytes32 = s: seq<Byte> | |s| == 32 witness seq(32, i => 0)

  /** `u16::from_be_bytes([hi, lo])` */
  function Word(hi: Byte, lo: Byte): (w: Word16) {
    hi * 0x100 + lo
  }

  /** `n as u16`: multiples of 65536 are lost. */
  function Low16(n: nat): Word16 {
    if n < 0x1_0000 then n else Low16(n - 0x1_0000)
  }

  /** `n as u8` */
  function Low8(n: nat): Byte {
    if n < 0x100 then n else Low8(n - 0x100)
  }

  /** The casts keep the remainder. */
  lemma {:induction false} CastsAreRemainders(n: nat)
    ensures Low16(n) == n % 0x1_0000 && Low8(n) == n % 0x100
  {
    if n >= 0x100 {
      CastsAreRemainders(n - 0x100);
    }
    if n >= 0x1_0000 {
      CastsAreRemainders(n - 0x1_0000);
    }
  }

  /** `(n as u16).to_be_bytes()`: the two bytes that make up the low sixteen bits. */
  function Be16(n: nat): (b: seq<Byte>)
    ensures |b| == 2
    ensures Word(b[0], b[1]) == Low16(n)
  {
    var w: int := Low16(n);
    assert w == w / 0x100 * 0x100 + w % 0x100;
    var hi: int, lo: int :| 0 <= hi < 0x100 && 0 <= lo < 0x100 && w == hi * 0x100 + lo;
    [hi, lo]
  }

  lemma Associate<T>(a: seq<T>, b: seq<T>, c: seq<T>)
    ensures a + (b + c) == a + b + c
  {
  }

  lemma SliceOfSlice<T>(s: seq<T>, from: nat, to: nat, a: nat, b: nat)
    requires a <= b && from + b <= to <= |s|
    ensures s[from..to][a..b] == s[from + a..from + b]
  {
    var x, y := s[from..to][a..b], s[from + a..from + b];
    assert |x| == |y|;
    forall i | 0 <= i < |x|
      ensures x[i] == y[i]
    {
    }
  }

  lemma HeadThenTail<T>(a: seq<T>, b: seq<T>)
    requires a != []
    ensures [a[0]] + (a[1..] + b) == a + b
  {
  }

  /** `n.to_be_bytes()` for a `u32` */
  function Be32(n: Word32): (b: Bytes4)
    ensures FromBe32(b) == n
  {
    var upper24: int := n / 0x100;
    var upper16: int := upper24 / 0x100;
    [upper16 / 0x100, upper16 % 0x100, upper24 % 0x100, n % 0x100]
  }

  /** `u32::from_be_bytes(b)` */
  function FromBe32(b: Bytes4): (n: Word32) {
    var high: int := Word(b[0], b[1]);
    high * 0x1_0000 + Word(b[2], b[3])
  }

  lemma DivideBack(q: int, r: int, d: int)
    requires 0 <= r < d
    ensures (q * d + r) / d == q
    ensures (q * d + r) % d == r
  {
    var n := q * d + r;
    assert n == (n / d) * d + n % d;
    assert (q - n / d) * d == n % d - r;
    NoMultipleBetween(q - n / d, d);
  }

  lemma NoMultipleBetween(k: int, d: int)
    requires -d < k * d < d
    ensures k == 0
  {
  }

  lemma Be32OfFromBe32(b: Bytes4)
    ensures Be32(FromBe32(b)) == b
  {
    var n: int := FromBe32(b);
    var x0: int, x1: int, x2: int, x3: int := b[0], b[1], b[2], b[3];
    DivideBack(x0 * 0x1_0000 + x1 * 0x100 + x2, x3, 0x100);
    DivideBack(x0 * 0x100 + x1, x2, 0x100);
    DivideBack(x0, x1, 0x100);
    assert Be32(n) == [x0, x1, x2, x3];
  }

  function Zeros(n: nat): (z: seq<Byte>)
    ensures |z| == n
    ensures forall i :: 0 <= i < n ==> z[i] == 0
  {
    seq(n, i => 0)
  }

  /** The chunks of a byte stream, joined back together. */
  function Flatten(chunks: seq<seq<Byte>>): seq<Byte> {
    if chunks == [] then [] else chunks[0] + Flatten(chunks[1..])
  }

  lemma FlattenAppend(a: seq<seq<Byte>>, b: seq<seq<Byte>>)
    ensures Flatten(a + b) == Flatten(a) + Flatten(b)
  {
    if a == [] {
      assert a + b == b;
    } else {
      FlattenAppend(a[1..], b);
      assert (a + b)[0] == a[0] && (a + b)[1..] == a[1..] + b;
      Associate(a[0], Flatten(a[1..]), Flatten(b));
    }
  }
}
