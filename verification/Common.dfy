/** Vocabulary shared by the component models. */
module Common {

  datatype Option<+T> = None | Some(value: T)

  datatype Result<+T, +E> = Ok(value: T) | Err(error: E)

  type byte = n: int | 0 <= n < 0x100

  type Bytes = seq<byte>

  /** One past the largest value of a 32-bit unsigned machine word. */
  const WORD: int := 0x1_0000_0000

  const NUL: char := '\0'

  /** A number kept in a 32-bit unsigned machine word. */
  function Word(n: int): int
  {
    n % WORD
  }

  lemma WordDifference(at: int, since: int)
    ensures Word(Word(at) - Word(since)) == Word(at - since)
  {
    WordMultiples(Word(at) - Word(since), at / WORD - since / WORD);
  }

  lemma {:induction false} WordMultiples(x: int, k: int)
    ensures Word(x + k * WORD) == Word(x)
    decreases if k < 0 then -k else k
  {
    if k == 0 {
    } else if k > 0 {
      WordMultiples(x, k - 1);
    } else {
      WordMultiples(x, k + 1);
    }
  }

  function Zeros(n: nat): (z: Bytes)
    ensures |z| == n
  {
    seq(n, _ => 0)
  }

  predicate AllZero(b: Bytes)
  {
    forall i :: 0 <= i < |b| ==> b[i] == 0
  }

  lemma ZerosAreZero(n: nat)
    ensures AllZero(Zeros(n))
  {
  }

  /** `width` bytes of `n`, least significant first. */
  function LittleEndian(n: nat, width: nat): (b: Bytes)
    ensures |b| == width
    decreases n, width
  {
    if width == 0 then [] else [n % 0x100] + LittleEndian(n / 0x100, width - 1)
  }

  function FromLittleEndian(b: Bytes): nat
  {
    if b == [] then 0 else b[0] + 0x100 * FromLittleEndian(b[1..])
  }

  function Pow256(n: nat): nat
  {
    if n == 0 then 1 else 0x100 * Pow256(n - 1)
  }

  lemma {:induction false} LittleEndianRoundTrip(n: nat, width: nat)
    requires n < Pow256(width)
    ensures FromLittleEndian(LittleEndian(n, width)) == n
    decreases width
  {
    if width == 0 {
    } else {
      LittleEndianRoundTrip(n / 0x100, width - 1);
      assert LittleEndian(n, width)[1..] == LittleEndian(n / 0x100, width - 1);
    }
  }

  /** The `I` and `L` fields of a little-endian struct. */
  function Le32(n: nat): (b: Bytes)
    requires n < WORD
    ensures |b| == 4 && b == LittleEndian(n, 4) && FromLittleEndian(b) == n
  {
    assert Pow256(4) == WORD;
    LittleEndianRoundTrip(n, 4);
    LittleEndian(n, 4)
  }

  /** Byte by byte, least significant first. */
  lemma Le32Bytes(n: nat)
    requires n < WORD
    ensures Le32(n) == [n % 256, n / 256 % 256, n / 65536 % 256, n / 16777216 % 256]
  {
    var a, b, c := n / 256, n / 65536, n / 16777216;
    assert a / 256 == b && b / 256 == c;
    assert LittleEndian(c, 1) == [c % 256] + LittleEndian(c / 256, 0) == [c % 256];
    assert LittleEndian(b, 2) == [b % 256, c % 256];
    assert LittleEndian(a, 3) == [a % 256, b % 256, c % 256];
  }

  function Flatten<T>(parts: seq<seq<T>>): seq<T>
  {
    if parts == [] then [] else parts[0] + Flatten(parts[1..])
  }

  lemma Reassociate<T>(a: seq<T>, b: seq<T>, c: seq<T>)
    ensures a + b + c == a + (b + c)
  {
  }

  // ----- memcpy ------------------------------------------------------------------------------------

  /** A buffer with `xs` copied to an offset. */
  function Placed<T>(s: seq<T>, at: nat, xs: seq<T>): (r: seq<T>)
    requires at + |xs| <= |s|
    ensures |r| == |s|
  {
    s[..at] + xs + s[at + |xs|..]
  }

  lemma PlacedAt<T>(s: seq<T>, at: nat, xs: seq<T>, k: nat)
    requires at + |xs| <= |s| && k < |s|
    ensures Placed(s, at, xs)[k] == if at <= k < at + |xs| then xs[k - at] else s[k]
  {
  }

  method CopyTo<T>(dst: array<T>, at: nat, xs: seq<T>)
    requires at + |xs| <= dst.Length
    modifies dst
    ensures dst[..] == Placed(old(dst[..]), at, xs)
  {
    forall i | 0 <= i < |xs| {
      dst[at + i] := xs[i];
    }
  }
}
