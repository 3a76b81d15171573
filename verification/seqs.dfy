/** Bytes, buffers and the sequence helpers (repetition and counting)
    that the traces of the forwarding loops are measured with. */
module Seqs {

  /** An octet, as `unsigned char` in the forwarding loops. */
  newtype byte = x: int | 0 <= x < 256

  /** A byte buffer; the loops mutate theirs in place, the model threads
      successive versions through its functions instead. */
  type Buffer = seq<byte>

  /** `b >> 4` on an unsigned char: the high nibble. */
  function HighNibble(b: byte): (n: int)
    ensures 0 <= n < 16
    ensures n * 16 <= b as int < n * 16 + 16
  {
    b as int / 16
  }

  /** A 16-bit big-endian field splits back into its two bytes. */
  lemma BigEndian16(hi: byte, lo: byte)
    ensures (hi as int * 256 + lo as int) / 256 == hi as int
    ensures (hi as int * 256 + lo as int) % 256 == lo as int
  {
  }

  lemma ConcatAssoc<T>(a: seq<T>, b: seq<T>, c: seq<T>)
    ensures (a + b) + c == a + (b + c)
  {
  }

  /** `n` copies of `x`. */
  function Replicate<T>(x: T, n: nat): (r: seq<T>)
    ensures |r| == n
    ensures forall i :: 0 <= i < n ==> r[i] == x
  {
    if n == 0 then [] else [x] + Replicate(x, n - 1)
  }

  /** Number of occurrences of `x` in `s`. */
  function Count<T(==)>(s: seq<T>, x: T): (n: nat)
    ensures n <= |s|
    ensures n == 0 <==> x !in s
  {
    if |s| == 0 then 0
    else (if s[0] == x then 1 else 0) + Count(s[1..], x)
  }

  lemma {:induction false} CountConcat<T>(a: seq<T>, b: seq<T>, x: T)
    ensures Count(a + b, x) == Count(a, x) + Count(b, x)
  {
    if |a| == 0 {
      assert a + b == b;
    } else {
      assert (a + b)[1..] == a[1..] + b;
      CountConcat(a[1..], b, x);
    }
  }
}
