/** Byte strings and 32-bit lengths in network byte order. */
module Bytes {
  import opened Sequences

  type Byte = b: int | 0 <= b < 256 witness 0

  type Data = seq<Byte>

  function Min(a: nat, b: nat): (m: nat)
    ensures m <= a && m <= b && (m == a || m == b)
  {
    if a < b then a else b
  }

  // ---------- concatenation of a list of byte strings ----------

  function Concat(parts: seq<Data>): Data {
    if parts == [] then [] else parts[0] + Concat(parts[1..])
  }

  lemma {:induction false} ConcatAppend(a: seq<Data>, b: seq<Data>)
    ensures Concat(a + b) == Concat(a) + Concat(b)
  {
    if a == [] {
      assert a + b == b;
    } else {
      ConcatAppend(a[1..], b);
      assert (a + b)[1..] == a[1..] + b;
      Regroup(a[0], Concat(a[1..]), Concat(b));
    }
  }

  lemma ConcatSnoc(a: seq<Data>, d: Data)
    ensures Concat(a + [d]) == Concat(a) + d
  {
    ConcatAppend(a, [d]);
  }

  // ---------- uint32, big-endian ----------

  const UINT32_SIZE := 0x1_0000_0000

  const PREFIX_LENGTH := 4

  /** The conversion of a size to `uint32_t`. */
  function ToUint32(n: nat): (r: nat)
    ensures r < UINT32_SIZE
  {
    n % UINT32_SIZE
  }

  /** The four bytes `n >> 24`, `n >> 16`, `n >> 8` and `n`, each cut to 8 bits. */
  function EncodeUint32(n: nat): Data
    requires n < UINT32_SIZE
  {
    [n / 0x100_0000 % 256, n / 0x1_0000 % 256, n / 0x100 % 256, n % 256]
  }

  /** The bitwise or of the shifted bytes; the shifted bytes share no bit, so it is their sum. */
  function DecodeUint32(s: Data): (n: nat)
    requires |s| == 4
    ensures n < UINT32_SIZE
  {
    var a: int, b: int, c: int := s[0], s[1], s[2];
    a * 0x100_0000 + b * 0x1_0000 + c * 0x100 + s[3]
  }

  lemma DecodeEncode(n: nat)
    requires n < UINT32_SIZE
    ensures DecodeUint32(EncodeUint32(n)) == n
  {
    assert n / 0x100_0000 == n / 256 / 256 / 256 && n / 0x1_0000 == n / 256 / 256;
  }

  lemma EncodeDecode(s: Data)
    requires |s| == 4
    ensures EncodeUint32(DecodeUint32(s)) == s
  {
    var n := DecodeUint32(s);
    var a: int, b: int, c: int := s[0], s[1], s[2];
    assert n / 0x100 == a * 0x1_0000 + b * 0x100 + c;
    assert n / 0x1_0000 == a * 0x100 + b;
    assert n / 0x100_0000 == a;
  }

  /** The most significant byte comes first: the first byte that differs decides which number is smaller. */
  lemma MostSignificantFirst(s: Data, t: Data, i: nat)
    requires |s| == |t| == 4 && i < 4 && s[..i] == t[..i] && s[i] < t[i]
    ensures DecodeUint32(s) < DecodeUint32(t)
  {
    assert forall k :: 0 <= k < i ==> s[..i][k] == s[k] && t[..i][k] == t[k];
  }

  /** A length is cut to its remainder by 2^32. */
  lemma ToUint32Exactly(n: nat, q: nat, r: nat)
    requires r < UINT32_SIZE
    ensures n == q * UINT32_SIZE + r ==> ToUint32(n) == r
    ensures exists p: nat :: n == p * UINT32_SIZE + ToUint32(n)
  {
    assert n == n / UINT32_SIZE * UINT32_SIZE + ToUint32(n);
    if n == q * UINT32_SIZE + r {
      assert n / UINT32_SIZE == q;
    }
  }
}
