/** Machine-level vocabulary of the OS/161 kernel that runprogram relies on:
    bytes, NUL-terminated strings, unsigned address arithmetic of the width of
    vaddr_t, the alignment macros and the kernel's error numbers. */
module Machine {

  newtype byte = b: int | 0 <= b < 256

  /** A C string as the kernel holds it: the bytes before its terminating NUL. */
  type CString = s: seq<byte> | 0 !in s

  /** Error numbers (values of OS/161's kern/errno.h; only that they are
      nonzero and distinct matters to this model). */
  const ENOMEM: int := 3
  const EFAULT: int := 6
  const ENAMETOOLONG: int := 7

  function Pow256(n: nat): (r: nat)
    ensures r >= 1
  {
    if n == 0 then 1 else 256 * Pow256(n - 1)
  }

  /** Number of distinct values of an unsigned integer of vw bytes
      (vaddr_t, and on this ILP32 target also unsigned int and unsigned long). */
  function AddrLimit(vw: nat): nat
  {
    Pow256(vw)
  }

  /** First address above user space: the lower half of the address space. */
  function UserTop(vw: nat): nat
  {
    Pow256(vw) / 2
  }

  /** Unsigned subtraction a - d on vw-byte integers: wraps modulo 2^(8*vw). */
  function Sub(a: int, d: int, vw: nat): (r: int)
    requires 0 <= a < AddrLimit(vw) && 0 <= d
    ensures 0 <= r < AddrLimit(vw)
    ensures (r - (a - d)) % AddrLimit(vw) == 0
    ensures a - d >= 0 ==> r == a - d
    ensures a - d < 0 && d <= AddrLimit(vw) ==> r == a - d + AddrLimit(vw)
    ensures a - d < 0 ==> r + d >= AddrLimit(vw)
  {
    var L := AddrLimit(vw);
    var q := (a - d) / L;
    DivModParts(a - d, L);
    MulBounds(L, q);
    MultipleMod(L, -q);
    assert (a - d) % L - (a - d) == L * (-q);
    (a - d) % L
  }

  /** x == L * (x / L) + x % L, with the quotient's sign spelled out. */
  lemma {:induction false} DivModParts(x: int, L: int)
    requires L > 0
    ensures x == L * (x / L) + x % L && 0 <= x % L < L
    ensures x >= 0 ==> x / L >= 0
    ensures x < 0 ==> x / L <= -1
    ensures -L <= x < 0 ==> x / L == -1
  {
  }

  /** stackptr - stackptr % n: the largest multiple of n not above x. */
  function AlignDown(x: int, n: int): (r: int)
    requires 0 <= x && 0 < n
    ensures r % n == 0 && 0 <= r <= x < r + n
  {
    DivModParts(x, n);
    MultipleMod(n, x / n);
    x - x % n
  }

  lemma {:induction false} MultipleMod(n: int, q: int)
    requires 0 < n
    ensures (n * q) % n == 0
  {
    DivModParts(n * q, n);
    var q' := (n * q) / n;
    var m := (n * q) % n;
    assert n * (q - q') == m;
    MulBounds(n, q - q');
  }

  lemma {:induction false} MulBounds(n: int, k: int)
    requires 0 < n
    ensures k >= 1 ==> n * k >= n
    ensures k <= -1 ==> n * k <= -n
  {
  }

  /** ROUNDUP(a, b) of OS/161's lib.h: DIVROUNDUP(a, b) * b, the least
      multiple of b that is not below a. */
  function RoundUp(a: int, b: int): (r: int)
    requires 0 <= a && 0 < b
    ensures r % b == 0 && a <= r < a + b
  {
    var q := (a + b - 1) / b;
    DivModParts(a + b - 1, b);
    MultipleMod(b, q);
    q * b
  }

  /** ROUNDUP leaves a multiple of b as it is. */
  lemma {:induction false} RoundUpExact(a: int, b: int)
    requires 0 <= a && 0 < b && a % b == 0
    ensures RoundUp(a, b) == a
  {
    var r := RoundUp(a, b);
    DivModParts(r, b);
    DivModParts(a, b);
    assert r - a == b * (r / b - a / b);
    MulBounds(b, r / b - a / b);
  }

  /** The vw bytes of an unsigned word as a big-endian machine (sys161's MIPS)
      stores them, most significant first. */
  function WordBytes(w: nat, vw: nat): (bs: seq<byte>)
    requires w < Pow256(vw)
    ensures |bs| == vw
  {
    if vw == 0 then []
    else
      DivModParts(w, 256);
      WordBytes(w / 256, vw - 1) + [(w % 256) as byte]
  }

  /** The unsigned word a big-endian load reads from the first n bytes of bs. */
  function WordPrefix(bs: seq<byte>, n: nat): (w: nat)
    requires n <= |bs|
    ensures w < Pow256(n)
  {
    if n == 0 then 0 else WordPrefix(bs, n - 1) * 256 + bs[n - 1] as int
  }

  /** The unsigned word a big-endian load reads from bs. */
  function WordValue(bs: seq<byte>): (w: nat)
    ensures w < Pow256(|bs|)
  {
    WordPrefix(bs, |bs|)
  }

  /** A load reads only the bytes it covers. */
  lemma {:induction false} WordPrefixSame(bs: seq<byte>, cs: seq<byte>, n: nat)
    requires n <= |bs| && n <= |cs|
    requires forall k :: 0 <= k < n ==> bs[k] == cs[k]
    ensures WordPrefix(bs, n) == WordPrefix(cs, n)
  {
    if n > 0 {
      WordPrefixSame(bs, cs, n - 1);
    }
  }

  /** Loading a stored word gives the word back. */
  lemma {:induction false} WordRoundTrip(w: nat, vw: nat)
    requires w < Pow256(vw)
    ensures WordValue(WordBytes(w, vw)) == w
  {
    if vw > 0 {
      DivModParts(w, 256);
      var bs := WordBytes(w, vw);
      var hs := WordBytes(w / 256, vw - 1);
      assert bs == hs + [(w % 256) as byte];
      WordPrefixSame(bs, hs, vw - 1);
      WordRoundTrip(w / 256, vw - 1);
    }
  }

  /** strlen(bs + off): the number of bytes from bs[off] up to the first NUL
      (up to the end of bs if there is none). */
  function StrLen(bs: seq<byte>, off: nat): (n: nat)
    requires off <= |bs|
    ensures off + n <= |bs|
    ensures forall k :: off <= k < off + n ==> bs[k] != 0
    ensures off + n < |bs| ==> bs[off + n] == 0
    decreases |bs| - off
  {
    if off == |bs| || bs[off] == 0 then 0 else 1 + StrLen(bs, off + 1)
  }

  /** strlen stops at the NUL that ends a C string. */
  lemma {:induction false} StrLenOfStored(bs: seq<byte>, off: nat, s: CString)
    requires off + |s| + 1 <= |bs|
    requires forall t :: 0 <= t < |s| + 1 ==> bs[off + t] == (s + [0])[t]
    ensures StrLen(bs, off) == |s|
  {
    assert bs[off + |s|] == (s + [0])[|s|] == 0;
    forall k | off <= k < off + |s|
      ensures bs[k] != 0
    {
      assert bs[k] == (s + [0])[k - off] == s[k - off];
      assert s[k - off] in s;
    }
  }

  /** ROUNDUP(vw, 4), the slot stride of the pointer table, lies in user space's
      span: so a wrapped table cursor always lands above user space. */
  lemma {:induction false} StrideBelowUserTop(vw: nat)
    requires 1 <= vw
    ensures RoundUp(vw, 4) <= UserTop(vw)
  {
    PowGrows(vw);
  }

  lemma {:induction false} PowGrows(n: nat)
    requires 1 <= n
    ensures Pow256(n) >= 256 * n
  {
    if n > 1 {
      PowGrows(n - 1);
    }
  }
}
