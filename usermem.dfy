/** The user memory of a new process's address space, as the kernel's copy
    primitives see it: one mapped region of bytes, inside user space, into
    which copyoutstr and copyout write or fail with EFAULT. */
module UserMem {
  import opened Machine

  /** data with the first n bytes of bs written at off, off + 1, ...,
      off + n - 1, one byte at a time in ascending address order. */
  function WritePrefix(data: seq<byte>, off: nat, bs: seq<byte>, n: nat): (r: seq<byte>)
    requires n <= |bs| && off + |bs| <= |data|
    ensures |r| == |data|
  {
    if n == 0 then data else WritePrefix(data, off, bs, n - 1)[off + n - 1 := bs[n - 1]]
  }

  /** data with bs written over it starting at offset off. */
  function Splice(data: seq<byte>, off: nat, bs: seq<byte>): (r: seq<byte>)
    requires off + |bs| <= |data|
    ensures |r| == |data|
  {
    WritePrefix(data, off, bs, |bs|)
  }

  lemma {:induction false} WritePrefixKeeps(data: seq<byte>, off: nat, bs: seq<byte>, n: nat, x: int)
    requires n <= |bs| && off + |bs| <= |data| && 0 <= x < |data| && (x < off || off + n <= x)
    ensures WritePrefix(data, off, bs, n)[x] == data[x]
  {
    if n > 0 {
      WritePrefixKeeps(data, off, bs, n - 1, x);
    }
  }

  lemma {:induction false} WritePrefixReads(data: seq<byte>, off: nat, bs: seq<byte>, n: nat, i: nat)
    requires n <= |bs| && off + |bs| <= |data| && i < n
    ensures WritePrefix(data, off, bs, n)[off + i] == bs[i]
  {
    if i < n - 1 {
      WritePrefixReads(data, off, bs, n - 1, i);
    }
  }

  /** A write leaves every byte beside it as it was. */
  lemma {:induction false} SpliceKeeps(data: seq<byte>, off: nat, bs: seq<byte>, x: int)
    requires off + |bs| <= |data| && 0 <= x < |data| && (x < off || off + |bs| <= x)
    ensures Splice(data, off, bs)[x] == data[x]
  {
    WritePrefixKeeps(data, off, bs, |bs|, x);
  }

  /** Byte i of what was written reads back at off + i. */
  lemma {:induction false} SpliceReads(data: seq<byte>, off: nat, bs: seq<byte>, i: nat)
    requires off + |bs| <= |data| && i < |bs|
    ensures Splice(data, off, bs)[off + i] == bs[i]
  {
    WritePrefixReads(data, off, bs, |bs|, i);
  }

  /** The n bytes at address a lie in the region [base, base + size). */
  predicate InRegion(base: int, size: int, a: int, n: int)
  {
    base <= a && a + n <= base + size
  }

  /** A cursor lowered by d with unsigned wrap-around either did not wrap or
      landed where no n-byte copy can succeed: mapped user memory lies below
      UserTop, and a wrapped cursor lies above it (or its copy runs past it). */
  lemma {:induction false} WrapNeverMapped(base: int, size: int, c: int, d: int, n: int, vw: nat)
    requires 0 <= base && base + size <= UserTop(vw) && 0 <= c < AddrLimit(vw) && 0 <= d && 1 <= n
    requires n == d || d <= UserTop(vw)
    ensures Sub(c, d, vw) == c - d
            || (!InRegion(base, size, Sub(c, d, vw), n) && !InRegion(base, size, c - d, n))
  {
  }

  /** The n bytes at address a of a region that starts at base. */
  function ReadBytes(data: seq<byte>, base: int, a: int, n: nat): (bs: seq<byte>)
    requires InRegion(base, |data|, a, n)
    ensures |bs| == n
  {
    if n == 0 then [] else ReadBytes(data, base, a, n - 1) + [data[a - base + n - 1]]
  }

  /** Byte t of a read is the byte at a + t. */
  lemma {:induction false} ReadBytesAt(data: seq<byte>, base: int, a: int, n: nat, t: nat)
    requires InRegion(base, |data|, a, n) && t < n
    ensures ReadBytes(data, base, a, n)[t] == data[a - base + t]
  {
    if t < n - 1 {
      ReadBytesAt(data, base, a, n - 1, t);
    }
  }

  /** A read returns bs when the bytes at a, a + 1, ... are those of bs. */
  lemma {:induction false} ReadBytesEq(data: seq<byte>, base: int, a: int, bs: seq<byte>)
    requires InRegion(base, |data|, a, |bs|)
    requires forall t :: 0 <= t < |bs| ==> data[a - base + t] == bs[t]
    ensures ReadBytes(data, base, a, |bs|) == bs
  {
    forall t | 0 <= t < |bs|
      ensures ReadBytes(data, base, a, |bs|)[t] == bs[t]
    {
      ReadBytesAt(data, base, a, |bs|, t);
    }
  }

  /** The NUL-terminated string a reader of user memory finds at address a
      (the bytes up to the first NUL, or to the end of the region). */
  function CStringAt(data: seq<byte>, base: int, a: int): (s: seq<byte>)
    requires InRegion(base, |data|, a, 0)
  {
    ReadBytes(data, base, a, StrLen(data, a - base))
  }

  /** A string stored with its NUL at address a reads back as itself. */
  lemma {:induction false} CStringStoredAt(data: seq<byte>, base: int, a: int, s: CString)
    requires InRegion(base, |data|, a, |s| + 1)
    requires forall t :: 0 <= t < |s| + 1 ==> data[a - base + t] == (s + [0])[t]
    ensures CStringAt(data, base, a) == s
  {
    StrLenOfStored(data, a - base, s);
    forall t | 0 <= t < |s|
      ensures data[a - base + t] == s[t]
    {
      assert data[a - base + t] == (s + [0])[t];
    }
    ReadBytesEq(data, base, a, s);
  }

  /** The vw-byte word a user-mode load reads at address a. */
  function LoadWord(data: seq<byte>, base: int, a: int, vw: nat): nat
    requires InRegion(base, |data|, a, vw)
  {
    WordValue(ReadBytes(data, base, a, vw))
  }

  function Zeros(size: nat): (z: seq<byte>)
    ensures |z| == size && forall k :: 0 <= k < size ==> z[k] == 0
  {
    seq(size, _ => 0)
  }

  /** An address space: the user region it maps and that region's bytes. */
  class AddrSpace {
    /** sizeof(vaddr_t) on the machine this address space belongs to. */
    const vw: nat
    /** Lowest mapped user address. */
    const base: nat
    /** The bytes at base, base + 1, ..., base + |data| - 1. */
    var data: seq<byte>

    ghost predicate Valid()
      reads this
    {
      1 <= vw && base + |data| <= UserTop(vw)
    }

    predicate Mapped(a: int, n: int)
      reads this
    {
      InRegion(base, |data|, a, n)
    }

    constructor (vw: nat, base: nat, size: nat)
      requires 1 <= vw && base + size <= UserTop(vw)
      ensures Valid()
      ensures this.vw == vw && this.base == base && data == Zeros(size)
    {
      this.vw := vw;
      this.base := base;
      data := Zeros(size);
    }

    /** copyoutstr(s, dest, maxLen): copy s and its NUL to user address dest.
        Fails with EFAULT when the destination is not mapped user memory and
        with ENAMETOOLONG when s and its NUL do not fit in maxLen bytes;
        writes nothing when it fails. */
    method CopyOutStr(s: CString, dest: int, maxLen: int) returns (err: int)
      requires Valid()
      modifies this
      ensures Valid() && |data| == |old(data)|
      ensures !old(Mapped(dest, |s| + 1)) ==> err == EFAULT && data == old(data)
      ensures old(Mapped(dest, |s| + 1)) && maxLen < |s| + 1 ==> err == ENAMETOOLONG && data == old(data)
      ensures old(Mapped(dest, |s| + 1)) && |s| + 1 <= maxLen ==>
                err == 0 && data == Splice(old(data), dest - base, s + [0])
    {
      if !Mapped(dest, |s| + 1) {
        return EFAULT;
      }
      if maxLen < |s| + 1 {
        return ENAMETOOLONG;
      }
      data := Splice(data, dest - base, s + [0]);
      err := 0;
    }

    /** copyout(&w, dest, len): store the len-byte word w at user address dest.
        Fails with EFAULT, writing nothing, when the destination is not mapped
        user memory. */
    method CopyOut(w: nat, dest: int, len: nat) returns (err: int)
      requires Valid() && w < Pow256(len)
      modifies this
      ensures Valid() && |data| == |old(data)|
      ensures !old(Mapped(dest, len)) ==> err == EFAULT && data == old(data)
      ensures old(Mapped(dest, len)) ==> err == 0 && data == Splice(old(data), dest - base, WordBytes(w, len))
    {
      if !Mapped(dest, len) {
        return EFAULT;
      }
      data := Splice(data, dest - base, WordBytes(w, len));
      err := 0;
    }
  }
}
