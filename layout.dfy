/** The user-stack layout runprogram builds for argv, as pure functions of the
    stack pointer from as_define_stack, the argument strings and the word size:
    where each string and each pointer-table slot lands, what user memory
    holds after each of the two copy loops, and the whole marshalling outcome
    (Marshal). The ArgvBuilder class in builder.dfy is proved against these. */
module Layout {
  import opened Machine
  import opened UserMem

  // ---------------------------------------------------------------------
  // The string region: each string and its NUL pushed below sp8 in turn.

  /** Bytes that the first k argument strings take up with their NULs. */
  function StrTotal(args: seq<CString>, k: nat): nat
    requires k <= |args|
  {
    if k == 0 then 0 else StrTotal(args, k - 1) + |args[k - 1]| + 1
  }

  lemma {:induction false} StrTotalMono(args: seq<CString>, a: nat, b: nat)
    requires a <= b <= |args|
    ensures StrTotal(args, a) + (b - a) <= StrTotal(args, b)
  {
    if a < b {
      StrTotalMono(args, a, b - 1);
    }
  }

  /** The address at which args[i] and its NUL are written. */
  function StrAddr(sp8: int, args: seq<CString>, i: nat): int
    requires i < |args|
  {
    sp8 - StrTotal(args, i + 1)
  }

  /** The cursor once every string is pushed: the lowest string byte. */
  function StrEnd(sp8: int, args: seq<CString>): int
  {
    sp8 - StrTotal(args, |args|)
  }

  /** Each string ends exactly where the previous one begins. */
  lemma {:induction false} StringsContiguous(sp8: int, args: seq<CString>, i: nat)
    requires i + 1 < |args|
    ensures StrAddr(sp8, args, i + 1) + |args[i + 1]| + 1 == StrAddr(sp8, args, i)
  {
  }

  /** A later string lies wholly below an earlier one: the strings never overlap. */
  lemma {:induction false} StringsOrdered(sp8: int, args: seq<CString>, i: nat, j: nat)
    requires i < j < |args|
    ensures StrAddr(sp8, args, j) + |args[j]| + 1 <= StrAddr(sp8, args, i)
  {
    StrTotalMono(args, i + 1, j);
  }

  /** Every string lies in [StrEnd, sp8). */
  lemma {:induction false} StringWithin(sp8: int, args: seq<CString>, i: nat)
    requires i < |args|
    ensures StrEnd(sp8, args) <= StrAddr(sp8, args, i)
    ensures StrAddr(sp8, args, i) + |args[i]| + 1 <= sp8
  {
    StrTotalMono(args, i + 1, |args|);
    StrTotalMono(args, 0, i);
  }

  predicate StringsFit(base: int, size: int, sp8: int, args: seq<CString>, k: nat)
    requires k <= |args|
  {
    forall j {:trigger StrAddr(sp8, args, j)} :: 0 <= j < k ==> InRegion(base, size, StrAddr(sp8, args, j), |args[j]| + 1)
  }

  /** The first string, from index k on, whose bytes fall outside the mapped
      region: the one whose copyoutstr fails. |args| if none does. */
  function FirstStringMiss(base: int, size: int, sp8: int, args: seq<CString>, k: nat): (r: nat)
    requires k <= |args|
    ensures k <= r <= |args|
    ensures forall j {:trigger StrAddr(sp8, args, j)} :: k <= j < r ==> InRegion(base, size, StrAddr(sp8, args, j), |args[j]| + 1)
    ensures r < |args| ==> !InRegion(base, size, StrAddr(sp8, args, r), |args[r]| + 1)
    decreases |args| - k
  {
    if k == |args| || !InRegion(base, size, StrAddr(sp8, args, k), |args[k]| + 1) then k
    else FirstStringMiss(base, size, sp8, args, k + 1)
  }

  /** The region's bytes after the first k strings have been copied out. */
  function StringsImage(data: seq<byte>, base: int, sp8: int, args: seq<CString>, k: nat): (img: seq<byte>)
    requires k <= |args| && StringsFit(base, |data|, sp8, args, k)
    ensures |img| == |data|
  {
    if k == 0 then data
    else
      Splice(StringsImage(data, base, sp8, args, k - 1), StrAddr(sp8, args, k - 1) - base, args[k - 1] + [0])
  }

  /** Byte t of string j (its NUL at t == |args[j]|) is in place once the
      first k > j strings are copied: later strings lie wholly below it. */
  lemma {:induction false} StringsImageAt(data: seq<byte>, base: int, sp8: int, args: seq<CString>,
                                          k: nat, j: nat, t: nat)
    requires k <= |args| && StringsFit(base, |data|, sp8, args, k) && j < k && t < |args[j]| + 1
    ensures 0 <= StrAddr(sp8, args, j) - base + t < |data|
    ensures StringsImage(data, base, sp8, args, k)[StrAddr(sp8, args, j) - base + t] == (args[j] + [0])[t]
  {
    var prev := StringsImage(data, base, sp8, args, k - 1);
    var off := StrAddr(sp8, args, k - 1) - base;
    if j < k - 1 {
      StringsImageAt(data, base, sp8, args, k - 1, j, t);
      StringsOrdered(sp8, args, j, k - 1);
      SpliceKeeps(prev, off, args[k - 1] + [0], StrAddr(sp8, args, j) - base + t);
    } else {
      SpliceReads(prev, off, args[k - 1] + [0], t);
    }
  }

  /** Every string copied so far reads back, NUL included, at its address. */
  lemma {:induction false} StringsImageReadBack(data: seq<byte>, base: int, sp8: int, args: seq<CString>, k: nat, j: nat)
    requires k <= |args| && StringsFit(base, |data|, sp8, args, k) && j < k
    ensures ReadBytes(StringsImage(data, base, sp8, args, k), base, StrAddr(sp8, args, j), |args[j]| + 1)
            == args[j] + [0]
  {
    var img := StringsImage(data, base, sp8, args, k);
    forall t | 0 <= t < |args[j]| + 1
      ensures img[StrAddr(sp8, args, j) - base + t] == (args[j] + [0])[t]
    {
      StringsImageAt(data, base, sp8, args, k, j, t);
    }
    ReadBytesEq(img, base, StrAddr(sp8, args, j), args[j] + [0]);
  }

  /** The string loop writes nothing outside [sp8 - StrTotal(args, k), sp8). */
  lemma {:induction false} StringsImageKeeps(data: seq<byte>, base: int, sp8: int, args: seq<CString>, k: nat, x: int)
    requires k <= |args| && StringsFit(base, |data|, sp8, args, k)
    requires 0 <= x < |data| && (base + x < sp8 - StrTotal(args, k) || sp8 <= base + x)
    ensures StringsImage(data, base, sp8, args, k)[x] == data[x]
  {
    if k > 0 {
      StrTotalMono(args, k - 1, k);
      StringsImageKeeps(data, base, sp8, args, k - 1, x);
      SpliceKeeps(StringsImage(data, base, sp8, args, k - 1), StrAddr(sp8, args, k - 1) - base,
                  args[k - 1] + [0], x);
    }
  }

  // ---------------------------------------------------------------------
  // The pointer table: argsPtr_array[0..argc] pushed one slot at a time.

  /** The first k entries the string loop records in argsPtr_array. */
  function StrPointers(sp8: int, args: seq<CString>, k: nat): (ptrs: seq<int>)
    requires k <= |args|
    ensures |ptrs| == k
    ensures forall i :: 0 <= i < k ==> ptrs[i] == StrAddr(sp8, args, i)
  {
    if k == 0 then [] else StrPointers(sp8, args, k - 1) + [StrAddr(sp8, args, k - 1)]
  }

  /** argsPtr_array once the string loop and the sentinel store are done. */
  function Pointers(sp8: int, args: seq<CString>): (ptrs: seq<int>)
    ensures |ptrs| == |args| + 1
    ensures forall i :: 0 <= i < |args| ==> ptrs[i] == StrAddr(sp8, args, i)
    ensures ptrs[|args|] == 0
  {
    StrPointers(sp8, args, |args|) + [0]
  }

  predicate Words(ptrs: seq<int>, vw: nat)
  {
    forall i :: 0 <= i < |ptrs| ==> 0 <= ptrs[i] < Pow256(vw)
  }

  /** Bytes that n passes of the table loop lower the cursor by. */
  function Strides(stride: int, n: nat): int
  {
    if n == 0 then 0 else Strides(stride, n - 1) + stride
  }

  lemma {:induction false} StridesClosedForm(stride: int, n: nat)
    ensures Strides(stride, n) == n * stride
  {
    if n > 0 {
      StridesClosedForm(stride, n - 1);
      assert n * stride == (n - 1) * stride + stride;
    }
  }

  /** Address of the slot written by the i-th pass of the table loop: each
      pass lowers the cursor by one stride before it writes. */
  function SlotAddr(top4: int, stride: int, i: nat): int
  {
    top4 - Strides(stride, i + 1)
  }

  /** Each slot lies a whole stride below the one written before it. */
  lemma {:induction false} SlotsDescend(top4: int, stride: nat, i: nat, j: nat)
    requires i < j
    ensures SlotAddr(top4, stride, j) + stride <= SlotAddr(top4, stride, i)
  {
    if i < j - 1 {
      SlotsDescend(top4, stride, i, j - 1);
    }
    assert Strides(stride, j + 1) == Strides(stride, j) + stride;
  }

  predicate SlotsFit(base: int, size: int, top4: int, stride: int, vw: nat, k: nat)
  {
    forall i :: 0 <= i < k ==> InRegion(base, size, SlotAddr(top4, stride, i), vw)
  }

  /** The first of the n table slots, from pass k on, that falls outside the
      mapped region: the pass whose copyout fails. n if none does. */
  function FirstSlotMiss(base: int, size: int, top4: int, stride: int, vw: nat, n: nat, k: nat): (r: nat)
    requires k <= n
    ensures k <= r <= n
    ensures forall i :: k <= i < r ==> InRegion(base, size, SlotAddr(top4, stride, i), vw)
    ensures r < n ==> !InRegion(base, size, SlotAddr(top4, stride, r), vw)
    decreases n - k
  {
    if k == n || !InRegion(base, size, SlotAddr(top4, stride, k), vw) then k
    else FirstSlotMiss(base, size, top4, stride, vw, n, k + 1)
  }

  /** The stored form of each table entry: its vw bytes as copyout writes them. */
  function Cells(ptrs: seq<int>, vw: nat): (cells: seq<seq<byte>>)
    requires Words(ptrs, vw)
    ensures |cells| == |ptrs|
    ensures forall i :: 0 <= i < |ptrs| ==> |cells[i]| == vw && cells[i] == WordBytes(ptrs[i], vw)
  {
    CellsPrefix(ptrs, vw, |ptrs|)
  }

  function CellsPrefix(ptrs: seq<int>, vw: nat, n: nat): (cells: seq<seq<byte>>)
    requires Words(ptrs, vw) && n <= |ptrs|
    ensures |cells| == n
    ensures forall i :: 0 <= i < n ==> |cells[i]| == vw && cells[i] == WordBytes(ptrs[i], vw)
  {
    if n == 0 then [] else CellsPrefix(ptrs, vw, n - 1) + [WordBytes(ptrs[n - 1], vw)]
  }

  /** Each stored entry loads back as the entry. */
  lemma {:induction false} CellsDecode(ptrs: seq<int>, vw: nat)
    requires Words(ptrs, vw)
    ensures forall i :: 0 <= i < |ptrs| ==> WordValue(Cells(ptrs, vw)[i]) == ptrs[i]
  {
    forall i | 0 <= i < |ptrs|
      ensures WordValue(Cells(ptrs, vw)[i]) == ptrs[i]
    {
      WordRoundTrip(ptrs[i], vw);
    }
  }

  predicate Uniform(cells: seq<seq<byte>>, vw: nat)
  {
    forall i :: 0 <= i < |cells| ==> |cells[i]| == vw
  }

  /** The region's bytes after the first k table entries have been copied out. */
  function TableImage(data: seq<byte>, base: int, top4: int, stride: int, vw: nat, cells: seq<seq<byte>>, k: nat)
    : (img: seq<byte>)
    requires k <= |cells| && Uniform(cells, vw) && SlotsFit(base, |data|, top4, stride, vw, k)
    ensures |img| == |data|
  {
    if k == 0 then data
    else
      Splice(TableImage(data, base, top4, stride, vw, cells, k - 1), SlotAddr(top4, stride, k - 1) - base, cells[k - 1])
  }

  /** Byte t of entry j is in place once the first k > j entries are
      copied: each later slot lies a whole stride below it. */
  lemma {:induction false} TableImageAt(data: seq<byte>, base: int, top4: int, stride: nat, vw: nat,
                                        cells: seq<seq<byte>>, k: nat, j: nat, t: nat)
    requires k <= |cells| && Uniform(cells, vw) && SlotsFit(base, |data|, top4, stride, vw, k)
    requires vw <= stride && j < k && t < vw
    ensures 0 <= SlotAddr(top4, stride, j) - base + t < |data|
    ensures TableImage(data, base, top4, stride, vw, cells, k)[SlotAddr(top4, stride, j) - base + t] == cells[j][t]
  {
    var prev := TableImage(data, base, top4, stride, vw, cells, k - 1);
    var off := SlotAddr(top4, stride, k - 1) - base;
    if j < k - 1 {
      TableImageAt(data, base, top4, stride, vw, cells, k - 1, j, t);
      SlotsDescend(top4, stride, j, k - 1);
      SpliceKeeps(prev, off, cells[k - 1], SlotAddr(top4, stride, j) - base + t);
    } else {
      SpliceReads(prev, off, cells[k - 1], t);
    }
  }

  /** Every entry copied so far reads back from its slot. */
  lemma {:induction false} TableImageReadBack(data: seq<byte>, base: int, top4: int, stride: nat, vw: nat,
                           cells: seq<seq<byte>>, k: nat, j: nat)
    requires k <= |cells| && Uniform(cells, vw) && SlotsFit(base, |data|, top4, stride, vw, k)
    requires vw <= stride && j < k
    ensures ReadBytes(TableImage(data, base, top4, stride, vw, cells, k), base, SlotAddr(top4, stride, j), vw)
            == cells[j]
  {
    var img := TableImage(data, base, top4, stride, vw, cells, k);
    forall t | 0 <= t < vw
      ensures img[SlotAddr(top4, stride, j) - base + t] == cells[j][t]
    {
      TableImageAt(data, base, top4, stride, vw, cells, k, j, t);
    }
    ReadBytesEq(img, base, SlotAddr(top4, stride, j), cells[j]);
  }

  /** The table loop writes nothing outside [SlotAddr(top4, stride, k - 1), top4). */
  lemma {:induction false} TableImageKeeps(data: seq<byte>, base: int, top4: int, stride: nat, vw: nat,
                                           cells: seq<seq<byte>>, k: nat, x: int)
    requires k <= |cells| && Uniform(cells, vw) && SlotsFit(base, |data|, top4, stride, vw, k)
    requires vw <= stride
    requires 0 <= x < |data| && (k == 0 || base + x < SlotAddr(top4, stride, k - 1) || top4 <= base + x)
    ensures TableImage(data, base, top4, stride, vw, cells, k)[x] == data[x]
  {
    if k > 0 {
      assert Strides(stride, 1) == stride;
      if k > 1 {
        SlotsDescend(top4, stride, 0, k - 1);
        SlotsDescend(top4, stride, k - 2, k - 1);
      }
      TableImageKeeps(data, base, top4, stride, vw, cells, k - 1, x);
      SpliceKeeps(TableImage(data, base, top4, stride, vw, cells, k - 1), SlotAddr(top4, stride, k - 1) - base,
                  cells[k - 1], x);
    }
  }

  /** The string loop runs to completion exactly when every string fits. */
  lemma {:induction false} AllStringsFit(base: int, size: int, sp8: int, args: seq<CString>)
    ensures FirstStringMiss(base, size, sp8, args, 0) == |args| <==> StringsFit(base, size, sp8, args, |args|)
  {
  }

  /** The table loop runs to completion exactly when every slot fits. */
  lemma {:induction false} AllSlotsFit(base: int, size: int, top4: int, stride: int, vw: nat, n: nat)
    ensures FirstSlotMiss(base, size, top4, stride, vw, n, 0) == n <==> SlotsFit(base, size, top4, stride, vw, n)
  {
  }

  /** One pass of the string loop: lowering the cursor by strlen + 1 with
      unsigned wrap-around reaches mapped memory exactly when the string's
      own address is mapped, and then lands on that address; otherwise this
      pass is the first whose copy fails. */
  lemma {:induction false} StringStep(base: int, size: int, sp8: int, args: seq<CString>, i: nat, sp: int, vw: nat)
    requires 0 <= base && base + size <= UserTop(vw) && i < |args|
    requires sp == sp8 - StrTotal(args, i) && 0 <= sp < AddrLimit(vw)
    ensures var n := |args[i]| + 1;
            var next := Sub(sp, n, vw);
            && (InRegion(base, size, next, n) <==> InRegion(base, size, StrAddr(sp8, args, i), n))
            && (InRegion(base, size, next, n) ==>
                  next == StrAddr(sp8, args, i)
                  && FirstStringMiss(base, size, sp8, args, i) == FirstStringMiss(base, size, sp8, args, i + 1))
            && (!InRegion(base, size, next, n) ==> FirstStringMiss(base, size, sp8, args, i) == i)
  {
    var n := |args[i]| + 1;
    WrapNeverMapped(base, size, sp, n, n, vw);
  }

  /** One pass of the table loop, likewise: the cursor lowered by one stride
      is mapped exactly when slot i is, and then is slot i. */
  lemma {:induction false} SlotStep(base: int, size: int, top4: int, stride: int, vw: nat, total: nat, i: nat, sp: int)
    requires 0 <= base && base + size <= UserTop(vw) && 1 <= vw && vw <= stride <= UserTop(vw) && i < total
    requires sp == top4 - Strides(stride, i) && 0 <= sp < AddrLimit(vw)
    ensures var next := Sub(sp, stride, vw);
            && (InRegion(base, size, next, vw) <==> InRegion(base, size, SlotAddr(top4, stride, i), vw))
            && (InRegion(base, size, next, vw) ==>
                  next == SlotAddr(top4, stride, i)
                  && FirstSlotMiss(base, size, top4, stride, vw, total, i)
                     == FirstSlotMiss(base, size, top4, stride, vw, total, i + 1))
            && (!InRegion(base, size, next, vw) ==> FirstSlotMiss(base, size, top4, stride, vw, total, i) == i)
  {
    WrapNeverMapped(base, size, sp, stride, vw, vw);
  }

  // ---------------------------------------------------------------------
  // The whole of argument marshalling (runprogram.c:110-158).

  /** Outcome of marshalling: the first failing copy leaves the region as the
      earlier copies made it; otherwise the final stackptr is handed on. */
  datatype Marshalled = Faulted(image: seq<byte>) | Placed(image: seq<byte>, stackptr: int)

  /** Which table entry the i-th pass of the table loop copies out: entry i
      as runprogram.c:144 does, or entry argc - i, the order that leaves
      argsPtr_array[j] at argv + j * stride as a C main expects. */
  datatype TableOrder = AsWritten | Conventional

  function Reversed(s: seq<int>): (r: seq<int>)
    ensures |r| == |s| && forall i :: 0 <= i < |s| ==> r[i] == s[|s| - 1 - i]
  {
    ReversedPrefix(s, |s|)
  }

  /** The first n elements of s, last first. */
  function ReversedPrefix(s: seq<int>, n: nat): (r: seq<int>)
    requires n <= |s|
    ensures |r| == n && forall i :: 0 <= i < n ==> r[i] == s[n - 1 - i]
  {
    if n == 0 then [] else [s[n - 1]] + ReversedPrefix(s, n - 1)
  }

  function Ordered(ptrs: seq<int>, order: TableOrder): (r: seq<int>)
    ensures |r| == |ptrs|
  {
    if order == AsWritten then ptrs else Reversed(ptrs)
  }

  /** The cursor once the strings are pushed and it is rounded down to 4. */
  function TableTop(sp8: int, args: seq<CString>): (top4: int)
    requires StrEnd(sp8, args) >= 0
    ensures top4 % 4 == 0 && 0 <= top4 <= StrEnd(sp8, args) < top4 + 4
  {
    AlignDown(StrEnd(sp8, args), 4)
  }

  /** Every string address lies in user space, so fits a vaddr_t. */
  lemma {:induction false} PointersAreWords(base: int, size: int, sp8: int, args: seq<CString>, vw: nat,
                                            order: TableOrder)
    requires 0 <= base && base + size <= UserTop(vw) && StringsFit(base, size, sp8, args, |args|)
    ensures Words(Ordered(Pointers(sp8, args), order), vw)
  {
    var ptrs := Pointers(sp8, args);
    assert Words(ptrs, vw);
  }

  /** The stored words of the table, in the order the table loop copies them out. */
  function TableCells(base: int, size: int, sp8: int, args: seq<CString>, vw: nat, order: TableOrder)
    : (cells: seq<seq<byte>>)
    requires 0 <= base && base + size <= UserTop(vw) && StringsFit(base, size, sp8, args, |args|)
    ensures |cells| == |args| + 1 && Uniform(cells, vw)
  {
    PointersAreWords(base, size, sp8, args, vw, order);
    Cells(Ordered(Pointers(sp8, args), order), vw)
  }

  /** Each table word loads back as the table entry it stores. */
  lemma {:induction false} TableCellsDecode(base: int, size: int, sp8: int, args: seq<CString>, vw: nat, order: TableOrder)
    requires 0 <= base && base + size <= UserTop(vw) && StringsFit(base, size, sp8, args, |args|)
    ensures var cells := TableCells(base, size, sp8, args, vw, order);
            forall i :: 0 <= i < |cells| ==> WordValue(cells[i]) == Ordered(Pointers(sp8, args), order)[i]
  {
    PointersAreWords(base, size, sp8, args, vw, order);
    CellsDecode(Ordered(Pointers(sp8, args), order), vw);
  }

  /** The table loop over the region strs, once the strings are in place. */
  function PlaceTable(strs: seq<byte>, base: int, sp8: int, args: seq<CString>, vw: nat, cells: seq<seq<byte>>)
    : (m: Marshalled)
    requires StrEnd(sp8, args) >= 0 && |cells| == |args| + 1 && Uniform(cells, vw)
    ensures |m.image| == |strs|
  {
    var top4 := TableTop(sp8, args);
    var stride := RoundUp(vw, 4);
    var n := FirstSlotMiss(base, |strs|, top4, stride, vw, |cells|, 0);
    if n < |cells| then Faulted(TableImage(strs, base, top4, stride, vw, cells, n))
    else Placed(TableImage(strs, base, top4, stride, vw, cells, |cells|), SlotAddr(top4, stride, |args|))
  }

  /** A table loop that placed every slot wrote the whole table and left the
      cursor at the last slot. */
  lemma {:induction false} PlaceTableParts(strs: seq<byte>, base: int, sp8: int, args: seq<CString>, vw: nat, cells: seq<seq<byte>>)
    requires 1 <= vw && StrEnd(sp8, args) >= 0 && |cells| == |args| + 1 && Uniform(cells, vw)
    requires PlaceTable(strs, base, sp8, args, vw, cells).Placed?
    ensures SlotsFit(base, |strs|, TableTop(sp8, args), RoundUp(vw, 4), vw, |cells|)
    ensures PlaceTable(strs, base, sp8, args, vw, cells)
            == Placed(TableImage(strs, base, TableTop(sp8, args), RoundUp(vw, 4), vw, cells, |cells|),
                      SlotAddr(TableTop(sp8, args), RoundUp(vw, 4), |args|))
  {
    AllSlotsFit(base, |strs|, TableTop(sp8, args), RoundUp(vw, 4), vw, |cells|);
  }

  /** What runprogram's argument marshalling does to the mapped region data
      (at base) when as_define_stack reported sp, for argc = |args| >= 1,
      copying out the table in the given order. */
  function MarshalWith(data: seq<byte>, base: nat, sp: int, args: seq<CString>, vw: nat, order: TableOrder)
    : (m: Marshalled)
    requires 1 <= vw && base + |data| <= UserTop(vw) && 0 <= sp && 1 <= |args|
    ensures |m.image| == |data|
  {
    var sp8 := AlignDown(sp, 8);
    var k := FirstStringMiss(base, |data|, sp8, args, 0);
    if k < |args| then Faulted(StringsImage(data, base, sp8, args, k))
    else
      PlaceTable(StringsImage(data, base, sp8, args, |args|), base, sp8, args, vw,
                 TableCells(base, |data|, sp8, args, vw, order))
  }

  /** runprogram.c:110-158 as written. */
  function Marshal(data: seq<byte>, base: nat, sp: int, args: seq<CString>, vw: nat): (m: Marshalled)
    requires 1 <= vw && base + |data| <= UserTop(vw) && 0 <= sp && 1 <= |args|
    ensures |m.image| == |data|
  {
    MarshalWith(data, base, sp, args, vw, AsWritten)
  }

  /** Marshalling succeeds exactly when every string and then every table
      slot lies in the mapped region; which order the table goes out in
      does not matter. */
  lemma {:induction false} MarshalPlacedIff(data: seq<byte>, base: nat, sp: int, args: seq<CString>, vw: nat, order: TableOrder)
    requires 1 <= vw && base + |data| <= UserTop(vw) && 0 <= sp && 1 <= |args|
    ensures var sp8 := AlignDown(sp, 8);
            MarshalWith(data, base, sp, args, vw, order).Placed?
            <==> StringsFit(base, |data|, sp8, args, |args|) && StrEnd(sp8, args) >= 0
                 && SlotsFit(base, |data|, TableTop(sp8, args), RoundUp(vw, 4), vw, |args| + 1)
  {
    var sp8 := AlignDown(sp, 8);
    AllStringsFit(base, |data|, sp8, args);
    if StringsFit(base, |data|, sp8, args, |args|) {
      assert StrAddr(sp8, args, |args| - 1) == StrEnd(sp8, args);
      AllSlotsFit(base, |data|, TableTop(sp8, args), RoundUp(vw, 4), vw, |args| + 1);
    }
  }

  /** A successful marshalling is the table loop run over the complete
      string image. */
  lemma {:induction false} MarshalPlacedTable(data: seq<byte>, base: nat, sp: int, args: seq<CString>, vw: nat, order: TableOrder)
    requires 1 <= vw && base + |data| <= UserTop(vw) && 0 <= sp && 1 <= |args|
    requires MarshalWith(data, base, sp, args, vw, order).Placed?
    ensures StringsFit(base, |data|, AlignDown(sp, 8), args, |args|) && StrEnd(AlignDown(sp, 8), args) >= 0
    ensures MarshalWith(data, base, sp, args, vw, order)
            == PlaceTable(StringsImage(data, base, AlignDown(sp, 8), args, |args|), base, AlignDown(sp, 8), args, vw,
                          TableCells(base, |data|, AlignDown(sp, 8), args, vw, order))
  {
    var k := FirstStringMiss(base, |data|, AlignDown(sp, 8), args, 0);
    assert k == |args|;
    MarshalAfterStrings(data, base, sp, args, vw, order);
  }

  /** Once every string is copied out, marshalling is the table loop over the
      complete string image. */
  lemma {:induction false} MarshalAfterStrings(data: seq<byte>, base: nat, sp: int, args: seq<CString>, vw: nat,
                                               order: TableOrder)
    requires 1 <= vw && base + |data| <= UserTop(vw) && 0 <= sp && 1 <= |args|
    requires FirstStringMiss(base, |data|, AlignDown(sp, 8), args, 0) == |args|
    ensures StringsFit(base, |data|, AlignDown(sp, 8), args, |args|) && StrEnd(AlignDown(sp, 8), args) >= 0
    ensures MarshalWith(data, base, sp, args, vw, order)
            == PlaceTable(StringsImage(data, base, AlignDown(sp, 8), args, |args|), base, AlignDown(sp, 8), args, vw,
                          TableCells(base, |data|, AlignDown(sp, 8), args, vw, order))
  {
    var sp8 := AlignDown(sp, 8);
    AllStringsFit(base, |data|, sp8, args);
    assert StrAddr(sp8, args, |args| - 1) == StrEnd(sp8, args);
  }

  /** A copyoutstr that faults ends marshalling at once: the region holds the
      strings copied before it and nothing else, so no later string and no
      table word is written. */
  lemma {:induction false} MarshalStringFault(data: seq<byte>, base: nat, sp: int, args: seq<CString>, vw: nat,
                                              order: TableOrder, x: int)
    requires 1 <= vw && base + |data| <= UserTop(vw) && 0 <= sp && 1 <= |args|
    requires FirstStringMiss(base, |data|, AlignDown(sp, 8), args, 0) < |args|
    requires 0 <= x < |data|
    requires var k := FirstStringMiss(base, |data|, AlignDown(sp, 8), args, 0);
             base + x < AlignDown(sp, 8) - StrTotal(args, k) || AlignDown(sp, 8) <= base + x
    ensures MarshalWith(data, base, sp, args, vw, order).Faulted?
    ensures MarshalWith(data, base, sp, args, vw, order).image[x] == data[x]
  {
    var k := FirstStringMiss(base, |data|, AlignDown(sp, 8), args, 0);
    StringsImageKeeps(data, base, AlignDown(sp, 8), args, k, x);
  }

  /** A string written by the string loop survives the whole table loop when
      the table lies below the strings, and reads back as a C string. */
  lemma {:induction false} StringSurvivesTable(data: seq<byte>, base: int, sp8: int, args: seq<CString>,
                             top4: int, stride: nat, vw: nat, cells: seq<seq<byte>>, i: nat)
    requires StringsFit(base, |data|, sp8, args, |args|) && top4 <= StrEnd(sp8, args) && i < |args|
    requires Uniform(cells, vw) && vw <= stride
    requires SlotsFit(base, |data|, top4, stride, vw, |cells|)
    ensures var a := StrAddr(sp8, args, i);
            var img := TableImage(StringsImage(data, base, sp8, args, |args|), base, top4, stride, vw, cells, |cells|);
            && InRegion(base, |data|, a, |args[i]| + 1)
            && ReadBytes(img, base, a, |args[i]| + 1) == args[i] + [0]
            && CStringAt(img, base, a) == args[i]
  {
    var a := StrAddr(sp8, args, i);
    var strs := StringsImage(data, base, sp8, args, |args|);
    var img := TableImage(strs, base, top4, stride, vw, cells, |cells|);
    StringWithin(sp8, args, i);
    forall t | 0 <= t < |args[i]| + 1
      ensures img[a - base + t] == (args[i] + [0])[t]
    {
      StringsImageAt(data, base, sp8, args, |args|, i, t);
      TableImageKeeps(strs, base, top4, stride, vw, cells, |cells|, a - base + t);
    }
    ReadBytesEq(img, base, a, args[i] + [0]);
    CStringStoredAt(img, base, a, args[i]);
  }

  /** After a successful marshalling every argument string, with its NUL,
      sits at its address in mapped memory: the table writes never reach the
      strings, so the C string a reader finds there is the argument. */
  lemma {:induction false} MarshalStringsReadBack(data: seq<byte>, base: nat, sp: int, args: seq<CString>, vw: nat,
                               order: TableOrder, i: nat)
    requires 1 <= vw && base + |data| <= UserTop(vw) && 0 <= sp && 1 <= |args|
    requires MarshalWith(data, base, sp, args, vw, order).Placed? && i < |args|
    ensures var a := StrAddr(AlignDown(sp, 8), args, i);
            && InRegion(base, |data|, a, |args[i]| + 1)
            && ReadBytes(MarshalWith(data, base, sp, args, vw, order).image, base, a, |args[i]| + 1) == args[i] + [0]
            && CStringAt(MarshalWith(data, base, sp, args, vw, order).image, base, a) == args[i]
  {
    var sp8 := AlignDown(sp, 8);
    MarshalPlacedTable(data, base, sp, args, vw, order);
    PlaceTableParts(StringsImage(data, base, sp8, args, |args|), base, sp8, args, vw,
                    TableCells(base, |data|, sp8, args, vw, order));
    StringSurvivesTable(data, base, sp8, args, TableTop(sp8, args), RoundUp(vw, 4), vw,
                        TableCells(base, |data|, sp8, args, vw, order), i);
  }

  lemma {:induction false} StridesAdd(stride: int, a: nat, b: nat)
    ensures Strides(stride, a + b) == Strides(stride, a) + Strides(stride, b)
  {
    if b > 0 {
      StridesAdd(stride, a, b - 1);
    }
  }

  /** The addresses of table slot i and of the last slot differ by
      argc - i strides. */
  lemma {:induction false} SlotOffset(top4: int, stride: int, argc: nat, k: nat)
    requires k <= argc
    ensures SlotAddr(top4, stride, argc - k) == SlotAddr(top4, stride, argc) + Strides(stride, k)
  {
    StridesAdd(stride, argc - k + 1, k);
  }

  /** Once the whole table of argc + 1 entries is out (img), the word j
      strides above the last slot is table entry argc - j. */
  lemma {:induction false} TableWordAbove(data: seq<byte>, base: int, top4: int, stride: nat, vw: nat, ptrs: seq<int>,
                       cells: seq<seq<byte>>, argc: nat, img: seq<byte>, last: int, j: nat)
    requires |cells| == |ptrs| == argc + 1 && Uniform(cells, vw) && vw <= stride
    requires forall i :: 0 <= i < |cells| ==> WordValue(cells[i]) == ptrs[i]
    requires SlotsFit(base, |data|, top4, stride, vw, argc + 1) && j <= argc
    requires img == TableImage(data, base, top4, stride, vw, cells, argc + 1)
    requires last == SlotAddr(top4, stride, argc)
    ensures InRegion(base, |img|, last + Strides(stride, j), vw)
    ensures LoadWord(img, base, last + Strides(stride, j), vw) == ptrs[argc - j]
  {
    var i := argc - j;
    var slot := last + Strides(stride, j);
    assert slot == SlotAddr(top4, stride, i) by {
      SlotOffset(top4, stride, argc, j);
    }
    assert ReadBytes(img, base, slot, vw) == cells[i] by {
      TableImageReadBack(data, base, top4, stride, vw, cells, argc + 1, i);
    }
  }

  /** The vw-byte word at address a of the region img (at base) is mapped
      and loads as w. */
  predicate WordAt(img: seq<byte>, base: int, a: int, vw: nat, w: int)
  {
    InRegion(base, |img|, a, vw) && LoadWord(img, base, a, vw) == w
  }

  /** Table slot j above the final stackptr argv holds w: the word j strides
      of ROUNDUP(VADDR, 4) above argv. */
  predicate SlotWordIs(img: seq<byte>, base: int, argv: int, vw: nat, j: nat, w: int)
  {
    WordAt(img, base, argv + j * RoundUp(vw, 4), vw, w)
  }

  /** What a C program finds at argv[j]: the word at argv + j * sizeof(char *). */
  predicate ArgvWordIs(img: seq<byte>, base: int, argv: int, vw: nat, j: nat, w: int)
  {
    WordAt(img, base, argv + j * vw, vw, w)
  }

  /** Table slot j is the C program's argv[j] when j is 0, or when VADDR is a
      multiple of 4 so that the slots are not padded. */
  lemma {:induction false} SlotIsArgv(img: seq<byte>, base: int, argv: int, vw: nat, j: nat, w: int)
    requires j == 0 || vw % 4 == 0
    ensures SlotWordIs(img, base, argv, vw, j, w) == ArgvWordIs(img, base, argv, vw, j, w)
  {
    if j != 0 {
      RoundUpExact(vw, 4);
    }
    var slot := argv + j * RoundUp(vw, 4);
    assert slot == argv + j * vw;
    assert WordAt(img, base, slot, vw, w) == WordAt(img, base, argv + j * vw, vw, w);
  }

  /** The table loop over strs, when every slot fits: the word j strides
      above the final stackptr loads back as entry argc - j of the table. */
  lemma {:induction false} PlacedWordAbove(strs: seq<byte>, base: int, sp8: int, args: seq<CString>, vw: nat,
                                           cells: seq<seq<byte>>, ptrs: seq<int>, img: seq<byte>, last: int, j: nat)
    requires 1 <= vw && StrEnd(sp8, args) >= 0 && |cells| == |args| + 1 && Uniform(cells, vw)
    requires |ptrs| == |cells| && forall i :: 0 <= i < |cells| ==> WordValue(cells[i]) == ptrs[i]
    requires PlaceTable(strs, base, sp8, args, vw, cells) == Placed(img, last) && j <= |args|
    ensures SlotWordIs(img, base, last, vw, j, ptrs[|args| - j])
  {
    var top4 := TableTop(sp8, args);
    var stride := RoundUp(vw, 4);
    AllSlotsFit(base, |strs|, top4, stride, vw, |cells|);
    StridesClosedForm(stride, j);
    TableWordAbove(strs, base, top4, stride, vw, ptrs, cells, |args|, img, last, j);
  }

  /** The table loop over the complete string image, when every slot fits:
      the word j strides above the final stackptr loads back as entry
      argc - j of the table, in the order it was copied out. */
  lemma {:induction false} StringsPlacedWordAbove(data: seq<byte>, base: int, sp8: int, args: seq<CString>, vw: nat,
                                                  order: TableOrder, img: seq<byte>, last: int, j: nat)
    requires 0 <= base && base + |data| <= UserTop(vw) && 1 <= vw
    requires StringsFit(base, |data|, sp8, args, |args|) && StrEnd(sp8, args) >= 0
    requires PlaceTable(StringsImage(data, base, sp8, args, |args|), base, sp8, args, vw,
                        TableCells(base, |data|, sp8, args, vw, order)) == Placed(img, last)
    requires j <= |args|
    ensures SlotWordIs(img, base, last, vw, j, Ordered(Pointers(sp8, args), order)[|args| - j])
  {
    TableCellsDecode(base, |data|, sp8, args, vw, order);
    PlacedWordAbove(StringsImage(data, base, sp8, args, |args|), base, sp8, args, vw,
                    TableCells(base, |data|, sp8, args, vw, order), Ordered(Pointers(sp8, args), order), img, last, j);
  }

  /** Table slot j above the final stackptr after a successful marshalling in
      the given order: entry argc - j of the table as it was copied out. */
  lemma {:induction false} MarshalSlotWords(data: seq<byte>, base: nat, sp: int, args: seq<CString>, vw: nat,
                                            order: TableOrder, j: nat)
    requires 1 <= vw && base + |data| <= UserTop(vw) && 0 <= sp && 1 <= |args|
    requires MarshalWith(data, base, sp, args, vw, order).Placed? && j <= |args|
    ensures SlotWordIs(MarshalWith(data, base, sp, args, vw, order).image, base,
                       MarshalWith(data, base, sp, args, vw, order).stackptr, vw, j,
                       Ordered(Pointers(AlignDown(sp, 8), args), order)[|args| - j])
  {
    MarshalPlacedTable(data, base, sp, args, vw, order);
    var m := MarshalWith(data, base, sp, args, vw, order);
    StringsPlacedWordAbove(data, base, AlignDown(sp, 8), args, vw, order, m.image, m.stackptr, j);
  }

  /** As written, the user's argv[0] is the NULL sentinel and the address of
      args[0] is the last table word, in slot argc (which is argv[argc] when
      VADDR is a multiple of 4): the table is upside down. */
  lemma {:induction false} ArgvZeroIsNull(data: seq<byte>, base: nat, sp: int, args: seq<CString>, vw: nat)
    requires 1 <= vw && base + |data| <= UserTop(vw) && 0 <= sp && 1 <= |args|
    requires Marshal(data, base, sp, args, vw).Placed?
    ensures var m := Marshal(data, base, sp, args, vw);
            && ArgvWordIs(m.image, base, m.stackptr, vw, 0, 0)
            && SlotWordIs(m.image, base, m.stackptr, vw, |args|, StrAddr(AlignDown(sp, 8), args, 0))
            && (vw % 4 == 0 ==> ArgvWordIs(m.image, base, m.stackptr, vw, |args|, StrAddr(AlignDown(sp, 8), args, 0)))
            && StrAddr(AlignDown(sp, 8), args, 0) > m.stackptr >= base
  {
    assert Marshal(data, base, sp, args, vw) == MarshalWith(data, base, sp, args, vw, AsWritten);
    var m := Marshal(data, base, sp, args, vw);
    var a0 := StrAddr(AlignDown(sp, 8), args, 0);
    MarshalSlotWords(data, base, sp, args, vw, AsWritten, 0);
    SlotIsArgv(m.image, base, m.stackptr, vw, 0, 0);
    MarshalSlotWords(data, base, sp, args, vw, AsWritten, |args|);
    if vw % 4 == 0 {
      SlotIsArgv(m.image, base, m.stackptr, vw, |args|, a0);
    }
    ArgAboveArgv(data, base, sp, args, vw, AsWritten, 0);
  }

  /** Every string lies above the final stackptr, whose word lies in mapped
      memory: no string address is NULL. */
  lemma {:induction false} ArgAboveArgv(data: seq<byte>, base: nat, sp: int, args: seq<CString>, vw: nat,
                                        order: TableOrder, i: nat)
    requires 1 <= vw && base + |data| <= UserTop(vw) && 0 <= sp && 1 <= |args|
    requires MarshalWith(data, base, sp, args, vw, order).Placed? && i < |args|
    ensures StrAddr(AlignDown(sp, 8), args, i) > MarshalWith(data, base, sp, args, vw, order).stackptr >= base
    ensures InRegion(base, |data|, MarshalWith(data, base, sp, args, vw, order).stackptr, vw)
  {
    MarshalAlignment(data, base, sp, args, vw, order);
    StridesNonNegative(RoundUp(vw, 4), |args|);
    StringWithin(AlignDown(sp, 8), args, i);
  }

  lemma {:induction false} StridesNonNegative(stride: nat, n: nat)
    ensures Strides(stride, n) >= 0
  {
    if n > 0 {
      StridesNonNegative(stride, n - 1);
    }
  }

  /** In the conventional order table slot j holds the address of args[j]
      for every j < argc and slot argc is NULL; when VADDR is a multiple of 4
      the slots are the C program's argv[j]. */
  lemma {:induction false} ConventionalArgv(data: seq<byte>, base: nat, sp: int, args: seq<CString>, vw: nat, j: nat)
    requires 1 <= vw && base + |data| <= UserTop(vw) && 0 <= sp && 1 <= |args|
    requires MarshalWith(data, base, sp, args, vw, Conventional).Placed? && j <= |args|
    ensures var m := MarshalWith(data, base, sp, args, vw, Conventional);
            var w := if j < |args| then StrAddr(AlignDown(sp, 8), args, j) else 0;
            && SlotWordIs(m.image, base, m.stackptr, vw, j, w)
            && (vw % 4 == 0 ==> ArgvWordIs(m.image, base, m.stackptr, vw, j, w))
  {
    var m := MarshalWith(data, base, sp, args, vw, Conventional);
    var w := if j < |args| then StrAddr(AlignDown(sp, 8), args, j) else 0;
    MarshalSlotWords(data, base, sp, args, vw, Conventional, j);
    if vw % 4 == 0 {
      SlotIsArgv(m.image, base, m.stackptr, vw, j, w);
    }
  }

  /** The last of argc + 1 slots below a 4-aligned top, at a stride that is a
      multiple of 4, is 4-aligned. */
  lemma {:induction false} LastSlotAligned(top4: int, stride: int, argc: nat)
    requires top4 % 4 == 0 && stride % 4 == 0
    ensures SlotAddr(top4, stride, argc) % 4 == 0
  {
    StridesClosedForm(stride, argc + 1);
    DivModParts(top4, 4);
    DivModParts(stride, 4);
    var q := top4 / 4 - (stride / 4) * (argc + 1);
    assert stride * (argc + 1) == 4 * ((stride / 4) * (argc + 1));
    assert SlotAddr(top4, stride, argc) == 4 * q;
    MultipleMod(4, q);
  }

  /** The stack pointer handed to the new process is word aligned, lies in
      mapped memory, and sits argc + 1 strides below the table top, which is
      the string region's end rounded down to 4 (itself below sp rounded down
      to 8). */
  lemma {:induction false} MarshalAlignment(data: seq<byte>, base: nat, sp: int, args: seq<CString>, vw: nat, order: TableOrder)
    requires 1 <= vw && base + |data| <= UserTop(vw) && 0 <= sp && 1 <= |args|
    requires MarshalWith(data, base, sp, args, vw, order).Placed?
    ensures var sp8 := AlignDown(sp, 8);
            var final := MarshalWith(data, base, sp, args, vw, order).stackptr;
            && sp8 % 8 == 0 && sp8 <= sp < sp8 + 8
            && StrEnd(sp8, args) >= 0
            && var top4 := TableTop(sp8, args);
               && top4 % 4 == 0 && top4 <= StrEnd(sp8, args) < top4 + 4
               && final + Strides(RoundUp(vw, 4), |args| + 1) == top4
               && final % 4 == 0 && InRegion(base, |data|, final, vw)
  {
    var sp8 := AlignDown(sp, 8);
    MarshalPlacedTable(data, base, sp, args, vw, order);
    PlaceTableParts(StringsImage(data, base, sp8, args, |args|), base, sp8, args, vw,
                    TableCells(base, |data|, sp8, args, vw, order));
    assert InRegion(base, |data|, SlotAddr(TableTop(sp8, args), RoundUp(vw, 4), |args|), vw);
    LastSlotAligned(TableTop(sp8, args), RoundUp(vw, 4), |args|);
  }

  /** Neither loop writes outside [last slot, sp8) when the table lies below
      the strings. */
  lemma {:induction false} StackKeepsOutside(data: seq<byte>, base: int, sp8: int, args: seq<CString>,
                                             top4: int, stride: nat, vw: nat, cells: seq<seq<byte>>, x: nat)
    requires StringsFit(base, |data|, sp8, args, |args|) && top4 <= StrEnd(sp8, args)
    requires Uniform(cells, vw) && vw <= stride && 1 <= |cells|
    requires SlotsFit(base, |data|, top4, stride, vw, |cells|) && x < |data|
    requires base + x < SlotAddr(top4, stride, |cells| - 1) || sp8 <= base + x
    ensures TableImage(StringsImage(data, base, sp8, args, |args|), base, top4, stride, vw, cells, |cells|)[x]
            == data[x]
  {
    StridesClosedForm(stride, |cells|);
    StringsImageKeeps(data, base, sp8, args, |args|, x);
    TableImageKeeps(StringsImage(data, base, sp8, args, |args|), base, top4, stride, vw, cells, |cells|, x);
  }

  /** The table loop over the complete string image, when every slot fits,
      leaves the bytes outside [final stackptr, sp8) as they were. */
  lemma {:induction false} PlacedKeepsOutside(data: seq<byte>, base: int, sp8: int, args: seq<CString>, vw: nat,
                           cells: seq<seq<byte>>, img: seq<byte>, last: int, x: nat)
    requires 1 <= vw && StringsFit(base, |data|, sp8, args, |args|) && StrEnd(sp8, args) >= 0
    requires |cells| == |args| + 1 && Uniform(cells, vw)
    requires PlaceTable(StringsImage(data, base, sp8, args, |args|), base, sp8, args, vw, cells) == Placed(img, last)
    requires x < |data| && (base + x < last || sp8 <= base + x)
    ensures img[x] == data[x]
  {
    PlaceTableParts(StringsImage(data, base, sp8, args, |args|), base, sp8, args, vw, cells);
    StackKeepsOutside(data, base, sp8, args, TableTop(sp8, args), RoundUp(vw, 4), vw, cells, x);
  }

  /** A successful marshalling writes nothing outside [final stackptr, sp8). */
  lemma {:induction false} MarshalKeepsOutside(data: seq<byte>, base: nat, sp: int, args: seq<CString>, vw: nat,
                            order: TableOrder, x: nat)
    requires 1 <= vw && base + |data| <= UserTop(vw) && 0 <= sp && 1 <= |args|
    requires MarshalWith(data, base, sp, args, vw, order).Placed? && x < |data|
    requires base + x < MarshalWith(data, base, sp, args, vw, order).stackptr || AlignDown(sp, 8) <= base + x
    ensures MarshalWith(data, base, sp, args, vw, order).image[x] == data[x]
  {
    MarshalPlacedTable(data, base, sp, args, vw, order);
    var m := MarshalWith(data, base, sp, args, vw, order);
    PlacedKeepsOutside(data, base, AlignDown(sp, 8), args, vw, TableCells(base, |data|, AlignDown(sp, 8), args, vw, order),
                       m.image, m.stackptr, x);
  }

  /** With argc = 0 the string loop's bound total_args - 2, computed on
      unsigned integers, is the largest unsigned value: the guard
      i <= total_args - 2 holds for every i, so the loop would read args[0]
      and beyond. Hence argc >= 1 throughout this model. */
  lemma {:induction false} ZeroArgcGuardWraps(vw: nat)
    requires 1 <= vw
    ensures Sub(1, 2, vw) == AddrLimit(vw) - 1
  {
    PowGrows(vw);
  }
}
