/** The argument-marshalling half of runprogram (runprogram.c:110-149): the
    stackptr cursor, the argsPtr_array filled in place, and the two loops that
    copy the strings and then the pointer table into user memory. Each method
    is proved against the pure layout of module Layout. */
module Builder {
  import opened Machine
  import opened UserMem
  import opened Layout

  class ArgvBuilder {
    /** The new process's address space, already current. */
    const mem: AddrSpace
    const argc: nat
    /** argsPtr_array: room for argc string addresses and the NULL sentinel. */
    const argsPtr: array<int>
    /** The user stack pointer being lowered. */
    var stackptr: int

    ghost predicate Valid()
      reads this, mem
    {
      mem.Valid() && argsPtr.Length == argc + 1 && 0 <= stackptr < AddrLimit(mem.vw)
    }

    /** total_args = 1 + argc; vaddr_t argsPtr_array[total_args]; with the
        cursor at the stack pointer from as_define_stack. */
    constructor (mem: AddrSpace, stackptr: int, argc: nat)
      requires mem.Valid() && 0 <= stackptr < AddrLimit(mem.vw)
      ensures Valid() && fresh(argsPtr)
      ensures this.mem == mem && this.argc == argc && this.stackptr == stackptr
    {
      this.mem := mem;
      this.argc := argc;
      argsPtr := new int[1 + argc];
      this.stackptr := stackptr;
    }

    /** offset = stackptr % n; stackptr = stackptr - offset; */
    method AlignStack(n: int)
      requires Valid() && 0 < n
      modifies this
      ensures Valid() && stackptr == AlignDown(old(stackptr), n)
    {
      var offset := stackptr % n;
      stackptr := stackptr - offset;
    }

    /** The string loop: for i = 0 .. argc - 1, lower stackptr by
        strlen(args[i]) + 1, copyoutstr args[i] there and record the address
        in argsPtr_array[i]; a failing copy is returned at once. The loop
        bound is total_args - 2 computed in unsigned arithmetic, hence
        argc >= 1. */
    method PushStrings(args: seq<CString>) returns (err: int)
      requires Valid() && |args| == argc && 1 <= argc && argc + 1 < AddrLimit(mem.vw)
      modifies this, argsPtr, mem
      ensures Valid() && |mem.data| == |old(mem.data)|
      ensures var k := FirstStringMiss(mem.base, |old(mem.data)|, old(stackptr), args, 0);
              && (err == 0 <==> k == argc)
              && (err != 0 ==> err == EFAULT)
              && mem.data == StringsImage(old(mem.data), mem.base, old(stackptr), args, k)
              && (forall j :: 0 <= j < k ==> argsPtr[j] == StrAddr(old(stackptr), args, j))
      ensures err == 0 ==> stackptr == StrEnd(old(stackptr), args)
      ensures argsPtr[argc] == old(argsPtr[argc])
    {
      var vw := mem.vw;
      var totalArgs := 1 + argc;
      ghost var sp8 := stackptr;
      ghost var size := |mem.data|;
      // The guard i <= total_args - 2 reads no state the loop changes, so its
      // unsigned right-hand side is computed once.
      var lastArg := Sub(totalArgs, 2, vw);
      var i := 0;
      while i <= lastArg
        invariant 0 <= i <= argc && lastArg == argc - 1
        invariant mem.Valid() && |mem.data| == size
        invariant stackptr == sp8 - StrTotal(args, i) && 0 <= stackptr < AddrLimit(vw)
        invariant StringsFit(mem.base, size, sp8, args, i)
        invariant FirstStringMiss(mem.base, size, sp8, args, 0) == FirstStringMiss(mem.base, size, sp8, args, i)
        invariant mem.data == StringsImage(old(mem.data), mem.base, sp8, args, i)
        invariant forall j :: 0 <= j < i ==> argsPtr[j] == StrAddr(sp8, args, j)
        invariant argsPtr[argc] == old(argsPtr[argc])
      {
        var offset := 1 + |args[i]|;
        StringStep(mem.base, size, sp8, args, i, stackptr, vw);
        stackptr := Sub(stackptr, offset, vw);
        var dest := stackptr;
        err := mem.CopyOutStr(args[i], dest, offset);
        if err != 0 {
          return;
        }
        assert stackptr == StrAddr(sp8, args, i);
        argsPtr[i] := stackptr;
        i := i + 1;
      }
      err := 0;
    }

    /** argsPtr_array[argc] = 0 */
    method SetSentinel()
      requires Valid()
      modifies argsPtr
      ensures argsPtr[argc] == 0
      ensures forall j :: 0 <= j < argc ==> argsPtr[j] == old(argsPtr[j])
    {
      argsPtr[argc] := 0;
    }

    /** The table loop: for i = 0 .. argc, lower stackptr by ROUNDUP(VADDR, 4)
        and copyout the VADDR bytes of argsPtr_array[i] there; a failing copy
        is returned at once. Entries go out in ascending index order while
        the cursor descends. */
    method PushTable() returns (err: int)
      requires Valid()
      requires forall j :: 0 <= j < argsPtr.Length ==> 0 <= argsPtr[j] < Pow256(mem.vw)
      modifies this, mem
      ensures Valid() && |mem.data| == |old(mem.data)|
      ensures var stride := RoundUp(mem.vw, 4);
              var n := FirstSlotMiss(mem.base, |old(mem.data)|, old(stackptr), stride, mem.vw, argc + 1, 0);
              && (err == 0 <==> n == argc + 1)
              && (err != 0 ==> err == EFAULT)
              && mem.data == TableImage(old(mem.data), mem.base, old(stackptr), stride, mem.vw,
                                        Cells(argsPtr[..], mem.vw), n)
              && (err == 0 ==> stackptr == SlotAddr(old(stackptr), stride, argc))
    {
      var vw := mem.vw;
      var totalArgs := 1 + argc;
      ghost var top4 := stackptr;
      ghost var stride := RoundUp(vw, 4);
      ghost var size := |mem.data|;
      ghost var cells := Cells(argsPtr[..], vw);
      StrideBelowUserTop(vw);
      var i := 0;
      while i < totalArgs
        invariant 0 <= i <= totalArgs
        invariant mem.Valid() && |mem.data| == size
        invariant stackptr == top4 - Strides(stride, i) && 0 <= stackptr < AddrLimit(vw)
        invariant SlotsFit(mem.base, size, top4, stride, vw, i)
        invariant FirstSlotMiss(mem.base, size, top4, stride, vw, totalArgs, 0)
                  == FirstSlotMiss(mem.base, size, top4, stride, vw, totalArgs, i)
        invariant mem.data == TableImage(old(mem.data), mem.base, top4, stride, vw, cells, i)
      {
        var offset := RoundUp(vw, 4);
        SlotStep(mem.base, size, top4, stride, vw, totalArgs, i, stackptr);
        stackptr := Sub(stackptr, offset, vw);
        var dest := stackptr;
        err := mem.CopyOut(argsPtr[i], dest, vw);
        if err != 0 {
          return;
        }
        i := i + 1;
      }
      err := 0;
    }
  }

  /** runprogram.c:110-149: marshal args onto the user stack of mem below the
      stack pointer sp from as_define_stack. On success argv is the final
      cursor, handed to enter_new_process as both argv and the stack pointer;
      a failing copy returns its error with the earlier copies in place. */
  method PlaceArgs(mem: AddrSpace, sp: int, args: seq<CString>) returns (err: int, argv: int)
    requires mem.Valid() && 0 <= sp < AddrLimit(mem.vw) && 1 <= |args| && |args| + 1 < AddrLimit(mem.vw)
    modifies mem
    ensures mem.Valid()
    ensures var m := Marshal(old(mem.data), mem.base, sp, args, mem.vw);
            && mem.data == m.image
            && (err == 0 <==> m.Placed?)
            && (err != 0 ==> err == EFAULT)
            && (err == 0 ==> argv == m.stackptr)
  {
    ghost var data := mem.data;
    var b := new ArgvBuilder(mem, sp, |args|);
    b.AlignStack(8);
    ghost var sp8 := b.stackptr;
    err := b.PushStrings(args);
    if err != 0 {
      argv := 0;
      return;
    }
    MarshalAfterStrings(data, mem.base, sp, args, mem.vw, AsWritten);
    b.SetSentinel();
    b.AlignStack(4);
    assert b.argsPtr[..] == Pointers(sp8, args);
    PointersAreWords(mem.base, |data|, sp8, args, mem.vw, AsWritten);
    assert TableCells(mem.base, |data|, sp8, args, mem.vw, AsWritten) == Cells(b.argsPtr[..], mem.vw);
    assert b.stackptr == TableTop(sp8, args);
    err := b.PushTable();
    argv := b.stackptr;
  }
}
