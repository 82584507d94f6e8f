/** runprogram (runprogram.c:55-162): open the program, give the current
    process a fresh address space, load the executable, define the user stack,
    marshal the arguments onto it and enter user mode. The VFS, the ELF
    loader and the VM system are not modelled: what they answer on a given
    run is an Env record, and the calls made to them are returned as a
    trace. */
module RunProgram {
  import opened Machine
  import opened UserMem
  import opened Layout
  import opened Builder

  datatype Option<T> = None | Some(value: T)

  /** What the foreign subsystems answer on one run of runprogram. */
  datatype Env = Env(
    /** vfs_open's return value (0 on success). */
    openResult: int,
    /** as_create returned an address space rather than NULL. */
    asCreated: bool,
    /** The user region the new address space maps once the executable is
        loaded and the stack defined. */
    regionBase: nat,
    regionSize: nat,
    /** load_elf's return value and the entry point it reports. */
    loadResult: int,
    entrypoint: int,
    /** as_define_stack's return value and the stack pointer it reports. */
    stackResult: int,
    stackptr: int)

  /** The subsystems' answers are ones a vw-byte machine can give: the region
      lies in user space and the reported addresses fit a vaddr_t. */
  predicate EnvOk(env: Env, vw: nat)
  {
    1 <= vw && env.regionBase + env.regionSize <= UserTop(vw)
    && 0 <= env.stackptr < AddrLimit(vw) && 0 <= env.entrypoint < AddrLimit(vw)
  }

  /** The calls runprogram makes into other subsystems, in order. */
  datatype Call = VfsOpen | AsCreate | SetAs | AsActivate | LoadElf | VfsClose | DefineStack

  /** runprogram either returns an error or enters user mode, never to return. */
  datatype Outcome =
    | Returned(err: int)
    | Entered(argc: nat, argv: int, stackptr: int, entrypoint: int)

  /** The current process, as far as runprogram sees it. */
  class Process {
    /** p_addrspace, read and set by curproc_getas / curproc_setas. */
    var addrspace: AddrSpace?

    constructor ()
      ensures addrspace == null
    {
      addrspace := null;
    }
  }

  /** runprogram(progname, args, argc) with argc = |args| in process p, on a
      machine whose vaddr_t has vw bytes. progname None stands for NULL. */
  method Run(p: Process, progname: Option<CString>, args: seq<CString>, env: Env, vw: nat)
    returns (r: Outcome, calls: seq<Call>)
    requires p.addrspace == null
    requires EnvOk(env, vw) && 1 <= |args| && |args| + 1 < AddrLimit(vw)
    modifies p
    // The error ladder: each failing step returns at once, its error verbatim.
    ensures progname.None? ==> r == Returned(EFAULT) && calls == [] && p.addrspace == null
    ensures progname.Some? && env.openResult != 0 ==>
              r == Returned(env.openResult) && calls == [VfsOpen] && p.addrspace == null
    ensures progname.Some? && env.openResult == 0 && !env.asCreated ==>
              r == Returned(ENOMEM) && calls == [VfsOpen, AsCreate, VfsClose] && p.addrspace == null
    ensures progname.Some? && env.openResult == 0 && env.asCreated && env.loadResult != 0 ==>
              r == Returned(env.loadResult) && calls == [VfsOpen, AsCreate, SetAs, AsActivate, LoadElf, VfsClose] && p.addrspace != null
    ensures progname.Some? && env.openResult == 0 && env.asCreated && env.loadResult == 0
            && env.stackResult != 0 ==>
              r == Returned(env.stackResult) && calls == [VfsOpen, AsCreate, SetAs, AsActivate, LoadElf, VfsClose, DefineStack] && p.addrspace != null
    // Past the ladder: the arguments are marshalled into the new address
    // space and, unless a copy faults, user mode is entered at argv.
    ensures progname.Some? && env.openResult == 0 && env.asCreated && env.loadResult == 0
            && env.stackResult == 0 ==>
              var m := Marshal(Zeros(env.regionSize), env.regionBase, env.stackptr, args, vw);
              && calls == [VfsOpen, AsCreate, SetAs, AsActivate, LoadElf, VfsClose, DefineStack]
              && p.addrspace != null && fresh(p.addrspace)
              && p.addrspace.vw == vw && p.addrspace.base == env.regionBase
              && p.addrspace.data == m.image
              && (m.Placed? ==> r == Entered(|args|, m.stackptr, m.stackptr, env.entrypoint))
              && (m.Faulted? ==> r == Returned(EFAULT))
    // What holds on every path.
    ensures r.Returned? ==> r.err != 0
    ensures (VfsClose in calls) == (progname.Some? && env.openResult == 0)
    ensures (p.addrspace != null) == (SetAs in calls)
  {
    if progname.None? {
      return Returned(EFAULT), [];
    }
    var result := env.openResult;
    if result != 0 {
      return Returned(result), [VfsOpen];
    }
    if !env.asCreated {
      return Returned(ENOMEM), [VfsOpen, AsCreate, VfsClose];
    }
    var space := new AddrSpace(vw, env.regionBase, env.regionSize);
    p.addrspace := space;
    result := env.loadResult;
    if result != 0 {
      return Returned(result), [VfsOpen, AsCreate, SetAs, AsActivate, LoadElf, VfsClose];
    }
    var entrypoint := env.entrypoint;
    calls := [VfsOpen, AsCreate, SetAs, AsActivate, LoadElf, VfsClose, DefineStack];
    result := env.stackResult;
    if result != 0 {
      return Returned(result), calls;
    }
    var stackptr := env.stackptr;
    var argv;
    result, argv := PlaceArgs(space, stackptr, args);
    if result != 0 {
      return Returned(result), calls;
    }
    r := Entered(|args|, argv, argv, entrypoint);
  }
}
