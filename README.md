# runprogram: loading a program and laying out argv on its user stack

This project models `runprogram` of the OS/161 kernel
(`os161-1.99/kern/syscall/runprogram.c`) in Dafny and proves properties of it.
`runprogram` starts a user program in the current process.

First, the setup ladder. Each step either succeeds or returns an error at once:
- reject a NULL program name with `EFAULT`;
- open the executable (`vfs_open`);
- create an address space (`as_create`), make it current and activate it;
- load the ELF image (`load_elf`);
- close the file (`vfs_close`);
- define the user stack (`as_define_stack`).

Then argument marshalling:
- round the stack pointer down to 8;
- copy each argument string and its NUL to descending addresses with `copyoutstr`, recording each address in `argsPtr_array`;
- store the NULL sentinel in `argsPtr_array[argc]`;
- round the stack pointer down to 4;
- copy out the `argc + 1` table words, one `ROUNDUP(VADDR, 4)` slot each, with `copyout`;
- enter user mode with the final stack pointer as both `argv` and the stack pointer.

The model has five modules.

- `Machine` (machine.dfy) holds the machine-level vocabulary:
  - bytes and C strings;
  - unsigned arithmetic of the width of `vaddr_t`, which wraps modulo 2^(8·VADDR);
  - `AlignDown` (`x - x % n`) and `ROUNDUP`;
  - the big-endian encoding of a word (sys161's MIPS is big-endian);
  - `strlen`;
  - the error numbers.

  `VADDR` is a parameter `vw` everywhere (4 on sys161).
- `UserMem` (usermem.dfy) holds the `AddrSpace` class. It has one mapped user region, whose bytes are a field the copy methods reassign. `copyoutstr` and `copyout` are methods that fail with `EFAULT` exactly when the destination range is not mapped user memory. User space is the lower half of the address space, so a cursor that wrapped below 0 always faults.
- `Layout` (layout.dfy) is the specification:
  - pure functions that say where each string and each table slot lands, and what the region holds after k passes of either loop;
  - `Marshal`, the outcome of all of lines 110-158;
  - the lemmas about that layout.
- `Builder` (builder.dfy) holds the imperative code:
  - the `ArgvBuilder` class, with the `stackptr` cursor and the `argsPtr_array` array filled in place;
  - the two `while` loops, each proved against `Layout`;
  - `PlaceArgs`, which chains the steps and is proved equal to `Marshal`.
- `RunProgram` (runprogram.dfy) holds the setup ladder over a `Process` record. The foreign subsystems (VFS, ELF loader, VM) are oracles whose answers come in an `Env` value. The method returns the outcome and the sequence of subsystem calls made.

The model keeps the table order of the code as written. The words go out in ascending index order while the cursor descends. So the word at the published `argv` is the NULL sentinel, and `args[0]`'s address is the highest slot. The conventional order is modelled beside it (`TableOrder.Conventional`). Every layout lemma that takes an `order` parameter holds for both orders.

## Model

| member | source | states |
|---|---|---|
| Machine.Sub | os161-1.99/kern/syscall/runprogram.c:121 | Unsigned `stackptr - offset`. The result is a vaddr_t congruent to the difference. It equals the difference when that is not negative, and otherwise is the difference plus 2^(8·VADDR). |
| Machine.AlignDown | os161-1.99/kern/syscall/runprogram.c:115-116 | `x - x % n` is a multiple of n, at most x, and more than x - n. |
| Machine.RoundUp | os161-1.99/kern/syscall/runprogram.c:141 | `ROUNDUP(a, b)` is the least multiple of b that is not below a. |
| Machine.StrLen | os161-1.99/kern/syscall/runprogram.c:120 | `strlen` counts non-NUL bytes and stops at the first NUL, or at the end of the bytes if there is none. |
| Machine.StrLenOfStored | os161-1.99/kern/syscall/runprogram.c:120 | `strlen` of a stored C string and its NUL is the string's length. |
| Machine.WordBytes | os161-1.99/kern/syscall/runprogram.c:144 | The bytes `copyout` stores for a vaddr_t, most significant first. There are exactly VADDR of them, and WordRoundTrip loads them back as the word. |
| Machine.RoundUpExact | os161-1.99/kern/syscall/runprogram.c:141 | `ROUNDUP(VADDR, 4)` is VADDR itself when VADDR is a multiple of 4. |
| Machine.WordRoundTrip | os161-1.99/kern/syscall/runprogram.c:144 | A load of the VADDR bytes that `copyout` stores for a word reads that word back. |
| Machine.StrideBelowUserTop | os161-1.99/kern/syscall/runprogram.c:141-142 | The table stride `ROUNDUP(VADDR, 4)` is no larger than user space, so a cursor lowered by one stride either does not wrap or lands above user space. |
| UserMem.WrapNeverMapped | os161-1.99/kern/syscall/runprogram.c:121-124 | A cursor lowered with unsigned wrap-around either did not wrap, or lands where no copy into mapped user memory can succeed. |
| UserMem.SpliceReads | os161-1.99/kern/syscall/runprogram.c:124 | A write into the region reads back byte for byte at its destination. |
| UserMem.SpliceKeeps | os161-1.99/kern/syscall/runprogram.c:124 | A write into the region leaves every byte beside it unchanged. |
| UserMem.CStringStoredAt | os161-1.99/kern/syscall/runprogram.c:124 | A C string stored with its NUL at address a is exactly the C string a reader finds at a. |
| UserMem.AddrSpace.constructor | os161-1.99/kern/syscall/runprogram.c:82 | A new address space maps a region of user space and holds zeros there. |
| UserMem.AddrSpace.CopyOutStr | os161-1.99/kern/syscall/runprogram.c:124-127 | `copyoutstr` returns EFAULT when the destination is unmapped, and ENAMETOOLONG when the string and its NUL exceed the length bound. Either way it writes nothing. Otherwise it writes the string and its NUL at the destination and returns 0. |
| UserMem.AddrSpace.CopyOut | os161-1.99/kern/syscall/runprogram.c:144-147 | `copyout` of a VADDR-byte word returns EFAULT and writes nothing when the destination is unmapped. Otherwise it stores the word's big-endian bytes there and returns 0. |
| Layout.StrAddr | os161-1.99/kern/syscall/runprogram.c:120-128 | The address pass i of the string loop copies `args[i]` to and records in `argsPtr_array[i]`: the 8-aligned stack pointer lowered by the lengths of `args[0..i]`, each plus its NUL. It has no ensures; its properties are stated by StringsContiguous, StringsOrdered and StringWithin. |
| Layout.StringsImage | os161-1.99/kern/syscall/runprogram.c:118-130 | The region after k passes of the string loop: string j < k spliced in with its NUL at its address. Its ensures keep the region's size; what it holds is stated by StringsImageAt, StringsImageReadBack and StringsImageKeeps. |
| Layout.StringsContiguous | os161-1.99/kern/syscall/runprogram.c:118-130 | `argsPtr_array[i+1] + strlen(args[i+1]) + 1 == argsPtr_array[i]`. |
| Layout.StringsOrdered | os161-1.99/kern/syscall/runprogram.c:118-130 | A later string lies wholly below an earlier one, so the strings never overlap. |
| Layout.StringWithin | os161-1.99/kern/syscall/runprogram.c:118-130 | Every string and its NUL lie between the end of the string region and the 8-aligned stack pointer. |
| Layout.Pointers | os161-1.99/kern/syscall/runprogram.c:128-131 | `argsPtr_array` has argc + 1 entries. Entry i is the address of `args[i]`, and entry argc is 0. |
| Layout.FirstStringMiss | os161-1.99/kern/syscall/runprogram.c:124-127 | Gives the first string whose destination is unmapped, which is the pass whose `copyoutstr` fails. Every earlier string is mapped. |
| Layout.StringsImageAt | os161-1.99/kern/syscall/runprogram.c:118-130 | Once k strings are copied, byte t of every string j < k is in place. |
| Layout.StringsImageReadBack | os161-1.99/kern/syscall/runprogram.c:118-130 | Once k strings are copied, each of them and its NUL reads back at its recorded address. |
| Layout.StringsImageKeeps | os161-1.99/kern/syscall/runprogram.c:118-130 | The string loop writes nothing outside the bytes its strings occupy. |
| Layout.AllStringsFit | os161-1.99/kern/syscall/runprogram.c:118-130 | The string loop runs all argc passes exactly when every string's destination is mapped. |
| Layout.StringStep | os161-1.99/kern/syscall/runprogram.c:120-127 | In one pass, the wrapped cursor is mapped exactly when the string's own address is, and then it is that address. A failing pass is the first failing one. |
| Layout.StridesClosedForm | os161-1.99/kern/syscall/runprogram.c:141-142 | n passes of the table loop lower the cursor by n · ROUNDUP(VADDR, 4). |
| Layout.SlotAddr | os161-1.99/kern/syscall/runprogram.c:141-143 | The address pass i of the table loop writes: the table top lowered by i + 1 strides. It has no ensures; its properties are stated by SlotsDescend, SlotOffset and StridesClosedForm. |
| Layout.SlotsDescend | os161-1.99/kern/syscall/runprogram.c:139-149 | Each table slot lies a whole stride below every slot written before it. |
| Layout.FirstSlotMiss | os161-1.99/kern/syscall/runprogram.c:144-147 | Gives the first table slot whose destination is unmapped, which is the pass whose `copyout` fails. Every earlier slot is mapped. |
| Layout.TableImage | os161-1.99/kern/syscall/runprogram.c:139-149 | The region after k passes of the table loop: word j < k spliced into slot j. Its ensures keep the region's size; what it holds is stated by TableImageAt, TableImageReadBack and TableImageKeeps. |
| Layout.TableTop | os161-1.99/kern/syscall/runprogram.c:136-137 | The cursor after the string loop, rounded down to 4: a multiple of 4, not negative, at most the string region's end and less than 4 below it. |
| Layout.PlaceTable | os161-1.99/kern/syscall/runprogram.c:136-149 | The table loop from the 4-aligned cursor: it faults at the first unmapped slot with the words before it written, or places all argc + 1 words and ends at the last slot. Its ensures keep the region's size; PlaceTableParts and PlacedWordAbove state the rest. |
| Layout.CellsDecode | os161-1.99/kern/syscall/runprogram.c:144 | Each stored table word loads back as the entry it stores. |
| Layout.TableImageAt | os161-1.99/kern/syscall/runprogram.c:139-149 | Once k words are copied, byte t of every word j < k is in its slot. |
| Layout.TableImageReadBack | os161-1.99/kern/syscall/runprogram.c:139-149 | Once k words are copied, each of them reads back from its slot. |
| Layout.TableImageKeeps | os161-1.99/kern/syscall/runprogram.c:139-149 | The table loop writes nothing outside the slots it fills. |
| Layout.AllSlotsFit | os161-1.99/kern/syscall/runprogram.c:139-149 | The table loop runs all argc + 1 passes exactly when every slot is mapped. |
| Layout.SlotStep | os161-1.99/kern/syscall/runprogram.c:140-147 | In one table pass, the wrapped cursor is mapped exactly when slot i is, and then it is slot i. A failing pass is the first failing one. |
| Layout.PointersAreWords | os161-1.99/kern/syscall/runprogram.c:128 | Every recorded string address fits in a vaddr_t. |
| Layout.TableCellsDecode | os161-1.99/kern/syscall/runprogram.c:144 | The table words, in the order they are copied out, load back as the table entries in that order. |
| Layout.PlaceTableParts | os161-1.99/kern/syscall/runprogram.c:139-149 | A table loop that completes had every slot mapped. It wrote every word and left the cursor at the last slot. |
| Layout.MarshalWith | os161-1.99/kern/syscall/runprogram.c:110-149 | Marshalling with a given table order: the string loop up to its first fault, then the table loop. Its ensures keep the region's size; MarshalPlacedIff, MarshalStringFault, MarshalStringsReadBack, MarshalSlotWords, MarshalAlignment and MarshalKeepsOutside state what it does. |
| Layout.Marshal | os161-1.99/kern/syscall/runprogram.c:110-149 | Marshalling as written: MarshalWith in the order the code copies the table out. Its ensures keep the region's size; ArgvZeroIsNull states where the table lands. |
| Layout.MarshalPlacedIff | os161-1.99/kern/syscall/runprogram.c:110-149 | Marshalling succeeds exactly when every string and then every table slot lies in mapped memory. |
| Layout.MarshalPlacedTable | os161-1.99/kern/syscall/runprogram.c:118-149 | A successful marshalling is the table loop run over the complete string image. |
| Layout.MarshalAfterStrings | os161-1.99/kern/syscall/runprogram.c:118-149 | Once every `copyoutstr` succeeded, marshalling continues with the table loop over the complete string image. |
| Layout.MarshalStringFault | os161-1.99/kern/syscall/runprogram.c:124-127 | A failing `copyoutstr` ends marshalling with a fault. No later string and no table word is written. |
| Layout.StringSurvivesTable | os161-1.99/kern/syscall/runprogram.c:118-149 | The table writes, all below the strings, leave every string intact, and it reads back as a C string. |
| Layout.MarshalStringsReadBack | os161-1.99/kern/syscall/runprogram.c:118-149 | After a successful marshalling, each argument and its NUL sit in mapped memory at the recorded address, and read back as that argument. |
| Layout.StridesAdd | os161-1.99/kern/syscall/runprogram.c:141-142 | a + b table passes lower the cursor by the sum of what a passes and b passes lower it by. |
| Layout.SlotOffset | os161-1.99/kern/syscall/runprogram.c:139-149 | Slot argc - k lies k strides above the last slot. |
| Layout.TableWordAbove | os161-1.99/kern/syscall/runprogram.c:139-149 | Once all argc + 1 words are out, the word j strides above the last slot is entry argc - j. |
| Layout.PlacedWordAbove | os161-1.99/kern/syscall/runprogram.c:139-149 | A table loop that completes leaves entry argc - j of the table j strides above the final stack pointer. |
| Layout.StringsPlacedWordAbove | os161-1.99/kern/syscall/runprogram.c:139-149 | The same, with the entries being the recorded string addresses and the sentinel, in the order they go out. |
| Layout.MarshalSlotWords | os161-1.99/kern/syscall/runprogram.c:139-158 | After a successful marshalling, table slot j (the word j strides of `ROUNDUP(VADDR, 4)` above the final stack pointer) is mapped and holds entry argc - j of the table, in the order it went out. |
| Layout.SlotIsArgv | os161-1.99/kern/syscall/runprogram.c:141-144 | Table slot j is the word a C program reads as `argv[j]` (at argv + j · VADDR) when j = 0, or when VADDR is a multiple of 4 so the slots carry no padding. |
| Layout.ArgvZeroIsNull | os161-1.99/kern/syscall/runprogram.c:139-158 | As written, the C program's `argv[0]` is NULL, for every VADDR. The highest table slot, argc, holds the address of `args[0]`, and that slot is `argv[argc]` when VADDR is a multiple of 4. That address lies above argv and so is not NULL. |
| Layout.ArgAboveArgv | os161-1.99/kern/syscall/runprogram.c:118-158 | Every string address is above the final stack pointer, which is in mapped memory. |
| Layout.StridesNonNegative | os161-1.99/kern/syscall/runprogram.c:141-142 | The table loop never raises the cursor. |
| Layout.ConventionalArgv | os161-1.99/kern/syscall/runprogram.c:139-149 | In the conventional order, table slot j holds the address of `args[j]` for j < argc, and slot argc holds NULL. When VADDR is a multiple of 4 these slots are the C program's `argv[j]`. |
| Layout.LastSlotAligned | os161-1.99/kern/syscall/runprogram.c:136-142 | The last of argc + 1 slots below a 4-aligned top, at a stride that is a multiple of 4, is 4-aligned. |
| Layout.MarshalAlignment | os161-1.99/kern/syscall/runprogram.c:115-149 | The 8-aligned pointer is at most 7 below `as_define_stack`'s. The table top is 4-aligned and at most 3 below the string region's end. The final stack pointer is 4-aligned, mapped, and argc + 1 strides below the table top. |
| Layout.StackKeepsOutside | os161-1.99/kern/syscall/runprogram.c:118-149 | Neither loop writes below the last slot or at or above the 8-aligned stack pointer. |
| Layout.PlacedKeepsOutside | os161-1.99/kern/syscall/runprogram.c:118-149 | A completed table loop over the complete string image leaves the bytes outside [final stack pointer, 8-aligned stack pointer) unchanged. |
| Layout.MarshalKeepsOutside | os161-1.99/kern/syscall/runprogram.c:110-149 | A successful marshalling writes nothing outside [final stack pointer, 8-aligned stack pointer). |
| Layout.ZeroArgcGuardWraps | os161-1.99/kern/syscall/runprogram.c:111-119 | With argc = 0, the unsigned bound `total_args - 2` is the largest unsigned value, so the string loop's guard always holds. |
| Builder.ArgvBuilder.constructor | os161-1.99/kern/syscall/runprogram.c:111-112 | `argsPtr_array` is a fresh array of `1 + argc` entries. |
| Builder.ArgvBuilder.AlignStack | os161-1.99/kern/syscall/runprogram.c:115-116 | `stackptr - stackptr % n`, and nothing else changes. |
| Builder.ArgvBuilder.PushStrings | os161-1.99/kern/syscall/runprogram.c:118-130 | The loop runs until the first unmapped string and returns EFAULT there, or 0 after argc passes. The region then holds exactly the strings copied so far. `argsPtr_array[j]` is the address of `args[j]` for each of them. On success the cursor is at the end of the string region. |
| Builder.ArgvBuilder.SetSentinel | os161-1.99/kern/syscall/runprogram.c:131 | `argsPtr_array[argc] == 0`, and the recorded addresses are unchanged. |
| Builder.ArgvBuilder.PushTable | os161-1.99/kern/syscall/runprogram.c:139-149 | The loop runs until the first unmapped slot and returns EFAULT there, or 0 after argc + 1 passes. The region then holds exactly the words copied so far, in ascending index order at descending slots. On success the cursor is at the last slot. |
| Builder.PlaceArgs | os161-1.99/kern/syscall/runprogram.c:110-149 | The builder steps leave the region exactly as `Marshal` says. They return 0 exactly when `Marshal` places the table, with argv its final stack pointer, and EFAULT otherwise. |
| RunProgram.Process.constructor | os161-1.99/kern/syscall/runprogram.c:78-79 | A new process has no address space yet, which is what the KASSERT at line 79 checks and what Run requires. |
| RunProgram.Run | os161-1.99/kern/syscall/runprogram.c:61-158 | NULL name: EFAULT with no call made. `vfs_open` error: returned verbatim, and no address space exists. NULL from `as_create`: the file is closed and ENOMEM returned. `load_elf` error: the file is closed and the error returned. `as_define_stack` error: returned verbatim. Otherwise the new address space holds `Marshal`'s image, and user mode is entered with argc, argv = stack pointer = the final cursor, and the entry point, unless a copy faulted (then EFAULT). On every path an error is nonzero, the file is closed exactly when it was opened, and the process has an address space exactly when one was set. |

## Left out

- The internals of `vfs_open`, `vfs_close`, `as_create`, `as_activate`, `load_elf` and `as_define_stack` are not modelled. The VFS, ELF loader and VM system belong to other subsystems. Their answers (return values, entry point, stack pointer, the mapped user region) are an `Env` parameter, and the calls are recorded as a trace.
- RunProgram.Run: the bytes `load_elf` writes into the address space are not modelled. The new region starts zeroed and only the marshalling writes are tracked. The mapped region is a single contiguous range given by the environment, not the address space's real segments.
- `curproc_getas` / `curproc_setas` become the `addrspace` field of a `Process` record. The `KASSERT` at line 79 is a precondition of `Run`.
- `enter_new_process` is a privileged trap into user mode that does not return. It becomes the terminal outcome `Entered(argc, argv, stackptr, entrypoint)`. The `panic` and `return EINVAL` after it (lines 160-162) are unreachable and not modelled.
- The `DEBUG` logging (lines 58-59, 133, 151) is not modelled.
- UserMem.AddrSpace.CopyOutStr and UserMem.AddrSpace.CopyOut: the fault detection inside `copyout` / `copyoutstr` (TLB misses, page faults) is reduced to a range check against the mapped region. A copy that faults part-way, after writing a prefix, is modelled as writing nothing. The copy routines are not part of this model.
- Builder.ArgvBuilder.PushStrings requires argc ≥ 1. With argc = 0 the unsigned loop bound wraps and the loop reads `args[0]` and beyond (shown by `Layout.ZeroArgcGuardWraps`).
- Builder.PlaceArgs and RunProgram.Run require argc + 1 to fit in an unsigned long, so that `total_args` does not wrap.
- The `int offset` of line 65 holds `1 + strlen(args[i])` and `ROUNDUP(VADDR, 4)`. It is treated as unbounded: strings longer than `INT_MAX` are not considered.
- ENAMETOOLONG: `copyoutstr` is always called with a bound of exactly `strlen + 1`, so this error is never returned. The model's `CopyOutStr` keeps the case, and `PushStrings` proves only EFAULT can come back.
- The concrete `errno` values are those of OS/161's `kern/errno.h` (`ENOMEM` 3, `EFAULT` 6, `ENAMETOOLONG` 7), which is not part of this model. Only the fact that they are nonzero and distinct is used.
- A NULL name returns `EFAULT` (lines 61-63); an empty name is not checked and goes to `vfs_open` (line 73).
- argc = 0 is excluded by a precondition (see above).
- The final stack pointer holds the NULL sentinel (see Findings).
- Layout.ConventionalArgv and Layout.ArgvZeroIsNull: for j > 0 they state the C program's `argv[j]` only when VADDR is a multiple of 4 (as on sys161, where VADDR is 4). Otherwise each table slot is padded to `ROUNDUP(VADDR, 4)` bytes, so `argv[j]` at argv + j · VADDR is not a table slot, and the lemmas state only what the slots hold.

## Findings

| source | as written | input that shows it | evidently intended | confidence | as-written member | corrected member |
|---|---|---|---|---|---|---|
| os161-1.99/kern/syscall/runprogram.c:139-149 | Table entries are copied out in ascending index order (`argsPtr_array[i]` on pass i) while the cursor descends. So the NULL sentinel lands at the final stack pointer handed on as `argv`, and `args[0]`'s address in the highest slot (`argv[argc]` when VADDR is a multiple of 4). | Any run that reaches `enter_new_process`. For example, argc = 1 with `args[0] = "prog"`: `argv[0]` loads as 0, while the address of "prog" lies above `argv` and is nonzero. | `argv[j]` holds the address of `args[j]` for j < argc and `argv[argc]` is NULL. The conventional argv that a C `main` reads, obtained by copying out entry argc - i on pass i. | high; not executed | Layout.ArgvZeroIsNull | Layout.ConventionalArgv |

`RunProgram.Run` models the code as written (table order `AsWritten`). The corrected layout is `MarshalWith(…, Conventional)`, and every generic layout lemma (alignment, read-back of strings, fault behaviour, writes confined to the stack) is proved for it too.
