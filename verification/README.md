# HeatOS models

Dafny models of the stateful algorithms of the HeatOS kernel, and proofs of what those algorithms keep over whole runs.
Code that works by changing things in place is modelled in that form (classes with fields, arrays and maps, loops with
invariants) and proved equal to functions on values; the main results are lemmas about those functions and invariants
that every operation keeps. `dafny verify dfyconfig.toml` checks everything.

- **Heap** and **Pages** (`src/kernel/mm.c`): the first-fit heap with its headers in memory, and the page bitmap. The
  heap is a canonical form: which payloads are live decides it, so frees undo allocations, frees commute and an empty
  heap is the initial one.
- **Scheduler** (`src/kernel/scheduler.c`): the circular process list over both allocators.
- **FsTree**, **FsPath**, **FsWalk**, **PathLaws**, **RamDisk** (`src/lib/ramdisk.c`, `src/commands/tree.c`), **CopyFile**
  and **CopyTarget** (`src/commands/cp.c`): the tree in parallel arrays, paths, the recursive listing, file contents,
  copying, and which file a copy to a new destination writes.
- **ClassFile**, **ClassWriter**, **Descriptor**, **Jvm**, **JvmLaws**, **JvmRun**, **JvmLoop**, **JvmExample**,
  **JvmMachine** (`src/commands/java.c`): reading class files and that it inverts writing them; method descriptors; the
  interpreter as instructions on a frame of values, whole runs with nested calls, and the interpreter over arrays that
  refines them.
- **Checksum**, **Packets**, **DnsName**, **DnsQuery**, **DnsReply**, **DnsLaws**, **RxRing** (`src/drivers/network.c`):
  the Internet checksum and the headers it seals, DNS queries and replies, and the receive ring as a queue.
- **Memory** and **Digits** (`src/lib/string.c`), **Calc** and **CalcLaws** (`src/commands/calc.c`), **Snake**
  (`src/apps/catnake.c`) and **KernelLog** (`src/kernel/klog.c`).
- **Bytes**, **CStrings**, **Words** and **Wrappers** hold what several of these share.

The four modules of laws say what the code does in terms of opcodes, characters, bytes and plain arithmetic alone, without
the functions and tables that the models of the same code are written with: `JvmLaws` for every opcode of the interpreter
and the calls between methods, `PathLaws` for paths, `DnsLaws` for the bytes of a query and what answers it, `CalcLaws` for
the grammar that the head of `calc.c` promises. `JvmLoop` runs a compiled `for` loop by these laws.

Machine integers are written out where they wrap: 32-bit heap sizes, PIDs, tick and line counters, the random number
generator, 16-bit offsets and sums in the network code, and C's conversion of 32-bit lengths to `int` and the `int` sums
with them in the class reader. Elsewhere a precondition or an invariant keeps values in range, except in the calculator,
which is modelled over unbounded integers.

## Where the code does not do what it seems to promise

- `fs_delete` frees a node directly below the root without unlinking it. `RamDisk.Disk.Delete` states exactly when the
  file system stays well formed after a successful deletion: the parent is not the root and the node is not the current
  directory. `FsTree.DeleteUnderRootBreaks` shows that no tree describes the result otherwise, and
  `FsTree.RootDeleteThenCreateLoops` that the next creation links the node to itself.
- Resolving the path built for a node returns the node exactly when every name on the way can be written as a token
  (`FsPath.ResolveInvertsPath`). Creation accepts other names, such as ones with a slash, and no absolute path reaches
  those nodes (`FsPath.AddedUnspellable`, `FsPath.UnspellableUnreachable`, on a disk built in
  `RamDisk.UnreachableExample`).
- `cp` to a new destination makes a file for its last part and then resolves the destination again. With a
  blank among that part's first 11 characters the copy always fails and leaves an empty file behind
  (`CopyTarget.BlankNameIsLost`). Otherwise, for destinations shorter than 256 characters that do not put blanks in front
  of an absolute path, the rest of the last part leads on from the new file (`CopyTarget.StraightTarget`). With no blank
  in the part that is the file itself (`CopyTarget.PlainDestination`), but `abcdefghijk .. old` makes `abcdefghijk` and
  overwrites `old` (`CopyTarget.CopyGoesAstray`, on a disk built in `CopyTarget.AstrayExample`). Without a `..` in the
  destination no copy writes a file other than the one it made (`CopyTarget.MadeIsWritten`);
  `CopyTarget.MadeIsWrittenExactly` says for every such destination when the file made is the one written.
- `create_process` without a free page leaves its structure allocated (`Scheduler.Scheduler.CreateProcess`). Two
  processes have the same PID exactly if they were created a multiple of 2^32 creations apart (`Scheduler.SamePid`).
  Killing a process just created does nothing if its PID came out as 0, or as 2^32 - 1, which looks like the failure
  code (`Scheduler.Scheduler.KillUndoesCreate`).
- The length test on a DNS record adds in 16 bits, so a record that claims too many bytes can send reading back into
  the message (`DnsReply.LengthTest`, `DnsReply.OverlongRecordIsReread`).
- The calculator accepts exactly the texts that start with an expression none of whose divisors is zero, up to where it
  cannot be read any further (`Calc.AcceptedTexts`). Text behind that is ignored (`Calc.TrailingTextIgnored`), and a group
  is open, not closed, wherever something other than an operator or `)` comes next, however deep groups nest
  (`Calc.UnclosedGroupsAccepted`): `(1 2)` is accepted as 1 (`Calc.OpenInTheMiddle`).
- A Code attribute can claim so much code that the `int` sum in the test of it overflows. C leaves that undefined; with
  the sum cut to 32 bits, as compiled code has it, code outside the file passes. `ClassWriter.OverlongClaim` says for
  which lengths, `ClassWriter.OverlongClassIsWild` gives a class file, and `JvmRun.ReadClassIsGood` says exactly which of
  the classes accepted in that way have their code inside the file. Attribute lengths of 2^31 and more lead back in the
  file and are followed there.
- A host name with a trailing dot is rejected by `build_dns_query`, although the code seems to allow for one.

## Model

| member | source | states |
|---|---|---|
| Heap.Align8Meaning | src/kernel/mm.c:20-22 | rounding up gives the next multiple of 8, or 0 exactly when the 32-bit sum wraps |
| Heap.KernelHeap.constructor | src/kernel/mm.c:24-30 | the heap starts as one free block over the whole region, nothing being live |
| Heap.KernelHeap.CoalesceAll | src/kernel/mm.c:32-44 | the linked blocks become the blocks with all free neighbours merged |
| Heap.CoalesceProps | src/kernel/mm.c:32-44 | merging leaves no free neighbours, and changes neither the bytes covered nor any live payload |
| Heap.KernelHeap.Kmalloc | src/kernel/mm.c:105-134 | the heap stays well formed; the result is the first fit or null; a grant adds one payload of the rounded size and keeps all others; a refusal changes nothing |
| Heap.KernelHeap.FindFit | src/kernel/mm.c:114-131 | the search stops at the lowest free block that is large enough, or at the end if there is none |
| Heap.KernelHeap.Claim | src/kernel/mm.c:117-128 | the found block is taken, split exactly when 20 more bytes remain, and the list stays linked |
| Heap.KernelHeap.Kfree | src/kernel/mm.c:136-159 | a live payload is removed and the heap stays well formed; null and addresses outside the heap change nothing |
| Heap.KernelHeap.UsedBytesCount | src/kernel/mm.c:174-188 | the sum of the sizes of the allocated blocks |
| Heap.KernelHeap.FreeBytesCount | src/kernel/mm.c:190-204 | the sum of the sizes of the free blocks; used, free and 12 bytes a block make the whole heap |
| Heap.AllocIsFirstFit | src/kernel/mm.c:114-133 | allocation answers null exactly when no free block is as large as the request, and otherwise takes the lowest-addressed one that is |
| Heap.AllocGrants | src/kernel/mm.c:105-134 | on a well-formed heap allocation keeps it well formed and gives out memory no live payload has |
| Heap.FreeWellFormed | src/kernel/mm.c:136-159 | freeing a live payload keeps the heap well formed and removes just that payload |
| Heap.Canonical | src/kernel/mm.c:32-44 | two block lists without free neighbours that cover the same bytes and have the same live payloads are equal |
| Heap.FreeUndoesAlloc | src/kernel/mm.c:105-159 | freeing what was just allocated restores the identical heap |
| Heap.FreeOrderIrrelevant | src/kernel/mm.c:136-159 | freeing two live payloads in either order gives the same heap |
| Heap.LiveDisjoint | src/kernel/mm.c:117-128 | live payloads do not overlap, and a header lies between any two |
| Heap.BytesAccounted | src/kernel/mm.c:174-204 | used bytes, free bytes and headers add up to the bytes covered |
| Heap.RequestServed | src/kernel/mm.c:105-133 | on a well-formed heap a 32-bit request is served if and only if it is neither 0 nor more than 2^32 - 8 and some free block is as large as it is when rounded up to a multiple of 8 |
| Heap.UsedBytesMeaning | src/kernel/mm.c:174-188 | the used bytes are 0 at the start, grow by what each request is granted, and shrink by what each freed payload held |
| Heap.EveryRun | src/kernel/mm.c:105-159 | over every run of requests and frees of live payloads the blocks tile the heap, no two neighbours are free, payloads lie inside and are disjoint, and all bytes are accounted for |
| Heap.RunsAgree | src/kernel/mm.c:105-159 | any two runs from the start that leave the same payloads live leave the same heap |
| Heap.AllFreedIsInitial | src/kernel/mm.c:24-30 | a run that leaves nothing live has restored the initial heap exactly |
| Pages.BitAfterSet | src/kernel/mm.c:46-54 | setting or clearing the bit of one page changes that bit and no other |
| Pages.PageAllocator.constructor | src/kernel/mm.c:56-81 | low memory and the heap are reserved, and no other page is taken |
| Pages.PageAllocator.AllocPage | src/kernel/mm.c:83-92 | the lowest page that is not taken is taken, and null is returned exactly when there is none; the cached count stays right |
| Pages.PageAllocator.FreePage | src/kernel/mm.c:94-103 | the page holding the address is no longer taken, and any other address changes nothing |
| Scheduler.Scheduler.Init | src/kernel/scheduler.c:24-41 | succeeds exactly if the heap can give a block; then the ring is one process, the kernel, in that block |
| Scheduler.Scheduler.CreateProcess | src/kernel/scheduler.c:43-80 | fails exactly without a list, a block or a page, the block staying allocated in the last case; else a process with the next PID and its own block stands behind the first, ready, its stack being the whole of the lowest free page and its stack pointer 24 bytes below the end of that page; every other process keeps its PID, stack and state |
| Scheduler.StacksApart | src/kernel/scheduler.c:60-71 | the 4096 bytes of stack of any two processes behind the first are disjoint, and each stack pointer lies in its own process's stack |
| Scheduler.Scheduler.Yield | src/kernel/scheduler.c:82-90 | the current process becomes its successor in the ring |
| Scheduler.Scheduler.RunTurns | src/kernel/scheduler.c:82-90 | any number of yields runs the processes in ring order; as many yields as there are processes run each exactly once and end where they began |
| Scheduler.SamePid | src/kernel/scheduler.c:49-51 | two processes in the ring have the same PID if and only if they were created a multiple of 2^32 creations apart |
| Scheduler.Scheduler.Kill | src/kernel/scheduler.c:122-149 | succeeds exactly for the PID of a process other than the first; that process leaves the ring, its block and its page are released, the current process moves on if it was killed, and every other process keeps its PID, stack and state |
| Scheduler.UnlinkKeepsState | src/kernel/scheduler.c:129-142 | taking a process out keeps one cycle in which every process owns a live block and every one but the first a page of its own |
| Scheduler.InsertKeepsState | src/kernel/scheduler.c:70-75 | putting one in keeps the same, with the PID that follows the last one given |
| Scheduler.Scheduler.KillUndoesCreate | src/kernel/scheduler.c:43-149 | killing a process just created restores the ring, the current process, the heap and the pages exactly, and this happens if and only if the creation can succeed and the PID given is neither 0 nor 2^32 - 1 |
| Scheduler.Scheduler.Count | src/kernel/scheduler.c:11-22 | the number of processes, saturating at 4097 |
| Scheduler.Scheduler.Snapshot | src/kernel/scheduler.c:92-107 | the processes in ring order, marked if current: PID 0, then the survivors newest first |
| FsTree.LookupFinds | src/lib/ramdisk.c:43-53 | the search finds a sibling with the name if there is one |
| FsTree.ChildByName | src/lib/ramdisk.c:43-53 | in a tree it finds the node exactly that is used, has the directory as parent and bears the name |
| FsTree.AddKeepsTree | src/lib/ramdisk.c:419-428 | adding a node with a new name keeps all tree invariants |
| FsTree.DeleteKeepsTree | src/lib/ramdisk.c:530-553 | deleting a file or empty directory below a directory other than the root keeps all tree invariants |
| FsTree.DeleteUnderRootBreaks | src/lib/ramdisk.c:536-551 | deleting directly under the root leaves tables that no tree describes |
| FsTree.RootDeleteThenCreateLoops | src/lib/ramdisk.c:536-551 | a directory made, deleted and made again under the root is its own sibling |
| FsTree.DeletableMeaning | src/lib/ramdisk.c:530-534 | in a tree exactly the nodes in use other than the root that are the parent of no node in use can be deleted |
| FsPath.NextToken | src/lib/ramdisk.c:55-75 | the next token of the path, lower-cased and cut to 11 characters, and where it ends |
| FsPath.DepthBound | src/lib/ramdisk.c:465-470 | every node's parents reach the root before the cap of 64 entries, by counting ancestors |
| FsPath.UpIsParent | src/lib/ramdisk.c:465-470 | the entries of the parent walk are the node's ancestors in order |
| FsPath.ResolveInvertsPath | src/lib/ramdisk.c:331-374 | resolving the path written for a node returns that node if and only if every name on the way is token-like |
| FsPath.UnspellableUnreachable | src/lib/ramdisk.c:331-374 | a node below a name that is not token-like is the result of no absolute path |
| FsPath.AddedUnspellable | src/lib/ramdisk.c:403-429 | a node created in any tree under a name that is not token-like has no path that spells it |
| PathLaws.DotsLead | src/lib/ramdisk.c:331-374 | from any node in use ".." resolves to its parent, or to the root from the root; "." and nothing resolve to the node itself, and "/" to the root |
| PathLaws.NamesLead | src/lib/ramdisk.c:331-374 | a word without blanks and slashes, other than "." and "..", resolves exactly to the child whose name is the word cut to 11 characters with capital letters made small |
| PathLaws.PartsLead | src/lib/ramdisk.c:331-374 | a slash or a blank goes on from where the part in front of it leads; a slash in front starts at the root |
| PathLaws.UpFromPath | src/lib/ramdisk.c:331-374 | "/.." behind the path written for a spellable node other than the root resolves to its parent, from every current directory |
| PathLaws.PathShape | src/lib/ramdisk.c:453-500 | the path written for a node is its parent's, a slash and its name; the root's is "/" |
| PathLaws.CreatedIsFound | src/lib/ramdisk.c:403-429 | a node created under a word is what the word resolves to afterwards and not before; every word that spells another name resolves as before |
| PathLaws.DeletedIsLost | src/lib/ramdisk.c:530-553 | below a directory other than the root, a deleted node's name resolves to nothing, and every word that spells another name resolves as before |
| FsWalk.EachDescendantOnce | src/commands/tree.c:4-20 | the recursive listing of a directory meets every slot once if it is a node in use below the directory, and no other slot at all |
| RamDisk.Disk.constructor | src/lib/ramdisk.c:77-92 | an empty root directory, no files, and no data |
| RamDisk.Disk.AllocNode | src/lib/ramdisk.c:34-41 | the first free slot, or 0 if there is none |
| RamDisk.Disk.FindChild | src/lib/ramdisk.c:43-53 | the search over the sibling links is the search over the directory's list of children |
| RamDisk.Disk.Create | src/lib/ramdisk.c:403-429 | mkdir and create succeed exactly for a directory, a nonempty name no sibling has, and a free slot; they add that node, and an empty file if it is one, and keep everything valid |
| RamDisk.Disk.Delete | src/lib/ramdisk.c:530-553 | succeeds exactly for a file or empty directory other than the root, removing just that file; afterwards the disk is valid if and only if the node was not under the root and not the current directory |
| RamDisk.Disk.SetCwd | src/lib/ramdisk.c:398-401 | the current directory changes only to a directory |
| RamDisk.Disk.Read | src/lib/ramdisk.c:555-566 | the bytes last written to the file, cut to the size asked for, and nothing else in the buffer |
| RamDisk.Disk.Write | src/lib/ramdisk.c:568-587 | succeeds exactly for a file and a size that still fits the pool; the file then holds the bytes and every other file keeps its own |
| RamDisk.WriteKeepsRegions | src/lib/ramdisk.c:577-584 | nonempty files keep disjoint regions below the end of the used data |
| RamDisk.WriteChangesOneFile | src/lib/ramdisk.c:577-584 | writing behind the used data changes the contents of one file only |
| RamDisk.Disk.ResolvePath | src/lib/ramdisk.c:331-374 | the character-wise resolution is the walk along the path's tokens |
| RamDisk.Disk.BuildPath | src/lib/ramdisk.c:453-500 | the buffer holds the node's path, or as much as fits, ended by a NUL |
| RamDisk.Disk.ListBegin | src/lib/ramdisk.c:431-436 | there is something to list exactly if the node has children, and listing starts at the first of them |
| RamDisk.Disk.ListNext | src/lib/ramdisk.c:438-446 | from the i-th child of a directory the listing gives that child and goes on to the next one, ending exactly behind the last |
| RamDisk.UnreachableExample | src/lib/ramdisk.c:403-429 | on a disk just initialised, creating any name that is not token-like succeeds, and no absolute path then leads to the node |
| RamDisk.SlashExample | src/lib/ramdisk.c:403-429 | the same for `mkdir a/b` |
| RamDisk.Disk.ListTree | src/commands/tree.c:4-20 | terminates, and prints the descendants in order, each with its name, its depth as indentation and a slash if it is a directory |
| CopyFile.SplitParentAndName | src/commands/cp.c:32-77 | the path without outer blanks is split at its last slash, the name cut to 11 characters; refused exactly for an empty path or one that ends in a slash |
| CopyFile.RewrittenKeepsResolve | src/commands/cp.c:120-129 | writing a file's data changes the meaning of no path |
| CopyFile.CopyFilePath | src/commands/cp.c:79-133 | succeeds exactly if the source is a file, the destination leads to a file once one has been made where need be, and the bytes fit; tables, child lists, current directory and all contents afterwards are the old ones with the file made and the file written, whether it succeeds or fails |
| CopyFile.CopyStages | src/commands/cp.c:87-130 | which of these outcomes happens, branch by branch: no source, a destination that is a directory, one that exists, one that cannot be made, one that is made |
| CopyFile.CreateFor | src/commands/cp.c:97-118 | a file is made exactly if the parent resolves to a directory without a child of that name and a slot is free; then the path is resolved again |
| CopyFile.CopyBytes | src/commands/cp.c:120-132 | the destination takes the source's bytes exactly if they still fit the pool |
| CopyTarget.CopyKeepsTheRest | src/commands/cp.c:79-133 | whatever a copy comes to, every path that led to a node leads there still and every file but the destination keeps its content; after a success the source's content is what the destination path leads to |
| CopyTarget.PlainDestination | src/commands/cp.c:97-132 | a destination of less than 256 characters, without blanks in front of a slash, whose last part has no blank is made and is the file written |
| CopyTarget.BlankNameIsLost | src/commands/cp.c:97-118 | a blank among the first 11 characters of the last part makes the copy fail and leaves an empty file behind |
| CopyTarget.StraightTarget | src/commands/cp.c:97-118 | for such destinations with no blank among the first 11 characters of the last part, the destination leads to where the rest of that part leads from the file just made |
| CopyTarget.MadeIsWritten | src/commands/cp.c:97-132 | a copy that makes a file and succeeds writes that file, if the destination has no ".." in it |
| CopyTarget.MadeIsWrittenExactly | src/commands/cp.c:97-132 | for destinations as in `PlainDestination`, but with any blanks, the file made is the file written if and only if its name has no blank, the rest of the last part leads from it back to it, and the bytes fit |
| CopyTarget.CopyGoesAstray | src/commands/cp.c:97-132 | wherever "old" is a file of the current directory and "abcdefghijk" is free, a copy to "abcdefghijk .. old" makes the one and overwrites the other |
| CopyTarget.AstrayExample | src/commands/cp.c:79-133 | that happens on a disk that two creations on a fresh one lead to |
| ClassFile.Loader.LoadConstant | src/commands/java.c:215-271 | one constant is read into its slot and no other slot changes |
| ClassFile.Loader.LoadPool | src/commands/java.c:213-272 | the slots filled are those of the constants in order, wide constants taking two |
| ClassFile.Loader.SkipAttributeList | src/commands/java.c:177-184 | attributes are skipped by their lengths taken as `int`, or the list is rejected; `Wild` exactly if a sum is no `int` or an attribute in front of the file is read |
| ClassFile.Loader.LoadAttributes | src/commands/java.c:306-332 | a method's attributes are read, a Code attribute setting its limits and its code; `Wild` as before, or if the end claimed for code is no `int` |
| ClassFile.Loader.LoadMethods | src/commands/java.c:292-337 | all methods are read and the first 64 kept |
| ClassFile.Loader.Load | src/commands/java.c:190-350 | for every file the loops compute the class that the reading functions define, reject it, or reach something C leaves undefined |
| ClassWriter.ConstantReadsBack | src/commands/java.c:220-271 | every supported constant is read back, tag and operands (JVMS section 4.4) |
| ClassWriter.PoolReadsBack | src/commands/java.c:213-272 | a written constant pool is read back slot by slot, the second slot of a long or double left empty (section 4.4.5) |
| ClassWriter.NamesReadBack | src/commands/java.c:108-122 | looking a name up in the pool that was read gives the text of the UTF-8 constant with that index, and nothing for any other index |
| ClassWriter.CodeInfoMeaning | src/commands/java.c:318-328 | a Code attribute laid out as in section 4.7.3 is understood, whatever follows its code |
| ClassWriter.ClassReadsBack | src/commands/java.c:190-350 | reading inverts writing: versions, every slot of the constant pool, this_class and the first 64 methods with flags, names, limits and exact code bytes, whatever follows in the file, if and only if every end claimed for code is an `int` |
| ClassWriter.HonestClaimsFit | src/commands/java.c:317-328 | that is so for every class whose code lies inside its attributes |
| ClassWriter.OverlongClaim | src/commands/java.c:320-321 | the test is undefined exactly for lengths below 2^31 whose end is 2^31 or more, and exactly there the 32-bit sum lets the claim pass, all other claims being judged alike |
| ClassWriter.OverlongClassIsWild | src/commands/java.c:317-328 | a class file whose method claims 2^31 - 1 bytes of code: undefined, and accepted with all that code if the sum is cut |
| Descriptor.CountArgs | src/commands/java.c:440-483 | the loops over a descriptor compute the count and return kind that the recursive functions define |
| Descriptor.DescriptorReadsBack | src/commands/java.c:440-483 | every well-formed descriptor (JVMS section 4.3.3) yields its number of parameters and the kind of its return type |
| Descriptor.Letters | src/commands/java.c:440-483 | the letters of the descriptors in question, as ASCII numbers |
| Descriptor.OtherLetters | src/commands/java.c:440-483 | a descriptor that begins with another byte than 40, or has any other byte where its first parameter should begin, is refused |
| Jvm.FindStatic | src/commands/java.c:378-402 | the first static method with the name and descriptor, and nothing exactly if there is none |
| JvmLaws.ComparesWithZero | src/commands/java.c:750-770 | for every frame, the opcodes 0x99 to 0x9e, 0xc6 and 0xc7 pop a value and go to pc plus the signed 16-bit offset exactly if it is = 0, != 0, < 0, >= 0, > 0, <= 0, null or not null, and to pc + 3 otherwise; a target outside the code fails |
| JvmLaws.ComparesTwo | src/commands/java.c:771-813 | the same for 0x9f to 0xa6 and the two values on top, the one pushed first on the left |
| JvmLaws.Jumps | src/commands/java.c:814-823 | 0xa7 goes to pc plus its signed 16-bit offset |
| JvmLaws.JumpsFar | src/commands/java.c:824-835 | 0xc8 goes to pc plus its signed 32-bit offset, high byte first |
| JvmLaws.AddsAndMultiplies | src/commands/java.c:686-706 | 0x60, 0x64 and 0x68 replace the two values on top by sum, difference and product, if that is an int32 |
| JvmLaws.Divides | src/commands/java.c:689-719 | 0x6c and 0x70 give quotient and remainder, the remainder being smaller than the divisor and of the sign of the dividend; a zero divisor fails |
| JvmLaws.Shifts | src/commands/java.c:724-738 | 0x78, 0x7a and 0x7c multiply by, divide by and shift out 2 to the low five bits of the value on top, with and without the sign |
| JvmLaws.Bits | src/commands/java.c:724-738 | each of the 32 bits of what 0x7e, 0x80 and 0x82 push is the conjunction, disjunction or difference of that bit of the operands |
| JvmLaws.NegatesAndIncrements | src/commands/java.c:720-749 | 0x74 negates; 0x84 adds its signed second operand byte to the variable its first one names |
| JvmLaws.PushesConstants | src/commands/java.c:559-583 | 0x00 does nothing; 0x01 to 0x08, 0x10 and 0x11 push 0, -1 to 5, a signed byte and a signed 16-bit number |
| JvmLaws.LoadsVariables | src/commands/java.c:604-631 | which variable each of the twenty load opcodes pushes |
| JvmLaws.StoresVariables | src/commands/java.c:632-659 | into which variable each of the store opcodes puts the value on top, which it pops |
| JvmLaws.MovesValues | src/commands/java.c:660-685 | pop, dup, dup_x1 and swap on a stack that ends in a, b |
| JvmLaws.Returns | src/commands/java.c:855-867 | 0xac and 0xb0 return the value on top, 0xb1 returns nothing |
| JvmLaws.FailsOtherwise | src/commands/java.c:555-1079 | too few values on the stack fail for these opcodes, and every opcode that is in none of these lists fails whatever follows it |
| JvmLaws.PushesFromPool | src/commands/java.c:583-603 | 0x12 and 0x13 push the Integer that their constant holds, or mark the String, and fail on any other constant |
| JvmLaws.CreatesObject | src/commands/java.c:998-1009 | 0xbb pushes a marked reference for a Class constant and fails on any other |
| JvmLaws.GetsPrintStream | src/commands/java.c:868-895 | 0xb2 on the field out or err of java/lang/System pushes the print stream |
| JvmLaws.Prints | src/commands/java.c:896-957 | 0xb6 on print or println of java/io/PrintStream pops argument and stream and prints a number, a character, a truth value or a string as the descriptor says |
| JvmLaws.PrintsNothing | src/commands/java.c:896-957 | the same without an argument |
| JvmLaws.CallsConstructor | src/commands/java.c:958-997 | 0xb7 on a void `<init>` drops its arguments and a reference that new has pushed |
| JvmLaws.CallsStatic | src/commands/java.c:1010-1073 | a static call runs the first static method of that name and descriptor in the class named, the caller's own or one of the jar, on the values on top in the order they were pushed, and puts what it returns in their place unless the descriptor says void |
| JvmLaws.ArgumentsFirst | src/commands/java.c:540-553 | the arguments are the first local variables in order, all others being 0 |
| JvmLaws.RunsMain | src/commands/java.c:1093-1125 | a program that has a static main(String[]) starts with the first one, on null |
| JvmLaws.RunsPlainMain | src/commands/java.c:1093-1125 | one that has none starts with the first static main() |
| JvmLaws.NeedsMain | src/commands/java.c:1093-1112 | one that has neither is refused |
| JvmLaws.EncodedDecodes | src/commands/java.c:555-1079 | every instruction written with its opcode and operand bytes, anywhere in the code, is the one that is decoded there, and to its end |
| JvmLoop.SumIsComputed | src/commands/java.c:528-1084 | the code of `for (int i = 0; i < n; i++) s += i;` returns 0 + 1 + ... + (n - 1) for every int n up to 65536 and prints nothing, and comes to a sum that is no int exactly for greater n |
| JvmRun.StepKeepsGood | src/commands/java.c:555-1079 | every step keeps at most 256 stack entries, 64 local variables and a program counter in the code or at its end |
| JvmRun.CallKeepsGood | src/commands/java.c:1010-1073 | so do a call and its return, and new frames start that way |
| JvmRun.StackLaws | src/commands/java.c:660-685 | pop undoes dup and pushes, swap undoes itself, dup_x1 and pop make a swap |
| JvmRun.StoreThenLoad | src/commands/java.c:604-659 | a stored value is the one loaded next, and no other variable changes |
| JvmRun.FramesBound | src/commands/java.c:542-545 | at most 13 frames are ever active, for every program |
| JvmRun.EndlessRecursionFails | src/commands/java.c:542-545 | a method that begins by calling itself reaches all 13 frames and then fails |
| JvmExample.EndlessRuns | src/commands/java.c:1086-1131 | a class file that does so, as it is written and read back: running it ends that way with every step limit and every jar |
| JvmRun.MoreSteps | src/commands/java.c:555-1083 | a run that ends within some step limit ends the same way within every greater one |
| JvmRun.ReadClassIsGood | src/commands/java.c:317-328 | in every class accepted without such a sum each method's code lies inside the file; of the classes accepted with the sum cut to 32 bits exactly those have it so whose claims end at an `int` or are negative lengths |
| JvmMachine.Activation.DoLoad | src/commands/java.c:604-631 | a load pushes the local variable, or fails on a full stack or an index of 64 or more |
| JvmMachine.Activation.DoStore | src/commands/java.c:632-659 | a store moves the top of the stack to the variable |
| JvmMachine.Activation.DoDup | src/commands/java.c:664-668 | the top of the stack is doubled |
| JvmMachine.Activation.DoDupX1 | src/commands/java.c:669-675 | the top of the stack is also put below the second value |
| JvmMachine.Activation.DoSwap | src/commands/java.c:676-685 | the two top values change places |
| JvmMachine.Activation.DoIinc | src/commands/java.c:740-749 | a signed byte is added to a variable |
| JvmMachine.Activation.DoIf | src/commands/java.c:750-770 | the top of the stack is popped and the branch taken exactly if the condition holds, to a target inside the code |
| JvmMachine.Activation.DoIfCmp | src/commands/java.c:771-813 | the same for two values compared |
| JvmMachine.Activation.DoGoto | src/commands/java.c:814-835 | control goes to the target if it lies inside the code |
| JvmMachine.Activation.DoReturn | src/commands/java.c:855-864 | the top of the stack is returned |
| JvmMachine.Activation.DoVirtual | src/commands/java.c:896-957 | arguments and object are popped, and print and println on the print stream print by descriptor |
| JvmMachine.Activation.DoSpecial | src/commands/java.c:958-997 | only void constructors of object references are accepted |
| JvmMachine.Activation.Step | src/commands/java.c:555-1079 | for every code and constant pool, one turn of the loop over the arrays is the step of the decoded instruction on the frame of values |
| JvmMachine.FindMethod | src/commands/java.c:378-402 | the loop finds the first static method with the name and descriptor |
| JvmMachine.CallStatic | src/commands/java.c:1010-1073 | a static call is the run of its target, its value pushed unless the descriptor says void |
| JvmMachine.Exec | src/commands/java.c:528-1084 | the interpreter with its nested calls computes the run of the frames of values |
| JvmMachine.ExecuteClass | src/commands/java.c:1086-1131 | a class file is read and its main method run, with at most 13 frames active |
| Checksum.Checksum16 | src/drivers/network.c:132-150 | terminates, never wraps its 32-bit sum, and gives the complement of the folded big-endian word sum, odd lengths padded with a zero |
| Checksum.FoldUnique | src/drivers/network.c:145-149 | folding gives the one 16-bit number congruent to the sum modulo 65535 that is 0 only for 0 (RFC 1071 section 1) |
| Checksum.CheckMeaning | src/drivers/network.c:132-150 | checksum and message, padded to whole words and read as one number with the first byte highest, add up to a multiple of 65535, and the checksum is 65535 exactly for zero bytes |
| Checksum.FilledVerifies | src/drivers/network.c:543-554 | with its checksum stored in a zeroed field at an even offset, any message sums to checksum 0 |
| Packets.Nic.BuildIcmp | src/drivers/network.c:514-557 | refused exactly if too long; else the whole frame, whose IP header (RFC 791 section 3.1) and ICMP message both verify |
| Packets.Nic.BuildUdp | src/drivers/network.c:559-601 | the same for UDP, the IP header verifying |
| Packets.IpFields | src/drivers/network.c:532-543 | byte by byte where the IP header has its version and length, total length, identification, 64 hops, protocol, sender and receiver (RFC 791 section 3.1) |
| Packets.MessageFields | src/drivers/network.c:545-554 | the same for ICMP echo messages (RFC 792) and UDP datagrams (RFC 768) |
| DnsName.SkipName | src/drivers/network.c:164-199 | where the name ends, if its labels are well formed and lie in the message; the guard counter never decides |
| DnsName.SkipEncoded | src/drivers/network.c:164-199 | skipping a name of labels or with a compression pointer (RFC 1035 section 4.1.4) ends right behind it |
| DnsName.SkippedIsEncoded | src/drivers/network.c:164-199 | and nothing else is skipped: what was skipped is the encoding of a name of labels of 1 to 63 bytes with an end or a pointer |
| DnsName.DecodeEncoded | src/drivers/network.c:201-279 | a name written as labels reads back as those labels (RFC 1035 section 3.1) |
| DnsQuery.BuildQuery | src/drivers/network.c:201-279 | accepts a host exactly if it is well formed after its leading spaces and fits with 18 more bytes; then writes the query for its labels |
| DnsQuery.GoodHostMeaning | src/drivers/network.c:201-264 | the hosts accepted are exactly those of one or more labels of 1 to 63 letters, digits or hyphens joined by single dots |
| DnsQuery.QueryReadsBack | src/drivers/network.c:201-279 | the QNAME decodes to the lower-cased labels of the host, and skipping from offset 12 ends exactly four bytes before the end |
| DnsQuery.LabelsMeaning | src/drivers/network.c:152-162 | every label asked for is its piece of the host in lower case, of letters, digits and hyphens |
| DnsLaws.AcceptedHosts | src/drivers/network.c:201-264 | the hosts accepted are those made of ASCII letters, digits, hyphens and dots with 1 to 63 characters before the first dot, between dots and behind the last |
| DnsLaws.QueryBytes | src/drivers/network.c:201-279 | every byte of the query: identifier high byte first, 0x0100, one question and zeros, the host with a length in front and in place of every dot and its characters in small letters where they stood, 0, then 0, 1, 0, 1 |
| DnsLaws.AnswersMatchQuery | src/drivers/network.c:628-650 | a payload of 12 bytes or more answers a query if and only if it goes from port 53 to the asking port, begins with the query's first two bytes and has the top bit of its third byte set |
| DnsLaws.QueryIsAnswered | src/drivers/network.c:628-701 | the reply that repeats a query's question and gives one address for the name at offset 12 resolves to that address if its RCODE is 0, and to nothing otherwise |
| DnsReply.Resolver.Handle | src/drivers/network.c:628-701 | payloads from other ports, and longer ones with another id, change nothing; short ones end the wait; an answer ends it and reports exactly what the message says |
| DnsReply.Resolver.FindAddress | src/drivers/network.c:674-697 | the loop stops at the first A/IN record with 4 bytes of data and copies them |
| DnsReply.ResponseReadsBack | src/drivers/network.c:628-701 | every well-formed response (RFC 1035 sections 4.1.1 to 4.1.4) reports the first A/IN answer of 4 bytes if its RCODE is 0, and nothing otherwise |
| DnsReply.RestIrrelevant | src/drivers/network.c:674-701 | what follows the answers does not matter |
| DnsReply.LengthTest | src/drivers/network.c:688-688 | the 16-bit test accepts the records that end in the message and exactly those whose sum wraps |
| DnsReply.OverlongRecordIsReread | src/drivers/network.c:684-697 | a message whose only record is overlong can still report an address |
| DnsReply.Resolver.Resolve | src/drivers/network.c:1117-1147 | over every run of datagrams the first one that answers the question decides the result |
| RxRing.Card.Fetch | src/drivers/network.c:834-844 | as much of a frame as the buffer holds is fetched byte for byte, also across the end of the ring |
| RxRing.Card.ReceivePackets | src/drivers/network.c:799-855 | a ring that holds packets delivers exactly their frames, in order and cut to 1600 bytes, and ends with the boundary one page behind the current page |
| RxRing.DepositAppends | src/drivers/network.c:799-855 | a frame put behind the ring's packets is appended to the queue and disturbs none of them |
| RxRing.HoldsEnd | src/drivers/network.c:801-809 | the queue's pages end at the current page, and never leave the ring |
| Memory.Memcpy | src/lib/string.c:55-83 | the byte and word loops copy simultaneously whenever the destination is below the source or the ranges are disjoint |
| Memory.MovedMeaning | src/lib/string.c:85-102 | byte by byte, the target range holds what the source range held and every other byte its own |
| Memory.Memmove | src/lib/string.c:85-102 | the bytes are copied simultaneously for every overlap and alignment, and no other byte changes |
| Memory.FrontCompose | src/lib/string.c:62-80 | copying in pieces from the front adds up, overlapping words included |
| Digits.ReadNumeral | src/lib/string.c:212-225 | reading the digits of a number back gives the number |
| Digits.NoLeadingZero | src/lib/string.c:212-225 | no number but 0 is written with a leading zero |
| Digits.WordFits | src/lib/string.c:212-225 | a 32-bit number needs at most 32 digits, and at most ten in decimal |
| Digits.Utoa | src/lib/string.c:212-225 | the buffer holds the digits, most significant first, and a NUL |
| Calc.Parser.ParseFactor | src/commands/calc.c:25-47 | terminates, and reads a factor as the recursive rule says |
| Calc.Parser.ParseTerm | src/commands/calc.c:49-63 | the same for a term, ending at once on a zero divisor |
| Calc.Parser.ParseExpr | src/commands/calc.c:65-74 | the same for an expression |
| Calc.Calculate | src/commands/calc.c:76-95 | the usage text for no text at all, else the value of the expression at the front of the text, or an error |
| Words.TruncDivMeaning | src/commands/calc.c:59-59 | division truncates towards zero |
| Calc.NumberReadsBack | src/commands/calc.c:38-46 | digits are read as the decimal number they write |
| Calc.EvaluateInvertsShow | src/commands/calc.c:25-74 | for every expression tree, its text with the parentheses it needs and any blanks is read to its end and to its left-associative, precedence-respecting value, with an error exactly if a divisor is zero |
| Calc.AcceptedTexts | src/commands/calc.c:25-74 | a text is accepted if and only if it starts with an expression without a zero divisor, its groups closed or open, that nothing behind it can be read into; the answer is that expression's value |
| Calc.TrailingTextIgnored | src/commands/calc.c:76-95 | text behind a complete expression changes nothing |
| Calc.UnclosedGroupsAccepted | src/commands/calc.c:27-33 | open groups read like closed ones, nested in any depth and whatever follows |
| Calc.OpenInTheMiddle | src/commands/calc.c:27-33 | "(1 2)" is accepted as 1 |
| CalcLaws.FollowsGrammar | src/commands/calc.c:1-7 | every text of the grammar expr, term, factor, with blanks and tabs in front of tokens, all in ASCII, is answered with its value, operators of a rank grouping to the left and division cutting off, or with an error exactly if a divisor is zero |
| CalcLaws.NumeralsAreRead | src/commands/calc.c:38-46 | the decimal numeral of every number, behind any blanks and tabs, is read as that number and to its end |
| CalcLaws.BlanksChangeNothing | src/commands/calc.c:18-20 | two texts of the same tokens are answered alike, whatever blanks and tabs stand in front of the tokens |
| CalcLaws.BlankInFront | src/commands/calc.c:18-20 | a blank or tab in front of any text at all changes nothing |
| CalcLaws.OtherCharacters | src/commands/calc.c:25-74 | every character the grammar does not have ends the text behind a number and is an error in front of one |
| Snake.NeverIntoNeck | src/apps/catnake.c:146-163 | whatever key is hit, the next cell is not the second segment |
| Snake.CellsFit | src/apps/catnake.c:10-10 | a snake of distinct cells is no longer than the grid has cells |
| Snake.GrowthNeverBlocked | src/apps/catnake.c:174-175 | when food is reached there is room for one more segment, so the guard on the length never blocks |
| Snake.NextKeepsGood | src/apps/catnake.c:144-182 | every step keeps the cells distinct, in the grid and stepwise adjacent, food off the body, and the length 4 more than the score |
| Snake.StepMovesByOne | src/apps/catnake.c:161-180 | a step puts one cell in front and keeps the rest in order, growing exactly when it reaches the food |
| Snake.HeadMoves | src/apps/catnake.c:144-180 | up and down move the head of a level snake to the row above and below, left and right that of an upright one to the column beside, any other key goes straight on; the game ends exactly if that cell is outside 40 by 18 or on the snake; the score and the high score that result |
| Snake.FoodIsDrawn | src/apps/catnake.c:58-69 | new food lies on the first of at most 1000 cells drawn by the linear congruential generator that is not on the snake, or nowhere if all are |
| Snake.EveryRunIsGood | src/apps/catnake.c:116-182 | the same for every sequence of keys, the length being 4 + score and at most 720 |
| Snake.Game.Occupied | src/apps/catnake.c:52-56 | whether the cell is one of the body's |
| Snake.Game.PlaceFood | src/apps/catnake.c:58-69 | food lies where the generator's first draw of a free cell puts it, and nowhere after 1000 draws |
| Snake.Game.Step | src/apps/catnake.c:144-182 | the step on the array is the step on values, and keeps the invariant |
| KernelLog.RingPut | src/kernel/klog.c:26-33 | one more character is appended to what the ring holds, pushing out the oldest when it is full |
| KernelLog.LineLayout | src/kernel/klog.c:12-91 | the characters of a line in ASCII: the level as a digit or "?", the running number, the subsystem or "core", the message and a line feed |
| KernelLog.Ring.Putc | src/kernel/klog.c:26-33 | the ring always holds the last 8192 characters logged |
| KernelLog.Ring.Clear | src/kernel/klog.c:60-64 | the text starts anew and the line counter goes on |
| KernelLog.Ring.Log | src/kernel/klog.c:66-91 | one line is appended: level, running number, subsystem and message |
| KernelLog.Ring.Read | src/kernel/klog.c:135-158 | the first m - 1 of the last 8192 characters logged since the last clear, or all of them, and a NUL; a log that fits the ring and the buffer is read whole; nothing else in the buffer changes |
| KernelLog.RunAppends | src/kernel/klog.c:66-91 | a run of calls appends their lines in order, numbered on from the counter modulo 2^32 |
| KernelLog.TextSinceClear | src/kernel/klog.c:60-91 | after any run, the text is that of the calls since the last clear, their numbers going on from the calls before |

## Left out

- Heap and page contents other than block headers and bitmap bits; only the kernel's single thread is modelled.
- The panic in `scheduler_init`, saved registers, the fake stack frame and log lines of the scheduler.
- Heap.KernelHeap.Kfree: takes null, addresses outside the heap and live payloads; the code frees any address inside the heap after a range check, which then overwrites whatever lies there.
- RamDisk.Disk.BuildPath: takes nodes in use and indices of 64 and more; for a free slot the code writes the names its old parent links lead to.
- Null pointer arguments, which the C code tests for; the models take values that exist.
- The standard directories and demo files that `ramdisk_init` creates: they are further calls of the operations modelled.
- Names longer than 11 characters are cut as the code cuts them; `mv`, `rm` and the other shell commands on the disk are not modelled.
- `cmd_cp` and its argument splitting; messages printed by commands.
- ClassFile.Loader.constructor: takes files of at most 2^31 - 2^17 - 1 bytes, so that offsets in the file and 16-bit counts add up to an `int`; the RAM disk holds 8192 bytes.
- JvmMachine.Exec: arithmetic whose exact result is not an `int32` ends in `Undefined`, because C leaves signed overflow undefined; left shifts of negative numbers are counted among it.
- JvmMachine.Exec: runs are cut off by a step limit for each frame, since programs need not terminate; `JvmRun.MoreSteps` shows that the limit decides nothing else.
- ZIP archives: the classes of a jar are given by a map from names, and the walker over archive entries, manifests and HJAR programs is not modelled.
- Calc.Calculate: values are unbounded integers, so it says nothing about expressions whose intermediate results leave `int32`; the printing of the result is left out.
- The depth of the C stack under recursion in the calculator, the interpreter and `tree`.
- RxRing.Card.ReceivePackets: takes rings whose packets have well-formed headers, and a current page that stays put while they are read; the repair of next-page fields out of range and the skipping of packets marked bad are written out but not stated; remote DMA always succeeds.
- Port input and output, PCI probing, ARP, routing, ping and the transmit side of the card.
- Packets.Nic.BuildIcmp: takes payloads of less than 65494 bytes; with more the 16-bit frame length wraps and passes the size test, and the copy runs over the transmit buffer. No caller builds one.
- Packets.Nic.BuildUdp: takes payloads of less than 65494 bytes, for the same reason.
- DnsReply.Resolver.Handle: takes payloads of at most 65472 bytes, far above what a frame carries, so that offsets of names cannot wrap.
- DnsReply.Resolver.FindAddress: takes messages of at most 65472 bytes, as the one before.
- DnsReply.Resolver.Resolve: takes datagrams of at most 65472 bytes, as the one before.
- DnsName.SkipName: takes messages of at most 65472 bytes, as the one before.
- DnsQuery.BuildQuery: takes an output buffer of at most 65530 bytes, so that its last position cannot wrap.
- The timeout of the DNS wait is the end of the sequence of datagrams.
- Drawing, delays and keyboard polling of the snake game, and leaving and restarting it; the seed of its generator is a parameter.
- `klog_log_u32` and the copy of each log line to the serial port.
- The desktop, the other games, line editing, the 64-bit kernel, the TCP, web, FAT32 and Wi-Fi modules, and boot code.
