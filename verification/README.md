# FOS v2: memory manager, boot and libraries, verified

FOS v2 is a small 32-bit x86 teaching kernel.  This project models its core in
Dafny and proves what that core is for:

- the physical-frame allocator, its 16-bit reference counts and the two-level
  page tables, over every run of operations on any number of page directories;
- the intrusive doubly linked list on which free frames and free environments live;
- the boot chain, from the memory size in the CMOS through the bump allocator
  and the kernel's address space to `page_check`;
- the binary search over debugging symbols;
- environment slots and their generation-stamped ids;
- number formatting and parsing, the format scanner, and `vsnprintf`;
- the boot loader, from the first page of the image to the jump into the kernel.

## How it is built

Physical memory is one sequence (or array) of 32-bit words.  A page directory or
a page table is the 1024 words of some frame, so structures that share a frame
share it in the model too.  Code that updates state in place is a class or a
method over arrays with loops (`Queue.List`, `MemoryManager.Manager`,
`KernelVM.Kernel`, `EnvironmentTable.EnvTable`, `Printf.Printer`, and the
methods of `Stabs`, `Numbers`, `Loader`, `PageCheck` and `Initialize`).  Each is
proved equal to a function on values, and the properties are lemmas about those
functions.

| file | contents |
|---|---|
| `Words.dfy`, `BitForms.dfy` | word types, address macros, and their forms with shifts and masks |
| `Paging.dfy` | allocator and page tables as functions on a state |
| `ReferenceCounts.dfy` | the invariant of counts, free list and tables |
| `FlatMap.dfy` | refinement of one flat map from (directory, page) to entry |
| `Runs.dfy` | `sys_allocate_page`, frame accounting, whole runs |
| `LostFrames.dfy` | exactly which calls lose a frame |
| `KernelSpace.dfy` | the kernel's own address space over runs |
| `Isolation.dfy` | what user programs may reach over runs |
| `Queue.dfy`, `MemoryManager.dfy` | the intrusive list and the memory manager in place |
| `BootTables.dfy`, `KernelVM.dfy`, `KernelAccess.dfy`, `SelfMap.dfy` | the kernel's address space at boot |
| `PageCheck.dfy`, `Initialize.dfy` | the kernel's own test, and the chain from power-on |
| `Stabs.dfy`, `StabLimits.dfy` | symbol search, and exactly when it is right |
| `Environments.dfy` | environment slots and ids |
| `Numbers.dfy`, `Printf.dfy` | numbers, formats and buffers |
| `FormatArguments.dfy`, `Conversions.dfy` | which arguments fit a format, what its escapes mean |
| `Parsing.dfy` | what `strtol` makes of any string |
| `Loader.dfy` | the boot loader |

`dafny verify dfyconfig.toml` verifies everything.

The invariant `ReferenceCounts.Inv` says, of any set of page directories: every
user directory entry is empty or holds a present table of its own; no two
directory entries share a table; every table entry is empty or present and names
a frame of memory; the count of every frame is the number of entries that name
it plus the references the kernel itself holds (`pins`); every frame on the free
list is there once, is no directory and has count 0, so no entry names it.
`Initialize.FosInitialize` reaches a state with this invariant from any memory
contents, and `KernelSpace.KernelOverRuns` carries the kernel's translations and
their protection from there through every run.  `Isolation.UsersAreIsolated` says
what all of it is for: no two pages that user programs may use reach the same frame,
and none reaches a page table, a directory or a frame of the kernel.

## Where the code departs from what it says

The model follows the code.  These are the places where the code and its own
comments, or a property one would expect, disagree.

- `sys_allocate_page` documents that `PTE_P` must be set (kern/syscall.c:81), but
  its check rejects any permission word with that bit (kern/syscall.c:116).
- `sys_allocate_page` takes its frame before it looks at its arguments.  A
  rejected call loses the frame.  When the table for the page cannot be built, the
  count 0 of the frame is decremented and wraps to 65535, and the frame is lost
  too.  `LostFrames.SysAllocateLosesIff` says exactly which arguments and states
  lose a frame, `Runs.SysAllocateKeepsInvIff` which break the invariant, and
  `Runs.SysAllocateKeepsInv` that it holds after every call if the wrapped count is
  taken for references of the kernel.
- `references` is a 16-bit count and wraps.  `ReferenceCounts.MapKeepsInv` shows
  that the invariant survives a successful `map_frame` if and only if the count
  was below 65535 or the page already mapped this frame.
- Mapping the frame that is already mapped returns early and keeps the old
  permissions (kern/memory_manager.c:439-440); see `FlatMap.FlatMapped`.
- `boot_allocate_space` ignores `align` and rounds to a page.
- `boot_get_page_table` does not clear new tables.  In the region of UENVS, whose
  table is open to the user, pages behind the image of envs are accessible exactly
  as the words left in that frame say (`KernelVM.BehindProtection`): not at all if
  memory was zero at power-on.
- The image of frames_info is documented as readable for user programs
  (kern/memory_manager.c:84-91, inc/memlayout.h:159-160).  Its pages have PERM_USER,
  but its directory entry does not, so the processor refuses every user access;
  only the entry of UENVS is opened (`KernelVM.BootProtection`).
- `detect_memory` counts no memory at all when the CMOS reports less than one
  page of extended memory (`Initialize.NumberOfFramesBounds`).
- The comment at kern/kdebug.c:42-43 says that left > right if no symbol contains
  the address.  When all symbols of the type lie above it, the search ends with
  left <= right nevertheless (`Stabs.BoundsTellContained`).
- After an exact match the search moves `addr` four bytes up, because it is a
  pointer to words.  Symbols within those bytes can mislead it
  (`Stabs.RoomIsNeeded`); `StabLimits.FoundIsLinearScanIff` says exactly when it
  still finds what a linear scan finds.
- `envid2env` is documented to accept children of the current environment, but
  every parent id is 0 and no environment has that id, so with `checkperm` only
  the current environment passes (`Environments.PermissionIsSelf`).
- The error constants are negative already (inc/error.h:7-15), so `-E_BAD_ENV` is
  positive.  Errors are modelled as options, not by sign.
- `%d` and `%p` emit the sign or the prefix before the padding, so blank padding
  separates them from the digits; the round trips hold exactly when it does not
  (`Numbers.SignedRoundTrip`, `Numbers.PointerRoundTrip`).  The flag `-` makes
  `printnum` pad with `-` characters and is outside the round trips.
- The boot loader's comment says that reading whole sectors is harmless because
  segments are loaded in increasing order.  That is not enough
  (`Loader.IncreasingOrderIsNotEnough`, with an image and its wrong byte).  Besides,
  the loader takes each program header from memory that earlier segments may have
  overwritten (`Loader.HeadersMayBeOverwritten`).  `Loader.BootsEveryImageIff`
  gives the exact condition on the headers.

## Model

| member | source | states |
|---|---|---|
| BitForms.PdxBits | inc/mmu.h:34 | the directory index used in the model is the shifted and masked address |
| BitForms.PtxBits | inc/mmu.h:38 | the table index is the shifted and masked address |
| BitForms.PgoffBits | inc/mmu.h:41 | the page offset is the masked address |
| BitForms.ExtractBits | inc/mmu.h:78 | EXTRACT_ADDRESS is the conjunction with the complement of 0xFFF |
| BitForms.PresentBit | inc/mmu.h:60 | an entry is present exactly if its conjunction with PERM_PRESENT is not zero |
| BitForms.EntryJoins | kern/helpers.h:66-69 | CONSTRUCT_ENTRY and the or-ed permission bits are sums, because no bits overlap |
| BitForms.PermissionBits | kern/syscall.c:116 | the permissions accepted by the model are exactly those that pass the mask test, for every 32-bit word |
| BitForms.EnvIdBits | inc/environment_definitions.h:28 | ENVX and the clearing of the index bits are the masks on the two's-complement form, also for negative ids |
| BitForms.EnvIdJoins | kern/user_environment.c:354 | generation and slot number have no bit in common, so or is addition |
| BitForms.LoaderMasks | boot/main.c:74-78 | the load address and its sector are the masks that readseg applies |
| Words.PageAddress | inc/mmu.h:44 | every triple of directory index, table index and offset is the split of the address PGADDR makes |
| Words.RoundUpPage | inc/types.h:57-67 | rounding up to a page gives the next aligned address, less than a page away, if the addition does not wrap |
| Words.MemoryLayout | inc/memlayout.h:23-72 | the constants are the addresses drawn in the memory map |
| Queue.ChainInsert | inc/queue.h:177-206 | after the pointer writes of an insertion at position k, following the links visits the old elements with the new one at k, every le_prev designates the cell that holds its element, and links outside the list are untouched |
| Queue.ChainRemove | inc/queue.h:212-217 | after the two pointer writes of a removal the links run through the sequence without that element, with all back pointers right |
| Queue.List.constructor | inc/queue.h:109-112 | a new list is empty and well linked |
| Queue.List.Init | inc/queue.h:168-170 | the list becomes empty whatever the links held |
| Queue.List.InsertHead | inc/queue.h:201-206 | the contents become the element followed by the old contents |
| Queue.List.InsertAfter | inc/queue.h:177-183 | the contents become the old ones with the element right after the given one |
| Queue.List.InsertBefore | inc/queue.h:190-195 | the contents become the old ones with the element right before the given one, also at the head, without access to the head |
| Queue.List.Remove | inc/queue.h:212-217 | any element of the list is removed without a traversal, and the others keep their order |
| Queue.List.Length | inc/queue.h:160-163 | a forward traversal ends and counts the contents |
| Paging.Va2pa | kern/helpers.c:131-142 | the walk of the hardware format gives the frame's address, or all ones if either level is not present |
| Paging.ClearFrame | lib/string.c:107-119 | memset of a frame clears its 1024 words and no others |
| Paging.LookupChangesNothing | kern/memory_manager.c:372-407 | get_page_table without create changes nothing, and finds a table if and only if the directory entry is not 0 |
| Paging.CreateFindsTable | kern/memory_manager.c:372-407 | with create a table that is there is found without a change, a missing one is made from the first free frame, and without a free frame the answer is E_NO_MEM and nothing changes |
| Paging.FrameInfoIsLookup | kern/memory_manager.c:463-476 | get_frame_info is that lookup followed by the entry in the table found, None if it is 0 or there is no table |
| ReferenceCounts.FreeIsUnused | kern/memory_manager.c:324-344 | a frame on the free list is no directory and no table, and no entry names it |
| ReferenceCounts.InvWalkable | kern/memory_manager.c:372-407 | in a good state a page walk in any directory never leaves physical memory, so K_VIRTUAL_ADDRESS and to_frame_info do not panic |
| ReferenceCounts.AllocateKeepsInv | kern/memory_manager.c:324-334 | allocate_frame keeps the invariant |
| ReferenceCounts.FreeKeepsInv | kern/memory_manager.c:340-344 | free_frame of an unreferenced frame that is not free keeps the invariant |
| ReferenceCounts.GetPageTableKeepsInv | kern/memory_manager.c:372-407 | get_page_table with create keeps the invariant, also when the table is built in a recycled frame; it fails only without a free frame and then changes nothing |
| ReferenceCounts.UnmapKeepsInv | kern/memory_manager.c:492-503 | unmap_frame keeps the invariant for mapped and unmapped pages |
| ReferenceCounts.InstallPageKeepsInv | kern/memory_manager.c:445-450 | installing an entry keeps the invariant if and only if the 16-bit count does not wrap |
| ReferenceCounts.MapKeepsInv | kern/memory_manager.c:426-451 | map_frame fails exactly when a table is missing and no frame is free, and then changes nothing; success keeps the invariant if and only if the count does not wrap or the page already mapped the frame |
| FlatMap.CheckVa2paIsFlat | kern/helpers.c:131-142 | check_va2pa returns what the flat map holds for the page, and all ones for pages it does not hold |
| FlatMap.UnmapIsFlatRemove | kern/memory_manager.c:492-503 | unmap_frame removes one page of one directory from the flat map and changes no other translation |
| FlatMap.GetPageTableIsFlatIdentity | kern/memory_manager.c:372-407 | building a table in a recycled frame changes no translation in any directory |
| FlatMap.MapIsFlatUpdate | kern/memory_manager.c:426-451 | a successful map_frame sets one page of one directory to the new entry, or keeps the old entry if it already mapped the frame, and changes no other translation |
| Runs.UnmapAccounting | kern/memory_manager.c:492-503 | unmap_frame frees a frame exactly if the page was mapped and its frame had count 1 |
| Runs.MapAccounting | kern/memory_manager.c:426-451 | the number of free frames falls by one for a new table and rises by one for a displaced frame with count 1 |
| Runs.OtherMemoryKeepsInv | kern/memory_manager.c:324-503 | writing any memory outside directories and tables keeps the invariant and every translation |
| Runs.SysAllocateMaps | kern/syscall.c:91-131 | on success the page maps the frame taken, with the permissions asked for, every other translation is unchanged, and the invariant holds |
| Runs.SysAllocateIsPrivate | kern/syscall.c:91-131 | on success the frame is all zero, has count 1, is no table, and no other page of any directory maps it |
| Runs.SysAllocateRejects | kern/syscall.c:112-117 | with a free frame and arguments that are not accepted, the result is the error, no memory and no translation changes, but the frame taken is neither free nor counted nor named |
| LostFrames.SysAllocateLosesIff | kern/syscall.c:107-129 | the frames that nobody can reach stay the same if and only if there was no free frame, or the arguments are accepted and it is not the case that the page needs a table and one frame is free; otherwise exactly the frame taken joins them |
| LostFrames.SysAllocateOutcome | kern/syscall.c:107-131 | each of the three results, if and only if: success if a frame is free, va is below USER_TOP and a multiple of 4096, perm masked with the bits outside PERM_AVAILABLE and PERM_WRITEABLE is PERM_USER, and it is not the case that one frame is free and the directory entry is 0; E_INVAL if a frame is free and a test fails; E_NO_MEM otherwise |
| Runs.SysAllocateKeepsInvIff | kern/syscall.c:91-131 | the call keeps the invariant if and only if it is not the case that accepted arguments meet a missing table with one free frame left; it succeeds exactly if a frame is free, the arguments are accepted and that is not the case |
| Runs.SysAllocateKeepsInv | kern/syscall.c:91-131 | for all arguments, the invariant holds after the call with the frame lost to a missing table, if any, counted as the kernel's own; a call that does not succeed changes no translation |
| Runs.DecrementKeepsInv | kern/memory_manager.c:350-354 | giving up a kernel reference keeps the invariant and frees the frame at count 0 |
| Runs.LegalIsSafe | kern/memory_manager.c:324-503 | no call that respects the callers' duties walks outside physical memory |
| Runs.NextKeepsInv | kern/memory_manager.c:324-503 | every operation keeps the invariant and the set of directories |
| Runs.RunKeepsInv | kern/memory_manager.c:324-503 | over every run of operations on any number of directories, any sys_allocate_page calls among them, the invariant holds, and every legal call at its end is safe |
| Runs.NextRefinesFlat | kern/memory_manager.c:372-503 | a call that reports success sets one page of the flat map, removes one, or maps a fresh frame, as asked; a call that fails changes nothing |
| Runs.RunRefinesFlat | kern/memory_manager.c:324-503 | every run of the paging structures is a run of the flat map, call by call with the same success |
| KernelSpace.NextKeepsKernel | kern/memory_manager.c:324-503 | no operation writes the kernel half of a directory or a frame that the kernel holds |
| KernelSpace.RunKeepsKernel | kern/memory_manager.c:324-503 | over every run in which the kernel spares its own frames, whatever sys_allocate_page is asked for, all those words stay |
| KernelSpace.BootHeld | kern/memory_manager.c:253-298 | after boot the kernel holds every frame the boot allocator handed out, and none is a user table |
| KernelSpace.KernelOverRuns | kern/memory_manager.c:324-503 | from boot on, over every such run, every page whose directory entry and table entry are both the kernel's is translated, and protected from user programs and from the kernel, as initialize_kernel_VM built it |
| Isolation.AccessIsFlat | kern/memory_manager.c:372-451 | what a user program may do in a page below USER_TOP is exactly what the page's entry in the flat map grants, at the frame named there |
| Isolation.SysAllocateGrants | kern/syscall.c:91-131 | after success the program may read the page at va, write it if and only if it asked for PERM_WRITEABLE, and finds there the frame that was taken |
| Isolation.NextKeepsIsolation | kern/memory_manager.c:324-503 | no operation makes two pages share a frame, or maps a page table, a directory or a kernel frame, if the kernel maps only unreferenced frames |
| Isolation.BootIsIsolated | kern/memory_manager.c:253-298 | what FOS_initialize leaves is the start of such runs |
| Isolation.UsersAreIsolated | kern/memory_manager.c:324-503 | over every run with any system calls in any directories, two pages that user programs may use reach the same frame only if they are one page of one directory, and none reaches a page table, a directory or a kernel frame |
| Isolation.WindowsOverRuns | kern/user_environment.c:344-347 | over every run no user program may write a page table or directory through UVPT, or use VPT, in a directory set up by complete_environment_initialization |
| MemoryManager.Manager.constructor | kern/memory_manager.c:253-298 | initialize_paging puts exactly the frames [1,160) and those from the end of the boot structures on the free list, in this order, and gives every other frame count 1, whatever the array held before |
| MemoryManager.Manager.AllocateFrame | kern/memory_manager.c:324-334 | the arrays and links change exactly as the allocator's function says, and other links are kept |
| MemoryManager.Manager.InitializeFrameInfo | kern/memory_manager.c:305-308 | the frame's links and count are cleared and nothing else |
| MemoryManager.Manager.FreeFrame | kern/memory_manager.c:340-344 | the frame goes to the head of the free list |
| MemoryManager.Manager.DecrementReferences | kern/memory_manager.c:350-354 | the 16-bit count is decremented with wrap, and the frame is freed exactly when it reaches 0 |
| MemoryManager.Manager.GetPageTable | kern/memory_manager.c:372-407 | same table, memory, counts and list as the function proved about in ReferenceCounts and FlatMap |
| MemoryManager.Manager.GetFrameInfo | kern/memory_manager.c:463-476 | the frame mapped at the page, if any, and its table, without any change |
| MemoryManager.Manager.UnmapFrame | kern/memory_manager.c:492-503 | from every good state the whole new state is that of the function whose invariant and refinement are proved |
| MemoryManager.Manager.MapFrame | kern/memory_manager.c:426-451 | from every good state result and whole new state are those of the function whose invariant and refinement are proved |
| MemoryManager.Manager.MapInTable | kern/memory_manager.c:433-450 | the same for the part of map_frame that follows once the table is there |
| MemoryManager.Manager.CalculateFreeFrames | kern/memory_manager.c:569-582 | counts the frames on the free list |
| MemoryManager.Manager.SysAllocatePage | kern/syscall.c:91-131 | result and whole new state are those of the function behind the Runs.SysAllocate lemmas, on the failing paths too |
| KernelVM.BlocksDisjoint | kern/memory_manager.c:142-168 | any sequence of boot allocations returns page-aligned blocks between the pointer before and the pointer after, each ending before the next begins |
| Initialize.BlocksAvoidFreeFrames | kern/memory_manager.c:280-297 | no frame that any block of any such sequence touches is put on the free list by initialize_paging |
| KernelVM.Kernel.BootAllocateSpace | kern/memory_manager.c:142-168 | the block is the one the block function gives, at the first page not yet touched; the alignment argument is ignored, and the used part grows by the size in pages |
| KernelVM.Kernel.BootGetPageTable | kern/memory_manager.c:213-233 | a present table is returned; a missing one takes the next boot frame with its old contents, or, without create, nothing is returned and nothing changes |
| BootTables.WithPageExtends | kern/memory_manager.c:180-233 | mapping one boot page keeps every other page that was mapped and every directory entry but its own, and shares no table |
| KernelVM.Kernel.BootMapRange | kern/memory_manager.c:180-192 | all pages of the range map consecutive frames with the permissions, nothing but directory entries and words of these pages is written, and every other mapped page is kept, for sizes that are no multiple of a page and ranges that end at 2^32 too |
| KernelVM.MappedVa2pa | kern/helpers.c:131-142 | check_va2pa translates page q of a mapped range to the range's frame q |
| KernelVM.Kernel.SetupListing | kern/helpers.c:307-321 | the directory entries VPT and UVPT hold the directory, and all mapped ranges are kept |
| KernelVM.Kernel.InitializeKernelVM | kern/memory_manager.c:50-129 | for every memory size that holds the boot structures, the directory maps stack, physical memory, frames_info and envs as asked, every entry has its permissions and there is no other entry; directory, tables and the two arrays lie in frames of their own behind the kernel; check_boot_pgdir, which runs inside, meets no failing assertion; the number of boot frames is exact; frames not taken are not written |
| KernelVM.BootProtection | kern/memory_manager.c:50-129 | page by page: outside the UENVS region nothing is writeable for a user program, and readable exactly the directory and the table of UENVS through UVPT; the image of envs is readable and not writeable |
| KernelVM.BehindProtection | kern/memory_manager.c:113-119 | on every page behind the image of envs a user program may do exactly what the words left in the table's frame grant, and nothing where they are zero |
| KernelAccess.KernelWritesMemory | kern/memory_manager.c:76-78 | every page from KERNEL_BASE to 2^32 translates to its distance from KERNEL_BASE and can be written by the kernel, in both levels |
| KernelAccess.KernelWritesStack | kern/memory_manager.c:60-69 | the eight pages below KERNEL_STACK_TOP lead to the kernel stack and can be written |
| KernelAccess.KernelReadsFrames | kern/memory_manager.c:84-91 | the pages at READ_ONLY_FRAMES_INFO lead to frames_info and are present, and not even the kernel may write them there |
| KernelAccess.KernelReadsEnvs | kern/memory_manager.c:104-119 | the same of the pages at UENVS and envs |
| KernelAccess.KernelWritesTables | kern/helpers.c:307-321 | through VPT the kernel may write the directory and every table but the page of UVPT; through UVPT it may write nothing |
| KernelAccess.LentIsIdentity | kern/helpers.c:254-305 | while turn_on_paging borrows directory entry 0 the first 4 MB are mapped to themselves and can be written |
| KernelVM.BootMappedKept | kern/memory_manager.c:50-129 | all of this depends on the frames that the boot allocator handed out, and on no other memory |
| KernelVM.Kernel.TurnOnPaging | kern/helpers.c:254-305 | the borrowed directory entry 0 is given back |
| SelfMap.WindowIndices | inc/memlayout.h:140-156 | vpt[VPN(va)] and vpd[i] are the addresses with the directory index, the table index and the offset that the next two members are about |
| SelfMap.VptReachesEntry | inc/memlayout.h:140-149 | where a directory holds itself, vpt[N] is the very table word that translates page N, if N has a table |
| SelfMap.VpdReachesEntry | inc/memlayout.h:150-156 | where a directory holds itself, vpd[i] is directory entry i |
| SelfMap.MapItselfMaps | kern/user_environment.c:344-347 | with the two entries that complete_environment_initialization writes a directory holds itself at VPT and at UVPT, and no other word changes but in its kernel half |
| SelfMap.WindowAccess | kern/user_environment.c:344-347 | in such a directory, for every entry j, a user program may read page j of the UVPT window if and only if entry j has PERM_USER, may write nothing there, and may do nothing in the VPT window, where the kernel may write what entry j lets it write |
| SelfMap.MapItselfKeepsInv | kern/user_environment.c:344-347 | writing them keeps the invariant and every translation of a user page in any directory |
| SelfMap.BootIsSelfMapped | kern/helpers.c:307-321 | the directory that initialize_kernel_VM builds holds itself at VPT and at UVPT |
| SelfMap.BootWindows | inc/memlayout.h:140-156 | in that directory both windows lead to the word that translates page j of table i, for every page that has a table, and to every directory entry |
| SelfMap.EntryAddresses | kern/entry.S:80-81 | the model's window addresses are the symbols vpt and vpd of the kernel and of user programs |
| Scenes.MapScene | kern/helpers.c:151-252 | map_frame on the script's directory in every state the script can reach, with its result |
| Scenes.UnmapScene | kern/helpers.c:151-252 | unmap_frame on the script's directory in every state the script can reach |
| PageCheck.Steal | kern/helpers.c:159-175 | three distinct frames are allocated and the free list is put aside, still linked behind its stolen head |
| PageCheck.Restore | kern/helpers.c:234-251 | the table is torn out, the stolen head is put back and the three frames are freed: the list is well formed again |
| PageCheck.RestoredKeepsInv | kern/helpers.c:234-251 | the state left behind satisfies the invariant and has exactly the original frames on the free list |
| PageCheck.Run | kern/helpers.c:151-252 | from every good state with three free frames and empty entries 0 and 1 no assertion of page_check fails; counts, directories and the set of free frames are as before |
| Initialize.NumberOfFramesBounds | kern/helpers.c:52-65 | detect_memory finds 256 frames and one per four kilobytes of extended memory, or none at all below four kilobytes |
| Initialize.BootInv | kern/memory_manager.c:253-298 | what initialize_paging leaves satisfies the invariant of all later runs |
| Initialize.FosInitialize | kern/init.c:42-45 | detect_memory, initialize_kernel_VM with its self-check, initialize_paging and page_check run without a failing assertion whenever the boot structures fit; afterwards the invariant of Runs holds, the kernel's address space stands as it was built, and no free frame is one of its frames |
| Initialize.StillStands | kern/helpers.c:151-252 | no change of memory outside the boot frames, such as a recycled page table of page_check, affects the kernel's address space |
| Stabs.StabBinsearch | kern/kdebug.c:59-103 | the loop ends on every table, sorted or not, within bounds, and leaves the bounds that the lemmas speak of |
| Stabs.LoopBrackets | kern/kdebug.c:65-91 | on an ordered table everything of the type left of l is at or below the address and everything right of r above it, up to the end of the loop |
| Stabs.FoundIsLinearScan | kern/kdebug.c:59-103 | with room after the exact match the bounds are those a linear scan finds: the last symbol at or below the address and the entry before the next symbol, or left - 1 if there is no symbol of the type |
| Stabs.RoomAboveSuffices | kern/kdebug.c:85-90 | there is room at the exact match if no symbol of the region lies within four bytes above it |
| Stabs.RoomIsNeeded | kern/kdebug.c:85-90 | any two symbols at most four bytes apart make a table on which the search returns the wrong one |
| Stabs.BoundsTellContained | kern/kdebug.c:39-43 | the bounds tell whether a symbol contains the address if and only if one does or there is none of the type |
| StabLimits.FoundIsLinearScanIff | kern/kdebug.c:59-103 | on every ordered table the search agrees with a linear scan if and only if there is room when it meets the exact match, or the next symbol is the very next entry, exactly four bytes up, where addr wraps |
| StabLimits.MisledEnds | kern/kdebug.c:85-90 | once a symbol within four bytes is in range after the exact match, the search ends wrong |
| Environments.IdsCountGenerations | kern/user_environment.c:349-354 | the n-th environment of a slot has id 4096 times its generation plus the slot, the generation counting from 1 to 2^19 - 1 and over again |
| Environments.SameIdIff | kern/user_environment.c:349-354 | two occupants of a slot have the same id if and only if their distance is a multiple of 2^19 - 1 |
| Environments.InitInv | kern/user_environment.c:331-340 | the table that env_init builds satisfies the invariant, whatever the parent ids held |
| Environments.CompleteKeepsInv | kern/user_environment.c:342-383 | creating an environment, in any free slot, keeps the invariant and counts one more occupant of its slot |
| Environments.FreeKeepsInv | kern/user_environment.c:100-106 | freeing a live environment keeps the invariant |
| Environments.LiveIds | kern/user_environment.c:349-354 | live ids are positive, lead back to their slots and are distinct |
| Environments.StaleIdsRejected | kern/helpers.c:331-364 | the id of the n-th occupant of a slot is accepted exactly if the slot is live and its occupant is a whole number of periods later |
| Environments.PermissionIsSelf | kern/helpers.c:353-360 | with checkperm exactly the id of the current environment is accepted |
| Environments.Envid2envIff | kern/helpers.c:331-364 | without checkperm id 0 finds the current environment, any other id the live environment that has it, and an error is returned if and only if there is none |
| Environments.AllocateEnvironmentIff | kern/user_environment.c:92-97 | no slot is found if and only if none is free, and a slot that is found is free |
| Environments.NewEnvironment | kern/user_environment.c:342-383 | a new environment is found by its id, has run 0 times, has user privilege in its four selectors, its stack at 0xEEBFE000 and zeros in all other registers, and no other slot changes |
| Environments.RunIsCounted | kern/user_environment.c:287-296 | env_run makes the environment the one that id 0 finds; a switch adds one to its counter modulo 2^32, and no other slot changes |
| Environments.FreedEnvironment | kern/user_environment.c:100-106 | a freed environment is not found any more, its slot is the next one allocated, no environment is current, and every other live one is found as before |
| Environments.RunKeepsInv | kern/user_environment.c:92-106 | over every run of creations, deletions and switches, an environment is on the free list exactly once if and only if it is free, ids are those of their generation, and the current environment is live |
| Environments.IdsOverRuns | kern/helpers.c:331-364 | an id handed out once is, after any run, rejected or names the very occupant it was given to, unless the generation wrapped |
| EnvironmentTable.EnvTable.constructor | kern/user_environment.c:331-340 | from any contents of envs, env_init puts every slot on the free list, slot 0 first |
| EnvironmentTable.EnvTable.AllocateEnvironment | kern/user_environment.c:92-97 | the first free slot, or none, without a change |
| EnvironmentTable.EnvTable.CompleteEnvironmentInitialization | kern/user_environment.c:342-383 | the environment's directory holds itself at VPT and at UVPT; id, status, parent, run counter, saved registers and free list change as the function proved about says: no register of an earlier occupant is left |
| EnvironmentTable.EnvTable.EnvRun | kern/user_environment.c:287-296 | another environment becomes current and is counted one more run, modulo 2^32; running the current one changes nothing |
| EnvironmentTable.EnvTable.FreeEnvironment | kern/user_environment.c:100-106 | the slot becomes free at the head of the list and no environment is current |
| EnvironmentTable.EnvTable.Envid2env | kern/helpers.c:331-364 | the environment or the error that the lookup function gives |
| Numbers.NumIsPaddedDigits | lib/printfmt.c:36-51 | printnum right-justifies the digits in the field, for any base, width and padding |
| Numbers.DigitsDenote | lib/printfmt.c:36-51 | the digits emitted denote the number in their base |
| Numbers.UnsignedRoundTrip | lib/string.c:180-225 | the output of printnum, padded with blanks or zeros, has max(width, digits) characters, and strtol reads all of it back as the number modulo 2^32 |
| Numbers.SignedRoundTrip | lib/printfmt.c:190-201 | strtol reads a %d conversion back if and only if no blank comes between sign and digits |
| Numbers.PointerRoundTrip | lib/printfmt.c:217-225 | strtol in base 16 reads a %p conversion back if and only if no blank comes between prefix and digits, or the pointer is 0 |
| Numbers.ParseLong | lib/string.c:180-225 | the loops of strtol leave the value and the end position of the function the round trips are about, and read nothing behind the NUL |
| Parsing.DigitValues | lib/string.c:204-215 | digits, small letters, and capitals that mean the same as small letters |
| Parsing.StrtolMeans | lib/string.c:180-225 | for a string split into blanks and tabs, a sign, the prefix that the base allows or asks for, and digits: the value denoted, negated behind a minus, modulo 2^32, and the position behind the digits |
| Parsing.StrtolSplits | lib/string.c:180-225 | every string splits so |
| Formats.QuotePrintsText | lib/printfmt.c:92-110 | a text with every percent sign doubled is printed as it is and takes no argument |
| Formats.UnknownEscapeIsLiteral | lib/printfmt.c:113-163 | an escape with an unknown conversion, or cut off by the NUL, is printed literally behind any flags, numbers and stars, the scan going on behind its own percent sign; the arguments of its stars are gone |
| Formats.WidthIsRead | lib/printfmt.c:113-155 | a decimal field width, with or without the flag 0, reaches the conversion with the value it denotes |
| Formats.FormatParseRoundTrip | lib/printfmt.c:84-245 | formatting with a width and parsing gives the number back if and only if no blanks end up behind the sign |
| Directives.DirectiveEmits | lib/printfmt.c:98-243 | anywhere in a format, an escape with any of the flags -, 0, # and l, a width and a precision, in decimal or taken from the arguments, emits what its conversion makes of exactly that padding, width, precision, length and masking, and the rest of the format follows |
| Directives.UnsignedFormatRoundTrip | lib/printfmt.c:203-232 | %u and %x in any field padded with blanks or zeros are read back by strtol in base 10 and 16, whole and sign included |
| Directives.LongLongFormat | lib/printfmt.c:203-232 | the ll forms print the numeral of the 64 bits, in the field |
| Directives.SignedFormatRoundTrip | lib/printfmt.c:190-201 | %d in any such field is read back if and only if no blank comes between sign and digits |
| Directives.PointerFormatRoundTrip | lib/printfmt.c:217-225 | %p in any such field is read back if and only if no blank comes between prefix and digits, or the pointer is 0 |
| Conversions.CharText | lib/printfmt.c:157-160 | %c emits the low byte |
| Conversions.ErrorMessage | lib/printfmt.c:162-175 | %e emits the message of the code, whatever its sign, and "error" with the number for a code without one |
| Conversions.StringText | lib/printfmt.c:177-189 | %s, index by index: the length, the padding on the left or the blanks on the right, the characters up to the precision, masked with # |
| Conversions.UnsignedText | lib/printfmt.c:203-207 | %u emits the decimal numeral of the bits, 32 or with ll 64, right-justified in the field |
| Conversions.HexText | lib/printfmt.c:226-232 | %x emits the hexadecimal numeral in small letters likewise |
| Conversions.SignedText | lib/printfmt.c:190-201 | %d emits the decimal numeral, behind a sign that is not part of the field |
| Conversions.PointerText | lib/printfmt.c:217-225 | %p emits 0x, which is not part of the field, and the hexadecimal numeral |
| FormatArguments.EmitFits | lib/printfmt.c:84-245 | arguments fit a format if and only if its numbers fit an int and the arguments begin with the kinds that its stars and conversions ask va_arg for, which the format alone decides |
| FormatArguments.SomeArgumentsFitIff | lib/printfmt.c:113-155 | a format has arguments that fit it if and only if every width and precision in it fits an int |
| Printf.Printer.Putch | lib/printfmt.c:263-269 | every character is counted, and stored only while there is room for it and the NUL |
| Printf.Printer.PrintNum | lib/printfmt.c:36-51 | the recursion with its padding loop emits what Numbers.Num says |
| Printf.Printer.PrintString | lib/printfmt.c:177-189 | a string is cut to the precision, padded on either side, and masked with the flag # |
| Printf.Strnlen | lib/string.c:15-23 | the length of a string cut to a size |
| Printf.PrintEscape | lib/printfmt.c:98-243 | one escape emits, consumes and rewinds as the scanner's function says |
| Printf.Vprintfmt | lib/printfmt.c:84-245 | for arguments that fit the format the loop ends, never reads behind the NUL, and emits what the format means |
| Printf.Vsnprintf | lib/printfmt.c:271-286 | exactly the first min(total, n - 1) characters and a NUL are stored, the rest of the buffer is untouched, and the total is returned |
| Loader.LoadedByLastWriter | boot/main.c:50-54 | after any sequence of readseg calls each byte of memory is what its last writer put there, or as before |
| Loader.ReadTableIff | boot/main.c:53-54 | the loop makes the calls that the image names if and only if each header is intact in memory when its turn comes |
| Loader.BootsEveryImageIff | boot/main.c:39-57 | for every image with the same headers the loader reads the segments the image names, leaves each byte in its place and jumps to the image's entry point, if and only if headers, entry point and segments fit and each of their bytes is last written from its own place or from an equal header byte |
| Loader.RejectsIff | boot/main.c:43-48 | an image is rejected if and only if the four bytes of the ELF magic are not in front of it, and then nothing but the first page was read |
| Loader.WrappedTableIsSkipped | boot/main.c:51-54 | when the end of the header table wraps, the pointer comparison fails at once and the loader jumps after reading one page |
| Loader.UsualLayoutIsSound | boot/main.c:39-91 | that condition holds for headers in the first page and segments congruent modulo the sector size, when all that write an address, the first page included, lie at the same distance from the image |
| Loader.ImageTable | boot/main.c:51-52 | any list of program headers is the table of some image |
| Loader.HeadersMayBeOverwritten | boot/main.c:53-54 | an image in the usual layout but for the header page, whose second header is lost before the loop takes it: the calls made, and the wrong byte |
| Loader.IncreasingOrderIsNotEnough | boot/main.c:80-83 | an image with two segments in increasing order, congruent modulo the sector size, that share a sector: the calls are right, and the first byte of the first segment is wrong |
| Loader.ReadSect | boot/main.c:101-119 | one sector is copied and nothing else changes |
| Loader.ReadSeg | boot/main.c:69-91 | the loop over sectors copies whole sectors from the segment's place |
| Loader.ReadHeaders | boot/main.c:51-54 | the loop over headers, with its pointer comparison that wraps, makes the calls and leaves the memory of the function the lemmas are about |
| Loader.Cmain | boot/main.c:39-57 | outcome and memory are those of the function the lemmas are about, and an image with sound headers is loaded and entered |

## Left out

- Functions that only panic (`get_page`, `calculate_required_frames`, `freeMem`, `env_free`, `malloc`, `sys_map_frame` and the like), and `env_create` behind its unconditional panic.
- Hardware effects: CR0, CR3 and TLB, segment reloads, port I/O, trap entry. `tlb_invalidate` does nothing, `readsect` copies from an array, and of `turn_on_paging` only the writes to the directory remain.
- Console output, the command prompt, trap printing and user programs.
- The layout of `struct Frame_Info` in memory: counts and links are arrays beside physical memory, so a stray write into the frames_info array is not modelled; its size of 12 bytes is used for the boot mapping.
- `curenv->env_pgdir` in `sys_allocate_page` is a parameter.
- Addresses from USER_TOP up in `map_frame`, `unmap_frame` and `get_page_table`: boot mappings are not counted, so the invariant covers user addresses only.
- Permission words above 0xFFF in `map_frame`: they would change the frame address; no caller passes them.
- The registers that a trap saves and `env_pop_tf` restores, and the allocation of an environment's directory in `initialize_environment`; statuses other than free and runnable, which nothing sets.
- Environments.RunKeepsInv: a creation is allocate and complete in one step, as in `env_create`; the step between them is not interleaved with others.
- Printf.Vprintfmt: arguments are a typed list, and only calls whose arguments fit the format are covered (`FormatArguments.EmitFits` says which those are); a missing or mistyped argument is undefined in C. The callback is the one that fills a buffer. Widths and the count of characters do not overflow.
- Numbers.ParseLong: the signed overflow in `strtol` is taken as a two's-complement wrap.
- Stabs.StabBinsearch: l + r does not overflow an int, which holds for any table that fits in memory.
- The rest of `debuginfo_eip`, whose line and argument lookups are unwritten.
- Loader.BootsEveryImageIff: memory is plain RAM. The loader's own code at 0x7C00, its stack below it and the I/O hole from 0xA0000 to 1 MB are not in the model, so an image with a segment there is loaded and entered by the model, where the machine would overwrite its loader or lose the bytes.
- Loader.Cmain: a header, or a segment of which `readseg` has a sector to read, that reaches beyond memory or disk ends the model's run; this includes end addresses that wrap at 2^32, because memory is smaller. The jump itself, and what the loader does with a disk that is no ELF image, end it too.
- KernelVM.Kernel.BootMapRange: the loop counter is taken to wrap at 32 bits; sizes above 0xFFFFF000, for which the loop never ends, ranges that wrap at 2^32, and pages that the directory itself translates, where the loop would overwrite the directory, are not covered. The boot code does none of this.
- KernelVM.Kernel.InitializeKernelVM: the end of the kernel lies above 1 MB and the stack below that end, as the linker script places them.
- KernelSpace.RunKeepsKernel: the kernel's own stores into its frames, and its giving up of such a frame, are not steps of the run; user programs cannot do either.
- GDT and IDT packing, build files and linker scripts, apart from the constants used.
