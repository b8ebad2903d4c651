# evalynOS kernel: verified models of its data structures and allocators

A Dafny 4.11 model of the parts of the evalynOS kernel where a fast or stateful
structure has to agree with a simple mathematical object. Five groups of modules:

* **DEFLATE decoder** (`bits`, `bitreader`, `canonical`, `huffmanshape`, `huffmansize`,
  `arena`, `huffman`, `outbuffer`, `rfc1951`, `inflate`, `encoding`, `dynamic`). `Rfc1951`
  says what a stream means as functions of its bits (RFC 1951, sections 3.1.1 and 3.2.2 to 3.2.7);
  `Inflate` is the decoder with its prefetching bit reader, node trees taken from an arena,
  10-bit lookup caches and three copy strategies. The main theorems are
  `Inflate.Decompress` and `Inflate.Unpack`; `Encoding` and `Dynamic` close the circle with
  round trips for all three kinds of blocks.
* **Red-black tree and range allocator** (`rbshape`, `rbheap`, `rbinsert`, `rbremove`,
  `rbwalk`, `ranges`, `spaces`, `vma`, `vmarun`). Trees with parent pointers over a store of
  nodes, related to algebraic trees with a zipper for the path being rebalanced; above them
  the virtual address allocator, whose free and used ranges tile an interval. `Spaces` is
  the allocator on plain sets of ranges; `VmaRun` proves that the trees follow it.
* **Frames, page tables, ELF loading** (`physmem`, `pmm`, `pte`, `pagetable`, `vmm`,
  `teardown`, `addressing`, `elf`). Physical memory is bytes; the free list, the page
  tables and the loaded program all live in it. `Addressing.Hardware` is the processor's
  walk over the words in memory, by bit positions: it gives a page's frame and its user,
  write and no-execute rights along the whole walk.
* **Kernel heap**: slabs on top of the page allocator (`slab`, `slabheap`) and the large
  blocks of `malloc`, which join address ranges, page tables and frames (`largeblock`).
* **Printers and parsers** (`numbers`, `dbgstub`, `registers`).

`machine`, `words`, `options` and `gates` are shared. `Words` defines shifts, masks and ORs on the
binary digits, so that each is exact. `Gates` keeps large invariants closed until a proof
opens them with `assert Open(...)`; the value of `Open` is always true, so a gated
predicate means its body.

Every allocator operation runs under its lock in the kernel and is one atomic step here.
Each keeps the class invariant, so the invariants hold over every run. Two drivers state
what whole runs amount to, for every sequence of requests: `VmaRun.Run` serves it with the
address allocator's own operations, `Addressing.Run` with `map_page` and `unmap_page`.

Where the code departs from what its surroundings promise, the model follows the code and
says when the promise holds:

* a fixed-address `valloc` is cut out of a free range without a fit test: the bookkeeping
  survives exactly when the request is non-empty and fits (`Vma.Pagemap.VallocFixed`), and
  `VmaRun.OverrunCorrupts` is an input that breaks it;
* a fixed request that starts inside a used range ignores the offset into it. It may report
  success while pages it asked for stay free (`VmaRun.OffsetIgnored`), or take other
  addresses than asked for (`VmaRun.Misplaced`). All of its pages are used afterwards if and
  only if no free range meets the stretch that the code overlooks, and the result is the
  address asked for if and only if the start was free or the used range alone is long enough
  (`Vma.Pagemap.VallocFixed`, `Vma.FixedExact`, `Vma.StartCovers`);
* `malloc` accepts small requests up to 1024 bytes but panics from 1009 on
  (`SlabHeap.KernelHeap.Malloc`);
* `malloc` of a large block does not test whether `valloc` found a range, and then maps its
  pages at address 0: it does so exactly when no free range is long enough
  (`LargeBlock.MallocLarge`), and `LargeBlock.MappedAtZero` is an input for it;
* a `-` outside a packet makes the debugger stub send its send buffer into that same buffer:
  the loop never sees a NUL and fills the buffer to its end (`DbgStub.Stub.SendAgain`);
* `get_page_info` tests a region's end inclusively, so freeing the address just behind a
  region panics instead of being ignored (`Pmm.Allocator.FreePage`);
* `setup_vmm` fills the shared entries 256 to 510; entry 511 is present only because the
  kernel's own pages lie behind it (`Vmm.Mmu.SetupKernel`).

## Model

| member | source | states |
|---|---|---|
| BitReader.BitStream.Fill | kernel/deps/kgz_singleheader.h:111-124 | refilling keeps position and contents: the 64-bit buffer holds exactly the next bits of the stream and ends on a byte boundary |
| BitReader.BitStream.Peek | kernel/deps/kgz_singleheader.h:161-166 | a peek shows the next bits of the plain bit sequence, zero-padded past the end, and does not move |
| BitReader.BitStream.Consume | kernel/deps/kgz_singleheader.h:167-174 | dropping buffered bits moves the position by exactly that many and keeps the buffer exact |
| BitReader.BitStream.GetBits | kernel/deps/kgz_singleheader.h:125-136 | reads the bits at the position, first bit lowest, and inside the data moves exactly past them |
| BitReader.BitStream.Align | kernel/deps/kgz_singleheader.h:137-144 | moves to the next byte boundary and empties the buffer |
| BitReader.BitStream.ReadU16 | kernel/deps/kgz_singleheader.h:148-160 | fast path and slow path both read the next 16 bits |
| CanonicalCode.CodeFits | kernel/deps/kgz_singleheader.h:479-531 | every canonical code of a vector that is not over-subscribed fits its length (RFC 1951, section 3.2.2) |
| CanonicalCode.PrefixFree | kernel/deps/kgz_singleheader.h:479-531 | no code is a prefix of another |
| CanonicalCode.MatchUnique | kernel/deps/kgz_singleheader.h:532-567 | a window of bits starts with at most one symbol's code |
| CanonicalCode.EncodeThenMatch | kernel/deps/kgz_singleheader.h:479-531 | sending a symbol's code most significant bit first gives a window that decodes to that symbol |
| CanonicalCode.Example | kernel/deps/kgz_singleheader.h:479-531 | the codes of the example in section 3.2.2 of RFC 1951 |
| Huffman.BitReverse | kernel/deps/kgz_singleheader.h:470-478 | the loop computes the mathematical bit reversal of the low bits, whatever lies above them |
| Arenas.Arena.Allocate | kernel/deps/kgz_singleheader.h:618-629 | hands out aligned bytes behind all earlier ones and refuses exactly when they do not fit |
| Huffman.HuffmanTree.InsertCode | kernel/deps/kgz_singleheader.h:430-469 | inserting the next canonical code keeps the tree invariant: nodes are exactly the prefixes of the codes so far and leaves their symbols; it never walks through a leaf, and fails only when the arena cannot give the doubled node array |
| Huffman.HuffmanTree.FillSlots | kernel/deps/kgz_singleheader.h:515-527 | the stride loop fills exactly the cache slots whose low bits are the reversed code |
| Huffman.SlotFree | kernel/deps/kgz_singleheader.h:515-527 | no two codes ever fill the same slot |
| Huffman.CacheAgrees | kernel/deps/kgz_singleheader.h:532-567 | the cached lookup and the walk from the root give the same symbol and length for every 15-bit window |
| Huffman.WalkDecodes | kernel/deps/kgz_singleheader.h:532-556 | the walk ends at the leaf of a symbol exactly when the window starts with that symbol's code |
| HuffmanSize.CompleteNodes | kernel/deps/kgz_singleheader.h:426-469 | a complete code needs exactly 2 * leaves - 1 nodes |
| HuffmanSize.NodesBounded | kernel/deps/kgz_singleheader.h:426-469 | any code, complete or not, needs at most 2 * leaves + 14 nodes, so the node array is doubled at most once |
| Huffman.Create | kernel/deps/kgz_singleheader.h:479-531 | builds a tree and cache that decode the canonical code of any vector that is not over-subscribed; it fails only on a length above 15 or in an arena with less room than the stated bound, and takes no more than that; for a complete code the node array never grows |
| Huffman.LookupSlow | kernel/deps/kgz_singleheader.h:532-556 | returns what the walk finds and consumes its length |
| Huffman.Lookup | kernel/deps/kgz_singleheader.h:557-567 | if a code stands at the position, returns its symbol and moves past it |
| OutBuffer.CopyBackUnique | kernel/deps/kgz_singleheader.h:585-602 | only one sequence extends the output and repeats itself at the distance: the byte-by-byte overlapping copy |
| OutBuffer.Buffer.InsertBulk | kernel/deps/kgz_singleheader.h:576-584 | appends all bytes or, when they do not fit, none |
| OutBuffer.Buffer.Lz77Copy | kernel/deps/kgz_singleheader.h:585-602 | all three copy strategies mean the byte-by-byte overlapping copy; fails exactly when the distance is too far or the room too small; distance 0 writes nothing and only takes in the bytes behind the end |
| Rfc1951.RangesMeet | kernel/deps/kgz_singleheader.h:275-286 | length and distance ranges of consecutive symbols meet without gap or overlap, as section 3.2.5 of RFC 1951 lists them |
| Rfc1951.RangesStart | kernel/deps/kgz_singleheader.h:275-286 | lengths run from 3 to 258 and distances from 1 to 32768 |
| Rfc1951.ExtrasGrow | kernel/deps/kgz_singleheader.h:275-286 | how many extra bits each length and distance symbol has, in closed form |
| Rfc1951.RepeatCounts | kernel/deps/kgz_singleheader.h:323-332 | the three repeat symbols stand for 3 to 6, 3 to 10 and 11 to 138 lengths |
| Rfc1951.FieldsRead | kernel/deps/kgz_singleheader.h:287-310 | each field of the code length code gives the length of its own symbol, and all other lengths are 0 |
| Inflate.LengthTable | kernel/deps/kgz_singleheader.h:275-280 | the code's length tables hold the RFC's bases and extra bits |
| Inflate.DistTable | kernel/deps/kgz_singleheader.h:281-286 | the code's distance tables hold the RFC's bases and extra bits |
| Inflate.FixedComplete | kernel/deps/kgz_singleheader.h:244-257 | the fixed literal code is complete |
| Inflate.FixedCodes | kernel/deps/kgz_singleheader.h:244-257 | the fixed literal codes are those section 3.2.6 of RFC 1951 lists |
| Inflate.HandleStored | kernel/deps/kgz_singleheader.h:288-302 | a stored block: succeeds exactly when its bytes fit, and then appends exactly them |
| Inflate.ReadCodeLengthCode | kernel/deps/kgz_singleheader.h:287-310 | fields 0 to 2 are the lengths of symbols 16 to 18, field 3 that of 0, field 4 + 2k that of 8 + k and field 5 + 2k that of 7 - k |
| Inflate.CreateDynamicTables | kernel/deps/kgz_singleheader.h:303-342 | reads counts, code length code and run-length coded vectors and builds trees for exactly the two vectors the RFC assigns; the three trees always fit in the decoder's arena |
| Inflate.HandleSymbol | kernel/deps/kgz_singleheader.h:350-380 | one literal, back reference or end of block has exactly the RFC's effect |
| Inflate.HandleSymbols | kernel/deps/kgz_singleheader.h:343-382 | the symbol loop ends and produces what the RFC assigns to the block |
| Inflate.HandleHuffman | kernel/deps/kgz_singleheader.h:343-382 | the same for fixed and dynamic blocks with their headers |
| Inflate.HandleBlock | kernel/deps/kgz_singleheader.h:383-399 | one block with its three header bits, of each of the three kinds |
| Inflate.Decompress | kernel/deps/kgz_singleheader.h:383-399 | on every well-formed stream the decoder stops; if it succeeds it has written exactly the bytes RFC 1951 assigns and stands behind the last block; with the arena it is given it succeeds exactly when the output fits |
| Inflate.Unpack | kernel/deps/kgz_singleheader.h:238-273 | with the arenas, fixed tree, reader and buffer as they are set up, a well-formed stream gives exactly the bytes RFC 1951 assigns, or nothing exactly when they exceed the buffer |
| Encoding.SymbolRead | kernel/deps/kgz_singleheader.h:557-567 | a symbol spelled in any code that is not over-subscribed is the symbol that is decoded |
| Encoding.BlockRead | kernel/deps/kgz_singleheader.h:343-382 | every sequence of literals and back references, spelled in any such codes, decodes to what it means |
| Encoding.FixedRoundTrip | kernel/deps/kgz_singleheader.h:383-399 | the same for a whole stream packed into bytes with the fixed codes |
| Encoding.LiteralRoundTrip | kernel/deps/kgz_singleheader.h:383-399 | every byte string has a stream that decodes to it |
| Encoding.StoredRead | kernel/deps/kgz_singleheader.h:288-302 | a stored block, byte by byte: length and complement low byte first from the next byte boundary, then exactly its bytes |
| Dynamic.VectorRead | kernel/deps/kgz_singleheader.h:314-334 | code lengths spelled as plain lengths, repeats and runs of zeros in any code length code are read back |
| Dynamic.HeaderBack | kernel/deps/kgz_singleheader.h:303-342 | every dynamic header decodes to exactly the two length vectors it was spelled from, and the position behind it |
| Dynamic.DynamicRoundTrip | kernel/deps/kgz_singleheader.h:343-399 | tokens spelled in any two codes, behind any header that spells those codes, and packed into bytes decode to exactly what they mean |
| Dynamic.AnyCodesRoundTrip | kernel/deps/kgz_singleheader.h:343-399 | every two codes have such a header, so every sequence of tokens in them has a stream that decodes to it |
| Ranges.CmpIsContains | kernel/src/memory/vma.h:25-35 | against a non-empty range that does not wrap, the asymmetric comparator gives 0 exactly for the addresses inside it |
| RbHeap.RbTree.Rotate | kernel/deps/obsd-tree.h:340-378 | either rotation keeps links, in-order sequence and colours, and writes only link fields of the tree's nodes |
| RbInsert.InsertColor | kernel/deps/obsd-tree.h:405-447 | rebalancing after attaching a red node restores all colour conditions, keeps the order and terminates |
| RbInsert.Insert | kernel/deps/obsd-tree.h:593-622 | adds exactly the new node at its sorted place in a valid red-black tree, or returns the equal node and changes nothing |
| RbInsert.Find | kernel/deps/obsd-tree.h:624-640 | what is found compares equal; null means that, among ranges that do not overlap, none does |
| RbRemove.RemoveStep | kernel/deps/obsd-tree.h:449-523 | one turn of the removal loop never meets a null sibling, keeps order and links, and ends the loop, stops at a red node or moves up |
| RbRemove.RemoveColor | kernel/deps/obsd-tree.h:449-523 | the loop terminates in a balanced tree with the same in-order sequence |
| RbRemove.Remove | kernel/deps/obsd-tree.h:525-590 | deletes exactly that node from the in-order sequence of any red-black tree and keeps search order, colours, black height and parent links |
| RbWalk.Min | kernel/deps/obsd-tree.h:704-718 | the leftmost node is the first in order |
| RbWalk.Next | kernel/deps/obsd-tree.h:662-681 | the successor in order, or null after the last |
| RbShape.LogarithmicHeight | kernel/deps/obsd-tree.h:51-59 | two to the height is at most the square of n + 1, so the height is at most 2 lg(n + 1) |
| Ranges.CutOut | kernel/src/memory/vma.c:46-66 | cutting a request out of one range keeps the tiling and moves exactly the requested addresses |
| Ranges.CutTooFar | kernel/src/memory/vma.c:102-122 | a cut that is empty or runs past its range destroys the tiling |
| Vma.Carve | kernel/src/memory/vma.c:102-142 | the three-way split shared by allocation and release: trees stay valid; the tiling survives exactly when the request is non-empty and fits, and then exactly those addresses change hands |
| Vma.Lookup | kernel/src/memory/vma.c:77-100 | in a tiling the tree search with a zero-size key agrees with a scan of all ranges: at most one contains the address, and it is returned |
| Vma.Pagemap.constructor | kernel/src/memory/vma.c:11-17 | one free range covers everything |
| Vma.InitialRanges | kernel/src/memory/vmm.c:228-231 | the first ranges of the kernel and of a new address space are page aligned, non-empty and do not wrap |
| Vma.Pagemap.Scan | kernel/src/memory/vma.c:33-44 | the in-order walk finds the lowest free range that fits, or that none does |
| Vma.Pagemap.Valloc | kernel/src/memory/vma.c:19-67 | takes the start of the lowest range that fits; fails exactly when the size is 0 or none fits, and then changes nothing; keeps the tiling for every size that does not wrap on alignment |
| Vma.Pagemap.VallocFixed | kernel/src/memory/vma.c:69-143 | every branch: refused, already there, or cut out at the shifted address; the tiling survives exactly when the cut is non-empty and fits; then all pages asked for are used if and only if no free range meets the stretch overlooked; and exactly when the result is the address asked for |
| Vma.FixedExact | kernel/src/memory/vma.c:86-93 | after an accepted request that fits, every page asked for is used if and only if the start was not used, or no free range meets the addresses from the end of its used range to where the code takes that range to reach |
| Vma.StartCovers | kernel/src/memory/vma.c:86-93 | a request at the start of a used range always gets its pages |
| Vma.Pagemap.Vfree | kernel/src/memory/vma.c:157-219 | return codes 0 to 3 and their cases; releases exactly the requested addresses; the tiling survives exactly when the request is non-empty and fits |
| Vma.AllocThenFree | kernel/src/memory/vma.c:19-219 | freeing what was just allocated returns code 1 and gives every address back to its former owner |
| Ranges.RangesCut | kernel/src/memory/vma.c:102-142 | after a cut the set of ranges is the old one without the range cut, plus its remaining pieces, and the other set has gained the piece cut out |
| VmaRun.Serve | kernel/src/memory/vma.c:19-219 | every request, in contract or not, gets the answer and, if its cut fits, makes the change that the sets of ranges prescribe; the tiling survives exactly when the cut fits |
| VmaRun.Run | kernel/src/memory/vma.c:19-219 | any sequence of requests that keep to the callers' part: the ranges and all answers are those of the allocator on sets, free and used ranges tile the interval, and an address is used exactly when the last request that moved it was an allocation |
| VmaRun.OverrunCorrupts | kernel/src/memory/vma.c:102-122 | a fixed request of four pages in a free range of two succeeds and destroys the tiling |
| VmaRun.OffsetIgnored | kernel/src/memory/vma.c:86-89 | a fixed request from the second page of a used range reports success although its last page is still free |
| VmaRun.Misplaced | kernel/src/memory/vma.c:90-93 | a longer one is answered with another address and leaves one of its pages free, with the tiling intact |
| VmaRun.Started | kernel/src/memory/vma.c:11-67 | a fresh address space of which two pages are taken is in the state those two start from |
| PhysMem.SetGet | kernel/src/memory/vmm.c:40-75 | storing a word changes that word of a frame and no other |
| PhysMem.ByteOf | kernel/src/memory/vmm.c:40-75 | words are stored lowest byte first |
| Pmm.Allocator.constructor | kernel/src/memory/pmm.c:135-135 | after setup no frame is used and the list is filled once |
| Pmm.Allocator.GetPageInfo | kernel/src/memory/pmm.c:29-41 | the record of the frame an address lies in; none outside all regions; a panic exactly at a region's end |
| Pmm.Allocator.Fill | kernel/src/memory/pmm.c:54-78 | adds the asked number of untouched frames or all that are left, and touches no used frame |
| Pmm.Allocator.AllocatePage | kernel/src/memory/pmm.c:141-162 | hands out a zeroed frame that nobody holds; fails exactly when every frame is used; the contents of used frames stay |
| Pmm.Allocator.FreePage | kernel/src/memory/pmm.c:164-183 | frees exactly the used frames, ignores addresses of no region, panics otherwise, and changes no other frame |
| Pmm.FreeListCounts | kernel/src/memory/pmm.c:29-183 | the list holds every free frame once, and listed, untouched and used frames add up to the total |
| Pte.PageEntryOk | kernel/src/memory/vmm.c:73-74 | an entry is present and gives back the masked address, whatever the flags outside the address bits |
| Pte.PageEntryBits | kernel/src/memory/vmm.c:73-74 | every bit of a page's entry: bit 0, the flags, and bits 12 to 51 of the address |
| Pte.LockedEntryOk | kernel/src/memory/vmm.c:161-164 | an entry of the shared half is present, not large, gives back the frame, keeps users out, and has every bit accounted for |
| Pte.TableEntryOk | kernel/src/memory/vmm.c:40-44 | a table's entry is present, not large, gives back the frame, lets every access through, and has every bit accounted for |
| PageTable.AddTable | kernel/src/memory/vmm.c:40-71 | hanging a zeroed frame below an absent entry keeps all tables unshared and changes no page's entry and no door to the shared half |
| PageTable.SetLeaf | kernel/src/memory/vmm.c:73-74 | writing a lowest-level entry changes one page's entry and no other, in any address space |
| Vmm.PathOnce | kernel/src/memory/vmm.c:35-38 | the four indices tell virtual pages apart exactly up to their 36 translated bits |
| Vmm.Mmu.MapPage | kernel/src/memory/vmm.c:33-76 | afterwards every bit of the page's entry is what the frame, the flags and the present bit make it, and every other page of every address space has the entry it had; fails only when memory is out, and then changes none |
| Vmm.Mmu.GetPhys | kernel/src/memory/vmm.c:77-106 | the walk returns the page's translation, 0 if it has none |
| Vmm.Mmu.UnmapPage | kernel/src/memory/vmm.c:107-135 | afterwards the page has no translation and every other page the same |
| Vmm.Mmu.SetupKernel | kernel/src/memory/vmm.c:157-188 | after setup all entries of the shared half are present exactly when a kernel page lies behind entry 511, and entries 256 to 510 keep users out |
| Vmm.Mmu.NewPagemap | kernel/src/memory/vmm.c:216-235 | a new address space maps nothing in its lower half and has the kernel's upper half with its rights; no other changes |
| Addressing.HardwareAgrees | kernel/src/memory/vmm.c:33-106 | a walk that knows only the words in memory, the bit positions of an entry and the four index fields of an address finds the frame and the rights that the map of tables says |
| Addressing.UpperHalfShared | kernel/src/memory/vmm.c:216-234 | all address spaces translate every upper-half address identically, with the same rights |
| Addressing.ClosedDoor | kernel/src/memory/vmm.c:161-164 | behind an entry that keeps users out no page is open to them, whatever its own flags |
| Addressing.Run | kernel/src/memory/vmm.c:33-135 | any sequence of map and unmap calls, up to the first that finds memory out: the frame and the user, write and no-execute rights that the processor's walk finds at any page of any address space are what the last call concerning that page left there |
| Teardown.FreeEntry | kernel/src/memory/vmm.c:240-246 | frees what lies behind one entry without ever hitting a panic |
| Teardown.FreeLevels | kernel/src/memory/vmm.c:237-247 | the recursive sweep frees exactly the managed frames behind the entries, each once |
| Teardown.DeletePagemap | kernel/src/memory/vmm.c:249-256 | frees exactly the tables and the managed frames mapped in the lower half, lowers the count by their number, and changes no other address space |
| Elf.FlagsFit | kernel/src/elf/elf_loader.c:43-45 | the loader's flags stay out of the address bits and mean: user page, writable as the segment is, no-execute unless it is executable |
| Elf.PageContent | kernel/src/elf/elf_loader.c:65-73 | padding, copied bytes and padding of each page are the segment's bytes at that page |
| Elf.LoadPage | kernel/src/elf/elf_loader.c:61-70 | a page is mapped to a fresh frame with the given bytes and the rights of the flags; all other pages keep theirs |
| Elf.LoadSegment | kernel/src/elf/elf_loader.c:32-76 | every page of the segment is in place and no other has changed |
| Elf.LoadElf | kernel/src/elf/elf_loader.c:32-77 | for every segment, the processor's walk finds the file byte below file size and zero from there to memory size, on user pages that are writable if and only if the segment is and no-execute if and only if it is not executable; every page outside the segments, and every other address space, is seen as before |
| Slab.LiveBlocksApart | kernel/src/memory/heap.c:30-111 | live blocks have the size asked for, stay inside the page of their slab and overlap neither each other nor any slab header |
| Slab.SizeClasses | kernel/src/memory/heap.c:70-85 | the size classes are 32 bytes and its doubles up to 1024 |
| Slab.ObjectsPlaced | kernel/src/memory/heap.c:30-43 | objects lie side by side behind a header of 32 bytes, as many as fit the page |
| SlabHeap.KernelHeap.NewSlab | kernel/src/memory/heap.c:30-43 | a new slab has every object of its page on its free list, counted in its header; no other slab changes |
| SlabHeap.KernelHeap.FindSlab | kernel/src/memory/heap.c:44-69 | the chain search terminates at a slab of the size with a free object |
| SlabHeap.KernelHeap.SetupHeap | kernel/src/memory/heap.c:70-85 | six caches, one for each size |
| SlabHeap.KernelHeap.Kmalloc | kernel/src/memory/heap.c:87-95 | hands out a block that was not live, of the smallest size class that fits, and changes no other; fails for more than 1024 bytes and otherwise only when memory is out |
| SlabHeap.KernelHeap.Kfree | kernel/src/memory/heap.c:97-111 | takes exactly that block back; null is ignored |
| SlabHeap.KernelHeap.Malloc | kernel/src/libc/stdlib.c:19-25 | small requests up to 1008 bytes get a block with their prefix in front and fail only when memory is out; from 1009 to 1024 they always fail |
| SlabHeap.KernelHeap.Free | kernel/src/libc/stdlib.c:38-43 | gives back exactly the block with its prefix; all other blocks stay |
| LargeBlock.MapBlock | kernel/src/libc/stdlib.c:29-32 | every page of a block gets a fresh frame of its own and the rights of the flags; no other page of any address space is mapped differently and no other data frame comes or goes |
| LargeBlock.UnmapBlock | kernel/src/libc/stdlib.c:47-52 | every page of a block is unmapped and its frame freed; nothing else changes |
| LargeBlock.MallocLarge | kernel/src/libc/stdlib.c:26-35 | takes the lowest address range that fits and maps all of it to fresh frames: the processor finds every byte of the block and its prefix writable, not executable and not for users; no range is found exactly when no free range is long enough, and then the pages go to address 0; fails only when memory is out |
| LargeBlock.FreeLarge | kernel/src/libc/stdlib.c:44-54 | unmaps and frees every page of the block, then releases exactly its addresses |
| LargeBlock.LargeRoundTrip | kernel/src/libc/stdlib.c:19-55 | when some free range is long enough, freeing a large block just allocated gives back every frame and address, leaves its pages unmapped and all other translations as they were |
| LargeBlock.MappedAtZero | kernel/src/libc/stdlib.c:26-35 | with one free page, a block of three pages is mapped at address 0 |
| Numbers.UtoaRev | kernel/deps/nanoprintf.h:569-579 | writes the value's digits, least significant first; at most 22 of them for 64 bits in base 8, 10 or 16, so an octal prefix still fits the 23-byte buffer |
| Numbers.DigitChars | kernel/deps/nanoprintf.h:569-579 | digits 0 to 9, then A to F, or a to f with the case bit |
| Numbers.Strtoull | kernel/src/libc/stdlib.c:116-147 | the parse loop computes the digits' value modulo the word size, up to the first non-digit, with the base read off a prefix for base 0 |
| Numbers.ParsesNumber | kernel/src/libc/stdlib.c:134-147 | digits of the base give their positional value modulo the word size, alone or in front of any character that is no digit, whatever follows it |
| Numbers.ParsesPrefixed | kernel/src/libc/stdlib.c:116-147 | with base 0, `0x`, `0X`, `0o` and `0b` in front of digits mean bases 16, 16, 8 and 2 |
| Numbers.ParsesDecimal | kernel/src/libc/stdlib.c:116-147 | with base 0 and no prefix the base is 10 |
| Numbers.PrintParse | kernel/deps/nanoprintf.h:1145-1153 | the printed digits, reversed, parse back to the value, for every 64-bit value and base |
| DbgStub.ChecksumSums | kernel/src/drivers/dbgstub/dbgstub.c:61-67 | the checksum of two strings in a row is the sum of theirs modulo 256; with ChecksumOfFew it is the sum of the bytes and nothing else |
| DbgStub.ChecksumOfFew | kernel/src/drivers/dbgstub/dbgstub.c:61-67 | nothing sums to 0, one byte to itself |
| DbgStub.KnownFrames | kernel/src/drivers/dbgstub/dbgstub.c:60-80 | `OK` is framed as `$OK#9a` and `?` as `$?#3f` |
| DbgStub.Characters | kernel/src/drivers/dbgstub/dbgstub.c:86-121 | the characters that the protocol's constants stand for |
| DbgStub.Stub.Send | kernel/src/drivers/dbgstub/dbgstub.c:60-80 | sends `$`, the string up to its NUL, `#` and the two checksum digits, and keeps the same bytes with a NUL in the send buffer |
| DbgStub.Stub.SendAgain | kernel/src/drivers/dbgstub/dbgstub.c:97-101 | sending the send buffer fills it with `$` to its end without ever meeting a NUL |
| DbgStub.Stub.Rx | kernel/src/drivers/dbgstub/dbgstub.c:82-142 | one received byte changes the state as the protocol's state machine says and keeps it in bounds |
| DbgStub.Stub.Validate | kernel/src/drivers/dbgstub/dbgstub.c:144-169 | accepts exactly the buffers whose digits are the payload's checksum; any other first byte is rejected without looking for a `#` |
| DbgStub.PacketHasHash | kernel/src/drivers/dbgstub/dbgstub.c:131-155 | in every state that can be reached, a completed packet that starts like one has its `#` and two more bytes in the buffer, so the search loop ends |
| DbgStub.Stub.Receive | kernel/src/drivers/dbgstub/dbgstub.c:82-169 | one received byte and, when it completes a packet, the check of it, without any condition on the buffer |
| DbgStub.FrameArrives | kernel/src/drivers/dbgstub/dbgstub.c:82-142 | from any state between bytes, a framed payload, opened by `$` or outside packets by `%`, is exactly one packet and the buffer holds it |
| DbgStub.NoiseIgnored | kernel/src/drivers/dbgstub/dbgstub.c:85-96 | acknowledgements between packets and interrupts inside one leave no trace |
| DbgStub.Incidents | kernel/src/drivers/dbgstub/dbgstub.c:82-106 | a break, a resend and a panic happen exactly at an interrupt or `-` outside packets, and at an escape or a full buffer, and change nothing in the buffer |
| DbgStub.AcceptedIff | kernel/src/drivers/dbgstub/dbgstub.c:144-169 | a packet is accepted if and only if the two digits are its checksum |
| DbgStub.SentIsAccepted | kernel/src/drivers/dbgstub/dbgstub.c:60-169 | every permitted payload that fits is received once, recovered and accepted |
| DbgStub.AlteredIsRejected | kernel/src/drivers/dbgstub/dbgstub.c:60-169 | altering one payload byte to another permitted byte is always rejected |
| Registers.PackReg | kernel/src/drivers/dbgstub/dbgstub.c:193-204 | writes the byte-swapped register as fixed hexadecimal digits and nothing else |
| Registers.PackDigits | kernel/src/drivers/dbgstub/dbgstub.c:193-204 | digits 2k and 2k + 1 are those of byte k of the register, lowest byte first |
| Registers.UnpackReg | kernel/src/drivers/dbgstub/dbgstub.c:227-236 | reads digits back and swaps the bytes |
| Registers.PackUnpack | kernel/src/drivers/dbgstub/dbgstub.c:193-236 | what is packed is unpacked, up to the bytes packed |

## Left out

- Inflate.Decompress: promises nothing for streams RFC 1951 does not define (over-subscribed codes, symbols 286, 287, 30 and 31, repeats past the count, truncation), because the code relies on their absence.
- BitReader.BitStream.Consume: promises nothing when more bits are dropped than are buffered, because the 8-bit counters then wrap; the decoder never does so on a well-formed stream.
- Inflate.Unpack: stands for the middle of `kgz_gzip_decompress`; the gzip header, its CRC and size fields are bounds checks only, and the two arenas are taken to have been allocated.
- Huffman.Create: in an arena with less room than the bound it may succeed or fail; the exact number of bytes, which depends on the buffer's address, is not stated.
- OutBuffer.Buffer.Lz77Copy: for distance 0 it states what memory holds, which is no copy in the RFC's sense.
- Splay trees, `RBT_*`, `RB_AUGMENT`, `RB_NFIND` and `RB_PREV`: the kernel does not use them.
- Mirror-image halves of the red-black rebalancing code are one piece of code with a side; nodes are identified by numbers in a store rather than by addresses.
- The branch of fixed allocation and release that frees a node when nothing lies before the request: it cannot be reached, since that case has been handled above it.
- Parsing the boot memory map in `setup_pmm`: the regions are given, page aligned and not adjacent, as the setup code makes them.
- Vmm.Mmu.MapPage: does not cover a page of the shared half whose top-level entry is absent while several address spaces exist, because the entry would then be added to one of them only; once all shared entries are in place, as setup leaves them, no such page exists.
- Addressing.Run: starts from such a state, like all operations on large blocks.
- Vmm.Mmu.SetupKernel: leaves out the direct-map loop of `setup_vmm`, whose 2 MiB and 1 GiB pages the lookup does not interpret.
- Teardown.DeletePagemap: the nodes of the two range trees and the record of the address space are not freed in the model, since the heap they come from is modelled apart; the TLB is not part of the model.
- Elf.LoadElf: covers segments aligned to 4096 bytes that share no page and lie in the lower half; for larger alignments the loader's offset into the first page can exceed the page. The address-range reservation and the entry data it returns are not part of the model.
- SlabHeap.KernelHeap.Malloc: covers requests up to 1024 bytes, which is where `malloc` branches; larger ones are LargeBlock.MallocLarge.
- SlabHeap.KernelHeap.Free: covers the blocks of those requests; larger ones are LargeBlock.FreeLarge.
- LargeBlock.MallocLarge: covers requests up to 2 to the 47 bytes, beyond which the pages of a block no longer fit the address space; the word with the block's size is not part of the model.
- Pmm.Allocator.FreePage: covers page-aligned addresses, which is all the kernel passes.
- DbgStub.Stub.Rx: reports a `-` outside a packet; what the code then does is DbgStub.Stub.SendAgain, up to the end of the buffer, behind which memory is not modelled.
- DbgStub.Stub.Send: covers strings whose frame fits the send buffer; the code does not test this.
- The debugger's commands, serial I/O, and the format-string loop, padding and floating point of nanoprintf.
- Scheduler, interrupts, file systems, drivers, user programs: other subjects or easy members. Spinlocks are taken as atomicity.
