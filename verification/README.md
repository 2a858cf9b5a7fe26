# NOS kernel core in Dafny

This project models the core of the Null Operating System (NOS), a small
32-bit x86 kernel written in Rust and C++, and proves properties of the
model. It covers:

- the bit-exact table builders: the seven-entry flat global descriptor table
  (section 3.4.5 of the Intel SDM Vol. 3A) and the 32-bit page-table entry
  macros (section 4.3);
- the decoders: CPUID family, model and stepping, the vendor, brand and
  hypervisor strings, and the PS/2 scan-code set 1 keyboard tables;
- the state machines: the keyboard's shift flag and line editor, and the
  framebuffer terminal's cursor;
- the buffers: pixel writes, glyph drawing and scrolling in the
  framebuffer, and the shapes of the C++ `Graphics` class;
- the physical block bitmap allocator;
- the in-memory ramdisk file table;
- the freestanding library: the `cstring` routines, the sorts behind
  `qsort`, the `vsnprintk` formatter, `atoi`, `rand` and `srand`;
- the permission string of the shell's `ls`.

There is one Dafny module per source file:

| module | file | source |
|---|---|---|
| `Gdt` | gdt.dfy | src/arch/x86/gdt.rs |
| `Cpu` | cpu.dfy | src/arch/x86/cpu.rs |
| `Keyboard` | keyboard.dfy | src/arch/x86/drivers/keyboard.rs |
| `Gfx` | gfx.dfy | src/kernel/gfx/mod.rs |
| `Term` | terminal.dfy | src/kernel/gfx/terminal.rs |
| `Graphics` | graphics.dfy | gfx/graphics.cpp |
| `Pmm` | pmm.dfy | kernel/mm/pmm.cpp |
| `Vmm` | vmm.dfy | include/nos/vmm.hpp |
| `Initrd` | initrd.dfy | fs/initrd.cpp |
| `CString` | cstring.dfy | include/kernel/kstd/cstring.hpp |
| `Sort`, `HeapSort`, `QuickSort`, `RadixSort`, `QSort` | sort.dfy, sort_heap.dfy, sort_quick.dfy, sort_radix.dfy, qsort.dfy | kstd/stdlib/sort.cpp |
| `Printk` | printk.dfy | kstd/stdio/vsnprintk.cpp |
| `CStdlib` | cstdlib.dfy | include/kernel/kstd/cstdlib.hpp |
| `Ls`, `Stat` | ls.dfy, stat.dfy | kernel/shell/ls.cpp, include/kernel/fs/stat.hpp |
| `Base`, `Arith`, `Numerals` | base.dfy, arith.dfy, numerals.dfy | shared vocabulary: options, little-endian bytes, `u32` wrap-around, division facts, digit strings |

The form of the model follows the form of the source:

- Pure code is written as functions and lemmas. This covers descriptor
  packing, CPUID decoding, key tables, page-table macros and the digit
  strings.
- Objects whose fields the source updates become classes with `modifies`
  clauses: the GDT, `CPUInfo`, the keyboard statics, the terminal,
  `Graphics`, the allocator, the ramdisk, `pinfo`, and the generator state
  `next`.
- Loops become methods with loop invariants. Each method is proved against
  a specification function, and the properties the source promises are
  proved about that function as lemmas.
- Hardware inputs are parameters of the model:
  - the `cpuid` instruction is a function from leaf to registers;
  - the two port bytes the keyboard reads are arguments;
  - the framebuffer is an array of pixels.

For family 6 the CPU model adds the extended model nibble: the CPUID
signature 0x000106A5 gives model 0x1A = 26 (`Cpu.SignatureExample`).

## Model

| member | source | states |
|---|---|---|
| Gdt.NewEntry | src/arch/x86/gdt.rs:42-60 | the three base fields reassemble to `base`, the limit fields to the low 20 bits of `limit`, the high nibble of the flags byte is that of `flags`, and the access byte is kept |
| Gdt.Encode | src/arch/x86/gdt.rs:17-32 | the packed descriptor is 8 bytes and decodes back to the same entry |
| Gdt.FlatTable | src/arch/x86/gdt.rs:132-145 | seven entries: the null descriptor, then kernel code, data, stack and user code, data, stack, each with base 0, limit 0xFFFFF and flags 0xCF |
| Gdt.AccessToStr | src/arch/x86/gdt.rs:96-107 | the name is "Unknown" exactly when the access byte is none of the seven known ones, and every other name identifies its access byte |
| Gdt.TableNamesDistinct | src/arch/x86/gdt.rs:96-107 | the seven table entries get seven different names, none of them "Unknown" |
| Gdt.Table.constructor | src/arch/x86/gdt.rs:116-126 | the table starts as seven null descriptors |
| Gdt.Table.SetEntries | src/arch/x86/gdt.rs:132-160 | afterwards the table is the flat-segment table |
| Gdt.Table.SetPointer | src/arch/x86/gdt.rs:163-169 | the pointer's size is 7 * 8 - 1 and its offset the table's address |
| Gdt.Table.Init | src/arch/x86/gdt.rs:203-213 | after `init` the table is the flat-segment table and the pointer is (55, table address) |
| Cpu.DisplayModelFields | src/arch/x86/cpu.rs:72-86 | the model's low nibble is the base model, and its high nibble is the extended model exactly for families 6 and 15, else zero |
| Cpu.DisplayFamilyFields | src/arch/x86/cpu.rs:73-93 | the family is the base family, plus the extended family exactly when the base family is 15 |
| Cpu.SteppingFields | src/arch/x86/cpu.rs:77 | the stepping is the low nibble of EAX, below 16 |
| Cpu.SignatureExample | src/arch/x86/cpu.rs:68-94 | signature 0x000106A5 decodes to family 6, model 0x1A, stepping 5 |
| Cpu.LeafBytes | src/arch/x86/cpu.rs:106-118 | one brand leaf gives 16 bytes |
| Cpu.LeafBytesAt | src/arch/x86/cpu.rs:111-117 | byte `t` of a leaf is byte `t % 4` (little-endian) of register `t / 4` in the order EAX, EBX, ECX, EDX |
| Cpu.BrandBytes | src/arch/x86/cpu.rs:100-122 | the brand buffer holds 64 bytes |
| Cpu.BrandLayout | src/arch/x86/cpu.rs:104-119 | bytes 16k..16k+16 of the brand are the bytes of leaf 0x80000002 + k |
| Cpu.BrandByteAt | src/arch/x86/cpu.rs:109-116 | brand byte 16k + t is byte `t` of leaf 0x80000002 + k |
| Cpu.BrandTailZero | src/arch/x86/cpu.rs:101 | the last 16 bytes of the brand stay zero |
| Cpu.VendorBytes | src/arch/x86/cpu.rs:55-58 | the vendor identifier is EBX, EDX, ECX as little-endian words, and the bytes after the twelfth are left as they were |
| Cpu.FeatureBits | src/arch/x86/cpu.rs:129-144 | virtualization support is bit 5 of ECX of leaf 1 and a hypervisor is present exactly when bit 31 is set |
| Cpu.GetHypervisorId | src/arch/x86/cpu.rs:151-167 | None exactly when no hypervisor is present; otherwise EBX, ECX, EDX of leaf 0x40000000 as little-endian words followed by zeros |
| Cpu.CpuInfo.constructor | src/arch/x86/cpu.rs:174 | the default `CPUInfo` is all zeros |
| Cpu.CpuInfo.SetBasicInfo | src/arch/x86/cpu.rs:51-62 | the vendor identifier comes from leaf 0 and `max_cpuid` is its EAX |
| Cpu.CpuInfo.SetProcessorInfo | src/arch/x86/cpu.rs:68-94 | stepping, features, model and family are the decoded fields of leaf 1 |
| Cpu.CpuInfo.SetBrand | src/arch/x86/cpu.rs:100-122 | the brand is the bytes of leaves 0x80000002..0x80000004 then zeros |
| Cpu.CopyWord | src/arch/x86/cpu.rs:112-117 | the 4 bytes at `offset` become the little-endian bytes of the value and nothing else changes |
| Cpu.GetCpuInfo | src/arch/x86/cpu.rs:173-181 | every field of the result is the one the three setters compute from a zeroed record |
| Keyboard.KeyFrom | src/arch/x86/drivers/keyboard.rs:18-36 | never a character key, and each of the fourteen named keys comes from exactly its scan code |
| Keyboard.KeyFromCodeOf | src/arch/x86/drivers/keyboard.rs:18-36 | the conversion inverts the scan code table: every named key is recovered from its own code |
| Keyboard.ScanCodeOf | src/arch/x86/drivers/keyboard.rs:96 | the scan code is the data byte with the top bit cleared, below 0x80 |
| Keyboard.DecodeAsymmetry | src/arch/x86/drivers/keyboard.rs:104-135 | a character comes back exactly for a released unnamed code, looked up in the shifted or unshifted table; a named key other than left shift comes back exactly when pressed |
| Keyboard.EditKey | src/arch/x86/drivers/keyboard.rs:149-195 | one key never changes the buffer's size and keeps the position inside it |
| Keyboard.EditKeyEffects | src/arch/x86/drivers/keyboard.rs:149-195 | the line ends exactly on Enter or a NUL character; backspace at 0 does nothing, else steps back and clears the slot; tab writes up to four spaces as room allows; a character is echoed and stored exactly when it is graphic and there is room; keys other than backspace keep what was typed before |
| Keyboard.Feed | src/arch/x86/drivers/keyboard.rs:142-197 | reading a line consumes at most the key events offered |
| Keyboard.FeedStep | src/arch/x86/drivers/keyboard.rs:146-148 | one loop turn reads one key event, edits the line with the decoded key and carries the shift state on |
| Keyboard.FeedKeepsBounds | src/arch/x86/drivers/keyboard.rs:142-197 | the buffer keeps its size and the position stays inside it over any number of keys |
| Keyboard.FeedStopsOnlyWhenDone | src/arch/x86/drivers/keyboard.rs:146-196 | the loop stops before the input runs out only when the line has ended, and ending takes at least one key |
| Keyboard.ApplyKey | src/arch/x86/drivers/keyboard.rs:149-195 | the buffer, position, echo and end flag after one key are those of the edit function |
| Keyboard.InsertTab | src/arch/x86/drivers/keyboard.rs:172-181 | tab writes min(4, room) spaces at the position, echoes as many, and nothing else in the buffer changes |
| Keyboard.Driver.constructor | src/arch/x86/drivers/keyboard.rs:77-83 | the driver state starts with scan code 0, not pressed, no shift |
| Keyboard.Driver.ReadKey | src/arch/x86/drivers/keyboard.rs:89-136 | the stored scan code and press flag are those of the two port bytes, shift follows left-shift events, and the key returned is the decoded one |
| Keyboard.Driver.NextKey | src/arch/x86/drivers/keyboard.rs:147-195 | one key event read and applied to the line, with the new shift state |
| Keyboard.Driver.GetLine | src/arch/x86/drivers/keyboard.rs:142-197 | buffer, echo, end flag, shift state and keys used are those of reading the whole input with `Feed` |
| Gfx.RgbComponents | src/kernel/gfx/mod.rs:23-27 | red, green and blue sit in bits 16-23, 8-15 and 0-7, and the top byte is zero |
| Gfx.RgbInjective | src/kernel/gfx/mod.rs:23-27 | two packed colours are equal exactly when their three components are |
| Gfx.ColorsArePacked | src/kernel/gfx/mod.rs:31-40 | the eight named colours are the packings of their components |
| Gfx.GetFramebuffer | src/kernel/gfx/mod.rs:49-57 | the address is the boot address truncated to 32 bits, and pitch, depth, width and height are copied |
| Gfx.PutPixel | src/kernel/gfx/mod.rs:70-78 | only the pixel at y * width + x changes, to the colour |
| Gfx.FillScreen | src/kernel/gfx/mod.rs:85-106 | every one of the width * height pixels gets the colour and the memory beyond is untouched |
| Gfx.Glyph | src/kernel/gfx/mod.rs:128-130 | a glyph is the 16 bytes of the font from c * 16 |
| Gfx.RowDrawn | src/kernel/gfx/mod.rs:139-150 | drawing one glyph row keeps the framebuffer size |
| Gfx.CellDrawn | src/kernel/gfx/mod.rs:135-151 | drawing the glyph's rows keeps the framebuffer size; each row lands on the eight pixels from (y + row) * width + x, whether or not the cell fits in the screen row |
| Gfx.CellDrawnNext | src/kernel/gfx/mod.rs:135-137 | each further glyph row draws one more row on top of the rows already drawn |
| Gfx.CellDrawnPastEdge | src/kernel/gfx/mod.rs:148 | a cell drawn at x = width lands at column 0, one pixel row lower, because the index is not checked against the width |
| Gfx.CellDrawnAt | src/kernel/gfx/mod.rs:135-151 | inside the 8x16 cell a pixel becomes the foreground where the glyph bit is set, the background where it is clear and a background is asked for, and stays as it was otherwise; outside the cell nothing changes |
| Gfx.DrawGlyphRow | src/kernel/gfx/mod.rs:139-150 | the pixels of one row are those of the row function |
| Gfx.DrawChar | src/kernel/gfx/mod.rs:118-153 | the framebuffer after drawing is the cell function of the one before, for any x whose last pixel lies in memory, including a cell at or past the right edge |
| Term.TabDraws | src/kernel/gfx/terminal.rs:94-106 | a tab issues as many glyph draws as cells |
| Term.TabDrawsAt | src/kernel/gfx/terminal.rs:94-106 | the i-th cell a tab draws is a blank at x + 8i on the cursor's row |
| Term.ScrollStepBounds | src/kernel/gfx/terminal.rs:146-152 | after the scroll step the cursor is above the bottom, moved up by whole text rows but no further than one row from the bottom, with one scroll issued; a cursor already above the bottom is left alone |
| Term.NewlineEffect | src/kernel/gfx/terminal.rs:88-91 | a newline moves to column 0 of the next text row and draws nothing |
| Term.TabEffect | src/kernel/gfx/terminal.rs:93-107 | a tab draws four blank cells and moves four cells right |
| Term.BackspaceEffect | src/kernel/gfx/terminal.rs:109-126 | backspace steps one cell left unless the new column is 0 or the row is 0, in which case it goes to the right edge of the row above; the new cell is blanked |
| Term.BackspaceQuirk | src/kernel/gfx/terminal.rs:110-115 | backspace from the second column jumps to the end of the previous row, and on the top row goes to row -16 |
| Term.CharEffect | src/kernel/gfx/terminal.rs:129-143 | a space or graphic character is drawn at the cursor, which moves one cell right; any other character does nothing |
| Term.WrapEffect | src/kernel/gfx/terminal.rs:81-84 | at or past the right edge the cursor moves to the start of the next text row, otherwise it stays |
| Term.Terminal.constructor | src/kernel/gfx/terminal.rs:16-32 | the default terminal has no framebuffer and all fields zero |
| Term.Terminal.Init | src/kernel/gfx/terminal.rs:56-64 | the terminal takes the framebuffer and its size, the cursor goes to (0, 0), white on black |
| Term.Terminal.Clear | src/kernel/gfx/terminal.rs:67-71 | with a framebuffer the screen is filled with the background, else nothing happens |
| Term.Terminal.PutChar | src/kernel/gfx/terminal.rs:79-154 | without a framebuffer nothing changes; otherwise the cursor and the operations issued are those of wrap, the character's handling and the scroll step |
| Term.Terminal.HandleChar | src/kernel/gfx/terminal.rs:86-144 | the cursor and operations after the `match c` are those of the handling function |
| Term.ScrollScreen | src/kernel/gfx/terminal.rs:36-50 | the screen moves up one text row of pixels, the freed bottom row is black, and memory past the screen is untouched |
| Term.MoveUp | src/kernel/gfx/terminal.rs:46 | every pixel below the count takes the value `amount` pixels further on; the rest is untouched |
| Term.ZeroFill | src/kernel/gfx/terminal.rs:47 | exactly the pixels between the bounds become zero |
| Term.ScrollSizeOverrun | src/kernel/gfx/terminal.rs:38 | with four bytes per pixel the region scrolled as written is four times the screen (3145728 pixels for 1024x768) |
| Graphics.UnpackPack | gfx/graphics.cpp:38-54 | the colour read out of a packed pixel is the colour packed into it |
| Graphics.PixelsDistinct | gfx/graphics.cpp:41 | two different on-row points have different offsets y * width + x |
| Graphics.IdxOnScreen | gfx/graphics.cpp:37-43 | the offset of an on-screen point lies inside the width * height pixels |
| Graphics.Pos | gfx/graphics.cpp:41 | a pixel offset names a point with 0 <= x < width whose offset it is |
| Graphics.PosIdx | gfx/graphics.cpp:41 | the point recovered from the offset of an on-row point is that point |
| Graphics.InkedAt | gfx/graphics.cpp:31-45 | after inking a point set, each on-screen pixel has the colour if its point is in the set and its old value otherwise |
| Graphics.InkedNothing | gfx/graphics.cpp:31-45 | inking no point leaves every pixel as it was |
| Graphics.InkedPoint | gfx/graphics.cpp:37-44 | one `set_pixel` inks its point: the pixel changes when on screen, nothing changes off screen |
| Graphics.InkedThen | gfx/graphics.cpp:31-45 | inking one set and then another in the same colour inks their union |
| Graphics.ColumnGrow | gfx/graphics.cpp:150-151 | one more step of the inner loop adds one point to the column |
| Graphics.RectGrow | gfx/graphics.cpp:149-152 | one more outer loop turn adds one column to the rectangle |
| Graphics.PointsSnoc | gfx/graphics.cpp:120-121 | plotting one more point adds it to the path's points |
| Graphics.SpanPairGrow | gfx/graphics.cpp:74-81 | one more inner loop turn of `draw_circle` adds a point to each of the two rows |
| Graphics.DiscSnoc | gfx/graphics.cpp:73-81 | one more turn of the circle loop adds the four spans of its octant points |
| Graphics.DiscSymmetric | gfx/graphics.cpp:67-92 | the filled circle is symmetric about its vertical and horizontal axes |
| Graphics.DiscInBox | gfx/graphics.cpp:67-92 | every point of the filled circle lies in the square of side 2r + 1 around the centre |
| Graphics.Abs | gfx/graphics.cpp:106-107 | the absolute value is the number or its negation |
| Graphics.PathSnoc | gfx/graphics.cpp:120-137 | a point next to the end of a connected path inside the line's box extends it to a connected path inside the box |
| Graphics.LineStep | gfx/graphics.cpp:126-136 | one Bresenham step keeps the error invariant, moves to a neighbouring point and brings the end point strictly closer |
| Graphics.ErrorTerm | gfx/graphics.cpp:126-136 | the error term decides the steps so that at least one coordinate moves and neither passes the end point |
| Graphics.MidpointFrom | gfx/graphics.cpp:73-91 | the loop from state (x, y, d) visits no step exactly when x > y |
| Graphics.MidpointNext | gfx/graphics.cpp:83-90 | one turn moves x up by one and y down by zero or one |
| Graphics.MidpointShape | gfx/graphics.cpp:73-91 | step k from (x, y, d) is (x + k, y_k) with x + k <= y_k <= y, the first is (x, y), and y drops by at most one per step |
| Graphics.MidpointAdvance | gfx/graphics.cpp:73-91 | one turn visits (x, y), and the remaining steps are those from the state the decision variable leads to |
| Graphics.MidpointStepsShape | gfx/graphics.cpp:67-92 | the steps for radius r are none for a negative radius, otherwise start at (0, r), and have the circle-step shape |
| Graphics.MidpointRadiusThree | gfx/graphics.cpp:69-91 | for radius 3 the decision variable goes -3, 3, 5 and the steps are (0, 3), (1, 3), (2, 2) |
| Graphics.Graphics.constructor | gfx/graphics.cpp:26-29 | the object takes the framebuffer's width, height and memory |
| Graphics.Graphics.SetPixel | gfx/graphics.cpp:31-45 | an on-screen point gets the packed colour and nothing else changes; an off-screen point changes nothing |
| Graphics.Graphics.GetPixel | gfx/graphics.cpp:47-55 | the colour is the unpacked value of the pixel at y * width + x |
| Graphics.Graphics.SetThenGet | gfx/graphics.cpp:31-55 | a colour set at an on-screen point is read back unchanged |
| Graphics.Graphics.FillScreen | gfx/graphics.cpp:57-63 | every on-screen pixel gets the colour and memory past the screen is untouched |
| Graphics.Graphics.DrawRectangle | gfx/graphics.cpp:147-153 | exactly the on-screen points of the w by h rectangle at (x, y) are inked |
| Graphics.Graphics.DrawColumn | gfx/graphics.cpp:150-151 | the inner loop inks the column of h points from y |
| Graphics.Graphics.DrawSquare | gfx/graphics.cpp:94-100 | exactly the on-screen points of the side by side square are inked |
| Graphics.Graphics.DrawLine | gfx/graphics.cpp:102-138 | the inked points form a connected path from (x1, y1) to (x2, y2), inside their bounding box, of at most \|dx\| + \|dy\| + 1 points |
| Graphics.Graphics.PlotOnPath | gfx/graphics.cpp:121 | plotting the next point extends the inked path by that point |
| Graphics.Graphics.DrawTriangle | gfx/graphics.cpp:140-145 | three connected sides, from vertex 1 to 2, 2 to 3 and 3 to 1, are inked |
| Graphics.Graphics.DrawCircle | gfx/graphics.cpp:67-92 | the steps visited are exactly those of the midpoint recurrence on x, y and the decision variable d from (0, r, 3 - 2r); they start at (0, r), and exactly the spans they give are inked; a negative radius inks nothing |
| Graphics.Graphics.CircleTurn | gfx/graphics.cpp:74-90 | one loop turn inks the step's spans and moves x, y and d by the midpoint rule, so the visited steps followed by the remaining ones stay the steps for radius r |
| Graphics.Graphics.DrawOctants | gfx/graphics.cpp:74-81 | one loop turn inks the four spans of the current step |
| Graphics.Graphics.SetPixelPair | gfx/graphics.cpp:75-76 | the two `set_pixel` calls ink their two points |
| Graphics.Graphics.DrawRowPair | gfx/graphics.cpp:74-81 | one inner loop inks the two rows of the span |
| Pmm.BitOfValue | kernel/mm/pmm.cpp:39 | the shift amount for bit k is k |
| Pmm.BitOfInjective | kernel/mm/pmm.cpp:39-49 | distinct bit numbers give distinct shift amounts, so `bit % 32` picks one bit of the word |
| Pmm.SetBitEffect | kernel/mm/pmm.cpp:37-40 | after `\|= 1 << k` bit j is set exactly when j is k or it was set before |
| Pmm.ClearBitEffect | kernel/mm/pmm.cpp:42-45 | after `&= ~(1 << k)` bit j is set exactly when j is not k and it was set before |
| Pmm.FullWord | kernel/mm/pmm.cpp:62 | every bit of a word equal to 0xFFFFFFFF is set |
| Pmm.BlockOfWord | kernel/mm/pmm.cpp:77 | block i * 32 + j is bit j of word i |
| Pmm.CountFree | kernel/mm/pmm.cpp:69-74 | among k probed blocks at most k are free |
| Pmm.CountFreeStep | kernel/mm/pmm.cpp:72-73 | one more probe adds one to the count exactly when that block is free |
| Pmm.CountFreeMono | kernel/mm/pmm.cpp:71-74 | probing further never lowers the count |
| Pmm.CountFreeAll | kernel/mm/pmm.cpp:71-77 | all k probed blocks are free exactly when the count reaches k |
| Pmm.Pow2 | kernel/mm/pmm.cpp:65 | 2 to the power j lies above j |
| Pmm.ShiftIsPow2 | kernel/mm/pmm.cpp:65 | the mask `bit = 1 << j` has the value 2 to the power j |
| Pmm.ProbeStart | kernel/mm/pmm.cpp:68 | the probes for block i * 32 + j start at `start_bit` = i * 32 + (1 << j), past the block itself |
| Pmm.FirstFreeAsWrittenIsFirst | kernel/mm/pmm.cpp:52-85 | the scan as written returns -1 exactly when n is 0 or no block below the limit is accepted, and otherwise the least accepted block; a block is accepted when it is free and n of the n + 1 probes from `start_bit` are free |
| Pmm.FirstFreeAsWrittenStep | kernel/mm/pmm.cpp:64-79 | an accepted block is the answer, otherwise the scan goes on with the next block |
| Pmm.FullWordSkipped | kernel/mm/pmm.cpp:62 | skipping a word equal to 0xFFFFFFFF passes over no answer |
| Pmm.LastFree | kernel/mm/pmm.cpp:71-77 | when at least m of the k probes from s are free, a free one lies at s + m - 1 or later |
| Pmm.HitInBitmap | kernel/mm/pmm.cpp:68-77 | the n blocks from an accepted block all lie in the bitmap, so the `set_block` calls of `blocks_alloc` stay inside the map |
| Pmm.SingleBlockAsWritten | kernel/mm/pmm.cpp:52-85 | for one block the scan as written answers with a free block, at or after the block the first fit answers |
| Pmm.FirstFreeAsWrittenOverlaps | kernel/mm/pmm.cpp:65-77 | with word 0xFFFFFFF2 the scan as written answers block 0 for two blocks although block 1 is used; the first free pair is 2 and 3 |
| Pmm.FirstRunIsFirst | kernel/mm/pmm.cpp:52-85 | the first fit the scan is meant to compute returns -1 exactly when n is 0 or no block below the limit starts n free blocks, and otherwise the least such block, whose n blocks are all free |
| Pmm.MemsetCovers | kernel/mm/pmm.cpp:97 | every block of the first max / 8 bytes of the bitmap lies in the bitmap's words |
| Pmm.SetBlockEffect | kernel/mm/pmm.cpp:39 | setting a block's bit in its word makes that block used and leaves every other block as it was |
| Pmm.UnsetBlockEffect | kernel/mm/pmm.cpp:44 | clearing a block's bit in its word makes that block free and leaves every other block as it was |
| Pmm.FreeOfBit | kernel/mm/pmm.cpp:67 | block i * 32 + j is free exactly when bit j of word i is clear |
| Pmm.ProbeStartOf | kernel/mm/pmm.cpp:65-68 | the probes for block i * 32 + j start at i * 32 + 2 to the power j |
| Pmm.PhysicalMemoryManager.constructor | kernel/mm/pmm.cpp:93-97 | the bitmap and block count `initialize` sets up, every block counted as used; `memset(map, 0xFF, max / 8)` makes every block of the first max / 8 bytes used and leaves the rest of the bitmap as it was |
| Pmm.PhysicalMemoryManager.SetBlock | kernel/mm/pmm.cpp:37-40 | block `bit` becomes used and every other block keeps its state |
| Pmm.PhysicalMemoryManager.UnsetBlock | kernel/mm/pmm.cpp:42-45 | block `bit` becomes free and every other block keeps its state |
| Pmm.PhysicalMemoryManager.TestBlock | kernel/mm/pmm.cpp:47-50 | true exactly when the block is in use |
| Pmm.PhysicalMemoryManager.FindFirstFreeBlocks | kernel/mm/pmm.cpp:52-85 | the result is the answer of the scan as written, `FirstFreeAsWritten`: -1 for n = 0 or when no block is accepted, otherwise the least accepted block |
| Pmm.PhysicalMemoryManager.ScanBit | kernel/mm/pmm.cpp:64-79 | block i * 32 + j is accepted exactly when its bit is clear and n of the n + 1 probes from i * 32 + (1 << j) are free |
| Pmm.PhysicalMemoryManager.Probe | kernel/mm/pmm.cpp:72 | a probe reports use exactly for used blocks, counting blocks past the bitmap as used |
| Pmm.PhysicalMemoryManager.ProbeRun | kernel/mm/pmm.cpp:69-78 | the probe loop succeeds exactly when at least n of the n + 1 blocks from the start are free |
| Pmm.PhysicalMemoryManager.BlocksAlloc | kernel/mm/pmm.cpp:133-150 | allocation succeeds exactly when more than n blocks are free by the count and the scan as written accepts a block; then that block, which was free, and the n - 1 after it become used whether they were free or not, no other block changes, n is added to the count and the address is returned; otherwise nothing changes |
| Pmm.PhysicalMemoryManager.FreeBlocks | kernel/mm/pmm.cpp:152-160 | the n blocks from addr / 4096 become free, no others change, and n is taken off the count (wrapping as a u32) |
| Pmm.PhysicalMemoryManager.RegionInit | kernel/mm/pmm.cpp:103-117 | the region's blocks become free, block 0 becomes used, and the count drops by the region's size in blocks |
| Pmm.PhysicalMemoryManager.RegionDeinit | kernel/mm/pmm.cpp:119-131 | the region's blocks become used, no others change, and the count rises by the region's size in blocks |
| Vmm.PdIndex | include/nos/vmm.hpp:47 | the directory index is below 1024 and together with the table index and the offset reassembles the address |
| Vmm.PtIndex | include/nos/vmm.hpp:48 | the table index is below 1024 |
| Vmm.PageAddress | include/nos/vmm.hpp:49 | the frame address is page aligned and with the entry's low 12 bits gives back the entry |
| Vmm.TestAttribute | include/nos/vmm.hpp:52 | the result holds only bits of the attribute that are set in the entry |
| Vmm.SetAttribute | include/nos/vmm.hpp:50 | afterwards all attribute bits are set and the other bits are unchanged |
| Vmm.ClearAttribute | include/nos/vmm.hpp:51 | afterwards no attribute bit is set and the other bits are unchanged |
| Vmm.SetFrame | include/nos/vmm.hpp:53 | for an aligned frame below 2 GiB the frame bits become the address and the flag bits and bit 31 are kept |
| Vmm.SetFramePageAddress | include/nos/vmm.hpp:49-53 | the frame address read back after setting a frame is that frame, plus bit 31 of the old entry |
| Vmm.SetAttributeAt | include/nos/vmm.hpp:50 | only the addressed entry changes, to its attribute-set value |
| Vmm.ClearAttributeAt | include/nos/vmm.hpp:51 | only the addressed entry changes, to its attribute-cleared value |
| Vmm.SetFrameAt | include/nos/vmm.hpp:53 | only the addressed entry changes, to its frame-set value |
| Initrd.CName | fs/initrd.cpp:75 | a stored name as a C string: NUL-terminated, its length the name's length, its content the name |
| Initrd.NameBytesPrefix | include/kernel/fs/initrd.hpp:52-53 | the bytes `strncmp` reads from the name field up to its first zero: a short name alone, a 64-byte name followed by the file's data up to its first zero byte |
| Initrd.NameIsStrncmp | fs/initrd.cpp:287 | `strncmp(name, path, 1024) == 0` holds for a short name exactly when the name is the path's first 1024 bytes, and for a 64-byte name exactly when the name followed by the data up to its first zero is |
| Initrd.FindName | fs/initrd.cpp:280-292 | either -1 or the index of a live file from `from` on that the comparison takes for the path, and no live file before that index (before `count` for -1) is taken |
| Initrd.FullNameRunsIntoData | fs/initrd.cpp:287 | a file created with a 64-byte path is found by it, and after `close` stores "xyz" it is found by the path followed by "xyz" and no longer by the path |
| Initrd.IntendedNameKept | fs/initrd.cpp:287 | comparing the stored name as a NUL-terminated string, a file created for a path of at most 64 bytes is found by exactly the paths that agree with it, whatever data it later holds |
| Initrd.FdsSameFd | fs/initrd.cpp:308-311 | changing a file without changing its descriptor keeps the descriptors increasing |
| Initrd.FdsUnique | fs/initrd.cpp:308-311 | increasing descriptors make every live descriptor name one file |
| Initrd.FdsAppend | fs/initrd.cpp:80-83 | appending a file with the next descriptor keeps the descriptors increasing |
| Initrd.NewFile | fs/initrd.cpp:73-81 | a created file has an empty zeroed data area, size 0, the given descriptor, its name the path cut at 64 bytes, and is found by its path when the path fits |
| Initrd.Loaded | fs/initrd.cpp:246-249 | the buffer after `open` holds the file's bytes up to the first zero byte or `size`, and zeros after |
| Initrd.ZeroFrom | fs/initrd.cpp:150-151 | the index of the first zero byte from `from` on |
| Initrd.Written | fs/initrd.cpp:153-163 | the copy puts the m source bytes at `start` and changes nothing else |
| Initrd.WriteSizeDropsLastByte | fs/initrd.cpp:160-171 | writing m NUL-free bytes to an empty file reports m - 1, and the next `open` loads only the first m - 1 of them |
| Initrd.CreatThenFind | fs/initrd.cpp:73-84 | after `creat` of a missing name, `get_index` finds the new file at the old count |
| Initrd.Shifted | fs/initrd.cpp:112-114 | the shift loop moves each file after the gap down by one, keeps the ones before, and leaves the last live slot as it was |
| Initrd.ShiftedFds | fs/initrd.cpp:112-116 | closing the gap keeps the descriptors increasing |
| Initrd.UnlinkThenFind | fs/initrd.cpp:100-117 | after `unlink` of the only file with a name, `get_index` no longer finds the name |
| Initrd.WriteCount | fs/initrd.cpp:149-163 | without O_APPEND the copy takes n bytes or stops before the last byte; with O_APPEND it stops at about half the remaining room |
| Initrd.WriteStart | fs/initrd.cpp:149-151 | O_APPEND starts at the first zero byte, otherwise at 0 |
| Initrd.AfterWrite | fs/initrd.cpp:146-163 | the copy loops keep the buffer at 1 KiB with its last byte zero |
| Initrd.WriteEnd | fs/initrd.cpp:166-167 | the scan after the copy stops inside the buffer |
| Initrd.AppendUsesHalfTheRoom | fs/initrd.cpp:153 | appending 20 bytes at index 1000 copies only 12, although an overwrite copies all 20 |
| Initrd.WrittenReadsBack | fs/initrd.cpp:160-166 | bytes written from the start are in the buffer and the content scan does not stop before them |
| Initrd.FindFd | fs/initrd.cpp:294-306 | -1 exactly for fd -1 or a descriptor no live file has, else the index of a file with it |
| Initrd.FindFdIs | fs/initrd.cpp:294-306 | with increasing descriptors any index holding the descriptor is the one `get_index_by_fd` returns |
| Initrd.Ramdisk.constructor | fs/initrd.cpp:38-54 | an empty table, descriptors from 0 |
| Initrd.Ramdisk.SetFd | fs/initrd.cpp:308-311 | returns the next descriptor and advances it by one |
| Initrd.Ramdisk.Store | fs/initrd.cpp:73-81 | only slot k changes, to the file given |
| Initrd.Ramdisk.GetIndex | fs/initrd.cpp:280-292 | -1 for a null path, else what `FindName` gives: the first live file the 1024-byte comparison takes for the path, a 64-byte name being compared together with the data after it |
| Initrd.Ramdisk.GetIndexByFd | fs/initrd.cpp:294-306 | the index `FindFd` gives, whose file has the descriptor |
| Initrd.Ramdisk.Creat | fs/initrd.cpp:61-85 | fails with -1 and no change when the table is full, the path is null or `get_index` finds a file for it; otherwise appends a new file at index count with the next descriptor and returns it |
| Initrd.Ramdisk.Close | fs/initrd.cpp:254-278 | -1 with no change for an unknown or closed descriptor; otherwise 0, the file marked closed with the buffer as its data |
| Initrd.Ramdisk.CopyBuffer | fs/initrd.cpp:273-274 | the copy loop gives the buffer's bytes |
| Initrd.Ramdisk.Unlink | fs/initrd.cpp:87-118 | -1 with no change for a null path, an empty table or a path `get_index` finds no file for; otherwise 0, the first file found closed and cleared and removed, the others keeping their order, count one less |
| Initrd.Ramdisk.UnlinkAt | fs/initrd.cpp:105-117 | the file at k is discarded and the gap closed |
| Initrd.Ramdisk.DiscardAt | fs/initrd.cpp:107-110 | only the file at k changes: closed if open, data cleared |
| Initrd.Ramdisk.RemoveSlot | fs/initrd.cpp:112-117 | the gap at k is closed and the count drops by one |
| Initrd.Ramdisk.ShiftDown | fs/initrd.cpp:113-114 | the shift loop leaves the table `Shifted` describes |
| Initrd.Ramdisk.Open | fs/initrd.cpp:219-252 | -1 for a null path; a path `get_index` finds no file for is created exactly for O_CREAT \| O_EXCL; an open file gives its descriptor unchanged; a closed one is marked open with the flags and its contents loaded into the buffer |
| Initrd.Ramdisk.OpenMissing | fs/initrd.cpp:231-236 | a missing name is created with mode 0 exactly when the flags are O_CREAT \| O_EXCL and there is room, else -1 |
| Initrd.Ramdisk.OpenAt | fs/initrd.cpp:238-251 | an open file is left alone; otherwise it is marked open with the flags and the buffer holds its loaded contents |
| Initrd.Ramdisk.Load | fs/initrd.cpp:246-249 | the buffer after zeroing and copying is the loaded contents |
| Initrd.Ramdisk.Read | fs/initrd.cpp:174-217 | -1 and no change for an unknown or closed descriptor, a negative descriptor, a null buffer or missing read permission; otherwise copies min(content length, n, 1024) bytes, terminates them and returns their number |
| Initrd.Ramdisk.CopyOut | fs/initrd.cpp:210-215 | copies the buffer's bytes up to its first zero or the limit, writes a terminator after them, and touches nothing else |
| Initrd.Ramdisk.Write | fs/initrd.cpp:120-172 | -1 and no change for an unknown or closed descriptor, a null source or missing write permission; otherwise the buffer after the copy loops, and the file's size and the result are one less than the index of the first zero after the copy |
| Initrd.Ramdisk.WriteAt | fs/initrd.cpp:146-171 | the buffer, result and new size of a permitted write |
| Initrd.Ramdisk.SetSize | fs/initrd.cpp:170 | only the size of file k changes |
| Initrd.Ramdisk.WriteBuffer | fs/initrd.cpp:146-169 | the buffer after the copy and terminator, and the index of the terminator |
| Initrd.Ramdisk.CopyIn | fs/initrd.cpp:146-164 | the copy loops leave `AfterWrite`, ending after the copied bytes |
| Initrd.Ramdisk.ScanZero | fs/initrd.cpp:166-167 | the scan stops at the first zero byte from `from` |
| Initrd.Ramdisk.AppendCopy | fs/initrd.cpp:153-157 | the append loop copies `WriteCount` bytes at the start index |
| Initrd.Ramdisk.OverwriteCopy | fs/initrd.cpp:160-163 | the overwrite loop copies min(n, 1023) bytes from 0 |
| Initrd.Ramdisk.Stat | fs/initrd.cpp:318-341 | -1 and nothing for a null path or a path `get_index` finds no file for; otherwise 0 and the stored name, size, mode, descriptor and type of the first file found |
| CString.SChar | include/kernel/kstd/cstring.hpp:225 | a byte read as a signed `char`: in -128..127, negative exactly for bytes from 0x80, and congruent to the byte modulo 256 |
| CString.SCharInjective | include/kernel/kstd/cstring.hpp:224-225 | different bytes are different `char` values, so a non-zero difference means the bytes differ |
| CString.Len | include/kernel/kstd/cstring.hpp:199-207 | the index of the first NUL: a NUL there and none before |
| CString.Prefix | include/kernel/kstd/cstring.hpp:240-251 | the first min(n, length) characters of the content, none of them NUL |
| CString.Bzero | include/kernel/kstd/cstring.hpp:50-56 | exactly the first n bytes become zero |
| CString.Memset | include/kernel/kstd/cstring.hpp:156-165 | exactly the first n bytes become `c` truncated to a byte |
| CString.CopyLen | include/kernel/kstd/cstring.hpp:79-83 | `memcpy` copies up to n bytes and stops before the first zero byte of the source |
| CString.CopyLenAll | include/kernel/kstd/cstring.hpp:79-83 | all n bytes are copied exactly when none of them is zero |
| CString.CopyStopsAtZero | include/kernel/kstd/cstring.hpp:79-83 | copying 3 bytes of [1, 0, 2] copies only one |
| CString.Memcpy | include/kernel/kstd/cstring.hpp:66-86 | the bytes before the source's first zero (at most n) are copied and the rest of `dest` is untouched |
| CString.Memmove | include/kernel/kstd/cstring.hpp:96-118 | the n destination bytes take the old source bytes even when the regions overlap, and nothing else changes |
| CString.Memcmp | include/kernel/kstd/cstring.hpp:131-145 | 0 exactly when the first n bytes agree; otherwise the unsigned difference at the first byte that differs |
| CString.Strlen | include/kernel/kstd/cstring.hpp:199-207 | the index of the first NUL |
| CString.Strncmp | include/kernel/kstd/cstring.hpp:219-230 | 0 exactly when the two strings agree on their first n characters up to the NUL; otherwise the signed difference at the first position that differs |
| CString.PrefixesDiffer | include/kernel/kstd/cstring.hpp:223-225 | a difference within the first n characters and not past either NUL makes the prefixes differ |
| CString.Strncpy | include/kernel/kstd/cstring.hpp:240-251 | copies min(size, strlen(src)) characters, writes a NUL after them, returns their number, and leaves the rest of `dest` alone |
| CString.Strncat | include/kernel/kstd/cstring.hpp:261-280 | 0 for a null argument; size + strlen(src) and no change when `size` is not above strlen(src); otherwise appends at most `size - strlen(dest)` characters (a wrapping difference), terminates, and returns the sum of the lengths |
| CString.AppendChars | include/kernel/kstd/cstring.hpp:273-277 | the copy loop and the terminator of `strncat` |
| CString.CopyChars | include/kernel/kstd/cstring.hpp:273-276 | copies min(length, bound) characters at `at` and nothing else |
| CString.Strchr | include/kernel/kstd/cstring.hpp:345-359 | the first index up to and including the terminator holding `c`, or none when there is none |
| CString.Strrchr | include/kernel/kstd/cstring.hpp:369-383 | the last index up to and including the terminator holding `c`, or none when there is none |
| CString.MatchStart | include/kernel/kstd/cstring.hpp:410 | a match begins with the first character of `little` |
| CString.MatchLength | include/kernel/kstd/cstring.hpp:411-419 | the inner loop reaches the length of `little` exactly when `little` occurs at `i` |
| CString.Strnstr | include/kernel/kstd/cstring.hpp:394-426 | null for a null `big` or `len` 0; index 0 for a null `little`; otherwise the first index below `len` where `little` occurs, or null when there is none |
| Ls.GetType | kernel/shell/ls.cpp:92-112 | '?' exactly when the type field is none of the seven types; every other letter identifies its type |
| Ls.ModeString | kernel/shell/ls.cpp:114-126 | the mode string has ten characters |
| Ls.ModeStringLetters | kernel/shell/ls.cpp:116-125 | character 0 is the type letter and character k + 1 is 'r', 'w' or 'x' when permission bit k is set, else '-' |
| Ls.ParsePermsOfModeString | kernel/shell/ls.cpp:117-125 | the nine permission bits can be read back from the string |
| Ls.ModeStringEqual | kernel/shell/ls.cpp:114-126 | two modes give the same string exactly when they have the same type letter and the same permission bits |
| Ls.PermCharMasked | kernel/shell/ls.cpp:117-125 | a permission letter depends only on the low nine bits |
| Ls.GetMode | kernel/shell/ls.cpp:114-126 | the first ten characters of the buffer become the mode string and the rest is untouched |
| Sort.MemcpyBytes | include/kernel/kstd/cstring.hpp:66-86 | the element copy `__swap` makes keeps the destination's size |
| Sort.SwapBytesAsWritten | kstd/stdlib/sort.cpp:34-41 | the three byte copies of `__swap` as written give two elements of the original size |
| Sort.SwapBytesWithoutZeros | kstd/stdlib/sort.cpp:34-41 | for elements without a zero byte, `__swap` as written does exchange the two elements |
| Sort.SwapBytesLosesZero | kstd/stdlib/sort.cpp:34-41 | swapping the one-byte elements 5 and 0 as written leaves 5 in both |
| Sort.Swap | kstd/stdlib/sort.cpp:34-41 | the elements at `i` and `j` are exchanged and nothing else changes |
| Sort.SwappedPerm | kstd/stdlib/sort.cpp:34-41 | a swap inside a range rearranges that range and leaves the rest alone |
| Sort.PermBounds | kstd/stdlib/sort.cpp:53-89 | a bound on every key survives any rearrangement |
| Sort.SortedConcat | kstd/stdlib/sort.cpp:84-88 | two sorted runs, every key of the first at most every key of the second, join into a sorted run |
| Sort.Insert | kstd/stdlib/sort.cpp:161-166 | inserting one element makes the sequence one longer |
| Sort.InsertionSorted | kstd/stdlib/sort.cpp:155-168 | the insertion sort of a sequence keeps its length |
| Sort.InsertPerm | kstd/stdlib/sort.cpp:161-166 | inserting `x` adds exactly `x` to the elements |
| Sort.InsertSorted | kstd/stdlib/sort.cpp:161-166 | inserting into a sorted sequence keeps it sorted |
| Sort.InsertionSortedSpec | kstd/stdlib/sort.cpp:155-168 | the insertion sort's result is sorted and a permutation of its input |
| Sort.InsertSplit | kstd/stdlib/sort.cpp:163-166 | the element goes behind every element whose key is not above its own and in front of those whose key is above: the sort is stable |
| Sort.ShiftUp | kstd/stdlib/sort.cpp:163-164 | the inner loop shifts up by one exactly the elements before `i` whose keys are above the key of `tmp`, stopping at the first that is not |
| Sort.InsertLast | kstd/stdlib/sort.cpp:161-166 | element `i` is inserted into the prefix before it, and the elements after it are untouched |
| Sort.InsertionSort | kstd/stdlib/sort.cpp:155-168 | the array becomes the insertion sort of its old contents (so sorted, a permutation, and stable) |
| HeapSort.Parent | kstd/stdlib/sort.cpp:107-108 | node `k` is the left or right child `2p + 1` or `2p + 2` of its parent `p` |
| HeapSort.RootIsMax | kstd/stdlib/sort.cpp:132-143 | in a heap, no key is above the key of the root |
| HeapSort.SiftStep | kstd/stdlib/sort.cpp:116-118 | swapping a node with its largest child moves the one break in the heap down to that child |
| HeapSort.SiftDone | kstd/stdlib/sort.cpp:116 | a node no child of which is larger closes the heap |
| HeapSort.Largest | kstd/stdlib/sort.cpp:106-114 | `largest` is `i` or a child of `i`, and its key is the largest among `i` and its children |
| HeapSort.Heapify | kstd/stdlib/sort.cpp:101-120 | sifts the node down until the first `n` elements form a heap again, rearranging only them |
| HeapSort.HeapSort | kstd/stdlib/sort.cpp:132-143 | the array becomes sorted and a permutation of its old contents |
| HeapSort.SwapRoot | kstd/stdlib/sort.cpp:140 | swapping the root with the last heap element leaves the shorter heap broken at most at the root |
| HeapSort.ExtractMax | kstd/stdlib/sort.cpp:139-142 | one round of the second loop: the heap shrinks by one, and the sorted tail, whose keys bound those of the heap, grows by one |
| QuickSort.ScanUp | kstd/stdlib/sort.cpp:68-69 | `i` stops at the first key not below the pivot's, every key it passed being below it |
| QuickSort.ScanDown | kstd/stdlib/sort.cpp:71-72 | `j` stops at the first key not above the pivot's, every key it passed being above it |
| QuickSort.StopParted | kstd/stdlib/sort.cpp:66-82 | when the indices have crossed, the keys up to `i` are not above the pivot and those after `j` not below it |
| QuickSort.SwapParted | kstd/stdlib/sort.cpp:74-81 | swapping the pair the scans stopped at extends both partitioned ends by one |
| QuickSort.Scans | kstd/stdlib/sort.cpp:68-72 | the two inner loops of a round stop inside the range, `i` at a key not below the pivot's and `j` at one not above it |
| QuickSort.SwapPair | kstd/stdlib/sort.cpp:74-81 | the swap of a round extends both partitioned ends by one and rearranges only the range |
| QuickSort.Partition | kstd/stdlib/sort.cpp:61-82 | the partition loop ends with `j < i`, the keys up to `j` not above the pivot's, those between equal to it, those from `i` not below it, the elements rearranged only within the range |
| QuickSort.JoinSorted | kstd/stdlib/sort.cpp:84-88 | a sorted left part, a run of pivot keys and a sorted right part make a sorted range |
| QuickSort.QuickSort | kstd/stdlib/sort.cpp:53-89 | the `n` elements from `lo` become sorted and a permutation of what they were, and nothing outside them changes |
| RadixSort.Digit | kstd/stdlib/sort.cpp:185 | the digit `(v / exp) % 10` lies in 0..9 |
| RadixSort.DigitSplit | kstd/stdlib/sort.cpp:185 | the remainder modulo `10 * exp` is the digit at `exp` times `exp` plus the remainder modulo `exp` |
| RadixSort.Count | kstd/stdlib/sort.cpp:184-185 | the count of a digit among `n` values is at most `n` |
| RadixSort.BelowAll | kstd/stdlib/sort.cpp:187-188 | the prefix sum over all ten digits is the number of values |
| RadixSort.RankBounds | kstd/stdlib/sort.cpp:190-193 | each value's place lies inside the run of places of its digit, inside the array |
| RadixSort.RankOrder | kstd/stdlib/sort.cpp:190-193 | places are distinct, and one value goes before another exactly when its digit is smaller, or equal with a smaller index: the count sort is stable |
| RadixSort.Source | kstd/stdlib/sort.cpp:190-193 | every place is the place of some value |
| RadixSort.ByDigitUnique | kstd/stdlib/sort.cpp:179-197 | there is only one sequence with every value at its place |
| RadixSort.ByDigitPerm | kstd/stdlib/sort.cpp:179-197 | the count sort's result is a permutation of its input |
| RadixSort.RadixStep | kstd/stdlib/sort.cpp:216-217 | values sorted modulo `exp`, stably sorted by the digit at `exp`, are sorted modulo `10 * exp` |
| RadixSort.SortedModAscending | kstd/stdlib/sort.cpp:216 | values below `m` sorted modulo `m` are ascending |
| RadixSort.CountDigits | kstd/stdlib/sort.cpp:181-185 | `count[d]` becomes the number of values whose digit is `d` |
| RadixSort.PrefixSums | kstd/stdlib/sort.cpp:187-188 | `count[d]` becomes the number of values whose digit is at most `d` |
| RadixSort.PlaceStep | kstd/stdlib/sort.cpp:190-193 | placing value `i` puts it at its place, `count` of its digit dropping by one |
| RadixSort.Put | kstd/stdlib/sort.cpp:191-192 | writes `v` at `count[d] - 1` and decrements `count[d]`, nothing else |
| RadixSort.Place | kstd/stdlib/sort.cpp:190-193 | the output holds every value at its place in the stable sort by digit |
| RadixSort.CountSort | kstd/stdlib/sort.cpp:179-197 | the array becomes its old contents stably sorted by the digit at `exp` |
| RadixSort.DivPositive | kstd/stdlib/sort.cpp:216 | the loop test `max / exp > 0` holds exactly when `exp <= max` |
| RadixSort.Largest | kstd/stdlib/sort.cpp:209-214 | the first loop finds a value of the array that no value exceeds |
| RadixSort.RadixSort | kstd/stdlib/sort.cpp:207-218 | the values become ascending and a permutation of what they were |
| QSort.QSort | kstd/stdlib/sort.cpp:220-239 | every branch keeps the elements; 4-byte elements come out ascending by value, other sizes sorted by the comparator, and at most 16 of them exactly as the stable insertion sort orders them |
| CStdlib.LeadingDigits | include/kernel/kstd/cstdlib.hpp:66 | the longest prefix made only of decimal digits: every character in it is a digit and the next one is not |
| CStdlib.WrapStep | include/kernel/kstd/cstdlib.hpp:67-68 | wrapping the accumulator to `s32` at every step gives the same result as wrapping the exact value once |
| CStdlib.Atoi | include/kernel/kstd/cstdlib.hpp:55-76 | the value of the digits after an optional '-', negated after a '-', wrapped to `s32`; exactly that value when it fits in `s32` |
| CStdlib.Accumulate | include/kernel/kstd/cstdlib.hpp:66-70 | the digit loop yields the wrapped value of the longest run of digits from `start` |
| CStdlib.AtoiNoDigits | include/kernel/kstd/cstdlib.hpp:55-76 | the empty string, a lone '-' and strings without a digit where the number should begin give 0 |
| CStdlib.AtoiIntText | include/kernel/kstd/cstdlib.hpp:55-76 | `atoi` reads back every integer that the `%d` conversion prints |
| CStdlib.NextState | include/kernel/kstd/cstdlib.hpp:132 | the next state is a `u64` |
| CStdlib.Output | include/kernel/kstd/cstdlib.hpp:133 | the result of `rand` is below `RAND_MAX` |
| CStdlib.OutputRange | include/kernel/kstd/cstdlib.hpp:126-134 | every value below `RAND_MAX` comes out of `rand` for some state |
| CStdlib.Generator.constructor | include/kernel/kstd/cstdlib.hpp:122 | `next` starts at 1 |
| CStdlib.Generator.Rand | include/kernel/kstd/cstdlib.hpp:130-134 | `next` takes one step of the generator and the result is the output for the new `next`, in 0..RAND_MAX - 1 |
| CStdlib.Generator.Srand | include/kernel/kstd/cstdlib.hpp:141-144 | `next` becomes the seed |
| Printk.Pow16Values | kstd/stdio/vsnprintk.cpp:229 | sixteen to the 8th and 16th powers are the sizes of `u32` and `u64`, the ranges eight and sixteen hexadecimal digits cover |
| Printk.S32 | kstd/stdio/vsnprintk.cpp:376-377 | an argument read as `int` lies in the `s32` range, is unchanged when it already does, and differs from the original by a multiple of 2^32 |
| Printk.CharOf | kstd/stdio/vsnprintk.cpp:362-364 | a `%c` argument becomes the character of its low 8 bits |
| Printk.IntTextValue | kstd/stdio/vsnprintk.cpp:266-296 | the text `print_int` writes reads back as `n`, starts with '-' exactly when `n` is negative, and is otherwise decimal digits without a NUL |
| Printk.PtrTextValue | kstd/stdio/vsnprintk.cpp:226-240 | a non-null pointer prints as "0x" and hexadecimal digits that denote it, the first of them not '0' |
| Printk.HexTextLow | kstd/stdio/vsnprintk.cpp:323-351 | without the `#` flag a non-zero number prints as hexadecimal digits denoting its low 32 bits, and as nothing at all exactly when those bits are zero |
| Printk.HexSplit | kstd/stdio/vsnprintk.cpp:333-345 | the eight padded digits are a run of zeros followed by the digits of the low 32 bits, the first of which is not '0' |
| Printk.NulIndex | kstd/stdio/vsnprintk.cpp:366-370 | the index of the first NUL, or the length when there is none |
| Printk.UntilNul | kstd/stdio/vsnprintk.cpp:366-370 | what a `%s` argument contributes has no NUL inside |
| Printk.Terminated | kstd/stdio/vsnprintk.cpp:196-199 | a string without NUL followed by its terminator reads back as itself |
| Printk.Convert | kstd/stdio/vsnprintk.cpp:353-392 | a conversion that reads an argument only reads one that is present |
| Printk.StepOf | kstd/stdio/vsnprintk.cpp:398-412 | each turn of the parse loop moves on by one to three characters and reads at most one argument |
| Printk.Then | kstd/stdio/vsnprintk.cpp:394-414 | the output is defined after a turn exactly when the rest of it is |
| Printk.ThenThen | kstd/stdio/vsnprintk.cpp:394-414 | output of consecutive turns concatenates in order |
| Printk.RenderPlain | kstd/stdio/vsnprintk.cpp:411-412 | a format run without '%' is copied to the output unchanged |
| Printk.RenderPercent | kstd/stdio/vsnprintk.cpp:353-412 | "%%" prints one '%', and a lone '%' at the end of the format is copied |
| Printk.RenderUnknown | kstd/stdio/vsnprintk.cpp:353-392 | a conversion letter that is none of `%cspdiuxX` prints nothing and reads no argument |
| Printk.RenderHash | kstd/stdio/vsnprintk.cpp:307-404 | "%#x" and "%#X" print "0x" and the hexadecimal digits of the argument, and the flag is clear afterwards |
| Printk.HashTurn | kstd/stdio/vsnprintk.cpp:400-404 | the turn at "%#x" reads one argument, moves on by three characters and leaves the flag clear |
| Printk.UtoaLen | kstd/stdio/vsnprintk.cpp:156-171 | `utoa_len` is the number of characters `print_uint` prints: 1 for zero, else the number of decimal digits |
| Printk.ItoaLen | kstd/stdio/vsnprintk.cpp:244-264 | `itoa_len` is the number of characters `print_int` prints, the '-' included |
| Printk.Dtoh | kstd/stdio/vsnprintk.cpp:203-209 | a 4-bit value becomes the lower-case hexadecimal digit denoting it, '0'..'9' exactly for values below 10 |
| Printk.Nibble | kstd/stdio/vsnprintk.cpp:233-237 | `(p >> i) & 0xf` is below 16 |
| Printk.ShrStep | kstd/stdio/vsnprintk.cpp:233-238 | shifting by four more bits divides by 16 |
| Printk.Printer.constructor | kstd/stdio/vsnprintk.cpp:136-146 | nothing is written and the `#` flag is clear |
| Printk.Printer.Init | kstd/stdio/vsnprintk.cpp:136-146 | `pinfo_init` empties the output and clears the `#` flag |
| Printk.Printer.Append | kstd/stdio/vsnprintk.cpp:149-153 | `buf_append` adds exactly `c` to the output |
| Printk.Printer.AppendString | kstd/stdio/vsnprintk.cpp:366-370 | appends the characters of the C string before its terminator |
| Printk.Printer.PrintUint | kstd/stdio/vsnprintk.cpp:173-200 | appends the decimal digits of `n` without leading zeros, "0" for zero |
| Printk.Printer.PrintInt | kstd/stdio/vsnprintk.cpp:266-296 | appends '-' for a negative `n` and then the decimal digits of its magnitude, for every `s32` including the smallest |
| Printk.Printer.FillInt | kstd/stdio/vsnprintk.cpp:276-290 | the buffer holds the text of `n` and a terminator |
| Printk.FillDigits | kstd/stdio/vsnprintk.cpp:184-188 | the digit loop writes the low decimal digits of `n` right to left and leaves the quotient for the first digit |
| Printk.Printer.AppendDigits | kstd/stdio/vsnprintk.cpp:292-295 | the output loop appends the characters before the buffer's terminator |
| Printk.Printer.PrintPtr | kstd/stdio/vsnprintk.cpp:211-241 | appends "(nil)" for null, otherwise "0x" and the lower-case hexadecimal digits of `p` without leading zeros |
| Printk.SkipZeroNibbles | kstd/stdio/vsnprintk.cpp:229-234 | the skip loop stops at the highest non-zero nibble of a non-null pointer |
| Printk.Printer.AppendNibbles | kstd/stdio/vsnprintk.cpp:236-240 | the print loop appends the hexadecimal digits from that nibble down |
| Printk.Printer.PrintHex | kstd/stdio/vsnprintk.cpp:307-351 | appends "0x" when the flag is set and clears the flag, then "0" for zero, else the digits of the low 32 bits without leading zeros |
| Printk.Printer.FillHex | kstd/stdio/vsnprintk.cpp:333-341 | `hex` holds the eight low hexadecimal digits and a terminator |
| Printk.Printer.SkipZeros | kstd/stdio/vsnprintk.cpp:342-345 | the skip loop stops at the first digit other than '0' |
| Printk.Printer.AppendHex | kstd/stdio/vsnprintk.cpp:333-350 | appends the digits of the low 32 bits without leading zeros |
| Printk.Printer.PrintArgs | kstd/stdio/vsnprintk.cpp:353-392 | appends what the conversion prints, sets the flag as the conversion leaves it and reports how many arguments it read |
| Printk.Printer.Step | kstd/stdio/vsnprintk.cpp:398-412 | one turn of the parse loop appends that turn's text and moves the format index and argument index on |
| Printk.Printer.Parse | kstd/stdio/vsnprintk.cpp:394-414 | appends the rendering of the whole format |
| Printk.PaddedNumeral | kstd/stdio/vsnprintk.cpp:177-190 | a number padded to its own digit count is its numeral, which has no NUL |
| Printk.FirstDigitText | kstd/stdio/vsnprintk.cpp:281-288 | for a non-negative number, the first digit stored after the digit loop completes its decimal text |
| Printk.NegativeText | kstd/stdio/vsnprintk.cpp:276-285 | for a negative number, the '-' and the digit loop's output make its text |
| Printk.IntTextAsWritten | kstd/stdio/vsnprintk.cpp:266-296 | `print_int` as written yields at least one character |
| Printk.IntMinAsWritten | kstd/stdio/vsnprintk.cpp:276-288 | as written, the smallest `s32` prints as "-" alone |
| Printk.StaleMinusAsWritten | kstd/stdio/vsnprintk.cpp:287-288 | as written, a non-negative number whose buffer happens to start with '-' prints with a '-' |
| Printk.AsWrittenAgrees | kstd/stdio/vsnprintk.cpp:266-296 | for every other `s32`, when the buffer does not start with '-', `print_int` as written prints the intended text |
| Printk.RenderStep | kstd/stdio/vsnprintk.cpp:396-413 | the output for the format from `i` is that turn's text followed by the output from where the turn goes on |
| Base.LeBytes | src/arch/x86/cpu.rs:56-58 | a register's four bytes, least significant first, read back as the register |
| Numerals.DigitOf | kstd/stdio/vsnprintk.cpp:309-310 | the digit character denotes `d`, and is one of '0'..'9' exactly for `d` below 10 |
| Numerals.Numeral | kstd/stdio/vsnprintk.cpp:162-163 | a printed number has at least one character |
| Numerals.DigitsValue | kstd/stdio/vsnprintk.cpp:184-190 | the digits of `n` denote `n` |
| Numerals.DigitsLead | kstd/stdio/vsnprintk.cpp:196-199 | the digits of a positive `n` have no leading zero |
| Numerals.NumeralValue | kstd/stdio/vsnprintk.cpp:173-200 | a printed number is made of base-`b` digits, denotes `n`, and has no leading zero unless it is "0" |
| Numerals.DecimalLength | kstd/stdio/vsnprintk.cpp:156-171 | the digit count `L` of a positive `n` is the one with 10^(L-1) <= n < 10^L |
| Numerals.Padded | kstd/stdio/vsnprintk.cpp:333-339 | the fixed-width digit loop writes exactly `l` characters |
| Numerals.LowMod | kstd/stdio/vsnprintk.cpp:333-339 | the last `l` digits denote `n` modulo `b^l`, so eight hexadecimal digits keep the low 32 bits |
| Numerals.PaddedSplit | kstd/stdio/vsnprintk.cpp:333-345 | fixed-width digits are a run of zeros followed by the digits of the number they denote |
| Numerals.PaddedDigits | kstd/stdio/vsnprintk.cpp:177-190 | padding a number to its own digit count adds no zeros |

## Left out

- Hardware instructions and port I/O are not modelled. This covers the `cpuid` asm (src/arch/x86/cpu.rs:31-45), `gdt_flush` and the `lgdt` it runs, and the `inb` busy-wait loop of the keyboard. Their results are parameters instead: register values, the two port bytes, the table's address.
- The driver `init` functions are not modelled. The gfx `init` only logs the framebuffer and the keyboard `init` does nothing.
- src/kernel/gfx/font.rs is not part of this model. The glyph size is taken as 8x16 (the `MASK` table has eight entries) and the font bitmap is a parameter of `Gfx.DrawChar`.
- Framebuffer memory is an array of 32-bit pixels. The raw-pointer address arithmetic and the 24-bit modes are not modelled.
- Gfx.DrawChar: requires the last pixel written to lie in the framebuffer memory and y to be non-negative. `put_char` issues a draw at y = -16 (backspace on the top row), which the source turns into a huge `usize` index; writes outside the framebuffer memory are not modelled.
- Gfx.FillScreen: requires at least four pixels, because `total_pixels - 4` underflows for a smaller screen.
- Term.ScrollScreen: models the scroll the code evidently intends, one text row of pixels on a screen of width * height pixels. The size as written is kept in `Term.ScrollSizeAsWritten` (see Findings).
- Graphics.Graphics.DrawRectangle, Graphics.Graphics.DrawSquare, Graphics.Graphics.DrawLine, Graphics.Graphics.DrawCircle, Graphics.Graphics.DrawTriangle: compute with unbounded integers. The source's `s32` sums and differences (`x + width`, `x + side`, `cx ± y`, `3 - 2 * r`, the decision and error updates) can overflow, which C++ leaves undefined; the model computes them as mathematical integers, which agree with the source only where nothing overflows.
- Graphics.Graphics.GetPixel: requires an on-screen point. The source reads the pixel at `y * width + x` without a bounds check.
- Keyboard.Driver.GetLine: takes a finite sequence of key events. When no key ends the line, the source keeps polling forever; the model stops when the events run out and makes no claim about that case.
- Pmm.PhysicalMemoryManager.constructor: models the state after `initialize` up to the `memset` (kernel/mm/pmm.cpp:93-97). It requires the bitmap to hold the max / 8 bytes the `memset` writes. The parsing of the multiboot memory map by `initialize` and `get_memory` is not modelled, and the call to `region_init` is `Pmm.PhysicalMemoryManager.RegionInit`.
- Pmm.PhysicalMemoryManager.Probe: a probe past the end of the bitmap counts as used. There `test_block` reads memory past the map, whose contents the model does not know.
- Pmm.PhysicalMemoryManager.FindFirstFreeBlocks: probe block numbers are not reduced modulo 2^32. The `s32`/`u32` sum `start_bit + count` wraps only past block 2^32, far beyond any bitmap. For n = 0xFFFFFFFF the source's `count <= n` loop never ends; the model's `BlocksAlloc` requires n to be a `u32` and its probe loop stops after n + 1 probes.
- The page-table code of vmm.cpp is not modelled: `map_page`, `init`, CR3 and paging enable. Only the macros of include/nos/vmm.hpp are modelled.
- `kmalloc` and `kfree` are not modelled. The ramdisk's file data are byte sequences of fixed size, and a fresh slot's data are zero where the heap would give whatever it holds.
- The ramdisk's `opendir`, `get_count`, `get_adapter` and `free` are not modelled. They only hand out the table or release it.
- Sort.Swap: moves whole elements. The byte-wise `memcpy` copies of `__swap` as written are kept in `Sort.SwapBytesAsWritten` (see Findings).
- Sort.InsertionSort, QuickSort.QuickSort, HeapSort.HeapSort, QSort.QSort: move whole elements. The source copies them with `memcpy` (kstd/stdlib/sort.cpp:61, 75-77, 161-166, and `__swap` for the heap sort), which stops at the first zero byte; the model does not lose the bytes after it.
- The comparator of `qsort` is modelled as the comparison of an integer key `key`. Elements of other sizes are generic values.
- QSort.QSort: the floating-point `depth_limit = 2 * log(size)` is passed in as `depthLimitZero`, since `log` is floating point. The elements are `int` values.
- HeapSort.HeapSort: requires at least one element. For zero elements `nmemb - 1` underflows and the source swaps at an index far past the array.
- RadixSort.RadixSort: requires at least one element, because the source reads `arr[0]`. It also requires non-negative values, since a negative digit index would read outside `count`. The overflow of `exp *= 10` past 10^9 is not modelled.
- The `vsnprintk` output is an unbounded sequence. `buf_append` never checks `size` against the buffer, so no bound is modelled.
- `xtoa_len` and its floating-point `log` are not modelled. It only sizes `print_hex`'s array; the model uses the nine characters the digit loop fills.
- Printk.Printer.PrintUint and Printk.Printer.FillInt: give the digit buffer room for its terminator. The source declares `utoa_len(n)` and `itoa_len(n)` characters and writes the terminator one past them.
- Printk.Printer.Parse: requires that every conversion finds an argument of its kind. `va_arg` on a missing or mistyped argument is undefined. The arguments are numbers or C strings, not i386 stack words of particular widths.
- Printk.Printer.Parse: does not state the `#` flag after the walk.
- A "%#" at the very end of the format is not modelled: there the source steps past the terminator. `Printk.Rest` ends the walk at that point.
- `vsnprintk` itself is not modelled. It panics on a null or empty format and then runs `pinfo_init` and `parse`, which are `Printk.Printer.Init` and `Printk.Printer.Parse`.
- `khalt` and `panic` are not modelled.
- `atof` is not modelled, because it is floating point.
- CStdlib.Atoi: models the signed overflow of the accumulator as 32-bit wrap-around. In C++ that overflow is undefined.
- CStdlib.Generator.Srand: takes the seed as a `u32`, as the source's parameter type does. That equal seeds give equal sequences follows from `Rand` being a function of `next` alone.
- Ls: covers only `get_type` and `get_mode`. The rest of the `ls` command is shell glue.

## Findings

| source | as written | input that shows it | evidently intended | confidence | as-written member | corrected member |
|---|---|---|---|---|---|---|
| src/kernel/gfx/terminal.rs:38 | `size = height * pitch` counts bytes but is used as a count of `u32` pixels | 1024x768 at 32 bits per pixel, pitch 4096: 3145728 pixels are moved in a 786432-pixel screen | move `height * width` pixels up by one text row | high, not executed | Term.ScrollSizeOverrun | Term.ScrollScreen |
| kernel/mm/pmm.cpp:68 | `start_bit = i * 32 + (1 << j)` probes from the bit mask instead of the bit index | word 0xFFFFFFF2, two blocks: the answer is block 0 although block 1 is used | probe from block `i * 32 + j` and return the first block starting n free blocks | high, not executed | Pmm.FirstFreeAsWrittenOverlaps | Pmm.FirstRunIsFirst |
| kstd/stdlib/sort.cpp:38-40 | `__swap` copies elements with `memcpy`, which stops at the first zero byte | one-byte elements 5 and 0: both hold 5 afterwards | exchange the two elements byte for byte | high, not executed | Sort.SwapBytesLosesZero | Sort.Swap |
| kstd/stdio/vsnprintk.cpp:278 | `n = -n` overflows for the smallest `s32`, and `itoa_len` counts only the sign | -2147483648 prints as "-" | print "-2147483648" | high, not executed | Printk.IntMinAsWritten | Printk.Printer.PrintInt |
| kstd/stdio/vsnprintk.cpp:287-288 | the first digit of a non-negative number is stored only if the uninitialised `int_buffer[0]` is not '-' | 7 with a stale '-' in `int_buffer[0]` prints as "-" | store the first digit whenever `n` was not negative | medium, not executed | Printk.StaleMinusAsWritten | Printk.Printer.PrintInt |
| fs/initrd.cpp:287, include/kernel/fs/initrd.hpp:52-53 | a 64-byte `name` has no NUL in its array, so `strncmp(name, path, 1024)` reads on into `data`, which follows it | `creat` of a 64-byte path P, `open`, `write` "xyz", `close`: `get_index(P)` gives -1 and `get_index(P + "xyz")` finds the file | compare the stored name up to 64 bytes, so a file stays found by its name whatever it holds | high, not executed | Initrd.FullNameRunsIntoData | Initrd.IntendedNameKept |
