# A Dafny model of the iPXE core

This project models, in Dafny, the parts of this iPXE tree whose correctness is hardest to see from the code,
and proves for all inputs, runs and reachable states what they are meant to guarantee. Code that works in
place is modelled in place: classes with the program's own fields, arrays that are overwritten, the program's
loops, each proved against a short specification about which the main theorems are then proved.

| files | what they cover |
|---|---|
| HeapModel, HeapTilings, HeapSafety, HeapRuns, HeapTheorems, HeapLeaks, Malloc, IoBuffer | the allocator, malloc and I/O buffers. The address space is a ghost tiling in which every address has one owner |
| Gf256, AesTables, AesCipher, Aes | AES from the field arithmetic behind the generated tables up to the key schedule and both directions |
| BigNum, BigInt, Dhe | big integers over 32-bit elements, modular multiplication and exponentiation, Diffie-Hellman |
| PassThrough, Closing, Interface | object interfaces and reference counts, with pass-through objects and close handlers that re-enter the web; the recursion of closing as one list of steps |
| SettingsTree, SettingsOrder, SettingsChanges, SettingsPruning, Settings | the settings tree and its order |
| SanPaths, SanCommands, SanDevice, SanRead | multipath SAN devices as a state machine, commands and their retries, fragmented reads with override ranges |
| Asn1 | cursors over arbitrary bytes and the builder |
| KeyWrap, Cbc | RFC 3394 key wrapping and cipher block chaining over any block permutation |
| Time, LineBuffer, Base64, Base16, Isqrt, Random | calendar, line splitting, text encodings, integer square root, random numbers |
| Arith, Bits, Lists, Options | shared arithmetic, bitwise operators on natural numbers, list removal, optional values |

`dafny verify dfyconfig.toml` checks all of it.

## What the code does not guarantee

Where a promise in a comment or the obvious reading of the code fails, the model keeps the code's behaviour and
an if-and-only-if states when the promise holds. Where the failing inputs do not follow from it at once, a lemma or
method shows one.

- malloc.c says that fragments leak only at the ends of the heap. This holds exactly when all offsets in use are
  congruent modulo the block size (HeapLeaks.LeaksExactly, HeapLeaks.InteriorLeak).
- Freeing a block just allocated restores the free list if and only if no fragment was leaked
  (HeapTheorems.FreeRestoresFreeList).
- mpopulate with less than one block puts an empty block on the free list unless the region touches a free block
  (HeapTheorems.ShortRegion).
- bigint_mod_exp gives 1, not 0, for exponent 0 and modulus 1 (BigInt.ModPowerIsPower), which is the only
  way in which two parties of dhe_key can disagree (Dhe.Agreement).
- The search for a handler through pass-through interfaces need not end (PassThrough.NeverEnds,
  PassThrough.EndsExactly); which plugs keep it finite is stated by PassThrough.PlugExactly.
- The `order` key can put a settings block ahead of one with a higher priority (SettingsOrder.OrderKeyExample,
  Settings.RightPlaceExactly).
- unregister_settings does not restore the order of what contained the block
  (SettingsPruning.PruningDisturbsExample, SettingsPruning.SortedAfterPruning).
- register_settings with an empty name takes the parent out of the tree (Settings.Registry.Register).
- sandev_reopen can report success without an active path on every device with at least two paths
  (SanPaths.SuccessIsSafe, SanPaths.SuccessWithoutPathExample), in which case sandev_command would go on without
  one: the outcome NoActivePath of SanDevice.Device.Command.
- A command that has already succeeded is retried if the step that completes it also loses its path
  (SanCommands.LossOverrules; SanCommands.SingleEnds for one event a step).
- sandev_rw reads less than asked when the shifted block count exceeds 32 bits (SanRead.RemainingExact,
  SanRead.RemainingExample).
- asn1_skip_if_exists is documented to leave the cursor alone on error and does so only when there was no object
  of that type (Asn1.Cursor.SkipIfExists, Asn1.SkipErrorExample). asn1_grow sets out to make failures permanent and
  does so only for a builder that is not empty (Asn1.Builder.Grow, Asn1.GrowErrorExample).
- asn1_start does not return lengths of 2^31 and more (Asn1.HeaderExactly).
- aes_wrap with one buffer for source and destination wraps something else (KeyWrap.InPlaceIsWrong,
  KeyWrap.InPlaceExample), and its step counter is that of RFC 3394 up to step 255 only (KeyWrap.TweakExactly).
- line_buffer returns a size as an int (LineBuffer.IntExactly), and the encoders count in an unsigned int
  (Base64.EncodingEnds, Base16.EncodingEnds).
- random returns 0, and reseeds next time, for the seeds congruent to 2147483563 or -2147483563
  (Random.Generator.Random).
- The comment on aes_double names another polynomial than the code uses; the code's is the AES polynomial.

## Model

| member | source | states |
|---|---|---|
| HeapTheorems.EveryRunIsSafe | iPXE/ipxe-bd13697/src/core/malloc.c:205-499 | after any legal run of hand-overs, allocations, frees and cache retentions from the empty heap: the free list is sorted, coalesced and has no block below the minimum; every address has exactly one owner (outside, free, used, cached or leaked); usedmem and freemem are the exact byte totals of their owners and together come to exactly what was handed over; maxusedmem is the most that was in use in any state of the run |
| HeapTheorems.RunKeeps | iPXE/ipxe-bd13697/src/core/malloc.c:279-660 | every run from every valid heap keeps the invariant and changes freemem + usedmem by exactly the memory handed over in it |
| HeapTheorems.StepKeeps | iPXE/ipxe-bd13697/src/core/malloc.c:279-660 | one step: the same, with the change of the grand total by case |
| HeapTheorems.RunPeak | iPXE/ipxe-bd13697/src/core/malloc.c:361-365 | over any run the high-water mark is the maximum of its start and the bytes in use in every state |
| HeapLeaks.LeaksExactly | iPXE/ipxe-bd13697/src/core/malloc.c:335-360 | over all runs from the empty heap that are handed one region: leaks happen only at the ends of the region, as the comment says, if and only if all the offsets asked for are congruent modulo the block size |
| HeapLeaks.OffsetExactly | iPXE/ipxe-bd13697/src/core/malloc.c:335-360 | next to the usual offset zero, an offset keeps the promise if and only if it is a multiple of the block size |
| HeapLeaks.LeaksOnlyAtTheEnds | iPXE/ipxe-bd13697/src/core/malloc.c:335-360 | with congruent offsets, whatever the run, the fragments leaked at the two ends total at most one minimum block |
| HeapLeaks.InteriorLeak | iPXE/ipxe-bd13697/src/core/malloc.c:335-360 | for every two offsets that are not congruent and every region with room for two blocks, the run from the empty heap that asks for one at each leaks a fragment between them |
| HeapTheorems.FreeRestoresFreeList | iPXE/ipxe-bd13697/src/core/malloc.c:315-372 | freeing a block just allocated gives back exactly the former free list if and only if neither fragment was leaked |
| HeapTheorems.FreeUndoesCarve | iPXE/ipxe-bd13697/src/core/malloc.c:404-499 | when no fragment is leaked, freeing restores the whole heap apart from the high-water mark |
| HeapRuns.AllocMemblockKeeps | iPXE/ipxe-bd13697/src/core/malloc.c:279-394 | for every request: the invariant is kept; a zero or overflowing size changes nothing and fails; otherwise the block is new, overlaps no held block and is placed as asked, and NULL is returned only when, with the whole cache discarded, no free block can hold the aligned request |
| HeapRuns.AllocateKeeps | iPXE/ipxe-bd13697/src/core/malloc.c:315-388 | the search with discard-and-retry: terminates with the cached items as measure and meets the above |
| HeapRuns.AllocAligned | iPXE/ipxe-bd13697/src/core/malloc.c:311-331 | a returned physical address is congruent to the offset modulo the alignment |
| HeapRuns.RefusedOnly | iPXE/ipxe-bd13697/src/core/malloc.c:295-388 | NULL is returned exactly for a size of zero or one that overflows, and otherwise only when everything cached has been discarded and no free block can hold the aligned request; a block that could from the start rules it out |
| HeapRuns.DiscardKeeps | iPXE/ipxe-bd13697/src/core/malloc.c:242-252 | a discard uses up one cached item, takes nothing from a caller, and conserves the total |
| HeapRuns.HandOverKeeps | iPXE/ipxe-bd13697/src/core/malloc.c:648-660 | mpopulate adds exactly the rounded length to freemem although it goes through free_memblock and patches usedmem afterwards, wrapping or not |
| HeapSafety.FreeKeeps | iPXE/ipxe-bd13697/src/core/malloc.c:404-499 | freeing a held block keeps the invariant and moves exactly its rounded size from used to free |
| HeapSafety.FreeKeepsShape | iPXE/ipxe-bd13697/src/core/malloc.c:450-491 | exactly the freed block leaves the set of held blocks; sortedness and coalescing survive |
| HeapSafety.CarveKeeps | iPXE/ipxe-bd13697/src/core/malloc.c:323-365 | splitting a free block adds exactly the new held block and keeps the invariant and the counters |
| HeapTilings.ReleaseFreeList | iPXE/ipxe-bd13697/src/core/malloc.c:450-491 | the insert-and-merge walk of the list is what marking the memory free and joining its free neighbours does to the tiling |
| HeapTilings.FreeListWellFormed | iPXE/ipxe-bd13697/src/core/malloc.c:205-235 | the free list of a coalesced tiling is sorted with no touching neighbours |
| HeapTilings.OneOwner | iPXE/ipxe-bd13697/src/core/malloc.c:205-235 | every address of the tiled range lies in exactly one tile |
| HeapTilings.BytesTotal | iPXE/ipxe-bd13697/src/core/malloc.c:361-365 | the byte totals of the five kinds of owner add up to the range |
| HeapModel.RoundUpMeaning | iPXE/ipxe-bd13697/src/core/malloc.c:299-310 | the rounded size is the least sufficient multiple of the block size, and zero exactly for zero or overflow |
| HeapModel.MaskIsGranule | iPXE/ipxe-bd13697/src/core/malloc.c:311-319 | masking the wrapped distance with (align - 1) or (block size - 1) is reduction modulo the effective alignment |
| HeapModel.PreAligns | iPXE/ipxe-bd13697/src/core/malloc.c:318-319 | the skipped distance leads to an aligned address, and no shorter one does |
| Malloc.Allocator.CheckBlocks | iPXE/ipxe-bd13697/src/core/malloc.c:205-235 | the check compares neighbours only and yet accepts exactly the lists in which all pairs are ordered and separated |
| Malloc.Allocator.AlwaysWellFormed | iPXE/ipxe-bd13697/src/core/malloc.c:205-235 | it passes in every valid state |
| Malloc.Allocator.AllocMemblock | iPXE/ipxe-bd13697/src/core/malloc.c:279-394 | the code with masks and loops, in place, computes the allocation function and keeps the invariant |
| Malloc.Allocator.TryAllocate | iPXE/ipxe-bd13697/src/core/malloc.c:315-388 | one search: done, or one cached item fewer with the outcome of the whole search unchanged |
| Malloc.Allocator.FindBlock | iPXE/ipxe-bd13697/src/core/malloc.c:317-323 | the masked test finds the first block that fits, and the distance to skip in it |
| Malloc.Allocator.SplitBlock | iPXE/ipxe-bd13697/src/core/malloc.c:329-360 | linking the remainder and shrinking or unlinking the front leaves the two fragments that are large enough, in place |
| Malloc.Allocator.FreeMemblock | iPXE/ipxe-bd13697/src/core/malloc.c:404-499 | the code in place computes the freeing function; the shape needs no correct counters, which is what mpopulate relies on |
| Malloc.Allocator.InsertAndMerge | iPXE/ipxe-bd13697/src/core/malloc.c:450-491 | the list walk with its two gaps computes insertion with merging on both sides |
| Malloc.Allocator.DiscardCache | iPXE/ipxe-bd13697/src/core/malloc.c:242-252 | zero exactly when nothing was cached |
| Malloc.Allocator.DiscardAllCache | iPXE/ipxe-bd13697/src/core/malloc.c:258-264 | terminates with an empty cache and every caller's block in place |
| Malloc.Allocator.MallocPhys | iPXE/ipxe-bd13697/src/include/ipxe/malloc.h:44-51 | what a caller may rely on: the heap and the pointer are those of the allocation function; exactly one new block, nobody else's, aligned; NULL leaves every block in place and means that the size is zero or overflows or that nothing cached is left and no free block can hold the request |
| Malloc.Allocator.FreePhys | iPXE/ipxe-bd13697/src/include/ipxe/malloc.h:77-80 | takes back exactly the caller's block, and puts it on the free list |
| Malloc.Allocator.Mpopulate | iPXE/ipxe-bd13697/src/core/malloc.c:648-660 | computes the hand-over of at least one block and keeps the invariant |
| HeapTheorems.ShortRegion | iPXE/ipxe-bd13697/src/core/malloc.c:648-660 | with less than one block the free list stays well-formed, and is then unchanged, if and only if the region touches a free block; otherwise an empty block appears on it |
| Malloc.MallocHeap.Realloc | iPXE/ipxe-bd13697/src/core/malloc.c:521-572 | fails only when the size overflows or there is no room, and then nothing is touched; otherwise the old pointer is gone and the new one, which nobody had, holds the old bytes up to the smaller size; the set of blocks changes by exactly these two, and the heap is that after one allocation and one freeing |
| Malloc.MallocHeap.Malloc | iPXE/ipxe-bd13697/src/core/malloc.c:583-592 | one new block of the size asked for, or nothing, and nothing only when the size overflows or there is no room |
| Malloc.MallocHeap.Free | iPXE/ipxe-bd13697/src/core/malloc.c:604-611 | exactly the block behind the pointer is given back, to the free list |
| Malloc.MallocHeap.TakePhys | iPXE/ipxe-bd13697/src/core/iobuf.c:85-106 | memory taken from the heap directly is none of malloc's, and is refused only without room |
| IoBuffer.IoBuffers.BranchIsDetermined | iPXE/ipxe-bd13697/src/core/iobuf.c:160-171 | the test end == iobuf in free_iob holds exactly for inline descriptors: a detached one can never lie where the buffer ends |
| IoBuffer.IoBuffers.AllocIobRaw | iPXE/ipxe-bd13697/src/core/iobuf.c:48-118 | the buffer is at least as long as asked, aligned with its offset to the rounded power of two, and takes exactly its own blocks; the inline descriptor is itself aligned and does not cross the alignment boundary; inline exactly when the length is within the threshold; NULL only when the alignment overflows or there is no room for the one block or, detached, for the buffer or for the descriptor beside it |
| IoBuffer.IoBuffers.AllocIob | iPXE/ipxe-bd13697/src/core/iobuf.c:129-139 | physically aligned on its own size rounded up, at least the minimum length; NULL only as above |
| IoBuffer.IoBuffers.FreeIob | iPXE/ipxe-bd13697/src/core/iobuf.c:146-172 | gives back exactly the one or two blocks the allocation took, to the free list |
| IoBuffer.IoBuffers.PadLength | iPXE/ipxe-bd13697/src/core/iobuf.c:85-88 | the least padding that aligns the descriptor behind the buffer |
| Aes.RoundTrip | iPXE/ipxe-bd13697/src/crypto/aes.c:398-460 | for every 128-, 192- or 256-bit key and every block, the inverse cipher with the expanded keys undoes the cipher |
| Aes.Context.SetKey | iPXE/ipxe-bd13697/src/crypto/aes.c:681-780 | fails exactly for other key lengths and then changes nothing; otherwise the encryption keys are the FIPS-197 expansion, byte by byte as below, and the decryption keys its inversion for the equivalent inverse cipher |
| Aes.Context.Encrypt | iPXE/ipxe-bd13697/src/crypto/aes.c:398-424 | the table-driven code computes the FIPS-197 cipher, also in place |
| Aes.Context.Decrypt | iPXE/ipxe-bd13697/src/crypto/aes.c:434-460 | the table-driven code computes the FIPS-197 inverse cipher, also in place |
| Aes.ExpandKey | iPXE/ipxe-bd13697/src/crypto/aes.c:719-756 | every column of the in-place expansion is the one section 5.2 of FIPS-197 prescribes; in bytes: the key itself, then byte j of a column is that of the column nk before, combined with the substituted byte j + 1 (cyclically) of the last column and the round constant at the start of a block, with the substituted byte j in the middle of a 256-bit block, and with byte j elsewhere |
| Aes.ExpandedBytes | iPXE/ipxe-bd13697/src/crypto/aes.c:634-756 | the same recurrence over bytes for every column that the expansion defines |
| Aes.RoundConstants | iPXE/ipxe-bd13697/src/crypto/aes.c:688-741 | the ten round constants are 01, 02, 04, 08, 10, 20, 40, 80, 1b, 36 |
| Aes.MiddleColumn | iPXE/ipxe-bd13697/src/crypto/aes.c:732-733 | the test offset or keylen == 48 picks exactly the middle column of a 256-bit key block |
| Aes.KeySBox | iPXE/ipxe-bd13697/src/crypto/aes.c:646-657 | byte-wise substitution of a column by repeated rotation |
| Aes.InvertedKey | iPXE/ipxe-bd13697/src/crypto/aes.c:764-774 | a final encryption round followed by one decryption round, both with a zero key, is InvMixColumns |
| Aes.InvertKeys | iPXE/ipxe-bd13697/src/crypto/aes.c:760-775 | the decryption schedule: reversed, the inner keys through InvMixColumns |
| Aes.IntermediateRounds | iPXE/ipxe-bd13697/src/crypto/aes.c:278-336 | with an odd number of rounds, the two buffers that take turns leave the composed rounds in the second |
| Aes.OneRound | iPXE/ipxe-bd13697/src/crypto/aes.c:251-263 | four table lookups per column make one round |
| Aes.FinalRoundWith | iPXE/ipxe-bd13697/src/crypto/aes.c:362-388 | the last round without mixing |
| AesCipher.DecryptEncrypt | iPXE/ipxe-bd13697/src/crypto/aes.c:278-336 | for any round keys, the equivalent inverse cipher with inverted keys undoes the cipher |
| AesCipher.EquivalentIsInverse | iPXE/ipxe-bd13697/src/crypto/aes.c:320-336 | section 5.3.5 of FIPS-197: the equivalent inverse cipher is the inverse cipher |
| AesCipher.StepBack | iPXE/ipxe-bd13697/src/crypto/aes.c:320-336 | one decryption round with the inverted key steps back over one encryption round |
| AesCipher.TableRound | iPXE/ipxe-bd13697/src/crypto/aes.c:158-239 | a column gathered from the tables with a stride is the column of substitution, row shift, mixing and key addition |
| AesCipher.Strides | iPXE/ipxe-bd13697/src/crypto/aes.c:173-212 | strides 5 and -3 modulo 16 are the row shift and its inverse |
| AesCipher.InvMixMix | iPXE/ipxe-bd13697/src/crypto/aes.c:522-566 | InvMixColumns undoes MixColumns |
| AesCipher.InvMixLinear | iPXE/ipxe-bd13697/src/crypto/aes.c:765-773 | InvMixColumns distributes over key addition |
| AesTables.Tables.Generate | iPXE/ipxe-bd13697/src/crypto/aes.c:572-625 | the generated tables hold, for every byte, the FIPS-197 S-box, its inverse, and the mixed columns |
| AesTables.Tables.FillSBox | iPXE/ipxe-bd13697/src/crypto/aes.c:580-609 | the generator loop terminates after having visited every non-zero byte once, and fills in the S-box |
| AesTables.Tables.MixColumnsEntry | iPXE/ipxe-bd13697/src/crypto/aes.c:493-513 | the entry for a byte holds its multiples by 2, 1, 1, 3 |
| AesTables.Tables.InvMixColumnsEntry | iPXE/ipxe-bd13697/src/crypto/aes.c:522-566 | the entry for a byte holds its multiples by 14, 9, 13, 11 |
| AesTables.Tables.Prepare | iPXE/ipxe-bd13697/src/crypto/aes.c:695-697 | the zeroth S-box byte tells reliably whether the tables exist |
| Gf256.SBoxPermutation | iPXE/ipxe-bd13697/src/crypto/aes.c:598-620 | the S-box is a permutation and the stored inverse is its inverse |
| Gf256.InvPowerIsInverse | iPXE/ipxe-bd13697/src/crypto/aes.c:583-596 | invpoly is the field inverse of poly after every number of iterations |
| Gf256.TripleThird | iPXE/ipxe-bd13697/src/crypto/aes.c:586-596 | the six lines from Wikipedia divide by the generator |
| Gf256.PowersDistinct | iPXE/ipxe-bd13697/src/crypto/aes.c:580-606 | the generator visits no non-zero byte twice |
| Gf256.Coverage | iPXE/ipxe-bd13697/src/crypto/aes.c:580-606 | and leaves none out |
| Gf256.Order | iPXE/ipxe-bd13697/src/crypto/aes.c:606 | the loop condition is first met after 255 iterations |
| BigInt.ModMultiply | iPXE/ipxe-bd13697/src/crypto/bigint.c:89-120 | leaves exactly the product modulo the modulus, for all sizes, also when result aliases a factor; a zero modulus leaves truncation to the size |
| BigInt.RescaleAndReduce | iPXE/ipxe-bd13697/src/crypto/bigint.c:94-110 | rescaling and shift-and-subtract give the remainder, also when the product has fewer bits than the modulus |
| BigInt.Reduce | iPXE/ipxe-bd13697/src/crypto/bigint.c:103-110 | the subtraction loop leaves the remainder although its last halving may lose a bit of the modulus |
| BigInt.Rescale | iPXE/ipxe-bd13697/src/crypto/bigint.c:94-101 | the modulus is scaled without loss |
| BigInt.ModExp | iPXE/ipxe-bd13697/src/crypto/bigint.c:133-168 | leaves the power modulo the modulus for every base, exponent and size |
| BigInt.ModPowerIsPower | iPXE/ipxe-bd13697/src/crypto/bigint.c:155-167 | this is base^e mod m if and only if not both m = 1 and e = 0 |
| BigInt.SquareAndMultiply | iPXE/ipxe-bd13697/src/crypto/bigint.c:159-167 | one iteration keeps result * base^exponent modulo the modulus and halves the exponent |
| BigInt.SquareStep | iPXE/ipxe-bd13697/src/crypto/bigint.c:159-167 | the arithmetic of one iteration |
| BigInt.Multiply | iPXE/ipxe-bd13697/src/arch/x86/core/x86_bigint.c:43-96 | the element-wise product is the product of the values; the element behind the result, which is written too, keeps its value |
| BigInt.AddDouble | iPXE/ipxe-bd13697/src/arch/x86/core/x86_bigint.c:78-93 | a double element is added with its carry, which never leaves the result; the addition that is made in any case leaves the element behind as it was |
| BigInt.Rol | iPXE/ipxe-bd13697/src/arch/x86/include/bits/bigint.h:113-127 | doubles modulo the size |
| BigInt.Ror | iPXE/ipxe-bd13697/src/arch/x86/include/bits/bigint.h:136-147 | halves |
| BigInt.Subtract | iPXE/ipxe-bd13697/src/arch/x86/include/bits/bigint.h:85-104 | the difference modulo the size |
| BigInt.IsZero | iPXE/ipxe-bd13697/src/arch/x86/include/bits/bigint.h:157-169 | tells whether the value is zero |
| BigInt.IsGeq | iPXE/ipxe-bd13697/src/arch/x86/include/bits/bigint.h:180-196 | compares the values, deciding at the highest elements that differ |
| BigInt.MaxSetBit | iPXE/ipxe-bd13697/src/arch/x86/include/bits/bigint.h:225-241 | the number of bits of the value |
| BigInt.Grow | iPXE/ipxe-bd13697/src/arch/x86/include/bits/bigint.h:252-270 | keeps the value |
| BigInt.Shrink | iPXE/ipxe-bd13697/src/arch/x86/include/bits/bigint.h:281-295 | keeps the value modulo the smaller size |
| Dhe.Exchange | iPXE/ipxe-bd13697/src/crypto/dhe.c:107-122 | two parties with the same modulus and generator, each given the other's public value, get the same shared secret byte for byte, except exactly when the modulus is one and one private value alone is zero |
| Dhe.Agreement | iPXE/ipxe-bd13697/src/crypto/dhe.c:112-122 | the same on numbers, both directions |
| Dhe.DheKey | iPXE/ipxe-bd13697/src/crypto/dhe.c:53-133 | the error cases exactly; otherwise both outputs have the length of the modulus and denote the two powers |
| Dhe.Init | iPXE/ipxe-bd13697/src/arch/x86/include/bits/bigint.h:26-47 | the array denotes the big-endian byte string |
| Dhe.Done | iPXE/ipxe-bd13697/src/arch/x86/include/bits/bigint.h:306-323 | the byte string denotes the value modulo its length |
| Dhe.ByteValueInjective | iPXE/ipxe-bd13697/src/arch/x86/include/bits/bigint.h:306-323 | equal numbers of equal length are equal byte strings |
| Interface.FreedIsFinal | iPXE/ipxe-bd13697/src/core/refcnt.c:61-91 | under the invariant an object has been freed exactly when nothing is plugged into it and nobody holds it, and never twice |
| Interface.Web.constructor | iPXE/ipxe-bd13697/src/include/ipxe/refcnt.h:52-56 | fresh objects with count zero, held by their creators, satisfy the invariant, and every search for a handler ends |
| Interface.Web.PluggedIsAlive | iPXE/ipxe-bd13697/src/core/interface.c:83-95 | nothing is ever plugged into a freed object |
| Interface.MovePlug | iPXE/ipxe-bd13697/src/core/interface.c:83-95 | replacing a plug moves one reference: taken first, dropped afterwards, the counts stay exact |
| Interface.MoveReference | iPXE/ipxe-bd13697/src/core/interface.c:278-296 | handing the plug to a temporary interface keeps the counts exact |
| Interface.Web.RefDecrement | iPXE/ipxe-bd13697/src/core/refcnt.c:61-91 | frees exactly when the count reaches -1 |
| Interface.Web.Plug | iPXE/ipxe-bd13697/src/core/interface.c:83-95 | every count stays one less than plugs plus held references; only this destination changes; every search for a handler still ends if and only if none from the new destination leads back through this interface |
| Interface.Web.Unplug | iPXE/ipxe-bd13697/src/core/interface.c:117-122 | the same for unplugging, which keeps every search finite |
| Interface.Web.PlugPlug | iPXE/ipxe-bd13697/src/core/interface.c:107-110 | plugs both ways without freeing either end on the way; when every search still ends |
| Interface.Web.Insert | iPXE/ipxe-bd13697/src/core/interface.c:400-408 | the filter ends up between the interface and its former destination, whatever coincides; a new filter keeps every search finite |
| PassThrough.EndsExactly | iPXE/ipxe-bd13697/src/core/interface.c:212-230 | every search for a handler ends if and only if the interfaces can be ranked so that passing on leads downwards; the number of hops is such a rank |
| PassThrough.NeverEnds | iPXE/ipxe-bd13697/src/core/interface.c:212-230 | two interfaces of a pass-through object plugged together: no number of hops reaches a handler |
| PassThrough.PlugExactly | iPXE/ipxe-bd13697/src/core/interface.c:83-95 | when plugging keeps every search finite, both directions |
| PassThrough.InsertKeeps | iPXE/ipxe-bd13697/src/core/interface.c:400-408 | inserting a new filter keeps every search finite: at most one extra hop for every hop |
| PassThrough.EndsShrinks | iPXE/ipxe-bd13697/src/core/interface.c:117-131 | unplugging only shortens searches |
| Closing.Cascade | iPXE/ipxe-bd13697/src/core/interface.c:249-377 | whatever shutdowns and restarts are under way: when they are over, every destination that an unplugged interface led to was nullified from the start, is unplugged itself, has run its handler, or hands operations on through an interface that is unplugged or to a destination dealt with |
| Closing.PeerUnplugged | iPXE/ipxe-bd13697/src/core/interface.c:258-263 | in particular a peer without a handler of its own is unplugged too |
| Closing.TellExactly | iPXE/ipxe-bd13697/src/core/interface.c:128-266 | what telling an interface comes to, case by case: nothing if it is nullified, its handler if it has one, the next interface if it hands operations on, and otherwise shutting down and restarting itself |
| Closing.TellInforms | iPXE/ipxe-bd13697/src/core/interface.c:249-266 | what an interface is told takes effect before the steps are done, whatever else is on the list |
| Closing.ExecAppend | iPXE/ipxe-bd13697/src/core/interface.c:278-377 | lists of steps, each of which may put further steps in front, can be taken in two portions |
| Closing.ExecShutsDown | iPXE/ipxe-bd13697/src/core/interface.c:278-296 | every interface on the list ends up unplugged, however often it is reached before its turn |
| Closing.EachIsInformed | iPXE/ipxe-bd13697/src/core/interface.c:304-317 | each listed interface's handler, as of its turn, has had its effect at the end |
| Interface.Web.GetCloseOp | iPXE/ipxe-bd13697/src/core/interface.c:169-230 | whenever the search ends at all, it ends at the interface whose handler the operation is meant for, which is returned with a reference |
| Interface.Web.Close | iPXE/ipxe-bd13697/src/core/interface.c:249-266 | on every web whose searches end: terminates; counts stay exact; everything the handler that is reached was to close is unplugged, or without a handler the interface itself; nothing is plugged; the recursion does what the list of steps does |
| Interface.Web.Shutdown | iPXE/ipxe-bd13697/src/core/interface.c:278-296 | on every web whose searches end: terminates, with the plugged interfaces as measure, although handlers shut down and restart further interfaces recursively; the interface and whatever the reached handler closes end up unplugged, nothing is freed twice or while plugged; the recursion does what the list of steps does, and everything that any unplugged interface led to has been dealt with |
| Interface.Web.Restart | iPXE/ipxe-bd13697/src/core/interface.c:342-357 | the same, with the reached handler done, and the interface works again |
| Interface.Web.ShutdownEach | iPXE/ipxe-bd13697/src/core/interface.c:304-317 | all listed interfaces are nullified first and end up unplugged although any of them may be reached again meanwhile; the handler that each one's plug led to when its turn came has had its effect; everything that any unplugged interface led to has been dealt with |
| Interface.Web.RestartEach | iPXE/ipxe-bd13697/src/core/interface.c:365-377 | the same, and all of them work again |
| SettingsTree.FetchIsFirst | iPXE/ipxe-bd13697/src/core/settings.c:666-720 | the recursive fetch finds the first block in preorder that holds the setting |
| SettingsTree.Frame | iPXE/ipxe-bd13697/src/core/settings.c:666-720 | a fetch is not affected by changes outside the subtree |
| Settings.Registry.FetchSetting | iPXE/ipxe-bd13697/src/core/settings.c:666-720 | the loop over children computes the first holder in preorder |
| Settings.Registry.FindPlace | iPXE/ipxe-bd13697/src/core/settings.c:453-460 | stops where the specification says; with equal order keys and all other siblings in order this is the right place |
| Settings.Registry.Reprioritise | iPXE/ipxe-bd13697/src/core/settings.c:437-465 | climbing from the block to the top puts each block behind every sibling with at least its priority and order key, up to the first without; with equal order keys, if only what contains the block can be out of place, every list of children is in descending order of effective priority afterwards; no child is lost |
| Settings.Registry.StoreSetting | iPXE/ipxe-bd13697/src/core/settings.c:615-650 | all error cases, which change nothing; on success exactly the one value of the one block is set or cleared, a fetch from the block then finds the stored value there or, cleared, the first block below that has one; a new priority moves the block and its ancestors to their places, so that every list of children is sorted if it was before; names stay unique |
| Settings.FetchAfterStore | iPXE/ipxe-bd13697/src/core/settings.c:666-720 | a block that has a setting answers for it, and otherwise the search goes on below it in preorder |
| Settings.Registry.Register | iPXE/ipxe-bd13697/src/core/settings.c:475-507 | exactly the child of that name and what is below it leave the tree, the block joins it, every list of children is sorted afterwards if it was before, and names stay unique among siblings; with an empty name it is the parent that leaves the tree, taking the block along |
| Settings.Registry.Unregister | iPXE/ipxe-bd13697/src/core/settings.c:514-534 | exactly the block and everything below it leave the tree; sorted settings are still sorted if and only if everything that contained the block would have kept its place without it |
| SettingsPruning.SortedAfterPruning | iPXE/ipxe-bd13697/src/core/settings.c:514-534 | the condition, decided on the tree before the call: for every block that contains the one removed, its effective priority without it lies between those of its siblings |
| SettingsPruning.PruningDisturbsNothing | iPXE/ipxe-bd13697/src/core/settings.c:514-534 | in particular when no such block takes its priority from what is removed |
| SettingsPruning.PruningDisturbsExample | iPXE/ipxe-bd13697/src/core/settings.c:514-534 | a sorted tree of four blocks that is not sorted after one of them is unregistered |
| SettingsPruning.PrunedFetch | iPXE/ipxe-bd13697/src/core/settings.c:514-534 | what a fetch finds afterwards is what it would have found skipping the block |
| Settings.Registry.FindChild | iPXE/ipxe-bd13697/src/core/settings.c:279-297 | a child of that name, or none exactly when there is none; the empty name stands for the block itself |
| Settings.RightPlaceExactly | iPXE/ipxe-bd13697/src/core/settings.c:453-461 | with order keys, reinsertion among sorted siblings is right if and only if no sibling of lower order key has a higher priority |
| SettingsOrder.InsertDescending | iPXE/ipxe-bd13697/src/core/settings.c:453-461 | the same on the sequence of priorities |
| SettingsOrder.OrderKeyExample | iPXE/ipxe-bd13697/src/core/settings.c:458-459 | a block of priority 3 goes ahead of one of priority 5 because of its order key |
| SettingsOrder.StoreDisturbs | iPXE/ipxe-bd13697/src/core/settings.c:615-650 | a stored priority can only disturb the block and its ancestors |
| SettingsOrder.MoveClimbs | iPXE/ipxe-bd13697/src/core/settings.c:450-464 | after a move only the parent and its ancestors can be out of place |
| SettingsChanges.AttachDisturbs | iPXE/ipxe-bd13697/src/core/settings.c:489-501 | a new child can only disturb itself and its ancestors |
| SettingsChanges.PruneDisturbs | iPXE/ipxe-bd13697/src/core/settings.c:514-534 | only the former parent and its ancestors can be out of place, which is what register_settings relies on |
| SettingsChanges.PrunedTree | iPXE/ipxe-bd13697/src/core/settings.c:514-534 | what remains is a tree |
| SanPaths.RunKeeps | iPXE/ipxe-bd13697/src/core/sanboot.c:200-327 | in every state that events lead to, each path is on exactly one of the two lists, once; of the open paths the active one has status zero and every other is in progress |
| SanPaths.RestartEnds | iPXE/ipxe-bd13697/src/core/sanboot.c:350-364 | a restart leaves nothing open, nothing active and no command |
| SanPaths.SuccessWithoutPath | iPXE/ipxe-bd13697/src/core/sanboot.c:387-416 | from the state with every path open, sandev_reopen reports success without an active path if and only if all paths end up closed and the first event to close one is a path becoming available while another is active; a failure is the status of the first path that an event closes, or no device without paths; both are decided by the events alone |
| SanPaths.SuccessIsSafe | iPXE/ipxe-bd13697/src/core/sanboot.c:374-423 | the check before the call: success means an active path under every schedule of events if and only if the device has fewer than two paths |
| SanPaths.SuccessWithoutPathExample | iPXE/ipxe-bd13697/src/core/sanboot.c:387-416 | on every device with two paths or more there is a schedule that leads to success without an active path |
| SanPaths.SuccessIsActive | iPXE/ipxe-bd13697/src/core/sanboot.c:387-416 | with at most one event a step, success means an active path, both directions |
| SanDevice.Device.PathClose | iPXE/ipxe-bd13697/src/core/sanboot.c:242-263 | the code in place computes the transition and makes the lists and statuses consistent |
| SanDevice.Device.PathOpen | iPXE/ipxe-bd13697/src/core/sanboot.c:200-234 | the same, and nothing changes when the URI cannot be opened |
| SanDevice.Device.PathStep | iPXE/ipxe-bd13697/src/core/sanboot.c:303-327 | the same: the first available path becomes active, another is closed |
| SanDevice.Device.Receive | iPXE/ipxe-bd13697/src/core/sanboot.c:186-327 | the same for every event |
| SanDevice.Device.RestartDevice | iPXE/ipxe-bd13697/src/core/sanboot.c:350-364 | terminates with nothing open or active |
| SanDevice.Device.Reopen | iPXE/ipxe-bd13697/src/core/sanboot.c:374-423 | fails with the first failure to open a path, in the order of the list, if there is one, and is otherwise determined by the waiting that starts with every path open; any failure leaves nothing open and is recorded for the command; success without an active path exactly as above, never on a device with fewer than two paths |
| SanDevice.Device.AwaitCommand | iPXE/ipxe-bd13697/src/core/sanboot.c:545-547 | runs the system until the timer stops, which it does in the first step with an event that ends the command; the status is what that step leaves |
| SanDevice.Device.Command | iPXE/ipxe-bd13697/src/core/sanboot.c:509-566 | a run of attempts, each reopening only without an active path and ending as its events say: all but the last fail within the retries, failure is that of the last with the retries used up, and only attempts or events running out block; at most san_retries + 1 commands are issued, a device with a single path is attempted at most, and before giving up exactly, that often; success means that the step in which the last command ended closed it with status zero, and not again; with fewer than two paths no command is issued without an active path |
| SanDevice.Device.Try | iPXE/ipxe-bd13697/src/core/sanboot.c:518-558 | one iteration of the loop does what the events of the attempt determine |
| SanCommands.AwaitEnds | iPXE/ipxe-bd13697/src/core/sanboot.c:145-263 | from the active path and the events alone: the command ends with the first close of the command, timeout or loss of its path, and its status is that of this event or of a later close in the same step |
| SanCommands.SuccessIsClosed | iPXE/ipxe-bd13697/src/core/sanboot.c:545-562 | status zero can only come from the command itself closing with zero: losing the path or the timeout never looks like success |
| SanCommands.SingleEnds | iPXE/ipxe-bd13697/src/core/sanboot.c:545-562 | when steps bring one event each, the status is that of the first event that ends the command, both directions |
| SanCommands.LossOverrules | iPXE/ipxe-bd13697/src/core/sanboot.c:255-259 | a command that succeeded has failed after all when the same step then loses the path |
| SanCommands.AttemptBounds | iPXE/ipxe-bd13697/src/core/sanboot.c:509-566 | the bounds on attempts and commands follow from how the attempts conclude |
| SanRead.Read | iPXE/ipxe-bd13697/src/core/sanboot.c:646-701 | every byte is the device byte overlaid by the override ranges, later ones winning, the buffer receives the whole extent when the block count fits, and nothing outside it is written; a failure is the first non-zero status of a command, with what was read before it in the buffer |
| SanRead.ReadFragments | iPXE/ipxe-bd13697/src/core/sanboot.c:614-634 | the fragments tile the block range in order, each once, each as long as max_count and the rest allow; the status is zero exactly when all of it was transferred and otherwise that of the first command to fail |
| SanRead.Override | iPXE/ipxe-bd13697/src/core/sanboot.c:656-698 | each byte of the buffer ends up as the last range covering it says |
| SanRead.OverlaidExactly | iPXE/ipxe-bd13697/src/core/sanboot.c:656-698 | a byte is that of the last range to cover it, and the device's when none does |
| SanRead.OverrideOne | iPXE/ipxe-bd13697/src/core/sanboot.c:663-696 | the five-way case split copies exactly the intersection |
| SanRead.AdjacentExtents | iPXE/ipxe-bd13697/src/core/sanboot.c:646-701 | reading two adjacent extents is one read of both |
| SanRead.RemainingExact | iPXE/ipxe-bd13697/src/core/sanboot.c:612 | the shifted 32-bit block count is exact if and only if it fits |
| SanRead.RemainingExample | iPXE/ipxe-bd13697/src/core/sanboot.c:612 | 2^31 blocks shifted by one: nothing is read |
| Asn1.BuiltIsRecovered | iPXE/ipxe-bd13697/src/crypto/asn1.c:98-841 | items prepended and wrapped are recovered exactly and in order by entering and walking, for content below 2^31 bytes |
| Asn1.WalkEncoded | iPXE/ipxe-bd13697/src/crypto/asn1.c:160-227 | walking any sequence of encodings finds exactly those items |
| Asn1.StartHeader | iPXE/ipxe-bd13697/src/crypto/asn1.c:98-147 | what asn1_header writes asn1_start reads, whatever follows |
| Asn1.HeaderExactly | iPXE/ipxe-bd13697/src/crypto/asn1.c:98-147 | for every size_t: a length comes back if and only if it is below 2^31 |
| Asn1.AccumulateBigEndian | iPXE/ipxe-bd13697/src/crypto/asn1.c:133-139 | reading back the length bytes gives the length |
| Asn1.Cursor.StartObject | iPXE/ipxe-bd13697/src/crypto/asn1.c:98-147 | all outcomes on arbitrary bytes, including how far the cursor moves |
| Asn1.Cursor.Enter | iPXE/ipxe-bd13697/src/crypto/asn1.c:160-174 | stays inside the original extent; the content, or empty on any error |
| Asn1.Cursor.SkipIfExists | iPXE/ipxe-bd13697/src/crypto/asn1.c:187-205 | stays inside and shrinks strictly on success; an error leaves the cursor alone, as documented, if and only if there were fewer than two bytes or the type byte was another one |
| Asn1.SkipErrorExample | iPXE/ipxe-bd13697/src/crypto/asn1.c:187-205 | a header without its content: the error moves the cursor by two bytes |
| Asn1.Cursor.Skip | iPXE/ipxe-bd13697/src/crypto/asn1.c:218-227 | stays inside and shrinks strictly on success; empty on every error |
| Asn1.Cursor.Shrink | iPXE/ipxe-bd13697/src/crypto/asn1.c:240-258 | the first object with its header |
| Asn1.Cursor.Items | iPXE/ipxe-bd13697/src/crypto/asn1.c:160-227 | the enter-and-skip loop terminates and computes the walk |
| Asn1.AsnHeader | iPXE/ipxe-bd13697/src/crypto/asn1.c:713-733 | the definite form of section 8.1.3 of X.690 with the fewest length bytes |
| Asn1.Builder.Grow | iPXE/ipxe-bd13697/src/crypto/asn1.c:742-765 | old content is moved behind the gap; a failure is permanent if and only if the builder was not empty |
| Asn1.GrowErrorExample | iPXE/ipxe-bd13697/src/crypto/asn1.c:742-765 | a failure on a new builder is followed by a success |
| Asn1.Builder.PrependRaw | iPXE/ipxe-bd13697/src/crypto/asn1.c:775-787 | prepends the bytes or fails without content |
| Asn1.Builder.Prepend | iPXE/ipxe-bd13697/src/crypto/asn1.c:798-816 | prepends the encoding of an item |
| Asn1.Builder.Wrap | iPXE/ipxe-bd13697/src/crypto/asn1.c:825-841 | the content becomes the encoding of one item |
| Asn1.Builder.Build | iPXE/ipxe-bd13697/src/crypto/asn1.c:775-841 | prepending last to first and wrapping builds the encoding of the list |
| KeyWrap.UnwrapOfWrap | iPXE/ipxe-bd13697/src/crypto/aes_wrap.c:38-124 | for any block permutation and any number of halves, unwrapping a wrapped key succeeds and returns it |
| KeyWrap.WrapOfUnwrap | iPXE/ipxe-bd13697/src/crypto/aes_wrap.c:85-124 | whatever unwraps successfully is the wrapping of the result |
| KeyWrap.WrapInjective | iPXE/ipxe-bd13697/src/crypto/aes_wrap.c:38-71 | different keys wrap differently |
| KeyWrap.UnwrapWrap | iPXE/ipxe-bd13697/src/crypto/aes_wrap.c:55-67 | the unwrapping steps undo the wrapping steps, for any number of steps |
| KeyWrap.WrapUnwrap | iPXE/ipxe-bd13697/src/crypto/aes_wrap.c:101-113 | and conversely |
| KeyWrap.AesWrap | iPXE/ipxe-bd13697/src/crypto/aes_wrap.c:38-71 | the nested loops in the destination buffer compute the wrapping of the source or, in place, of the source with its first half overwritten; with distinct buffers and up to 255 steps this is the wrapping of RFC 3394 |
| KeyWrap.InPlaceIsWrong | iPXE/ipxe-bd13697/src/crypto/aes_wrap.c:51-53 | wrapping in place is right if and only if the key begins with the initial value |
| KeyWrap.InPlaceExample | iPXE/ipxe-bd13697/src/crypto/aes_wrap.c:51-53 | a zero half wrapped in place gives the wrapping of another key, for every block permutation |
| KeyWrap.TweakExactly | iPXE/ipxe-bd13697/src/crypto/aes_wrap.c:63 | the byte-wide step counter combines like the 64-bit counter of RFC 3394 does with the whole half if and only if it is at most 255 |
| KeyWrap.WrapsAsStandard | iPXE/ipxe-bd13697/src/crypto/aes_wrap.c:38-71 | keys of up to 42 halves are wrapped as the rounds of section 2.2.1 of RFC 3394 do it from the initial value of section 2.2.3.1 |
| Bits.BitXorBits | iPXE/ipxe-bd13697/src/crypto/aes_wrap.c:63 | the exclusive or used for the counter, bit by bit |
| KeyWrap.AesUnwrap | iPXE/ipxe-bd13697/src/crypto/aes_wrap.c:85-124 | computes the unwrapping, also in place; zero exactly when the integrity half is right |
| Cbc.DecryptEncrypt | iPXE/ipxe-bd13697/src/crypto/cbc.c:66-108 | decryption from the same initial value undoes encryption |
| Cbc.EncryptSplit | iPXE/ipxe-bd13697/src/crypto/cbc.c:66-80 | encrypting in two calls that share the context is encrypting in one |
| Cbc.DecryptSplit | iPXE/ipxe-bd13697/src/crypto/cbc.c:92-108 | likewise for decryption |
| Cbc.CbcXor | iPXE/ipxe-bd13697/src/crypto/cbc.c:44-54 | word-wise exclusive or |
| Cbc.CbcEncrypt | iPXE/ipxe-bd13697/src/crypto/cbc.c:66-80 | the loop computes section 6.2 of NIST SP 800-38A, also in place, and leaves the last cipher block as context |
| Cbc.CbcDecrypt | iPXE/ipxe-bd13697/src/crypto/cbc.c:92-108 | likewise; the cipher block survives being overwritten |
| Time.EveryDateCounted | iPXE/ipxe-bd13697/src/core/time.c:117-145 | every date from 1900 on is the one that counting next-day steps reaches at the position its day number gives |
| Time.DayNumberCounts | iPXE/ipxe-bd13697/src/core/time.c:122-137 | and the day number of the nth day is its distance from 1970-01-01 |
| Time.NextDayNumber | iPXE/ipxe-bd13697/src/core/time.c:122-137 | one day later is one more, across months, leap days and centuries |
| Time.EpochIsDayZero | iPXE/ipxe-bd13697/src/core/time.c:122-137 | day zero is 1970-01-01 and no other date |
| Time.WeekdayFollows | iPXE/ipxe-bd13697/src/core/time.c:96-105 | the table-driven weekday is (days + 4) mod 7 |
| Time.PosixFormula | iPXE/ipxe-bd13697/src/core/time.c:117-145 | agreement with the formula in section 4.15 of POSIX:2008 from 1970 on |
| Time.LeapRule | iPXE/ipxe-bd13697/src/core/time.c:60-71 | the Gregorian rule |
| Time.LeapCount | iPXE/ipxe-bd13697/src/core/time.c:79-87 | the closed formula counts leap years |
| Time.Tm.MkTime | iPXE/ipxe-bd13697/src/core/time.c:117-145 | seconds, day of the year and weekday for every valid date |
| LineBuffer.Buffer.FeedChunks | iPXE/ipxe-bd13697/src/core/linebuf.c:91-143 | for every way of cutting a NUL-free stream into chunks below 2 GB, feeding and polling yields exactly the lines of the stream |
| LineBuffer.LinesAppend | iPXE/ipxe-bd13697/src/core/linebuf.c:91-143 | the lines of a stream do not depend on where it is cut, even between CR and LF |
| LineBuffer.CutWritten | iPXE/ipxe-bd13697/src/core/linebuf.c:91-143 | lines written out with CR and LF behind each are cut into the same lines |
| LineBuffer.Buffer.FeedAll | iPXE/ipxe-bd13697/src/core/linebuf.c:91-143 | the same for one chunk, fed as often as needed |
| LineBuffer.Buffer.Feed | iPXE/ipxe-bd13697/src/core/linebuf.c:91-143 | one call takes the stream up to and including the first line feed, or all of it; it fails exactly for a NUL in that part or without memory, and then changes nothing; for chunks below 2 GB the return value says which |
| LineBuffer.IntExactly | iPXE/ipxe-bd13697/src/core/linebuf.c:142 | the int returned is the number of bytes taken if and only if that is below 2^31, and otherwise congruent to it |
| LineBuffer.Buffer.BufferedLine | iPXE/ipxe-bd13697/src/core/linebuf.c:45-58 | exactly the line that the last call completed |
| LineBuffer.Buffer.EndLine | iPXE/ipxe-bd13697/src/core/linebuf.c:120-137 | overwriting LF and one CR leaves the stripped line |
| Base64.RoundTrip | iPXE/ipxe-bd13697/src/core/base64.c:51-157 | decoding an encoding into a buffer that is large enough gives every byte back |
| Base64.DecodeEncode | iPXE/ipxe-bd13697/src/core/base64.c:51-157 | every encoding is accepted with the right length |
| Base64.ByteAtSextets | iPXE/ipxe-bd13697/src/core/base64.c:137-145 | the byte assembled from the sextets is the original byte |
| Base64.SpacesIgnored | iPXE/ipxe-bd13697/src/core/base64.c:107-109 | white space anywhere makes no difference |
| Base64.DecodedExactly | iPXE/ipxe-bd13697/src/core/base64.c:104-156 | the texts that decode are exactly those of section 4 of RFC 4648, groups of four digits of which the last may be padded, with white space anywhere |
| Base64.EncodedSextet | iPXE/ipxe-bd13697/src/core/base64.c:61-70 | the bit-index arithmetic computes the sextets of section 4 of RFC 4648 |
| Base64.EncodeInto | iPXE/ipxe-bd13697/src/core/base64.c:51-81 | the text cut to the buffer and terminated; the full length is returned; the bit counter is an unsigned int |
| Base64.EncodingEnds | iPXE/ipxe-bd13697/src/core/base64.c:61 | the loop over the bits ends if and only if there are fewer than 2^29 bytes |
| Base64.AddSextet | iPXE/ipxe-bd13697/src/core/base64.c:137-145 | or-ing one sextet into two bytes keeps the buffer the prefix of the data |
| Base64.ByteAtAppend | iPXE/ipxe-bd13697/src/core/base64.c:137-145 | a further sextet changes the bytes it overlaps by or-ing, and no others |
| Base64.DecodeInto | iPXE/ipxe-bd13697/src/core/base64.c:91-157 | accepts exactly the specified texts; the length does not depend on the buffer and is exact modulo 2^29, where the bit counter wraps; up to there the buffer receives the prefix that fits |
| Base64.DigitValue | iPXE/ipxe-bd13697/src/core/base64.c:39-40 | every sextet is what its own character decodes to, and no character of the alphabet is padding or white space |
| Base64.DigitsOfTable | iPXE/ipxe-bd13697/src/core/base64.c:39-40 | the alphabet is that of table 1 of RFC 4648 |
| Base64.Spaces | iPXE/ipxe-bd13697/src/core/ctype.c:41-54 | the six characters that are ignored |
| Base64.Lookup | iPXE/ipxe-bd13697/src/core/base64.c:129-135 | the search finds the sextet of a character, or none exactly for characters outside the alphabet |
| Base16.UnhexHex | iPXE/ipxe-bd13697/src/core/base16.c:50-107 | decoding with the same separator, or none, gives the bytes back |
| Base16.HexUnhex | iPXE/ipxe-bd13697/src/core/base16.c:76-107 | whatever decodes is, but for the case of its digits, the encoding of what it decodes to |
| Base16.DigitsExactly | iPXE/ipxe-bd13697/src/core/string.c:413-422 | digits are written in lower case and read in either, and nothing else is a digit |
| Base16.HexEncode | iPXE/ipxe-bd13697/src/core/base16.c:50-65 | the text cut to the buffer; the full length is returned |
| Base16.EncodingEnds | iPXE/ipxe-bd13697/src/core/base16.c:59 | the loop over the bytes ends if and only if there are fewer than 2^32 |
| Base16.HexDecode | iPXE/ipxe-bd13697/src/core/base16.c:76-107 | accepts exactly the specified texts; the count does not depend on the buffer |
| Isqrt.SquareRoot | iPXE/ipxe-bd13697/src/core/isqrt.c:40-56 | the floor of the square root of every 64-bit value, with no overflow on the way |
| Random.Generator.Random | iPXE/ipxe-bd13697/src/core/random.c:30-44 | 40014 * state mod 2147483563 for every 32-bit state, with every intermediate in 32 bits; zero exactly from the states 2147483563 and -2147483563 |
| Random.StepIs | iPXE/ipxe-bd13697/src/core/random.c:36-42 | the same for the arithmetic alone |
| Random.RunIs | iPXE/ipxe-bd13697/src/core/random.c:30-44 | over any run from 1..2147483562 the state never leaves that interval, and is the power the generator promises |
| Random.StepInjective | iPXE/ipxe-bd13697/src/core/random.c:36-42 | no two such states have the same successor |
| Random.NoOverflow | iPXE/ipxe-bd13697/src/core/random.c:38-39 | no product or difference leaves 32 bits |

## Left out

- Allocator addresses: `virt_to_phys` adds a constant, and blocks lie below 2^63 so that the signed gaps are exact.
- Malloc.Allocator.Mpopulate: requires at least one block, since free_memblock asserts a non-zero size; HeapTheorems.ShortRegion says what becomes of the free list otherwise.
- Malloc.Allocator.DiscardCache: the table of discarders is one finite supply of cached blocks, each freed by one discard.
- HeapTheorems.EveryRunIsSafe: freeing memory that the caller does not hold, or with another size, is outside the model.
- Valgrind marking, debugging output and the assertions on a corrupt heap.
- IoBuffer: DMA mapping, alloc_rx_iob, iob_concatenate and iob_split, which only move bytes between buffers.
- BigInt.ModMultiply: the work space argument is replaced by fresh arrays.
- BigInt.ModExp: empty numbers are excluded, since the copy loops of the x86 code need at least one element.
- Dhe.DheKey: likewise empty generator, partner and private values; overlapping buffers are not modelled.
- RSA, the remaining block modes (ECB, GCM), digests and certificates.
- Interface.Web.Shutdown: requires that every search for a handler in the web ends, the condition of PassThrough.EndsExactly, since a handler may close any interface of its object; close handlers only shut down or restart interfaces of their own object, and carry no status code.
- Interface operations other than close, intf_poke, and destructors that do more than free.
- Settings.Registry.FetchSetting: a setting is one key with one integer value; redirection, applicability by setting_cmp and generic storage are decided by parameters or left out.
- Settings.Registry.Register: with an empty name the parent needs a parent, which unregister_settings dereferences; reference counts, autovivification and apply_settings are left out.
- SanDevice.Device.Command: the environment (which paths open, which events each step brings) is a parameter; an environment that ends early gives the outcome Blocked, and delays are left out.
- SanRead.Read: max_count is positive, extents and ranges lie below 2^64 bytes, and the write direction, which has no override, is left out.
- Registration of SAN devices, ACPI tables, ISO 9660 block size detection.
- Asn1.Builder.Grow: the sum of the lengths is taken to fit in a size_t.
- Asn1 value decoders (integers, bit strings, times, algorithm identifiers).
- Time.Tm.MkTime: years before 1900 and the overflow of `int` for huge years.
- LineBuffer.Buffer.Feed: whether realloc succeeds is a parameter.
- LineBuffer.Buffer.FeedAll: requires chunks below 2 GB, for which the return value can be used.
- Base16.HexEncode: requires less than 2^32 bytes, without which the loop does not end (Base16.EncodingEnds); ssnprintf is modelled as two lower-case digits a byte.
- Base16.HexDecode: texts of more than 2^31 bytes, whose count an int does not hold.
- Base64.EncodeInto: requires less than 2^29 bytes, without which the loop does not end (Base64.EncodingEnds).
- Base64.DecodeInto: does not say what a buffer holds after a text of more than 2^32 bits.
- The network stack, drivers, user interface and the iVentoy start-up code: hardware and input/output, or code that only forwards.
