# Verified models of the Rust SGX SDK

This project models the parts of the SDK that do real work of their own and proves, in Dafny, what each is for:
the aligned secret allocator and the box that owns its blocks, the event protocol behind thread ocalls, the
instruction patcher of the simulator, the system allocator, data sealing, the layout-table count and the
constant-time comparison. `dafny verify dfyconfig.toml` checks all of it. `Wrappers`, `Arithmetic` and `Words` hold what
the models share.

## What is modelled

**Aligned allocator** (`Words`, `AlignBits`, `AlignLayout`, `Placement`). Requests name byte ranges of an object that
must stay off cache-line offsets 0, 4, 5, 6 and 7. The source finds a pad with 64-bit rotates, a mask built by
halving and a leading-zero recursion. `AlignBits` keeps those word operations on `bv64` (wrapping, so that
`(1 << 63) - 1` is 63 ones) and proves that they compute exactly the least pad of a simple specification, `Fits`.
`AlignLayout` adds the packed-bitmap check of a request list and `pad_align_to`; `Placement` proves what an accepted
layout means for every address malloc may return. Three results have an exact condition because the plain statement
is false:

* the object keeps its requested alignment at every address exactly when the pad is non-zero, the alignment is at most
  16 or above 64, or twice the size exceeds the alignment (`AlignmentKeptIff`, with `AlignmentLostExample`);
* the header word lies inside its block at every address exactly when the pad is at least 8 (`HeaderInsideIff`);
* for a whole object that means exactly when size plus alignment exceeds 4 (`WholeHeaderInsideIff`, with
  `HeaderOutsideExample`: one byte at alignment one).

**Heap use** (`Bytes`, `LibcHeap`, `AlignAlloc`, `AlignRuns`, `AlignBox`). The C heap is a map from block addresses to
bytes, with libc's choices (refuse, or which address and which leftover bytes) as arguments. The header word is eight
little-endian bytes in the block, so that a stray write could destroy it. A store outside the block its address came
from is undefined behaviour: the heap is then `broken` and nothing is promised about it. The contracts say exactly when
that happens, and `AlignRuns` proves it of every sequence of checks, allocations, client writes and deallocations, along
with what holds until then. The scratch bitmap that a passed request check never frees stays in the modelled heap, and
is counted: the aligned allocator leaks one small block per check. `AlignBox` covers construction, `clone` and
`clone_from`, whose comparison of total sizes alone is proved to be enough.

**Events** (`TcsEvents`, `TcsOcalls`, `TcsThreads`, `Handover`). Steps are at the grain of the mutex: start of a wait, leaving the
queue spuriously, another look at the counter (which may time out), wake. The promise that no sleeper is forgotten
holds exactly when at most one wait is outstanding per event (`NeverForgetsIff`); two plain waits and two wakes are the
failing example. `TcsOcalls` holds the event object, the find-or-append cache and the four ocalls as methods that
update state; each says which step it takes on which event and that no other event changes. `TcsThreads` lets any number
of threads interleave inside the ocalls, and proves that what happens to one event is a run of that event, so that
nobody is ever forgotten as long as each thread waits on the TCS it runs on. `Handover` is the two-thread protocol built
from `u_thread_setwait_events_ocall`, and the runs of `TcsThreads` that only hand over are proved to be runs of it.

**Patcher** (`Simulate`). The decoder is a parameter with stated facts (`Sound`, shown satisfiable by `ToyDecoder`).
The loops patch an array in place; the result is characterised byte by byte, by what it decodes to, and by where each
instruction lies.

**System allocator** (`SystemAlloc`, `SystemRuns`). Every branch over malloc, calloc, realloc and memalign, with libc
failing at any point, against a ledger of what the client holds.

**Sealing** (`Sealing`, `TypedSealing`). Lengths are u32 values with their saturation and truncation written out; the
raw form is 560 header bytes and the payload. AES-GCM is a pair of functions whose decryption inverts encryption
(sections 7.1 and 7.2 of NIST SP 800-38D), shown satisfiable by `TOY_PLATFORM`.

**Layout table and comparison** (`LayoutTable`, `MemEq`). The recursive in-place count is proved equal to counting the
fully expanded table, and the OR-of-XORs loop with its shift to be equality.

Assumptions: malloc, calloc and realloc answer 16-byte aligned addresses or null, memalign the alignment asked for, and
blocks never overlap; `Layout` values satisfy what Rust guarantees of them; executable file ranges are in bounds and pairwise
disjoint; the two foreign length getters of the sealed data are `payload_size - plain_text_offset` and
`plain_text_offset`, and the foreign size function behaves as its Rust twin.

## Model

| member | source | states |
|---|---|---|
| `AlignBits.MakeBitmap` | sgx-alloc/src/alignalloc.rs:370-380 | bit i of the answer is set exactly when some requested byte has offset i modulo 64, for requests of any length, overlapping or not |
| `AlignBits.LeadingZeros` | sgx-alloc/src/alignalloc.rs:331-337 | the recursion ends; its answer names the highest set bit, and is -1 for the zero word only |
| `AlignBits.BitRol` | sgx-alloc/src/alignalloc.rs:317-329 | rotating moves every bit by the count modulo 64, counts of any size included |
| `AlignBits.MaskBits` | sgx-alloc/src/alignalloc.rs:309-315 | the halving recursion leaves set exactly the bits whose distance from the top is a multiple of the alignment |
| `AlignBits.FitBit` | sgx-alloc/src/alignalloc.rs:339-352 | in the word that is searched, bit 63 - k is set exactly when pad k is a multiple of the alignment and keeps every requested byte off the forbidden offsets |
| `AlignBits.CalcLspcIsLeastFit` | sgx-alloc/src/alignalloc.rs:339-352 | the bit search returns the least pad that fits, and -1 exactly when none does |
| `AlignLayout.CheckAlignReq` | sgx-alloc/src/alignalloc.rs:271-307 | accepts exactly when the scratch request is served, the list is non-empty, every request lies inside the object and no byte is named twice; the bitmap's block is left in the heap on acceptance and given back otherwise |
| `AlignLayout.CalcAlignIs` | sgx-alloc/src/alignalloc.rs:354-368 | above 64 the alignment is kept; otherwise it becomes the least of 8, 16 and 32 that holds the padded size, or 64 |
| `AlignLayout.PaddingNeededFor` | sgx-alloc/src/alignalloc.rs:235-249 | a pad is answered only for a good layout and request list, and it is the least that fits; a bitmap is left behind whenever the list passed its check |
| `AlignLayout.PadAlignTo` | sgx-alloc/src/alignalloc.rs:229-233 | succeeds exactly when the scratch bitmap was served, the layout is not empty, the request list is good, and there is a pad whose layout is not too large; then answers the only acceptable layout |
| `AlignLayout.PlaceableIff` | sgx-alloc/src/alignalloc.rs:229-253 | whether any layout is acceptable, condition by condition: a non-empty layout, a good request list, and a least pad within the size limit |
| `AlignLayout.CheckLayoutIs` | sgx-alloc/src/alignalloc.rs:265-269 | of the layouts that Rust can build, the check turns down the empty ones and no others |
| `AlignLayout.OnlyAnswer` | sgx-alloc/src/alignalloc.rs:229-233 | with the least pad known there is one acceptable layout, or none when it would exceed the size limit |
| `Placement.RoundDownIsMask` | sgx-alloc/src/alignalloc.rs:256-258 | on machine words the mask with the complement of a power of two less one is rounding down, as the integer model uses it |
| `Placement.NoRequestedByteForbidden` | sgx-alloc/src/alignalloc.rs:229-258 | wherever malloc puts the block, no requested byte lands on a forbidden cache-line offset, even when the chosen alignment is only 8, 16 or 32 |
| `Placement.AlignmentKeptIff` | sgx-alloc/src/alignalloc.rs:251-258 | the object is a multiple of the requested alignment at every address malloc may answer exactly when a guard on pad, size and alignment holds |
| `Placement.AlignmentLostExample` | sgx-alloc/src/alignalloc.rs:354-368 | an accepted request at alignment 32 whose object stays at address 16 |
| `Placement.HeaderInsideIff` | sgx-alloc/src/alignalloc.rs:206-217 | the header word lies inside the block at a malloc address exactly when the pad is 8 or more or that address was unaligned, hence at all of them exactly when the pad is 8 or more |
| `Placement.WholeObjectPad` | sgx-alloc/src/alignbox.rs:176-190 | for the whole-object request the least pad is the larger of 8 and the alignment, or the alignment alone for the smallest objects |
| `Placement.WholePlaceableIff` | sgx-alloc/src/alignbox.rs:176-204 | a whole object can be placed exactly when its size and the larger of 8 and its alignment sum to 64 at most |
| `Placement.WholeHeaderInsideIff` | sgx-alloc/src/alignalloc.rs:192-220 | for whole objects the header word is inside the block at every address exactly when size and alignment sum to more than 4 |
| `Placement.HeaderOutsideExample` | sgx-alloc/src/alignalloc.rs:215-217 | a one-byte object whose header word starts before its block |
| `Placement.SumsDoNotWrap` | sgx-alloc/src/alignalloc.rs:208-232 | the usize sums of the padded layout and of the block size never wrap |
| `Placement.TotalSizeDetermines` | sgx-alloc/src/alignbox.rs:125-147 | for one object size, two accepted layouts of equal total size are the same layout, whatever was requested |
| `AlignAlloc.AllocWithPadAlignIn` | sgx-alloc/src/alignalloc.rs:192-220 | fails exactly on unfit layouts or a refusing libc and then changes nothing; otherwise the heap stays intact exactly when the header word lies inside the new block, and then that block holds the placed object, a header that names it, and zeros if asked |
| `AlignAlloc.Dealloc` | sgx-alloc/src/alignalloc.rs:223-227 | frees the block that the word stored before the object names |
| `AlignAlloc.AllocWithReq` | sgx-alloc/src/alignalloc.rs:134-185 | an empty list stands for the whole object and succeeds exactly when that and its pad share a cache line and memory is served; any other list succeeds exactly when it is placeable and memory is served; every byte asked for keeps off the forbidden offsets; the heap stays intact exactly when the header word lies inside the block, for whole objects but the smallest always |
| `AlignRuns.WriteStays` | sgx-alloc/src/alignalloc.rs:192-227 | a client write inside an object changes just the bytes asked for and leaves the header readable |
| `AlignRuns.ReleaseFreesOwnBlock` | sgx-alloc/src/alignalloc.rs:223-227 | deallocation removes exactly the block of the object it is given |
| `AlignRuns.RunKeepsInv` | sgx-alloc/src/alignalloc.rs:192-227 | over every sequence of events, behaviour is defined exactly until the first header outside its block; until then the live blocks are those of the live objects, one each, and the bitmaps left behind, and every header still names its block |
| `AlignRuns.SafeRuns` | sgx-alloc/src/alignalloc.rs:192-258 | a run of accepted allocations with pads of 8 or more, or of whole objects but the smallest, never goes wrong at whatever addresses malloc answers |
| `AlignRuns.LiveObjectsApart` | sgx-alloc/src/alignalloc.rs:206-220 | in every reachable state two live objects with their headers share no address |
| `AlignRuns.OnlyBitmapsRemain` | sgx-alloc/src/alignalloc.rs:223-307 | when all objects have been released the heap holds one scratch bitmap for every request list that passed its check, and nothing else |
| `AlignRuns.OthersUntouched` | sgx-alloc/src/alignalloc.rs:192-227 | no event changes the bytes of an object that is not its subject |
| `AlignBox.Box.Guarantee` | sgx-alloc/src/alignbox.rs:192-223 | a box keeps every byte its requests name off the forbidden offsets |
| `AlignBox.Box.AllocateIn` | sgx-alloc/src/alignbox.rs:192-223 | says exactly when no box, an abort or a box results, which bitmaps are left behind, and when the heap stays intact; a box is then zeroed, owned and backed by the one new block |
| `AlignBox.Box.Clone` | sgx-alloc/src/alignbox.rs:103-122 | the clone is placed by the same two layouts, and when its header word lies inside the new block it holds the same bytes there |
| `AlignBox.Box.CloneFrom` | sgx-alloc/src/alignbox.rs:125-147 | in both branches the box ends with the source's bytes, both its layouts and its placement guarantee, the source is unchanged, and the heap holds one block for it; reusing the block never breaks the heap |
| `AlignBox.Box.DeallocBuffer` | sgx-alloc/src/alignbox.rs:151-165 | dropping the buffer frees the box's own block and no other |
| `TcsEvents.RunKeepsInv` | sgx-urts/src/event.rs:27-71 | with at most one wait outstanding, over all interleavings, a queued waiter implies counter -1 and every wake is used once, pending, or owed to the waiter |
| `TcsEvents.CounterConserved` | sgx-urts/src/event.rs:27-71 | the counter is wakes less waits started plus timeouts, never below -1, and waits that returned 0 never exceed wakes |
| `TcsEvents.WakeReleasesWaiter` | sgx-urts/src/event.rs:61-71 | after a wake the outstanding waiter is out of the queue and its next look returns 0 |
| `TcsEvents.TimedAsStarted` | sgx-urts/src/event.rs:27-59 | over every run and any number of waiters, a waiter is timed exactly when its own last wait was started with a timeout |
| `TcsEvents.LookOutcome` | sgx-urts/src/event.rs:36-56 | a waiter's next look returns 0 when the counter lets it; otherwise it times out exactly when its time is up and its wait had a timeout, resetting the counter; otherwise it sleeps on and nothing else changes |
| `TcsEvents.TwoWaitersForget` | sgx-urts/src/event.rs:49-71 | two waits and two wakes can leave a thread asleep at counter 0 |
| `TcsEvents.NeverForgetsIff` | sgx-urts/src/event.rs:27-71 | no reachable state has a sleeper that the counter would let go exactly when at most one wait may be outstanding |
| `TcsOcalls.SeEvent.Wait` | sgx-urts/src/event.rs:49-59 | the counter drops by one; the wait returns 0 at once exactly when it was positive, and otherwise the thread sleeps without a timeout |
| `TcsOcalls.SeEvent.WaitTimeout` | sgx-urts/src/event.rs:27-47 | a negative timeout, or one with nanoseconds of a second or more, is refused with nothing changed; an elapsed one below zero resets the counter and returns ETIMEDOUT; a thread that sleeps does so with its timeout |
| `TcsOcalls.SeEvent.Resume` | sgx-urts/src/event.rs:37-56 | one more turn of the waiting loop: return 0, time out, or sleep again |
| `TcsOcalls.SeEvent.Wake` | sgx-urts/src/event.rs:61-71 | the counter rises by one; only reaching 0 takes some queued thread out of the queue, if there is one, and changes nothing else about it |
| `TcsOcalls.WakePathCounts` | sgx-urts/src/event.rs:179-211 | along the wakes of a list every event is woken as often as its TCS is listed, and no wait ends |
| `TcsOcalls.EventsIdentifyTcs` | sgx-urts/src/event.rs:90-105 | however the cache grows, two lookups give the same event exactly when they are for the same TCS |
| `TcsOcalls.TcsInfoCache.GetEvent` | sgx-urts/src/event.rs:90-105 | answers the known event, or appends a fresh idle one when the TCS is unknown; no event changes |
| `TcsOcalls.TcsInfoCache.SetEvent` | sgx-urts/src/event.rs:114-139 | refuses a null TCS; otherwise the event of that TCS takes one wake step, notification included, and no other event changes |
| `TcsOcalls.TcsInfoCache.SetMultipleEvents` | sgx-urts/src/event.rs:179-211 | one wake step after another in the order of the list, so that every counter rises by the number of times its TCS is listed |
| `TcsOcalls.TcsInfoCache.WaitEvent` | sgx-urts/src/event.rs:142-176 | refuses exactly a null TCS or a timeout out of range and then changes no event; otherwise one wait step on the event of that TCS, known before or not, and on no other; the result follows from the counter, and a thread that sleeps keeps its timeout |
| `TcsOcalls.TcsInfoCache.SetWait` | sgx-urts/src/event.rs:214-226 | a wake of the one event and then a wait on the other, and neither when the set is refused |
| `TcsThreads.SetManyRuns` | sgx-urts/src/event.rs:179-211 | what the list ocall does to the events is what the calling thread can do step by step, and it ends out of the ocall |
| `TcsThreads.SetWaitRuns` | sgx-urts/src/event.rs:214-226 | so for the set and the wait of the combined ocall |
| `TcsThreads.EventRuns` | sgx-urts/src/event.rs:114-226 | however any number of threads interleave inside the four ocalls, what happens to one event is a run of that event |
| `TcsThreads.NobodyEverForgotten` | sgx-urts/src/event.rs:27-226 | when each thread waits only on the TCS it runs on, no event ever forgets a sleeper and no wake is lost or used twice |
| `TcsThreads.HandoverRuns` | sgx-urts/src/event.rs:214-226 | a run in which two threads only hand over to each other is, step by step, a run of the two-thread protocol |
| `TcsThreads.NeverBothAsleep` | sgx-urts/src/event.rs:214-226 | hence they are never both asleep on the events of the cache |
| `Handover.HandoverKeepsInv` | sgx-urts/src/event.rs:214-226 | in every reachable state each thread has woken the other at least once for every wait it has started or is about to start |
| `Handover.NeverBothAsleep` | sgx-urts/src/event.rs:214-226 | two threads that only hand over to each other are never both asleep, timeouts, refused waits and spurious wakeups included |
| `Handover.SomeoneCanMove` | sgx-urts/src/event.rs:214-226 | nor are they ever stuck: some thread has a step of its own to take |
| `Simulate.PatchedMeans` | sgx-urts/src/simulate.rs:76-131 | a patched segment decodes to the original instructions with each prohibited one replaced by UD2 and NOPs |
| `Simulate.PatchedIsClean` | sgx-urts/src/simulate.rs:76-131 | no CPUID, SYSCALL, SYSENTER or INT 0x80 is left in a patched segment |
| `Simulate.PatchedPlaces` | sgx-urts/src/simulate.rs:76-131 | swept again, a byte of a patched segment starts exactly the instruction it started before, if that is none of the four, or belongs to the UD2 and NOPs over one of the four |
| `Simulate.PatchedBytes` | sgx-urts/src/simulate.rs:113-120 | an instruction of the four becomes 0F 0B and bytes 90 over its length; every other keeps its bytes |
| `Simulate.CleanIsUnchanged` | sgx-urts/src/simulate.rs:90-92 | a segment without prohibited instructions keeps all its bytes |
| `Simulate.WriteTrap` | sgx-urts/src/simulate.rs:113-120 | the overwritten bytes become UD2 and NOPs, and no other byte changes |
| `Simulate.PatchSegment` | sgx-urts/src/simulate.rs:77-131 | the loop patches its segment in place, keeps all bytes around it, and counts each kind of prohibited instruction |
| `Simulate.PatchEnclaveBinary` | sgx-urts/src/simulate.rs:27-141 | every executable segment is patched, every other byte is kept, the length is unchanged, each counter is the number of that instruction in the executable segments and the total their sum, and anything but ELF is refused with its own error |
| `Simulate.PatchedFileMeans` | sgx-urts/src/simulate.rs:49-132 | swept again, each executable segment of the file decodes to the replaced instructions and holds none of the four |
| `Simulate.PatchedFilePlaces` | sgx-urts/src/simulate.rs:49-132 | in each executable segment of the file all other instructions stay where they were and each of the four gives way to a trap |
| `Simulate.PatchFileTwice` | sgx-urts/src/simulate.rs:27-141 | patching a patched file changes nothing |
| `SystemAlloc.Alloc` | sgx-alloc/src/system.rs:231-237 | a block of the size and alignment asked for, 16-byte aligned when malloc serves it, or nothing changed when libc refuses |
| `SystemAlloc.AllocZeroed` | sgx-alloc/src/system.rs:240-250 | the same, with every byte zero on both paths |
| `SystemAlloc.Realloc` | sgx-alloc/src/system.rs:258-264 | the old block gives way to one that keeps the bytes that fit, or nothing changed |
| `SystemAlloc.ReallocFallback` | sgx-alloc/src/system.rs:203-219 | allocate, copy and free amount to the same move |
| `SystemAlloc.AllocImpl` | sgx-alloc/src/system.rs:44-58 | an empty layout takes no memory; otherwise fails exactly when libc refuses |
| `SystemAlloc.GrowImpl` | sgx-alloc/src/system.rs:62-106 | in all branches the old bytes are kept, the rest is zero when asked, the address is aligned for the new layout, and a failure leaves the heap as it was |
| `SystemAlloc.Shrink` | sgx-alloc/src/system.rs:154-194 | in all branches the first bytes are kept at the new alignment, an empty layout frees the block, and a failure leaves the heap as it was |
| `SystemAlloc.Deallocate` | sgx-alloc/src/system.rs:123-129 | frees the block of a non-empty allocation and nothing for an empty one |
| `SystemRuns.RunKeepsInv` | sgx-alloc/src/system.rs:44-194 | over every sequence of events and libc failures the live blocks are the client's non-empty allocations, one block each |
| `SystemRuns.LiveBlocksAreHeld` | sgx-alloc/src/system.rs:44-194 | an address is a live block exactly when some non-empty allocation has it, with the size and alignment asked for: no leak and no double free |
| `SystemRuns.BytesKept` | sgx-alloc/src/system.rs:62-194 | resizing keeps the bytes that fit, and no event touches another allocation |
| `SystemRuns.FailuresLeaveNoTrace` | sgx-alloc/src/system.rs:54-194 | leaving the failed calls out of any run leaves a run that ends in the same state |
| `Sealing.ToRaw` | sgx-tseal/src/internal.rs:129-185 | whatever the fields hold, the checks accept exactly values that satisfy the length invariant and fit; then the raw image is written, and otherwise no byte |
| `Sealing.WriteFields` | sgx-tseal/src/internal.rs:160-182 | the stores leave the field-by-field image, with reserved bytes and all beyond the payload kept |
| `Sealing.RawLayout` | sgx-tseal/src/internal.rs:160-182 | which bytes of the raw form hold which field |
| `Bytes.EncodeDigits` | sgx-tseal/src/internal.rs:160-182 | machine words are stored little-endian |
| `Sealing.ParseAcceptsIff` | sgx-tseal/src/internal.rs:188-223 | exactly which buffers parse |
| `Sealing.FromRawInv` | sgx-tseal/src/internal.rs:188-262 | a parsed value satisfies the length invariant and lies within the given length |
| `Sealing.ParseWritten` | sgx-tseal/src/internal.rs:129-262 | parsing what was written gives the sealed value back, whatever the buffer held before |
| `Sealing.WriteParsed` | sgx-tseal/src/internal.rs:129-262 | writing back what was parsed leaves every byte of the buffer unchanged |
| `Sealing.SealInv` | sgx-tseal/src/internal.rs:286-372 | a sealed value's payload size is the sum of its parts, and it carries the additional data and key request it was given |
| `Sealing.MacInv` | sgx-tseal/src/internal.rs:423-499 | the same for a MAC value, whose encrypted part is empty |
| `Sealing.LengthsAreExact` | sgx-tseal/src/internal.rs:97-127 | under the invariant no u32 sum wraps or saturates and the part lengths are the true ones |
| `Sealing.SealAcceptsIff` | sgx-tseal/src/internal.rs:286-372 | exactly which calls seal, by lengths, bits of the policy and the flags, regions, randomness, key and cipher, and that bad arguments are an invalid parameter |
| `Sealing.SealErrors` | sgx-tseal/src/internal.rs:286-372 | how each failure of the platform comes out of a call whose arguments are in order |
| `Sealing.DefaultSealAcceptsIff` | sgx-tseal/src/internal.rs:264-284 | the default call is never refused for its policy or flags, with or without key separation |
| `Sealing.MacAcceptsIff` | sgx-tseal/src/internal.rs:423-499 | exactly which calls authenticate |
| `Sealing.MacErrors` | sgx-tseal/src/internal.rs:423-499 | how failures of the platform come out of them |
| `Sealing.UnsealAcceptsIff` | sgx-tseal/src/internal.rs:374-401 | exactly which values unseal and to what: the length checks amount to the invariant, and all others are a MAC mismatch |
| `Sealing.UnsealErrors` | sgx-tseal/src/internal.rs:570-617 | three key errors are passed on and all others are a MAC mismatch |
| `Sealing.UnmacAcceptsIff` | sgx-tseal/src/internal.rs:501-529 | exactly which values un-MAC; sealed and MAC values are never taken for one another |
| `Sealing.SealUnseal` | sgx-tseal/src/internal.rs:286-401 | unsealing a sealed value gives exactly the original text and additional data |
| `Sealing.SealWriteParseUnseal` | sgx-tseal/src/internal.rs:129-401 | so it does after being written to any buffer that fits and parsed back |
| `Sealing.MacWriteParseUnmac` | sgx-tseal/src/internal.rs:423-529 | the same round trip for data that is only authenticated |
| `TypedSealing.OneAcceptsIff` | sgx-tseal/src/seal.rs:183-197 | exactly which values of a fixed-size type seal |
| `TypedSealing.OneRoundTrip` | sgx-tseal/src/seal.rs:183-371 | a sealed value of a fixed-size type comes back as it was |
| `TypedSealing.OtherSize` | sgx-tseal/src/seal.rs:353-371 | read as a type of another size it is refused with a MAC mismatch |
| `TypedSealing.SliceAcceptsIff` | sgx-tseal/src/seal.rs:503-517 | exactly which slices seal, by element count times element size |
| `TypedSealing.SliceRoundTrip` | sgx-tseal/src/seal.rs:503-692 | a sealed slice comes back element for element, as many as byte length over element size |
| `TypedSealing.OtherElementSize` | sgx-tseal/src/seal.rs:669-692 | read as a slice of another type, sealed data is refused with a MAC mismatch exactly when the element size does not divide its length |
| `TypedSealing.UnsealedAs` | sgx-tseal/src/seal.rs:353-692 | once the length fits the type, a failure to unseal comes out as it is |
| `LayoutTable.Counters.Traverse` | sgx-trts/src/enclave.rs:536-570 | the in-place u32 counters rise by the counts of the fully expanded table, at any nesting |
| `LayoutTable.GetTcsNum` | sgx-trts/src/enclave.rs:517-572 | the three answers are the static, eremove and dynamic TCS counts of the expanded table as u32 values |
| `LayoutTable.GroupAdds` | sgx-trts/src/enclave.rs:560-568 | a group adds the counts of the elements just before it, once for each load time, whatever precedes those |
| `LayoutTable.EntryAdds` | sgx-trts/src/enclave.rs:543-559 | an entry adds itself |
| `LayoutTable.StaticIs` | sgx-trts/src/enclave.rs:544-550 | a static TCS by the bits of its attributes, its content offset and its page type |
| `LayoutTable.EremoveIs` | sgx-trts/src/enclave.rs:544-553 | an eremove TCS likewise |
| `LayoutTable.DynamicIs` | sgx-trts/src/enclave.rs:555-559 | a dynamic TCS by its attribute bit and layout id |
| `LayoutTable.GroupMultiplies` | sgx-trts/src/enclave.rs:561-570 | a group over all that precedes it multiplies every count by its load times and one, so nested groups multiply |
| `MemEq.ConsttimeMemequal` | sgx-trts/src/memeq.rs:76-96 | answers 1 exactly when the two byte strings are equal, for any length, and 0 otherwise |
| `MemEq.SliceMemeq` | sgx-trts/src/memeq.rs:39-54 | true exactly when the slices are equal, through the length and address shortcuts |
| `MemEq.ValueMemeq` | sgx-trts/src/memeq.rs:61-73 | true exactly when the values' bytes are equal, the empty representation included |

## Left out

- TcsOcalls.SeEvent.Wait: ends where the thread returns or goes to sleep, because a blocked call has no sequential meaning; the waiting loop continues in `Resume`.
- TcsOcalls.TcsInfoCache.WaitEvent: likewise ends where the thread sleeps.
- Simulate.PatchEnclaveBinary: requires executable segments in bounds and disjoint, which the source does not check.
- Simulate.PatchFileTwice: takes the segment table of the patched file to be that of the original.
- LayoutTable.Counters.Traverse: requires groups that are loaded again to stay within their span; on others the source panics.
- What undefined behaviour does: once a store has gone outside its block the model says only that it has.
- The contents of the scratch bitmap's block; the bits are kept in an array beside the heap.
- Drop behaviour of cloned temporaries; a boxed or sealed value is its bytes.
- Mutex poisoning, i32 overflow of the event counter, real clocks and validity of the addresses handed to ocalls.
- ELF parsing, the real x86 decoder and logging; they belong to other crates.
- How the key request is assembled from the enclave report, key derivation, random numbers, fences and the wiping of keys; the results are arguments.
- The discriminant bit of the layout union; entry and group are constructors.
- `sgx-tseal/src/aad.rs`, which repeats the typed wrappers for authenticated data.
- The crypto, attestation, reserved-memory and remaining ocall crates: wrappers over libraries that are not in the repository.
- `cargo-sgx`, `sgx-build`, samples and type declarations: process spawning, templates and constants.
