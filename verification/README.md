# Distributed FMM wrapper and driver options, in Dafny

This project models two pieces of the exaFMM code base.

**The C entry points of the distributed molecular-dynamics wrapper** (`wrappers/md_distributed.cxx`):

- **FMM_Partition.** The caller's flat `res_index`/`x`/`q`/`v` arrays become body records. Each body's IBODY packs its ordinal with the 3-bit periodic wrap code above bit 29. After redistribution the records are written back, but only when the new count `*ni` is below `nimax`. The stored wrap code is used to unwrap positions on the way back.
- **FMM_FMM.** Bodies are packed from `res_index`/`x`/`q`/`p`/`f`. Potentials and fields are written back unconditionally. Periodic ghost bodies are then generated from the local and received bodies: for each of the 26 image offsets, the bodies inside the slab next to the opposite face are copied and translated by one period. The ghosts are appended after the `ni` local bodies, but only when `ni + ghosts` is below the incoming `*nj`.
- **MPI_Shift.** A ring rotation in which every rank sends its block to rank `r - 1` and receives from rank `r + 1`. FMM_Cutoff uses it to visit every rank's block. The model also covers the order in which FMM_FMM visits the ranks' local essential trees (LETs).

**The driver options** (`include/args.h`):

- the defaults;
- the long-option table;
- the update each option makes;
- the first-letter distribution decoder `parse`;
- which settings `print` shows.

Modules:

| module | file | content |
|---|---|---|
| `BodyIndex` | body_index.dfy | IBODY bit packing |
| `Bodies` | bodies.dfy | the body record and stride-3 array access |
| `Halo` | halo.dfy | ghost generation |
| `Marshal` | marshal.dfy | packing and capacity-guarded write-back of both entry points |
| `Ring` | ring.dfy | rank arithmetic of the shift and the LET loop |
| `Options` | options.dfy | `args.h`, with the `Option` and `Result` types its parser returns |

Modelling choices:

- Doubles are `real`s.
- IBODY is a `bv32` bit pattern.
- Several things are parameters rather than modelled code:
  - `wrap`/`unwrap`;
  - the tree engine and MPI exchange between packing and write-back;
  - the bodies received from other ranks;
  - `atoi`/`atof`.
- The P ranks' buffers are one sequence indexed by rank.

## Model

| member | source | states |
|---|---|---|
| BodyIndex.MaskIsComplementOfWrapField | wrappers/md_distributed.cxx:86-87 | the mask clears exactly the three bits the wrap code is shifted into |
| BodyIndex.DecodeEncode | wrappers/md_distributed.cxx:98-99 | for an ordinal below 2^29, the index bits and the wrap bits of `i \| (iwrap << 29)` give back the ordinal and the code |
| BodyIndex.DecodeEncodeOrdinal | wrappers/md_distributed.cxx:90-99 | the same round trip for an integer ordinal `0 <= i < 2^29` converted to a 32-bit pattern |
| BodyIndex.EncodeDecode | wrappers/md_distributed.cxx:114 | any 32-bit IBODY is re-encoded exactly from its index bits and its wrap code (the unsigned shift loses nothing) |
| BodyIndex.HighWrapCodeSetsSignBit | wrappers/md_distributed.cxx:99 | wrap codes 4..7 and only those make the packed word negative as a C int |
| BodyIndex.OrdinalOverflowCorruptsWrap | wrappers/md_distributed.cxx:99 | ordinal 2^29 spills into the wrap field: it decodes as wrap code 1 and index 0 |
| Marshal.PackPartition | wrappers/md_distributed.cxx:88-101 | one body per input slot, in slot order: body i has the wrapped position of slot i, its charge as source, its cell index, its velocity followed by 0 as target, and an IBODY whose index bits are i and whose wrap bits are the code `wrap` returned (for ordinals below 2^29) |
| Marshal.WriteBackPartition | wrappers/md_distributed.cxx:109-124 | `*ni` always becomes the body count; when the count is not below `nimax` the arrays are untouched; otherwise slot i receives body i's cell, charge, unwrapped position and first three targets, and every slot past the count keeps its old value |
| Marshal.Partition | wrappers/md_distributed.cxx:81-125 | the new `*ni` is the size of what the exchange returns; the arrays are untouched when it reaches `nimax`; otherwise slot i holds the cell, charge, unwrapped position and velocity of the i-th body the exchange returned, and every slot past the count keeps its old value |
| Marshal.PackedBodyCarriesSlot | wrappers/md_distributed.cxx:88-101 | packed body k carries ordinal k in its index bits, slot k's cell and charge, a position that unwraps to slot k's, and slot k's velocity as its first three targets |
| Marshal.PartitionRoundTrip | wrappers/md_distributed.cxx:88-124 | when no body moves and unwrap inverts wrap, packing then writing back returns the caller's arrays unchanged with `*ni` equal to the original count |
| Marshal.PartitionWriteBackTracksOrdinal | wrappers/md_distributed.cxx:99-123 | when the exchange only reorders this rank's own bodies, each written slot carries the position, charge, velocity and cell of the original slot named by the body's ordinal bits |
| Marshal.WrittenSlotTracksOrdinal | wrappers/md_distributed.cxx:99-123 | the same for one written slot, naming the original slot it came from |
| Marshal.PackFmm | wrappers/md_distributed.cxx:140-155 | one body per local slot, in slot order: body i has slot i's position wrapped twice, its charge and cell, the target `(p[i], f[3i..3i+3])`, and an IBODY whose index bits are i and whose wrap bits are the code of the second wrap (for ordinals below 2^29) |
| Marshal.WriteTargets | wrappers/md_distributed.cxx:192-198 | `p[i]` and `f[3i..3i+3]` receive body i's four targets for every local body, with no capacity test; `res_index`, `x`, `q` and all later slots are unchanged |
| Marshal.PlaceGhosts | wrappers/md_distributed.cxx:230-237 | ghost k's cell, charge and position go to slot `ni + k` of `res_index`, `q` and `x`; the lengths, the local prefix, everything past the ghosts, and `p`, `f` are unchanged |
| Marshal.WriteGhosts | wrappers/md_distributed.cxx:227-238 | `*nj` always becomes `ni` plus the ghost count; when that total is below the incoming `*nj`, slot `ni + k` of `res_index`, `q` and `x` holds ghost k's cell, charge and position while the local prefix, the entries past the ghosts, `p` and `f` keep their values; otherwise nothing changes |
| Marshal.Fmm | wrappers/md_distributed.cxx:127-238 | `*nj` is `ni` plus the ghost count; the evaluated targets land in `p[i]` and `f[3i..3i+3]` and the rest of `p` and `f` is unchanged; when the total reaches the incoming `*nj`, `res_index`, `x` and `q` are unchanged; otherwise the ghosts built from the local bodies followed by the received ones fill slots `ni..` and the entries before and after them are unchanged |
| Marshal.FmmWithoutInteractionOrRoom | wrappers/md_distributed.cxx:127-238 | when evaluation leaves the packed targets as they were and the ghosts do not fit, FMM_FMM gives all five arrays back unchanged |
| Marshal.FmmTargetsRoundTrip | wrappers/md_distributed.cxx:140-155 | if evaluation leaves the targets as packed, writing them back returns `p` and `f` unchanged |
| Halo.StepOfStep | wrappers/md_distributed.cxx:203-205 | the position of the step-k offset in the x/y/z loop nest is k |
| Halo.StepStepOf | wrappers/md_distributed.cxx:203-205 | every unit offset is reached by the loop nest, at the step its coordinates name |
| Halo.NormZeroIsOrigin | wrappers/md_distributed.cxx:206 | the `norm(iX) != 0` test skips exactly the central step 13 |
| Halo.Offsets | wrappers/md_distributed.cxx:203-206 | the image offsets are 26 unit offsets other than the origin, every such offset is among them, and they come in strictly increasing lexicographic order, so none twice |
| Halo.NeighbourIsImage | wrappers/md_distributed.cxx:203-206 | the k-th offset of the loop nest without its centre is a unit offset other than the origin |
| Halo.ImageIsNeighbour | wrappers/md_distributed.cxx:203-206 | every unit offset other than the origin is the k-th of them for some k below 26 |
| Halo.NeighboursAscend | wrappers/md_distributed.cxx:203-205 | a later offset of the loop nest is lexicographically greater than an earlier one |
| Halo.ShiftAxisIsProduct | wrappers/md_distributed.cxx:218-220 | the per-axis translation equals `x + iX[d] * cycles[d]` |
| Halo.Translate | wrappers/md_distributed.cxx:217-220 | a ghost copy keeps charge, targets, IBODY and cell; for a unit offset its position on each axis d is `X[d] + iX[d] * cycles[d]` |
| Halo.SelectedIffInSourceSlabs | wrappers/md_distributed.cxx:207-216 | the strict box test with the cut-down bounds is the same as: for each axis, inside the slab of width `cutoff` at the face opposite to the offset, or inside the open period when the offset is 0 |
| Halo.AxisShift | wrappers/md_distributed.cxx:210-220 | on one axis, a coordinate lies in the source slab iff its translated copy lies in the image slab beyond the near face |
| Halo.SelectedIffCopyInImageSlabs | wrappers/md_distributed.cxx:207-220 | a body is copied for an offset iff its translated copy lies within `cutoff` outside the period on every axis where the offset is non-zero and inside the period elsewhere |
| Halo.CopyInHaloShell | wrappers/md_distributed.cxx:207-220 | for a positive period, each copy lies outside the primary box on some axis and within `cutoff` of it on all axes |
| Halo.LayerMembers | wrappers/md_distributed.cxx:213-222 | the bodies produced for one offset are exactly the translations of the selected candidates |
| Halo.LayersMembers | wrappers/md_distributed.cxx:203-226 | after the first m offsets, the ghost list holds exactly the translations of candidates selected for one of those offsets |
| Halo.GhostsMembers | wrappers/md_distributed.cxx:199-226 | a body is a ghost iff it is the translation, for one of the 26 offsets, of a candidate inside that offset's selection box |
| Halo.GhostsLieInHaloShell | wrappers/md_distributed.cxx:199-226 | every ghost comes from a candidate, keeps its charge and cell, and lies in the `cutoff` shell around the primary box |
| Halo.LayerOfNeighbour | wrappers/md_distributed.cxx:213-222 | the layer of the k-th image offset holds exactly the copies made for that offset |
| Halo.SweptIsLayers | wrappers/md_distributed.cxx:203-226 | the list the first k steps of the loop nest build equals the layers of the image offsets visited so far, in visiting order |
| Halo.SweptAdvance | wrappers/md_distributed.cxx:203-206 | the step at a unit offset appends that offset's layer, and appends nothing exactly when the offset's norm is zero |
| Halo.SweptAll | wrappers/md_distributed.cxx:203-226 | after all 27 steps the list is the full ghost list |
| Halo.SelectLayer | wrappers/md_distributed.cxx:213-222 | the candidate loop for one offset produces that offset's layer, in candidate order |
| Halo.SweepStep | wrappers/md_distributed.cxx:206-223 | one pass of the innermost loop body advances the ghost list by exactly one step of the nest |
| Halo.SweepZ | wrappers/md_distributed.cxx:205-224 | the innermost loop advances the ghost list by three steps |
| Halo.SweepY | wrappers/md_distributed.cxx:204-225 | the middle loop advances the ghost list by nine steps |
| Halo.GenerateGhosts | wrappers/md_distributed.cxx:199-226 | the three nested loops produce exactly the ghost list |
| Ring.AheadIsMod | wrappers/md_distributed.cxx:177-178 | the rank k places ahead of r is `(r + k) % P`, a valid rank |
| Ring.SendRecvPair | wrappers/md_distributed.cxx:294-295 | the two neighbour ranks are valid ranks, and sends pair with receives: r's send target receives from r, and r's source sends to r |
| Ring.ShiftRank | wrappers/md_distributed.cxx:293-312 | rank r receives its successor's count and the entries its successor had in use; when they fit, the buffer keeps its size and its entries past the new count |
| Ring.ShiftMovesBlocks | wrappers/md_distributed.cxx:293-312 | when all buffers have the same capacity, a shift keeps the capacities; rank r then holds its successor's block and count, the buffer past the new count is unchanged, and r's own block has moved to its predecessor |
| Ring.ShiftOneRank | wrappers/md_distributed.cxx:302-310 | the entries rank r has in use after a shift are its successor's |
| Ring.ShiftsRotate | wrappers/md_distributed.cxx:355-358 | after k <= P shifts, rank r holds the block that the rank k places ahead of it, `(r + k) % P`, started with |
| Ring.LetOrderVisitsEachRankOnce | wrappers/md_distributed.cxx:177-178 | the LET loop starts at the calling rank and visits every rank exactly once |
| Ring.CutoffOrderVisitsEachRankOnce | wrappers/md_distributed.cxx:355-358 | the direct-sum loop works on every rank's block exactly once and ends with its own |
| Ring.RotationVisitsEachRankOnce | wrappers/md_distributed.cxx:177-178 | P consecutive ranks taken modulo P are a permutation of the ranks |
| Ring.CutoffStep | wrappers/md_distributed.cxx:355-358 | iteration `irank` shifts once more and then finds at rank r the original block of the rank listed at position `irank` of the cutoff order |
| Ring.SeenExtends | wrappers/md_distributed.cxx:355-358 | recording the next block in cutoff order keeps the record of blocks seen in cutoff order |
| Ring.CutoffBlocks | wrappers/md_distributed.cxx:355-358 | in iteration `irank`, rank r works on the original block of the rank `irank + 1` places ahead of it, `(r + irank + 1) % P` |
| Options.TableShape | include/args.h:9-22 | eleven named entries with distinct names and distinct codes, none `'?'`; only `help` takes no argument; no flag pointers; an all-zero terminator |
| Options.CodesAreTableCodes | include/args.h:9-20 | the codes that set a field are exactly the codes of the first ten table entries |
| Options.Lookup | include/args.h:9-22 | a name gets its entry's code when it is in the table, and `'?'` exactly when it is not |
| Options.ParseDistribution | include/args.h:65-80 | success iff the argument is non-empty and starts with l, c, s or p; the result is the distribution name with that first letter; otherwise an invalid-distribution exit naming the argument |
| Options.DistributionByFirstCharacter | include/args.h:66 | arguments with the same first character decode alike |
| Options.DistributionFixedPoint | include/args.h:65-74 | decoding a decoded name gives it back |
| Options.DistributionExamples | include/args.h:65-78 | "cubic" and "cx" give cube; "" and "x" are rejected |
| Options.SettingsDetermineArgs | include/args.h:26-35 | the ten option-set fields make up the whole record |
| Options.Apply | include/args.h:89-126 | an accepted option overwrites its own field with the converted argument and leaves every other field alone; help, unknown codes and a bad distribution end parsing, with usage showing the settings so far |
| Options.NoOptionsGiveDefaults | include/args.h:83-84 | with no options the settings are 1000000, 100, 16, 1000, 0, 0.4, 1, 1, "cube", 1 |
| Options.Parse | include/args.h:83-128 | the constructor exits exactly when some option is rejected; otherwise every field holds what the last option with its code set, or its default when no option carried that code |
| Options.ParseFailsIffRejected | include/args.h:85-127 | parsing fails iff some token is rejected |
| Options.FailureIsFinal | include/args.h:120-125 | after an exit, later tokens change nothing |
| Options.ParseStopsAtFirstRejected | include/args.h:85-127 | the exit comes from the first rejected token, and a usage exit shows the settings as they were after the tokens before it |
| Options.LastWithIsLast | include/args.h:85-119 | no token is found for a code exactly when no token carries it; a token found carries the code and no later token does |
| Options.LastOccurrenceWins | include/args.h:85-119 | after a successful parse each field holds what its last option set, or the starting value when the option never appeared |
| Options.Print | include/args.h:130-156 | every line shows the value of its key (P, or the field its option code sets); verbose: ten lines in the order numBodies, P, theta, ncrit, nspawn, images, mutual, verbose, distribution, repeat; otherwise one numBodies line exactly on rank 0 and none elsewhere |
| Options.KeyText | include/args.h:9-20 | a field's printed label is the long-option name of the table entry whose code sets that field |
| Options.VerboseLabelsAreOptionNames | include/args.h:133-151 | the ten verbose labels are "P" and the long-option names of the fields shown |
| Options.PrintShowsAllButNumTargets | include/args.h:130-151 | the verbose printout has a line for every option-set field except numTargets |
| Options.NumTargetsNeverPrinted | include/args.h:130-156 | no printout, verbose or not, has a numTargets line or the numTargets label |

## Left out

- The tree engine between packing and write-back is the `exchange`/`evaluate` parameter. This covers bounds, octsection, body communication, tree build, upward and downward passes, LET setup, traversal, grafting and dipole correction. Its code is not part of this model.
- `wrap` and `unwrap` are function parameters, because their bodies are not in the wrapper file.
- The bodies received from other ranks are a parameter, because they come from MPI.
- FMM_Init, FMM_Finalize, FMM_Ewald, Dipole_Correction and the kernel arithmetic of FMM_Cutoff (the direct sum, `prange`, the 1000000-entry scratch buffers) are not modelled. They are numerics, I/O or object lifetime.
- Logging, timers, PAPI counters and the thread count are side effects with no data flow into the arrays.
- Doubles are `real`s, so rounding is not modelled. This includes `cycles * 0.5`, the cutoff bounds and the float arithmetic in the translation.
- Marshal.WriteBackPartition: the `size_t` to `int` narrowing of `*ni` is not modelled. Counts are unbounded integers.
- Marshal.WriteGhosts: `ni + bodies.size()` is not narrowed to a C int either.
- Marshal.Partition, Marshal.Fmm: a negative count is not modelled. In C++ `Bodies bodies(*ni)` and `Bodies bodies(ni)` (md_distributed.cxx:88, 140) turn it into a huge `size_t` and the vector constructor throws `std::length_error`; the model requires a non-negative count.
- Marshal.PackPartition: bodies start with a zero fourth target component. In the source that component is whatever the Body constructor leaves. Nothing reads it back.
- Halo.ShiftAxisIsProduct: the translation is defined by cases on the offset component. It coincides with `iX[d] * cycles[d]` only for the unit offsets the loop nest produces.
- Halo.CopyInHaloShell: requires a positive period. With a non-positive cycle the selection box is empty or inverted and the claim is vacuous or false.
- Marshal.WriteBackPartition: the guard `*ni < nimax` is strict as written, so a count equal to `nimax` is not written back. The model follows this; the source gives no evidence that it is a mistake.
- The `mask` constant is declared in both entry points but never used. The model decodes the index with it anyway.
- Marshal.PartitionWriteBackTracksOrdinal: states the ordinal as an existential over matching slots. It does not state it as a unique slot, because the model does not prove that the integer-to-32-bit conversion is injective.
- An ordinal of 2^29 or more collides with the wrap field: the OR at md_distributed.cxx:99 mixes its high bits into the wrap code (BodyIndex.OrdinalOverflowCorruptsWrap). Wrap codes 4 to 7 set the sign bit of the signed IBODY (BodyIndex.HighWrapCodeSetsSignBit). The model uses the 32-bit pattern throughout.
- Marshal.PackPartition, Marshal.PackFmm: the index and wrap bits of IBODY are stated only for ordinals below 2^29; above that they collide as just described.
- getopt_long itself is not modelled: option permutation, abbreviated names, `--name=value` and "missing argument" handling. The parser consumes the (code, optarg) tokens getopt_long returns, and Options.Lookup models only the exact-name table lookup.
- `atoi`/`atof` are parameters, including their overflow and garbage-input behaviour.
- The usage text's formatting is left out. The usage exit carries the whole settings record reached so far; the message prints every field of it except `repeat`, whose `--repeat` line has no value.
- `print`'s column widths and `std::fixed` are left out; lines carry a label and a value.
- `exit(0)` is modelled as a `Failure` result. The process exit status (0 on every path) is not.
- Ring.ShiftRank: the two message exchanges of MPI_Shift (count, then data) are one synchronous step over all ranks. Non-blocking requests and waits are not modelled. A received count larger than the receiving buffer overruns it in C; the model lets the buffer hold exactly the received entries instead. Ring.ShiftMovesBlocks assumes equal capacities, as the scratch buffers of FMM_Cutoff have, so that case does not arise there.
