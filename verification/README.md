# Verified models of the analysis tools

A Dafny model of the algorithms inside the Python tools of this repository, with proofs of what those
algorithms are meant to guarantee. Functions and lemmas describe what a tool computes; methods with loops,
arrays and classes follow its own loops and mutable objects, and are proved against those functions.
`dafny verify dfyconfig.toml` checks everything.

Compilers, emitters, guest runs, digests, classifiers, disc sectors and file failures are parameters: every
statement holds for all of their behaviours. A round of the expansion loop is a deterministic function of the
ordered seed list; the digest of a signature and the key of a cached object are assumed injective or sound
only where a lemma says so.

| modules | model |
|---|---|
| PhaseB, Checkpoints, Numerals | the expansion loop of the startup bridge, its checkpoint, and the outer loop that resumes batches |
| CopyAlias, AliasDiscovery | the search for verbatim copies, the alias merge, and the bounded discovery rounds |
| ObjectCache, CacheTrim | the content-addressed object cache, concurrent compilation, and size-bounded eviction |
| GuestTime, Rf5c164, PcmStream, CdDa | the Sega CD audio reference: time line, sound chip, lazy PCM stream, CD-DA placement and streaming |
| Mc68000, FixtureRom, UploadedEpoch | the two-pass mini-assembler of the Z80 fixtures, a step semantics that gives its loaders a meaning, and the signature of what they upload |
| KeyedTrace, FieldDiff, CpuDivergence, DeviceDivergence | the two first-divergence comparators |
| EpochSignature | the activation signature of Z80 image epochs |
| WitnessChain | memoised attribution of missing PCs |
| NativeExec | the crash-restarting executor |
| Rle, FontAtlas, RankSelect | run-length scenes with their C decoder, the packed font atlas, budgeted rank selection |
| Basics | shared vocabulary |

## Findings

Where the code meets a promise only under a condition, the condition is proved, as an equivalence where one is stated.

- `merged == aliases` means that a proposal added nothing, but not the other way round: with two interleaving
  deltas a proposal that adds no pair still changes the list. `UnchangedIffCovered` says exactly when it does not.
- The documentation of `derive_copy_alias` says that of several identical occurrences the lowest even one is used. The
  code takes the longest run, and the lowest only among equally long ones. The two agree exactly when no other even
  occurrence extends to a longer run (`LowestIsUsedIff`); `LaterOccurrenceMayWin` is an input where they do not.
- The CPU comparator forgets the order of writes to different destinations. For one boundary that is sound exactly when
  no two final writes put different bytes at one address (`OrderMattersIffConflict`); destinations that do not overlap
  are one such case, and `OverlapMatters` is an input where it fails.
- The device tool reports a CPU divergence the CPU tool does not have exactly when every boundary of both CPU streams
  agrees on all four streams, the limit reaches further, and a device stream goes on. A device stream that is merely
  longer is not enough: an earlier stop hides it.
- `native_exec` is complete exactly when no word first stands behind a larger crashing word; ascending words are one such
  case, and `LargerCrashHides` is an order that is not. Its two one-sided promises hold for every word list.
- A checkpoint gives roots back exactly when they are distinct and below 2^32; roots the loop itself adds always are.
- An upload of length zero would transfer 65536 bytes; lengths 1..65536 transfer exactly themselves.
- A stored empty object never verifies, so it is compiled again each time.
- Full recall holds exactly when the last positive cell of the ranking is within the budget. `cells_needed` also counts the
  unlabelled cells tied behind that one, so it decides full recall exactly unless the budget ends among those.
- Glyphs up to 256 pixels wide read back, one more than the packing test `x + w + 1 > 256` suggests.

## Model

| member | source | states |
|---|---|---|
| PhaseB.RunExpansionLoop | tools/genesis_startup_bridge.py:1679-1799 | One batch is exactly what the unbounded exploration prescribes within its two budgets: the seeds are a trail of boundaries it really observed, and it stops at the first terminal round or with both budgets respected |
| PhaseB.TrailKeeps | tools/genesis_startup_bridge.py:1780-1793 | Along any expansion the initial roots stay as a prefix, new roots are 24-bit and not repeated, and each one uses up one address not yet seen |
| PhaseB.FullBatch | tools/genesis_startup_bridge.py:1784-1799 | A batch that ends `phase_b_batch_complete` added exactly min(seed budget, round budget) new roots, and exploring on from them has the outcome of exploring from the start |
| PhaseB.BatchIsTransparent | tools/genesis_startup_bridge.py:1679-1799 | For any budgets of at least one, a batch either returns the unbounded loop's result or stops at roots from which that result is still reached |
| PhaseB.ExploreFromTrail | tools/genesis_startup_bridge.py:1685-1693 | Resuming the unbounded loop at any point of its own trail changes only the round number |
| PhaseB.ExploreRounds | tools/genesis_startup_bridge.py:1708-1760 | The outcome of exploring from a seed list does not depend on the round it starts in |
| PhaseB.ExploreNeverBatchComplete | tools/genesis_startup_bridge.py:1784-1799 | The unbounded loop never ends with `phase_b_batch_complete` |
| PhaseB.ExploreKeeps | tools/genesis_startup_bridge.py:1695-1703 | The roots returned by the unbounded loop extend the initial ones, are 24-bit and stay distinct |
| PhaseB.ExploreReportsLastRound | tools/genesis_startup_bridge.py:1708-1783 | The outcome reports the round of the returned roots: status 0 with report, executable and seed count exactly for completed, limit, stop and no-progress rounds, each with its driver result; each failing round with its status, driver result and message; every earlier round added one root |
| PhaseB.ChainIsTransparent | tools/genesis_startup_bridge.py:2480-2497 | Whatever budgets each batch has, the first result of a chain of batches that is not batch-complete is the unbounded loop's result; a chain is no longer than the unseen 24-bit addresses plus one, without the cap on batches |
| Checkpoints.ValidSeedList | tools/genesis_startup_bridge.py:730-740 | True exactly when every entry is eight lower-case hex digits and no entry is repeated |
| Checkpoints.LoadCheckpoint | tools/genesis_startup_bridge.py:743-769 | The saved roots when version, every binding field and the list are accepted, otherwise none; roots are returned only from a file of this version bound to exactly this image and these hints |
| Checkpoints.ForeignCheckpointIsIgnored | tools/genesis_startup_bridge.py:763-768 | Roots saved under one binding are not loaded under another, nor from another version |
| Checkpoints.BadListIsIgnored | tools/genesis_startup_bridge.py:730-740 | One malformed or repeated entry discards the whole list |
| Checkpoints.LoadedIsClean | tools/genesis_startup_bridge.py:743-769 | Whatever the file holds, the loaded roots are distinct and fit 32 bits |
| Checkpoints.HexSeedFits | tools/genesis_startup_bridge.py:778 | A root written as `08x` is accepted back exactly when it is below 2^32, and then reads as itself |
| Checkpoints.CheckpointRoundTrip | tools/genesis_startup_bridge.py:743-780 | Load after save gives the same roots exactly when they are distinct and below 2^32 |
| PhaseB.Session.DiagnoseFrontier | tools/genesis_startup_bridge.py:2480-2505 | Load, batch and save until a terminal result or the cap: the file holds the returned roots, they extend the loaded ones; below the cap the result is the unbounded one, at the cap every batch was full and the unbounded result is still reached from the file |
| Numerals.ParseRender | tools/genesis_startup_bridge.py:778 | Printing a number and reading it back is the identity |
| Numerals.RenderFits | tools/genesis_startup_bridge.py:778 | A numeral has at most `width` digits exactly when the number is below base^width |
| Numerals.ParseInjective | tools/genesis_startup_bridge.py:735-739 | Equally long digit strings that read as the same number are the same |
| Numerals.PaddedInjective | tools/m68k_first_divergence.py:72 | Zero padding never merges two numbers |
| Rf5c164.Written | tools/sega_cd_audio_expect.py:51-81 | Every register write keeps the chip well formed: phase addresses stay below 2^27, register fields in range |
| Rf5c164.ResetMeans | tools/sega_cd_audio_expect.py:40-49 | Reset leaves empty wave RAM, open pans, zero registers, nothing running and the chip off |
| Rf5c164.FrequencyBytes | tools/sega_cd_audio_expect.py:59-62 | Registers 2 and 3 are low and high byte of the selected channel's frequency, in either order, and change nothing else |
| Rf5c164.LoopBytes | tools/sega_cd_audio_expect.py:63-66 | Registers 4 and 5 likewise for the loop address |
| Rf5c164.SelectChannel | tools/sega_cd_audio_expect.py:71-76 | Register 7 with bit 6 selects the channel in its low bits; the top bit enables the chip |
| Rf5c164.SelectBank | tools/sega_cd_audio_expect.py:71-76 | Register 7 without bit 6 selects the bank in its low bits |
| Rf5c164.WaveWrite | tools/sega_cd_audio_expect.py:53-54 | A byte written through the window stands at bank * 4096 + offset and nowhere else |
| Rf5c164.StartAddressMeans | tools/sega_cd_audio_expect.py:67-70 | A start address takes effect at once on a stopped channel, and never on a running one |
| Rf5c164.StartStopMeans | tools/sega_cd_audio_expect.py:77-81 | Channels with a clear bit run; each other one, and no running one, is set back to its start address |
| Rf5c164.PhaseAfter | tools/sega_cd_audio_expect.py:90-97 | Away from loop markers a channel reads, after n samples, at its phase plus n frequencies modulo 2^27 |
| Rf5c164.LoopsAtMarker | tools/sega_cd_audio_expect.py:91-95 | At a marker the byte at the loop address is played and the channel goes on from there |
| Rf5c164.Sampled | tools/sega_cd_audio_expect.py:83-102 | A sample keeps the chip well formed; phase addresses stay below 2^27 |
| Rf5c164.MixDifference | tools/sega_cd_audio_expect.py:98-101 | Before clamping, the two rounding rules differ per side by at most the number of running channels with a negative sample |
| Rf5c164.RoundingBound | tools/sega_cd_audio_expect.py:9-10 | After clamping too: the difference is between zero and that number for every chip state |
| Rf5c164.Rf5c164.constructor | tools/sega_cd_audio_expect.py:37-38 | A new chip is the reset chip |
| Rf5c164.Rf5c164.Reset | tools/sega_cd_audio_expect.py:40-49 | Reset gives the power-on state whatever came before |
| Rf5c164.Rf5c164.StartStop | tools/sega_cd_audio_expect.py:77-81 | Register 8: the whole new state is the specified one; stopped channels sit at their start address |
| Rf5c164.Rf5c164.WriteChannel | tools/sega_cd_audio_expect.py:55-66 | Registers 0 to 5 change only the selected channel's envelope, pan, frequency or loop address, byte by byte |
| Rf5c164.Rf5c164.WriteControl | tools/sega_cd_audio_expect.py:67-76 | Registers 6 and 7: start address, selection of channel or bank, enable bit |
| Rf5c164.Rf5c164.Write | tools/sega_cd_audio_expect.py:51-81 | Any register write leads to the specified state; unused registers change nothing |
| Rf5c164.SampleFromRegisters | tools/sega_cd_audio_expect.py:83-102 | A pair is the chip's output exactly when each side is the clamped sum of parts that have the sign of the channel's byte and a magnitude m with 32m at most, and 32(m+1) above, magnitude * nibble * envelope: low pan nibble left, high nibble right |
| Rf5c164.PannedAway | tools/sega_cd_audio_expect.py:100-101 | A side from which every running channel is panned away is silent |
| Rf5c164.Rf5c164.Sample | tools/sega_cd_audio_expect.py:83-102 | The returned pair is that sample of the registers before, and the new phases are the specified ones |
| Rf5c164.Rf5c164.SampleChannel | tools/sega_cd_audio_expect.py:87-101 | Left and right are the channel's parts under the low and the high pan nibble, nothing at a double marker, and only that channel's phase moves |
| GuestTime.FrameTimeIsFloor | tools/sega_cd_audio_expect.py:26-27 | The split formula is floor(n*TPS/44100) |
| GuestTime.FrameTimeMonotone | tools/sega_cd_audio_expect.py:26-27 | Later frames fall on later ticks |
| GuestTime.BracketSuffices | tools/sega_cd_audio_expect.py:173 | The initial upper bracket of the search already lies at or after the tick |
| GuestTime.FirstFrameAtOrAfter | tools/sega_cd_audio_expect.py:172-180 | The result is the least frame at or after the tick: exactly the smaller frames lie before it |
| PcmStream.WriteStep | tools/sega_cd_audio_expect.py:123-130 | A register write applied early, before its sample event, keeps the relation to the tick-by-tick simulation |
| PcmStream.ResetStep | tools/sega_cd_audio_expect.py:125-127 | A reset re-bases the sample grid at its own instant and keeps the relation |
| PcmStream.EventStep | tools/sega_cd_audio_expect.py:131-134 | Taking the sample keeps the relation for the next event of the grid |
| PcmStream.FrameStep | tools/sega_cd_audio_expect.py:131-135 | When the next event lies after the frame's tick, the held value is the simulation's at that tick |
| PcmStream.HeldSample | tools/sega_cd_audio_expect.py:116-136 | What the simulation holds is the sample of the registers at the latest sample event, accesses of that instant included |
| PcmStream.NothingHeld | tools/sega_cd_audio_expect.py:118 | Before the first sample event it holds silence |
| PcmStream.SampleEventsAre | tools/sega_cd_audio_expect.py:122-134 | Sample events are exactly the whole periods behind the last reset, or power-on, its own instant included |
| PcmStream.PcmStream.ApplyNext | tools/sega_cd_audio_expect.py:123-130 | One access keeps the stream in step with the simulation of the accesses applied so far |
| PcmStream.PcmStream.ApplyDue | tools/sega_cd_audio_expect.py:122-130 | Afterwards no pending access is due at or before the next event |
| PcmStream.PcmStream.TakeSample | tools/sega_cd_audio_expect.py:133-134 | The held value moves to this event; the next event is one period later |
| PcmStream.PcmStream.AdvancePast | tools/sega_cd_audio_expect.py:121-134 | Ends with the next event after the tick, for every time-sorted trace, resets included; the loop's termination is by pending accesses and periods left |
| PcmStream.PcmStream.Next | tools/sega_cd_audio_expect.py:116-136 | The n-th value yielded is what a simulation that visits every tick (access before sample at the same instant) holds at frame_time(n) |
| PcmStream.PcmReference | tools/sega_cd_audio_expect.py:139-141 | The first `frames` values, each equal to the tick-by-tick simulation |
| CdDa.PlaceRun | tools/sega_cd_audio_expect.py:188-197 | A run starts at the first frame not before its tick nor before the free frame, and has the largest unbroken number of heard sectors within the output |
| CdDa.PlaceRuns | tools/sega_cd_audio_expect.py:183-198 | Every run is so placed behind its predecessor, and the segments are ordered and do not overlap |
| CdDa.PlacedIsOrdered | tools/sega_cd_audio_expect.py:183-198 | Placement behind the predecessor is enough for pairwise order |
| CdDa.ScaleShrinks | tools/sega_cd_audio_expect.py:201-203 | A scaled sample keeps its sign, is no larger in magnitude, commutes with negation, and is unchanged at full volume |
| CdDa.ScaleExact | tools/sega_cd_audio_expect.py:201-203 | At volumes that are multiples of four or below four, 1024 q scales to exactly q * volume |
| CdDa.ScaleBetween | tools/sega_cd_audio_expect.py:201-203 | At those volumes every other sample scales to the product over 1024 without its fraction |
| CdDa.ScaleDropsLowBits | tools/sega_cd_audio_expect.py:202 | At all other volumes the two low bits do not matter |
| CdDa.FadedMeans | tools/sega_cd_audio_expect.py:213-216 | A fader event leaves the volume and sets the target, to at most 1024; a reset sets both to 1024 |
| CdDa.FadeAfter | tools/sega_cd_audio_expect.py:227-230 | A fade is gradual: after n played frames the volume is n nearer to its target, or there |
| CdDa.FrameReadsBack | tools/sega_cd_audio_expect.py:225 | Every pair of 16-bit samples is read back from the four bytes that store it, left before right, low byte first |
| CdDa.VolumeInRange | tools/sega_cd_audio_expect.py:208-230 | The volume stays within 0..1024 at every frame, whatever the fader log holds |
| CdDa.CoverIsUnique | tools/sega_cd_audio_expect.py:183-198 | At most one segment covers a frame |
| CdDa.CdFrameNotLouder | tools/sega_cd_audio_expect.py:225-231 | A played frame is never louder than the disc sample it comes from and keeps its sign |
| CdDa.AdvanceFader | tools/sega_cd_audio_expect.py:212-217 | The loop consumes events up to the first one after the tick, and the level is theirs applied in log order |
| CdDa.AppliedIffDue | tools/sega_cd_audio_expect.py:212-217 | At every frame an event has been applied exactly when it and all events logged before it are at or before the frame's tick |
| CdDa.AppliedIffNotLater | tools/sega_cd_audio_expect.py:212-217 | For a time-sorted log: exactly the events at or before the frame's tick |
| CdDa.TargetIsLast | tools/sega_cd_audio_expect.py:208-216 | At every frame the fader heads for the target of the last applied event, at most 1024, and for 1024 after a reset or without events |
| CdDa.VolumeMoves | tools/sega_cd_audio_expect.py:227-233 | Between events the volume moves one step toward its target after a frame that played, and not at all after a silent one |
| CdDa.AdvancePointer | tools/sega_cd_audio_expect.py:218-219 | The pointer stops at the first segment not over |
| CdDa.ReadFrame | tools/sega_cd_audio_expect.py:221-225 | The sample read through the one-sector cache is the one read directly |
| CdDa.CddaStream | tools/sega_cd_audio_expect.py:206-233 | Every emitted frame equals the direct lookup of the covering segment at the volume defined frame by frame; silence exactly where no segment covers the frame |
| Mc68000.XorTwice | tools/genesis_z80_fixture_rom.py:142-144 | Exclusive or with one key twice gives the byte back |
| Mc68000.CopyTurn | tools/genesis_z80_fixture_rom.py:127-131 | Under the instruction semantics one turn of the copy loop stores one byte, moves both pointers and counts down |
| Mc68000.DecodeTurn | tools/genesis_z80_fixture_rom.py:141-147 | One turn of the decoding loop stores the source byte xor the key |
| Mc68000.LoopUploads | tools/genesis_z80_fixture_rom.py:120-147 | From any ready CPU the loop runs through, transfers exactly its count of bytes through the key, stores to exactly those addresses, and leaves the PC behind the loop |
| Mc68000.UntouchedStays | tools/genesis_z80_fixture_rom.py:120-147 | A byte no instruction stored to is unchanged by a run |
| Mc68000.DelaySpins | tools/genesis_z80_fixture_rom.py:104-109 | The delay loop runs its count down to zero and falls through |
| FixtureRom.M68k.constructor | tools/genesis_z80_fixture_rom.py:58-62 | An empty program at its base address |
| FixtureRom.M68k.W | tools/genesis_z80_fixture_rom.py:68-70 | Appends the values masked to 16 bits and nothing else |
| FixtureRom.M68k.Label | tools/genesis_z80_fixture_rom.py:75-76 | Binds the name to the current address and keeps everything else |
| FixtureRom.M68k.Fixup | tools/genesis_z80_fixture_rom.py:122-123 | Reserves one zero word and records it for the second pass |
| FixtureRom.M68k.Branch | tools/genesis_z80_fixture_rom.py:99-102 | Appends the opcode and a reserved displacement for the label |
| FixtureRom.M68k.Delay | tools/genesis_z80_fixture_rom.py:104-109 | Appends the delay code whose meaning DelayMeans gives |
| FixtureRom.M68k.CopyToZ80 | tools/genesis_z80_fixture_rom.py:120-131 | Appends the copying upload whose meaning UploadMeans gives |
| FixtureRom.M68k.CopyDecodedToZ80 | tools/genesis_z80_fixture_rom.py:133-147 | Appends the decoding upload whose meaning UploadMeans gives |
| FixtureRom.M68k.Data | tools/genesis_z80_fixture_rom.py:223-227 | Appends the label and the payload as big-endian words, padded to even length |
| FixtureRom.M68k.Resolve | tools/genesis_z80_fixture_rom.py:229-240 | Succeeds exactly when every referenced label is defined; then each reserved word holds its label's displacement, all other words are as emitted, and the code is their big-endian bytes |
| FixtureRom.LabelOfPcrel | tools/genesis_z80_fixture_rom.py:232-233 | The reserved suffix names the label without it |
| FixtureRom.LabelOfDbra | tools/genesis_z80_fixture_rom.py:234-235 | Likewise for the loop suffix |
| FixtureRom.ResolvedKeeps | tools/genesis_z80_fixture_rom.py:229-240 | Emitting more code later never disturbs what was emitted earlier, except the words reserved for its labels |
| FixtureRom.ResolvedUpload | tools/genesis_z80_fixture_rom.py:120-147 | The resolved words at an upload's place are the loader head with the program's displacement followed by the loop |
| FixtureRom.UploadCountIsLength | tools/genesis_z80_fixture_rom.py:126 | Lengths 1..65536 transfer exactly that many bytes; zero transfers 65536 |
| FixtureRom.UploadMeans | tools/genesis_z80_fixture_rom.py:120-147 | Running the resolved upload, whatever surrounds it, stores exactly the counted program bytes (through the key) at the destination, changes no other memory, and continues behind the code |
| FixtureRom.DelayMeans | tools/genesis_z80_fixture_rom.py:104-109 | An emitted delay spins exactly `count` times (2^32 for zero), clears D1 and goes on behind itself |
| FixtureRom.DataHolds | tools/genesis_z80_fixture_rom.py:223-227 | Resolved data words in memory read back as the payload bytes |
| FixtureRom.CodeHolds | tools/genesis_z80_fixture_rom.py:240 | Memory holding the emitted bytes holds the resolved words |
| FixtureRom.BuildUpload | tools/genesis_z80_fixture_rom.py:500-553 | The assembler calls of a raw or decoded fixture build a fully resolved image of any 1..8192 byte program |
| FixtureRom.EmittedStays | tools/genesis_z80_fixture_rom.py:229-240 | Plain words emitted anywhere are in the finished program at their place |
| FixtureRom.DataPlaced | tools/genesis_z80_fixture_rom.py:223-240 | A payload emitted under a label anywhere in a program stands at that label in memory |
| FixtureRom.UploadLoads | tools/genesis_z80_fixture_rom.py:120-147 | An upload emitted anywhere in any program, its data emitted anywhere below the Z80 RAM and in reach, stores exactly the given program in Z80 RAM, writes no other byte, and goes on behind its code |
| FixtureRom.ImageLoads | tools/genesis_z80_fixture_rom.py:500-553 | The image of BuildUpload is such a program: booting it leaves the program in Z80 RAM and no other memory changed, for every program of 1..8192 bytes and every key |
| FixtureRom.RawAndDecodedAgree | tools/genesis_z80_fixture_rom.py:553 | Raw and encoded uploads of one program leave the same Z80 RAM |
| KeyedTrace.NumberedInjective | tools/genesis_device_divergence.py:78 | For base keys without `#`, base key and occurrence can be read back from the numbered key |
| KeyedTrace.KeyedMap | tools/genesis_device_divergence.py:70-79 | The dictionary holds the n-th event of each base key under its numbered key, and nothing else; none is overwritten |
| KeyedTrace.SameViewsIsSameByKey | tools/m68k_first_divergence.py:103-107 | Two dictionaries show no difference exactly when, per base key, the event sequences agree in view |
| KeyedTrace.KeysAndOrderRebuild | tools/genesis_device_divergence.py:82-93 | Two lists agree element by element exactly when they agree key by key and their key orders are equal |
| FieldDiff.SortedNames | tools/genesis_device_divergence.py:88 | The names, each once, in code-point order |
| FieldDiff.DiffMaps | tools/genesis_device_divergence.py:88-91 | Exactly the keys whose views differ are reported, once each, in order, with both values |
| CpuDivergence.KeyIsInjective | tools/m68k_first_divergence.py:72 | The key text determines kind, address and width |
| CpuDivergence.TextsRead | tools/m68k_first_divergence.py:72 | The texts in a key read back as the address in at least eight hex digits and the width in decimal |
| CpuDivergence.KeyAndViewAreTheEffect | tools/m68k_first_divergence.py:66-84 | Key and compared view together determine the whole effect, exceptions included |
| CpuDivergence.SameByKeyIsSameEffects | tools/m68k_first_divergence.py:103-107 | The keyed comparison sees no difference exactly when every (address, width) gets the same writes in the same order and the exceptions are the same |
| CpuDivergence.ReplayIsLastByte | tools/m68k_first_divergence.py:66-76 | Replaying writes leaves at each byte its last writer's byte, or the old content |
| CpuDivergence.WriteIsBigEndian | tools/m68k_first_divergence.py:72 | The bytes a replayed write puts make its value, most significant first |
| CpuDivergence.BoundaryCommutes | tools/m68k_first_divergence.py:66-76 | If final writes to different destinations do not conflict, lists that agree key by key have the same effect on every memory, in whatever order they wrote |
| CpuDivergence.NoOverlapNoConflict | tools/m68k_first_divergence.py:66-76 | Destinations that do not overlap never conflict |
| CpuDivergence.MovedLastWins | tools/m68k_first_divergence.py:66-76 | Moving all effects of one destination to the end is invisible to the comparison and makes its final write win |
| CpuDivergence.OrderMattersIffConflict | tools/m68k_first_divergence.py:66-76 | Some reordering that the comparison accepts leaves another memory exactly when two final writes put different bytes at one address |
| CpuDivergence.OverlapMatters | tools/m68k_first_divergence.py:67-68 | Two overlapping destinations with agreeing views but different memories: the proviso is needed |
| CpuDivergence.ScalarDifferences | tools/m68k_first_divergence.py:94-102 | Exactly the differing registers, in order, `ssp` only when both records have it |
| CpuDivergence.RegisterReport | tools/m68k_first_divergence.py:94-102 | Each register is reported under its own name, generated value first, exactly when the two values differ |
| CpuDivergence.FieldDifferences | tools/m68k_first_divergence.py:87-108 | Nothing is reported exactly when registers agree and every destination has the same writes and the exceptions are the same; the report is the true one |
| CpuDivergence.CheckBoundary | tools/m68k_first_divergence.py:122-150 | No failure exactly when both records are present, numbered right, supported and equal; otherwise the failure is the first that applies |
| CpuDivergence.CompareStreams | tools/m68k_first_divergence.py:111-154 | The reported boundary is the least that fails, with the last matching boundary and its PC; otherwise all boundaries up to the limit or both ends agree |
| CpuDivergence.NoDivergenceMeansSameRun | tools/m68k_first_divergence.py:111-154 | After every boundary compared without divergence, replaying both histories from one common memory gives equal memory and equal registers, if final writes inside a boundary do not conflict |
| DeviceDivergence.EventKeyIsInjective | tools/genesis_device_divergence.py:58-63 | The key text determines the kind, and for a write also region, address and width |
| DeviceDivergence.KeyAndViewAreTheFields | tools/genesis_device_divergence.py:58-67 | Equal key and view mean equal kind and value and, for writes, equal region, address and width; and conversely |
| DeviceDivergence.DeviceDifferences | tools/genesis_device_divergence.py:82-100 | `device_command` exactly when the event lists differ in length or somewhere in kind, value or, for a write, region, address or width; no difference exactly when they do not and the digests agree |
| DeviceDivergence.NeitherHalfIsEnough | tools/genesis_device_divergence.py:82-93 | Neither equal dictionaries nor equal key orders alone imply equal lists |
| DeviceDivergence.CheckDevice | tools/genesis_device_divergence.py:144-161 | No failure exactly when the device records are present, numbered right, supported and equal |
| DeviceDivergence.Compare | tools/genesis_device_divergence.py:103-165 | The least failing boundary is reported, on the CPU before any device, with the last matching boundary and its PC |
| DeviceDivergence.DeviceToolFollowsCpuTool | tools/genesis_device_divergence.py:125-143 | The device tool stops on the CPU elsewhere than the CPU tool exactly when every boundary of both CPU streams agrees on all four streams, the limit reaches further and a device stream goes on; the CPU tool then sees no divergence |
| DeviceDivergence.ShortDeviceStreamsNeverDisagree | tools/genesis_device_divergence.py:125-143 | Device streams no longer than the longer CPU stream never lead to another CPU stop: same boundary, last match and PC |
| DeviceDivergence.CpuStopIsNotMissed | tools/genesis_device_divergence.py:125-161 | When the CPU tool stops, the device tool stops there too or on a device at an earlier boundary |
| DeviceDivergence.LongerDeviceStreamDisagrees | tools/genesis_device_divergence.py:125-128 | With a device record and no CPU record the device tool reports a CPU divergence the CPU tool does not have |
| CopyAlias.Find | tools/genesis_startup_bridge.py:1483 | The least position at or after `from` where the needle stands, or none if there is none |
| CopyAlias.ThroughCovers | tools/genesis_startup_bridge.py:1485-1501 | Every even occurrence yields an even, in-bounds, verbatim run that contains the stop |
| CopyAlias.ThroughIsLongest | tools/genesis_startup_bridge.py:1486-1494 | No verbatim run that shows the stop at that position is longer |
| CopyAlias.Extend | tools/genesis_startup_bridge.py:1486-1494 | Forward and backward extension reach the greatest even extent |
| CopyAlias.BestOccurrence | tools/genesis_startup_bridge.py:1482-1497 | The longest run over all even occurrences, the lowest position among equals |
| CopyAlias.DeriveCopyAlias | tools/genesis_startup_bridge.py:1466-1501 | Some alias exactly when the PC is even work RAM with 16 bytes left that occur at an even ROM position; it is a verbatim even run containing the stop, and no covering run is longer (the lowest position among the longest) |
| CopyAlias.MergeCopyAliases | tools/genesis_startup_bridge.py:1504-1515 | The loop computes the specified union of the sorted aliases |
| CopyAlias.MergedKeepsPairs | tools/genesis_startup_bridge.py:1504-1515 | Exactly the same (execution byte, source byte) pairs are related before and after |
| CopyAlias.MergedIsNormal | tools/genesis_startup_bridge.py:1504-1515 | The result is strictly sorted by (execution, source) and no two neighbours could still be joined |
| CopyAlias.MergedNeighbours | tools/genesis_startup_bridge.py:1507-1514 | Neighbours increase by execution, then source; two of one delta leave at least one byte between them, so touching ones were joined |
| CopyAlias.MergeIsIdempotent | tools/genesis_startup_bridge.py:1504-1515 | Merging twice is merging once; the merged lists are exactly the fixed points |
| CopyAlias.UnchangedAddsNoPair | tools/genesis_startup_bridge.py:1665-1668 | A proposal that leaves the merged list unchanged adds no pair: the no-progress stop is justified |
| CopyAlias.UnchangedIffCovered | tools/genesis_startup_bridge.py:1665-1668 | The list stays unchanged exactly when the alias just before, or at, the proposal's place covers it with the same delta and order |
| CopyAlias.CoveredProposalMayChangeTheList | tools/genesis_startup_bridge.py:1665-1668 | Three work-RAM aliases of valid length: the proposal adds no pair and still changes the list, because another delta interleaves |
| CopyAlias.DerivedIsThrough | tools/genesis_startup_bridge.py:1466-1501 | The derived alias is all of what agrees around the occurrence it shows |
| CopyAlias.LowestIsUsedIff | tools/genesis_startup_bridge.py:1473-1474 | The lowest even occurrence is used exactly when no other even occurrence extends to a longer run |
| CopyAlias.LaterOccurrenceMayWin | tools/genesis_startup_bridge.py:1473-1474 | An image and a work RAM for which a later even occurrence is used |
| AliasDiscovery.MergedInBounds | tools/genesis_startup_bridge.py:1665 | Merging keeps every alias inside ROM and work RAM |
| AliasDiscovery.FrontierRules | tools/genesis_startup_bridge.py:1614-1637 | An undeliverable interrupt asks for the IRQ6 stub first, by a thunk only, then for an unmapped H-interrupt stub, by an alias too; the two dispatch stops ask for the PC; all others for nothing |
| AliasDiscovery.VectorIsBigEndian | tools/genesis_startup_bridge.py:1620-1621 | A vector slot holds a 24-bit address, high byte first |
| AliasDiscovery.WindowReads | tools/genesis_startup_bridge.py:1645-1646 | The recogniser sees the six bytes at the PC, or as many as are left, as two hex digits each |
| AliasDiscovery.ThunkCovers | tools/genesis_startup_bridge.py:1649 | A thunk covers as many bytes as its hex text stands for |
| AliasDiscovery.ProposalMerges | tools/genesis_startup_bridge.py:1641-1669 | A derived proposal merges into a normal, in-bounds list that keeps every earlier pair; if nothing changes, the stop's own PC was already mapped |
| AliasDiscovery.HandleStop | tools/genesis_startup_bridge.py:1608-1669 | Each step has its cause: no frontier; a frontier outside even work RAM; a longest covering alias whose merge is the new list, or is the old one; else what the thunk rules ask for |
| AliasDiscovery.StepMeans | tools/genesis_startup_bridge.py:1608-1669 | A new alias list is normal, in bounds, different and keeps every pair; a new thunk meets no thunk and no alias; `repeated` means the stop was already explained |
| AliasDiscovery.ExplainByThunk | tools/genesis_startup_bridge.py:1642-1664 | Not a copy exactly when no thunk holds the PC and nothing is recognised; a mismatch exactly when the holding thunk shows other bytes or the jump shares bytes with one; repeated exactly when the thunk shows again or the jump touches an alias; else the recognised thunk |
| AliasDiscovery.InsertThunk | tools/genesis_startup_bridge.py:1662-1663 | Append and sort keeps thunks sorted and pairwise disjoint |
| AliasDiscovery.DiscoverCopyAliases | tools/genesis_startup_bridge.py:1554-1676 | Every completed round adds exactly the aliases or the thunk its stop asks for; through all of them aliases stay normal and in bounds and thunks disjoint; the phase is cut off only after `limit` completed rounds, and any other ending has its cause in the last observation |
| ObjectCache.StoredEntryVerifies | tools/genesis_startup_bridge.py:910-935 | A stored entry verifies under its own key exactly when the object is not empty |
| ObjectCache.VerifiedKeyIsUnique | tools/genesis_startup_bridge.py:923-926 | An entry verifies under at most one key |
| ObjectCache.HeaderPinsObject | tools/genesis_startup_bridge.py:910-926 | With an injective digest, an entry that verifies under the header of a stored object is that stored entry |
| ObjectCache.TruncatedEntryIsRejected | tools/genesis_startup_bridge.py:914-935 | A stored entry cut short anywhere does not verify |
| ObjectCache.ChangedObjectIsRejected | tools/genesis_startup_bridge.py:914-935 | Nor does one whose object was changed in any way |
| ObjectCache.ForeignEntryIsRejected | tools/genesis_startup_bridge.py:914-935 | Nor does one that lies under another key |
| ObjectCache.DamagedIsRejected | tools/genesis_startup_bridge.py:914-935 | No truncated, changed or foreign-format entry verifies under any key |
| ObjectCache.DamagedCacheIsHonest | tools/genesis_startup_bridge.py:914-950 | A cache of genuine and damaged entries under whatever paths meets what CompileObjects asks of a cache |
| ObjectCache.StoreIsHonest | tools/genesis_startup_bridge.py:938-950 | Storing what a job compiles to keeps every verifying entry a compilation result |
| ObjectCache.ObjectCache.Load | tools/genesis_startup_bridge.py:914-935 | An object comes back exactly when the entry can be read and verifies and the destination can be written, and it is the entry's; an entry that was read and does not verify is removed if it can be, nothing else changes |
| ObjectCache.ObjectCache.Store | tools/genesis_startup_bridge.py:938-950 | The entry is replaced as a whole, or the cache is unchanged |
| ObjectCache.LoadIsCompile | tools/genesis_startup_bridge.py:1008-1011 | A hit gives what compiling the job would give |
| ObjectCache.WorkerStep | tools/genesis_startup_bridge.py:1003-1016 | Each step of a worker keeps the cache honest and its own result true, and makes progress |
| ObjectCache.Advance | tools/genesis_startup_bridge.py:1018-1028 | Other builds may act between any two steps of any worker; honesty, truth and progress are kept |
| ObjectCache.CompileObjects | tools/genesis_startup_bridge.py:984-1039 | For every honest cache, interleaving and failing file operation: success exactly when every job compiles, with the uncached objects in job order; else the diagnostics of a job that does not compile |
| CacheTrim.Entries | tools/genesis_startup_bridge.py:957-973 | Exactly the objects and stale temporaries, in eviction order |
| CacheTrim.RecentTemporariesSurvive | tools/genesis_startup_bridge.py:965-967 | A temporary not yet stale is no entry and is not removed |
| CacheTrim.OthersAreEntries | tools/genesis_startup_bridge.py:965-968 | Every object and every stale temporary is an entry |
| CacheTrim.Trim | tools/genesis_startup_bridge.py:953-981 | A prefix of that order is tried; every tried entry is a stale temporary or was reached over the limit, and the first untried one is neither |
| CacheTrim.TrimWithoutFailures | tools/genesis_startup_bridge.py:953-981 | Without I/O failures every stale temporary goes, what is left is within the limit, and objects go least recently used first, each only while still over the limit |
| EpochSignature.Extents | tools/genesis_z80_materialization_probe.py:39-51 | Sorted, separated, maximal runs that cover exactly the written offsets |
| EpochSignature.ExtentsAreUnique | tools/genesis_z80_materialization_probe.py:39-51 | There is only one such list for a bitmap |
| EpochSignature.WrittenMeans | tools/genesis_z80_materialization_probe.py:43 | Offset i is bit i % 8 of byte i / 8, counted from the least significant end |
| EpochSignature.ChunkLayout | tools/genesis_z80_materialization_probe.py:58 | Offset and length stand in a chunk as 16-bit numbers, low byte first, followed by the bytes of the extent |
| EpochSignature.TagIsAscii | tools/genesis_z80_materialization_probe.py:56 | The tag is fed as its character codes |
| EpochSignature.PreimageInjective | tools/genesis_z80_materialization_probe.py:54-59 | Two digest inputs are equal exactly when the bitmaps are equal and the RAM agrees on every written offset |
| EpochSignature.Signature | tools/genesis_z80_materialization_probe.py:54-59 | The loop feeds the digest tag and extents with their bytes, for the extents of the bitmap |
| EpochSignature.EffectiveSignatures | tools/genesis_z80_materialization_probe.py:62-68 | Entry i is the signature of the last epoch up to i that wrote anything, and tag-only if none did |
| EpochSignature.SameViewSameSignature | tools/genesis_z80_materialization_probe.py:54-59 | Under any digest, epochs with equal bitmaps and equal written bytes have one signature |
| EpochSignature.SignatureIdentifiesWrittenPart | tools/genesis_z80_materialization_probe.py:54-59 | With an injective digest, signatures agree exactly when the written parts do |
| UploadedEpoch.UploadMakesEpoch | tools/genesis_z80_materialization_probe.py:54-59 | An upload anywhere in any program makes the epoch whose written bytes are exactly those of its program |
| UploadedEpoch.SameSignatureIffSameProgram | tools/genesis_z80_fixture_rom.py:595-597 | Any two uploads, raw or encoded, in one ROM or two: the same program has the same activation signature under every digest, and under an injective one the signature tells programs apart |
| WitnessChain.WalksEndIffAcyclic | tools/reachability_coverage_compare.py:126-153 | Every walk ends exactly when no chain of predecessors comes back to where it began |
| WitnessChain.CausalIsAcyclic | tools/reachability_coverage_compare.py:133-153 | Ordinals that decrease along predecessors rule that out |
| WitnessChain.WalkRules | tools/reachability_coverage_compare.py:126-153 | No witness, initial entry, entry from discovered code, else the predecessor's answer: in this order |
| WitnessChain.EdgeRules | tools/reachability_coverage_compare.py:138-152 | An edge is a violation, else materialised RAM, else an interrupt, else its family's category, else fixed flow; with that family's name and the previous PC |
| WitnessChain.CoarseTable | tools/reachability_coverage_compare.py:148 | Each coarse category has exactly its challenger families |
| WitnessChain.FrontierWalk.Frontier | tools/reachability_coverage_compare.py:122-156 | On every table without such a cycle the memoised answer is the uncached chain walk's, for every query order |
| WitnessChain.Attribute | tools/reachability_coverage_compare.py:158-169 | Attributed counts are the number of missing PCs per category in whatever order they are visited, and sum to the number of missing PCs |
| WitnessChain.CountsAre | tools/reachability_coverage_compare.py:164-169 | Each counter is the number of missing PCs whose walk ends in its category, and of those entered from discovered code other than at the start |
| WitnessChain.EdgesAtMostAttributed | tools/reachability_coverage_compare.py:164-169 | No category has more first-miss edges than attributed PCs |
| NativeExec.Runner | tools/m68k_capability_coverage.py:101-118 | The printed lines are exactly the results of the words at or above `start` before the first that crashes |
| NativeExec.ReadLines | tools/m68k_capability_coverage.py:276-279 | The table gains exactly the printed words, with true codes |
| NativeExec.FirstPending | tools/m68k_capability_coverage.py:282-285 | The first word at or above `start` without a result |
| NativeExec.RunResult | tools/m68k_capability_coverage.py:270-279 | A finished or dead run adds only true results, all of them up to its stop, and none behind a larger crashing word |
| NativeExec.Blamed | tools/m68k_capability_coverage.py:285-286 | The blamed word is one that crashes, and blaming it accounts for every word up to it when crashing words ascend |
| NativeExec.NativeExec | tools/m68k_capability_coverage.py:250-286 | Always ends, for any word list; every result is true and only crashing words are blamed; both answers are complete exactly when no word first stands behind a larger crashing word |
| NativeExec.LargerCrashHides | tools/m68k_capability_coverage.py:282-286 | The order 2, 1 with 2 crashing does not meet that condition |
| NativeExec.AscendingIsEnough | tools/m68k_capability_coverage.py:268-286 | Strictly ascending words meet that condition |
| Rle.EncodedExpands | tools/gen_gallery_scene.py:357-367 | The runs stand for the pixels they were made from, and every run has 1 to 255 pixels |
| Rle.SuffixNotLonger | tools/gen_gallery_scene.py:357-367 | Encoding fewer of the pixels never takes more runs |
| Rle.EncodedIsShortest | tools/gen_gallery_scene.py:357-367 | No run list with lengths up to 255 for the same pixels is shorter |
| Rle.Rle | tools/gen_gallery_scene.py:357-367 | The loop's result restores the pixels, has runs of 1..255 and is a shortest run list |
| Rle.PaintRun | tools/gen_gallery_scene.py:402-406 | One run paints its pixels until the picture is full and touches nothing else |
| Rle.Decode | tools/gen_gallery_scene.py:401-408 | The emitted loop paints what the data stands for, clipped to the picture, touches nothing else, and succeeds exactly when the picture is filled |
| Rle.PictureBytes | tools/gen_gallery_scene.py:404-406 | Red, green and blue of a pixel's palette entry, in this order, at three times its position |
| Rle.FindScene | tools/gen_gallery_scene.py:398-401 | The chain of size tests ends with the last table of that size, or with none exactly when there is none |
| Rle.GalleryScene | tools/gen_gallery_scene.py:395-409 | Over encoder-made tables: unknown sizes fail and leave the buffer alone, known ones succeed and leave exactly the rendered picture |
| RankSelect.RankingIsUnique | tools/seg050_materialized_e1.py:66-69 | The key order is total and strict: any sorting method gives this ranking |
| RankSelect.BudgetIsCeiling | tools/seg050_materialized_e1.py:67-69 | The budget is the least number of cells making up the percentage |
| RankSelect.SelectedIffFewAhead | tools/seg050_materialized_e1.py:66-69 | Selected are exactly the cells with fewer than the budget of cells ahead of them, each once, best first; their number is the budget, or all cells above 100 percent |
| RankSelect.SelectedAheadOfOthers | tools/seg050_materialized_e1.py:66-69 | Every selected cell has a higher score than every unselected one, or the same and a lower ordinal |
| RankSelect.Label | tools/seg050_materialized_e1.py:143-146 | A cell is labelled exactly when a truth start of the image falls in it |
| RankSelect.OutsideCounts | tools/seg050_materialized_e1.py:100 | The number of truth starts in unselected cells, several in one cell counted each |
| RankSelect.FullRecallIffNoneMissed | tools/seg050_materialized_e1.py:98-103 | No truth start is outside exactly when no positive cell is missed, exactly when every positive cell has fewer cells ahead than the budget |
| RankSelect.NeededWithinBudget | tools/seg050_materialized_e1.py:88-107 | `cells_needed` within the budget leaves no truth start outside |
| RankSelect.NeededCounts | tools/seg050_materialized_e1.py:88-95 | `cells_needed` is the number of cells ahead of the last positive one, plus that cell, plus the cells tied behind it, none of which is positive |
| RankSelect.LastPositiveDecides | tools/seg050_materialized_e1.py:98-103 | All positive cells have few enough cells ahead exactly when the last positive one in the ranking has |
| RankSelect.NeededIsExactIff | tools/seg050_materialized_e1.py:88-103 | `cells_needed` within the budget decides full recall exactly unless the budget ends among the cells tied behind the last positive one |
| RankSelect.NeededIsExactWithoutTies | tools/seg050_materialized_e1.py:88-95 | So it decides full recall at every budget when no unlabelled cell has the worst positive score |
| RankSelect.NeededIsPessimisticUnderTies | tools/seg050_materialized_e1.py:89 | With a tie, full recall with `cells_needed` above the budget |
| RankSelect.DensityLimitedIffNoRanking | tools/seg050_materialized_e1.py:105-106 | `density_limited` holds exactly when no scores whatsoever reach full recall |
| FontAtlas.CursorIsBehind | tools/gen_viewer_font.py:44-55 | After a glyph is placed the cursor stays to its right on a shelf at least as high, or on a lower shelf |
| FontAtlas.NextSpot | tools/gen_viewer_font.py:51-55 | The next glyph stands one pixel to the right when it fits the width there, else at the left edge one pixel below the lowest glyph so far |
| FontAtlas.FirstSpot | tools/gen_viewer_font.py:45-53 | The first glyph stands in the corner |
| FontAtlas.HeightIsLeast | tools/gen_viewer_font.py:56-57 | The height is the least multiple of eight that leaves a row below the lowest glyph |
| FontAtlas.RectanglesDisjoint | tools/gen_viewer_font.py:44-63 | Glyph rectangles are pairwise disjoint and at least one pixel apart, for all widths |
| FontAtlas.RectangleInBounds | tools/gen_viewer_font.py:51-58 | Every rectangle ends above the last row, and lies within the width exactly when the glyph is no wider than the atlas |
| FontAtlas.PastedKeeps | tools/gen_viewer_font.py:60-63 | A glyph's rectangle keeps its pixels whatever is pasted later |
| FontAtlas.PastedBlack | tools/gen_viewer_font.py:59-63 | Outside all rectangles the atlas stays black |
| FontAtlas.Place | tools/gen_viewer_font.py:44-58 | The coordinates written into the records are those of the shelf layout, and so is the height |
| FontAtlas.Pack | tools/gen_viewer_font.py:44-63 | Records as laid out, and an atlas of that height in which every pixel is that of the last glyph pasted over it, or black |
| FontAtlas.DigitOfNumber | tools/gen_viewer_font.py:77-79 | Bit k from the most significant end of a packed byte is the k-th pixel shifted in |
| FontAtlas.PackByte | tools/gen_viewer_font.py:77-79 | Eight shifts make the number whose binary digits are the eight thresholded pixels |
| FontAtlas.PackBits | tools/gen_viewer_font.py:74-80 | Thirty-two bytes per row, in reading order |
| FontAtlas.MakeAtlas | tools/gen_viewer_font.py:44-80 | Reading the packed bits at a glyph's recorded place gives its thresholded pixels, for every glyph no wider than the atlas; all pixels outside glyphs are off |

## Left out

- Checkpoints: the JSON text is a parsed record.
- PhaseB: report, full bytes and executable of a round are one abstract artifact; report validation is part of the
  round's verdict. That a boundary never equals the reset entry is a comment of the source, not something its code
  checks.
- Without a checkpoint path the outer loop makes a single batch, which is RunExpansionLoop itself.
- PcmStream.PcmReference: takes traces sorted by time, as the producing log is; what the source yields for other traces
  has no meaning on a time line.
- PcmStream: parsing of trace and CD-DA log text, and the final mix and comparison of both streams.
- CdDa: sectors have all 2352 bytes and ticks are not negative; the scaling division of the source goes through a
  float, exact at these magnitudes, and is an integer division toward zero here.
- Mc68000: only the instructions the modelled code uses and only the Z flag; memory is plain bytes on a 24-bit bus,
  without the bus-request handshake of the real device.
- FixtureRom.BuildUpload: emits upload, `spin: BRA spin` and data only, without the prologue, delays and bus accesses of
  `build_sound`; UploadLoads covers an upload inside a complete ROM, given the CPU that reaches it.
- FixtureRom.ImageLoads: speaks of that short image; the general statement is UploadLoads.
- FixtureRom.RawAndDecodedAgree: speaks of two such images; SameSignatureIffSameProgram covers two uploads in one ROM.
- FixtureRom: the Kosinski loaders, the loaders with pointer or count in RAM, bus requests around an upload, header
  and checksum of the whole ROM. Label names ending in a reserved suffix are read as the source reads them.
- CpuDivergence, DeviceDivergence: JSON parsing and the constant report fields; field numbers and addresses are
  naturals; a null component digest counts as absent.
- AliasDiscovery: attempt counters and the summary line; the jump recogniser is a parameter that answers with a
  4 or 6 byte instruction.
- ObjectCache: SHA-256, compiler identity, key derivation and which file operations succeed are parameters; load and
  store are single steps of a worker, as their atomic replacement makes them; statistics.
- ObjectCache.CompileObjects: does not claim that the reported failure is the lowest of all failing jobs, because only
  the batch that ends the wait is looked at.
- CacheTrim: one directory listing is taken as given; the clock is a parameter.
- EpochSignature: the content hash and the image specification.
- WitnessChain: the finer families and sites, checkpoints and the recovery checks; tables with a cycle of predecessors,
  on which the source's walk does not end.
- NativeExec: linking, compilation and bisection of chunks. A word that hangs counts as crashing. The 300 second limit of
  the source is on a whole run, so a run that is merely slow can have its first pending word blamed though that word
  does not hang; such runs are not modelled.
- Rle: drawing and the palette; the encoder takes the rows already joined.
- FontAtlas: rendering of glyphs and the generated C text. The glyphs of all faces come as one list of distinct
  records, in the order the two nested loops visit them; the image library's paste is one clipped assignment.
- RankSelect: scores are finite reals; Spearman correlation, rounded fractions and the set comparison of two arms.
- Numerals: only digits in a fixed alphabet; signs and prefixes do not occur in the modelled texts.
- Capture, drawing, packaging, documentation and performance tools of the repository: input and output, or checks of
  single fields.
