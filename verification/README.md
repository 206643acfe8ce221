# Proofs about Dolphin's bundled FatFs, Ed25519, Yay0 and include-cycle code

Four independent parts of the repository are modelled here and proved correct.

**FatFs** (`Externals/FatFs/ff.c`), in the configuration of `Externals/FatFs/ffconf.h`: 512-byte sectors, FAT12/16/32,
long names, one sector buffer per file. Each layer is proved to refine a simpler object:
the one-sector write-back window refines an array of sectors (`FatVolume`); the packed table with its shared FAT12
nibbles and reserved FAT32 bits refines a sequence of entries (`FatTable`), the digits of the number that the FAT spells
(`FatNumber`); `create_chain` and `remove_chain` keep
that sequence a set of disjoint ended chains, after every single write (`FatChains`, `FatHistory`); and an open file, with
its scattered clusters and its perhaps dirty sector buffer, refines a byte sequence with a cursor over any
session (`FileView`, `FileIO`, `FileState`, `Files`, `FileSessions`), and where on the disk these bytes are (`VolumeBytes`).
A call that the file allows only fails when a transfer has. `DirectoryWalk`, `LongNames`, `LongNameScan` and `LongNameBytes` cover the
walk over a directory and the long-name entries in it, `VolumeFormat`, `BootSectors` and `FormatDefaults` the geometry that
`f_mkfs` writes and `mount_volume` reads.

**Ed25519** (`Externals/ed25519`): the limb arithmetic modulo 2^255-19 (`FieldElement`, `FieldBytes`,
`FieldPowers`) and modulo the group order (`ScalarField`) on integers, with the 32- and 64-bit ranges as proved obligations; the
signed-digit recodings and scalar multiplication over an abstract commutative group (`AbelianGroups`, `SlideDigits`,
`ScalarMult`); key pairs, signing, verifying and adding a scalar on top of them (`Ed25519`), following RFC 8032 sections 5.1.5 to
5.1.7; and the key exchange on limbs (`Ladder`), its formulas on the curve y^2 = x^3 + 486662 x^2 + x (`Montgomery`) and what its
secrets are there (`SharedSecrets`), following RFC 7748 section 5.

**Yay0** (`docs/gc-font-tool.cpp`): compressor, decompressor, and when one undoes the other (`Yay0`), with the file format byte by
byte (`Yay0Format`).

**Tarjan's algorithm** (`tools/find-includes-cycles.py`): the recursive search and what the list it returns is
(`Graphs`, `Tarjan`), said of the table of includes itself in `IncludeCycles`.

`Radix` holds powers of two and little-endian byte strings, shared by the others.

Code that updates state is modelled by classes and methods with the same fields, loops and branches, each proved
against a function or predicate on values; the lemmas then state what that function or predicate means.

## Assumptions

- A disk is a sequence of sectors. Each transfer may fail; a failed write may leave anything in its
  sector. `writesOk` records that the two FATs were equal on mounting and that no write has failed since; `faults` counts
  the transfers that failed, and changes nowhere else.
- `Ed25519.Assumed`: the curve is a commutative group, the order times B is zero, the precomputed tables hold
  the multiples they are named for, decoding undoes encoding up to the sign the decoder flips, a hash has 64 bytes. SHA-512 itself is any function.
- `SharedSecrets.LineAssumed`: P is prime (`Montgomery.Field` states Fermat's little theorem for it); the group is that of the
  points of y^2 = x^3 + 486662 x^2 + x modulo P under chord and tangent, its zero the point at infinity; and the encoding of a
  point spells, below its top bit, the y with x (1 - y) = 1 + y. Nothing is assumed of the ladder's formulas.
- `ff_wtoupper` is any function on 16-bit units that maps 0, and nothing else, to 0.
- The masks `csize - 1` and `sz_blk - 1` are written as remainders; both sizes are powers of two. The bit masks of `fe_cswap`
  and `cmov` are written as conditions.
- A directory of `LongNameScan` is the sequence of its 32-byte entries in the order `dir_next` visits them.

## Where the code and what it promises differ

- The heading of `find-includes-cycles.py` promises all cycles of includes. A header that includes only itself forms a
  component of one and is not printed (`Tarjan.SelfIncludeNotPrinted`). What is printed is exactly what lies on a cycle
  through some other file (`Tarjan.PrintedIffOnCycle`).
- `yay0_compress` and `yay0_decompress` are not inverse on every input whose size and table offsets fit 32 bits: the decoder's
  running chunk offset is a `uint32_t` and wraps once it passes 2^32 (`Yay0.HugeFails` names an input of 4 GiB - 1).
  They are inverse whenever size and whole file stay within 32 bits (`Yay0.RoundTrip`), so for every
  input up to 3817748692 bytes (`Yay0.RoundTripUpTo`); below 4 GiB also when every byte of the file past 2^32 equals the one
  2^32 before it (`Yay0.RoundTripWrapped`), and not when the first one that differs stands for itself (`Yay0.FirstMisread`); and
  never from 4 GiB on (`Yay0.TooLong`).
- `f_mkfs` may settle on a volume without any cluster when erase-block alignment takes up the rest
  (`VolumeFormat.AlignmentCanEmpty`). The volume mounts, as intended, if and only if the request leaves room for a cluster
  behind the aligned data base (`VolumeFormat.FormatsAndMounts`), which erase blocks of up to fifteen clusters always do
  (`VolumeFormat.SmallBlocksMount`); and with the defaults it finds a plan for every volume (`FormatDefaults.AlwaysPlans`).
- `ge_double_scalarmult_vartime` documents 32-byte scalars without a bound. From 2^255 on `slide` may lose a carry out of its
  top entry, as it does for 2^255 + 2^251 (`SlideDigits.SlideLoses`). It spells the scalar if and only if nothing is left of it
  after 256 digits of its non-adjacent form (`SlideDigits.FormSpells`), so for every scalar below 2^255
  (`SlideDigits.SlideExact`). Its callers pass less than 2^253.
- `ed25519_add_scalar` does not look at the result of decoding the public key, so for a string that is no point it computes with whatever the
  point variable holds.

## Model

| member | source | states |
|---|---|---|
| Tarjan.StronglyConnectedComponents | tools/find-includes-cycles.py:23-74 | for every graph the result is its condensation: tuples without repetition hold exactly the nodes reachable from a key, each is a whole component, and a tuple comes after every other one it reaches |
| Tarjan.Search.StrongConnect | tools/find-includes-cycles.py:37-68 | one recursive call keeps the invariant of the search (stack order, anchoring in the active calls, emitted components closed), only extends the state, and leaves the node emitted or low-linked to an older stacked node it reaches |
| Tarjan.Search.PopDownTo | tools/find-includes-cycles.py:58-68 | the pop loop returns the stack above the caller's, backwards, and leaves the caller's stack |
| Tarjan.SegmentIsComponent | tools/find-includes-cycles.py:57-68 | when a node's low link is its own number, what lies on the stack from it on is exactly its strongly connected component |
| Tarjan.LowAfterCall | tools/find-includes-cycles.py:48-51 | the minimum with a child's low link after the recursive call is again a number the node reaches through the stack |
| Tarjan.LeaveOpen | tools/find-includes-cycles.py:52-57 | a node with an older low link stays on the stack, anchored in the calls still active |
| Tarjan.FinishedIsCondensation | tools/find-includes-cycles.py:70-74 | once every key is numbered and no call is active, the result is the condensation |
| Tarjan.SharedTuple | tools/find-includes-cycles.py:24-26 | two listed nodes share a tuple if and only if each reaches the other |
| Tarjan.SameTuples | tools/find-includes-cycles.py:70-74 | the tuples do not depend on the order in which keys and successors are visited |
| Tarjan.PrintedIffOnCycle | tools/find-includes-cycles.py:76-80 | a node is printed if and only if it is reachable and lies on a cycle through another node |
| Tarjan.SelfIncludeNotPrinted | tools/find-includes-cycles.py:4 | a file that includes only itself is a cycle, but its tuple has one member and is not printed |
| Graphs.NodesAreReachable | tools/find-includes-cycles.py:43-47 | keys and successors together, taken transitively, are the nodes reachable from keys; one that is no key has no successors |
| IncludeCycles.ReachesIsWalk | tools/find-includes-cycles.py:44-49 | reaching is walking along the lists of the table, each file in the list of the one before |
| IncludeCycles.ListedIsWalked | tools/find-includes-cycles.py:70-74 | a file is in some tuple if and only if such a walk leads to it from a key |
| IncludeCycles.IncludesComeFirst | tools/find-includes-cycles.py:59-68 | whatever a file lists lies in its own tuple or in an earlier one |
| IncludeCycles.CyclesArePrinted | tools/find-includes-cycles.py:76-80 | every closed walk through two files or more lies in one tuple, and that tuple is printed |
| IncludeCycles.PrintedOnCycle | tools/find-includes-cycles.py:76-80 | every printed file lies on such a closed walk |
| FatTable.GetAfterPut | Externals/FatFs/ff.c:1131-1258 | after a put every entry reads as before but the one put, which reads as the value cut to 12, 16 or 28 bits, for all three layouts |
| FatTable.Get12 | Externals/FatFs/ff.c:1222-1234 | the same for 12-bit entries that share bytes and straddle sectors |
| FatTable.Overlap12 | Externals/FatFs/ff.c:1148-1155 | 12-bit entries share a byte only with one neighbour, and which one depends on parity |
| FatTable.Put12 | Externals/FatFs/ff.c:1222-1234 | the two merged bytes carry the new 12-bit value and keep the neighbour's nibble, in both parities |
| FatTable.ReservedBitsKept | Externals/FatFs/ff.c:1247-1252 | the four reserved bits of every FAT32 cell survive every put |
| FatTable.PutFrame | Externals/FatFs/ff.c:1209-1258 | a put changes no sector outside the first FAT |
| FatTable.GetAfterHalfPut | Externals/FatFs/ff.c:1222-1234 | a FAT12 put that fails between its two bytes leaves every other entry as it was |
| FatTable.EntryInFat | Externals/FatFs/ff.c:1148-1164 | every access for an entry in range stays inside the fsize sectors of the FAT |
| FatNumber.EntryIsDigit | Externals/FatFs/ff.c:1148-1164 | with the first FAT read as one little-endian number, entry c is its digit c to the base 2^12 or 2^16, or the low 28 bits of its digit to the base 2^32 |
| FatNumber.PutSetsDigit | Externals/FatFs/ff.c:1222-1252 | a put sets that digit, below the four reserved bits on FAT32, and no other |
| FatVolume.FatFs.SyncWindow | Externals/FatFs/ff.c:1025-1043 | writing the window back changes nothing on the logical disk; when it succeeds and no write ever failed the two FATs are equal; it fails only when a transfer does |
| FatVolume.FatFs.MirrorWindow | Externals/FatFs/ff.c:1035-1037 | the second FAT equals the first again after a flushed FAT sector is copied |
| FatVolume.FatFs.MoveWindow | Externals/FatFs/ff.c:1047-1068 | afterwards the window stands for the sector asked for, and the logical disk is the same |
| FatVolume.FatFs.GetFat | Externals/FatFs/ff.c:1131-1164 | reads entry clst of the table, 1 out of range; 0xFFFFFFFF only when a transfer failed; changes nothing but the window |
| FatVolume.FatFs.PutFat | Externals/FatFs/ff.c:1209-1258 | on success the table is the old one with one entry assigned; on failure, of a transfer or for a number out of range, the logical disk is as before or half way through this entry; nothing outside the FAT changes |
| FatVolume.FatFs.UndoneOthers | Externals/FatFs/ff.c:1209-1258 | a put that failed has touched no other entry |
| FatVolume.DecodedPut | Externals/FatFs/ff.c:1209-1258 | on decoded tables a put is an assignment |
| FatChains.ChainExists | Externals/FatFs/ff.c:1494-1585 | every allocated cluster of a well-formed table starts a chain that ends |
| FatChains.ChainDistinct | Externals/FatFs/ff.c:1399-1456 | no chain of a well-formed table visits a cluster twice |
| FatChains.CutKeeps | Externals/FatFs/ff.c:1417-1432 | ending a chain early, or freeing the head of an orphaned chain, keeps the table well formed |
| FatChains.ClaimKeeps | Externals/FatFs/ff.c:1570 | so does marking a free cluster as a chain of its own |
| FatChains.LinkKeeps | Externals/FatFs/ff.c:1571-1573 | so does linking the end of a chain to that cluster |
| FatChains.RemoveChain | Externals/FatFs/ff.c:1399-1485 | with no failed transfer it terminates on any table, even a cyclic one, and does what the function RemoveFrom says; on valid arguments every table written in between is well formed, and the cached free count stays right |
| FatChains.RemoveLoop | Externals/FatFs/ff.c:1423-1456 | the same for the loop; it terminates because each round turns a non-zero entry into zero |
| FatChains.FreeCluster | Externals/FatFs/ff.c:1430-1436 | one round frees one entry and counts it |
| FatChains.RemovesExactly | Externals/FatFs/ff.c:1415-1456 | on a well-formed chain exactly the clusters from clst to its end become free, pclst becomes the new end, and no other entry changes, entry by entry |
| FatChains.CountUp | Externals/FatFs/ff.c:1433-1436 | counting up per freed cluster keeps free_clst either unknown or equal to the number of zero entries |
| FatChains.FindFree | Externals/FatFs/ff.c:1556-1569 | the wrap-around search answers 0 only when no cluster is free, and otherwise the first free one after the suggested cluster |
| FatChains.PickCluster | Externals/FatFs/ff.c:1504-1569 | for a stretch the neighbouring cluster is preferred, then the search from the last allocated one |
| FatChains.ClaimAndLink | Externals/FatFs/ff.c:1570-1573 | the two writes, each leaving a well-formed table |
| FatChains.CreateChain | Externals/FatFs/ff.c:1494-1585 | follows an existing link without writing; otherwise takes the chosen free cluster, ends it and links it; with a right or unknown free count it answers 0 if and only if none is free; keeps the count and, write by write, well-formedness |
| FatChains.AllocationIs | Externals/FatFs/ff.c:1504-1573 | what that does entry by entry: the next cluster if it is free (2 after the last), else the first free one going up from the last allocation and around, gets 0xFFF, 0xFFFF or 0xFFFFFFF, and the old end is linked to it |
| FatChains.StretchKeeps | Externals/FatFs/ff.c:1570-1573 | stretching a chain keeps the table well formed, in between as well |
| FatHistory.PerformAll | Externals/FatFs/ff.c:1399-1585 | any sequence of create_chain and remove_chain calls with valid arguments leaves every table written on the way well formed and the cached free count right or unknown; all calls are carried out unless a transfer fails |
| Files.SectorOfCluster | Externals/FatFs/ff.c:1114-1122 | for a cluster of the chain the sector number never fails and is the file's sector |
| FileView.DataSectorsApart | Externals/FatFs/ff.c:1114-1122 | different sectors of a file lie in different sectors of the disk |
| FileView.ViewFlush | Externals/FatFs/ff.c:3919-3922 | writing the dirty sector buffer back does not change what the file holds |
| FileView.ViewHold | Externals/FatFs/ff.c:4054-4055 | changing a sector in the buffer alone changes that sector of the file and no other |
| FileIO.Accounted | Externals/FatFs/ff.c:3978-3999 | no cluster is lost: the file's chain and the free clusters together stay the same in number |
| FileIO.OwnedGrows | Externals/FatFs/ff.c:3991 | a stretch takes one cluster from the free ones to the end of the chain |
| FileIO.OwnedCut | Externals/FatFs/ff.c:4864-4866 | cutting the chain is a valid removal and gives exactly its rest back to the free clusters |
| FileState.Lands | Externals/FatFs/ff.c:4456-4460 | the cursor's cluster has index (fptr-1)/clusterbytes |
| FileState.LeadsOn | Externals/FatFs/ff.c:3876-3892 | on a cluster boundary the table leads from the cursor's cluster to that of the next byte |
| FileState.DirtyRun | Externals/FatFs/ff.c:3901-3911 | sectors read past the buffer, one replaced when the buffer holds it dirty, are the file's bytes |
| FileState.RunWriteDone | Externals/FatFs/ff.c:4011-4032 | sectors written past the buffer, which is refilled when it stands for one of them, overwrite just those bytes |
| FileState.PartWriteDone | Externals/FatFs/ff.c:4047-4055 | a write through the buffer overwrites just those bytes and leaves the cursor right |
| FileState.ShortenStep | Externals/FatFs/ff.c:4860-4868 | cutting chain and size at the cursor leaves the file's front |
| FileState.EraseStep | Externals/FatFs/ff.c:4856-4868 | so does removing the whole chain at position 0 |
| FileState.LandsEven | Externals/FatFs/ff.c:4495-4500 | the sector number f_lseek computes is that of the target position, or none is needed |
| FileState.Offset | Externals/FatFs/ff.c:3908 | the unsigned difference is below the run's length exactly when the sector lies in the run |
| Files.File.Read | Externals/FatFs/ff.c:3850-3940 | delivers min(btr, rest) bytes of the byte sequence at the cursor, moves the cursor past them, changes no byte; fails only when a transfer has failed meanwhile, and what it delivered before is right too; a failure sticks |
| Files.File.ReadSome | Externals/FatFs/ff.c:3873-3935 | one round delivers at least one byte of it |
| Files.File.DirectRead | Externals/FatFs/ff.c:3896-3915 | whole sectors read past the buffer are the file's bytes, a dirty one included |
| Files.File.Write | Externals/FatFs/ff.c:3950-4062 | the byte sequence is overwritten at the cursor by the bytes accepted: all of them, cut at 4 GiB - 1, or, when the disk is full, as many as reach the end of the file; fails only when a transfer has failed meanwhile |
| Files.File.WriteSome | Externals/FatFs/ff.c:3975-4057 | one round overwrites by a non-empty front, or the disk is full and the cursor at the end of the file |
| Files.File.EnterCluster | Externals/FatFs/ff.c:3978-3999 | on a cluster boundary follows, starts or stretches the chain without changing the file's bytes; a full disk is only met at the end of the file |
| Files.File.DirectWrite | Externals/FatFs/ff.c:4011-4032 | whole sectors written past the buffer |
| Files.File.LSeek | Externals/FatFs/ff.c:4444-4518 | reaches the target, clipped to the size without write access; on a full disk it may stop short, but never before the end of the file; the old bytes stay a prefix; the size grows to the cursor and no further; fails only when a transfer has failed meanwhile |
| Files.File.SeekOrigin | Externals/FatFs/ff.c:4454-4472 | starts from the cursor's cluster or the first one, always before the target; there is none only for an empty file on a full disk |
| Files.File.SeekFollow | Externals/FatFs/ff.c:4473-4500 | the cluster following loop ends in the target's cluster, or at the end of a chain that cannot grow, which lies past the file |
| Files.File.SeekBuffer | Externals/FatFs/ff.c:4507-4518 | inside a sector the buffer stands for it afterwards |
| Files.File.Truncate | Externals/FatFs/ff.c:4842-4883 | the byte sequence is cut at the cursor; fails only when a transfer has failed meanwhile |
| Files.File.Erase | Externals/FatFs/ff.c:4856-4858 | at position 0 no cluster is kept |
| Files.File.Shorten | Externals/FatFs/ff.c:4859-4868 | elsewhere the chain ends with the cursor's cluster |
| FileSessions.Serve | Externals/FatFs/ff.c:3850-4062 | each call is a step of the plain file, or a transfer has failed |
| FileSessions.Session | Externals/FatFs/ff.c:3850-4062 | any sequence of reads, writes, seeks and truncations on one handle answers as a byte sequence with a cursor would; every call is answered unless a transfer fails; writes and seeks stop short only past all its bytes |
| VolumeBytes.ContentOnDisk | Externals/FatFs/ff.c:1114-1122 | the bytes of an open file are the slices of the disk at (c - 2) csize sectors past the data base, csize sectors each, for the clusters c of its chain in order, with the buffered sector written back |
| DirectoryWalk.FindNext | Externals/FatFs/ff.c:1714-1765 | one step forward leads where the direct computation for the next offset leads, in the root table and in a chain |
| DirectoryWalk.Dir.Sdi | Externals/FatFs/ff.c:1666-1705 | stands at the offset's cluster, sector and entry; fails with an internal error only where there is no such place |
| DirectoryWalk.Dir.FollowTo | Externals/FatFs/ff.c:1691-1696 | the loop follows as many links as clusters fit below the offset |
| DirectoryWalk.Dir.Next | Externals/FatFs/ff.c:1714-1765 | one entry further, or no file and no such place; an internal error only when the current cluster is free or marked 1 |
| DirectoryWalk.StepTo | Externals/FatFs/ff.c:1714-1765 | rewinding and stepping k times leaves the object as going to offset 32 k does; no file only at the end of the table, and an internal error only at a first place that does not exist or at a cluster that is free or marked 1 |
| VolumeBytes.EntryOnDisk | Externals/FatFs/ff.c:1689-1703 | the entry at a byte offset of a directory in clusters is those 32 bytes of its clusters end to end |
| VolumeBytes.NoEntryBehind | Externals/FatFs/ff.c:1691-1700 | behind the last cluster of the chain there is none |
| VolumeBytes.RootEntryOnDisk | Externals/FatFs/ff.c:1684-1687 | in the static root directory it is those 32 bytes of its sectors, up to n_rootdir entries |
| LongNames.PutLfn | Externals/FatFs/ff.c:1928-1953 | the entry holds its thirteen units, terminator and filling, its number and end mark, and the checksum |
| LongNames.PickLfn | Externals/FatFs/ff.c:1890-1919 | takes the units up to the end of the name, rejects filling after a unit, overflow of the buffer and a cluster number |
| LongNames.CmpLfn | Externals/FatFs/ff.c:1854-1883 | accepts exactly the entries that agree with the buffer where they lie, to the end of the name |
| LongNames.StoreParts | Externals/FatFs/ff.c:2493-2508 | writes the entries of the name, last part first |
| LongNameBytes.PartBytes | Externals/FatFs/ff.c:1928-1953 | bytes 1-10, 14-25 and 28-31 of entry k are units 13 (k - 1) to 13 k - 1 of the name, its terminator and filling, low byte first, and the other bytes hold number, mark, 15, 0, checksum and 0; exactly such entries are parts of the name |
| LongNameBytes.SpellsName | Externals/FatFs/ff.c:2493-2508 | those bytes of the entries before the short one, nearest first, spell the whole name |
| LongNameBytes.PickableBytes | Externals/FatFs/ff.c:1890-1919 | pick_lfn accepts exactly entries whose bytes spell a front of a name, with a number of one or more that leaves room in the 256 units |
| LongNameBytes.KeptBytes | Externals/FatFs/ff.c:1903-1917 | it leaves the spelled units at 13 (number - 1) in the buffer, with the terminator |
| LongNameBytes.MatchesBytes | Externals/FatFs/ff.c:1854-1883 | cmp_lfn accepts exactly entries whose spelled units equal those at 13 (number - 1) in the buffer but for case |
| LongNameBytes.SumTurns | Externals/FatFs/ff.c:2022-2033 | for each byte of the short name the checksum is turned right by one bit, around the end, and the byte added |
| LongNameBytes.EntryKinds | Externals/FatFs/ff.c:2288-2314 | which entries are files, which names can be found, and which are long entries, by byte 0 and the six low bits of byte 11 |
| LongNameScan.HeldName | Externals/FatFs/ff.c:2316-2323 | when the units of a complete run before the carrier of a name are in the buffer, so is the name |
| LongNames.PartMatches | Externals/FatFs/ff.c:1854-1883 | comparing part k decides whether the names agree from there on |
| LongNameScan.OneName | Externals/FatFs/ff.c:2493-2508 | a short entry carries at most one long name |
| LongNameScan.TracksStep | Externals/FatFs/ff.c:2313-2330 | number and checksum describe exactly the run of long entries that is going on: descending numbers, one checksum, the first marked last, each accepted |
| LongNameScan.DirRead | Externals/FatFs/ff.c:2275-2343 | stops at the next file; reports a long name exactly when a complete run is tied to it, whose units the buffer then holds; so for a file stored by dir_register it is the very name |
| LongNameScan.ClearHasNone | Externals/FatFs/ff.c:2324-2328 | without a long entry right before it nothing is tied to a file |
| LongNames.AgreeIsSame | Externals/FatFs/ff.c:1854-1883 | agreement up to and including the terminator is equality of the names but for case |
| LongNameScan.RunEnds | Externals/FatFs/ff.c:2410-2414 | at a short entry number and checksum say exactly whether a complete run is tied to it |
| LongNameScan.RunMatches | Externals/FatFs/ff.c:2400-2414 | the carrier of a name has a complete run that matches exactly when the names are equal but for case |
| LongNameScan.DirFind | Externals/FatFs/ff.c:2353-2425 | in any directory, finds the first entry to which a complete matching run is tied or whose short name matches, and none otherwise |
| LongNameScan.FoundByName | Externals/FatFs/ff.c:2353-2425 | a file stored by dir_register is found by its long name exactly when the names are equal but for case, one without long entries never |
| VolumeFormat.Plans | Externals/FatFs/ff.c:6100-6173 | the geometry loop terminates, aborts exactly when Outcome, the chain of its rounds on the request, comes to nothing, and otherwise settles on the aligned estimate Outcome gives, which is a proper volume |
| VolumeFormat.FormatsAndMounts | Externals/FatFs/ff.c:6100-6212 | what the loop settles on passes check_fs, and mounts as intended if and only if the request leaves room for a cluster behind the aligned data base; otherwise, with FAT12 only, no file system is found |
| VolumeFormat.SmallBlocksMount | Externals/FatFs/ff.c:6133-6146 | erase blocks of up to fifteen clusters leave room |
| VolumeFormat.Settles | Externals/FatFs/ff.c:6144-6173 | whatever passes the final checks fits: nothing wrapped in 32 bits, the FAT is large enough, the sub-type suits the number of clusters |
| VolumeFormat.AlignOverhead | Externals/FatFs/ff.c:6130-6142 | aligning adds exactly the missing sectors before the data area, in all three cases |
| VolumeFormat.WriteVbr | Externals/FatFs/ff.c:6180-6212 | the fields of the boot sector, for each sub-type and both sizes |
| VolumeFormat.ReadsBack | Externals/FatFs/ff.c:3459-3487 | the block read back holds the plan |
| VolumeFormat.MountsAsIntended | Externals/FatFs/ff.c:3254-3509 | the boot sector passes check_fs; mounting derives the same sub-type, cluster count, FAT, directory and data base if a cluster is left, and otherwise finds no file system |
| VolumeFormat.IntendedIsOk | Externals/FatFs/ff.c:3485-3509 | the mounted geometry is the one all other proofs rely on, and its data area is aligned |
| VolumeFormat.AlignmentCanEmpty | Externals/FatFs/ff.c:6130-6173 | a request for which the loop settles on no cluster at all |
| FormatDefaults.AlwaysPlans | Externals/FatFs/ff.c:6100-6173 | with automatic cluster size, FAT32 allowed, up to 512 root entries and erase blocks of up to 16 sectors the loop finds a plan for every volume of 128 sectors or more |
| FormatDefaults.AlwaysMounts | Externals/FatFs/ff.c:6100-6212 | and that volume passes check_fs and mounts as intended |
| FormatDefaults.Plan16 | Externals/FatFs/ff.c:6114-6173 | the plan is FAT12 or FAT16 unless 65526 clusters of 64 sectors fit |
| FormatDefaults.Plan32 | Externals/FatFs/ff.c:6104-6157 | a volume of that size or more gets a FAT32 plan, if need be after halving the cluster size |
| BootSectors.MountIs | Externals/FatFs/ff.c:3459-3509 | for any boot sector, byte by byte: which ones mount, with what sub-type (up to 4085 and 65525 clusters), FAT, root directory, data base and number of entries |
| BootSectors.MountedIsOk | Externals/FatFs/ff.c:3485-3509 | what mounts and lies inside the disk has the geometry the other proofs rely on |
| BootSectors.AuIs | Externals/FatFs/ff.c:6104-6118 | the automatic cluster sizes by sectors of the volume |
| ScalarField.ScReduce | Externals/ed25519/sc.c:35-347 | for every 64 bytes the first 32 become their value modulo the group order, the rest stay |
| ScalarField.ScMulAdd | Externals/ed25519/sc.c:362-809 | for all 32-byte a, b, c the result is (a b + c) modulo the group order, below it, wherever it is stored |
| ScalarField.Reduce | Externals/ed25519/sc.c:60-313 | the folds and carries the two share compute the remainder |
| ScalarField.Finish | Externals/ed25519/sc.c:231-313 | the last three stages compute the remainder, without a carry out of limb 11 in the end |
| ScalarField.FoldValue | Externals/ed25519/sc.c:231-237 | folding a high limb subtracts a multiple of the order |
| ScalarField.FoldFits | Externals/ed25519/sc.c:231-237 | no product and no sum of a fold leaves int64 |
| ScalarField.CarryRound | Externals/ed25519/sc.c:195-230 | a rounding carry keeps the value, leaves a limb in [-2^20, 2^20), and no sum or shift of it leaves int64 |
| ScalarField.CarryFloor | Externals/ed25519/sc.c:238-273 | a floor carry keeps the value, leaves a limb in [0, 2^21), and no sum or shift of it leaves int64 |
| ScalarField.FirstLastFold | Externals/ed25519/sc.c:195-237 | after the first fold of limb 12 the value lies strictly between -2^252 and 2^252 |
| ScalarField.BorrowIsSmall | Externals/ed25519/sc.c:238-280 | the second limb 12 is therefore -1 or 0, and folding it gives the canonical value |
| ScalarField.TopLimbIsSmall | Externals/ed25519/sc.c:281-313 | the last carry chain may stop at limb 10 |
| ScalarField.Limbs64Value | Externals/ed25519/sc.c:36-59 | the 24 masked loads carry the value of the bytes |
| ScalarField.Limbs32Value | Externals/ed25519/sc.c:363-398 | so do the 12 loads of each argument |
| ScalarField.ProductValue | Externals/ed25519/sc.c:447-470 | limbs that collect all products of their weight are worth a b + c |
| ScalarField.ProductCollects | Externals/ed25519/sc.c:447-470 | the 24 written-out sums collect exactly those products |
| ScalarField.ProductBound | Externals/ed25519/sc.c:447-470 | their ranges before the carries |
| ScalarField.StoredValue | Externals/ed25519/sc.c:315-346 | the 32 stores spell the value of the limbs |
| FieldElement.FeMul | Externals/ed25519/fe.c:524-765 | f g modulo P, with limbs within 1.01 * 2^25 and 1.01 * 2^24, for limbs within 1.65 * 2^26 and 1.65 * 2^25, even when h overlaps f or g |
| FieldElement.FeSq | Externals/ed25519/fe.c:967-1127 | f^2 modulo P, in the same ranges |
| FieldElement.FeSq2 | Externals/ed25519/fe.c:1130-1300 | 2 f^2 modulo P, in the same ranges |
| FieldElement.ProductValue | Externals/ed25519/fe.c:557-700 | limbs that collect all products of their weight, with factors 2, 19 and 38, are worth f g modulo P |
| FieldElement.ProductCollects | Externals/ed25519/fe.c:557-700 | the hundred written-out products are those |
| FieldElement.DotBound | Externals/ed25519/fe.c:557-700 | every factor fits int32, every product and every partial sum int64 |
| FieldElement.SquareIsProduct | Externals/ed25519/fe.c:982-1070 | the fifty-five products of a square add up to the same limbs |
| FieldElement.SquareFits | Externals/ed25519/fe.c:982-1070 | for the limbs fe_sq accepts its products and all partial sums fit int64 |
| FieldElement.TwiceFits | Externals/ed25519/fe.c:1224-1253 | nor does doubling the sums, in fe_sq2, leave int64 |
| FieldElement.SquareFactors | Externals/ed25519/fe.c:982-1010 | their precomputed factors fit int32 |
| FieldElement.CarryProduct | Externals/ed25519/fe.c:701-755 | the twelve carries reach the output range and change the value by a multiple of P only |
| FieldElement.CarriableFits | Externals/ed25519/fe.c:712-753 | no rounding sum, carry, multiple by 19, shift or limb of a carry leaves int64 |
| FieldBytes.FeMul121666 | Externals/ed25519/fe.c:779-833 | 121666 f modulo P |
| FieldBytes.FeFromBytes | Externals/ed25519/fe.c:297-360 | the low 255 bits modulo P, with limbs in range; the top bit is ignored |
| FieldBytes.LoadedValue | Externals/ed25519/fe.c:298-307 | the overlapping loads and shifts carry exactly the low 255 bits |
| FieldBytes.ModulusIs | Externals/ed25519/fe.c:1365 | P is 2^255 - 19 |
| FieldBytes.FeToBytes | Externals/ed25519/fe.c:1361-1491 | the little-endian representative in [0, P) |
| FieldBytes.GuessIsClose | Externals/ed25519/fe.c:1408-1418 | the guess from the top limb is off by less than one multiple of P |
| FieldBytes.QuotientByP | Externals/ed25519/fe.c:1408-1418 | the eleven lines compute floor(value / P) |
| FieldBytes.Canonical | Externals/ed25519/fe.c:1408-1452 | adding 19 q and dropping the carry of limb 9 gives the canonical limbs |
| FieldBytes.SmallFloorFits | Externals/ed25519/fe.c:1422-1450 | no carry, shift or limb of these carries leaves int32 |
| FieldBytes.Join | Externals/ed25519/fe.c:1408-1418 | nor does a line that computes q |
| FieldBytes.StoredValue | Externals/ed25519/fe.c:1459-1490 | the 32 stores spell their value |
| FieldBytes.ThroughField | Externals/ed25519/fe.c:297-1491 | loading and storing maps any 32 bytes to their low 255 bits reduced modulo P |
| FieldBytes.SameBytes | Externals/ed25519/fe.c:1361-1491 | two elements are stored alike if and only if they are congruent |
| FieldPowers.FeInvert | Externals/ed25519/fe.c:364-448 | z^(P-2), also in place |
| FieldPowers.FePow22523 | Externals/ed25519/fe.c:881-964 | z^((P-5)/8), also in place |
| ScalarMult.Slide | Externals/ed25519/ge.c:25-58 | the 256 digits are a non-adjacent form of width five: zero, or odd and at most 15 in size with four zeros after them; they spell the number, or exactly when it does not fit, the number less 2^256 |
| SlideDigits.FormIsUnique | Externals/ed25519/ge.c:34-57 | such a form is determined by its sum, digit by digit |
| SlideDigits.FormSpells | Externals/ed25519/ge.c:34-57 | 256 digits spell v if and only if nothing is left of v after taking off 256 digits of its form |
| SlideDigits.SlideExact | Externals/ed25519/ge.c:25-58 | nothing is left of a number below 2^255 |
| SlideDigits.SlideLoses | Externals/ed25519/ge.c:25-58 | for 2^255 + 2^251 the digits spell 2^256 less |
| ScalarMult.BorrowFindsZero | Externals/ed25519/ge.c:44-51 | below 2^255 the borrow always finds a zero |
| ScalarMult.SubtractAtFour | Externals/ed25519/ge.c:38-54 | the subtracting branch is reached only four places up, from a positive entry |
| ScalarMult.Borrow | Externals/ed25519/ge.c:41-51 | the borrow adds exactly what was taken off |
| ScalarMult.OddTable | Externals/ed25519/ge.c:73-100 | A, 3A, .., 15A |
| ScalarMult.EvaluateDigits | Externals/ed25519/ge.c:101-128 | doubling and adding evaluates both digit strings at once, never outside the eight table entries |
| ScalarMult.DoubleScalarMult | Externals/ed25519/ge.c:60-130 | a A + b B for scalars below 2^255, and for all others the multiples that 256 digits spell |
| ScalarMult.Select | Externals/ed25519/ge.c:333-375 | b 256^pos B by conditional moves and a conditional negation |
| ScalarMult.Radix16 | Externals/ed25519/ge.c:394-413 | digits in -8 .. 8 that spell the scalar |
| ScalarMult.ScalarMultBase | Externals/ed25519/ge.c:377-434 | a B for a[31] <= 127, by odd digits, four doublings and even digits |
| Ed25519.ClampedScalar | Externals/ed25519/keypair.c:10-12 | a clamped scalar is a multiple of 8 in [2^254, 2^255) |
| Ed25519.ClampIs | Externals/ed25519/keypair.c:10-12 | it is 2^254 and bits 3 to 253 of the hash; the other 32 bytes stay |
| Ed25519.CreateKeyPair | Externals/ed25519/keypair.c:6-16 | the private key is the clamped hash of the seed, the public key encodes its multiple of B |
| Ed25519.Sign | Externals/ed25519/sign.c:7-31 | R encodes r B, and S is (k a + r) modulo the order, where r is the hash of the last 32 private bytes and the message, and k that of R, the public key and the message, as in RFC 8032 section 5.1.6 |
| Ed25519.ConsttimeEqual | Externals/ed25519/verify.c:6-45 | the accumulated difference is zero if and only if the 32 bytes are equal |
| Ed25519.Verify | Externals/ed25519/verify.c:47-77 | accepts exactly when S is below 2^253, the key decodes and R encodes S B - h A, where h is the hash of R, the public key and the message |
| Ed25519.AcceptedEquation | Externals/ed25519/verify.c:47-77 | for encoded points acceptance is the equation S B = R + h A |
| Ed25519.SignaturesVerify | Externals/ed25519/sign.c:7-31 | every signature made with a private key and its public key is accepted |
| Ed25519.KeyPairSignaturesVerify | Externals/ed25519/verify.c:47-77 | in particular for the pairs ed25519_create_keypair makes |
| Ed25519.AddScalar | Externals/ed25519/add_scalar.c:8-69 | the private scalar becomes (a + n) modulo the order, its second half is hashed on; the public key becomes that of the new private key, or n B plus its point |
| Ed25519.AddendIs | Externals/ed25519/add_scalar.c:23-27 | the number added is the given one modulo 2^255 |
| Ed25519.AddToPrivate | Externals/ed25519/add_scalar.c:29-41 | the part for the private key |
| Ed25519.AddToPublic | Externals/ed25519/add_scalar.c:51-67 | the part for a public key alone |
| Ed25519.AddScalarAgrees | Externals/ed25519/add_scalar.c:43-67 | moving a public key with or without its private key gives the same key |
| Ladder.FeAdd | Externals/ed25519/fe.c:81-123 | the sum modulo P, with limbs within 1.1 * 2^26 for limbs within 1.1 * 2^25, also in place |
| Ladder.FeSub | Externals/ed25519/fe.c:1315-1357 | the same for the difference |
| Ladder.Step | Externals/ed25519/key_exchange.c:52-70 | eighteen limb operations, each within the bounds the next one demands, compute the doubling and the differential addition of two ratios |
| Ladder.Turn | Externals/ed25519/key_exchange.c:45-70 | with the swap deferred, a turn of the loop climbs by one bit |
| Ladder.KeyExchange | Externals/ed25519/key_exchange.c:4-79 | for all keys the 32 bytes are the quotient of the ladder of the clamped scalar on the coordinate computed from the public key |
| Montgomery.DoubleIs | Externals/ed25519/key_exchange.c:55-70 | doubling X : Z gives (X^2 - Z^2)^2 : 4 X Z (X^2 + 486662 X Z + Z^2) |
| Montgomery.DiffAddIs | Externals/ed25519/key_exchange.c:53-69 | adding X : Z and X' : Z' with difference u gives 4 (X X' - Z Z')^2 : 4 u (X Z' - Z X')^2 |
| Montgomery.KeyEquation | Externals/ed25519/key_exchange.c:29-36 | the coordinate of a key times 1 - y is 1 + y, y its low 255 bits, when 1 - y has its inverse |
| Montgomery.TangentCoordinate | Externals/ed25519/key_exchange.c:52-70 | by the tangent law the coordinate x' of twice a point satisfies 4 (x^3 + 486662 x^2 + x) x' = (x^2 - 1)^2 |
| Montgomery.CoordinateProduct | Externals/ed25519/key_exchange.c:52-70 | by the chord law the coordinates of sum and difference of two points multiply to ((x x' - 1) / (x - x'))^2 |
| Montgomery.DoubleStands | Externals/ed25519/key_exchange.c:55-70 | a ratio that stands for a point of the curve, the point at infinity included, is doubled to one of twice the point |
| Montgomery.DiffAddStands | Externals/ed25519/key_exchange.c:53-69 | ratios of two points whose difference has a coordinate other than 0 are added to one of their sum, equal, opposite and infinite points included |
| Montgomery.KeyIs | Externals/ed25519/key_exchange.c:29-36 | the coordinate computed from the encoding of a point is its first coordinate, 0 for the identity |
| Montgomery.AffineIs | Externals/ed25519/key_exchange.c:76-78 | so is the quotient computed in the end |
| SharedSecrets.LadderStep | Externals/ed25519/key_exchange.c:44-71 | a step of the ladder keeps its ratios those of m Q and (m+1) Q |
| SharedSecrets.ZeroKey | Externals/ed25519/key_exchange.c:44-71 | a public key of coordinate 0 makes every denominator 0, so the secret is 0 |
| SharedSecrets.SecretIs | Externals/ed25519/key_exchange.c:4-79 | the secret is the first coordinate of e Q, 0 for the identity, for every point Q |
| SharedSecrets.ExchangeAgrees | Externals/ed25519/key_exchange.c:4-79 | two key pairs derive the same 32 bytes, the first coordinate of a (a' B) |
| SharedSecrets.OrderIs | Externals/ed25519/sc.c:26-33 | the order is 2^252 + 27742317777372353535851937790883648493 |
| Yay0.MaskWriter.PushBack | docs/gc-font-tool.cpp:617-642 | appends one bit, highest bit first |
| Yay0.MaskReader.PopFront | docs/gc-font-tool.cpp:645-671 | reads the next bit, and fails past the end of the input |
| Yay0.CarriesMore | docs/gc-font-tool.cpp:620-632 | setting a bit keeps those before it |
| Yay0.Be32Read | docs/gc-font-tool.cpp:724-750 | what was written big-endian is read back modulo 2^32 |
| Yay0.Compare | docs/gc-font-tool.cpp:793-809 | the length of the longest match at one distance, up to the limit |
| Yay0.Search | docs/gc-font-tool.cpp:791-826 | a longest match in the last 4096 bytes that stays below 274 bytes and the end of the input |
| Yay0.Compress | docs/gc-font-tool.cpp:777-858 | the file holds header, masks, links and chunks of a parse of the whole input into longest matches and single bytes |
| Yay0.Decompress | docs/gc-font-tool.cpp:861-922 | equals Decode, a function on byte strings with 32-bit offsets that fails wherever the code throws, and on anything that does not begin with "Yay0" |
| Yay0Format.RoundBytes | docs/gc-font-tool.cpp:883-914 | one round of it on any input: which bit, bytes and offsets it reads, when it fails, and that each copied byte repeats the one at the distance before it |
| Yay0Format.HeaderBytes | docs/gc-font-tool.cpp:848-857 | a compressed file begins with "Yay0", the size of the input and where links and chunks begin, big-endian and modulo 2^32, and has no other byte than its three streams |
| Yay0Format.ItemBytes | docs/gc-font-tool.cpp:828-846 | where each item of the parse lies in the three streams, and its bytes there |
| Yay0Format.GreedyIs | docs/gc-font-tool.cpp:791-846 | an item is a longest match of at most 273 bytes, at most 4096 back and ending before the last byte, or the byte itself when none of three bytes or more exists |
| Yay0.ReplaysMatch | docs/gc-font-tool.cpp:906-912 | copying a match byte by byte restores the input, also where it overlaps the bytes being produced |
| Yay0.LinkWord | docs/gc-font-tool.cpp:828-846 | length code and distance are read back from the link, for both length encodings |
| Yay0.DecodesItem | docs/gc-font-tool.cpp:884-914 | one round of the decoder undoes one item, as long as the offsets reach its bytes |
| Yay0.RoundTrip | docs/gc-font-tool.cpp:777-922 | decompressing a compressed file restores the input whenever size and file fit 32 bits |
| Yay0.RoundTripWrapped | docs/gc-font-tool.cpp:777-922 | below 4 GiB it also does when every byte past 2^32 equals the one 2^32 before it |
| Yay0.FirstMisread | docs/gc-font-tool.cpp:888-893 | it does not when the first byte that differs stands for itself |
| Yay0.FileBound | docs/gc-font-tool.cpp:848-857 | a file is at most its input, an eighth of it and the header |
| Yay0.RoundTripUpTo | docs/gc-font-tool.cpp:777-922 | so every input up to 3817748692 bytes is restored |
| Yay0.TooLong | docs/gc-font-tool.cpp:848-850 | no input of 4 GiB or more is |
| Yay0.HugeFails | docs/gc-font-tool.cpp:875-893 | an input whose size and table offsets fit 32 bits, but which is not restored |

## Left out

- Yay0.RoundTripWrapped: one case of inputs between 3817748693 bytes and 4 GiB - 1 is open: when the first byte read wrongly past 2^32 is the length of a link, what is produced may or may not happen to be right.
- Yay0.Decompress: memory exhaustion in `reserve` is not modelled.
- DirectoryWalk.Dir.Next: stretching the table (`stretch` set, used when a new entry is registered) and clearing the new cluster are not modelled.
- Ed25519.AddToPublic: says nothing about the result for a public key that does not decode; the code computes with an uninitialised point there.
- Ladder.KeyExchange: secrets of public keys that encode no point are the ladder's quotient; that they belong to the twist is not modelled.
- Files.File.LSeek: bytes skipped by an extending seek are unspecified, as in the code; the offset is taken below 2^32, the width of FSIZE_t without exFAT.
- Files.File.Write: on a failed call the bytes are unspecified; so they are after a failed LSeek or Truncate.
- FileSessions.Session: one handle on a volume that nothing else changes meanwhile; it ends at the first failure.
- FormatDefaults.AlwaysPlans: for larger erase blocks, more root entries, FAT32 forbidden or a cluster size asked for, when the loop aborts is said only by Outcome, the chain of its rounds.
- BootSectors.MountIs: boot sectors whose reserved sectors, FATs and root directory would end past sector 2^32 are not covered; the sums wrap there.
- FatHistory.PerformAll: after a failed transfer the table itself is only known for FAT16 and FAT32, where it is the one before; on FAT12 one entry may be half written.
- LongNameScan.DirFind: the location `blk_ofs` of the run that was found is not modelled.
- LongNames.StoreParts: finding room for the entries (`dir_alloc`) and making the short name (`gen_numname`) are not modelled.
- VolumeFormat.Plans: choosing partition and volume size, the cluster size argument, and writing FSINFO, FATs and root directory are not modelled; the volume is taken to end below sector 2^32 of the disk.
- fe_neg, fe_copy and fe_cmov: ten independent limb operations each, easy members.
- ge.c point formulas: the curve is an abstract group; that these formulas implement its law, and that the law is associative, is assumed. For the key exchange the group is that of concrete points and only its laws are assumed.
- SHA-512, seed generation, constant-time behaviour, the entries of precomp_data.h, proofs that P and the group order are prime.
- f_open, f_close, f_sync, f_opendir, f_unlink, f_rename and path handling: directory entries are not tied to file objects.
- exFAT, fast seek, file locks, volume labels, string functions, GPT, code pages and everything else the configuration compiles out.
- i2encode, i2decode, dithering, FreeType, BMP output and the command line of gc-font-tool.cpp.
- Finding the header files and reading their includes in find-includes-cycles.py.
