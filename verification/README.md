# Verification of the device-tree, renumbering, disk and patch tools

A Dafny model of the scripts that produce what these boards boot from, with proofs of what the scripts are
for. `dafny verify dfyconfig.toml` checks all of it.

## What is modelled

**The submission pipeline** (`upstream/build.sh` with `gen-overrides.py`, `remap-phandles.py` and
`check-refs.py`). A device tree source is a sequence of lines (`DeviceTree`). `Dtc` says what such lines mean,
following sections 6.2 and 6.3 of the Devicetree Specification v0.4: nodes, `&label { }` and `&{/path} { }`,
`/delete-node/` and `/delete-property/`, read one line at a time. `TreeParser` is the indentation parser,
`NodePrinter` the recursive printer, `GenOverrides` the diff. The main results:

- `DiffPatch.PatchIsTarget`: reading the generated overrides over the reference tree gives exactly the target
  tree, if and only if the nodes the two trees share carry the same labels. The script addresses a shared node
  by the reference's label and never emits one, so a target that renames a label cannot be rebuilt;
  `DiffPatch.ScriptMeaning` says what comes out in every case, including when the script is rejected.
  `DiffPatch.TextPatchIsTarget` states it from the text of the two trees.
- `EndToEnd.GateVerdict`: the gate says VERIFIED if and only if the two compiled trees are the same, give phandles
  to the same nodes, and write no property with a reference in one node that is a bare group in another. The
  phandles' values do not matter on either side. `EndToEnd.SubmissionPassesGate` joins this to the diff,
  `EndToEnd.PassedIsTarget` says what has then been proved of the references, and `Blobs.BlobsPassGate` carries it
  through the three blobs, each with its own phandle allocation and decompiler's table.
- `Gate.VerifiedIsBlind`: what VERIFIED is worth, told from the patched text alone. Every text that passes beside it
  says the same if and only if no reference of it is left a number, visible to check-refs or not, and no `&` of it
  is made up from a number that is no reference. `EndToEnd.VerdictIsSound` says it of compiled trees;
  `Gate.BlindSpots` has an example of each of the four shapes the gate cannot see.

**The clock and reset retarget** (`uboot-renumber.py`): the greedy scan over untyped cells, proved to be a
translation of the specifiers they stand for exactly when these are aligned, and the all-or-nothing exit, proved
exact. `dts-consts.py` beside it: names that expand to the numbers they replace.

**The raw-sector layout and the in-place update** (`build-image.sh`, `rk35xx-update`): methods over a byte
array, their whole result, the fixed points across the two scripts, and when a power cut leaves a bootable slot, at
any byte and in whatever order the bytes land.

**The payload loops** of the same two scripts, over a map of files, and **the firmware patcher**
(`fwpatch.py`), over a byte array.

Each loop of a script is a method proved equal to a recursive specification function; the lemmas are about
those functions, and the last of them say what an operation answers on its inputs alone (`RetargetMeaning`,
`DtsConsts.NamedWhereSole`, `BuildImage.LayoutBytes`, `StagedInstall.Installed`). Where a script iterates over a Python dictionary the model keeps its order (`OrderedDict`),
and where it sorts, so does the model (`Sorting.Sorted`).

## Where code and documentation part

- `upstream/README.md:30-34` and `remap-phandles.py:4-7` say the comparison shows that every node carries the
  same phandle. It shows that the same nodes carry one; the values are replaced before they are compared
  (`RemapExact.RemapEqualsReference`).
- `check-refs.py:8-11` says any name seen with `&` must never appear as a bare cell list. The pattern sees a
  property only if its whole value is one `<...>` group, and passes over a number beside an `&`
  (`Gate.BlindSpots`).
- `upstream/build.sh:64` says a numeric reference is the one difference the comparison cannot see. An index that the
  decompiler takes for a phandle and prints with `&`, as `patches/dtc/README.md:34-40` tells of
  `rockchip,taskqueue-node`, is another: it compiles to whatever phandle the node has (`Gate.VerifiedIsBlind`).
- `uboot-renumber.py:31-36` guards against a spelling of the cru that no number follows. It does not tell the cru
  from an argument of another provider that is spelled like it; one that stands before a number has that number
  rewritten. Where the cru takes one number, this is all that can go wrong (`UbootRenumber.ScanTranslates`).
- `rk35xx-update:14-15` says the bootloader is never touched; `update_uboot` rewrites both U-Boot slots. When a
  slot fails to verify, the loop goes on to the next one. That next step is safe only if the first slot holds
  a FIT after all or the second is current (`UpdateUboot.SlotRewriteSafe`).
- The update does not look at whether the slots it starts from hold a FIT. `UpdateUboot.RunIsSafe` gives the
  exact condition on the two slots under which a run is safe; both being good is enough, but not needed. A box
  whose second slot is bad, and whose first is good but not current, has no bootable slot while the first is
  being rewritten.

## Model

| member | source | states |
|---|---|---|
| TreeParser.Parse | upstream/scripts/gen-overrides.py:14-38 | the parsing loop over the lines, and that no line looks up a node that is not filed |
| TreeParser.ParseMeaning | upstream/scripts/gen-overrides.py:14-38 | on any printed text the compiler accepts, the parse means the tree the braces mean, phandles aside; it hangs together from the root and no two nodes share a label |
| NodePrinter.ChildTest | upstream/scripts/gen-overrides.py:57 | the prefix-and-no-slash test finds exactly the nodes whose key cut at the last slash is the path |
| NodePrinter.SubtreeChildren | upstream/scripts/gen-overrides.py:57-58 | a node lies below another exactly when it lies in the subtree of one of the children the printer recurses into |
| NodePrinter.RunEmitNode | upstream/scripts/gen-overrides.py:51-60 | the printed lines, read inside the parent, add the node's whole subtree and nothing else; they are rejected exactly when they bring in a label that is held |
| RoundTrip.EmitDepth | upstream/scripts/gen-overrides.py:51-60 | every printed line is indented by its depth, from the given indent back to it |
| RoundTrip.PrintParse | upstream/scripts/gen-overrides.py:14-60 | a printed subtree parsed at the depth it was printed for files exactly that subtree, with its labels and its valued and boolean properties in order, and leaves every other node as it was |
| RoundTrip.AddedIsSound | upstream/scripts/gen-overrides.py:14-60 | a map that hung together still does with the subtree added, if it went under a node that is there and no label is taken |
| RoundTrip.PrintParseTree | upstream/scripts/gen-overrides.py:14-60 | printing a whole tree and parsing it files every node as it was, its properties in the same order |
| GenOverrides.Differing | upstream/scripts/gen-overrides.py:77 | a property is assigned exactly when the reference lacks it or has another value |
| GenOverrides.EmitDeletions | upstream/scripts/gen-overrides.py:67-70 | the loop that emits the deletes |
| GenOverrides.EmitChanges | upstream/scripts/gen-overrides.py:74-83 | the loop that emits the property overrides |
| GenOverrides.EmitAdditions | upstream/scripts/gen-overrides.py:85-92 | the loop that emits the added nodes |
| GenOverrides.Generate | upstream/scripts/gen-overrides.py:63-96 | the whole script: deletes, then overrides, then additions, each over its sorted keys |
| DiffPatch.AddrResolves | upstream/scripts/gen-overrides.py:46-48 | an address, the label if there is one and else the path, resolves to its own node in any tree that has it with its label, and to no other |
| GenOverrides.TopsAreApart | upstream/scripts/gen-overrides.py:67-70 | no topmost removed (or added) node lies below another |
| GenOverrides.TopsCover | upstream/scripts/gen-overrides.py:67-92 | the subtrees of the topmost nodes are exactly what one tree has and the other lacks, for deletes and for additions |
| DiffPatch.TopmostAreDeleted | upstream/scripts/gen-overrides.py:67-70 | looking at the immediate parent alone, the script deletes exactly the topmost removed nodes |
| DiffPatch.RunDeletes | upstream/scripts/gen-overrides.py:67-70 | every delete resolves to a live node when it is reached, and takes away its subtree and nothing else |
| DiffPatch.DeletesLeaveShared | upstream/scripts/gen-overrides.py:67-70 | after the deletes the tree is the shared nodes, as the reference has them |
| DiffPatch.RunOverrides | upstream/scripts/gen-overrides.py:74-83 | the overrides give each shared node the target's properties and leave its labels |
| DiffPatch.RunAdds | upstream/scripts/gen-overrides.py:85-92 | the additions bring in each added subtree once, rejected exactly when one of its labels is held |
| DiffPatch.ScriptMeaning | upstream/scripts/gen-overrides.py:63-96 | what the script makes of the reference tree, for all trees: the target but for the shared nodes' labels, or a rejection exactly when an added node's label is held by a shared node |
| DiffPatch.PatchIsTarget | upstream/scripts/gen-overrides.py:63-96 | the script turns the reference tree into the target tree if and only if the shared nodes' labels agree |
| DiffPatch.TextPatchIsTarget | upstream/scripts/gen-overrides.py:14-96 | the same from the two texts, for any two printed trees the compiler accepts |
| DiffPatch.EmptyScript | upstream/scripts/gen-overrides.py:63-96 | nothing is emitted if and only if the two trees have the same nodes with the same properties |
| DiffPatch.PatchedDiffIsEmpty | upstream/scripts/gen-overrides.py:63-96 | diffing the patched tree against the target emits nothing |
| DiffPatch.OverrideLinesChange | upstream/scripts/gen-overrides.py:74-83 | every assignment and property delete inside an override changes something |
| DiffPatch.ScriptIndented | upstream/scripts/gen-overrides.py:63-96 | every line of the script is indented by its depth |
| Walker.WalkersAgree | upstream/scripts/remap-phandles.py:19-29 | the parser's stack and the walkers' are the same at every line if and only if no head has two labels |
| Walker.PathsAgree | upstream/scripts/gen-overrides.py:41-43 | the walkers' node path is the parser's key as a device tree path |
| RemapPhandles.Phandles | upstream/scripts/remap-phandles.py:32-34 | the map from node path to phandle |
| RemapPhandles.LastPhandle | upstream/scripts/remap-phandles.py:32-34 | a node is filed with the phandle of its last phandle line |
| RemapPhandles.RemapTree | upstream/scripts/remap-phandles.py:37-51 | the rewriting loop, and the nodes it reports, in order |
| RemapPhandles.UnmappedAre | upstream/scripts/remap-phandles.py:42-51 | the nodes reported are exactly those with a phandle line in the target and none in the reference |
| RemapExact.EraseRemap | upstream/scripts/remap-phandles.py:42-48 | remapping changes phandle values and nothing else |
| RemapExact.RemappedLine | upstream/scripts/remap-phandles.py:42-48 | what becomes of every line: a phandle of a node the reference gives one takes its value, group by group; every other line, the phandle of an unmapped node too, is kept |
| RemapExact.RemapEqualsReference | upstream/scripts/remap-phandles.py:32-48 | the remapped tree equals the reference if and only if the two texts agree on everything but phandle values and no node of the reference has two phandles |
| CheckRefs.Owners | upstream/scripts/check-refs.py:28-39 | the map from phandle to node path |
| CheckRefs.LastOwner | upstream/scripts/check-refs.py:28-39 | a phandle is filed with the node of its last line |
| CheckRefs.CheckFile | upstream/scripts/check-refs.py:47-56 | the loop over a file: its reports, in order |
| CheckRefs.ReportsCount | upstream/scripts/check-refs.py:47-56 | there are as many reports on a file as lines in it left numeric |
| CheckRefs.ReportsMean | upstream/scripts/check-refs.py:42-56 | a report is made of exactly those lines of a file that are one group of numbers under a name that is one group with an & somewhere, with the node of the first of the numbers that is a phandle |
| CheckRefs.Check | upstream/scripts/check-refs.py:42-61 | the reports on all files, and the exit code: 0 if and only if no property written with a reference in some file is a bare number in any |
| CheckRefs.CleanIsNoneBare | upstream/scripts/check-refs.py:42-61 | the files are clean if and only if there is no such line |
| Gate.MapsInverse | upstream/scripts/check-refs.py:28-39 | the map from phandles to nodes is the inverse of remap-phandles' map from nodes to phandles |
| Gate.SameTextSameMeaning | upstream/build.sh:59-74 | two texts that agree but for phandle values say the same, cell by cell, if and only if every reference left a number names the same node in both and every & that is no reference compiles to the same number |
| Gate.CleanAndVisible | upstream/scripts/check-refs.py:42-61 | once check-refs passes, that it can see every numeric reference means that there is none |
| Gate.VerifiedIsSound | upstream/build.sh:59-74 | provided check-refs can see every reference left a number, VERIFIED means the same hardware if and only if every & that is no reference compiles to the same number from both texts |
| Gate.CleanOnce | upstream/scripts/check-refs.py:42-61 | on two texts that agree but for phandle values check-refs passes if and only if it passes on one |
| Gate.VerifiedIsBlind | upstream/build.sh:64-74 | every text that passes beside the patched one says the same if and only if the patched one has no phandles, or no reference left a number and no & made up from a number that is none; looking only at texts with distinct phandles changes nothing |
| Gate.BlindSpots | patches/dtc/README.md:34-40 | one pair of texts for each shape the gate does not see (a name written with & nowhere, a number beside an &, a value of two groups, an index written with &) that passes and means different things |
| Canonical.CanonicalCompiles | upstream/build.sh:61-62 | the sorted text of a tree compiles to that tree with its phandles |
| Readings.CanonicalReads | upstream/scripts/remap-phandles.py:19-29 | the walkers read in the sorted text every head and property of every node, each in its own node, and nothing else |
| Readings.CanonicalPhandles | upstream/build.sh:61-62 | in the sorted text every phandle line sits in its own node, one to a node |
| Readings.CanonicalClean | upstream/scripts/check-refs.py:42-61 | check-refs passes on the sorted text if and only if the tree writes no property with a reference in one node that is a bare group in another |
| Readings.LabelsResolve | upstream/scripts/remap-phandles.py:19-29 | a label names, by the walkers' node paths, the node it resolves to in the compiled tree |
| Readings.ReferencesCompile | upstream/build.sh:61-62 | an & compiles, from the sorted text, to the phandle of the node it resolves to in the tree |
| EndToEnd.GateDecides | upstream/build.sh:67-74 | on the sorted texts of two compiled trees the comparison passes if and only if nodes, labels, properties and the set of nodes with a phandle are the same |
| EndToEnd.GateVerdict | upstream/build.sh:64-74 | check-refs and comparison together pass if and only if that holds and no property of the tree is written both with references and as a bare group |
| EndToEnd.VerdictIsSound | upstream/build.sh:64-74 | every compiled tree that passes beside the patched one is the same and says the same of every node, whatever its phandles, if and only if the patched tree has no phandles, or no reference left a number and no & made up from a number that is none |
| EndToEnd.SubmissionPassesGate | upstream/build.sh:55-74 | the overrides compile over the parsed reference tree and pass check-refs and the comparison against the target if and only if the shared nodes' labels agree, both compiles give phandles to the same nodes, and the target writes no property both with references and as a bare group |
| EndToEnd.PassedIsTarget | upstream/build.sh:59-74 | what passes is the target: the tree, the node each label names in both texts, and, when no reference is left a number and no & is made up, everything said of every node |
| Blobs.GroupsComeBack | upstream/build.sh:49-57 | a property's groups come back from its cells in a row if and only if none is empty and the decompiler finds where each begins |
| Blobs.BlobRoundTrip | upstream/build.sh:49-57 | through a blob and back, under any injective allocation, a tree is unchanged if and only if every reference stands where the decompiler's table knows one, no other number there is a phandle, no list of cells is empty, and the table finds the groups |
| Blobs.BlobsPassGate | upstream/build.sh:47-74 | with the reference tree and the target decompiled from their blobs, the source surviving its own, the overrides compile over the source and their blob passes the gate beside the board's if and only if the shared nodes' labels agree, both blobs give phandles to the same nodes, the target writes no property both with references and as a bare group, and the target survives the blob of the overrides |
| UbootRenumber.BuildByValue | upstream/scripts/uboot-renumber.py:43-48 | the loop that files names under values |
| UbootRenumber.ByValueNames | upstream/scripts/uboot-renumber.py:43-48 | a value's names are exactly those the header defines with it that are kept |
| UbootRenumber.ScmiIsNotClock | upstream/scripts/uboot-renumber.py:24-27 | no id of the scmi provider is collected as a clock |
| UbootRenumber.ResetSpelled | upstream/scripts/uboot-renumber.py:55-57 | both vendor spellings of a reset come out as mainline's |
| UbootRenumber.HitsAre | upstream/scripts/uboot-renumber.py:81-83 | a number is a hit exactly when mainline gives it to the spelling of a symbol with the vendor's index |
| UbootRenumber.ScanGroup | upstream/scripts/uboot-renumber.py:77-95 | the scanning loop: cells, count and skipped indices |
| UbootRenumber.ScanTranslates | upstream/scripts/uboot-renumber.py:31-36 | for specifiers whose cru takes one number, the greedy scan of their cells is the translation of the specifiers, whatever the two dictionaries, if and only if no argument of another provider that is spelled like the cru stands directly before a number |
| UbootRenumber.ScanCounts | upstream/scripts/uboot-renumber.py:79-94 | every index is counted or skipped, and none is skipped exactly when each has one mainline number |
| UbootRenumber.ClockIsNotReset | upstream/scripts/uboot-renumber.py:102-105 | no property name is matched by both passes, word boundaries included |
| UbootRenumber.Retarget | upstream/scripts/uboot-renumber.py:76-102 | one pass over every group of every matched property |
| UbootRenumber.Renumber | upstream/scripts/uboot-renumber.py:60-125 | the whole run, over the two passes |
| RetargetMeaning.EmittedWhenMapped | upstream/scripts/uboot-renumber.py:60-125 | on the headers and the text alone: text is emitted if and only if the cru is known, every index of a clock and of a reset has exactly one number that mainline finally gives a symbol the vendor gives that index, and there is one of each |
| RetargetMeaning.EmittedBecomes | upstream/scripts/uboot-renumber.py:71-125 | cell by cell, each index is then its number in hexadecimal, the phase tags are mainline's, and everything else is the input |
| RetargetMeaning.RefusedBecause | upstream/scripts/uboot-renumber.py:69-70 | what is answered otherwise: an unknown cru, else the number of indices left, else nothing to do |
| RetargetMeaning.ScanCells | upstream/scripts/uboot-renumber.py:77-95 | the scan rewrites exactly the numbers that follow a spelling of the cru which is no index itself, and counts those it leaves |
| UbootRenumber.IndexMeaning | upstream/scripts/uboot-renumber.py:81-86 | the number written is the mainline number of a symbol whose vendor number was the old index |
| Numerals.IntReads | upstream/scripts/uboot-renumber.py:31-36 | what a token reads as: the sum of its digits times the powers of their places, in the base its prefix gives |
| Numerals.IntOfHex | upstream/scripts/uboot-renumber.py:85 | a rewritten cell reads back as the number it was written for |
| Numerals.HexShape | upstream/scripts/uboot-renumber.py:85 | and is the shortest such token, in lower case |
| DtsConsts.NameCells | upstream/scripts/dts-consts.py:56-65 | the loop over a group's tokens: a number becomes a name exactly when the header of the last provider before it has one kept definition with its value, every other token is kept, and the headers are those of the names written |
| DtsConsts.NamingKeepsValues | upstream/scripts/dts-consts.py:48-65 | cell for cell, what is emitted is the cell itself or a name that expands, under the added includes, to the number it replaces and to no other |
| DtsConsts.ProvidersApart | upstream/scripts/dts-consts.py:18-23 | of the names the cru header gives a number, cru is offered exactly those that are not SCMI ids and scmi_clk exactly those that are; power is offered all of its header's |
| DtsConsts.IncludesExist | upstream/scripts/dts-consts.py:53-83 | every header the script includes is one it read |
| DtsConsts.InterruptsNamed | upstream/scripts/dts-consts.py:67-78 | all the cells are named, and the two headers included, exactly when they are hexadecimal triples of known types; what each cell becomes |
| DtsConsts.InterruptsKeepValues | upstream/scripts/dts-consts.py:67-78 | an interrupts property keeps its numbers, named or left alone |
| RawDisk.FillSlot | build-image.sh:72-73 | a slot cleared and then written holds the blob and zeros after it, and no byte it held before |
| RawDisk.Replicate | build-image.sh:68-76 | the disk is as before but for the copies, one after another |
| RawDisk.RepeatAt | build-image.sh:68-76 | every copy is the slot in full |
| BuildImage.RestoreWindow | build-image.sh:123-141 | the factory window is the dump's if there is one, else the image's own |
| BuildImage.LayImage | build-image.sh:92-145 | the guards; an image that fails one is untouched, and one that passes is laid out |
| BuildImage.GptReads | build-image.sh:46-53 | the start read is the one the GPT names: the first sector of the first entry of the array the header names, its bytes lowest first |
| BuildImage.RefusedWhen | build-image.sh:95-137 | when an image is refused, and why, on the bytes of the image, the idbloader, the FIT and the dump |
| BuildImage.LayoutBytes | build-image.sh:68-76 | what the laid-out image holds at every byte |
| BuildImage.PartitionsUntouched | build-image.sh:118-145 | the first 64 sectors and everything from the first partition on are unchanged, and the GPT reads as before if its first entry does not stand in a sector that is written |
| UpdateUboot.UpdateSlot | rk35xx-update:206-216 | one turn of the loop: the slot, and what is reported |
| UpdateUboot.Update | rk35xx-update:194-218 | the guards, and on the bytes what is reported of each slot and what is left at every byte; a slot that begins with the blob keeps its tail |
| UpdateUboot.SecondRun | rk35xx-update:206-217 | a second run writes nothing |
| UpdateUboot.ImageIsCurrent | build-image.sh:143-145 | a disk laid out from the same blob is current in both slots |
| UpdateUboot.SlotRewriteSafe | rk35xx-update:210-216 | rewriting one slot leaves a complete FIT at every byte if and only if it is current or the other slot holds one, whatever state the slots are in |
| UpdateUboot.RunIsSafe | rk35xx-update:208-217 | a run leaves a complete FIT at every byte if and only if the first slot is current or the second holds one to begin with |
| UpdateUboot.TornRunIsSafe | rk35xx-update:208-217 | with a slot's clear and write landing in any order until the second is synced, every disk that may be found holds a complete FIT if and only if the first slot is current or the second holds one to begin with |
| UpdateUboot.RunIsFound | rk35xx-update:208-217 | the disks of a run whose bytes land in order are among those |
| UpdateUboot.TraceIsUpdate | rk35xx-update:208-217 | the bytes written one by one add up to the update |
| UpdateUboot.TraceStaysInSlots | rk35xx-update:191-214 | at every byte of the run, nothing outside sectors 16384 to 24575 has changed |
| StagedInstall.Rootfs.InstallStaged | rk35xx-update:142-149 | the loop that stages and renames: what it makes of any files, step by step |
| StagedInstall.Rootfs.InstallDirect | build-image.sh:203-207 | the loop that copies: what it makes of any files, step by step |
| StagedInstall.Rootfs.UpdatePayload | rk35xx-update:142-149 | if no destination is named like a staging file, every destination has the mode and content of its last entry, every other path is as before, and what an interrupted run left staged is gone |
| StagedInstall.Rootfs.ImagePayload | build-image.sh:203-207 | every destination has the mode and content of its last entry, and every other path is as before |
| StagedInstall.StagedShowsDirect | rk35xx-update:142-149 | at every point, between entries or with any part of a file under its staging name, each destination is what the direct loop has after some whole entries |
| StagedInstall.StagesGone | rk35xx-update:146-148 | nothing is left under a staging name |
| StagedInstall.StageName | rk35xx-update:146 | a file is staged in its own directory, under a dot, its name and the suffix |
| StagedInstall.StagedIsDirect | rk35xx-update:142-149 | the staged install ends as the direct one, later entries winning |
| StagedInstall.PayloadsAgree | rk35xx-update:142-149 | over one payload list in which nothing is named like a staging file the two scripts leave the same files behind |
| FwPatch.PatchImage | research/seekwave-tx-latch-bug/tools/fwpatch.py:83-103 | on the bytes: the code is 2 for a name that is not listed, else 0 if the site spells a word listed for it and 1 if not; the four bytes written, and no others |
| FwPatch.KnownIsListed | research/seekwave-tx-latch-bug/tools/fwpatch.py:93-97 | the guard passes exactly when the four bytes at the site spell a listed word |
| FwPatch.VariantsAreWide | research/seekwave-tx-latch-bug/tools/fwpatch.py:72-81 | no listed word has a zero top byte |
| FwPatch.KnownIsInside | research/seekwave-tx-latch-bug/tools/fwpatch.py:93-98 | a read cut short by the end of the image is always refused, so no patch changes the length |
| FwPatch.SitesDisjoint | research/seekwave-tx-latch-bug/tools/fwpatch.py:72-81 | the windows of different sites share no byte |
| FwPatch.RunResult | research/seekwave-tx-latch-bug/tools/fwpatch.py:92-98 | a run is accepted throughout if and only if the first image spells a listed word at every site it patches; each window then spells the last word given, and all else is as it was |
| FwPatch.OnlyLastWordsMatter | research/seekwave-tx-latch-bug/tools/fwpatch.py:92-98 | runs that end on the same words make the same image, whatever order they took |
| FwPatch.FirstWordsUndo | research/seekwave-tx-latch-bug/tools/fwpatch.py:92-98 | giving each patched site its first word again undoes the run |

## Left out

- Splitting text: the model starts from lines, cells and `#define`s already told apart. The regular expressions
  are modelled where they decide something (which names match, which values are one group, which labels are
  stripped), not where they only cut a string.
- Dtc.Run: stricter than the compiler in two ways, checking labels at every line and refusing to open a node by
  name twice; what it accepts the compiler accepts with the same result. Includes, references to nodes defined
  later, and macros are not modelled.
- Canonical.CanonicalText: the compiler's sorted output is the printer of `NodePrinter` over sorted nodes and
  properties; its spelling of values is taken as it is.
- EndToEnd.SubmissionPassesGate: reads the overrides over the parsed reference tree, where the script compiles them
  over the included source; `Blobs.BlobsPassGate` does the latter.
- Blobs.BlobsPassGate: asks that the source's own blob gives it back (`Blobs.BlobRoundTrip` says when); what the
  overrides do over a source whose blob does not is not modelled.
- Blobs.Compile: the bytes a blob keeps for a property that is no list of cells are kept as text, and the
  decompiler's table of properties is any table.
- The comment line gen-overrides.py puts before the deletes, and the counts it reports, which count that line
  as a delete.
- UbootRenumber.Retarget: text between groups and property names inside strings or comments are not modelled;
  messages keep the skipped index only.
- Numerals.Int: reads hexadecimal and decimal cells; signs, underscores, octal and binary spellings, which a
  decompiler does not print, are taken for no number.
- UpdateUboot.IsCurrent: md5 sums are taken to be equal exactly when the bytes are.
- UpdateUboot.Torn: a byte found after losing power is one that was there or that the run writes; a sector that
  reads as neither is not modelled.
- BuildImage.GptFirstLba: the two reads the script makes; entry 0 is taken to be the first partition.
- BuildImage.LayImage: the image is at least 24576 sectors long, which the partition guard implies of any image whose
  partitions are in it; dd would lengthen a shorter one.
- StagedInstall.Rootfs.InstallStaged: a source that is missing, which stops either script, and directories are
  not modelled.
- `migrate`, DKMS, systemd, the console and hostname edits, e2tools, loop devices and package checks: each runs a
  fixed list of foreign commands.
- The meaning of the patched ARM instructions.
