# Verified models of the PULP software tools

The repository builds and boots PULP chips. Besides register headers and build scripts it holds a handful of small
algorithms whose correctness is not obvious from any one line of code. This project models eight groups of them in Dafny and
proves what they are for:

* **the micro-code sequencer** of the MAC engine (`Ucode*.dfy`, `Bytecode.dfy`): a flat state machine that stands for a
  nest of hardware loops, the interpreter of its micro-instructions, the two together over a whole run, the loader, the
  loop table and the bit encoding;
* **the IP dependency resolver** of ipstools (`Ip*.dfy`, `Semver.dfy`): flattening, conflict grouping, subtree
  replacement in place, the semantic-versioning choice, and the loop that resolves until nothing changes any more;
* **the ROM boot loader** (`Boot*.dfy`): the search for a place that no area needs, the move there, and the load of every
  area in blocks;
* **the ordered dictionary** (`OrderedDict.dfy`): a circular, doubly linked list with a sentinel, next to a map;
* **the register pictures** of the documentation generator (`BitBox.dfy`);
* **the stimuli generator** (`StimMemory.dfy`, `StimImage.dfy`, `StimBin.dfy`): segments packed into little-endian words of
  any width, what they leave in memory, and the flat binary image;
* **the qualification of GitHub references** in the vendoring script (`References.dfy`, `ReferenceText.dfy`,
  `ReferencesOctal.dfy`);
* **the ROM images**: the boot ROM (`RomImage.dfy`), whose bytes are gathered into words and listed, and the debug ROM
  (`DebugRom.dfy`), which is written for C and for SystemVerilog.

`Arith.dfy`, `Bits.dfy`, `Words.dfy`, `TextOrder.dfy`, `Sorting.dfy` and `Collections.dfy` hold what is shared: facts about
products, bit strings, words, sequences and the textual order of numbers, and a sort for any strict total order.
`dafny verify dfyconfig.toml` checks everything.

## How the models are built

Code that changes state step by step is imperative here too: the state machine updates its index array in place, tree
nodes, dictionary cells and the memory of the boot loader are heap objects, and each method is proved against a pure
function or predicate about which the main theorems are then stated. The text processing of the vendoring script is
expressions in the source and functions here.

* *Sequencer.* `Step` is one call of the state machine as a function; `StateMachine` is the imperative form. The number
  of loops is any positive number, not just six. `Body` is the trace of the nested loops: body(k+1) is body(k)
  followed by (block k; body(k)) repeated range - 1 times. The loop that drives the machine stands
  in the source as a comment (`ips/hwpe-mac-engine/ucode/ucode_common.py:181-187`); `RunProgram` executes an instruction
  when the machine says so.
* *Resolver.* The tree is a set of heap objects with a mutable list of children, so a node may be shared. A `Graph` is a
  snapshot of all children together with a rank that falls from parent to child; it is ghost data and serves as the
  specification. `RankedByName` says that names depend on each other without a cycle. The recogniser and parser of
  version strings is a parameter. Each node has one name; `requested` is the commit its parent asks for and `commit` the
  one that was resolved.
* *Boot loader.* Memory is an array of 2^32 bytes, and the loader's structure lies in it at the offsets a 32-bit
  compiler gives it, so reading the table of areas while areas are being loaded is really reading memory that the
  loads might have overwritten. Additions are those of unsigned 32-bit numbers. Transfers are exact copies.
* *Stimuli.* Python integers are natural numbers with bitwise or, and-not and shift defined bit by bit; the width is any
  power of two. A segment is loaded as one or two runs of bytes, and the memory is described address by address.
* *Dictionary iteration order* and the user's choice among conflicting IPs are arbitrary values that the theorems quantify
  over.

## What the proofs found

* A loop of range 0 and a block of 0 instructions behave like range 1 and one instruction; the theorems about the state
  machine therefore need no precondition on either.
* The resolver's fixpoint loop stops after at most one round more than there are names if names depend on each other
  without a cycle, although every round works on a list of conflicts that goes stale. No node gains or loses a
  dependency by it, only the versions change. With a cycle it may not stop.
  The traversal in place (`NormalizeDependency`) and a single round (`Round`) are proved for any tree, names ranked or
  not. `Settle` says, for any tree, when what a replacement leaves is a tree at all, and when its name is then without
  conflict: exactly when every node of that name below the chosen one asks for the same commit. `RoundOfChain` runs a
  round over a family of trees in which the same choice is made for ever: it reports a change, and leaves the tree as it
  was.
* The semantic-versioning choice refuses a list that contains a pre-release of the very first version of its class
  (1.0.0-rc, 0.3.0-rc): such a version misses its own range.
* An area with more blocks than needed is loaded correctly if its size is a multiple of four; otherwise the unsigned
  counter of bytes left wraps around and the loader runs on past the end (`ExtentExactIff`). The search for a
  place is optimal exactly when no empty area begins inside a loader at the best place (`OptimalIff`).
* `write_bitbox` draws a box of width 0 exactly when the first field begins where the slice starts.
* The stimuli generator clears as many bits as a word has bytes. Up to width 8 that is at most the first byte stored, and
  every byte of segments that do not overlap is kept. With words of 8m bytes, m bytes are cleared, and a byte loaded
  before is lost when a later run ends in front of it in its word, having begun there less than m bytes earlier
  (`WideLoadLoses`); `KeepsIff` and `WideKeepsIff` give the exact condition. The loss is one of the routines: the program
  itself calls them with the widths 8 and 1 only (`boot_code/stim_utils.py:150` and `:157`). Where segments overlap, a word
  of one byte keeps all but the lowest bit of its old byte and gets the new one ored in (`MergedIsLoaded`).
* The flat binary is emitted to its end exactly when the addresses stand in the same order as texts and as numbers; 10 sorts
  before 9 as text.
* Qualifying references twice is not always the same as once: a repository name that ends in `-`, or that is `gh-` and a
  number, is rewritten again each time. `IdempotentIff` gives the exact condition. An organisation
  that begins with a digit turns the replacement template into an error, or into an octal escape if its first two
  characters are octal digits (`TemplateOf`). The character before a reference is then dropped, so that a `g` in front of
  it may end up before an escaped `h`; `SwallowingIdempotentIff` gives the exact condition for these.

## Model

| member | source | states |
|---|---|---|
| Ucode.StateMachine | ips/hwpe-mac-engine/ucode/ucode_common.py:38-98 | one call, with the index vector updated in place, is the pure step; at termination a fresh zero vector is returned and the old one is left alone |
| Ucode.StepFlags | ips/hwpe-mac-engine/ucode/ucode_common.py:48-97 | an instruction is issued as long as the current loop has iterations left; busy means that the indices stand and the run goes on; the end comes in the top loop and issues nothing |
| Ucode.MachineRunsTheNest | ips/hwpe-mac-engine/ucode/ucode_common.py:38-98 | from the zero state the flat machine issues exactly the trace of the nested loops, ends at its last step and not before, and is back in the zero state |
| Ucode.RunBody | ips/hwpe-mac-engine/ucode/ucode_common.py:57-83 | from loop 0 with the lower indices zero, the machine runs the nest below loop k and arrives at loop k with those indices exhausted |
| Ucode.RunIterations | ips/hwpe-mac-engine/ucode/ucode_common.py:48-68 | the m passes that loop k has left issue m times its block followed by the nest below |
| UcodeOdometer.StepInv | ips/hwpe-mac-engine/ucode/ucode_common.py:48-97 | indices stay within the ranges, loops below the current one stay exhausted, the address is that of the block plus the instruction number |
| UcodeOdometer.StepCounts | ips/hwpe-mac-engine/ucode/ucode_common.py:48-83 | a step raises the mixed-radix value of the indices by one if it executes and is not busy, and leaves it alone otherwise |
| UcodeOdometer.StepEnds | ips/hwpe-mac-engine/ucode/ucode_common.py:84-97 | a step ends the run if and only if it is in the top loop and the value is product of ranges - 1 |
| UcodeOdometer.OdometerSoFar | ips/hwpe-mac-engine/ucode/ucode_common.py:48-97 | before every step of a run the value equals the number of increments made so far |
| UcodeOdometer.OdometerTotal | ips/hwpe-mac-engine/ucode/ucode_common.py:48-97 | a run makes product of ranges - 1 increments |
| UcodeOdometer.OdometerReaches | ips/hwpe-mac-engine/ucode/ucode_common.py:48-97 | every index vector within the ranges is visited |
| UcodeOdometer.OdometerLaw | ips/hwpe-mac-engine/ucode/ucode_common.py:48-97 | the index vector is v if and only if the number of increments so far is the value of v, so the vectors come in order, each once |
| UcodeProgram.Load | ips/hwpe-mac-engine/ucode/ucode_common.py:140-167 | instruction o of block k lands at the sum of the earlier block lengths plus o: an add if it says so and a move otherwise, each operand replaced if it is a mnemonic and kept if not |
| UcodeProgram.GetLoops | ips/hwpe-mac-engine/ucode/ucode_common.py:169-179 | the table starts each block where the blocks before it end, and is as long as the shorter of the two lists |
| UcodeProgram.Execute | ips/hwpe-mac-engine/ucode/ucode_common.py:100-107 | on a copy of the registers, register a becomes a + b for an add and b for a move; every other register keeps its value |
| UcodeProgram.AddressInCode | ips/hwpe-mac-engine/ucode/ucode_common.py:48-97 | before every step of a run the address is the start of the block plus the instruction number and lies inside the code |
| UcodeProgram.RunComputesTheNest | ips/hwpe-mac-engine/ucode/ucode_common.py:38-107 | the registers after a run of the machine are those that structured nested loops compute |
| UcodeProgram.NestMeaning | ips/hwpe-mac-engine/ucode/ucode_common.py:38-107 | executing the trace of the nest is the big-step meaning of the nested loops |
| UcodeRun.Cycle | ips/hwpe-mac-engine/ucode/ucode_common.py:38-107 | one call of the state machine, and the current instruction if it says so, on the index array in place and on a copy of the registers |
| UcodeRun.RunProgram | ips/hwpe-mac-engine/ucode/ucode_common.py:38-107 | state machine and interpreter together, from the zero state until the machine reports the end: the registers that come back are those of the nested loops |
| UcodeRun.EndsAtSteps | ips/hwpe-mac-engine/ucode/ucode_common.py:84-97 | during a run a step reports the end if and only if it is the last of the nest |
| UcodeCost.StepsClosedForm | ips/hwpe-mac-engine/ucode/ucode_common.py:38-98 | a run takes n + sum over k of (k + length of block k) (range k - 1) product of the ranges above k steps |
| UcodeCost.IssueCount | ips/hwpe-mac-engine/ucode/ucode_common.py:38-98 | instruction o of block k is issued (range k - 1) product of the ranges above k times, and nothing else is issued |
| UcodeCost.SumOverNest | ips/hwpe-mac-engine/ucode/ucode_common.py:38-98 | any sum over the trace counts each block once per entry |
| UcodeCost.AddressGenerator | ips/hwpe-mac-engine/ucode/ucode_common.py:100-107 | a register only ever added to, from registers never written, ends at its start value plus each source times the entries of its block |
| UcodeMoves.LastMoveWins | ips/hwpe-mac-engine/ucode/ucode_common.py:100-107 | after any trace a register written only by moves from registers never written holds the source of the last move into it, and is unchanged if there was none |
| UcodeMoves.LatchedRegister | ips/hwpe-mac-engine/ucode/ucode_common.py:38-107 | after a complete run that move is the last one in the block of the lowest loop whose block is executed at all and writes the register |
| Bytecode.EncodeCode | ips/hwpe-mac-engine/ucode/ucode_common.py:112-126 | succeeds if and only if every operand fits five bits; bits [11i, 11i+11) then hold instruction i, the padding holds moves of x0 into itself |
| Bytecode.EncodeLoops | ips/hwpe-mac-engine/ucode/ucode_common.py:127-137 | succeeds if and only if every start address and length fits; bits [8k, 8k+8) then hold start address and length of block k |
| Bytecode.Encode | ips/hwpe-mac-engine/ucode/ucode_common.py:112-138 | both halves: the image decodes to the program whenever encoding succeeds |
| Bytecode.EncodingInjective | ips/hwpe-mac-engine/ucode/ucode_common.py:112-138 | two programs with the same image have the same blocks and the same instructions, up to padding moves |
| Bytecode.RegistersLoseNothing | boot_code/include/archi/hwme/hwme_v1.h:36-44 | for six loops and at most sixteen instructions, cutting the image into seven 32-bit registers and joining them gives it back |
| Bytecode.CutAt | boot_code/include/archi/hwme/hwme_v1.h:36-44 | register j holds bits [32j, 32j + 32) of the image |
| IpTree.IPTreeNode.NormalizeDependency | ipstools/ipstools/IPTreeNode.py:87-102 | for any tree, names ranked or not, and whatever part of it has been dealt with before: the node returned is the dependency under its name and the node itself otherwise, and exactly the nodes that are reached without passing the name have their children replaced in addition |
| IpTree.IPTreeNode.FlattenizeChildren | ipstools/ipstools/IPTreeNode.py:106-117 | the flattening of the graph, which FlatIff and PostOrder describe |
| IpTree.Graph.FlatIff | ipstools/ipstools/IPTreeNode.py:106-117 | the flattening holds exactly the nodes below a node |
| IpTree.Graph.PostOrder | ipstools/ipstools/IPTreeNode.py:106-117 | every entry stands right behind its own flattening |
| IpTree.Graph.FlatInOrder | ipstools/ipstools/IPTreeNode.py:106-117 | the children of a node come in their order, each behind its own flattening |
| IpTree.Graph.NormalizeEffect | ipstools/ipstools/IPTreeNode.py:87-102 | every node that is left under the name of the dependency is the dependency, as often as the name occurred; every other name of the same or a higher rank is untouched |
| IpTree.Graph.OccUntouched | ipstools/ipstools/IPTreeNode.py:87-102 | replacing nodes of one name leaves the nodes of every other name of the same or higher rank as they are, wherever it is made |
| IpTree.Graph.OccNormalized | ipstools/ipstools/IPTreeNode.py:87-102 | where the traversal has been, only the chosen node is left under its name |
| IpTree.Graph.CompressedRanked | ipstools/ipstools/IPDatabase.py:371-379 | ranks can be taken to be numbers below the number of distinct names |
| IpConflicts.GetConflicts | ipstools/ipstools/IPTreeNode.py:119-157 | for every name below the root, in order of first appearance, the first node per distinct commit; no group is empty |
| IpConflicts.GroupByName | ipstools/ipstools/IPTreeNode.py:126-138 | each group holds every node of its name once, in order |
| IpConflicts.Collapse | ipstools/ipstools/IPTreeNode.py:146-156 | listing the repeats and removing them one by one leaves the first node per commit |
| IpConflicts.FirstPerCommitIff | ipstools/ipstools/IPTreeNode.py:146-156 | a node is kept if and only if it stands where its commit is asked for first; every commit is kept and none is left twice |
| IpConflicts.DedupKeepsFirsts | ipstools/ipstools/IPTreeNode.py:131-156 | dropping repeated nodes beforehand does not change which node stands for a commit |
| IpConflicts.NamesComplete | ipstools/ipstools/IPTreeNode.py:129-130 | the keys are exactly the names that occur, each once |
| IpConflicts.NamePositions | ipstools/ipstools/IPTreeNode.py:129-130 | the keys stand in the order in which the names appear first |
| IpConflicts.FirstPositions | ipstools/ipstools/IPTreeNode.py:146-156 | the nodes that are kept stay in order |
| IpConflicts.ParentDecides | ipstools/ipstools/IPTreeNode.py:146-156 | of two nodes the second is dropped if and only if the parents ask for the same commit, whatever was resolved |
| Semver.LessIsTotalOrder | ipstools/ipstools/IPDatabase.py:337-344 | version precedence, pre-releases included, is a strict total order |
| Semver.NumbersDecide | ipstools/ipstools/IPDatabase.py:337-344 | major, minor and patch decide in this order, as numbers, and a pre-release precedes its release (Semantic Versioning 2.0.0, items 11.2 and 11.3) |
| Semver.IdentifiersDecide | ipstools/ipstools/IPDatabase.py:337-344 | of two pre-releases the first differing identifier decides, a number before a text; otherwise the shorter list precedes (item 11.4) |
| Semver.MeetsIff | ipstools/ipstools/IPDatabase.py:321-337 | a range holds the versions of its class that are not premature, and the pre-releases of the first version outside |
| Semver.MeetsItself | ipstools/ipstools/IPDatabase.py:321-327 | a version meets its own range if and only if it is not a pre-release of the first version of its class |
| Semver.MeetsEachOther | ipstools/ipstools/IPDatabase.py:321-337 | two such versions meet each other's ranges exactly when they share a compatibility class |
| Semver.AllMeetIff | ipstools/ipstools/IPDatabase.py:333-341 | a list of versions is mutually compatible if and only if all share a class and none is such a pre-release |
| IpSemver.Collect | ipstools/ipstools/IPDatabase.py:310-330 | requirements per node and a table from versions to the last node carrying them; fails if and only if some commit is no version |
| IpSemver.Compatible | ipstools/ipstools/IPDatabase.py:333-341 | true if and only if every version meets every requirement |
| IpSemver.TrySemverResolveConflict | ipstools/ipstools/IPDatabase.py:307-348 | returns what the specification of the choice says, for every non-empty list |
| IpSemver.ResolveIff | ipstools/ipstools/IPDatabase.py:307-348 | a list of two or more nodes is resolved if and only if all commits are versions of one class, none premature; the result is the last node with the greatest version and meets every range |
| IpSemver.OneLetterDropped | ipstools/ipstools/IPDatabase.py:316-320 | a tag and the same tag behind a `v` have the same version, for every parser; only one `v` is dropped |
| IpSemver.TaggingChangesNothing | ipstools/ipstools/IPDatabase.py:307-348 | the choice stays the same when every tag of a list gains a leading `v` |
| IpResolver.RoundStep | ipstools/ipstools/IPDatabase.py:374-379 | a replacement chosen from the stale list keeps the round on track |
| IpResolver.RoundDone | ipstools/ipstools/IPDatabase.py:371-379 | when all names have been dealt with, one more rank of names is quiet |
| IpResolver.IPDatabase.Round | ipstools/ipstools/IPDatabase.py:372-379 | over any tree, names ranked or not: each name that versions can decide has the chosen node put in place of the others, in the order of the list, although the list goes stale; a change is reported if and only if there is such a name |
| IpResolver.RankedCourse | ipstools/ipstools/IPDatabase.py:371-379 | if names are ranked, every replacement of a round starts from and leaves a tree with the same ranks, quiet names reach one rank further down, and a round without a decision leaves the tree as it was |
| IpResolver.IPDatabase.RoundOfChain | ipstools/ipstools/IPDatabase.py:371-379 | one round over the chain of NameCycleNeverSettles reports a change and leaves every list of children as it was |
| IpResolver.IPDatabase.ResolveBySemver | ipstools/ipstools/IPDatabase.py:369-379 | the final tree comes from the first one by whole rounds, at most one more than there are distinct names, of which all but the last report a change; nothing is left that versions could decide, every node depends on the same names as before, and without anything to decide the tree stays as it was |
| IpResolver.IPDatabase.ResolveDepsConflicts | ipstools/ipstools/IPDatabase.py:364-430 | the same about the tree, or no change without semantic versioning; then one IP per name left in the tree, in order, each that of a node of its group |
| IpResolver.RoundsKeepNames | ipstools/ipstools/IPDatabase.py:371-379 | whatever the rounds do, every list of children is as long as before and asks for the same names |
| IpResolver.SelectNodes | ipstools/ipstools/IPDatabase.py:387-430 | the only node of a group or any of its nodes |
| IpResolver.NameCycleNeverSettles | ipstools/ipstools/IPDatabase.py:371-379 | in any chain of a greater version, another IP and a lower compatible version of the same name, the greater is chosen, replacing changes nothing and the conflict remains |
| IpSettle.SettlesIff | ipstools/ipstools/IPTreeNode.py:87-102 | for any tree in which the root reaches d, names ranked or not, the name of d is without conflict after the replacement by d if and only if every node of that name below d asks for the commit of d |
| IpSettle.EntangledHasNoRank | ipstools/ipstools/IPTreeNode.py:87-102 | if a node below d is also reached without passing the name of d, and asks for that name, the replacement leaves no tree |
| IpSettle.SeparateHasRank | ipstools/ipstools/IPTreeNode.py:87-102 | otherwise it does |
| IpSettle.Settle | ipstools/ipstools/IPTreeNode.py:87-102 | the traversal itself, from the root of any tree: what it leaves is a tree if and only if no such node exists, under whatever ranking, and then the name of d is without conflict if and only if every node of that name below d asks for the commit of d |
| BootLayout.ExtentExactIff | boot_code/boot_code.c:229-249 | the loop moves the area up to the next word boundary if and only if the block count is the number needed, or larger with a size that is a multiple of four; it moves at least the area if and only if the count is at least the number needed |
| BootLayout.BlocksNeededIsCeiling | boot_code/boot_code.c:234-237 | the number of blocks needed is size / block size rounded up |
| BootLayout.MaskDownIs | boot_code/boot_code.c:237-310 | the masks of the source round down to a multiple of a power of two |
| BootLayout.TableFormat | boot_code/include/hal/rom/rom_v2.h:22-34 | the second word of the image is the number of areas; each area is four little-endian words: place in flash, address, size, blocks |
| BootFit.AlignUpIsLeast | boot_code/boot_code.c:310-310 | the masked sum is the least multiple of the block size that is not below |
| BootFit.ScanNext | boot_code/boot_code.c:306-312 | looking at one more area keeps the position the least aligned one free of the areas seen |
| BootFit.OptimalIff | boot_code/boot_code.c:301-314 | the place found is the least aligned address from 0x1c000000 on at which no byte of the loader lies in an area, if and only if no empty area begins strictly inside a loader put there; it is never below it |
| BootFit.FirstFitIsOptimal | boot_code/boot_code.c:301-314 | so for non-empty areas it is always that address |
| BootFit.BlockedIffMeets | boot_code/boot_code.c:308-309 | for a non-empty area the test of the search is true if and only if some byte is shared |
| BootFit.EmptyAreaMovesLoader | boot_code/boot_code.c:308-310 | one empty area moves the loader by a whole block although the lowest place is the best |
| BootLoader.BootRom.FlashRead | boot_code/boot_code.c:108-132 | copies flash to memory and touches nothing else but the command buffer of the loader |
| BootLoader.BootRom.MemCpy | boot_code/boot_code.c:218-224 | copies disjoint ranges and changes nothing else |
| BootLoader.BootRom.NextSize | boot_code/boot_code.c:236-237 | the block size, or what is left rounded up to a word |
| BootLoader.BootRom.LoadSection | boot_code/boot_code.c:226-251 | the bytes that the iterations move are copied from flash; nothing else changes but the two buffers of the loader |
| BootLoader.BootRom.GetMemAreas | boot_code/boot_code.c:268-278 | header and at most sixteen descriptors are read into the loader's state |
| BootLoader.BootRom.FindDataFit | boot_code/boot_code.c:301-314 | returns the first fit among the areas of the table in memory |
| BootLoader.BootRom.LoadTableEntry | boot_code/boot_code.c:286-288 | loading one area leaves the areas already loaded as they are |
| BootLoader.BootRom.LoadBinary | boot_code/boot_code.c:280-288 | every area is copied; the loader keeps its table and everything else but its two buffers, stack included; all other memory is unchanged |
| BootLoader.BootRom.WellFormedLoadable | boot_code/boot_code.c:226-314 | areas that are word-aligned and apart after rounding can all be loaded beside a loader placed by first fit |
| BootLoader.BootRom.Configure | boot_code/boot_code.c:320-323 | flash kind, block size (1024 for a hyperflash, else 4096) and transfer mode as read back from memory; nothing else changes |
| BootLoader.BootRom.BootFromRom | boot_code/boot_code.c:316-339 | end to end: the loader is placed by first fit, afterwards every area's memory equals its flash contents, the table and the configuration are in place, the private state and stack of the relocated loader are as the relocation left them, and all other memory is unchanged |
| OrderedDictionary.OrderedDict.Clear | ipstools/ipstools/ordereddict.py:36-40 | an empty dictionary with a new sentinel |
| OrderedDictionary.OrderedDict.SetItem | ipstools/ipstools/ordereddict.py:42-47 | the key has the new value, every other key its old one; a new key goes to the end, an old key keeps its place; the circle stays well formed |
| OrderedDictionary.OrderedDict.DelItem | ipstools/ipstools/ordereddict.py:49-53 | the cell is unlinked, the other keys keep their order; a missing key changes nothing |
| OrderedDictionary.OrderedDict.Iterate | ipstools/ipstools/ordereddict.py:55-60 | the forward walk ends and is the list of keys |
| OrderedDictionary.OrderedDict.Reversed | ipstools/ipstools/ordereddict.py:62-67 | the backward walk is its reverse |
| OrderedDictionary.OrderedDict.PopItem | ipstools/ipstools/ordereddict.py:69-77 | removes and returns the last or first item, fails if and only if the dictionary is empty |
| OrderedDictionary.OrderedDict.Items | ipstools/ipstools/ordereddict.py:89-96 | the items in key order |
| OrderedDictionary.OrderedDict.Equals | ipstools/ipstools/ordereddict.py:116-123 | equal if and only if keys, order and values agree |
| OrderedDictionary.OrderedDict.EqualsPlain | ipstools/ipstools/ordereddict.py:124-124 | true if and only if the plain dictionary has exactly the keys of the list, in whatever order, with the same values |
| OrderedDictionary.SameItems | ipstools/ipstools/ordereddict.py:116-123 | the list of items determines keys, order and values |
| OrderedDictionary.OrderIsByBirth | ipstools/ipstools/ordereddict.py:36-77 | after any sequence of set, delete, popitem and clear, failed ones included, the keys stand in the order in which they last came in, and setting again never moves one |
| OrderedDictionary.ValueIsLastSet | ipstools/ipstools/ordereddict.py:36-77 | after any such sequence every key has the value that the last operation to set it has brought |
| OrderedDictionary.Perform | ipstools/ipstools/ordereddict.py:36-77 | each method call takes the object from one contents to the next as the pure history says, with the list well formed |
| OrderedDictionary.Replay | ipstools/ipstools/ordereddict.py:36-77 | so an object that goes through any history is valid, its list holds the keys in that order, and every key has that value |
| BitBox.WriteBitbox | doc/pulp_gen_table.py:164-226 | an error if and only if the first field lies above the slice; otherwise the boxes, drawn out bit by bit, show over every bit the field that covers it or grey, each field that reaches into the slice has one box and each stretch of grey has one, the fields handed on are those reaching below, and no box is empty unless the first field begins at the start |
| BitBox.BoxShows | doc/pulp_gen_table.py:194-224 | every box of a slice shows what belongs over each of the bits it stands above, counted from the left by the widths |
| BitBox.FieldShown | doc/pulp_gen_table.py:184-192 | over every bit of a field stands its name: tiny if the field has at most two bits and the name at most three characters, resized if it is longer, plain otherwise |
| BitBox.GreyIff | doc/pulp_gen_table.py:206-224 | a bit is grey if and only if no field has it |
| BitBox.DrawField | doc/pulp_gen_table.py:194-216 | what one field adds to the boxes and how far the drawing comes |
| BitBox.BelowKeeps | doc/pulp_gen_table.py:218-220 | the fields handed on say the same about every bit of the next slice |
| BitBox.BelowSorted | doc/pulp_gen_table.py:218-220 | they begin inside that slice and are still sorted, so the next call cannot fail |
| BitBox.TwoSlices | doc/pulp_gen_table.py:253-254 | the bits of two consecutive slices are the bits of the whole |
| BitBox.WriteSlices | doc/pulp_gen_table.py:253-254 | any number of consecutive slices of any lengths, the fields handed on from one to the next, together show every bit, and the box widths of each slice add up to its length |
| BitBox.WidthIsLength | doc/pulp_gen_table.py:194-224 | the widths of boxes of at least one bit add up to the number of bits they show |
| BitBox.WriteRegDoc | doc/pulp_gen_table.py:249-254 | the same for a 32-bit register in two slices of 16 |
| StimMemory.NewWordByte | boot_code/stim_utils.py:66-67 | every byte of the stored word, for every width: bytes before the chunk are kept, those behind its start lose the bits that are cleared and gain the chunk |
| StimMemory.MaskAligns | boot_code/stim_utils.py:58-58 | the mask rounds down to a multiple of the width, for powers of two |
| StimMemory.Stim.AddMemWord | boot_code/stim_utils.py:56-71 | as many bytes as fit one word are stored; every byte and every key of the new memory |
| StimMemory.Stim.AddMem | boot_code/stim_utils.py:80-88 | the word-by-word stores amount to one run of bytes; every byte and every key of the new memory |
| StimMemory.Stim.LoadSegment | boot_code/stim_utils.py:130-137 | one run of bytes from the file, and one of zeros up to the size in memory |
| StimMemory.Stim.ParseBinaries | boot_code/stim_utils.py:104-139 | for every width and all segments, overlapping or not, every byte and every key of memory is what the runs of the loaded segments make of an empty one, and no word exceeds its width |
| StimMemory.Stim.InAreas | boot_code/stim_utils.py:119-124 | true if and only if some target area contains the segment |
| StimMemory.Stim.LoadedOne | boot_code/stim_utils.py:113-137 | a segment is loaded if and only if it is loadable and, when there are target areas, lies in one of them |
| StimMemory.Stim.LoadedInOrder | boot_code/stim_utils.py:104-139 | segments are loaded in their order |
| StimImage.OneSegment | boot_code/stim_utils.py:130-137 | a segment claims its bytes in the file and zeros behind them up to its size in memory, and nothing else |
| StimImage.KeepsIff | boot_code/stim_utils.py:56-88 | of runs that do not overlap every byte is kept, for any width, if and only if no run clears bits of a byte loaded before |
| StimImage.WideKeepsIff | boot_code/stim_utils.py:56-88 | for words of 8m bytes: if and only if no run ends in a word with a non-zero byte, loaded before, within the m bytes it clears |
| StimImage.WideLoadLoses | boot_code/stim_utils.py:66-67 | at width 16 the byte at address 1 is lost to a later run that ends at address 0 |
| StimImage.LoadIff | boot_code/stim_utils.py:104-139 | memory is the image of segments that do not overlap if and only if their runs do no harm |
| StimImage.NarrowImage | boot_code/stim_utils.py:104-139 | for widths up to 8 it always is, so the 8-byte and the 1-byte memory agree |
| Sorting.Sort | boot_code/stim_utils.py:166-166 | every element of the set once, ascending in the given order |
| StimBin.GenStimBin | boot_code/stim_utils.py:164-174 | one byte for every address from the first to the last key, the loaded byte or 0 |
| StimBin.StimFile | boot_code/stim_utils.py:155-174 | from segments to file, overlapping or not: one byte for every address from the least to the greatest claimed one, the byte that the segments make there together or 0; an empty file if none is claimed |
| StimBin.MergedIsLoaded | boot_code/stim_utils.py:56-139 | at width 1 each segment that claims an address clears the lowest bit of its byte and ors its own byte in |
| StimBin.DisjointFile | boot_code/stim_utils.py:155-174 | of segments that do not overlap the file holds the bytes themselves |
| StimBin.KeysAscendIff | boot_code/stim_utils.py:164-174 | the sorted keys ascend as numbers if and only if text order and numeric order agree on the claimed addresses |
| StimBin.SameDigitsInOrder | boot_code/stim_utils.py:166-167 | they agree when all claimed addresses have equally many decimal digits |
| StimBin.EmissionEndsIff | boot_code/stim_utils.py:165-174 | every gap loop ends if and only if the keys ascend as numbers |
| StimBin.MixedDigitsDiverge | boot_code/stim_utils.py:165-174 | with addresses 9 and 10 they do not |
| TextOrder.DecimalOrder | boot_code/stim_utils.py:166-166 | among numbers with equally many digits the textual order is the numeric one |
| TextOrder.FirstDifference | boot_code/stim_utils.py:166-166 | of two texts the first differing character decides, otherwise the shorter comes first |
| References.RefLenIff | ips/register_interface/util/vendor.py:78-78 | a reference is a marker, one or more digits and a word boundary |
| References.CharacterClasses | ips/register_interface/util/vendor.py:78-78 | the digits and the word characters, over ASCII |
| References.SubIsQualified | ips/register_interface/util/vendor.py:78-80 | the leftmost, non-overlapping substitution rewrites exactly the references that are not preceded by a word character |
| References.QualifyReferences | ips/register_interface/util/vendor.py:65-80 | every line of the log is rewritten so; an error if and only if the log is not empty and the organisation begins with a digit but not with two octal ones |
| ReferenceText.NumberKept | ips/register_interface/util/vendor.py:78-80 | a marker, a number and a word boundary become the qualifier and the same number, and the rest is rewritten on its own |
| ReferenceText.TextCopied | ips/register_interface/util/vendor.py:78-80 | what stands before the first reference is copied |
| ReferenceText.LineKept | ips/register_interface/util/vendor.py:78-80 | so a line is the text before its first reference, the qualifier, the number of that reference, and the rewritten rest |
| ReferenceText.LineQualified | ips/register_interface/util/vendor.py:65-80 | the same for every line of a log, with organisation, slash, name and `#` written out, and with the octal escape, which drops the character before the reference |
| References.TemplateOf | ips/register_interface/util/vendor.py:79-79 | the template copies the character before the reference and the names literally if and only if the organisation does not begin with a digit; it is an octal escape that swallows that character if and only if the organisation begins with two octal digits; otherwise it refers to a missing group |
| References.RewritingSettles | ips/register_interface/util/vendor.py:78-80 | if the qualifier holds no reference of its own, a rewritten text has nothing left to rewrite |
| References.IdempotentIff | ips/register_interface/util/vendor.py:65-80 | qualifying twice equals qualifying once on every line if and only if the qualifier followed by a digit holds no reference |
| References.PlainNamesAreInert | ips/register_interface/util/vendor.py:83-125 | names of word characters meet that condition |
| References.DashedNamesAreNot | ips/register_interface/util/vendor.py:138-148 | a repository name that ends in a dash, or is `gh-` and a number, does not |
| ReferencesOctal.SwallowingSettles | ips/register_interface/util/vendor.py:78-80 | with an octal escape: if the qualifier holds no reference of its own, also with a `g` before it, a rewritten text has nothing left to rewrite |
| ReferencesOctal.SwallowingIdempotentIff | ips/register_interface/util/vendor.py:65-80 | then, and only then, qualifying twice equals qualifying once on every line |
| ReferencesOctal.JoinedOrganisation | ips/register_interface/util/vendor.py:65-80 | the organisation `50-5` does not meet that condition, whatever the repository |
| RomImage.BytesToWords | boot_code/s19toboot.py:96-120 | every byte is in its place and nothing else changes, for every iteration order |
| RomImage.OrderIsIrrelevant | boot_code/s19toboot.py:96-120 | the words do not depend on the iteration order |
| RomImage.FillZeros | boot_code/s19toboot.py:132-134 | the ROM and nothing else is zero |
| RomImage.Emit | boot_code/s19toboot.py:169-209 | the sanity check never fires; every word of the ROM is listed, in pairs with the odd one first or one by one |
| RomImage.NoWordMissing | boot_code/s19toboot.py:169-179 | the next key in the ROM range is the next word of the ROM |
| RomImage.Convert | boot_code/s19toboot.py:124-209 | the whole conversion, for any iteration order: no alarm, and the lines hold the 8192 bytes of the ROM in order, lowest last, zero where the records give none |
| RomImage.ByteInText | boot_code/s19toboot.py:169-209 | byte k of a line is the pair of hexadecimal digits with k pairs to its right |
| DebugRom.ReadBin | ips/riscv-dbg/debug_rom/gen_rom.py:80-93 | the image, zero-padded to the next multiple of eight |
| DebugRom.CWords | ips/riscv-dbg/debug_rom/gen_rom.py:99-111 | word i is bytes 4i .. 4i+3, highest first |
| DebugRom.VerilogWords | ips/riscv-dbg/debug_rom/gen_rom.py:115-122 | the line i from the end is bytes 8i .. 8i+7, highest first |
| DebugRom.GenRom | ips/riscv-dbg/debug_rom/gen_rom.py:80-122 | both outputs decode, little-endian, to the same zero-padded image |

## Left out

- Fetching: git, curl, the file system, the network-bound constructors of the dependency tree and of the database. The
  tree is taken as built. That its names are free of cycles is a precondition of the theorems about the end of the loop;
  the traversal and a single round need a tree only.
- The prompt of the resolver: the user's answer is an arbitrary valid choice; the retry loop and the escape with CTRL-C
  to the flat flow are not modelled. The exit when the semver package is missing is not modelled either.
- Parsing of version strings and build metadata (the parser is a parameter).
- The eviction of empty groups in `get_conflicts` has no code here: no group is ever empty.
- Hardware access in the boot loader: pads, SPI and uDMA set-up, events, UART, the flash identification, `changeStack` and
  the jump. A read from flash is an exact copy that also overwrites the command buffer; a SPI read sees 24 address bits.
- The stack of the boot loader lies in its structure; writes by the compiler to it are not modelled.
- BootLoader.BootRom.BootFromRom: assumes at most sixteen areas, sorted, apart after rounding up to words, word-aligned and
  clear of the end of the address space. More areas are outside the model.
- UcodeProgram.RunComputesTheNest: assumes blocks of at least one instruction, because an empty block has no instruction of
  its own to execute; the theorems about the state machine alone do not need this.
- UcodeRun.RunProgram: assumes the same.
- The other methods of the ordered dictionary (`keys`, `copy`, `fromkeys`, `__reduce__` and those of DictMixin), and
  changing a dictionary while iterating over it.
- The LaTeX text of the register pictures beyond which of the four forms a label takes; overlapping bit fields.
- ELF parsing, and the text output `__gen_stim_slm`.
- Regular expressions: the one of the vendoring script is a hand-written scanner over ASCII, without Unicode word
  characters or digits.
- References.QualifyReferences: assumes names without a backslash. Its one caller takes them from
  `ips/register_interface/util/vendor.py:144`, which admits letters, digits and dashes only; other escapes in a template
  are not modelled.
- S-record parsing and the architecture-dependent formats of the ROM text file: the same words in the same loop. A word is
  modelled as its four two-digit bytes, not as eight characters.
- The text around the numbers in the outputs of both ROM generators.
- The script and Makefile exporters, the register headers and the socket bridges.
