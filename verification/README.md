# Models of the L4 Pistachio kernel and of its symbolic evaluator

This project models five parts of the repository and proves what they are for.

* **Symbolic evaluator** (`libirpy`). `Terms`, `References`, `Programs`, `Oversights`, `SymbolicExec`,
  `Soundness` and `Evaluator` model the solver terms, typed memory as updated functions, conditional pointers, forking,
  pruning and merging, next to a concrete machine for the same programs. The solver is any sound
  implication oracle; it may fail to prove what is true. The main theorem is `Soundness.EvaluatorSound`.
  `SymbolicExec` is the evaluator as functions; `Evaluator` is the imperative form, with one shared
  context that is pushed, popped, restored and merged, proved equal to it. `BitVectors` has the laws of the
  operators. When the evaluator finishes is said by `Completeness` for each operation and, with the type
  system of `Typing`, by `TypedStates`, `TypedSteps`, `TypedJoins` and `WholeRuns` for whole runs; the
  theorem is `WholeRuns.EvaluatorFinishes`.
* **Mapping database** (`mapping.cc`, `mapping.h`). `Forest` is the abstract forest with its
  depth-annotated preorder lists; `MapNodes` the packed nodes with exclusive-or backlinks and tagged
  next pointers; `Mapping` the invariant that ties the packed nodes to lists; `MappingForests` and
  `MappingFlush` what insertions and flushes do to forests, entries and reference bits; `MappingDb` the
  operations; `PageSizes` the conversion of page size numbers. The operations take their nodes from the
  allocator and give them back; `NodeBuffers` says which live buffer holds what, and that every one can be
  reached. Nodes are kept apart from the words of kernel memory: the allocator changes no word of a buffer
  that stays live.
* **Allocators** (`kmemory.cc`, `mapping_alloc.cc`). `Kmem` is the free list threaded through memory;
  `BufferPools` the pools of equally sized buffers in the same memory; `MappingAlloc` the allocator on
  top of both.
* **Page tables** (`linear_ptab_walker.cc`, `linear_ptab.h`, `fpage.h`). `PageTable` is the tree with
  lookup by positional notation; `PageWalk` and `PageWalker` the explicit-stack walk of `unmap_fpage`;
  `PageTraversal` the recursive traversal it replaces; `ByteWords` and `ReadMem` the unaligned word
  read; `Fpages` the window and overlap arithmetic.
* **Queues and identifiers** (`queueing.h`, `schedule.h`, `tcb.h`, `asid.h`). `Rings`, `Scheduler` and
  `Asids`.

`Words` holds machine words and the bitwise operators; `Options` and `FiniteSets` are small helpers.
Addresses and words are natural numbers, with 64-bit wrap-around written out where the code depends
on it.

A class models each object the code updates in place. Its ghost state is the abstract value (lists,
pools, rings), `Valid` ties the real fields to it, every operation keeps `Valid` and says how the
abstract value changes; so the invariants hold over every sequence of calls that meets the
preconditions.

## What the code does that a reader might not expect

Each of these is stated by the member named.

* Depths are kept in eight bits: below a node of depth 255 a mapping is stored with depth 0 and is no
  longer found when its parent is flushed (`Forest.MapAddsChildIff`, `Forest.DeepChildEscapes`).
* `kmem_t::alloc` wants a further element after the run, so the last chunk of the list is never handed
  out (`Kmem.LastChunkStays`).
* A pool that holds a single buffer is never given back, because the test for the first free buffer
  comes before the test for the last (`MappingAlloc.BufferAllocator.FreeBuffer`).
* `is_overlapping` misses an overlap when the lower fpage ends at the top of the address space
  (`Fpages.OverlapIff`, `Fpages.OverlapMissedAtTop`).
* `sle` is the strict comparison, and `sext` of a boolean extends with zeros (`Soundness.SleExact`,
  `Soundness.SextOfBooleanExact`).
* An assumption added between `push` and `pop` leaves the solver with its scope, but the path condition
  list then loses the assumption and keeps the branch condition (`Evaluator.Context.Scope`).
* `canonical_path` takes the unsigned value of an index narrower than 64 bits, where the language
  sign-extends it (`Oversights.GepExact`). A negative one can make the evaluator accept an access that
  is out of bounds (`Oversights.NarrowIndexWrong`).
* The check for `add nsw` is the solver library's `bvadd_no_overflow`, which by its documentation is about
  sums of positive numbers; the check for negative ones, a function of its own, is never asked. So the
  evaluator accepts a sum of two negative numbers that is out of range (`Oversights.SumExact`,
  `Oversights.NegativeSumWrong`), such as `x - 1` for the smallest `x`.
* `sdiv` and `srem` check that the divisor is not zero, and accept the smallest number divided by minus one,
  which the language leaves undefined (`Oversights.BinaryExact`, `Oversights.QuotientWrong`).
* A read through a conditional pointer reads both targets under the path condition alone. So a pointer that
  is chosen by its own bounds check cannot be read through, although it is always in bounds
  (`Completeness.ReadExact`, `Completeness.GuardedReadRefused`).
* A grant from sigma0 passes the node that owns the whole address space to `mdb_map`, which overwrites that
  node's backlink and space and returns it as the receiver's node (`MappingDb.Mdb.Grant`,
  `MappingDb.GrantFromTop`). The lists stay in order, because no backlink of a list is concerned.
* `prio_queue_t::init` leaves the slot of the highest priority alone, so it must be null beforehand
  (`Scheduler.ThreadQueues.constructor`).
* A space pointer survives in a mapping node only if it is aligned to 2048 bytes
  (`MapNodes.SpaceSurvivesIff`).

A new mapping node's reference bits are whatever its buffer held, since `mdb_map` does not set them;
they are a parameter of `MappingDb.Mdb.MdbMap`.

The check in `init_mdb` that the database's page sizes include the hardware's compares with
`size_max + 1` after a loop that ends at `size_max`, so it cannot fail; `PageSizes.ConversionRoundTrip`
states what follows when the tables do agree.

## Model

| member | source | states |
|---|---|---|
| Terms.IfMeaning | libirpy/util.py:146-202 | whichever shortcut `If` takes (simplified condition, equal sides, or a conditional term), its value under every valuation is the value of the side the condition selects |
| Terms.PartialEvalMeaning | libirpy/util.py:212-227 | partial evaluation never fails on a well-sorted term, keeps its sort, and keeps its value under every valuation of the path condition, at any nesting of conditionals |
| References.ApplyMeaning | libirpy/util.py:341-345 | calling a chain of partial updates on symbolic indices and evaluating the result is looking the evaluated indices up in the evaluated function |
| References.LastWriteWins | libirpy/util.py:341-345 | after any sequence of writes, a read at an index vector returns the last write whose indices are equal under the valuation |
| References.NoWriteKeeps | libirpy/util.py:341-345 | without a write to an equal index vector the original function answers |
| References.CanonicalPathLoop | libirpy/datatypes.py:242-253 | the loop that extends one path list in place computes the composition of the pending index lists |
| References.CanonicalPathMeaning | libirpy/datatypes.py:242-253 | the canonical path denotes the composition of all geps in order: each gep adds its first index to the last index and appends the others |
| References.StepAllAppend | libirpy/datatypes.py:198-204 | appending one more gep to a pointer moves the address it denotes by that gep |
| References.BuildFieldTupleAndPath | libirpy/datatypes.py:30-60 | the loop that collects fields and indices from the left computes the recursive decoding of the path |
| References.BuildPathMeaning | libirpy/datatypes.py:30-60 | a path the symbolic decoder accepts decodes, under every valuation of the path condition, in bounds and to the same field tuple and index vector |
| References.DecodeInjective | libirpy/datatypes.py:30-60 | for one type, two paths that decode to the same field tuple and index vector are the same path: cells are not shared by different paths |
| References.GepMeaning | libirpy/datatypes.py:207-236 | indexing a conditional pointer indexes the address it denotes, conditions unchanged |
| References.GetElementPtr | libirpy/datatypes.py:207-236 | the loop over two explicit stacks equals pushing the index list to every leaf of the tree of conditionals |
| References.ReadMeaning | libirpy/datatypes.py:62-65 | a read that succeeds is in bounds and yields what memory holds in the denoted cell, through conditional pointers too |
| References.WriteMeaning | libirpy/datatypes.py:165-195 | a write changes exactly the cell its pointer denotes, for every valuation of the path condition: only the selected target of a conditional pointer, also when both targets are the same cell |
| Soundness.MergeSound | libirpy/util.py:230-255 | the merge of two states is, under every valuation, the state of the side the condition selects; a key on one side only is copied, and does no harm |
| Soundness.CombineSound | libirpy/z3eval.py:449-474 | joining the results of two sides agrees with every concrete run that agrees with the side taken; `Completeness.CombineExact` says when they are joined |
| Soundness.TakenSideIsLive | libirpy/z3eval.py:383-447 | under a satisfied path condition neither pruning nor a settled `UnreachableException` drops the side that the valuation takes |
| Soundness.BinarySound | libirpy/z3eval.py:51-164 | every binary operator, with its flag, divisor and shift checks, computes, under every valuation of the path condition, what the machine that checks as the evaluator does computes; `Oversights.BinaryExact` says when that is what the language defines |
| Soundness.CompareSound | libirpy/z3eval.py:194-236 | the comparison operators decide the concrete comparisons |
| Soundness.ConvertSound | libirpy/z3eval.py:169-189 | truncation and extension of bit vectors compute the concrete conversions |
| Soundness.SelectSound | libirpy/z3eval.py:373-378 | `select` yields the selected operand |
| Soundness.LoadSound | libirpy/z3eval.py:279-281 | a load that is accepted reads in bounds, and the right cell |
| Soundness.StoreSound | libirpy/z3eval.py:283-286 | a store that is accepted writes in bounds, and changes the right cell only |
| Soundness.AllocaSound | libirpy/z3eval.py:275-277 | `alloca` makes a new object whose cells are those of its type |
| Soundness.BranchSound | libirpy/z3eval.py:381-474 | a branch that forks, prunes, settles and merges agrees with the concrete branch; `Completeness.BranchFinishes` says when it finishes |
| Soundness.TakeSound | libirpy/z3eval.py:564-575 | a switch, which is a chain of branches, agrees with the concrete switch |
| Soundness.CallSound | libirpy/z3eval.py:351-371 | a call in a fresh frame agrees with the concrete call |
| Soundness.EvaluatorSound | libirpy/z3eval.py:381-474 | the main theorem: for every program, every valuation of the path condition and every sound solver, a finished symbolic run means that the concrete run does not reach `unreachable`, does not access memory out of bounds, makes no undefined division and breaks no no-overflow flag, ends, and has the evaluated result and the evaluated final state; provided the run meets none of the three operations in which the evaluator departs from the language (a misread narrow index, a sum of two negative numbers out of range under `nsw`, the smallest number divided by minus one) |
| Soundness.EvaluatorComputes | libirpy/z3eval.py:381-474 | the same without that condition, for the machine that goes by the rules of the evaluator in those three operations |
| Completeness.IfValExact | libirpy/util.py:146-202 | `If` on two values succeeds exactly if the solver decides the condition or the values are terms of one sort or two pointers |
| Completeness.MergeExact | libirpy/util.py:230-255 | two states can be merged exactly if they have equally many frames and, unless the solver decides the condition, common keys hold values that a conditional can choose between |
| Completeness.CombineExact | libirpy/z3eval.py:449-474 | two finished sides whose condition the solver does not decide are joined exactly if their frames and common keys agree in kind and both return a value or neither does |
| Completeness.BranchFinishes | libirpy/z3eval.py:381-474 | a branch ends if each side that is not pruned is finished, or reached `unreachable` where the solver sees that it cannot be: joined if both are finished and can be, as the one that is, or as unreachable itself |
| Completeness.BinaryFinishes | libirpy/z3eval.py:51-164 | on two numbers of one width an operator is evaluated exactly if the solver proves its flags and its divisor |
| Completeness.LogicFinishes | libirpy/z3eval.py:130-164 | the bitwise operators on booleans, with a one-bit number on one side if need be, are always evaluated |
| Completeness.ConvertFinishes | libirpy/z3eval.py:169-189 | every cast to a smaller, or larger, width is evaluated, to a term of that width |
| Completeness.BuildPathFinishes | libirpy/datatypes.py:30-60 | a path whose field numbers are literals and which stays in bounds under every valuation of the path condition is decoded, to a place with as many indices as its field asks for and the width of its leaf |
| Completeness.ReadExact | libirpy/datatypes.py:62-65 | with a solver that proves everything that is true a read finishes exactly if all targets of its pointer are in bounds under every valuation of the path condition |
| Completeness.WriteExact | libirpy/datatypes.py:165-195 | the same for a write, which keeps the types of memory |
| Completeness.GuardedReadRefused | libirpy/datatypes.py:181-182 | a pointer chosen by its own bounds check is in bounds under every valuation, and a read through it is refused |
| Typing.NamesDiffer | libirpy/z3eval.py:275-277 | objects allocated by different dynamic instructions have different names |
| TypedSteps.RhsFinishes | libirpy/z3eval.py:51-378 | a typed right-hand side that the concrete machine carries out under every valuation is evaluated, to a value of its type |
| TypedJoins.JoinRuns | libirpy/z3eval.py:449-474 | the states in which two sides of a typed program end can be joined, to a typed state |
| WholeRuns.CallFinishes | libirpy/z3eval.py:351-371 | a typed call that ends under every valuation is evaluated to its end, and leaves the globals and all locals of its caller |
| WholeRuns.EvaluatorFinishes | libirpy/z3eval.py:381-474 | the converse of the main theorem: a typed program whose run ends under every valuation of the path condition, without one of the three operations in which the evaluator departs from the language, is evaluated to the end by an evaluator whose solver proves everything that is true |
| WholeRuns.EvaluatorDecides | libirpy/z3eval.py:381-474 | by the rules of the evaluator such a run is finished exactly if every concrete run ends, so neither executes `unreachable`, nor faults, nor runs out of steps |
| WholeRuns.FreeBranchFinishes | libirpy/z3eval.py:449-474 | a branch on a free boolean whose sides return different numbers is finished |
| Programs.SwitchTakesFirst | libirpy/z3eval.py:564-575 | the concrete switch goes to the first case that is equal, and to the default if there is none |
| BitVectors.SignedOrder | libirpy/z3eval.py:194-236 | the signed order is the unsigned one with the top bits flipped |
| BitVectors.SignExtendKeeps | libirpy/z3eval.py:169-189 | sign extension keeps the signed value |
| BitVectors.SubtractionUndone | libirpy/z3eval.py:62-67 | subtracting and adding again gives the number back |
| BitVectors.MultiplicationStep | libirpy/z3eval.py:68-73 | multiplication is repeated addition |
| BitVectors.UnsignedDivision | libirpy/z3eval.py:74-97 | unsigned quotient and remainder |
| BitVectors.SignedDivision | libirpy/z3eval.py:82-105 | signed quotient and remainder, but for the one quotient that does not fit: rounded toward zero, the remainder with the sign of the dividend |
| BitVectors.LeftShiftBits | libirpy/z3eval.py:109-115 | shifting left moves bits up and fills with zeros |
| BitVectors.RightShiftBits | libirpy/z3eval.py:116-122 | shifting right moves bits down and fills with zeros |
| BitVectors.ArithmeticShiftBits | libirpy/z3eval.py:123-129 | the arithmetic shift fills with the sign bit |
| BitVectors.BitwiseBits | libirpy/z3eval.py:130-164 | the bitwise operators work on each bit |
| Oversights.GepExact | libirpy/datatypes.py:242-253 | one gep, and the index it is added to: the unsigned value taken moves the address as sign extension does exactly when neither index is narrow and negative, or both are of 63 bits; indices of any width, one bit included |
| Oversights.NarrowIndexWrong | libirpy/datatypes.py:242-253 | two geps after which the evaluator finds the object although the address is out of bounds |
| Oversights.SumExact | libirpy/util.py:486-492 | a sum fits, as `nsw` promises, exactly when the check that is asked of the solver holds and the operands are not two negative numbers whose sum is below the smallest number |
| Oversights.BinaryExact | libirpy/z3eval.py:51-104 | an operation the evaluator carries out is defined by the language, with the same result, exactly unless it is such a sum under `nsw` or the smallest number divided by minus one |
| Oversights.NegativeSumWrong | libirpy/z3eval.py:51-61 | -128 plus -1 in eight bits under `nsw`: the check for the flag holds, the evaluator goes on, and the flag is broken |
| Oversights.QuotientWrong | libirpy/z3eval.py:78-104 | -128 divided by -1 in eight bits, quotient and remainder: the divisor is not zero, the evaluator goes on, and the language has no result |
| Oversights.CallAlike | libirpy/z3eval.py:351-371 | a run that meets none of the three operations in which the evaluator departs from the language is the same by the rules of either |
| Soundness.SextOfBooleanExact | libirpy/z3eval.py:183-189 | `sext` of a boolean is a sign extension exactly when the boolean is false |
| Soundness.SleExact | libirpy/z3eval.py:238-240 | `sle` is the signed comparison exactly when its operands differ |
| Evaluator.Context.Push | libirpy/ctx.py:100-107 | saves the whole state, opens a solver scope holding the condition and extends the path condition |
| Evaluator.Context.Pop | libirpy/ctx.py:109-119 | returns the state reached since the matching push and restores the one before it; the solver loses the whole scope, the path condition list only its last entry |
| Evaluator.Context.AddAssumption | libirpy/ctx.py:60-62 | an assumption joins the innermost solver scope and the path condition list |
| Evaluator.Context.Merge | libirpy/ctx.py:121-131 | replaces the state by the merge of two states, or reports the failure the library raises |
| Evaluator.Context.Scope | libirpy/ctx.py:60-62 | between push and pop any number of assumptions: the state, the solver and the snapshots are as before; the path condition list keeps the branch condition and loses the last assumption, and is as before exactly when none was made |
| Evaluator.MergeDict | libirpy/util.py:234-245 | the loop over the keys of both dictionaries computes the merge |
| Evaluator.MergeList | libirpy/util.py:247-253 | the loop over two lists computes the element-wise merge and fails on different lengths |
| Evaluator.Z3Eval.BranchOn | libirpy/z3eval.py:381-474 | the imperative branch, with its pushes and pops on one shared context, ends in the state and with the result of the functional evaluation, and leaves solver scopes, path condition and snapshots as they were |
| Evaluator.Z3Eval.Side | libirpy/z3eval.py:420-447 | one side of a branch between push and pop |
| Evaluator.Z3Eval.Join | libirpy/z3eval.py:449-474 | restoring the only side left, or merging both |
| Evaluator.Z3Eval.CallFunction | libirpy/z3eval.py:351-371 | a call pushes and pops one frame of locals whatever way it ends |
| Evaluator.Z3Eval.Take | libirpy/z3eval.py:564-575 | the recursion of `switch` on its remaining cases |
| Forest.ParsePreorder | kernel/include/mapping.h:101-118 | a forest is determined by its depth-annotated preorder list |
| Forest.PreorderParse | kernel/include/mapping.h:101-118 | the lists in which each depth is at most one more than the one before are exactly the preorders of forests |
| Forest.InsertIsAddChild | kernel/src/generic/mapping.cc:227-251 | inserting a node after `f` with depth one more is prepending a child to `f` in the forest |
| Forest.SubtreeSpan | kernel/src/generic/mapping.cc:595-596 | cutting the run of deeper nodes after `f` out of the list deletes the subtree of `f`, or its strict descendants when `f` is kept |
| Forest.MapAddsChildIff | kernel/include/mapping.h:97-115 | with depths kept in eight bits, mapping below a node adds a child exactly when the node is less than 255 deep |
| Forest.DeepChildEscapes | kernel/include/mapping.h:97-115 | a child mapped below a node of depth 255 is not in the run that a flush of its parent visits |
| MapNodes.BacklinkDecodes | kernel/include/mapping.h:128-169 | the exclusive-or of a predecessor and a page-table entry decodes to either from the other, with the tag saying which kind the predecessor is |
| MapNodes.TargetDecodes | kernel/include/mapping.h:202-221 | each of the three tagged next pointers decodes to the address it was made from |
| MapNodes.SpaceSurvivesIff | kernel/include/mapping.h:240-248 | an address space pointer survives the packing exactly when it is aligned to 2048 bytes |
| PageSizes.Convert | kernel/src/generic/mapping.cc:115-129 | finds the first page size number whose shift is at least the given one |
| PageSizes.ConversionRoundTrip | kernel/src/generic/mapping.cc:115-129 | with ascending tables, converting a hardware page size to the database and back gives it again, at the same shift |
| Mapping.IndexIsDigit | kernel/src/generic/mapping.cc:99-113 | an array index is the digit of the address that counts pages of this size within a page of the next |
| Mapping.HookKeepsInv | kernel/src/generic/mapping.cc:229-246 | linking a node in keeps every next pointer and backlink of every list consistent |
| Mapping.UnhookKeepsInv | kernel/src/generic/mapping.cc:131-179 | taking a node out keeps every next pointer and backlink of every list consistent |
| Mapping.LinkedToRelinks | kernel/src/generic/mapping.cc:236-242 | the fixup of the previous next pointer changes which mapping that slot leads to and nothing else, creating a dual node when there was only an array |
| Mapping.UnlinkedToRelinks | kernel/src/generic/mapping.cc:131-148 | the fixup on removal changes which mapping that slot leads to and nothing else; a dual node without a mapping collapses to a plain array pointer |
| Mapping.AttachKeepsInv | kernel/src/generic/mapping.cc:273-291 | attaching a new empty array keeps the invariant; its root nodes head empty lists of the next page size |
| Mapping.BacklinksDecode | kernel/include/mapping.h:128-152 | in every reachable state a node's backlink decodes to its predecessor, given its entry, and to its entry, given its predecessor |
| Mapping.GrantKeepsInv | kernel/src/generic/mapping.cc:208-218 | moving a node to another entry keeps the invariant |
| MappingForests.HookKeepsForests | kernel/src/generic/mapping.cc:234-234 | a node stored one deeper than the node it hangs off keeps every list the preorder of a forest |
| MappingForests.HookAddsLeaf | kernel/src/generic/mapping.cc:227-251 | as an edit of the forest of that list: `f` gains a first child, or the list a first tree; every other forest stays |
| MappingForests.FlushKeepsForests | kernel/src/generic/mapping.cc:407-596 | cutting a run out keeps every list the preorder of a forest |
| MappingForests.FlushForest | kernel/src/generic/mapping.cc:407-596 | as an edit of the forest: it loses the subtree of `f`, or its strict descendants; every other forest stays |
| MappingFlush.SweepAt | kernel/src/generic/mapping.cc:436-472 | each visited entry is flushed once and no other entry changes: with execute, write and read it is cleared, otherwise it is present as before, without reference bits, and writable exactly if it was and the write bit is not among the rights |
| MappingFlush.AtTestStep | kernel/src/generic/mapping.cc:407-596 | one turn of the loop visits the next node of the run |
| MappingFlush.AtTestDone | kernel/src/generic/mapping.cc:595-606 | when the loop ends, the visited nodes are exactly the run of `f`, and lists, entries and gathered reference bits are those of flushing that run; `MappingFlush.FlushedBits` says what they are |
| MappingFlush.FlushedBits | kernel/src/generic/mapping.cc:436-472 | what the flush of a run leaves, entry by entry and bit by bit: rights and reference bits of its entries, the reference bits returned, and those stored in nodes that stay |
| NodeBuffers.PositionReached | kernel/src/generic/mapping.cc:131-179 | every position of every list is reached from the node of sigma0 by following next pointers and array elements |
| NodeBuffers.LiveIsReached | kernel/src/generic/mapping.cc:131-179 | nothing leaks and nothing dangles: a buffer is live exactly when it is spare or a slot that can be reached from the node of sigma0 leads to it as its next mapping, its dual node or its array |
| NodeBuffers.HeldOnce | kernel/src/generic/mapping.cc:131-179 | nothing is shared: two slots that lead to the same mapping, dual node or array are the same slot |
| MappingDb.Mdb.NothingLeaks | kernel/src/generic/mapping.cc:131-179 | both for every state the operations keep |
| NodeBuffers.SpareFresh | kernel/src/generic/mapping.cc:225-225 | inside a buffer just handed out there is no node, dual node or root node |
| NodeBuffers.NodeFreed | kernel/src/generic/mapping.cc:131-153 | freeing a node and the dual node left over keeps that |
| NodeBuffers.AllocatorApart | kernel/src/generic/mapping_alloc.cc:171-271 | whatever the sizes, live buffers overlap neither each other nor the static node |
| MappingDb.Mdb.Init | kernel/src/generic/mapping.cc:56-75 | `init_mdb` from the buffer lists on: either kernel memory has no room, or the database holds sigma0 over an array of the largest pages, satisfies the invariant, and owns exactly the buffers taken |
| MappingDb.Mdb.NewBuffer | kernel/src/generic/mapping.cc:225-225 | a buffer from the allocator becomes spare; null only when kernel memory has no page or block for it |
| MappingDb.Mdb.HookBelow | kernel/src/generic/mapping.cc:229-246 | links a node in at one position of one list, with a dual node from the allocator exactly when it is needed; no other list, entry or array changes, and nothing at all when memory runs out |
| MappingDb.Mdb.RemoveMap | kernel/src/generic/mapping.cc:131-179 | takes a node out of its list, for either kind of predecessor, and changes no other list; frees its buffer, and that of a dual node left without a mapping, each live and of that size |
| MappingDb.Mdb.Grant | kernel/src/generic/mapping.cc:208-218 | the node keeps its place and gets another space and page-table entry, and its backlink decodes to its predecessor as before; nothing else changes. The node of sigma0 has no predecessor and no entry: exactly for it the entry is not recorded |
| MappingDb.GrantFromTop | kernel/src/generic/mapping.cc:208-218 | the failing input: after a grant from the node of sigma0 its backlink, null at first, decodes with the new page-table entry to the old one, as if that were a node |
| MappingDb.Mdb.MapSameSize | kernel/src/generic/mapping.cc:225-251 | the forest gains the new node as first child of `f` and every other forest stays, as long as `f` is less than 255 deep |
| MappingDb.Mdb.CreateRoots | kernel/src/generic/mapping.cc:618-629 | the array consists of root nodes that lead nowhere |
| MappingDb.Mdb.AttachRoots | kernel/src/generic/mapping.cc:273-291 | a slot without an array gets a new empty one and keeps its mapping; when memory runs out nothing changes |
| MappingDb.Mdb.MapSmaller | kernel/src/generic/mapping.cc:253-323 | descends along the slots that the digits of the address select, makes exactly the missing arrays, and puts the new node at the head of the last slot; every other list, every other array and every other forest stays; when memory runs out at most empty arrays have been added |
| MappingDb.Mdb.MdbMap | kernel/src/generic/mapping.cc:196-323 | the three cases of `mdb_map`, grants from sigma0 included, with the page sizes converted and all buffers taken from the allocator: exactly one leaf is added, where the address says; the invariant, ownership of buffers and, below depth 255, the forests are kept; null only when kernel memory has run out |
| MappingDb.Mdb.FlushNode | kernel/src/generic/mapping.cc:407-505 | one turn of the flush loop: the node, its entry right by right and bit by bit, and the next node with its entry decoded from the compressed backlink |
| MappingDb.Mdb.MdbFlush | kernel/src/generic/mapping.cc:345-606 | with full rights the forest loses exactly the subtree of `f` (or its strict descendants) and their buffers are freed, otherwise rights are revoked and the forest stays; every other forest stays; exactly the visited entries are cleared, or lose the write right if it is among the rights flushed, and lose their reference bits; a reference bit is returned exactly if some strict descendant had it in its entry, or, when `f` itself is flushed, `f` had it in its entry or its node; nodes that stay gain the bits of their entries; terminates |
| Kmem.InsertRunOk | kernel/src/generic/kmemory.cc:106-147 | freeing a block keeps the list ascending and adds exactly the chunks of the block |
| Kmem.FreeUndoesAlloc | kernel/src/generic/kmemory.cc:107-147 | freeing a block just allocated restores the identical list |
| Kmem.LastChunkStays | kernel/src/generic/kmemory.cc:184-198 | the last chunk of the list is never handed out |
| Kmem.PowerOfTwoAligned | kernel/src/generic/kmemory.cc:179-179 | a block whose size is a power of two is aligned to its size |
| Kmem.KernelMemory.constructor | kernel/src/generic/kmemory.cc:84-104 | initially the list is the chunks of the given range |
| Kmem.KernelMemory.Free | kernel/src/generic/kmemory.cc:107-147 | threads the block, splices it in at its place and counts it; no word outside the free list changes; a block below 1024 bytes is one chunk |
| Kmem.KernelMemory.RunFrom | kernel/src/generic/kmemory.cc:184-197 | the scan returns the element after a run of the wanted length, and null when there is no such run or it ends the list |
| Kmem.KernelMemory.AllocAligned | kernel/src/generic/kmemory.cc:247-337 | exact first fit: the first aligned run of the wanted length that is followed by a further element, taken out of the list and zeroed, with all other allocated words kept; a request below 1024 bytes takes one chunk; null exactly when there is none |
| Kmem.KernelMemory.Alloc | kernel/src/generic/kmemory.cc:151-242 | the same without an alignment beyond the size |
| BufferPools.MaskIsPage | kernel/src/generic/mapping_alloc.cc:302-302 | masking a buffer address gives the page it is in |
| BufferPools.LiveApart | kernel/src/generic/mapping_alloc.cc:212-232 | live buffers are pairwise disjoint and lie between the header and the end of their page |
| BufferPools.LiveNotHeader | kernel/src/generic/mapping_alloc.cc:212-232 | a live buffer overlaps no pool header, its own or another |
| BufferPools.TakeLast | kernel/src/generic/mapping_alloc.cc:252-267 | taking the last free buffer of a pool takes the pool out of the doubly linked list |
| BufferPools.TakeSome | kernel/src/generic/mapping_alloc.cc:252-254 | taking a buffer when others stay free keeps the doubly linked list |
| BufferPools.PutSome | kernel/src/generic/mapping_alloc.cc:311-313 | putting a buffer back keeps the doubly linked list |
| BufferPools.PutFirst | kernel/src/generic/mapping_alloc.cc:315-327 | a pool with its first free buffer goes to the front of the doubly linked list |
| BufferPools.DropPool | kernel/src/generic/mapping_alloc.cc:328-343 | a pool all of whose buffers are free is unlinked from any place of the doubly linked list |
| BufferPools.FullyFree | kernel/src/generic/mapping_alloc.cc:328-343 | when as many buffers are free as fit, no buffer of the page is live |
| BufferPools.TakenLive | kernel/src/generic/mapping_alloc.cc:252-271 | taking a buffer makes exactly that one live |
| BufferPools.PutLive | kernel/src/generic/mapping_alloc.cc:302-343 | putting a buffer back makes exactly that one not live, whether or not its page goes back |
| MappingAlloc.MaxFree | kernel/src/generic/mapping_alloc.cc:156-158 | the largest number of buffers that fit beside the header |
| MappingAlloc.AddSize | kernel/src/generic/mapping_alloc.cc:112-127 | adds a size that is not there yet |
| MappingAlloc.BufferSizes | kernel/src/generic/mapping_alloc.cc:129-144 | registers the sizes of both node kinds and of every root array, each once; every one of them can be set up: a small one leaves a page room for the header and less than a header over |
| MappingAlloc.LiveRanges | kernel/src/generic/mapping_alloc.cc:171-271 | any two live buffers, small or large, are disjoint; each lies below 2^64 and is aligned to four bytes if its size is |
| MappingAlloc.LiveNotFree | kernel/src/generic/mapping_alloc.cc:171-271 | a live buffer overlaps no free chunk of kernel memory |
| MappingAlloc.LiveAligned | kernel/src/generic/mapping_alloc.cc:167-168 | buffers are aligned to four bytes like their sizes |
| MappingAlloc.BufferAllocator.constructor | kernel/src/generic/mapping_alloc.cc:129-160 | initially there are no pools |
| MappingAlloc.BufferAllocator.ThreadPool | kernel/src/generic/mapping_alloc.cc:225-232 | threads all buffers of a fresh page without touching its header or other pages |
| MappingAlloc.BufferAllocator.NewPool | kernel/src/generic/mapping_alloc.cc:207-245 | a page from kernel memory becomes the only pool of its list, all buffers free |
| MappingAlloc.EmptyHeadIff | kernel/src/generic/mapping_alloc.cc:202-206 | the list of a size is empty exactly when no pool of that size has a free buffer |
| MappingAlloc.BufferAllocator.AllocBuffer | kernel/src/generic/mapping_alloc.cc:171-271 | returns a buffer of the wanted size that was not live and keeps all others live; large requests go to kernel memory; it runs out exactly when memory is needed and first fit finds no block, refuses exactly the unregistered sizes, and never reaches into memory that was not its own; no word of any other live buffer changes |
| MappingAlloc.BufferAllocator.FreeBuffer | kernel/src/generic/mapping_alloc.cc:280-347 | makes exactly that buffer not live and changes no word of any other live buffer; the page goes back exactly with its last live buffer, except pages that hold only one |
| PageTable.LookupInside | kernel/src/generic/linear_ptab_walker.cc:1010-1037 | inside the span of an entry, lookup continues from that entry |
| PageTable.LookupUpdate | kernel/src/generic/linear_ptab_walker.cc:1004-1041 | changing an entry changes the lookups in its span and no other |
| PageTable.IndexIsDigit | kernel/include/linear_ptab.h:127-145 | a table index is the digit of the address at that level |
| PageWalker.AddressSpace.LookupMapping | kernel/src/generic/linear_ptab_walker.cc:1004-1041 | the descent finds what positional notation says, with a pointer to the entry; it fails exactly when the address is not mapped |
| PageWalk.StepDown | kernel/src/generic/linear_ptab_walker.cc:854-864 | pushing an entry and entering its table keeps position, counts and stacks consistent |
| PageWalk.StepOver | kernel/src/generic/linear_ptab_walker.cc:866-902 | handing a mapping on extends the exact visits and the cleared range by its span |
| PageWalk.StepUp | kernel/src/generic/linear_ptab_walker.cc:904-918 | popping a finished table keeps position, counts and stacks consistent, whether or not the table is removed |
| PageWalk.StepNext | kernel/src/generic/linear_ptab_walker.cc:900-902 | the next entry is in the same table |
| PageWalk.Arrive | kernel/src/generic/linear_ptab_walker.cc:806-821 | the page count and the first entry cover the fpage exactly |
| PageWalker.AddressSpace.UnmapFpage | kernel/src/generic/linear_ptab_walker.cc:779-928 | visits what the recursive traversal of the fpage visits, in that order: every mapping exactly once, at the address where lookup finds it; after a full flush no address of the fpage is mapped and all others are mapped as before; a reference bit is returned exactly if some visited mapping has it; terminates |
| PageWalker.AddressSpace.FinishEntry | kernel/src/generic/linear_ptab_walker.cc:851-918 | one entry handed on, its reference bits or-ed to those so far, and all finished tables left |
| PageWalker.GatheredBits | kernel/src/generic/linear_ptab_walker.cc:880-890 | a bit of the or of all reference bits is set exactly if some visit has it |
| PageTraversal.LeavesExact | kernel/src/generic/linear_ptab_walker.cc:825-919 | the recursive traversal of an entry visits its mappings exactly |
| PageTraversal.ExactUnique | kernel/src/generic/linear_ptab_walker.cc:825-919 | there is only one sequence of exact ascending visits |
| PageTraversal.WalkIsTraversal | kernel/src/generic/linear_ptab_walker.cc:825-919 | what visits the mappings of a range exactly is the recursive traversal of its window |
| ByteWords.JoinLittle | kernel/src/generic/linear_ptab_walker.cc:982-986 | or-ing two shifted little-endian words joins the upper bytes of one with the lower bytes of the next |
| ByteWords.JoinBig | kernel/src/generic/linear_ptab_walker.cc:978-981 | the same for big-endian words |
| ReadMem.SamePage | kernel/src/generic/linear_ptab_walker.cc:1004-1041 | addresses in one page are mapped alike |
| ReadMem.UnalignedBytes | kernel/src/generic/linear_ptab_walker.cc:959-974 | the eight bytes translated one by one are the upper bytes of one physical word and the lower bytes of the next, also across pages and around the end of the address space |
| ReadMem.MappedByte | kernel/src/generic/linear_ptab_walker.cc:941-950 | the byte of a mapped address is in the frame that its entry maps, as far from its start as the address from that of its page |
| ByteWords.WordByte | kernel/src/generic/linear_ptab_walker.cc:972-982 | the bytes of a word are its digits, in either byte order |
| PageWalker.AddressSpace.Readmem | kernel/src/generic/linear_ptab_walker.cc:941-990 | the word of the eight bytes translated one by one, for every alignment and both byte orders: each digit of the word is the byte in the frame that the entry of its address maps, at the offset of the address in its page; fails exactly when one of them is not mapped |
| Fpages.MapWindowsOk | kernel/src/generic/linear_ptab_walker.cc:251-270 | both windows are aligned to the smaller size and lie inside their fpages; the smaller fpage is taken from its start, and in the larger one the send base selects the window, by its bits between the two sizes |
| Fpages.FieldsOf | kernel/include/api/v4/fpage.h:43-55 | base, size and access bits are the digits of the word |
| Fpages.WindowInside | kernel/src/generic/linear_ptab_walker.cc:255-270 | the window that the base selects in the larger fpage, in closed form |
| Fpages.BaseMaskIs | kernel/src/generic/linear_ptab_walker.cc:62-66 | the base mask consists of the bits between the two sizes |
| Fpages.GetAddressIs | kernel/include/api/v4/fpage.h:132-142 | an ordinary fpage starts at its base rounded down to its size and fits into the address space |
| Fpages.OverlapIff | kernel/include/api/v4/fpage.h:115-123 | two ordinary fpages are reported to overlap exactly when one contains the other and the lower one does not end at the top of the address space |
| Fpages.OverlapMissedAtTop | kernel/include/api/v4/fpage.h:115-123 | the top gigabyte contains its last kilobyte, and the overlap is not reported |
| Rings.EnqueueListTail | kernel/include/api/v4/queueing.h:35-49 | appends a thread to the ring; only threads of the ring are relinked |
| Rings.EnqueueListHead | kernel/include/api/v4/queueing.h:51-63 | prepends a thread to the ring; only threads of the ring are relinked |
| Rings.DequeueList | kernel/include/api/v4/queueing.h:65-79 | removes a thread from any place of the ring; only threads of the ring are relinked |
| Scheduler.ThreadQueues.constructor | kernel/include/api/v4/schedule.h:82-88 | empty rings, provided the slot of the highest priority was null |
| Scheduler.ThreadQueues.EnqueueReady | kernel/include/api/v4/schedule.h:43-59 | a thread that is not ready joins the ring of its priority at the head or tail, and `max_prio` goes up to its priority if it was lower; the wakeup and send rings stay |
| Scheduler.ThreadQueues.DequeueReady | kernel/include/api/v4/schedule.h:61-68 | a ready thread leaves the ring of its priority; the wakeup and send rings stay |
| Scheduler.ThreadQueues.SetPriority | kernel/include/api/v4/schedule.h:293-302 | a thread that is not ready changes its priority, to anything up to the highest; the sensitive priority is raised to it exactly if it was lower; all rings stay |
| Scheduler.ThreadQueues.SetTimeout | kernel/include/api/v4/schedule.h:186-195 | the thread joins the wakeup ring at the tail; the ready and send rings stay |
| Scheduler.ThreadQueues.CancelTimeout | kernel/include/api/v4/schedule.h:216-224 | the thread leaves the wakeup ring if it is in it; the ready and send rings stay |
| Scheduler.ThreadQueues.EnqueueSend | kernel/include/api/v4/tcb.h:595-601 | the thread joins the send ring of one receiver; the other send rings and the ready and wakeup rings stay |
| Scheduler.ThreadQueues.DequeueSend | kernel/include/api/v4/tcb.h:607-612 | the thread leaves the send ring of its receiver; the other send rings and the ready and wakeup rings stay |
| Asids.AsidCache.constructor | kernel/include/asid.h:99-107 | no identifier is usable and no space owns one |
| Asids.AsidCache.SetValid | kernel/include/asid.h:173-189 | the identifiers of the range that were not usable become free, in order, in front of the free list; repeated and overlapping ranges change nothing else |
| Asids.AsidCache.Allocate | kernel/include/asid.h:191-213 | takes the head of the free list; with none left nothing changes |
| Asids.AsidCache.Get | kernel/include/asid.h:157-165 | the space owns the identifier returned; a space that has one keeps it; there is none exactly when the space has none and none is free |
| Asids.AsidCache.Release | kernel/include/asid.h:215-229 | the identifier goes to the head of the free list; a space without one changes nothing |

## Left out

Symbolic evaluator:

- Soundness.EvaluatorSound: is for runs without a misread narrow index, a negative sum out of range under `nsw` or an overflowing signed division, because it can fail for the others; `Oversights.GepExact` and `Oversights.BinaryExact` have the exact conditions for one operation. It says nothing about concrete runs that shift by the width or more, or break the typing of the program; those are excused.
- WholeRuns.EvaluatorFinishes: is for typed programs in which no pointer is chosen by a condition, because with a chosen pointer it can fail (`Completeness.GuardedReadRefused`); functions that return pointers are left out with them. The typing also keeps booleans and one-bit numbers apart, as the solver's sorts do.
- Soundness.BinarySound: is about the rules the evaluator checks by, for the same reason.
- Soundness.ConvertSound: sign extension of a boolean is not part of the evaluator here; `Soundness.SextOfBooleanExact` says when it is right. Likewise `sle`.
- Soundness.CompareSound: equality of two pointers is refused. The code compares reference, pending geps and type, which are Python values and not solver terms, and its case for two conditional pointers builds a conditional from two pairs.
- Soundness.AllocaSound: objects are named by the position of the running instruction instead of a global counter, and the solver names of pointers with their not-null assumptions are not modelled.
- Soundness.LoadSound: pointers stored in memory, uninitialised and null pointers, and bitcast pointers are refused, as are accesses to aggregates and index vectors of different lengths.
- Soundness.BranchSound: exceptions other than `UnreachableException` end the evaluation without the detail of which one is raised again.
- Static type assertions of the operators, debug locations, stack traces and metadata.
- `branch2`, `insert_value`, `extract_value`, `ptr_to_int`, inline assembly, the emitter in `compiler/`, the solver process and its framing, and the test harness.

Mapping database:

- MappingDb.Mdb.MdbFlush: only where no visited node leads to an array of root nodes, and for a flushed size at least that of the mapping; a flush through arrays does not delete a whole subtree. The reference bits written back to the parent entry are left out, because the space they are written for is copied from a variable that is not set.
- MappingDb.Mdb.MdbMap: when kernel memory runs out the code uses a null buffer; here the call ends with null, and buffers already taken stay spare. A dual node is requested before the stores that need it instead of between them.
- MappingDb.Mdb.RemoveMap: of a node that leads to no array; the code would drop the array.
- Page-table entries are a presence flag, a write right and reference bits, as on AMD64; TLB flushes and locks.

Allocators:

- Kmem.KernelMemory.Alloc: the debugger entry on exhaustion is the null result; the two copies of the search loop are one method.
- MappingAlloc.BufferAllocator.AllocBuffer: an unregistered size and a page that cannot be had stop the kernel; here they are results. Sizes for which the words left over in a page would hold a header are excluded, as are sizes whose `max_free` is zero; no registered size is of that kind.
- Statistics of memory groups.

Page tables:

- PageWalker.AddressSpace.UnmapFpage: for fpages below 2^64 bytes within the supported space, in a range of mappable user pages; the database call is taken to clear the visited entry, in a full flush, and no other entry of this space. A mapping larger than the fpage is allowed only in a full flush, where the code stops. Kernel mappings, TLB flushes and the freeing of page-table pages are left out.
- PageWalker.AddressSpace.LookupMapping: an entry is invalid, a mapping or a table; architecture-specific bits are not modelled.
- The main loop of `map_fpage` after the window computation.
- The templated `readmem` of `linear_ptab.h`.
- `fpage_t::set`, whose shift of a signed constant depends on the compiler, and the complete fpage in window arithmetic.

Queues and identifiers:

- Scheduler.ThreadQueues.EnqueueReady: the present list, timeslices and dispatching are left out.
- Asids.AsidCache.Allocate: with no identifier left the code enters the kernel debugger; here the call ends with the invalid identifier. The LRU list of preemptible identifiers is left out.
- SMP mailboxes, locks and tracepoints.
