# A verified model of the Qu-Prolog abstract machine

Qu-Prolog is a Prolog with quantifiers, object variables and explicit substitutions, compiled to an
extended WAM.  This project models the parts of the machine whose correctness is least obvious from
the code, in Dafny, and proves what they promise.

`dafny verify dfyconfig.toml` checks everything.  Proof steps are kept small; many begin with `hide`,
which keeps the bodies of predicates out of a proof that only passes them along.

## The parts

**Garbage collection** (`HeapWords`, `Marking`, `Compaction`, `CompactionPasses`, `SavedTops`, `TrailCollection`, `Collector`).  Heap words
are tagged headers or addresses; the heap and the words outside it that hold roots are one array.
`Marking.GcMarkPointer` marks exactly what is reachable, with an explicit stack.  Compaction is Jonkers'
algorithm: every address of an object is threaded through the object's header, which for a while is no header,
and unthreaded to the new address when a pass arrives there.  The invariant (`Compaction.Threaded`) says, for each
object still ahead, which cells its chain runs through and in what order, and for every other live word what it
holds.  `Collector.Collect` puts the phases together, and `Collector.CollectionKeepsRoots` says what that is for:
followed to any depth, every word outside the heap leads to what it led to before.  Saved tops of heap are no roots: when nothing else
leads to the object at a saved top, that object is overwritten by a number so that the saved top can be moved with it (`SavedTops`); a saved
top goes on separating the same objects (`Collector.CollectionKeepsTops`).  The words of the trails are weak roots (`TrailCollection`): an entry for
a cell that is not marked is dropped, and every other entry leads to what it led to before (`Collector.CollectionKeepsTrail`).

**The dynamic database** (`TriangularProbing`, `DynamicHashTable`, `ClauseChains`, `ChainMemory`, `Database`,
`ClauseIndex`, `DynamicPredicate`, `ClauseKeys`).  Link cells and clause blocks live in an explicit memory from which `delete`
removes an address, so that reading a freed cell would be a failed proof.  `Database` is what callers see: a state
machine over asserts, retracts and calls.  `DynamicPredicate` is the implementation, with chains, hash
table, stamps and reference count; each of its operations is shown to be one step (a call's start: two steps) of that machine.
`Database.LogicalUpdateView` is about every run: a call delivers exactly the clauses alive when it began, in order, once each,
if and only if no clause retracted before is retracted again while it is ahead of the call; and it never looks at a freed one.  `ClauseKeys` links the index to the meaning of terms.

**Substitutions and equality** (`SubstitutedTerms`, `Dereference`, `Opening`, `Verdicts`, `Settled`, `EqualEqual`, `AlphaRenaming`).  The meaning of a
term under substitutions is a term whose bound variables have no names (`SubstitutedTerms.Den`); what object variables are called and what
meta-variables stand for is a parameter.  Lazy evaluation keeps the meaning for every naming that agrees with the known
distinctness.  Equality is right for every instance when it answers yes, and when distinctness is known of all variables that occur it decides
equality up to renaming of bound variables.

**Trails and environments** (`Trails`, `TrailedHeap`, `Environments`).  A choice point remembers, as a ghost, the memory at its creation.
Every operation keeps the invariant that unwinding the two trails would give it back; backtracking does give it back, on every cell that existed.
For environments the invariant says that the links of the current chain and of every chain that a choice point needs are intact in the word array,
and that in the environments a choice point needs every header and Y register is what it was when the choice point was made, except for the
registers written since; each operation says exactly which words it leaves alone, and only `SetY` changes a Y register of an environment in use.

**Switch tables** (`SwitchTables`).  Linking turns a listed table into a hash table in place, with the same meaning.

**The term codec** (`EncodeMap`, `TermEncoding`, `TermCodec`).  The receiver is proved against the bytes that the sender writes.

## What the code does not promise

- `Collector.SweepableExactly`: sweeping threads the binding trail without looking at the marks, and the old value of every trail entry that it keeps.
  All of them are marked exactly when the variables on the binding trail are and no entry is late: passed over at its turn because its cell was not marked,
  its cell then marked by an older entry, and its old value not.  `Collector.LateEntry` is a heap with such an entry; the header of an object that is not
  marked is then overwritten.  The program asserts the first only when debugging, and never checks the second.
- `DynamicHashTable.TwoSlotsGiveUp`: a table made with size 1 has two slots and gives up on the third key; every larger size never does.
- `Database.RetractOnce`: retracting a clause keeps the views at all stamps up to now exactly when the clause was not retracted before; the program
  does not check.  Retracted again, it reappears to the calls that began since the first retract (`Database.RetractView`), and such a call tries it if it is still
  ahead on its chain (`Database.StepKeepsView`; `Database.RetractedTwice` is a run).  A call that began before the first retract notices nothing.
- `ClauseKeys.AnswersLost`: an argument that is a substitution which evaluates to an atom or number is indexed under a key of its own.  As the
  argument of a call it misses clauses it should try, and as the argument of a clause it is missed; `ClauseKeys.AnswerLost` is the case of `[a/x]x`, and
  `ClauseKeys.EntryFits` says that there are no other cases.
- `TermEncoding.RoundTrip`: a term comes back as it was, with the variables named back, exactly when it has no negative integer of 32 bits and no structure `$int64`
  of two integers of 32 bits.  The former arrive as other integers (`TermEncoding.IntSurvives`); of the latter the receiver makes the integer whose halves they are, and
  some of them have the very bytes of an integer (`TermEncoding.Int64Taken` says which).
- `Database.StampedView`: a call that is given an earlier stamp tries the clauses alive then exactly when no collection has freed one of them since
  (`Database.FreedBefore` is a run in which one has), if no clause is retracted twice.
- `SwitchTables.ResolveSwitch`: when every slot of a table but the default's is listed, linking reads and writes one entry past the end (`SwitchTables.TakeOut`).
  The switch still means what was listed.  The tables in the repository's own `.qs` files all have at least two slots to spare.

## Model

| member | source | states |
|---|---|---|
| HeapWords.WithBitSets | src/objects.h:2273-2278 | Setting a bit of the mark array marks exactly that cell |
| HeapWords.GcBits.SetBit | src/objects.h:2273-2278 | The marked set grows by the given cell and by no other |
| HeapWords.GcBits.IsSet | src/objects.h:2287-2292 | True exactly for marked cells |
| Marking.ClosureIsReachability | src/gc.cc:137-168 | The least set that contains an object and is closed under addresses is the set of objects reachable along paths |
| Marking.TracingScan | src/gc.cc:137-168 | Pushing an object's addresses keeps the tracing invariant: marked objects lead only to marked objects or to the stack |
| Marking.GcMarkPointer | src/gc.cc:137-168 | The marked set becomes the old one plus everything reachable from the argument, on cyclic and shared heaps; the stack is as before |
| Marking.KindSizes | src/objects.cc:29-80 | The number of words of each kind of object |
| Marking.MarkedParts | src/gc.cc:156-166 | When marking is done, every heap address in a marked variable, structure, list, quantified term, substitution or substitution block leads to a marked object; numbers and strings lead nowhere |
| Compaction.NewAddressGap | src/gc.cc:191-250 | Cells without a marked object do not change the new address of what follows |
| Compaction.SlidesDown | src/gc.cc:252-293 | No object moves up |
| Compaction.NewImagesDisjoint | src/gc.cc:252-293 | New addresses of two marked objects are at least the size of the lower one apart, so their new places do not overlap |
| Compaction.ThreadGC | src/objects.h:2241-2248 | The cell and the header it points to exchange their contents the way a chain needs |
| Compaction.ThreadStep | src/objects.h:2241-2248 | Threading one more cell extends the chain of its target at the front and leaves every other chain and live word alone |
| Compaction.UpdateGC | src/gc.cc:179-189 | Unthreading restores the header and makes every cell of the chain hold the new address |
| Compaction.UnthreadStep | src/gc.cc:179-189 | After an object is unthreaded its chain is empty and all other chains stand |
| CompactionPasses.ForwardObject | src/gc.cc:214-241 | One object in the first pass: its earlier references get its new address, its own words are threaded |
| CompactionPasses.BackwardObject | src/gc.cc:273-285 | One object in the second pass: its later references get its new address and it is copied to its place, words unchanged |
| CompactionPasses.CopyKeepsThreads | src/gc.cc:280-283 | Sliding an object down damages no chain that is still needed |
| CompactionPasses.UpdateForwardPointers | src/gc.cc:191-250 | The scan of the bit array visits each marked object once, in order, and stops at the sentinel |
| CompactionPasses.UpdateBackwardPointers | src/gc.cc:252-295 | After the second pass every marked object is at its new address with relocated addresses, the bit array is clear, and the heap ends below the extra object |
| SavedTops.WithTopsAre | src/gc_escapes.cc:428-439 | Objects that only saved tops lead to are a number of one word; every word of an object that tracing marked, and every word outside the heap, is as it was; every saved top leads to a marked object |
| SavedTops.WithTopsOk | src/gc_escapes.cc:428-439 | The heap with those objects overwritten has all that compaction asks of it |
| SavedTops.SweepTop | src/gc_escapes.cc:428-440 | One saved top: marks its object, overwriting it if it was not marked, and threads the saved top; no word still needed is overwritten |
| SavedTops.SweepTops | src/gc_escapes.cc:413-464 | After the saved tops of the choice points and of the heap exactly the objects traced and those at saved tops are marked, and every word outside the heap is threaded |
| TrailCollection.MarkTrail | src/trail.h:463-474 | The old value of an entry is traced if and only if the cell is marked, or outside the heap, at the entry's turn, the newest first |
| TrailCollection.MarkEntry | src/trail.h:121-132 | One entry: the marks become the old ones plus everything reachable from its old value, or stay |
| TrailCollection.SafeExactly | src/trail.h:121-152 | What is left of the entries and the binding trail leads to marked objects if and only if no entry is late and the variables are marked |
| TrailCollection.SweepEntry | src/trail.h:134-152 | Clears both words of an entry for an unmarked cell, and threads the addresses of any other |
| TrailCollection.SweepTrail | src/gc_escapes.cc:347-352 | After the sweep the words kept are threaded, the others cleared, and no other live word has changed |
| Collector.MarkRoots | src/gc_escapes.cc:315-330 | The marked set is exactly what the words outside the heap that are in no trail and no saved tops reach, and the extra object |
| Collector.MarkAll | src/gc_escapes.cc:315-333 | The whole marking phase: exactly what the roots reach, and then, entry by entry, what the old values of needed trail entries reach |
| Collector.HeapIs | src/gc_escapes.cc:315-333 | Which heaps can be collected, kind by kind |
| Collector.Collect | src/gc_escapes.cc:452-468 | A whole collection, when the trails can be swept: exactly what tracing has to mark is marked; with the saved tops added, each marked object is at the total size of the marked objects below it, headers and non-addresses unchanged, every address, root, saved top and word of a kept trail entry relocated, dropped entries cleared, bits clear |
| Collector.MovedWord | src/gc.cc:252-295 | Word by word: an address word becomes the new address of its old target, any other word is unchanged |
| Collector.MovedParts | src/gc.cc:214-241 | Kind by kind: every heap address in a moved object is relocated, except in the last word of an extended variable; words of numbers and strings are unchanged |
| Collector.CompactionKeepsView | src/gc.cc:179-295 | An object and its image unfold to the same structure, to every depth |
| Collector.CollectionKeepsRoots | src/gc_escapes.cc:452-468 | Every word outside the heap that is in no trail and no saved top leads to what it led to before the collection, to every depth |
| Collector.CollectionKeepsTrail | src/gc_escapes.cc:347-352 | A word of a trail entry that is kept leads to what it led to before, to every depth; an entry is cleared if and only if its cell is in the heap and was not marked |
| Collector.SweepableExactly | src/trail.h:121-152 | Every word of the trails that sweeping threads leads to a marked object if and only if the variables on the binding trail are marked and no entry is late |
| Collector.LateEntry | src/trail.h:121-152 | A heap in which an entry is late: its old value is threaded and not marked |
| Collector.CollectionKeepsTops | src/gc_escapes.cc:428-440 | A saved top is relocated, and has the same marked objects below it as before |
| TriangularProbing.EverySlotProbed | src/dynamic_hash_table.h:176-189 | With a power-of-two size, as many probes as slots reach every slot |
| TriangularProbing.ProbesDiffer | src/dynamic_hash_table.h:176-189 | No slot is probed twice in that many probes |
| DynamicHashTable.NextTwoPower | src/dynamic_hash_table.h:49-59 | A power of two at least twice n and below four times n; twice n when n is a power of two |
| DynamicHashTable.StopAtEmpty | src/dynamic_hash_table.h:176-189 | An empty slot ends the search correctly: the key is nowhere in the table |
| DynamicHashTable.PlaceEntry | src/dynamic_hash_table.h:199-253 | A new key in the first empty slot probed keeps every key reachable and adds exactly one entry |
| DynamicHashTable.HashTable.Search | src/dynamic_hash_table.h:166-190 | Finds the slot of a key if and only if the key is present |
| DynamicHashTable.HashTable.Insert | src/dynamic_hash_table.h:199-255 | Finds the key, or adds exactly it, or gives up; the last exactly when the key is absent from a full table, which has two slots |
| DynamicHashTable.HashTable.Resize | src/dynamic_hash_table.h:283-311 | The same entries in a table twice as large that is at most half full, so the insert that follows does not resize again |
| DynamicHashTable.HashTable.IterNext | src/dynamic_hash_table.h:321-333 | The next occupied slot, skipping only empty ones |
| DynamicHashTable.TwoSlotsGiveUp | src/dynamic_hash_table.h:199-255 | Three keys make a table of size 1 give up |
| ClauseChains.SweepEnd | src/dynamic_code.cc:46-97 | What a swept chain has left is linked in the old order, and no other link cell has changed |
| ClauseChains.AtDrop | src/dynamic_code.cc:55-67 | Unlinking and freeing the cell at hand keeps the sweep going; the cells ahead are not touched |
| ChainMemory.SurvivorsHold | src/dynamic_code.cc:46-97 | The cells that survive hold the blocks that survive, in order |
| ChainMemory.ChainMemory.AddToChainStart | src/dynamic_code.h:140-145 | The chain gets the block in front; all other chains stay |
| ChainMemory.ChainMemory.AddToChainEnd | src/dynamic_code.h:147-159 | The chain gets the block at the end; all other chains stay |
| ChainMemory.ChainMemory.NextAlive | src/dynamic_code.h:93-99 | The first cell from the given one on whose clause is alive, reading no freed cell |
| ChainMemory.ChainMemory.NextNextAlive | src/dynamic_code.h:100-107 | The same from the following cell on |
| ChainMemory.ChainMemory.GcChain | src/dynamic_code.cc:46-97 | The chain loses exactly the retracted clauses and keeps the order of the rest, ends are right, and the blocks are freed when asked, once each |
| Database.SelectAdded | src/dynamic_code.cc:350-443 | A new clause joins exactly the chains whose pattern it matches, at the end where it is asserted |
| Database.LookUpView | src/dynamic_code.h:350-411 | The chain chosen for a goal is the subsequence of the compatible clauses |
| Database.StepKeepsInv | src/dyn_code.cc:291-381 | Every assert, retract, begin, next and end keeps the invariant of the database |
| Database.StepKeepsView | src/dyn_code.cc:291-381 | A step changes what a call has delivered and has still to deliver, taken together, only if it retracts again a clause that was retracted before the call began and is ahead of it; then the call sees more |
| Database.RunKeepsView | src/dyn_code.cc:291-381 | Over a run a call sees what it saw if and only if no step did that |
| Database.LogicalUpdateView | src/execute.cc:193-232 | For every run: a call delivers, in order and once each, the compatible clauses alive at its stamp when it began, if and only if no retracted clause ahead of it is retracted again; what it has still to deliver is not freed |
| Database.OnceUndisturbed | src/dyn_code.cc:366-381 | A run that retracts no clause twice disturbs no call |
| Database.StepStampView | src/dynamic_code.cc:319-341 | A step changes what a call with a given stamp would have to try exactly when it frees a compatible clause alive then, or retracts again one that was retracted then |
| Database.StampedView | src/dyn_code.cc:639-713 | A call that begins with the stamp of an earlier moment tries the compatible clauses alive at that moment if and only if none of them has been freed since, when each clause is retracted once |
| Database.FreedBefore | src/dyn_code.cc:639-713 | A run in which a clause alive at the stamp is freed before the call begins |
| Database.GcKeepsViews | src/dynamic_code.cc:319-341 | Collecting removes all retracted clauses and changes no view at the present or a later stamp |
| Database.FreedWhenUnused | src/dynamic_code.h:324-337 | A clause is freed if and only if it is retracted and the last call ends |
| Database.RetractOnce | src/dyn_code.cc:366-381 | Retracting keeps the views of all calls, at all stamps up to now, if and only if the clause was not retracted before |
| Database.RetractView | src/dyn_code.cc:366-381 | The view of a call changes exactly when the clause is compatible and was retracted at or before its stamp; then the clause is in the view again |
| Database.RetractedTwice | src/dyn_code.cc:366-381 | A run in which a call tries a clause that was retracted before it began |
| ClauseIndex.IndexAdded | src/dynamic_code.cc:350-443 | Adding the clause to the matching chains keeps every chain equal to its filtered list |
| ClauseIndex.KeyMatches | src/dynamic_code.cc:412-443 | A clause with a key matches the chain of all clauses and the chain of its key, and no other |
| ClauseIndex.VarMatches | src/dynamic_code.cc:393-411 | A clause without a key matches every chain |
| ClauseIndex.NewKeyChain | src/dynamic_code.cc:302-314 | For a key no clause has, the filtered list is that of the variable clauses |
| ClauseIndex.EmptyKeyChain | src/dynamic_code.cc:424-433 | When a key's chain has been collected to nothing there are no variable clauses, so copying them again adds nothing |
| ClauseIndex.KeyChainReady | src/dynamic_code.cc:417-433 | Whether the entry is new, empty or not, after copying its chain is the filtered list |
| ClauseIndex.TableAdd | src/dynamic_code.cc:417-422 | A new entry has a chain of its own |
| ClauseIndex.SelectWithout | src/dynamic_code.cc:319-341 | Filtering commutes with collecting |
| ClauseIndex.IndexCollected | src/dynamic_code.cc:319-341 | Collecting every chain keeps the index equal to the filtered lists |
| ClauseIndex.NextAt | src/thread_qp.h:461-481 | A step along the chain by places is the Next step of the database |
| ClauseIndex.BeginNextAt | src/execute.cc:193-232 | Starting a call by places is Begin and Next |
| DynamicPredicate.DynamicPredicate.AddToHashedChains | src/dynamic_code.cc:280-299 | Iterating over the table adds the clause to each hashed chain once |
| DynamicPredicate.DynamicPredicate.CopyVarClauses | src/dynamic_code.cc:307-314 | The chain is extended by the variable clauses in order |
| DynamicPredicate.DynamicPredicate.AssertClause | src/dynamic_code.cc:351-443 | The new clause is on exactly the right chains; the index equals the filtered lists of the extended database |
| DynamicPredicate.DynamicPredicate.Assert | src/dyn_code.cc:291-359 | Is the Assert step of the database |
| DynamicPredicate.DynamicPredicate.Retract | src/dyn_code.cc:366-381 | Is the Retract step |
| DynamicPredicate.DynamicPredicate.LookUpClauseChain | src/dynamic_code.h:376-411 | Chooses the chain with the pattern for the goal |
| DynamicPredicate.DynamicPredicate.InitializeCall | src/execute.cc:193-232 | Fails exactly when no compatible clause is alive; otherwise is Begin and Next, holding a reference |
| DynamicPredicate.DynamicPredicate.GetFirstClause | src/dyn_code.cc:639-713 | The same for a given stamp; says whether there are more clauses |
| DynamicPredicate.DynamicPredicate.NextClause | src/thread_qp.h:461-481 | Is the Next step and delivers the clause the database says |
| DynamicPredicate.DynamicPredicate.GcPredicate | src/dynamic_code.cc:319-341 | Hashed chains, variable chain and chain of all clauses lose the retracted clauses, whose blocks are freed last |
| DynamicPredicate.DynamicPredicate.Release | src/dynamic_code.h:329-337 | Is the End step, with collection when the last reference goes |
| ClauseKeys.FittingKeys | src/dynamic_code.cc:101-273 | Keys that fit one meaning are compatible |
| ClauseKeys.MakeEntry | src/dynamic_code.cc:101-273 | The key is that of EntryKey; it is the key of a substitution if and only if the argument is a substitution that evaluates to an atom or a number; only then it does not fit what the argument means, and then never; it is as specific as the argument, evaluated, allows |
| ClauseKeys.EntryFits | src/dynamic_code.cc:101-273 | The key fits whatever the argument's variables stand for if and only if the argument is no such substitution |
| ClauseKeys.NoAnswerLost | src/dynamic_code.h:350-411 | With fitting keys, a clause whose argument can mean the same as the call's is on the chain the call scans |
| ClauseKeys.KeysTellApart | src/dynamic_code.cc:101-273 | Keys that are not those of variables are compatible if and only if the arguments, evaluated, have the same constructor and the same constant, functor or quantifier |
| ClauseKeys.OthersNotTried | src/dynamic_code.h:350-411 | A clause whose argument differs in that is not on the chain the call scans |
| ClauseKeys.AnswersLost | src/dynamic_code.cc:192-262 | The same for every substitution that evaluates to an atom or a number |
| ClauseKeys.AnswerLost | src/dynamic_code.cc:192-262 | With the keys that makeEntry gives, p([a/x]x) does not reach the clause p(a), nor p(a) the clause p([a/x]x), though they mean the same |
| Dereference.SameSub | src/heap.cc:57-85 | Moving a term's substitutions in front of those around it keeps the meaning |
| Dereference.SamePass | src/dereference.cc:143-150 | Dropping a block whose domains are all distinct from the variable keeps the meaning, for every naming |
| Dereference.SameTake | src/dereference.cc:132-142 | Taking a range keeps the meaning when each earlier domain is distinct or has the same range |
| Dereference.EvaluateBlock | src/dereference.cc:119-183 | Takes or passes only when that is right for every naming; stops only when some domain may be the variable and, for each pair whose domain is the variable, such an earlier pair has a different range |
| Dereference.EvaluateLocal | src/dereference.cc:102-118 | The same for local object variables |
| Dereference.EvaluateJudged | src/dereference.cc:102-183 | What is taken or passed may be, for every naming; what is left may not be, for all that is known |
| Dereference.EvaluateExactly | src/dereference.cc:119-183 | A pair is taken if and only if it is the first for the variable and all earlier pairs that may be for it have its range; the block is passed if and only if no pair can be for it |
| Dereference.BlockKnown | src/dereference.cc:143-150 | A block all of whose domains are known to be distinct from the variable is passed; one with a domain of which that is not known, and none that is the variable, is kept |
| Dereference.DistinctExactly | src/objects.cc:115-137 | Two variables are known to be distinct if and only if every naming that separates the known pairs, and local variables from all others, separates them |
| Dereference.DerefKeeps | src/dereference.cc:67-196 | Dereferencing keeps the meaning for every such naming |
| Dereference.MixedBlock | src/dereference.cc:102-118 | Dropping a block that begins with an ordinary variable from a local one is right if and only if the variable is no domain of it, or its range means what the variable means without the block |
| Dereference.SubstitutionDereference | src/dereference.cc:67-196 | Terminates; the meaning is the same for every naming that agrees with the distinctness, every value of meta-variables and every context; constants lose their substitutions, and a variable keeps only ones that cannot be evaluated; each comparison of ranges is one of objects, whose outcome is free for equal terms |
| Dereference.AcceptedTerms | src/dereference.cc:67-196 | Which terms can be dereferenced: all whose blocks are proper and whose binder lists are |
| AlphaRenaming.AlphaVariants | src/equal.cc:140-243 | Renaming one variable of a binder list, of any length, to one that does not occur keeps the meaning in every context |
| Opening.OpenMeans | src/equal.cc:218-234 | Substituting new constants for bound variables in a term is replacing the bound variables in its meaning, nested and shadowing binders included |
| Opening.MeansClean | src/equal.cc:222-225 | The meaning of a term without a constant does not contain it |
| Opening.OpenInjective | src/equal.cc:222-225 | Replacing bound variables by new constants loses no information |
| Verdicts.QuantsMean | src/equal.cc:140-243 | Quantified terms mean the same if and only if quantifiers, types and opened bodies do |
| Verdicts.ListsMean | src/equal.cc:115-139 | Argument lists mean the same if and only if they have the same length and the arguments do |
| Verdicts.RightDereferenced | src/equal.cc:102-103 | Dereferencing both sides does not change a verdict |
| Verdicts.Decides | src/equal.cc:64-243 | When the variables that occur are the same or known distinct, the verdict decides equality up to renaming of bound variables |
| EqualEqual.Thread.EqualEqual | src/equal.cc:64-243 | Yes is right for every naming and every value of meta-variables; no is right when different variables are different; undecided is only what leads, part by part, to a variable left under a substitution; terms without quantifiers and substitutions are equal if and only if they are the same term, whatever is known; the stack is restored on every path |
| EqualEqual.Thread.EqualSimple | src/equal.cc:245-304 | Atoms, numbers and variables are equal if and only if they are the same, unless a variable is left under a substitution |
| Settled.PlainSettled | src/equal.cc:64-243 | From terms without quantifiers and substitutions the comparison comes to no variable under a substitution |
| Settled.PlainDecided | src/equal.cc:64-243 | On such terms a right verdict that is not undecided tells whether they are the same term |
| EqualEqual.Thread.EqualBinders | src/equal.cc:154-205 | Compares the binder lists, pushes the pairs, and takes them off again on failure |
| EqualEqual.Thread.NewBlocks | src/equal.cc:218-234 | The two blocks map the bound variables, last one first, to the same new constants |
| EqualEqual.Thread.EqualQuantifiers | src/equal.cc:140-243 | The verdict on quantifiers, types and bodies is the verdict on the quantified terms |
| Trails.UnwindInAnyOrder | src/thread_qp.h:252-262 | The two trails write different cells, so either may be unwound first |
| Trails.WriteBinding | src/bind.h:70-86 | A trailed binding loses nothing a choice point needs |
| Trails.WriteSaved | src/bind.h:88-119 | Nor does a trailed update |
| Trails.UntrailedCell | src/bind.h:88-119 | What the quick or the slow check leaves untrailed need not be trailed |
| Trails.TidiedPutBack | src/trail.h:90-115 | Dropping young, repeated and reference entries does not change what is put back into old cells |
| Trails.TidiedExactly | src/trail.h:90-115 | Tidying keeps exactly the oldest entry of each location among those for cells that are not young, in order |
| Trails.TidiedLocations | src/trail.h:90-115 | No location is kept twice, and none is lost |
| Trails.TrailedExactly | src/bind.h:88-185 | The quick check trails what is not young; the slow check what is not young and has no entry since the choice point |
| Trails.TidiedSnaps | src/trail.h:425-461 | After tidying every choice point can still get back its memory |
| Trails.UnwoundSnaps | src/trail.h:407-419 | After unwinding to one choice point every older one still can |
| TrailedHeap.Thread.BindVarVar | src/bind.h:45-68 | Binds the younger variable when that saves an entry; exact new memory and trail |
| TrailedHeap.Thread.BindAndTrail | src/bind.h:70-86 | Exact new memory; trailed exactly when older than the saved top |
| TrailedHeap.Thread.UpdateAndTrail | src/bind.h:88-185 | Exact new memory and trail, in both modes of the check |
| TrailedHeap.Thread.PushPredRef | src/execute.cc:218-221 | A reference is held for each entry on the trail |
| TrailedHeap.Thread.PushChoicePoint | src/thread_qp.h:308-331 | Remembers the memory and the tops |
| TrailedHeap.Thread.Backtrack | src/thread_qp.h:252-262 | Every heap cell below the saved top and every cell outside the heap is what it was when the choice point was made; references taken since are released |
| TrailedHeap.Thread.Trust | src/execute.cc:2111-2122 | The same, and the choice point is gone; exact trails: cut at the saved tops, then tidied to the choice point before; older ones keep what they need |
| TrailedHeap.Thread.TrustDatabase | src/thread_qp.h:461-472 | The same without tidying: both trails are the old ones cut at the saved tops |
| TrailedHeap.Thread.TidyTrails | src/thread_qp.h:293-303 | Exact new trails; a reference dropped from the trail is released, once |
| TrailedHeap.Thread.Cut | src/execute.cc:2178-2207 | Younger choice points go; the remaining ones keep what they need |
| Environments.NextTopIsFree | src/execute.cc:1496-1505 | The place of a new environment is past every environment in use and every protected one |
| Environments.NextTopIsLeast | src/execute.cc:1496-1505 | It is the first such place |
| Environments.PushedOk | src/environment.h:151-169 | Writing there harms no environment of the current chain or of a choice point |
| Environments.TrimmedOk | src/environment.h:198-207 | Trimming an unprotected environment harms no choice point |
| Environments.Machine.Allocate | src/execute.cc:1485-1509 | The current chain grows by one environment, put at the first free place, with its links and zeroed Y registers, and it is the top one; or the stack is full; every word below the new one, so every header and Y register of the environments in use and kept, is unchanged |
| Environments.Machine.Deallocate | src/execute.cc:1511-1520 | Back to the continuation that was current before |
| Environments.Machine.TrimAtCall | src/execute.cc:1659-1670 | Shortens the current environment exactly when it is the top one and no choice point needs it, and leaves it the top one; exact new words: the remaining Y registers and all other environments are unchanged |
| Environments.Machine.AllocateThenCall | src/execute.cc:1485-1509 | An environment that comes to a call with no choice point since it was allocated is trimmed to the registers the call leaves |
| Environments.Machine.SetY | src/environment.h:228-232 | Changes one word, and no header or Y register of another environment, in use or kept |
| Environments.Machine.PushChoicePoint | src/thread_qp.h:342-362 | Protects the whole current chain, and saves the continuation |
| Environments.Machine.Backtrack | src/thread_qp.h:266-290 | The chain saved by the choice point is current again, every frame with its link, continuation, size and all Y registers not written since; the continuation instruction is the saved one |
| SwitchTables.Stored | src/code_hash.h:75-76 | Storing an entry where its key is found puts it in front of the entries stored before |
| SwitchTables.Search | src/code_hash.h:106-136 | Ends at the key or at an empty slot and never goes round |
| SwitchTables.LookUp | src/code_hash.h:82-88 | Jumps to the label of the first listed entry with the key, or to the default |
| SwitchTables.TakeOut | src/code.cc:401-418 | The listed entries are taken out in order and the table holds only defaults |
| SwitchTables.EveryListFits | src/code.cc:385-430 | Every list of keyed entries that leaves a slot for the default can be such a table |
| SwitchTables.ResolveSwitch | src/code.cc:385-430 | Linking in place keeps the meaning of the table; an entry past the end is read and written exactly when every slot but the default's is listed |
| EncodeMap.FlatAt | src/encode.h:103-103 | Entry j of page i has place 256 i + j |
| EncodeMap.Table.Add | src/encode.h:81-98 | Appends, starting a page when the last is full; refuses entry 65537 |
| EncodeMap.Table.LookUp | src/encode.h:105-128 | The place of an entry, or none if and only if it is absent |
| TermEncoding.NumberRead | src/encode.cc:191-215 | Four bytes carry an integer modulo 2^32 |
| TermEncoding.IntegerBytes | src/encode.cc:191-215 | The bytes of an integer of 32 bits |
| TermEncoding.WideBytes | src/encode.cc:359-378 | The bytes of a longer integer |
| TermEncoding.ReferenceBytes | src/encode.cc:247-262 | The bytes of a variable or atom that has been sent before |
| TermEncoding.NewBytesAre | src/encode.cc:264-280 | The bytes of a new variable or atom |
| TermEncoding.CompoundBytes | src/encode.cc:320-434 | The bytes of lists, structures, quantified terms and substitutions, around those of their parts |
| TermEncoding.FirstByteIs | src/encode.h:61-76 | The first byte of each kind of term |
| TermEncoding.IntSurvives | src/encode.cc:359-378 | A 64-bit integer survives if and only if it is not a negative 32-bit integer |
| TermEncoding.EncGrown | src/encode.cc:231-434 | Sending only appends to the table, without repeats, and gives every variable and atom a place |
| TermEncoding.RenMore | src/encode.cc:627-712 | What has been received is not changed by what is received later |
| TermEncoding.RenInjective | src/encode.cc:627-712 | Different variables arrive as different ones, equal ones as equal, atoms as themselves |
| TermEncoding.RoundTrip | src/encode.cc:231-851 | Naming the received variables back gives the term that was sent if and only if it has no negative integer of 32 bits and no $int64 pair |
| TermEncoding.SendableTerms | src/encode.cc:575-851 | Which terms can be received |
| TermEncoding.PairReceived | src/encode.cc:738-757 | What is received for an $int64 pair |
| TermEncoding.Int64Taken | src/encode.cc:363-374 | A structure $int64 of two 32-bit integers has the bytes of a 64-bit integer if and only if that is the one they are joined to and it does not fit in 32 bits |
| TermEncoding.FrontIsBlocks | src/encode.cc:149-182 | Writing the tail of a substitution first is sending the last block first |
| TermCodec.TermWriter.EncodeWriteTerm | src/encode.cc:231-434 | Writes the bytes of the term and extends the table; refuses exactly when the table would overflow or a name that has to be sent is longer than 255 bytes |
| TermCodec.TermReader.EncodeReadTerm | src/encode.cc:575-851 | On the bytes of a term and anything after them that cannot be mistaken for a name of its last variable: reads exactly those, returns the term with own variables, an integer for an $int64 pair, and leaves the tables in lockstep |
| TermCodec.TermReader.ReadHalves | src/encode.cc:738-757 | Two integers after $int64 are joined to one, the second without sign; reads exactly their bytes |
| TermCodec.TermReader.EncodeReadSub | src/encode.cc:536-572 | Receives the blocks of a substitution in their order |
| TermCodec.SendAndReceive | src/encode.cc:231-851 | Round trip: the received term is the sent one up to an injective renaming of variables, which leads back to the sent term if and only if that has no negative integer of 32 bits and no $int64 pair |

## Left out

- Garbage collection: the order in which registers, names, environments and trails are visited is not modelled, except that of the trail entries; entries for predicate references and cleanups have no words in the heap.
- Marking.GcMarkPointer: the stack has no capacity limit here; the word that numbers an extended variable is visited like an address, as in the code, and left alone by compaction.
- Collector.Collect: `memcpy` on overlapping memory is taken as copying upwards; the bit array must have room for the sentinel word; a saved top is the address of an object or the top. Without `TrailSafe` nothing is said; `Collector.SweepableExactly` says when it holds.
- DynamicHashTable: masking is remainder by a power of two; removal is not used by the clause table and not modelled.
- DynamicPredicate: addresses are not reused, stamps stay below 2^32 - 1, and a call's stamp is the predicate's stamp when it begins; assert and retract stamps for `predicate_stamp`, and clause code, are left out. A reference given to retract must be to a link cell that exists. A stamp given for a call is not in the future, and the next clause is looked for when the call begins or goes on, as for calls by the machine; `psi_get_next_clause`, which looks later, is not modelled.
- ClauseKeys.MakeEntry: doubles and strings, and the distinction of short and long integers, are left out; the address of a substitution is a parameter.
- Dereference.SubstitutionDereference: reference chains are followed already; whether two equal terms are one heap object is a parameter, for each comparison. The domains of a block are all local or all ordinary, as src/objects.h:1744-1748 says of blocks.
- EqualEqual.Thread.EqualEqual: a variable left under a substitution ends in Unknown. The program goes on with `dropSubFromTerm`, binding and `setDistinct` there, which run the delayed problems of other predicates, or answers false when the tags differ. Binder lists with an unbound tail, doubles, strings and overridden equality are left out.
- Trails: cleanup entries, X registers, counters and status of a choice point are left out; trails do not overflow.
- Environments: sizes are in words; the Y registers that a failed branch wrote keep what it wrote, as they do in the program unless they are trailed.
- SwitchTables: constants and structures are alike keys with a hash value; byte layout and relocation are left out.
- TermCodec: remembering of variable names, doubles, strings, stream errors, and the check of binder lists on receipt are left out; the tag byte of a substitution block is 191. What is written before the sender refuses is not described.
- TermCodec.TermReader.EncodeReadTerm: not for structures `$int64` of two arguments that are not both integers of 32 bits; the program asserts there that the next byte is that of an integer. A byte 12 right after a new variable without a name is read as the start of its name.
- Unification, freeness, delayed problems, copying of terms, saving of code, streams and the instruction loop are not modelled.
