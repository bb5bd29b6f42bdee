# Sisyphus kernel: verified models of the bounded state machines

Dafny models of the self-contained state machines and integer algorithms of the Sisyphus kernel, with
proofs of what they promise over every input, every run or every interleaving. Check the whole project
with `dafny verify dfyconfig.toml`.

What is modelled:

- **Axiom manifold** (`AxiomTypes`, `AxiomSpec`, `AxiomManifold`, `AxiomHistory`, `AxiomOrder`,
  `AxiomCausality`, `AxiomMeaning`, `KernelAxiom`). The optimistic transaction engine as pure atomic transitions
  (`AxiomSpec`), the in-place implementation with its undo log and incremental root proved to perform
  exactly those transitions (`AxiomManifold`), and theorems over whole runs: serialisability, chained
  certificates, dependency order, exact causality, and the kernel policy's conservation of credits.
- **Lock-free protocols** (`BoundedMpmc`, `PolicyConstellation`). Sequentially consistent step systems
  over any number of threads.
- **Exact algebra and combinatorics** (`CyclotomicNtt`, `BipartiteMatching`, `BirkhoffVn`,
  `ClusterQuiver`, `CechH1`, `FabricWeave`), each loop against a short mathematical definition.
- **Allocators and authority** (`FrameAllocator`, `LeaseLattice`, `DmaFirewall`).
- **Fast form against simple form** (`Sha256`, `Oureboros`, `HolographicTree`).

`Arithmetic`, `ModularSums` and `FiniteSums` hold shared facts about quotients, residues and sums.

How the source is read:

- Const generics are parameters; a locked section is one atomic step. Where a call drops the lock around
  a backend call (commit and revoke of the firewall), the two sections are two methods and a ghost set
  records the calls in flight, so any interleaving of sections is any sequence of calls.
- Words that are only xored, masked or counted (state roots, witness masks, rights, bitmap words, GF(2)
  rows) are the sets of their one bits. Other machine integers are unbounded with their saturation, wrap
  or overflow check written out.
- Tag functions, the SHA-256 compression function, the shift-register generator and the digests of state
  roots are parameters of which nothing is assumed. The digests of the hash tree are parameters too, with
  what is assumed of them stated, and their 64-bit mixer is the instance that meets it.
- Clocks, backend answers and stored secrets are parameters; capability arguments carry no behaviour.

Results that differ from what the documentation suggests:

- `BoundedMpmc`: one slot breaks the capacity bound and the delivery, although initialisation accepts it
  (`OneSlotOverruns`, `OneSlotMisdelivers`, `TwoSlotsExactly`), and `Empty` is not a statement about the
  abstract queue (`EmptyBehindSlowProducer`).
- `BirkhoffVn`: `decompose` refuses doubly stochastic matrices whose entries of at most EPS weigh more than
  EPS per row together (`LightMassRefused`; `RefuseFine` is an input). It accepts every one whose entries
  lie on a grid coarser than EPS (`Decompose`, `GridExact`).
- `FabricWeave`: an edge from an id that is not in the event map makes the sort report a cycle
  (`ReportCycleWithoutOne`); the exact condition is in `TopologicalSort`. `add_edge` accepts such an id, and
  `weave` returns one it did not store when the map is full.
- `ClusterQuiver`: a mutation that runs out of table room can leave a 2-cycle (`LeaveTwoCycle`). `Mutate`
  says, from the table before the call, exactly when it runs out and exactly when a 2-cycle is left.
- `HolographicTree`: a proof binds a value only together with its siblings. For fixed siblings one value
  verifies, but every value has verifying siblings of every depth above zero (`MixerDecides`).

## Model

| member | source | states |
|---|---|---|
| `AxiomTypes.PushRead` | kernel/boulder/src/axiom_manifold.rs:212-226 | a read is accepted exactly when there is room and no read of that cell, and the draft stays well formed; otherwise the error says which |
| `AxiomTypes.PushWrite` | kernel/boulder/src/axiom_manifold.rs:228-242 | the same for writes: at most one write per cell |
| `AxiomTypes.PushDependency` | kernel/boulder/src/axiom_manifold.rs:244-255 | the same for dependencies, never repeated |
| `AxiomTypes.RootUpdate` | kernel/boulder/src/axiom_manifold.rs:532-539 | xoring out the old and in the new fingerprint of one cell turns the xor of all fingerprints into that of the new table |
| `AxiomTypes.ProjectionMeaning` | kernel/boulder/src/axiom_manifold.rs:1001-1020 | what each kind of mutation leaves: the operand, the clamped signed sum, each bit of an xor or of a masked replacement, the lower or the higher of two values; a compare-exchange alone can fail, exactly when the value is not the expected one |
| `AxiomTypes.ReadMeaning` | kernel/boulder/src/axiom_manifold.rs:989-999 | a read constraint holds exactly when the present bit is set, the version is the expected one and the value agrees at every bit of the mask |
| `AxiomTypes.BitwiseAt` | kernel/boulder/src/axiom_manifold.rs:1012-1017 | bit by bit, the word operations are the operations on bits |
| `AxiomSpec.SelectedUnique` | kernel/boulder/src/axiom_manifold.rs:920-987 | the ordering rule of candidate selection leaves no choice: at most one slot satisfies it |
| `AxiomSpec.FirstFree` | kernel/boulder/src/axiom_manifold.rs:575-580 | the slot taken is the first free one, or there is none |
| `AxiomSpec.FirstDoomed` | kernel/boulder/src/axiom_manifold.rs:879-918 | the slot terminated is the first prepared one past its deadline or with a lost dependency |
| `AxiomManifold.MergeClocks` | kernel/boulder/src/axiom_manifold.rs:279-285 | the lane-wise maximum |
| `AxiomManifold.ClockHappensBefore` | kernel/boulder/src/axiom_manifold.rs:295-306 | true exactly when no lane is larger and some lane is smaller |
| `AxiomManifold.CheckAndProject` | kernel/boulder/src/axiom_manifold.rs:675-695 | authorisation and projection of all writes against one unchanged state, first failure reported |
| `AxiomManifold.ApplyAndLog` | kernel/boulder/src/axiom_manifold.rs:697-717 | the in-place loop applies the writes as a sequence of single mutations, keeps the root equal to the xor of all fingerprints and logs an exact undo |
| `AxiomManifold.Rollback` | kernel/boulder/src/axiom_manifold.rs:1022-1028 | undoing restores every cell exactly |
| `AxiomManifold.ReadsMatch` | kernel/boulder/src/axiom_manifold.rs:989-999 | true exactly when every read constraint holds of the cells |
| `AxiomManifold.FindFree` | kernel/boulder/src/axiom_manifold.rs:575-580 | the in-place scan finds the specified free slot |
| `AxiomManifold.FindDoomed` | kernel/boulder/src/axiom_manifold.rs:879-918 | the in-place scan finds the specified doomed slot |
| `AxiomManifold.SelectCandidate` | kernel/boulder/src/axiom_manifold.rs:920-959 | returns a slot exactly when one is eligible, and then the unique one that no eligible slot precedes |
| `AxiomManifold.Manifold.constructor` | kernel/boulder/src/axiom_manifold.rs:510-515 | the empty manifold, with the root of its cells |
| `AxiomManifold.Manifold.SeedCell` | kernel/boulder/src/axiom_manifold.rs:517-541 | performs the specified seeding, refuses it once anything was submitted, keeps root and shape |
| `AxiomManifold.Manifold.Submit` | kernel/boulder/src/axiom_manifold.rs:543-615 | performs the specified submission with every error in the order of the checks; nothing changes on an error |
| `AxiomManifold.Manifold.Attest` | kernel/boulder/src/axiom_manifold.rs:617-631 | adds the witness and says whether it is new; errors change nothing |
| `AxiomManifold.Manifold.Drive` | kernel/boulder/src/axiom_manifold.rs:633-750 | two-phase write, validation, undo and commit together perform the atomic specified transition, and the incremental root is the root of the cells |
| `AxiomManifold.Manifold.AttemptAt` | kernel/boulder/src/axiom_manifold.rs:655-749 | the fate of the selected transaction: conflict, denial, rollback or commit exactly as specified |
| `AxiomManifold.Manifold.Reap` | kernel/boulder/src/axiom_manifold.rs:752-774 | frees a finished slot under a new generation, never one a prepared draft depends on |
| `AxiomHistory.DriveCases` | kernel/boulder/src/axiom_manifold.rs:633-750 | a drive does nothing, or rejects one prepared slot, or commits the selected slot with reads holding, writes allowed and the result valid |
| `AxiomHistory.RejectionChangesNoCell` | kernel/boulder/src/axiom_manifold.rs:633-750 | a drive that does not commit changes no cell, root, epoch or frontier |
| `AxiomHistory.Serializable` | kernel/boulder/src/axiom_manifold.rs:633-750 | in every reachable state the cells are the serial replay of the committed drafts in epoch order from the seeded cells, and each commit's reads, authorisation, validity, roots and quorum hold at its point |
| `AxiomHistory.CertificatesChain` | kernel/boulder/src/axiom_manifold.rs:730-749 | over every run consecutive certificates chain from the root of the seeded cells to the current root |
| `AxiomMeaning.CommitWrites` | kernel/boulder/src/axiom_manifold.rs:697-770 | a commit leaves the projected value under the next version in every cell its draft names and changes no other cell |
| `AxiomMeaning.CommitMeaning` | kernel/boulder/src/axiom_manifold.rs:633-820 | a committing transaction met its quorum before its deadline, after everything it depends on, with its reads still holding, and the certificate carries its identity, kind, stamp, witnesses and epoch |
| `AxiomMeaning.PickMeaning` | kernel/boulder/src/axiom_manifold.rs:920-987 | against every other transaction ready to go it had the sooner deadline, or the higher priority at the same deadline, or came first at the same priority |
| `AxiomMeaning.RejectMeaning` | kernel/boulder/src/axiom_manifold.rs:655-760 | every reason for a rejection is true: the deadline passed, a dependency was lost, a read or a compare-exchange failed, the policy denied a write or the result; expired for the deadline, aborted otherwise |
| `AxiomMeaning.ReadOnlyNeverMoves` | kernel/boulder/src/axiom_manifold.rs:20-32 | over every run a read-only or absent cell keeps value, version, class and flags until it is seeded |
| `AxiomMeaning.ReapedStaysGone` | kernel/boulder/src/axiom_manifold.rs:752-774 | over every run the identifier of a reaped transaction names nothing until its slot has been freed 65535 times |
| `AxiomMeaning.SeedMeaning` | kernel/boulder/src/axiom_manifold.rs:517-540 | a seeded cell is at version one, with the present bit set and every other flag as given |
| `AxiomOrder.StepKeepsShape` | kernel/boulder/src/axiom_manifold.rs:633-774 | every operation keeps the tables and drafts well formed |
| `AxiomOrder.DependencyOrder` | kernel/boulder/src/axiom_manifold.rs:752-774 | over every run dependencies of prepared transactions never dangle, a commit comes after the commits of its dependencies, and nothing commits twice |
| `AxiomOrder.LostOnlyByRejection` | kernel/boulder/src/axiom_manifold.rs:879-918 | in reachable states a dependency counts as lost exactly when it was aborted or expired: the generation and vacancy tests never fire |
| `AxiomOrder.DependenciesCommitted` | kernel/boulder/src/axiom_manifold.rs:920-959 | when a transaction is eligible all its dependencies are in the commit list |
| `AxiomCausality.HappensBeforeIsReaches` | kernel/boulder/src/axiom_manifold.rs:295-306 | on vectors built by submission, happens-before is causal reachability, both directions |
| `AxiomCausality.RunIsCausal` | kernel/boulder/src/axiom_manifold.rs:584-613 | every run of at most 2^64-1 operations keeps every vector equal to the count of what it reaches per origin |
| `AxiomCausality.CausalityExact` | kernel/boulder/src/axiom_manifold.rs:584-613 | over all submissions of every such run, vector happens-before holds exactly when one reaches the other through same-origin order and dependency edges |
| `KernelAxiom.SeedKernelAxioms` | kernel/boulder/src/lib.rs:127-144 | seeds the five kernel cells exactly when nothing was submitted yet, else SeedClosed and no change |
| `KernelAxiom.AllowedWritesAuthorised` | kernel/boulder/src/lib.rs:173-226 | every write of an allowed draft was authorised against its cell and has a projected value |
| `KernelAxiom.AuthorizeExactly` | kernel/boulder/src/lib.rs:173-226 | a write is allowed exactly when its kind is the class of the cell and its mutation is one that class takes |
| `KernelAxiom.ValidateExactly` | kernel/boulder/src/lib.rs:228-270 | a state is valid exactly when the two credit cells sum to 1,000,000 with neither above 875,000, the thermal cell lies between 20 and 95 degrees and the reserve is at most 262,144; the faults in their order |
| `KernelAxiom.CreditsConserved` | kernel/boulder/src/lib.rs:228-270 | over every run under the kernel policy in which no kernel cell is seeded anew, the two NUMA cells sum to 1,000,000, every cell stays in its envelope and the read-only epoch floor never moves; refused seeds and seeds of other cells are allowed |
| `KernelAxiom.TransferExact` | kernel/boulder/src/lib.rs:301-352 | a staged transfer passes the policy exactly when the donor has the credits and the receiver stays under its cap, and then moves exactly that amount; saturation never mints credits |
| `KernelAxiom.TransferReads` | kernel/boulder/src/lib.rs:325-343 | its reads hold exactly when both credit cells are present at the versions it was staged against |
| `KernelAxiom.ThermalExact` | kernel/boulder/src/lib.rs:347-371 | a reconciliation passes exactly when the thermal cell holds the value it was staged against and the new value lies in the envelope; it then puts the new value there and moves no other cell |
| `KernelAxiom.StageNumaRebalance` | kernel/boulder/src/lib.rs:301-377 | submits the transfer and the dependent reconciliation; draft building never fails; a failed second submission leaves the first in place |
| `KernelAxiom.DriveProgress` | kernel/boulder/src/lib.rs:443-467 | every rejection or commit takes exactly one transaction out of the prepared ones |
| `KernelAxiom.DrainReactor` | kernel/boulder/src/lib.rs:443-467 | a sequence of drives under the kernel policy leads from the state before to the state after, what is published is exactly the certificates of those that committed, in order, at most the maximum; it stops short only when nothing can move, and keeps the kernel's promise about its cells |
| `KernelAxiom.RunConserves` | kernel/boulder/src/lib.rs:443-467 | any sequence of such drives keeps that promise |
| `CyclotomicNtt.MulMod` | kernel/boulder/src/cyclotomic_ntt.rs:24-27 | product modulo 193 |
| `CyclotomicNtt.AddMod` | kernel/boulder/src/cyclotomic_ntt.rs:29-33 | sum modulo 193, reduced for reduced arguments |
| `CyclotomicNtt.SubMod` | kernel/boulder/src/cyclotomic_ntt.rs:35-37 | difference modulo 193, reduced for reduced arguments |
| `CyclotomicNtt.PowMod` | kernel/boulder/src/cyclotomic_ntt.rs:39-51 | square-and-multiply computes the power modulo 193, for every exponent |
| `CyclotomicNtt.BitRev6` | kernel/boulder/src/cyclotomic_ntt.rs:53-62 | the six-bit reversal |
| `CyclotomicNtt.RevInvolution` | kernel/boulder/src/cyclotomic_ntt.rs:53-62 | reversing bits twice is the identity |
| `CyclotomicNtt.BitReverse` | kernel/boulder/src/cyclotomic_ntt.rs:64-74 | the in-place swap loop permutes the array by bit reversal |
| `CyclotomicNtt.Block` | kernel/boulder/src/cyclotomic_ntt.rs:88-99 | the inner loop turns one block into its butterflies and touches nothing else |
| `CyclotomicNtt.Stage` | kernel/boulder/src/cyclotomic_ntt.rs:80-102 | one stage turns every block into its butterflies |
| `CyclotomicNtt.Ntt` | kernel/boulder/src/cyclotomic_ntt.rs:76-106 | the in-place transform computes the 64-point sum of a_j times 125^(jk) modulo 193, and the scaled inverse sum when inverting |
| `CyclotomicNtt.OrderExact` | kernel/boulder/src/cyclotomic_ntt.rs:5-15 | 125 has multiplicative order exactly 64 modulo 193 |
| `CyclotomicNtt.Orthogonality` | kernel/boulder/src/cyclotomic_ntt.rs:76-106 | the powers of the root sum to 64 on the diagonal and to 0 elsewhere |
| `CyclotomicNtt.InverseTransform` | kernel/boulder/src/cyclotomic_ntt.rs:76-106 | the inverse sum of the transform is the original value modulo 193 |
| `CyclotomicNtt.RoundTrip` | kernel/boulder/src/cyclotomic_ntt.rs:76-106 | forward then inverse restores every array of entries below 193 |
| `CyclotomicNtt.ConvolutionTheorem` | kernel/boulder/src/cyclotomic_ntt.rs:108-121 | the inverse transform of the pointwise product is the circular convolution sum |
| `CyclotomicNtt.Conv` | kernel/boulder/src/cyclotomic_ntt.rs:108-121 | equals the naive circular convolution modulo 193 |
| `CyclotomicNtt.FairKernel` | kernel/boulder/src/cyclotomic_ntt.rs:125-135 | seven taps 4, 2, 1, 1 mirrored around class 0, zero elsewhere |
| `CyclotomicNtt.CyclotomicFairQ.constructor` | kernel/boulder/src/cyclotomic_ntt.rs:154-163 | the queue with clamped class count and the transform of the fair kernel |
| `CyclotomicNtt.CyclotomicFairQ.Charge` | kernel/boulder/src/cyclotomic_ntt.rs:165-168 | adds to one class modulo 193 |
| `CyclotomicNtt.CyclotomicFairQ.Credit` | kernel/boulder/src/cyclotomic_ntt.rs:170-173 | subtracts from one class modulo 193 |
| `CyclotomicNtt.CyclotomicFairQ.Smooth` | kernel/boulder/src/cyclotomic_ntt.rs:175-186 | the deficits convolved with the kernel whose transform is stored |
| `CyclotomicNtt.CyclotomicFairQ.Pick` | kernel/boulder/src/cyclotomic_ntt.rs:188-202 | the first active class whose smoothed deficit is largest |
| `CyclotomicNtt.CyclotomicFairQ.Quantum` | kernel/boulder/src/cyclotomic_ntt.rs:204-210 | credits the picked class and counts the pick |
| `BoundedMpmc.StepKeeps` | core/aether/src/lockfree.rs:97-182 | every atomic step of any producer or consumer keeps the slot protocol invariant |
| `BoundedMpmc.RunInvariant` | core/aether/src/lockfree.rs:61-182 | the invariant holds in every state of every interleaving, from initialisation on, for two or more slots |
| `BoundedMpmc.RefinesFifo` | core/aether/src/lockfree.rs:97-182 | each step is a step of an atomic FIFO of capacity N: enqueue at the tail, dequeue of the head, or nothing |
| `BoundedMpmc.PopReturnsItsItem` | core/aether/src/lockfree.rs:141-182 | the pop that claimed position k reads and returns exactly what was pushed at k |
| `BoundedMpmc.SlotHasOneOwner` | core/aether/src/lockfree.rs:97-182 | two threads between claim and publish never own the same slot |
| `BoundedMpmc.ExactlyOnce` | core/aether/src/lockfree.rs:141-182 | over a whole run every completed pop delivered one position, none twice, each with its pushed item |
| `BoundedMpmc.Quiescent` | core/aether/src/lockfree.rs:97-182 | with nobody inside an operation, delivered means taken and the rest is published in its slot |
| `BoundedMpmc.FullExactly` | core/aether/src/lockfree.rs:97-139 | push answers Full exactly when it saw the current tail and the position N back is not released |
| `BoundedMpmc.EmptyExactly` | core/aether/src/lockfree.rs:141-182 | pop answers Empty exactly when it saw the current head and the head is not published |
| `BoundedMpmc.EmptyBehindSlowProducer` | core/aether/src/lockfree.rs:141-182 | Empty can be answered while a completed push waits behind a claimed unpublished one |
| `BoundedMpmc.OneSlotOverruns` | core/aether/src/lockfree.rs:61-91 | with one slot a second push overwrites an item nobody took |
| `BoundedMpmc.OneSlotMisdelivers` | core/aether/src/lockfree.rs:61-182 | with one slot a pop that claimed the first item can return the second |
| `BoundedMpmc.TwoSlotsExactly` | core/aether/src/lockfree.rs:61-182 | the capacity bound, and likewise the delivery of each pushed item to the pop of its position, hold of all reachable states exactly when there are at least two slots |
| `BipartiteMatching.Dfs` | kernel/boulder/src/birkhoff_vn.rs:119-138 | one augmenting search: on success the row joins the matching and nobody leaves it; on failure nothing moves and the seen columns are closed |
| `BipartiteMatching.FindPerm` | kernel/boulder/src/birkhoff_vn.rs:115-152 | returns a permutation wholly on entries above EPS, or none exists |
| `BipartiteMatching.HallViolator` | kernel/boulder/src/birkhoff_vn.rs:140-145 | a failed search leaves rows whose supported columns are one fewer than the rows |
| `BipartiteMatching.ViolatorBlocks` | kernel/boulder/src/birkhoff_vn.rs:115-152 | such rows rule out every permutation on the support |
| `BirkhoffVn.ValidateDoublyStochastic` | kernel/boulder/src/birkhoff_vn.rs:93-112 | accepts exactly the matrices whose first n row and column sums are within 32 of one |
| `BirkhoffVn.Decompose` | kernel/boulder/src/birkhoff_vn.rs:154-195 | exact cases of the two validation errors, and Capacity never; on success the terms are greedy steps leaving at most 8n mass; success on every grid input; NoPermutation whenever the entries of at most 8 weigh more than 8n together; a NoPermutation always comes with its stuck residual |
| `BirkhoffVn.PeelAll` | kernel/boulder/src/birkhoff_vn.rs:158-194 | the main loop on a validated matrix: a complete greedy decomposition, or a stuck residual, and never the latter on a grid input |
| `BirkhoffVn.PlaceTerm` | kernel/boulder/src/birkhoff_vn.rs:170-184 | one round: the permutation, its least entry as weight, and the subtraction in place make one greedy step |
| `BirkhoffVn.DecompositionExact` | kernel/boulder/src/birkhoff_vn.rs:154-195 | every entry is the weighted sum of the emitted permutations plus a non-negative residual |
| `BirkhoffVn.TermsAreFew` | kernel/boulder/src/birkhoff_vn.rs:158-193 | each term clears an entry, except at most one of full weight, so the term table cannot overflow |
| `BirkhoffVn.AllPlaced` | kernel/boulder/src/birkhoff_vn.rs:158-194 | leaving the loop by its guard means nothing is left over |
| `BirkhoffVn.TotalBounds` | kernel/boulder/src/birkhoff_vn.rs:154-195 | the weights sum to one within 40 below and 32 above |
| `BirkhoffVn.GridExact` | kernel/boulder/src/birkhoff_vn.rs:1-14 | Birkhoff's theorem for exact inputs on a grid coarser than EPS: the weights sum to one and nothing is left |
| `BirkhoffVn.NeverStuckOnGrid` | kernel/boulder/src/birkhoff_vn.rs:154-195 | such inputs never meet NoPermutation while mass remains |
| `BirkhoffVn.LightMassLeft` | kernel/boulder/src/birkhoff_vn.rs:162-190 | whatever greedy steps are taken, every entry of at most EPS is left over |
| `BirkhoffVn.LightMassRefused` | kernel/boulder/src/birkhoff_vn.rs:162-190 | no decomposition of any input completes when those entries weigh more than EPS per row |
| `BirkhoffVn.FineIsStochastic` | kernel/boulder/src/birkhoff_vn.rs:93-112 | a 3 by 3 input with every row and column sum exactly one, whose entries of EPS weigh too much |
| `BirkhoffVn.RefuseFine` | kernel/boulder/src/birkhoff_vn.rs:154-195 | the decomposition of that input ends in NoPermutation although it is doubly stochastic |
| `BirkhoffVn.SelectSlot` | kernel/boulder/src/birkhoff_vn.rs:198-212 | the permutation whose stretch of weights holds the phase; the last one beyond the total; saturation never matters |
| `BirkhoffVn.SlotShares` | kernel/boulder/src/birkhoff_vn.rs:197-212 | over a full cycle row i gets column j for a number of phases between m[i][j] - 8n - 32 and m[i][j] + 40 |
| `BirkhoffVn.GridServedExactly` | kernel/boulder/src/birkhoff_vn.rs:197-212 | on grid inputs the schedule gives exactly m[i][j] phases |
| `ClusterQuiver.ResourceQuiver.constructor` | kernel/boulder/src/cluster_quiver.rs:66-77 | an empty quiver of at most 16 nodes with unit values |
| `ClusterQuiver.ResourceQuiver.AddArrowRaw` | kernel/boulder/src/cluster_quiver.rs:118-150 | adds the clamped multiplicity to that pair and no other, keeps the table free of loops and parallels, takes one entry exactly for a new pair; fails exactly for a new pair when all 64 entries are live |
| `ClusterQuiver.ResourceQuiver.CancelTwoCycles` | kernel/boulder/src/cluster_quiver.rs:152-177 | removes every 2-cycle and keeps the signed matrix; changes nothing where there is none |
| `ClusterQuiver.ResourceQuiver.AddArrow` | kernel/boulder/src/cluster_quiver.rs:106-116 | exact error cases, Dim exactly for a new pair in a full table; on success no loops, parallels or 2-cycles and the matrix changes at that pair only |
| `ClusterQuiver.ResourceQuiver.ProductAt` | kernel/boulder/src/cluster_quiver.rs:179-219 | the clamped fixed-point product of the neighbours, or overflow exactly when a product leaves 64 bits |
| `ClusterQuiver.ProductSingle` | kernel/boulder/src/cluster_quiver.rs:179-219 | a single arrow gives the value at its far end, whatever arrows there are elsewhere |
| `ClusterQuiver.ScaledExact` | kernel/boulder/src/cluster_quiver.rs:186-196 | by a whole number of units a multiplicity multiplies that often, exactly |
| `ClusterQuiver.ExchangeRelation` | kernel/boulder/src/cluster_quiver.rs:221-240 | old value times new value is the sum of both products, up to the rounding of one division, unless clamped |
| `ClusterQuiver.ResourceQuiver.Mutate` | kernel/boulder/src/cluster_quiver.rs:221-279 | every fault from the table and values before the call: Dim exactly when the pairs to join outnumber the free entries; then the pairs joined are the first that fit, and a 2-cycle remains exactly when one of them runs against an arrow that was there; on success no 2-cycles, every matrix entry is the clamped rule, and it is the Fomin-Zelevinsky mutation exactly when nothing clamps |
| `ClusterQuiver.NewPairsExactly` | kernel/boulder/src/cluster_quiver.rs:240-261 | the pairs to join are the ends of two-step paths through the node that are apart and not joined yet |
| `ClusterQuiver.RuleExactly` | kernel/boulder/src/cluster_quiver.rs:252-279 | an entry of the clamped rule is the Fomin-Zelevinsky entry exactly when its sum fits |
| `ClusterQuiver.MutatesExactly` | kernel/boulder/src/cluster_quiver.rs:221-279 | the whole mutation is the Fomin-Zelevinsky mutation exactly when every sum fits |
| `ClusterQuiver.ResourceQuiver.Reattach` | kernel/boulder/src/cluster_quiver.rs:267-274 | putting the reversed arrows back never runs out of room |
| `ClusterQuiver.MutationInvolution` | kernel/boulder/src/cluster_quiver.rs:221-279 | the rule applied twice at one node is the identity |
| `ClusterQuiver.TidyDetermined` | kernel/boulder/src/cluster_quiver.rs:152-177 | without 2-cycles the table is the positive part of its matrix |
| `ClusterQuiver.FitsAgain` | kernel/boulder/src/cluster_quiver.rs:221-279 | a mutation that did not clamp can be undone without clamping |
| `ClusterQuiver.TwiceExactly` | kernel/boulder/src/cluster_quiver.rs:221-279 | two mutations at one node give back every arrow multiplicity exactly when the first clamps no arrow that was there |
| `ClusterQuiver.MutateTwice` | kernel/boulder/src/cluster_quiver.rs:221-279 | the same of the in-place code |
| `ClusterQuiver.TwoCycleExactly` | kernel/boulder/src/cluster_quiver.rs:252-261 | after running out of room a 2-cycle remains exactly when one of the pairs that found room runs against an arrow that was there before |
| `ClusterQuiver.LeaveTwoCycle` | kernel/boulder/src/cluster_quiver.rs:106-279 | 63 arrows added one by one to a new quiver, on which the mutation of node 0 returns Dim and leaves a 2-cycle |
| `ClusterQuiver.NoTriangleNoTwoCycle` | kernel/boulder/src/cluster_quiver.rs:252-261 | no such 2-cycle where no arrow closes a triangle through the node |
| `LeaseLattice.QuotaConserved` | kernel/boulder/src/lease_lattice.rs:205-310 | all admissions ever granted through a lease and everything delegated below it stay within its quota |
| `LeaseLattice.Lattice.constructor` | kernel/boulder/src/lease_lattice.rs:151-156 | an empty lattice with an empty history |
| `LeaseLattice.TokenExactly` | kernel/boulder/src/lease_lattice.rs:361-382 | a token is found exactly when it is, in slot, generation and tag, the one some standing lease was issued under; Forged exactly when only the tag differs |
| `LeaseLattice.RevokedStaysOut` | kernel/boulder/src/lease_lattice.rs:312-330 | over every run a revoked token is never found again until a generation wraps, however often its slot is given away |
| `LeaseLattice.NextKeeps` | kernel/boulder/src/lease_lattice.rs:158-330 | every operation keeps the invariant, and every lease its parent, quota and token |
| `LeaseLattice.CountersCycle` | kernel/boulder/src/lease_lattice.rs:158-205 | generations and nonces run through all their non-zero values before one comes back |
| `LeaseLattice.WalkReachesRoot` | kernel/boulder/src/lease_lattice.rs:384-413 | a walk that succeeds passes as many ancestors as the depth and ends at a root |
| `LeaseLattice.Lattice.IssueRoot` | kernel/boulder/src/lease_lattice.rs:158-203 | exact error order; on success the first inactive slot holds the new root under the next generation |
| `LeaseLattice.Lattice.Attenuate` | kernel/boulder/src/lease_lattice.rs:205-278 | exact error order; the token is the one the parent lease was issued under; on success the parent may delegate, the child's quota is charged to it, and rights, lifetime and depth are narrowed; before any generation wraps the whole ancestry is upheld and unrevoked |
| `LeaseLattice.Lattice.Admit` | kernel/boulder/src/lease_lattice.rs:280-310 | exact error order; the token is the one the lease it spends was issued under; success, before any generation wraps, implies every ancestor active, in its own window, with the required rights, and unrevoked; the depth error never occurs |
| `LeaseLattice.Lattice.Revoke` | kernel/boulder/src/lease_lattice.rs:312-329 | empties the slot of the lease the token was issued for and advances its generation |
| `LeaseLattice.Lattice.ValidateToken` | kernel/boulder/src/lease_lattice.rs:340-382 | the token and time checks in their order |
| `LeaseLattice.Lattice.ValidateAncestry` | kernel/boulder/src/lease_lattice.rs:384-413 | the loop is the specified walk |
| `LeaseLattice.WalkWithinDepth` | kernel/boulder/src/lease_lattice.rs:398-402 | the depth error of the walk is unreachable |
| `LeaseLattice.WalkSound` | kernel/boulder/src/lease_lattice.rs:384-413 | a successful walk shows every ancestor active, in its window and with at least these rights |
| `LeaseLattice.WalkUnrevoked` | kernel/boulder/src/lease_lattice.rs:384-413 | a successful walk shows every lease this one was ever delegated from still standing |
| `LeaseLattice.RevocationBlocks` | kernel/boulder/src/lease_lattice.rs:312-329 | once any lease above x is revoked, x never stands again in any later history |
| `LeaseLattice.UsesExtend` | kernel/boulder/src/lease_lattice.rs:280-330 | admitting and revoking revive no lease and change no parent, quota or token |
| `LeaseLattice.OperationsExtend` | kernel/boulder/src/lease_lattice.rs:158-278 | nor does issuing |
| `DmaFirewall.Firewall.constructor` | kernel/boulder/src/charybdis_dma_firewall.rs:255-260 | an empty firewall |
| `DmaFirewall.Firewall.InstallAperture` | kernel/boulder/src/charybdis_dma_firewall.rs:262-292 | exact error order; the first free record takes the aperture |
| `DmaFirewall.Firewall.RemoveAperture` | kernel/boulder/src/charybdis_dma_firewall.rs:294-312 | removes the aperture the search finds when it holds no bytes; ApertureBusy exactly when that aperture holds some; NotFound exactly when there is none |
| `DmaFirewall.Firewall.Prepare` | kernel/boulder/src/charybdis_dma_firewall.rs:314-396 | exact error order; the mapping goes to the first empty slot and is charged to the one matching aperture |
| `DmaFirewall.Firewall.Witness` | kernel/boulder/src/charybdis_dma_firewall.rs:398-415 | exact errors; adds one witness to a prepared mapping |
| `DmaFirewall.Firewall.CommitBegin` | kernel/boulder/src/charybdis_dma_firewall.rs:424-443 | first critical section: exact errors, expiry releases the reservation, otherwise the call is in flight with its quorum met |
| `DmaFirewall.Firewall.CommitEnd` | kernel/boulder/src/charybdis_dma_firewall.rs:445-482 | second critical section: the outcome is decided by the backend's answer alone, never by a stale ticket or phase |
| `DmaFirewall.Firewall.RevokeBegin` | kernel/boulder/src/charybdis_dma_firewall.rs:491-505 | first critical section of revoke |
| `DmaFirewall.Firewall.RevokeEnd` | kernel/boulder/src/charybdis_dma_firewall.rs:507-526 | second critical section: released or poisoned by the backend's answer alone |
| `DmaFirewall.Firewall.Discard` | kernel/boulder/src/charybdis_dma_firewall.rs:529-543 | abort of a prepared mapping; the same section with Poisoned acknowledges a poisoned one (562-577) |
| `DmaFirewall.Firewall.ExpireOne` | kernel/boulder/src/charybdis_dma_firewall.rs:545-559 | releases the first prepared mapping whose time has come and returns its ticket, or finds none |
| `DmaFirewall.Firewall.Release` | kernel/boulder/src/charybdis_dma_firewall.rs:706-714 | gives back exactly the bytes the mapping held |
| `DmaFirewall.RelockFinds` | kernel/boulder/src/charybdis_dma_firewall.rs:447-451 | whatever ran in between, the section after the backend call finds its ticket valid and the phase it left |
| `DmaFirewall.ReleaseKeeps` | kernel/boulder/src/charybdis_dma_firewall.rs:706-714 | releasing keeps every aperture's reserved bytes equal to the sum of its mappings |
| `DmaFirewall.PrepareKeeps` | kernel/boulder/src/charybdis_dma_firewall.rs:343-393 | preparing keeps the sums, the limits and the disjointness |
| `DmaFirewall.NoSharedAddress` | kernel/boulder/src/charybdis_dma_firewall.rs:716-725 | in every reachable state no device address is mapped twice for one device of one domain |
| `DmaFirewall.MatchesExactly` | kernel/boulder/src/charybdis_dma_firewall.rs:653-674 | an aperture matches an intent exactly when epoch and domain are equal, the device agrees at every bit of the mask, access and length are within its grant and every byte of both ranges within its own |
| `DmaFirewall.MappingIsAuthorised` | kernel/boulder/src/charybdis_dma_firewall.rs:314-400 | every mapping there is: a sound intent, an occupied aperture that allows it and stays within its limit, and its quorum once past Prepared |
| `DmaFirewall.ApertureExactly` | kernel/boulder/src/charybdis_dma_firewall.rs:615-631 | what makes an aperture valid |
| `DmaFirewall.ApertureIsSound` | kernel/boulder/src/charybdis_dma_firewall.rs:260-292 | every aperture there is is valid, and no two share a name |
| `DmaFirewall.PrepareMeaning` | kernel/boulder/src/charybdis_dma_firewall.rs:314-360 | no capacity, an unsound intent, no aperture that allows it, or more than one: each answered exactly then |
| `DmaFirewall.PrepareWithinMeaning` | kernel/boulder/src/charybdis_dma_firewall.rs:340-395 | with one such aperture: a shared device address, a limit passed or no free slot, each answered exactly then, and otherwise a ticket |
| `DmaFirewall.TicketExactly` | kernel/boulder/src/charybdis_dma_firewall.rs:676-704 | a ticket is found exactly when it is that of the mapping its slot holds now; the three errors otherwise |
| `DmaFirewall.ReleasedStaysStale` | kernel/boulder/src/charybdis_dma_firewall.rs:214-232 | a ticket whose mapping was released is not found again before its slot has been given away 65535 times |
| `CechH1.Gf2Solve` | kernel/boulder/src/cech_h1.rs:185-219 | true exactly when the linear system over GF(2) has a solution |
| `CechH1.RowAddSolutions` | kernel/boulder/src/cech_h1.rs:201-206 | adding the pivot row keeps the solutions |
| `CechH1.ReducedSolves` | kernel/boulder/src/cech_h1.rs:212-218 | a reduced system without contradiction is solved by its right-hand sides |
| `CechH1.CechComplex.constructor` | kernel/boulder/src/cech_h1.rs:52-59 | an empty nerve of at most 16 opens |
| `CechH1.CechComplex.SetSection` | kernel/boulder/src/cech_h1.rs:61-65 | writes one section, ignores an open out of range |
| `CechH1.CechComplex.AddOverlap` | kernel/boulder/src/cech_h1.rs:67-89 | replaces or adds the glue of that pair, keeps every other pair, one edge per pair |
| `CechH1.CechComplex.EdgeGlue` | kernel/boulder/src/cech_h1.rs:91-98 | the glue of an unordered pair, if any |
| `CechH1.CechComplex.IsCocycle` | kernel/boulder/src/cech_h1.rs:101-119 | true exactly when the glue cancels around every filled triangle |
| `CechH1.CechComplex.IsCoboundary` | kernel/boulder/src/cech_h1.rs:140-167 | refused for a non-cocycle; otherwise true exactly when some sections glue to the data on every edge |
| `CechH1.CechComplex.FillFromSections` | kernel/boulder/src/cech_h1.rs:175-181 | the glue becomes the difference of the sections: always a cocycle and a coboundary |
| `CechH1.CoboundaryIsCocycle` | kernel/boulder/src/cech_h1.rs:6-10 | glue that comes from sections closes every triangle |
| `CechH1.PlanesGlue` | kernel/boulder/src/cech_h1.rs:144-166 | solutions of the 64 bit planes assemble into sections |
| `FabricWeave.Fabric.constructor` | kernel/boulder/src/fabric_weave.rs:162-176 | an empty fabric |
| `FabricWeave.Fabric.Weave` | kernel/boulder/src/fabric_weave.rs:179-188 | a fresh identifier; the event is kept while there is room |
| `FabricWeave.Fabric.AddEdge` | kernel/boulder/src/fabric_weave.rs:191-223 | keeps every edge that fits and reports exactly the violations |
| `FabricWeave.Fabric.TopologicalSort` | kernel/boulder/src/fabric_weave.rs:226-297 | Sorted exactly when the live events have no cycle and no edge from a missing event; then a permutation along every edge; always earliest logical time first; the iteration cap never binds |
| `FabricWeave.Fabric.Earliest` | kernel/boulder/src/fabric_weave.rs:252-262 | the first ready event with the least logical time |
| `FabricWeave.Fabric.PastCone` | kernel/boulder/src/fabric_weave.rs:300-320 | holds exactly the events from which the event is reached in 1 to depth steps |
| `FabricWeave.OrderedIsAcyclic` | kernel/boulder/src/fabric_weave.rs:225-297 | a topological order rules out every cycle |
| `FabricWeave.StuckMeansBlocked` | kernel/boulder/src/fabric_weave.rs:284-290 | a sort that stops early, with no edge from a missing event, exhibits a cycle |
| `FabricWeave.ReportCycleWithoutOne` | kernel/boulder/src/fabric_weave.rs:179-297 | one event and an edge to it from an id never woven: no cycle, and the sort reports one |
| `Sha256.Hasher.constructor` | core/blacklab/src/oureboros.rs:431-447 | a hasher that has been fed nothing |
| `Sha256.Hasher.Update` | core/blacklab/src/oureboros.rs:449-473 | the hasher has been fed its input plus the new bytes, whatever the alignment |
| `Sha256.Hasher.Finish` | core/blacklab/src/oureboros.rs:475-493 | the digest of everything fed is the padded hash of the whole |
| `Sha256.HashParts` | core/blacklab/src/oureboros.rs:449-493 | for every way of splitting the input the streaming digest is the hash of the concatenation |
| `Sha256.HashOf` | core/blacklab/src/oureboros.rs:496-500 | the hash of one slice |
| `Sha256.OneShot` | kernel/boulder/build.rs:235-261 | pad-and-chunk in one buffer computes the same hash |
| `Sha256.PaddedRoom` | kernel/boulder/build.rs:246-251 | the padded length is the least multiple of 64 with room for the marker and the length |
| `Sha256.BigRoundTrip` | core/blacklab/src/oureboros.rs:475-495 | big-endian bytes read back the number written |
| `Sha256.PadMeaning` | core/blacklab/src/oureboros.rs:474-487 | the padded message is itself, 0x80, zeros, and its length in bits in the last eight bytes, in whole blocks |
| `Sha256.HashMeaning` | core/blacklab/src/oureboros.rs:488-494 | four bytes of the digest spell each chaining word after the padded blocks |
| `Sha256.InitialWords` | core/blacklab/src/oureboros.rs:430-440 | the initial words are the first 32 bits of the fractions of the square roots of the first eight primes |
| `Oureboros.Unfold` | core/blacklab/src/oureboros.rs:313-332 | fills the buffer with the recipe's bytes, touches nothing beyond, exact errors |
| `Oureboros.MeasureRecipe` | core/blacklab/src/oureboros.rs:234-267 | the measurement made word by word is the hash of what unfolding writes |
| `Oureboros.ElfLayout` | core/blacklab/src/oureboros.rs:339-377 | every header field lies at its offset, the recipe word at 120, and the one segment starts at 128 and ends with the image |
| `Oureboros.ProgramAddressesMessage` | core/blacklab/src/oureboros.rs:364-376 | the relative address and length in the program are those of the message behind it |
| `Oureboros.LittleRoundTrip` | core/blacklab/src/oureboros.rs:345-363 | a little-endian field reads back the number written to it |
| `Oureboros.ConstantTimeEqual` | core/blacklab/src/oureboros.rs:402-409 | the fold over all bytes is equality |
| `Oureboros.PlantedUnfolds` | core/blacklab/src/oureboros.rs:269-302 | a seed that passed validation can always be unfolded and measured |
| `Oureboros.SeedExactly` | core/blacklab/src/oureboros.rs:269-313 | what a seed must be to pass, and when its recipe is the reason that it does not |
| `Oureboros.Catalog.PlantSeed` | core/blacklab/src/oureboros.rs:161-176 | exact errors; planted seeds are valid with distinct inodes |
| `Oureboros.Catalog.FindSeed` | core/blacklab/src/oureboros.rs:178-183 | the seed with that inode, if planted |
| `Oureboros.Catalog.Materialize` | core/blacklab/src/oureboros.rs:185-214 | a planted seed whose digest is the measured one always materialises into a large enough buffer; a mismatch leaves zeros; nothing beyond is touched |
| `PolicyConstellation.StepKeeps` | core/aether/src/constellation.rs:45-138 | every step of every reader, guard and publisher keeps the invariant |
| `PolicyConstellation.RunInvariant` | core/aether/src/constellation.rs:45-138 | the invariant holds in every state of every interleaving |
| `PolicyConstellation.GuardedBankUntouched` | core/aether/src/constellation.rs:76-138 | no step changes a bank a validated guard refers to |
| `PolicyConstellation.GuardSeesOneValue` | core/aether/src/constellation.rs:151-169 | for its whole life a guard sees one whole published value |
| `PolicyConstellation.ValidateSeesLatest` | core/aether/src/constellation.rs:81-96 | a guard is handed the value published last |
| `PolicyConstellation.TicketIsPosition` | core/aether/src/constellation.rs:129-137 | the generation a publisher returns is the position of its value among the published ones |
| `PolicyConstellation.ReadersNeverBlocked` | core/aether/src/constellation.rs:84-98 | a validated bank is never torn and no reader count goes below zero |
| `PolicyConstellation.RetryExactly` | core/aether/src/constellation.rs:81-100 | over every run a reader tries again exactly when an odd number of values was published between its load and its validation, so never when none was |
| `PolicyConstellation.RefusedExactly` | core/aether/src/constellation.rs:116-122 | a publisher is refused exactly when some thread holds a count on the bank it would overwrite |
| `FrameAllocator.Create` | core/abyss/src/frame.rs:23-56 | exact errors; afterwards exactly the frames wholly inside usable regions are free and all others reserved |
| `FrameAllocator.CoversExactly` | core/abyss/src/frame.rs:40-56 | a frame is usable exactly when its whole page lies in a usable region below the maximum address |
| `FrameAllocator.Allocator.constructor` | core/abyss/src/frame.rs:28-44 | everything taken and reserved |
| `FrameAllocator.Allocator.MarkUsable` | core/abyss/src/frame.rs:187-200 | frees exactly the frames of the range, keeping count |
| `FrameAllocator.Allocator.ReserveRange` | core/abyss/src/frame.rs:64-80 | takes and reserves exactly the frames the range touches, keeping count; a range that cannot be rounded is ignored |
| `FrameAllocator.Allocator.Allocate` | core/abyss/src/frame.rs:82-96 | the first free frame going round, and none only when every frame is taken |
| `FrameAllocator.Allocator.FindContiguous` | core/abyss/src/frame.rs:161-177 | the first aligned free run from a position on, despite the skips; none only when there is none |
| `FrameAllocator.Allocator.FindAnywhere` | core/abyss/src/frame.rs:112-114 | the first run from the last position, else the first of all, else there is none |
| `FrameAllocator.Allocator.AllocateContiguous` | core/abyss/src/frame.rs:100-121 | with valid arguments fails only when no aligned free run exists anywhere; otherwise takes exactly the first run found |
| `FrameAllocator.Allocator.DeallocateContiguous` | core/abyss/src/frame.rs:129-159 | exact errors; releases exactly when the whole span is taken and unreserved; a failure changes nothing |
| `FrameAllocator.SkipIsSafe` | core/abyss/src/frame.rs:170-172 | jumping past the taken frame skips no aligned run |
| `FrameAllocator.SetBit` | core/abyss/src/frame.rs:262-270 | changes that bit and no other |
| `HolographicTree.Tree.constructor` | core/aether/src/holographic.rs:29-34 | a tree of any shape with zero nodes and epoch zero |
| `HolographicTree.Tree.WriteLeaf` | core/aether/src/holographic.rs:53-63 | writes one leaf digest, exact errors |
| `HolographicTree.Tree.Rebuild` | core/aether/src/holographic.rs:65-75 | makes every inner node the digest of its children and leaves the leaves alone |
| `HolographicTree.Tree.Update` | core/aether/src/holographic.rs:77-91 | on a settled tree leaves a settled tree with that one leaf changed |
| `HolographicTree.SameLeavesSameTree` | core/aether/src/holographic.rs:65-91 | two settled trees with the same leaves agree at every node, so updates equal a rebuild |
| `HolographicTree.Tree.MakeProof` | core/aether/src/holographic.rs:93-121 | the siblings of the path, exactly log2 of the leaves, never TreeTooDeep |
| `HolographicTree.Tree.Verify` | core/aether/src/holographic.rs:123-157 | exact errors; true exactly when climbing the siblings reaches the expected root |
| `HolographicTree.ProofsDecideMembership` | core/aether/src/holographic.rs:93-157 | the proof of a leaf verifies for the value last written and, when each digest separates each of its arguments, with those siblings for no other value |
| `HolographicTree.OneValueVerifies` | core/aether/src/holographic.rs:123-157 | for any fixed siblings and root exactly one value verifies, when the digests separate and can be solved |
| `HolographicTree.FreeSiblingsVerify` | core/aether/src/holographic.rs:123-157 | when the siblings are free, some of a given depth verify a value exactly when the depth is above zero or its digest is the root: the siblings have to be trusted |
| `HolographicTree.ScrambleInverse` | core/aether/src/holographic.rs:190-195 | the last three steps of the mixer are a bijection of 64-bit words |
| `HolographicTree.MixerSeparatesAndSolves` | core/aether/src/holographic.rs:182-195 | the mixer of the source separates each argument and can be solved for either |
| `HolographicTree.MixerDecides` | core/aether/src/holographic.rs:93-195 | both results for the digests of the source |
| `HolographicTree.ShapeDepth` | core/aether/src/holographic.rs:36-41 | a valid shape has depth at most 16 |
| `HolographicTree.ShapeExactly` | core/aether/src/holographic.rs:36-41 | the valid shapes are the powers of two up to 2^16 with twice as many nodes |
| `HolographicTree.EpochsCount` | core/aether/src/holographic.rs:43-48 | epochs count up and skip zero |

## Left out

- AxiomCausality.CausalityExact: runs of at most 2^64-1 operations, because a vector lane saturates beyond.
- BoundedMpmc.RunInvariant: positions are unbounded naturals, so the wrap of the 64-bit position counters is not modelled; `length_approximate` is left out.
- BirkhoffVn.Decompose: for inputs off the grid whose light entries weigh little it does not say in advance whether `NoPermutation` follows, because that depends on which permutations the greedy steps choose; when it does follow, the stuck residual is stated.
- ClusterQuiver.ResourceQuiver.Mutate: node kinds, tags, congestion, `mutate_hottest` and `ceiling_scales` are left out.
- LeaseLattice.Lattice.Admit: the statements about ancestors hold while no slot's 16-bit generation has wrapped; the quota theorem needs no such condition.
- LeaseLattice.Lattice.constructor: tables of more than 65535 slots, which the 16-bit slot field cannot name, are excluded; the repository uses 256.
- DmaFirewall.Firewall.Discard: `abort_prepared` and `acknowledge_poison` are one method with the wanted phase as argument; the four statistics counters and `snapshot` are left out.
- FabricWeave.Fabric.Weave: event kinds, process and core fields, `complete`, `evict_old`, `find_parallel_pairs` and `future_cone` (the mirror image of `past_cone`) are left out.
- FabricWeave.Fabric.TopologicalSort: the in-degree map is a value that the loops reassign, as are the queue and the order.
- Sha256.Hasher.Finish: digests of 2^64 bytes or more are not stated, because the byte counter saturates there.
- Oureboros.Unfold: generator steps are a parameter, and a slice of the target is the target and a length; `verify_artifact` is left out.
- FrameAllocator.Allocator.AllocateContiguous: rounding up is written as division and multiplication, which agrees with the mask for the powers of two it is used with.
- HolographicTree.Tree.WriteLeaf: `clear`, which zeroes every node, is left out.
- AxiomManifold.Manifold.Submit: drafts are values with sequences for the three fixed-size arrays; the array copies are not modelled.
- AxiomManifold.Manifold.Attest: `attest_from_cpu_mask`, the read accessors and the draining callback's own effects are left out.
- CyclotomicNtt.Ntt: entries within 193 of the top of the 32-bit range are excluded, because the additions of the source overflow there.
- PolicyConstellation.StepKeeps: memory orderings weaker than sequential consistency are not modelled, nor the wrap of the 64-bit reader counts and generation.
- Hardware access, boot code, drivers and serial output; numerical heuristics without an exact specification; simple registries and recorders, which would only add easy members.
- `commit_reactor.rs`, `counterfactual.rs` and `blacklab_control_plane.rs`, whose behaviour is decided by modules that are not part of this model.
