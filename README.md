# Multiverse commit engine in Dafny

This project models the commit/revert engine of the multiverse run-time library (`libmultiverse/mv_commit.c`). The library keeps a registry of multiversioned functions. Each function has several specialised bodies (variants), and each variant is guarded by value ranges on tracked global variables. Committing a function does three things:

- it reads the variables it depends on;
- it picks the last variant whose ranges all hold;
- if that variant is not already active, it assembles one patch record per patch point, submits them as one batch and records the variant as active.

Reverting works the same way with no variant as the target. A function-pointer mode mirrors the current target of a pointer variable into one synthetic variant. Every commit and revert entry point runs inside a transaction: a small most-recently-used cache of unprotected pages, which is re-protected and flushed when the transaction ends. `bind` decides whether a variable's value counts at all.

Modules, one file each:

- `wrappers.dfy`: `Option`.
- `bytes.dfy`: bytes, memory as a total map from addresses to bytes, little-endian loads, stores and word encodings.
- `descriptors.dfy`: the registry records (variables, range assignments, variants, patch points, functions) and their well-formedness. Pointers between descriptors become indices.
- `selection.dfy`:
  - the variable read;
  - the candidate test;
  - the last-match selector as a function (`SelectLast`);
  - the source's nested selector loops as a method proved equal to it (`BestVariant`).
- `patch_buffer.dfy`:
  - the `struct patch` record (`Patch`) and the flat buffer layout;
  - the architecture hooks as uninterpreted arrow-typed fields with their length contract;
  - the patch-set assembly loop as a method proved equal to a function.
- `transaction.dfy`:
  - the `mv_transaction_ctx_t` cache as a class over an `array` that is shifted in place;
  - a ghost trace of OS protect/unprotect/flush calls;
  - the invariant that exactly the cached pages are writable;
  - the byte-count defect of the miss path (see Findings).
- `commit_spec.dfy`:
  - what one commit, revert or bind does to a descriptor, as functions;
  - the bulk loops as folds over a visiting order;
  - the lemmas relating them.
- `commit.dfy`:
  - the registry as a class `Multiverse` whose methods are the public entry points;
  - ghost logs of submitted batches, decoded synthetic variants and OS calls.

Facts about the code that shape the model:

- `multiverse_select_mvfn` never calls `multiverse_transaction_unprotect`; the comment at `mv_commit.c:111` notes that the context is not needed. So every commit and revert entry point runs an empty transaction: it protects nothing and flushes the caches once. `multiverse_is_committed`, `multiverse_bind` and the -1 returns of the lookups (`:214`, `:240`, `:277`, `:303`) open no transaction. The cache is modelled and proved as a component of its own.
- The `r < 0` branches of the bulk loops cannot run, because neither `__multiverse_commit_fn` nor `multiverse_select_mvfn` ever returns a negative value. The model keeps no such branch.
- On a miss, `multiverse_transaction_unprotect` unprotects the new page (`:74`) before it protects the evicted one (`:77-80`). `TouchEvents` keeps that order.
- A first commit returns 0 when the selected variant is already active, so a commit followed by a commit is not always "1, then 0". What always holds is that the second commit returns 0, changes nothing, submits nothing and decodes nothing.

## Model

| member | source | states |
|---|---|---|
| Bytes.LoadLEBound | libmultiverse/mv_commit.c:22-27 | an n-byte little-endian load is below 256^n |
| Bytes.LoadAfterStore | libmultiverse/mv_commit.c:22-27 | loading n bytes back from an n-byte store of x gives x when x fits in n bytes |
| Bytes.DecodeEncodeWord | libmultiverse/patch.h:7-8 | decoding the n-byte encoding of a value that fits gives the value back |
| Selection.VarRead | libmultiverse/mv_commit.c:21-31 | defined only for widths 1, 2 and 4 (any other width is the fatal assertion); the value is below 2^8, 2^16 or 2^32 for those widths |
| Selection.VarReadAfterStore | libmultiverse/mv_commit.c:21-28 | reading a variable after storing a value that fits its width returns that value |
| Selection.SelectLastSpec | libmultiverse/mv_commit.c:150-171 | the selected variant is a candidate, no later variant is a candidate, and nothing is selected exactly when no variant is a candidate |
| Selection.BestVariant | libmultiverse/mv_commit.c:148-171 | the nested loops, which test every assignment with no early exit and let a later candidate override, return exactly the last candidate |
| Selection.UnboundExcludes | libmultiverse/mv_commit.c:156-159 | a variant with an assignment on an unbound variable is not a candidate |
| Selection.UnboundNeverSelected | libmultiverse/mv_commit.c:156-172 | the selected variant has no assignment on an unbound variable |
| PatchBuffer.PatchablePoints | libmultiverse/mv_commit.c:101-107 | the kept points are exactly the list's points that are valid and have a location |
| PatchBuffer.PatchablePointsAppend | libmultiverse/mv_commit.c:101-107 | skipping points keeps list order: filtering a concatenation concatenates the filtered parts |
| PatchBuffer.PatchSetRecords | libmultiverse/mv_commit.c:101-128 | one record per kept point, in list order, with pos = location, len = to - from, and revert bytes for no target or apply bytes otherwise |
| PatchBuffer.PatchSetWellFormed | libmultiverse/mv_commit.c:109-127 | when the hooks write to - from bytes, every record's payload is exactly len bytes |
| PatchBuffer.RevertSetIndependent | libmultiverse/mv_commit.c:123-124 | revert records depend only on the patch points, never on which variant was active |
| PatchBuffer.BufferSizeAppend | libmultiverse/mv_commit.c:114-117 | appending a record grows patches_size by header plus data length |
| PatchBuffer.SerializeSize | libmultiverse/mv_commit.c:114-121 | the flat buffer's length equals the accumulated patches_size |
| PatchBuffer.ParseRecord | libmultiverse/mv_commit.c:131-133 | stepping over one header plus len bytes yields that record and leaves the rest of the buffer |
| PatchBuffer.ParseSerialize | libmultiverse/mv_commit.c:131-133 | walking the flat buffer record by record recovers exactly the records that were laid out |
| PatchBuffer.AssemblePatches | libmultiverse/mv_commit.c:101-128 | the loop produces exactly the patch set of the function's points and its patches_size |
| Transaction.Find | libmultiverse/mv_commit.c:60-61 | the first slot holding the page, or the capacity when no slot does |
| Transaction.TouchShape | libmultiverse/mv_commit.c:55-85 | a touch keeps occupied slots a prefix and keeps their pages distinct |
| Transaction.TouchOccupied | libmultiverse/mv_commit.c:60-84 | a hit keeps the set of cached pages; a miss adds the page and drops the last slot's page |
| Transaction.TouchWritable | libmultiverse/mv_commit.c:60-84 | if the writable pages are the cached pages before a touch, they still are after it |
| Transaction.TouchAllNewest | libmultiverse/mv_commit.c:55-85 | after touching distinct new pages, the cache holds them newest first, followed by the old contents, cut to capacity |
| Transaction.ProtectEachWritable | libmultiverse/mv_commit.c:45-49 | ending a transaction removes every cached page from the writable pages |
| Transaction.ProtectEachOnce | libmultiverse/mv_commit.c:45-49 | each cached page is protected exactly once, and no other page is |
| Transaction.ProtectEachEmpty | libmultiverse/mv_commit.c:45-49 | an empty cache protects nothing |
| Transaction.TransactionCtx.Start | libmultiverse/mv_commit.c:39-41 | a new context has capacity 10, every slot empty and no OS call made |
| Transaction.TransactionCtx.ShiftBack | libmultiverse/mv_commit.c:66-68 | slots 0..n-1 move one slot back in place; slot 0 and the slots after n keep their contents |
| Transaction.TransactionCtx.MoveToFront | libmultiverse/mv_commit.c:66-69 | slot i is dropped, the slots before it move back one, and the page goes to slot 0 |
| Transaction.TransactionCtx.Unprotect | libmultiverse/mv_commit.c:55-86 | the new slots are the old slots touched by the page; on a hit no OS call is made, on a miss one unprotect of the page and, if slot 9 was occupied, one protect of its page; the cache shape and "writable = cached" are kept |
| Transaction.TransactionCtx.End | libmultiverse/mv_commit.c:43-51 | protects each occupied slot in slot order, then flushes once; nothing is left writable |
| Transaction.MissShiftAsWritten | libmultiverse/mv_commit.c:82-83 | the 9-byte memmove leaves slot 0 as it was, copies slot 0 into slot 1, replaces only the low byte of slot 2 by the low byte of slot 1 and leaves slot 2's upper bytes and slots 3-9 as they were |
| Transaction.MissAsWrittenLeavesPageWritable | libmultiverse/mv_commit.c:74-84 | with the code as written, three misses on distinct pages lose the first page from the cache, and it stays writable after the transaction ends |
| Transaction.MissCorrectedRestoresAll | libmultiverse/mv_commit.c:81-84 | with the element shift the comment describes, the same three misses keep all pages cached and leave nothing writable |
| Descriptors.RegistryUpdate | libmultiverse/mv_commit.c:139 | replacing one descriptor by a well-formed one keeps the registry well formed |
| CommitSpec.SelectState | libmultiverse/mv_commit.c:95-141 | reports 0 or 1: 0 exactly when the target is already active, 1 otherwise; afterwards the target is active and nothing else in the descriptor changed |
| CommitSpec.FnPtrRefreshWf | libmultiverse/mv_commit.c:177-192 | the refreshed pointer-mode descriptor is still well formed |
| CommitSpec.CommitFnState | libmultiverse/mv_commit.c:144-200 | reports 0 or 1, keeps the descriptor well formed and readable, and keeps its patch points, variant count and, for normal functions, its variants |
| CommitSpec.CommitSelectsLast | libmultiverse/mv_commit.c:146-172 | a normal commit activates a candidate with no later candidate, and activates nothing exactly when there is no candidate |
| CommitSpec.FnPtrCommit | libmultiverse/mv_commit.c:173-199 | in pointer mode one synthetic variant with no assignments holds the current pointer and becomes active; 1 is reported exactly when nothing was active or the pointer moved |
| CommitSpec.CommitUnchangedIsNoop | libmultiverse/mv_commit.c:95 | a commit that reports 0 leaves the descriptor as it was |
| CommitSpec.CommitIdempotent | libmultiverse/mv_commit.c:144-200 | committing again with the same variables and memory reports 0, changes nothing and forces no decode |
| CommitSpec.CommitMany | libmultiverse/mv_commit.c:224-231 | the commit loop keeps the number of descriptors and returns a count between 0 and the number of visits |
| CommitSpec.CommitManyFrame | libmultiverse/mv_commit.c:224-231 | the commit loop keeps every descriptor well formed and leaves the functions it does not visit unchanged |
| CommitSpec.RevertMany | libmultiverse/mv_commit.c:287-294 | the revert loop keeps the number of descriptors and returns a count between 0 and the number of visits |
| CommitSpec.RevertManyEffect | libmultiverse/mv_commit.c:287-294 | every visited function ends with no active variant; every other function is unchanged |
| CommitSpec.Range | libmultiverse/mv_commit.c:250 | the registry order: the indices lo to hi - 1 in ascending order |
| CommitSpec.RevertRangeCount | libmultiverse/mv_commit.c:313-320 | the global revert returns the number of functions that had an active variant |
| CommitSpec.CommitRangeFns | libmultiverse/mv_commit.c:250-257 | after the global commit every function is as its own commit leaves it |
| CommitSpec.CommitRangeCount | libmultiverse/mv_commit.c:250-257 | the global commit returns the number of functions whose commit changed something |
| CommitSpec.CommitAllIdempotent | libmultiverse/mv_commit.c:245-262 | a second global commit with unchanged variables and memory returns 0 and changes nothing |
| CommitSpec.RevertAllIdempotent | libmultiverse/mv_commit.c:308-325 | the global revert clears every active variant; a second one returns 0 and changes nothing |
| CommitSpec.CommitBatchesCount | libmultiverse/mv_commit.c:224-231 | the commit loop submits exactly one batch per change it counts: the number of batches is the loop's result |
| CommitSpec.CommitDecodesBound | libmultiverse/mv_commit.c:173-199 | every decode comes with a reported change: the commit loop logs no more decodes than its result |
| CommitSpec.CommitDecodesVisited | libmultiverse/mv_commit.c:173-199 | every decode the commit loop logs is of a function it visits that is in function-pointer mode |
| CommitSpec.RevertBatchesCount | libmultiverse/mv_commit.c:287-294 | the revert loop submits exactly one batch per change it counts |
| CommitSpec.BatchForSize | libmultiverse/mv_commit.c:114-137 | with hooks that keep their length contract, a batch is for the function it names, records the variant active before the switch, has well-formed records and a size equal to the length of its flat buffer |
| CommitSpec.CommitAllQuiet | libmultiverse/mv_commit.c:245-262 | a second global commit with unchanged variables and memory submits no batch and decodes nothing |
| CommitSpec.BindSpec | libmultiverse/mv_commit.c:336-340 | -1 exactly for a set request on an untracked variable; a negative state only reports; otherwise bound := (state != 0); the result is the bound flag; no other field changes |
| CommitSpec.BindIdempotent | libmultiverse/mv_commit.c:336-340 | binding twice with the same state is the same as binding once |
| CommitSpec.UnbindExcludes | libmultiverse/mv_commit.c:158-159 | after bind(x, 0) no selected variant has an assignment on x |
| CommitSpec.RebindAdmits | libmultiverse/mv_commit.c:158-164 | after bind(x, 1), a variant is a candidate again when its ranges on x hold for x's value and its other assignments held |
| CommitSpec.ConfigAScenario | libmultiverse/mv_commit.c:144-172 | with a 4-byte variable and variants for the values 0 and 1: value 1 selects the second (1 reported), value 0 the first (1 reported); revert reports 1, then 0 |
| Commit.Multiverse.constructor | libmultiverse/mv_commit.c:17-18 | the registry as the linker lays it out, with nothing submitted, decoded or called yet |
| Commit.Multiverse.SelectMvfn | libmultiverse/mv_commit.c:89-142 | returns 0 with no submission and no change when the target is active; otherwise submits one batch built from the pre-switch descriptor, then makes the target active and returns 1 |
| Commit.Multiverse.RefreshFnPtr | libmultiverse/mv_commit.c:177-197 | the synthetic variant takes the current pointer value; active is cleared and a decode logged exactly when the change is forced |
| Commit.Multiverse.CommitFnCore | libmultiverse/mv_commit.c:144-200 | the descriptor becomes its commit state; the result, the submitted batch (CommitBatch) and the decode log (CommitDecode) are those of the specification |
| Commit.Multiverse.EmptyTransaction | libmultiverse/mv_commit.c:39-41 | a fresh context with every slot NULL and no OS call made yet |
| Commit.Multiverse.EndEmpty | libmultiverse/mv_commit.c:43-51 | ending an unused transaction makes exactly one flush call |
| Commit.Multiverse.CommitInfoFn | libmultiverse/mv_commit.c:203-209 | one commit inside one transaction: the commit's result, its batch and its decode, and one flush |
| Commit.Multiverse.CommitFn | libmultiverse/mv_commit.c:212-217 | an unknown function gives -1 and changes nothing, including the decode log; a known one is committed with its result, batch, decode and one flush |
| Commit.Multiverse.CommitEach | libmultiverse/mv_commit.c:224-231 | the commit loop visits the given functions in order inside the caller's transaction; the new registry, the summed count, the batches submitted and the decodes logged are those of the commit folds |
| Commit.Multiverse.CommitInfoRefs | libmultiverse/mv_commit.c:219-236 | commits the referencing functions in list order in one transaction; registry, summed result, batches and decodes are those of the commit folds over the list |
| Commit.Multiverse.CommitRefs | libmultiverse/mv_commit.c:238-243 | an unknown variable gives -1 and changes nothing, including the decode log; a known one commits its references with their batches and decodes |
| Commit.Multiverse.CommitAll | libmultiverse/mv_commit.c:245-262 | commits every function in registry order in one transaction; registry, summed result, batches and decodes are those of the commit folds over the registry |
| Commit.Multiverse.RevertInfoFn | libmultiverse/mv_commit.c:264-272 | selects no variant inside one transaction: active is cleared; 1 and the revert batch exactly when something was active; one flush |
| Commit.Multiverse.RevertFn | libmultiverse/mv_commit.c:275-280 | an unknown function gives -1 and changes nothing; a known one is reverted with its result, its revert batch and one flush |
| Commit.Multiverse.RevertEach | libmultiverse/mv_commit.c:287-294 | the revert loop visits the given functions in order inside the caller's transaction; the new registry, the summed count and the batches submitted are those of the revert folds |
| Commit.Multiverse.RevertInfoRefs | libmultiverse/mv_commit.c:282-299 | reverts the referencing functions in list order in one transaction; registry, summed result and batches are those of the revert folds over the list |
| Commit.Multiverse.RevertRefs | libmultiverse/mv_commit.c:301-305 | an unknown variable gives -1 and changes nothing; a known one reverts its references with their batches |
| Commit.Multiverse.RevertAll | libmultiverse/mv_commit.c:308-325 | reverts every function in registry order in one transaction; registry, summed result and batches are those of the revert folds over the registry |
| Commit.Multiverse.IsCommitted | libmultiverse/mv_commit.c:327-330 | 1 exactly when the function has an active variant, otherwise 0 |
| Commit.Multiverse.Bind | libmultiverse/mv_commit.c:332-341 | -1 and no change for an unknown variable; otherwise the variable changes as BindSpec says and nothing else does |

## Left out

- The kernel submission `syscall(1000, patches, patches_size)` (`mv_commit.c:137`) is not executed. It is appended to the ghost log `submitted` as a `Batch` (function, records, size, active variant at submission time).
- The OS primitives `multiverse_os_protect`, `unprotect` and `clear_caches` are modelled as events in a ghost trace. `multiverse_os_addr_to_page` is a function parameter of `Unprotect`. `multiverse_os_malloc` is replaced by building the synthetic variant as a value.
- The architecture hooks `multiverse_arch_patchpoint_size`, `apply` and `revert` are uninterpreted fields of `Arch`, with a length contract (`ArchValid`). `multiverse_arch_decode_mvfn_body` is recorded in the ghost log `decoded`. Their byte encodings are platform code that is not part of this model. As a result, the round trip "commit then revert restores the patch points' bytes" is covered only as far as `RevertSetIndependent` goes: revert writes the same bytes whatever was active.
- The debug print loop (`mv_commit.c:130-135`) prints nothing here. Its walk over the buffer is modelled as `Parse`.
- `realloc` and the never-freed `patches` buffer are replaced by Dafny sequences. Memory management is not modelled.
- The linker-section bounds `__start/__stop___multiverse_fn_ptr` become the length of the `fns` sequence. The lookups `multiverse_info_fn` and `multiverse_info_var` (not part of this model) become the partial maps `fnByBody` and `varByLocation`.
- Concurrency and wait-free patching are out of scope. The model is sequential.
- The `r < 0` branches of the bulk loops (`:226-229`, `:252-255`, `:289-292`, `:315-318`) are left out because they cannot run. At `:316` `multiverse_revert` assigns `r = -1` where `ret = -1` was evidently meant. This is harmless only because the branch is dead.
- Commit.Multiverse.IsCommitted: requires the function to be known, because the code dereferences the lookup result without the NULL check (`:328-329`).
- Transaction.TransactionCtx.Unprotect: requires the page of the address to be non-NULL. The code does not check this, and a NULL page would count as a hit on an empty slot.
- Descriptors.WfFn: does not require assignments to name known variables. That range is part of `Readable`, which every commit requires.
- The value type `mv_value_t` and the bound fields are not shown. Values and bounds are unbounded naturals, and the comparisons at `:163` are done on them.
- The target is a little-endian machine with 8-byte pointers and `size_t`. Variables are read as unsigned values of width 1, 2 or 4. No other byte order or word size is modelled.
- Committing does not change the variables' memory, so memory is a parameter of the commit operations. The code bytes rewritten by the kernel are not part of `Memory`.

## Findings

| source | as written | input that shows it | evidently intended | confidence | as-written member | corrected member |
|---|---|---|---|---|---|---|
| libmultiverse/mv_commit.c:82-83 | `memmove(&unprotected[1], &unprotected[0], cache_size - 1)` moves 9 bytes, not 9 pointers | from an empty cache, misses on pages 0x1000, 0x2000, 0x3000: 0x1000 is overwritten in slot 1, never re-protected by `mv_transaction_end`, and stays writable | move `cache_size - 1` slots (`(cache_size - 1) * sizeof(void *)` bytes), as the comment at :81 says | high; not executed | Transaction.MissAsWrittenLeavesPageWritable | Transaction.TransactionCtx.Unprotect |
