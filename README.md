# Shenandoah barrier requirements and free-set bookkeeping

This project models two small pieces of the Shenandoah garbage collector in
the OpenJDK 8 AArch64 port and proves properties about them.

1. **The barrier check at VM startup**, as `TestWrongBarrierDisable`
   exercises it. Each GC mode needs a fixed set of barriers:
   - the default concurrent (SATB) mode, under every heuristic (adaptive,
     static, compact, aggressive), needs LoadRef, SATB, CAS and Clone;
   - the `iu` (incremental-update) mode needs LoadRef, StoreValEnqueue, CAS
     and Clone;
   - the `passive` mode needs none of them.

   Switching off (`-XX:-<flag>`) a barrier the mode needs stops the VM with
   exit value 1 and a "GC mode needs … to work correctly" diagnostic. The
   test checks this for every barrier in the mode's own list. It also checks
   that passive mode exits with 0 whichever barrier of either list is off.
   The model goes further: any barrier the mode does not need passes with
   exit value 0 (see "## Left out"). Module `BarrierRequirements`
   (barriers.dfy) has these parts:
   - `Barrier`, `Heuristic` and `Mode` as closed datatypes;
   - the requirement table `RequiredList`/`Required`;
   - the validator `Validate`, which returns `Pass` or `Fail` with the
     missing barriers, each once and in table order (`MissingInOrder`);
   - the exit value and the diagnostics;
   - `LaunchWithout`, the outcome of one launch in the test;
   - `ShouldFailAll`/`ShouldPassAll` and one lemma per expectation in the
     test's `main`.

2. **`ShenandoahFreeSet` state**. Module `FreeSet` (freeset.dfy) has the
   class `ShenandoahFreeSet`, which holds:
   - the mutator and collector free bitmaps, as `array<bool>` over `max`
     regions;
   - the four window bounds;
   - the `capacity` and `used` counters.

   `Valid()` is the documented invariant: no free region lies outside its
   bitmap's [leftmost, rightmost] window, and `used <= capacity`. The
   header's const accessors are read-only methods. `CountOnes` specifies
   `count_one_bits`, and a lemma shows that a bitmap's count never exceeds
   its window's size.

## Model

| member | source | states |
|---|---|---|
| `BarrierRequirements.FlagName` | test/gc/shenandoah/options/TestWrongBarrierDisable.java:38-49 | each barrier's flag is "Shenandoah", the barrier's name, then "Barrier", as the strings of the two lists are |
| `BarrierRequirements.ParseFlag` | test/gc/shenandoah/options/TestWrongBarrierDisable.java:38-49 | a flag name resolves to a barrier only if it is exactly that barrier's flag, and to none if no barrier has that flag |
| `BarrierRequirements.FlagNameRoundTrip` | test/gc/shenandoah/options/TestWrongBarrierDisable.java:38-49 | every barrier's flag name parses back to that barrier, so the five flags are distinct |
| `BarrierRequirements.TablesMatchRequiredList` | test/gc/shenandoah/options/TestWrongBarrierDisable.java:38-49 | the `concurrent` and `iu` string lists resolve, element by element and in order, to the barriers the default and iu modes require |
| `BarrierRequirements.RequiredList` | test/gc/shenandoah/options/TestWrongBarrierDisable.java:38-49 | the `concurrent` and `iu` lists in their order: no barrier twice, and empty exactly for passive, which the test gives no list of its own |
| `BarrierRequirements.Required` | test/gc/shenandoah/options/TestWrongBarrierDisable.java:51-57 | a mode's required set holds exactly the barriers of its table, and it is empty exactly for passive |
| `BarrierRequirements.TablesShareAndDiffer` | test/gc/shenandoah/options/TestWrongBarrierDisable.java:38-49 | the default mode requires exactly {LoadRef, SATB, CAS, Clone} and iu exactly {LoadRef, StoreValEnqueue, CAS, Clone}; they share exactly LoadRef, CAS and Clone; only the default mode needs SATB, and only iu needs StoreValEnqueue |
| `BarrierRequirements.Missing` | test/gc/shenandoah/options/TestWrongBarrierDisable.java:60-75 | the missing barriers are exactly the listed ones that are disabled, and there are no more of them than the list has |
| `BarrierRequirements.MissingInOrder` | test/gc/shenandoah/options/TestWrongBarrierDisable.java:60-75 | filtering a table without repetitions keeps the table's order: every missing barrier sits at a strictly later table position than the one before it |
| `BarrierRequirements.Validate` | test/gc/shenandoah/options/TestWrongBarrierDisable.java:51-57 | Pass exactly when no required barrier is disabled; a Fail names at least one barrier, exactly the required barriers that are disabled, each once and in the order of the mode's table |
| `BarrierRequirements.ExitStatus` | test/gc/shenandoah/options/TestWrongBarrierDisable.java:72-90 | exit value 0 exactly on Pass and 1 exactly on Fail |
| `BarrierRequirements.Message` | test/gc/shenandoah/options/TestWrongBarrierDisable.java:73-74 | a diagnostic starts with "GC mode needs " followed by the barrier's flag, and contains both "GC mode needs " and "to work correctly" |
| `BarrierRequirements.Diagnostics` | test/gc/shenandoah/options/TestWrongBarrierDisable.java:73-74 | no output on Pass; on Fail one line per missing barrier, in table order; each line starts with "GC mode needs " and its barrier's flag, and contains "to work correctly" |
| `BarrierRequirements.DiagnosticsCarryPhrases` | test/gc/shenandoah/options/TestWrongBarrierDisable.java:73-74 | on a Fail that names a barrier, every output line contains both phrases the test looks for, and so does the output as a whole |
| `BarrierRequirements.LaunchWithout` | test/gc/shenandoah/options/TestWrongBarrierDisable.java:62-71 | a launch with one barrier flag switched off has an outcome exactly when the flag names a barrier; it exits with 1 exactly when the mode requires that barrier, and with 0 exactly when it does not |
| `BarrierRequirements.SingleDisabled` | test/gc/shenandoah/options/TestWrongBarrierDisable.java:68 | with one barrier disabled, the verdict is Fail naming exactly that barrier if the mode requires it, and Pass otherwise |
| `BarrierRequirements.MissingOfSingle` | test/gc/shenandoah/options/TestWrongBarrierDisable.java:68 | filtering a repetition-free table by a single disabled barrier leaves exactly that barrier if the table holds it, and nothing otherwise |
| `BarrierRequirements.ShouldFailAll` | test/gc/shenandoah/options/TestWrongBarrierDisable.java:60-76 | `shouldFailAll`: every flag of the list, disabled alone, names a barrier and gives exit value 1 and output containing both phrases |
| `BarrierRequirements.ShouldPassAll` | test/gc/shenandoah/options/TestWrongBarrierDisable.java:78-92 | `shouldPassAll`: every flag of the list, disabled alone, names a barrier and gives exit value 0 |
| `BarrierRequirements.FailAllFromTable` | test/gc/shenandoah/options/TestWrongBarrierDisable.java:60-75 | for a non-passive mode and its own list, `shouldFailAll` holds |
| `BarrierRequirements.DefaultModeFailsAll` | test/gc/shenandoah/options/TestWrongBarrierDisable.java:51-54 | under every heuristic of the default mode, `shouldFailAll` holds for the `concurrent` list |
| `BarrierRequirements.IuModeFailsAll` | test/gc/shenandoah/options/TestWrongBarrierDisable.java:55 | in iu mode, `shouldFailAll` holds for the `iu` list |
| `BarrierRequirements.PassiveModePassesAll` | test/gc/shenandoah/options/TestWrongBarrierDisable.java:56-57 | in passive mode, `shouldPassAll` holds for both lists |
| `BarrierRequirements.WrongBarrierDisableScenarios` | test/gc/shenandoah/options/TestWrongBarrierDisable.java:37-58 | all seven expectations of `main` hold |
| `BarrierRequirements.HeuristicIrrelevant` | test/gc/shenandoah/options/TestWrongBarrierDisable.java:51-54 | the default mode's verdict is the same under every heuristic, for any disabled set |
| `BarrierRequirements.PassiveAlwaysPasses` | test/gc/shenandoah/options/TestWrongBarrierDisable.java:56-57 | passive mode passes whatever barriers are disabled |
| `FreeSet.ShenandoahFreeSet.Valid` | src/share/vm/gc_implementation/shenandoah/shenandoahFreeSet.hpp:39-42 | the object invariant: both bitmaps cover `max` regions, no mutator-free or collector-free region lies outside its [leftmost, rightmost] window, and `used <= capacity` as asserted at line 87 |
| `FreeSet.CountOnes` | src/share/vm/gc_implementation/shenandoah/shenandoahFreeSet.hpp:67-68 | a bitmap never counts more set bits than it has bits |
| `FreeSet.CountOnesZero` | src/share/vm/gc_implementation/shenandoah/shenandoahFreeSet.hpp:67-68 | a bitmap counts zero exactly when no bit is set |
| `FreeSet.CountOnesWithinWindow` | src/share/vm/gc_implementation/shenandoah/shenandoahFreeSet.hpp:39-42 | a bitmap with no set bit outside [lo, hi] counts at most hi - lo + 1, and none if the window is empty |
| `FreeSet.ShenandoahFreeSet.constructor` | src/share/vm/gc_implementation/shenandoah/shenandoahFreeSet.hpp:77 | a new free set covers `max_regions` regions with fresh, clear bitmaps, empty windows and zero counters, and satisfies the invariant |
| `FreeSet.ShenandoahFreeSet.ClearInternal` | src/share/vm/gc_implementation/shenandoah/shenandoahFreeSet.hpp:65 | clearing keeps the invariant and leaves both bitmaps clear, both windows empty and both counters zero |
| `FreeSet.ShenandoahFreeSet.Clear` | src/share/vm/gc_implementation/shenandoah/shenandoahFreeSet.hpp:79 | the same state as `ClearInternal` |
| `FreeSet.ShenandoahFreeSet.IncreaseUsed` | src/share/vm/gc_implementation/shenandoah/shenandoahFreeSet.hpp:64 | `used` grows by the amount, with capacity and windows unchanged and `used <= capacity` kept |
| `FreeSet.ShenandoahFreeSet.IsMutatorFree` | src/share/vm/gc_implementation/shenandoah/shenandoahFreeSet.hpp:51 | read-only; returns the region's mutator bit, and a free region lies in the mutator window |
| `FreeSet.ShenandoahFreeSet.IsCollectorFree` | src/share/vm/gc_implementation/shenandoah/shenandoahFreeSet.hpp:52 | read-only; returns the region's collector bit, and a free region lies in the collector window |
| `FreeSet.ShenandoahFreeSet.TouchesBounds` | src/share/vm/gc_implementation/shenandoah/shenandoahFreeSet.hpp:62 | read-only; true exactly when the index is one of the four window ends |
| `FreeSet.ShenandoahFreeSet.MutatorCount` | src/share/vm/gc_implementation/shenandoah/shenandoahFreeSet.hpp:68 | read-only; the number of set mutator bits, at most the mutator window's size, and zero exactly when no region is mutator-free |
| `FreeSet.ShenandoahFreeSet.CollectorCount` | src/share/vm/gc_implementation/shenandoah/shenandoahFreeSet.hpp:67 | read-only; the number of set collector bits, at most the collector window's size, and zero exactly when no region is collector-free |
| `FreeSet.ShenandoahFreeSet.Capacity` | src/share/vm/gc_implementation/shenandoah/shenandoahFreeSet.hpp:84 | read-only; returns the stored capacity |
| `FreeSet.ShenandoahFreeSet.Used` | src/share/vm/gc_implementation/shenandoah/shenandoahFreeSet.hpp:85 | read-only; returns the stored used amount |
| `FreeSet.ShenandoahFreeSet.Available` | src/share/vm/gc_implementation/shenandoah/shenandoahFreeSet.hpp:86-89 | requires `used <= capacity`, as the source asserts; read-only; available plus used is the capacity |

## Left out

- Process plumbing in the test is left out. This covers spawning the VM,
  the other command-line flags, and reading its output. `LaunchWithout`
  stands for one launch. The output is a list of lines, and "contains" means
  some line contains the phrase.
- Parsing of `-XX:` flag syntax is left out. The model takes a resolved
  `Mode` and a set of disabled barriers. A flag that names no barrier gets
  no outcome (`None`).
- The HotSpot code that does the check is not part of this model. Neither
  is the barrier instrumentation. Two consequences:
  - the diagnostic text is "GC mode needs <flag> to work correctly"; only
    its two phrases are fixed by the test;
  - the model prints one line per missing barrier.
- Several barriers disabled at once, unknown modes and unknown heuristics:
  the test asserts none of these. `Validate` applies the set-difference rule
  to any disabled set.
- Five single-barrier verdicts come from the requirement table, not from
  the test:
  - `Validate(Concurrent(h), {StoreValEnqueue}) == Pass` for each of the
    four heuristics, because the `concurrent` list lacks that barrier;
  - `Validate(IncrementalUpdate, {Satb}) == Pass`, because the `iu` list
    lacks SATB.

  The test never runs these cases. The model follows the set-difference
  rule for them. The single-barrier verdicts the test does run are Fail for
  each barrier of the mode's own list, and Pass for passive mode.
- shenandoahFreeSet.cpp is not part of this model. For the members the
  header only declares, the model goes by their names and the header's
  comments:
  - the constructor, `clear_internal` and `clear` reset the state: bitmaps
    clear, counters zero, each window the empty window [max, 0];
  - `increase_used` adds to `used` and requires the result to stay within
    the capacity;
  - `touches_bounds` compares the index with the four window ends.
- Allocation is left out: `allocate`, `allocate_single`,
  `allocate_contiguous` and `try_allocate_in`. Their bodies are not shown,
  and they work on heap regions and raw `HeapWord*` pointers.
- Region moves and rebuilds are left out: `flip_to_mutator`, `flip_to_gc`,
  `adjust_bounds`, `rebuild`, `recycle_trash` and `try_recycle_trashed`.
  Their bodies are not shown, and they read region state
  (`ShenandoahHeapRegion`, `ShenandoahHeap`). The model does not assume the
  two bitmaps are disjoint.
- `is_empty_or_trash`, `alloc_capacity` and `has_no_alloc_capacity` are left
  out. They are questions about a heap region, not about free-set state.
- The `_heap` and `_regions` pointers are left out.
- Heap-lock assertions, `unsafe_peek_free` and `print_on` are left out.
  They concern locking, racy reads or output only.
- `assert_bounds` is not a separate member. The property it checks, that
  every free region is inside its window, is part of `Valid()`.
- Sizes are `size_t` in the source and `nat` here. Nothing in the model can
  wrap around: `Available` requires `used <= capacity`, which is the
  source's own assertion.
