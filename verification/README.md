# Arenas and layout sizes of the Java foreign memory API, in Dafny

This project models two pieces of the Java foreign function and memory API.

**Arenas** (`arenas.dfy`, module `Arenas`). An arena hands out native memory
segments through `allocate(byteSize, byteAlignment)`. Some arenas can also be
closed, after which none of their segments may be used again. There are four
kinds:

- global: never closes, usable from any thread;
- automatic: reclaimed by the garbage collector, never closed explicitly,
  usable from any thread;
- confined: closed explicitly, but only its owner thread may use or close it;
- shared: closed explicitly, and any thread may use or close it.

`Arena` is a class whose methods update its state:

- `alive`: whether the arena scope is alive;
- `owner`: the owner thread, for confined arenas;
- `pins`: operations in flight that keep the arena open, such as a downcall using
  its memory;
- `issued`: the segments handed out so far.

`Valid()` is the invariant every method keeps. Issued segments are pairwise
disjoint, a closed arena holds no pins, and only a closeable kind can be closed.
Each Java exception is a distinct error value: `IllegalArgument`,
`IllegalState(AlreadyClosed)`, `IllegalState(AccessedConcurrently)`,
`WrongThread` and `UnsupportedOperation`.

**Layout sizes** (`layouts.dfy`, module `Layouts`). This is the part shared by
every memory layout. A layout stores its size and alignment in bytes, and its
optional name. It is built from bit quantities. The alignment is accepted only
if it is a power of two and at least 8. The check uses the bit trick
`(v & (v - 1)) != 0`, evaluated with Java `long` semantics in `java_long.dfy`
(module `JavaLong`): subtraction wraps around modulo 2^64, and `&` works on the
two's complement bit pattern. The trick alone accepts 0 and `Long.MIN_VALUE`.
Only the `>= 8` test rejects them, and the model proves this.
`decimal.dfy` (module `Decimal`) gives the decimal text that Java writes for a
non-negative `long`, and `results.dfy` (module `Results`) holds `Option`, `Result` and
`Outcome`.

Some inputs come from the environment and are parameters here. The calling
thread is a `ThreadId` argument. The native allocator's choice of address is
nondeterministic: any aligned address whose range overlaps no issued segment.

## Model

| member | source | states |
|---|---|---|
| `JavaLong.BitTrickCharacterisation` | src/java.base/share/classes/jdk/internal/foreign/layout/AbstractLayout.java:137 | with 64-bit wrap-around, `(v & (v - 1)) == 0` holds exactly for 0, `Long.MIN_VALUE` and the positive powers of two |
| `JavaLong.AndPredecessorIsZero` | src/java.base/share/classes/jdk/internal/foreign/layout/AbstractLayout.java:137 | for a positive bit pattern x, `x & (x - 1)` is zero exactly when x is a power of two |
| `JavaLong.PredecessorPattern` | src/java.base/share/classes/jdk/internal/foreign/layout/AbstractLayout.java:137 | for a nonzero long, the wrapped `value - 1` has the bit pattern one below that of `value`, and this includes `Long.MIN_VALUE - 1` |
| `JavaLong.PowerOfTwoHasExponent` | src/java.base/share/classes/jdk/internal/foreign/layout/AbstractLayout.java:137 | a number passing the halving definition of power of two is 2^k for some k |
| `JavaLong.Pow2IsPowerOfTwo` | src/java.base/share/classes/jdk/internal/foreign/layout/AbstractLayout.java:137 | every 2^k passes the halving definition, so the two definitions agree |
| `Layouts.RequirePowerOfTwoAndGreaterOrEqualToEight` | src/java.base/share/classes/jdk/internal/foreign/layout/AbstractLayout.java:136-142 | accepts the alignment exactly when it is a power of two and at least 8 and then returns it unchanged; otherwise fails with an invalid-alignment error carrying the value |
| `Layouts.ZeroAndMinValueRejected` | src/java.base/share/classes/jdk/internal/foreign/layout/AbstractLayout.java:136-141 | 0 and `Long.MIN_VALUE` pass the bit trick but are still rejected |
| `Layouts.NewLayout` | src/java.base/share/classes/jdk/internal/foreign/layout/AbstractLayout.java:44-48 | construction fails exactly when the alignment check fails; otherwise the layout keeps the name and reports back the given bit size and bit alignment |
| `Layouts.RebuildIsIdentity` | src/java.base/share/classes/jdk/internal/foreign/layout/AbstractLayout.java:44-76 | building a layout from its own bit size, bit alignment and name gives the same layout |
| `Layouts.Layout.BitAlignment` | src/java.base/share/classes/jdk/internal/foreign/layout/AbstractLayout.java:62-64 | the bit alignment is a power of two, at least 8, a multiple of 8, and its eighth is the stored byte alignment |
| `Layouts.Layout.BitSize` | src/java.base/share/classes/jdk/internal/foreign/layout/AbstractLayout.java:74-76 | the bit size is a valid (non-negative, whole-byte) long whose eighth is the stored byte size |
| `Layouts.Layout.WithName` | src/java.base/share/classes/jdk/internal/foreign/layout/AbstractLayout.java:50-52 | the result has the new name and the same byte size and byte alignment |
| `Layouts.Layout.WithBitAlignment` | src/java.base/share/classes/jdk/internal/foreign/layout/AbstractLayout.java:58-60 | fails exactly as the constructor's alignment check does; on success, only the alignment changes, to the requested one |
| `Layouts.WithCurrentValuesIsIdentity` | src/java.base/share/classes/jdk/internal/foreign/layout/AbstractLayout.java:50-60 | renaming to the current name, or realigning to the current bit alignment, gives back the same layout |
| `Layouts.WithNameComposes` | src/java.base/share/classes/jdk/internal/foreign/layout/AbstractLayout.java:50-60 | the last rename wins, and renaming commutes with a successful realignment |
| `Layouts.EqualsIsEquivalence` | src/java.base/share/classes/jdk/internal/foreign/layout/AbstractLayout.java:111-116 | `equals` is reflexive, symmetric and transitive |
| `JavaLong.Sub` | src/java.base/share/classes/jdk/internal/foreign/layout/AbstractLayout.java:137 | Java `value - 1` on longs: the result is congruent to the exact difference modulo 2^64, and equal to it when that difference fits in a long |
| `JavaLong.AndUnsigned` | src/java.base/share/classes/jdk/internal/foreign/layout/AbstractLayout.java:137 | Java `&` on longs, as the unsigned bit pattern of the result: no larger than either operand's pattern, and zero when an operand is zero |
| `Layouts.Layout.HasNaturalAlignment` | src/java.base/share/classes/jdk/internal/foreign/layout/AbstractLayout.java:78-80 | true exactly when the byte size equals the byte alignment; for a constructed layout, the same as bit size equals bit alignment |
| `Layouts.Layout.Equals` | src/java.base/share/classes/jdk/internal/foreign/layout/AbstractLayout.java:111-116 | compares name, byte size and byte alignment; true exactly when the two layouts are the same value |
| `Layouts.Layout.Dup` | src/java.base/share/classes/jdk/internal/foreign/layout/AbstractLayout.java:124 | a layout of the same byte size with the given name and bit alignment, rejected exactly when the constructor's alignment check rejects the alignment |
| `Layouts.Layout.DecorateLayoutString` | src/java.base/share/classes/jdk/internal/foreign/layout/AbstractLayout.java:126-134 | the text is unchanged exactly when the layout is unnamed and naturally aligned; a name makes it end in `)`; an unnatural alignment puts a digit in front |
| `Layouts.DecorationReadsBack` | src/java.base/share/classes/jdk/internal/foreign/layout/AbstractLayout.java:126-134 | the text is `s`, then `(name)` when named; an unnatural alignment adds in front the canonical decimal text of the bit alignment (no leading zero) and `%`, and that prefix reads back as the bit alignment; the text is unchanged exactly when unnamed and naturally aligned |
| `Decimal.NatToString` | src/java.base/share/classes/jdk/internal/foreign/layout/AbstractLayout.java:131 | the decimal text of a number is a non-empty run of digits without a leading zero |
| `Decimal.ParseNatToString` | src/java.base/share/classes/jdk/internal/foreign/layout/AbstractLayout.java:131 | reading the decimal text of a number back gives the number |
| `Arenas.Arena.OfAuto` | src/java.base/share/classes/java/lang/foreign/Arena.java:167-169 | a new automatic arena: alive, no owner, no pins, nothing issued |
| `Arenas.Arena.OfGlobal` | src/java.base/share/classes/java/lang/foreign/Arena.java:178-183 | the global arena: alive, no owner, no pins, nothing issued |
| `Arenas.Arena.OfConfined` | src/java.base/share/classes/java/lang/foreign/Arena.java:188-190 | a new confined arena owned by the calling thread, alive, nothing issued |
| `Arenas.Arena.OfShared` | src/java.base/share/classes/java/lang/foreign/Arena.java:195-197 | a new shared arena: alive, no owner, no pins, nothing issued |
| `Arenas.IsExplicitlyCloseable` | src/java.base/share/classes/java/lang/foreign/Arena.java:93-121 | the "explicitly closeable" column of the table: confined and shared only |
| `Arenas.IsAccessibleFromMultipleThreads` | src/java.base/share/classes/java/lang/foreign/Arena.java:93-121 | the "accessible from multiple threads" column of the table: every kind but confined |
| `Arenas.Overlaps` | src/java.base/share/classes/java/lang/foreign/Arena.java:208-213 | two segments overlap when each starts before the other ends (half-open ranges), the negation of `S1.overlappingSlice(S2).isEmpty()`; two zero-length segments at one address do not overlap, a zero-length segment strictly inside another does; `overlappingSlice` itself is not part of this model |
| `Arenas.PairwiseDisjoint` | src/java.base/share/classes/java/lang/foreign/Arena.java:208-213 | no two segments of the sequence overlap, the invariant the arena keeps over every segment it has issued |
| `Arenas.ValidAllocationArguments` | src/java.base/share/classes/java/lang/foreign/Arena.java:218-219 | the arguments `allocate` accepts: size at least 0, alignment positive and equal to 2^k for some k |
| `Arenas.PowerOfTwoIsSomePow2` | src/java.base/share/classes/java/lang/foreign/Arena.java:218-219 | "a power of 2" read by halving agrees with "2^k for some k", in both directions |
| `Arenas.Arena.IsAccessibleBy` | src/java.base/share/classes/java/lang/foreign/Arena.java:87-89 | in a valid arena, a thread may use the segments exactly when the kind is accessible from multiple threads or the thread is the owner |
| `Arenas.Arena.CheckValidState` | src/java.base/share/classes/java/lang/foreign/Arena.java:75-89 | a use of the arena's segments passes exactly when the arena is alive and the caller may access it; a non-owner of a confined arena gets a wrong-thread error before liveness is looked at |
| `Arenas.Arena.Allocate` | src/java.base/share/classes/java/lang/foreign/Arena.java:199-227 | invalid-argument error exactly when size < 0, alignment <= 0 or alignment not a power of two; then wrong-thread, then already-closed; success exactly otherwise, with a segment of the requested size, aligned, overlapping no earlier segment, appended to the issued ones; the invariant keeps all issued segments pairwise disjoint |
| `Arenas.Arena.Acquire` | src/java.base/share/classes/java/lang/foreign/Arena.java:250-251 | a segment starts being used concurrently (a pin): same checks as an access, and one more pin on success |
| `Arenas.Arena.Release` | src/java.base/share/classes/java/lang/foreign/Arena.java:250-251 | a concurrent use ends: one pin fewer |
| `Arenas.Arena.Close` | src/java.base/share/classes/java/lang/foreign/Arena.java:234-257 | unsupported for global and automatic arenas; wrong-thread for a non-owner of a confined arena; already-closed on a closed arena (not idempotent); accessed-concurrently while pins are held; the arena stops being alive exactly when the close completes normally, and never becomes alive again |
| `Arenas.ClosedArenaRejectsAccess` | src/java.base/share/classes/java/lang/foreign/Arena.java:75-84 | once the arena of a segment is closed, every use of the segment fails, with an illegal-state error for any thread allowed to use it |
| `Arenas.AccessFromEveryThread` | src/java.base/share/classes/java/lang/foreign/Arena.java:93-121 | a live arena's segments are usable by every thread exactly when its kind is accessible from multiple threads (all but confined) |
| `Arenas.NonCloseableArenaAlwaysUsable` | src/java.base/share/classes/java/lang/foreign/Arena.java:46-49 | the global and automatic arenas pass every use check, so only bad arguments make their allocations fail |

The scenario method `Arenas.ConfinedScenario` replays a sequence of calls like
the one in `test/jdk/java/foreign/TestArrays.java:135-141`: allocate from a
confined arena, close it, then use it again. `Arenas.SharedPinnedScenario`
follows the close contract at `Arena.java:250-251`: a close that fails while a
downcall holds the arena's memory, then succeeds once the downcall is done. The
assertions of both are verified, not executed.

## Left out

- The session implementation and the bump allocator are not part of this model.
  An allocation returns any aligned address whose range overlaps no earlier
  segment. Running out of memory, address-width limits, block growth and the
  freeing of memory at close are not modelled.
- The order of the checks in `allocate` is arguments, then thread, then
  liveness. `Arena.java` does not fix this order, because the implementing
  session class is not part of this model.
- Arenas.Arena.Close: `Arena.java` lists the exceptions of `close()` without
  an order of precedence. The model checks them in this order: unsupported
  kind, then wrong thread, then already closed, then segments in use. So a
  non-owner closing an already closed confined arena gets the wrong-thread
  error, not the illegal-state one.
- Reclamation of automatic arenas by the garbage collector is not modelled.
  The collector reclaims an arena only once nobody can call it, so the model
  keeps automatic arenas alive. The "bounded lifetime" column of the table is
  therefore not represented.
- `Arenas.Arena.OfGlobal` builds a new arena each time. It does not model
  `global()` returning one shared instance.
- Threads, atomics and interleavings are not modelled. A thread is an identity
  token. "Accessed concurrently" is a pin count changed by `Acquire` and
  `Release`.
- `Arenas.Arena.Release` requires a held pin. Java pairs every release with a
  successful acquire, so an unpaired release has no defined behaviour.
- `Arenas.Arena.Allocate` promises alignment per call. The invariant does not
  record each segment's requested alignment.
- Java throws `IllegalStateException` both for an already-closed arena and for
  one in use. The model gives these two causes distinct error values.
- `MemoryLayoutUtil.requireBitSizeValid` is not part of this model.
  `Layouts.NewLayout` therefore requires a non-negative bit size that is a
  multiple of 8, instead of reporting an error for other sizes.
- Layouts.Layout.HasNaturalAlignment: the model uses the base-class test
  (byte size equals byte alignment). In Java this method is not `final`, so a
  subclass may override it. Such overrides are not modelled, nor their effect
  on `Layouts.Layout.DecorateLayoutString`, which decides from this test
  whether to write the alignment prefix.
- `dup` and `toString` are abstract, and their subclasses are not part of this
  model. `dup` is modelled as calling the constructor again with the same bit
  size. The kind-specific conditions that subclasses add to `equals` are left
  out.
- `hashCode` is left out because it depends on `Objects.hash`.
  `Objects.requireNonNull(name)` is left out because Dafny values are never
  null.
- These files are not part of this model:
  - `LibFallback.java`: native libffi bindings.
  - `ForeignLinkerSupport.java`: a cached native flag.
  - `downcallLinker.hpp`: stub generation.
  - The value access layer used by the tests: byte order, floating point and
    buffers.
