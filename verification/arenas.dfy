/**
 * The arena lifecycle: an arena hands out native segments and may be closed, after which
 * none of its segments can be reached again. Threads are identity tokens passed in by the
 * caller; a segment "being accessed concurrently" (for instance by a downcall) is a pin
 * held on the arena.
 */
module Arenas {
  import opened Results
  import opened JavaLong

  /** The identity of a thread, as `Thread.currentThread()` would give it. */
  type ThreadId = nat

  /** The four kinds of arena. */
  datatype Kind = Global | Automatic | Confined | Shared

  /** Why an operation found the arena in the wrong state (both are IllegalStateException). */
  datatype StateCause = AlreadyClosed | AccessedConcurrently

  /** The exceptions of the arena operations. */
  datatype ArenaError =
    | IllegalArgument
    | IllegalState(cause: StateCause)
    | WrongThread
    | UnsupportedOperation

  // Two columns of the table of arena characteristics.

  /** Whether `close()` is supported. */
  predicate IsExplicitlyCloseable(kind: Kind) {
    kind == Confined || kind == Shared
  }

  /** Whether threads other than the creator may use the segments. */
  predicate IsAccessibleFromMultipleThreads(kind: Kind) {
    kind != Confined
  }

  /**
   * A native segment: its starting address, its length in bytes and the arena whose
   * scope it belongs to (a back-reference only; the segment never frees memory itself).
   */
  datatype Segment = Segment(address: int, byteSize: int, scope: Arena)
  {
    function End(): int {
      address + byteSize
    }
  }

  /** The two segments share at least one address (their overlapping slice is not empty). */
  predicate Overlaps(s: Segment, t: Segment) {
    s.address < t.End() && t.address < s.End()
  }

  /** No two segments of the sequence overlap. */
  predicate PairwiseDisjoint(segments: seq<Segment>) {
    forall i, j :: 0 <= i < j < |segments| ==> !Overlaps(segments[i], segments[j])
  }

  /** What `allocate` accepts: a non-negative size and a positive power-of-two alignment. */
  predicate ValidAllocationArguments(byteSize: Long, byteAlignment: Long): (r: bool)
    ensures r <==> byteSize >= 0 && byteAlignment > 0 && exists k: nat :: Pow2(k) == byteAlignment
  {
    PowerOfTwoIsSomePow2(byteAlignment);
    byteSize >= 0 && byteAlignment > 0 && IsPowerOfTwo(byteAlignment)
  }

  /** The halving test and "some 2^k" agree. */
  lemma PowerOfTwoIsSomePow2(n: int)
    ensures IsPowerOfTwo(n) <==> exists k: nat :: Pow2(k) == n
  {
    if IsPowerOfTwo(n) {
      var k := PowerOfTwoHasExponent(n);
    }
    if exists k: nat :: Pow2(k) == n {
      var k: nat :| Pow2(k) == n;
      Pow2IsPowerOfTwo(k);
    }
  }

  /** An address no issued segment reaches: every segment ends at or below it. */
  function HighWater(segments: seq<Segment>): (r: nat)
    ensures forall i :: 0 <= i < |segments| ==> segments[i].End() <= r
  {
    if segments == [] then 0
    else
      var rest := HighWater(segments[..|segments| - 1]);
      var last := segments[|segments| - 1].End();
      if last <= rest then rest else last
  }

  /** A nonzero whole number of a's is at least a away from zero. */
  lemma MulAwayFromZero(d: int, a: int)
    requires a > 0
    ensures d >= 1 ==> d * a >= a
    ensures d <= -1 ==> d * a <= -a
  {
    if d >= 1 {
      assert d * a == (d - 1) * a + a;
      assert (d - 1) * a >= 0;
    } else if d <= -1 {
      assert d * a == (d + 1) * a - a;
      assert (d + 1) * a <= 0;
    }
  }

  /** Multiples of a positive number leave no remainder. */
  lemma MultipleHasNoRemainder(k: int, a: int)
    requires a > 0
    ensures (k * a) % a == 0
  {
    var x := k * a;
    var q, r := x / a, x % a;
    assert x == q * a + r;
    var d := k - q;
    assert d * a == k * a - q * a;
    assert d * a == r;
    MulAwayFromZero(d, a);
    assert d == 0;
  }

  /** A multiple of `alignment` above `n`. */
  function AlignUp(n: nat, alignment: int): (m: nat)
    requires alignment > 0
    ensures n <= m && m % alignment == 0
  {
    var q := n / alignment + 1;
    MultipleHasNoRemainder(q, alignment);
    assert n == (n / alignment) * alignment + n % alignment;
    assert q * alignment == (n / alignment) * alignment + alignment;
    q * alignment
  }

  /** A segment that starts where every issued segment has ended overlaps none of them. */
  lemma AboveHighWaterIsFresh(segments: seq<Segment>, next: Segment)
    requires next.address >= HighWater(segments)
    ensures forall i :: 0 <= i < |segments| ==> !Overlaps(segments[i], next)
  {
  }

  class Arena {
    const kind: Kind
    /** The owner thread of a confined arena; none for the other kinds. */
    const owner: Option<ThreadId>
    /** Whether the arena scope is alive. */
    var alive: bool
    /** Operations in flight that need the arena to stay alive. */
    var pins: nat
    /** The segments handed out so far, in order. */
    var issued: seq<Segment>

    ghost predicate Valid()
      reads this
    {
      && (owner.Some? <==> kind == Confined)
      // only an explicit close ends an arena's life here (reclamation by the garbage
      // collector happens once nobody can call the arena any more)
      && (!IsExplicitlyCloseable(kind) ==> alive)
      && (!alive ==> pins == 0)
      && (forall i :: 0 <= i < |issued| ==>
            issued[i].scope == this && issued[i].address >= 0 && issued[i].byteSize >= 0)
      && PairwiseDisjoint(issued)
    }

    /** `Arena.ofAuto()`: an automatic arena, usable from any thread. */
    constructor OfAuto()
      ensures Valid()
      ensures kind == Automatic && owner == None && alive && pins == 0 && issued == []
    {
      kind, owner := Automatic, None;
      alive, pins, issued := true, 0, [];
    }

    /** `Arena.global()`: the arena whose segments live forever. */
    constructor OfGlobal()
      ensures Valid()
      ensures kind == Global && owner == None && alive && pins == 0 && issued == []
    {
      kind, owner := Global, None;
      alive, pins, issued := true, 0, [];
    }

    /** `Arena.ofConfined()`: a confined arena owned by the calling thread. */
    constructor OfConfined(caller: ThreadId)
      ensures Valid()
      ensures kind == Confined && owner == Some(caller) && alive && pins == 0 && issued == []
    {
      kind, owner := Confined, Some(caller);
      alive, pins, issued := true, 0, [];
    }

    /** `Arena.ofShared()`: a shared arena, usable and closeable from any thread. */
    constructor OfShared()
      ensures Valid()
      ensures kind == Shared && owner == None && alive && pins == 0 && issued == []
    {
      kind, owner := Shared, None;
      alive, pins, issued := true, 0, [];
    }

    /** `MemorySegment.isAccessibleBy(thread)` for the segments of this arena. */
    predicate IsAccessibleBy(thread: ThreadId): (r: bool)
      reads this
      ensures Valid() ==> (r <==> IsAccessibleFromMultipleThreads(kind) || owner == Some(thread))
    {
      owner.None? || owner == Some(thread)
    }

    /**
     * The check every use of the arena's segments goes through: the thread check first,
     * then the liveness check.
     */
    function CheckValidState(caller: ThreadId): (r: Outcome<ArenaError>)
      reads this
      ensures r == Pass <==> alive && IsAccessibleBy(caller)
      ensures !IsAccessibleBy(caller) ==> r == Fail(WrongThread)
      ensures IsAccessibleBy(caller) && !alive ==> r == Fail(IllegalState(AlreadyClosed))
    {
      if !IsAccessibleBy(caller) then Fail(WrongThread)
      else if !alive then Fail(IllegalState(AlreadyClosed))
      else Pass
    }

    /**
     * `allocate(byteSize, byteAlignment)`: a fresh segment of the requested size at an
     * address aligned as requested and overlapping no segment issued before.
     */
    method Allocate(byteSize: Long, byteAlignment: Long, caller: ThreadId) returns (r: Result<Segment, ArenaError>)
      requires Valid()
      modifies this`issued
      ensures Valid()
      ensures r == Err(IllegalArgument) <==> !ValidAllocationArguments(byteSize, byteAlignment)
      ensures ValidAllocationArguments(byteSize, byteAlignment) && CheckValidState(caller).Fail? ==>
                r == Err(CheckValidState(caller).error)
      ensures r.Ok? <==> ValidAllocationArguments(byteSize, byteAlignment) && CheckValidState(caller) == Pass
      ensures r.Ok? ==>
                && r.value.scope == this && r.value.byteSize == byteSize
                && r.value.address >= 0 && r.value.address % byteAlignment == 0
                && (forall i :: 0 <= i < |old(issued)| ==> !Overlaps(old(issued)[i], r.value))
                && issued == old(issued) + [r.value]
      ensures r.Err? ==> issued == old(issued)
    {
      if !(byteSize >= 0 && byteAlignment > 0 && IsPowerOfTwo(byteAlignment)) {
        return Err(IllegalArgument);
      }
      var state := CheckValidState(caller);
      if state.Fail? {
        return Err(state.error);
      }
      var lowest := AlignUp(HighWater(issued), byteAlignment);
      AboveHighWaterIsFresh(issued, Segment(lowest, byteSize, this));
      var address: int :| address >= 0 && address % byteAlignment == 0
        && forall i :: 0 <= i < |issued| ==> !Overlaps(issued[i], Segment(address, byteSize, this));
      var segment := Segment(address, byteSize, this);
      issued := issued + [segment];
      r := Ok(segment);
    }

    /**
     * A pinned operation starts (a downcall receiving the arena's memory): it needs the
     * same thread and liveness checks as an access, and keeps the arena from closing.
     */
    method Acquire(caller: ThreadId) returns (r: Outcome<ArenaError>)
      requires Valid()
      modifies this`pins
      ensures Valid()
      ensures r == CheckValidState(caller)
      ensures pins == if r == Pass then old(pins) + 1 else old(pins)
    {
      r := CheckValidState(caller);
      if r == Pass {
        pins := pins + 1;
      }
    }

    /** A pinned operation ends; it pairs with a successful Acquire. */
    method Release()
      requires Valid() && pins > 0
      modifies this`pins
      ensures Valid()
      ensures pins == old(pins) - 1
    {
      pins := pins - 1;
    }

    /**
     * `close()`: unsupported for the global and automatic arenas; for a confined arena
     * only its owner may close it; a closed arena cannot be closed again; an arena with a
     * segment in use cannot be closed. Only a close that completes normally ends the
     * arena's life.
     */
    method Close(caller: ThreadId) returns (r: Outcome<ArenaError>)
      requires Valid()
      modifies this`alive
      ensures Valid()
      ensures !IsExplicitlyCloseable(kind) ==> r == Fail(UnsupportedOperation)
      ensures IsExplicitlyCloseable(kind) && !IsAccessibleBy(caller) ==> r == Fail(WrongThread)
      ensures IsExplicitlyCloseable(kind) && IsAccessibleBy(caller) ==>
                r == if !old(alive) then Fail(IllegalState(AlreadyClosed))
                     else if pins > 0 then Fail(IllegalState(AccessedConcurrently))
                     else Pass
      ensures alive == (old(alive) && r != Pass)
    {
      if !IsExplicitlyCloseable(kind) {
        return Fail(UnsupportedOperation);
      }
      r := CheckValidState(caller);
      if r == Pass {
        if pins > 0 {
          r := Fail(IllegalState(AccessedConcurrently));
        } else {
          alive := false;
        }
      }
    }
  }

  /** Once an arena is closed, every use of its segments fails, from every thread. */
  lemma ClosedArenaRejectsAccess(segment: Segment, caller: ThreadId)
    requires !segment.scope.alive
    ensures segment.scope.CheckValidState(caller).Fail?
    ensures segment.scope.IsAccessibleBy(caller) ==>
              segment.scope.CheckValidState(caller) == Fail(IllegalState(AlreadyClosed))
  {
  }

  /**
   * The last column of the table: a live arena's segments are usable from every thread
   * exactly when its kind is accessible from multiple threads.
   */
  lemma AccessFromEveryThread(arena: Arena)
    requires arena.Valid() && arena.alive
    ensures (forall t: ThreadId :: arena.CheckValidState(t) == Pass)
              <==> IsAccessibleFromMultipleThreads(arena.kind)
  {
    if arena.kind == Confined {
      var other: ThreadId := arena.owner.value + 1;
      assert arena.CheckValidState(other) == Fail(WrongThread);
    }
  }

  /**
   * The global and automatic arenas cannot be closed and confine nobody, so only bad
   * arguments can make their allocations fail.
   */
  lemma NonCloseableArenaAlwaysUsable(arena: Arena, caller: ThreadId)
    requires arena.Valid() && !IsExplicitlyCloseable(arena.kind)
    ensures arena.CheckValidState(caller) == Pass
  {
  }

  /**
   * A confined arena used as in the JDK tests: two aligned allocations that do not
   * overlap, a close from another thread that fails and leaves the arena usable, a close by
   * the owner, then an allocation and a second close that both fail as already closed.
   */
  method ConfinedScenario(owner: ThreadId, other: ThreadId)
    requires owner != other
  {
    var arena := new Arena.OfConfined(owner);
    var s1 := arena.Allocate(16, 8, owner);
    var s2 := arena.Allocate(16, 8, owner);
    assert s1.Ok? && s2.Ok?;
    assert s1.value.address % 8 == 0 && s2.value.address % 8 == 0;
    assert arena.issued[0] == s1.value && arena.issued[1] == s2.value;
    assert s1.value.End() <= s2.value.address || s2.value.End() <= s1.value.address;
    var stolen := arena.Close(other);
    assert stolen == Fail(WrongThread) && arena.alive;
    var s3 := arena.Allocate(16, 8, owner);
    assert s3.Ok?;
    var closed := arena.Close(owner);
    assert closed == Pass;
    ClosedArenaRejectsAccess(s1.value, owner);
    var s4 := arena.Allocate(16, 8, owner);
    assert s4 == Err(IllegalState(AlreadyClosed));
    var again := arena.Close(owner);
    assert again == Fail(IllegalState(AlreadyClosed));
  }

  /**
   * A shared arena closed while a downcall holds its memory: the close fails, and succeeds
   * from any thread once the downcall has finished.
   */
  method SharedPinnedScenario(caller: ThreadId, closer: ThreadId)
  {
    var arena := new Arena.OfShared();
    var pin := arena.Acquire(caller);
    assert pin == Pass;
    var busy := arena.Close(closer);
    assert busy == Fail(IllegalState(AccessedConcurrently)) && arena.alive;
    arena.Release();
    var closed := arena.Close(closer);
    assert closed == Pass && !arena.alive;
    var late := arena.Acquire(caller);
    assert late == Fail(IllegalState(AlreadyClosed));
  }
}
