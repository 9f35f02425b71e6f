/**
 * The size, alignment and name core shared by every memory layout. A layout stores its
 * size and alignment in bytes but is built from, and reports, bit quantities; it never
 * changes once built, and the `with` operations build a new layout of the same kind.
 */
module Layouts {
  import opened Results
  import opened JavaLong
  import Decimal

  /** The IllegalArgumentException thrown for a rejected alignment, with the value in its message. */
  datatype LayoutError = InvalidAlignment(value: Long)

  /** What the size check (not part of this model) lets through: a non-negative whole number of bytes. */
  predicate BitSizeValid(bitSize: Long) {
    bitSize >= 0 && bitSize % 8 == 0
  }

  /**
   * `(value & (value - 1)) != 0L || value < 8` rejects the alignment; otherwise it is
   * returned unchanged.
   */
  function RequirePowerOfTwoAndGreaterOrEqualToEight(value: Long): (r: Result<Long, LayoutError>)
    ensures r.Ok? <==> IsPowerOfTwo(value) && value >= 8
    ensures r.Ok? ==> r.value == value
    ensures r.Err? ==> r.error == InvalidAlignment(value)
  {
    BitTrickCharacterisation(value);
    if AndUnsigned(value, Sub(value, 1)) != 0 || value < 8 then Err(InvalidAlignment(value))
    else Ok(value)
  }

  /** The two values that pass the bit trick without being powers of two are still rejected. */
  lemma ZeroAndMinValueRejected()
    ensures AndUnsigned(0, Sub(0, 1)) == 0 && RequirePowerOfTwoAndGreaterOrEqualToEight(0).Err?
    ensures AndUnsigned(MIN_VALUE, Sub(MIN_VALUE, 1)) == 0
    ensures RequirePowerOfTwoAndGreaterOrEqualToEight(MIN_VALUE).Err?
  {
    BitTrickCharacterisation(0);
    BitTrickCharacterisation(MIN_VALUE);
  }

  datatype Layout = Layout(byteSize: int, byteAlignment: int, name: Option<string>)
  {
    /** The values a constructed layout can hold. */
    predicate WellFormed() {
      && 0 <= byteSize && byteSize * 8 <= MAX_VALUE
      && IsPowerOfTwo(byteAlignment) && byteAlignment * 8 <= MAX_VALUE
    }

    /** The alignment in bits: a valid bit alignment whose eighth is the stored byte alignment. */
    function BitAlignment(): (r: Long)
      requires WellFormed()
      ensures IsPowerOfTwo(r) && r >= 8
      ensures r % 8 == 0 && r / 8 == byteAlignment
    {
      PowerOfTwoTimesEight(byteAlignment);
      byteAlignment * 8
    }

    /** The size in bits: a valid bit size whose eighth is the stored byte size. */
    function BitSize(): (r: Long)
      requires WellFormed()
      ensures BitSizeValid(r) && r / 8 == byteSize
    {
      byteSize * 8
    }

    /** The layout is aligned to its own size, whether counted in bytes or in bits. */
    predicate HasNaturalAlignment(): (r: bool)
      ensures WellFormed() ==> (r <==> BitSize() == BitAlignment())
    {
      byteSize == byteAlignment
    }

    /** Java's `equals` on layouts: same name, same byte size, same byte alignment. */
    predicate Equals(other: Layout): (r: bool)
      ensures r <==> this == other
    {
      name == other.name && byteSize == other.byteSize && byteAlignment == other.byteAlignment
    }

    /**
     * The subclasses' `dup`: a layout of the same kind and bit size with the given
     * alignment and name, built through the constructor.
     */
    function Dup(bitAlignment: Long, newName: Option<string>): (r: Result<Layout, LayoutError>)
      requires WellFormed()
      ensures r.Ok? <==> IsPowerOfTwo(bitAlignment) && bitAlignment >= 8
      ensures r.Err? ==> r.error == InvalidAlignment(bitAlignment)
      ensures r.Ok? ==> && r.value.WellFormed() && r.value.byteSize == byteSize
                        && r.value.BitAlignment() == bitAlignment && r.value.name == newName
    {
      NewLayout(BitSize(), bitAlignment, newName)
    }

    /** The same layout with a name: size and alignment are unchanged. */
    function WithName(newName: string): (r: Layout)
      requires WellFormed()
      ensures r.WellFormed()
      ensures r.name == Some(newName)
      ensures r.byteSize == byteSize && r.byteAlignment == byteAlignment
    {
      Dup(BitAlignment(), Some(newName)).value
    }

    /**
     * The same layout with another alignment, rejected exactly as the constructor rejects
     * it; size and name are unchanged.
     */
    function WithBitAlignment(bitAlignment: Long): (r: Result<Layout, LayoutError>)
      requires WellFormed()
      ensures r.Ok? <==> IsPowerOfTwo(bitAlignment) && bitAlignment >= 8
      ensures r.Err? ==> r.error == InvalidAlignment(bitAlignment)
      ensures r.Ok? ==> r.value.WellFormed() && r.value.BitAlignment() == bitAlignment
      ensures r.Ok? ==> r.value.name == name && r.value.byteSize == byteSize
    {
      Dup(bitAlignment, name)
    }

    /**
     * Decorates the text `s` of a layout: the name in parentheses after it when there is one,
     * then the bit alignment and `%` in front when the alignment is not natural.
     */
    function DecorateLayoutString(s: string): (r: string)
      requires WellFormed()
      ensures r == s <==> HasNaturalAlignment() && name.None?
      ensures name.Some? ==> |r| >= |s| + 2 && r[|r| - 1] == ')'
      ensures !HasNaturalAlignment() ==> |r| >= |s| + 2 && Decimal.IsDigit(r[0])
    {
      var named := if name.Some? then s + "(" + name.value + ")" else s;
      if !HasNaturalAlignment() then Decimal.NatToString(BitAlignment()) + "%" + named else named
    }
  }

  /**
   * The constructor: the size check is the caller's precondition, the alignment check
   * either rejects the alignment or the bit quantities are stored as bytes.
   */
  function NewLayout(bitSize: Long, bitAlignment: Long, name: Option<string>): (r: Result<Layout, LayoutError>)
    requires BitSizeValid(bitSize)
    ensures r.Ok? <==> IsPowerOfTwo(bitAlignment) && bitAlignment >= 8
    ensures r.Err? ==> r.error == InvalidAlignment(bitAlignment)
    ensures r.Ok? ==> r.value.WellFormed() && r.value.name == name
    ensures r.Ok? ==> r.value.BitSize() == bitSize && r.value.BitAlignment() == bitAlignment
  {
    match RequirePowerOfTwoAndGreaterOrEqualToEight(bitAlignment)
    case Err(e) => Err(e)
    case Ok(a) =>
      PowerOfTwoEighth(a);
      Ok(Layout(bitSize / 8, a / 8, name))
  }

  /** Rebuilding a layout from its own bit size, bit alignment and name gives it back. */
  lemma RebuildIsIdentity(l: Layout)
    requires l.WellFormed()
    ensures NewLayout(l.BitSize(), l.BitAlignment(), l.name) == Ok(l)
  {
  }

  /** Renaming to the current name, or realigning to the current alignment, changes nothing. */
  lemma WithCurrentValuesIsIdentity(l: Layout)
    requires l.WellFormed()
    ensures l.name.Some? ==> l.WithName(l.name.value) == l
    ensures l.WithBitAlignment(l.BitAlignment()) == Ok(l)
  {
  }

  /** The last rename wins, and renaming commutes with realigning. */
  lemma WithNameComposes(l: Layout, first: string, second: string, bitAlignment: Long)
    requires l.WellFormed()
    ensures l.WithName(first).WithName(second) == l.WithName(second)
    ensures l.WithBitAlignment(bitAlignment).Ok? ==>
      l.WithBitAlignment(bitAlignment).value.WithName(first)
        == l.WithName(first).WithBitAlignment(bitAlignment).value
  {
  }

  /** `equals` is reflexive, symmetric and transitive. */
  lemma EqualsIsEquivalence(a: Layout, b: Layout, c: Layout)
    ensures a.Equals(a)
    ensures a.Equals(b) ==> b.Equals(a)
    ensures a.Equals(b) && b.Equals(c) ==> a.Equals(c)
  {
  }

  /**
   * The decorated text is `s` itself exactly when the layout is unnamed and naturally
   * aligned; a name appears in parentheses at the end; an unnatural alignment appears in
   * front as decimal text followed by `%`, and reading that text back gives the bit alignment.
   */
  lemma DecorationReadsBack(l: Layout, s: string)
    requires l.WellFormed()
    ensures var r := l.DecorateLayoutString(s);
      var suffix := if l.name.Some? then "(" + l.name.value + ")" else "";
      var k := |r| - |s| - |suffix| - 1;
      && (r == s <==> l.HasNaturalAlignment() && l.name.None?)
      && (l.HasNaturalAlignment() ==> r == s + suffix)
      && (!l.HasNaturalAlignment() ==>
            && 1 <= k && r[k] == '%' && r[k + 1..] == s + suffix
            && r[..k] == Decimal.NatToString(l.BitAlignment())
            && Decimal.IsDecimal(r[..k]) && (k >= 2 ==> r[0] != '0')
            && Decimal.ParseDecimal(r[..k]) == l.BitAlignment())
  {
    var r := l.DecorateLayoutString(s);
    var suffix := if l.name.Some? then "(" + l.name.value + ")" else "";
    var named := s + suffix;
    if !l.HasNaturalAlignment() {
      var digits := Decimal.NatToString(l.BitAlignment());
      assert r == digits + "%" + named;
      var k := |digits|;
      assert r[..k] == digits;
      assert r[k + 1..] == named;
      Decimal.ParseNatToString(l.BitAlignment());
      assert |r| > |s|;
    } else {
      assert r == named;
    }
  }
}
