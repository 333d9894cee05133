/**
 * Method access flags: the `access_flags` item of a `method_info` structure
 * (Table 4.6-A of The Java Virtual Machine Specification, section 4.6),
 * decoded bit by bit into a set of flags.
 */
module AccessFlagMethods {

  /** The flags in declaration order; each carries its display name. */
  datatype AccessFlagMethod =
    | ACC_PUBLIC
    | ACC_PRIVATE
    | ACC_PROTECTED
    | ACC_STATIC
    | ACC_FINAL
    | ACC_SYNCHRONISED
    | ACC_BRIDGE
    | ACC_VARARGS
    | ACC_NATIVE
    | ACC_ABSTRACT
    | ACC_STRICT
    | ACC_SYNTHETIC

  /** The bit each flag occupies in the raw mask. Bit 0x200 has no flag. */
  function Mask(f: AccessFlagMethod): bv32 {
    match f
    case ACC_PUBLIC => 0x1
    case ACC_PRIVATE => 0x2
    case ACC_PROTECTED => 0x4
    case ACC_STATIC => 0x8
    case ACC_FINAL => 0x10
    case ACC_SYNCHRONISED => 0x20
    case ACC_BRIDGE => 0x40
    case ACC_VARARGS => 0x80
    case ACC_NATIVE => 0x100
    case ACC_ABSTRACT => 0x400
    case ACC_STRICT => 0x800
    case ACC_SYNTHETIC => 0x1000
  }

  /** The union of all flag bits. */
  const KnownBits: bv32 := 0x1DFF

  /** A block comment `/* ... */`. */
  predicate IsComment(s: string) {
    && |s| >= 6
    && s[0] == '/' && s[1] == '*' && s[2] == ' '
    && s[|s| - 3] == ' ' && s[|s| - 2] == '*' && s[|s| - 1] == '/'
  }

  /**
   * The display name (`toString`) of a flag: the bridge, varargs, native and
   * synthetic flags show as block comments, every other flag as a bare
   * word.
   */
  function Name(f: AccessFlagMethod): (name: string)
    ensures IsComment(name) <==> f.ACC_BRIDGE? || f.ACC_VARARGS? || f.ACC_NATIVE? || f.ACC_SYNTHETIC?
  {
    match f
    case ACC_PUBLIC => "public"
    case ACC_PRIVATE => "private"
    case ACC_PROTECTED => "protected"
    case ACC_STATIC => "static"
    case ACC_FINAL => "final"
    case ACC_SYNCHRONISED => "synchronised"
    case ACC_BRIDGE => "/* bridge */"
    case ACC_VARARGS => "/* varargs */"
    case ACC_NATIVE => "/* native */"
    case ACC_ABSTRACT => "abstract"
    case ACC_STRICT => "strictfp"
    case ACC_SYNTHETIC => "/* synthetic */"
  }

  /** The source's test `0 != (raw & mask)`. */
  predicate Has(raw: bv32, mask: bv32) {
    raw & mask != 0
  }

  /**
   * `build(raw)`: the flags whose bit is set in `raw`. The source tests the
   * twelve masks one after another into a fresh set; a set comprehension over
   * the same masks denotes the same set. The raw value is a Java `int`, so a
   * 32-bit vector here.
   */
  function Build(raw: bv32): (flags: set<AccessFlagMethod>)
    ensures forall f :: f in flags <==> Has(raw, Mask(f))
  {
    set f: AccessFlagMethod | f in AllFlags && Has(raw, Mask(f))
  }

  /** Every flag, in declaration order. */
  const AllFlags: seq<AccessFlagMethod> := [
    ACC_PUBLIC, ACC_PRIVATE, ACC_PROTECTED, ACC_STATIC, ACC_FINAL, ACC_SYNCHRONISED,
    ACC_BRIDGE, ACC_VARARGS, ACC_NATIVE, ACC_ABSTRACT, ACC_STRICT, ACC_SYNTHETIC
  ]

  /** Every flag's bit lies inside `KnownBits`. */
  lemma MaskIsKnown(f: AccessFlagMethod)
    ensures KnownBits & Mask(f) == Mask(f)
  {
  }

  lemma AndAssociative(a: bv32, b: bv32, c: bv32)
    ensures (a & b) & c == a & (b & c)
  {
  }

  /** Clearing bits outside `k` does not change the bits of `m` when `m` lies inside `k`. */
  lemma AndWithin(a: bv32, k: bv32, m: bv32)
    requires k & m == m
    ensures Has(a & k, m) == Has(a, m)
  {
    assert (a & k) & m == a & m;
  }

  /** Two raw values that agree on every flag bit decode to the same set. */
  lemma BuildDependsOnFlagBits(a: bv32, b: bv32)
    requires forall f :: Has(a, Mask(f)) == Has(b, Mask(f))
    ensures Build(a) == Build(b)
  {
    forall f ensures f in Build(a) <==> f in Build(b) {
      assert Has(a, Mask(f)) == Has(b, Mask(f));
    }
  }

  /** Bit 0x200 and every bit above 0x1000 are ignored. */
  lemma BuildIgnoresUnknownBits(raw: bv32)
    ensures Build(raw) == Build(raw & KnownBits)
  {
    var known := raw & KnownBits;
    forall f ensures Has(raw, Mask(f)) == Has(known, Mask(f)) {
      MaskIsKnown(f);
      AndWithin(raw, KnownBits, Mask(f));
    }
    BuildDependsOnFlagBits(raw, known);
  }

  /** No bit set, no flag. */
  lemma BuildZero()
    ensures Build(0) == {}
  {
    forall f: AccessFlagMethod ensures f !in Build(0) {
      assert 0 & Mask(f) == 0;
    }
  }

  /** More bits never give fewer flags. */
  lemma BuildMonotone(raw1: bv32, raw2: bv32)
    requires raw1 & raw2 == raw1
    ensures Build(raw1) <= Build(raw2)
  {
    forall f | f in Build(raw1) ensures f in Build(raw2) {
      AndAssociative(raw1, raw2, Mask(f));
    }
  }

  /** Different flags have different display names. */
  lemma NamesDistinct(f: AccessFlagMethod, g: AccessFlagMethod)
    requires f != g
    ensures Name(f) != Name(g)
  {
  }
}
