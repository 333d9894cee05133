/**
 * The fixed header of a class file and the offset chain that locates each
 * later table (the `ClassFile` structure of section 4.1 of The Java Virtual
 * Machine Specification): magic, versions, constant pool, access flags,
 * this/super, interfaces, fields, methods and attributes. The byte lengths of
 * the constant pool, the field table and the method table are what their
 * decoders report; they are inputs here.
 */
module ClassFileLayout {
  import opened Wrappers

  newtype byte = x: int | 0 <= x < 0x100

  /** An unsigned two-byte item. */
  type u2 = x: nat | x < 0x1_0000

  const OffsetOfMagic: nat := 0
  const OffsetOfMinor: nat := 4
  const OffsetOfMajor: nat := 6
  const OffsetOfConstantPoolCount: nat := 8
  const OffsetOfConstantPool: nat := 10

  const Magic: nat := 0xCAFEBABE

  /** The big-endian two-byte item at `off`; reading past the end fails. */
  function U2At(data: seq<byte>, off: nat): (r: Option<u2>)
    ensures r.Some? <==> off + 2 <= |data|
  {
    if off + 2 <= |data| then Some(data[off] as nat * 0x100 + data[off + 1] as nat) else None
  }

  /** The big-endian four-byte item at `off`; reading past the end fails. */
  function U4At(data: seq<byte>, off: nat): (r: Option<nat>)
    ensures r.Some? <==> off + 4 <= |data|
  {
    if off + 4 <= |data| then
      Some(((data[off] as nat * 0x100 + data[off + 1] as nat) * 0x100 + data[off + 2] as nat) * 0x100
           + data[off + 3] as nat)
    else None
  }

  /** `n` consecutive two-byte items from `off` (the interface table). */
  function U2sAt(data: seq<byte>, off: nat, n: nat): (r: Option<seq<u2>>)
    ensures r.Some? ==> |r.value| == n
    decreases n
  {
    if n == 0 then Some([])
    else match U2At(data, off)
      case None => None
      case Some(v) =>
        match U2sAt(data, off + 2, n - 1)
        case None => None
        case Some(rest) => Some([v] + rest)
  }

  function EncodeU2(v: u2): (bytes: seq<byte>)
    ensures |bytes| == 2
  {
    [(v / 0x100) as byte, (v % 0x100) as byte]
  }

  function EncodeU4(v: nat): (bytes: seq<byte>)
    requires v < 0x1_0000_0000
    ensures |bytes| == 4
  {
    var q1 := v / 0x100;
    var q2 := q1 / 0x100;
    [(q2 / 0x100) as byte, (q2 % 0x100) as byte, (q1 % 0x100) as byte, (v % 0x100) as byte]
  }

  function EncodeU2s(vs: seq<u2>): (bytes: seq<byte>)
    ensures |bytes| == 2 * |vs|
    decreases |vs|
  {
    if vs == [] then [] else EncodeU2(vs[0]) + EncodeU2s(vs[1..])
  }

  /** A two-byte item reads back wherever it is placed. */
  lemma U2RoundTrip(pre: seq<byte>, v: u2, post: seq<byte>)
    ensures U2At(pre + EncodeU2(v) + post, |pre|) == Some(v)
  {
    var data := pre + EncodeU2(v) + post;
    assert data[|pre|] == (v / 0x100) as byte && data[|pre| + 1] == (v % 0x100) as byte;
  }

  /** A four-byte item reads back wherever it is placed. */
  lemma U4RoundTrip(pre: seq<byte>, v: nat, post: seq<byte>)
    requires v < 0x1_0000_0000
    ensures U4At(pre + EncodeU4(v) + post, |pre|) == Some(v)
  {
    var data := pre + EncodeU4(v) + post;
    var n := |pre|;
    var q1 := v / 0x100;
    var q2 := q1 / 0x100;
    assert data[n] as nat == q2 / 0x100;
    assert data[n + 1] as nat == q2 % 0x100;
    assert data[n + 2] as nat == q1 % 0x100;
    assert data[n + 3] as nat == v % 0x100;
    assert q2 == q2 / 0x100 * 0x100 + q2 % 0x100;
    assert q1 == q2 * 0x100 + q1 % 0x100;
    assert v == q1 * 0x100 + v % 0x100;
  }

  /** An encoded run of two-byte items reads back wherever it is placed. */
  lemma {:induction false} U2sRoundTrip(pre: seq<byte>, vs: seq<u2>, post: seq<byte>)
    ensures U2sAt(pre + EncodeU2s(vs) + post, |pre|, |vs|) == Some(vs)
    decreases |vs|
  {
    if vs != [] {
      var data := pre + EncodeU2s(vs) + post;
      assert data == pre + EncodeU2(vs[0]) + (EncodeU2s(vs[1..]) + post);
      U2RoundTrip(pre, vs[0], EncodeU2s(vs[1..]) + post);
      assert data == (pre + EncodeU2(vs[0])) + EncodeU2s(vs[1..]) + post;
      U2sRoundTrip(pre + EncodeU2(vs[0]), vs[1..], post);
      assert [vs[0]] + vs[1..] == vs;
    }
  }

  /** Why the header cannot be read: too short, or not a class file at all. */
  datatype LayoutError = Truncated | BadMagic

  /**
   * What the constructor reads from the header and the offsets it computes
   * for the count of each later table.
   */
  datatype Layout = Layout(
    minorVer: u2,
    majorVer: u2,
    constantPoolCount: u2,
    accessFlagsOffset: nat,
    accessFlags: u2,
    thisClassIndex: u2,
    superClassIndex: u2,
    interfaceIndices: seq<u2>,
    fieldsCountOffset: nat,
    numFields: u2,
    methodsCountOffset: nat,
    numMethods: u2,
    attributesCountOffset: nat,
    numAttributes: u2)

  /**
   * The constant-pool index of the superclass, or none: index 0 stands for
   * "no superclass" (only `java.lang.Object` has none).
   */
  function SuperClassIndex(layout: Layout): (r: Option<u2>)
    ensures r.None? <==> layout.superClassIndex == 0
    ensures r.Some? ==> r.value == layout.superClassIndex
  {
    if layout.superClassIndex == 0 then None else Some(layout.superClassIndex)
  }

  /**
   * The constructor's header pass. The magic is checked first; each later
   * offset is the previous one plus the byte length of the item just read:
   * two bytes for access flags, this, super and the interface count, two per
   * interface, and the reported lengths of the constant pool, field and
   * method tables (each after its own two-byte count).
   */
  function ParseLayout(data: seq<byte>, cpLength: nat, fieldsLength: nat, methodsLength: nat)
    : (r: Result<Layout, LayoutError>)
    ensures r.Ok? ==> U4At(data, OffsetOfMagic) == Some(Magic)
    ensures r.Ok? ==> var l := r.value;
      && l.accessFlagsOffset == OffsetOfConstantPool + cpLength
      && l.fieldsCountOffset == l.accessFlagsOffset + 8 + 2 * |l.interfaceIndices|
      && l.methodsCountOffset == l.fieldsCountOffset + 2 + fieldsLength
      && l.attributesCountOffset == l.methodsCountOffset + 2 + methodsLength
  {
    match U4At(data, OffsetOfMagic)
    case None => Err(Truncated)
    case Some(magic) =>
      if magic != Magic then Err(BadMagic)
      else
        var accessFlagsOffset := OffsetOfConstantPool + cpLength;
        var thisClassOffset := accessFlagsOffset + 2;
        var superClassOffset := thisClassOffset + 2;
        var interfacesCountOffset := superClassOffset + 2;
        var interfacesOffset := interfacesCountOffset + 2;
        var minor := U2At(data, OffsetOfMinor);
        var major := U2At(data, OffsetOfMajor);
        var cpCount := U2At(data, OffsetOfConstantPoolCount);
        var numInterfaces := U2At(data, interfacesCountOffset);
        if minor.None? || major.None? || cpCount.None? || numInterfaces.None? then Err(Truncated)
        else
          var fieldsCountOffset: nat := interfacesOffset + 2 * numInterfaces.value;
          var methodsCountOffset: nat := fieldsCountOffset + 2 + fieldsLength;
          var attributesCountOffset: nat := methodsCountOffset + 2 + methodsLength;
          var interfaces := U2sAt(data, interfacesOffset, numInterfaces.value);
          var thisClass := U2At(data, thisClassOffset);
          var access := U2At(data, accessFlagsOffset);
          var numFields := U2At(data, fieldsCountOffset);
          var numMethods := U2At(data, methodsCountOffset);
          var numAttributes := U2At(data, attributesCountOffset);
          var superClass := U2At(data, superClassOffset);
          if interfaces.None? || thisClass.None? || access.None? || numFields.None?
             || numMethods.None? || numAttributes.None? || superClass.None? then Err(Truncated)
          else
            Ok(Layout(minor.value, major.value, cpCount.value, accessFlagsOffset, access.value,
                      thisClass.value, superClass.value, interfaces.value,
                      fieldsCountOffset, numFields.value, methodsCountOffset, numMethods.value,
                      attributesCountOffset, numAttributes.value))
  }

  /** Construction is refused as not a class file exactly when four bytes are there and they are not `0xCAFEBABE`. */
  lemma BadMagicExactly(data: seq<byte>, cpLength: nat, fieldsLength: nat, methodsLength: nat)
    ensures ParseLayout(data, cpLength, fieldsLength, methodsLength) == Err(BadMagic)
        <==> |data| >= 4 && U4At(data, OffsetOfMagic).value != Magic
  {
  }

  /**
   * The items of a class file laid out as section 4.1 of The Java Virtual
   * Machine Specification orders them; the constant pool, field, method and
   * attribute tables are opaque bytes here.
   */
  datatype ClassImage = ClassImage(
    minorVer: u2,
    majorVer: u2,
    constantPoolCount: u2,
    constantPool: seq<byte>,
    accessFlags: u2,
    thisClass: u2,
    superClass: u2,
    interfaces: seq<u2>,
    numFields: u2,
    fields: seq<byte>,
    numMethods: u2,
    methods: seq<byte>,
    numAttributes: u2,
    attributes: seq<byte>)

  function Encode(img: ClassImage): (data: seq<byte>)
    requires |img.interfaces| < 0x1_0000
  {
    EncodeU4(Magic) + EncodeU2(img.minorVer) + EncodeU2(img.majorVer) + EncodeU2(img.constantPoolCount)
    + (img.constantPool + Middle(img))
  }

  /** Access flags, this, super and the interface table. */
  function Middle(img: ClassImage): (data: seq<byte>)
    requires |img.interfaces| < 0x1_0000
  {
    EncodeU2(img.accessFlags) + EncodeU2(img.thisClass) + EncodeU2(img.superClass)
    + EncodeU2(|img.interfaces|) + (EncodeU2s(img.interfaces) + Tables(img))
  }

  /** The field, method and attribute tables, each after its count. */
  function Tables(img: ClassImage): (data: seq<byte>) {
    EncodeU2(img.numFields) + (img.fields + (EncodeU2(img.numMethods) + (img.methods
    + (EncodeU2(img.numAttributes) + img.attributes))))
  }

  /** Reading a two-byte item is unaffected by bytes placed in front, apart from the shift. */
  lemma U2AtShift(pre: seq<byte>, data: seq<byte>, off: nat)
    ensures U2At(pre + data, |pre| + off) == U2At(data, off)
  {
    if off + 2 <= |data| {
      assert (pre + data)[|pre| + off] == data[off];
      assert (pre + data)[|pre| + off + 1] == data[off + 1];
    }
  }

  lemma U2sAtShift(pre: seq<byte>, data: seq<byte>, off: nat, n: nat)
    ensures U2sAt(pre + data, |pre| + off, n) == U2sAt(data, off, n)
    decreases n
  {
    U2AtShift(pre, data, off);
    if n > 0 {
      U2sAtShift(pre, data, off + 2, n - 1);
    }
  }

  /** The count items of the three tables read back at their offsets. */
  lemma TablesRead(img: ClassImage)
    ensures var t := Tables(img);
      && U2At(t, 0) == Some(img.numFields)
      && U2At(t, 2 + |img.fields|) == Some(img.numMethods)
      && U2At(t, 4 + |img.fields| + |img.methods|) == Some(img.numAttributes)
  {
    var t := Tables(img);
    var rest := img.fields + (EncodeU2(img.numMethods) + (img.methods + (EncodeU2(img.numAttributes) + img.attributes)));
    U2RoundTrip([], img.numFields, rest);
    assert t == [] + EncodeU2(img.numFields) + rest;
    var pre1 := EncodeU2(img.numFields) + img.fields;
    var rest1 := img.methods + (EncodeU2(img.numAttributes) + img.attributes);
    assert t == pre1 + EncodeU2(img.numMethods) + rest1;
    U2RoundTrip(pre1, img.numMethods, rest1);
    var pre2 := pre1 + EncodeU2(img.numMethods) + img.methods;
    assert t == pre2 + EncodeU2(img.numAttributes) + img.attributes;
    U2RoundTrip(pre2, img.numAttributes, img.attributes);
  }

  /** The items between the constant pool and the tables read back at their offsets. */
  lemma MiddleRead(img: ClassImage)
    requires |img.interfaces| < 0x1_0000
    ensures var m := Middle(img);
      var n := |img.interfaces|;
      && U2At(m, 0) == Some(img.accessFlags)
      && U2At(m, 2) == Some(img.thisClass)
      && U2At(m, 4) == Some(img.superClass)
      && U2At(m, 6) == Some(n)
      && U2sAt(m, 8, n) == Some(img.interfaces)
      && U2At(m, 8 + 2 * n) == Some(img.numFields)
      && U2At(m, 10 + 2 * n + |img.fields|) == Some(img.numMethods)
      && U2At(m, 12 + 2 * n + |img.fields| + |img.methods|) == Some(img.numAttributes)
  {
    MiddleFrontRead(img);
    MiddleRestRead(img);
  }

  /** Access flags, this, super and the interface count. */
  lemma MiddleFrontRead(img: ClassImage)
    requires |img.interfaces| < 0x1_0000
    ensures var m := Middle(img);
      && U2At(m, 0) == Some(img.accessFlags)
      && U2At(m, 2) == Some(img.thisClass)
      && U2At(m, 4) == Some(img.superClass)
      && U2At(m, 6) == Some(|img.interfaces|)
  {
    var m := Middle(img);
    var a := EncodeU2(img.accessFlags);
    var b := EncodeU2(img.thisClass);
    var c := EncodeU2(img.superClass);
    var d := EncodeU2(|img.interfaces|);
    var r := EncodeU2s(img.interfaces) + Tables(img);
    assert m == [] + a + (b + c + d + r);
    U2RoundTrip([], img.accessFlags, b + c + d + r);
    assert m == a + b + (c + d + r);
    U2RoundTrip(a, img.thisClass, c + d + r);
    assert m == (a + b) + c + (d + r);
    U2RoundTrip(a + b, img.superClass, d + r);
    assert m == (a + b + c) + d + r;
    U2RoundTrip(a + b + c, |img.interfaces|, r);
  }

  /** The interface table after the first eight bytes, then the three table counts. */
  lemma MiddleRestRead(img: ClassImage)
    requires |img.interfaces| < 0x1_0000
    ensures var m := Middle(img);
      var n := |img.interfaces|;
      && U2sAt(m, 8, n) == Some(img.interfaces)
      && U2At(m, 8 + 2 * n) == Some(img.numFields)
      && U2At(m, 10 + 2 * n + |img.fields|) == Some(img.numMethods)
      && U2At(m, 12 + 2 * n + |img.fields| + |img.methods|) == Some(img.numAttributes)
  {
    var m := Middle(img);
    var pre := EncodeU2(img.accessFlags) + EncodeU2(img.thisClass) + EncodeU2(img.superClass)
      + EncodeU2(|img.interfaces|);
    var e := EncodeU2s(img.interfaces);
    var t := Tables(img);
    assert m == pre + (e + t);
    assert m == pre + e + t;
    U2sRoundTrip(pre, img.interfaces, t);
    TablesRead(img);
    U2AtShift(pre + e, t, 0);
    U2AtShift(pre + e, t, 2 + |img.fields|);
    U2AtShift(pre + e, t, 4 + |img.fields| + |img.methods|);
  }

  /** The header items read back at their fixed offsets, and the constant pool and the rest follow. */
  lemma HeaderRead(img: ClassImage)
    requires |img.interfaces| < 0x1_0000
    ensures var data := Encode(img);
      && U4At(data, OffsetOfMagic) == Some(Magic)
      && U2At(data, OffsetOfMinor) == Some(img.minorVer)
      && U2At(data, OffsetOfMajor) == Some(img.majorVer)
      && U2At(data, OffsetOfConstantPoolCount) == Some(img.constantPoolCount)
  {
    var data := Encode(img);
    var h1 := EncodeU4(Magic);
    var h2 := EncodeU2(img.minorVer);
    var h3 := EncodeU2(img.majorVer);
    var h4 := EncodeU2(img.constantPoolCount);
    var cpm := img.constantPool + Middle(img);
    assert data == [] + h1 + (h2 + h3 + h4 + cpm);
    U4RoundTrip([], Magic, h2 + h3 + h4 + cpm);
    assert data == h1 + h2 + (h3 + h4 + cpm);
    U2RoundTrip(h1, img.minorVer, h3 + h4 + cpm);
    assert data == (h1 + h2) + h3 + (h4 + cpm);
    U2RoundTrip(h1 + h2, img.majorVer, h4 + cpm);
    assert data == (h1 + h2 + h3) + h4 + cpm;
    U2RoundTrip(h1 + h2 + h3, img.constantPoolCount, cpm);
  }

  /** Everything after the constant pool is `Middle`, shifted by ten header bytes and the pool. */
  lemma AfterConstantPool(img: ClassImage)
    requires |img.interfaces| < 0x1_0000
    ensures var pre := Encode(img)[..10 + |img.constantPool|];
      |pre| == 10 + |img.constantPool| && Encode(img) == pre + Middle(img)
  {
    var pre := EncodeU4(Magic) + EncodeU2(img.minorVer) + EncodeU2(img.majorVer)
      + EncodeU2(img.constantPoolCount) + img.constantPool;
    assert Encode(img) == pre + Middle(img);
    assert Encode(img)[..10 + |img.constantPool|] == pre;
  }

  /**
   * The offset chain finds every item where the class-file format puts it:
   * parsing an encoded class file, given the true byte lengths of its
   * constant pool, field and method tables, gives back each header item,
   * each interface in order, and the offsets of the three table counts.
   */
  lemma ParseEncoded(img: ClassImage)
    requires |img.interfaces| < 0x1_0000
    ensures var r := ParseLayout(Encode(img), |img.constantPool|, |img.fields|, |img.methods|);
      var n := |img.interfaces|;
      var cp := |img.constantPool|;
      && r.Ok?
      && r.value.minorVer == img.minorVer && r.value.majorVer == img.majorVer
      && r.value.constantPoolCount == img.constantPoolCount
      && r.value.accessFlags == img.accessFlags
      && r.value.thisClassIndex == img.thisClass && r.value.superClassIndex == img.superClass
      && r.value.interfaceIndices == img.interfaces
      && r.value.numFields == img.numFields && r.value.numMethods == img.numMethods
      && r.value.numAttributes == img.numAttributes
      && r.value.accessFlagsOffset == 10 + cp
      && r.value.fieldsCountOffset == 18 + cp + 2 * n
      && r.value.methodsCountOffset == 20 + cp + 2 * n + |img.fields|
      && r.value.attributesCountOffset == 22 + cp + 2 * n + |img.fields| + |img.methods|
  {
    HeaderRead(img);
    AfterConstantPool(img);
    var pre := Encode(img)[..10 + |img.constantPool|];
    var m := Middle(img);
    MiddleRead(img);
    var n := |img.interfaces|;
    var fl := |img.fields|;
    var ml := |img.methods|;
    U2AtShift(pre, m, 0);
    U2AtShift(pre, m, 2);
    U2AtShift(pre, m, 4);
    U2AtShift(pre, m, 6);
    U2sAtShift(pre, m, 8, n);
    U2AtShift(pre, m, 8 + 2 * n);
    U2AtShift(pre, m, 10 + 2 * n + fl);
    U2AtShift(pre, m, 12 + 2 * n + fl + ml);
  }

  /** A class-file version; `before` orders by major, then minor version. */
  datatype ClassFileVersion = ClassFileVersion(major: int, minor: int)

  const Java6: ClassFileVersion := ClassFileVersion(50, 0)

  predicate Before(a: ClassFileVersion, b: ClassFileVersion) {
    a.major < b.major || (a.major == b.major && a.minor < b.minor)
  }
}
