/** Vertex layouts of `glsh`: the byte size of an OpenGL component type, a
    vertex attribute (the arguments of `glVertexAttribPointer`), a vertex
    format as an append-only list of attributes with a running byte total,
    the five preset formats and the vertex records they describe. */
module Vertex {

  // ---------------------------------------------------------------------
  // Component types

  /** OpenGL component type enumerants. */
  const GL_BYTE := 0x1400
  const GL_UNSIGNED_BYTE := 0x1401
  const GL_SHORT := 0x1402
  const GL_UNSIGNED_SHORT := 0x1403
  const GL_INT := 0x1404
  const GL_UNSIGNED_INT := 0x1405
  const GL_FLOAT := 0x1406
  const GL_HALF_FLOAT := 0x140B

  /** `sizeof(GLfloat)`. */
  const FloatSize := 4

  /** Attribute locations every vertex shader follows. */
  const VA_POSITION := 0
  const VA_COLOR := 1
  const VA_NORMAL := 2
  const VA_TEXCOORD := 3

  /** Bytes of one component of type `t`; 0 for a type the library does not
      know. */
  function GetGLTypeSize(t: int): (r: int)
    ensures r == 4 <==> t == GL_FLOAT || t == GL_INT || t == GL_UNSIGNED_INT
    ensures r == 2 <==> t == GL_HALF_FLOAT || t == GL_SHORT || t == GL_UNSIGNED_SHORT
    ensures r == 1 <==> t == GL_BYTE || t == GL_UNSIGNED_BYTE
    ensures r == 0 || r == 1 || r == 2 || r == 4
  {
    if t == GL_FLOAT || t == GL_INT || t == GL_UNSIGNED_INT then 4
    else if t == GL_HALF_FLOAT || t == GL_SHORT || t == GL_UNSIGNED_SHORT then 2
    else if t == GL_BYTE || t == GL_UNSIGNED_BYTE then 1
    else 0
  }

  // ---------------------------------------------------------------------
  // Attributes

  /** One attribute: shader location, component count, component type,
      stride and byte offset within the vertex. */
  datatype VertexAttrib = VertexAttrib(index: int, size: int, componentType: int, stride: int, offset: int)
  {
    /** Component count times component size. */
    function SizeInBytes(): (r: int)
      ensures GetGLTypeSize(componentType) == 0 ==> r == 0
      ensures componentType == GL_FLOAT ==> r == FloatSize * size
      ensures r == size * GetGLTypeSize(componentType)
    {
      size * GetGLTypeSize(componentType)
    }
  }

  /** The all-zero attribute of the default constructor. */
  const DefaultAttrib := VertexAttrib(0, 0, 0, 0, 0)

  lemma DefaultAttribEmpty()
    ensures DefaultAttrib.SizeInBytes() == 0
    ensures GetGLTypeSize(DefaultAttrib.componentType) == 0
  {
  }

  /** The byte size of a list of attributes, summed from the front. */
  function TotalSize(attribs: seq<VertexAttrib>): int
    decreases |attribs|
  {
    if attribs == [] then 0 else attribs[0].SizeInBytes() + TotalSize(attribs[1..])
  }

  /** Appending an attribute adds its size to the total. */
  lemma {:induction false} TotalSizeAppend(attribs: seq<VertexAttrib>, va: VertexAttrib)
    ensures TotalSize(attribs + [va]) == TotalSize(attribs) + va.SizeInBytes()
    decreases |attribs|
  {
    if attribs == [] {
      assert attribs + [va] == [va];
      assert [va][1..] == [];
    } else {
      assert (attribs + [va])[1..] == attribs[1..] + [va];
      TotalSizeAppend(attribs[1..], va);
    }
  }

  // ---------------------------------------------------------------------
  // Formats

  /** A vertex layout: its attributes in the order they were added, and the
      total of their byte sizes. */
  class VertexFormat {
    var attribs: seq<VertexAttrib>
    var size: int

    /** The running total is the sum of the attribute sizes. */
    ghost predicate Valid()
      reads this
    {
      size == TotalSize(attribs)
    }

    /** An empty format of size 0. */
    constructor ()
      ensures Valid() && attribs == [] && size == 0
    {
      attribs := [];
      size := 0;
    }

    constructor One(va: VertexAttrib)
      ensures Valid() && attribs == [va]
    {
      attribs := [];
      size := 0;
      new;
      AddAttrib(va);
    }

    constructor Two(va1: VertexAttrib, va2: VertexAttrib)
      ensures Valid() && attribs == [va1, va2]
    {
      attribs := [];
      size := 0;
      new;
      AddAttrib(va1);
      AddAttrib(va2);
    }

    constructor Three(va1: VertexAttrib, va2: VertexAttrib, va3: VertexAttrib)
      ensures Valid() && attribs == [va1, va2, va3]
    {
      attribs := [];
      size := 0;
      new;
      AddAttrib(va1);
      AddAttrib(va2);
      AddAttrib(va3);
    }

    constructor Four(va1: VertexAttrib, va2: VertexAttrib, va3: VertexAttrib, va4: VertexAttrib)
      ensures Valid() && attribs == [va1, va2, va3, va4]
    {
      attribs := [];
      size := 0;
      new;
      AddAttrib(va1);
      AddAttrib(va2);
      AddAttrib(va3);
      AddAttrib(va4);
    }

    /** Appends `va` and adds its byte size to the total; the attributes
        already there keep their positions. */
    method AddAttrib(va: VertexAttrib)
      modifies this
      ensures attribs == old(attribs) + [va]
      ensures size == old(size) + va.SizeInBytes()
      ensures old(Valid()) ==> Valid()
    {
      TotalSizeAppend(attribs, va);
      attribs := attribs + [va];
      size := size + va.SizeInBytes();
    }

    function NumAttribs(): (r: nat)
      reads this
      ensures r == |attribs|
    {
      |attribs|
    }

    /** The `i`-th attribute added (unchecked in the source: `i` must be in
        range). */
    function GetAttrib(i: int): (r: VertexAttrib)
      reads this
      requires 0 <= i < |attribs|
      ensures r == attribs[i]
    {
      attribs[i]
    }

    function VertexSizeInBytes(): (r: int)
      reads this
      requires Valid()
      ensures r == TotalSize(attribs)
    {
      size
    }
  }

  // ---------------------------------------------------------------------
  // Presets

  /** Attributes packed one after another in a vertex of their total size:
      every attribute has that stride, and starts where the ones before it
      end. */
  predicate Interleaved(attribs: seq<VertexAttrib>)
  {
    forall k :: 0 <= k < |attribs| ==>
      attribs[k].stride == TotalSize(attribs) && attribs[k].offset == TotalSize(attribs[..k])
  }

  const PositionFormat: seq<VertexAttrib> :=
    [VertexAttrib(VA_POSITION, 3, GL_FLOAT, 3 * FloatSize, 0)]

  const PositionColorFormat: seq<VertexAttrib> :=
    [VertexAttrib(VA_POSITION, 3, GL_FLOAT, 7 * FloatSize, 0),
     VertexAttrib(VA_COLOR, 4, GL_FLOAT, 7 * FloatSize, 3 * FloatSize)]

  const PositionTextureFormat: seq<VertexAttrib> :=
    [VertexAttrib(VA_POSITION, 3, GL_FLOAT, 5 * FloatSize, 0),
     VertexAttrib(VA_TEXCOORD, 2, GL_FLOAT, 5 * FloatSize, 3 * FloatSize)]

  const PositionNormalFormat: seq<VertexAttrib> :=
    [VertexAttrib(VA_POSITION, 3, GL_FLOAT, 6 * FloatSize, 0),
     VertexAttrib(VA_NORMAL, 3, GL_FLOAT, 6 * FloatSize, 3 * FloatSize)]

  const PositionNormalTextureFormat: seq<VertexAttrib> :=
    [VertexAttrib(VA_POSITION, 3, GL_FLOAT, 8 * FloatSize, 0),
     VertexAttrib(VA_NORMAL, 3, GL_FLOAT, 8 * FloatSize, 3 * FloatSize),
     VertexAttrib(VA_TEXCOORD, 2, GL_FLOAT, 8 * FloatSize, 6 * FloatSize)]

  /** A two-attribute format is interleaved when the first starts at 0, the
      second right after it, and both strides are the total. */
  lemma InterleavedTwo(attribs: seq<VertexAttrib>)
    requires |attribs| == 2
    requires attribs[0].offset == 0 && attribs[1].offset == attribs[0].SizeInBytes()
    requires attribs[0].stride == attribs[1].stride == attribs[0].SizeInBytes() + attribs[1].SizeInBytes()
    ensures TotalSize(attribs) == attribs[0].SizeInBytes() + attribs[1].SizeInBytes()
    ensures Interleaved(attribs)
  {
    assert attribs[1..][1..] == [];
    assert attribs[..1][1..] == [];
    assert attribs[..0] == [];
  }

  lemma PositionPreset()
    ensures TotalSize(PositionFormat) == 12 && Interleaved(PositionFormat)
  {
    assert PositionFormat[1..] == [];
    assert PositionFormat[..0] == [];
  }

  lemma PositionColorPreset()
    ensures TotalSize(PositionColorFormat) == 28 && Interleaved(PositionColorFormat)
    ensures PositionColorFormat[1].offset == 12
  {
    InterleavedTwo(PositionColorFormat);
  }

  lemma PositionTexturePreset()
    ensures TotalSize(PositionTextureFormat) == 20 && Interleaved(PositionTextureFormat)
    ensures PositionTextureFormat[1].offset == 12
  {
    InterleavedTwo(PositionTextureFormat);
  }

  lemma PositionNormalPreset()
    ensures TotalSize(PositionNormalFormat) == 24 && Interleaved(PositionNormalFormat)
    ensures PositionNormalFormat[1].offset == 12
  {
    InterleavedTwo(PositionNormalFormat);
  }

  lemma PositionNormalTexturePreset()
    ensures TotalSize(PositionNormalTextureFormat) == 32 && Interleaved(PositionNormalTextureFormat)
    ensures PositionNormalTextureFormat[1].offset == 12 && PositionNormalTextureFormat[2].offset == 24
  {
    var f := PositionNormalTextureFormat;
    assert f[2..][1..] == [];
    assert f[1..][1..] == f[2..];
    assert TotalSize(f[2..]) == 8;
    assert TotalSize(f[1..]) == 20;
    assert f[..0] == [];
    assert f[..1] == [f[0]] && [f[0]][1..] == [];
    assert TotalSize(f[..1]) == 12;
    assert f[..2][1..] == [f[1]] && [f[1]][1..] == [];
    assert TotalSize(f[..2]) == 24;
  }

  // ---------------------------------------------------------------------
  // Vertex records

  /** The vertex records, as the floats they lay out in memory. */
  datatype VertexPosition = VertexPosition(x: real, y: real, z: real)
  {
    function Floats(): (r: seq<real>)
      ensures FloatSize * |r| == TotalSize(PositionFormat)
    {
      PositionPreset();
      [x, y, z]
    }
  }

  datatype VertexPositionColor = VertexPositionColor(x: real, y: real, z: real, r: real, g: real, b: real, a: real)
  {
    function Floats(): (fs: seq<real>)
      ensures FloatSize * |fs| == TotalSize(PositionColorFormat)
      ensures |fs| == 7 && fs[3..] == [r, g, b, a]
    {
      PositionColorPreset();
      [x, y, z, r, g, b, a]
    }
  }

  datatype VertexPositionTexture = VertexPositionTexture(x: real, y: real, z: real, u: real, v: real)
  {
    function Floats(): (r: seq<real>)
      ensures FloatSize * |r| == TotalSize(PositionTextureFormat)
      ensures |r| == 5 && r[3..] == [u, v]
    {
      PositionTexturePreset();
      [x, y, z, u, v]
    }
  }

  datatype VertexPositionNormal = VertexPositionNormal(x: real, y: real, z: real, nx: real, ny: real, nz: real)
  {
    function Floats(): (r: seq<real>)
      ensures FloatSize * |r| == TotalSize(PositionNormalFormat)
      ensures |r| == 6 && r[3..] == [nx, ny, nz]
    {
      PositionNormalPreset();
      [x, y, z, nx, ny, nz]
    }
  }

  datatype VertexPositionNormalTexture =
    VertexPositionNormalTexture(x: real, y: real, z: real, nx: real, ny: real, nz: real, u: real, v: real)
  {
    function Floats(): (r: seq<real>)
      ensures FloatSize * |r| == TotalSize(PositionNormalTextureFormat)
      ensures |r| == 8 && r[3..6] == [nx, ny, nz] && r[6..] == [u, v]
    {
      PositionNormalTexturePreset();
      [x, y, z, nx, ny, nz, u, v]
    }
  }

  /** Default records: every float 0, except the alpha of a coloured vertex,
      which is 1. */
  const DefaultPosition := VertexPosition(0.0, 0.0, 0.0)
  const DefaultPositionColor := VertexPositionColor(0.0, 0.0, 0.0, 0.0, 0.0, 0.0, 1.0)
  const DefaultPositionTexture := VertexPositionTexture(0.0, 0.0, 0.0, 0.0, 0.0)
  const DefaultPositionNormal := VertexPositionNormal(0.0, 0.0, 0.0, 0.0, 0.0, 0.0)
  const DefaultPositionNormalTexture := VertexPositionNormalTexture(0.0, 0.0, 0.0, 0.0, 0.0, 0.0, 0.0, 0.0)

  lemma DefaultColorOpaque()
    ensures DefaultPositionColor.Floats() == [0.0, 0.0, 0.0, 0.0, 0.0, 0.0, 1.0]
  {
  }
}
