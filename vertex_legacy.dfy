/** The older `glsh` vertex format: a plain record whose attribute list and
    byte total are public, filled by its constructors one attribute at a
    time. Attributes, component sizes, presets and vertex records are the
    same as in the current version (module Vertex). */
module VertexLegacy {
  import opened Vertex

  class VertexFormat {
    var attribs: seq<VertexAttrib>
    var size: int

    constructor ()
      ensures attribs == [] && size == 0
    {
      attribs := [];
      size := 0;
    }

    constructor One(va: VertexAttrib)
      ensures attribs == [va] && size == TotalSize(attribs)
    {
      attribs := [];
      size := 0;
      new;
      TotalSizeAppend([], va);
      attribs := attribs + [va];  size := size + va.SizeInBytes();
    }

    constructor Two(va1: VertexAttrib, va2: VertexAttrib)
      ensures attribs == [va1, va2] && size == TotalSize(attribs)
    {
      attribs := [];
      size := 0;
      new;
      TotalSizeAppend([], va1);
      attribs := attribs + [va1];  size := size + va1.SizeInBytes();
      TotalSizeAppend(attribs, va2);
      attribs := attribs + [va2];  size := size + va2.SizeInBytes();
    }

    constructor Three(va1: VertexAttrib, va2: VertexAttrib, va3: VertexAttrib)
      ensures attribs == [va1, va2, va3] && size == TotalSize(attribs)
    {
      attribs := [];
      size := 0;
      new;
      TotalSizeAppend([], va1);
      attribs := attribs + [va1];  size := size + va1.SizeInBytes();
      TotalSizeAppend(attribs, va2);
      attribs := attribs + [va2];  size := size + va2.SizeInBytes();
      TotalSizeAppend(attribs, va3);
      attribs := attribs + [va3];  size := size + va3.SizeInBytes();
    }

    constructor Four(va1: VertexAttrib, va2: VertexAttrib, va3: VertexAttrib, va4: VertexAttrib)
      ensures attribs == [va1, va2, va3, va4] && size == TotalSize(attribs)
    {
      attribs := [];
      size := 0;
      new;
      TotalSizeAppend([], va1);
      attribs := attribs + [va1];  size := size + va1.SizeInBytes();
      TotalSizeAppend(attribs, va2);
      attribs := attribs + [va2];  size := size + va2.SizeInBytes();
      TotalSizeAppend(attribs, va3);
      attribs := attribs + [va3];  size := size + va3.SizeInBytes();
      TotalSizeAppend(attribs, va4);
      attribs := attribs + [va4];  size := size + va4.SizeInBytes();
    }
  }

  /** The preset formats, built by the constructors: each total equals the
      stride its attributes declare. */
  method PositionGetFormat() returns (fmt: VertexFormat)
    ensures fresh(fmt) && fmt.attribs == PositionFormat
    ensures fmt.size == 12 && Interleaved(fmt.attribs)
  {
    fmt := new VertexFormat.One(PositionFormat[0]);
    PositionPreset();
  }

  method PositionColorGetFormat() returns (fmt: VertexFormat)
    ensures fresh(fmt) && fmt.attribs == PositionColorFormat
    ensures fmt.size == 28 && Interleaved(fmt.attribs)
  {
    fmt := new VertexFormat.Two(PositionColorFormat[0], PositionColorFormat[1]);
    PositionColorPreset();
  }

  method PositionTextureGetFormat() returns (fmt: VertexFormat)
    ensures fresh(fmt) && fmt.attribs == PositionTextureFormat
    ensures fmt.size == 20 && Interleaved(fmt.attribs)
  {
    fmt := new VertexFormat.Two(PositionTextureFormat[0], PositionTextureFormat[1]);
    PositionTexturePreset();
  }

  method PositionNormalGetFormat() returns (fmt: VertexFormat)
    ensures fresh(fmt) && fmt.attribs == PositionNormalFormat
    ensures fmt.size == 24 && Interleaved(fmt.attribs)
  {
    fmt := new VertexFormat.Two(PositionNormalFormat[0], PositionNormalFormat[1]);
    PositionNormalPreset();
  }

  method PositionNormalTextureGetFormat() returns (fmt: VertexFormat)
    ensures fresh(fmt) && fmt.attribs == PositionNormalTextureFormat
    ensures fmt.size == 32 && Interleaved(fmt.attribs)
  {
    var f := PositionNormalTextureFormat;
    fmt := new VertexFormat.Three(f[0], f[1], f[2]);
    PositionNormalTexturePreset();
  }
}
