# glsh core in Dafny

A model of the non-graphical core of `glsh`, a small OpenGL/GLUT teaching
shell, with proofs about it:

- **Image buffer and TGA loader** (`common.dfy`, `targa.dfy`, `image.dfy`):
  the `Image` class with its byte buffer and mipmap list, `Allocate` and
  `Deallocate`, and `LoadTarga` over the bytes of a file (header checks,
  uncompressed and run-length decoders, B,G,R to R,G,B reordering,
  descriptor bit 0x20 row order, row wrap inside RLE packets). The
  decoders are loop methods writing into the buffer array, proved against
  the pure specification `Targa.Decode`.
- **Mipmap generator** (`mipmap.dfy`, `image.dfy`): how many levels one
  call appends and what their sizes are, and the bytes of each level as a
  per-channel truncated 2 x 2 average of the level above it.
- **Vertex formats** (`vertex.dfy`, `vertex_legacy.dfy`): `GetGLTypeSize`,
  attribute byte sizes, the append-only `VertexFormat` of the current
  library and the public-field `VertexFormat` of the older one, the five
  preset layouts and the plain-float vertex structs.
- **Utilities** (`util.dfy`): `IsPowerOf2` (the bit trick
  `x & (x - 1)`), `StringBeginsWith`, `Split` and `Tokenize`.
- **Input** (`input.dfy`): `Keyboard` and `Mouse` state with their inject,
  update and clear operations and queries, the ASCII key table, and the
  window-dependent `App` queries.
- **CircularListSelector** (`selector.dfy`), **TextureManager**
  (`texture_manager.dfy`), the Wavefront fan **triangulate**
  (`wavefront.dfy`), and the index and vertex lists of the wireframe box,
  wireframe plane and solid plane prefabs (`prefabs.dfy`).

Integers are unbounded and coordinates are `real`; see "Left out".

## Model

| member | source | states |
|---|---|---|
| ImageBuffer.Image.constructor | GLSH_Image.cpp:30-36 | A new image is 0 x 0 x 0 with no data and no mipmap levels. |
| ImageBuffer.Image.Deallocate | GLSH_Image.cpp:60-73 | Afterwards the image is 0 x 0 x 0, has no data and its level list is empty. |
| ImageBuffer.Image.Allocate | GLSH_Image.cpp:43-58 | Returns true; the buffer is a fresh array of w*h*bpp bytes, the sizes are the arguments, and the level list is exactly one level 0 of w x h sharing the new buffer. |
| ImageBuffer.Image.IsGood | GLSH_Image.h:26 | True exactly when the image holds a buffer (it then has a level 0). |
| ImageBuffer.Image.BitsPerPixel | GLSH_Image.h:30 | Eight times the bytes per pixel. |
| ImageBuffer.Image.Data | GLSH_Image.h:31-32 | Null exactly when the image is not good; otherwise the level-0 buffer of width*height*bpp bytes. |
| ImageBuffer.Image.NumMipmaps | GLSH_Image.h:71 | The number of levels; zero exactly when the image is not good. |
| ImageBuffer.Image.LevelSize | GLSH_Image.h:48-65 | Level k is the image halved k times and holds a buffer of its own width*height*bpp bytes. |
| ImageBuffer.Image.MipmapWidth | GLSH_Image.h:73 | Width of level `level`: the image width halved `level` times (index must be in range). |
| ImageBuffer.Image.MipmapHeight | GLSH_Image.h:74 | Height of level `level`: the image height halved `level` times. |
| ImageBuffer.Image.MipmapData | GLSH_Image.h:75-76 | The level's buffer, of its width*height*bpp bytes; level 0 is the image buffer itself. |
| ImageBuffer.Image.LoadTarga | GLSH_Image.cpp:75-164 | Returns true exactly for a supported, left-to-right header whose pixels are present; an unsupported header leaves the image unchanged; a decoded file's buffer equals `Targa.Decode`'s buffer, with width, height and bpp/8 from the header. |
| ImageBuffer.Image.LoadTargaUncompressed | GLSH_Image.cpp:166-228 | Fills the buffer with `Placed` of the raw pixel stream read from the pixel offset, or reports that the file is too short. |
| ImageBuffer.Image.LoadRows | GLSH_Image.cpp:185-196 | The row loop: after all rows the stream read is `RawPixels` of the whole image and the buffer is its placement. |
| ImageBuffer.Image.LoadRow | GLSH_Image.cpp:187-194 | One file row: `width` pixels appended to the stream and stored in the destination row, or the file ends. |
| ImageBuffer.Image.PutPixel | GLSH_Image.cpp:188-193 | Stores one file pixel at a byte offset with B and R exchanged for 3- and 4-byte pixels; no other byte changes. |
| ImageBuffer.Image.StorePixel | GLSH_Image.cpp:186-195 | Storing file pixel t at its place extends the filled prefix of the buffer to t+1 pixels. |
| ImageBuffer.Image.LoadTargaRle | GLSH_Image.cpp:230-376 | Fills the buffer with `Placed` of the run-length pixel stream, or reports that the file ends inside the packets. |
| ImageBuffer.Image.LoadPackets | GLSH_Image.cpp:254-292 | The packet loop runs until at least width*height pixels are counted; then the stream is `RlePixels` of the file and the buffer its placement. |
| ImageBuffer.Image.DecodePacket | GLSH_Image.cpp:255-291 | One header byte: above 127 a run packet, otherwise a literal packet; the decoded stream grows by that packet's pixels. |
| ImageBuffer.Image.DecodeRun | GLSH_Image.cpp:256-272 | A run packet repeats the next pixel (header - 127) times. |
| ImageBuffer.Image.DecodeLiteral | GLSH_Image.cpp:273-290 | A literal packet copies the next (header + 1) pixels. |
| ImageBuffer.Image.EmitRun | GLSH_Image.cpp:262-272 | Writes `count` copies of the pixel at the cursor, wrapping rows. |
| ImageBuffer.Image.EmitLiteral | GLSH_Image.cpp:276-289 | Reads `count` pixels from the file and writes them at the cursor, or reports that the file ends first. |
| ImageBuffer.Image.EmitPixel | GLSH_Image.cpp:263-271 | Writes one pixel at the cursor while the image is not full, then advances the cursor and moves to the next destination row after exactly `width` pixels. |
| ImageBuffer.CursorStep | GLSH_Image.cpp:266-271 | The cursor after one more pixel: next column, or the start of the next destination row when the row is complete. |
| ImageBuffer.RowAdvance | GLSH_Image.cpp:172-180 | Adding the row step to the destination row moves to the buffer row of the next file row, in either row order. |
| ImageBuffer.RleOverrunTarget | GLSH_Image.cpp:262-272 | Once a packet runs past the last pixel, the position the unguarded source writes to lies outside the buffer. |
| ImageBuffer.Image.GenerateMipmaps | GLSH_Image.cpp:379-438 | False and no change when the image is not good or a side is not a power of two; otherwise appends `LevelCount` levels (minSize at most 0 counting as 1), each half the size of the one before and averaging it; old levels and the buffer are unchanged. |
| ImageBuffer.Image.AppendLevels | GLSH_Image.cpp:405-435 | The mipmap loop appends levels halving the last one until a side would drop below the minimum size. |
| ImageBuffer.Image.AppendLevel | GLSH_Image.cpp:407-429 | One turn: a fresh w x h level appended, averaging the previous last level. |
| ImageBuffer.DownsampleLevel | GLSH_Image.cpp:407-427 | The bytes of the fresh level equal `Downsample` of the source level. |
| ImageBuffer.DownsampleRow | GLSH_Image.cpp:413-427 | Writing row j in order extends the prefix of the level that already equals `Downsample` by one whole row. |
| ImageBuffer.AverageInto | GLSH_Image.cpp:420-425 | Stores the truncated mean of the four source bytes at q; no other byte changes. |
| Targa.ParseHeader | GLSH_Image.cpp:16-27 | The 18-byte header read field by field, 16-bit fields little-endian. |
| Targa.ParseEncodedHeader | GLSH_Image.cpp:16-27 | Parsing the 18 bytes of `EncodeHeader(h)` gives back h, whatever follows. |
| Targa.Swizzle | GLSH_Image.cpp:188-193 | File B,G,R[,A] becomes R,G,B[,A]; one-byte pixels are kept. |
| Targa.SwizzleInvolution | GLSH_Image.cpp:188-193 | Reordering twice gives back the pixel. |
| Targa.OffsetOf | GLSH_Image.cpp:168-195 | Channel c of file pixel (j, i) sits at one byte of the buffer, and that byte maps back to (j, i) and c. |
| Targa.SourceInRange | GLSH_Image.cpp:168-195 | Every buffer byte comes from one pixel of the image and one of its channels. |
| Targa.PixelSpan | GLSH_Image.cpp:186-194 | The bytes of pixel t are exactly those whose source pixel is t, in channel order. |
| Targa.PlacedAt | GLSH_Image.cpp:172-195 | File pixel (j, i) lands in buffer row height-1-j when bit 0x20 is set and row j otherwise, column i, with B and R exchanged. |
| Targa.RowOrderSymmetric | GLSH_Image.cpp:172-180 | Two files differing only in bit 0x20 and storing their rows in opposite order fill identical buffers. |
| Targa.MirrorIndex | GLSH_Image.cpp:172-180 | The position of pixel t once rows are reversed is again a pixel of the image. |
| Targa.FilledStep | GLSH_Image.cpp:186-194 | Writing pixel t at its start extends the filled part of the buffer by one pixel. |
| Targa.FilledComplete | GLSH_Image.cpp:185-196 | Once every pixel is written the buffer is the decoded image. |
| Targa.RawPixelsLength | GLSH_Image.cpp:185-196 | Reading n uncompressed pixels fails exactly when the file is too short. |
| Targa.RawPixelsOfConcat | GLSH_Image.cpp:185-196 | Pixels written back to back are read back unchanged. |
| Targa.RlePacketStep | GLSH_Image.cpp:255-291 | One encoded packet, while pixels are still needed, contributes exactly its own pixels. |
| Targa.RlePixelsOfPackets | GLSH_Image.cpp:254-292 | Decoding packets encoded one after another gives back every pixel they encode, in order. |
| Targa.PacketsAtOfEncoding | GLSH_Image.cpp:254-292 | Encoded packets written into a file sit there one after another. |
| Targa.RleFileStream | GLSH_Image.cpp:137-149 | A file made of an RLE header, its id field and encoded packets parses to that header and streams the packets' pixels. |
| Targa.RawFileStream | GLSH_Image.cpp:137-145 | A file made of an uncompressed header, its id field and the pixels streams exactly those pixels. |
| Targa.DecodeOfStream | GLSH_Image.cpp:108-163 | An accepted header with 8, 24 or 32 bpp and a complete pixel stream decodes to the placement of that stream. |
| Targa.RleMatchesUncompressed | GLSH_Image.cpp:140-150 | The same pixels stored run-length encoded or uncompressed decode to the same buffer: type 10 against type 2, and type 11 against type 3. |
| Input.Window.constructor | GLSH_System.cpp:244-250 | A new window has its own fresh keyboard and mouse, and its time starts at 0. |
| Targa.GreyTopDownPlaced | GLSH_Image.cpp:217-226 | A top-to-bottom one-byte image lists the pixels in file order. |
| Targa.RowWrapExample | GLSH_Image.cpp:246-291 | A 2 x 2 grey RLE file of a one-pixel literal and a four-pixel run decodes to [10, 30, 30, 30]: the run wraps into the second row and its extra pixel is dropped. |
| Mipmapping.MinLevelSize | GLSH_Image.cpp:392-394 | A minSize of 0 or below counts as 1; others are kept. |
| Mipmapping.HalvedShift | GLSH_Image.cpp:399-400 | Halving k+1 times is halving once, then k times. |
| Mipmapping.LevelCountStops | GLSH_Image.cpp:405 | The last appended level has no room for another, so a second call with the same minSize appends nothing. |
| Mipmapping.LevelCountOfPowers | GLSH_Image.cpp:387-435 | A 2^a x 2^b image with minSize 1 gets min(a, b) more levels. |
| Mipmapping.LevelsAtLeast | GLSH_Image.cpp:405 | Every appended level is at least minSize on each side. |
| Mipmapping.Mean4 | GLSH_Image.cpp:420-425 | (a + b + c + d) / 4 truncated: four times the result is at most the sum and within 3 of it. |
| Mipmapping.Mean4Between | GLSH_Image.cpp:420-425 | The mean lies between the smallest and the largest of the four bytes. |
| Mipmapping.Downsample | GLSH_Image.cpp:407-427 | The level below has w*h*bpp bytes. |
| Mipmapping.DownsampleAt | GLSH_Image.cpp:416-425 | Byte (j, i, c) of the level below is the truncated mean of channel c of source pixels (2j, 2i), (2j, 2i+1), (2j+1, 2i), (2j+1, 2i+1), all within the source. |
| Mipmapping.DownsampleByte | GLSH_Image.cpp:416-425 | The same average stated for byte i of row j in the pointer terms of the loop. |
| Mipmapping.DownsampleUniform | GLSH_Image.cpp:407-427 | A level of one colour stays that colour. |
| Mipmapping.AsWrittenReads | GLSH_Image.cpp:416-423 | The four source offsets the loop as written reads for destination byte i of row j. |
| Mipmapping.AsWrittenOverrun | GLSH_Image.cpp:419-423 | With pixels wider than one byte, the last byte of the last row reads past the end of the source level. |
| Mipmapping.AsWrittenOverrunExample | GLSH_Image.cpp:419-423 | For a 12-byte 2 x 2 level of 3-byte pixels the loop reads offsets 12, 15, 18 and 21. |
| Mipmapping.AsWrittenLevel | GLSH_Image.cpp:402-434 | The level the loop builds with one-byte pixels from the fixed source pointer, w*h bytes long. |
| Mipmapping.StaleSourceExample | GLSH_Image.cpp:402-434 | On a 4 x 4 image with one bright corner the loop as written makes level 2 = [0], where averaging level 1 gives [1]. |
| Mipmapping.AsWrittenLevels | GLSH_Image.cpp:396-434 | The levels one call appends as written with one-byte pixels: LevelCount of them, sizes halving from the level the call began at. |
| Mipmapping.AsWrittenLevelsAt | GLSH_Image.cpp:402-423 | Level k of a call as written is the (w>>k) x (h>>k) average of the level the call began at, read with its stride, for every k. |
| Mipmapping.IntendedLevels | GLSH_Image.cpp:396-434 | The levels one call appends as intended with one-byte pixels: LevelCount of them. |
| Mipmapping.IntendedLevelsSize | GLSH_Image.cpp:399-400 | Level k of the intended chain is (w>>k) x (h>>k) bytes. |
| Mipmapping.IntendedLevelsChain | GLSH_Image.cpp:405-433 | Each intended level after the first averages the level appended just before it. |
| Mipmapping.StaleSourceCall | GLSH_Image.cpp:402-434 | A whole call on the 4 x 4 corner image appends [[0,0,0,4],[0]] as written and [[0,0,0,4],[1]] as intended. |
| Mipmapping.CornerLevelOne | GLSH_Image.cpp:407-427 | Level 1 of that image is [0, 0, 0, 4]. |
| Mipmapping.CornerLevelTwo | GLSH_Image.cpp:407-427 | Averaging [0, 0, 0, 4] as a 2 x 2 level gives [1]. |
| Vertex.GetGLTypeSize | GLSH_Vertex.cpp:79-97 | 4 exactly for float, int and unsigned int, 2 exactly for half float, short and unsigned short, 1 exactly for byte and unsigned byte, 0 otherwise. |
| Vertex.VertexAttrib.SizeInBytes | GLSH_Vertex.h:47-48 | Component count times the type size; 0 for an unknown type, 4 per component for floats. |
| Vertex.DefaultAttribEmpty | GLSH_Vertex.h:39-41 | The all-zero default attribute has an unknown type and byte size 0. |
| Vertex.TotalSizeAppend | GLSH_Vertex.h:69-73 | The total size of a list with one more attribute grows by that attribute's byte size. |
| Vertex.VertexFormat.constructor | GLSH_Vertex.cpp:6-8 | The default format has no attributes and size 0. |
| Vertex.VertexFormat.One | GLSH_Vertex.cpp:12-16 | The format holds exactly its argument, and its size is that attribute's byte size. |
| Vertex.VertexFormat.Two | GLSH_Vertex.cpp:18-23 | The format holds its two arguments in order, size the sum of their byte sizes. |
| Vertex.VertexFormat.Three | GLSH_Vertex.cpp:25-31 | The format holds its three arguments in order, size the sum of their byte sizes. |
| Vertex.VertexFormat.Four | GLSH_Vertex.cpp:33-40 | The format holds its four arguments in order, size the sum of their byte sizes. |
| Vertex.VertexFormat.AddAttrib | GLSH_Vertex.h:69-73 | Appends at the end, earlier attributes unchanged, size grows by the attribute's byte size; the size keeps equal to the sum of byte sizes. |
| Vertex.VertexFormat.NumAttribs | GLSH_Vertex.h:75-76 | The number of attributes. |
| Vertex.VertexFormat.GetAttrib | GLSH_Vertex.h:78-79 | Attribute i in insertion order (index must be in range). |
| Vertex.VertexFormat.VertexSizeInBytes | GLSH_Vertex.h:81-82 | The sum of the attributes' byte sizes. |
| Vertex.InterleavedTwo | GLSH_Vertex.cpp:49-68 | Two attributes at offsets 0 and the first's size, sharing the summed stride, form an interleaved layout whose total is that stride. |
| Vertex.PositionPreset | GLSH_Vertex.cpp:43-47 | The position preset totals 12 bytes, equal to its stride, at offset 0. |
| Vertex.PositionColorPreset | GLSH_Vertex.cpp:49-54 | Position at 0 and colour at 12; total 28, equal to the stride. |
| Vertex.PositionTexturePreset | GLSH_Vertex.cpp:56-61 | Texture coordinates at 12; total 20, equal to the stride. |
| Vertex.PositionNormalPreset | GLSH_Vertex.cpp:63-68 | Normal at 12; total 24, equal to the stride. |
| Vertex.PositionNormalTexturePreset | GLSH_Vertex.cpp:70-76 | Offsets 0, 12 and 24; total 32, equal to the stride. |
| Vertex.VertexPosition.Floats | glsh/GLSH_Vertex.h:74-91 | Three floats, as many bytes as the position preset. |
| Vertex.VertexPositionColor.Floats | glsh/GLSH_Vertex.h:95-114 | Seven floats, position then r, g, b, a, as many bytes as its preset. |
| Vertex.VertexPositionTexture.Floats | glsh/GLSH_Vertex.h:118-136 | Five floats, position then u, v, as many bytes as its preset. |
| Vertex.VertexPositionNormal.Floats | glsh/GLSH_Vertex.h:140-158 | Six floats, position then the normal, as many bytes as its preset. |
| Vertex.VertexPositionNormalTexture.Floats | glsh/GLSH_Vertex.h:162-183 | Eight floats, position, normal, then u, v, as many bytes as its preset. |
| Vertex.DefaultColorOpaque | glsh/GLSH_Vertex.h:102-104 | A default coloured vertex is all zero except alpha 1. |
| VertexLegacy.VertexFormat.constructor | glsh/GLSH_Vertex.cpp:6-8 | No attributes, size 0. |
| VertexLegacy.VertexFormat.One | glsh/GLSH_Vertex.cpp:12-16 | Pushes the argument; size is the total of the byte sizes. |
| VertexLegacy.VertexFormat.Two | glsh/GLSH_Vertex.cpp:18-23 | Pushes both arguments in order; size is the total of their byte sizes. |
| VertexLegacy.VertexFormat.Three | glsh/GLSH_Vertex.cpp:25-31 | Pushes three arguments in order; size is the total of their byte sizes. |
| VertexLegacy.VertexFormat.Four | glsh/GLSH_Vertex.cpp:33-40 | Pushes four arguments in order; size is the total of their byte sizes. |
| VertexLegacy.PositionGetFormat | glsh/GLSH_Vertex.cpp:43-47 | The position preset, size 12, interleaved. |
| VertexLegacy.PositionColorGetFormat | glsh/GLSH_Vertex.cpp:49-54 | The position-colour preset, size 28, interleaved. |
| VertexLegacy.PositionTextureGetFormat | glsh/GLSH_Vertex.cpp:56-61 | The position-texture preset, size 20, interleaved. |
| VertexLegacy.PositionNormalGetFormat | glsh/GLSH_Vertex.cpp:63-68 | The position-normal preset, size 24, interleaved. |
| VertexLegacy.PositionNormalTextureGetFormat | glsh/GLSH_Vertex.cpp:70-76 | The position-normal-texture preset, size 32, interleaved. |
| Util.IsPowerOf2 | GLSH_Util.h:99-102 | True exactly when x is 2^n for some n; hence false for 0 and every negative number. |
| Util.LowestBitCleared | GLSH_Util.h:101 | For positive x, x & (x - 1) is 0 exactly when x is a power of two. |
| Util.PowerOf2IsPowerOf2 | GLSH_Util.h:99-102 | Every 2^n passes the test. |
| Util.StringBeginsWith | GLSH_Util.h:93-96 | True exactly when prefix is a prefix of s. |
| Util.BeginsWithEmptyAndSelf | GLSH_Util.h:93-96 | Every string begins with the empty string, and s + t begins with s. |
| Util.FindFirstOf | glsh/GLSH_Util.cpp:41-46 | The first delimiter at or after pos, or the end of the string when there is none. |
| Util.Split | glsh/GLSH_Util.cpp:32-52 | The loop returns exactly `SplitFields`: nothing for the empty string, otherwise the fields between delimiters. |
| Util.SplitProperties | glsh/GLSH_Util.cpp:32-52 | Joining the tokens with the delimiter gives back the input; no token contains the delimiter; the empty string gives no tokens; otherwise there is one more token than delimiters. |
| Util.FieldsJoin | glsh/GLSH_Util.cpp:40-51 | The fields of s from pos joined with the delimiter give back s from pos. |
| Util.FieldsCount | glsh/GLSH_Util.cpp:40-51 | There is one more field than delimiters. |
| Util.FieldsNoDelimiter | glsh/GLSH_Util.cpp:43-49 | No field contains the delimiter. |
| Util.SplitExamples | GLSH_Util.h:64-73 | The seven documented examples, from "ab&c&def" to the empty string. |
| Util.Tokenize | glsh/GLSH_Util.cpp:54-67 | The loop returns exactly `Words` of the input. |
| Util.WordLength | glsh/GLSH_Util.cpp:59-64 | The length of the leading run of non-whitespace characters. |
| Util.WordsProperties | glsh/GLSH_Util.cpp:54-67 | Every token is non-empty and free of whitespace, and the tokens concatenated are the input with its whitespace removed. |
| Util.WordsOfJoin | glsh/GLSH_Util.cpp:54-67 | Non-empty words without whitespace joined by single spaces tokenize back to the same words. |
| Input.CombinedOf | GLSH_System.cpp:33-86 | The combined Shift, Ctrl or Alt code of a left or right modifier key. |
| Input.OtherSide | GLSH_System.cpp:57-86 | The other side of a left or right modifier, with the same combined code. |
| Input.Keyboard.constructor | GLSH_System.cpp:27-31 | Every current and previous key state is up. |
| Input.Keyboard.InjectKeyDown | GLSH_System.cpp:33-55 | The key is down; a side modifier also sets the combined modifier; nothing else changes, previous states included. |
| Input.Keyboard.InjectKeyUp | GLSH_System.cpp:57-86 | The key is up; a side modifier sets the combined modifier to the other side's current state; nothing else changes. |
| Input.Keyboard.Update | GLSH_System.cpp:88-91 | The previous states become the current ones, so no key is pressed or released afterwards. |
| Input.Keyboard.Clear | GLSH_System.cpp:93-96 | Every current state is up; previous states are unchanged. |
| Input.Keyboard.IsKeyDown | GLSH_System.h:163-166 | The key's current state. |
| Input.Keyboard.IsKeyUp | GLSH_System.h:168-171 | The negation of IsKeyDown. |
| Input.Keyboard.KeyPressed | GLSH_System.h:173-176 | Down now and up before. |
| Input.Keyboard.KeyReleased | GLSH_System.h:178-181 | Up now and down before; never together with KeyPressed. |
| Input.Mouse.constructor | GLSH_System.cpp:99-113 | Buttons up, positions, deltas and wheel 0, no position yet, not frozen, no warp pending. |
| Input.Mouse.InjectButtonDown | GLSH_System.cpp:115-118 | Only that button's current state becomes down. |
| Input.Mouse.InjectButtonUp | GLSH_System.cpp:120-123 | Only that button's current state becomes up. |
| Input.Mouse.InjectMousePos | GLSH_System.cpp:125-143 | After a warp the event is ignored and clears the warp flag; otherwise the position is stored, and the first sample also sets the previous position. |
| Input.Mouse.InjectWheelDelta | GLSH_System.cpp:145-148 | The wheel delta accumulates. |
| Input.Mouse.InjectMouseEnter | GLSH_System.cpp:150-155 | The previous position is set to the current one. |
| Input.Mouse.InjectMouseLeave | GLSH_System.cpp:157-161 | The next position event counts as a first sample. |
| Input.Mouse.FreezeCursor | GLSH_System.cpp:163-174 | Records the freeze flag; freezing moves the cursor and its previous position to the window centre. |
| Input.Mouse.Update | GLSH_System.cpp:176-204 | Delta = current - previous, previous := current, wheel reset to 0, button states copied to previous; a frozen cursor outside the inner area is recentred. |
| Input.Mouse.Clear | GLSH_System.cpp:206-209 | Every current button state is up. |
| Input.Mouse.IsButtonDown | GLSH_System.h:346-349 | The button's current state. |
| Input.Mouse.IsButtonUp | GLSH_System.h:351-354 | The negation of IsButtonDown. |
| Input.Mouse.ButtonPressed | GLSH_System.h:356-359 | Down now and up before. |
| Input.Mouse.ButtonReleased | GLSH_System.h:361-364 | Up now and down before; never together with ButtonPressed. |
| Input.Mouse.GetX | GLSH_System.h:366-369 | The current x position. |
| Input.Mouse.GetY | GLSH_System.h:371-374 | The current y position. |
| Input.Mouse.GetDeltaX | GLSH_System.h:387-390 | The x movement of the last update. |
| Input.Mouse.GetDeltaY | GLSH_System.h:392-395 | The y movement of the last update. |
| Input.Mouse.GetWheelDelta | GLSH_System.h:397-400 | The wheel movement accumulated since the last update. |
| Input.Mouse.IsMoving | GLSH_System.h:376-380 | True exactly when either delta is non-zero. |
| Input.Mouse.IsDragging | GLSH_System.h:382-385 | Moving with the button down. |
| Input.AsciiKey | GLSH_System.cpp:303-393 | KC_UNKNOWN exactly for unmapped bytes; both cases of a letter map to the letter's key; digits map to KC_1 to KC_0. |
| Input.AsciiKeySameKey | GLSH_System.cpp:341-393 | Two different mapped bytes share a key code exactly when they are the two cases of one letter. |
| Input.SetControlKeys | GLSH_System.cpp:309-314 | The six control entries get their codes; the rest of the table is unchanged. |
| Input.SetDigitKeys | GLSH_System.cpp:316-325 | The digit entries get their codes; the rest is unchanged. |
| Input.SetLowerKeys | GLSH_System.cpp:341-366 | The lower-case letter entries get their codes; the rest is unchanged. |
| Input.SetUpperKeys | GLSH_System.cpp:368-393 | The upper-case letter entries get their codes; the rest is unchanged. |
| Input.InitializeKeys | GLSH_System.cpp:303-393 | Every mapped entry gets `AsciiKey`; the rest is unchanged. |
| Input.NewAsciiKeys | GLSH_System.cpp:16 | The 256-entry table starts as KC_UNKNOWN and ends equal to `AsciiKey` everywhere. |
| Input.App.constructor | GLSH_System.cpp:212-215 | A new app has no window. |
| Input.App.SetWindow | GLSH_System.h:639-642 | Sets the window. |
| Input.App.GetKeyboard | GLSH_System.h:649-652 | Null exactly without a window, otherwise the window's keyboard. |
| Input.App.GetMouse | GLSH_System.h:654-657 | Null exactly without a window, otherwise the window's mouse. |
| Input.App.GetTime | GLSH_System.h:659-662 | 0 without a window, otherwise the window's time. |
| Input.App.IsRunning | GLSH_System.h:664-667 | True exactly when a window is set. |
| Selector.NextIndex | CircularListSelector.h:46-54 | Unchanged on an empty list; otherwise the successor modulo the length, wrapping the last index to 0. |
| Selector.PrevIndex | CircularListSelector.h:56-65 | Unchanged on an empty list; otherwise the index whose successor is the current one, wrapping 0 to the last. |
| Selector.NextPrevRoundTrip | CircularListSelector.h:46-65 | Next then previous, and previous then next, restore the index. |
| Selector.AdvanceModular | CircularListSelector.h:46-54 | k moves forward reach (i + k) mod n. |
| Selector.AdvanceFullCircle | CircularListSelector.h:46-54 | n moves forward return to the start. |
| Selector.CircularListSelector.constructor | CircularListSelector.h:11-14 | Empty, index 0. |
| Selector.CircularListSelector.AddItem | CircularListSelector.h:16-17 | Appends; the index is unchanged and stays valid. |
| Selector.CircularListSelector.IsEmpty | CircularListSelector.h:19-20 | True exactly when there are no items. |
| Selector.CircularListSelector.NumItems | CircularListSelector.h:26-27 | The number of items. |
| Selector.CircularListSelector.GetItem | CircularListSelector.h:29-30 | Item `index` (index must be in range). |
| Selector.CircularListSelector.SelectItem | CircularListSelector.h:32-37 | Selects an in-range index; an out-of-range index changes nothing. |
| Selector.CircularListSelector.GetSelectedItem | CircularListSelector.h:43-44 | The item at the current index (list must be non-empty). |
| Selector.CircularListSelector.MoveNext | CircularListSelector.h:46-54 | The index becomes `NextIndex`; items unchanged; the index stays valid. |
| Selector.CircularListSelector.MovePrev | CircularListSelector.h:56-65 | The index becomes `PrevIndex`; items unchanged; the index stays valid. |
| Textures.NormalizedRoot | TextureManager.cpp:3-14 | Always ends in a separator: "./" for an empty root, the root when it ends in '/' or '\\', otherwise the root with '/' added. |
| Textures.NormalizedRootIdempotent | TextureManager.cpp:5-13 | Normalizing a normalized root changes nothing. |
| Textures.TextureManager.constructor | TextureManager.cpp:3-14 | The stored root is the normalized root; the cache is empty. |
| Textures.TextureManager.GetTexture | TextureManager.cpp:21-33 | Returns the cached handle for root + fname; a hit leaves the cache and the load log unchanged; a miss loads once, gets the handle of that load, and caches it, other entries unchanged. |
| Textures.GetTextureTwice | TextureManager.cpp:21-33 | Two calls with the same name return the same, cached handle even though a second load could give another, and load at most once. |
| Wavefront.FanOf | Wavefront.cpp:242-251 | The fan of the first m vertices has 3(m-2) entries and ends with vertex m-1. |
| Wavefront.FanTriangle | Wavefront.cpp:242-251 | Triangle k of the fan is (v0, v(k+1), v(k+2)). |
| Wavefront.FanOfTriangle | Wavefront.cpp:242-251 | The same for the fan of a prefix. |
| Wavefront.FanOfThree | Wavefront.cpp:242-251 | A triangle is its own fan. |
| Wavefront.FanOfQuad | Wavefront.cpp:242-251 | A quad a, b, c, d becomes a, b, c, a, c, d. |
| Wavefront.FanStep | Wavefront.cpp:244-248 | Inserting the first and the previous vertex before vertex m extends the fan by one triangle. |
| Wavefront.InsertTwo | Wavefront.cpp:245-246 | The two inserts place a and b at position i, the rest shifted. |
| Wavefront.Triangulate | Wavefront.cpp:237-270 | Three or more vertices become their fan; fewer are returned unchanged; the input must be non-empty; one generic method covers both overloads. |
| Prefabs.WireframeBoxVertices | GLSH_Prefabs.cpp:7-23 | Eight corners of the box centred at the origin. |
| Prefabs.BoxVerticesAreCorners | GLSH_Prefabs.cpp:14-23 | Corner k has x from bit 2, y from bit 1 and z from bit 0 of k. |
| Prefabs.WireframeBoxIndicesInRange | GLSH_Prefabs.cpp:26-45 | 24 indices, all below 8. |
| Prefabs.WireframeBoxEdges | GLSH_Prefabs.cpp:26-42 | Each of the 12 index pairs joins corners one bit apart, and the 12 edges are distinct. |
| Prefabs.GridColumns | GLSH_Prefabs.cpp:231-235 | Two vertices per back-to-front line. |
| Prefabs.GridColumnAt | GLSH_Prefabs.cpp:231-235 | Line i runs from (x1 + i*spacing, 0, z1) to (x1 + i*spacing, 0, z2). |
| Prefabs.GridRows | GLSH_Prefabs.cpp:237-241 | Two vertices per left-to-right line. |
| Prefabs.GridRowAt | GLSH_Prefabs.cpp:237-241 | Line i runs from (x1, 0, z1 + i*spacing) to (x2, 0, z1 + i*spacing). |
| Prefabs.WireframePlaneVertices | GLSH_Prefabs.cpp:225-241 | 2(xSegments+1) + 2(zSegments+1) vertices. |
| Prefabs.WireframePlaneCloses | GLSH_Prefabs.cpp:231-241 | The last lines lie on the far edges x2 and z2 of the plane. |
| Prefabs.AppendColumns | GLSH_Prefabs.cpp:231-235 | The loop appends exactly `GridColumns`. |
| Prefabs.AppendRows | GLSH_Prefabs.cpp:237-241 | The loop appends exactly `GridRows`. |
| Prefabs.CreateWireframePlane | GLSH_Prefabs.cpp:209-247 | No mesh exactly when a segment count is below 1; otherwise the grid vertices. |
| Prefabs.PlaneVertexFarCorner | GLSH_Prefabs.cpp:260-274 | The last grid vertex is the far corner (xSize/2, 0, zSize/2) with normal (0, 1, 0). |
| Prefabs.SolidPlaneVertices | GLSH_Prefabs.cpp:251-274 | (xSegments+1)(zSegments+1) vertices, vertex k at grid column k mod (xSegments+1) and row k div (xSegments+1). |
| Prefabs.FillRow | GLSH_Prefabs.cpp:262-272 | Row j of the grid written after the earlier rows, which are unchanged. |
| Prefabs.CellIndices | GLSH_Prefabs.cpp:286-298 | Six indices per cell. |
| Prefabs.CellCorners | GLSH_Prefabs.cpp:286-298 | Cell (i, j) emits e, e+xs+1, e+xs+2, e, e+xs+2, e+1 with e = (xs+1)j + i. |
| Prefabs.SolidPlaneIndicesLength | GLSH_Prefabs.cpp:276-279 | 6 * xSegments * rows indices. |
| Prefabs.SolidPlaneCell | GLSH_Prefabs.cpp:283-300 | The indices of cell (i, j) sit at offset 6(xSegments*j + i) of the index list. |
| Prefabs.SolidPlaneIndicesBelow | GLSH_Prefabs.cpp:251-290 | Every index is below (xSegments+1)(zSegments+1), the vertex count. |
| Prefabs.WriteCell | GLSH_Prefabs.cpp:292-298 | Writes e1, e3, e4, e1, e4, e2 after the prefix. |
| Prefabs.WriteRow | GLSH_Prefabs.cpp:284-300 | The inner loop writes row j's cells after the prefix. |
| Prefabs.SolidPlaneIndexBuffer | GLSH_Prefabs.cpp:276-302 | A fresh buffer equal to `SolidPlaneIndices`: 6 * xSegments * zSegments entries. |

## Left out

- Reading files, GL and GLUT calls, shaders, meshes, textures, text layout and the demo applications: `LoadTarga` works on the bytes of a file passed in.
- Header fields are read little-endian, as the TGA format defines them; the source's struct cast reads them in host order.
- Short files: the source has no length checks. A file shorter than the 18-byte header is refused with the image unchanged, and pixel data that ends early deallocates the image and returns false.
- Bit depths other than 8, 24 and 32: the buffer is allocated and true is returned, as in the source, but its contents are unspecified.
- The RLE decoder writes nothing past width*height pixels; the source writes past the buffer (see Findings).
- `delete` instead of `delete[]` for the mipmap levels, and the other memory-management details.
- ImageBuffer.Image.GenerateMipmaps: builds each level from the level just before it and reads each channel within its pixel. The source's stale source pointer and stride are modelled on values for one-byte pixels only (`AsWrittenLevels`); for wider pixels only the read offsets are modelled (see Findings).
- Integer widths: `int`, `unsigned`, `unsigned short`, `GLuint` and `GLsizei` are unbounded here, so overflow and wrap-around are not modelled.
- Floating point: coordinates, time and the vertex structs are `real`; rounding is not modelled. `Mouse::Update` halves the window size with integer division.
- Input.Mouse.Update: the window size that the source reads from GLUT is passed in; the warp itself becomes setting the warp flag and the recentred positions.
- Input.Mouse.FreezeCursor: the GLUT cursor-hiding and warp calls are not modelled; the window size is passed in.
- The special-key and mouse-button tables, which map GLUT constants.
- `Window::quit` and `App::quit`, and everything in `System` other than the ASCII key table: its callbacks, window management and the `CheckGL*` functions.
- The texture loader is a function of the path and of how many loads came before, standing in for reading the file and for the names OpenGL hands out; a failed load's 0 handle is just one of its values.
- Wavefront.Triangulate: returns the new vertex sequence instead of changing the caller's vector in place.
- The OBJ parsing loop, its number parsing and its switch fall-through.
- Prefab transforms (`TransformPositions`) and mesh creation.
- Prefabs.SolidPlaneVertices and Prefabs.SolidPlaneIndexBuffer: require at least one segment each way, because the source has no guard and divides by the segment counts.
- The unused `e` counter in `CreateSolidPlane`: the inner `e` shadows it.
- Random numbers, `ToString`, `FromString`, `ReadTextFile` and `LoadStrings`.

## Findings

| source | as written | input that shows it | evidently intended | confidence | as-written member | corrected member |
|---|---|---|---|---|---|---|
| GLSH_Image.cpp:262-272 | RLE packets are written in full even when they run past width*height pixels, so the last packet can write after the end of the buffer | a 2 x 2 grey file with a literal of one pixel and a run of four: the fifth pixel's position is outside the 4-byte buffer | stop writing once the image is full | high, not executed | ImageBuffer.RleOverrunTarget | ImageBuffer.Image.EmitPixel |
| GLSH_Image.cpp:402-434 | `srcData` and `srcStride` are set once, so every level of one call is averaged from the level that was last when the call began | a 4 x 4 one-byte image with 4 in its bottom-right 2 x 2 block: level 2 comes out [0] | each level averages the level just before it, giving [1] | high, not executed | Mipmapping.StaleSourceCall | ImageBuffer.Image.AppendLevel |
| GLSH_Image.cpp:416-423 | the loop counts bytes but steps two pixels per byte, so pixels wider than one byte are not averaged per channel and reads run past the source level | a 2 x 2 level of 3-byte pixels (12 bytes): the loop reads offsets 12, 15, 18 and 21 | channel c of pixel (j, i) averages channel c of the 2 x 2 block at (2j, 2i) | high, not executed | Mipmapping.AsWrittenOverrun | Mipmapping.DownsampleAt |
