# Mesh import and terrain grid, modelled in Dafny

This project models the two pieces of index bookkeeping in a small OpenGL demo
renderer:

- **Wavefront OBJ import** (`OBJImporter::importOBJ`, module `ObjImport` in
  `obj_importer.dfy`). The importer reads a file line by line. `v`, `vt` and
  `vn` lines fill three raw attribute streams. An `f` line is a triangle whose
  corners are written `v/vt/vn` or `v//vn`, with 1-based indices. Each corner
  is keyed by its 0-based raw indices. The first time a key is seen, a vertex
  is appended to the caller's `vertices` and its position is recorded in a map.
  Every corner then appends its key's vertex index to the caller's `indices`.
  An `f` line of any other shape ends the import.
- **Terrain grid** (`Terrain::setupTerrain`, module `TerrainGrid` in
  `terrain.dfy`). A `width * height` grid of vertices is laid out row by row at
  `z * width + x`. A single triangle-strip index list follows: the pair
  `(i, i + width)` for every vertex `i` outside the last row, plus a
  degenerate stitch pair `(i + width, i + 1)` at the end of every row except
  the last strip row.

The importer is a method with a loop over the lines. As in the source, the
three streams and the key map are local state. The caller's two vectors,
which the source takes by reference and appends to in place, are passed in as
values and returned extended. It is proved equal to a reference function, `Resolve`. `Resolve` numbers
a list of corner keys the way the key map does: one vertex per distinct key,
in first-seen order, and the index of that vertex for every corner. Lemmas
state what `Resolve` promises:

- same key iff same index;
- indices are in range, both overall and at the moment they are emitted;
- a new key gets the next fresh vertex, and fresh vertices come in increasing
  order;
- one vertex per distinct key, at most three per face;
- one index per corner, three per face;
- every new index addresses a vertex built from that corner's key;
- the existing contents of both lists are kept.

The terrain is a class with the vertex array and the index list as fields.
Its index loop is proved against `StripUpTo`, a function giving the indices
of the first `n` iterations. Lemmas state the layout of the strip: its length,
the bounds of its indices, where each pair sits, and exactly where stitch
pairs occur.

## Model

| member | source | states |
|---|---|---|
| `ObjImport.ImportOBJ` | OBJImporter.h:31-138 | A file that cannot be opened yields `CannotOpen` and leaves both lists alone. Otherwise the import completes exactly when no face line is unsupported, and stops at the first unsupported one. The lists left behind are the reference resolution of the corners of the lines read before that point, against the streams those lines declared. |
| `ObjImport.AddFace` | OBJImporter.h:92-129 | The three corners are entered into the key map in turn and then three indices are appended. This agrees with the reference resolution extended by the face's three keys, including the map it leaves. |
| `ObjImport.AddCorner` | OBJImporter.h:111-125 | A key not yet in the map appends its vertex and is mapped to that vertex's position. Entries already in the map never change. The corner's index is the next index of the reference resolution. |
| `ObjImport.FullKey` | OBJImporter.h:88-109 | The key of a `v/vt/vn` corner is its three raw indices each minus one, with the texture index present. |
| `ObjImport.NoUVKey` | OBJImporter.h:88-109 | The key of a `v//vn` corner is its position and normal indices each minus one, with the texture index marked absent. |
| `ObjImport.VertexFor` | OBJImporter.h:92-105 | The vertex built for a key takes position and normal from their streams at the key's 0-based indices, and its texture coordinate from the uv stream, or zero when the key has no texture index. |
| `ObjImport.KeyConversion` | OBJImporter.h:88-109 | A corner's raw indices lie between 1 and their stream lengths exactly when its key addresses existing entries. Distinct corners of one form get distinct keys, and the two forms never share a key. |
| `ObjImport.ReadLine` | OBJImporter.h:48-65 | A `v`, `vt` or `vn` line appends exactly one entry to its own stream and changes no other stream. A face line adds its three corner keys. Any other line adds no key, so it cannot change `vertices` or `indices`. |
| `ObjImport.ReadNext` | OBJImporter.h:46-136 | Reading the next line keeps the lines read so far free of unsupported faces unless it is one. The streams only grow, and the corner keys grow by that line's keys. |
| `ObjImport.FirstUnsupported` | OBJImporter.h:75-83 | The position of the first face line matching neither grammar: none comes before it, and it is one, unless it is the line count. |
| `ObjImport.FirstUnsupportedAt` | OBJImporter.h:80-83 | An unsupported face line with none before it is the first one. |
| `ObjImport.ProcessedStopsAtUnsupported` | OBJImporter.h:80-83 | Nothing after an unsupported face line is read. |
| `ObjImport.ProcessedAll` | OBJImporter.h:46-137 | Without an unsupported face line every line is read. |
| `ObjImport.CornerKeysCount` | OBJImporter.h:107-109 | Three corner keys per face line. |
| `ObjImport.KeySetBound` | OBJImporter.h:111-125 | There are at most as many distinct keys as corners. |
| `ObjImport.KeySetPrefixGrows` | OBJImporter.h:111-125 | The number of distinct keys seen never drops as more corners are read. |
| `ObjImport.Resolve` | OBJImporter.h:127-129 | Resolution emits exactly one index per corner. |
| `ObjImport.ResolveNumbered` | OBJImporter.h:111-125 | The map holds exactly the keys seen. The vertices appended are numbered consecutively from the caller's vertex count, one per distinct key in first-seen order. The map is injective. Every corner's index is its key's map entry. |
| `ObjImport.ResolveSameIndexIffSameKey` | OBJImporter.h:107-129 | Two corners get the same index if and only if they have the same key. |
| `ObjImport.ResolveIndicesInRange` | OBJImporter.h:111-129 | The vertices appended number exactly the distinct keys, at most the corners. Every index lies between the caller's vertex count and the vertex count after the import. |
| `ObjImport.ResolvePrefix` | OBJImporter.h:111-129 | The index emitted for a corner depends only on that corner and the ones before it. |
| `ObjImport.ResolveFirstOccurrence` | OBJImporter.h:111-124 | The first corner with a new key gets the next fresh vertex: the caller's vertex count plus the number of distinct keys before it. |
| `ObjImport.ResolveIndexSoFar` | OBJImporter.h:111-129 | Every index is below the vertex count at the moment it is emitted. |
| `ObjImport.ResolveFreshIncreasing` | OBJImporter.h:111-124 | A corner with a new key gets an index larger than that of any earlier corner. |
| `ObjImport.ImportedVertices` | OBJImporter.h:88-129 | Both lists are only appended to: one vertex per distinct key and one index per corner. Each new index addresses a vertex appended by this import. That vertex takes its position and normal from the streams at raw index minus one, and its texture coordinate from the uv stream or zero. |
| `ObjImport.ImportCounts` | OBJImporter.h:111-129 | Three indices per face line read. At most three new vertices per face line. A list of indices that was a multiple of three stays one. |
| `ObjImport.VerticesOfExtends` | OBJImporter.h:48-65 | Declaring more attributes never changes a vertex already built from earlier ones. |
| `ObjImport.KeyAsWrittenSplitsCorner` | OBJImporter.h:107-109 | As written, one `v//vn` corner in two slots with different leftover texture values gets two different indices. |
| `ObjImport.KeyAsWrittenCollides` | OBJImporter.h:107-109 | As written, a `v//vn` corner can share its key with a `v/vt/vn` corner. When the `v/vt/vn` corner comes first, the `v//vn` corner gets its index, and with it that corner's uv texture coordinate. |
| `ObjImport.NoUVKeyIntended` | OBJImporter.h:94-109 | With the texture slot marked absent, a `v//vn` key never equals a `v/vt/vn` key. Its vertex has a zero texture coordinate. A repeated `v//vn` corner always gets one index. |
| `TerrainGrid.Terrain.constructor` | Terrain.h:11-19 | A new terrain holds exactly the grid vertices and the full strip. |
| `TerrainGrid.Terrain.SetupTerrain` | Terrain.h:82-123 | The vertex array is replaced by a fresh array holding the grid, and the strip is appended to the index list. |
| `TerrainGrid.Terrain.AppendStrip` | Terrain.h:104-122 | The index loop appends exactly the strip. It keeps the invariant that the counter `c` is `i + 1`. |
| `TerrainGrid.LayOutGrid` | Terrain.h:88-102 | A fresh array of `width * height` vertices whose slot `k` holds column `k % width` of row `k / width`. |
| `TerrainGrid.LayOutRow` | Terrain.h:91-101 | The inner loop fills row `z` and keeps all earlier rows. |
| `TerrainGrid.RowMajorInside` | Terrain.h:100-100 | Every grid position `z * width + x` lies inside the vertex array. |
| `TerrainGrid.Grid` | Terrain.h:88-101 | The vertex array has `width * height` entries. Entry `k` is a grid point whose column is below `width` and whose row-major position `z * width + x` is `k`. |
| `TerrainGrid.GridAt` | Terrain.h:88-101 | The vertex array has `width * height` entries, and grid point `(x, z)` is at `z * width + x`. |
| `TerrainGrid.StripUpToPrefix` | Terrain.h:105-120 | The loop only appends: fewer iterations give a prefix of the index list. |
| `TerrainGrid.StripUpToStep` | Terrain.h:106-117 | Each iteration appends four indices if it closes a row that another strip row follows, two otherwise. |
| `TerrainGrid.StripUpToLength` | Terrain.h:105-120 | Before the pair for `i = r * width + c` there are `2 * i + 2 * r` indices. |
| `TerrainGrid.StripLength` | Terrain.h:105-122 | The strip has `2 * width * (height - 1) + 2 * (height - 2)` indices for `height >= 2`, and none for `height == 1`. |
| `TerrainGrid.StripUpToBounds` | Terrain.h:106-117 | Every index emitted so far is below `width * height`. |
| `TerrainGrid.StripBounds` | Terrain.h:106-117 | Every index of the strip addresses a grid vertex. |
| `TerrainGrid.StripStepAt` | Terrain.h:106-117 | The indices of iteration `i` sit in the strip right after those of the earlier iterations. |
| `TerrainGrid.StitchAfterAt` | Terrain.h:112-117 | The stitch pair follows position `r * width + c` exactly when `c` is the last column and `r` is not the last strip row. |
| `TerrainGrid.StripPairAt` | Terrain.h:106-117 | The pair `(i, i + width)` sits at offset `2 * i + 2 * r`. It is followed by the stitch pair `(i + width, i + 1)` exactly when `i` ends a row that is not the last strip row. Otherwise it is followed by the next pair, or ends the strip. |

## Left out

- File access: the input is `Option<seq<Line>>`. A file that cannot be opened is `None`. It yields the outcome `CannotOpen` instead of the message and `exit(1)` (OBJImporter.h:39-43).
- Tokenising: each line is given as a `Line` record. The prefix tests, the `istringstream` float parsing and the character-level behaviour of `sscanf` are not modelled. This covers leading blanks, signs, and a fourth corner after three matched ones, which the source silently ignores. A `v/vt/vn` line is `FaceFull`, a `v//vn` line is `FaceNoUV`, and any other `f` line is `UnsupportedFace`.
- Floating point: coordinates are opaque `real` triples and pairs that are only copied. The `vt` line's third component and the vec3-to-vec2 conversion are not modelled.
- The messages printed for an unsupported file, and the debug printers `printVector` and `printIndices`.
- ObjImport.ImportOBJ: requires that every face line read refers to existing stream entries (1 ≤ index ≤ stream length). The source does not check this, and an index outside that range is undefined behaviour.
- ObjImport.ImportOBJ: the `v//vn` key uses an explicit "no texture index" marker. The source uses the uninitialised texture variables. That behaviour is modelled separately under Findings, not in the import.
- Integer width: indices, counters and grid sizes are unbounded naturals. The 32-bit `unsigned int` of the vertex map, the index list and the terrain loop counters would wrap beyond 2^32 entries. The terrain's signed `int` products `width * height` and `width * (height - 1)` (Terrain.h:85, 88, 106) overflow past 2^31 - 1, which is undefined behaviour; the model computes them exactly. Decrementing a raw index of 0 would wrap too; the precondition rules that out.
- Tangent and bitangent of an imported vertex are left unset by the source and are not modelled.
- TerrainGrid.Terrain.SetupTerrain: the grid size comes from `stbi_load` in the source (Terrain.h:86). Here it is a parameter, and `width >= 1` and `height >= 1` are required. An image of height 0 would make `width * (height - 1)` wrap in the source. An image of width 0 is handled by the source: the vertex array is empty and neither loop body runs, so `c % width` is never evaluated. The model leaves that case out because its row-major definitions (`Grid`, `StitchAfter` and the lemmas about them) take `% width` and `/ width` of every position.
- Terrain vertices: `GridVertex(x, z)` stands for position `(x / width, 0, z / height)` with a zero normal. The float division is not computed. Texture coordinates, tangents and bitangents, which the source leaves unset, are not modelled.
- The GPU side (`setupMesh`, `Draw`, textures), image loading and the other scenes are not part of this model.

## Findings

| source | as written | input that shows it | evidently intended | confidence | as-written member | corrected member |
|---|---|---|---|---|---|---|
| OBJImporter.h:107-109 | A `v//vn` corner's key embeds `vt1`, `vt2`, `vt3`. The second `sscanf` never assigns these, so the key holds whatever those variables held, decremented. | `f 1//1 2//1 3//1` then `f 2//1 1//1 3//1`: the same corner `1//1` sits in slot 1 and then slot 2, whose leftover values may differ. It then gets two vertices. A leftover value matching a `v/vt/vn` corner's texture index makes the two forms share a vertex. When the `v/vt/vn` corner comes first, the `v//vn` corner gets that vertex and its uv texture coordinate instead of zero; in the other order the `v/vt/vn` corner gets the zero one. | A `v//vn` corner is keyed by position and normal alone, with no texture index. | medium — reading an uninitialised variable is undefined behaviour; not executed | `ObjImport.KeyAsWrittenSplitsCorner` | `ObjImport.NoUVKeyIntended` |
