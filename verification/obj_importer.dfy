/**
  Import of a Wavefront OBJ file into one indexed triangle mesh
  (OBJImporter.h, `OBJImporter::importOBJ`).

  The file is read line by line. `v`, `vt` and `vn` lines fill three raw
  attribute streams; every `f` line is a triangle whose three corners are
  either `v/vt/vn` or `v//vn` (1-based raw indices). Each corner is keyed by
  its raw index triple: the first time a key is seen an output vertex is
  appended and its position recorded in a table, and the index of the key's
  vertex is appended to the index list. An `f` line of any other shape ends the
  import; comments and other lines are skipped.

  Lines are modelled after tokenising: each is one `Line` record. The float
  payloads are carried as opaque vectors and never computed on.
*/
module ObjImport {

  datatype Option<+T> = None | Some(value: T)

  /** Two or three floats as read from the file; the import only moves them around. */
  datatype Vec2 = Vec2(u: real, v: real)
  datatype Vec3 = Vec3(x: real, y: real, z: real)

  /** The texture coordinate given to corners written without one. */
  const ZeroUV := Vec2(0.0, 0.0)

  /** An output vertex; the importer leaves tangent and bitangent unset, so they are not modelled. */
  datatype Vertex = Vertex(position: Vec3, normal: Vec3, texCoords: Vec2)

  /** A face corner written `v/vt/vn`, with 1-based raw indices. */
  datatype Corner = Corner(v: nat, vt: nat, vn: nat)

  /** A face corner written `v//vn`, with 1-based raw indices. */
  datatype NormalCorner = NormalCorner(v: nat, vn: nat)

  /** One line of the file, after tokenising. */
  datatype Line =
    | V(position: Vec3)                                                  // `v x y z`
    | VT(uv: Vec2)                                                       // `vt u v`
    | VN(normal: Vec3)                                                   // `vn x y z`
    | FaceFull(c1: Corner, c2: Corner, c3: Corner)                       // `f v/vt/vn v/vt/vn v/vt/vn`
    | FaceNoUV(n1: NormalCorner, n2: NormalCorner, n3: NormalCorner)     // `f v//vn v//vn v//vn`
    | UnsupportedFace                                                    // an `f` line of any other shape
    | Comment                                                            // `# ...`
    | Other                                                              // anything else

  /**
    The deduplication key of a corner: its 0-based raw indices. A `v//vn` corner
    has no texture index; the key says so with `None`.
  */
  datatype Key = Key(v: int, vt: Option<int>, vn: int)

  /** The three raw attribute streams. */
  datatype Streams = Streams(positions: seq<Vec3>, uvs: seq<Vec2>, normals: seq<Vec3>)

  /** How an import ended. */
  datatype Outcome =
    | Completed             // every line was read
    | Unsupported(line: nat) // the face line at this position matched neither grammar; the import stopped there
    | CannotOpen            // the file could not be opened; nothing was read

  // ---------------------------------------------------------------------------
  // What each line contributes

  predicate IsFace(l: Line) {
    l.FaceFull? || l.FaceNoUV?
  }

  /** The key of a `v/vt/vn` corner: each 1-based raw index is one more than the 0-based index in the key. */
  function FullKey(c: Corner): (k: Key)
    ensures k.vt.Some?
    ensures k.v + 1 == c.v && k.vt.value + 1 == c.vt && k.vn + 1 == c.vn
  {
    Key(c.v - 1, Some(c.vt - 1), c.vn - 1)
  }

  /** The key of a `v//vn` corner: 0-based position and normal indices, and no texture index. */
  function NoUVKey(c: NormalCorner): (k: Key)
    ensures k.vt.None?
    ensures k.v + 1 == c.v && k.vn + 1 == c.vn
  {
    Key(c.v - 1, None, c.vn - 1)
  }

  /** The keys of a face line's three corners, in order; no keys for any other line. */
  function LineKeys(l: Line): seq<Key> {
    match l
    case FaceFull(c1, c2, c3) => [FullKey(c1), FullKey(c2), FullKey(c3)]
    case FaceNoUV(n1, n2, n3) => [NoUVKey(n1), NoUVKey(n2), NoUVKey(n3)]
    case _ => []
  }

  function LinePositions(l: Line): seq<Vec3> {
    if l.V? then [l.position] else []
  }

  function LineUVs(l: Line): seq<Vec2> {
    if l.VT? then [l.uv] else []
  }

  function LineNormals(l: Line): seq<Vec3> {
    if l.VN? then [l.normal] else []
  }

  /** The corner keys of all face lines, in file order. */
  function CornerKeys(ls: seq<Line>): seq<Key> {
    if |ls| == 0 then [] else CornerKeys(ls[..|ls| - 1]) + LineKeys(ls[|ls| - 1])
  }

  function FaceCount(ls: seq<Line>): nat {
    if |ls| == 0 then 0 else FaceCount(ls[..|ls| - 1]) + (if IsFace(ls[|ls| - 1]) then 1 else 0)
  }

  function Positions(ls: seq<Line>): seq<Vec3> {
    if |ls| == 0 then [] else Positions(ls[..|ls| - 1]) + LinePositions(ls[|ls| - 1])
  }

  function UVs(ls: seq<Line>): seq<Vec2> {
    if |ls| == 0 then [] else UVs(ls[..|ls| - 1]) + LineUVs(ls[|ls| - 1])
  }

  function Normals(ls: seq<Line>): seq<Vec3> {
    if |ls| == 0 then [] else Normals(ls[..|ls| - 1]) + LineNormals(ls[|ls| - 1])
  }

  /** The raw attribute streams after reading the lines `ls`. */
  function StreamsOf(ls: seq<Line>): Streams {
    Streams(Positions(ls), UVs(ls), Normals(ls))
  }

  // ---------------------------------------------------------------------------
  // Range conditions and the vertex a key stands for

  /** A key addresses existing stream entries. */
  predicate InStreams(k: Key, s: Streams) {
    && 0 <= k.v < |s.positions|
    && 0 <= k.vn < |s.normals|
    && (k.vt.Some? ==> 0 <= k.vt.value < |s.uvs|)
  }

  /** The output vertex built for a key: position and normal from their streams, texture coordinate from the uv stream or zero. */
  function VertexFor(k: Key, s: Streams): (r: Vertex)
    requires InStreams(k, s)
    ensures r.position == s.positions[k.v] && r.normal == s.normals[k.vn]
    ensures k.vt.Some? ==> r.texCoords == s.uvs[k.vt.value]
    ensures k.vt.None? ==> r.texCoords == ZeroUV
  {
    Vertex(s.positions[k.v], s.normals[k.vn], if k.vt.Some? then s.uvs[k.vt.value] else ZeroUV)
  }

  predicate CornerInRange(c: Corner, s: Streams) {
    1 <= c.v <= |s.positions| && 1 <= c.vt <= |s.uvs| && 1 <= c.vn <= |s.normals|
  }

  predicate NormalCornerInRange(c: NormalCorner, s: Streams) {
    1 <= c.v <= |s.positions| && 1 <= c.vn <= |s.normals|
  }

  /** Every raw index of a face line lies between 1 and the length of its stream. */
  predicate LineInRange(l: Line, s: Streams) {
    match l
    case FaceFull(c1, c2, c3) => CornerInRange(c1, s) && CornerInRange(c2, s) && CornerInRange(c3, s)
    case FaceNoUV(n1, n2, n3) => NormalCornerInRange(n1, s) && NormalCornerInRange(n2, s) && NormalCornerInRange(n3, s)
    case _ => true
  }

  /**
    The 1-based to 0-based conversion: a corner's raw indices lie between 1 and
    their stream lengths exactly when its key addresses existing stream entries,
    and distinct corners of one form get distinct keys, while the two forms
    never share a key.
  */
  lemma KeyConversion(c1: Corner, c2: Corner, n1: NormalCorner, n2: NormalCorner, s: Streams)
    ensures CornerInRange(c1, s) <==> InStreams(FullKey(c1), s)
    ensures NormalCornerInRange(n1, s) <==> InStreams(NoUVKey(n1), s)
    ensures FullKey(c1) == FullKey(c2) <==> c1 == c2
    ensures NoUVKey(n1) == NoUVKey(n2) <==> n1 == n2
    ensures FullKey(c1) != NoUVKey(n1)
  {
  }

  predicate NoUnsupported(ls: seq<Line>) {
    forall j | 0 <= j < |ls| :: !ls[j].UnsupportedFace?
  }

  /**
    What the import demands of the file: every face line it reaches refers only
    to attributes declared on earlier lines.
  */
  predicate FacesInRange(ls: seq<Line>) {
    forall k | 0 <= k < |ls| && NoUnsupported(ls[..k]) :: LineInRange(ls[k], StreamsOf(ls[..k]))
  }

  /** Position of the first unsupported face line, or the number of lines if there is none. */
  function FirstUnsupported(ls: seq<Line>): (r: nat)
    ensures r <= |ls|
    ensures NoUnsupported(ls[..r])
    ensures r < |ls| ==> ls[r].UnsupportedFace?
  {
    if |ls| == 0 then 0
    else if ls[0].UnsupportedFace? then 0
    else
      var r' := FirstUnsupported(ls[1..]);
      assert ls[..1 + r'] == [ls[0]] + ls[1..][..r'];
      1 + r'
  }

  /** The lines the import acts on: those before the first unsupported face line. */
  function Processed(ls: seq<Line>): seq<Line> {
    ls[..FirstUnsupported(ls)]
  }

  function KeySet(ks: seq<Key>): set<Key> {
    set x | x in ks
  }

  // ---------------------------------------------------------------------------
  // Lemmas about reading lines

  /**
    The effect of one more line: a `v`, `vt` or `vn` line appends exactly one
    entry to its own stream; a face line adds its three corners; no other line
    adds a corner, so none of them can change the output vertices or indices.
  */
  lemma ReadLine(ls: seq<Line>, l: Line)
    ensures CornerKeys(ls + [l]) == CornerKeys(ls) + LineKeys(l)
    ensures FaceCount(ls + [l]) == FaceCount(ls) + if IsFace(l) then 1 else 0
    ensures |LineKeys(l)| == if IsFace(l) then 3 else 0
    ensures !IsFace(l) ==> CornerKeys(ls + [l]) == CornerKeys(ls)
    ensures StreamsOf(ls + [l]) == match l
      case V(p) => StreamsOf(ls).(positions := Positions(ls) + [p])
      case VT(t) => StreamsOf(ls).(uvs := UVs(ls) + [t])
      case VN(n) => StreamsOf(ls).(normals := Normals(ls) + [n])
      case _ => StreamsOf(ls)
  {
    assert (ls + [l])[..|ls|] == ls;
  }

  /** Reading the line at `k` after the `k` lines before it. */
  lemma ReadNext(lines: seq<Line>, k: nat)
    requires k < |lines| && NoUnsupported(lines[..k])
    ensures lines[..k + 1] == lines[..k] + [lines[k]]
    ensures !lines[k].UnsupportedFace? ==> NoUnsupported(lines[..k + 1])
    ensures Extends(StreamsOf(lines[..k]), StreamsOf(lines[..k + 1]))
    ensures CornerKeys(lines[..k + 1]) == CornerKeys(lines[..k]) + LineKeys(lines[k])
    ensures StreamsOf(lines[..k + 1]) == match lines[k]
      case V(p) => StreamsOf(lines[..k]).(positions := Positions(lines[..k]) + [p])
      case VT(t) => StreamsOf(lines[..k]).(uvs := UVs(lines[..k]) + [t])
      case VN(n) => StreamsOf(lines[..k]).(normals := Normals(lines[..k]) + [n])
      case _ => StreamsOf(lines[..k])
  {
    assert lines[..k + 1] == lines[..k] + [lines[k]];
    ReadLine(lines[..k], lines[k]);
  }

  /** Three corners per face line. */
  lemma {:induction false} CornerKeysCount(ls: seq<Line>)
    ensures |CornerKeys(ls)| == 3 * FaceCount(ls)
  {
    if |ls| > 0 {
      CornerKeysCount(ls[..|ls| - 1]);
    }
  }

  lemma KeySetAppend(ks: seq<Key>, x: Key)
    ensures KeySet(ks + [x]) == KeySet(ks) + {x}
  {
    assert forall y :: y in ks + [x] <==> y in ks || y == x;
  }

  /** There are at most as many distinct keys as corners. */
  lemma {:induction false} KeySetBound(ks: seq<Key>)
    ensures |KeySet(ks)| <= |ks|
  {
    if |ks| > 0 {
      var init := ks[..|ks| - 1];
      assert ks == init + [ks[|ks| - 1]];
      KeySetAppend(init, ks[|ks| - 1]);
      KeySetBound(init);
    }
  }

  /** The first unsupported face line is the one at `k` when none comes before it. */
  lemma FirstUnsupportedAt(ls: seq<Line>, k: nat)
    requires k < |ls| && ls[k].UnsupportedFace? && NoUnsupported(ls[..k])
    ensures FirstUnsupported(ls) == k
  {
  }

  /** An unsupported face line ends the import: nothing after it is read. */
  lemma ProcessedStopsAtUnsupported(before: seq<Line>, after: seq<Line>)
    requires NoUnsupported(before)
    ensures Processed(before + [UnsupportedFace] + after) == before
  {
    var ls := before + [UnsupportedFace] + after;
    assert ls[..|before|] == before;
    FirstUnsupportedAt(ls, |before|);
  }

  /** Without an unsupported face line every line is read. */
  lemma ProcessedAll(ls: seq<Line>)
    requires NoUnsupported(ls)
    ensures Processed(ls) == ls
  {
  }

  // ---------------------------------------------------------------------------
  // Deduplication of corner keys

  /**
    The key table after resolving a run of corner keys: `table` maps each key
    seen to the index of its output vertex, `order` lists the distinct keys in
    the order their vertices were appended, and `ids` holds the output index
    emitted for each corner.
  */
  datatype Dedup = Dedup(table: map<Key, nat>, order: seq<Key>, ids: seq<nat>)

  /**
    Resolving `keys` against a vertex list that already holds `base` vertices:
    a key seen before reuses its vertex, a new key gets the next one.
  */
  function Resolve(keys: seq<Key>, base: nat): (d: Dedup)
    ensures |d.ids| == |keys|
  {
    if |keys| == 0 then Dedup(map[], [], [])
    else
      var d := Resolve(keys[..|keys| - 1], base);
      var x := keys[|keys| - 1];
      if x in d.table then d.(ids := d.ids + [d.table[x]])
      else Added(d, x, base)
  }

  /** One more key: the resolution of the longer list extends that of the shorter one. */
  lemma ResolveSnoc(keys: seq<Key>, x: Key, base: nat)
    ensures x in Resolve(keys, base).table ==>
      Resolve(keys + [x], base) == Resolve(keys, base).(ids := Resolve(keys, base).ids + [Resolve(keys, base).table[x]])
    ensures x !in Resolve(keys, base).table ==>
      Resolve(keys + [x], base) == Added(Resolve(keys, base), x, base)
  {
    assert (keys + [x])[..|keys|] == keys;
  }

  /** The resolution `d` after a new key `x`. */
  function Added(d: Dedup, x: Key, base: nat): Dedup {
    Dedup(d.table[x := base + |d.order|], d.order + [x], d.ids + [base + |d.order|])
  }

  /** Every entry of `ks` addresses existing stream entries. */
  predicate AllInStreams(ks: seq<Key>, s: Streams) {
    forall i | 0 <= i < |ks| :: InStreams(ks[i], s)
  }

  /** The output vertices built for the distinct keys `ks`, in order. */
  function VerticesOf(ks: seq<Key>, s: Streams): seq<Vertex>
    requires AllInStreams(ks, s)
  {
    seq(|ks|, i requires 0 <= i < |ks| => VertexFor(ks[i], s))
  }

  /** The table numbers the keys of `order` consecutively from `base`, and nothing else. */
  ghost predicate TableNumbersOrder(d: Dedup, base: nat) {
    && (forall i | 0 <= i < |d.order| :: d.order[i] in d.table && d.table[d.order[i]] == base + i)
    && (forall x | x in d.table :: base <= d.table[x] < base + |d.order|)
    && (forall x, y | x in d.table && y in d.table && x != y :: d.table[x] != d.table[y])
  }

  /** The table holds exactly the keys seen, one vertex each, and every corner got its key's index. */
  ghost predicate TableCoversKeys(d: Dedup, keys: seq<Key>) {
    && |d.ids| == |keys|
    && d.table.Keys == KeySet(keys)
    && |d.order| == |KeySet(keys)|
    && (forall j | 0 <= j < |keys| :: keys[j] in d.table && d.ids[j] == d.table[keys[j]])
  }

  /** How `table`, `order` and `ids` of a resolution fit together. */
  ghost predicate Numbered(d: Dedup, keys: seq<Key>, base: nat) {
    TableNumbersOrder(d, base) && TableCoversKeys(d, keys)
  }

  /** A key already in the table, seen from the key list: only the emitted indices grow. */
  lemma TableCoversSeen(d: Dedup, keys: seq<Key>, x: Key)
    requires TableCoversKeys(d, keys) && x in d.table
    ensures TableCoversKeys(d.(ids := d.ids + [d.table[x]]), keys + [x])
  {
    KeySetAppend(keys, x);
    var keys', ids' := keys + [x], d.ids + [d.table[x]];
    assert forall j | 0 <= j < |keys| :: keys'[j] == keys[j] && ids'[j] == d.ids[j];
  }

  /** A key already in the table: it reuses its vertex. */
  lemma NumberedSeen(keys: seq<Key>, x: Key, base: nat)
    requires Numbered(Resolve(keys, base), keys, base) && x in Resolve(keys, base).table
    ensures Numbered(Resolve(keys + [x], base), keys + [x], base)
  {
    ResolveSnoc(keys, x, base);
    TableCoversSeen(Resolve(keys, base), keys, x);
  }

  /** A new key, seen from the table: it is mapped to the next number. */
  lemma TableNumbersNew(d: Dedup, x: Key, base: nat)
    requires TableNumbersOrder(d, base) && x !in d.table
    ensures TableNumbersOrder(Added(d, x, base), base)
  {
    var order' := d.order + [x];
    assert forall i | 0 <= i < |d.order| :: order'[i] == d.order[i];
  }

  /** A new key, seen from the key list: the table and the distinct keys both grow by it. */
  lemma TableCoversNew(d: Dedup, keys: seq<Key>, x: Key, base: nat)
    requires TableCoversKeys(d, keys) && x !in d.table
    ensures TableCoversKeys(Added(d, x, base), keys + [x])
  {
    KeySetAppend(keys, x);
    var keys', ids' := keys + [x], d.ids + [base + |d.order|];
    assert forall j | 0 <= j < |keys| :: keys'[j] == keys[j] && ids'[j] == d.ids[j];
  }

  /** A new key: it is appended to `order` and mapped to the next vertex. */
  lemma NumberedNew(keys: seq<Key>, x: Key, base: nat)
    requires Numbered(Resolve(keys, base), keys, base) && x !in Resolve(keys, base).table
    ensures Numbered(Resolve(keys + [x], base), keys + [x], base)
  {
    var d := Resolve(keys, base);
    ResolveSnoc(keys, x, base);
    TableNumbersNew(d, x, base);
    TableCoversNew(d, keys, x, base);
  }

  lemma {:induction false} ResolveNumbered(keys: seq<Key>, base: nat)
    ensures Numbered(Resolve(keys, base), keys, base)
  {
    if |keys| > 0 {
      var init, x := keys[..|keys| - 1], keys[|keys| - 1];
      assert keys == init + [x];
      ResolveNumbered(init, base);
      var d := Resolve(init, base);
      if x in d.table {
        NumberedSeen(init, x, base);
      } else {
        NumberedNew(init, x, base);
      }
    }
  }

  // ---------------------------------------------------------------------------
  // What the resolution promises

  /** Two corners get the same index exactly when they have the same key. */
  lemma ResolveSameIndexIffSameKey(keys: seq<Key>, base: nat)
    ensures |Resolve(keys, base).ids| == |keys|
    ensures var ids := Resolve(keys, base).ids;
      forall j1, j2 | 0 <= j1 < |keys| && 0 <= j2 < |keys| :: keys[j1] == keys[j2] <==> ids[j1] == ids[j2]
  {
    ResolveNumbered(keys, base);
  }

  /**
    One vertex per distinct key, and every emitted index addresses one of the
    vertices appended for this run of keys.
  */
  lemma ResolveIndicesInRange(keys: seq<Key>, base: nat)
    ensures |Resolve(keys, base).order| == |KeySet(keys)| <= |keys|
    ensures var ids := Resolve(keys, base).ids;
      |ids| == |keys| && forall j | 0 <= j < |ids| :: base <= ids[j] < base + |KeySet(keys)|
  {
    ResolveNumbered(keys, base);
    KeySetBound(keys);
  }

  /** The index emitted for a corner depends only on the corners before it. */
  lemma {:induction false} ResolvePrefix(keys: seq<Key>, n: nat, base: nat)
    requires n <= |keys|
    ensures Resolve(keys[..n], base).ids == Resolve(keys, base).ids[..n]
    decreases |keys|
  {
    if n < |keys| {
      var init, x := keys[..|keys| - 1], keys[|keys| - 1];
      assert keys == init + [x];
      assert init[..n] == keys[..n];
      ResolvePrefix(init, n, base);
      ResolveSnoc(init, x, base);
      assert Resolve(keys, base).ids[..n] == Resolve(init, base).ids[..n];
    } else {
      assert keys[..n] == keys;
    }
  }

  /** The first corner with a key not seen before gets the next fresh vertex. */
  lemma ResolveFirstOccurrence(keys: seq<Key>, base: nat, j: nat)
    requires j < |keys| && keys[j] !in keys[..j]
    ensures Resolve(keys, base).ids[j] == base + |KeySet(keys[..j])|
  {
    var before, x := keys[..j], keys[j];
    assert keys[..j + 1] == before + [x];
    ResolvePrefix(keys, j + 1, base);
    ResolveNumbered(before, base);
    ResolveSnoc(before, x, base);
  }

  /** No corner's index reaches past the vertices appended up to and including that corner. */
  lemma ResolveIndexSoFar(keys: seq<Key>, base: nat, j: nat)
    requires j < |keys|
    ensures base <= Resolve(keys, base).ids[j] < base + |KeySet(keys[..j + 1])|
  {
    ResolvePrefix(keys, j + 1, base);
    ResolveIndicesInRange(keys[..j + 1], base);
  }

  /** The number of distinct keys only grows as more corners are read. */
  lemma {:induction false} KeySetPrefixGrows(keys: seq<Key>, m: nat, n: nat)
    requires m <= n <= |keys|
    ensures |KeySet(keys[..m])| <= |KeySet(keys[..n])|
    decreases n
  {
    if m < n {
      KeySetPrefixGrows(keys, m, n - 1);
      assert keys[..n] == keys[..n - 1] + [keys[n - 1]];
      var before, x := KeySet(keys[..n - 1]), keys[n - 1];
      KeySetAppend(keys[..n - 1], x);
      if x in before {
        assert before + {x} == before;
      } else {
        assert |before + {x}| == |before| + 1;
      }
    }
  }

  /** Fresh vertices are handed out in increasing order of first appearance. */
  lemma ResolveFreshIncreasing(keys: seq<Key>, base: nat, j1: nat, j2: nat)
    requires j1 < j2 < |keys| && keys[j2] !in keys[..j2]
    ensures Resolve(keys, base).ids[j1] < Resolve(keys, base).ids[j2]
  {
    ResolveIndexSoFar(keys, base, j1);
    ResolveFirstOccurrence(keys, base, j2);
    KeySetPrefixGrows(keys, j1 + 1, j2);
  }

  // ---------------------------------------------------------------------------
  // The import against the reference resolution

  /** Each stream of `s'` begins with the corresponding stream of `s`. */
  predicate Extends(s: Streams, s': Streams) {
    s.positions <= s'.positions && s.uvs <= s'.uvs && s.normals <= s'.normals
  }

  /** Appending to the streams changes no vertex already built. */
  lemma VerticesOfExtends(ks: seq<Key>, s: Streams, s': Streams)
    requires AllInStreams(ks, s) && Extends(s, s')
    ensures AllInStreams(ks, s') && VerticesOf(ks, s') == VerticesOf(ks, s)
  {
    forall i | 0 <= i < |ks|
      ensures InStreams(ks[i], s') && VertexFor(ks[i], s') == VertexFor(ks[i], s)
    {
      var k := ks[i];
      assert s'.positions[k.v] == s.positions[k.v];
      assert s'.normals[k.vn] == s.normals[k.vn];
      if k.vt.Some? {
        assert s'.uvs[k.vt.value] == s.uvs[k.vt.value];
      }
    }
  }

  lemma VerticesOfSnoc(ks: seq<Key>, x: Key, s: Streams)
    requires AllInStreams(ks, s) && InStreams(x, s)
    ensures AllInStreams(ks + [x], s) && VerticesOf(ks + [x], s) == VerticesOf(ks, s) + [VertexFor(x, s)]
  {
    var ks' := ks + [x];
    assert forall i | 0 <= i < |ks| :: ks'[i] == ks[i];
  }

  /**
    The vertices appended by resolving `keys` against the streams `s` are those
    built for its distinct keys, in first-seen order.
  */
  predicate VerticesResolved(vertices: seq<Vertex>, keys: seq<Key>, s: Streams, vertices': seq<Vertex>) {
    var d := Resolve(keys, |vertices|);
    AllInStreams(d.order, s) && vertices' == vertices + VerticesOf(d.order, s)
  }

  /**
    What an import leaves in the caller's lists after resolving the corner
    `keys` against the streams `s`: the vertices of the distinct keys are
    appended to `vertices`, and the index of each corner's vertex to `indices`.
  */
  predicate ImportResult(vertices: seq<Vertex>, indices: seq<nat>, keys: seq<Key>, s: Streams,
                         vertices': seq<Vertex>, indices': seq<nat>)
  {
    VerticesResolved(vertices, keys, s, vertices') && indices' == indices + Resolve(keys, |vertices|).ids
  }

  /**
    The lists an import leaves: both are only appended to, by one vertex per
    distinct key and one index per corner, and the vertex each new index
    addresses is one appended by this import and is the one built from that
    corner's key.
  */
  lemma ImportedVertices(vertices: seq<Vertex>, indices: seq<nat>, keys: seq<Key>, s: Streams,
                         vertices': seq<Vertex>, indices': seq<nat>)
    requires ImportResult(vertices, indices, keys, s, vertices', indices')
    ensures |vertices'| == |vertices| + |KeySet(keys)| && vertices'[..|vertices|] == vertices
    ensures |indices'| == |indices| + |keys| && indices'[..|indices|] == indices
    ensures var added := indices'[|indices|..];
      forall j | 0 <= j < |keys| ::
        && InStreams(keys[j], s)
        && |vertices| <= added[j] < |vertices'|
        && vertices'[added[j]] == VertexFor(keys[j], s)
  {
    var base := |vertices|;
    var d := Resolve(keys, base);
    ResolveNumbered(keys, base);
    assert vertices'[..base] == vertices;
    assert indices'[..|indices|] == indices;
    var added := indices'[|indices|..];
    assert added == d.ids;
    forall j | 0 <= j < |keys|
      ensures InStreams(keys[j], s) && base <= added[j] < |vertices'| && vertices'[added[j]] == VertexFor(keys[j], s)
    {
      var i := d.ids[j] - base;
      assert d.table[d.order[i]] == d.table[keys[j]];
      assert d.order[i] == keys[j];
      assert vertices'[d.ids[j]] == VerticesOf(d.order, s)[i];
    }
  }

  /** Three indices per face line read, and at most three new vertices. */
  lemma ImportCounts(vertices: seq<Vertex>, indices: seq<nat>, read: seq<Line>,
                     vertices': seq<Vertex>, indices': seq<nat>)
    requires ImportResult(vertices, indices, CornerKeys(read), StreamsOf(read), vertices', indices')
    ensures |indices'| == |indices| + 3 * FaceCount(read)
    ensures |vertices| <= |vertices'| <= |vertices| + 3 * FaceCount(read)
    ensures |indices| % 3 == 0 ==> |indices'| % 3 == 0
  {
    CornerKeysCount(read);
    ResolveIndicesInRange(CornerKeys(read), |vertices|);
  }

  /**
    One corner against the key table: a key not yet in the table appends its
    vertex and records where it went.
  */
  method AddCorner(ghost vertices: seq<Vertex>, ghost keys: seq<Key>, s: Streams,
                   vs: seq<Vertex>, table: map<Key, nat>, x: Key, v: Vertex)
    returns (vs': seq<Vertex>, table': map<Key, nat>)
    requires VerticesResolved(vertices, keys, s, vs) && table == Resolve(keys, |vertices|).table
    requires InStreams(x, s) && v == VertexFor(x, s)
    ensures VerticesResolved(vertices, keys + [x], s, vs') && table' == Resolve(keys + [x], |vertices|).table
    ensures x in table' && Resolve(keys + [x], |vertices|).ids == Resolve(keys, |vertices|).ids + [table'[x]]
    ensures forall y | y in table :: y in table' && table'[y] == table[y]
  {
    ghost var d := Resolve(keys, |vertices|);
    ResolveSnoc(keys, x, |vertices|);
    vs', table' := vs, table;
    if x !in table' {
      vs' := vs' + [v];
      table' := table'[x := |vs'| - 1];
      VerticesOfSnoc(d.order, x, s);
    }
  }

  /**
    One face line: the three corners are entered into the table in turn, then
    the three indices are appended.
  */
  method AddFace(ghost vertices: seq<Vertex>, ghost indices: seq<nat>, ghost keys: seq<Key>, s: Streams,
                 vs: seq<Vertex>, idx: seq<nat>, table: map<Key, nat>, k1: Key, k2: Key, k3: Key)
    returns (vs': seq<Vertex>, idx': seq<nat>, table': map<Key, nat>)
    requires ImportResult(vertices, indices, keys, s, vs, idx) && table == Resolve(keys, |vertices|).table
    requires InStreams(k1, s) && InStreams(k2, s) && InStreams(k3, s)
    ensures ImportResult(vertices, indices, keys + [k1, k2, k3], s, vs', idx')
    ensures table' == Resolve(keys + [k1, k2, k3], |vertices|).table
  {
    var v1, v2, v3 := VertexFor(k1, s), VertexFor(k2, s), VertexFor(k3, s);
    var vs1, t1 := AddCorner(vertices, keys, s, vs, table, k1, v1);
    var vs2, t2 := AddCorner(vertices, keys + [k1], s, vs1, t1, k2, v2);
    assert keys + [k1] + [k2] == keys + [k1, k2];
    vs', table' := AddCorner(vertices, keys + [k1, k2], s, vs2, t2, k3, v3);
    assert keys + [k1, k2] + [k3] == keys + [k1, k2, k3];
    idx' := idx + [table'[k1], table'[k2], table'[k3]];
  }

  /**
    `OBJImporter::importOBJ`: reads `file` line by line and appends the mesh it
    describes to `vertices` and `indices`. A file that cannot be opened leaves
    both lists alone. An unsupported face line ends the import at once, keeping
    everything appended so far.
  */
  method ImportOBJ(file: Option<seq<Line>>, vertices: seq<Vertex>, indices: seq<nat>)
    returns (outcome: Outcome, vertices': seq<Vertex>, indices': seq<nat>)
    requires file.Some? ==> FacesInRange(file.value)
    ensures file.None? ==> outcome == CannotOpen && vertices' == vertices && indices' == indices
    ensures file.Some? ==>
      outcome == if NoUnsupported(file.value) then Completed else Unsupported(FirstUnsupported(file.value))
    ensures file.Some? ==>
      var read := Processed(file.value);
      ImportResult(vertices, indices, CornerKeys(read), StreamsOf(read), vertices', indices')
  {
    vertices', indices' := vertices, indices;
    if file.None? {
      return CannotOpen, vertices', indices';
    }
    var lines := file.value;
    var positions: seq<Vec3>, uvs: seq<Vec2>, normals: seq<Vec3> := [], [], [];
    var verticesMap: map<Key, nat> := map[];
    ghost var keys: seq<Key> := [];
    ghost var read: seq<Line> := [];
    var k := 0;
    while k < |lines|
      invariant k <= |lines| && read == lines[..k]
      invariant NoUnsupported(read)
      invariant Streams(positions, uvs, normals) == StreamsOf(read)
      invariant keys == CornerKeys(read)
      invariant ImportResult(vertices, indices, keys, Streams(positions, uvs, normals), vertices', indices')
      invariant verticesMap == Resolve(keys, |vertices|).table
    {
      var line := lines[k];
      var s := Streams(positions, uvs, normals);
      ReadNext(lines, k);
      match line {
      case V(p) =>
        positions := positions + [p];
      case VT(t) =>
        uvs := uvs + [t];
      case VN(n) =>
        normals := normals + [n];
      case FaceFull(c1, c2, c3) =>
        vertices', indices', verticesMap :=
          AddFace(vertices, indices, keys, s, vertices', indices', verticesMap, FullKey(c1), FullKey(c2), FullKey(c3));
        keys := keys + LineKeys(line);
      case FaceNoUV(n1, n2, n3) =>
        vertices', indices', verticesMap :=
          AddFace(vertices, indices, keys, s, vertices', indices', verticesMap, NoUVKey(n1), NoUVKey(n2), NoUVKey(n3));
        keys := keys + LineKeys(line);
      case UnsupportedFace =>
        FirstUnsupportedAt(lines, k);
        return Unsupported(k), vertices', indices';
      case Comment =>
      case Other =>
      }
      VerticesOfExtends(Resolve(keys, |vertices|).order, s, Streams(positions, uvs, normals));
      read := read + [line];
      k := k + 1;
    }
    assert lines[..k] == lines;
    ProcessedAll(lines);
    outcome := Completed;
  }

  // ---------------------------------------------------------------------------
  // The key of a `v//vn` corner, as written and as intended

  /**
    The key built for a `v//vn` corner when its texture slot takes the value
    left in the never-assigned texture index variable, `garbage`, decremented
    like the others.
  */
  function KeyAsWritten(c: NormalCorner, garbage: int): Key {
    Key(c.v - 1, Some(garbage - 1), c.vn - 1)
  }

  /**
    As written, the same `v//vn` corner in two corner slots whose leftover
    texture values differ gets two keys, hence two vertices and two indices.
  */
  lemma KeyAsWrittenSplitsCorner(c: NormalCorner, g1: int, g2: int, base: nat)
    requires g1 != g2
    ensures var ids := Resolve([KeyAsWritten(c, g1), KeyAsWritten(c, g2)], base).ids;
      |ids| == 2 && ids[0] != ids[1]
  {
    ResolveSameIndexIffSameKey([KeyAsWritten(c, g1), KeyAsWritten(c, g2)], base);
  }

  /**
    As written, a `v//vn` corner whose leftover texture value matches the
    texture index of a `v/vt/vn` corner with the same position and normal shares
    that corner's key. When the `v/vt/vn` corner comes first, as here, the
    `v//vn` corner after it gets that corner's index, and so that corner's
    vertex, whose texture coordinate comes from the uv stream instead of being
    zero. In the opposite order the shared vertex is built by the `v//vn`
    corner and the `v/vt/vn` corner inherits its zero texture coordinate.
  */
  lemma KeyAsWrittenCollides(c: NormalCorner, vt: nat, s: Streams, base: nat)
    requires 1 <= vt <= |s.uvs| && NormalCornerInRange(c, s)
    ensures KeyAsWritten(c, vt) == FullKey(Corner(c.v, vt, c.vn))
    ensures var ids := Resolve([FullKey(Corner(c.v, vt, c.vn)), KeyAsWritten(c, vt)], base).ids;
      |ids| == 2 && ids[0] == ids[1]
    ensures InStreams(KeyAsWritten(c, vt), s) && VertexFor(KeyAsWritten(c, vt), s).texCoords == s.uvs[vt - 1]
  {
    ResolveSameIndexIffSameKey([FullKey(Corner(c.v, vt, c.vn)), KeyAsWritten(c, vt)], base);
  }

  /**
    With the texture slot marked absent, a `v//vn` corner never shares a key
    with a `v/vt/vn` corner, its vertex has a zero texture coordinate, and
    repeating it always yields one index.
  */
  lemma NoUVKeyIntended(c: NormalCorner, d: Corner, s: Streams, base: nat)
    requires NormalCornerInRange(c, s)
    ensures NoUVKey(c) != FullKey(d)
    ensures InStreams(NoUVKey(c), s) && VertexFor(NoUVKey(c), s).texCoords == ZeroUV
    ensures var ids := Resolve([NoUVKey(c), NoUVKey(c)], base).ids; |ids| == 2 && ids[0] == ids[1]
  {
    ResolveSameIndexIffSameKey([NoUVKey(c), NoUVKey(c)], base);
  }
}
