/**
  The terrain mesh of the terrain demo: a regular grid of `width * height`
  vertices stored row by row, drawn as one triangle strip whose rows are
  joined by degenerate triangles (Terrain.h, `Terrain::setupTerrain`).

  The grid size comes from the height-map image; here it is a parameter.
  A grid vertex is identified by its column `x` and row `z`: it stands for the
  position `(x / width, 0, z / height)` with a zero normal, whose floating-point
  value the model does not compute.
*/
module TerrainGrid {

  /** The vertex at column `x`, row `z` of the grid. */
  datatype GridVertex = GridVertex(x: nat, z: nat)

  /** Number of strip positions: every vertex except those of the last row starts a pair. */
  function StripSpan(width: nat, height: nat): nat
    requires height >= 1
  {
    width * (height - 1)
  }

  /**
    After the pair for `i`, the loop adds the stitch pair `(i + width, i + 1)`
    when `i` closes a row (`i + 1` is a multiple of `width`, the loop counter
    being `i + 1`) and another strip row follows.
  */
  predicate StitchAfter(i: nat, width: nat, height: nat)
    requires width >= 1 && height >= 1
  {
    (i + 1) % width == 0 && i + 1 < StripSpan(width, height)
  }

  /** What one iteration of the index loop appends. */
  function StepIndices(i: nat, width: nat, height: nat): seq<nat>
    requires width >= 1 && height >= 1
  {
    [i, i + width] + (if StitchAfter(i, width, height) then [i + width, i + 1] else [])
  }

  /** The indices appended by the first `n` iterations of the index loop. */
  function StripUpTo(n: nat, width: nat, height: nat): seq<nat>
    requires width >= 1 && height >= 1
    decreases n
  {
    if n == 0 then [] else StripUpTo(n - 1, width, height) + StepIndices(n - 1, width, height)
  }

  /** The whole triangle-strip index list of a `width * height` grid. */
  function Strip(width: nat, height: nat): seq<nat>
    requires width >= 1 && height >= 1
  {
    StripUpTo(StripSpan(width, height), width, height)
  }

  /** The vertex array of a `width * height` grid: slot `k` holds column `k % width` of row `k / width`. */
  function Grid(width: nat, height: nat): (g: seq<GridVertex>)
    requires width >= 1
    ensures |g| == width * height
    ensures forall k | 0 <= k < |g| :: g[k].x < width && g[k].z * width + g[k].x == k
  {
    seq(width * height, k requires 0 <= k < width * height => GridVertex(k % width, k / width))
  }

  // ---------------------------------------------------------------------------
  // Arithmetic on row-major grid positions

  /** A positive multiple of a positive number is at least that number. */
  lemma MultipleAtLeast(a: int, w: int)
    requires w > 0
    ensures a >= 1 ==> a * w >= w
    ensures a <= -1 ==> a * w <= -w
  {
  }

  /** Multiplying by a positive number keeps a strict order. */
  lemma MultiplyLess(a: int, b: int, w: int)
    requires a < b && w > 0
    ensures a * w < b * w
  {
    MultipleAtLeast(b - a, w);
    assert (b - a) * w == b * w - a * w;
  }

  /** Quotient and remainder are determined by any decomposition `n == q * w + m` with `0 <= m < w`. */
  lemma {:induction false} DivModUnique(n: int, w: int, q: int, m: int)
    requires 0 < w && 0 <= m < w && n == q * w + m
    ensures n / w == q && n % w == m
  {
    var q', m' := n / w, n % w;
    assert n == q' * w + m';
    assert (q - q') * w == m' - m;
    MultipleAtLeast(q - q', w);
  }

  /** A grid position lies inside the `width * height` vertex array. */
  lemma RowMajorInside(z: nat, x: nat, width: nat, height: nat)
    requires z < height && x < width
    ensures z * width + x < width * height
  {
    assert z * width + x < (z + 1) * width <= height * width;
  }

  /** The grid point `(x, z)` is stored at `z * width + x`, with a vertex for every grid point. */
  lemma GridAt(width: nat, height: nat, z: nat, x: nat)
    requires width >= 1 && z < height && x < width
    ensures |Grid(width, height)| == width * height
    ensures z * width + x < |Grid(width, height)|
    ensures Grid(width, height)[z * width + x] == GridVertex(x, z)
  {
    RowMajorInside(z, x, width, height);
    DivModUnique(z * width + x, width, z, x);
  }

  // ---------------------------------------------------------------------------
  // Properties of the strip

  /** The loop only appends: an earlier iteration count gives a prefix. */
  lemma {:induction false} StripUpToPrefix(m: nat, n: nat, width: nat, height: nat)
    requires width >= 1 && height >= 1 && m <= n
    ensures |StripUpTo(m, width, height)| <= |StripUpTo(n, width, height)|
    ensures StripUpTo(n, width, height)[..|StripUpTo(m, width, height)|] == StripUpTo(m, width, height)
  {
    if m < n {
      StripUpToPrefix(m, n - 1, width, height);
      var a, b := StripUpTo(m, width, height), StripUpTo(n - 1, width, height);
      assert StripUpTo(n, width, height) == b + StepIndices(n - 1, width, height);
      assert (b + StepIndices(n - 1, width, height))[..|a|] == b[..|a|];
    }
  }

  /** One iteration adds a pair, and a stitch pair when it closes a row. */
  lemma StripUpToStep(n: nat, width: nat, height: nat)
    requires width >= 1 && height >= 1
    ensures |StripUpTo(n + 1, width, height)| == |StripUpTo(n, width, height)| + if StitchAfter(n, width, height) then 4 else 2
  {
  }

  /** Inside a row no stitch pair is emitted. */
  lemma StripUpToLengthInRow(r: nat, c: nat, width: nat, height: nat)
    requires width >= 1 && height >= 1 && 0 < c < width
    ensures |StripUpTo(r * width + c, width, height)| == |StripUpTo(r * width + (c - 1), width, height)| + 2
  {
    var p := r * width + (c - 1);
    assert p + 1 == r * width + c;
    DivModUnique(p + 1, width, r, c);
    StripUpToStep(p, width, height);
  }

  /** Closing a row that another strip row follows emits a stitch pair. */
  lemma StripUpToLengthRowEnd(r: nat, width: nat, height: nat)
    requires width >= 1 && height >= 1 && 0 < r < height - 1
    ensures |StripUpTo(r * width, width, height)| == |StripUpTo((r - 1) * width + (width - 1), width, height)| + 4
  {
    var p := (r - 1) * width + (width - 1);
    assert p + 1 == r * width;
    DivModUnique(p + 1, width, r, 0);
    MultiplyLess(r, height - 1, width);
    assert StitchAfter(p, width, height);
    StripUpToStep(p, width, height);
  }

  /**
    Before the pair for position `i = r * width + c` the loop has emitted
    two indices per earlier position and one stitch pair per earlier row.
  */
  lemma {:induction false} StripUpToLength(r: nat, c: nat, width: nat, height: nat)
    requires width >= 1 && height >= 2 && r < height - 1 && c < width
    ensures |StripUpTo(r * width + c, width, height)| == 2 * (r * width + c) + 2 * r
    decreases r, c
  {
    if c > 0 {
      StripUpToLength(r, c - 1, width, height);
      StripUpToLengthInRow(r, c, width, height);
    } else if r > 0 {
      StripUpToLength(r - 1, width - 1, width, height);
      StripUpToLengthRowEnd(r, width, height);
      assert (r - 1) * width + (width - 1) + 1 == r * width;
    } else {
      assert r * width + c == 0;
    }
  }

  /** Total count: two indices per strip position plus one stitch pair between consecutive strip rows. */
  lemma StripLength(width: nat, height: nat)
    requires width >= 1 && height >= 1
    ensures |Strip(width, height)| == if height == 1 then 0 else 2 * width * (height - 1) + 2 * (height - 2)
  {
    if height >= 2 {
      var n := StripSpan(width, height);
      StripUpToLength(height - 2, width - 1, width, height);
      assert n - 1 == (height - 2) * width + (width - 1);
      assert !StitchAfter(n - 1, width, height);
    }
  }

  lemma {:induction false} StripUpToBounds(n: nat, width: nat, height: nat)
    requires width >= 1 && height >= 1 && n <= StripSpan(width, height)
    ensures forall k | 0 <= k < |StripUpTo(n, width, height)| :: StripUpTo(n, width, height)[k] < width * height
  {
    if n > 0 {
      StripUpToBounds(n - 1, width, height);
      assert width * (height - 1) + width == width * height;
    }
  }

  /** Every index of the strip addresses a vertex of the grid. */
  lemma StripBounds(width: nat, height: nat)
    requires width >= 1 && height >= 1
    ensures forall k | 0 <= k < |Strip(width, height)| :: Strip(width, height)[k] < width * height
  {
    StripUpToBounds(StripSpan(width, height), width, height);
  }

  /** Within the whole strip, the indices of iteration `i` directly follow those of the earlier iterations. */
  lemma StripStepAt(i: nat, j: nat, width: nat, height: nat)
    requires width >= 1 && height >= 1 && i < StripSpan(width, height)
    requires j < |StepIndices(i, width, height)|
    ensures |StripUpTo(i, width, height)| + j < |Strip(width, height)|
    ensures Strip(width, height)[|StripUpTo(i, width, height)| + j] == StepIndices(i, width, height)[j]
  {
    var s, before, step := Strip(width, height), StripUpTo(i, width, height), StepIndices(i, width, height);
    var through := StripUpTo(i + 1, width, height);
    StripUpToPrefix(i + 1, StripSpan(width, height), width, height);
    assert through == before + step;
    assert s[..|through|] == through;
    assert s[|before| + j] == s[..|through|][|before| + j] == through[|before| + j];
  }

  /** The stitch pair follows position `i = r * width + c` exactly when `c` ends a row and `r` is not the last strip row. */
  lemma StitchAfterAt(width: nat, height: nat, r: nat, c: nat)
    requires width >= 1 && height >= 2 && r < height - 1 && c < width
    ensures StitchAfter(r * width + c, width, height) <==> c == width - 1 && r < height - 2
    ensures r * width + c < StripSpan(width, height)
    ensures r * width + c + 1 == StripSpan(width, height) <==> c == width - 1 && r == height - 2
  {
    var i := r * width + c;
    RowMajorInside(r, c, width, height - 1);
    if c == width - 1 {
      assert i + 1 == (r + 1) * width;
      DivModUnique(i + 1, width, r + 1, 0);
      if r < height - 2 {
        MultiplyLess(r + 1, height - 1, width);
      }
    } else {
      DivModUnique(i + 1, width, r, c + 1);
      RowMajorInside(r, c + 1, width, height - 1);
    }
  }

  /**
    Layout of the strip around position `i = r * width + c` (row `r`, column `c`):
    the pair `(i, i + width)` sits at offset `2 * i + 2 * r`; it is followed by the
    stitch pair `(i + width, i + 1)` exactly when `i` ends a row that is not the
    last strip row, otherwise by the next position's pair, or by nothing at the end.
  */
  lemma StripPairAt(width: nat, height: nat, r: nat, c: nat)
    requires width >= 1 && height >= 2 && r < height - 1 && c < width
    ensures var s, i, o := Strip(width, height), r * width + c, 2 * (r * width + c) + 2 * r;
      && o + 1 < |s| && s[o] == i && s[o + 1] == i + width
      && if c == width - 1 && r < height - 2 then
           o + 3 < |s| && s[o + 2] == i + width && s[o + 3] == i + 1
         else if i + 1 < StripSpan(width, height) then
           o + 2 < |s| && s[o + 2] == i + 1
         else
           o + 2 == |s|
  {
    var i := r * width + c;
    StripUpToLength(r, c, width, height);
    StitchAfterAt(width, height, r, c);
    StripStepAt(i, 0, width, height);
    StripStepAt(i, 1, width, height);
    if StitchAfter(i, width, height) {
      StripStepAt(i, 2, width, height);
      StripStepAt(i, 3, width, height);
    } else {
      StripUpToStep(i, width, height);
      if i + 1 < StripSpan(width, height) {
        StripStepAt(i + 1, 0, width, height);
      }
    }
  }

  // ---------------------------------------------------------------------------
  // The terrain object

  class Terrain {
    /** Grid vertices, row-major: the vertex of column x, row z is at z * width + x. */
    var vertices: array<GridVertex>
    /** Index list drawn as a single triangle strip. */
    var indices: seq<nat>

    /** Builds the terrain of a `width * height` height map; textures and GPU buffers are not modelled. */
    constructor (width: nat, height: nat)
      requires width >= 1 && height >= 1
      ensures vertices[..] == Grid(width, height)
      ensures indices == Strip(width, height)
    {
      vertices := new GridVertex[0];
      indices := [];
      new;
      SetupTerrain(width, height);
    }

    /**
      Lays out the grid vertices and appends the triangle-strip indices.
      The vertex array is replaced; the index list is only appended to.
    */
    method SetupTerrain(width: nat, height: nat)
      requires width >= 1 && height >= 1
      modifies this
      ensures fresh(vertices) && vertices[..] == Grid(width, height)
      ensures indices == old(indices) + Strip(width, height)
    {
      var grid := LayOutGrid(width, height);
      vertices := grid;
      AppendStrip(width, height);
    }

    /** The index loop: pairs `(i, i + width)`, and a stitch pair at the end of every row but the last strip row. */
    method AppendStrip(width: nat, height: nat)
      requires width >= 1 && height >= 1
      modifies this`indices
      ensures indices == old(indices) + Strip(width, height)
    {
      var span := width * (height - 1);
      assert span == StripSpan(width, height);
      var c := 1;
      for i := 0 to span
        invariant c == i + 1
        invariant indices == old(indices) + StripUpTo(i, width, height)
      {
        indices := indices + [i, i + width];
        if c % width == 0 && c < span {
          indices := indices + [i + width, i + 1];
        }
        c := c + 1;
      }
    }
  }

  /** The first `n` slots of `grid` hold their grid points: slot `k` is column `k % width` of row `k / width`. */
  ghost predicate FilledUpTo(grid: array<GridVertex>, n: nat, width: nat)
    requires width >= 1
    reads grid
  {
    n <= grid.Length && forall k | 0 <= k < n :: grid[k] == GridVertex(k % width, k / width)
  }

  /** The vertex loops: a fresh array with grid point `(x, z)` written at `z * width + x`. */
  method LayOutGrid(width: nat, height: nat) returns (grid: array<GridVertex>)
    requires width >= 1
    ensures fresh(grid) && grid[..] == Grid(width, height)
  {
    grid := new GridVertex[width * height];
    for z := 0 to height
      invariant FilledUpTo(grid, z * width, width)
    {
      LayOutRow(grid, width, height, z);
    }
  }

  /** The inner vertex loop: writes row `z`, the slots `z * width` up to `(z + 1) * width`. */
  method LayOutRow(grid: array<GridVertex>, width: nat, height: nat, z: nat)
    requires width >= 1 && z < height && grid.Length == width * height
    requires FilledUpTo(grid, z * width, width)
    modifies grid
    ensures FilledUpTo(grid, (z + 1) * width, width)
  {
    RowMajorInside(z, width - 1, width, height);
    ghost var written := z * width;
    for x := 0 to width
      invariant written == z * width + x && written <= grid.Length
      invariant forall k | 0 <= k < written :: grid[k] == GridVertex(k % width, k / width)
    {
      RowMajorInside(z, x, width, height);
      DivModUnique(written, width, z, x);
      grid[z * width + x] := GridVertex(x, z);
      written := written + 1;
    }
    assert written == (z + 1) * width;
  }
}
