/**
 * The SLAM node's map and pose conversions: BreezySLAM's map bytes are a
 * width-by-height array stored row-major, and the display wants a grid of
 * height rows with the origin at the bottom-left.
 */
module Slam {
  import opened Bytes

  /** `getGridAlignedSlamPose(x, y, theta, M)`: swap the axes and mirror them across the map size. */
  function GridAlignedPose(x: real, y: real, theta: real, mapSize: real): (p: (real, real, real))
    ensures p.0 + y == mapSize && p.1 + x == mapSize && p.2 == theta
  {
    (-y + mapSize, -x + mapSize, theta)
  }

  /** Re-aligning an aligned pose with the same map size gives back the original pose. */
  lemma GridAlignedPoseInvolution(x: real, y: real, theta: real, mapSize: real)
    ensures var p := GridAlignedPose(x, y, theta, mapSize);
      GridAlignedPose(p.0, p.1, p.2, mapSize) == (x, y, theta)
  {
  }

  /** A grid with `rows` rows of `cols` bytes each. */
  predicate IsGrid(g: seq<seq<Byte>>, rows: nat, cols: nat)
  {
    |g| == rows && forall i :: 0 <= i < rows ==> |g[i]| == cols
  }

  lemma MulStep(w: nat, h: nat)
    requires w > 0
    ensures w * h == (w - 1) * h + h
  {
  }

  /** `np.reshape(b, (w, h), order="C")`: `w` consecutive chunks of `h` bytes. */
  function Chunked(b: seq<Byte>, w: nat, h: nat): (rs: seq<seq<Byte>>)
    requires |b| == w * h
    ensures IsGrid(rs, w, h)
    decreases w
  {
    if w == 0 then []
    else
      MulStep(w, h);
      [b[..h]] + Chunked(b[h..], w - 1, h)
  }

  /** Flattening in row-major order. */
  function Concat(rs: seq<seq<Byte>>): seq<Byte>
  {
    if rs == [] then [] else rs[0] + Concat(rs[1..])
  }

  lemma {:induction false} ConcatLength(rs: seq<seq<Byte>>, w: nat, h: nat)
    requires IsGrid(rs, w, h)
    ensures |Concat(rs)| == w * h
  {
    if w > 0 {
      ConcatLength(rs[1..], w - 1, h);
      MulStep(w, h);
    }
  }

  lemma {:induction false} ConcatChunked(b: seq<Byte>, w: nat, h: nat)
    requires |b| == w * h
    ensures Concat(Chunked(b, w, h)) == b
    decreases w
  {
    if w > 0 {
      MulStep(w, h);
      ConcatChunked(b[h..], w - 1, h);
      assert Chunked(b, w, h)[1..] == Chunked(b[h..], w - 1, h);
    } else {
      assert b == [];
    }
  }

  lemma {:induction false} ChunkedConcat(rs: seq<seq<Byte>>, w: nat, h: nat)
    requires IsGrid(rs, w, h)
    ensures |Concat(rs)| == w * h && Chunked(Concat(rs), w, h) == rs
    decreases w
  {
    ConcatLength(rs, w, h);
    if w > 0 {
      ChunkedConcat(rs[1..], w - 1, h);
      var s := Concat(rs);
      assert s[..h] == rs[0] && s[h..] == Concat(rs[1..]);
    }
  }

  /** Chunk `a` holds the bytes from `a * h`. */
  lemma {:induction false} ChunkedAt(b: seq<Byte>, w: nat, h: nat, a: nat, c: nat)
    requires |b| == w * h && a < w && c < h
    ensures 0 <= a * h + c < |b| && Chunked(b, w, h)[a][c] == b[a * h + c]
    decreases w
  {
    MulStep(w, h);
    var rest := Chunked(b[h..], w - 1, h);
    assert Chunked(b, w, h) == [b[..h]] + rest;
    if a > 0 {
      ChunkedAt(b[h..], w - 1, h, a - 1, c);
      MulStep(a, h);
      assert b[h..][(a - 1) * h + c] == b[a * h + c];
    } else {
      assert (w - 1) * h >= 0;
    }
  }

  /**
   * `mapBytesToGrid(b, w, h)`: reshape to `w`-by-`h`, reverse both axes and transpose,
   * giving `h` rows of `w` cells.
   */
  function MapBytesToGrid(b: seq<Byte>, width: nat, height: nat): (g: seq<seq<Byte>>)
    requires |b| == width * height
    ensures IsGrid(g, height, width)
  {
    var m := Chunked(b, width, height);
    seq(height, i requires 0 <= i < height => seq(width, j requires 0 <= j < width => m[width - 1 - j][height - 1 - i]))
  }

  /** Cell `(i, j)` of the grid is byte `(w-1-j) * h + (h-1-i)` of the map. */
  lemma MapBytesToGridAt(b: seq<Byte>, width: nat, height: nat, i: nat, j: nat)
    requires |b| == width * height && i < height && j < width
    ensures var k := (width - 1 - j) * height + (height - 1 - i);
      0 <= k < |b| && MapBytesToGrid(b, width, height)[i][j] == b[k]
  {
    ChunkedAt(b, width, height, width - 1 - j, height - 1 - i);
  }

  /** The columns of `g` read bottom to top, from the rightmost column to the leftmost. */
  function Flipped(g: seq<seq<Byte>>, rows: nat, cols: nat): (t: seq<seq<Byte>>)
    requires IsGrid(g, rows, cols)
    ensures IsGrid(t, cols, rows)
  {
    seq(cols, a requires 0 <= a < cols => seq(rows, c requires 0 <= c < rows => g[rows - 1 - c][cols - 1 - a]))
  }

  /** `gridToMapBytes(g)` for a `rows`-by-`cols` grid of bytes: transpose, reverse both axes, flatten. */
  function GridToMapBytes(g: seq<seq<Byte>>, rows: nat, cols: nat): (b: seq<Byte>)
    requires IsGrid(g, rows, cols)
  {
    Concat(Flipped(g, rows, cols))
  }

  /** The map holds `rows * cols` bytes; byte `a * rows + c` is cell `(rows-1-c, cols-1-a)`. */
  lemma GridToMapBytesAt(g: seq<seq<Byte>>, rows: nat, cols: nat, a: nat, c: nat)
    requires IsGrid(g, rows, cols) && a < cols && c < rows
    ensures |GridToMapBytes(g, rows, cols)| == cols * rows
    ensures a * rows + c < cols * rows && GridToMapBytes(g, rows, cols)[a * rows + c] == g[rows - 1 - c][cols - 1 - a]
  {
    var t := Flipped(g, rows, cols);
    ChunkedConcat(t, cols, rows);
    ChunkedAt(Concat(t), cols, rows, a, c);
  }

  /** Map bytes survive the trip to a grid and back. */
  lemma MapBytesRoundTrip(b: seq<Byte>, width: nat, height: nat)
    requires |b| == width * height
    ensures GridToMapBytes(MapBytesToGrid(b, width, height), height, width) == b
  {
    var m := Chunked(b, width, height);
    var t := Flipped(MapBytesToGrid(b, width, height), height, width);
    forall a | 0 <= a < width
      ensures t[a] == m[a]
    {
      assert forall c :: 0 <= c < height ==> t[a][c] == m[a][c];
    }
    assert t == m;
    ConcatChunked(b, width, height);
  }

  /** A grid survives the trip to map bytes and back. */
  lemma GridRoundTrip(g: seq<seq<Byte>>, rows: nat, cols: nat)
    requires IsGrid(g, rows, cols)
    ensures |GridToMapBytes(g, rows, cols)| == cols * rows
    ensures MapBytesToGrid(GridToMapBytes(g, rows, cols), cols, rows) == g
  {
    var t := Flipped(g, rows, cols);
    ChunkedConcat(t, cols, rows);
    var r := MapBytesToGrid(Concat(t), cols, rows);
    forall i | 0 <= i < rows
      ensures r[i] == g[i]
    {
      assert forall j :: 0 <= j < cols ==> r[i][j] == t[cols - 1 - j][rows - 1 - i];
    }
  }
}
