/** A picture's pixels as a value, and the whole-picture transformations of
    class Picture as functions on that value. The methods of
    Pictures.Picture are proved to turn the grid `g` they start from into
    exactly the grid these functions give, so the lemmas here (involution,
    idempotence, what a blit leaves alone) hold of the methods too. */
module Grids {
  import opened Colors

  /** Rows of colours, row 0 at the top, column 0 at the left. */
  type Grid = seq<seq<Color>>

  /** The number of columns, read from the first row as the source reads
      `pixels[0].length`. */
  function Width(g: Grid): nat {
    if |g| == 0 then 0 else |g[0]|
  }

  /** Every row is as wide as the first one. */
  predicate IsRect(g: Grid) {
    forall i :: 0 <= i < |g| ==> |g[i]| == Width(g)
  }

  predicate SameShape(a: Grid, b: Grid) {
    |a| == |b| && forall i :: 0 <= i < |a| ==> |a[i]| == |b[i]|
  }

  predicate AllValid(g: Grid) {
    forall i, j :: 0 <= i < |g| && 0 <= j < |g[i]| ==> ValidColor(g[i][j])
  }

  /** Two grids of the same shape that agree on every cell are equal. */
  lemma CellwiseEqual(a: Grid, b: Grid)
    requires SameShape(a, b)
    requires forall i, j :: 0 <= i < |a| && 0 <= j < |a[i]| ==> a[i][j] == b[i][j]
    ensures a == b
  {
    forall i | 0 <= i < |a|
      ensures a[i] == b[i]
    {
      assert |a[i]| == |b[i]|;
    }
  }

  /** An `h` by `w` grid all of colour `c`. */
  function Filled(h: nat, w: nat, c: Color): (r: Grid)
    ensures IsRect(r) && |r| == h && (h > 0 ==> Width(r) == w)
  {
    seq(h, _ => seq(w, _ => c))
  }

  // ---------------------------------------------------------------------
  // Channel edits: zeroBlue, keepOnlyBlue, negate, grayscale

  /** The grid with `f` applied to every cell. */
  function MapCells(g: Grid, f: Color -> Color): (r: Grid)
    ensures SameShape(r, g)
    ensures forall i, j :: 0 <= i < |g| && 0 <= j < |g[i]| ==> r[i][j] == f(g[i][j])
  {
    seq(|g|, i requires 0 <= i < |g| => seq(|g[i]|, j requires 0 <= j < |g[i]| => f(g[i][j])))
  }

  /** Zeroing blue and then zeroing red and green leaves a black picture. */
  lemma ZeroBlueThenKeepOnlyBlueIsBlack(g: Grid)
    requires IsRect(g)
    ensures MapCells(MapCells(g, ZeroBlue), KeepOnlyBlue) == Filled(|g|, Width(g), Black)
  {
    CellwiseEqual(MapCells(MapCells(g, ZeroBlue), KeepOnlyBlue), Filled(|g|, Width(g), Black));
  }

  /** Negation keeps every channel in 0..255. */
  lemma NegateKeepsValid(g: Grid)
    requires AllValid(g)
    ensures AllValid(MapCells(g, Negate))
  {
  }

  /** Negating twice restores the original picture. */
  lemma NegateInvolution(g: Grid)
    ensures MapCells(MapCells(g, Negate), Negate) == g
  {
    var n := MapCells(g, Negate);
    forall i, j | 0 <= i < |g| && 0 <= j < |g[i]|
      ensures MapCells(n, Negate)[i][j] == g[i][j]
    {
      assert n[i][j] == Negate(g[i][j]);
    }
    CellwiseEqual(MapCells(MapCells(g, Negate), Negate), g);
  }

  /** Grayscale keeps every channel in 0..255 and makes every cell gray. */
  lemma GrayscaleKeepsValid(g: Grid)
    requires AllValid(g)
    ensures AllValid(MapCells(g, Gray))
    ensures forall i, j :: 0 <= i < |g| && 0 <= j < |g[i]| ==>
              MapCells(g, Gray)[i][j].r == MapCells(g, Gray)[i][j].g == MapCells(g, Gray)[i][j].b
  {
  }

  /** Grayscale applied twice equals grayscale applied once: the average of
      three equal channels is that channel. */
  lemma GrayscaleIdempotent(g: Grid)
    ensures MapCells(MapCells(g, Gray), Gray) == MapCells(g, Gray)
  {
    forall i, j | 0 <= i < |g| && 0 <= j < |g[i]|
      ensures Gray(Gray(g[i][j])) == Gray(g[i][j])
    {
      var y := Gray(g[i][j]);
      assert y.r + y.g + y.b == 3 * y.r;
    }
    CellwiseEqual(MapCells(MapCells(g, Gray), Gray), MapCells(g, Gray));
  }

  // ---------------------------------------------------------------------
  // Mirrors

  /** The left (top) half of `s` copied onto its right (bottom) half:
      position `k < |s| / 2` is kept and copied to `|s| - 1 - k`; for an odd
      length the middle is kept. */
  function Mirrored<T>(s: seq<T>): (m: seq<T>)
    ensures |m| == |s|
    ensures forall k :: 0 <= k < |s| / 2 ==> m[k] == s[k] && m[|s| - 1 - k] == s[k]
    ensures |s| % 2 == 1 ==> m[|s| / 2] == s[|s| / 2]
  {
    seq(|s|, k requires 0 <= k < |s| => if k < |s| - |s| / 2 then s[k] else s[|s| - 1 - k])
  }

  /** Mirroring the mirrored sequence changes nothing more: the kept half
      is the half that is read. For a grid, `Mirrored` on its rows is
      mirrorHorizontalTopToBottom, so that mirror is idempotent too. */
  lemma MirroredIdempotent<T>(s: seq<T>)
    ensures Mirrored(Mirrored(s)) == Mirrored(s)
  {
  }

  /** Mirroring is not an involution: on two different elements, mirroring
      twice does not restore the original. On the rows of a grid this is
      mirrorHorizontalTopToBottom applied to a two-row picture. */
  lemma MirroredNotInvolution<T>(a: T, b: T)
    requires a != b
    ensures Mirrored(Mirrored([a, b])) != [a, b]
  {
    assert Mirrored(Mirrored([a, b]))[1] == a;
  }

  /** mirrorVertical: every row mirrored left to right. */
  function MirroredColumns(g: Grid): (r: Grid)
    ensures SameShape(r, g)
    ensures forall i, k :: 0 <= i < |g| && 0 <= k < |g[i]| / 2 ==>
              r[i][k] == g[i][k] && r[i][|g[i]| - 1 - k] == g[i][k]
    ensures forall i :: 0 <= i < |g| && |g[i]| % 2 == 1 ==> r[i][|g[i]| / 2] == g[i][|g[i]| / 2]
  {
    seq(|g|, i requires 0 <= i < |g| => Mirrored(g[i]))
  }

  /** mirrorVertical applied twice equals mirrorVertical applied once. */
  lemma MirroredColumnsIdempotent(g: Grid)
    ensures MirroredColumns(MirroredColumns(g)) == MirroredColumns(g)
  {
    forall i | 0 <= i < |g|
      ensures MirroredColumns(MirroredColumns(g))[i] == MirroredColumns(g)[i]
    {
      MirroredIdempotent(g[i]);
    }
  }

  /** mirrorVertical is not an involution: on a one-row picture with two
      different pixels, mirroring twice does not restore the original. */
  lemma MirroredColumnsNotInvolution(a: Color, b: Color)
    requires a != b
    ensures MirroredColumns(MirroredColumns([[a, b]])) != [[a, b]]
  {
    assert MirroredColumns(MirroredColumns([[a, b]]))[0][1] == a;
  }

  /** The region of mirrorTemple: rows 27 up to 97 (exclusive), columns 13
      up to the mirror point 276 (exclusive), copied across column 276. */
  const TempleTop: int := 27
  const TempleBottom: int := 97
  const TempleLeft: int := 13
  const MirrorPoint: int := 276

  /** Cell `(i, j)` is one mirrorTemple writes: `j == 2 * MirrorPoint - col`
      for a column `TempleLeft <= col < MirrorPoint`. */
  predicate InTempleImage(i: int, j: int) {
    TempleTop <= i < TempleBottom && MirrorPoint < j <= 2 * MirrorPoint - TempleLeft
  }

  function TempleMirrored(g: Grid): (r: Grid)
    ensures SameShape(r, g)
    ensures forall i, j :: 0 <= i < |g| && 0 <= j < |g[i]| && !InTempleImage(i, j) ==> r[i][j] == g[i][j]
  {
    seq(|g|, i requires 0 <= i < |g| =>
      seq(|g[i]|, j requires 0 <= j < |g[i]| =>
        if InTempleImage(i, j) then g[i][2 * MirrorPoint - j] else g[i][j]))
  }

  /** Each pixel left of the mirror point inside the temple region ends up
      both where it was and at its mirror image. */
  lemma TempleMirroredCopies(g: Grid, i: int, col: int)
    requires 0 <= i < |g| && TempleTop <= i < TempleBottom
    requires TempleLeft <= col < MirrorPoint && 2 * MirrorPoint - col < |g[i]|
    ensures TempleMirrored(g)[i][col] == g[i][col]
    ensures TempleMirrored(g)[i][2 * MirrorPoint - col] == g[i][col]
  {
  }

  /** mirrorTemple applied twice equals mirrorTemple applied once: it reads
      only columns it never writes. */
  lemma TempleMirroredIdempotent(g: Grid)
    ensures TempleMirrored(TempleMirrored(g)) == TempleMirrored(g)
  {
    var t := TempleMirrored(g);
    forall i, j | 0 <= i < |g| && 0 <= j < |g[i]|
      ensures TempleMirrored(t)[i][j] == t[i][j]
    {
      if InTempleImage(i, j) {
        assert !InTempleImage(i, 2 * MirrorPoint - j);
      }
    }
    CellwiseEqual(TempleMirrored(t), t);
  }

  /** A picture of the smallest size mirrorTemple accepts, of colour `b`
      except for colour `a` at the temple's first pixel (row 27, column 13). */
  function TempleProbe(a: Color, b: Color): (g: Grid)
    ensures |g| == TempleBottom && forall i :: 0 <= i < |g| ==> |g[i]| == 2 * MirrorPoint - TempleLeft + 1
    ensures g[TempleTop][TempleLeft] == a && g[TempleTop][2 * MirrorPoint - TempleLeft] == b
  {
    seq(TempleBottom, i => seq(2 * MirrorPoint - TempleLeft + 1, j => if i == TempleTop && j == TempleLeft then a else b))
  }

  /** mirrorTemple is not an involution: mirroring twice leaves the copy of
      the pixel at column 13 at column 539, where the original differed. */
  lemma TempleMirroredNotInvolution(a: Color, b: Color)
    requires a != b
    ensures TempleMirrored(TempleMirrored(TempleProbe(a, b))) != TempleProbe(a, b)
  {
  }

  // ---------------------------------------------------------------------
  // Blits: copy and cropAndCopy

  /** copy: `src` placed with its top-left corner at `(row, col)` of `dst`,
      clipped at the edges of `dst`; cells the placed `src` does not cover
      keep their colour. */
  function Blit(dst: Grid, src: Grid, row: int, col: int): (r: Grid)
    requires IsRect(src)
    ensures SameShape(r, dst)
    ensures forall a, b :: 0 <= a < |src| && 0 <= b < Width(src) && 0 <= row + a < |dst| && 0 <= col + b < |dst[row + a]| ==>
              r[row + a][col + b] == src[a][b]
    ensures forall i, j :: 0 <= i < |dst| && 0 <= j < |dst[i]| && !(row <= i < row + |src| && col <= j < col + Width(src)) ==>
              r[i][j] == dst[i][j]
  {
    seq(|dst|, i requires 0 <= i < |dst| =>
      seq(|dst[i]|, j requires 0 <= j < |dst[i]| =>
        if row <= i < row + |src| && col <= j < col + Width(src) then src[i - row][j - col] else dst[i][j]))
  }

  /** A copy placed at or beyond the bottom or right edge writes nothing. */
  lemma BlitOffPicture(dst: Grid, src: Grid, row: int, col: int)
    requires IsRect(dst) && IsRect(src)
    requires row >= |dst| || col >= Width(dst)
    ensures Blit(dst, src, row, col) == dst
  {
    CellwiseEqual(Blit(dst, src, row, col), dst);
  }

  /** Copying a picture of the same size at the origin replaces every cell. */
  lemma BlitWholePicture(dst: Grid, src: Grid)
    requires IsRect(src) && SameShape(dst, src)
    ensures Blit(dst, src, 0, 0) == src
  {
    var b := Blit(dst, src, 0, 0);
    forall i, j | 0 <= i < |b| && 0 <= j < |b[i]|
      ensures b[i][j] == src[i][j]
    {
      assert |b[i]| == |dst[i]| == |src[i]| == Width(src);
    }
    CellwiseEqual(b, src);
  }

  /** Source rows `startRow..endRow` (inclusive) and source columns
      `startCol..endRow` (inclusive: the column range also ends at
      `endRow`) exist in `src`, whenever the region is not empty. */
  predicate CropInSource(src: Grid, startRow: int, endRow: int, startCol: int) {
    startRow <= endRow && startCol <= endRow ==>
      0 <= startRow && endRow < |src| && 0 <= startCol && endRow < Width(src)
  }

  /** cropAndCopy: source cell `(i, j)` of the region goes to
      `(i - startRow + destRow, j - startCol + destCol)`; every other cell of
      `dst` keeps its colour. */
  function CropCopied(dst: Grid, src: Grid, startRow: int, endRow: int, startCol: int, destRow: int, destCol: int): (r: Grid)
    requires IsRect(src) && CropInSource(src, startRow, endRow, startCol)
    ensures SameShape(r, dst)
    ensures forall a, b ::
              (startRow <= a <= endRow && startCol <= b <= endRow &&
               0 <= a - startRow + destRow < |dst| && 0 <= b - startCol + destCol < |dst[a - startRow + destRow]|) ==>
              r[a - startRow + destRow][b - startCol + destCol] == src[a][b]
    ensures forall i, j ::
              (0 <= i < |dst| && 0 <= j < |dst[i]| &&
               !(destRow <= i <= destRow + (endRow - startRow) && destCol <= j <= destCol + (endRow - startCol))) ==>
              r[i][j] == dst[i][j]
  {
    seq(|dst|, i requires 0 <= i < |dst| =>
      seq(|dst[i]|, j requires 0 <= j < |dst[i]| =>
        if destRow <= i <= destRow + (endRow - startRow) && destCol <= j <= destCol + (endRow - startCol)
        then src[i - destRow + startRow][j - destCol + startCol]
        else dst[i][j]))
  }

  /** On a square source, cropping all of it and copying it is the same as
      copy. On other sources the two can differ, because the column range of
      cropAndCopy ends at its end row (see CropWideRowIsNotCopy). */
  lemma CropWholeSquareIsCopy(dst: Grid, src: Grid, row: int, col: int)
    requires IsRect(src) && |src| > 0 && Width(src) == |src|
    ensures CropCopied(dst, src, 0, |src| - 1, 0, row, col) == Blit(dst, src, row, col)
  {
    CellwiseEqual(CropCopied(dst, src, 0, |src| - 1, 0, row, col), Blit(dst, src, row, col));
  }

  /** Cropping row 0 of a one-by-three source, asking for columns 0 to 2,
      copies only column 0: the column range ends at the end row 0. */
  lemma CropWideRowIsNotCopy(x: Color, y: Color, z: Color, a: Color, b: Color, c: Color)
    requires y != b
    ensures CropCopied([[x, y, z]], [[a, b, c]], 0, 0, 0, 0, 0) == [[a, y, z]]
    ensures CropCopied([[x, y, z]], [[a, b, c]], 0, 0, 0, 0, 0) != Blit([[x, y, z]], [[a, b, c]], 0, 0)
  {
    CellwiseEqual(CropCopied([[x, y, z]], [[a, b, c]], 0, 0, 0, 0, 0), [[a, y, z]]);
    assert Blit([[x, y, z]], [[a, b, c]], 0, 0)[0][1] == b;
  }

  // ---------------------------------------------------------------------
  // Edge detection

  /** edgeDetection: every cell with a right neighbour becomes black or white
      by comparing its original colour with its neighbour's original colour;
      the last cell of each row keeps its colour. */
  function EdgeDetected(g: Grid, edgeDist: int): (r: Grid)
    ensures SameShape(r, g)
    ensures forall i, j :: 0 <= i < |g| && 0 <= j < |g[i]| - 1 ==>
              (r[i][j] == Black || r[i][j] == White) && (r[i][j] == Black <==> IsEdge(g[i][j], g[i][j + 1], edgeDist))
    ensures forall i :: 0 <= i < |g| && |g[i]| > 0 ==> r[i][|g[i]| - 1] == g[i][|g[i]| - 1]
  {
    seq(|g|, i requires 0 <= i < |g| =>
      seq(|g[i]|, j requires 0 <= j < |g[i]| =>
        if j + 1 < |g[i]| then EdgeMark(g[i][j], g[i][j + 1], edgeDist) else g[i][j]))
  }

  /** Edge detection keeps every channel in 0..255. */
  lemma EdgeDetectedKeepsValid(g: Grid, edgeDist: int)
    requires AllValid(g)
    ensures AllValid(EdgeDetected(g, edgeDist))
  {
  }
}
