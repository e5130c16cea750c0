/** Class Picture: a height-by-width grid of pixels that its methods change
    in place, row by row and column by column. */
module Pictures {
  import opened Colors
  import opened Grids

  class Picture {
    /** The pixel grid: `px[row, col]` is the colour of the pixel in row
        `row` (0 at the top) and column `col` (0 at the left); `Length0` is
        the height and `Length1` the width. */
    var px: array2<Color>

    /** Every pixel's channels lie in 0..255. */
    ghost predicate Valid()
      reads this, px
    {
      forall i, j :: 0 <= i < px.Length0 && 0 <= j < px.Length1 ==> ValidColor(px[i, j])
    }

    /** The pixels as a value. */
    ghost function Cells(): (g: Grid)
      reads this, px
      ensures |g| == px.Length0 && IsRect(g) && (|g| > 0 ==> Grids.Width(g) == px.Length1)
      ensures forall i :: 0 <= i < |g| ==> |g[i]| == px.Length1
      ensures forall i, j :: 0 <= i < px.Length0 && 0 <= j < px.Length1 ==> g[i][j] == px[i, j]
    {
      seq(px.Length0, i requires 0 <= i < px.Length0 reads this, px =>
        seq(px.Length1, j requires 0 <= i < px.Length0 && 0 <= j < px.Length1 reads this, px => px[i, j]))
    }

    /** A picture over the given pixels, as when a Picture is made from an
        existing image. */
    constructor Wrap(pixels: array2<Color>)
      requires forall i, j :: 0 <= i < pixels.Length0 && 0 <= j < pixels.Length1 ==> ValidColor(pixels[i, j])
      ensures px == pixels
      ensures Valid()
    {
      px := pixels;
    }

    /** The loop shared by zeroBlue, keepOnlyBlue, negate and grayscale: each
        pixel in turn, row by row, gets the colour `f` gives its colour. */
    method MapPixels(f: Color -> Color)
      requires Valid()
      requires forall c :: ValidColor(c) ==> ValidColor(f(c))
      modifies px
      ensures Valid()
      ensures forall i, j :: 0 <= i < px.Length0 && 0 <= j < px.Length1 ==> px[i, j] == f(old(px[i, j]))
      ensures Cells() == MapCells(old(Cells()), f)
    {
      ghost var g0 := Cells();
      var row := 0;
      while row < px.Length0
        invariant 0 <= row <= px.Length0
        invariant forall i, j :: 0 <= i < px.Length0 && 0 <= j < px.Length1 ==>
                    px[i, j] == if i < row then f(old(px[i, j])) else old(px[i, j])
      {
        var col := 0;
        while col < px.Length1
          invariant 0 <= col <= px.Length1
          invariant forall i, j :: 0 <= i < px.Length0 && 0 <= j < px.Length1 ==>
                      px[i, j] == if i < row || (i == row && j < col) then f(old(px[i, j])) else old(px[i, j])
        {
          px[row, col] := f(px[row, col]);
          col := col + 1;
        }
        row := row + 1;
      }
      CellwiseEqual(Cells(), MapCells(g0, f));
    }

    /** zeroBlue: every blue channel becomes 0; red and green are kept. */
    method ZeroBlue()
      requires Valid()
      modifies px
      ensures Valid()
      ensures forall i, j :: 0 <= i < px.Length0 && 0 <= j < px.Length1 ==>
                px[i, j] == old(px[i, j]).(b := 0)
      ensures Cells() == MapCells(old(Cells()), Colors.ZeroBlue)
    {
      MapPixels(Colors.ZeroBlue);
    }

    /** keepOnlyBlue: every red and green channel becomes 0; blue is kept. */
    method KeepOnlyBlue()
      requires Valid()
      modifies px
      ensures Valid()
      ensures forall i, j :: 0 <= i < px.Length0 && 0 <= j < px.Length1 ==>
                px[i, j] == RGB(0, 0, old(px[i, j]).b)
      ensures Cells() == MapCells(old(Cells()), Colors.KeepOnlyBlue)
    {
      MapPixels(Colors.KeepOnlyBlue);
    }

    /** negate: every channel `x` becomes `255 - x`. */
    method Negate()
      requires Valid()
      modifies px
      ensures Valid()
      ensures forall i, j :: 0 <= i < px.Length0 && 0 <= j < px.Length1 ==>
                px[i, j] == Colors.Negate(old(px[i, j]))
      ensures Cells() == MapCells(old(Cells()), Colors.Negate)
    {
      MapPixels(Colors.Negate);
    }

    /** grayscale: all three channels become the average of the old three. */
    method Grayscale()
      requires Valid()
      modifies px
      ensures Valid()
      ensures forall i, j :: 0 <= i < px.Length0 && 0 <= j < px.Length1 ==>
                px[i, j] == Gray(old(px[i, j]))
      ensures Cells() == MapCells(old(Cells()), Gray)
    {
      MapPixels(Gray);
    }

    /** mirrorVertical: each row's left half is copied onto its right half,
        column `col < width / 2` to column `width - 1 - col`. Only right-half
        columns are written and only left-half columns are read, so the
        copies do not interfere. The source reads `pixels[0]` first, so the
        picture must have a row. */
    method MirrorVertical()
      requires Valid()
      requires px.Length0 > 0
      modifies px
      ensures Valid()
      ensures forall i, k :: 0 <= i < px.Length0 && 0 <= k < px.Length1 / 2 ==>
                px[i, k] == old(px[i, k]) && px[i, px.Length1 - 1 - k] == old(px[i, k])
      ensures px.Length1 % 2 == 1 ==>
                forall i :: 0 <= i < px.Length0 ==> px[i, px.Length1 / 2] == old(px[i, px.Length1 / 2])
      ensures Cells() == MirroredColumns(old(Cells()))
    {
      ghost var g0 := Cells();
      var width := px.Length1;
      var row := 0;
      while row < px.Length0
        invariant 0 <= row <= px.Length0
        invariant forall i, j :: 0 <= i < px.Length0 && 0 <= j < width ==>
                    px[i, j] == if i < row && j >= width - width / 2 then old(px[i, width - 1 - j]) else old(px[i, j])
      {
        var col := 0;
        while col < width / 2
          invariant 0 <= col <= width / 2
          invariant forall i, j :: 0 <= i < px.Length0 && 0 <= j < width ==>
                      px[i, j] == if (i < row && j >= width - width / 2) || (i == row && j >= width - col)
                                  then old(px[i, width - 1 - j]) else old(px[i, j])
        {
          px[row, width - 1 - col] := px[row, col];
          col := col + 1;
        }
        row := row + 1;
      }
      CellwiseEqual(Cells(), MirroredColumns(g0));
    }

    /** mirrorTemple: in rows 27 up to 97, each column `col` from 13 up to
        the mirror point 276 is copied to column `2 * 276 - col` (columns
        277 to 539). The copies read only columns left of the mirror point
        and write only columns right of it. The source indexes those rows
        and columns without checking, so the picture must hold them. */
    method MirrorTemple()
      requires Valid()
      requires px.Length0 >= TempleBottom && px.Length1 > 2 * MirrorPoint - TempleLeft
      modifies px
      ensures Valid()
      ensures forall i, j :: 0 <= i < px.Length0 && 0 <= j < px.Length1 ==>
                px[i, j] == if InTempleImage(i, j) then old(px[i, 2 * MirrorPoint - j]) else old(px[i, j])
      ensures Cells() == TempleMirrored(old(Cells()))
    {
      ghost var g0 := Cells();
      var row := TempleTop;
      while row < TempleBottom
        invariant TempleTop <= row <= TempleBottom
        invariant forall i, j :: 0 <= i < px.Length0 && 0 <= j < px.Length1 ==>
                    px[i, j] == if InTempleImage(i, j) && i < row then old(px[i, 2 * MirrorPoint - j]) else old(px[i, j])
      {
        var col := TempleLeft;
        while col < MirrorPoint
          invariant TempleLeft <= col <= MirrorPoint
          invariant forall i, j :: 0 <= i < px.Length0 && 0 <= j < px.Length1 ==>
                      px[i, j] == if InTempleImage(i, j) && (i < row || (i == row && j > 2 * MirrorPoint - col))
                                  then old(px[i, 2 * MirrorPoint - j]) else old(px[i, j])
        {
          px[row, MirrorPoint - col + MirrorPoint] := px[row, col];
          col := col + 1;
        }
        row := row + 1;
      }
      CellwiseEqual(Cells(), TempleMirrored(g0));
    }

    /** mirrorVerticalRightToLeft as written: for each left-half column it
        sets the pixel at `width - 1 - col` to that same pixel's colour, so
        nothing changes. */
    method MirrorVerticalRightToLeft()
      requires Valid()
      requires px.Length0 > 0
      modifies px
      ensures Valid()
      ensures forall i, j :: 0 <= i < px.Length0 && 0 <= j < px.Length1 ==> px[i, j] == old(px[i, j])
      ensures Cells() == old(Cells())
    {
      ghost var g0 := Cells();
      var width := px.Length1;
      var row := 0;
      while row < px.Length0
        invariant 0 <= row <= px.Length0
        invariant forall i, j :: 0 <= i < px.Length0 && 0 <= j < width ==> px[i, j] == old(px[i, j])
      {
        var col := 0;
        while col < width / 2
          invariant 0 <= col <= width / 2
          invariant forall i, j :: 0 <= i < px.Length0 && 0 <= j < width ==> px[i, j] == old(px[i, j])
        {
          px[row, width - 1 - col] := px[row, width - 1 - col];
          col := col + 1;
        }
        row := row + 1;
      }
      CellwiseEqual(Cells(), g0);
    }

    /** mirrorHorizontalTopToBottom: the top half of the rows is copied onto
        the bottom half, row `r < height / 2` to row `height - 1 - r`. Only
        bottom-half rows are written and only top-half rows are read. */
    method MirrorHorizontalTopToBottom()
      requires Valid()
      requires px.Length0 > 0
      modifies px
      ensures Valid()
      ensures forall k, j :: 0 <= k < px.Length0 / 2 && 0 <= j < px.Length1 ==>
                px[k, j] == old(px[k, j]) && px[px.Length0 - 1 - k, j] == old(px[k, j])
      ensures px.Length0 % 2 == 1 ==>
                forall j :: 0 <= j < px.Length1 ==> px[px.Length0 / 2, j] == old(px[px.Length0 / 2, j])
      ensures Cells() == Mirrored(old(Cells()))
    {
      ghost var g0 := Cells();
      var width := px.Length1;
      var height := px.Length0;
      var row := 0;
      while row < height / 2
        invariant 0 <= row <= height / 2
        invariant forall i, j :: 0 <= i < height && 0 <= j < width ==>
                    px[i, j] == if i >= height - row then old(px[height - 1 - i, j]) else old(px[i, j])
      {
        var col := 0;
        while col < width
          invariant 0 <= col <= width
          invariant forall i, j :: 0 <= i < height && 0 <= j < width ==>
                      px[i, j] == if i >= height - row || (i == height - 1 - row && j < col)
                                  then old(px[height - 1 - i, j]) else old(px[i, j])
        {
          px[height - 1 - row, col] := px[row, col];
          col := col + 1;
        }
        row := row + 1;
      }
      CellwiseEqual(Cells(), Mirrored(g0));
    }

    /** mirrorHorizontalBottomToTop: its body is the same as that of
        mirrorHorizontalTopToBottom, so it copies the top half onto the
        bottom half too and gives exactly the same picture. */
    method MirrorHorizontalBottomToTop()
      requires Valid()
      requires px.Length0 > 0
      modifies px
      ensures Valid()
      ensures forall k, j :: 0 <= k < px.Length0 / 2 && 0 <= j < px.Length1 ==>
                px[k, j] == old(px[k, j]) && px[px.Length0 - 1 - k, j] == old(px[k, j])
      ensures px.Length0 % 2 == 1 ==>
                forall j :: 0 <= j < px.Length1 ==> px[px.Length0 / 2, j] == old(px[px.Length0 / 2, j])
      ensures Cells() == Mirrored(old(Cells()))
    {
      MirrorHorizontalTopToBottom();
    }

    /** The column loop of copy for one row: row `fromRow` of `fromPixels`
        goes to row `toRow` from column `startCol` on, stopping at the end
        of either row. */
    method CopyRowClipped(fromPixels: array2<Color>, fromRow: int, toRow: int, startCol: int)
      requires fromPixels != px
      requires 0 <= fromRow < fromPixels.Length0 && 0 <= toRow < px.Length0 && startCol >= 0
      modifies px
      ensures forall i, j :: 0 <= i < px.Length0 && 0 <= j < px.Length1 ==>
                px[i, j] == if i == toRow && startCol <= j < startCol + fromPixels.Length1
                            then fromPixels[fromRow, j - startCol] else old(px[i, j])
    {
      var fromCol, toCol := 0, startCol;
      while fromCol < fromPixels.Length1 && toCol < px.Length1
        invariant 0 <= fromCol <= fromPixels.Length1 && toCol == startCol + fromCol
        invariant fromCol > 0 ==> toCol <= px.Length1
        invariant forall i, j :: 0 <= i < px.Length0 && 0 <= j < px.Length1 ==>
                    px[i, j] == if i == toRow && startCol <= j < toCol
                                then fromPixels[fromRow, j - startCol] else old(px[i, j])
      {
        px[toRow, toCol] := fromPixels[fromRow, fromCol];
        fromCol, toCol := fromCol + 1, toCol + 1;
      }
    }

    /** copy: `fromPic` is copied with its top-left pixel at
        `(startRow, startCol)`; the copy stops silently at the bottom or
        right edge of either picture. `fromPic` is not changed. The source
        may index a negative row or column for negative start values, and
        copying a picture onto itself depends on the order of the loops, so
        both are excluded. */
    method Copy(fromPic: Picture, startRow: int, startCol: int)
      requires Valid() && fromPic.Valid()
      requires fromPic.px != px
      requires startRow >= 0 && startCol >= 0
      modifies px
      ensures Valid()
      ensures forall i, j :: 0 <= i < px.Length0 && 0 <= j < px.Length1 ==>
                px[i, j] == if startRow <= i < startRow + fromPic.px.Length0 && startCol <= j < startCol + fromPic.px.Length1
                            then fromPic.px[i - startRow, j - startCol] else old(px[i, j])
      ensures fromPic.Cells() == old(fromPic.Cells())
      ensures Cells() == Blit(old(Cells()), fromPic.Cells(), startRow, startCol)
    {
      ghost var g0 := Cells();
      var fromPixels := fromPic.px;
      var fromRow, toRow := 0, startRow;
      while fromRow < fromPixels.Length0 && toRow < px.Length0
        invariant 0 <= fromRow <= fromPixels.Length0 && toRow == startRow + fromRow
        invariant fromRow > 0 ==> toRow <= px.Length0
        invariant forall i, j :: 0 <= i < px.Length0 && 0 <= j < px.Length1 ==>
                    px[i, j] == if startRow <= i < toRow && startCol <= j < startCol + fromPixels.Length1
                                then fromPixels[i - startRow, j - startCol] else old(px[i, j])
      {
        CopyRowClipped(fromPixels, fromRow, toRow, startCol);
        fromRow, toRow := fromRow + 1, toRow + 1;
      }
      CopiedCells(g0, fromPic, startRow, startCol);
    }

    /** Pixels that agree cell by cell with a copy of `fromPic` onto `g0`
        are that copy. */
    lemma CopiedCells(g0: Grid, fromPic: Picture, startRow: int, startCol: int)
      requires SameShape(g0, Cells())
      requires forall i, j :: 0 <= i < px.Length0 && 0 <= j < px.Length1 ==>
                 px[i, j] == if startRow <= i < startRow + fromPic.px.Length0 && startCol <= j < startCol + fromPic.px.Length1
                             then fromPic.px[i - startRow, j - startCol] else g0[i][j]
      ensures Cells() == Blit(g0, fromPic.Cells(), startRow, startCol)
    {
      CellwiseEqual(Cells(), Blit(g0, fromPic.Cells(), startRow, startCol));
    }

    /** The column loop of cropAndCopy for one source row: source columns
        `startCol..endCol` (inclusive) of row `row` go to row `destRow`,
        from column `destCol` on. */
    method CopyRowSpan(sourcePixels: array2<Color>, row: int, startCol: int, endCol: int, destRow: int, destCol: int)
      requires sourcePixels != px
      requires startCol <= endCol ==>
                 0 <= row < sourcePixels.Length0 && 0 <= startCol && endCol < sourcePixels.Length1 &&
                 0 <= destRow < px.Length0 && 0 <= destCol && destCol + (endCol - startCol) < px.Length1
      modifies px
      ensures forall a, b :: 0 <= a < px.Length0 && 0 <= b < px.Length1 ==>
                px[a, b] == if a == destRow && destCol <= b <= destCol + (endCol - startCol)
                            then sourcePixels[row, b - destCol + startCol] else old(px[a, b])
    {
      var j := startCol;
      while j <= endCol
        invariant startCol <= j <= if startCol <= endCol then endCol + 1 else startCol
        invariant forall a, b :: 0 <= a < px.Length0 && 0 <= b < px.Length1 ==>
                    px[a, b] == if a == destRow && destCol <= b < destCol + (j - startCol)
                                then sourcePixels[row, b - destCol + startCol] else old(px[a, b])
        decreases endCol + 1 - j
      {
        px[destRow, j - startCol + destCol] := sourcePixels[row, j];
        j := j + 1;
      }
    }

    /** cropAndCopy as written: source rows `startSourceRow..endSourceRow`
        and source columns `startSourceCol..endSourceRow` (both inclusive;
        the column loop is bounded by the end ROW, and `endSourceCol` is not
        used) are copied to the destination offset. The source indexes both
        pictures without checking, so a non-empty region must lie inside
        both; the source picture must not share this picture's pixels. */
    method CropAndCopy(sourcePicture: Picture, startSourceRow: int, endSourceRow: int,
                       startSourceCol: int, endSourceCol: int, startDestRow: int, startDestCol: int)
      requires Valid() && sourcePicture.Valid()
      requires sourcePicture.px != px
      requires startSourceRow <= endSourceRow && startSourceCol <= endSourceRow ==>
                 0 <= startSourceRow && endSourceRow < sourcePicture.px.Length0 &&
                 0 <= startSourceCol && endSourceRow < sourcePicture.px.Length1 &&
                 0 <= startDestRow && startDestRow + (endSourceRow - startSourceRow) < px.Length0 &&
                 0 <= startDestCol && startDestCol + (endSourceRow - startSourceCol) < px.Length1
      modifies px
      ensures Valid()
      ensures forall i, j :: 0 <= i < px.Length0 && 0 <= j < px.Length1 ==>
                px[i, j] == if startDestRow <= i <= startDestRow + (endSourceRow - startSourceRow) &&
                               startDestCol <= j <= startDestCol + (endSourceRow - startSourceCol)
                            then sourcePicture.px[i - startDestRow + startSourceRow, j - startDestCol + startSourceCol]
                            else old(px[i, j])
      ensures sourcePicture.Cells() == old(sourcePicture.Cells())
      ensures Cells() == CropCopied(old(Cells()), sourcePicture.Cells(), startSourceRow, endSourceRow,
                                    startSourceCol, startDestRow, startDestCol)
    {
      ghost var g0 := Cells();
      var sourcePixels := sourcePicture.px;
      var i := startSourceRow;
      while i <= endSourceRow
        invariant startSourceRow <= i <= if startSourceRow <= endSourceRow then endSourceRow + 1 else startSourceRow
        invariant forall a, b :: 0 <= a < px.Length0 && 0 <= b < px.Length1 ==>
                    px[a, b] == if startDestRow <= a < startDestRow + (i - startSourceRow) &&
                                   startDestCol <= b <= startDestCol + (endSourceRow - startSourceCol)
                                then sourcePixels[a - startDestRow + startSourceRow, b - startDestCol + startSourceCol]
                                else old(px[a, b])
        decreases endSourceRow + 1 - i
      {
        // the column loop runs up to endSourceRow, not endSourceCol
        CopyRowSpan(sourcePixels, i, startSourceCol, endSourceRow, i - startSourceRow + startDestRow, startDestCol);
        i := i + 1;
      }
      CroppedCells(g0, sourcePicture, startSourceRow, endSourceRow, startSourceCol, startDestRow, startDestCol);
    }

    /** Pixels that agree cell by cell with a cropped copy of
        `sourcePicture` onto `g0` are that copy. */
    lemma CroppedCells(g0: Grid, sourcePicture: Picture, startSourceRow: int, endSourceRow: int,
                       startSourceCol: int, startDestRow: int, startDestCol: int)
      requires SameShape(g0, Cells())
      requires CropInSource(sourcePicture.Cells(), startSourceRow, endSourceRow, startSourceCol)
      requires forall i, j :: 0 <= i < px.Length0 && 0 <= j < px.Length1 ==>
                 px[i, j] == if startDestRow <= i <= startDestRow + (endSourceRow - startSourceRow) &&
                                startDestCol <= j <= startDestCol + (endSourceRow - startSourceCol)
                             then sourcePicture.px[i - startDestRow + startSourceRow, j - startDestCol + startSourceCol]
                             else g0[i][j]
      ensures Cells() == CropCopied(g0, sourcePicture.Cells(), startSourceRow, endSourceRow,
                                    startSourceCol, startDestRow, startDestCol)
    {
      CellwiseEqual(Cells(), CropCopied(g0, sourcePicture.Cells(), startSourceRow, endSourceRow,
                                        startSourceCol, startDestRow, startDestCol));
    }

    /** edgeDetection: every pixel with a right neighbour becomes black when
        the distance between its colour and its neighbour's exceeds
        `edgeDist`, and white otherwise; the last column is left alone.
        Column `col` is written only after column `col + 1` has been read,
        and column `col + 1` is still unwritten then, so every comparison
        sees original colours. */
    method EdgeDetection(edgeDist: int)
      requires Valid()
      modifies px
      ensures Valid()
      ensures forall i, j :: 0 <= i < px.Length0 && 0 <= j < px.Length1 ==>
                px[i, j] == if j + 1 < px.Length1 then EdgeMark(old(px[i, j]), old(px[i, j + 1]), edgeDist) else old(px[i, j])
      ensures Cells() == EdgeDetected(old(Cells()), edgeDist)
    {
      ghost var g0 := Cells();
      var row := 0;
      while row < px.Length0
        invariant 0 <= row <= px.Length0
        invariant forall i, j :: 0 <= i < px.Length0 && 0 <= j < px.Length1 ==>
                    px[i, j] == if i < row && j + 1 < px.Length1
                                then EdgeMark(old(px[i, j]), old(px[i, j + 1]), edgeDist) else old(px[i, j])
      {
        var col := 0;
        while col < px.Length1 - 1
          invariant 0 <= col && (col == 0 || col < px.Length1)
          invariant forall i, j :: 0 <= i < px.Length0 && 0 <= j < px.Length1 ==>
                      px[i, j] == if (i < row && j + 1 < px.Length1) || (i == row && j < col)
                                  then EdgeMark(old(px[i, j]), old(px[i, j + 1]), edgeDist) else old(px[i, j])
        {
          var rightColor := px[row, col + 1];
          px[row, col] := EdgeMark(px[row, col], rightColor, edgeDist);
          col := col + 1;
        }
        row := row + 1;
      }
      CellwiseEqual(Cells(), EdgeDetected(g0, edgeDist));
    }
  }
}
