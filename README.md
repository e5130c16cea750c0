# PictureLab `Picture` transformations in Dafny

This project models the pixel-grid operations of the PictureLab `Picture`
class (`PictureLab/classes/Picture.java`). A picture is a height-by-width grid
of RGB colours. Every operation walks the grid with nested loops and changes
pixels in place. The operations are:
- the channel edits `zeroBlue`, `keepOnlyBlue`, `negate` and `grayscale`;
- the mirrors `mirrorVertical`, `mirrorVerticalRightToLeft`, `mirrorTemple`,
  `mirrorHorizontalTopToBottom` and `mirrorHorizontalBottomToTop`;
- the blits `copy` and `cropAndCopy`;
- `edgeDetection`.

Layout:

- `colors.dfy`, module `Colors`: the `Color` datatype, the 0..255 channel
  range, black and white, and the per-pixel updates. This is what the
  setter calls in each loop do to one pixel. It also holds the edge test.
- `grids.dfy`, module `Grids`: a picture's pixels as a value
  (`Grid = seq<seq<Color>>`), each whole-picture operation as a function on
  that value, and the lemmas about them (involution, idempotence, what a
  blit leaves alone).
- `picture.dfy`, module `Pictures`: `class Picture` with its pixel grid
  `px: array2<Color>`. Each operation is a `modifies px` method with the
  source's loops. Each method states the new colour of every pixel in terms
  of the old colours. It also states that the new grid `Cells()` is the
  `Grids` function of the old one, so the `Grids` lemmas apply to the
  methods.

Non-interference is proved through the loop invariants:
- A mirror reads only rows or columns that it never writes.
- `edgeDetection` reads the right neighbour before it writes that cell.
- The blits read a picture whose pixel array is not `this` picture's.

Where the code and its names or comments say different things, the model
follows the code:
- `mirrorVertical`, `mirrorHorizontalTopToBottom` and `mirrorTemple` are
  idempotent, not involutions. Mirroring twice does not restore the
  original picture (`Grids.MirroredColumnsNotInvolution`,
  `Grids.MirroredNotInvolution`, `Grids.TempleMirroredNotInvolution`).
- `mirrorHorizontalBottomToTop` has the same body as
  `mirrorHorizontalTopToBottom`. It also copies the top half onto the bottom
  half. In the model it calls the other method and has the same contract.
- `mirrorVerticalRightToLeft` sets each right-half pixel to its own colour,
  so it changes nothing.
- In `cropAndCopy` the column loop is bounded by `endSourceRow`, not by
  `endSourceCol`, so `endSourceCol` is never used. The model keeps this
  bound. `Grids.CropWholeSquareIsCopy` shows that cropping a whole source
  agrees with `copy` when the source is square. `Grids.CropWideRowIsNotCopy`
  shows a wider source where only the first column is copied.

The edge test `leftPixel.colorDistance(rightColor) > edgeDist` compares a
Euclidean distance with an integer threshold. `Colors.IsEdge` states it
without the square root:
- a negative threshold always holds, because the distance is never negative;
- for a threshold `d >= 0`, the distance exceeds `d` exactly when the
  squared distance exceeds `d * d`.

`Colors.IsEdgeIsDistanceAbove` proves over the reals that this is the same
test as `sqrt(SquaredDistance) > edgeDist`.

## Model

| member | source | states |
|---|---|---|
| `Pictures.Picture.Wrap` | PictureLab/classes/Picture.java:66-69 | the new picture uses exactly the given pixel grid; given pixels with channels in 0..255, the picture satisfies `Valid()` |
| `Pictures.Picture.MapPixels` | PictureLab/classes/Picture.java:88-176 | the shared for-each loop of the channel edits: every pixel becomes `f` of its old colour; channels stay in 0..255 when `f` keeps them there; the new grid is `MapCells(old grid, f)` |
| `Pictures.Picture.ZeroBlue` | PictureLab/classes/Picture.java:88-98 | every pixel's blue becomes 0 and its red and green are kept; channels stay in 0..255 |
| `Pictures.Picture.KeepOnlyBlue` | PictureLab/classes/Picture.java:104-115 | every pixel's red and green become 0 and its blue is kept |
| `Pictures.Picture.Negate` | PictureLab/classes/Picture.java:121-133 | every pixel becomes the negation of its old colour; channels stay in 0..255 |
| `Pictures.Picture.Grayscale` | PictureLab/classes/Picture.java:158-176 | every pixel becomes the gray of its old colour's channel average; channels stay in 0..255 |
| `Pictures.Picture.MirrorVertical` | PictureLab/classes/Picture.java:181-196 | columns `k < width/2` are unchanged and column `width-1-k` gets old column `k`; for odd width the middle column is unchanged; the new grid is `MirroredColumns(old grid)` |
| `Pictures.Picture.MirrorTemple` | PictureLab/classes/Picture.java:199-220 | in rows 27..96 column `552-col` gets old column `col` for `13 <= col < 276`; every other pixel is unchanged; needs at least 97 rows and 540 columns |
| `Pictures.Picture.CopyRowClipped` | PictureLab/classes/Picture.java:241-249 | one row of `copy`: the source row lands at `startCol` in the target row, clipped at the end of either row; other pixels are unchanged |
| `Pictures.Picture.Copy` | PictureLab/classes/Picture.java:229-251 | pixel `(i, j)` with `startRow <= i < startRow + fromHeight` and `startCol <= j < startCol + fromWidth` gets `fromPic[i-startRow][j-startCol]`, clipped at this picture's edges; every other pixel and `fromPic` are unchanged; the new grid is `Blit(old grid, fromPic, startRow, startCol)` |
| `Pictures.Picture.CopyRowSpan` | PictureLab/classes/Picture.java:147-151 | one row of `cropAndCopy`: source columns `startCol..endCol` of the source row land from `destCol` on in the destination row; other pixels are unchanged |
| `Pictures.Picture.CropAndCopy` | PictureLab/classes/Picture.java:140-153 | source rows `startSourceRow..endSourceRow` and columns `startSourceCol..endSourceRow` (inclusive) land at the destination offset; every other pixel and the source are unchanged; a non-empty region must lie inside both pictures |
| `Pictures.Picture.EdgeDetection` | PictureLab/classes/Picture.java:316-337 | every pixel with a right neighbour becomes `EdgeMark` of its original colour and its neighbour's original colour; the last column is unchanged |
| `Pictures.Picture.MirrorVerticalRightToLeft` | PictureLab/classes/Picture.java:342-357 | no pixel changes |
| `Pictures.Picture.MirrorHorizontalTopToBottom` | PictureLab/classes/Picture.java:363-375 | rows `k < height/2` are unchanged and row `height-1-k` gets old row `k`; for odd height the middle row is unchanged; the new grid is `Mirrored(old grid)` |
| `Pictures.Picture.MirrorHorizontalBottomToTop` | PictureLab/classes/Picture.java:380-392 | exactly the same result as `MirrorHorizontalTopToBottom` |
| `Colors.ZeroBlue` | PictureLab/classes/Picture.java:95 | the blue channel becomes 0, red and green are kept, and a valid colour stays valid |
| `Colors.KeepOnlyBlue` | PictureLab/classes/Picture.java:111-112 | red and green become 0, blue is kept, and a valid colour stays valid |
| `Colors.IsEdgeIsDistanceAbove` | PictureLab/classes/Picture.java:330-331 | for every non-negative real `dist` whose square is the squared RGB distance, the integer edge test holds exactly when `dist > edgeDist`, so it equals `sqrt(SquaredDistance) > edgeDist` |
| `Colors.Negate` | PictureLab/classes/Picture.java:128-130 | a colour with channels in 0..255 negates to one with channels in 0..255 |
| `Colors.Gray` | PictureLab/classes/Picture.java:165-172 | the three channels become equal; the value lies between the smallest and the largest old channel, so the colour stays valid |
| `Colors.EdgeMark` | PictureLab/classes/Picture.java:330-334 | the result is black or white, and black exactly when the edge test holds |
| `Grids.MapCells` | PictureLab/classes/Picture.java:88-176 | the for-each loop of the channel edits: same shape as the input, and every cell is `f` of the input's cell at the same place |
| `Grids.ZeroBlueThenKeepOnlyBlueIsBlack` | PictureLab/classes/Picture.java:88-115 | `zeroBlue` followed by `keepOnlyBlue` gives an all-black picture of the same size |
| `Grids.NegateKeepsValid` | PictureLab/classes/Picture.java:121-133 | negating a picture keeps all channels in 0..255 |
| `Grids.NegateInvolution` | PictureLab/classes/Picture.java:121-133 | negating twice restores the original picture |
| `Grids.GrayscaleKeepsValid` | PictureLab/classes/Picture.java:158-176 | grayscale keeps all channels in 0..255 and makes every pixel gray |
| `Grids.GrayscaleIdempotent` | PictureLab/classes/Picture.java:158-176 | grayscale twice equals grayscale once |
| `Grids.Mirrored` | PictureLab/classes/Picture.java:187-195 | position `k < n/2` is kept and copied to `n-1-k`; for odd `n` the middle is kept |
| `Grids.MirroredIdempotent` | PictureLab/classes/Picture.java:363-392 | mirroring a mirrored sequence changes nothing; on the rows of a grid this is `mirrorHorizontalTopToBottom` (and `mirrorHorizontalBottomToTop`) twice equal to once |
| `Grids.MirroredNotInvolution` | PictureLab/classes/Picture.java:363-392 | on two different elements, mirroring twice does not restore the original; on rows this refutes the horizontal mirrors being involutions |
| `Grids.MirroredColumns` | PictureLab/classes/Picture.java:181-196 | same shape; in every row column `k < width/2` is kept and copied to `width-1-k`, and for odd width the middle column is kept |
| `Grids.MirroredColumnsIdempotent` | PictureLab/classes/Picture.java:181-196 | `mirrorVertical` twice equals `mirrorVertical` once |
| `Grids.MirroredColumnsNotInvolution` | PictureLab/classes/Picture.java:181-196 | on a 1x2 picture with two different pixels, `mirrorVertical` twice does not restore the original |
| `Grids.TempleMirrored` | PictureLab/classes/Picture.java:199-220 | every pixel outside the written region (rows 27..96, columns 277..539) is unchanged |
| `Grids.TempleMirroredCopies` | PictureLab/classes/Picture.java:208-218 | inside the temple rows, a pixel at column `13 <= col < 276` stays where it is and also appears at column `552-col` |
| `Grids.TempleMirroredIdempotent` | PictureLab/classes/Picture.java:199-220 | `mirrorTemple` twice equals `mirrorTemple` once |
| `Grids.TempleMirroredNotInvolution` | PictureLab/classes/Picture.java:199-220 | on a 97x540 picture whose pixel at row 27, column 13 differs from the one at column 539, `mirrorTemple` twice does not restore the original |
| `Grids.Blit` | PictureLab/classes/Picture.java:229-251 | same shape as `dst`; source cell `(a, b)` lands at `(row+a, col+b)` whenever that cell exists in `dst`; every cell outside the placed source keeps its colour |
| `Grids.BlitOffPicture` | PictureLab/classes/Picture.java:236-244 | a copy that starts at or beyond the bottom or right edge changes nothing |
| `Grids.BlitWholePicture` | PictureLab/classes/Picture.java:229-251 | copying a picture of the same size at the origin gives exactly that picture |
| `Grids.CropCopied` | PictureLab/classes/Picture.java:140-153 | same shape as `dst`; source cell `(a, b)` with `startRow <= a <= endRow` and `startCol <= b <= endRow` lands at `(a-startRow+destRow, b-startCol+destCol)` whenever that cell exists; every cell outside the target region keeps its colour |
| `Grids.CropWholeSquareIsCopy` | PictureLab/classes/Picture.java:140-153 | on a square source, `cropAndCopy` of the whole source equals `copy` at the same offset |
| `Grids.CropWideRowIsNotCopy` | PictureLab/classes/Picture.java:144-151 | cropping row 0 of a 1x3 source from column 0 copies only column 0, so the result differs from `copy` of the same source |
| `Grids.EdgeDetected` | PictureLab/classes/Picture.java:316-337 | every pixel with a right neighbour is black or white, and black exactly when the edge test on the original pair holds; the last pixel of each row is unchanged |
| `Grids.EdgeDetectedKeepsValid` | PictureLab/classes/Picture.java:316-337 | edge detection keeps all channels in 0..255 |

## Left out

- The constructors other than the one over an existing image, `toString` and `main` (PictureLab/classes/Picture.java:22-60, 78-85, 397-403). They hand file names, sizes and copying to `SimplePicture`, which is not part of this model, or they only print and display.
- `createCollage` (PictureLab/classes/Picture.java:254-310). It loads and writes image files and opens a viewer. Its picture work is calls to the modelled operations.
- `Pixel.colorDistance` is not part of this model. Its floating-point square root is replaced by the exact integer comparison described above.
- `java.awt.Color` objects, the alpha channel, the `BufferedImage` store and any clamping in the pixel setters are not modelled. The invariant `Valid()` (every channel in 0..255) takes the place of clamping.
- An out-of-range index throws in the source after the pixels before it were already written. The model excludes such calls by preconditions and does not model the partly changed picture.
- Pictures.Picture.MirrorVertical: requires at least one row, because the source reads `pixels[0]` before it loops. The same holds for MirrorVerticalRightToLeft, MirrorHorizontalTopToBottom and MirrorHorizontalBottomToTop.
- Pictures.Picture.MirrorTemple: requires at least 97 rows and 540 columns, which are the indexes the source uses without checking.
- Pictures.Picture.Copy: requires `startRow, startCol >= 0`, because negative starts may index outside the target. It also requires that `fromPic` does not share this picture's pixels, because an overlapping self-copy depends on the loop order.
- Pictures.Picture.CropAndCopy: requires a non-empty region to lie inside both pictures. It also requires that the source does not share this picture's pixels, for the same reason as `Copy`.
- Colors.Gray uses Dafny's division, which agrees with Java's truncating division only for a non-negative channel sum. Such a sum is all the 0..255 invariant allows.
