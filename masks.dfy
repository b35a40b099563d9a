/** HSV images and binary masks as the OpenCV calls of the pipeline see them:
    rectangular grids indexed [row][column], row 0 at the top.
    This module models `cv2.inRange`, `cv2.bitwise_and` on 0/255 masks and
    the pixel count `np.sum(mask > 0)`. */
module GusMasks {

  /** One pixel of an 8-bit HSV image (hue, saturation, value), and also a
      per-channel bound handed to `InRange`. */
  datatype Hsv = Hsv(h: int, s: int, v: int)

  type Image = seq<seq<Hsv>>

  /** A binary mask: `true` where OpenCV stores 255, `false` where it stores 0. */
  type Mask = seq<seq<bool>>

  /** `g` has `height` rows of `width` entries each. */
  predicate IsGrid<T>(g: seq<seq<T>>, height: nat, width: nat)
  {
    |g| == height && forall i | 0 <= i < height :: |g[i]| == width
  }

  /** Number of columns (0 for a grid without rows). */
  function Width<T>(g: seq<seq<T>>): nat
  {
    if |g| == 0 then 0 else |g[0]|
  }

  /** Every row has the same length, as in a NumPy array. */
  predicate Rect<T>(g: seq<seq<T>>)
  {
    IsGrid(g, |g|, Width(g))
  }

  /** The channel ranges of OpenCV's 8-bit BGR-to-HSV conversion. */
  predicate ValidPixel(p: Hsv)
  {
    0 <= p.h <= 179 && 0 <= p.s <= 255 && 0 <= p.v <= 255
  }

  predicate ValidImage(img: Image)
  {
    Rect(img) && forall i, j | 0 <= i < |img| && 0 <= j < |img[i]| :: ValidPixel(img[i][j])
  }

  /** The closed per-channel box test that `cv2.inRange` applies to a pixel. */
  predicate InBox(p: Hsv, lower: Hsv, upper: Hsv)
  {
    && lower.h <= p.h <= upper.h
    && lower.s <= p.s <= upper.s
    && lower.v <= p.v <= upper.v
  }

  /** `cv2.inRange(img, lower, upper)`: a mask of the image's shape that is set
      exactly where the pixel lies in the closed box. */
  function InRange(img: Image, lower: Hsv, upper: Hsv): (m: Mask)
    requires Rect(img)
    ensures IsGrid(m, |img|, Width(img))
    ensures forall i, j | 0 <= i < |img| && 0 <= j < Width(img) :: m[i][j] == InBox(img[i][j], lower, upper)
  {
    seq(|img|, i requires 0 <= i < |img| =>
      seq(Width(img), j requires 0 <= j < Width(img) => InBox(img[i][j], lower, upper)))
  }

  /** `cv2.bitwise_and` of two 0/255 masks of the same shape. */
  function BitwiseAnd(a: Mask, b: Mask): (r: Mask)
    requires Rect(a) && IsGrid(b, |a|, Width(a))
    ensures IsGrid(r, |a|, Width(a))
    ensures forall i, j | 0 <= i < |a| && 0 <= j < Width(a) :: r[i][j] == (a[i][j] && b[i][j])
  {
    seq(|a|, i requires 0 <= i < |a| =>
      seq(Width(a), j requires 0 <= j < Width(a) => a[i][j] && b[i][j]))
  }

  /** Same number of rows, and rows of equal length. */
  predicate SameShape(a: Mask, b: Mask)
  {
    |a| == |b| && forall i | 0 <= i < |a| :: |a[i]| == |b[i]|
  }

  /** Mask inclusion: every pixel set in `a` is set in `b`. */
  predicate Within(a: Mask, b: Mask)
  {
    SameShape(a, b) && forall i, j | 0 <= i < |a| && 0 <= j < |a[i]| :: a[i][j] ==> b[i][j]
  }

  /** The result of the AND lies in both operands. */
  lemma BitwiseAndWithin(a: Mask, b: Mask)
    requires Rect(a) && IsGrid(b, |a|, Width(a))
    ensures Within(BitwiseAnd(a, b), a) && Within(BitwiseAnd(a, b), b)
  {
  }

  /** The AND contains every mask that lies in both operands: with
      `BitwiseAndWithin`, it is their greatest lower bound under inclusion. */
  lemma BitwiseAndGreatest(a: Mask, b: Mask, c: Mask)
    requires Rect(a) && IsGrid(b, |a|, Width(a))
    requires Within(c, a) && Within(c, b)
    ensures Within(c, BitwiseAnd(a, b))
  {
  }

  /** Masks included in each other are equal. */
  lemma WithinAntisymmetric(a: Mask, b: Mask)
    requires Within(a, b) && Within(b, a)
    ensures a == b
  {
    forall i | 0 <= i < |a|
      ensures a[i] == b[i]
    {
      assert forall j | 0 <= j < |a[i]| :: a[i][j] == b[i][j];
    }
  }

  lemma WithinTransitive(a: Mask, b: Mask, c: Mask)
    requires Within(a, b) && Within(b, c)
    ensures Within(a, c)
  {
  }

  /** Number of set entries of one row. */
  function RowCount(row: seq<bool>): (n: nat)
    ensures n <= |row|
  {
    if row == [] then 0 else (if row[0] then 1 else 0) + RowCount(row[1..])
  }

  /** `np.sum(mask > 0)`: the number of set pixels. */
  function Count(m: Mask): (c: nat)
    ensures Rect(m) ==> c <= |m| * Width(m)
  {
    if m == [] then 0
    else
      assert Rect(m) ==> Rect(m[1..]) && (|m| > 1 ==> Width(m[1..]) == Width(m));
      assert (|m| - 1) * Width(m) + Width(m) == |m| * Width(m);
      RowCount(m[0]) + Count(m[1..])
  }

  lemma {:induction false} RowCountMono(a: seq<bool>, b: seq<bool>)
    requires |a| == |b| && forall k | 0 <= k < |a| :: a[k] ==> b[k]
    ensures RowCount(a) <= RowCount(b)
    ensures (exists k | 0 <= k < |a| :: b[k] && !a[k]) ==> RowCount(a) < RowCount(b)
  {
    if a != [] {
      RowCountMono(a[1..], b[1..]);
      if exists k | 0 <= k < |a| :: b[k] && !a[k] {
        var k :| 0 <= k < |a| && b[k] && !a[k];
        if k > 0 {
          assert b[1..][k - 1] && !a[1..][k - 1];
        }
      }
    }
  }

  /** Counting is monotone under inclusion, and strictly so when `b` has a
      pixel that `a` lacks. */
  lemma {:induction false} CountMono(a: Mask, b: Mask)
    requires Within(a, b)
    ensures Count(a) <= Count(b)
    ensures (exists i, j | 0 <= i < |a| && 0 <= j < |a[i]| :: b[i][j] && !a[i][j]) ==> Count(a) < Count(b)
  {
    if a != [] {
      RowCountMono(a[0], b[0]);
      assert Within(a[1..], b[1..]) by {
        forall i, j | 0 <= i < |a[1..]| && 0 <= j < |a[1..][i]| && a[1..][i][j]
          ensures b[1..][i][j]
        {
          assert a[i + 1][j];
        }
      }
      CountMono(a[1..], b[1..]);
      if exists i, j | 0 <= i < |a| && 0 <= j < |a[i]| :: b[i][j] && !a[i][j] {
        var i, j :| 0 <= i < |a| && 0 <= j < |a[i]| && b[i][j] && !a[i][j];
        if i == 0 {
          assert b[0][j] && !a[0][j];
        } else {
          assert b[1..][i - 1][j] && !a[1..][i - 1][j];
        }
      }
    }
  }

  lemma {:induction false} RowCountZero(row: seq<bool>)
    ensures RowCount(row) == 0 <==> forall k | 0 <= k < |row| :: !row[k]
  {
    if row != [] {
      RowCountZero(row[1..]);
      assert forall k | 1 <= k < |row| :: row[k] == row[1..][k - 1];
    }
  }

  /** A mask counts zero pixels exactly when no pixel is set. */
  lemma {:induction false} CountZero(m: Mask)
    ensures Count(m) == 0 <==> forall i, j | 0 <= i < |m| && 0 <= j < |m[i]| :: !m[i][j]
  {
    if m != [] {
      RowCountZero(m[0]);
      CountZero(m[1..]);
      assert forall i, j | 1 <= i < |m| && 0 <= j < |m[i]| :: m[i][j] == m[1..][i - 1][j];
    }
  }

  lemma {:induction false} RowCountFull(row: seq<bool>)
    requires forall k | 0 <= k < |row| :: row[k]
    ensures RowCount(row) == |row|
  {
    if row != [] {
      RowCountFull(row[1..]);
    }
  }

  /** A grid with every pixel set counts `height * width` pixels. */
  lemma {:induction false} CountFull(m: Mask, height: nat, width: nat)
    requires IsGrid(m, height, width)
    requires forall i, j | 0 <= i < height && 0 <= j < width :: m[i][j]
    ensures Count(m) == height * width
  {
    if m != [] {
      RowCountFull(m[0]);
      assert IsGrid(m[1..], height - 1, width);
      assert forall i, j | 0 <= i < height - 1 && 0 <= j < width :: m[1..][i][j] by {
        forall i, j | 0 <= i < height - 1 && 0 <= j < width
          ensures m[1..][i][j]
        {
          assert m[i + 1][j];
        }
      }
      CountFull(m[1..], height - 1, width);
      assert (height - 1) * width + width == height * width;
    }
  }
}
