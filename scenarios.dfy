/** The cases of tests/unit/test_image_process.py, stated about the model. */
module Scenarios {
  import opened MedianMerger
  import opened WindowProcessor

  /** MergeOfTwo applied at every pixel of two images. */
  function PixelwiseOfTwo(a: Image, b: Image, rows: nat, cols: nat): Image
    requires IsImage(a, rows, cols) && IsImage(b, rows, cols)
  {
    seq(rows, r requires 0 <= r < rows =>
      seq(cols, c requires 0 <= c < cols => MergeOfTwo(a[r][c], b[r][c])))
  }

  /** MiddleOfThree applied at every pixel of three images. */
  function PixelwiseOfThree(a: Image, b: Image, c: Image, rows: nat, cols: nat): Image
    requires IsImage(a, rows, cols) && IsImage(b, rows, cols) && IsImage(c, rows, cols)
  {
    seq(rows, r requires 0 <= r < rows =>
      seq(cols, k requires 0 <= k < cols => MiddleOfThree(a[r][k], b[r][k], c[r][k])))
  }

  lemma Display2<T>(x: seq<T>) requires |x| == 2 ensures x == [x[0], x[1]] {}
  lemma Display3<T>(x: seq<T>) requires |x| == 3 ensures x == [x[0], x[1], x[2]] {}
  lemma Display5<T>(x: seq<T>) requires |x| == 5 ensures x == [x[0], x[1], x[2], x[3], x[4]] {}

  lemma MergeTwoAt(a: Image, b: Image, rows: nat, cols: nat, r: nat, c: nat)
    requires IsImage(a, rows, cols) && IsImage(b, rows, cols) && r < rows && c < cols
    ensures IsStack([a, b], rows, cols)
    ensures Merge([a, b], rows, cols)[r][c] == MergeOfTwo(a[r][c], b[r][c])
  {
    var col := Column([a, b], rows, cols, r, c);
    assert col == [a[r][c], b[r][c]];
    MergeTwo(a[r][c], b[r][c]);
  }

  /** Merging two versions applies MergeOfTwo at every pixel. */
  lemma MergeTwoVersions(a: Image, b: Image, rows: nat, cols: nat)
    requires IsImage(a, rows, cols) && IsImage(b, rows, cols)
    ensures IsStack([a, b], rows, cols)
    ensures Merge([a, b], rows, cols) == PixelwiseOfTwo(a, b, rows, cols)
  {
    var out, expected := Merge([a, b], rows, cols), PixelwiseOfTwo(a, b, rows, cols);
    forall r | 0 <= r < rows ensures out[r] == expected[r] {
      forall c | 0 <= c < cols ensures out[r][c] == expected[r][c] {
        MergeTwoAt(a, b, rows, cols, r, c);
      }
    }
  }

  lemma MergeThreeAt(a: Image, b: Image, c: Image, rows: nat, cols: nat, r: nat, k: nat)
    requires IsImage(a, rows, cols) && IsImage(b, rows, cols) && IsImage(c, rows, cols)
    requires r < rows && k < cols && a[r][k] != 0 && b[r][k] != 0 && c[r][k] != 0
    ensures IsStack([a, b, c], rows, cols)
    ensures Merge([a, b, c], rows, cols)[r][k] == MiddleOfThree(a[r][k], b[r][k], c[r][k])
  {
    var col := Column([a, b, c], rows, cols, r, k);
    assert col == [a[r][k], b[r][k], c[r][k]];
    MergeThree(a[r][k], b[r][k], c[r][k]);
  }

  /** Merging three versions that hold no 0 takes the middle value at every pixel. */
  lemma MergeThreeVersions(a: Image, b: Image, c: Image, rows: nat, cols: nat)
    requires IsImage(a, rows, cols) && IsImage(b, rows, cols) && IsImage(c, rows, cols)
    requires forall r, k :: 0 <= r < rows && 0 <= k < cols ==> a[r][k] != 0 && b[r][k] != 0 && c[r][k] != 0
    ensures IsStack([a, b, c], rows, cols)
    ensures Merge([a, b, c], rows, cols) == PixelwiseOfThree(a, b, c, rows, cols)
  {
    var out, expected := Merge([a, b, c], rows, cols), PixelwiseOfThree(a, b, c, rows, cols);
    forall r | 0 <= r < rows ensures out[r] == expected[r] {
      forall k | 0 <= k < cols ensures out[r][k] == expected[r][k] {
        MergeThreeAt(a, b, c, rows, cols, r, k);
      }
    }
  }

  /** test_compute_median_even: {1,3} -> 2, {1,2} -> 1, {1,5} -> 3, {1,6} -> 3, {1,7} -> 4. */
  lemma MedianEven(a: Image, b: Image)
    requires a == [[1, 1, 1], [1, 1, 1]] && b == [[3, 2, 3], [5, 6, 7]]
    ensures Merge([a, b], 2, 3) == [[2, 1, 2], [3, 3, 4]]
  {
    MergeTwoVersions(a, b, 2, 3);
    var p := PixelwiseOfTwo(a, b, 2, 3);
    Display2(p); Display3(p[0]); Display3(p[1]);
  }

  /** test_compute_median_odd: the middle of three nonzero values, e.g. {1,7,5} -> 5. */
  lemma MedianOdd(a: Image, b: Image, c: Image)
    requires a == [[1, 1, 1], [1, 1, 1]] && b == [[3, 3, 3], [7, 5, 3]] && c == [[5, 5, 5], [5, 10, 1]]
    ensures Merge([a, b, c], 2, 3) == [[3, 3, 3], [5, 5, 1]]
  {
    forall r, k | 0 <= r < 2 && 0 <= k < 3 ensures a[r][k] != 0 && b[r][k] != 0 && c[r][k] != 0 {
      Display2(a); Display3(a[r]); Display2(b); Display3(b[r]); Display2(c); Display3(c[r]);
    }
    MergeThreeVersions(a, b, c, 2, 3);
    var p := PixelwiseOfThree(a, b, c, 2, 3);
    Display2(p); Display3(p[0]); Display3(p[1]);
  }

  /** test_all_zero: a pixel that is 0 in every version merges to 0. */
  lemma AllZero(a: Image)
    requires a == [[0, 0, 0], [0, 0, 0]]
    ensures Merge([a, a], 2, 3) == a
  {
    MergeTwoVersions(a, a, 2, 3);
    var p := PixelwiseOfTwo(a, a, 2, 3);
    Display2(p); Display3(p[0]); Display3(p[1]);
  }

  /** test_different_types, once numpy has cast the float literals 2.5 and
      1.3 of the test to uint16 (2 and 1): {0,3} -> 3, {2,3} -> 2, {1,0} -> 1. */
  lemma DifferentTypes(a: Image, b: Image)
    requires a == [[0, 2, 0], [1, 1, 1]] && b == [[3, 3, 3], [0, 0, 1]]
    ensures Merge([a, b], 2, 3) == [[3, 2, 3], [1, 1, 1]]
  {
    MergeTwoVersions(a, b, 2, 3);
    var p := PixelwiseOfTwo(a, b, 2, 3);
    Display2(p); Display3(p[0]); Display3(p[1]);
  }

  /** test_windowing: the merge of the two 5 x 5 versions. */
  lemma WindowingExpected(img: Image, img2: Image, expected: Image)
    requires img == [[1, 1, 1, 1, 1], [2, 2, 2, 2, 2], [0, 0, 0, 0, 0], [4, 4, 4, 4, 4], [1, 1, 1, 1, 1]]
    requires img2 == [[1, 1, 0, 3, 1], [2, 2, 2, 2, 2], [3, 3, 3, 3, 3], [5, 6, 7, 8, 9], [3, 3, 3, 3, 3]]
    requires expected == [[1, 1, 1, 2, 1], [2, 2, 2, 2, 2], [3, 3, 3, 3, 3], [4, 5, 5, 6, 6], [2, 2, 2, 2, 2]]
    ensures IsStack([img, img2], 5, 5)
    ensures Merge([img, img2], 5, 5) == expected
  {
    MergeTwoVersions(img, img2, 5, 5);
    var p := PixelwiseOfTwo(img, img2, 5, 5);
    Display5(p);
    assert p[0] == expected[0] by { Display5(p[0]); }
    assert p[1] == expected[1] by { Display5(p[1]); }
    assert p[2] == expected[2] by { Display5(p[2]); }
    assert p[3] == expected[3] by { Display5(p[3]); }
    assert p[4] == expected[4] by { Display5(p[4]); }
  }

  /** test_windowing, run through the processor: window_size_row 2, the
      image shape set to 5 x 5 after construction; the returned band is the
      expected merge. */
  method Windowing() {
    var img: Image := [[1, 1, 1, 1, 1], [2, 2, 2, 2, 2], [0, 0, 0, 0, 0], [4, 4, 4, 4, 4], [1, 1, 1, 1, 1]];
    var img2: Image := [[1, 1, 0, 3, 1], [2, 2, 2, 2, 2], [3, 3, 3, 3, 3], [5, 6, 7, 8, 9], [3, 3, 3, 3, 3]];
    var expected: Image := [[1, 1, 1, 2, 1], [2, 2, 2, 2, 2], [3, 3, 3, 3, 3], [4, 5, 5, 6, 6], [2, 2, 2, 2, 2]];
    WindowingExpected(img, img2, expected);
    var process := new WindowImageProcessor(2);
    process.imgShapeW := 5;
    process.imgShapeH := 5;
    var result := process.Window([img, img2]);
    assert result.Ok?;
    var band := result.value;
    assert band.Length0 == 5 && band.Length1 == 5;
    assert forall i, j :: 0 <= i < 5 && 0 <= j < 5 ==> band[i, j] == expected[i][j];
  }
}
