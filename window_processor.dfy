/** WindowImageProcessor.window: builds one output band by walking down the
    rows in windows of window_size_row rows, stacking that window of every
    version of the band, merging the stack and writing the merged rows into
    the output buffer. The band files are given as a sequence of images, one
    per version, in directory listing order. */
module WindowProcessor {
  import opened MedianMerger

  datatype WindowError =
    | NoSourceData   // the band directory holds no file (files[0] fails)
    | ZeroStep       // window_size_row is 0 (range() refuses a zero step)

  datatype Result<T> = Ok(value: T) | Err(error: WindowError)

  function Min(a: int, b: int): int { if a <= b then a else b }

  /** Python's range(start, stop, step) for a positive step: start, start + step,
      start + 2 * step, ... while below stop. */
  function Range(start: nat, stop: nat, step: nat): (r: seq<nat>)
    requires step > 0
    ensures |r| == 0 <==> stop <= start
    ensures |r| > 0 ==> r[0] == start && stop <= r[|r| - 1] + step
    ensures forall k :: 0 <= k < |r| ==> start <= r[k] < stop
    decreases stop - start
  {
    if stop <= start then [] else [start] + Range(start + step, stop, step)
  }

  /** Consecutive entries of a range are one step apart. */
  lemma {:induction false} RangeStep(start: nat, stop: nat, step: nat, k: nat)
    requires step > 0 && k + 1 < |Range(start, stop, step)|
    ensures Range(start, stop, step)[k + 1] == Range(start, stop, step)[k] + step
    decreases k
  {
    var rest := Range(start + step, stop, step);
    assert Range(start, stop, step) == [start] + rest;
    if k > 0 {
      RangeStep(start + step, stop, step, k - 1);
    }
  }

  /** Entry k of a range is start + k * step. */
  lemma {:induction false} RangeEntry(start: nat, stop: nat, step: nat, k: nat)
    requires step > 0 && k < |Range(start, stop, step)|
    ensures Range(start, stop, step)[k] == start + k * step
  {
    if k > 0 {
      RangeEntry(start, stop, step, k - 1);
      RangeStep(start, stop, step, k - 1);
      assert (k - 1) * step + step == k * step;
    }
  }

  /** Height of the window that starts at row rowIdx: window_size_row while
      more than that many rows remain, otherwise the rows that remain. */
  function WindowHeight(total: nat, step: nat, rowIdx: nat): (h: nat)
    requires step > 0 && rowIdx < total
    ensures 0 < h <= step && rowIdx + h <= total
    ensures h < step ==> rowIdx + h == total
  {
    if total - rowIdx > step then step else total - rowIdx
  }

  /** Each window ends where the next one starts, and the last one ends at
      the last row: the windows are contiguous. */
  lemma WindowEnds(start: nat, total: nat, step: nat, k: nat)
    requires step > 0 && k < |Range(start, total, step)|
    ensures var r := Range(start, total, step);
            k + 1 < |r| ==> r[k] + WindowHeight(total, step, r[k]) == r[k + 1]
    ensures var r := Range(start, total, step);
            k + 1 == |r| ==> r[k] + WindowHeight(total, step, r[k]) == total
  {
    if k + 1 < |Range(start, total, step)| {
      RangeStep(start, total, step, k);
    }
  }

  /** A later window starts at or after the end of an earlier one. */
  lemma {:induction false} WindowsOrdered(start: nat, total: nat, step: nat, k: nat, l: nat)
    requires step > 0 && k < l < |Range(start, total, step)|
    ensures var r := Range(start, total, step);
            r[k] + WindowHeight(total, step, r[k]) <= r[l]
    decreases l
  {
    WindowEnds(start, total, step, k);
    if l > k + 1 {
      WindowsOrdered(start, total, step, k, l - 1);
      RangeStep(start, total, step, l - 1);
    }
  }

  /** The windows are disjoint: no row lies in two of them. */
  lemma WindowsDisjoint(start: nat, total: nat, step: nat, k: nat, l: nat, i: nat)
    requires step > 0 && k < |Range(start, total, step)| && l < |Range(start, total, step)|
    requires InWindow(Range(start, total, step)[k], total, step, i)
    requires InWindow(Range(start, total, step)[l], total, step, i)
    ensures k == l
  {
    if k < l {
      WindowsOrdered(start, total, step, k, l);
    } else if l < k {
      WindowsOrdered(start, total, step, l, k);
    }
  }

  /** Row i lies in the window that starts at row rowIdx. */
  predicate InWindow(rowIdx: nat, total: nat, step: nat, i: nat)
    requires step > 0
  {
    rowIdx <= i < total && i < rowIdx + WindowHeight(total, step, rowIdx)
  }

  /** The windows cover the rows: every row from start up to total lies in
      one of them. */
  lemma {:induction false} WindowsCover(start: nat, total: nat, step: nat, i: nat)
    requires step > 0 && start <= i < total
    ensures exists k :: 0 <= k < |Range(start, total, step)| && InWindow(Range(start, total, step)[k], total, step, i)
    decreases total - start
  {
    var r, rest := Range(start, total, step), Range(start + step, total, step);
    assert r == [start] + rest;
    if i < start + step {
      assert 0 < |r| && InWindow(r[0], total, step, i);
    } else {
      WindowsCover(start + step, total, step, i);
      var k :| 0 <= k < |rest| && InWindow(rest[k], total, step, i);
      assert r[k + 1] == rest[k];
    }
  }

  /** rasterio's windowed read: rows [rows.0, rows.1) and columns [cols.0, cols.1)
      of img, clipped to the image bounds. */
  function ReadWindow(img: Image, height: nat, width: nat, rows: (nat, nat), cols: (nat, nat)): (w: Image)
    requires IsImage(img, height, width) && rows.0 <= height && cols.0 <= width
    requires rows.0 <= rows.1 && cols.0 <= cols.1
    ensures IsImage(w, Min(rows.1, height) - rows.0, Min(cols.1, width) - cols.0)
    ensures forall r, c :: 0 <= r < |w| && 0 <= c < Min(cols.1, width) - cols.0 ==>
              w[r][c] == img[rows.0 + r][cols.0 + c]
  {
    var h := Min(rows.1, height) - rows.0;
    seq(h, r requires 0 <= r < h => img[rows.0 + r][cols.0 .. Min(cols.1, width)])
  }

  /** The window stack: the same window of every version, in version order. */
  function WindowStack(versions: seq<Image>, height: nat, width: nat, rows: (nat, nat), cols: (nat, nat)): seq<Image>
    requires IsStack(versions, height, width) && rows.0 <= height && cols.0 <= width
    requires rows.0 <= rows.1 && cols.0 <= cols.1
  {
    seq(|versions|, v requires 0 <= v < |versions| => ReadWindow(versions[v], height, width, rows, cols))
  }

  /** Windowing does not change the merge: merging the stack of the window of
      rows [rowIdx, rowIdx + h) gives, at each pixel, the merge of the full
      versions at the same pixel. */
  lemma WindowMergeAgrees(versions: seq<Image>, height: nat, width: nat, rowIdx: nat, h: nat, colStop: nat,
                          stack: seq<Image>)
    requires IsStack(versions, height, width) && rowIdx + h <= height && width <= colStop
    requires stack == WindowStack(versions, height, width, (rowIdx, rowIdx + h), (0, colStop))
    ensures IsStack(stack, h, width)
    ensures forall r, c :: 0 <= r < h && 0 <= c < width ==>
              Merge(stack, h, width)[r][c] == Merge(versions, height, width)[rowIdx + r][c]
  {
    forall r, c | 0 <= r < h && 0 <= c < width
      ensures Merge(stack, h, width)[r][c] == Merge(versions, height, width)[rowIdx + r][c]
    {
      assert Column(stack, h, width, r, c) == Column(versions, height, width, rowIdx + r, c);
    }
  }

  /** numpy's output[rowIdx : rowIdx + |block|, :] = block. */
  method AssignRows(output: array2<Pixel>, rowIdx: nat, block: Image)
    requires rowIdx + |block| <= output.Length0 && IsImage(block, |block|, output.Length1)
    modifies output
    ensures forall i, j :: 0 <= i < output.Length0 && 0 <= j < output.Length1 ==>
              output[i, j] == if rowIdx <= i < rowIdx + |block| then block[i - rowIdx][j] else old(output[i, j])
  {
    for r := 0 to |block|
      invariant forall i, j :: 0 <= i < output.Length0 && 0 <= j < output.Length1 ==>
                  output[i, j] == if rowIdx <= i < rowIdx + r then block[i - rowIdx][j] else old(output[i, j])
    {
      for c := 0 to output.Length1
        invariant forall i, j :: 0 <= i < output.Length0 && 0 <= j < output.Length1 ==>
                    output[i, j] == if rowIdx <= i < rowIdx + r || (i == rowIdx + r && j < c)
                                    then block[i - rowIdx][j] else old(output[i, j])
      {
        output[rowIdx + r, c] := block[r][c];
      }
    }
  }

  /** The first done rows of output hold the merged band, the others are still 0. */
  ghost predicate Filled(output: array2<Pixel>, full: Image, done: nat)
    reads output
    requires IsImage(full, output.Length0, output.Length1)
  {
    forall i, j :: 0 <= i < output.Length0 && 0 <= j < output.Length1 ==>
      output[i, j] == if i < done then full[i][j] else 0
  }

  class WindowImageProcessor {
    var imgShapeW: nat                // number of rows of a band
    var imgShapeH: nat                // number of columns of a band
    var windowSizeRow: int
    var windowSizeColumn: (nat, nat)  // column slice of every read, fixed at construction

    /** The defaults are those of the source: a window of 2000 rows over a
        10980 × 10980 band. */
    constructor (windowSizeRow: int := 2000, imgShapeW: nat := 10980, imgShapeH: nat := 10980)
      ensures this.windowSizeRow == windowSizeRow
      ensures this.imgShapeW == imgShapeW && this.imgShapeH == imgShapeH
      ensures windowSizeColumn == (0, imgShapeH)
    {
      this.imgShapeW := imgShapeW;
      this.imgShapeH := imgShapeH;
      this.windowSizeRow := windowSizeRow;
      this.windowSizeColumn := (0, imgShapeH);
    }

    /** Fills the stack of the window starting at row rowIdx: one layer per
        version, layer i holding that window of version i. */
    method FillStack(versions: seq<Image>, rowIdx: nat, height: nat) returns (stack: array<Image>)
      requires windowSizeRow > 0 && windowSizeColumn.0 == 0 && imgShapeH <= windowSizeColumn.1
      requires IsStack(versions, imgShapeW, imgShapeH)
      requires rowIdx < imgShapeW && height == WindowHeight(imgShapeW, windowSizeRow, rowIdx)
      ensures fresh(stack) && stack.Length == |versions|
      ensures stack[..] == WindowStack(versions, imgShapeW, imgShapeH, (rowIdx, rowIdx + windowSizeRow), windowSizeColumn)
      ensures IsStack(stack[..], height, imgShapeH)
    {
      var cols := imgShapeH;
      var zeros: Image := seq(height, _ => seq(cols, _ => 0));
      stack := new Image[|versions|](_ => zeros);
      for i := 0 to |versions|
        invariant forall v :: 0 <= v < i ==>
                    stack[v] == ReadWindow(versions[v], imgShapeW, imgShapeH, (rowIdx, rowIdx + windowSizeRow), windowSizeColumn)
      {
        stack[i] := ReadWindow(versions[i], imgShapeW, imgShapeH, (rowIdx, rowIdx + windowSizeRow), windowSizeColumn);
      }
    }

    /** One step of the window loop: stacks the window that starts at row
        rowIdx, merges it and writes the merged rows into output. */
    method ProcessWindow(versions: seq<Image>, output: array2<Pixel>, rowIdx: nat)
      requires windowSizeRow > 0 && windowSizeColumn.0 == 0 && imgShapeH <= windowSizeColumn.1
      requires IsStack(versions, imgShapeW, imgShapeH) && rowIdx < imgShapeW
      requires output.Length0 == imgShapeW && output.Length1 == imgShapeH
      requires Filled(output, Merge(versions, imgShapeW, imgShapeH), rowIdx)
      modifies output
      ensures Filled(output, Merge(versions, imgShapeW, imgShapeH), rowIdx + WindowHeight(imgShapeW, windowSizeRow, rowIdx))
      ensures forall i, j :: (0 <= i < imgShapeW && 0 <= j < imgShapeH &&
                               !(rowIdx <= i < rowIdx + WindowHeight(imgShapeW, windowSizeRow, rowIdx))) ==>
                output[i, j] == old(output[i, j])
    {
      ghost var full := Merge(versions, imgShapeW, imgShapeH);
      var height := WindowHeight(imgShapeW, windowSizeRow, rowIdx);
      var stack := FillStack(versions, rowIdx, height);
      var out := Merge(stack[..], height, imgShapeH);
      WindowMergeAgrees(versions, imgShapeW, imgShapeH, rowIdx, height, windowSizeColumn.1, stack[..]);
      AssignRows(output, rowIdx, out);
      forall i, j | 0 <= i < imgShapeW && 0 <= j < imgShapeH
        ensures output[i, j] == if i < rowIdx + height then full[i][j] else 0
      {
        if rowIdx <= i < rowIdx + height {
          assert out[i - rowIdx][j] == full[rowIdx + (i - rowIdx)][j];
        }
      }
    }

    /** The merged band of the given versions, built window by window. */
    method Window(versions: seq<Image>) returns (result: Result<array2<Pixel>>)
      requires windowSizeColumn.0 == 0 && imgShapeH <= windowSizeColumn.1
      requires IsStack(versions, imgShapeW, imgShapeH)
      ensures |versions| == 0 ==> result == Err(NoSourceData)
      ensures |versions| > 0 && windowSizeRow == 0 ==> result == Err(ZeroStep)
      ensures |versions| > 0 && windowSizeRow != 0 ==>
                result.Ok? && fresh(result.value) &&
                result.value.Length0 == imgShapeW && result.value.Length1 == imgShapeH
      ensures result.Ok? && windowSizeRow > 0 ==>
                forall i, j :: 0 <= i < imgShapeW && 0 <= j < imgShapeH ==>
                  result.value[i, j] == Merge(versions, imgShapeW, imgShapeH)[i][j]
      ensures result.Ok? && windowSizeRow < 0 ==>
                forall i, j :: 0 <= i < imgShapeW && 0 <= j < imgShapeH ==> result.value[i, j] == 0
    {
      if |versions| == 0 {
        return Err(NoSourceData);
      }
      var output := new Pixel[imgShapeW, imgShapeH]((_, _) => 0);
      if windowSizeRow == 0 {
        return Err(ZeroStep);
      }
      if windowSizeRow < 0 {
        // range(0, img_shape_w, step) with a negative step is empty
        return Ok(output);
      }
      ghost var full := Merge(versions, imgShapeW, imgShapeH);
      var starts := Range(0, imgShapeW, windowSizeRow);
      for k := 0 to |starts|
        invariant output.Length0 == imgShapeW && output.Length1 == imgShapeH
        invariant Filled(output, full, if k < |starts| then starts[k] else imgShapeW)
      {
        var rowIdx := starts[k];
        ProcessWindow(versions, output, rowIdx);
        WindowEnds(0, imgShapeW, windowSizeRow, k);
      }
      return Ok(output);
    }
  }
}
