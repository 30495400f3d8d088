/**
 * Seam removal on a picture held column by column (`colors[column][row]`).
 * Pixels are an opaque type `P`; the energy is reported as the border
 * constant or as the four neighbouring pixels the gradient is taken over (the
 * floating-point gradient itself is not modelled). The arrays keep their
 * original size; `width` and `height` say how much of them is the picture.
 */
module SeamCarver {
  import opened Wrappers

  /** The energy given to every pixel on the first or last row or column. */
  const DEFAULT_BORDER_ENERGY: int := 1000

  /** `Picture`: its size and its pixels, column by column. */
  datatype Picture<P> = Picture(width: int, height: int, pixels: seq<seq<P>>)

  predicate WellFormed<P>(pic: Picture<P>) {
    && 0 <= pic.width && 0 <= pic.height
    && |pic.pixels| == pic.width
    && forall i :: 0 <= i < pic.width ==> |pic.pixels[i]| == pic.height
  }

  datatype SeamCarver<P> = SeamCarver(colors: seq<seq<P>>, width: int, height: int)

  /** All columns have the same length. */
  predicate Rectangular<P>(colors: seq<seq<P>>) {
    forall c, d :: 0 <= c < |colors| && 0 <= d < |colors| ==> |colors[c]| == |colors[d]|
  }

  /**
   * The current picture sits in the top-left corner of the arrays. Nothing
   * keeps `width` and `height` from going below zero (see
   * `EmptySeamNarrowsPastZero`).
   */
  predicate Valid<P>(sc: SeamCarver<P>) {
    && Rectangular(sc.colors)
    && sc.width <= |sc.colors|
    && forall c :: 0 <= c < |sc.colors| ==> sc.height <= |sc.colors[c]|
  }

  /** The constructor: a `null` picture is refused; otherwise its pixels are copied. */
  function New<P>(picture: Option<Picture<P>>): (r: Result<SeamCarver<P>>)
    requires picture.Some? ==> WellFormed(picture.value)
    ensures r.Err? <==> picture.None?
    ensures r.Err? ==> r.error == IllegalArgument
    ensures r.Ok? ==> Valid(r.value)
    ensures r.Ok? ==> r.value.width == picture.value.width && r.value.height == picture.value.height
  {
    if picture.None? then Err(IllegalArgument)
    else
      var pic := picture.value;
      Ok(SeamCarver(seq(pic.width, i requires 0 <= i < pic.width => seq(pic.height, j requires 0 <= j < pic.height => pic.pixels[i][j])), pic.width, pic.height))
  }

  /** `picture()`: a fresh picture of the current size holding the current pixels. */
  function ToPicture<P>(sc: SeamCarver<P>): (pic: Picture<P>)
    requires Valid(sc) && 0 <= sc.width && 0 <= sc.height
    ensures WellFormed(pic) && pic.width == sc.width && pic.height == sc.height
    ensures forall i, j :: 0 <= i < sc.width && 0 <= j < sc.height ==> pic.pixels[i][j] == sc.colors[i][j]
  {
    Picture(sc.width, sc.height, seq(sc.width, i requires 0 <= i < sc.width => seq(sc.height, j requires 0 <= j < sc.height => sc.colors[i][j])))
  }

  /** Building a carver from a picture and asking for its picture gives the same picture back. */
  lemma PictureRoundTrip<P>(pic: Picture<P>)
    requires WellFormed(pic)
    ensures ToPicture(New(Some(pic)).value) == pic
  {
    var back := ToPicture(New(Some(pic)).value);
    forall i | 0 <= i < pic.width ensures back.pixels[i] == pic.pixels[i] {
    }
  }

  // ---------------------------------------------------------------------------
  // Energy

  /** `findNext`: the next index, or `-1` past the end. */
  function FindNext(pos: int, maxLength: int): (r: int)
    ensures r == -1 || r == pos + 1
    ensures 0 <= pos ==> (r >= 0 <==> pos + 1 < maxLength)
  {
    if pos + 1 < maxLength then pos + 1 else -1
  }

  /** `isAllIndexPositive`: no index is negative (zero counts as positive). */
  function IsAllIndexPositive(indexes: seq<int>): (b: bool)
    ensures b <==> forall i :: 0 <= i < |indexes| ==> indexes[i] >= 0
  {
    if indexes == [] then true
    else if indexes[0] < 0 then false
    else IsAllIndexPositive(indexes[1..])
  }

  /** The energy of a pixel: the border constant, or the gradient over these neighbours. */
  datatype Energy<P> = Border | Gradient(left: P, right: P, above: P, below: P)

  /**
   * The energy as a number where the model has one: `DEFAULT_BORDER_ENERGY`
   * for a border pixel; a gradient's value is floating point and not modelled.
   */
  function Value<P>(e: Energy<P>): Option<int> {
    if e.Border? then Some(DEFAULT_BORDER_ENERGY) else None
  }

  /** `calculateEnergy(sColors, column, row, sWidth, sHeight)`. */
  function CalculateEnergy<P>(colors: seq<seq<P>>, column: int, row: int, width: int, height: int): (e: Energy<P>)
    requires 0 <= column < width <= |colors| && 0 <= row < height
    requires forall c :: 0 <= c < |colors| ==> height <= |colors[c]|
    ensures e.Border? <==> column == 0 || column == width - 1 || row == 0 || row == height - 1
    ensures e.Gradient? ==>
      && e.left == colors[column - 1][row] && e.right == colors[column + 1][row]
      && e.above == colors[column][row - 1] && e.below == colors[column][row + 1]
  {
    var leftColumn := column - 1;
    var rightColumn := FindNext(column, width);
    var aboveRow := row - 1;
    var belowRow := FindNext(row, height);
    var indexes := [leftColumn, rightColumn, aboveRow, belowRow];
    if IsAllIndexPositive(indexes) then
      assert indexes[0] >= 0 && indexes[1] >= 0 && indexes[2] >= 0 && indexes[3] >= 0;
      Gradient(colors[leftColumn][row], colors[rightColumn][row], colors[column][aboveRow], colors[column][belowRow])
    else
      assert indexes[0] < 0 || indexes[1] < 0 || indexes[2] < 0 || indexes[3] < 0;
      Border
  }

  /** `energy(x, y)`: outside the picture is an illegal argument; the border gets the constant. */
  function EnergyAt<P>(sc: SeamCarver<P>, x: int, y: int): (r: Result<Energy<P>>)
    requires Valid(sc)
    ensures r.Err? <==> !(0 <= x < sc.width && 0 <= y < sc.height)
    ensures r.Err? ==> r.error == IllegalArgument
    ensures r.Ok? ==> (r.value.Border? <==> x == 0 || x == sc.width - 1 || y == 0 || y == sc.height - 1)
    ensures r.Ok? ==> (Value(r.value) == Some(DEFAULT_BORDER_ENERGY) <==> x == 0 || x == sc.width - 1 || y == 0 || y == sc.height - 1)
    ensures r.Ok? && r.value.Gradient? ==>
      && r.value.left == sc.colors[x - 1][y] && r.value.right == sc.colors[x + 1][y]
      && r.value.above == sc.colors[x][y - 1] && r.value.below == sc.colors[x][y + 1]
  {
    if x < 0 || x >= sc.width then Err(IllegalArgument)
    else if y < 0 || y >= sc.height then Err(IllegalArgument)
    else Ok(CalculateEnergy(sc.colors, x, y, sc.width, sc.height))
  }

  // ---------------------------------------------------------------------------
  // Seam removal

  function Abs(n: int): nat {
    if n < 0 then -n else n
  }

  /** Entry `i` of a seam lies in `[0, bound)` and is at most one away from the entry before it. */
  predicate EntryOk(seam: seq<int>, i: int, bound: int)
    requires 0 <= i < |seam|
  {
    && 0 <= seam[i] < bound
    && (i > 0 ==> Abs(seam[i] - seam[i - 1]) <= 1)
  }

  /** The first offending entry from `from` on, or `|seam|` when there is none. */
  function FirstBad(seam: seq<int>, bound: int, from: nat): (k: nat)
    requires from <= |seam|
    ensures from <= k <= |seam|
    ensures forall i :: from <= i < k ==> EntryOk(seam, i, bound)
    ensures k < |seam| ==> !EntryOk(seam, k, bound)
    decreases |seam| - from
  {
    if from == |seam| then from
    else if !EntryOk(seam, from, bound) then from
    else FirstBad(seam, bound, from + 1)
  }

  /** A seam of `length` entries, each acceptable, in `[0, bound)`. */
  predicate AcceptsSeam(seam: seq<int>, length: int, bound: int) {
    && |seam| == length
    && forall i :: 0 <= i < |seam| ==> EntryOk(seam, i, bound)
  }

  /**
   * Whether position `pos` of line `line` has been overwritten by its
   * successor, once lines before `i` are done and line `i` is done up to
   * (not including) position `j - 1`.
   */
  predicate Moved(seam: seq<int>, line: int, pos: int, i: int, j: int, bound: int) {
    && 0 <= line <= i && line < |seam|
    && seam[line] <= pos < (if line < i then bound - 1 else j - 1)
  }

  /** Rows are shifted left over the seam, as far as `Moved` says. */
  ghost predicate ShiftedLeft<P>(before: seq<seq<P>>, after: seq<seq<P>>, seam: seq<int>, i: int, j: int, width: int)
    requires Rectangular(before) && width <= |before| && (j <= width || j == 0)
  {
    && |after| == |before|
    && (forall c :: 0 <= c < |before| ==> |after[c]| == |before[c]|)
    && forall c, r {:trigger after[c][r]} :: 0 <= c < |before| && 0 <= r < |before[c]| ==>
         after[c][r] == if Moved(seam, r, c, i, j, width) then before[c + 1][r] else before[c][r]
  }

  /** Columns are shifted up over the seam, as far as `Moved` says. */
  ghost predicate ShiftedUp<P>(before: seq<seq<P>>, after: seq<seq<P>>, seam: seq<int>, i: int, j: int, height: int)
    requires forall c :: 0 <= c < |before| ==> height <= |before[c]|
    requires j <= height || j == 0
  {
    && |after| == |before|
    && (forall c :: 0 <= c < |before| ==> |after[c]| == |before[c]|)
    && forall c, r {:trigger after[c][r]} :: 0 <= c < |before| && 0 <= r < |before[c]| ==>
         after[c][r] == if Moved(seam, c, r, i, j, height) then before[c][r + 1] else before[c][r]
  }

  /** Row `r` of the picture, `width` pixels wide. */
  function Row<P>(colors: seq<seq<P>>, r: int, width: int): (row: seq<P>)
    requires 0 <= width <= |colors| && 0 <= r
    requires forall c :: 0 <= c < width ==> r < |colors[c]|
    ensures |row| == width && forall c :: 0 <= c < width ==> row[c] == colors[c][r]
  {
    seq(width, c requires 0 <= c < width => colors[c][r])
  }

  /** Column `c` of the picture, `height` pixels tall. */
  function Column<P>(colors: seq<seq<P>>, c: int, height: int): (column: seq<P>)
    requires 0 <= c < |colors| && 0 <= height <= |colors[c]|
  {
    colors[c][..height]
  }

  /**
   * `removeVerticalSeam`. A `null` seam or one whose length is not the height
   * is refused with nothing moved. Otherwise row after row: an entry outside
   * the width, or more than one away from the one before, is refused with the
   * rows before it already shifted and the width unchanged; else the row's
   * pixels right of the seam move one to the left. Only a seam that passes
   * every row narrows the picture by one.
   */
  method RemoveVerticalSeam<P>(sc: SeamCarver<P>, seam: Option<seq<int>>) returns (after: SeamCarver<P>, err: Option<Error>)
    requires Valid(sc)
    ensures Valid(after) && after.height == sc.height
    ensures err.Some? ==> err.value == IllegalArgument
    ensures err.None? <==> seam.Some? && AcceptsSeam(seam.value, sc.height, sc.width)
    ensures after.width == if err.None? then sc.width - 1 else sc.width
    ensures seam.None? || |seam.value| != sc.height ==> after == sc
    ensures seam.Some? && |seam.value| == sc.height ==>
      ShiftedLeft(sc.colors, after.colors, seam.value, FirstBad(seam.value, sc.width, 0), 0, sc.width)
    ensures err.None? ==>
      forall r :: 0 <= r < sc.height ==>
        EntryOk(seam.value, r, sc.width) &&
        Row(after.colors, r, after.width) == Row(sc.colors, r, sc.width)[..seam.value[r]] + Row(sc.colors, r, sc.width)[seam.value[r] + 1..]
  {
    if seam.None? {
      return sc, Some(IllegalArgument);
    }
    var s := seam.value;
    if |s| != sc.height {
      return sc, Some(IllegalArgument);
    }
    var width := sc.width;
    var colors, stop := ShiftRowsLeft(sc, s);
    if stop < |s| {
      return SeamCarver(colors, width, sc.height), Some(IllegalArgument);
    }
    after, err := SeamCarver(colors, width - 1, sc.height), None;
    if |s| > 0 {
      forall r | 0 <= r < |s| ensures 0 <= s[r] < width {
        assert EntryOk(s, r, width);
      }
      assert |s| <= |sc.colors[0]|;
      RowsLoseSeamPixel(sc.colors, colors, s, width);
    }
  }

  /**
   * The row loop of `removeVerticalSeam`: rows are shifted one after the
   * other until the first refused entry, whose row is `stop`, or the end.
   */
  method ShiftRowsLeft<P>(sc: SeamCarver<P>, s: seq<int>) returns (colors: seq<seq<P>>, stop: nat)
    requires Valid(sc) && |s| == sc.height
    ensures stop == FirstBad(s, sc.width, 0)
    ensures ShiftedLeft(sc.colors, colors, s, stop, 0, sc.width)
  {
    var width := sc.width;
    colors := sc.colors;
    var i := 0;
    while i < |s|
      invariant 0 <= i <= |s|
      invariant forall r :: 0 <= r < i ==> EntryOk(s, r, width)
      invariant ShiftedLeft(sc.colors, colors, s, i, 0, width)
    {
      if s[i] < 0 || s[i] >= width {
        assert !EntryOk(s, i, width);
        return colors, i;
      }
      if i > 0 && Abs(s[i] - s[i - 1]) > 1 {
        assert !EntryOk(s, i, width);
        return colors, i;
      }
      colors := ShiftRowLeft(sc.colors, colors, s, i, width);
      i := i + 1;
    }
    stop := i;
  }

  /** Row `i`: every pixel right of `seam[i]`, up to the width, moves one column to the left. */
  method ShiftRowLeft<P>(before: seq<seq<P>>, colors: seq<seq<P>>, seam: seq<int>, i: int, width: int) returns (colors': seq<seq<P>>)
    requires Rectangular(before) && width <= |before|
    requires 0 <= i < |seam| && 0 <= seam[i] < width
    requires forall c :: 0 <= c < |before| ==> i < |before[c]|
    requires ShiftedLeft(before, colors, seam, i, 0, width)
    ensures ShiftedLeft(before, colors', seam, i + 1, 0, width)
  {
    colors' := colors;
    var j := seam[i] + 1;
    while j < width
      invariant seam[i] + 1 <= j <= width
      invariant ShiftedLeft(before, colors', seam, i, j, width)
    {
      colors' := colors'[j - 1 := colors'[j - 1][i := colors'[j][i]]];
      j := j + 1;
    }
  }

  lemma RowsLoseSeamPixel<P>(before: seq<seq<P>>, after: seq<seq<P>>, seam: seq<int>, width: int)
    requires Rectangular(before) && 0 < width <= |before| && |seam| <= |before[0]|
    requires forall r :: 0 <= r < |seam| ==> 0 <= seam[r] < width
    requires ShiftedLeft(before, after, seam, |seam|, 0, width)
    ensures forall r :: 0 <= r < |seam| ==>
      Row(after, r, width - 1) == Row(before, r, width)[..seam[r]] + Row(before, r, width)[seam[r] + 1..]
  {
    forall r | 0 <= r < |seam|
      ensures Row(after, r, width - 1) == Row(before, r, width)[..seam[r]] + Row(before, r, width)[seam[r] + 1..]
    {
      var old_ := Row(before, r, width);
      var new_ := Row(after, r, width - 1);
      var want := old_[..seam[r]] + old_[seam[r] + 1..];
      forall c | 0 <= c < width - 1 ensures new_[c] == want[c] {
        assert Moved(seam, r, c, |seam|, 0, width) <==> seam[r] <= c;
      }
    }
  }

  /**
   * `removeHorizontalSeam`: the same with rows and columns exchanged. The
   * seam has one entry per column, each within the height; the pixels of a
   * column below the seam move up by one, and only a seam that passes every
   * column makes the picture one row shorter.
   */
  method RemoveHorizontalSeam<P>(sc: SeamCarver<P>, seam: Option<seq<int>>) returns (after: SeamCarver<P>, err: Option<Error>)
    requires Valid(sc)
    ensures Valid(after) && after.width == sc.width
    ensures err.Some? ==> err.value == IllegalArgument
    ensures err.None? <==> seam.Some? && AcceptsSeam(seam.value, sc.width, sc.height)
    ensures after.height == if err.None? then sc.height - 1 else sc.height
    ensures seam.None? || |seam.value| != sc.width ==> after == sc
    ensures seam.Some? && |seam.value| == sc.width ==>
      ShiftedUp(sc.colors, after.colors, seam.value, FirstBad(seam.value, sc.height, 0), 0, sc.height)
    ensures err.None? ==>
      forall c :: 0 <= c < sc.width ==>
        EntryOk(seam.value, c, sc.height) &&
        Column(after.colors, c, after.height) == Column(sc.colors, c, sc.height)[..seam.value[c]] + Column(sc.colors, c, sc.height)[seam.value[c] + 1..]
  {
    if seam.None? {
      return sc, Some(IllegalArgument);
    }
    var s := seam.value;
    if |s| != sc.width {
      return sc, Some(IllegalArgument);
    }
    var height := sc.height;
    var colors, stop := ShiftColumnsUp(sc, s);
    if stop < |s| {
      return SeamCarver(colors, sc.width, height), Some(IllegalArgument);
    }
    after, err := SeamCarver(colors, sc.width, height - 1), None;
    if |s| > 0 {
      forall c | 0 <= c < |s| ensures 0 <= s[c] < height {
        assert EntryOk(s, c, height);
      }
      ColumnsLoseSeamPixel(sc.colors, colors, s, height);
    }
  }

  /** The column loop of `removeHorizontalSeam`, stopping at the first refused entry. */
  method ShiftColumnsUp<P>(sc: SeamCarver<P>, s: seq<int>) returns (colors: seq<seq<P>>, stop: nat)
    requires Valid(sc) && |s| == sc.width
    ensures stop == FirstBad(s, sc.height, 0)
    ensures ShiftedUp(sc.colors, colors, s, stop, 0, sc.height)
  {
    var height := sc.height;
    colors := sc.colors;
    var i := 0;
    while i < |s|
      invariant 0 <= i <= |s|
      invariant forall c :: 0 <= c < i ==> EntryOk(s, c, height)
      invariant ShiftedUp(sc.colors, colors, s, i, 0, height)
    {
      if s[i] < 0 || s[i] >= height {
        assert !EntryOk(s, i, height);
        return colors, i;
      }
      if i > 0 && Abs(s[i] - s[i - 1]) > 1 {
        assert !EntryOk(s, i, height);
        return colors, i;
      }
      colors := ShiftColumnUp(sc.colors, colors, s, i, height);
      i := i + 1;
    }
    stop := i;
  }

  /** Column `i`: every pixel below `seam[i]`, up to the height, moves one row up. */
  method ShiftColumnUp<P>(before: seq<seq<P>>, colors: seq<seq<P>>, seam: seq<int>, i: int, height: int) returns (colors': seq<seq<P>>)
    requires forall c :: 0 <= c < |before| ==> height <= |before[c]|
    requires 0 <= i < |seam| && i < |before| && 0 <= seam[i] < height
    requires ShiftedUp(before, colors, seam, i, 0, height)
    ensures ShiftedUp(before, colors', seam, i + 1, 0, height)
  {
    colors' := colors;
    var j := seam[i] + 1;
    while j < height
      invariant seam[i] + 1 <= j <= height
      invariant ShiftedUp(before, colors', seam, i, j, height)
    {
      colors' := colors'[i := colors'[i][j - 1 := colors'[i][j]]];
      j := j + 1;
    }
  }

  lemma ColumnsLoseSeamPixel<P>(before: seq<seq<P>>, after: seq<seq<P>>, seam: seq<int>, height: int)
    requires 0 < height && |seam| <= |before|
    requires forall c :: 0 <= c < |before| ==> height <= |before[c]|
    requires forall c :: 0 <= c < |seam| ==> 0 <= seam[c] < height
    requires ShiftedUp(before, after, seam, |seam|, 0, height)
    ensures forall c :: 0 <= c < |seam| ==>
      Column(after, c, height - 1) == Column(before, c, height)[..seam[c]] + Column(before, c, height)[seam[c] + 1..]
  {
    forall c | 0 <= c < |seam|
      ensures Column(after, c, height - 1) == Column(before, c, height)[..seam[c]] + Column(before, c, height)[seam[c] + 1..]
    {
      var old_ := Column(before, c, height);
      var new_ := Column(after, c, height - 1);
      var want := old_[..seam[c]] + old_[seam[c] + 1..];
      forall r | 0 <= r < height - 1 ensures new_[r] == want[r] {
        assert Moved(seam, c, r, |seam|, 0, height) <==> seam[c] <= r;
      }
    }
  }

  // ---------------------------------------------------------------------------
  // Removing from an empty picture

  /**
   * A 1x1 picture loses its only row to `removeHorizontalSeam([0])`; with
   * height 0 the empty seam then passes `removeVerticalSeam` every time, so
   * the width goes to 0 and then to -1.
   */
  lemma EmptySeamNarrowsPastZero<P>(p: P)
    ensures Valid(SeamCarver([[p]], 1, 1)) && AcceptsSeam([0], 1, 1)
    ensures Valid(SeamCarver([[p]], 1, 0)) && AcceptsSeam([], 0, 1)
    ensures Valid(SeamCarver([[p]], 0, 0)) && AcceptsSeam([], 0, 0)
  {
  }

  /**
   * The same path through the operations themselves: a 1x1 carver accepts
   * `removeHorizontalSeam([0])` and then `removeVerticalSeam([])` twice, and
   * is left with width -1.
   */
  method NarrowPastZero<P>(p: P) returns (after: SeamCarver<P>, errs: seq<Option<Error>>)
    ensures errs == [None, None, None]
    ensures after.height == 0 && after.width == -1
  {
    var sc := SeamCarver([[p]], 1, 1);
    assert AcceptsSeam([0], 1, 1) && AcceptsSeam([], 0, 1) && AcceptsSeam([], 0, 0);
    var lower, e1 := RemoveHorizontalSeam(sc, Some([0]));
    var narrower, e2 := RemoveVerticalSeam(lower, Some([]));
    var last, e3 := RemoveVerticalSeam(narrower, Some([]));
    after, errs := last, [e1, e2, e3];
  }

  /** `removeVerticalSeam`, refusing a seam once no column is left, so the width never drops below zero. */
  method RemoveVerticalSeamChecked<P>(sc: SeamCarver<P>, seam: Option<seq<int>>) returns (after: SeamCarver<P>, err: Option<Error>)
    requires Valid(sc) && 0 <= sc.width
    ensures Valid(after) && 0 <= after.width && after.height == sc.height
    ensures err.Some? ==> err.value == IllegalArgument
    ensures err.None? <==> seam.Some? && 0 < sc.width && AcceptsSeam(seam.value, sc.height, sc.width)
    ensures after.width == if err.None? then sc.width - 1 else sc.width
  {
    if sc.width <= 0 {
      return sc, Some(IllegalArgument);
    }
    after, err := RemoveVerticalSeam(sc, seam);
  }

  /** `removeHorizontalSeam`, refusing a seam once no row is left, so the height never drops below zero. */
  method RemoveHorizontalSeamChecked<P>(sc: SeamCarver<P>, seam: Option<seq<int>>) returns (after: SeamCarver<P>, err: Option<Error>)
    requires Valid(sc) && 0 <= sc.height
    ensures Valid(after) && 0 <= after.height && after.width == sc.width
    ensures err.Some? ==> err.value == IllegalArgument
    ensures err.None? <==> seam.Some? && 0 < sc.height && AcceptsSeam(seam.value, sc.width, sc.height)
    ensures after.height == if err.None? then sc.height - 1 else sc.height
  {
    if sc.height <= 0 {
      return sc, Some(IllegalArgument);
    }
    after, err := RemoveHorizontalSeam(sc, seam);
  }
}
