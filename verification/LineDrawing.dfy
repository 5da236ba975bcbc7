/** The noise line of the captcha: which pixels the error-term loop visits. */
module LineDrawing {
  import opened Arithmetic

  datatype Pixel = Pixel(x: int, y: int)

  function Direction(from: int, to: int): int {
    if from < to then 1 else -1
  }

  function Max(a: int, b: int): int {
    if a < b then b else a
  }

  /** n/d rounded to the nearest integer, halves up. */
  function Rounded(n: int, d: int): int
    requires d > 0
  {
    (2 * n + d) / (2 * d)
  }

  /** The ideal line sampled once per step of its longer side. */
  function LinePixel(from: Pixel, to: Pixel, k: nat): Pixel
    requires k <= Max(Abs(to.x - from.x), Abs(to.y - from.y))
  {
    var a, b := Abs(to.x - from.x), Abs(to.y - from.y);
    if Max(a, b) == 0 then from
    else if a >= b then At(from, to, k, Rounded(k * b, a))
    else At(from, to, Rounded(k * a, b), k)
  }

  /** The pixel some steps towards the target. */
  function At(from: Pixel, to: Pixel, stepsX: int, stepsY: int): Pixel {
    Pixel(if Direction(from.x, to.x) == 1 then from.x + stepsX else from.x - stepsX,
          if Direction(from.y, to.y) == 1 then from.y + stepsY else from.y - stepsY)
  }

  /** A step count is off the ideal one by half a pixel at most. */
  predicate Near(minor: int, n: int, d: int) {
    2 * (minor * d) - d <= 2 * n < 2 * (minor * d) + d
  }

  lemma NearIsRounded(minor: int, n: int, d: int)
    requires d > 0 && Near(minor, n, d)
    ensures minor == Rounded(n, d)
  {
    assert minor * (2 * d) == 2 * (minor * d);
    QuotientIs(2 * n + d, 2 * d, minor);
  }

  /** Half a pixel is less than one: a step count near a whole number is that number. */
  lemma NearWhole(minor: int, whole: int, d: int)
    requires d > 0 && Near(minor, whole * d, d)
    ensures minor == whole
  {
    if minor > whole {
      Distributes(whole, d);
      GrowsWith(whole + 1, minor, d);
    } else if minor < whole {
      Distributes(minor, d);
      GrowsWith(minor + 1, whole, d);
    }
  }

  /** Before the last step the shorter side is not overstepped either. */
  lemma NearStays(minor: int, major: int, whole: int, d: int)
    requires d > 0 && major <= d && whole >= 0 && Near(minor, major * whole, d)
    ensures minor <= whole
  {
    GrowsWith(major, d, whole);
    assert d * whole == whole * d;
    if minor > whole {
      Distributes(whole, d);
      GrowsWith(whole + 1, minor, d);
    }
  }

  /** The steps taken along both sides, the longer one first. */
  ghost predicate OnTrack(major: int, minor: int, longer: int, shorter: int) {
    && 0 <= major <= longer
    && 0 <= minor <= shorter
    && Near(minor, major * shorter, longer)
  }

  /** The error term makes the longer side step every time and the shorter side exactly when rounding says so. */
  lemma NextStep(major: int, minor: int, longer: int, shorter: int, error: int)
    requires OnTrack(major, minor, longer, shorter) && 0 <= shorter <= longer && 0 < longer
    requires major != longer || minor != shorter
    requires error == (minor + 1) * longer - (major + 1) * shorter
    ensures major < longer
    ensures 2 * error >= -shorter
    ensures OnTrack(major + 1, if 2 * error <= longer then minor + 1 else minor, longer, shorter)
  {
    if major == longer {
      assert longer * shorter == shorter * longer;
      NearWhole(minor, shorter, longer);
    }
    Distributes(minor, longer);
    Distributes(major, shorter);
    var next := if 2 * error <= longer then minor + 1 else minor;
    assert Near(next, (major + 1) * shorter, longer);
    NearStays(next, major + 1, shorter, longer);
  }

  /** The same with the sides exchanged: here the error term is mirrored. */
  lemma NextSteepStep(major: int, minor: int, longer: int, shorter: int, error: int)
    requires OnTrack(major, minor, longer, shorter) && 0 <= shorter <= longer && 0 < longer
    requires major != longer || minor != shorter
    requires error == (major + 1) * shorter - (minor + 1) * longer
    ensures major < longer
    ensures 2 * error <= shorter
    ensures OnTrack(major + 1, if 2 * error >= -longer then minor + 1 else minor, longer, shorter)
  {
    NextStep(major, minor, longer, shorter, -error);
  }

  ghost predicate Tracks(a: int, b: int, i: int, j: int) {
    if a == 0 && b == 0 then i == 0 && j == 0
    else if a >= b then OnTrack(i, j, a, b)
    else OnTrack(j, i, b, a)
  }

  ghost predicate ErrorTerm(error: int, a: int, b: int, i: int, j: int) {
    error == (j + 1) * a - (i + 1) * b
  }

  lemma StepForward(a: int, b: int, i: int, j: int, error: int)
    requires 0 <= a && 0 <= b && Tracks(a, b, i, j) && (i != a || j != b)
    requires ErrorTerm(error, a, b, i, j)
    ensures var nextI := if 2 * error >= -b then i + 1 else i;
            var nextJ := if 2 * error <= a then j + 1 else j;
            && Tracks(a, b, nextI, nextJ)
            && (if a >= b then nextI == i + 1 && i < a else nextJ == j + 1 && j < b)
            && ErrorTerm(error - (if 2 * error >= -b then b else 0) + (if 2 * error <= a then a else 0), a, b, nextI,
                         nextJ)
  {
    if a >= b {
      NextStep(i, j, a, b, error);
    } else {
      NextSteepStep(j, i, b, a, error);
    }
    Distributes(j + 1, a);
    Distributes(i + 1, b);
  }

  lemma SampleReached(from: Pixel, to: Pixel, i: int, j: int)
    requires Tracks(Abs(to.x - from.x), Abs(to.y - from.y), i, j)
    ensures var a, b := Abs(to.x - from.x), Abs(to.y - from.y);
            var k := if a >= b then i else j;
            0 <= k <= Max(a, b) && At(from, to, i, j) == LinePixel(from, to, k)
  {
    var a, b := Abs(to.x - from.x), Abs(to.y - from.y);
    if a >= b && a > 0 {
      NearIsRounded(j, i * b, a);
    } else if b > a {
      NearIsRounded(i, j * a, b);
    }
  }

  lemma StepMoves(from: Pixel, to: Pixel, i: int, j: int, moveX: bool, moveY: bool)
    ensures At(from, to, if moveX then i + 1 else i, if moveY then j + 1 else j)
         == Pixel(At(from, to, i, j).x + (if moveX then Direction(from.x, to.x) else 0),
                  At(from, to, i, j).y + (if moveY then Direction(from.y, to.y) else 0))
  {
  }

  lemma ArrivedWhenThere(from: Pixel, to: Pixel, i: int, j: int)
    requires Tracks(Abs(to.x - from.x), Abs(to.y - from.y), i, j)
    ensures At(from, to, i, j) == to <==> i == Abs(to.x - from.x) && j == Abs(to.y - from.y)
  {
  }

  lemma Starts(from: Pixel, to: Pixel)
    ensures var a, b := Abs(to.x - from.x), Abs(to.y - from.y);
            Tracks(a, b, 0, 0) && ErrorTerm(a - b, a, b, 0, 0) && At(from, to, 0, 0) == from
  {
  }

  /** Visits max(|dx|, |dy|) + 1 pixels, the k-th one being the k-th sample of the line. */
  method DrawLine(from: Pixel, to: Pixel) returns (visited: seq<Pixel>)
    ensures |visited| == Max(Abs(to.x - from.x), Abs(to.y - from.y)) + 1
    ensures forall k :: 0 <= k < |visited| ==> visited[k] == LinePixel(from, to, k)
    ensures visited[0] == from && visited[|visited| - 1] == to
  {
    hide Tracks, ErrorTerm, At, LinePixel, Direction;
    var dx, dy := Abs(to.x - from.x), -Abs(to.y - from.y);
    var stepX, stepY := Direction(from.x, to.x), Direction(from.y, to.y);
    var error := dx + dy;
    var x, y := from.x, from.y;
    visited := [Pixel(x, y)];
    ghost var i, j := 0, 0;
    Starts(from, to);
    SampleReached(from, to, 0, 0);
    while !(x == to.x && y == to.y)
      invariant Pixel(x, y) == At(from, to, i, j)
      invariant Tracks(dx, -dy, i, j) && ErrorTerm(error, dx, -dy, i, j)
      invariant |visited| == (if dx >= -dy then i else j) + 1
      invariant visited[0] == from && visited[|visited| - 1] == Pixel(x, y)
      invariant |visited| <= Max(dx, -dy) + 1
      invariant forall k :: 0 <= k < |visited| ==> visited[k] == LinePixel(from, to, k)
      decreases Max(dx, -dy) + 1 - |visited|
    {
      ArrivedWhenThere(from, to, i, j);
      StepForward(dx, -dy, i, j, error);
      var doubled := 2 * error;
      StepMoves(from, to, i, j, doubled >= dy, doubled <= dx);
      if doubled >= dy {
        error := error + dy;
        x := x + stepX;
        i := i + 1;
      }
      if doubled <= dx {
        error := error + dx;
        y := y + stepY;
        j := j + 1;
      }
      SampleReached(from, to, i, j);
      visited := visited + [Pixel(x, y)];
    }
    ArrivedWhenThere(from, to, i, j);
  }
}
