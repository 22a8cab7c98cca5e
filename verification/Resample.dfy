// resample of make-icons.py: every pixel of the smaller picture is the mean of a box of the larger.
module Resampling {
  import opened Machine
  import opened PngFile

  // Where the box of position k begins and ends among n source positions.
  function Lo(k: nat, n: nat, size: nat): nat
    requires size > 0
  {
    k * n / size
  }

  function Hi(k: nat, n: nat, size: nat): nat
    requires size > 0
  {
    if Lo(k, n, size) + 1 >= Lo(k + 1, n, size) then Lo(k, n, size) + 1 else Lo(k + 1, n, size)
  }

  // ---------------------------------------------------------------------------------------------
  // The boxes.

  lemma QuotientAtLeast(a: nat, b: nat, q: nat)
    requires b > 0 && a >= q * b
    ensures a / b >= q
  {
    var r := a / b;
    assert a == r * b + a % b;
    if r <= q - 1 {
      Scaled(r + 1, q, b);
    }
  }

  lemma QuotientBelow(a: nat, b: nat, q: nat)
    requires b > 0 && a < q * b
    ensures a / b < q
  {
    var r := a / b;
    assert a == r * b + a % b;
    if r >= q {
      Scaled(q, r, b);
    }
  }

  // Every box lies inside the source, whatever the size.
  lemma BoxIsInside(k: nat, n: nat, size: nat)
    requires k < size && n > 0
    ensures Lo(k, n, size) < Hi(k, n, size) <= n
  {
    Scaled(k + 1, size, n);
    assert k * n < n * size by { assert (k + 1) * n == k * n + n; }
    QuotientBelow(k * n, size, n);
    assert (k + 1) * n <= n * size;
    QuotientBelow((k + 1) * n, size, n + 1) by { assert (n + 1) * size == n * size + size; }
  }

  lemma QuotientOfMultiple(n: nat, size: nat)
    requires size > 0
    ensures size * n / size == n
  {
    QuotientAtLeast(size * n, size, n);
    OneMore(n + 1, size);
    QuotientBelow(size * n, size, n + 1);
  }

  lemma NextQuotient(a: nat, n: nat, size: nat)
    requires 0 < size <= n
    ensures (a + n) / size >= a / size + 1
  {
    var q := a / size;
    assert a == q * size + a % size;
    OneMore(q + 1, size);
    QuotientAtLeast(a + n, size, q + 1);
  }

  lemma OneMore(n: int, v: int)
    ensures n * v == (n - 1) * v + v
  {
  }

  // For sizes up to the source's the boxes join end to end ...
  lemma BoxesJoin(k: nat, n: nat, size: nat)
    requires k < size <= n
    ensures Hi(k, n, size) == Lo(k + 1, n, size)
    ensures Lo(0, n, size) == 0 && Lo(size, n, size) == n
  {
    OneMore(k + 1, n);
    NextQuotient(k * n, n, size);
    QuotientOfMultiple(n, size);
  }

  lemma LoIsMonotone(j: nat, k: nat, n: nat, size: nat)
    requires j <= k && size > 0
    ensures Lo(j, n, size) <= Lo(k, n, size)
  {
    Scaled(j, k, n);
    var q := j * n / size;
    assert j * n == q * size + j * n % size;
    QuotientAtLeast(k * n, size, q);
  }

  lemma {:induction false} BoxOf(p: nat, k: nat, n: nat, size: nat) returns (j: nat)
    requires 0 < size <= n && k <= size && p < Lo(k, n, size)
    ensures j < k && Lo(j, n, size) <= p < Hi(j, n, size)
    decreases k
  {
    assert k > 0 by { BoxesJoin(0, n, size); }
    BoxesJoin(k - 1, n, size);
    if p >= Lo(k - 1, n, size) {
      j := k - 1;
    } else {
      j := BoxOf(p, k - 1, n, size);
    }
  }

  // ... so every source position lies in exactly one of them.
  lemma BoxesPartition(p: nat, n: nat, size: nat)
    requires 0 < size <= n && p < n
    ensures exists k :: 0 <= k < size && Lo(k, n, size) <= p < Hi(k, n, size)
                        && forall j | 0 <= j < size && Lo(j, n, size) <= p < Hi(j, n, size) :: j == k
  {
    BoxesJoin(0, n, size);
    var k := BoxOf(p, size, n, size);
    forall j | 0 <= j < size && Lo(j, n, size) <= p < Hi(j, n, size) ensures j == k {
      BoxesJoin(j, n, size);
      BoxesJoin(k, n, size);
      if j < k {
        LoIsMonotone(j + 1, k, n, size);
      } else if k < j {
        LoIsMonotone(k + 1, j, n, size);
      }
    }
  }

  // ---------------------------------------------------------------------------------------------
  // Sums.

  predicate WellShaped(m: Image)
  {
    && m.width > 0 && m.height > 0 && m.channels >= 3
    && |m.rows| == m.height
    && forall y | 0 <= y < m.height :: |m.rows[y]| == m.width * m.channels
  }

  lemma HasPixels(m: Image)
    requires WellShaped(m)
    ensures m.width > 0 && m.height > 0
  {
  }

  lemma SampleIsInside(m: Image, x: nat, c: nat)
    requires x < m.width && c < 3 <= m.channels
    ensures x * m.channels + c < m.width * m.channels
  {
    Scaled(x + 1, m.width, m.channels);
    assert (x + 1) * m.channels == x * m.channels + m.channels;
  }

  function Sample(m: Image, x: nat, y: nat, c: nat): Byte
    requires WellShaped(m) && x < m.width && y < m.height && c < 3
  {
    SampleIsInside(m, x, c);
    m.rows[y][x * m.channels + c]
  }

  lemma SamplesAt(m: Image, x: nat, y: nat)
    requires WellShaped(m) && x < m.width && y < m.height
    ensures var base := x * m.channels;
            && base + 2 < |m.rows[y]|
            && Sample(m, x, y, 0) == m.rows[y][base]
            && Sample(m, x, y, 1) == m.rows[y][base + 1]
            && Sample(m, x, y, 2) == m.rows[y][base + 2]
  {
    SampleIsInside(m, x, 2);
  }

  // The samples of row y from x0 up to x1, and of a whole box.
  function RowSum(m: Image, c: nat, x0: nat, x1: nat, y: nat): nat
    requires WellShaped(m) && x0 <= x1 <= m.width && y < m.height && c < 3
    decreases x1
  {
    if x1 == x0 then 0 else RowSum(m, c, x0, x1 - 1, y) + Sample(m, x1 - 1, y, c)
  }

  function BoxSum(m: Image, c: nat, x0: nat, x1: nat, y0: nat, y1: nat): nat
    requires WellShaped(m) && x0 <= x1 <= m.width && y0 <= y1 <= m.height && c < 3
    decreases y1
  {
    if y1 == y0 then 0 else BoxSum(m, c, x0, x1, y0, y1 - 1) + RowSum(m, c, x0, x1, y1 - 1)
  }

  lemma BoxHasPixels(width: nat, height: nat, size: nat, x: nat, y: nat)
    requires width > 0 && height > 0 && x < size && y < size
    ensures Lo(x, width, size) < Hi(x, width, size) <= width
    ensures Lo(y, height, size) < Hi(y, height, size) <= height
    ensures (Hi(x, width, size) - Lo(x, width, size)) * (Hi(y, height, size) - Lo(y, height, size)) > 0
  {
    hide Lo, Hi;
    BoxIsInside(x, width, size);
    BoxIsInside(y, height, size);
    Scaled(1, Hi(x, width, size) - Lo(x, width, size), Hi(y, height, size) - Lo(y, height, size));
  }

  // The pixel at (x, y) of the small picture, before its alpha.
  function Mean(m: Image, size: nat, c: nat, x: nat, y: nat): nat
    requires WellShaped(m) && c < 3 && x < size && y < size
  {
    BoxHasPixels(m.width, m.height, size, x, y);
    var x0, x1 := Lo(x, m.width, size), Hi(x, m.width, size);
    var y0, y1 := Lo(y, m.height, size), Hi(y, m.height, size);
    Ratio(BoxSum(m, c, x0, x1, y0, y1), x1 - x0, y1 - y0)
  }

  function Ratio(sum: nat, a: nat, b: nat): nat
    requires a > 0 && b > 0
  {
    Scaled(1, a, b);
    sum / (a * b)
  }

  lemma {:induction false} RowSumSplits(m: Image, c: nat, x0: nat, x1: nat, x2: nat, y: nat)
    requires WellShaped(m) && x0 <= x1 <= x2 <= m.width && y < m.height && c < 3
    ensures RowSum(m, c, x0, x2, y) == RowSum(m, c, x0, x1, y) + RowSum(m, c, x1, x2, y)
    decreases x2
  {
    hide Sample, WellShaped;
    if x1 < x2 {
      RowSumSplits(m, c, x0, x1, x2 - 1, y);
    }
  }

  lemma {:induction false} BoxSumSplitsAcross(m: Image, c: nat, x0: nat, x1: nat, x2: nat, y0: nat, y1: nat)
    requires WellShaped(m) && x0 <= x1 <= x2 <= m.width && y0 <= y1 <= m.height && c < 3
    ensures BoxSum(m, c, x0, x2, y0, y1) == BoxSum(m, c, x0, x1, y0, y1) + BoxSum(m, c, x1, x2, y0, y1)
    decreases y1
  {
    hide RowSum, WellShaped;
    if y0 < y1 {
      BoxSumSplitsAcross(m, c, x0, x1, x2, y0, y1 - 1);
      RowSumSplits(m, c, x0, x1, x2, y1 - 1);
    }
  }

  lemma {:induction false} BoxSumSplitsDown(m: Image, c: nat, x0: nat, x1: nat, y0: nat, y1: nat, y2: nat)
    requires WellShaped(m) && x0 <= x1 <= m.width && y0 <= y1 <= y2 <= m.height && c < 3
    ensures BoxSum(m, c, x0, x1, y0, y2) == BoxSum(m, c, x0, x1, y0, y1) + BoxSum(m, c, x0, x1, y1, y2)
    decreases y2
  {
    hide RowSum, WellShaped;
    if y1 < y2 {
      BoxSumSplitsDown(m, c, x0, x1, y0, y1, y2 - 1);
    }
  }

  // The sums of the boxes of the first k columns, and of the first k rows of boxes.
  ghost function ColumnsTotal(m: Image, size: nat, c: nat, y0: nat, y1: nat, k: nat): nat
    requires WellShaped(m) && y0 <= y1 <= m.height && c < 3 && k <= size
  {
    if k == 0 then 0
    else
      BoxIsInside(k - 1, m.width, size);
      ColumnsTotal(m, size, c, y0, y1, k - 1)
      + BoxSum(m, c, Lo(k - 1, m.width, size), Hi(k - 1, m.width, size), y0, y1)
  }

  ghost function BoxesTotal(m: Image, size: nat, c: nat, k: nat): nat
    requires WellShaped(m) && c < 3 && k <= size
  {
    if k == 0 then 0
    else
      BoxIsInside(k - 1, m.height, size);
      BoxesTotal(m, size, c, k - 1)
      + ColumnsTotal(m, size, c, Lo(k - 1, m.height, size), Hi(k - 1, m.height, size), size)
  }

  lemma LoIsWithin(k: nat, n: nat, size: nat)
    requires k <= size && 0 < size <= n
    ensures Lo(k, n, size) <= n
  {
    BoxesJoin(0, n, size);
    LoIsMonotone(k, size, n, size);
  }

  lemma {:induction false} ColumnsAddUp(m: Image, size: nat, c: nat, y0: nat, y1: nat, k: nat)
    requires WellShaped(m) && y0 <= y1 <= m.height && c < 3 && k <= size && 0 < size <= m.width
    ensures Lo(k, m.width, size) <= m.width
    ensures ColumnsTotal(m, size, c, y0, y1, k) == BoxSum(m, c, 0, Lo(k, m.width, size), y0, y1)
  {
    hide WellShaped, Lo, Hi;
    LoIsWithin(k, m.width, size);
    BoxesJoin(0, m.width, size);
    if k == 0 {
      EmptyBox(m, c, 0, y0, y1);
    } else {
      ColumnsAddUp(m, size, c, y0, y1, k - 1);
      BoxesJoin(k - 1, m.width, size);
      BoxIsInside(k - 1, m.width, size);
      BoxSumSplitsAcross(m, c, 0, Lo(k - 1, m.width, size), Lo(k, m.width, size), y0, y1);
    }
  }

  lemma {:induction false} EmptyBox(m: Image, c: nat, x: nat, y0: nat, y1: nat)
    requires WellShaped(m) && x <= m.width && y0 <= y1 <= m.height && c < 3
    ensures BoxSum(m, c, x, x, y0, y1) == 0
    decreases y1
  {
    if y0 < y1 {
      EmptyBox(m, c, x, y0, y1 - 1);
    }
  }

  lemma {:induction false} BoxesAddUp(m: Image, size: nat, c: nat, k: nat)
    requires WellShaped(m) && c < 3 && k <= size && 0 < size <= m.width && size <= m.height
    ensures Lo(k, m.height, size) <= m.height
    ensures BoxesTotal(m, size, c, k) == BoxSum(m, c, 0, m.width, 0, Lo(k, m.height, size))
  {
    hide WellShaped, Lo, Hi, ColumnsTotal;
    LoIsWithin(k, m.height, size);
    BoxesJoin(0, m.height, size);
    BoxesJoin(0, m.width, size);
    if k > 0 {
      BoxesAddUp(m, size, c, k - 1);
      BoxesJoin(k - 1, m.height, size);
      BoxIsInside(k - 1, m.height, size);
      ColumnsAddUp(m, size, c, Lo(k - 1, m.height, size), Lo(k, m.height, size), size);
      BoxSumSplitsDown(m, c, 0, m.width, 0, Lo(k - 1, m.height, size), Lo(k, m.height, size));
    }
  }

  // Nothing is lost and nothing counted twice: for sizes up to the source's the boxes together hold
  // every sample once.
  lemma EverySampleCountsOnce(m: Image, size: nat, c: nat)
    requires WellShaped(m) && c < 3 && 0 < size <= m.width && size <= m.height
    ensures BoxesTotal(m, size, c, size) == BoxSum(m, c, 0, m.width, 0, m.height)
  {
    BoxesAddUp(m, size, c, size);
    BoxesJoin(0, m.height, size);
  }

  // Every sample of a box is at least lo and at most hi.
  ghost predicate Within(m: Image, c: nat, x0: nat, x1: nat, y0: nat, y1: nat, lo: int, hi: int)
    requires WellShaped(m) && x1 <= m.width && y1 <= m.height && c < 3
  {
    forall x, y | x0 <= x < x1 && y0 <= y < y1 :: lo <= Sample(m, x, y, c) <= hi
  }

  lemma {:induction false} RowSumWithin(m: Image, c: nat, x0: nat, x1: nat, y: nat, lo: int, hi: int)
    requires WellShaped(m) && x0 <= x1 <= m.width && y < m.height && c < 3
    requires forall x | x0 <= x < x1 :: lo <= Sample(m, x, y, c) <= hi
    ensures (x1 - x0) * lo <= RowSum(m, c, x0, x1, y) <= (x1 - x0) * hi
    decreases x1
  {
    hide Sample, WellShaped;
    if x0 < x1 {
      RowSumWithin(m, c, x0, x1 - 1, y, lo, hi);
      OneMore(x1 - x0, lo);
      OneMore(x1 - x0, hi);
    }
  }

  lemma {:induction false} BoxSumWithin(m: Image, c: nat, x0: nat, x1: nat, y0: nat, y1: nat, lo: int, hi: int)
    requires WellShaped(m) && x0 <= x1 <= m.width && y0 <= y1 <= m.height && c < 3
    requires Within(m, c, x0, x1, y0, y1, lo, hi)
    ensures (y1 - y0) * ((x1 - x0) * lo) <= BoxSum(m, c, x0, x1, y0, y1) <= (y1 - y0) * ((x1 - x0) * hi)
    decreases y1
  {
    hide Sample, WellShaped, RowSum;
    if y0 < y1 {
      BoxSumWithin(m, c, x0, x1, y0, y1 - 1, lo, hi);
      RowSumWithin(m, c, x0, x1, y1 - 1, lo, hi);
      OneMore(y1 - y0, (x1 - x0) * lo);
      OneMore(y1 - y0, (x1 - x0) * hi);
    }
  }

  lemma MeanOfProduct(a: nat, b: nat, lo: nat, hi: nat, sum: nat)
    requires a > 0 && b > 0 && b * (a * lo) <= sum <= b * (a * hi)
    ensures a * b > 0 && lo <= sum / (a * b) <= hi
  {
    Scaled(1, a, b);
    assert b * (a * lo) == lo * (a * b) && b * (a * hi) == hi * (a * b);
    QuotientAtLeast(sum, a * b, lo);
    OneMore(hi + 1, a * b);
    QuotientBelow(sum, a * b, hi + 1);
  }

  // A pixel of the small picture lies between the darkest and the brightest of its box.
  lemma MeanIsWithin(m: Image, size: nat, c: nat, x: nat, y: nat, lo: Byte, hi: Byte)
    requires WellShaped(m) && c < 3 && x < size && y < size
    requires Hi(x, m.width, size) <= m.width && Hi(y, m.height, size) <= m.height
    requires Within(m, c, Lo(x, m.width, size), Hi(x, m.width, size),
                    Lo(y, m.height, size), Hi(y, m.height, size), lo, hi)
    ensures lo <= Mean(m, size, c, x, y) <= hi
  {
    hide WellShaped, Lo, Hi, BoxSum, Sample, Within;
    HasPixels(m);
    BoxIsInside(x, m.width, size);
    BoxIsInside(y, m.height, size);
    var x0, x1 := Lo(x, m.width, size), Hi(x, m.width, size);
    var y0, y1 := Lo(y, m.height, size), Hi(y, m.height, size);
    BoxSumWithin(m, c, x0, x1, y0, y1, lo, hi);
    MeanOfProduct(x1 - x0, y1 - y0, lo, hi, BoxSum(m, c, x0, x1, y0, y1));
  }

  lemma MeanIsAByte(m: Image, size: nat, c: nat, x: nat, y: nat)
    requires WellShaped(m) && c < 3 && x < size && y < size
    ensures Mean(m, size, c, x, y) < 0x100
  {
    BoxIsInside(x, m.width, size);
    BoxIsInside(y, m.height, size);
    MeanIsWithin(m, size, c, x, y, 0, 0xFF);
  }

  // ---------------------------------------------------------------------------------------------
  // The loops.

  // The two inner loops: the three sums over a box and the number of its pixels.
  method SumBox(m: Image, x0: nat, x1: nat, y0: nat, y1: nat) returns (r: nat, g: nat, b: nat, count: nat)
    requires WellShaped(m) && x0 <= x1 <= m.width && y0 <= y1 <= m.height
    ensures r == BoxSum(m, 0, x0, x1, y0, y1)
    ensures g == BoxSum(m, 1, x0, x1, y0, y1)
    ensures b == BoxSum(m, 2, x0, x1, y0, y1)
    ensures count == (x1 - x0) * (y1 - y0)
  {
    hide Sample;
    r, g, b, count := 0, 0, 0, 0;
    var sy := y0;
    while sy < y1
      invariant y0 <= sy <= y1
      invariant r == BoxSum(m, 0, x0, x1, y0, sy)
      invariant g == BoxSum(m, 1, x0, x1, y0, sy)
      invariant b == BoxSum(m, 2, x0, x1, y0, sy)
      invariant count == (x1 - x0) * (sy - y0)
    {
      var row := m.rows[sy];
      ghost var (r0, g0, b0, count0) := (r, g, b, count);
      var sx := x0;
      while sx < x1
        invariant x0 <= sx <= x1
        invariant r == r0 + RowSum(m, 0, x0, sx, sy)
        invariant g == g0 + RowSum(m, 1, x0, sx, sy)
        invariant b == b0 + RowSum(m, 2, x0, sx, sy)
        invariant count == count0 + (sx - x0)
      {
        SamplesAt(m, sx, sy);
        var base := sx * m.channels;
        r := r + row[base];
        g := g + row[base + 1];
        b := b + row[base + 2];
        count := count + 1;
        sx := sx + 1;
      }
      OneMore(sy + 1 - y0, x1 - x0);
      sy := sy + 1;
    }
  }

  // The pixel that ends up at (x, y).
  function Pixel(m: Image, size: nat, x: nat, y: nat, alpha: (nat, nat) -> Byte): (p: Text)
    requires WellShaped(m) && x < size && y < size
    ensures |p| == 4
  {
    MeanIsAByte(m, size, 0, x, y);
    MeanIsAByte(m, size, 1, x, y);
    MeanIsAByte(m, size, 2, x, y);
    [Mean(m, size, 0, x, y), Mean(m, size, 1, x, y), Mean(m, size, 2, x, y), alpha(x, y)]
  }

  function Line(m: Image, size: nat, y: nat, alpha: (nat, nat) -> Byte, n: nat): (s: Text)
    requires WellShaped(m) && n <= size && y < size
    ensures |s| == 4 * n
  {
    if n == 0 then [] else Line(m, size, y, alpha, n - 1) + Pixel(m, size, n - 1, y, alpha)
  }

  // The coverage of a pixel by the rounded square is handed in as alpha.
  method Resample(m: Image, size: nat, alpha: (nat, nat) -> Byte) returns (rows: seq<Text>)
    requires WellShaped(m)
    ensures |rows| == size
    ensures forall y | 0 <= y < size :: rows[y] == Line(m, size, y, alpha, size)
  {
    hide WellShaped, Lo, Hi, BoxSum;
    HasPixels(m);
    rows := [];
    var y := 0;
    while y < size
      invariant 0 <= y <= size && |rows| == y
      invariant forall k | 0 <= k < y :: rows[k] == Line(m, size, k, alpha, size)
    {
      BoxIsInside(y, m.height, size);
      var y0, y1 := Lo(y, m.height, size), Hi(y, m.height, size);
      var line: Text := [];
      var x := 0;
      while x < size
        invariant 0 <= x <= size
        invariant line == Line(m, size, y, alpha, x)
      {
        BoxIsInside(x, m.width, size);
        var x0, x1 := Lo(x, m.width, size), Hi(x, m.width, size);
        var r, g, b, count := SumBox(m, x0, x1, y0, y1);
        MeanIsAByte(m, size, 0, x, y);
        MeanIsAByte(m, size, 1, x, y);
        MeanIsAByte(m, size, 2, x, y);
        Scaled(1, x1 - x0, y1 - y0);
        line := line + [r / count, g / count, b / count, alpha(x, y)];
        x := x + 1;
      }
      rows := rows + [line];
      y := y + 1;
    }
  }

  // Box k begins at the whole part of k * n / size, and ends where the next begins, or one position further on.
  lemma BoxesBeginAt(k: nat, n: nat, size: nat)
    requires size > 0
    ensures Lo(k, n, size) * size <= k * n < (Lo(k, n, size) + 1) * size
    ensures Hi(k, n, size) == Max(Lo(k, n, size) + 1, Lo(k + 1, n, size))
  {
    assert k * n == k * n / size * size + k * n % size;
  }

  // The sums add up samples, each the byte of its channel in its pixel.
  lemma SumsAreOfSamples(m: Image, c: nat, x: nat, y: nat)
    requires WellShaped(m) && x < m.width && y < m.height && c < 3
    ensures x * m.channels + c < |m.rows[y]| && BoxSum(m, c, x, x + 1, y, y + 1) == m.rows[y][x * m.channels + c]
  {
    SampleIsInside(m, x, c);
    assert RowSum(m, c, x, x + 1, y) == RowSum(m, c, x, x, y) + Sample(m, x, y, c);
    assert BoxSum(m, c, x, x + 1, y, y + 1) == BoxSum(m, c, x, x + 1, y, y) + RowSum(m, c, x, x + 1, y);
  }

  // The mean is the sum over the box divided by the number of its pixels, rounded down.
  lemma MeanIsTheQuotient(m: Image, size: nat, c: nat, x: nat, y: nat)
    requires WellShaped(m) && c < 3 && x < size && y < size
    ensures var x0, x1 := Lo(x, m.width, size), Hi(x, m.width, size);
            var y0, y1 := Lo(y, m.height, size), Hi(y, m.height, size);
            && x0 < x1 <= m.width && y0 < y1 <= m.height
            && var count, mean := (x1 - x0) * (y1 - y0), Mean(m, size, c, x, y);
               mean * count <= BoxSum(m, c, x0, x1, y0, y1) < mean * count + count
  {
    hide BoxSum, Lo, Hi;
    BoxHasPixels(m.width, m.height, size, x, y);
    var x0, x1 := Lo(x, m.width, size), Hi(x, m.width, size);
    var y0, y1 := Lo(y, m.height, size), Hi(y, m.height, size);
    var count, sum := (x1 - x0) * (y1 - y0), BoxSum(m, c, x0, x1, y0, y1);
    assert sum == sum / count * count + sum % count;
  }

  // Pixel x of a line: red, green and blue in this order, and the alpha behind them.
  lemma {:induction false} LineIs(m: Image, size: nat, y: nat, alpha: (nat, nat) -> Byte, n: nat, x: nat)
    requires WellShaped(m) && x < n <= size && y < size
    ensures var line := Line(m, size, y, alpha, n);
            && line[4 * x] == Mean(m, size, 0, x, y) && line[4 * x + 1] == Mean(m, size, 1, x, y)
            && line[4 * x + 2] == Mean(m, size, 2, x, y) && line[4 * x + 3] == alpha(x, y)
    decreases n
  {
    hide Mean, WellShaped;
    if x < n - 1 {
      LineIs(m, size, y, alpha, n - 1, x);
    }
  }
}
