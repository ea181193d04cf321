/** Gaussian blur of a bytemap, in place: first along the rows, then along the columns. */
module Blur {
  import opened Words

  const BUFFER_SIZE: nat := 16
  const MAX_RADIUS: nat := 8

  // ----- Binomial coefficients --------------------------------------------------------------

  /** Row `n` of Pascal's triangle. */
  function Row(n: nat): (r: seq<nat>)
    ensures |r| == n + 1
  {
    if n == 0 then [1] else Neighbours([0] + Row(n - 1) + [0])
  }

  /** The sums of neighbouring elements. */
  function Neighbours(s: seq<nat>): (r: seq<nat>)
    requires s != []
    ensures |r| == |s| - 1
  {
    if |s| == 1 then [] else [s[0] + s[1]] + Neighbours(s[1..])
  }

  function Sum(s: seq<nat>): nat
  {
    if s == [] then 0 else s[0] + Sum(s[1..])
  }

  lemma {:induction false} SumOfNeighbours(s: seq<nat>)
    requires s != []
    ensures Sum(Neighbours(s)) + s[0] + s[|s| - 1] == 2 * Sum(s)
  {
    if |s| > 1 {
      SumOfNeighbours(s[1..]);
      assert Neighbours(s)[1..] == Neighbours(s[1..]);
    } else {
      assert s[1..] == [];
    }
  }

  lemma {:induction false} SumSnoc(s: seq<nat>, x: nat)
    ensures Sum(s + [x]) == Sum(s) + x
  {
    if s == [] {
      assert [x][1..] == [];
    } else {
      SumSnoc(s[1..], x);
      assert (s + [x])[1..] == s[1..] + [x];
    }
  }

  /** The coefficients add up to a power of two, as fixed point arithmetic requires. */
  lemma {:induction false} SumOfRow(n: nat)
    ensures Sum(Row(n)) == Pow2(n)
  {
    if n == 0 {
      assert Row(0)[1..] == [];
    } else {
      SumOfRow(n - 1);
      var padded := [0] + Row(n - 1);
      assert padded[1..] == Row(n - 1);
      SumSnoc(padded, 0);
      SumOfNeighbours(padded + [0]);
    }
  }

  /** The table for the radii that are accepted. */
  function Coefficients(radius: nat): seq<nat>
    requires 2 <= radius < MAX_RADIUS - 1
  {
    match radius
    case 2 => [1, 2, 1]
    case 3 => [1, 4, 6, 4, 1]
    case 4 => [1, 6, 15, 20, 15, 6, 1]
    case 5 => [1, 8, 28, 56, 70, 56, 28, 8, 1]
    case _ => [1, 10, 45, 120, 210, 252, 210, 120, 45, 10, 1]
  }

  lemma RowStep(n: nat, row: seq<nat>, next: seq<nat>)
    requires Row(n) == row && |next| == n + 2 && next[0] == next[n + 1] == 1 && row[0] == row[n] == 1
    requires forall k :: 0 < k <= n ==> next[k] == row[k - 1] + row[k]
    ensures Row(n + 1) == next
  {
    var padded := [0] + row + [0];
    forall k | 0 <= k < n + 2 ensures Neighbours(padded)[k] == next[k] {
      NeighboursAt(padded, k);
    }
  }

  lemma {:induction false} NeighboursAt(s: seq<nat>, k: nat)
    requires k + 1 < |s|
    ensures Neighbours(s)[k] == s[k] + s[k + 1]
  {
    if k == 0 {
    } else {
      NeighboursAt(s[1..], k - 1);
    }
  }

  lemma FirstRows()
    ensures Row(2) == [1, 2, 1] && Row(4) == [1, 4, 6, 4, 1]
  {
    assert Row(0) == [1];
    hide Row, Neighbours;
    RowStep(0, [1], [1, 1]);
    RowStep(1, [1, 1], [1, 2, 1]);
    RowStep(2, [1, 2, 1], [1, 3, 3, 1]);
    RowStep(3, [1, 3, 3, 1], [1, 4, 6, 4, 1]);
  }

  lemma MiddleRows()
    ensures Row(6) == [1, 6, 15, 20, 15, 6, 1]
  {
    hide Row, Neighbours;
    FirstRows();
    RowStep(4, [1, 4, 6, 4, 1], [1, 5, 10, 10, 5, 1]);
    RowStep(5, [1, 5, 10, 10, 5, 1], [1, 6, 15, 20, 15, 6, 1]);
  }

  lemma LastRows()
    ensures Row(8) == [1, 8, 28, 56, 70, 56, 28, 8, 1]
    ensures Row(10) == [1, 10, 45, 120, 210, 252, 210, 120, 45, 10, 1]
  {
    hide Row, Neighbours;
    MiddleRows();
    RowStep(6, [1, 6, 15, 20, 15, 6, 1], [1, 7, 21, 35, 35, 21, 7, 1]);
    RowStep(7, [1, 7, 21, 35, 35, 21, 7, 1], [1, 8, 28, 56, 70, 56, 28, 8, 1]);
    RowStep(8, [1, 8, 28, 56, 70, 56, 28, 8, 1], [1, 9, 36, 84, 126, 126, 84, 36, 9, 1]);
    RowStep(9, [1, 9, 36, 84, 126, 126, 84, 36, 9, 1], [1, 10, 45, 120, 210, 252, 210, 120, 45, 10, 1]);
  }

  lemma TableIsPascal(radius: nat)
    requires 2 <= radius < MAX_RADIUS - 1
    ensures Coefficients(radius) == Row(2 * radius - 2)
  {
    hide Row, Neighbours;
    FirstRows();
    MiddleRows();
    LastRows();
  }

  // ----- One pixel --------------------------------------------------------------------------

  function Dot(coefficients: seq<nat>, values: seq<byte>): nat
    requires |coefficients| == |values|
  {
    if coefficients == [] then 0
    else
      var last := |coefficients| - 1;
      Dot(coefficients[..last], values[..last]) + coefficients[last] * values[last] as nat
  }

  lemma {:induction false} DotBound(coefficients: seq<nat>, values: seq<byte>)
    requires |coefficients| == |values|
    ensures Dot(coefficients, values) <= 255 * Sum(coefficients)
  {
    if coefficients == [] {
    } else {
      var last := |coefficients| - 1;
      DotBound(coefficients[..last], values[..last]);
      SumSnoc(coefficients[..last], coefficients[last]);
      assert coefficients == coefficients[..last] + [coefficients[last]];
      WeightBound(coefficients[last], values[last]);
    }
  }

  lemma WeightBound(weight: nat, value: byte)
    ensures weight * value as nat <= 255 * weight
  {
    ProductOrder(255, value as nat, weight);
  }

  /** The weighted average of the values around a place, which is not too close to the ends. */
  function Average(radius: nat, line: seq<byte>, x: nat): (r: byte)
    requires 2 <= radius && radius - 1 <= x <= |line| - radius
  {
    var total := Dot(Row(2 * radius - 2), line[x - radius + 1..x + radius]);
    AverageFits(radius, line[x - radius + 1..x + radius]);
    total / Pow2(2 * radius - 2)
  }

  lemma AverageFits(radius: nat, values: seq<byte>)
    requires 2 <= radius && |values| == 2 * radius - 1
    ensures Dot(Row(2 * radius - 2), values) / Pow2(2 * radius - 2) < 256
  {
    var n := 2 * radius - 2;
    DotBound(Row(n), values);
    SumOfRow(n);
    QuotientBelow(Dot(Row(n), values), Pow2(n), 256);
  }

  /** The sum of the values around a place, weighted with binomial coefficients. */
  ghost function WeightedAround(radius: nat, line: seq<byte>, x: nat): nat
    requires 2 <= radius && radius - 1 <= x <= |line| - radius
  {
    Dot(Row(2 * radius - 2), line[x - radius + 1..x + radius])
  }

  /** That sum, divided by the sum of the weights and rounded down. */
  ghost predicate IsAverage(value: nat, radius: nat, line: seq<byte>, x: nat)
    requires 2 <= radius && radius - 1 <= x <= |line| - radius
  {
    var total, weights := WeightedAround(radius, line, x), Pow2(2 * radius - 2);
    value * weights <= total < (value + 1) * weights
  }

  lemma AverageIs(radius: nat, line: seq<byte>, x: nat)
    requires 2 <= radius && radius - 1 <= x <= |line| - radius
    ensures IsAverage(Average(radius, line, x), radius, line, x)
  {
    hide Dot, Row, Pow2;
    QuotientBounds(WeightedAround(radius, line, x), Pow2(2 * radius - 2));
  }

  lemma QuotientBounds(n: nat, d: nat)
    requires d > 0
    ensures n / d * d <= n < (n / d + 1) * d
  {
  }

  // ----- What a weighted sum is ---------------------------------------------------------------

  /** A single value counts as often as its weight says. */
  lemma {:induction false} DotOfOne(coefficients: seq<nat>, values: seq<byte>, i: nat)
    requires |coefficients| == |values| && i < |values| && forall k :: 0 <= k < |values| && k != i ==> values[k] == 0
    ensures Dot(coefficients, values) == coefficients[i] * values[i] as nat
  {
    var last := |coefficients| - 1;
    if i == last {
      DotOfNone(coefficients[..last], values[..last]);
    } else {
      DotOfOne(coefficients[..last], values[..last], i);
    }
  }

  lemma {:induction false} DotOfNone(coefficients: seq<nat>, values: seq<byte>)
    requires |coefficients| == |values| && forall k :: 0 <= k < |values| ==> values[k] == 0
    ensures Dot(coefficients, values) == 0
  {
    if coefficients == [] {
    } else {
      var last := |coefficients| - 1;
      DotOfNone(coefficients[..last], values[..last]);
    }
  }

  /** Weighted sums add up. */
  lemma {:induction false} DotAdds(coefficients: seq<nat>, a: seq<byte>, b: seq<byte>, c: seq<byte>)
    requires |coefficients| == |a| == |b| == |c| && forall k :: 0 <= k < |a| ==> c[k] as int == a[k] as int + b[k] as int
    ensures Dot(coefficients, c) == Dot(coefficients, a) + Dot(coefficients, b)
  {
    if coefficients == [] {
    } else {
      var last := |coefficients| - 1;
      DotAdds(coefficients[..last], a[..last], b[..last], c[..last]);
      Distribute(coefficients[last], a[last], b[last]);
    }
  }

  lemma Distribute(w: nat, a: nat, b: nat)
    ensures w * (a + b) == w * a + w * b
  {
  }

  /** One bright pixel spreads with the weights of the table. */
  lemma OnePixelSpreads(radius: nat, line: seq<byte>, x: nat, p: nat, value: nat)
    requires 2 <= radius < MAX_RADIUS - 1 && radius - 1 <= x <= |line| - radius
    requires x - radius < p < x + radius && forall k :: 0 <= k < |line| && k != p ==> line[k] == 0
    requires IsAverage(value, radius, line, x)
    ensures value == Coefficients(radius)[p - (x - radius + 1)] * line[p] as nat / Pow2(2 * radius - 2)
  {
    hide Row, Pow2;
    TableIsPascal(radius);
    var window := line[x - radius + 1..x + radius];
    DotOfOne(Row(2 * radius - 2), window, p - (x - radius + 1));
    QuotientUnique(value, WeightedAround(radius, line, x), Pow2(2 * radius - 2));
  }

  lemma QuotientUnique(q: nat, n: nat, d: nat)
    requires d > 0 && q * d <= n < (q + 1) * d
    ensures q == n / d
  {
    DivideUnique(n, d, q, n - q * d);
  }

  // ----- One line, in place -----------------------------------------------------------------

  /** The places of a line's pixels in the image, which start somewhere and are some
      stride apart. */
  ghost predicate Places(at: seq<nat>, start: nat, stride: nat, size: nat)
  {
    && (forall k :: 0 <= k < |at| ==> at[k] == start + k * stride && at[k] < size)
    && (forall j, k :: 0 <= j < k < |at| ==> at[j] != at[k])
  }

  ghost predicate Inside(radius: nat, k: int, n: nat)
  {
    radius - 1 <= k <= n - radius
  }

  /** The weighted sum around a pixel whose surroundings are as they were in `line`. */
  method WeightedSum(
    image: array<byte>, start: nat, stride: nat, x: nat, radius: nat, ghost at: seq<nat>, ghost line: seq<byte>)
    returns (sum: nat)
    requires 2 <= radius < MAX_RADIUS - 1 && |at| == |line| && Inside(radius, x, |line|)
    requires Places(at, start, stride, image.Length)
    requires forall k :: x - radius < k < x + radius ==> image[at[k]] == line[k]
    ensures sum == Dot(Row(2 * radius - 2), line[x - radius + 1..x + radius])
  {
    hide Row, Coefficients;
    TableIsPascal(radius);
    var coefficients := Coefficients(radius);
    ghost var values := line[x - radius + 1..x + radius];
    sum := 0;
    for i := 0 to 2 * radius - 1
      invariant sum == Dot(coefficients[..i], values[..i])
    {
      var place := x - radius + 1 + i;
      assert at[place] == start + place * stride;
      sum := sum + coefficients[i] * image[start + place * stride] as nat;
      assert coefficients[..i + 1][..i] == coefficients[..i] && values[..i + 1][..i] == values[..i];
    }
    assert coefficients[..2 * radius - 1] == coefficients && values[..2 * radius - 1] == values;
  }

  /** Averages that are computed, but not yet in the image, are in the circular buffer. */
  ghost predicate Delayed(buffer: array<byte>, line: seq<byte>, x: nat, radius: nat)
    requires buffer.Length == BUFFER_SIZE && 2 <= radius
    reads buffer
  {
    forall k :: x - BUFFER_SIZE <= k < x && Inside(radius, k, |line|) ==> buffer[k % BUFFER_SIZE] == Average(radius, line, k)
  }

  /** The pixels before `x` are averages, those from `x` on are as they were. */
  ghost predicate Divided(image: array<byte>, at: seq<nat>, line: seq<byte>, x: int, radius: nat)
    requires 2 <= radius && |at| == |line| && forall k :: 0 <= k < |at| ==> at[k] < image.Length
    reads image
  {
    && (forall k :: 0 <= k < |at| && k >= x ==> image[at[k]] == line[k])
    && (forall k :: 0 <= k < x && Inside(radius, k, |line|) ==> image[at[k]] == Average(radius, line, k))
  }

  ghost predicate OthersKept(image: array<byte>, before: seq<byte>, at: seq<nat>)
    requires |before| == image.Length
    reads image
  {
    forall p :: 0 <= p < image.Length && p !in at ==> image[p] == before[p]
  }

  /** Only the oldest place of the buffer coincides with the newest. */
  lemma BufferPlaces(x: nat)
    ensures x >= BUFFER_SIZE ==> (x - BUFFER_SIZE) % BUFFER_SIZE == x % BUFFER_SIZE
    ensures forall k: nat :: x - BUFFER_SIZE < k < x ==> k % BUFFER_SIZE != x % BUFFER_SIZE
  {
  }

  /** The oldest average in the buffer goes to the image. */
  method Emit(
    image: array<byte>, buffer: array<byte>, start: nat, stride: nat, x: nat, radius: nat, ghost at: seq<nat>,
    ghost line: seq<byte>, ghost before: seq<byte>)
    requires buffer.Length == BUFFER_SIZE && image != buffer && 2 <= radius < MAX_RADIUS - 1
    requires |at| == |line| && Places(at, start, stride, image.Length) && |before| == image.Length && x < |line|
    requires Divided(image, at, line, x - BUFFER_SIZE, radius) && Delayed(buffer, line, x, radius)
    requires OthersKept(image, before, at)
    modifies image
    ensures Divided(image, at, line, x + 1 - BUFFER_SIZE, radius) && OthersKept(image, before, at)
  {
    hide Average;
    if x >= BUFFER_SIZE {
      BufferPlaces(x);
      assert at[x - BUFFER_SIZE] == start + (x - BUFFER_SIZE) * stride;
      image[start + (x - BUFFER_SIZE) * stride] := buffer[x % BUFFER_SIZE];
    }
  }

  /** A new average takes its place in the buffer. */
  method Remember(buffer: array<byte>, x: nat, average: byte, radius: nat, ghost line: seq<byte>)
    requires buffer.Length == BUFFER_SIZE && 2 <= radius < MAX_RADIUS - 1
    requires Inside(radius, x, |line|) && average == Average(radius, line, x) && Delayed(buffer, line, x, radius)
    modifies buffer
    ensures Delayed(buffer, line, x + 1, radius)
  {
    hide Average;
    BufferPlaces(x);
    buffer[x % BUFFER_SIZE] := average;
  }

  method Flush(
    image: array<byte>, buffer: array<byte>, start: nat, stride: nat, n: nat, radius: nat, ghost at: seq<nat>,
    ghost line: seq<byte>, ghost before: seq<byte>)
    requires buffer.Length == BUFFER_SIZE && image != buffer && 2 <= radius < MAX_RADIUS - 1
    requires |at| == |line| == n && Places(at, start, stride, image.Length) && |before| == image.Length
    requires |line| - radius + 1 >= 0 ==>
      && Divided(image, at, line, |line| - radius + 1 - BUFFER_SIZE, radius)
      && Delayed(buffer, line, |line| - radius + 1, radius)
    requires OthersKept(image, before, at)
    modifies image
    ensures forall k :: Inside(radius, k, |line|) ==> image[at[k]] == Average(radius, line, k)
    ensures OthersKept(image, before, at)
  {
    hide Average;
    var x := if n + 1 - radius < BUFFER_SIZE then 0 else n + 1 - radius - BUFFER_SIZE;
    while x <= n - radius
      invariant n - radius + 1 >= 0 ==> x <= n - radius + 1 && Divided(image, at, line, x, radius)
      invariant OthersKept(image, before, at)
    {
      assert at[x] == start + x * stride;
      image[start + x * stride] := buffer[x % BUFFER_SIZE];
      x := x + 1;
    }
  }

  /** The pixels that an average needs have not been replaced yet. */
  method AverageAt(
    image: array<byte>, start: nat, stride: nat, x: nat, radius: nat, ghost at: seq<nat>, ghost line: seq<byte>)
    returns (average: byte)
    requires 2 <= radius < MAX_RADIUS - 1 && |at| == |line| && Inside(radius, x, |line|)
    requires Places(at, start, stride, image.Length) && Divided(image, at, line, x - BUFFER_SIZE, radius)
    ensures average == Average(radius, line, x)
  {
    hide Row, Dot;
    var sum := WeightedSum(image, start, stride, x, radius, at, line);
    AverageFits(radius, line[x - radius + 1..x + radius]);
    average := sum / Pow2(2 * radius - 2);
  }

  lemma Untouched(image: array<byte>, buffer: array<byte>, at: seq<nat>, line: seq<byte>, x: nat, radius: nat)
    requires buffer.Length == BUFFER_SIZE && 2 <= radius < MAX_RADIUS - 1 && |at| == |line| && x < radius
    requires forall k :: 0 <= k < |at| ==> at[k] < image.Length && image[at[k]] == line[k]
    ensures Divided(image, at, line, x - BUFFER_SIZE, radius) && Delayed(buffer, line, x, radius)
  {
  }

  /** Blur one line of the image.  An average replaces a pixel only when no other average
      needs the pixel any more. */
  method BlurLine(
    image: array<byte>, buffer: array<byte>, start: nat, stride: nat, n: nat, radius: nat, ghost at: seq<nat>,
    ghost line: seq<byte>)
    requires buffer.Length == BUFFER_SIZE && image != buffer && 2 <= radius < MAX_RADIUS - 1
    requires |at| == |line| == n && Places(at, start, stride, image.Length)
    requires forall k :: 0 <= k < n ==> image[at[k]] == line[k]
    modifies image, buffer
    ensures forall k :: Inside(radius, k, n) ==> image[at[k]] == Average(radius, line, k)
    ensures forall k :: Inside(radius, k, n) ==> IsAverage(image[at[k]], radius, line, k)
    ensures OthersKept(image, old(image[..]), at)
  {
    hide Average, IsAverage, Divided, Delayed;
    ghost var before := image[..];
    var x := radius - 1;
    Untouched(image, buffer, at, line, x, radius);
    if n - radius < x && n + 1 >= radius {
      Untouched(image, buffer, at, line, n + 1 - radius, radius);
    }
    while x <= n - radius
      invariant x == radius - 1 || x <= n - radius + 1
      invariant x == radius - 1 && n - radius < x && n + 1 >= radius ==>
        Divided(image, at, line, n + 1 - radius - BUFFER_SIZE, radius) && Delayed(buffer, line, n + 1 - radius, radius)
      invariant radius - 1 <= x && Divided(image, at, line, x - BUFFER_SIZE, radius) && Delayed(buffer, line, x, radius)
      invariant OthersKept(image, before, at)
    {
      var average := AverageAt(image, start, stride, x, radius, at, line);
      Emit(image, buffer, start, stride, x, radius, at, line, before);
      Remember(buffer, x, average, radius, line);
      x := x + 1;
    }
    Flush(image, buffer, start, stride, n, radius, at, line, before);
    forall k | Inside(radius, k, n)
      ensures IsAverage(image[at[k]], radius, line, k)
    {
      AverageIs(radius, line, k);
    }
  }

  // ----- The image --------------------------------------------------------------------------

  function Place(width: nat, x: nat, y: nat): nat
  {
    y * width + x
  }

  lemma PlaceBound(width: nat, height: nat, x: nat, y: nat)
    requires x < width && y < height
    ensures Place(width, x, y) < height * width
  {
    ProductOrder(height, y + 1, width);
    assert (y + 1) * width == y * width + width;
  }

  lemma PlaceUnique(width: nat, x: nat, y: nat, otherX: nat, otherY: nat)
    requires x < width && otherX < width && Place(width, x, y) == Place(width, otherX, otherY)
    ensures x == otherX && y == otherY
  {
    DivideUnique(Place(width, x, y), width, y, x);
    DivideUnique(Place(width, x, y), width, otherY, otherX);
  }

  function RowPlaces(width: nat, y: nat): (at: seq<nat>)
    ensures |at| == width && forall x :: 0 <= x < width ==> at[x] == Place(width, x, y)
  {
    seq(width, x requires 0 <= x => Place(width, x, y))
  }

  function ColumnPlaces(width: nat, height: nat, x: nat): (at: seq<nat>)
    ensures |at| == height && forall y :: 0 <= y < height ==> at[y] == Place(width, x, y)
  {
    seq(height, y requires 0 <= y => Place(width, x, y))
  }

  function RowOf(pixels: seq<byte>, width: nat, height: nat, y: nat): (line: seq<byte>)
    requires |pixels| == height * width && y < height
    ensures |line| == width && forall x :: 0 <= x < width ==>
      Place(width, x, y) < |pixels| && line[x] == pixels[Place(width, x, y)]
  {
    assert forall x: nat :: x < width ==> Place(width, x, y) < height * width by {
      forall x: nat | x < width { PlaceBound(width, height, x, y); }
    }
    seq(width, x requires 0 <= x < width => pixels[Place(width, x, y)])
  }

  function ColumnOf(pixels: seq<byte>, width: nat, height: nat, x: nat): (line: seq<byte>)
    requires |pixels| == height * width && x < width
    ensures |line| == height && forall y :: 0 <= y < height ==>
      Place(width, x, y) < |pixels| && line[y] == pixels[Place(width, x, y)]
  {
    assert forall y: nat :: y < height ==> Place(width, x, y) < height * width by {
      forall y: nat | y < height { PlaceBound(width, height, x, y); }
    }
    seq(height, y requires 0 <= y < height => pixels[Place(width, x, y)])
  }

  lemma RowPlacesOk(width: nat, height: nat, y: nat)
    requires y < height
    ensures Places(RowPlaces(width, y), Place(width, 0, y), 1, height * width)
  {
    forall x: nat | x < width ensures RowPlaces(width, y)[x] < height * width {
      PlaceBound(width, height, x, y);
    }
  }

  lemma ColumnPlacesOk(width: nat, height: nat, x: nat)
    requires x < width
    ensures Places(ColumnPlaces(width, height, x), x, width, height * width)
  {
    var at := ColumnPlaces(width, height, x);
    forall y: nat | y < height ensures at[y] < height * width {
      PlaceBound(width, height, x, y);
    }
    forall j, k | 0 <= j < k < |at| ensures at[j] != at[k] {
      if at[j] == at[k] {
        PlaceUnique(width, x, j, x, k);
      }
    }
  }

  /** The rows before `y` are blurred, the others are not. */
  ghost predicate RowsBlurred(pixels: seq<byte>, before: seq<byte>, width: nat, height: nat, radius: nat, y: nat)
    requires |pixels| == |before| == height * width && 2 <= radius && y <= height
  {
    forall j :: 0 <= j < height ==>
      if j >= y then RowOf(pixels, width, height, j) == RowOf(before, width, height, j)
      else LineBlurred(RowOf(pixels, width, height, j), RowOf(before, width, height, j), radius)
  }

  ghost predicate ColumnsBlurred(pixels: seq<byte>, before: seq<byte>, width: nat, height: nat, radius: nat, x: nat)
    requires |pixels| == |before| == height * width && 2 <= radius && x <= width
  {
    forall j :: 0 <= j < width ==>
      if j >= x then ColumnOf(pixels, width, height, j) == ColumnOf(before, width, height, j)
      else LineBlurred(ColumnOf(pixels, width, height, j), ColumnOf(before, width, height, j), radius)
  }

  ghost predicate LineBlurred(line: seq<byte>, before: seq<byte>, radius: nat)
    requires |line| == |before| && 2 <= radius
  {
    forall k :: Inside(radius, k, |line|) ==> line[k] == Average(radius, before, k)
  }

  lemma RowStepDone(
    now: seq<byte>, last: seq<byte>, before: seq<byte>, width: nat, height: nat, radius: nat, y: nat)
    requires |now| == |last| == |before| == height * width && 2 <= radius && y < height
    requires RowsBlurred(last, before, width, height, radius, y)
    requires forall p :: 0 <= p < |now| && p !in RowPlaces(width, y) ==> now[p] == last[p]
    requires LineBlurred(RowOf(now, width, height, y), RowOf(before, width, height, y), radius)
    ensures RowsBlurred(now, before, width, height, radius, y + 1)
  {
    hide LineBlurred;
    forall j | 0 <= j < height && j != y ensures RowOf(now, width, height, j) == RowOf(last, width, height, j) {
      forall x | 0 <= x < width ensures RowOf(now, width, height, j)[x] == RowOf(last, width, height, j)[x] {
        if Place(width, x, j) in RowPlaces(width, y) {
          var x' :| 0 <= x' < width && RowPlaces(width, y)[x'] == Place(width, x, j);
          PlaceUnique(width, x, j, x', y);
        }
      }
    }
  }

  lemma ColumnStepDone(
    now: seq<byte>, last: seq<byte>, before: seq<byte>, width: nat, height: nat, radius: nat, x: nat)
    requires |now| == |last| == |before| == height * width && 2 <= radius && x < width
    requires ColumnsBlurred(last, before, width, height, radius, x)
    requires forall p :: 0 <= p < |now| && p !in ColumnPlaces(width, height, x) ==> now[p] == last[p]
    requires LineBlurred(ColumnOf(now, width, height, x), ColumnOf(before, width, height, x), radius)
    ensures ColumnsBlurred(now, before, width, height, radius, x + 1)
  {
    hide LineBlurred;
    forall j | 0 <= j < width && j != x ensures ColumnOf(now, width, height, j) == ColumnOf(last, width, height, j) {
      forall y | 0 <= y < height ensures ColumnOf(now, width, height, j)[y] == ColumnOf(last, width, height, j)[y] {
        if Place(width, j, y) in ColumnPlaces(width, height, x) {
          var y' :| 0 <= y' < height && ColumnPlaces(width, height, x)[y'] == Place(width, j, y);
          PlaceUnique(width, j, y, x, y');
        }
      }
    }
  }

  method BlurRows(image: array<byte>, buffer: array<byte>, width: nat, height: nat, radius: nat)
    requires image.Length == height * width && buffer.Length == BUFFER_SIZE && image != buffer
    requires 2 <= radius < MAX_RADIUS - 1
    modifies image, buffer
    ensures RowsBlurred(image[..], old(image[..]), width, height, radius, height)
  {
    ghost var before := image[..];
    for y := 0 to height
      invariant RowsBlurred(image[..], before, width, height, radius, y)
    {
      hide Average, RowsBlurred;
      ghost var last := image[..];
      ghost var at, line := RowPlaces(width, y), RowOf(last, width, height, y);
      RowPlacesOk(width, height, y);
      RowBefore(last, before, width, height, radius, y);
      BlurLine(image, buffer, y * width, 1, width, radius, at, line);
      RowStepDone(image[..], last, before, width, height, radius, y);
    }
  }

  lemma RowBefore(last: seq<byte>, before: seq<byte>, width: nat, height: nat, radius: nat, y: nat)
    requires |last| == |before| == height * width && 2 <= radius && y < height
    requires RowsBlurred(last, before, width, height, radius, y)
    ensures RowOf(last, width, height, y) == RowOf(before, width, height, y)
  {
  }

  lemma ColumnBefore(last: seq<byte>, before: seq<byte>, width: nat, height: nat, radius: nat, x: nat)
    requires |last| == |before| == height * width && 2 <= radius && x < width
    requires ColumnsBlurred(last, before, width, height, radius, x)
    ensures ColumnOf(last, width, height, x) == ColumnOf(before, width, height, x)
  {
  }

  method BlurColumns(image: array<byte>, buffer: array<byte>, width: nat, height: nat, radius: nat)
    requires image.Length == height * width && buffer.Length == BUFFER_SIZE && image != buffer
    requires 2 <= radius < MAX_RADIUS - 1
    modifies image, buffer
    ensures ColumnsBlurred(image[..], old(image[..]), width, height, radius, width)
  {
    ghost var before := image[..];
    for x := 0 to width
      invariant ColumnsBlurred(image[..], before, width, height, radius, x)
    {
      hide Average, ColumnsBlurred;
      ghost var last := image[..];
      ghost var at, line := ColumnPlaces(width, height, x), ColumnOf(last, width, height, x);
      ColumnPlacesOk(width, height, x);
      ColumnBefore(last, before, width, height, radius, x);
      BlurLine(image, buffer, x, width, height, radius, at, line);
      ColumnStepDone(image[..], last, before, width, height, radius, x);
    }
  }

  // ----- The primitive ----------------------------------------------------------------------

  /** Far enough from the edge; a radius below two means no blurring in that direction. */
  ghost predicate Inner(radius: int, k: int, n: nat)
  {
    0 <= k < n && (radius >= 2 ==> Inside(radius, k, n))
  }

  /** A pixel averaged with its neighbours in the row. */
  ghost function RowAverage(pixels: seq<byte>, width: nat, height: nat, radius: int, x: nat, y: nat): byte
    requires |pixels| == height * width && y < height && Inner(radius, x, width)
  {
    if radius < 2 then RowOf(pixels, width, height, y)[x] else Average(radius, RowOf(pixels, width, height, y), x)
  }

  /** That, averaged again along the column: the blur, without doing it in place. */
  ghost function Blurred(pixels: seq<byte>, width: nat, height: nat, xRadius: int, yRadius: int, x: nat, y: nat): byte
    requires |pixels| == height * width && Inner(xRadius, x, width) && Inner(yRadius, y, height)
  {
    if yRadius < 2 then RowAverage(pixels, width, height, xRadius, x, y)
    else
      Average(yRadius, seq(height, j requires 0 <= j < height => RowAverage(pixels, width, height, xRadius, x, j)), y)
  }

  ghost predicate AfterRows(pixels: seq<byte>, before: seq<byte>, width: nat, height: nat, radius: int)
    requires |pixels| == |before| == height * width
  {
    if radius < 2 then pixels == before else RowsBlurred(pixels, before, width, height, radius, height)
  }

  ghost predicate AfterColumns(pixels: seq<byte>, before: seq<byte>, width: nat, height: nat, radius: int)
    requires |pixels| == |before| == height * width
  {
    if radius < 2 then pixels == before else ColumnsBlurred(pixels, before, width, height, radius, width)
  }

  lemma RowPixel(middle: seq<byte>, before: seq<byte>, width: nat, height: nat, radius: int, x: nat, y: nat)
    requires |middle| == |before| == height * width && AfterRows(middle, before, width, height, radius)
    requires y < height && Inner(radius, x, width)
    ensures Place(width, x, y) < |middle| && middle[Place(width, x, y)] == RowAverage(before, width, height, radius, x, y)
  {
    hide Average;
    PlaceBound(width, height, x, y);
    assert RowOf(middle, width, height, y)[x] == middle[Place(width, x, y)];
  }

  lemma Pixel(
    after: seq<byte>, middle: seq<byte>, before: seq<byte>, width: nat, height: nat, xRadius: int, yRadius: int,
    x: nat, y: nat)
    requires |after| == |middle| == |before| == height * width
    requires AfterRows(middle, before, width, height, xRadius) && AfterColumns(after, middle, width, height, yRadius)
    requires Inner(xRadius, x, width) && Inner(yRadius, y, height)
    ensures Place(width, x, y) < |after|
    ensures after[Place(width, x, y)] == Blurred(before, width, height, xRadius, yRadius, x, y)
  {
    hide Average, AfterRows, RowAverage;
    PlaceBound(width, height, x, y);
    if yRadius < 2 {
      RowPixel(middle, before, width, height, xRadius, x, y);
    } else {
      var column := seq(height, j requires 0 <= j < height => RowAverage(before, width, height, xRadius, x, j));
      forall j | 0 <= j < height ensures ColumnOf(middle, width, height, x)[j] == column[j] {
        RowPixel(middle, before, width, height, xRadius, x, j);
      }
      assert ColumnOf(middle, width, height, x) == column;
      assert ColumnOf(after, width, height, x)[y] == after[Place(width, x, y)];
    }
  }

  datatype Outcome = Ok | OutOfBounds | InvalidArgument

  predicate WholeRows(size: nat, width: int)
  {
    width >= 1 && (size / width) * width == size
  }

  /** The image after blurring.  Pixels that are too close to an edge are meaningless. */
  ghost predicate IsBlur(after: seq<byte>, before: seq<byte>, width: nat, height: nat, xRadius: int, yRadius: int)
    requires |after| == |before| == height * width
  {
    forall x: nat, y: nat :: Inner(xRadius, x, width) && Inner(yRadius, y, height) ==>
      && Place(width, x, y) < |after|
      && after[Place(width, x, y)] == Blurred(before, width, height, xRadius, yRadius, x, y)
  }

  lemma PassesMakeBlur(
    after: seq<byte>, middle: seq<byte>, before: seq<byte>, width: nat, height: nat, xRadius: int, yRadius: int)
    requires |after| == |middle| == |before| == height * width
    requires AfterRows(middle, before, width, height, xRadius) && AfterColumns(after, middle, width, height, yRadius)
    ensures IsBlur(after, before, width, height, xRadius, yRadius)
  {
    hide Blurred, AfterRows, AfterColumns, Inner, Place;
    forall x: nat, y: nat | Inner(xRadius, x, width) && Inner(yRadius, y, height)
      ensures Place(width, x, y) < |after|
      ensures after[Place(width, x, y)] == Blurred(before, width, height, xRadius, yRadius, x, y)
    {
      Pixel(after, middle, before, width, height, xRadius, yRadius, x, y);
    }
  }

  /** After a pass along the rows: the pixels that are not too close to an end are averages. */
  ghost predicate RowsAveraged(after: seq<byte>, before: seq<byte>, width: nat, height: nat, radius: int)
    requires |after| == |before| == height * width
  {
    if radius < 2 then after == before
    else forall x: nat, y: nat :: y < height && Inside(radius, x, width) ==>
      && Place(width, x, y) < |after|
      && IsAverage(after[Place(width, x, y)], radius, RowOf(before, width, height, y), x)
  }

  ghost predicate ColumnsAveraged(after: seq<byte>, before: seq<byte>, width: nat, height: nat, radius: int)
    requires |after| == |before| == height * width
  {
    if radius < 2 then after == before
    else forall x: nat, y: nat :: x < width && Inside(radius, y, height) ==>
      && Place(width, x, y) < |after|
      && IsAverage(after[Place(width, x, y)], radius, ColumnOf(before, width, height, x), y)
  }

  lemma RowsAre(after: seq<byte>, before: seq<byte>, width: nat, height: nat, radius: int)
    requires |after| == |before| == height * width && AfterRows(after, before, width, height, radius)
    ensures RowsAveraged(after, before, width, height, radius)
  {
    hide Average, IsAverage;
    if radius >= 2 {
      forall x: nat, y: nat | y < height && Inside(radius, x, width)
        ensures Place(width, x, y) < |after|
        ensures IsAverage(after[Place(width, x, y)], radius, RowOf(before, width, height, y), x)
      {
        RowPixel(after, before, width, height, radius, x, y);
        AverageIs(radius, RowOf(before, width, height, y), x);
      }
    }
  }

  lemma ColumnsAre(after: seq<byte>, before: seq<byte>, width: nat, height: nat, radius: int)
    requires |after| == |before| == height * width && AfterColumns(after, before, width, height, radius)
    ensures ColumnsAveraged(after, before, width, height, radius)
  {
    hide Average, IsAverage;
    if radius >= 2 {
      forall x: nat, y: nat | x < width && Inside(radius, y, height)
        ensures Place(width, x, y) < |after|
        ensures IsAverage(after[Place(width, x, y)], radius, ColumnOf(before, width, height, x), y)
      {
        PlaceBound(width, height, x, y);
        assert ColumnOf(after, width, height, x)[y] == after[Place(width, x, y)];
        AverageIs(radius, ColumnOf(before, width, height, x), y);
      }
    }
  }

  method BothPasses(image: array<byte>, width: nat, height: nat, xRadius: int, yRadius: int)
    returns (ghost middle: seq<byte>)
    requires image.Length == height * width && xRadius < MAX_RADIUS - 1 && yRadius < MAX_RADIUS - 1
    modifies image
    ensures IsBlur(image[..], old(image[..]), width, height, xRadius, yRadius)
    ensures |middle| == image.Length
    ensures RowsAveraged(middle, old(image[..]), width, height, xRadius)
    ensures ColumnsAveraged(image[..], middle, width, height, yRadius)
  {
    hide IsBlur, RowsBlurred, ColumnsBlurred, RowsAveraged, ColumnsAveraged;
    ghost var before := image[..];
    var buffer := new byte[BUFFER_SIZE](_ => 0);
    if xRadius > 1 {
      BlurRows(image, buffer, width, height, xRadius);
    }
    middle := image[..];
    if yRadius > 1 {
      buffer := new byte[BUFFER_SIZE](_ => 0);
      BlurColumns(image, buffer, width, height, yRadius);
    }
    PassesMakeBlur(image[..], middle, before, width, height, xRadius, yRadius);
    RowsAre(middle, before, width, height, xRadius);
    ColumnsAre(image[..], middle, width, height, yRadius);
  }

  /** The primitive: a blur, or an error and nothing changed. */
  method BytemapBlur(image: array<byte>, width: int, xRadius: int, yRadius: int)
    returns (outcome: Outcome, ghost middle: seq<byte>)
    modifies image
    ensures outcome == InvalidArgument <==>
      WholeRows(image.Length, width) && (xRadius >= 2 || yRadius >= 2) && (xRadius < 0 || yRadius < 0)
    ensures outcome == OutOfBounds <==>
      || !WholeRows(image.Length, width)
      || (xRadius >= 0 && yRadius >= 0 && (xRadius >= MAX_RADIUS - 1 || yRadius >= MAX_RADIUS - 1))
    ensures outcome != Ok ==> image[..] == old(image[..])
    ensures outcome == Ok ==> IsBlur(image[..], old(image[..]), width, image.Length / width, xRadius, yRadius)
    ensures outcome == Ok ==>
      && |middle| == image.Length
      && RowsAveraged(middle, old(image[..]), width, image.Length / width, xRadius)
      && ColumnsAveraged(image[..], middle, width, image.Length / width, yRadius)
  {
    hide IsBlur;
    middle := image[..];
    if width < 1 {
      return OutOfBounds, middle;
    }
    var height := image.Length / width;
    if height * width != image.Length {
      return OutOfBounds, middle;
    }
    if xRadius < 2 && yRadius < 2 {
      NothingToBlur(image[..], width, height, xRadius, yRadius);
      return Ok, middle;
    }
    if xRadius < 0 || yRadius < 0 {
      return InvalidArgument, middle;
    }
    if xRadius >= MAX_RADIUS - 1 || yRadius >= MAX_RADIUS - 1 {
      return OutOfBounds, middle;
    }
    middle := BothPasses(image, width, height, xRadius, yRadius);
    outcome := Ok;
  }

  lemma NothingToBlur(pixels: seq<byte>, width: nat, height: nat, xRadius: int, yRadius: int)
    requires |pixels| == height * width && xRadius < 2 && yRadius < 2
    ensures IsBlur(pixels, pixels, width, height, xRadius, yRadius)
  {
    PassesMakeBlur(pixels, pixels, pixels, width, height, xRadius, yRadius);
  }

  /** The pixel in the middle gets half of its own brightness, and a quarter of each neighbour's. */
  method ThreePixels(left: byte, right: byte) returns (image: array<byte>)
    ensures image.Length == 3 && image[1] == (left as int + 2 * 8 + right as int) / 4
  {
    hide IsBlur, IsAverage, RowsAveraged;
    image := new byte[3][left, 8, right];
    ghost var before := image[..];
    var outcome, middle := BytemapBlur(image, 3, 2, 0);
    assert before == [left, 8, right];
    OnlyRow(middle, before);
    ThreeValues(left, 8, right, image[1]);
  }

  lemma OnlyRow(after: seq<byte>, before: seq<byte>)
    requires |after| == |before| == 3 && RowsAveraged(after, before, 3, 1, 2)
    ensures IsAverage(after[1], 2, before, 1)
  {
    hide IsAverage;
    assert RowOf(before, 3, 1, 0) == before;
    assert Place(3, 1, 0) == 1 && Inside(2, 1, 3);
  }

  lemma ThreeValues(a: byte, b: byte, c: byte, value: byte)
    requires IsAverage(value, 2, [a, b, c], 1)
    ensures value as int == (a as int + 2 * b as int + c as int) / 4
  {
    var line := [a, b, c];
    FirstRows();
    assert line[0..3] == line;
    assert Dot([1, 2, 1], line) == a as int + 2 * b as int + c as int by {
      assert line[..2] == [a, b] && line[..1] == [a] && [a, b][..1] == [a];
      assert [1, 2, 1][..2] == [1, 2] && [1, 2][..1] == [1];
      assert Dot([1], [a]) == 1 * a as nat;
      assert Dot([1, 2], [a, b]) == a as nat + 2 * b as nat;
    }
    assert Pow2(2) == 4;
  }
}
