/** Images as rectangular grids of pixel values (rows are Y, columns are X),
    the pupil mask computed from an image, a threshold and a region, and the
    two-level "flat" image built from a mask. */
module Masks {
  import opened Results

  function Width<T>(g: seq<seq<T>>): nat {
    if |g| == 0 then 0 else |g[0]|
  }

  predicate Rectangular<T>(g: seq<seq<T>>) {
    forall y :: 0 <= y < |g| ==> |g[y]| == Width(g)
  }

  /** A 2-D image: every row has the same length. */
  type Grid = g: seq<seq<real>> | Rectangular(g)

  predicate SameShape<A, B>(a: seq<seq<A>>, b: seq<seq<B>>) {
    |a| == |b| && forall y :: 0 <= y < |a| ==> |a[y]| == |b[y]|
  }

  /** The region `[[x0, y0], [x1, y1]]` inside which pixels may be selected. */
  datatype Region = Region(x0: real, y0: real, x1: real, y1: real)

  /** `X` of `numpy.meshgrid(range(w), range(h))`: every pixel holds its column. */
  function MeshX(h: nat, w: nat): (X: Grid)
    ensures |X| == h && forall y :: 0 <= y < h ==> |X[y]| == w
    ensures forall y, x :: 0 <= y < h && 0 <= x < w ==> X[y][x] == x as real
  {
    seq(h, y => seq(w, x => x as real))
  }

  /** `Y` of `numpy.meshgrid(range(w), range(h))`: every pixel holds its row. */
  function MeshY(h: nat, w: nat): (Y: Grid)
    ensures |Y| == h && forall y :: 0 <= y < h ==> |Y[y]| == w
    ensures forall y, x :: 0 <= y < h && 0 <= x < w ==> Y[y][x] == y as real
  {
    seq(h, y => seq(w, x => y as real))
  }

  /** The element-wise comparison `a > c`. */
  function Above(a: seq<seq<real>>, c: real): (m: seq<seq<bool>>)
    ensures SameShape(m, a)
    ensures forall y, x :: 0 <= y < |a| && 0 <= x < |a[y]| ==> (m[y][x] <==> a[y][x] > c)
  {
    seq(|a|, y requires 0 <= y < |a| => seq(|a[y]|, x requires 0 <= x < |a[y]| => a[y][x] > c))
  }

  /** The element-wise comparison `a < c`. */
  function Below(a: seq<seq<real>>, c: real): (m: seq<seq<bool>>)
    ensures SameShape(m, a)
    ensures forall y, x :: 0 <= y < |a| && 0 <= x < |a[y]| ==> (m[y][x] <==> a[y][x] < c)
  {
    seq(|a|, y requires 0 <= y < |a| => seq(|a[y]|, x requires 0 <= x < |a[y]| => a[y][x] < c))
  }

  /** The element-wise product `a * b` of two boolean arrays of one shape. */
  function Times(a: seq<seq<bool>>, b: seq<seq<bool>>): (m: seq<seq<bool>>)
    requires SameShape(a, b)
    ensures SameShape(m, a)
    ensures forall y, x :: 0 <= y < |a| && 0 <= x < |a[y]| ==> (m[y][x] <==> a[y][x] && b[y][x])
  {
    seq(|a|, y requires 0 <= y < |a| => seq(|a[y]|, x requires 0 <= x < |a[y]| => a[y][x] && b[y][x]))
  }

  /** Whether pixel (x, y) lies strictly inside the region. */
  predicate Inside(r: Region, x: int, y: int) {
    r.x0 < x as real < r.x1 && r.y0 < y as real < r.y1
  }

  /** The pupil mask: `(data > t) * (X > x0) * (X < x1) * (Y > y0) * (Y < y1)`.
      It has the shape of the image, and a pixel is selected exactly when its
      value is above the threshold and it lies strictly inside the region. */
  function Mask(d: Grid, t: real, r: Region): (m: seq<seq<bool>>)
    ensures SameShape(m, d) && Rectangular(m)
    ensures forall y, x :: 0 <= y < |d| && 0 <= x < |d[y]| ==>
              (m[y][x] <==> d[y][x] > t && Inside(r, x, y))
  {
    var X := MeshX(|d|, Width(d));
    var Y := MeshY(|d|, Width(d));
    Times(Times(Times(Times(Above(d, t), Above(X, r.x0)), Below(X, r.x1)), Above(Y, r.y0)), Below(Y, r.y1))
  }

  /** A pixel on an edge of the region is never selected, whatever its value. */
  lemma MaskExcludesEdges(d: Grid, t: real, r: Region, y: nat, x: nat)
    requires y < |d| && x < |d[y]|
    requires x as real == r.x0 || x as real == r.x1 || y as real == r.y0 || y as real == r.y1
    ensures !Mask(d, t, r)[y][x]
  {
  }

  /** Raising the threshold, the region fixed, never selects a new pixel. */
  lemma MaskAntitone(d: Grid, t1: real, t2: real, r: Region)
    requires t1 <= t2
    ensures forall y, x :: 0 <= y < |d| && 0 <= x < |d[y]| && Mask(d, t2, r)[y][x] ==> Mask(d, t1, r)[y][x]
  {
  }

  /** The number of selected pixels in a row and in a mask. */
  function RowCount(row: seq<bool>): nat {
    if row == [] then 0 else (if row[0] then 1 else 0) + RowCount(row[1..])
  }

  function Count(m: seq<seq<bool>>): nat {
    if m == [] then 0 else RowCount(m[0]) + Count(m[1..])
  }

  lemma {:induction false} RowCountMonotone(a: seq<bool>, b: seq<bool>)
    requires |a| == |b| && forall x :: 0 <= x < |a| && a[x] ==> b[x]
    ensures RowCount(a) <= RowCount(b)
  {
    if a != [] {
      RowCountMonotone(a[1..], b[1..]);
    }
  }

  /** A mask whose every selected pixel is selected in another mask of the
      same shape has no more selected pixels. */
  lemma {:induction false} CountMonotone(a: seq<seq<bool>>, b: seq<seq<bool>>)
    requires SameShape(a, b)
    requires forall y, x :: 0 <= y < |a| && 0 <= x < |a[y]| && a[y][x] ==> b[y][x]
    ensures Count(a) <= Count(b)
  {
    if a != [] {
      RowCountMonotone(a[0], b[0]);
      assert forall y, x :: 0 <= y < |a| - 1 && 0 <= x < |a[1..][y]| && a[1..][y][x] ==> b[1..][y][x] by {
        forall y, x | 0 <= y < |a| - 1 && 0 <= x < |a[1..][y]| && a[1..][y][x] ensures b[1..][y][x] {
          assert a[1..][y] == a[y + 1] && b[1..][y] == b[y + 1];
        }
      }
      CountMonotone(a[1..], b[1..]);
    }
  }

  /** Raising the threshold never increases the number of selected pixels. */
  lemma MaskCountAntitone(d: Grid, t1: real, t2: real, r: Region)
    requires t1 <= t2
    ensures Count(Mask(d, t2, r)) <= Count(Mask(d, t1, r))
  {
    MaskAntitone(d, t1, t2, r);
    CountMonotone(Mask(d, t2, r), Mask(d, t1, r));
  }

  /** The sum of the pixel values a mask selects, row by row (`img[mask].sum()`). */
  function RowSum(row: seq<real>, sel: seq<bool>): real
    requires |row| == |sel|
  {
    if row == [] then 0.0 else (if sel[0] then row[0] else 0.0) + RowSum(row[1..], sel[1..])
  }

  function MaskedSum(d: seq<seq<real>>, m: seq<seq<bool>>): real
    requires SameShape(d, m)
  {
    if d == [] then 0.0 else RowSum(d[0], m[0]) + MaskedSum(d[1..], m[1..])
  }

  /** Every pixel the mask selects holds a value above `t`. */
  predicate SelectedAbove(d: seq<seq<real>>, m: seq<seq<bool>>, t: real)
    requires SameShape(d, m)
  {
    forall y, x :: 0 <= y < |d| && 0 <= x < |d[y]| && m[y][x] ==> d[y][x] > t
  }

  /** How far the selected pixels rise above `t`, summed. */
  function RowExcess(row: seq<real>, sel: seq<bool>, t: real): real
    requires |row| == |sel|
  {
    if row == [] then 0.0 else (if sel[0] then row[0] - t else 0.0) + RowExcess(row[1..], sel[1..], t)
  }

  function Excess(d: seq<seq<real>>, m: seq<seq<bool>>, t: real): real
    requires SameShape(d, m)
  {
    if d == [] then 0.0 else RowExcess(d[0], m[0], t) + Excess(d[1..], m[1..], t)
  }

  /** `t` summed once per selected pixel. */
  function RowTimes(sel: seq<bool>, t: real): real {
    if sel == [] then 0.0 else (if sel[0] then t else 0.0) + RowTimes(sel[1..], t)
  }

  function AllTimes(m: seq<seq<bool>>, t: real): real {
    if m == [] then 0.0 else RowTimes(m[0], t) + AllTimes(m[1..], t)
  }

  lemma Distributes(t: real, a: real, b: real)
    ensures t * (a + b) == t * a + t * b
  {
  }

  lemma {:induction false} RowTimesProduct(sel: seq<bool>, t: real)
    ensures RowTimes(sel, t) == t * RowCount(sel) as real
  {
    if sel != [] {
      RowTimesProduct(sel[1..], t);
      Distributes(t, if sel[0] then 1.0 else 0.0, RowCount(sel[1..]) as real);
    }
  }

  lemma {:induction false} TimesProduct(m: seq<seq<bool>>, t: real)
    ensures AllTimes(m, t) == t * Count(m) as real
  {
    if m != [] {
      RowTimesProduct(m[0], t);
      TimesProduct(m[1..], t);
      Distributes(t, RowCount(m[0]) as real, Count(m[1..]) as real);
    }
  }

  lemma {:induction false} RowExcessSplit(row: seq<real>, sel: seq<bool>, t: real)
    requires |row| == |sel|
    ensures RowSum(row, sel) == RowExcess(row, sel, t) + RowTimes(sel, t)
  {
    if row != [] {
      RowExcessSplit(row[1..], sel[1..], t);
    }
  }

  lemma {:induction false} ExcessSplit(d: seq<seq<real>>, m: seq<seq<bool>>, t: real)
    requires SameShape(d, m)
    ensures MaskedSum(d, m) == Excess(d, m, t) + AllTimes(m, t)
  {
    if d != [] {
      SameShapeTail(d, m);
      RowExcessSplit(d[0], m[0], t);
      ExcessSplit(d[1..], m[1..], t);
    }
  }

  lemma SameShapeTail<A, B>(a: seq<seq<A>>, b: seq<seq<B>>)
    requires SameShape(a, b) && a != []
    ensures SameShape(a[1..], b[1..]) && |a[0]| == |b[0]|
  {
    forall y | 0 <= y < |a| - 1 ensures |a[1..][y]| == |b[1..][y]| {
      assert a[1..][y] == a[y + 1] && b[1..][y] == b[y + 1];
    }
  }

  lemma {:induction false} RowExcessPositive(row: seq<real>, sel: seq<bool>, t: real)
    requires |row| == |sel|
    requires forall x :: 0 <= x < |row| && sel[x] ==> row[x] > t
    ensures RowExcess(row, sel, t) >= 0.0
    ensures RowCount(sel) > 0 ==> RowExcess(row, sel, t) > 0.0
  {
    if row != [] {
      RowExcessPositive(row[1..], sel[1..], t);
    }
  }

  lemma SelectedAboveTail(d: seq<seq<real>>, m: seq<seq<bool>>, t: real)
    requires SameShape(d, m) && SelectedAbove(d, m, t) && d != []
    ensures SameShape(d[1..], m[1..]) && SelectedAbove(d[1..], m[1..], t)
    ensures forall x :: 0 <= x < |d[0]| && m[0][x] ==> d[0][x] > t
  {
    forall y, x | 0 <= y < |d| - 1 && 0 <= x < |d[1..][y]| && m[1..][y][x] ensures d[1..][y][x] > t {
      assert d[1..][y] == d[y + 1] && m[1..][y] == m[y + 1];
    }
  }

  /** The selected pixels, all above `t`, rise above it by a positive total
      when there is at least one. */
  lemma {:induction false} ExcessPositive(d: seq<seq<real>>, m: seq<seq<bool>>, t: real)
    requires SameShape(d, m) && SelectedAbove(d, m, t)
    ensures Excess(d, m, t) >= 0.0
    ensures Count(m) > 0 ==> Excess(d, m, t) > 0.0
  {
    if d != [] {
      SelectedAboveTail(d, m, t);
      RowExcessPositive(d[0], m[0], t);
      ExcessPositive(d[1..], m[1..], t);
    }
  }

  /** The pixels a mask selects from an image, all above `t`, sum to more
      than `t` times their number when there is at least one. */
  lemma MaskedSumAbove(d: seq<seq<real>>, m: seq<seq<bool>>, t: real)
    requires SameShape(d, m) && SelectedAbove(d, m, t)
    ensures Count(m) > 0 ==> MaskedSum(d, m) - t * Count(m) as real > 0.0
  {
    ExcessSplit(d, m, t);
    ExcessPositive(d, m, t);
    TimesProduct(m, t);
  }

  lemma QuotientAbove(s: real, n: real, t: real)
    requires n > 0.0 && s - t * n > 0.0
    ensures s / n > t
  {
    var q := s / n;
    assert q * n == s;
    assert (q - t) * n == s - t * n;
  }

  /** The mean of the selected pixels, `img[mask].mean()`; none when the mask
      selects nothing. */
  function MaskedMean(d: seq<seq<real>>, m: seq<seq<bool>>): (r: Option<real>)
    requires SameShape(d, m)
    ensures r.None? <==> Count(m) == 0
    ensures r.Some? ==> r.value * Count(m) as real == MaskedSum(d, m)
  {
    if Count(m) == 0 then None else Some(MaskedSum(d, m) / Count(m) as real)
  }

  /** The mean of the pixels a mask selects lies above the threshold that
      selected them. */
  lemma MaskedMeanAboveThreshold(d: Grid, t: real, r: Region)
    requires Count(Mask(d, t, r)) > 0
    ensures MaskedMean(d, Mask(d, t, r)).Some? && MaskedMean(d, Mask(d, t, r)).value > t
  {
    var m := Mask(d, t, r);
    MaskedSumAbove(d, m, t);
    QuotientAbove(MaskedSum(d, m), Count(m) as real, t);
  }

  /** The two-level image: `flux` where the mask selects, `bckg` elsewhere. */
  function Flat(m: seq<seq<bool>>, flux: real, bckg: real): (g: seq<seq<real>>)
    ensures SameShape(g, m) && (Rectangular(m) ==> Rectangular(g))
    ensures forall y, x :: 0 <= y < |m| && 0 <= x < |m[y]| ==> g[y][x] == if m[y][x] then flux else bckg
  {
    seq(|m|, y requires 0 <= y < |m| => seq(|m[y]|, x requires 0 <= x < |m[y]| => if m[y][x] then flux else bckg))
  }

  /** The flat image of a mask, with `flux` above the threshold and `bckg` at
      or below it, is detected again as exactly the same mask. */
  lemma FlatRedetected(d: Grid, t: real, r: Region, flux: real, bckg: real)
    requires bckg <= t < flux
    ensures Rectangular(Flat(Mask(d, t, r), flux, bckg))
    ensures Mask(Flat(Mask(d, t, r), flux, bckg), t, r) == Mask(d, t, r)
  {
    var m := Mask(d, t, r);
    var f: Grid := Flat(m, flux, bckg);
    var m2 := Mask(f, t, r);
    forall y | 0 <= y < |d| ensures m2[y] == m[y] {
      assert |m2[y]| == |m[y]|;
      forall x | 0 <= x < |d[y]| ensures m2[y][x] == m[y][x] {
      }
    }
  }
}
