/** The neck-row scan of `analyse_body_image`: the first row of the body image's alpha plane
    with more than `max(1, int(0.08 w))` opaque pixels, its first and last opaque columns,
    and a proportional fallback when no row qualifies. The ratios the source derives from
    these (divisions by `h` and `w` in floating point) are not part of this model. */
module BodyScan {
  import opened Grids
  import opened Doubles

  /** The integer fields of the metadata. */
  datatype BodyMetrics = BodyMetrics(neckRow: int, neckLeft: int, neckRight: int, bodyWidth: nat, bodyHeight: nat)

  /** The result: the metrics, or the `ZeroDivisionError` that the ratios raise for an image
      without rows or columns. */
  datatype BodyResult = Metrics(metrics: BodyMetrics) | EmptyBody

  /** `alpha[y] > 0`. */
  function Opaque(row: seq<byte>): (r: seq<bool>)
    ensures |r| == |row| && forall x :: 0 <= x < |row| ==> (r[x] <==> row[x] > 0)
  {
    seq(|row|, x requires 0 <= x < |row| => row[x] > 0)
  }

  /** `max(1, int(w * 0.08))`, with 0.08 read as the exact rational 8/100. */
  function Threshold(w: nat): (t: nat)
    ensures t >= 1 && t * 100 <= Max(100, 8 * w) && (8 * w >= 100 ==> 8 * w < (t + 1) * 100)
  {
    Max(1, w * 8 / 100)
  }

  /** Row y has more than the threshold of opaque pixels. */
  predicate Qualifies(alpha: seq<seq<byte>>, y: int, threshold: int)
    requires 0 <= y < |alpha|
  {
    Count(Opaque(alpha[y])) > threshold
  }

  /** The fallback `(int(0.2 h), int(0.35 w), int(0.65 w))`, with the percentages read as
      exact rationals. */
  function Fallback(h: nat, w: nat): (f: (int, int, int))
    ensures f.0 * 100 <= 20 * h < (f.0 + 1) * 100
    ensures f.1 * 100 <= 35 * w < (f.1 + 1) * 100
    ensures f.2 * 100 <= 65 * w < (f.2 + 1) * 100
    ensures w > 0 ==> 0 <= f.1 <= f.2 < w
    ensures h > 0 ==> 0 <= f.0 < h
  {
    (h * 20 / 100, w * 35 / 100, w * 65 / 100)
  }

  /** The fallback as Python computes it, with the products taken in binary64: the double
      0.35 lies below 0.35, which can move `int(0.35 w)` one below 35% of w. Below the
      width bound it is the floor of 35% of w or one less, and lies in the image. */
  function FallbackAsWritten(h: nat, w: nat): (f: (int, int, int))
    ensures f.0 == Fallback(h, w).0 && f.2 == Fallback(h, w).2
    ensures w < WidthBound ==> Fallback(h, w).1 - 1 <= f.1 <= Fallback(h, w).1
    ensures 0 < w < WidthBound ==> 0 <= f.1 <= f.2 < w
  {
    Point35Floor(w);
    (h * 20 / 100, TruncatedProduct(w, Point35, Point35Exp), w * 65 / 100)
  }

  /** For a 180-pixel-wide body the fallback as written puts `neck_left` at 62, one column
      left of 35% of the width. */
  lemma FallbackDiffers(h: nat)
    ensures FallbackAsWritten(h, 180).1 == 62 && Fallback(h, 180).1 == 63
  {
    Width180Counterexample();
  }

  /** What `analyse_body_image` reports for the alpha plane, when no row qualifies taking
      the neck row and columns from `fallback`:
      - an image without rows or columns is the division-by-zero error;
      - otherwise the width and height are reported, and the neck is the first row with more
        than the threshold of opaque pixels, with its first and last opaque columns;
      - when no row qualifies the neck is `fallback`. */
  ghost predicate BodyOutcome(alpha: seq<seq<byte>>, r: BodyResult, fallback: (int, int, int))
    requires Rectangular(alpha)
  {
    && (r.EmptyBody? <==> |alpha| == 0 || Width(alpha) == 0)
    && (r.Metrics? ==> r.metrics.bodyHeight == |alpha| && r.metrics.bodyWidth == Width(alpha))
    && (r.Metrics? && (exists y :: 0 <= y < |alpha| && Qualifies(alpha, y, Threshold(Width(alpha)))) ==>
          NeckAt(alpha, Threshold(Width(alpha)), r.metrics.neckRow, r.metrics.neckLeft, r.metrics.neckRight))
    && (r.Metrics? && (forall y :: 0 <= y < |alpha| ==> !Qualifies(alpha, y, Threshold(Width(alpha)))) ==>
          (r.metrics.neckRow, r.metrics.neckLeft, r.metrics.neckRight) == fallback)
  }

  /** The loop of `analyse_body_image`: the first row with more than `threshold` opaque
      pixels, and its first and last opaque columns. */
  method ScanNeck(alpha: seq<seq<byte>>, threshold: nat) returns (found: bool, neckRow: int, neckLeft: int, neckRight: int)
    ensures found ==> NeckAt(alpha, threshold, neckRow, neckLeft, neckRight)
    ensures !found ==> forall y :: 0 <= y < |alpha| ==> !Qualifies(alpha, y, threshold)
  {
    found := false;
    neckRow, neckLeft, neckRight := 0, 0, 0;
    for y := 0 to |alpha|
      invariant !found ==> forall k :: 0 <= k < y ==> !Qualifies(alpha, k, threshold)
      invariant found ==> NeckAt(alpha, threshold, neckRow, neckLeft, neckRight)
    {
      var xs := Where(Opaque(alpha[y]));
      CountWhere(Opaque(alpha[y]));
      if |xs| > threshold {
        neckRow, neckLeft, neckRight := y, xs[0], xs[|xs| - 1];
        NeckFound(alpha, threshold, y);
        found := true;
        break;
      }
    }
  }

  /** `analyse_body_image` as written: the fallback takes `int(w * 0.35)` in binary64. */
  method AnalyseBody(alpha: seq<seq<byte>>) returns (r: BodyResult)
    requires Rectangular(alpha)
    ensures BodyOutcome(alpha, r, FallbackAsWritten(|alpha|, Width(alpha)))
    ensures r.Metrics? && Width(alpha) < WidthBound ==>
      0 <= r.metrics.neckRow < |alpha| && 0 <= r.metrics.neckLeft <= r.metrics.neckRight < Width(alpha)
  {
    var h, w := |alpha|, Width(alpha);
    var found, neckRow, neckLeft, neckRight := ScanNeck(alpha, Threshold(w));
    if !found {
      var f := FallbackAsWritten(h, w);
      neckRow, neckLeft, neckRight := f.0, f.1, f.2;
    }
    if h == 0 || w == 0 {
      return EmptyBody;
    }
    r := Metrics(BodyMetrics(neckRow, neckLeft, neckRight, w, h));
    if found {
      NeckInImage(alpha, Threshold(w), neckRow, neckLeft, neckRight);
    }
  }

  /** `analyse_body_image` with the intended fallback: the floor of 35% of w. */
  method AnalyseBodyCorrected(alpha: seq<seq<byte>>) returns (r: BodyResult)
    requires Rectangular(alpha)
    ensures BodyOutcome(alpha, r, Fallback(|alpha|, Width(alpha)))
    ensures r.Metrics? ==>
      0 <= r.metrics.neckRow < |alpha| && 0 <= r.metrics.neckLeft <= r.metrics.neckRight < Width(alpha)
  {
    var h, w := |alpha|, Width(alpha);
    var found, neckRow, neckLeft, neckRight := ScanNeck(alpha, Threshold(w));
    if !found {
      var f := Fallback(h, w);
      neckRow, neckLeft, neckRight := f.0, f.1, f.2;
    }
    if h == 0 || w == 0 {
      return EmptyBody;
    }
    r := Metrics(BodyMetrics(neckRow, neckLeft, neckRight, w, h));
    if found {
      NeckInImage(alpha, Threshold(w), neckRow, neckLeft, neckRight);
    }
  }

  /** The neck found by the scan lies in the image, left of or at its right column. */
  lemma NeckInImage(alpha: seq<seq<byte>>, threshold: nat, y: int, left: int, right: int)
    requires Rectangular(alpha) && NeckAt(alpha, threshold, y, left, right)
    ensures 0 <= y < |alpha| && 0 <= left <= right < Width(alpha)
  {
    var s := Opaque(alpha[y]);
    assert |s| == Width(alpha);
    assert s[left] && s[right];
  }

  /** Row `y` is the first qualifying row and `left`, `right` are its first and last opaque
      columns. */
  ghost predicate NeckAt(alpha: seq<seq<byte>>, threshold: int, y: int, left: int, right: int) {
    && 0 <= y < |alpha|
    && Qualifies(alpha, y, threshold)
    && (forall k :: 0 <= k < y ==> !Qualifies(alpha, k, threshold))
    && true in Opaque(alpha[y])
    && left == First(Opaque(alpha[y])) && right == Last(Opaque(alpha[y]))
    && right - left + 1 > threshold
  }

  /** The first row with more than `threshold` opaque pixels gives its `xs[0]` and `xs[-1]`,
      and these span more than `threshold` columns. */
  lemma NeckFound(alpha: seq<seq<byte>>, threshold: int, y: int)
    requires 0 <= y < |alpha| && Qualifies(alpha, y, threshold) && threshold >= 0
    requires forall k :: 0 <= k < y ==> !Qualifies(alpha, k, threshold)
    ensures var xs := Where(Opaque(alpha[y]));
      |xs| > 0 && NeckAt(alpha, threshold, y, xs[0], xs[|xs| - 1])
  {
    var s := Opaque(alpha[y]);
    assert true in s by {
      if !(true in s) {
        assert Count(s) == 0 by { CountNone(s); }
      }
    }
    WhereEnds(s);
    CountSpan(s);
  }

  /** A row with no opaque pixel has count 0. */
  lemma {:induction false} CountNone(s: seq<bool>)
    requires !(true in s)
    ensures Count(s) == 0
  {
    if |s| > 0 {
      assert s[..|s| - 1] <= s;
      CountNone(s[..|s| - 1]);
    }
  }
}
