/** The spatial hotspot filter of monitoring.py (`get_max_temp_filtered`). */
module MonitoringDetector {
  import opened Grid
  import opened Stats

  /** Value returned for the maximum and the average when no pixel qualifies. */
  const Sentinel: real := -100.0

  /** Pixel i is hotter than `threshold` and at least two of its in-grid four-neighbours are
      hotter than `threshold - 5.0`. */
  predicate IsHotspot(frame: seq<real>, threshold: real, i: nat)
    requires |frame| == FrameSize && i < FrameSize
  {
    frame[i] > threshold && WarmNeighbors(frame, threshold - 5.0, i % Width, i / Width) >= 2
  }

  /** Values of the hotspot pixels among the first n, in row-major order (`hot_pixels_list`). */
  function HotValues(frame: seq<real>, threshold: real, n: nat): (hot: seq<real>)
    requires |frame| == FrameSize && n <= FrameSize
    ensures |hot| <= n
  {
    if n == 0 then []
    else HotValues(frame, threshold, n - 1) + (if IsHotspot(frame, threshold, n - 1) then [frame[n - 1]] else [])
  }

  /** Positions of the hotspot pixels among the first n. */
  function HotIndices(frame: seq<real>, threshold: real, n: nat): set<nat>
    requires |frame| == FrameSize && n <= FrameSize
  {
    set i: nat | i < n && IsHotspot(frame, threshold, i)
  }

  /** The triple `(max_detected, hot_count, avg_hot)`. */
  datatype Reading = Reading(maxTemp: real, hotCount: nat, avgHot: real)

  /** What the detector returns for a frame. */
  function Filtered(frame: seq<real>, threshold: real): Reading
    requires |frame| == FrameSize
  {
    var hot := HotValues(frame, threshold, FrameSize);
    Reading(RunningMax(Sentinel, hot), |hot|, if hot != [] then Mean(hot) else Sentinel)
  }

  /** A value is in the hot list iff it is the value of a hotspot pixel. */
  lemma {:induction false} HotValuesAreHotspots(frame: seq<real>, threshold: real, n: nat)
    requires |frame| == FrameSize && n <= FrameSize
    ensures forall i :: 0 <= i < n && IsHotspot(frame, threshold, i) ==> frame[i] in HotValues(frame, threshold, n)
    ensures forall v :: v in HotValues(frame, threshold, n) ==>
      exists i :: 0 <= i < n && IsHotspot(frame, threshold, i) && frame[i] == v
  {
    if n > 0 {
      HotValuesAreHotspots(frame, threshold, n - 1);
      var p := HotValues(frame, threshold, n - 1);
      assert HotValues(frame, threshold, n) == p + (if IsHotspot(frame, threshold, n - 1) then [frame[n - 1]] else []);
    }
  }

  /** Every hot value exceeds the threshold. */
  lemma HotValuesAboveThreshold(frame: seq<real>, threshold: real, n: nat)
    requires |frame| == FrameSize && n <= FrameSize
    ensures forall k :: 0 <= k < |HotValues(frame, threshold, n)| ==> HotValues(frame, threshold, n)[k] > threshold
  {
    HotValuesAreHotspots(frame, threshold, n);
    var hot := HotValues(frame, threshold, n);
    forall k | 0 <= k < |hot| ensures hot[k] > threshold {
      assert hot[k] in hot;
    }
  }

  /** The length of the hot list is the number of hotspot pixels. */
  lemma {:induction false} HotCountIsNumberOfHotspots(frame: seq<real>, threshold: real, n: nat)
    requires |frame| == FrameSize && n <= FrameSize
    ensures |HotValues(frame, threshold, n)| == |HotIndices(frame, threshold, n)|
  {
    if n > 0 {
      HotCountIsNumberOfHotspots(frame, threshold, n - 1);
      CardinalityStep(HotIndices(frame, threshold, n - 1), HotIndices(frame, threshold, n), n - 1, IsHotspot(frame, threshold, n - 1));
    }
  }

  /** Scans the frame row by row, keeping a running maximum and the list of hotspot values. */
  method GetMaxTempFiltered(frame: seq<real>, threshold: real) returns (maxDetected: real, hotCount: nat, avgHot: real)
    requires |frame| == FrameSize
    ensures Reading(maxDetected, hotCount, avgHot) == Filtered(frame, threshold)
    ensures hotCount == |HotIndices(frame, threshold, FrameSize)| <= FrameSize
    ensures maxDetected >= Sentinel
    ensures forall i :: 0 <= i < FrameSize && IsHotspot(frame, threshold, i) ==> frame[i] <= maxDetected
    ensures maxDetected == Sentinel || exists i :: 0 <= i < FrameSize && IsHotspot(frame, threshold, i) && frame[i] == maxDetected
    ensures hotCount == 0 ==> maxDetected == Sentinel && avgHot == Sentinel
    ensures hotCount > 0 ==> threshold < avgHot <= maxDetected
  {
    maxDetected := Sentinel;
    var hotPixels: seq<real> := [];
    var y := 0;
    while y < Height
      invariant 0 <= y <= Height
      invariant hotPixels == HotValues(frame, threshold, y * Width)
      invariant maxDetected == RunningMax(Sentinel, hotPixels)
    {
      var x := 0;
      while x < Width
        invariant 0 <= x <= Width
        invariant hotPixels == HotValues(frame, threshold, y * Width + x)
        invariant maxDetected == RunningMax(Sentinel, hotPixels)
      {
        var index := y * Width + x;
        IndexCoordinates(x, y);
        var val := frame[index];
        if val > threshold {
          var hotNeighbors := CountWarmNeighbors(frame, threshold - 5.0, x, y);
          if hotNeighbors >= 2 {
            if val > maxDetected {
              maxDetected := val;
            }
            hotPixels := hotPixels + [val];
          }
        }
        x := x + 1;
      }
      y := y + 1;
    }
    avgHot := if hotPixels != [] then Sum(hotPixels) / (|hotPixels| as real) else Sentinel;
    hotCount := |hotPixels|;

    HotCountIsNumberOfHotspots(frame, threshold, FrameSize);
    HotValuesAreHotspots(frame, threshold, FrameSize);
    HotValuesAboveThreshold(frame, threshold, FrameSize);
    RunningMaxIsMaximum(Sentinel, hotPixels);
    forall i | 0 <= i < FrameSize && IsHotspot(frame, threshold, i) ensures frame[i] <= maxDetected {
      assert frame[i] in hotPixels;
    }
    if hotPixels != [] {
      MeanBetween(hotPixels, threshold, maxDetected);
    }
  }

  /** Pixel (x, y) is a hotspot iff it exceeds the threshold and at least two of its in-grid
      direct neighbours exceed `threshold - 5.0`. */
  lemma HotspotIffTwoWarmNeighbours(frame: seq<real>, threshold: real, x: int, y: int)
    requires |frame| == FrameSize && InGrid(x, y)
    ensures IsHotspot(frame, threshold, Index(x, y)) <==>
      frame[Index(x, y)] > threshold && |WarmSet(frame, threshold - 5.0, x, y)| >= 2
  {
    IndexCoordinates(x, y);
    WarmNeighborsIsWarmSetSize(frame, threshold - 5.0, x, y);
  }

  /** A pixel none of whose in-grid direct neighbours exceeds `threshold - 5.0` is never a
      hotspot, however hot it is. */
  lemma IsolatedPixelIsNotHotspot(frame: seq<real>, threshold: real, x: int, y: int)
    requires |frame| == FrameSize && InGrid(x, y)
    requires forall nx, ny :: Adjacent(x, y, nx, ny) && InGrid(nx, ny) ==> frame[Index(nx, ny)] <= threshold - 5.0
    ensures !IsHotspot(frame, threshold, Index(x, y))
  {
    IndexCoordinates(x, y);
    WarmNeighborsPositiveIff(frame, threshold - 5.0, x, y);
  }

  /** A corner pixel has two in-grid neighbours, so it is a hotspot iff it exceeds the
      threshold and both of them are warm. */
  lemma CornerNeedsBothNeighbours(frame: seq<real>, threshold: real, x: int, y: int)
    requires |frame| == FrameSize
    requires (x == 0 || x == Width - 1) && (y == 0 || y == Height - 1)
    ensures var hx := if x == 0 then 1 else Width - 2;
            var vy := if y == 0 then 1 else Height - 2;
            IsHotspot(frame, threshold, Index(x, y)) <==>
              frame[Index(x, y)] > threshold && frame[Index(hx, y)] > threshold - 5.0 && frame[Index(x, vy)] > threshold - 5.0
  {
    IndexCoordinates(x, y);
    WarmNeighborsUnfold(frame, threshold - 5.0, x, y);
  }

  /** A pixel above the threshold with a warm horizontal and a warm vertical neighbour is
      a hotspot. */
  lemma WarmCornerMakesHotspot(frame: seq<real>, threshold: real, x: int, y: int, hx: int, vy: int)
    requires |frame| == FrameSize && InGrid(x, y) && frame[Index(x, y)] > threshold
    requires (hx == x + 1 || hx == x - 1) && InGrid(hx, y) && frame[Index(hx, y)] > threshold - 5.0
    requires (vy == y + 1 || vy == y - 1) && InGrid(x, vy) && frame[Index(x, vy)] > threshold - 5.0
    ensures IsHotspot(frame, threshold, Index(x, y))
  {
    IndexCoordinates(x, y);
    WarmNeighborsUnfold(frame, threshold - 5.0, x, y);
    var w := threshold - 5.0;
    assert WarmAt(frame, w, x, y, if hx == x + 1 then 0 else 1);
    assert WarmAt(frame, w, x, y, if vy == y + 1 then 2 else 3);
  }

  /** Every pixel of a 2 x 2 block hotter than the threshold is a hotspot. */
  lemma TwoByTwoBlockQualifies(frame: seq<real>, threshold: real, x: int, y: int)
    requires |frame| == FrameSize && InGrid(x, y) && InGrid(x + 1, y + 1)
    requires frame[Index(x, y)] > threshold && frame[Index(x + 1, y)] > threshold
    requires frame[Index(x, y + 1)] > threshold && frame[Index(x + 1, y + 1)] > threshold
    ensures IsHotspot(frame, threshold, Index(x, y)) && IsHotspot(frame, threshold, Index(x + 1, y))
    ensures IsHotspot(frame, threshold, Index(x, y + 1)) && IsHotspot(frame, threshold, Index(x + 1, y + 1))
  {
    WarmCornerMakesHotspot(frame, threshold, x, y, x + 1, y + 1);
    WarmCornerMakesHotspot(frame, threshold, x + 1, y, x, y + 1);
    WarmCornerMakesHotspot(frame, threshold, x, y + 1, x + 1, y);
    WarmCornerMakesHotspot(frame, threshold, x + 1, y + 1, x, y);
  }
}
