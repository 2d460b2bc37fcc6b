/** The earlier spatial filter of code_V1.py (`get_max_temp_filtered`): a running maximum
    over the pixels that have at least one warm neighbour. */
module V1Detector {
  import opened Grid
  import opened Stats

  /** Value returned when no pixel with a warm neighbour exceeds it. */
  const Sentinel: real := -100.0

  /** Pixel i has at least one in-grid four-neighbour hotter than `threshold - 5.0`. */
  predicate Supported(frame: seq<real>, threshold: real, i: nat)
    requires |frame| == FrameSize && i < FrameSize
  {
    WarmNeighbors(frame, threshold - 5.0, i % Width, i / Width) >= 1
  }

  /** Values of the supported pixels among the first n, in row-major order. */
  function SupportedValues(frame: seq<real>, threshold: real, n: nat): (vs: seq<real>)
    requires |frame| == FrameSize && n <= FrameSize
    ensures |vs| <= n
  {
    if n == 0 then []
    else SupportedValues(frame, threshold, n - 1) + (if Supported(frame, threshold, n - 1) then [frame[n - 1]] else [])
  }

  /** What the detector returns for a frame. */
  function Filtered(frame: seq<real>, threshold: real): real
    requires |frame| == FrameSize
  {
    RunningMax(Sentinel, SupportedValues(frame, threshold, FrameSize))
  }

  /** A value is among the supported values iff it is the value of a supported pixel. */
  lemma {:induction false} SupportedValuesAreSupported(frame: seq<real>, threshold: real, n: nat)
    requires |frame| == FrameSize && n <= FrameSize
    ensures forall i :: 0 <= i < n && Supported(frame, threshold, i) ==> frame[i] in SupportedValues(frame, threshold, n)
    ensures forall v :: v in SupportedValues(frame, threshold, n) ==>
      exists i :: 0 <= i < n && Supported(frame, threshold, i) && frame[i] == v
  {
    if n > 0 {
      SupportedValuesAreSupported(frame, threshold, n - 1);
      var p := SupportedValues(frame, threshold, n - 1);
      assert SupportedValues(frame, threshold, n) == p + (if Supported(frame, threshold, n - 1) then [frame[n - 1]] else []);
    }
  }

  /** The detector's result is max(-100.0, largest supported value): it bounds every
      supported pixel and is the sentinel or the value of a supported pixel. */
  lemma FilteredIsMaximum(frame: seq<real>, threshold: real)
    requires |frame| == FrameSize
    ensures Filtered(frame, threshold) >= Sentinel
    ensures forall i :: 0 <= i < FrameSize && Supported(frame, threshold, i) ==> frame[i] <= Filtered(frame, threshold)
    ensures Filtered(frame, threshold) == Sentinel ||
      exists i :: 0 <= i < FrameSize && Supported(frame, threshold, i) && frame[i] == Filtered(frame, threshold)
  {
    var vs := SupportedValues(frame, threshold, FrameSize);
    SupportedValuesAreSupported(frame, threshold, FrameSize);
    RunningMaxIsMaximum(Sentinel, vs);
    forall i | 0 <= i < FrameSize && Supported(frame, threshold, i) ensures frame[i] <= Filtered(frame, threshold) {
      assert frame[i] in vs;
    }
  }

  /** Visiting pixel i folds its value into the running maximum when it is supported; an
      unsupported pixel leaves the maximum unchanged. */
  lemma RunningMaxStep(frame: seq<real>, threshold: real, i: nat)
    requires |frame| == FrameSize && i < FrameSize
    ensures RunningMax(Sentinel, SupportedValues(frame, threshold, i + 1)) ==
      if Supported(frame, threshold, i) then Max(RunningMax(Sentinel, SupportedValues(frame, threshold, i)), frame[i])
      else RunningMax(Sentinel, SupportedValues(frame, threshold, i))
  {
    var before := SupportedValues(frame, threshold, i);
    if Supported(frame, threshold, i) {
      assert SupportedValues(frame, threshold, i + 1) == before + [frame[i]];
      assert (before + [frame[i]])[..|before|] == before;
    } else {
      assert SupportedValues(frame, threshold, i + 1) == before;
    }
  }

  /** Visiting pixel (x, y) in the scan order: the pixel replaces the running maximum iff it
      exceeds it and has a warm neighbour. */
  lemma VisitPixel(frame: seq<real>, threshold: real, x: int, y: int, m: real)
    requires |frame| == FrameSize && InGrid(x, y)
    requires m == RunningMax(Sentinel, SupportedValues(frame, threshold, Index(x, y)))
    ensures RunningMax(Sentinel, SupportedValues(frame, threshold, Index(x, y) + 1)) ==
      if frame[Index(x, y)] > m && WarmNeighbors(frame, threshold - 5.0, x, y) >= 1 then frame[Index(x, y)] else m
  {
    IndexCoordinates(x, y);
    RunningMaxStep(frame, threshold, Index(x, y));
  }

  /** Walks the neighbour list and stops at the first warm in-grid neighbour. */
  method HasWarmNeighbor(frame: seq<real>, warm: real, x: int, y: int) returns (isValid: bool)
    requires |frame| == FrameSize
    ensures isValid <==> WarmNeighbors(frame, warm, x, y) >= 1
  {
    isValid := false;
    var k := 0;
    while k < |Offsets|
      invariant 0 <= k <= |Offsets|
      invariant !isValid && WarmCount(frame, warm, x, y, k) == 0
    {
      var (dx, dy) := Offsets[k];
      var nx, ny := x + dx, y + dy;
      if 0 <= nx < Width && 0 <= ny < Height {
        var nIndex := ny * Width + nx;
        if frame[nIndex] > warm {
          isValid := true;
          WarmCountMonotone(frame, warm, x, y, k + 1, |Offsets|);
          break;
        }
      }
      k := k + 1;
    }
  }

  /** Scans the frame row by row; a pixel above the running maximum replaces it when it has
      a warm neighbour. The pixel itself is not compared with the threshold. */
  method GetMaxTempFiltered(frame: seq<real>, threshold: real) returns (maxDetected: real)
    requires |frame| == FrameSize
    ensures maxDetected == Filtered(frame, threshold)
    ensures maxDetected >= Sentinel
    ensures forall i :: 0 <= i < FrameSize && Supported(frame, threshold, i) ==> frame[i] <= maxDetected
    ensures maxDetected == Sentinel || exists i :: 0 <= i < FrameSize && Supported(frame, threshold, i) && frame[i] == maxDetected
  {
    maxDetected := Sentinel;
    var y := 0;
    while y < Height
      invariant 0 <= y <= Height
      invariant maxDetected == RunningMax(Sentinel, SupportedValues(frame, threshold, y * Width))
    {
      var x := 0;
      while x < Width
        invariant 0 <= x <= Width
        invariant maxDetected == RunningMax(Sentinel, SupportedValues(frame, threshold, y * Width + x))
      {
        var index := y * Width + x;
        var val := frame[index];
        VisitPixel(frame, threshold, x, y, maxDetected);
        if val > maxDetected {
          var isValid := HasWarmNeighbor(frame, threshold - 5.0, x, y);
          if isValid {
            maxDetected := val;
          }
        }
        x := x + 1;
      }
      y := y + 1;
    }
    FilteredIsMaximum(frame, threshold);
  }

  /** On a uniform frame warmer than `threshold - 5.0` every pixel is supported, so the
      detector returns that temperature even when it lies below the threshold. */
  lemma UniformWarmFrame(c: real, threshold: real)
    requires threshold - 5.0 < c && Sentinel < c
    ensures Filtered(seq(FrameSize, _ => c), threshold) == c
  {
    var frame := seq(FrameSize, _ => c);
    var vs := SupportedValues(frame, threshold, FrameSize);
    WarmNeighborsUnfold(frame, threshold - 5.0, 0, 0);
    assert WarmAt(frame, threshold - 5.0, 0, 0, 0);
    assert Supported(frame, threshold, 0);
    SupportedValuesAreSupported(frame, threshold, FrameSize);
    RunningMaxIsMaximum(Sentinel, vs);
    assert frame[0] in vs;
  }
}
