/** Geometry of the 32 x 24 sensor frame and the four-neighbour test both detectors share. */
module Grid {

  const Width: nat := 32
  const Height: nat := 24
  /** Number of samples in one frame, stored row-major. */
  const FrameSize: nat := 768

  predicate InGrid(x: int, y: int) {
    0 <= x < Width && 0 <= y < Height
  }

  /** Row-major position of pixel (x, y). */
  function Index(x: int, y: int): (i: nat)
    requires InGrid(x, y)
    ensures i < FrameSize
  {
    y * Width + x
  }

  /** The coordinates of a row-major position are recovered by `%` and `/`. */
  lemma IndexCoordinates(x: int, y: int)
    requires InGrid(x, y)
    ensures Index(x, y) % Width == x && Index(x, y) / Width == y
  {
  }

  /** (nx, ny) is one of the four direct (up, down, left, right) neighbours of (x, y). */
  predicate Adjacent(x: int, y: int, nx: int, ny: int) {
    (nx == x && (ny == y + 1 || ny == y - 1)) || (ny == y && (nx == x + 1 || nx == x - 1))
  }

  /** The neighbour offsets in the order the detectors visit them. */
  const Offsets: seq<(int, int)> := [(1, 0), (-1, 0), (0, 1), (0, -1)]

  /** The k-th neighbour of (x, y) lies inside the grid and is warmer than `warm`. */
  predicate WarmAt(frame: seq<real>, warm: real, x: int, y: int, k: nat)
    requires |frame| == FrameSize && k < |Offsets|
  {
    var nx, ny := x + Offsets[k].0, y + Offsets[k].1;
    InGrid(nx, ny) && frame[Index(nx, ny)] > warm
  }

  /** Number of warm neighbours among the first k offsets; neighbours outside the grid are skipped. */
  function WarmCount(frame: seq<real>, warm: real, x: int, y: int, k: nat): (c: nat)
    requires |frame| == FrameSize && k <= |Offsets|
    ensures c <= k
  {
    if k == 0 then 0
    else WarmCount(frame, warm, x, y, k - 1) + (if WarmAt(frame, warm, x, y, k - 1) then 1 else 0)
  }

  /** Number of in-grid four-neighbours of (x, y) whose value exceeds `warm`. */
  function WarmNeighbors(frame: seq<real>, warm: real, x: int, y: int): nat
    requires |frame| == FrameSize
  {
    WarmCount(frame, warm, x, y, |Offsets|)
  }

  lemma {:induction false} WarmCountMonotone(frame: seq<real>, warm: real, x: int, y: int, j: nat, k: nat)
    requires |frame| == FrameSize && j <= k <= |Offsets|
    ensures WarmCount(frame, warm, x, y, j) <= WarmCount(frame, warm, x, y, k)
    decreases k - j
  {
    if j < k {
      WarmCountMonotone(frame, warm, x, y, j, k - 1);
    }
  }

  /** The counter is the sum of the four per-offset tests. */
  lemma WarmNeighborsUnfold(frame: seq<real>, warm: real, x: int, y: int)
    requires |frame| == FrameSize
    ensures WarmNeighbors(frame, warm, x, y) ==
      (if WarmAt(frame, warm, x, y, 0) then 1 else 0) + (if WarmAt(frame, warm, x, y, 1) then 1 else 0) +
      (if WarmAt(frame, warm, x, y, 2) then 1 else 0) + (if WarmAt(frame, warm, x, y, 3) then 1 else 0)
  {
    assert WarmCount(frame, warm, x, y, 1) == (if WarmAt(frame, warm, x, y, 0) then 1 else 0);
    assert WarmCount(frame, warm, x, y, 2) == WarmCount(frame, warm, x, y, 1) + (if WarmAt(frame, warm, x, y, 1) then 1 else 0);
    assert WarmCount(frame, warm, x, y, 3) == WarmCount(frame, warm, x, y, 2) + (if WarmAt(frame, warm, x, y, 2) then 1 else 0);
  }

  /** The offset list enumerates exactly the in-grid direct neighbours: at least one is warm
      iff the counter is positive. */
  lemma WarmNeighborsPositiveIff(frame: seq<real>, warm: real, x: int, y: int)
    requires |frame| == FrameSize
    ensures WarmNeighbors(frame, warm, x, y) >= 1 <==>
      exists nx, ny :: Adjacent(x, y, nx, ny) && InGrid(nx, ny) && frame[Index(nx, ny)] > warm
  {
    WarmNeighborsUnfold(frame, warm, x, y);
    if WarmNeighbors(frame, warm, x, y) >= 1 {
      if WarmAt(frame, warm, x, y, 0) {
        assert Adjacent(x, y, x + 1, y);
      } else if WarmAt(frame, warm, x, y, 1) {
        assert Adjacent(x, y, x - 1, y);
      } else if WarmAt(frame, warm, x, y, 2) {
        assert Adjacent(x, y, x, y + 1);
      } else {
        assert WarmAt(frame, warm, x, y, 3);
        assert Adjacent(x, y, x, y - 1);
      }
    }
    if exists nx, ny :: Adjacent(x, y, nx, ny) && InGrid(nx, ny) && frame[Index(nx, ny)] > warm {
      var nx, ny :| Adjacent(x, y, nx, ny) && InGrid(nx, ny) && frame[Index(nx, ny)] > warm;
      if nx == x + 1 {
        assert WarmAt(frame, warm, x, y, 0);
      } else if nx == x - 1 {
        assert WarmAt(frame, warm, x, y, 1);
      } else if ny == y + 1 {
        assert WarmAt(frame, warm, x, y, 2);
      } else {
        assert WarmAt(frame, warm, x, y, 3);
      }
    }
  }

  /** The in-grid direct neighbours of (x, y) whose value exceeds `warm`. */
  function WarmSet(frame: seq<real>, warm: real, x: int, y: int): set<(int, int)>
    requires |frame| == FrameSize
  {
    set nx: int, ny: int | 0 <= nx < Width && 0 <= ny < Height && Adjacent(x, y, nx, ny) && frame[Index(nx, ny)] > warm :: (nx, ny)
  }

  /** The k-th neighbour as a singleton set when it is warm, otherwise empty. */
  function WarmPart(frame: seq<real>, warm: real, x: int, y: int, k: nat): set<(int, int)>
    requires |frame| == FrameSize && k < |Offsets|
  {
    if WarmAt(frame, warm, x, y, k) then {(x + Offsets[k].0, y + Offsets[k].1)} else {}
  }

  /** The four parts are disjoint, so their union has as many elements as there are warm
      offsets. */
  lemma WarmPartsSize(frame: seq<real>, warm: real, x: int, y: int)
    requires |frame| == FrameSize
    ensures |WarmPart(frame, warm, x, y, 0) + WarmPart(frame, warm, x, y, 1) + WarmPart(frame, warm, x, y, 2) + WarmPart(frame, warm, x, y, 3)|
      == WarmNeighbors(frame, warm, x, y)
  {
    WarmNeighborsUnfold(frame, warm, x, y);
    var p0, p1 := WarmPart(frame, warm, x, y, 0), WarmPart(frame, warm, x, y, 1);
    var p2, p3 := WarmPart(frame, warm, x, y, 2), WarmPart(frame, warm, x, y, 3);
    assert p0 !! p1;
    assert (p0 + p1) !! p2;
    assert (p0 + p1 + p2) !! p3;
  }

  /** Every warm in-grid direct neighbour is one of the four parts. */
  lemma WarmSetWithinParts(frame: seq<real>, warm: real, x: int, y: int, nx: int, ny: int)
    requires |frame| == FrameSize && InGrid(nx, ny) && Adjacent(x, y, nx, ny) && frame[Index(nx, ny)] > warm
    ensures (nx, ny) in WarmPart(frame, warm, x, y, 0) + WarmPart(frame, warm, x, y, 1) + WarmPart(frame, warm, x, y, 2) + WarmPart(frame, warm, x, y, 3)
  {
    if nx == x + 1 {
      assert WarmAt(frame, warm, x, y, 0);
    } else if nx == x - 1 {
      assert WarmAt(frame, warm, x, y, 1);
    } else if ny == y + 1 {
      assert WarmAt(frame, warm, x, y, 2);
    } else {
      assert WarmAt(frame, warm, x, y, 3);
    }
  }

  /** Each of the four parts names a warm in-grid direct neighbour. */
  lemma PartsWithinWarmSet(frame: seq<real>, warm: real, x: int, y: int)
    requires |frame| == FrameSize
    ensures WarmPart(frame, warm, x, y, 0) + WarmPart(frame, warm, x, y, 1) + WarmPart(frame, warm, x, y, 2) + WarmPart(frame, warm, x, y, 3)
      <= WarmSet(frame, warm, x, y)
  {
    var ws := WarmSet(frame, warm, x, y);
    if WarmAt(frame, warm, x, y, 0) { assert (x + 1, y) in ws; }
    if WarmAt(frame, warm, x, y, 1) { assert (x - 1, y) in ws; }
    if WarmAt(frame, warm, x, y, 2) { assert (x, y + 1) in ws; }
    if WarmAt(frame, warm, x, y, 3) { assert (x, y - 1) in ws; }
  }

  /** The counter is the number of warm in-grid direct neighbours: walking the offset list
      neither misses nor repeats a neighbour. */
  lemma WarmNeighborsIsWarmSetSize(frame: seq<real>, warm: real, x: int, y: int)
    requires |frame| == FrameSize
    ensures WarmNeighbors(frame, warm, x, y) == |WarmSet(frame, warm, x, y)|
  {
    var u := WarmPart(frame, warm, x, y, 0) + WarmPart(frame, warm, x, y, 1) + WarmPart(frame, warm, x, y, 2) + WarmPart(frame, warm, x, y, 3);
    var ws := WarmSet(frame, warm, x, y);
    WarmPartsSize(frame, warm, x, y);
    forall nx, ny | 0 <= nx < Width && 0 <= ny < Height && Adjacent(x, y, nx, ny) && frame[Index(nx, ny)] > warm
      ensures (nx, ny) in u
    {
      WarmSetWithinParts(frame, warm, x, y, nx, ny);
    }
    assert ws <= u;
    PartsWithinWarmSet(frame, warm, x, y);
    assert ws == u;
  }

  /** Counts the warm in-grid neighbours of (x, y) by walking the offset list. */
  method CountWarmNeighbors(frame: seq<real>, warm: real, x: int, y: int) returns (hot: nat)
    requires |frame| == FrameSize
    ensures hot == WarmNeighbors(frame, warm, x, y)
    ensures hot <= 4
  {
    hot := 0;
    for k := 0 to |Offsets|
      invariant hot == WarmCount(frame, warm, x, y, k)
    {
      var (dx, dy) := Offsets[k];
      var nx, ny := x + dx, y + dy;
      if 0 <= nx < Width && 0 <= ny < Height {
        var nIndex := ny * Width + nx;
        if frame[nIndex] > warm {
          hot := hot + 1;
        }
      }
    }
  }
}
