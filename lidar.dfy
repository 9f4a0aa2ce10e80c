/**
 * The lidar library's scan segmentation (one full rotation per start flag) and
 * angular resampling (binning measurements by angle, merging each bin).
 */
module Lidar {
  import opened Wrappers

  /** A `PyRPlidarMeasurement`: the fields the segmentation and resampling read. */
  datatype Measurement = Measurement(startFlag: bool, angle: real, distance: real, quality: int)

  /** The contents of the `scanState` dictionary. */
  datatype ScanData = ScanData(r: nat, buff: seq<Measurement>, doScan: bool)

  /** The rotation a start flag completes: angles, distances and qualities in arrival order. */
  datatype Rotation = Rotation(angles: seq<real>, distances: seq<real>, qualities: seq<int>)

  function Project(ms: seq<Measurement>): (rot: Rotation)
    ensures |rot.angles| == |rot.distances| == |rot.qualities| == |ms|
    ensures forall k :: 0 <= k < |ms| ==>
      rot.angles[k] == ms[k].angle && rot.distances[k] == ms[k].distance && rot.qualities[k] == ms[k].quality
  {
    Rotation(seq(|ms|, k requires 0 <= k < |ms| => ms[k].angle),
             seq(|ms|, k requires 0 <= k < |ms| => ms[k].distance),
             seq(|ms|, k requires 0 <= k < |ms| => ms[k].quality))
  }

  /** Projecting a run of measurements is projecting its parts one after the other. */
  lemma ProjectAppend(a: seq<Measurement>, b: seq<Measurement>)
    ensures Project(a + b) ==
      Rotation(Project(a).angles + Project(b).angles, Project(a).distances + Project(b).distances,
               Project(a).qualities + Project(b).qualities)
  {
  }

  /** Nothing is buffered before the first start flag. */
  predicate Consistent(s: ScanData) { !s.doScan ==> s.buff == [] }

  /**
   * One `process_scan` call on the state: the new state and the measurements of the
   * rotation it completes, if any.
   */
  function Step(s: ScanData, m: Measurement): (res: (ScanData, Option<seq<Measurement>>))
    ensures s.doScan ==> res.0.doScan
    ensures res.1.Some? <==> m.startFlag && s.doScan
    ensures m.startFlag && !s.doScan ==> res.0 == ScanData(s.r, s.buff + [m], true)
    ensures m.startFlag && s.doScan ==> res.0 == ScanData(s.r + 1, [m], true) && res.1 == Some(s.buff)
    ensures !m.startFlag ==> res.0 == ScanData(s.r, if s.doScan then s.buff + [m] else s.buff, s.doScan)
    ensures Consistent(s) ==> Consistent(res.0)
  {
    if m.startFlag && !s.doScan then (ScanData(s.r, s.buff + [m], true), None)
    else if m.startFlag && s.doScan then (ScanData(s.r + 1, [m], true), Some(s.buff))
    else if s.doScan then (s.(buff := s.buff + [m]), None)
    else (s, None)
  }

  /** Feeding a stream: the final state and the completed rotations, in order. */
  function Steps(s: ScanData, ms: seq<Measurement>): (res: (ScanData, seq<seq<Measurement>>))
    decreases |ms|
  {
    if ms == [] then (s, [])
    else
      var (s1, out) := Step(s, ms[0]);
      var (s2, rest) := Steps(s1, ms[1..]);
      (s2, (if out.Some? then [out.value] else []) + rest)
  }

  function Flatten(rs: seq<seq<Measurement>>): seq<Measurement>
  {
    if rs == [] then [] else rs[0] + Flatten(rs[1..])
  }

  /** The measurements from the first start flag on. */
  function FromFirstStart(ms: seq<Measurement>): seq<Measurement>
  {
    if ms == [] then [] else if ms[0].startFlag then ms else FromFirstStart(ms[1..])
  }

  lemma FlattenAppend(a: seq<seq<Measurement>>, b: seq<seq<Measurement>>)
    ensures Flatten(a + b) == Flatten(a) + Flatten(b)
  {
    if a != [] {
      assert (a + b)[1..] == a[1..] + b;
    } else {
      assert a + b == b;
    }
  }

  /**
   * Once scanning, no measurement is lost, duplicated or reordered: the completed
   * rotations followed by the final buffer are the old buffer followed by the stream,
   * and the round counter grows by the number of rotations.
   */
  lemma {:induction false} StepsWhileScanning(s: ScanData, ms: seq<Measurement>)
    requires s.doScan
    ensures var (t, rs) := Steps(s, ms);
      t.doScan && Flatten(rs) + t.buff == s.buff + ms && t.r == s.r + |rs|
    decreases |ms|
  {
    if ms != [] {
      var (s1, out) := Step(s, ms[0]);
      StepsWhileScanning(s1, ms[1..]);
      var (t, rest) := Steps(s1, ms[1..]);
      assert ms == [ms[0]] + ms[1..];
      if out.Some? {
        assert Steps(s, ms) == (t, [s.buff] + rest);
        calc {
          Flatten([s.buff] + rest) + t.buff;
          { FlattenCons(s.buff, rest); }
          s.buff + (Flatten(rest) + t.buff);
          s.buff + ([ms[0]] + ms[1..]);
        }
      } else {
        assert Steps(s, ms) == (t, rest) by { assert [] + rest == rest; }
        assert s1.buff + ms[1..] == s.buff + ms;
      }
    }
  }

  lemma FlattenCons(x: seq<Measurement>, rest: seq<seq<Measurement>>)
    ensures Flatten([x] + rest) == x + Flatten(rest)
  {
    assert ([x] + rest)[1..] == rest;
  }

  /**
   * From the initial state, everything before the first start flag is dropped and the
   * rest is segmented without loss; the state stays consistent throughout.
   */
  lemma {:induction false} StepsFromIdle(ms: seq<Measurement>, r: nat)
    ensures var (t, rs) := Steps(ScanData(r, [], false), ms);
      Consistent(t) && Flatten(rs) + t.buff == FromFirstStart(ms)
    decreases |ms|
  {
    if ms != [] {
      var s := ScanData(r, [], false);
      if ms[0].startFlag {
        var s1 := Step(s, ms[0]).0;
        StepsWhileScanning(s1, ms[1..]);
        assert ms == [ms[0]] + ms[1..];
        assert s1.buff == [ms[0]];
        var (t, rest) := Steps(s1, ms[1..]);
        assert Steps(s, ms) == (t, [] + rest);
        assert [] + rest == rest;
      } else {
        StepsFromIdle(ms[1..], r);
        var (t, rest) := Steps(s, ms[1..]);
        assert Steps(s, ms) == (t, [] + rest);
        assert [] + rest == rest;
      }
    }
  }

  /** The `scanState` dictionary, updated in place by `process_scan`. */
  class ScanState {
    var r: nat
    var buff: seq<Measurement>
    var doScan: bool

    function Data(): ScanData
      reads this
    {
      ScanData(r, buff, doScan)
    }

    /** The default `{"r": 0, "buff": [], "doScan": False}`. */
    constructor()
      ensures Data() == ScanData(0, [], false)
    {
      r := 0;
      buff := [];
      doScan := false;
    }

    /** `process_scan((count, scan), scanState)`: the rotation completed by `scan`, if any. */
    method ProcessScan(scan: Measurement) returns (result: Option<Rotation>)
      modifies this
      ensures Data() == Step(old(Data()), scan).0
      ensures result.Some? <==> Step(old(Data()), scan).1.Some?
      ensures result.Some? ==> result.value == Project(Step(old(Data()), scan).1.value)
    {
      if scan.startFlag && !doScan {
        doScan := true;
      } else if scan.startFlag && doScan {
        r := r + 1;
        result := Some(Project(buff));
        buff := [];
        buff := buff + [scan];
        return;
      }
      if doScan {
        buff := buff + [scan];
      }
      result := None;
    }
  }

  /** Python's float `%` by 360: the result lies in [0, 360). */
  function Wrap(x: real): (w: real)
    ensures 0.0 <= w < 360.0
    ensures ((x - w) / 360.0).Floor as real == (x - w) / 360.0
  {
    var k := (x / 360.0).Floor;
    x - 360.0 * k as real
  }

  lemma MulLe(a: real, b: real, c: real)
    requires a <= b && c > 0.0
    ensures a * c <= b * c
  {
    assert b * c - a * c == (b - a) * c;
  }

  lemma MulLt(a: real, b: real, c: real)
    requires a < b && c > 0.0
    ensures a * c < b * c
  {
    assert b * c - a * c == (b - a) * c;
  }

  /** Scaling the floor of `x / w` back by the bin width `w` brackets `x`. */
  lemma BinBounds(x: real, t: real, k: int)
    requires t > 0.0 && 0.0 <= x < 360.0 && k == (x * t / 360.0).Floor
    ensures 0 <= k && k as real < t
    ensures k as real * (360.0 / t) <= x < (k + 1) as real * (360.0 / t)
  {
    var y := x * t / 360.0;
    var w := 360.0 / t;
    assert w * t == 360.0;
    assert y * 360.0 == x * t;
    MulLe(0.0, x, t);
    MulLt(x, 360.0, t);
    assert 0.0 <= y < t;
    assert y * w == x by {
      assert (y * w) * t == y * (w * t);
      if y * w < x { MulLt(y * w, x, t); }
      if y * w > x { MulLt(x, y * w, t); }
    }
    MulLe(k as real, y, w);
    MulLt(y, (k + 1) as real, w);
  }

  /** The bin `np.digitize` picks for a wrapped angle: bins are `360 / target` wide. */
  function BinIndex(x: real, target: nat): (k: nat)
    requires target > 0 && 0.0 <= x < 360.0
    ensures k < target
    ensures k as real * (360.0 / target as real) <= x < (k + 1) as real * (360.0 / target as real)
  {
    var k := (x * target as real / 360.0).Floor;
    BinBounds(x, target as real, k);
    k
  }

  /** The bin of a raw angle once the offset is added and the sum wrapped. */
  function BinOf(angle: real, offset: real, target: nat): (k: nat)
    requires target > 0
    ensures k < target
  {
    BinIndex(Wrap(angle + offset), target)
  }

  /** The bin of every measurement, as `np.digitize(angles, bin_limits) - 1` computes them in one pass. */
  function Bins(angles: seq<real>, offset: real, target: nat): (b: seq<nat>)
    requires target > 0
    ensures |b| == |angles|
    ensures forall i :: 0 <= i < |b| ==> b[i] < target && b[i] == BinOf(angles[i], offset, target)
  {
    seq(|angles|, i requires 0 <= i < |angles| => BinOf(angles[i], offset, target))
  }

  /** The distances of the measurements whose bin is `k`, in input order. */
  function Members<T>(bins: seq<nat>, distance: seq<T>, k: nat): (m: seq<T>)
    requires |bins| <= |distance|
    decreases |bins|
  {
    if bins == [] then []
    else
      var n := |bins| - 1;
      Members(bins[..n], distance, k) + (if bins[n] == k then [distance[n]] else [])
  }

  /** The left edges of the `target` bins. */
  function BinEdges(target: nat): (e: seq<real>)
    requires target > 0
    ensures |e| == target && forall k :: 0 <= k < target ==> e[k] == k as real * (360.0 / target as real)
  {
    seq(target, k requires 0 <= k < target => k as real * (360.0 / target as real))
  }

  /**
   * The bin edges start at 0, increase strictly, stay below 360, and each edge is
   * the left end of its own bin.
   */
  lemma BinEdgesOwnBins(target: nat)
    requires target > 0
    ensures var e := BinEdges(target);
      e[0] == 0.0
      && (forall j, k :: 0 <= j < k < target ==> e[j] < e[k])
      && (forall k :: 0 <= k < target ==> 0.0 <= e[k] < 360.0 && BinIndex(e[k], target) == k)
  {
    var e := BinEdges(target);
    var w := 360.0 / target as real;
    forall j, k | 0 <= j < k < target
      ensures e[j] < e[k]
    {
      MulLt(j as real, k as real, w);
    }
    forall k | 0 <= k < target
      ensures 0.0 <= e[k] < 360.0 && BinIndex(e[k], target) == k
    {
      EdgeInOwnBin(target, k);
    }
  }

  lemma EdgeInOwnBin(target: nat, k: nat)
    requires k < target
    ensures var x := k as real * (360.0 / target as real);
      0.0 <= x < 360.0 && BinIndex(x, target) == k
  {
    EdgeBelow(target as real, k as real, 360.0 / target as real);
    EdgeInBin(k as real * (360.0 / target as real), target, k);
  }

  lemma EdgeInBin(x: real, target: nat, k: nat)
    requires target > 0 && 0.0 <= x < 360.0 && x == k as real * (360.0 / target as real)
    ensures BinIndex(x, target) == k
  {
    MulMono(k as real, (k + 1) as real, 360.0 / target as real);
    OnlyBin(x, target, k);
  }

  lemma EdgeBelow(t: real, k: real, w: real)
    requires 0.0 <= k < t && t * w == 360.0
    ensures 0.0 < w && 0.0 <= k * w < 360.0
  {
    PositiveFactor(t, w, 360.0);
    MulLe(0.0, k, w);
    MulLtBound(k, t, w, 360.0);
  }

  lemma PositiveFactor(t: real, w: real, p: real)
    requires t > 0.0 && p > 0.0 && t * w == p
    ensures w > 0.0
  {
    if w <= 0.0 {
      MulLe(w, 0.0, t);
    }
  }

  lemma MulLtBound(a: real, b: real, c: real, d: real)
    requires a < b && c > 0.0 && b * c == d
    ensures a * c < d
  {
    MulLt(a, b, c);
  }

  /** Scaling by a positive width keeps the order of two reals, both ways. */
  lemma MulMono(a: real, b: real, w: real)
    requires w > 0.0
    ensures a * w <= b * w <==> a <= b
    ensures a * w < b * w <==> a < b
  {
    if a <= b { MulLe(a, b, w); } else { MulLt(b, a, w); }
    if a < b { MulLt(a, b, w); } else { MulLe(b, a, w); }
  }

  /** A point of bin `k` is given bin `k` by `BinIndex`: the bins do not overlap. */
  lemma OnlyBin(x: real, target: nat, k: int)
    requires target > 0 && 0.0 <= x < 360.0
    requires k as real * (360.0 / target as real) <= x < (k + 1) as real * (360.0 / target as real)
    ensures BinIndex(x, target) == k
  {
    var w := 360.0 / target as real;
    var b := BinIndex(x, target);
    MulMono(b as real, (k + 1) as real, w);
    MulMono(k as real, (b + 1) as real, w);
  }

  /**
   * `resampleLidarScan(distance, angles, target, offset, merge, fill)` with exact
   * arithmetic: one distance per bin, the merge of the bin's members or `fill`
   * for an empty bin, and the bins' left edges as the angles.
   */
  method ResampleLidarScan(distance: seq<real>, angles: seq<real>, target: nat, offset: real,
                           merge: seq<real> -> real, fill: real)
    returns (newDistance: seq<real>, binAngles: seq<real>)
    requires target > 0 && |angles| <= |distance|
    ensures |newDistance| == |binAngles| == target && binAngles == BinEdges(target)
    ensures forall k :: 0 <= k < target ==>
      var m := Members(Bins(angles, offset, target), distance, k);
      newDistance[k] == if m == [] then fill else merge(m)
  {
    var indices := Bins(angles, offset, target);
    var temp: seq<seq<real>> := seq(target, _ => []);
    for i := 0 to |angles|
      invariant |temp| == target
      invariant forall k :: 0 <= k < target ==> temp[k] == Members(indices[..i], distance, k)
    {
      var idx := indices[i];
      assert indices[..i + 1][..i] == indices[..i];
      temp := temp[idx := temp[idx] + [distance[i]]];
    }
    assert indices[..|angles|] == indices;
    newDistance := seq(target, k requires 0 <= k < target => if temp[k] == [] then fill else merge(temp[k]));
    binAngles := BinEdges(target);
  }

  /** The distances in bin `k`, as a multiset. */
  function Bag<T>(bins: seq<nat>, distance: seq<T>, k: nat): multiset<T>
    requires |bins| <= |distance|
    decreases |bins|
  {
    if bins == [] then multiset{}
    else
      var n := |bins| - 1;
      Bag(bins[..n], distance, k) + (if bins[n] == k then multiset{distance[n]} else multiset{})
  }

  lemma {:induction false} BagOfMembers<T>(bins: seq<nat>, distance: seq<T>, k: nat)
    requires |bins| <= |distance|
    ensures multiset(Members(bins, distance, k)) == Bag(bins, distance, k)
    decreases |bins|
  {
    if bins != [] {
      BagOfMembers(bins[..|bins| - 1], distance, k);
    }
  }

  /** The multiset union of bins `0 .. n`. */
  function BinsUnion<T>(bins: seq<nat>, distance: seq<T>, n: nat): multiset<T>
    requires |bins| <= |distance|
  {
    if n == 0 then multiset{}
    else BinsUnion(bins, distance, n - 1) + Bag(bins, distance, n - 1)
  }

  lemma TakeSnoc<T>(s: seq<T>, j: nat)
    requires j < |s|
    ensures multiset(s[..j + 1]) == multiset(s[..j]) + multiset{s[j]}
  {
    assert s[..j + 1] == s[..j] + [s[j]];
  }

  /** Multiset bookkeeping for one step of the union: both sides grow by the same parts. */
  lemma Combine<T>(a: multiset<T>, a1: multiset<T>, ma: multiset<T>, c: multiset<T>, c1: multiset<T>, mc: multiset<T>,
                   x: multiset<T>, y: multiset<T>, z: multiset<T>)
    requires a == a1 + ma && c == c1 + mc && a1 == c1 + x && ma == mc + y && z == x + y
    ensures a == c + z
  {
  }

  /** Adding one measurement adds its distance to the union of all bins it can fall into. */
  lemma {:induction false} BinsUnionSnoc<T>(bins: seq<nat>, distance: seq<T>, n: nat)
    requires 0 < |bins| <= |distance|
    ensures BinsUnion(bins, distance, n) ==
      BinsUnion(bins[..|bins| - 1], distance, n) +
      (if bins[|bins| - 1] < n then multiset{distance[|bins| - 1]} else multiset{})
  {
    if n > 0 {
      var j := |bins| - 1;
      var b := bins[j];
      var d := multiset{distance[j]};
      BinsUnionSnoc(bins, distance, n - 1);
      var x: multiset<T> := if b < n - 1 then d else multiset{};
      var y: multiset<T> := if b == n - 1 then d else multiset{};
      Combine(BinsUnion(bins, distance, n), BinsUnion(bins, distance, n - 1), Bag(bins, distance, n - 1),
              BinsUnion(bins[..j], distance, n), BinsUnion(bins[..j], distance, n - 1),
              Bag(bins[..j], distance, n - 1), x, y, if b < n then d else multiset{});
    }
  }

  /** Every measurement falls into exactly one of the `target` bins: the bins partition the distances read. */
  lemma {:induction false} BinsPartition<T>(bins: seq<nat>, distance: seq<T>, target: nat)
    requires |bins| <= |distance|
    requires forall i :: 0 <= i < |bins| ==> bins[i] < target
    ensures BinsUnion(bins, distance, target) == multiset(distance[..|bins|])
    decreases |bins|
  {
    if bins != [] {
      var j := |bins| - 1;
      BinsUnionSnoc(bins, distance, target);
      BinsPartition(bins[..j], distance, target);
      TakeSnoc(distance, j);
    } else {
      BinsUnionEmpty(distance, target);
    }
  }

  /**
   * The bins `resampleLidarScan` merges together hold every distance read, each
   * exactly once: the multiset union of the `target` member lists is the input.
   */
  lemma ResamplePartition(distance: seq<real>, angles: seq<real>, target: nat, offset: real)
    requires target > 0 && |angles| <= |distance|
    ensures var b := Bins(angles, offset, target);
      (forall k :: multiset(Members(b, distance, k)) == Bag(b, distance, k)) &&
      BinsUnion(b, distance, target) == multiset(distance[..|angles|])
  {
    var b := Bins(angles, offset, target);
    forall k ensures multiset(Members(b, distance, k)) == Bag(b, distance, k) {
      BagOfMembers(b, distance, k);
    }
    BinsPartition(b, distance, target);
  }

  lemma {:induction false} BinsUnionEmpty<T>(distance: seq<T>, n: nat)
    ensures BinsUnion([], distance, n) == multiset{}
  {
    if n > 0 {
      BinsUnionEmpty(distance, n - 1);
    }
  }
}
