/**
 * The metrics sampler: one snapshot per call, the network-rate bookkeeping
 * carried from one call to the next, and the 60-slot history ring that the
 * trend charts read back in chronological order.
 */
module Metrics {
  import opened Wrappers

  const HistorySize: nat := 60
  const Uint64Modulus: int := 0x1_0000_0000_0000_0000

  type Uint64 = x: int | 0 <= x < Uint64Modulus

  /** One immutable reading of the host. Percentages and rates are reals. */
  datatype SystemStats = SystemStats(
    cpuUsage: real, cpuCores: int,
    memTotal: Uint64, memUsed: Uint64, memUsage: real,
    diskTotal: Uint64, diskUsed: Uint64, diskUsage: real,
    netRx: Uint64, netTx: Uint64, netRxSpeed: real, netTxSpeed: real)

  /** What the memory or disk probe returns. */
  datatype Usage = Usage(total: Uint64, used: Uint64, usedPercent: real)

  /** Cumulative interface counters. */
  datatype Counters = Counters(bytesRecv: Uint64, bytesSent: Uint64)

  /**
   * The host probes of one sampling call; `None` is a probe that returned an
   * error. The CPU and network probes return lists, of which the first entry is used.
   */
  datatype HostReading = HostReading(
    cpuPercents: Option<seq<real>>, mem: Option<Usage>, disk: Option<Usage>, net: Option<seq<Counters>>)

  /** The counters and time of the last successful network read; `None` is Go's zero time. */
  datatype NetState = NetState(lastRx: Uint64, lastTx: Uint64, lastTime: Option<int>)

  /** What the network part of one sampling call produces. */
  datatype NetSample = NetSample(next: NetState, rx: Uint64, tx: Uint64, rxSpeed: real, txSpeed: real)

  /** uint64 subtraction: a counter that went down wraps around instead of going negative. */
  function WrappingSub(cur: Uint64, prev: Uint64): (d: Uint64)
    ensures cur >= prev ==> d == cur - prev
    ensures cur < prev ==> d == cur - prev + Uint64Modulus
  {
    (cur - prev) % Uint64Modulus
  }

  /** Adding the wrapped difference back to the previous counter gives the current one. */
  lemma WrappingSubRoundTrip(cur: Uint64, prev: Uint64)
    ensures (prev + WrappingSub(cur, prev)) % Uint64Modulus == cur
  {
  }

  /** Bytes over elapsed seconds, in KB/s. */
  function KBPerSecond(delta: Uint64, seconds: int): real
    requires seconds > 0
  {
    delta as real / seconds as real / 1024.0
  }

  /**
   * The network part of GetStats. A failed read reports zero counters and
   * keeps the previous state; a successful one always becomes the new state,
   * and its rates stay zero on the first read and when no time has elapsed.
   */
  function NetStep(prev: NetState, net: Option<seq<Counters>>, now: int): (r: NetSample)
    ensures (net.None? || net.value == []) ==> r == NetSample(prev, 0, 0, 0.0, 0.0)
    ensures net.Some? && net.value != [] ==>
              r.next == NetState(net.value[0].bytesRecv, net.value[0].bytesSent, Some(now))
              && r.rx == net.value[0].bytesRecv && r.tx == net.value[0].bytesSent
    ensures (prev.lastTime.None? || now - prev.lastTime.value <= 0) ==> r.rxSpeed == 0.0 && r.txSpeed == 0.0
    ensures net.Some? && net.value != [] && prev.lastTime.Some? && now - prev.lastTime.value > 0 ==>
              r.rxSpeed == KBPerSecond(WrappingSub(net.value[0].bytesRecv, prev.lastRx), now - prev.lastTime.value)
              && r.txSpeed == KBPerSecond(WrappingSub(net.value[0].bytesSent, prev.lastTx), now - prev.lastTime.value)
  {
    if net.None? || net.value == [] then NetSample(prev, 0, 0, 0.0, 0.0)
    else
      var c := net.value[0];
      var elapsed := if prev.lastTime.Some? then now - prev.lastTime.value else 0;
      var rxSpeed := if prev.lastTime.Some? && elapsed > 0 then KBPerSecond(WrappingSub(c.bytesRecv, prev.lastRx), elapsed) else 0.0;
      var txSpeed := if prev.lastTime.Some? && elapsed > 0 then KBPerSecond(WrappingSub(c.bytesSent, prev.lastTx), elapsed) else 0.0;
      NetSample(NetState(c.bytesRecv, c.bytesSent, Some(now)), c.bytesRecv, c.bytesSent, rxSpeed, txSpeed)
  }

  /** The rate reported after a counter reset is the wrapped difference over the elapsed time. */
  lemma NetRateAfterReset(prev: NetState, c: Counters, now: int)
    requires prev.lastTime.Some? && now - prev.lastTime.value > 0
    requires c.bytesRecv < prev.lastRx
    ensures NetStep(prev, Some([c]), now).rxSpeed
            == (c.bytesRecv - prev.lastRx + Uint64Modulus) as real / (now - prev.lastTime.value) as real / 1024.0
  {
  }

  /** The snapshot GetStats builds: a failed probe leaves its fields at zero. */
  function Snapshot(reading: HostReading, cores: int, prev: NetState, now: int): (s: SystemStats)
    ensures reading.mem.None? ==> s.memTotal == 0 && s.memUsed == 0 && s.memUsage == 0.0
    ensures reading.disk.None? ==> s.diskTotal == 0 && s.diskUsed == 0 && s.diskUsage == 0.0
    ensures (reading.cpuPercents.None? || reading.cpuPercents.value == []) ==> s.cpuUsage == 0.0
    ensures s.cpuCores == cores
    ensures reading.cpuPercents.Some? && reading.cpuPercents.value != [] ==> s.cpuUsage == reading.cpuPercents.value[0]
    ensures reading.mem.Some? ==>
              s.memTotal == reading.mem.value.total && s.memUsed == reading.mem.value.used
              && s.memUsage == reading.mem.value.usedPercent
    ensures reading.disk.Some? ==>
              s.diskTotal == reading.disk.value.total && s.diskUsed == reading.disk.value.used
              && s.diskUsage == reading.disk.value.usedPercent
    ensures var n := NetStep(prev, reading.net, now);
            s.netRx == n.rx && s.netTx == n.tx && s.netRxSpeed == n.rxSpeed && s.netTxSpeed == n.txSpeed
  {
    var cpu := if reading.cpuPercents.Some? && reading.cpuPercents.value != [] then reading.cpuPercents.value[0] else 0.0;
    var mem := reading.mem.GetOr(Usage(0, 0, 0.0));
    var disk := reading.disk.GetOr(Usage(0, 0, 0.0));
    var net := NetStep(prev, reading.net, now);
    SystemStats(cpu, cores, mem.total, mem.used, mem.usedPercent, disk.total, disk.used, disk.usedPercent,
                net.rx, net.tx, net.rxSpeed, net.txSpeed)
  }

  /** The samples a 60-slot ring still holds: the last min(n, 60) of all samples taken. */
  function Recent<T>(samples: seq<T>): (r: seq<T>)
    ensures |r| == Min(|samples|, HistorySize)
    ensures r == samples[|samples| - |r|..]
  {
    samples[|samples| - Min(|samples|, HistorySize)..]
  }

  /** The content of the slot `i` places after the write position: empty slots first, then the recent samples in order. */
  function Slot<T>(samples: seq<T>, i: nat): Option<T>
    requires i < HistorySize
  {
    var r := Recent(samples);
    var gap := HistorySize - |r|;
    if i < gap then None else Some(r[i - gap])
  }

  /** One more sample drops the oldest recent one once the ring is full. */
  lemma RecentAppend<T>(samples: seq<T>, x: T)
    ensures Recent(samples + [x]) == if |samples| < HistorySize then Recent(samples) + [x] else Recent(samples)[1..] + [x]
  {
    var s' := samples + [x];
    if |samples| >= HistorySize {
      assert s'[|s'| - HistorySize..] == samples[|samples| - HistorySize..][1..] + [x];
    }
  }

  /** After a write, each slot holds what the next one held before, and the last slot the new sample. */
  lemma SlotAfterAppend<T>(samples: seq<T>, x: T, i: nat)
    requires i < HistorySize
    ensures Slot(samples + [x], i) == if i + 1 < HistorySize then Slot(samples, i + 1) else Some(x)
  {
    RecentAppend(samples, x);
  }

  /** The ring layout: reading `ring` from position `o` on gives the slots of `samples`. */
  ghost predicate RingHolds<T>(ring: seq<Option<T>>, o: nat, samples: seq<T>)
  {
    && |ring| == HistorySize && o < HistorySize
    && forall i :: 0 <= i < HistorySize ==> ring[(o + i) % HistorySize] == Slot(samples, i)
  }

  /** The write position after one more sample. */
  lemma NextPosition(n: nat, o: nat)
    requires o == n % HistorySize
    ensures (o + 1) % HistorySize == (n + 1) % HistorySize
  {
  }

  /** A ring of empty slots holds no samples. */
  lemma RingEmpty<T>()
    ensures RingHolds(seq<Option<T>>(HistorySize, _ => None), 0, [])
  {
  }

  /** Writing a sample at the write position and moving on by one keeps the layout. */
  lemma RingWrite<T>(ring: seq<Option<T>>, o: nat, samples: seq<T>, x: T)
    requires RingHolds(ring, o, samples)
    ensures RingHolds(ring[o := Some(x)], (o + 1) % HistorySize, samples + [x])
  {
    var ring' := ring[o := Some(x)];
    var o' := (o + 1) % HistorySize;
    forall i | 0 <= i < HistorySize
      ensures ring'[(o' + i) % HistorySize] == Slot(samples + [x], i)
    {
      SlotAfterAppend(samples, x, i);
      if i + 1 < HistorySize {
        assert (o' + i) % HistorySize == (o + (i + 1)) % HistorySize;
        assert (o + (i + 1)) % HistorySize != o;
      } else {
        assert (o' + i) % HistorySize == o;
      }
    }
  }

  /** Clamps a chart value into [0, maxVal]: first from above, then from below. */
  function Clamp(v: real, maxVal: real): (c: real)
    ensures maxVal >= 0.0 ==> 0.0 <= c <= maxVal
    ensures 0.0 <= v <= maxVal ==> c == v
  {
    var a := if v > maxVal then maxVal else v;
    if a < 0.0 then 0.0 else a
  }

  datatype Point = Point(x: real, y: real)

  /** The horizontal position of the i-th point: the width split into 59 equal steps. */
  function ChartX(i: nat, width: real): real {
    i as real * (width / (HistorySize - 1) as real)
  }

  /** The vertical position of a value: SVG's y axis points down, so maxVal is drawn at 0. */
  function ChartY(v: real, maxVal: real, height: real): real
    requires maxVal != 0.0
  {
    height - (v / maxVal) * height
  }

  /** A clamped value lands on the chart: its height is within [0, height]. */
  lemma ClampedPointInBox(v: real, maxVal: real, height: real)
    requires maxVal > 0.0 && height >= 0.0
    ensures 0.0 <= ChartY(Clamp(v, maxVal), maxVal, height) <= height
  {
    var c := Clamp(v, maxVal);
    FractionBounds(c, maxVal);
    ScaleBounds(c / maxVal, height);
  }

  lemma FractionBounds(c: real, m: real)
    requires m > 0.0 && 0.0 <= c <= m
    ensures 0.0 <= c / m <= 1.0
  {
    var t := c / m;
    assert t * m == c;
    assert (1.0 - t) * m == m - c;
  }

  lemma ScaleBounds(t: real, h: real)
    requires 0.0 <= t <= 1.0 && h >= 0.0
    ensures 0.0 <= t * h <= h
  {
    assert h - t * h == (1.0 - t) * h;
  }

  /** The sampler: network bookkeeping plus the history ring. */
  class Sampler {
    var lastNet: NetState
    const cores: int
    var historyIndex: nat
    const historyList: array<Option<SystemStats>>
    /** Every sample recorded since start, oldest first. */
    ghost var samples: seq<SystemStats>

    /**
     * The ring invariant: the write position is the sample count modulo 60, and
     * reading the slots from the write position on gives the empty slots, then
     * the recent samples oldest first.
     */
    ghost predicate Valid()
      reads this, historyList
    {
      && historyIndex == |samples| % HistorySize
      && RingHolds(historyList[..], historyIndex, samples)
    }

    /** The core count is probed once; a failed probe counts as one core. */
    constructor (coreCount: Option<int>)
      ensures Valid() && fresh(historyList)
      ensures samples == [] && lastNet == NetState(0, 0, None)
      ensures cores == coreCount.GetOr(1)
    {
      cores := coreCount.GetOr(1);
      lastNet := NetState(0, 0, None);
      historyIndex := 0;
      historyList := new Option<SystemStats>[HistorySize](_ => None);
      samples := [];
      new;
      RingEmpty<SystemStats>();
      assert historyList[..] == seq(HistorySize, _ => None);
    }

    /**
     * GetStats: builds a snapshot, advances the network state, and stores the
     * snapshot in the slot at the write position, which then moves on by one modulo 60.
     */
    method GetStats(reading: HostReading, now: int) returns (stats: SystemStats)
      requires Valid()
      modifies this, historyList
      ensures Valid()
      ensures stats == Snapshot(reading, cores, old(lastNet), now)
      ensures lastNet == NetStep(old(lastNet), reading.net, now).next
      ensures samples == old(samples) + [stats]
      ensures historyIndex == (old(historyIndex) + 1) % HistorySize
      ensures historyList[old(historyIndex)] == Some(stats)
      ensures forall j :: 0 <= j < HistorySize && j != old(historyIndex) ==> historyList[j] == old(historyList[j])
    {
      stats := Snapshot(reading, cores, lastNet, now);
      lastNet := NetStep(lastNet, reading.net, now).next;

      ghost var before := historyList[..];
      ghost var o := historyIndex;
      ghost var s0 := samples;
      RingWrite(before, o, s0, stats);
      NextPosition(|s0|, o);
      historyList[historyIndex] := Some(stats);
      historyIndex := (historyIndex + 1) % HistorySize;
      samples := samples + [stats];
      assert historyList[..] == before[o := Some(stats)];
    }

    /** The first loop of GeneratePoints: the picked value of each filled slot, read from the oldest. */
    method Chronological(picker: SystemStats -> real) returns (ordered: seq<real>)
      requires Valid()
      ensures |ordered| == |Recent(samples)|
      ensures forall k :: 0 <= k < |ordered| ==> ordered[k] == picker(Recent(samples)[k])
    {
      ghost var r := Recent(samples);
      ghost var gap := HistorySize - |r|;
      ghost var ring := historyList[..];
      ordered := [];
      var i := 0;
      while i < HistorySize
        invariant 0 <= i <= HistorySize
        invariant |ordered| == if i < gap then 0 else i - gap
        invariant forall k :: 0 <= k < |ordered| ==> ordered[k] == picker(r[k])
      {
        var idx := (historyIndex + i) % HistorySize;
        assert historyList[idx] == ring[(historyIndex + i) % HistorySize] == Slot(samples, i);
        assert Slot(samples, i) == if i < gap then None else Some(r[i - gap]);
        if historyList[idx].Some? {
          ordered := ordered + [picker(historyList[idx].value)];
        }
        i := i + 1;
      }
    }

    /**
     * GeneratePoints: the recent samples in chronological order, one point per
     * sample. Nothing is drawn without samples; a lone sample becomes a flat
     * line across the chart without clamping; otherwise each value is clamped
     * into [0, maxVal] and the points are spread evenly over the width.
     */
    method GeneratePoints(width: real, height: real, maxVal: real, picker: SystemStats -> real)
      returns (points: seq<Point>)
      requires Valid()
      requires maxVal != 0.0
      ensures var r := Recent(samples);
        && (|r| == 0 ==> points == [])
        && (|r| == 1 ==>
              points == [Point(0.0, ChartY(picker(r[0]), maxVal, height)), Point(width, ChartY(picker(r[0]), maxVal, height))])
        && (|r| >= 2 ==>
              |points| == |r|
              && forall i :: 0 <= i < |r| ==>
                   points[i] == Point(ChartX(i, width), ChartY(Clamp(picker(r[i]), maxVal), maxVal, height)))
    {
      var ordered := Chronological(picker);
      if |ordered| == 0 {
        return [];
      }
      if |ordered| == 1 {
        var y := ChartY(ordered[0], maxVal, height);
        return [Point(0.0, y), Point(width, y)];
      }
      points := [];
      var j := 0;
      while j < |ordered|
        invariant 0 <= j <= |ordered|
        invariant |points| == j
        invariant forall k :: 0 <= k < j ==> points[k] == Point(ChartX(k, width), ChartY(Clamp(ordered[k], maxVal), maxVal, height))
      {
        var val := ordered[j];
        if val > maxVal {
          val := maxVal;
        }
        if val < 0.0 {
          val := 0.0;
        }
        points := points + [Point(ChartX(j, width), ChartY(val, maxVal, height))];
        j := j + 1;
      }
    }
  }

  /** After 65 samples the ring holds exactly the 60 most recent ones, oldest first. */
  lemma SixtyFiveSamples<T>(samples: seq<T>)
    requires |samples| == 65
    ensures Recent(samples) == samples[5..]
  {
  }
}
