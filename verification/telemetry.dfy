/** The groundstation's live telemetry snapshot and the per-datagram update
    rules applied by the UDP branch of the telemetry thread. */
module Telemetry {
  import opened Optional
  import opened Bytes

  /** A GPS fix in the radio link's raw units of 1e-7 degree. */
  datatype GpsFix = GpsFix(lat: int, lon: int)

  /** The exact degree value the source computes as `raw / 1e7`. */
  function Degrees(raw: int): (d: real)
    ensures d * 10_000_000.0 == raw as real
  {
    raw as real / 10_000_000.0
  }

  /** The shared telemetry dictionary. `rc` is None until the first RC line
      has been accepted: the dictionary has no "rc" key before that. */
  datatype Snapshot = Snapshot(
    altitude: real,
    speed: real,
    battery: real,
    gps: GpsFix,
    mode: string,
    heading: int,
    satellites: int,
    rc: Option<map<string, int>>)

  /** The values the dictionary holds at process start. */
  const Initial: Snapshot :=
    Snapshot(0.0, 0.0, 0.0, GpsFix(0, 0), "MANUAL", 0, 0, None)

  /** Python's `x % m` for a positive real modulus: the value in [0, m)
      that differs from `x` by a whole multiple of `m`. */
  function WrapReal(x: real, m: real): (r: real)
    requires m > 0.0
    ensures 0.0 <= r < m
    ensures 0.0 <= x < m ==> r == x
    ensures IsIntegral((x - r) / m)
  {
    var k := (x / m).Floor;
    FloorScale(x, m, k);
    var r := x - k as real * m;
    DivExact(k, m);
    assert x - r == k as real * m;
    r
  }

  lemma DivExact(k: int, m: real)
    requires m > 0.0
    ensures (k as real * m) / m == k as real
    ensures IsIntegral(k as real)
  {
  }

  /** `q` is a whole number. */
  predicate IsIntegral(q: real) {
    q.Floor as real == q
  }

  lemma FloorScale(x: real, m: real, k: int)
    requires m > 0.0 && k == (x / m).Floor
    ensures k as real * m <= x < k as real * m + m
    ensures 0.0 <= x < m ==> k == 0
  {
    var q := x / m;
    var f := k as real;
    assert f <= q < f + 1.0;
    assert q * m == x;
    var lo, hi := q - f, f + 1.0 - q;
    MulNonneg(lo, m);
    MulPos(hi, m);
    assert lo * m == x - f * m;
    assert hi * m == f * m + m - x;
    Between(x, m, lo * m, hi * m, f * m);
    if 0.0 <= x < m {
      assert 0.0 <= q < 1.0 by {
        MulNonneg(q, m);
        if q >= 1.0 {
          MulNonneg(q - 1.0, m);
        } else if q < 0.0 {
          MulPos(-q, m);
        }
      }
    }
  }

  /** The linear step of FloorScale, kept apart from its products. */
  lemma Between(x: real, m: real, a: real, b: real, p: real)
    requires a >= 0.0 && a == x - p
    requires b > 0.0 && b == p + m - x
    ensures p <= x < p + m
  {
  }

  lemma MulNonneg(a: real, b: real)
    requires a >= 0.0 && b >= 0.0
    ensures a * b >= 0.0
  {
  }

  lemma MulPos(a: real, b: real)
    requires a > 0.0 && b > 0.0
    ensures a * b > 0.0
  {
  }

  /** What one receive on the UDP socket produced. */
  datatype UdpEvent = Datagram(payload: seq<Byte>) | RecvTimeout | RecvError

  /** One pass of the UDP branch: any datagram, whatever its payload,
      advances the simulated readings; a timeout or another socket error
      leaves the snapshot as it was. */
  function UdpStep(t: Snapshot, ev: UdpEvent): (r: Snapshot)
    ensures !ev.Datagram? ==> r == t
    ensures ev.Datagram? ==> 0 <= r.heading < 360 && r.satellites == 12
    ensures ev.Datagram? ==> 0.0 <= r.altitude < 100.0 && 0.0 <= r.speed < 120.0
    ensures ev.Datagram? ==> r.battery >= 0.0 && (t.battery >= 0.0 ==> r.battery <= t.battery)
    ensures ev.Datagram? && 0 <= t.heading < 360 ==>
              r.heading == (if t.heading == 359 then 0 else t.heading + 1)
    ensures r.gps == t.gps && r.mode == t.mode && r.rc == t.rc
  {
    match ev
    case Datagram(_) =>
      var drained := t.battery - 0.01;
      t.(altitude := WrapReal(t.altitude + 0.1, 100.0),
         speed := WrapReal(t.speed + 0.5, 120.0),
         battery := if 0.0 >= drained then 0.0 else drained,
         heading := (t.heading + 1) % 360,
         satellites := 12)
    case _ => t
  }

  /** The snapshot after a sequence of UDP receives. */
  function UdpRun(t: Snapshot, evs: seq<UdpEvent>): Snapshot
    decreases |evs|
  {
    if |evs| == 0 then t else UdpRun(UdpStep(t, evs[0]), evs[1..])
  }

  /** Number of datagrams among the events. */
  function Datagrams(evs: seq<UdpEvent>): nat
  {
    if |evs| == 0 then 0 else (if evs[0].Datagram? then 1 else 0) + Datagrams(evs[1..])
  }

  /** From start-up, the heading counts datagrams modulo 360, the battery,
      which starts at 0, never leaves 0, and satellites reads 12 as soon as
      one datagram has arrived. */
  lemma {:induction false} UdpRunFromInitial(evs: seq<UdpEvent>)
    ensures UdpRun(Initial, evs).heading == Datagrams(evs) % 360
    ensures UdpRun(Initial, evs).battery == 0.0
    ensures UdpRun(Initial, evs).satellites == (if Datagrams(evs) > 0 then 12 else 0)
  {
    UdpRunCounts(Initial, evs);
  }

  lemma {:induction false} UdpRunCounts(t: Snapshot, evs: seq<UdpEvent>)
    requires 0 <= t.heading < 360 && t.battery == 0.0 && (t.satellites == 0 || t.satellites == 12)
    ensures UdpRun(t, evs).heading == (t.heading + Datagrams(evs)) % 360
    ensures UdpRun(t, evs).battery == 0.0
    ensures UdpRun(t, evs).satellites == (if Datagrams(evs) > 0 then 12 else t.satellites)
    decreases |evs|
  {
    if |evs| > 0 {
      var t' := UdpStep(t, evs[0]);
      UdpRunCounts(t', evs[1..]);
      if evs[0].Datagram? {
        assert t'.heading == (t.heading + 1) % 360;
        ModAddOne(t.heading, Datagrams(evs[1..]));
      }
    }
  }

  lemma ModAddOne(h: int, n: nat)
    ensures ((h + 1) % 360 + n) % 360 == (h + 1 + n) % 360
  {
  }

  /** What every reachable snapshot satisfies. */
  predicate Valid(t: Snapshot) {
    && 0.0 <= t.altitude < 100.0
    && 0.0 <= t.speed < 120.0
    && t.battery >= 0.0
    && IsInt32(t.gps.lat) && IsInt32(t.gps.lon)
    && t.mode == "MANUAL"
    && 0 <= t.heading < 360
    && (t.satellites == 0 || t.satellites == 12)
  }

  lemma InitialValid()
    ensures Valid(Initial)
  {
  }

  lemma UdpStepValid(t: Snapshot, ev: UdpEvent)
    requires Valid(t)
    ensures Valid(UdpStep(t, ev))
  {
  }
}
