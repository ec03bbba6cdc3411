/** One pass of each reader thread over the shared snapshot: the telemetry
    thread's UDP branch followed by its radio branch, and the RC lines of the
    Taranis thread. Loops, sleeps and thread start-up are outside the model;
    each function here is a single step. */
module Ingest {
  import opened Optional
  import opened Bytes
  import opened Telemetry
  import opened Ports
  import opened RadioGps
  import opened RcChannels

  /** What polling an open radio port produced: no waiting bytes, a chunk of
      them, or an I/O error raised by the serial driver. */
  datatype ReadOutcome = NoData | Chunk(bytes: seq<Byte>) | IoError

  /** The radio reader's state: the open port, if any, and the snapshot. */
  datatype RadioLink = RadioLink(handle: Option<Port>, snapshot: Snapshot)

  /** Radio branch of groundstation.py: without a handle, search the
      candidates for one; with a handle, poll it. An I/O error drops the
      handle so that the next pass searches again. */
  function RadioCycle(s: RadioLink, ports: seq<Port>, opens: Port -> bool, read: ReadOutcome): (r: RadioLink)
    ensures r.snapshot == s.snapshot.(gps := r.snapshot.gps)
    ensures r.snapshot != s.snapshot ==> r.handle.Some? && read.Chunk? && |read.bytes| > 0 && read.bytes[0] == GpsTag
    ensures s.handle.Some? ==> (if read.IoError? then r.handle.None? else r.handle == s.handle)
    ensures s.handle.None? && !read.IoError? ==> r.handle == FirstOpen(ports, opens)
    ensures read.IoError? ==> r.handle.None? && r.snapshot == s.snapshot
    ensures (s.handle.Some? || FirstOpen(ports, opens).Some?) && read.Chunk? ==>
      r.snapshot == ApplyGps(s.snapshot, read.bytes)
  {
    var h := if s.handle.None? then FirstOpen(ports, opens) else s.handle;
    if h.None? then RadioLink(None, s.snapshot)
    else
      match read
      case IoError => RadioLink(None, s.snapshot)
      case NoData => RadioLink(h, s.snapshot)
      case Chunk(p) => RadioLink(h, ApplyGps(s.snapshot, p))
  }

  /** One pass of the telemetry thread of groundstation.py: the UDP branch,
      then the radio branch. */
  function GroundCycle(s: RadioLink, udp: UdpEvent, ports: seq<Port>, opens: Port -> bool, read: ReadOutcome): (r: RadioLink)
    ensures r.handle == RadioCycle(s, ports, opens, read).handle
    ensures r.snapshot == UdpStep(s.snapshot, udp).(gps := r.snapshot.gps)
    ensures r.snapshot.gps == RadioCycle(s, ports, opens, read).snapshot.gps
  {
    RadioCycle(s.(snapshot := UdpStep(s.snapshot, udp)), ports, opens, read)
  }

  /** After an I/O error the next pass re-acquires: its handle is the first
      candidate that opens, whatever port was open before. */
  lemma DropThenReacquire(p: Port, t: Snapshot, udp: UdpEvent, ports: seq<Port>, opens: Port -> bool, read: ReadOutcome)
    requires !read.IoError?
    ensures var dropped := RadioCycle(RadioLink(Some(p), t), ports, opens, IoError);
      && dropped == RadioLink(None, t)
      && GroundCycle(dropped, udp, ports, opens, read).handle == FirstOpen(ports, opens)
  {
  }

  /** Every pass of either thread of groundstation.py keeps the snapshot
      valid: heading in [0, 360), battery non-negative, GPS fields within
      32-bit two's complement, and so on. */
  lemma GroundCycleValid(s: RadioLink, udp: UdpEvent, ports: seq<Port>, opens: Port -> bool, read: ReadOutcome)
    requires Valid(s.snapshot)
    ensures Valid(GroundCycle(s, udp, ports, opens, read).snapshot)
  {
    UdpStepValid(s.snapshot, udp);
  }

  lemma RcLineValid(t: Snapshot, line: string)
    requires Valid(t)
    ensures Valid(ApplyRcLine(t, line))
  {
  }

  /** Radio branch of groundstation/groundstation.py. The port is searched
      once, before the loop (`LegacyConnect`); if none opened, the name
      `elrs` is unbound and every pass raises NameError, which is swallowed.
      Any error while reading is swallowed too and the handle is kept: there
      is no reconnect. */
  function LegacyRadioCycle(s: RadioLink, read: ReadOutcome): (r: RadioLink)
    ensures r.handle == s.handle
    ensures r.snapshot == s.snapshot.(gps := r.snapshot.gps)
    ensures s.handle.None? || !read.Chunk? ==> r == s
    ensures r != s ==> |read.bytes| > 0 && read.bytes[0] == GpsTag
    ensures s.handle.Some? && read.Chunk? ==> r.snapshot == ApplyGpsLegacy(s.snapshot, read.bytes)
  {
    if s.handle.None? then s
    else
      match read
      case Chunk(p) => s.(snapshot := ApplyGpsLegacy(s.snapshot, p))
      case _ => s
  }

  /** The one search groundstation/groundstation.py makes before its loop. */
  function LegacyConnect(t: Snapshot, ports: seq<Port>, opens: Port -> bool): (r: RadioLink)
    ensures r.snapshot == t
    ensures r.handle.Some? <==> exists j :: 0 <= j < |ports| && opens(ports[j])
    ensures r.handle.Some? ==> exists k :: FirstOpening(ports, opens, k) && ports[k] == r.handle.value
    ensures r.handle == FirstOpen(ports, opens)
  {
    RadioLink(FirstOpen(ports, opens), t)
  }

  /** The legacy reader never changes its handle, whatever it reads: once
      the start-up search failed, no GPS is ever applied. */
  lemma {:induction false} LegacyHandleFixed(s: RadioLink, polls: seq<ReadOutcome>)
    ensures LegacyRun(s, polls).handle == s.handle
    ensures s.handle.None? ==> LegacyRun(s, polls) == s
    decreases |polls|
  {
    if |polls| > 0 {
      LegacyHandleFixed(LegacyRadioCycle(s, polls[0]), polls[1..]);
    }
  }

  function LegacyRun(s: RadioLink, polls: seq<ReadOutcome>): RadioLink
    decreases |polls|
  {
    if |polls| == 0 then s else LegacyRun(LegacyRadioCycle(s, polls[0]), polls[1..])
  }

  /** On the same open port and the same complete chunk, the two readers
      store the same fix when both fields have their top bit clear, and the
      legacy one stores each negative coordinate 2^32 higher. */
  lemma LegacyVersusCurrentCycle(p: Port, t: Snapshot, chunk: seq<Byte>, ports: seq<Port>, opens: Port -> bool)
    requires |chunk| >= 9 && chunk[0] == GpsTag
    ensures var cur := RadioCycle(RadioLink(Some(p), t), ports, opens, Chunk(chunk)).snapshot.gps;
      var legacy := LegacyRadioCycle(RadioLink(Some(p), t), Chunk(chunk)).snapshot.gps;
      && legacy.lat == cur.lat + (if cur.lat < 0 then Uint32Bound else 0)
      && legacy.lon == cur.lon + (if cur.lon < 0 then Uint32Bound else 0)
  {
    LegacyVersusSigned(chunk);
  }

  /** End to end in groundstation.py: once a port is open (already, or
      found by this pass's search), the chunk a sender writes for a fix puts
      exactly that fix into the snapshot and changes nothing else. */
  lemma RadioCycleStoresFix(s: RadioLink, ports: seq<Port>, opens: Port -> bool, fix: GpsFix, tail: seq<Byte>)
    requires s.handle.Some? || FirstOpen(ports, opens).Some?
    requires IsInt32(fix.lat) && IsInt32(fix.lon)
    ensures var r := RadioCycle(s, ports, opens, Chunk(EncodeGps(fix, tail)));
      && r.handle == (if s.handle.Some? then s.handle else FirstOpen(ports, opens))
      && r.snapshot == s.snapshot.(gps := fix)
  {
    GpsRoundTrip(fix, tail);
  }

  /** End to end in groundstation/groundstation.py: the same chunk on the
      open port stores each coordinate reduced modulo 2^32, that is, read
      back as an unsigned 32-bit value. */
  lemma LegacyCycleStoresFix(p: Port, t: Snapshot, fix: GpsFix, tail: seq<Byte>)
    requires IsInt32(fix.lat) && IsInt32(fix.lon)
    ensures LegacyRadioCycle(RadioLink(Some(p), t), Chunk(EncodeGps(fix, tail))).snapshot
      == t.(gps := GpsFix(fix.lat % Uint32Bound, fix.lon % Uint32Bound))
  {
    var chunk := EncodeGps(fix, tail);
    GpsRoundTrip(fix, tail);
    LegacyVersusSigned(chunk);
  }
}
