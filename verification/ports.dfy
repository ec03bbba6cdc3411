/** Serial-port candidates and the "first candidate that opens wins" search
    both readers use to acquire a link. Whether a port opens is not known to
    the model: it is a predicate supplied by the caller. */
module Ports {
  import opened Optional

  type Port = string

  /** The candidate list `get_serial_ports` returns off Windows, in order. */
  const NonWindowsPorts: seq<Port> := ["/dev/ttyACM0", "/dev/ttyAMA0", "/dev/ttyUSB0", "/dev/serial0"]

  /** Index of the first candidate that opens, or `|ports|` when none does. */
  function FirstOpenIndex(ports: seq<Port>, opens: Port -> bool): (k: nat)
    ensures k <= |ports|
    ensures forall j :: 0 <= j < k ==> !opens(ports[j])
    ensures k < |ports| ==> opens(ports[k])
  {
    if |ports| == 0 then 0
    else if opens(ports[0]) then 0
    else 1 + FirstOpenIndex(ports[1..], opens)
  }

  /** Candidate k opens and every earlier candidate fails. */
  predicate FirstOpening(ports: seq<Port>, opens: Port -> bool, k: int) {
    0 <= k < |ports| && opens(ports[k]) && forall j :: 0 <= j < k ==> !opens(ports[j])
  }

  /** The handle the search ends with: the first candidate, in list order,
      that opens; None when every candidate fails. */
  function FirstOpen(ports: seq<Port>, opens: Port -> bool): (r: Option<Port>)
    ensures r.None? <==> forall j :: 0 <= j < |ports| ==> !opens(ports[j])
    ensures r.Some? ==> exists k :: FirstOpening(ports, opens, k) && ports[k] == r.value
  {
    var k := FirstOpenIndex(ports, opens);
    if k < |ports| then Some(ports[k]) else None
  }

  /** The candidates actually tried, in order: up to and including the first
      that opens, or all of them. */
  function Tried(ports: seq<Port>, opens: Port -> bool): (tried: seq<Port>)
    ensures |tried| <= |ports| && tried == ports[..|tried|]
    ensures forall j :: 0 <= j < |tried| - 1 ==> !opens(tried[j])
    ensures |tried| < |ports| ==> |tried| > 0 && opens(tried[|tried| - 1])
    ensures |tried| == |ports| ==> forall j :: 0 <= j < |ports| - 1 ==> !opens(ports[j])
  {
    var k := FirstOpenIndex(ports, opens);
    if k < |ports| then ports[..k + 1] else ports
  }

  /** The acquisition loop: try each candidate in order and stop at the
      first that opens (`break`), leaving the rest untried. */
  method Acquire(ports: seq<Port>, opens: Port -> bool) returns (handle: Option<Port>, tried: seq<Port>)
    ensures |tried| <= |ports| && tried == ports[..|tried|]
    ensures forall j :: 0 <= j < |tried| - 1 ==> !opens(tried[j])
    ensures handle.Some? ==> |tried| > 0 && handle.value == tried[|tried| - 1] && opens(handle.value)
    ensures handle.None? ==> tried == ports && forall j :: 0 <= j < |ports| ==> !opens(ports[j])
    ensures handle == FirstOpen(ports, opens) && tried == Tried(ports, opens)
  {
    handle := None;
    tried := [];
    var i := 0;
    while i < |ports| && handle.None?
      invariant 0 <= i <= |ports|
      invariant tried == ports[..i]
      invariant handle.None? ==> forall j :: 0 <= j < i ==> !opens(ports[j])
      invariant handle.Some? ==> 0 < i && handle.value == ports[i - 1] && opens(ports[i - 1])
      invariant handle.Some? ==> forall j :: 0 <= j < i - 1 ==> !opens(ports[j])
      decreases |ports| - i
    {
      tried := tried + [ports[i]];
      if opens(ports[i]) {
        handle := Some(ports[i]);
      }
      i := i + 1;
    }
    assert tried == ports[..i];
    FirstOpenIndexUnique(ports, opens, if handle.Some? then i - 1 else |ports|);
  }

  /** The first index that opens is the only one that fits its description. */
  lemma FirstOpenIndexUnique(ports: seq<Port>, opens: Port -> bool, k: nat)
    requires k <= |ports|
    requires forall j :: 0 <= j < k ==> !opens(ports[j])
    requires k < |ports| ==> opens(ports[k])
    ensures FirstOpenIndex(ports, opens) == k
  {
  }

  /** Off Windows the search tries the four devices in their fixed order. */
  lemma AcquireNonWindows(opens: Port -> bool)
    ensures FirstOpen(NonWindowsPorts, opens) ==
      if opens("/dev/ttyACM0") then Some("/dev/ttyACM0")
      else if opens("/dev/ttyAMA0") then Some("/dev/ttyAMA0")
      else if opens("/dev/ttyUSB0") then Some("/dev/ttyUSB0")
      else if opens("/dev/serial0") then Some("/dev/serial0")
      else None
    ensures opens("/dev/ttyACM0") ==> Tried(NonWindowsPorts, opens) == ["/dev/ttyACM0"]
    ensures |Tried(NonWindowsPorts, opens)| <= 4
  {
    var ps := NonWindowsPorts;
    assert ps[1..][1..][1..][1..] == [];
    assert ps[..1] == ["/dev/ttyACM0"];
  }
}
