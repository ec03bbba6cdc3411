/** The RC-line parser of the Taranis reader: a line such as
    "CH1:1500,CH2:1200" becomes a map from channel name to pulse value. */
module RcChannels {
  import opened Optional
  import opened Text
  import opened Telemetry

  /** How one comma-separated part of a line is treated: a part without ':'
      is skipped; a part with exactly one ':' and an integer after it is an
      entry; any other part with a ':' raises, which `Bad` stands for. */
  datatype Part = Skip | Entry(key: string, value: int) | Bad

  function ClassifyPart(part: string): (r: Part)
    ensures r.Skip? <==> ':' !in part
    ensures r.Entry? ==>
      && ':' !in r.key
      && |r.key| < |part|
      && part == r.key + [':'] + part[|r.key| + 1..]
      && ParseInt(part[|r.key| + 1..]) == Some(r.value)
    ensures r.Bad? <==>
      ':' in part && (Count(part, ':') > 1 || ParseInt(part[IndexOf(part, ':') + 1..]).None?)
  {
    if ':' !in part then Skip
    else
      var pieces := Split(part, ':');
      ColonSplit(part, pieces);
      if |pieces| != 2 then Bad
      else
        match ParseInt(pieces[1])
        case None => Bad
        case Some(v) => Entry(pieces[0], v)
  }

  /** What `part.split(':')` tells about a part that contains ':': it has
      exactly two pieces when there is one ':', and then the pieces are the
      text before and after it. */
  lemma ColonSplit(part: string, pieces: seq<string>)
    requires ':' in part && pieces == Split(part, ':')
    ensures |pieces| == 2 <==> Count(part, ':') == 1
    ensures |pieces| != 2 <==> Count(part, ':') > 1
    ensures |pieces| == 2 ==>
      && ':' !in pieces[0]
      && |pieces[0]| < |part|
      && IndexOf(part, ':') == |pieces[0]|
      && part == pieces[0] + [':'] + pieces[1]
      && part[|pieces[0]| + 1..] == pieces[1]
  {
    if |pieces| == 2 {
      assert part == pieces[0] + [':'] + pieces[1] by {
        assert pieces[1..] == [pieces[1]];
        assert Join(pieces, ':') == pieces[0] + [':'] + Join(pieces[1..], ':');
      }
      assert part[..|pieces[0]|] == pieces[0];
      assert part[|pieces[0]|] == ':';
    }
  }

  /** Every part of a line, classified. */
  function Classify(parts: seq<string>): seq<Part>
  {
    seq(|parts|, i requires 0 <= i < |parts| => ClassifyPart(parts[i]))
  }

  /** Part i is an entry for channel k. */
  predicate EntryAt(ps: seq<Part>, k: string, i: int) {
    0 <= i < |ps| && ps[i].Entry? && ps[i].key == k
  }

  /** Part i is the last entry for channel k. */
  predicate LastEntry(ps: seq<Part>, k: string, i: int) {
    EntryAt(ps, k, i) && forall j :: i < j < |ps| ==> !EntryAt(ps, k, j)
  }

  predicate HasBad(ps: seq<Part>) {
    exists i :: 0 <= i < |ps| && ps[i].Bad?
  }

  /** The loop over the parts, building `channels` in order; None when some
      part raises, in which case the dictionary is never assigned. All or
      nothing: the loop fails exactly when some part is bad. */
  function ParseParts(ps: seq<Part>): (r: Option<map<string, int>>)
    ensures r.None? <==> HasBad(ps)
    decreases |ps|
  {
    if |ps| == 0 then Some(map[])
    else
      HasBadLast(ps);
      match ParseParts(ps[..|ps| - 1])
      case None => None
      case Some(m) =>
        match ps[|ps| - 1]
        case Skip => Some(m)
        case Bad => None
        case Entry(k, v) => Some(m[k := v])
  }

  /** A bad part lies among all but the last part, or is the last. */
  lemma HasBadLast(ps: seq<Part>)
    requires |ps| > 0
    ensures HasBad(ps) <==> HasBad(ps[..|ps| - 1]) || ps[|ps| - 1].Bad?
  {
    var n := |ps| - 1;
    var init := ps[..n];
    if HasBad(init) {
      var i :| 0 <= i < n && init[i].Bad?;
      assert ps[i] == init[i];
    }
    if HasBad(ps) && !ps[n].Bad? {
      var i :| 0 <= i < |ps| && ps[i].Bad?;
      assert i < n && init[i] == ps[i];
    }
  }

  /** Dropping the last part keeps the classification of the others. */
  lemma EntryAtPrefix(ps: seq<Part>, k: string, i: int)
    requires |ps| > 0
    ensures EntryAt(ps[..|ps| - 1], k, i) <==> i < |ps| - 1 && EntryAt(ps, k, i)
  {
    if 0 <= i < |ps| - 1 {
      assert ps[..|ps| - 1][i] == ps[i];
    }
  }

  /** On success the keys are exactly the keys of the entries. */
  lemma {:induction false} ParsePartsKeys(ps: seq<Part>)
    requires ParseParts(ps).Some?
    ensures forall k :: k in ParseParts(ps).value <==> exists i :: EntryAt(ps, k, i)
    decreases |ps|
  {
    if |ps| > 0 {
      var n := |ps| - 1;
      var init := ps[..n];
      ParsePartsKeys(init);
      var m := ParseParts(init).value;
      forall k
        ensures k in ParseParts(ps).value <==> exists i :: EntryAt(ps, k, i)
      {
        if k in m {
          var i :| EntryAt(init, k, i);
          EntryAtPrefix(ps, k, i);
        }
        if ps[n].Entry? && ps[n].key == k {
          assert EntryAt(ps, k, n);
        }
        if exists i :: EntryAt(ps, k, i) {
          var i :| EntryAt(ps, k, i);
          EntryAtPrefix(ps, k, i);
        }
      }
    }
  }

  /** On success each key holds the value of its last entry: a later
      duplicate overwrites an earlier one. */
  lemma {:induction false} ParsePartsLastWins(ps: seq<Part>, k: string, i: int)
    requires ParseParts(ps).Some? && LastEntry(ps, k, i)
    ensures k in ParseParts(ps).value
    ensures ParseParts(ps).value[k] == ps[i].value
    decreases |ps|
  {
    var n := |ps| - 1;
    var init := ps[..n];
    if i < n {
      assert !EntryAt(ps, k, n);
      EntryAtPrefix(ps, k, i);
      forall j | i < j < n
        ensures !EntryAt(init, k, j)
      {
        EntryAtPrefix(ps, k, j);
      }
      ParsePartsLastWins(init, k, i);
    }
  }

  /** What one line does to the `rc` entry. */
  datatype RcOutcome = NotChannels | Malformed | Channels(channels: map<string, int>)

  /** The parts of a line, classified: stripped, split on ','. */
  function LineParts(line: string): seq<Part> {
    Classify(Split(Strip(line), ','))
  }

  /** The text of a line as read: no "CH" in it means it is not a channel
      line; otherwise it is stripped, split on ',' and its parts parsed. It
      is malformed exactly when some part raises, and otherwise gives the
      channels its entries name, each with the value of its last entry. */
  function ParseRcLine(line: string): (r: RcOutcome)
    ensures r.NotChannels? <==> !IsInfix("CH", line)
    ensures r.Malformed? <==> IsInfix("CH", line) && HasBad(LineParts(line))
    ensures r.Channels? ==> forall k :: k in r.channels <==> exists i :: EntryAt(LineParts(line), k, i)
    ensures r.Channels? ==> forall k, i :: LastEntry(LineParts(line), k, i) ==> r.channels[k] == LineParts(line)[i].value
  {
    if !IsInfix("CH", line) then NotChannels
    else
      var ps := LineParts(line);
      match ParseParts(ps)
      case None => Malformed
      case Some(m) =>
        ParsePartsKeys(ps);
        forall k, i | LastEntry(ps, k, i)
          ensures m[k] == ps[i].value
        {
          ParsePartsLastWins(ps, k, i);
        }
        Channels(m)
  }

  /** groundstation.py: an accepted line replaces `rc` wholesale; a line that
      is not a channel line, or that raises while parsing, leaves the whole
      snapshot as it was, and the reader goes on with the next line. */
  function ApplyRcLine(t: Snapshot, line: string): (r: Snapshot)
    ensures r == t.(rc := r.rc)
    ensures ParseRcLine(line).Channels? ==> r.rc == Some(ParseRcLine(line).channels)
    ensures !ParseRcLine(line).Channels? ==> r == t
  {
    match ParseRcLine(line)
    case Channels(m) => t.(rc := Some(m))
    case _ => t
  }

  /** groundstation/groundstation.py: the same parse with no `try` around it,
      so a malformed line raises out of the per-port session, which the outer
      handler ends; `open` is false exactly then. */
  function LegacyRcLine(t: Snapshot, line: string): (r: (Snapshot, bool))
    ensures r.0 == t.(rc := r.0.rc)
    ensures ParseRcLine(line).Channels? ==> r.0.rc == Some(ParseRcLine(line).channels)
    ensures !ParseRcLine(line).Channels? ==> r.0 == t
    ensures !r.1 <==> ParseRcLine(line).Malformed?
  {
    match ParseRcLine(line)
    case Channels(m) => (t.(rc := Some(m)), true)
    case Malformed => (t, false)
    case NotChannels => (t, true)
  }

  /** Both readers leave the same snapshot after any line; they differ only
      in whether the serial session survives a malformed one. */
  lemma LegacyAgrees(t: Snapshot, line: string)
    ensures LegacyRcLine(t, line).0 == ApplyRcLine(t, line)
    ensures LegacyRcLine(t, line).1 <==> !ParseRcLine(line).Malformed?
  {
  }

  /** A channel line with no ':' at all is not rejected: every part is
      skipped and `rc` becomes the empty map. */
  lemma NoColonGivesEmptyMap(line: string)
    requires IsInfix("CH", line) && ':' !in line
    ensures ParseRcLine(line) == Channels(map[])
  {
    var parts := Split(Strip(line), ',');
    var ps := LineParts(line);
    forall i | 0 <= i < |parts|
      ensures ps[i].Skip?
    {
      TrimKeeps(line, IsSpace);
      SplitSubset(Strip(line), ',', i);
    }
    ParsePartsKeys(ps);
  }

  lemma {:induction false} JoinContains(parts: seq<string>, sep: char, i: int, c: char)
    requires 0 <= i < |parts| && c in parts[i]
    ensures c in Join(parts, sep)
    decreases |parts|
  {
    if i > 0 {
      JoinContains(parts[1..], sep, i - 1, c);
    }
  }

  lemma SplitSubset(s: string, sep: char, i: int)
    requires 0 <= i < |Split(s, sep)|
    ensures forall c :: c in Split(s, sep)[i] ==> c in s
  {
    forall c | c in Split(s, sep)[i]
      ensures c in s
    {
      JoinContains(Split(s, sep), sep, i, c);
    }
  }

  /** One entry as a sender writes it: `name:value`. */
  function RenderEntry(e: (string, int)): string {
    e.0 + [':'] + IntToString(e.1)
  }

  /** A channel line as a sender writes it: entries joined by ','. */
  function FormatChannels(entries: seq<(string, int)>): string
    requires |entries| >= 1
  {
    Join(Pieces(entries), ',')
  }

  /** The map a dictionary ends up holding after assigning the entries in
      order: a later entry for a name replaces an earlier one. */
  function ToMap(entries: seq<(string, int)>): map<string, int>
    decreases |entries|
  {
    if |entries| == 0 then map[]
    else ToMap(entries[..|entries| - 1])[entries[|entries| - 1].0 := entries[|entries| - 1].1]
  }

  /** Names usable on a line: no separator characters. */
  predicate PlainName(k: string) {
    ',' !in k && ':' !in k
  }

  lemma IntToStringChars(v: int)
    ensures ',' !in IntToString(v) && ':' !in IntToString(v)
    ensures IsDigit(IntToString(v)[|IntToString(v)| - 1])
  {
    var d := NatToString(if v < 0 then -v else v);
    assert forall c :: c in d ==> IsDigit(c);
    if v < 0 {
      assert IntToString(v) == "-" + d;
    }
  }

  /** A rendered entry is classified as that entry. */
  lemma ClassifyRendered(k: string, v: int)
    requires PlainName(k)
    ensures ClassifyPart(RenderEntry((k, v))) == Entry(k, v)
  {
    var str := IntToString(v);
    IntToStringChars(v);
    var part := RenderEntry((k, v));
    assert part == Join([k, str], ':');
    SplitJoin([k, str], ':');
    assert ':' in part by { assert part[|k|] == ':'; }
    ParseIntToString(v);
  }

  lemma {:induction false} ParseEntries(entries: seq<(string, int)>, ps: seq<Part>)
    requires |ps| == |entries|
    requires forall i :: 0 <= i < |ps| ==> ps[i] == Entry(entries[i].0, entries[i].1)
    ensures ParseParts(ps) == Some(ToMap(entries))
    decreases |ps|
  {
    if |ps| > 0 {
      var n := |ps| - 1;
      ParseEntries(entries[..n], ps[..n]);
    }
  }

  /** The rendered entries of a line. */
  function Pieces(entries: seq<(string, int)>): seq<string>
  {
    seq(|entries|, i requires 0 <= i < |entries| => RenderEntry(entries[i]))
  }

  /** One rendered piece contains no ',' and is classified as its entry. */
  lemma PieceClassified(entries: seq<(string, int)>, i: int)
    requires 0 <= i < |entries| && PlainName(entries[i].0)
    ensures ',' !in Pieces(entries)[i]
    ensures Classify(Pieces(entries))[i] == Entry(entries[i].0, entries[i].1)
  {
    var piece := Pieces(entries)[i];
    assert piece == RenderEntry(entries[i]);
    assert Classify(Pieces(entries))[i] == ClassifyPart(piece);
    assert ',' !in piece by {
      IntToStringChars(entries[i].1);
    }
    ClassifyRendered(entries[i].0, entries[i].1);
  }

  /** No piece of a line contains the ',' that joins them, and each piece
      is classified as its entry. */
  lemma PiecesClassified(entries: seq<(string, int)>)
    requires forall i :: 0 <= i < |entries| ==> PlainName(entries[i].0)
    ensures forall i :: 0 <= i < |entries| ==> ',' !in Pieces(entries)[i]
    ensures forall i :: 0 <= i < |entries| ==>
      Classify(Pieces(entries))[i] == Entry(entries[i].0, entries[i].1)
  {
    forall i | 0 <= i < |entries|
      ensures ',' !in Pieces(entries)[i]
      ensures Classify(Pieces(entries))[i] == Entry(entries[i].0, entries[i].1)
    {
      PieceClassified(entries, i);
    }
  }

  /** A formatted line starts with its first name and ends with a digit,
      so `strip()` leaves it alone. */
  lemma FormattedIsStripped(entries: seq<(string, int)>)
    requires |entries| >= 1
    requires |entries[0].0| > 0 && !IsSpace(entries[0].0[0])
    ensures Strip(FormatChannels(entries)) == FormatChannels(entries)
  {
    var pieces := Pieces(entries);
    var line := FormatChannels(entries);
    var n := |entries| - 1;
    assert |line| > 0 && !IsSpace(line[0]) && !IsSpace(line[|line| - 1]) by {
      assert line == Join(pieces, ',');
      assert pieces[0] == RenderEntry(entries[0]) && pieces[n] == RenderEntry(entries[n]);
      IntToStringChars(entries[n].1);
      var last := pieces[n];
      assert last[|last| - 1] == IntToString(entries[n].1)[|IntToString(entries[n].1)| - 1];
      JoinLast(pieces, ',');
      assert line[0] == pieces[0][0];
    }
    assert Strip(line) == TrimBy(line, IsSpace);
  }

  /** The parser reads back exactly the map a formatted line describes:
      `parse(format(entries))` assigns the entries in order. The first name
      must not begin with whitespace, which `strip()` would remove. */
  lemma FormatThenParse(entries: seq<(string, int)>)
    requires |entries| >= 1
    requires forall i :: 0 <= i < |entries| ==> PlainName(entries[i].0)
    requires |entries[0].0| > 0 && !IsSpace(entries[0].0[0])
    requires IsInfix("CH", FormatChannels(entries))
    ensures ParseRcLine(FormatChannels(entries)) == Channels(ToMap(entries))
  {
    PiecesClassified(entries);
    FormattedIsStripped(entries);
    SplitJoin(Pieces(entries), ',');
    ParseEntries(entries, Classify(Pieces(entries)));
  }

  /** The example line of the reader's own comment. */
  lemma ExampleLine()
    ensures ParseRcLine("CH1:1500,CH2:1200") == Channels(map["CH1" := 1500, "CH2" := 1200])
  {
    var entries := [("CH1", 1500), ("CH2", 1200)];
    ExampleRendering();
    assert OccursAt("CH", "CH1:1500,CH2:1200", 0);
    FormatThenParse(entries);
  }

  /** The two-channel example is the rendering of its entries. */
  lemma ExampleRendering()
    ensures FormatChannels([("CH1", 1500), ("CH2", 1200)]) == "CH1:1500,CH2:1200"
    ensures ToMap([("CH1", 1500), ("CH2", 1200)]) == map["CH1" := 1500, "CH2" := 1200]
  {
    var entries := [("CH1", 1500), ("CH2", 1200)];
    assert IntToString(1500) == "1500";
    assert IntToString(1200) == "1200";
    assert RenderEntry(entries[0]) == "CH1:1500";
    assert RenderEntry(entries[1]) == "CH2:1200";
    assert Pieces(entries) == ["CH1:1500", "CH2:1200"];
    assert ["CH1:1500", "CH2:1200"][1..] == ["CH2:1200"];
    assert FormatChannels(entries) == "CH1:1500" + [','] + "CH2:1200";
  }

  /** End to end: a formatted channel line, received by either reader, sets
      `rc` to the last-wins map of its entries and keeps the session. */
  lemma FormatThenApply(t: Snapshot, entries: seq<(string, int)>)
    requires |entries| >= 1
    requires forall i :: 0 <= i < |entries| ==> PlainName(entries[i].0)
    requires |entries[0].0| > 0 && !IsSpace(entries[0].0[0])
    requires IsInfix("CH", FormatChannels(entries))
    ensures ApplyRcLine(t, FormatChannels(entries)) == t.(rc := Some(ToMap(entries)))
    ensures LegacyRcLine(t, FormatChannels(entries)) == (t.(rc := Some(ToMap(entries))), true)
  {
    FormatThenParse(entries);
  }
}
