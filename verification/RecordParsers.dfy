/** The line-oriented parsers that group lines into records and stop at a limit: `sc query`
    output, the Windows DNS cache, `dscacheutil` and `nscd` hosts. */
module RecordParsers {
  import opened Text

  type Record = map<string, string>

  /** What one line of output says. */
  datatype Line = Header(record: Record) | Field(key: string, value: string) | Skip

  datatype Format = ScQuery | WindowsDnsCache | Dscacheutil

  function TrimPrefix(s: string, p: string): string { if p <= s then s[|p|..] else s }

  /** The trimmed text after the first colon. */
  function AfterColon(l: string): Option<string>
  {
    var parts := Split(l, ':');
    if |parts| < 2 then None else Some(TrimSpace(Join(parts[1..], ':')))
  }

  function ColonField(l: string, key: string): Line
  {
    match AfterColon(l)
    case None => Skip
    case Some(v) => Field(key, v)
  }

  function ReadScLine(raw: string): Line
  {
    var l := TrimSpace(raw);
    if HasPrefix(l, "SERVICE_NAME:") then Header(map["name" := TrimSpace(TrimPrefix(l, "SERVICE_NAME:"))])
    else if HasPrefix(l, "STATE") then
      if |Fields(l)| >= 3 then Field("state", Fields(l)[2]) else Skip
    else if HasPrefix(l, "DISPLAY_NAME") then Field("displayName", TrimSpace(TrimPrefix(l, "DISPLAY_NAME:")))
    else Skip
  }

  function ReadDnsLine(raw: string): Line
  {
    var l := TrimSpace(raw);
    if HasPrefix(l, "Record Name") then
      match AfterColon(l)
      case None => Header(map[])
      case Some(v) => Header(map["name" := v])
    else if HasPrefix(l, "Record Type") then ColonField(l, "type")
    else if HasPrefix(l, "Time To Live") then ColonField(l, "ttl")
    else if HasPrefix(LowerAscii(l), "record data") then ColonField(l, "data")
    else Skip
  }

  function ReadDscacheLine(raw: string): Line
  {
    var l := TrimSpace(raw);
    if HasPrefix(l, "name:") then Header(map["name" := TrimSpace(TrimPrefix(l, "name:"))])
    else if HasPrefix(l, "ip_address:") then Field("data", TrimSpace(TrimPrefix(l, "ip_address:")))
    else Skip
  }

  function ReadLine(format: Format, raw: string): Line
  {
    match format
    case ScQuery => ReadScLine(raw)
    case WindowsDnsCache => ReadDnsLine(raw)
    case Dscacheutil => ReadDscacheLine(raw)
  }

  function Lines(format: Format, text: string): seq<Line>
  {
    Mapped(Split(text, '\n'), l => ReadLine(format, l))
  }

  // ----- grouping without a limit

  /** The records closed by a header, and the one still open. */
  datatype Grouping = Grouping(closed: seq<Record>, open: Record)

  /** A record without fields is dropped. */
  function Close(g: Grouping): seq<Record>
  {
    if g.open == map[] then g.closed else g.closed + [g.open]
  }

  function AddRecordLine(g: Grouping, l: Line): Grouping
  {
    match l
    case Header(r) => Grouping(Close(g), r)
    case Field(k, v) => g.(open := g.open[k := v])
    case Skip => g
  }

  function Group(lines: seq<Line>): Grouping
  {
    if lines == [] then Grouping([], map[])
    else AddRecordLine(Group(lines[..|lines| - 1]), lines[|lines| - 1])
  }

  function Records(lines: seq<Line>): seq<Record> { Close(Group(lines)) }

  lemma GroupSnoc(lines: seq<Line>, i: nat)
    requires i < |lines|
    ensures Group(lines[..i + 1]) == AddRecordLine(Group(lines[..i]), lines[i])
  {
    assert lines[..i + 1][..i] == lines[..i];
  }

  lemma {:induction false} ClosedGrows(lines: seq<Line>, i: nat)
    requires i <= |lines|
    ensures Group(lines[..i]).closed <= Group(lines).closed
    decreases |lines|
  {
    if i == |lines| {
      assert lines[..i] == lines;
    } else {
      var init := lines[..|lines| - 1];
      ClosedGrows(init, i);
      assert init[..i] == lines[..i];
    }
  }

  function Mapped<T>(raw: seq<string>, read: string -> T): seq<T>
  {
    seq(|raw|, i requires 0 <= i < |raw| => read(raw[i]))
  }

  /** What a run that stopped or ended with `res` returns for a limit. */
  ghost predicate Limited(res: seq<Record>, g: Grouping, limit: int)
  {
    res == if limit >= 1 then Take(Close(g), limit) else Take(g.closed, 1)
  }

  lemma StoppedIsLimited(res: seq<Record>, lines: seq<Line>, i: nat, limit: int)
    requires i <= |lines| && res == Group(lines[..i]).closed
    requires |res| == if limit >= 1 then limit else 1
    ensures Limited(res, Group(lines), limit)
  {
    ClosedGrows(lines, i);
  }

  /** The loop of the three parsers, with `read` for their tests of a line. */
  method GroupRecords(raw: seq<string>, read: string -> Line, limit: int) returns (res: seq<Record>)
    ensures Limited(res, Group(Mapped(raw, read)), limit)
  {
    ghost var lines := Mapped(raw, read);
    res := [];
    var cur: Record := map[];
    assert lines[..0] == [];
    for i := 0 to |raw|
      invariant Group(lines[..i]) == Grouping(res, cur)
      invariant |res| < (if limit >= 1 then limit else 1)
    {
      GroupSnoc(lines, i);
      match read(raw[i])
      case Header(r) =>
        if cur != map[] {
          res := res + [cur];
          if |res| >= limit {
            StoppedIsLimited(res, lines, i + 1, limit);
            return;
          }
        }
        cur := r;
      case Field(k, v) =>
        cur := cur[k := v];
      case Skip =>
    }
    assert lines[..|raw|] == lines;
    if cur != map[] && |res| < limit {
      res := res + [cur];
    }
  }

  /** The three parsers. For a positive limit the result is the first `limit` records of the
      text; for any other it is the first record that a later header closes. */
  method ParseRecords(format: Format, text: string, limit: int) returns (res: seq<Record>)
    ensures limit >= 1 ==> res == Take(Records(Lines(format, text)), limit)
    ensures limit < 1 ==> res == Take(Group(Lines(format, text)).closed, 1)
  {
    res := GroupRecords(Split(text, '\n'), l => ReadLine(format, l), limit);
  }

  lemma Regroup<T>(a: seq<T>, b: seq<T>, c: seq<T>)
    ensures (a + b) + c == a + (b + c)
  {}

  /** Records are cut at headers: the records of a text whose second part begins with a header
      are those of the first part followed by those of the second. */
  lemma {:induction false} RecordsCutAtHeaders(a: seq<Line>, b: seq<Line>)
    requires b != [] && b[0].Header?
    ensures Group(a + b) == Grouping(Records(a) + Group(b).closed, Group(b).open)
    ensures Records(a + b) == Records(a) + Records(b)
  {
    var init, last := b[..|b| - 1], b[|b| - 1];
    assert (a + b)[..|a + b| - 1] == a + init;
    if init == [] {
      assert a + init == a;
      assert Group(b) == Grouping([], last.record);
      assert Records(a) + [] == Records(a);
    } else {
      RecordsCutAtHeaders(a, init);
      Regroup(Records(a), Group(init).closed, [Group(init).open]);
    }
    Regroup(Records(a), Group(b).closed, [Group(b).open]);
  }

  // ----- nscd: addresses are added to the last record

  datatype NscdLine = Name(name: string) | Address(value: string) | Noise

  datatype Host = Host(name: string, data: Option<string>)

  function ReadNscdLine(raw: string): NscdLine
  {
    var l := TrimSpace(raw);
    if HasPrefix(l, "name:") then
      if |Fields(l)| >= 2 then Name(Fields(l)[1]) else Noise
    else if HasPrefix(l, "ip_address:") then Address(TrimSpace(TrimPrefix(l, "ip_address:")))
    else Noise
  }

  function NscdLines(text: string): seq<NscdLine>
  {
    Mapped(Split(text, '\n'), ReadNscdLine)
  }

  function AddLine(hosts: seq<Host>, l: NscdLine): seq<Host>
  {
    match l
    case Name(n) => hosts + [Host(n, None)]
    case Address(v) => if hosts == [] then hosts else hosts[|hosts| - 1 := hosts[|hosts| - 1].(data := Some(v))]
    case Noise => hosts
  }

  function Hosts(lines: seq<NscdLine>): seq<Host>
  {
    if lines == [] then [] else AddLine(Hosts(lines[..|lines| - 1]), lines[|lines| - 1])
  }

  lemma HostsSnoc(lines: seq<NscdLine>, i: nat)
    requires i < |lines|
    ensures Hosts(lines[..i + 1]) == AddLine(Hosts(lines[..i]), lines[i])
  {
    assert lines[..i + 1][..i] == lines[..i];
  }

  /** Cut at n records: the last one is taken before its address is read. */
  function CutHosts(hosts: seq<Host>, n: nat): seq<Host>
    requires n >= 1
  {
    if |hosts| < n then hosts else hosts[..n - 1] + [hosts[n - 1].(data := None)]
  }

  lemma {:induction false} HostsGrow(lines: seq<NscdLine>, i: nat)
    requires i <= |lines| && Hosts(lines[..i]) != []
    ensures var early, late := Hosts(lines[..i]), Hosts(lines);
      && |early| <= |late|
      && early[..|early| - 1] == late[..|early| - 1]
      && early[|early| - 1].name == late[|early| - 1].name
    decreases |lines|
  {
    if i == |lines| {
      assert lines[..i] == lines;
    } else {
      var init := lines[..|lines| - 1];
      assert init[..i] == lines[..i];
      HostsGrow(init, i);
    }
  }

  lemma LastReset(early: seq<Host>, late: seq<Host>)
    requires early != [] && |early| <= |late| && early[..|early| - 1] == late[..|early| - 1]
    requires early[|early| - 1].name == late[|early| - 1].name && early[|early| - 1].data == None
    ensures early == CutHosts(late, |early|)
  {
    var k := |early| - 1;
    assert early[k] == late[k].(data := None);
    assert early == early[..k] + [early[k]];
  }

  lemma StoppedIsCut(res: seq<Host>, lines: seq<NscdLine>, i: nat)
    requires i <= |lines| && res == Hosts(lines[..i]) && res != [] && res[|res| - 1].data == None
    ensures res == CutHosts(Hosts(lines), |res|)
  {
    HostsGrow(lines, i);
    LastReset(res, Hosts(lines));
  }

  method CollectHosts(raw: seq<string>, read: string -> NscdLine, limit: int) returns (res: seq<Host>)
    ensures res == CutHosts(Hosts(Mapped(raw, read)), if limit >= 1 then limit else 1)
  {
    ghost var lines := Mapped(raw, read);
    res := [];
    assert lines[..0] == [];
    for i := 0 to |raw|
      invariant res == Hosts(lines[..i])
      invariant |res| < (if limit >= 1 then limit else 1)
    {
      HostsSnoc(lines, i);
      match read(raw[i])
      case Name(n) =>
        res := res + [Host(n, None)];
        if |res| >= limit {
          StoppedIsCut(res, lines, i + 1);
          return;
        }
      case Address(v) =>
        if |res| > 0 {
          res := res[|res| - 1 := res[|res| - 1].(data := Some(v))];
        }
      case Noise =>
    }
    assert lines[..|raw|] == lines;
  }

  /** The limited result agrees with the unlimited one up to the limit, except that the last
      record has no address. */
  method ParseNscdHosts(text: string, limit: int) returns (res: seq<Host>)
    ensures res == CutHosts(Hosts(NscdLines(text)), if limit >= 1 then limit else 1)
    ensures var all, n := Hosts(NscdLines(text)), if limit >= 1 then limit else 1;
      && |res| == (if |all| < n then |all| else n)
      && forall k :: 0 <= k < |res| ==> res[k] == if k == n - 1 then Host(all[k].name, None) else all[k]
  {
    res := CollectHosts(Split(text, '\n'), ReadNscdLine, limit);
  }
}
