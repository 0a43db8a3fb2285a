/** Printing any list of records in a command's layout and parsing the text gives the records back. */
module RecordRoundTrips {
  import opened Text
  import opened RecordParsers
  import opened RecordLines

  // ----- sc query

  /** A service, with a line in between that is not read, such as its type. */
  datatype Service = Service(name: string, display: string, note: string, code: string, state: string)

  predicate ValidService(s: Service)
  {
    && Value(s.name) && Value(s.display) && Word(s.code) && Word(s.state)
    && Value(s.note)
    && !HasPrefix(s.note, "SERVICE_NAME:") && !HasPrefix(s.note, "STATE") && !HasPrefix(s.note, "DISPLAY_NAME")
  }

  const WIDE := "              "

  function StateText(s: Service): string { Spaced(["STATE", ":", s.code], [WIDE, " "], "  " + s.state) }

  function ServiceLine(s: Service, pad: string, eol: string, k: nat): string
    requires k < 5
  {
    if k == 0 then pad + "SERVICE_NAME:" + " " + s.name + eol
    else if k == 1 then pad + "DISPLAY_NAME:" + " " + s.display + eol
    else if k == 2 then pad + s.note + eol
    else if k == 3 then pad + StateText(s) + eol
    else eol
  }

  function ServiceMeaning(s: Service, k: nat): Line
    requires k < 5
  {
    if k == 0 then Header(map["name" := s.name])
    else if k == 1 then Field("displayName", s.display)
    else if k == 3 then Field("state", s.code)
    else Skip
  }

  lemma NoteLine(pad: string, note: string, eol: string)
    requires AllSpace(pad) && AllSpace(eol) && Trimmed(note)
    requires !HasPrefix(note, "SERVICE_NAME:") && !HasPrefix(note, "STATE") && !HasPrefix(note, "DISPLAY_NAME")
    ensures ReadScLine(pad + note + eol) == Skip
  {
    TrimSurrounded(pad, note, eol);
    OtherScLine(pad + note + eol);
  }

  lemma StateLine(s: Service, pad: string, eol: string)
    requires ValidService(s) && Margins(pad, eol)
    ensures ReadScLine(pad + StateText(s) + eol) == Field("state", s.code)
  {
    var rest := "  " + s.state;
    assert s.state[|s.state| - 1] in s.state && rest[|rest| - 1] == s.state[|s.state| - 1];
    ScStateLine(pad, WIDE, " ", s.code, rest, eol);
  }

  lemma StatePlain(s: Service)
    requires ValidService(s)
    ensures Plain(StateText(s))
  {
    WordIsPlain(s.code);
    WordIsPlain(s.state);
    SpacedPlain(["STATE", ":", s.code], [WIDE, " "], "  " + s.state);
  }

  lemma ServiceLineRead(s: Service, pad: string, eol: string, k: nat)
    requires ValidService(s) && Margins(pad, eol) && k < 5
    ensures ReadScLine(ServiceLine(s, pad, eol, k)) == ServiceMeaning(s, k)
  {
    if k == 0 {
      ScNameLine(pad, " ", s.name, eol);
    } else if k == 1 {
      ScDisplayLine(pad, " ", s.display, eol);
    } else if k == 2 {
      NoteLine(pad, s.note, eol);
    } else if k == 3 {
      StateLine(s, pad, eol);
    } else {
      BlankLine(eol);
    }
  }

  lemma ServiceLinePlain(s: Service, pad: string, eol: string, k: nat)
    requires ValidService(s) && Margins(pad, eol) && k < 5
    ensures Plain(ServiceLine(s, pad, eol, k))
  {
    StatePlain(s);
  }

  function ServiceBlock(s: Service, pad: string, eol: string): seq<string>
  {
    seq(5, k requires 0 <= k < 5 => ServiceLine(s, pad, eol, k))
  }

  function ServiceRecord(s: Service): Record
  {
    map["name" := s.name]["displayName" := s.display]["state" := s.code]
  }

  lemma ServiceGroup(s: Service, lines: seq<Line>)
    requires |lines| == 5 && forall k :: 0 <= k < 5 ==> lines[k] == ServiceMeaning(s, k)
    ensures Records(lines) == [ServiceRecord(s)]
  {
    GroupStart(lines, map["name" := s.name]);
    GroupSnoc(lines, 1);
    GroupSnoc(lines, 2);
    GroupSnoc(lines, 3);
    GroupSnoc(lines, 4);
    assert lines[..5] == lines;
    assert "name" in ServiceRecord(s);
    assert Group(lines) == Grouping([], ServiceRecord(s));
  }

  lemma ServiceReads(s: Service, pad: string, eol: string)
    requires ValidService(s) && Margins(pad, eol)
    ensures ReadsAs(ServiceBlock(s, pad, eol), l => ReadLine(ScQuery, l), ServiceRecord(s))
  {
    var read := l => ReadLine(ScQuery, l);
    var block := ServiceBlock(s, pad, eol);
    var lines := Mapped(block, read);
    forall k | 0 <= k < 5 ensures lines[k] == ServiceMeaning(s, k) && Plain(block[k]) {
      ServiceLineRead(s, pad, eol, k);
      ServiceLinePlain(s, pad, eol, k);
    }
    ServiceGroup(s, lines);
  }

  /** Printing any list of services in the layout of `sc query` and parsing it gives the services. */
  lemma ScQueryRoundTrip(services: seq<Service>, pad: string, eol: string)
    requires Margins(pad, eol) && forall s <- services :: ValidService(s)
    ensures var blocks := seq(|services|, i requires 0 <= i < |services| => ServiceBlock(services[i], pad, eol));
      Records(Lines(ScQuery, Join(Flat(blocks), '\n')))
        == seq(|services|, i requires 0 <= i < |services| => ServiceRecord(services[i]))
  {
    var blocks := seq(|services|, i requires 0 <= i < |services| => ServiceBlock(services[i], pad, eol));
    var records := seq(|services|, i requires 0 <= i < |services| => ServiceRecord(services[i]));
    forall k | 0 <= k < |services| ensures ReadsAs(blocks[k], l => ReadLine(ScQuery, l), records[k]) {
      ServiceReads(services[k], pad, eol);
    }
    BlocksRoundTrip(ScQuery, blocks, records);
  }

  // ----- the Windows DNS cache

  /** A cached answer, with a line in between that is not read, such as the length of the data. The
      label of the data may be written in any case of letters. */
  datatype Answer = Answer(name: string, kind: string, ttl: string, note: string, tag: string, data: string)

  predicate ValidAnswer(e: Answer)
  {
    && Value(e.name) && Value(e.kind) && Value(e.ttl) && Value(e.note) && Value(e.data)
    && LowerAscii(e.tag) == "record data"
    && !HasPrefix(e.note, "Record Name") && !HasPrefix(e.note, "Record Type")
    && !HasPrefix(e.note, "Time To Live") && !HasPrefix(LowerAscii(e.note), "record data")
  }

  const DOTS := " . . . . . "

  function AnswerLine(e: Answer, pad: string, eol: string, k: nat): string
    requires k < 6
  {
    if k == 0 then pad + ("Record Name" + DOTS + ":") + " " + e.name + eol
    else if k == 1 then pad + ("Record Type" + DOTS + ":") + " " + e.kind + eol
    else if k == 2 then pad + ("Time To Live" + DOTS + ":") + " " + e.ttl + eol
    else if k == 3 then pad + e.note + eol
    else if k == 4 then pad + (e.tag + DOTS + ":") + " " + e.data + eol
    else eol
  }

  function AnswerMeaning(e: Answer, k: nat): Line
    requires k < 6
  {
    if k == 0 then Header(map["name" := e.name])
    else if k == 1 then Field("type", e.kind)
    else if k == 2 then Field("ttl", e.ttl)
    else if k == 4 then Field("data", e.data)
    else Skip
  }

  lemma AnswerNote(e: Answer, pad: string, eol: string)
    requires ValidAnswer(e) && Margins(pad, eol)
    ensures ReadDnsLine(pad + e.note + eol) == Skip
  {
    TrimSurrounded(pad, e.note, eol);
    OtherDnsLine(pad + e.note + eol);
  }

  lemma AnswerLineRead(e: Answer, pad: string, eol: string, k: nat)
    requires ValidAnswer(e) && Margins(pad, eol) && k < 6
    ensures ReadDnsLine(AnswerLine(e, pad, eol, k)) == AnswerMeaning(e, k)
  {
    if k == 0 {
      DnsNameLine(pad, DOTS, " ", e.name, eol);
    } else if k == 1 {
      DnsTypeLine(pad, DOTS, " ", e.kind, eol);
    } else if k == 2 {
      DnsTtlLine(pad, DOTS, " ", e.ttl, eol);
    } else if k == 3 {
      AnswerNote(e, pad, eol);
    } else if k == 4 {
      DnsDataLine(pad, e.tag, DOTS, " ", e.data, eol);
    } else {
      BlankLine(eol);
    }
  }

  lemma TagPlain(tag: string)
    requires LowerAscii(tag) == "record data"
    ensures Plain(tag)
  {
    var low := LowerAscii(tag);
    assert |low| == |tag|;
    forall k | 0 <= k < |tag| ensures tag[k] != '\n' {
      assert low[k] == "record data"[k] != '\n';
    }
  }

  lemma AnswerLinePlain(e: Answer, pad: string, eol: string, k: nat)
    requires ValidAnswer(e) && Margins(pad, eol) && k < 6
    ensures Plain(AnswerLine(e, pad, eol, k))
  {
    TagPlain(e.tag);
  }

  function AnswerBlock(e: Answer, pad: string, eol: string): seq<string>
  {
    seq(6, k requires 0 <= k < 6 => AnswerLine(e, pad, eol, k))
  }

  function AnswerRecord(e: Answer): Record
  {
    map["name" := e.name]["type" := e.kind]["ttl" := e.ttl]["data" := e.data]
  }

  lemma AnswerGroup(e: Answer, lines: seq<Line>)
    requires |lines| == 6 && forall k :: 0 <= k < 6 ==> lines[k] == AnswerMeaning(e, k)
    ensures Records(lines) == [AnswerRecord(e)]
  {
    GroupStart(lines, map["name" := e.name]);
    GroupSnoc(lines, 1);
    GroupSnoc(lines, 2);
    GroupSnoc(lines, 3);
    GroupSnoc(lines, 4);
    GroupSnoc(lines, 5);
    assert lines[..6] == lines;
    assert "name" in AnswerRecord(e);
    assert Group(lines) == Grouping([], AnswerRecord(e));
  }

  lemma AnswerReads(e: Answer, pad: string, eol: string)
    requires ValidAnswer(e) && Margins(pad, eol)
    ensures ReadsAs(AnswerBlock(e, pad, eol), l => ReadLine(WindowsDnsCache, l), AnswerRecord(e))
  {
    var read := l => ReadLine(WindowsDnsCache, l);
    var block := AnswerBlock(e, pad, eol);
    var lines := Mapped(block, read);
    forall k | 0 <= k < 6 ensures lines[k] == AnswerMeaning(e, k) && Plain(block[k]) {
      AnswerLineRead(e, pad, eol, k);
      AnswerLinePlain(e, pad, eol, k);
    }
    AnswerGroup(e, lines);
  }

  /** The same for the display of the Windows DNS cache. */
  lemma DnsCacheRoundTrip(answers: seq<Answer>, pad: string, eol: string)
    requires Margins(pad, eol) && forall e <- answers :: ValidAnswer(e)
    ensures var blocks := seq(|answers|, i requires 0 <= i < |answers| => AnswerBlock(answers[i], pad, eol));
      Records(Lines(WindowsDnsCache, Join(Flat(blocks), '\n')))
        == seq(|answers|, i requires 0 <= i < |answers| => AnswerRecord(answers[i]))
  {
    var blocks := seq(|answers|, i requires 0 <= i < |answers| => AnswerBlock(answers[i], pad, eol));
    var records := seq(|answers|, i requires 0 <= i < |answers| => AnswerRecord(answers[i]));
    forall k | 0 <= k < |answers| ensures ReadsAs(blocks[k], l => ReadLine(WindowsDnsCache, l), records[k]) {
      AnswerReads(answers[k], pad, eol);
    }
    BlocksRoundTrip(WindowsDnsCache, blocks, records);
  }

  // ----- dscacheutil

  /** A host with its address. */
  datatype Named = Named(name: string, address: string)

  function NamedLine(h: Named, pad: string, eol: string, k: nat): string
    requires k < 3
  {
    if k == 0 then pad + "name:" + " " + h.name + eol
    else if k == 1 then pad + "ip_address:" + " " + h.address + eol
    else eol
  }

  function NamedMeaning(h: Named, k: nat): Line
    requires k < 3
  {
    if k == 0 then Header(map["name" := h.name]) else if k == 1 then Field("data", h.address) else Skip
  }

  lemma NamedLineRead(h: Named, pad: string, eol: string, k: nat)
    requires Value(h.name) && Value(h.address) && Margins(pad, eol) && k < 3
    ensures ReadDscacheLine(NamedLine(h, pad, eol, k)) == NamedMeaning(h, k)
  {
    if k == 0 {
      DscacheNameLine(pad, " ", h.name, eol);
    } else if k == 1 {
      AddressLine(pad, " ", h.address, eol);
    } else {
      BlankLine(eol);
    }
  }

  lemma NamedLinePlain(h: Named, pad: string, eol: string, k: nat)
    requires Value(h.name) && Value(h.address) && Margins(pad, eol) && k < 3
    ensures Plain(NamedLine(h, pad, eol, k))
  {}

  function NamedBlock(h: Named, pad: string, eol: string): seq<string>
  {
    seq(3, k requires 0 <= k < 3 => NamedLine(h, pad, eol, k))
  }

  function NamedRecord(h: Named): Record { map["name" := h.name]["data" := h.address] }

  lemma NamedGroup(h: Named, lines: seq<Line>)
    requires |lines| == 3 && forall k :: 0 <= k < 3 ==> lines[k] == NamedMeaning(h, k)
    ensures Records(lines) == [NamedRecord(h)]
  {
    GroupStart(lines, map["name" := h.name]);
    GroupSnoc(lines, 1);
    GroupSnoc(lines, 2);
    assert lines[..3] == lines;
    assert "name" in NamedRecord(h);
    assert Group(lines) == Grouping([], NamedRecord(h));
  }

  lemma NamedReads(h: Named, pad: string, eol: string)
    requires Value(h.name) && Value(h.address) && Margins(pad, eol)
    ensures ReadsAs(NamedBlock(h, pad, eol), l => ReadLine(Dscacheutil, l), NamedRecord(h))
  {
    var read := l => ReadLine(Dscacheutil, l);
    var block := NamedBlock(h, pad, eol);
    var lines := Mapped(block, read);
    forall k | 0 <= k < 3 ensures lines[k] == NamedMeaning(h, k) && Plain(block[k]) {
      NamedLineRead(h, pad, eol, k);
      NamedLinePlain(h, pad, eol, k);
    }
    NamedGroup(h, lines);
  }

  /** The same for the hosts that dscacheutil prints. */
  lemma DscacheutilRoundTrip(hosts: seq<Named>, pad: string, eol: string)
    requires Margins(pad, eol) && forall h <- hosts :: Value(h.name) && Value(h.address)
    ensures var blocks := seq(|hosts|, i requires 0 <= i < |hosts| => NamedBlock(hosts[i], pad, eol));
      Records(Lines(Dscacheutil, Join(Flat(blocks), '\n')))
        == seq(|hosts|, i requires 0 <= i < |hosts| => NamedRecord(hosts[i]))
  {
    var blocks := seq(|hosts|, i requires 0 <= i < |hosts| => NamedBlock(hosts[i], pad, eol));
    var records := seq(|hosts|, i requires 0 <= i < |hosts| => NamedRecord(hosts[i]));
    forall k | 0 <= k < |hosts| ensures ReadsAs(blocks[k], l => ReadLine(Dscacheutil, l), records[k]) {
      NamedReads(hosts[k], pad, eol);
    }
    BlocksRoundTrip(Dscacheutil, blocks, records);
  }

  // ----- nscd

  /** A host with what follows its name on the line, which is not read, and its address. */
  datatype Listed = Listed(name: string, rest: string, address: string)

  predicate ValidListed(h: Listed) { Word(h.name) && RestOfLine(h.rest) && Plain(h.rest) && Value(h.address) }

  function ListedLine(h: Listed, pad: string, eol: string, k: nat): string
    requires k < 3
  {
    if k == 0 then pad + Spaced(["name:", h.name], [" "], h.rest) + eol
    else if k == 1 then pad + "ip_address:" + " " + h.address + eol
    else eol
  }

  function ListedMeaning(h: Listed, k: nat): NscdLine
    requires k < 3
  {
    if k == 0 then Name(h.name) else if k == 1 then Address(h.address) else Noise
  }

  lemma ListedLineRead(h: Listed, pad: string, eol: string, k: nat)
    requires ValidListed(h) && Margins(pad, eol) && k < 3
    ensures ReadNscdLine(ListedLine(h, pad, eol, k)) == ListedMeaning(h, k)
  {
    if k == 0 {
      NscdNameLine(pad, " ", h.name, h.rest, eol);
    } else if k == 1 {
      AddressLine(pad, " ", h.address, eol);
    } else {
      BlankLine(eol);
    }
  }

  lemma ListedLinePlain(h: Listed, pad: string, eol: string, k: nat)
    requires ValidListed(h) && Margins(pad, eol) && k < 3
    ensures Plain(ListedLine(h, pad, eol, k))
  {
    WordIsPlain(h.name);
    SpacedPlain(["name:", h.name], [" "], h.rest);
  }

  function ListedBlock(h: Listed, pad: string, eol: string): seq<string>
  {
    seq(3, k requires 0 <= k < 3 => ListedLine(h, pad, eol, k))
  }

  function ListedHost(h: Listed): Host { Host(h.name, Some(h.address)) }

  lemma AddLineAfter(a: seq<Host>, b: seq<Host>, l: NscdLine)
    requires b != [] || l.Name?
    ensures AddLine(a + b, l) == a + AddLine(b, l) && AddLine(b, l) != []
  {}

  /** Hosts are cut at names. */
  lemma {:induction false} HostsCutAtNames(a: seq<NscdLine>, b: seq<NscdLine>)
    requires b != [] && b[0].Name?
    ensures Hosts(a + b) == Hosts(a) + Hosts(b) && Hosts(b) != []
  {
    var init, last := b[..|b| - 1], b[|b| - 1];
    assert (a + b)[..|a + b| - 1] == a + init;
    if init == [] {
      assert a + init == a && Hosts(init) == [] && Hosts(a) + [] == Hosts(a);
    } else {
      HostsCutAtNames(a, init);
    }
    AddLineAfter(Hosts(a), Hosts(init), last);
  }

  ghost predicate ReadsAsHost(block: seq<string>, h: Host)
  {
    && block != [] && AllPlain(block)
    && ReadNscdLine(block[0]).Name? && Hosts(Mapped(block, ReadNscdLine)) == [h]
  }

  lemma ListedGroup(h: Listed, lines: seq<NscdLine>)
    requires |lines| == 3 && forall k :: 0 <= k < 3 ==> lines[k] == ListedMeaning(h, k)
    ensures Hosts(lines) == [ListedHost(h)]
  {
    assert lines[..0] == [] && Hosts([]) == [];
    HostsSnoc(lines, 0);
    HostsSnoc(lines, 1);
    HostsSnoc(lines, 2);
    assert lines[..3] == lines;
  }

  lemma ListedReads(h: Listed, pad: string, eol: string)
    requires ValidListed(h) && Margins(pad, eol)
    ensures ReadsAsHost(ListedBlock(h, pad, eol), ListedHost(h))
  {
    var block := ListedBlock(h, pad, eol);
    var lines := Mapped(block, ReadNscdLine);
    forall k | 0 <= k < 3 ensures lines[k] == ListedMeaning(h, k) && Plain(block[k]) {
      ListedLineRead(h, pad, eol, k);
      ListedLinePlain(h, pad, eol, k);
    }
    ListedGroup(h, lines);
  }

  lemma {:induction false} HostsOfBlocks(blocks: seq<seq<string>>, hosts: seq<Host>)
    requires |blocks| == |hosts| && forall k :: 0 <= k < |blocks| ==> ReadsAsHost(blocks[k], hosts[k])
    ensures Hosts(Mapped(Flat(blocks), ReadNscdLine)) == hosts
    ensures AllPlain(Flat(blocks))
    ensures blocks != [] ==> Flat(blocks) != [] && ReadNscdLine(Flat(blocks)[0]).Name?
    decreases |blocks|
  {
    if blocks == [] {
      assert Hosts([]) == [];
    } else {
      var first, rest := blocks[0], blocks[1..];
      assert ReadsAsHost(first, hosts[0]);
      HostsOfBlocks(rest, hosts[1..]);
      var a, b := Mapped(first, ReadNscdLine), Mapped(Flat(rest), ReadNscdLine);
      MappedTwo(first, Flat(rest), ReadNscdLine);
      assert hosts == [hosts[0]] + hosts[1..];
      if rest == [] {
        assert a + b == a;
      } else {
        assert b[0] == ReadNscdLine(Flat(rest)[0]);
        HostsCutAtNames(a, b);
      }
    }
  }

  /** The same for nscd; with the contract of `ParseNscdHosts`, cut at the limit. */
  lemma NscdRoundTrip(hosts: seq<Listed>, pad: string, eol: string)
    requires Margins(pad, eol) && forall h <- hosts :: ValidListed(h)
    ensures var blocks := seq(|hosts|, i requires 0 <= i < |hosts| => ListedBlock(hosts[i], pad, eol));
      Hosts(NscdLines(Join(Flat(blocks), '\n')))
        == seq(|hosts|, i requires 0 <= i < |hosts| => ListedHost(hosts[i]))
  {
    var blocks := seq(|hosts|, i requires 0 <= i < |hosts| => ListedBlock(hosts[i], pad, eol));
    var listed := seq(|hosts|, i requires 0 <= i < |hosts| => ListedHost(hosts[i]));
    forall k | 0 <= k < |hosts| ensures ReadsAsHost(blocks[k], listed[k]) {
      ListedReads(hosts[k], pad, eol);
    }
    HostsOfBlocks(blocks, listed);
    if hosts == [] {
      NoHosts();
    } else {
      PlainLinesSplit(Flat(blocks));
    }
  }

  lemma NoHosts()
    ensures Hosts(NscdLines("")) == []
  {
    BlankLine("");
    var lines := Mapped([""], ReadNscdLine);
    assert Split("", '\n') == [""] && lines == [Noise];
    assert lines[..0] == [] && Hosts([]) == [];
    HostsSnoc(lines, 0);
    assert lines[..1] == lines;
  }
}
