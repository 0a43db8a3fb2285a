/** What the record parsers read from the lines of the four commands, whatever space stands around
    and inside them, and how blocks of lines become records. */
module RecordLines {
  import opened Text
  import opened RecordParsers

  // ----- single lines

  /** A label, space, and a value, with space around: trimming leaves the label in front, and the
      trimmed rest is the value. */
  lemma Labelled(a: string, tag: string, b: string, v: string, c: string)
    requires AllSpace(a) && AllSpace(b) && AllSpace(c) && Trimmed(v)
    requires tag != "" && Trimmed(tag)
    ensures var l := TrimSpace(a + tag + b + v + c);
      HasPrefix(l, tag) && TrimSpace(l[|tag|..]) == v
  {
    if v == "" {
      NoValue(a, tag, b, c);
      assert b + v == b && a + tag + b + v + c == a + tag + b + c;
    } else {
      SomeValue(a, tag, b, v, c);
    }
  }

  lemma NoValue(a: string, tag: string, b: string, c: string)
    requires AllSpace(a) && AllSpace(b) && AllSpace(c) && tag != "" && Trimmed(tag)
    ensures TrimSpace(a + tag + b + c) == tag && TrimSpace(tag[|tag|..]) == ""
  {
    assert AllSpace(b + c);
    TrimSurrounded(a, tag, b + c);
    assert a + tag + b + c == a + tag + (b + c);
    assert tag[|tag|..] == "";
  }

  lemma SomeValue(a: string, tag: string, b: string, v: string, c: string)
    requires AllSpace(a) && AllSpace(b) && AllSpace(c) && v != "" && Trimmed(v) && tag != "" && Trimmed(tag)
    ensures var l := TrimSpace(a + tag + b + v + c);
      HasPrefix(l, tag) && TrimSpace(l[|tag|..]) == v
  {
    var m := tag + (b + v);
    assert m[0] == tag[0] && m[|m| - 1] == v[|v| - 1];
    Reassociate(a, tag, b, v, c);
    TrimSurrounded(a, m, c);
    TrimFront(b, v);
    assert m[|tag|..] == b + v;
  }

  lemma Reassociate(a: string, tag: string, b: string, v: string, c: string)
    ensures a + tag + b + v + c == a + (tag + (b + v)) + c
  {}

  lemma AfterFirstColon(x: string, y: string)
    requires ':' !in x
    ensures AfterColon(x + ":" + y) == Some(TrimSpace(y))
  {
    SplitAtSeparator(x, y, ':');
    assert x + ":" + y == x + [':'] + y;
    assert ([x] + Split(y, ':'))[1..] == Split(y, ':');
    JoinSplit(y, ':');
  }

  /** A label that ends in a colon, where the value is what follows the first colon. */
  lemma ColonLabelled(a: string, x: string, b: string, v: string, c: string)
    requires AllSpace(a) && AllSpace(b) && AllSpace(c) && Trimmed(v)
    requires x != "" && !IsSpace(x[0]) && ':' !in x
    ensures var l := TrimSpace(a + (x + ":") + b + v + c);
      HasPrefix(l, x) && AfterColon(l) == Some(v)
  {
    var tag := x + ":";
    assert tag[0] == x[0] && tag[|tag| - 1] == ':';
    Labelled(a, tag, b, v, c);
    TagThenValue(TrimSpace(a + tag + b + v + c), x);
  }

  lemma TagThenValue(l: string, x: string)
    requires HasPrefix(l, x + ":") && ':' !in x
    ensures HasPrefix(l, x) && AfterColon(l) == Some(TrimSpace(l[|x| + 1..]))
  {
    var rest := l[|x| + 1..];
    assert l == x + ":" + rest;
    assert l[..|x|] == x;
    AfterFirstColon(x, rest);
  }

  lemma ScNameLine(a: string, b: string, v: string, c: string)
    requires AllSpace(a) && AllSpace(b) && AllSpace(c) && Trimmed(v)
    ensures ReadScLine(a + "SERVICE_NAME:" + b + v + c) == Header(map["name" := v])
  {
    Labelled(a, "SERVICE_NAME:", b, v, c);
  }

  lemma ScDisplayLine(a: string, b: string, v: string, c: string)
    requires AllSpace(a) && AllSpace(b) && AllSpace(c) && Trimmed(v)
    ensures ReadScLine(a + "DISPLAY_NAME:" + b + v + c) == Field("displayName", v)
  {
    Labelled(a, "DISPLAY_NAME:", b, v, c);
    var l := TrimSpace(a + "DISPLAY_NAME:" + b + v + c);
    assert l[0] == 'D';
  }

  /** What follows the last word of interest on a line: nothing, or space and text that ends in no
      space. */
  predicate RestOfLine(rest: string)
  {
    rest == "" || (IsSpace(rest[0]) && !IsSpace(rest[|rest| - 1]))
  }

  /** Words with the gaps between them, and the rest of the line. */
  function Spaced(words: seq<string>, gaps: seq<string>, rest: string): string
    requires |words| == |gaps| + 1
  {
    if gaps == [] then words[0] + rest else words[0] + (gaps[0] + Spaced(words[1..], gaps[1..], rest))
  }

  predicate Gaps(gaps: seq<string>) { forall k :: 0 <= k < |gaps| ==> gaps[k] != "" && AllSpace(gaps[k]) }

  lemma WordAndGap(w: string, g: string, more: string)
    requires w != "" && NoSpace(w) && g != "" && AllSpace(g) && more != "" && !IsSpace(more[0])
    ensures Fields(w + (g + more)) == [w] + Fields(more)
  {
    assert g[0] in g && (g + more)[0] == g[0];
    FieldsSkip(g, more);
    FieldsFirst(w, g + more);
  }

  lemma TailsFit(words: seq<string>, gaps: seq<string>)
    requires |words| == |gaps| + 1 && gaps != [] && Words(words) && Gaps(gaps)
    ensures Words(words[1..]) && Gaps(gaps[1..]) && words[0] != "" && NoSpace(words[0])
    ensures gaps[0] != "" && AllSpace(gaps[0])
  {
    assert words[0] in words;
    forall w | w in words[1..] ensures w in words {
      assert words == [words[0]] + words[1..];
    }
  }

  lemma {:induction false} SpacedEnds(words: seq<string>, gaps: seq<string>, rest: string)
    requires |words| == |gaps| + 1 && Words(words) && RestOfLine(rest)
    ensures var s := Spaced(words, gaps, rest);
      s != "" && words[0] <= s && !IsSpace(s[0]) && !IsSpace(s[|s| - 1])
    decreases |gaps|
  {
    var w, s := words[0], Spaced(words, gaps, rest);
    assert w in words && w[0] in w && w[|w| - 1] in w;
    assert s[0] == w[0];
    if gaps == [] {
      assert s[|s| - 1] == if rest == "" then w[|w| - 1] else rest[|rest| - 1];
    } else {
      var more := Spaced(words[1..], gaps[1..], rest);
      SpacedEnds(words[1..], gaps[1..], rest);
      assert s[|s| - 1] == more[|more| - 1];
    }
  }

  /** The words of a line, whatever space is between them. */
  lemma {:induction false} FieldsSpaced(words: seq<string>, gaps: seq<string>, rest: string)
    requires |words| == |gaps| + 1 && Words(words) && Gaps(gaps) && RestOfLine(rest)
    ensures var fields := Fields(Spaced(words, gaps, rest));
      |words| <= |fields| && forall k :: 0 <= k < |words| ==> fields[k] == words[k]
    decreases |gaps|
  {
    var w := words[0];
    assert w in words;
    if gaps == [] {
      FieldsFirst(w, rest);
    } else {
      var more := Spaced(words[1..], gaps[1..], rest);
      assert words == [w] + words[1..];
      TailsFit(words, gaps);
      SpacedEnds(words[1..], gaps[1..], rest);
      FieldsSpaced(words[1..], gaps[1..], rest);
      WordAndGap(w, gaps[0], more);
    }
  }

  /** The state is the third word of its line, the code after the colon. */
  lemma ScStateLine(a: string, b: string, c: string, code: string, rest: string, d: string)
    requires AllSpace(a) && Gaps([b, c]) && AllSpace(d)
    requires code != "" && NoSpace(code) && RestOfLine(rest)
    ensures ReadScLine(a + Spaced(["STATE", ":", code], [b, c], rest) + d) == Field("state", code)
  {
    var words := ["STATE", ":", code];
    var l := Spaced(words, [b, c], rest);
    assert Words(words);
    SpacedEnds(words, [b, c], rest);
    FieldsSpaced(words, [b, c], rest);
    TrimSurrounded(a, l, d);
    assert words[2] == code;
    ScStateWords(a + l + d, l, code);
  }

  lemma ScStateWords(raw: string, l: string, code: string)
    requires TrimSpace(raw) == l && HasPrefix(l, "STATE") && |Fields(l)| >= 3 && Fields(l)[2] == code
    ensures ReadScLine(raw) == Field("state", code)
  {
    assert l[1] == 'T';
    assert !HasPrefix(l, "SERVICE_NAME:") by {
      assert "SERVICE_NAME:"[1] == 'E';
    }
  }

  lemma DnsNameLine(a: string, dots: string, b: string, v: string, c: string)
    requires AllSpace(a) && AllSpace(b) && AllSpace(c) && Trimmed(v) && ':' !in dots
    ensures ReadDnsLine(a + ("Record Name" + dots + ":") + b + v + c) == Header(map["name" := v])
  {
    ColonLabelled(a, "Record Name" + dots, b, v, c);
    PrefixOfPrefix(TrimSpace(a + ("Record Name" + dots + ":") + b + v + c), "Record Name", dots);
  }

  lemma PrefixOfPrefix(l: string, p: string, q: string)
    requires HasPrefix(l, p + q)
    ensures HasPrefix(l, p) && forall k :: 0 <= k < |p| ==> l[k] == p[k]
  {
    assert l[..|p|] == (p + q)[..|p|] == p;
  }

  lemma DnsTypeLine(a: string, dots: string, b: string, v: string, c: string)
    requires AllSpace(a) && AllSpace(b) && AllSpace(c) && Trimmed(v) && ':' !in dots
    ensures ReadDnsLine(a + ("Record Type" + dots + ":") + b + v + c) == Field("type", v)
  {
    ColonLabelled(a, "Record Type" + dots, b, v, c);
    var l := TrimSpace(a + ("Record Type" + dots + ":") + b + v + c);
    PrefixOfPrefix(l, "Record Type", dots);
    assert l[7] == 'T' && "Record Name"[7] == 'N';
  }

  lemma DnsTtlLine(a: string, dots: string, b: string, v: string, c: string)
    requires AllSpace(a) && AllSpace(b) && AllSpace(c) && Trimmed(v) && ':' !in dots
    ensures ReadDnsLine(a + ("Time To Live" + dots + ":") + b + v + c) == Field("ttl", v)
  {
    ColonLabelled(a, "Time To Live" + dots, b, v, c);
    var l := TrimSpace(a + ("Time To Live" + dots + ":") + b + v + c);
    PrefixOfPrefix(l, "Time To Live", dots);
    assert l[0] == 'T' && "Record Name"[0] == 'R' && "Record Type"[0] == 'R';
  }

  lemma DataTag(tag: string)
    requires LowerAscii(tag) == "record data"
    ensures |tag| == 11 && tag[0] in "rR" && tag[7] in "dD" && ':' !in tag && !IsSpace(tag[0])
  {
    var low := LowerAscii(tag);
    assert |low| == |tag| == 11;
    assert low[0] == 'r' && low[7] == 'd';
    assert "rR"[0] == 'r' && "rR"[1] == 'R' && "dD"[0] == 'd' && "dD"[1] == 'D';
    forall k | 0 <= k < 11 ensures tag[k] != ':' {
      assert low[k] == "record data"[k] != ':';
    }
  }

  lemma LowerPrefix(l: string, p: string)
    requires HasPrefix(l, p)
    ensures HasPrefix(LowerAscii(l), LowerAscii(p))
  {
    assert LowerAscii(l)[..|p|] == LowerAscii(p);
  }

  /** The label of the data is recognised in any case of letters. */
  lemma DnsDataLine(a: string, tag: string, dots: string, b: string, v: string, c: string)
    requires AllSpace(a) && AllSpace(b) && AllSpace(c) && Trimmed(v) && ':' !in dots
    requires LowerAscii(tag) == "record data"
    ensures ReadDnsLine(a + (tag + dots + ":") + b + v + c) == Field("data", v)
  {
    DataTag(tag);
    ColonLabelled(a, tag + dots, b, v, c);
    var l := TrimSpace(a + (tag + dots + ":") + b + v + c);
    PrefixOfPrefix(l, tag, dots);
    LowerPrefix(l, tag);
    assert "rR"[0] == 'r' && "rR"[1] == 'R' && "dD"[0] == 'd' && "dD"[1] == 'D';
    DnsDataWords(a + (tag + dots + ":") + b + v + c, l, v);
  }

  lemma DnsDataWords(raw: string, l: string, v: string)
    requires TrimSpace(raw) == l && |l| >= 11 && (l[0] == 'r' || l[0] == 'R') && (l[7] == 'd' || l[7] == 'D')
    requires HasPrefix(LowerAscii(l), "record data") && AfterColon(l) == Some(v)
    ensures ReadDnsLine(raw) == Field("data", v)
  {
    assert "Record Name"[7] == 'N' && "Record Type"[7] == 'T' && "Time To Live"[0] == 'T';
  }

  lemma DscacheNameLine(a: string, b: string, v: string, c: string)
    requires AllSpace(a) && AllSpace(b) && AllSpace(c) && Trimmed(v)
    ensures ReadDscacheLine(a + "name:" + b + v + c) == Header(map["name" := v])
  {
    Labelled(a, "name:", b, v, c);
  }

  lemma AddressLine(a: string, b: string, v: string, c: string)
    requires AllSpace(a) && AllSpace(b) && AllSpace(c) && Trimmed(v)
    ensures ReadDscacheLine(a + "ip_address:" + b + v + c) == Field("data", v)
    ensures ReadNscdLine(a + "ip_address:" + b + v + c) == Address(v)
  {
    Labelled(a, "ip_address:", b, v, c);
    assert TrimSpace(a + "ip_address:" + b + v + c)[0] == 'i';
  }

  /** The name is the second word of its line; the rest of the line is not looked at. */
  lemma NscdNameLine(a: string, b: string, name: string, rest: string, c: string)
    requires AllSpace(a) && Gaps([b]) && AllSpace(c) && name != "" && NoSpace(name) && RestOfLine(rest)
    ensures ReadNscdLine(a + Spaced(["name:", name], [b], rest) + c) == Name(name)
  {
    var words := ["name:", name];
    var l := Spaced(words, [b], rest);
    assert Words(words);
    SpacedEnds(words, [b], rest);
    FieldsSpaced(words, [b], rest);
    TrimSurrounded(a, l, c);
    assert words[1] == name;
    NscdNameWords(a + l + c, l, name);
  }

  lemma NscdNameWords(raw: string, l: string, name: string)
    requires TrimSpace(raw) == l && HasPrefix(l, "name:") && |Fields(l)| >= 2 && Fields(l)[1] == name
    ensures ReadNscdLine(raw) == Name(name)
  {}

  /** Any other line is passed over. */
  lemma OtherScLine(raw: string)
    requires var l := TrimSpace(raw);
      !HasPrefix(l, "SERVICE_NAME:") && !HasPrefix(l, "STATE") && !HasPrefix(l, "DISPLAY_NAME")
    ensures ReadScLine(raw) == Skip
  {}

  lemma OtherDnsLine(raw: string)
    requires var l := TrimSpace(raw);
      && !HasPrefix(l, "Record Name") && !HasPrefix(l, "Record Type") && !HasPrefix(l, "Time To Live")
      && !HasPrefix(LowerAscii(l), "record data")
    ensures ReadDnsLine(raw) == Skip
  {}

  lemma OtherHostLine(raw: string)
    requires var l := TrimSpace(raw); !HasPrefix(l, "name:") && !HasPrefix(l, "ip_address:")
    ensures ReadDscacheLine(raw) == Skip && ReadNscdLine(raw) == Noise
  {}

  // ----- blocks of lines

  function Flat<T>(blocks: seq<seq<T>>): seq<T>
  {
    if blocks == [] then [] else blocks[0] + Flat(blocks[1..])
  }

  predicate Plain(s: string) { '\n' !in s }

  predicate AllPlain(lines: seq<string>) { forall k :: 0 <= k < |lines| ==> Plain(lines[k]) }

  lemma MappedTwo<T>(first: seq<string>, rest: seq<string>, read: string -> T)
    ensures Mapped(first + rest, read) == Mapped(first, read) + Mapped(rest, read)
  {}

  /** The block's lines are read as the record. */
  ghost predicate ReadsAs(block: seq<string>, read: string -> Line, record: Record)
  {
    && block != [] && AllPlain(block)
    && read(block[0]).Header? && Records(Mapped(block, read)) == [record]
  }

  lemma {:induction false} RecordsOfBlocks(blocks: seq<seq<string>>, read: string -> Line, records: seq<Record>)
    requires |blocks| == |records| && forall k :: 0 <= k < |blocks| ==> ReadsAs(blocks[k], read, records[k])
    ensures Records(Mapped(Flat(blocks), read)) == records
    ensures AllPlain(Flat(blocks))
    ensures blocks != [] ==> Flat(blocks) != [] && read(Flat(blocks)[0]).Header?
    decreases |blocks|
  {
    if blocks == [] {
      assert Group([]) == Grouping([], map[]);
    } else {
      var first, rest := blocks[0], blocks[1..];
      assert ReadsAs(first, read, records[0]);
      RecordsOfBlocks(rest, read, records[1..]);
      var a, b := Mapped(first, read), Mapped(Flat(rest), read);
      MappedTwo(first, Flat(rest), read);
      assert records == [records[0]] + records[1..];
      if rest == [] {
        assert a + b == a;
      } else {
        assert b[0] == read(Flat(rest)[0]);
        RecordsCutAtHeaders(a, b);
      }
    }
  }

  lemma NoRecords(format: Format)
    ensures Records(Lines(format, "")) == []
  {
    OtherScLine("");
    OtherDnsLine("");
    OtherHostLine("");
    var lines := Mapped([""], l => ReadLine(format, l));
    assert Split("", '\n') == [""] && lines == [Skip];
    assert lines[..0] == [] && Group([]) == Grouping([], map[]);
    GroupSnoc(lines, 0);
    assert lines[..1] == lines;
  }

  lemma PlainLinesSplit(lines: seq<string>)
    requires AllPlain(lines) && lines != []
    ensures Split(Join(lines, '\n'), '\n') == lines
  {
    SplitJoin(lines, '\n');
  }

  /** Records printed as blocks of lines are read back. */
  lemma BlocksRoundTrip(format: Format, blocks: seq<seq<string>>, records: seq<Record>)
    requires |blocks| == |records|
    requires forall k :: 0 <= k < |blocks| ==> ReadsAs(blocks[k], l => ReadLine(format, l), records[k])
    ensures Records(Lines(format, Join(Flat(blocks), '\n'))) == records
  {
    RecordsOfBlocks(blocks, l => ReadLine(format, l), records);
    if blocks == [] {
      assert Flat(blocks) == [];
      NoRecords(format);
    } else {
      PlainLinesSplit(Flat(blocks));
    }
  }

  lemma GroupStart(lines: seq<Line>, r: Record)
    requires lines != [] && lines[0] == Header(r)
    ensures Group(lines[..1]) == Grouping([], r)
  {
    GroupSnoc(lines, 0);
    assert lines[..0] == [] && Group([]) == Grouping([], map[]);
  }

  predicate Value(v: string) { Trimmed(v) && Plain(v) }

  predicate Word(w: string) { w != "" && NoSpace(w) }

  /** Space in front of and behind the text of a line, the carriage return for one. */
  predicate Margins(pad: string, eol: string)
  {
    AllSpace(pad) && AllSpace(eol) && Plain(pad) && Plain(eol)
  }

  lemma WordIsPlain(w: string)
    requires NoSpace(w)
    ensures Plain(w)
  {
    assert IsSpace('\n');
  }

  lemma {:induction false} SpacedPlain(words: seq<string>, gaps: seq<string>, rest: string)
    requires |words| == |gaps| + 1 && Plain(rest)
    requires (forall k :: 0 <= k < |words| ==> Plain(words[k])) && forall k :: 0 <= k < |gaps| ==> Plain(gaps[k])
    ensures Plain(Spaced(words, gaps, rest))
    decreases |gaps|
  {
    if gaps != [] {
      SpacedPlain(words[1..], gaps[1..], rest);
    }
  }

  lemma BlankLine(eol: string)
    requires AllSpace(eol)
    ensures ReadScLine(eol) == Skip && ReadDnsLine(eol) == Skip
    ensures ReadDscacheLine(eol) == Skip && ReadNscdLine(eol) == Noise
  {
    TrimBlank(eol);
    assert LowerAscii("") == "";
    OtherScLine(eol);
    OtherDnsLine(eol);
    OtherHostLine(eol);
  }
}
