/** Blocking and unblocking an address in pf.conf: `addIPRule` appends two lines, `removeIPRule`
    scans the file, filters it and writes it back. The file is its text. */
module PfConf {
  import opened Text

  /** bufio.Scanner gives up on a line of this many bytes. */
  const LINE_LIMIT: nat := 65536

  const IN_PREFIX := "block in from any to "
  const OUT_PREFIX := "block out from any to "

  function RuleIn(ip: string): string { IN_PREFIX + ip }

  function RuleOut(ip: string): string { OUT_PREFIX + ip }

  predicate Matches(line: string, ip: string)
  {
    HasPrefix(line, RuleIn(ip)) || HasPrefix(line, RuleOut(ip))
  }

  /** Lines, each with a newline after it. */
  function Unlines(lines: seq<string>): string
  {
    if lines == [] then "" else lines[0] + ['\n'] + Unlines(lines[1..])
  }

  /** The pieces between newlines, without an empty one at the end. */
  function RawLines(text: string): seq<string>
  {
    var parts := Split(text, '\n');
    if parts[|parts| - 1] == "" then parts[..|parts| - 1] else parts
  }

  function DropCr(line: string): string
  {
    if line != "" && line[|line| - 1] == '\r' then line[..|line| - 1] else line
  }

  /** What the scanner delivers: a line over the limit ends the scan. */
  function Scanned(raw: seq<string>): seq<string>
  {
    if raw == [] || ByteLength(raw[0]) >= LINE_LIMIT then [] else [DropCr(raw[0])] + Scanned(raw[1..])
  }

  function Kept(lines: seq<string>, ip: string): seq<string>
  {
    if lines == [] then []
    else if Matches(lines[0], ip) then Kept(lines[1..], ip)
    else [lines[0]] + Kept(lines[1..], ip)
  }

  function Added(text: string, ip: string): string
  {
    text + RuleIn(ip) + ['\n'] + RuleOut(ip) + ['\n']
  }

  function Removed(text: string, ip: string): string { Unlines(Kept(Scanned(RawLines(text)), ip)) }

  // ----- the two methods

  class PfFile {
    var text: string

    constructor (text: string)
      ensures this.text == text
    {
      this.text := text;
    }

    /** `appendable` tells whether the file could be opened for appending. */
    method AddIpRule(ip: string, appendable: bool)
      modifies this
      ensures text == if TrimSpace(ip) != "" && appendable then Added(old(text), ip) else old(text)
      ensures TrimSpace(ip) != "" && appendable ==>
        text == old(text) + "block in from any to " + ip + "\n" + "block out from any to " + ip + "\n"
    {
      if TrimSpace(ip) == "" {
        return;
      }
      var rule := RuleIn(ip) + ['\n'] + RuleOut(ip) + ['\n'];
      if !appendable {
        return;
      }
      assert text + rule == Added(text, ip);
      text := text + rule;
    }

    /** `readable` and `writable` tell whether the file could be opened for reading and then
        for rewriting. */
    method RemoveIpRule(ip: string, readable: bool, writable: bool)
      modifies this
      ensures text == if TrimSpace(ip) != "" && readable && writable then Removed(old(text), ip) else old(text)
    {
      if TrimSpace(ip) == "" || !readable {
        return;
      }
      var lines := ScanAndFilter(RawLines(text), ip);
      if !writable {
        return;
      }
      text := "";
      assert lines[..0] == [];
      for k := 0 to |lines|
        invariant text == Unlines(lines[..k])
      {
        UnlinesSnoc(lines, k);
        text := text + (lines[k] + ['\n']);
      }
      assert lines[..|lines|] == lines;
    }
  }

  method ScanAndFilter(raw: seq<string>, ip: string) returns (lines: seq<string>)
    ensures lines == Kept(Scanned(raw), ip)
  {
    lines := [];
    var i := 0;
    assert raw[..0] == [];
    while i < |raw| && ByteLength(raw[i]) < LINE_LIMIT
      invariant 0 <= i <= |raw|
      invariant forall k :: 0 <= k < i ==> ByteLength(raw[k]) < LINE_LIMIT
      invariant lines == Kept(Scanned(raw[..i]), ip)
    {
      var line := DropCr(raw[i]);
      ScannedSnoc(raw, i);
      KeptSnoc(Scanned(raw[..i]), line, ip);
      if !HasPrefix(line, RuleIn(ip)) && !HasPrefix(line, RuleOut(ip)) {
        lines := lines + [line];
      }
      i := i + 1;
    }
    ScannedStops(raw, i);
  }

  lemma UnlinesSnoc(lines: seq<string>, k: nat)
    requires k < |lines|
    ensures Unlines(lines[..k + 1]) == Unlines(lines[..k]) + (lines[k] + ['\n'])
  {
    assert lines[..k + 1] == lines[..k] + [lines[k]];
    UnlinesConcat(lines[..k], [lines[k]]);
    assert Unlines([lines[k]]) == lines[k] + ['\n'] + "";
  }

  lemma {:induction false} ScannedSnoc(raw: seq<string>, i: nat)
    requires i < |raw| && forall k :: 0 <= k <= i ==> ByteLength(raw[k]) < LINE_LIMIT
    ensures Scanned(raw[..i + 1]) == Scanned(raw[..i]) + [DropCr(raw[i])]
  {
    if i == 0 {
      assert raw[..1][1..] == [];
    } else {
      ScannedSnoc(raw[1..], i - 1);
      assert raw[..i + 1][1..] == raw[1..][..i];
      assert raw[..i][1..] == raw[1..][..i - 1];
    }
  }

  lemma {:induction false} KeptSnoc(lines: seq<string>, line: string, ip: string)
    ensures Kept(lines + [line], ip) == Kept(lines, ip) + if Matches(line, ip) then [] else [line]
  {
    if lines == [] {
      assert lines + [line] == [line];
    } else {
      KeptSnoc(lines[1..], line, ip);
      assert (lines + [line])[1..] == lines[1..] + [line];
    }
  }

  lemma {:induction false} ScannedStops(raw: seq<string>, i: nat)
    requires i <= |raw| && (i < |raw| ==> ByteLength(raw[i]) >= LINE_LIMIT)
    ensures Scanned(raw[..i]) == Scanned(raw)
  {
    if i == |raw| {
      assert raw[..i] == raw;
    } else if i > 0 {
      ScannedStops(raw[1..], i - 1);
      assert raw[..i][1..] == raw[1..][..i - 1];
    }
  }

  // ----- lines and text

  /** A line the scanner delivers as it stands. */
  predicate GoodLine(line: string)
  {
    '\n' !in line && DropCr(line) == line && ByteLength(line) < LINE_LIMIT
  }

  ghost predicate GoodLines(lines: seq<string>) { forall l <- lines :: GoodLine(l) }

  lemma {:induction false} UnlinesIsJoin(lines: seq<string>)
    ensures Unlines(lines) == Join(lines + [""], '\n')
  {
    if lines != [] {
      UnlinesIsJoin(lines[1..]);
      assert (lines + [""])[1..] == lines[1..] + [""];
      assert lines[0] + ['\n'] + Unlines(lines[1..]) == lines[0] + ['\n'] + Join(lines[1..] + [""], '\n');
    } else {
      assert [] + [""] == [""];
    }
  }

  lemma RawLinesOfUnlines(lines: seq<string>)
    requires Free(lines, '\n')
    ensures RawLines(Unlines(lines)) == lines
  {
    UnlinesIsJoin(lines);
    SplitJoin(lines + [""], '\n');
  }

  predicate Terminated(text: string) { text == "" || text[|text| - 1] == '\n' }

  lemma {:induction false} LastPart(text: string)
    ensures var parts := Split(text, '\n'); Terminated(text) <==> parts[|parts| - 1] == ""
  {
    if |text| > 1 {
      LastPart(text[1..]);
    } else if |text| == 1 {
      assert text[1..] == "";
    }
  }

  lemma RawLinesSplit(text: string)
    ensures Free(RawLines(text), '\n')
    ensures Terminated(text) ==> RawLines(text) + [""] == Split(text, '\n')
  {
    LastPart(text);
    JoinSplit(text, '\n');
    WithoutLast(Split(text, '\n'), '\n');
  }

  lemma WithoutLast(parts: seq<string>, sep: char)
    requires parts != [] && Free(parts, sep)
    ensures Free(parts[..|parts| - 1], sep)
    ensures parts[..|parts| - 1] + [parts[|parts| - 1]] == parts
  {}

  lemma TerminatedIsUnlines(text: string)
    ensures Free(RawLines(text), '\n')
    ensures Terminated(text) ==> Unlines(RawLines(text)) == text
  {
    RawLinesSplit(text);
    JoinSplit(text, '\n');
    UnlinesIsJoin(RawLines(text));
  }

  lemma {:induction false} UnlinesTerminated(lines: seq<string>)
    ensures Terminated(Unlines(lines))
  {
    if lines != [] {
      UnlinesTerminated(lines[1..]);
    }
  }

  lemma {:induction false} UnlinesConcat(a: seq<string>, b: seq<string>)
    ensures Unlines(a + b) == Unlines(a) + Unlines(b)
  {
    if a == [] {
      assert a + b == b;
    } else {
      UnlinesConcat(a[1..], b);
      assert (a + b)[1..] == a[1..] + b;
      assert a[0] + ['\n'] + (Unlines(a[1..]) + Unlines(b)) == a[0] + ['\n'] + Unlines(a[1..]) + Unlines(b);
    }
  }

  lemma AddedLines(lines: seq<string>, ip: string)
    ensures Added(Unlines(lines), ip) == Unlines(lines + [RuleIn(ip), RuleOut(ip)])
  {
    UnlinesConcat(lines, [RuleIn(ip), RuleOut(ip)]);
    assert [RuleIn(ip), RuleOut(ip)][1..] == [RuleOut(ip)];
    assert Unlines([RuleOut(ip)]) == RuleOut(ip) + ['\n'] + "";
    assert Added(Unlines(lines), ip) == Unlines(lines) + (RuleIn(ip) + ['\n'] + (RuleOut(ip) + ['\n']));
  }

  lemma {:induction false} ScannedGood(lines: seq<string>)
    requires GoodLines(lines)
    ensures Scanned(lines) == lines
  {
    if lines != [] {
      assert GoodLine(lines[0]);
      ScannedGood(lines[1..]);
    }
  }

  lemma RemovedLines(lines: seq<string>, ip: string)
    requires GoodLines(lines)
    ensures Removed(Unlines(lines), ip) == Unlines(Kept(lines, ip))
  {
    RawLinesOfUnlines(lines);
    ScannedGood(lines);
  }

  // ----- what the scan delivers and the filter keeps

  /** A carriage return in front of the newline goes, and one only. */
  lemma {:induction false} ScannedCarriage(lines: seq<string>)
    requires forall l <- lines :: ByteLength(l) + 1 < 65536
    ensures Scanned(seq(|lines|, i requires 0 <= i < |lines| => lines[i] + "\r")) == lines
  {
    var raw := seq(|lines|, i requires 0 <= i < |lines| => lines[i] + "\r");
    if lines != [] {
      var l := lines[0];
      assert l in lines;
      ByteLengths(l, "\r", '\r');
      assert ByteLength("\r") == 1 && ByteLength(raw[0]) == ByteLength(l) + 1;
      assert DropCr(raw[0]) == l by {
        assert raw[0][..|l|] == l;
      }
      assert raw[1..] == seq(|lines| - 1, i requires 0 <= i < |lines| - 1 => lines[1..][i] + "\r");
      ScannedCarriage(lines[1..]);
      assert lines == [l] + lines[1..];
    }
  }

  /** A line of 65536 bytes or more ends the scan; shorter ones do not. */
  lemma {:induction false} ScannedUpToLong(lines: seq<string>, long: string, more: seq<string>)
    requires forall l <- lines :: ByteLength(l) < 65536 && (l == "" || l[|l| - 1] != '\r')
    requires ByteLength(long) >= 65536
    ensures Scanned(lines + [long] + more) == lines && Scanned(lines) == lines
  {
    var raw := lines + [long] + more;
    if lines == [] {
      assert raw[0] == long;
    } else {
      assert lines[0] in lines && raw[0] == lines[0];
      assert raw[1..] == lines[1..] + [long] + more;
      ScannedUpToLong(lines[1..], long, more);
    }
  }

  /** The last line counts with or without its newline. */
  lemma UnterminatedLast(lines: seq<string>, last: string)
    requires Free(lines, '\n') && last != "" && '\n' !in last
    ensures RawLines(Unlines(lines) + last) == lines + [last]
  {
    SplitUnlines(lines, last);
  }

  lemma {:induction false} SplitUnlines(lines: seq<string>, last: string)
    requires Free(lines, '\n') && '\n' !in last
    ensures Split(Unlines(lines) + last, '\n') == lines + [last]
  {
    if lines == [] {
      SplitAtSeparator(last, "", '\n');
      assert "" + last == last;
    } else {
      SplitUnlines(lines[1..], last);
      SplitAtSeparator(lines[0], Unlines(lines[1..]) + last, '\n');
      assert Unlines(lines) + last == lines[0] + ['\n'] + (Unlines(lines[1..]) + last);
      assert [lines[0]] + (lines[1..] + [last]) == lines + [last];
    }
  }

  /** The filter goes line by line, and drops exactly the lines that begin with one of the two
      rule texts followed by the address. */
  lemma {:induction false} KeptMeans(a: seq<string>, line: string, b: seq<string>, ip: string)
    ensures Kept(a + [line] + b, ip) == Kept(a, ip) + Kept([line], ip) + Kept(b, ip)
    ensures Kept([line], ip)
         == if ("block in from any to " + ip) <= line || ("block out from any to " + ip) <= line then [] else [line]
  {
    var all := a + [line] + b;
    assert [line][1..] == [] && Kept([], ip) == [];
    if a == [] {
      assert all[1..] == b && all[0] == line;
      assert Kept(a, ip) + Kept([line], ip) == Kept([line], ip);
    } else {
      assert all[1..] == a[1..] + [line] + b && all[0] == a[0];
      KeptMeans(a[1..], line, b, ip);
      assert [a[0]] + (Kept(a[1..], ip) + Kept([line], ip) + Kept(b, ip))
          == [a[0]] + Kept(a[1..], ip) + Kept([line], ip) + Kept(b, ip);
    }
  }

  // ----- which lines a rule matches

  /** Texts that net.ParseIP accepts: hexadecimal digits, dots and colons, and not long. */
  predicate IpText(ip: string)
  {
    0 < |ip| <= 45 && forall c <- ip :: IsDigit(c) || 'a' <= c <= 'f' || 'A' <= c <= 'F' || c == '.' || c == ':'
  }

  lemma RuleLinesGood(ip: string)
    requires IpText(ip)
    ensures GoodLine(RuleIn(ip)) && GoodLine(RuleOut(ip))
  {
    assert ip[|ip| - 1] in ip;
    assert RuleIn(ip)[|RuleIn(ip)| - 1] == ip[|ip| - 1];
    assert RuleOut(ip)[|RuleOut(ip)| - 1] == ip[|ip| - 1];
  }

  lemma PrefixCancels(p: string, a: string, b: string)
    ensures p + a <= p + b <==> a <= b
  {
    if p + a <= p + b {
      assert (p + b)[|p|..] == b && (p + a)[|p|..] == a;
      assert (p + b)[..|p| + |a|] == p + a;
      assert b[..|a|] == (p + b)[|p|..|p| + |a|] == (p + a)[|p|..];
    }
    if a <= b {
      assert p + b == p + a + b[|a|..];
    }
  }

  /** Removing the rules of `ip` matches the rules of exactly the addresses `ip` is a prefix of. */
  lemma MatchesByPrefix(x: string, ip: string)
    ensures Matches(RuleIn(x), ip) <==> ip <= x
    ensures Matches(RuleOut(x), ip) <==> ip <= x
  {
    PrefixCancels(IN_PREFIX, ip, x);
    PrefixCancels(OUT_PREFIX, ip, x);
    assert RuleIn(x)[6] == 'i' && RuleOut(ip)[6] == 'o' && RuleOut(x)[6] == 'o' && RuleIn(ip)[6] == 'i';
  }

  // ----- unblocking right after blocking

  lemma {:induction false} KeptOfScanned(raw: seq<string>, ip: string)
    requires Free(raw, '\n')
    ensures |Kept(Scanned(raw), ip)| <= |raw|
    ensures Free(Kept(Scanned(raw), ip), '\n')
    ensures Kept(Scanned(raw), ip) == raw <==> forall l <- raw :: GoodLine(l) && !Matches(l, ip)
  {
    if raw != [] {
      assert raw[0] in raw;
    }
    if raw != [] && ByteLength(raw[0]) < LINE_LIMIT {
      KeptOfScanned(raw[1..], ip);
      var rest := Kept(Scanned(raw[1..]), ip);
      var all := Kept(Scanned(raw), ip);
      assert raw == [raw[0]] + raw[1..];
      if Matches(DropCr(raw[0]), ip) {
        assert all == rest;
      } else {
        assert all == [DropCr(raw[0])] + rest;
        assert all == raw <==> DropCr(raw[0]) == raw[0] && rest == raw[1..];
      }
    }
  }

  lemma {:induction false} KeptDropsNewRules(raw: seq<string>, ip: string)
    requires IpText(ip)
    ensures Kept(Scanned(raw + [RuleIn(ip), RuleOut(ip)]), ip) == Kept(Scanned(raw), ip)
  {
    if raw == [] {
      var rules := [RuleIn(ip), RuleOut(ip)];
      assert raw + rules == rules && rules[1..] == [RuleOut(ip)];
      RuleLinesGood(ip);
      assert Scanned([RuleOut(ip)]) == [RuleOut(ip)];
      assert Scanned(rules) == rules;
    } else {
      assert (raw + [RuleIn(ip), RuleOut(ip)])[1..] == raw[1..] + [RuleIn(ip), RuleOut(ip)];
      KeptDropsNewRules(raw[1..], ip);
    }
  }

  /** Unblocking an address right after blocking it restores the file exactly when the file
      ends in a newline (or is empty), no line is over the scanner's limit or ends in a carriage
      return, and no line is already a rule for an address that `ip` is a prefix of. */
  lemma RestoredExactly(text: string, ip: string)
    requires IpText(ip)
    ensures Removed(Added(text, ip), ip) == text
       <==> Terminated(text) && forall l <- RawLines(text) :: GoodLine(l) && !Matches(l, ip)
  {
    var raw := RawLines(text);
    TerminatedIsUnlines(text);
    KeptOfScanned(raw, ip);
    if !Terminated(text) {
      UnlinesTerminated(Kept(Scanned(RawLines(Added(text, ip))), ip));
    } else {
      AddedLines(raw, ip);
      RuleLinesGood(ip);
      RawLinesOfUnlines(raw + [RuleIn(ip), RuleOut(ip)]);
      KeptDropsNewRules(raw, ip);
      var kept := Kept(Scanned(raw), ip);
      assert Removed(Added(text, ip), ip) == Unlines(kept);
      RawLinesOfUnlines(kept);
    }
  }

  /** On a file whose last line has no newline, the first rule line is glued to that line, which
      unblocking then keeps. */
  lemma UnterminatedLineKeepsRule(ip: string)
    requires IpText(ip)
    ensures Removed(Added("pass", ip), ip) == "pass" + RuleIn(ip) + "\n"
  {
    var glued := "pass" + RuleIn(ip);
    var lines := [glued, RuleOut(ip)];
    RuleLinesGood(ip);
    assert glued[|glued| - 1] == RuleIn(ip)[|RuleIn(ip)| - 1];
    assert lines[1..] == [RuleOut(ip)] && Unlines([RuleOut(ip)]) == RuleOut(ip) + ['\n'] + "";
    assert Added("pass", ip) == Unlines(lines);
    RemovedLines(lines, ip);
    assert glued[0] == 'p' && RuleIn(ip)[0] == RuleOut(ip)[0] == 'b';
    assert Matches(RuleOut(ip), ip) && Kept([RuleOut(ip)], ip) == [];
    assert !Matches(glued, ip);
    assert Kept(lines, ip) == [glued];
    assert Unlines([glued]) == glued + ['\n'] + "";
  }
}
