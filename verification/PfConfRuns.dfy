/** Runs of block and unblock commands on pf.conf against an abstract set of blocked addresses. */
module PfConfRuns {
  import opened Text
  import opened PfConf

  datatype Command = Block(ip: string) | Unblock(ip: string)

  function TextStep(text: string, c: Command): string
  {
    match c
    case Block(ip) => Added(text, ip)
    case Unblock(ip) => Removed(text, ip)
  }

  function TextRun(text: string, run: seq<Command>): string
  {
    if run == [] then text else TextStep(TextRun(text, run[..|run| - 1]), run[|run| - 1])
  }

  /** Both rule lines of the address are in the file. */
  predicate BlockedIn(text: string, ip: string)
  {
    var lines := Scanned(RawLines(text));
    RuleIn(ip) in lines && RuleOut(ip) in lines
  }

  predicate IsRule(line: string) { HasPrefix(line, IN_PREFIX) || HasPrefix(line, OUT_PREFIX) }

  function Others(lines: seq<string>): seq<string>
  {
    if lines == [] then []
    else if IsRule(lines[0]) then Others(lines[1..])
    else [lines[0]] + Others(lines[1..])
  }

  /** A file the scanner reads whole and unchanged, without block rules. */
  predicate BaseText(text: string)
  {
    Terminated(text) && forall l <- RawLines(text) :: GoodLine(l) && !IsRule(l)
  }

  // ----- the abstract set

  /** What unblocking does to the set: all addresses `ip` is a prefix of go. */
  function PrefixStep(blocked: set<string>, c: Command): set<string>
  {
    match c
    case Block(ip) => blocked + {ip}
    case Unblock(ip) => set x <- blocked | !(ip <= x)
  }

  /** What it is meant to do. */
  function IntendedStep(blocked: set<string>, c: Command): set<string>
  {
    match c
    case Block(ip) => blocked + {ip}
    case Unblock(ip) => blocked - {ip}
  }

  function PrefixRun(blocked: set<string>, run: seq<Command>): set<string>
  {
    if run == [] then blocked else PrefixStep(PrefixRun(blocked, run[..|run| - 1]), run[|run| - 1])
  }

  function IntendedRun(blocked: set<string>, run: seq<Command>): set<string>
  {
    if run == [] then blocked else IntendedStep(IntendedRun(blocked, run[..|run| - 1]), run[|run| - 1])
  }

  // ----- lines against the set

  ghost predicate Represents(lines: seq<string>, base: seq<string>, blocked: set<string>)
  {
    && GoodLines(lines)
    && Others(lines) == base
    && (forall ip: string :: RuleIn(ip) in lines <==> ip in blocked)
    && (forall ip: string :: RuleOut(ip) in lines <==> ip in blocked)
  }

  lemma {:induction false} KeptMembers(lines: seq<string>, ip: string)
    ensures forall l :: l in Kept(lines, ip) <==> l in lines && !Matches(l, ip)
  {
    if lines != [] {
      KeptMembers(lines[1..], ip);
      assert lines == [lines[0]] + lines[1..];
    }
  }

  lemma {:induction false} OthersConcat(a: seq<string>, b: seq<string>)
    ensures Others(a + b) == Others(a) + Others(b)
  {
    if a == [] {
      assert a + b == b;
    } else {
      var rest := Others(a[1..]);
      OthersConcat(a[1..], b);
      assert (a + b)[0] == a[0] && (a + b)[1..] == a[1..] + b;
      if !IsRule(a[0]) {
        assert [a[0]] + (rest + Others(b)) == ([a[0]] + rest) + Others(b);
      }
    }
  }

  lemma MatchIsRule(line: string, ip: string)
    requires Matches(line, ip)
    ensures IsRule(line)
  {
    if HasPrefix(line, RuleIn(ip)) {
      assert line[..|IN_PREFIX|] == RuleIn(ip)[..|IN_PREFIX|] == IN_PREFIX;
    } else {
      assert line[..|OUT_PREFIX|] == RuleOut(ip)[..|OUT_PREFIX|] == OUT_PREFIX;
    }
  }

  lemma {:induction false} OthersOfKept(lines: seq<string>, ip: string)
    ensures Others(Kept(lines, ip)) == Others(lines)
  {
    if lines != [] {
      OthersOfKept(lines[1..], ip);
      if Matches(lines[0], ip) {
        MatchIsRule(lines[0], ip);
      } else {
        assert Kept(lines, ip)[1..] == Kept(lines[1..], ip);
      }
    }
  }

  lemma RuleLinesDiffer(x: string, y: string)
    ensures RuleIn(x) == RuleIn(y) <==> x == y
    ensures RuleOut(x) == RuleOut(y) <==> x == y
    ensures RuleIn(x) != RuleOut(y)
    ensures IsRule(RuleIn(x)) && IsRule(RuleOut(x))
  {
    assert RuleIn(x)[|IN_PREFIX|..] == x && RuleIn(y)[|IN_PREFIX|..] == y;
    assert RuleOut(x)[|OUT_PREFIX|..] == x && RuleOut(y)[|OUT_PREFIX|..] == y;
    assert RuleIn(x)[6] == 'i' && RuleOut(y)[6] == 'o';
  }

  lemma BlockKeeps(lines: seq<string>, base: seq<string>, blocked: set<string>, ip: string)
    requires Represents(lines, base, blocked) && IpText(ip)
    ensures Represents(lines + [RuleIn(ip), RuleOut(ip)], base, blocked + {ip})
  {
    var rules := [RuleIn(ip), RuleOut(ip)];
    RuleLinesGood(ip);
    RuleLinesDiffer(ip, ip);
    OthersConcat(lines, rules);
    assert rules[1..] == [RuleOut(ip)] && Others([RuleOut(ip)]) == [];
    assert Others(rules) == [];
    forall x: string
      ensures RuleIn(x) in lines + rules <==> x in blocked + {ip}
      ensures RuleOut(x) in lines + rules <==> x in blocked + {ip}
    {
      RuleLinesDiffer(x, ip);
      RuleLinesDiffer(ip, x);
    }
  }

  lemma UnblockKeeps(lines: seq<string>, base: seq<string>, blocked: set<string>, ip: string)
    requires Represents(lines, base, blocked)
    ensures Represents(Kept(lines, ip), base, PrefixStep(blocked, Unblock(ip)))
  {
    KeptMembers(lines, ip);
    OthersOfKept(lines, ip);
    forall x: string
      ensures RuleIn(x) in Kept(lines, ip) <==> x in PrefixStep(blocked, Unblock(ip))
      ensures RuleOut(x) in Kept(lines, ip) <==> x in PrefixStep(blocked, Unblock(ip))
    {
      MatchesByPrefix(x, ip);
    }
  }

  /** Some lines represent the set and are the lines of the file. */
  ghost predicate Tracks(text: string, base: seq<string>, blocked: set<string>)
  {
    exists lines :: Represents(lines, base, blocked) && text == Unlines(lines)
  }

  lemma StepTracks(text: string, base: seq<string>, blocked: set<string>, c: Command)
    requires Tracks(text, base, blocked) && IpText(c.ip)
    ensures Tracks(TextStep(text, c), base, PrefixStep(blocked, c))
  {
    var lines :| Represents(lines, base, blocked) && text == Unlines(lines);
    match c
    case Block(ip) =>
      AddedLines(lines, ip);
      BlockKeeps(lines, base, blocked, ip);
    case Unblock(ip) =>
      RemovedLines(lines, ip);
      UnblockKeeps(lines, base, blocked, ip);
  }

  lemma {:induction false} OthersOfBase(lines: seq<string>)
    requires forall l <- lines :: !IsRule(l)
    ensures Others(lines) == lines
  {
    if lines != [] {
      assert !IsRule(lines[0]);
      OthersOfBase(lines[1..]);
    }
  }

  lemma BaseTracks(text: string)
    requires BaseText(text)
    ensures Tracks(text, RawLines(text), {})
  {
    var lines := RawLines(text);
    TerminatedIsUnlines(text);
    OthersOfBase(lines);
    forall ip: string ensures RuleIn(ip) !in lines && RuleOut(ip) !in lines {
      RuleLinesDiffer(ip, ip);
    }
    assert Represents(lines, lines, {});
  }

  lemma {:induction false} RunTracks(text: string, run: seq<Command>)
    requires BaseText(text) && forall c <- run :: IpText(c.ip)
    ensures Tracks(TextRun(text, run), RawLines(text), PrefixRun({}, run))
  {
    if run == [] {
      BaseTracks(text);
    } else {
      RunTracks(text, run[..|run| - 1]);
      StepTracks(TextRun(text, run[..|run| - 1]), RawLines(text), PrefixRun({}, run[..|run| - 1]), run[|run| - 1]);
    }
  }

  /** After any run of successful commands on a file without block rules, the addresses with
      both rule lines are exactly those of the abstract run in which unblocking takes away every
      address the given one is a prefix of; all other lines keep their content and order. */
  lemma FileRefinesPrefixSet(text: string, run: seq<Command>)
    requires BaseText(text) && forall c <- run :: IpText(c.ip)
    ensures forall ip :: BlockedIn(TextRun(text, run), ip) <==> ip in PrefixRun({}, run)
    ensures Others(RawLines(TextRun(text, run))) == RawLines(text)
  {
    RunTracks(text, run);
    var lines :| Represents(lines, RawLines(text), PrefixRun({}, run)) && TextRun(text, run) == Unlines(lines);
    RawLinesOfUnlines(lines);
    ScannedGood(lines);
  }

  // ----- when that is the intended set

  /** An unblock that meets another blocked address beginning with the given one. */
  ghost predicate Collides(blocked: set<string>, c: Command)
  {
    c.Unblock? && exists x <- blocked :: x != c.ip && c.ip <= x
  }

  lemma StepIntended(blocked: set<string>, c: Command)
    ensures PrefixStep(blocked, c) == IntendedStep(blocked, c) <==> !Collides(blocked, c)
  {
    if c.Unblock? {
      if Collides(blocked, c) {
        var x :| x in blocked && x != c.ip && c.ip <= x;
        assert x in IntendedStep(blocked, c) && x !in PrefixStep(blocked, c);
      } else {
        assert PrefixStep(blocked, c) == IntendedStep(blocked, c);
      }
    }
  }

  ghost predicate SetsAgree(run: seq<Command>)
  {
    forall n :: 0 <= n <= |run| ==> PrefixRun({}, run[..n]) == IntendedRun({}, run[..n])
  }

  ghost predicate NoCollision(run: seq<Command>)
  {
    forall n :: 0 <= n < |run| ==> !Collides(IntendedRun({}, run[..n]), run[n])
  }

  lemma UnfoldLast(run: seq<Command>)
    requires run != []
    ensures var init := run[..|run| - 1];
      && (SetsAgree(run) <==> SetsAgree(init) && PrefixRun({}, run) == IntendedRun({}, run))
      && (NoCollision(run) <==> NoCollision(init) && !Collides(IntendedRun({}, init), run[|run| - 1]))
  {
    var init := run[..|run| - 1];
    assert forall n :: 0 <= n <= |init| ==> init[..n] == run[..n];
    assert run[..|run|] == run;
  }

  /** All through the run the set kept by the file is the intended one exactly when no unblock
      meets another blocked address that begins with the address it is given. */
  lemma {:induction false} IntendedExactly(run: seq<Command>)
    ensures SetsAgree(run) <==> NoCollision(run)
  {
    if run == [] {
      assert run[..0] == [];
    } else {
      var init := run[..|run| - 1];
      IntendedExactly(init);
      UnfoldLast(run);
      StepIntended(IntendedRun({}, init), run[|run| - 1]);
      assert init[..|init|] == init;
    }
  }

  lemma {:induction false} RunMembers(run: seq<Command>)
    ensures forall x <- IntendedRun({}, run) :: exists c <- run :: c.ip == x
  {
    if run != [] {
      var init := run[..|run| - 1];
      RunMembers(init);
      forall x <- IntendedRun({}, run) ensures exists c <- run :: c.ip == x {
        if x in IntendedRun({}, init) {
          var c :| c in init && c.ip == x;
          assert c in run;
        } else {
          assert run[|run| - 1] in run;
        }
      }
    }
  }

  /** Over addresses none of which begins with another, the file keeps the intended set. */
  lemma PrefixFreeRefines(text: string, run: seq<Command>)
    requires BaseText(text) && forall c <- run :: IpText(c.ip)
    requires forall a, b :: a in run && b in run && a.ip <= b.ip ==> a.ip == b.ip
    ensures forall ip :: BlockedIn(TextRun(text, run), ip) <==> ip in IntendedRun({}, run)
  {
    FileRefinesPrefixSet(text, run);
    forall n | 0 <= n < |run| ensures !Collides(IntendedRun({}, run[..n]), run[n]) {
      RunMembers(run[..n]);
      assert run[n] in run;
      forall x <- IntendedRun({}, run[..n]) ensures x == run[n].ip || !(run[n].ip <= x) {
        var c :| c in run[..n] && c.ip == x;
        assert c in run;
      }
    }
    IntendedExactly(run);
    assert SetsAgree(run);
    assert run[..|run|] == run;
  }

  lemma LastStep(run: seq<Command>, c: Command)
    ensures PrefixRun({}, run + [c]) == PrefixStep(PrefixRun({}, run), c)
    ensures IntendedRun({}, run + [c]) == IntendedStep(IntendedRun({}, run), c)
  {
    assert (run + [c])[..|run + [c]| - 1] == run;
  }

  /** After two addresses are blocked, the second beginning with the first, unblocking the first
      empties the set. */
  lemma ShorterTakesLonger(a: string, b: string)
    requires a <= b && a != b
    ensures var run := [Block(a), Block(b), Unblock(a)];
      IntendedRun({}, run) == {b} && PrefixRun({}, run) == {}
  {
    LastStep([], Block(a));
    LastStep([Block(a)], Block(b));
    LastStep([Block(a), Block(b)], Unblock(a));
    assert [] + [Block(a)] == [Block(a)] && [Block(a)] + [Block(b)] == [Block(a), Block(b)];
    assert [Block(a), Block(b)] + [Unblock(a)] == [Block(a), Block(b), Unblock(a)];
  }

  /** Unblocking 10.0.0.1 also unblocks 10.0.0.10. */
  lemma UnblockTakesLonger(text: string)
    requires BaseText(text)
    ensures var run := [Block("10.0.0.1"), Block("10.0.0.10"), Unblock("10.0.0.1")];
      && IntendedRun({}, run) == {"10.0.0.10"}
      && !BlockedIn(TextRun(text, run), "10.0.0.10")
  {
    var run := [Block("10.0.0.1"), Block("10.0.0.10"), Unblock("10.0.0.1")];
    ShorterTakesLonger("10.0.0.1", "10.0.0.10");
    assert forall c <- run :: IpText(c.ip);
    FileRefinesPrefixSet(text, run);
  }
}
