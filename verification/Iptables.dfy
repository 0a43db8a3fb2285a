/** Blocking and unblocking with iptables: the command lists of `blockIP` and `unBlockIP` on
    chains that are ordered lists, with insertion at the top, appending at the end and deletion
    of the first matching rule. */
module Iptables {
  datatype Rule = Drop(ip: string) | Other(text: string)

  datatype Chain = INPUT | FORWARD

  datatype Op = InsertTop | AppendEnd | DeleteMatch

  datatype Command = Command(op: Op, chain: Chain, ip: string)

  datatype Tables = Tables(input: seq<Rule>, forward: seq<Rule>)

  function BlockCommands(ip: string): seq<Command>
  {
    [Command(InsertTop, INPUT, ip), Command(AppendEnd, FORWARD, ip)]
  }

  function UnblockCommands(ip: string): seq<Command>
  {
    [Command(DeleteMatch, INPUT, ip), Command(DeleteMatch, FORWARD, ip)]
  }

  function DeleteFirst(chain: seq<Rule>, r: Rule): seq<Rule>
  {
    if chain == [] then []
    else if chain[0] == r then chain[1..]
    else [chain[0]] + DeleteFirst(chain[1..], r)
  }

  function Edit(chain: seq<Rule>, op: Op, r: Rule): seq<Rule>
  {
    match op
    case InsertTop => [r] + chain
    case AppendEnd => chain + [r]
    case DeleteMatch => DeleteFirst(chain, r)
  }

  /** A command that fails, or deletes a rule that is not there, changes nothing. */
  function Apply(t: Tables, c: Command, works: bool): Tables
  {
    if !works then t
    else match c.chain
      case INPUT => t.(input := Edit(t.input, c.op, Drop(c.ip)))
      case FORWARD => t.(forward := Edit(t.forward, c.op, Drop(c.ip)))
  }

  /** Each command is run whether or not the ones before it failed. */
  function ApplyAll(t: Tables, commands: seq<Command>, works: seq<bool>): Tables
    requires |works| == |commands|
  {
    if commands == [] then t
    else
      var k := |commands| - 1;
      Apply(ApplyAll(t, commands[..k], works[..k]), commands[k], works[k])
  }

  class Firewall {
    var input: seq<Rule>
    var forward: seq<Rule>

    constructor (input: seq<Rule>, forward: seq<Rule>)
      ensures Contents() == Tables(input, forward)
    {
      this.input, this.forward := input, forward;
    }

    function Contents(): Tables
      reads this
    {
      Tables(input, forward)
    }

    method DeleteRule(chain: seq<Rule>, r: Rule) returns (rest: seq<Rule>)
      ensures rest == DeleteFirst(chain, r)
    {
      var i := 0;
      while i < |chain| && chain[i] != r
        invariant 0 <= i <= |chain|
        invariant forall k :: 0 <= k < i ==> chain[k] != r
      {
        i := i + 1;
      }
      DeleteAt(chain, r, i);
      rest := if i < |chain| then chain[..i] + chain[i + 1..] else chain;
    }

    method Execute(c: Command, works: bool)
      modifies this
      ensures Contents() == Apply(old(Contents()), c, works)
    {
      if !works {
        return;
      }
      var chain := if c.chain == INPUT then input else forward;
      match c.op {
        case InsertTop => chain := [Drop(c.ip)] + chain;
        case AppendEnd => chain := chain + [Drop(c.ip)];
        case DeleteMatch => chain := DeleteRule(chain, Drop(c.ip));
      }
      if c.chain == INPUT {
        input := chain;
      } else {
        forward := chain;
      }
    }

    method RunCommands(commands: seq<Command>, works: seq<bool>)
      requires |works| == |commands|
      modifies this
      ensures Contents() == ApplyAll(old(Contents()), commands, works)
    {
      assert commands[..0] == [];
      for i := 0 to |commands|
        invariant Contents() == ApplyAll(old(Contents()), commands[..i], works[..i])
      {
        assert commands[..i + 1][..i] == commands[..i] && works[..i + 1][..i] == works[..i];
        Execute(commands[i], works[i]);
      }
      assert commands[..|commands|] == commands && works[..|commands|] == works;
    }

    method BlockIp(ip: string, works: seq<bool>)
      requires |works| == 2
      modifies this
      ensures Contents() == ApplyAll(old(Contents()), BlockCommands(ip), works)
    {
      RunCommands(BlockCommands(ip), works);
    }

    method UnblockIp(ip: string, works: seq<bool>)
      requires |works| == 2
      modifies this
      ensures Contents() == ApplyAll(old(Contents()), UnblockCommands(ip), works)
    {
      RunCommands(UnblockCommands(ip), works);
    }
  }

  lemma {:induction false} DeleteAt(chain: seq<Rule>, r: Rule, i: nat)
    requires i <= |chain| && (forall k :: 0 <= k < i ==> chain[k] != r) && (i < |chain| ==> chain[i] == r)
    ensures DeleteFirst(chain, r) == if i < |chain| then chain[..i] + chain[i + 1..] else chain
  {
    if i > 0 {
      DeleteAt(chain[1..], r, i - 1);
      assert chain == [chain[0]] + chain[1..];
      if i < |chain| {
        assert chain[1..][..i - 1] == chain[1..i] && chain[1..][i..] == chain[i + 1..];
        assert [chain[0]] + (chain[1..i] + chain[i + 1..]) == chain[..i] + chain[i + 1..];
      }
    }
  }

  // ----- one block and one unblock

  lemma BothCommands(t: Tables, commands: seq<Command>, works: seq<bool>)
    requires |commands| == |works| == 2
    ensures ApplyAll(t, commands, works) == Apply(Apply(t, commands[0], works[0]), commands[1], works[1])
  {
    assert commands[..1] == [commands[0]] && works[..1] == [works[0]];
    assert [commands[0]][..0] == [] && [works[0]][..0] == [];
    assert ApplyAll(t, [commands[0]], [works[0]]) == Apply(t, commands[0], works[0]);
  }

  /** Blocking puts the rule on top of INPUT and at the end of FORWARD, as far as the two commands
      worked. */
  lemma BlockPlaces(t: Tables, ip: string, works: seq<bool>)
    requires |works| == 2
    ensures ApplyAll(t, BlockCommands(ip), works)
         == Tables(if works[0] then [Drop(ip)] + t.input else t.input,
                   if works[1] then t.forward + [Drop(ip)] else t.forward)
  {
    BothCommands(t, BlockCommands(ip), works);
  }

  /** Unblocking takes the first rule for the address out of each chain, as far as the two commands
      worked and there is one. */
  lemma UnblockRemoves(t: Tables, ip: string, works: seq<bool>, before: seq<Rule>, after: seq<Rule>)
    requires |works| == 2 && Drop(ip) !in before
    ensures t.input == before + [Drop(ip)] + after && works[0] ==>
      ApplyAll(t, UnblockCommands(ip), works).input == before + after
    ensures t.forward == before + [Drop(ip)] + after && works[1] ==>
      ApplyAll(t, UnblockCommands(ip), works).forward == before + after
    ensures !works[0] || Drop(ip) !in t.input ==> ApplyAll(t, UnblockCommands(ip), works).input == t.input
    ensures !works[1] || Drop(ip) !in t.forward ==> ApplyAll(t, UnblockCommands(ip), works).forward == t.forward
  {
    BothCommands(t, UnblockCommands(ip), works);
    var chain := before + [Drop(ip)] + after;
    forall k | 0 <= k < |before| ensures chain[k] != Drop(ip) {
      assert chain[k] == before[k] && before[k] in before;
    }
    assert chain[|before|] == Drop(ip) && chain[..|before|] == before && chain[|before| + 1..] == after;
    DeleteAt(chain, Drop(ip), |before|);
    DeleteChanges(t.input, Drop(ip));
    DeleteChanges(t.forward, Drop(ip));
  }

  lemma {:induction false} DeleteAppended(chain: seq<Rule>, r: Rule)
    ensures DeleteFirst(chain + [r], r) == chain
       <==> forall i, j :: 0 <= i < j < |chain| && chain[i] == r ==> chain[j] == r
  {
    if chain == [] {
      assert chain + [r] == [r];
    } else {
      var rest := chain[1..];
      assert (chain + [r])[1..] == rest + [r];
      if chain[0] == r {
        ShiftedIsConstant(rest, r);
        assert chain == [r] + rest;
      } else {
        DeleteAppended(rest, r);
        assert chain == [chain[0]] + rest;
        assert forall i, j :: 0 <= i < j < |rest| ==> rest[i] == chain[i + 1] && rest[j] == chain[j + 1];
      }
    }
  }

  lemma {:induction false} ConstantFrom(rest: seq<Rule>, r: Rule, k: nat)
    requires k < |rest|
    requires forall j {:trigger rest[j]} :: 0 <= j < |rest| ==> rest[j] == (if j == 0 then r else rest[j - 1])
    ensures rest[k] == r
  {
    if k > 0 {
      ConstantFrom(rest, r, k - 1);
    }
  }

  lemma ShiftedIsConstant(rest: seq<Rule>, r: Rule)
    ensures rest + [r] == [r] + rest <==> forall k :: 0 <= k < |rest| ==> rest[k] == r
  {
    var a, b := rest + [r], [r] + rest;
    if a == b {
      forall j | 0 <= j < |rest| ensures rest[j] == (if j == 0 then r else rest[j - 1]) {
        assert a[j] == b[j];
      }
      forall k | 0 <= k < |rest| ensures rest[k] == r {
        ConstantFrom(rest, r, k);
      }
    }
  }

  lemma {:induction false} DeleteChanges(chain: seq<Rule>, r: Rule)
    ensures |DeleteFirst(chain, r)| == if r in chain then |chain| - 1 else |chain|
    ensures DeleteFirst(chain, r) == chain <==> r !in chain
  {
    if chain != [] {
      assert chain == [chain[0]] + chain[1..];
      if chain[0] != r {
        DeleteChanges(chain[1..], r);
      }
    }
  }

  /** The insertion and the deletion of a rule leave a chain with the rules it had: both worked,
      or neither, or only the deletion and the rule was not there. */
  predicate Undone(chain: seq<Rule>, r: Rule, added: bool, deleted: bool)
  {
    added == deleted || (deleted && r !in chain)
  }

  /** Nothing but copies of the rule follows its first copy. */
  ghost predicate CopiesLast(chain: seq<Rule>, r: Rule)
  {
    forall i, j :: 0 <= i < j < |chain| && chain[i] == r ==> chain[j] == r
  }

  lemma InsertThenDelete(chain: seq<Rule>, r: Rule, added: bool, deleted: bool)
    ensures var between := if added then [r] + chain else chain;
      (if deleted then DeleteFirst(between, r) else between) == chain <==> Undone(chain, r, added, deleted)
  {
    assert ([r] + chain)[1..] == chain;
    assert |[r] + chain| != |chain|;
    DeleteChanges(chain, r);
  }

  lemma AppendThenDelete(chain: seq<Rule>, r: Rule, added: bool, deleted: bool)
    ensures var between := if added then chain + [r] else chain;
      var after := if deleted then DeleteFirst(between, r) else between;
      && (multiset(after) == multiset(chain) <==> Undone(chain, r, added, deleted))
      && (after == chain <==> Undone(chain, r, added, deleted) && (added && deleted ==> CopiesLast(chain, r)))
  {
    var between := if added then chain + [r] else chain;
    if deleted {
      DeleteMultiset(between, r);
      DeleteChanges(chain, r);
      DeleteAppended(chain, r);
      if !added && r in chain {
        assert |multiset(DeleteFirst(chain, r))| == |DeleteFirst(chain, r)| != |multiset(chain)|;
      }
    } else if added {
      assert |multiset(between)| == |between| != |multiset(chain)|;
    }
  }

  /** Unblocking right after blocking, whichever of the four commands worked: INPUT is restored,
      and FORWARD as a multiset, exactly when the pair of commands on the chain is undone; and
      FORWARD in order exactly when, besides, nothing but copies of the rule follows its first
      copy in case both commands worked. */
  lemma UnblockAfterBlock(t: Tables, ip: string, block: seq<bool>, unblock: seq<bool>)
    requires |block| == |unblock| == 2
    ensures var t' := ApplyAll(ApplyAll(t, BlockCommands(ip), block), UnblockCommands(ip), unblock);
      && (t'.input == t.input <==> Undone(t.input, Drop(ip), block[0], unblock[0]))
      && (multiset(t'.forward) == multiset(t.forward) <==> Undone(t.forward, Drop(ip), block[1], unblock[1]))
      && (t'.forward == t.forward <==>
            && Undone(t.forward, Drop(ip), block[1], unblock[1])
            && (block[1] && unblock[1] ==> CopiesLast(t.forward, Drop(ip))))
  {
    BothCommands(t, BlockCommands(ip), block);
    BothCommands(ApplyAll(t, BlockCommands(ip), block), UnblockCommands(ip), unblock);
    InsertThenDelete(t.input, Drop(ip), block[0], unblock[0]);
    AppendThenDelete(t.forward, Drop(ip), block[1], unblock[1]);
  }

  /** An older rule for the address is deleted in place of the appended one, and a rule that stood
      behind it comes to stand before it. */
  lemma OlderRuleReorders(ip: string, text: string)
    ensures var t := Tables([], [Drop(ip), Other(text)]);
      ApplyAll(ApplyAll(t, BlockCommands(ip), [true, true]), UnblockCommands(ip), [true, true])
        == Tables([], [Other(text), Drop(ip)])
  {
    var t := Tables([], [Drop(ip), Other(text)]);
    var blocked := Tables([Drop(ip)], [Drop(ip), Other(text), Drop(ip)]);
    BothCommands(t, BlockCommands(ip), [true, true]);
    assert t.forward + [Drop(ip)] == blocked.forward;
    assert ApplyAll(t, BlockCommands(ip), [true, true]) == blocked;
    BothCommands(blocked, UnblockCommands(ip), [true, true]);
    assert blocked.forward[1..] == [Other(text), Drop(ip)];
  }

  lemma {:induction false} DeleteMultiset(chain: seq<Rule>, r: Rule)
    ensures multiset(DeleteFirst(chain, r)) == multiset(chain) - multiset{r}
  {
    if chain != [] {
      assert chain == [chain[0]] + chain[1..];
      if chain[0] != r {
        DeleteMultiset(chain[1..], r);
      }
    }
  }

  // ----- runs

  /** One call of either method, and which of its two commands worked. */
  datatype Event =
    | Block(ip: string, onInput: bool, onForward: bool)
    | Unblock(ip: string, onInput: bool, onForward: bool)

  function Works(e: Event): seq<bool> { [e.onInput, e.onForward] }

  predicate WorkedOn(e: Event, chain: Chain) { if chain == INPUT then e.onInput else e.onForward }

  function Run(t: Tables, run: seq<Event>): Tables
  {
    if run == [] then t
    else
      var before, e := Run(t, run[..|run| - 1]), run[|run| - 1];
      ApplyAll(before, if e.Block? then BlockCommands(e.ip) else UnblockCommands(e.ip), Works(e))
  }

  /** What the last call of a run did to the two chains. */
  lemma RunStep(t: Tables, run: seq<Event>)
    requires run != []
    ensures var before, e := Run(t, run[..|run| - 1]), run[|run| - 1];
      var r := Drop(e.ip);
      && Run(t, run).input
           == (if !e.onInput then before.input
               else if e.Block? then [r] + before.input else DeleteFirst(before.input, r))
      && Run(t, run).forward
           == (if !e.onForward then before.forward
               else if e.Block? then before.forward + [r] else DeleteFirst(before.forward, r))
  {
    var before, e := Run(t, run[..|run| - 1]), run[|run| - 1];
    BothCommands(before, if e.Block? then BlockCommands(e.ip) else UnblockCommands(e.ip), Works(e));
  }

  /** The rules added to a chain and not yet deleted. */
  function Pending(run: seq<Event>, chain: Chain): multiset<Rule>
  {
    if run == [] then multiset{}
    else
      var before, e := Pending(run[..|run| - 1], chain), run[|run| - 1];
      if !WorkedOn(e, chain) then before
      else if e.Block? then before + multiset{Drop(e.ip)}
      else before - multiset{Drop(e.ip)}
  }

  /** Each deletion on the chain undoes an earlier insertion of its address. */
  ghost predicate Nested(run: seq<Event>, chain: Chain)
  {
    run == [] ||
    (var init, e := run[..|run| - 1], run[|run| - 1];
     Nested(init, chain) && (WorkedOn(e, chain) && e.Unblock? ==> Drop(e.ip) in Pending(init, chain)))
  }

  lemma {:induction false} DeleteInFront(added: seq<Rule>, base: seq<Rule>, r: Rule)
    requires r in added
    ensures DeleteFirst(added + base, r) == DeleteFirst(added, r) + base
  {
    if added[0] == r {
      assert (added + base)[1..] == added[1..] + base;
    } else {
      assert added == [added[0]] + added[1..];
      assert (added + base)[1..] == added[1..] + base;
      DeleteInFront(added[1..], base, r);
    }
  }

  /** During a nested run INPUT is the original chain below the pending rules. */
  lemma {:induction false} NestedInput(t: Tables, run: seq<Event>) returns (added: seq<Rule>)
    requires Nested(run, INPUT)
    ensures Run(t, run).input == added + t.input && multiset(added) == Pending(run, INPUT)
  {
    added := [];
    if run == [] {
      assert added + t.input == t.input;
    } else {
      var e := run[|run| - 1];
      var before := NestedInput(t, run[..|run| - 1]);
      RunStep(t, run);
      if !e.onInput {
        added := before;
      } else if e.Block? {
        added := [Drop(e.ip)] + before;
        assert [Drop(e.ip)] + (before + t.input) == added + t.input;
      } else {
        added := DeleteFirst(before, Drop(e.ip));
        assert Drop(e.ip) in multiset(before);
        DeleteInFront(before, t.input, Drop(e.ip));
        DeleteMultiset(before, Drop(e.ip));
      }
    }
  }

  lemma TakeFromSum(a: multiset<Rule>, p: multiset<Rule>, r: Rule)
    requires r in p
    ensures (a + p) - multiset{r} == a + (p - multiset{r})
  {}

  /** FORWARD then has the rules of the original chain and the pending ones. */
  lemma {:induction false} NestedForward(t: Tables, run: seq<Event>)
    requires Nested(run, FORWARD)
    ensures multiset(Run(t, run).forward) == multiset(t.forward) + Pending(run, FORWARD)
  {
    if run != [] {
      var init, e := run[..|run| - 1], run[|run| - 1];
      NestedForward(t, init);
      RunStep(t, run);
      if e.onForward && e.Unblock? {
        DeleteMultiset(Run(t, init).forward, Drop(e.ip));
        TakeFromSum(multiset(t.forward), Pending(init, FORWARD), Drop(e.ip));
      }
    }
  }

  /** A run in which every insertion that worked on a chain is undone there later, in any
      interleaving of addresses and whatever else failed, restores the chain: INPUT exactly, and
      FORWARD up to order. */
  lemma BalancedRunRestores(t: Tables, run: seq<Event>)
    ensures Nested(run, INPUT) && Pending(run, INPUT) == multiset{} ==> Run(t, run).input == t.input
    ensures Nested(run, FORWARD) && Pending(run, FORWARD) == multiset{} ==>
      multiset(Run(t, run).forward) == multiset(t.forward)
  {
    if Nested(run, FORWARD) {
      NestedForward(t, run);
    }
    if Nested(run, INPUT) && Pending(run, INPUT) == multiset{} {
      var added := NestedInput(t, run);
      assert |multiset(added)| == |added|;
      assert added == [];
      assert added + t.input == t.input;
    }
  }

  function Without(chain: seq<Rule>, ips: set<string>): seq<Rule>
  {
    if chain == [] then []
    else if chain[0].Drop? && chain[0].ip in ips then Without(chain[1..], ips)
    else [chain[0]] + Without(chain[1..], ips)
  }

  lemma {:induction false} WithoutEdit(chain: seq<Rule>, r: Rule, ips: set<string>)
    requires r.Drop? && r.ip in ips
    ensures Without([r] + chain, ips) == Without(chain, ips)
    ensures Without(chain + [r], ips) == Without(chain, ips)
    ensures Without(DeleteFirst(chain, r), ips) == Without(chain, ips)
  {
    assert ([r] + chain)[1..] == chain;
    if chain == [] {
      assert chain + [r] == [r];
    } else {
      assert (chain + [r])[1..] == chain[1..] + [r];
      WithoutEdit(chain[1..], r, ips);
      if chain[0] != r {
        assert DeleteFirst(chain, r)[1..] == DeleteFirst(chain[1..], r);
      }
    }
  }

  /** In every run, balanced or not and whatever failed, the rules for other addresses keep their
      order in both chains. */
  lemma {:induction false} OtherRulesKeepOrder(t: Tables, run: seq<Event>, ips: set<string>)
    requires forall e <- run :: e.ip in ips
    ensures Without(Run(t, run).input, ips) == Without(t.input, ips)
    ensures Without(Run(t, run).forward, ips) == Without(t.forward, ips)
  {
    if run != [] {
      var e := run[|run| - 1];
      assert e in run;
      OtherRulesKeepOrder(t, run[..|run| - 1], ips);
      RunStep(t, run);
      var before := Run(t, run[..|run| - 1]);
      WithoutEdit(before.input, Drop(e.ip), ips);
      WithoutEdit(before.forward, Drop(e.ip), ips);
    }
  }
}
