/** The bound on a sender's work over whole runs, and three runs in which a transfer goes wrong:
    by a crossing retry, by a crossing request, and by a false acknowledgement. */
module TransferRuns {
  import opened Text
  import opened Chunking
  import opened Transfer
  import opened TransferDelivery
  import opened TransferSerial

  // ----- the sender stops

  /** An upper bound on the steps a sender still takes. */
  function Fuel(s: Sender): nat
  {
    var n := |s.chunks|;
    match s.pc
    case Finished(_) => 0
    case Cleaning(_) => 1
    case Waiting(retry) => 2 + RoundFuel(retry, n)
    case Resending(retry, missing, next) => Gap(|missing|, next) + 3 + RoundFuel(retry + 1, n)
    case Sending(next) => Gap(n, next) + 3 + RoundFuel(0, n)
    case Registering => n + 4 + RoundFuel(0, n)
  }

  function Gap(a: nat, b: nat): nat { if b < a then a - b else 0 }

  /** For the retry rounds from `retry` on. */
  function RoundFuel(retry: nat, n: nat): nat
    decreases Gap(MAX_RETRIES, retry)
  {
    if retry < MAX_RETRIES then n + 2 + RoundFuel(retry + 1, n) else 0
  }

  function StepsOf(run: seq<Action>, t: nat): nat
  {
    if run == [] then 0 else (if run[0] == Run(t) then 1 else 0) + StepsOf(run[1..], t)
  }

  lemma RunBurnsFuel(w: World, t: nat)
    requires Valid(w) && Enabled(w, Run(t))
    ensures Fuel(RunStep(w, t).senders[t]) < Fuel(w.senders[t])
  {
    var s := w.senders[t];
    assert s in w.senders;
    match s.pc
    case Waiting(retry) =>
      if retry < MAX_RETRIES {
        assert |Missing(s.acks, 0, |s.chunks|)| <= |s.chunks|;
      }
    case Resending(_, _, _) =>
    case _ =>
  }

  lemma OthersKeepFuel(w: World, a: Action, t: nat)
    requires Valid(w) && Enabled(w, a) && t < |w.senders| && a != Run(t)
    ensures Next(w, a).senders[t].pc == w.senders[t].pc && Next(w, a).senders[t].chunks == w.senders[t].chunks
  {}

  /** In every run a sender takes at most 3 * n + 8 steps for n chunks, each publishing at most
      one message, and until it has finished a step of it is always enabled. */
  lemma {:induction false} SenderStops(w: World, run: seq<Action>, t: nat)
    requires Valid(w) && Legal(w, run) && t < |w.senders|
    ensures t < |Exec(w, run).senders|
    ensures StepsOf(run, t) + Fuel(Exec(w, run).senders[t]) <= Fuel(w.senders[t]) <= 3 * |w.senders[t].chunks| + 8
    ensures Exec(w, run).senders[t].pc.Finished? || Enabled(Exec(w, run), Run(t))
    decreases |run|
  {
    assert ValidSender(w.senders[t]) by { assert w.senders[t] in w.senders; }
    assert RoundFuel(0, |w.senders[t].chunks|) == 2 * |w.senders[t].chunks| + 4;
    if run != [] {
      if run[0] == Run(t) {
        RunBurnsFuel(w, t);
      } else {
        OthersKeepFuel(w, run[0], t);
      }
      StepKeepsValid(w, run[0]);
      StepKeepsFiles(w, run[0]);
      SenderStops(Next(w, run[0]), run[1..], t);
    }
  }

  // ----- three runs that go wrong

  lemma {:induction false} LegalConcat(w: World, run: seq<Action>, a: Action)
    requires Valid(w) && Legal(w, run) && Enabled(Exec(w, run), a)
    ensures Legal(w, run + [a]) && Exec(w, run + [a]) == Next(Exec(w, run), a)
    decreases |run|
  {
    if run == [] {
      StepKeepsValid(w, a);
      assert (run + [a])[1..] == [];
    } else {
      StepKeepsValid(w, run[0]);
      LegalConcat(Next(w, run[0]), run[1..], a);
      assert (run + [a])[1..] == run[1..] + [a];
    }
  }

  lemma TakeStep(run: seq<Action>, w: World, a: Action) returns (run': seq<Action>, w': World)
    requires Legal(Initial, run) && Exec(Initial, run) == w && Enabled(w, a)
    ensures run' == run + [a] && w' == Next(w, a)
    ensures Legal(Initial, run') && Exec(Initial, run') == w'
  {
    LegalConcat(Initial, run, a);
    run', w' := run + [a], Next(w, a);
  }

  const FILE_A: seq<byte> := [1]
  const FILE_B: seq<byte> := [2]

  const MESSAGE_A := Message(0, 1, FILE_A, Some("a"))

  /** Sender 0 has published its chunk and waits for acknowledgements. */
  lemma FirstTransferSent(path: string) returns (run: seq<Action>, w: World)
    ensures Legal(Initial, run) && Exec(Initial, run) == w
    ensures w.senders == [Sender(path, "A", [FILE_A], "a", {}, Sending(1))]
    ensures w.published == {Packet("A", 0, MESSAGE_A)} && w.held == [map[]] && w.acks == {}
    ensures w.sessions == map[SessionKey(path, "A") := 0]
  {
    run, w := TakeStep([], Initial, Request(path, "A", [FILE_A], "a"));
    run, w := TakeStep(run, w, Run(0));
    run, w := TakeStep(run, w, Run(0));
  }

  /** The second request is in, and sender 0 is about to retry. */
  lemma AboutToRetry() returns (run: seq<Action>, w: World)
    ensures Legal(Initial, run) && Exec(Initial, run) == w
    ensures w.senders == [
      Sender("a", "A", [FILE_A], "a", {}, Resending(0, [0], 0)), Sender("b", "B", [FILE_B], "b", {}, Registering)]
    ensures w.globalTopic == "B" && w.held == [map[], map[]]
  {
    run, w := FirstTransferSent("a");
    run, w := TakeStep(run, w, Run(0));
    run, w := TakeStep(run, w, Request("b", "B", [FILE_B], "b"));
    assert Missing({}, 0, 1) == [0];
    run, w := TakeStep(run, w, Run(0));
  }

  /** A legal run of two requests on different topics. The second request sets the global topic,
      the unacknowledged chunk of the first transfer is retried on it, and the second receiver
      then holds a message for every index of its file and puts together the first file. */
  lemma MisroutedRetry() returns (run: seq<Action>)
    ensures Legal(Initial, run)
    ensures var w := Exec(Initial, run);
      && |w.senders| == 2 && w.senders[0].topic != w.senders[1].topic
      && HoldsAll(w.held[1], w.senders[1])
      && Assemble(w.held[1], |w.senders[1].chunks|) == Flatten(w.senders[0].chunks) != Flatten(w.senders[1].chunks)
  {
    var w;
    run, w := AboutToRetry();
    run, w := TakeStep(run, w, Run(0));
    assert Packet("B", 0, MESSAGE_A) in w.published;
    run, w := TakeStep(run, w, Deliver(1, Packet("B", 0, MESSAGE_A)));
    OneChunk(w.held[1], w.senders[0]);
    OneChunk(w.held[1], w.senders[1]);
  }

  lemma OneChunk(held: map<nat, Message>, s: Sender)
    requires |s.chunks| == 1 && 0 in held
    ensures Assemble(held, 1) == held[0].data && Flatten(s.chunks) == s.chunks[0]
  {
    assert Assemble(held, 1) == Assemble(held, 0) + held[0].data;
    assert s.chunks[..0] == [];
    assert Flatten(s.chunks) == Flatten([]) + s.chunks[0];
  }

  /** The first receiver has acknowledged its chunk, and the second request is in. */
  lemma AcknowledgedForPath() returns (run: seq<Action>, w: World)
    ensures Legal(Initial, run) && Exec(Initial, run) == w
    ensures w.senders == [
      Sender("p", "A", [FILE_A], "a", {}, Sending(1)), Sender("p", "B", [FILE_B], "b", {}, Registering)]
    ensures w.published == {Packet("A", 0, MESSAGE_A)}
    ensures |w.held| == 2 && w.held[1] == map[] && w.acks == {Ack(0, 0, "p")}
    ensures w.globalTopic == "B" && w.sessions == map[SessionKey("p", "A") := 0]
  {
    run, w := FirstTransferSent("p");
    run, w := TakeStep(run, w, Deliver(0, Packet("A", 0, MESSAGE_A)));
    assert 0 in w.held[0];
    run, w := TakeStep(run, w, Acknowledge(0, 0));
    run, w := TakeStep(run, w, Request("p", "B", [FILE_B], "b"));
  }

  /** A legal run of two requests for the same path on different topics. The acknowledgement of
      the first receiver names only the path, so it counts for the second transfer, which then
      finishes as confirmed although its receiver holds nothing. No step crosses. */
  lemma ForeignAcknowledgement() returns (run: seq<Action>)
    ensures Legal(Initial, run) && Always(Initial, run, (v, a) => !Crosses(v, a))
    ensures var w := Exec(Initial, run);
      && |w.senders| == 2 && w.senders[0].topic != w.senders[1].topic && w.senders[0].path == w.senders[1].path
      && Confirmed(w.senders[1]) && w.held[1] == map[] && |w.senders[1].chunks| == 1
  {
    var w;
    run, w := AcknowledgedForPath();
    run, w := TakeStep(run, w, Run(1));
    assert Routed(w, Ack(0, 0, "p")) == Some(1);
    run, w := TakeStep(run, w, HandleAck(Ack(0, 0, "p")));
    assert w.senders[1].acks == {0};
    run, w := FinishConfirmed(run, w);
    FitsExactly(Initial, run);
  }

  lemma FinishConfirmed(run: seq<Action>, w: World) returns (run': seq<Action>, w': World)
    requires Legal(Initial, run) && Exec(Initial, run) == w
    requires |w.senders| == 2 && w.senders[1] == Sender("p", "B", [FILE_B], "b", {0}, Sending(0))
    requires w.senders[0] == Sender("p", "A", [FILE_A], "a", {}, Sending(1))
    requires w.published == {Packet("A", 0, MESSAGE_A)}
    ensures Legal(Initial, run') && Exec(Initial, run') == w'
    ensures |w'.senders| == 2 && w'.senders[0] == w.senders[0] && Fits(w')
    ensures w'.senders[1].topic == "B" && w'.senders[1].path == "p"
    ensures Confirmed(w'.senders[1]) && w'.held == w.held && |w'.senders[1].chunks| == 1
  {
    run', w' := TakeStep(run, w, Run(1));
    run', w' := TakeStep(run', w', Run(1));
    NoneMissing({0}, 0, 1);
    run', w' := TakeStep(run', w', Run(1));
    assert w'.published == {Packet("A", 0, MESSAGE_A), Packet("B", 1, Message(0, 1, FILE_B, Some("b")))};
  }

  /** One transfer at a time, no retry on a foreign topic, no false acknowledgement. */
  predicate Careful(w: World, a: Action)
  {
    WaitsForAll(w, a) && !Misroutes(w, a) && !FalseAck(w, a)
  }

  lemma {:induction false} CarefulConcat(w: World, run: seq<Action>, a: Action)
    requires Valid(w) && Legal(w, run) && Always(w, run, Careful)
    requires Enabled(Exec(w, run), a) && Careful(Exec(w, run), a)
    ensures Legal(w, run + [a]) && Always(w, run + [a], Careful)
    decreases |run|
  {
    LegalConcat(w, run, a);
    if run == [] {
      StepKeepsValid(w, a);
      assert (run + [a])[1..] == [];
    } else {
      StepKeepsValid(w, run[0]);
      CarefulConcat(Next(w, run[0]), run[1..], a);
      assert (run + [a])[1..] == run[1..] + [a];
    }
  }

  lemma TakeCareful(run: seq<Action>, w: World, a: Action) returns (run': seq<Action>, w': World)
    requires Legal(Initial, run) && Exec(Initial, run) == w && Always(Initial, run, Careful)
    requires Enabled(w, a) && Careful(w, a)
    ensures run' == run + [a] && w' == Next(w, a)
    ensures Legal(Initial, run') && Exec(Initial, run') == w' && Always(Initial, run', Careful)
  {
    CarefulConcat(Initial, run, a);
    run', w' := TakeStep(run, w, a);
  }

  lemma FirstChunkReceived() returns (run: seq<Action>, w: World)
    ensures Legal(Initial, run) && Exec(Initial, run) == w && Always(Initial, run, Careful)
    ensures w.senders == [Sender("a", "A", [FILE_A], "a", {}, Sending(1))] && w.globalTopic == "A"
    ensures w.published == {Packet("A", 0, MESSAGE_A)} && w.held == [map[0 := MESSAGE_A]] && w.acks == {}
    ensures w.sessions == map[SessionKey("a", "A") := 0]
  {
    run, w := TakeCareful([], Initial, Request("a", "A", [FILE_A], "a"));
    run, w := TakeCareful(run, w, Run(0));
    run, w := TakeCareful(run, w, Run(0));
    run, w := TakeCareful(run, w, Deliver(0, Packet("A", 0, MESSAGE_A)));
  }

  /** The first chunk has been published, received and acknowledged. */
  lemma FirstChunkAcknowledged() returns (run: seq<Action>, w: World)
    ensures Legal(Initial, run) && Exec(Initial, run) == w && Always(Initial, run, Careful)
    ensures w.senders == [Sender("a", "A", [FILE_A], "a", {0}, Sending(1))] && w.globalTopic == "A"
    ensures w.published == {Packet("A", 0, MESSAGE_A)} && |w.held| == 1
  {
    run, w := FirstChunkReceived();
    assert 0 in w.held[0];
    run, w := TakeCareful(run, w, Acknowledge(0, 0));
    assert Routed(w, Ack(0, 0, "a")) == Some(0);
    run, w := TakeCareful(run, w, HandleAck(Ack(0, 0, "a")));
    assert w.senders[0].acks == {0};
  }

  lemma FirstTransferFinished() returns (run: seq<Action>, w: World)
    ensures Legal(Initial, run) && Exec(Initial, run) == w && Always(Initial, run, Careful)
    ensures w.senders == [Sender("a", "A", [FILE_A], "a", {0}, Finished(true))]
    ensures w.published == {Packet("A", 0, MESSAGE_A)} && |w.held| == 1
  {
    run, w := FirstChunkAcknowledged();
    run, w := TakeCareful(run, w, Run(0));
    NoneMissing({0}, 0, 1);
    run, w := TakeCareful(run, w, Run(0));
    run, w := TakeCareful(run, w, Run(0));
  }

  /** A legal run of two requests on one topic, the second of which waits until the first has
      finished as confirmed. A message of the first file that comes again reaches the second
      receiver, which then holds a message for every index and puts together the first file. */
  lemma SharedTopic() returns (run: seq<Action>)
    ensures Legal(Initial, run) && Always(Initial, run, Careful)
    ensures var w := Exec(Initial, run);
      && |w.senders| == 2 && Isolated(w) && Confirmed(w.senders[0])
      && w.senders[0].topic == w.senders[1].topic && w.senders[0].path != w.senders[1].path
      && HoldsAll(w.held[1], w.senders[1])
      && Assemble(w.held[1], |w.senders[1].chunks|) == Flatten(w.senders[0].chunks) != Flatten(w.senders[1].chunks)
  {
    var w;
    run, w := FirstTransferFinished();
    run, w := TakeCareful(run, w, Request("b", "A", [FILE_B], "b"));
    run, w := TakeCareful(run, w, Deliver(1, Packet("A", 0, MESSAGE_A)));
    OneChunk(w.held[1], w.senders[0]);
    OneChunk(w.held[1], w.senders[1]);
  }
}
