/** What a receiver ends up with. Delivery depends on the packets that stand on a receiver's
    topic, confirmation on the acknowledgements that count for its transfer. For both, the steps
    that break it are named, and every run keeps it exactly when it takes no such step. */
module TransferDelivery {
  import opened Text
  import opened Chunking
  import opened Transfer

  // ----- delivery: what stands on a receiver's topic

  /** Some receiver subscribed to the topic of the packet would take it for a chunk of its own
      file, and it is not that chunk. */
  predicate Misfits(p: Packet, senders: seq<Sender>)
  {
    exists j :: 0 <= j < |senders| && p.topic == senders[j].topic && !Authored(p, senders[j])
  }

  ghost predicate Fits(w: World)
  {
    forall p <- w.published :: !Misfits(p, w.senders)
  }

  /** A request for a topic that already carries something else than the requested file, or a
      publication on a topic where a receiver waits for another file. */
  predicate Crosses(w: World, a: Action)
  {
    match a
    case Request(path, topic, chunks, hash) =>
      exists p <- w.published :: p.topic == topic && !Authored(p, Sender(path, topic, chunks, hash, {}, Registering))
    case Run(t) => t < |w.senders| && exists p <- Packets(w.senders[t], t, w.globalTopic) :: Misfits(p, w.senders)
    case _ => false
  }

  lemma SameFilesSameMisfits(p: Packet, senders: seq<Sender>, senders': seq<Sender>)
    requires |senders| <= |senders'|
    requires forall t :: 0 <= t < |senders| ==> SameFile(senders[t], senders'[t])
    ensures Misfits(p, senders) ==> Misfits(p, senders')
    ensures |senders| == |senders'| && Misfits(p, senders') ==> Misfits(p, senders)
  {
    if Misfits(p, senders) {
      var j :| 0 <= j < |senders| && p.topic == senders[j].topic && !Authored(p, senders[j]);
      assert SameFile(senders[j], senders'[j]);
      assert !Authored(p, senders'[j]);
    }
    if |senders| == |senders'| && Misfits(p, senders') {
      var j :| 0 <= j < |senders'| && p.topic == senders'[j].topic && !Authored(p, senders'[j]);
      assert SameFile(senders[j], senders'[j]);
      assert !Authored(p, senders[j]);
    }
  }

  lemma RequestFits(w: World, a: Action)
    requires Valid(w) && Enabled(w, a) && a.Request?
    ensures Fits(Next(w, a)) <==> Fits(w) && !Crosses(w, a)
  {
    var w' := Next(w, a);
    var last := |w.senders|;
    assert w'.senders[last] == Sender(a.path, a.topic, a.chunks, a.hash, {}, Registering);
    forall p <- w.published
      ensures Misfits(p, w'.senders)
         <==> Misfits(p, w.senders) || (p.topic == a.topic && !Authored(p, w'.senders[last]))
    {
      SameFilesSameMisfits(p, w.senders, w'.senders);
    }
  }

  /** A step keeps that every packet is right for every receiver on its topic if and only if it
      does not cross. */
  lemma StepFits(w: World, a: Action)
    requires Valid(w) && Enabled(w, a)
    ensures Fits(Next(w, a)) <==> Fits(w) && !Crosses(w, a)
  {
    if a.Request? {
      RequestFits(w, a);
    } else {
      var w' := Next(w, a);
      StepKeepsFiles(w, a);
      assert w'.published == w.published + if a.Run? then Packets(w.senders[a.t], a.t, w.globalTopic) else {};
      forall p <- w'.published ensures Misfits(p, w'.senders) <==> Misfits(p, w.senders) {
        SameFilesSameMisfits(p, w.senders, w'.senders);
      }
    }
  }

  lemma {:induction false} FitsExactly(w: World, run: seq<Action>)
    requires Valid(w) && Legal(w, run)
    ensures Fits(Exec(w, run)) <==> Fits(w) && Always(w, run, (v, a) => !Crosses(v, a))
    decreases |run|
  {
    if run != [] {
      StepKeepsValid(w, run[0]);
      StepFits(w, run[0]);
      FitsExactly(Next(w, run[0]), run[1..]);
    }
  }

  /** What a caller can look at before the step: the topic of a request carries messages already,
      or the sender publishes on a topic that another receiver reads too. */
  predicate TakesTopicInUse(w: World, a: Action)
  {
    match a
    case Request(_, topic, _, _) => exists p <- w.published :: p.topic == topic
    case Run(t) =>
      && t < |w.senders|
      && var e := Emitted(w.senders[t], w.globalTopic);
      && e.Some? && exists j :: 0 <= j < |w.senders| && j != t && e.value.0 == w.senders[j].topic
    case _ => false
  }

  /** Crossing takes a topic in use; a topic shared for the same file does no harm. */
  lemma CrossingTakesTopicInUse(w: World, a: Action)
    requires Valid(w) && Enabled(w, a) && Crosses(w, a)
    ensures TakesTopicInUse(w, a)
  {
    if a.Run? {
      var s := w.senders[a.t];
      var p :| p in Packets(s, a.t, w.globalTopic) && Misfits(p, w.senders);
      var j :| 0 <= j < |w.senders| && p.topic == w.senders[j].topic && !Authored(p, w.senders[j]);
      assert Authored(p, s);
      assert j != a.t;
    }
  }

  /** Receiver j holds message i only as sender j wrote it. */
  ghost predicate HeldExactly(w: World)
    requires |w.held| == |w.senders|
  {
    forall j, i :: 0 <= j < |w.held| && i in w.held[j] ==>
      i < |w.senders[j].chunks| && w.held[j][i] == ChunkMessage(w.senders[j], i)
  }

  lemma StepKeepsHeld(w: World, a: Action)
    requires Valid(w) && Enabled(w, a) && Fits(w) && HeldExactly(w)
    ensures |Next(w, a).held| == |Next(w, a).senders| && HeldExactly(Next(w, a))
  {
    StepKeepsFiles(w, a);
    var w' := Next(w, a);
    if a.Deliver? {
      assert Authored(a.packet, w.senders[a.j]);
    }
    forall j, i | 0 <= j < |w'.held| && i in w'.held[j]
      ensures i < |w'.senders[j].chunks| && w'.held[j][i] == ChunkMessage(w'.senders[j], i)
    {
      if j < |w.held| {
        assert SameFile(w.senders[j], w'.senders[j]);
      }
    }
  }

  lemma {:induction false} RunKeepsHeld(w: World, run: seq<Action>)
    requires Valid(w) && Legal(w, run) && Fits(w) && HeldExactly(w) && Always(w, run, (v, a) => !Crosses(v, a))
    ensures Fits(Exec(w, run)) && HeldExactly(Exec(w, run))
    decreases |run|
  {
    if run != [] {
      StepKeepsValid(w, run[0]);
      StepFits(w, run[0]);
      StepKeepsHeld(w, run[0]);
      RunKeepsHeld(Next(w, run[0]), run[1..]);
    }
  }

  /** Receivers hold only messages of their own files, and so they do after any one delivery. */
  ghost predicate SafelyHeld(w: World)
    requires Valid(w)
  {
    && HeldExactly(w)
    && forall j, p :: Enabled(w, Deliver(j, p)) ==> HeldExactly(Next(w, Deliver(j, p)))
  }

  /** After a run from the start, no receiver holds a foreign message and none can be delivered
      to it, if and only if no step of the run crossed. */
  lemma DeliveryExactly(run: seq<Action>)
    requires Legal(Initial, run)
    ensures Always(Initial, run, (v, a) => !Crosses(v, a)) <==> SafelyHeld(Exec(Initial, run))
  {
    var w := Exec(Initial, run);
    FitsExactly(Initial, run);
    if Fits(w) {
      RunKeepsHeld(Initial, run);
      forall j, p | Enabled(w, Deliver(j, p)) ensures HeldExactly(Next(w, Deliver(j, p))) {
        StepKeepsHeld(w, Deliver(j, p));
      }
    } else {
      var p :| p in w.published && Misfits(p, w.senders);
      var j :| 0 <= j < |w.senders| && p.topic == w.senders[j].topic && !Authored(p, w.senders[j]);
      var w' := Next(w, Deliver(j, p));
      assert p.message.index in w'.held[j];
      assert !HeldExactly(w');
    }
  }

  // ----- confirmation: which acknowledgements count

  predicate HoldsAll(held: map<nat, Message>, s: Sender)
  {
    forall i :: 0 <= i < |s.chunks| ==> i in held
  }

  /** The sender left its retry loop early. */
  predicate Confirmed(s: Sender)
  {
    (s.pc.Cleaning? || s.pc.Finished?) && s.pc.confirmed
  }

  /** Every chunk that a sender has recorded as acknowledged is held by its own receiver. */
  ghost predicate AckedHeld(w: World)
  {
    forall t, i :: 0 <= t < |w.senders| && t < |w.held| && i in w.senders[t].acks && i < |w.senders[t].chunks| ==>
      i in w.held[t]
  }

  /** An acknowledgement counts for a transfer whose receiver does not hold the chunk. */
  predicate FalseAck(w: World, a: Action)
  {
    && a.HandleAck?
    && var routed := Routed(w, a.ack);
    && routed.Some? && routed.value < |w.senders| && routed.value < |w.held|
    && a.ack.index < |w.senders[routed.value].chunks|
    && a.ack.index !in w.held[routed.value]
  }

  lemma HeldGrows(w: World, a: Action)
    requires Valid(w) && Enabled(w, a)
    ensures |w.held| <= |Next(w, a).held|
    ensures forall t, i :: 0 <= t < |w.held| && i in w.held[t] ==> i in Next(w, a).held[t]
  {}

  lemma StepKeepsAcked(w: World, a: Action)
    requires Valid(w) && Enabled(w, a) && AckedHeld(w)
    ensures AckedHeld(Next(w, a)) <==> !FalseAck(w, a)
  {
    HeldGrows(w, a);
    StepKeepsFiles(w, a);
    var w' := Next(w, a);
    if FalseAck(w, a) {
      var t := Routed(w, a.ack).value;
      assert a.ack.index in w'.senders[t].acks && a.ack.index !in w'.held[t];
    } else {
      forall t, i | 0 <= t < |w'.senders| && i in w'.senders[t].acks && i < |w'.senders[t].chunks|
        ensures i in w'.held[t]
      {
        if t < |w.senders| && i in w.senders[t].acks {
          assert SameFile(w.senders[t], w'.senders[t]);
          assert i in w.held[t];
        }
      }
    }
  }

  /** `inv` holds of every world of the run. */
  ghost predicate Throughout(w: World, run: seq<Action>, inv: World -> bool)
    requires Valid(w) && Legal(w, run)
    decreases |run|
  {
    inv(w) && (run == [] || (StepKeepsValid(w, run[0]); Throughout(Next(w, run[0]), run[1..], inv)))
  }

  /** In every state of a run all recorded acknowledgements are of chunks that the transfer's own
      receiver holds, if and only if none was counted for a transfer whose receiver lacked the
      chunk. Losses, repetitions and acknowledgements that reach another session whose receiver
      does hold the chunk do no harm. */
  lemma {:induction false} AckedHeldExactly(w: World, run: seq<Action>)
    requires Valid(w) && Legal(w, run)
    ensures Throughout(w, run, AckedHeld) <==> AckedHeld(w) && Always(w, run, (v, a) => !FalseAck(v, a))
    decreases |run|
  {
    if run != [] && AckedHeld(w) {
      StepKeepsValid(w, run[0]);
      StepKeepsAcked(w, run[0]);
      AckedHeldExactly(Next(w, run[0]), run[1..]);
      if FalseAck(w, run[0]) {
        assert !AckedHeld(Next(w, run[0]));
      }
    }
  }

  /** A sender that left its retry loop early is right that its receiver has the whole file. */
  ghost predicate ConfirmedTrue(w: World)
    requires |w.held| == |w.senders|
  {
    forall t :: 0 <= t < |w.senders| && Confirmed(w.senders[t]) ==> HoldsAll(w.held[t], w.senders[t])
  }

  lemma StepKeepsConfirmed(w: World, a: Action)
    requires Valid(w) && Enabled(w, a) && AckedHeld(w) && ConfirmedTrue(w)
    ensures |Next(w, a).held| == |Next(w, a).senders| && ConfirmedTrue(Next(w, a))
  {
    HeldGrows(w, a);
    StepKeepsFiles(w, a);
    var w' := Next(w, a);
    forall t | 0 <= t < |w'.senders| && Confirmed(w'.senders[t]) ensures HoldsAll(w'.held[t], w'.senders[t]) {
      var s := w.senders[t];
      assert SameFile(s, w'.senders[t]);
      if !Confirmed(s) {
        NoneMissing(s.acks, 0, |s.chunks|);
      }
    }
  }

  lemma {:induction false} RunKeepsConfirmed(w: World, run: seq<Action>)
    requires Valid(w) && Legal(w, run) && AckedHeld(w) && ConfirmedTrue(w)
    requires Always(w, run, (v, a) => !FalseAck(v, a))
    ensures ConfirmedTrue(Exec(w, run))
    decreases |run|
  {
    if run != [] {
      StepKeepsValid(w, run[0]);
      StepKeepsAcked(w, run[0]);
      StepKeepsConfirmed(w, run[0]);
      RunKeepsConfirmed(Next(w, run[0]), run[1..]);
    }
  }

  // ----- what this means for the receiver of a file

  /** What a receiver puts together from the messages it holds, in index order. */
  function Assemble(held: map<nat, Message>, n: nat): seq<byte>
    requires forall i :: 0 <= i < n ==> i in held
  {
    if n == 0 then [] else Assemble(held, n - 1) + held[n - 1].data
  }

  lemma {:induction false} AssembleIsFlatten(held: map<nat, Message>, s: Sender, n: nat)
    requires n <= |s.chunks|
    requires forall i :: 0 <= i < n ==> i in held && held[i] == ChunkMessage(s, i)
    ensures Assemble(held, n) == Flatten(s.chunks[..n])
  {
    if n > 0 {
      AssembleIsFlatten(held, s, n - 1);
      assert s.chunks[..n][..n - 1] == s.chunks[..n - 1];
    }
  }

  /** Over every run without a crossing step, however messages are lost, repeated and reordered:
      what a receiver holds under an index is that message of its own transfer, with the hash on
      the last index only, and a receiver that holds all indices rebuilds the file byte for byte. */
  lemma DeliveredExactly(run: seq<Action>, t: nat)
    requires Legal(Initial, run) && Always(Initial, run, (v, a) => !Crosses(v, a))
    requires t < |Exec(Initial, run).senders|
    ensures var w := Exec(Initial, run);
      var s, held := w.senders[t], w.held[t];
      && (forall i <- held ::
            && i == held[i].index < |s.chunks| == held[i].total
            && held[i].hash == if i + 1 == |s.chunks| then Some(s.hash) else None)
      && (HoldsAll(held, s) ==> Assemble(held, |s.chunks|) == Flatten(s.chunks))
  {
    RunKeepsHeld(Initial, run);
    var w := Exec(Initial, run);
    var s, held := w.senders[t], w.held[t];
    assert forall i <- held :: held[i] == ChunkMessage(s, i);
    if HoldsAll(held, s) {
      AssembleIsFlatten(held, s, |s.chunks|);
      assert s.chunks[..|s.chunks|] == s.chunks;
    }
  }

  /** With chunks that the read loop made of a file, and no false acknowledgement either, a
      confirmed transfer has delivered the content of the file. */
  lemma FileDelivered(run: seq<Action>, t: nat, content: seq<byte>, statSize: nat)
    requires Legal(Initial, run) && Always(Initial, run, (v, a) => !Crosses(v, a))
    requires Always(Initial, run, (v, a) => !FalseAck(v, a))
    requires t < |Exec(Initial, run).senders|
    requires ReadOutcome(content, None, ChunkCount(statSize)) == Chunked(Exec(Initial, run).senders[t].chunks)
    ensures var w := Exec(Initial, run);
      var s, held := w.senders[t], w.held[t];
      Confirmed(s) ==> HoldsAll(held, s) && Assemble(held, |s.chunks|) == content
  {
    DeliveredExactly(run, t);
    RunKeepsConfirmed(Initial, run);
    ReadOutcomeForStatSize(content, statSize);
  }
}
