/** Transfers one after the other: what the conditions of `TransferDelivery` come to when a
    request waits for all earlier transfers to finish. */
module TransferSerial {
  import opened Text
  import opened Chunking
  import opened Transfer
  import opened TransferDelivery

  /** A request waits for all earlier transfers to finish. */
  predicate WaitsForAll(w: World, a: Action)
  {
    a.Request? ==> forall s <- w.senders :: s.pc.Finished?
  }

  /** A request on a topic that was used before is for the same file with the same content. */
  predicate ReusesForSameFile(w: World, a: Action)
  {
    a.Request? ==> forall s <- w.senders :: s.topic == a.topic ==> s.chunks == a.chunks && s.hash == a.hash
  }

  predicate NoEmptyFile(w: World) { forall s <- w.senders :: s.chunks != [] }

  predicate NotEmpty(w: World, a: Action) { a.Request? ==> a.chunks != [] }

  predicate NewPath(w: World, a: Action) { a.Request? ==> forall s <- w.senders :: s.path != a.path }

  // ----- what such runs keep

  /** All senders but the last have finished, and the global topic is that of the last. */
  ghost predicate LastActive(w: World)
  {
    && (forall t :: 0 <= t < |w.senders| - 1 ==> w.senders[t].pc.Finished?)
    && (|w.senders| > 0 ==> w.globalTopic == w.senders[|w.senders| - 1].topic)
  }

  /** The number of messages of the first pass that have been published. */
  function SentFirst(s: Sender): nat
  {
    match s.pc
    case Registering => 0
    case Sending(next) => next
    case _ => |s.chunks|
  }

  /** What the first pass has been through stands on the sender's own topic. */
  ghost predicate FirstPassStands(w: World)
  {
    forall t, i :: 0 <= t < |w.senders| && 0 <= i < SentFirst(w.senders[t]) && i < |w.senders[t].chunks| ==>
      Packet(w.senders[t].topic, t, ChunkMessage(w.senders[t], i)) in w.published
  }

  lemma StepKeepsLastActive(w: World, a: Action)
    requires Valid(w) && LastActive(w) && Enabled(w, a) && WaitsForAll(w, a)
    ensures LastActive(Next(w, a)) && !Misroutes(w, a)
  {
    StepKeepsFiles(w, a);
    var w' := Next(w, a);
    assert forall t :: 0 <= t < |w.senders| ==> SameFile(w.senders[t], w'.senders[t]);
  }

  lemma StepKeepsFirstPass(w: World, a: Action)
    requires Valid(w) && FirstPassStands(w) && Enabled(w, a)
    ensures FirstPassStands(Next(w, a))
  {
    StepKeepsFiles(w, a);
    StepPublishes(w, a);
    var w' := Next(w, a);
    forall t, i | 0 <= t < |w'.senders| && 0 <= i < SentFirst(w'.senders[t]) && i < |w'.senders[t].chunks|
      ensures Packet(w'.senders[t].topic, t, ChunkMessage(w'.senders[t], i)) in w'.published
    {
      var s := w.senders[t];
      assert SameFile(s, w'.senders[t]);
      if i < SentFirst(s) {
        assert Packet(s.topic, t, ChunkMessage(s, i)) in w.published;
      } else {
        assert a == Run(t) && s.pc == Sending(i);
        assert Packet(s.topic, t, ChunkMessage(s, i)) in Packets(s, t, w.globalTopic);
      }
    }
  }

  // ----- a shared topic

  /** Requests on the same topic were for the same file. */
  ghost predicate TopicsTell(w: World)
  {
    forall i, j :: 0 <= i < j < |w.senders| && w.senders[i].topic == w.senders[j].topic ==>
      w.senders[i].chunks == w.senders[j].chunks && w.senders[i].hash == w.senders[j].hash
  }

  lemma StepKeepsTopics(w: World, a: Action)
    requires Valid(w) && TopicsTell(w) && Enabled(w, a) && ReusesForSameFile(w, a)
    ensures TopicsTell(Next(w, a))
  {
    StepKeepsFiles(w, a);
    var w' := Next(w, a);
    assert forall t :: 0 <= t < |w.senders| ==> SameFile(w.senders[t], w'.senders[t]);
  }

  lemma SameFileDoesNotCross(w: World, a: Action)
    requires Valid(w) && LastActive(w) && Isolated(w) && TopicsTell(w)
    requires Enabled(w, a) && WaitsForAll(w, a) && ReusesForSameFile(w, a)
    ensures !Crosses(w, a)
  {
    if a.Request? {
      forall p <- w.published | p.topic == a.topic
        ensures Authored(p, Sender(a.path, a.topic, a.chunks, a.hash, {}, Registering))
      {
        assert w.senders[p.from] in w.senders;
      }
    } else if a.Run? {
      StepKeepsLastActive(w, a);
    }
  }

  lemma ForeignFileCrosses(w: World, a: Action)
    requires Valid(w) && FirstPassStands(w) && Enabled(w, a) && WaitsForAll(w, a)
    requires !ReusesForSameFile(w, a)
    requires NoEmptyFile(w)
    ensures Crosses(w, a)
  {
    var s :| s in w.senders && s.topic == a.topic && !(s.chunks == a.chunks && s.hash == a.hash);
    var t :| 0 <= t < |w.senders| && w.senders[t] == s;
    var s' := Sender(a.path, a.topic, a.chunks, a.hash, {}, Registering);
    if !Crosses(w, a) {
      forall i | 0 <= i < |s.chunks| ensures i < |s'.chunks| && ChunkMessage(s, i) == ChunkMessage(s', i) {
        assert Packet(s.topic, t, ChunkMessage(s, i)) in w.published;
      }
      assert ChunkMessage(s, 0) == ChunkMessage(s', 0);
      assert |s.chunks| == |s'.chunks|;
      assert ChunkMessage(s, |s.chunks| - 1) == ChunkMessage(s', |s.chunks| - 1);
      forall i | 0 <= i < |s.chunks| ensures s.chunks[i] == s'.chunks[i] {
        assert ChunkMessage(s, i) == ChunkMessage(s', i);
      }
    }
  }

  lemma StepKeepsNonEmpty(w: World, a: Action)
    requires Valid(w) && Enabled(w, a) && NotEmpty(w, a)
    requires NoEmptyFile(w)
    ensures NoEmptyFile(Next(w, a))
  {
    StepKeepsFiles(w, a);
    forall s <- Next(w, a).senders ensures s.chunks != [] {
      var t :| 0 <= t < |Next(w, a).senders| && Next(w, a).senders[t] == s;
      if t < |w.senders| {
        assert w.senders[t] in w.senders && SameFile(w.senders[t], s);
      }
    }
  }

  /** With one transfer at a time, nothing crosses when a topic is only ever used again for the
      same file, and, unless a file is empty, only then. */
  lemma {:induction false} SerialCrossing(w: World, run: seq<Action>)
    requires Valid(w) && Legal(w, run) && Always(w, run, WaitsForAll)
    requires LastActive(w) && Isolated(w) && FirstPassStands(w) && TopicsTell(w)
    ensures Always(w, run, ReusesForSameFile) ==> Always(w, run, (v, a) => !Crosses(v, a))
    ensures NoEmptyFile(w) && Always(w, run, NotEmpty) && Always(w, run, (v, a) => !Crosses(v, a)) ==>
      Always(w, run, ReusesForSameFile)
    decreases |run|
  {
    if run != [] {
      StepKeepsValid(w, run[0]);
      StepKeepsLastActive(w, run[0]);
      StepIsolation(w, run[0]);
      StepKeepsFirstPass(w, run[0]);
      if ReusesForSameFile(w, run[0]) {
        StepKeepsTopics(w, run[0]);
        SameFileDoesNotCross(w, run[0]);
        SerialCrossing(Next(w, run[0]), run[1..]);
        if NoEmptyFile(w) && NotEmpty(w, run[0]) {
          StepKeepsNonEmpty(w, run[0]);
        }
      } else if NoEmptyFile(w) {
        ForeignFileCrosses(w, run[0]);
      }
    }
  }

  // ----- a path for each transfer

  /** The session table holds at most the last transfer, while it is active. */
  ghost predicate OneSession(w: World)
  {
    forall k <- w.sessions ::
      var last := |w.senders| - 1;
      && w.sessions[k] == last >= 0
      && !w.senders[last].pc.Finished?
      && k == SessionKey(w.senders[last].path, w.senders[last].topic)
  }

  /** Paths tell transfers apart, and an acknowledgement names its receiver's path and a chunk
      that the receiver holds. */
  ghost predicate PathsTell(w: World)
    requires |w.held| == |w.senders|
  {
    && (forall i, j :: 0 <= i < j < |w.senders| ==> w.senders[i].path != w.senders[j].path)
    && (forall k <- w.acks :: k.receiver < |w.senders| && k.path == w.senders[k.receiver].path
          && k.index in w.held[k.receiver])
  }

  lemma StepKeepsPaths(w: World, a: Action)
    requires Valid(w) && PathsTell(w) && Enabled(w, a) && NewPath(w, a)
    ensures |Next(w, a).held| == |Next(w, a).senders| && PathsTell(Next(w, a))
  {
    StepKeepsFiles(w, a);
    HeldGrows(w, a);
    var w' := Next(w, a);
    assert forall t :: 0 <= t < |w.senders| ==> SameFile(w.senders[t], w'.senders[t]);
  }

  lemma StepKeepsOneSession(w: World, a: Action)
    requires Valid(w) && LastActive(w) && OneSession(w) && Enabled(w, a) && WaitsForAll(w, a)
    ensures OneSession(Next(w, a))
  {
    var w' := Next(w, a);
    if a.Request? {
      if |w.senders| > 0 {
        assert w.senders[|w.senders| - 1] in w.senders;
      }
      assert w.sessions == map[];
    } else {
      StepKeepsFiles(w, a);
      forall t | 0 <= t < |w.senders| ensures SameFile(w.senders[t], w'.senders[t]) {}
    }
  }

  lemma NoFalseAck(w: World, a: Action)
    requires Valid(w) && LastActive(w) && OneSession(w) && PathsTell(w) && Enabled(w, a)
    ensures !FalseAck(w, a)
  {
    if a.HandleAck? && Routed(w, a.ack).Some? {
      var last := |w.senders| - 1;
      var topic := w.globalTopic + ":";
      assert (topic + a.ack.path)[|topic|..] == a.ack.path;
      assert (topic + w.senders[last].path)[|topic|..] == w.senders[last].path;
    }
  }

  /** With one transfer at a time, each under a path of its own, no acknowledgement counts for a
      transfer whose receiver lacks the chunk, whether the topic is shared or not. */
  lemma {:induction false} SerialAcks(w: World, run: seq<Action>)
    requires Valid(w) && Legal(w, run) && Always(w, run, WaitsForAll) && Always(w, run, NewPath)
    requires LastActive(w) && OneSession(w) && PathsTell(w)
    ensures Always(w, run, (v, a) => !FalseAck(v, a))
    decreases |run|
  {
    if run != [] {
      StepKeepsValid(w, run[0]);
      StepKeepsLastActive(w, run[0]);
      StepKeepsOneSession(w, run[0]);
      StepKeepsPaths(w, run[0]);
      NoFalseAck(w, run[0]);
      SerialAcks(Next(w, run[0]), run[1..]);
    }
  }

  /** The two conditions together: one transfer at a time, each under a new path, a topic used
      again only for the same file. Then a confirmed transfer has delivered the file. */
  lemma SerialFileDelivered(run: seq<Action>, t: nat, content: seq<byte>, statSize: nat)
    requires Legal(Initial, run) && Always(Initial, run, WaitsForAll)
    requires Always(Initial, run, ReusesForSameFile) && Always(Initial, run, NewPath)
    requires t < |Exec(Initial, run).senders|
    requires ReadOutcome(content, None, ChunkCount(statSize)) == Chunked(Exec(Initial, run).senders[t].chunks)
    ensures var w := Exec(Initial, run);
      var s, held := w.senders[t], w.held[t];
      Confirmed(s) ==> HoldsAll(held, s) && Assemble(held, |s.chunks|) == content
  {
    SerialCrossing(Initial, run);
    SerialAcks(Initial, run);
    FileDelivered(run, t, content, statSize);
  }
}
