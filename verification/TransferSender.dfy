/** The loops of the transfer on mutable state: the session and its acknowledgement map, the
    session table, and the log of published messages. Each is proved against the functions the
    protocol steps of module `Transfer` are built from. */
module TransferSender {
  import opened Text
  import opened Transfer

  /** What has been published, in order. */
  class Broker {
    var log: seq<(string, Message)>

    constructor ()
      ensures log == []
    {
      log := [];
    }

    method Publish(topic: string, m: Message)
      modifies this
      ensures log == old(log) + [(topic, m)]
    {
      log := log + [(topic, m)];
    }
  }

  class Session {
    const path: string
    const topic: string
    const chunks: seq<seq<byte>>
    const hash: string
    var ackReceived: map<nat, bool>

    constructor (path: string, topic: string, chunks: seq<seq<byte>>, hash: string)
      ensures this.path == path && this.topic == topic && this.chunks == chunks && this.hash == hash
      ensures ackReceived == map[]
    {
      this.path, this.topic, this.chunks, this.hash := path, topic, chunks, hash;
      ackReceived := map[];
    }

    /** The protocol's view of the session, at a point of its sender. */
    function AsSender(pc: Pc): Sender
      reads this
    {
      Sender(path, topic, chunks, hash, Acked(), pc)
    }

    function Acked(): set<nat>
      reads this
    {
      set i <- ackReceived | ackReceived[i]
    }

    method Acknowledge(index: nat)
      modifies this
      ensures ackReceived == old(ackReceived)[index := true]
      ensures Acked() == old(Acked()) + {index}
    {
      ackReceived := ackReceived[index := true];
    }
  }

  /** handleChunkAck: the session is looked up under the path of the acknowledgement and the
      global topic, and ignored when there is none. */
  method HandleChunkAck(sessions: map<string, Session>, path: string, index: nat, globalTopic: string)
    modifies sessions.Values
    ensures var key := SessionKey(path, globalTopic);
      && (key in sessions ==> sessions[key].Acked() == old(sessions[key].Acked()) + {index})
      && (forall s <- sessions.Values :: key !in sessions || s != sessions[key] ==> s.Acked() == old(s.Acked()))
  {
    var key := SessionKey(path, globalTopic);
    if key !in sessions {
      return;
    }
    sessions[key].Acknowledge(index);
  }

  /** The messages for a list of indices; `topicOf` gives the topic of each publication. */
  function Messages(s: Sender, topicOf: nat -> string, indices: seq<nat>): (log: seq<(string, Message)>)
    requires forall k <- indices :: k < |s.chunks|
    ensures |log| == |indices|
  {
    seq(|indices|, i requires 0 <= i < |indices| =>
      assert indices[i] in indices; (topicOf(i), ChunkMessage(s, indices[i])))
  }

  function Upto(n: nat): seq<nat> { seq(n, i => i) }

  function Constant(topic: string): nat -> string { _ => topic }

  method SendChunksWithFlowControl(session: Session, topic: string, broker: Broker)
    modifies broker
    ensures broker.log == old(broker.log)
      + Messages(session.AsSender(Registering), Constant(topic), Upto(|session.chunks|))
  {
    ghost var s := session.AsSender(Registering);
    ghost var all := Messages(s, Constant(topic), Upto(|s.chunks|));
    for i := 0 to |session.chunks|
      invariant broker.log == old(broker.log) + all[..i]
      invariant session.AsSender(Registering) == s
    {
      var response := Message(i, |session.chunks|, session.chunks[i], None);
      if i == |session.chunks| - 1 {
        response := response.(hash := Some(session.hash));
      }
      assert all[i] == (topic, ChunkMessage(s, i));
      broker.Publish(topic, response);
    }
    assert all[..|session.chunks|] == all;
  }

  lemma {:induction false} MissingUpto(acks: set<nat>, i: nat, j: nat, total: nat)
    requires i <= j <= total
    ensures Missing(acks, i, total) == Missing(acks, i, j) + Missing(acks, j, total)
    decreases j - i
  {
    if i < j {
      MissingUpto(acks, i + 1, j, total);
    }
  }

  /** The scan for unacknowledged chunks, under the session's lock. */
  method MissingChunks(session: Session) returns (missing: seq<nat>)
    ensures missing == Missing(session.Acked(), 0, |session.chunks|)
    ensures forall k :: k in missing <==> 0 <= k < |session.chunks| && k !in session.Acked()
    ensures Ascending(missing)
  {
    MissingExactly(session.Acked(), 0, |session.chunks|);
    missing := [];
    var acks := session.Acked();
    for i := 0 to |session.chunks|
      invariant missing == Missing(acks, 0, i)
    {
      MissingUpto(acks, 0, i, i + 1);
      assert Missing(acks, i + 1, i + 1) == [];
      if !(i in session.ackReceived && session.ackReceived[i]) {
        missing := missing + [i];
      }
    }
  }

  /** The global topic is read anew for every publication. */
  method Resend(session: Session, missing: seq<nat>, topicOf: nat -> string, broker: Broker)
    requires forall k <- missing :: k < |session.chunks|
    modifies broker
    ensures broker.log == old(broker.log) + Messages(session.AsSender(Registering), topicOf, missing)
  {
    ghost var s := session.AsSender(Registering);
    ghost var all := Messages(s, topicOf, missing);
    for k := 0 to |missing|
      invariant broker.log == old(broker.log) + all[..k]
      invariant session.AsSender(Registering) == s
    {
      var idx := missing[k];
      assert idx in missing;
      var response := Message(idx, |session.chunks|, session.chunks[idx], None);
      if idx == |session.chunks| - 1 {
        response := response.(hash := Some(session.hash));
      }
      assert all[k] == (topicOf(k), ChunkMessage(s, idx));
      broker.Publish(topicOf(k), response);
    }
    assert all[..|missing|] == all;
  }

  /** The indices still missing at the end of the first sleep, and at the end of the second. */
  function FirstMissing(s: Sender, arrivals: seq<set<nat>>): (m: seq<nat>)
    requires |arrivals| == MAX_RETRIES
    ensures forall k <- m :: k < |s.chunks|
  {
    Missing(s.acks + arrivals[0], 0, |s.chunks|)
  }

  function SecondMissing(s: Sender, arrivals: seq<set<nat>>): (m: seq<nat>)
    requires |arrivals| == MAX_RETRIES
    ensures forall k <- m :: k < |s.chunks|
  {
    Missing(s.acks + arrivals[0] + arrivals[1], 0, |s.chunks|)
  }

  /** Acknowledgements are never taken back. */
  lemma MissingShrinks(s: Sender, arrivals: seq<set<nat>>)
    requires |arrivals| == MAX_RETRIES
    ensures FirstMissing(s, arrivals) == [] ==> SecondMissing(s, arrivals) == []
    ensures SecondMissing(s, arrivals) == [] <==>
      (forall k :: 0 <= k < |s.chunks| ==> k in s.acks || k in arrivals[0] || k in arrivals[1])
  {
    var first := s.acks + arrivals[0];
    NoneMissing(first, 0, |s.chunks|);
    NoneMissing(first + arrivals[1], 0, |s.chunks|);
    assert forall k :: k in first + arrivals[1] <==> k in s.acks || k in arrivals[0] || k in arrivals[1];
  }

  /** A message depends on the file only, not on the progress of the transfer. */
  lemma SameMessages(s: Sender, s': Sender, topicOf: nat -> string, indices: seq<nat>)
    requires s.chunks == s'.chunks && s.hash == s'.hash && forall k <- indices :: k < |s.chunks|
    ensures Messages(s, topicOf, indices) == Messages(s', topicOf, indices)
  {
    forall k | 0 <= k < |indices| ensures Messages(s, topicOf, indices)[k] == Messages(s', topicOf, indices)[k] {
      assert indices[k] in indices;
      assert Messages(s, topicOf, indices)[k] == (topicOf(k), ChunkMessage(s, indices[k]));
      assert Messages(s', topicOf, indices)[k] == (topicOf(k), ChunkMessage(s', indices[k]));
    }
  }

  /** Acknowledgements that the handler stores before the next scan. */
  method AcksArrive(session: Session, arrived: set<nat>)
    modifies session
    ensures session.Acked() == old(session.Acked()) + arrived
  {
    var todo := arrived;
    while todo != {}
      invariant todo <= arrived
      invariant session.Acked() == old(session.Acked()) + (arrived - todo)
    {
      var i :| i in todo;
      session.Acknowledge(i);
      todo := todo - {i};
    }
  }

  /** `arrivals[r]` are the chunks acknowledged before the scan of round r, since the one before,
      and `topics[r](k)` is the global topic when the round publishes for the k-th time. Each
      round publishes what is missing at the end of its own sleep, and the loop returns early if
      and only if every chunk has been acknowledged by the end of the last sleep, in whichever
      round it finds out. */
  method RetryMissingChunks(session: Session, arrivals: seq<set<nat>>, topics: seq<nat -> string>, broker: Broker)
    returns (confirmed: bool)
    requires |arrivals| == |topics| == MAX_RETRIES
    modifies session, broker
    ensures var s := old(session.AsSender(Registering));
      && broker.log == old(broker.log)
           + Messages(s, topics[0], FirstMissing(s, arrivals)) + Messages(s, topics[1], SecondMissing(s, arrivals))
      && (confirmed <==> forall k :: 0 <= k < |s.chunks| ==> k in s.acks || k in arrivals[0] || k in arrivals[1])
  {
    ghost var s := session.AsSender(Registering);
    ghost var first, second := FirstMissing(s, arrivals), SecondMissing(s, arrivals);
    ghost var acks := [s.acks, s.acks + arrivals[0], s.acks + arrivals[0] + arrivals[1]];
    ghost var logs := [broker.log, broker.log + Messages(s, topics[0], first),
                       broker.log + Messages(s, topics[0], first) + Messages(s, topics[1], second)];
    MissingShrinks(s, arrivals);
    var retry := 0;
    while retry < MAX_RETRIES
      invariant retry <= MAX_RETRIES
      invariant session.AsSender(Registering) == s.(acks := acks[retry])
      invariant broker.log == logs[retry]
      invariant retry > 0 ==> first != []
      invariant retry > 1 ==> second != []
    {
      AcksArrive(session, arrivals[retry]);
      assert session.AsSender(Registering) == s.(acks := acks[retry + 1]);
      var missing := MissingChunks(session);
      assert missing == if retry == 0 then first else second;
      if |missing| == 0 {
        return true;
      }
      SameMessages(session.AsSender(Registering), s, topics[retry], missing);
      Resend(session, missing, topics[retry], broker);
      retry := retry + 1;
    }
    return false;
  }

  // ----- the loops take the steps of the protocol

  /** The world after sender t has run n steps in a row, the k-th while the global topic is
      `topicOf(k)`, which other requests may set in between. */
  function Steps(w: World, t: nat, n: nat, topicOf: nat -> string): (v: World)
    requires t < |w.senders|
    ensures |v.senders| == |w.senders|
  {
    if n == 0 then w
    else
      var v := Steps(w, t, n - 1, topicOf).(globalTopic := topicOf(n - 1));
      if Enabled(v, Run(t)) then RunStep(v, t) else v
  }

  ghost function LogPackets(t: nat, log: seq<(string, Message)>): set<Packet>
  {
    set e <- log :: Packet(e.0, t, e.1)
  }

  /** A step that publishes the next entry of a log. */
  lemma PublishStep(v: World, t: nat, before: set<Packet>, log: seq<(string, Message)>, k: nat)
    requires t < |v.senders| && k < |log|
    requires var e := Emitted(v.senders[t], v.globalTopic);
      e.Some? && e.value.1 < |v.senders[t].chunks| && log[k] == (e.value.0, ChunkMessage(v.senders[t], e.value.1))
    requires v.published == before + LogPackets(t, log[..k])
    ensures RunStep(v, t).senders[t] == v.senders[t].(pc := NextPc(v.senders[t]))
    ensures RunStep(v, t).published == before + LogPackets(t, log[..k + 1])
  {
    assert log[..k + 1] == log[..k] + [log[k]];
    assert LogPackets(t, log[..k + 1]) == LogPackets(t, log[..k]) + {Packet(log[k].0, t, log[k].1)};
  }

  lemma NothingYet(t: nat, log: seq<(string, Message)>)
    ensures LogPackets(t, log[..0]) == {}
  {}

  lemma StepsOn(w: World, t: nat, n: nat, topicOf: nat -> string) returns (v: World)
    requires t < |w.senders| && !Steps(w, t, n, topicOf).senders[t].pc.Finished?
    ensures v == Steps(w, t, n, topicOf).(globalTopic := topicOf(n))
    ensures Steps(w, t, n + 1, topicOf) == RunStep(v, t)
  {
    v := Steps(w, t, n, topicOf).(globalTopic := topicOf(n));
  }

  /** The log of the first pass. */
  ghost predicate FirstLog(s: Sender, log: seq<(string, Message)>)
  {
    log == Messages(s, Constant(s.topic), Upto(|s.chunks|))
  }

  lemma SendOneMore(s: Sender, v: World, t: nat, before: set<Packet>, k: nat, log: seq<(string, Message)>)
    requires t < |v.senders| && FirstLog(s, log) && k < |log|
    requires v.senders[t] == s.(pc := Sending(k))
    requires v.published == before + LogPackets(t, log[..k])
    ensures RunStep(v, t).senders[t] == s.(pc := Sending(k + 1))
    ensures RunStep(v, t).published == before + LogPackets(t, log[..k + 1])
  {
    assert log[k] == (s.topic, ChunkMessage(s, k));
    PublishStep(v, t, before, log, k);
  }

  /** World u is reached from w by sending the first n chunks. */
  ghost predicate Sent(w: World, t: nat, n: nat, log: seq<(string, Message)>, u: World)
    requires t < |w.senders| == |u.senders| && n <= |log|
  {
    u.senders[t] == w.senders[t].(pc := Sending(n)) && u.published == w.published + LogPackets(t, log[..n])
  }

  /** The first pass publishes in one go what the protocol's sender publishes in its steps,
      whatever happens to the global topic meanwhile. */
  lemma {:induction false} FirstPassIsSteps(
      w: World, t: nat, n: nat, topicOf: nat -> string, log: seq<(string, Message)>)
    requires t < |w.senders| && w.senders[t].pc == Sending(0)
    requires FirstLog(w.senders[t], log) && n <= |log|
    ensures Sent(w, t, n, log, Steps(w, t, n, topicOf))
  {
    if n == 0 {
      NothingYet(t, log);
    } else {
      FirstPassIsSteps(w, t, n - 1, topicOf, log);
      var v := StepsOn(w, t, n - 1, topicOf);
      SendOneMore(w.senders[t], v, t, w.published, n - 1, log);
      assert Sent(w, t, n, log, RunStep(v, t));
    }
  }

  function ResentUpto(s: Sender, k: nat): Sender
    requires s.pc.Resending?
  {
    s.(pc := Resending(s.pc.retry, s.pc.missing, k))
  }

  /** The log of resending all that is missing. */
  ghost predicate ResendLog(s: Sender, topicOf: nat -> string, log: seq<(string, Message)>)
  {
    && s.pc.Resending?
    && (forall i <- s.pc.missing :: i < |s.chunks|)
    && log == Messages(s, topicOf, s.pc.missing)
  }

  lemma ResendOneMore(
      s: Sender, v: World, t: nat, before: set<Packet>, j: nat, topicOf: nat -> string, log: seq<(string, Message)>)
    requires t < |v.senders| && ResendLog(s, topicOf, log) && j < |log|
    requires v.senders[t] == ResentUpto(s, j) && v.globalTopic == topicOf(j)
    requires v.published == before + LogPackets(t, log[..j])
    ensures RunStep(v, t).senders[t] == ResentUpto(s, j + 1)
    ensures RunStep(v, t).published == before + LogPackets(t, log[..j + 1])
  {
    assert s.pc.missing[j] in s.pc.missing;
    assert log[j] == (topicOf(j), ChunkMessage(s, s.pc.missing[j]));
    PublishStep(v, t, before, log, j);
  }

  /** World u is reached from w by resending the first k missing chunks. */
  ghost predicate Resent(w: World, t: nat, k: nat, log: seq<(string, Message)>, u: World)
    requires t < |w.senders| == |u.senders| && w.senders[t].pc.Resending? && k <= |log|
  {
    u.senders[t] == ResentUpto(w.senders[t], k) && u.published == w.published + LogPackets(t, log[..k])
  }

  lemma NothingResent(w: World, t: nat, log: seq<(string, Message)>)
    requires t < |w.senders| && w.senders[t].pc.Resending? && w.senders[t].pc.next == 0
    ensures Resent(w, t, 0, log, w)
  {
    NothingYet(t, log);
    assert ResentUpto(w.senders[t], 0) == w.senders[t];
  }

  /** After the scan, k steps resend the first k missing chunks, each on the global topic of the
      moment. */
  lemma {:induction false} ResendIsSteps(
      w: World, t: nat, k: nat, topicOf: nat -> string, log: seq<(string, Message)>)
    requires t < |w.senders| && ResendLog(w.senders[t], topicOf, log)
    requires w.senders[t].pc.next == 0 && k <= |log|
    ensures Resent(w, t, k, log, Steps(w, t, k, topicOf))
  {
    if k == 0 {
      NothingResent(w, t, log);
    } else {
      ResendIsSteps(w, t, k - 1, topicOf, log);
      var v := StepsOn(w, t, k - 1, topicOf);
      ResendOneMore(w.senders[t], v, t, w.published, k - 1, topicOf, log);
      assert Resent(w, t, k, log, RunStep(v, t));
    }
  }

  /** One round of the retry loop in the protocol: the scan and, when chunks are missing, a step
      for each and the one that ends the round. */
  function Round(w: World, t: nat, topicOf: nat -> string): (v: World)
    requires t < |w.senders|
    ensures |v.senders| == |w.senders|
  {
    if !w.senders[t].pc.Waiting? then w
    else
      var v := RunStep(w, t);
      if v.senders[t].pc.Resending? then Steps(v, t, |v.senders[t].pc.missing| + 1, topicOf) else v
  }

  lemma RoundEnds(w: World, t: nat, topicOf: nat -> string, log: seq<(string, Message)>, v: World)
    requires t < |w.senders| == |v.senders| && ResendLog(w.senders[t], topicOf, log)
    requires Resent(w, t, |log|, log, v)
    ensures RunStep(v, t).senders[t] == w.senders[t].(pc := Waiting(w.senders[t].pc.retry + 1))
    ensures RunStep(v, t).published == w.published + LogPackets(t, log)
  {
    assert log[..|log|] == log;
  }

  lemma RoundResends(w: World, t: nat, topicOf: nat -> string, log: seq<(string, Message)>) returns (u: World)
    requires t < |w.senders| && ResendLog(w.senders[t], topicOf, log)
    requires w.senders[t].pc.next == 0
    ensures u == Steps(w, t, |log| + 1, topicOf)
    ensures u.senders[t] == w.senders[t].(pc := Waiting(w.senders[t].pc.retry + 1))
    ensures u.published == w.published + LogPackets(t, log)
  {
    ResendIsSteps(w, t, |log|, topicOf, log);
    var v := StepsOn(w, t, |log|, topicOf);
    assert Resent(w, t, |log|, log, v);
    RoundEnds(w, t, topicOf, log, v);
    u := RunStep(v, t);
  }

  /** A round publishes the missing chunks on the global topic and goes on to the next round, or
      ends the loop: early when nothing is missing, or because the rounds are used up. */
  lemma RoundIsSteps(w: World, t: nat, topicOf: nat -> string)
    requires t < |w.senders| && w.senders[t].pc.Waiting? && w.senders[t].pc.retry <= MAX_RETRIES
    ensures var s := w.senders[t];
      var m := Missing(s.acks, 0, |s.chunks|);
      var over := s.pc.retry == MAX_RETRIES;
      var pc := if over || m == [] then Cleaning(!over) else Waiting(s.pc.retry + 1);
      && Round(w, t, topicOf).senders[t] == s.(pc := pc)
      && Round(w, t, topicOf).published == w.published
           + if over then {} else LogPackets(t, Messages(s, topicOf, m))
  {
    var s := w.senders[t];
    var m := Missing(s.acks, 0, |s.chunks|);
    if s.pc.retry < MAX_RETRIES && m != [] {
      var v := RunStep(w, t);
      SameMessages(s, v.senders[t], topicOf, m);
      var u := RoundResends(v, t, topicOf, Messages(s, topicOf, m));
    }
  }

  /** The acknowledgements stored while a sender sleeps. */
  function Asleep(w: World, t: nat, arrived: set<nat>): World
    requires t < |w.senders|
  {
    var s := w.senders[t];
    w.(senders := w.senders[t := s.(acks := s.acks + arrived)])
  }

  /** The retry loop of the protocol's sender, from its first sleep to its end. */
  function RetryLoop(w: World, t: nat, arrivals: seq<set<nat>>, topics: seq<nat -> string>): World
    requires t < |w.senders| && |arrivals| == |topics| == MAX_RETRIES
  {
    var first := Round(Asleep(w, t, arrivals[0]), t, topics[0]);
    var second := Round(Asleep(first, t, arrivals[1]), t, topics[1]);
    Round(second, t, topics[1])
  }

  /** The protocol's sender publishes in its steps what the method `RetryMissingChunks` publishes,
      and ends as confirmed exactly when the method returns early. */
  lemma RetryLoopIsSteps(w: World, t: nat, arrivals: seq<set<nat>>, topics: seq<nat -> string>)
    requires t < |w.senders| && w.senders[t].pc == Waiting(0)
    requires |arrivals| == |topics| == MAX_RETRIES
    ensures var s := w.senders[t];
      var end := RetryLoop(w, t, arrivals, topics);
      && |end.senders| == |w.senders|
      && end.senders[t].pc == Cleaning(SecondMissing(s, arrivals) == [])
      && end.published == w.published
           + LogPackets(t, Messages(s, topics[0], FirstMissing(s, arrivals)))
           + LogPackets(t, Messages(s, topics[1], SecondMissing(s, arrivals)))
  {
    var s := w.senders[t];
    MissingShrinks(s, arrivals);
    var w0 := Asleep(w, t, arrivals[0]);
    RoundIsSteps(w0, t, topics[0]);
    SameMessages(w0.senders[t], s, topics[0], FirstMissing(s, arrivals));
    var w1 := Round(w0, t, topics[0]);
    if FirstMissing(s, arrivals) != [] {
      var w2 := Asleep(w1, t, arrivals[1]);
      RoundIsSteps(w2, t, topics[1]);
      SameMessages(w2.senders[t], s, topics[1], SecondMissing(s, arrivals));
      if SecondMissing(s, arrivals) != [] {
        RoundIsSteps(Round(w2, t, topics[1]), t, topics[1]);
      }
    }
  }
}
