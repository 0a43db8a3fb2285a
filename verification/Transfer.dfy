/** The chunked transfer as a protocol: the sender of `sendFile` with its first pass and its
    retry rounds, the acknowledgement handler, and receivers on a channel that may lose,
    duplicate and reorder messages. Any number of transfers run at the same time; they share
    the global response topic and the session table, as in the code. */
module Transfer {
  import opened Text
  import opened Chunking

  const MAX_RETRIES: nat := 2

  /** The published JSON message. */
  datatype Message = Message(index: nat, total: nat, data: seq<byte>, hash: Option<string>)

  /** Where a sender stands. `confirmed` tells the early return of the retry loop from its end. */
  datatype Pc =
    | Registering
    | Sending(next: nat)
    | Waiting(retry: nat)
    | Resending(retry: nat, missing: seq<nat>, next: nat)
    | Cleaning(confirmed: bool)
    | Finished(confirmed: bool)

  /** A sender with its TransferSession. */
  datatype Sender = Sender(path: string, topic: string, chunks: seq<seq<byte>>, hash: string, acks: set<nat>, pc: Pc)

  /** A message on a topic; `from` records which sender published it. */
  datatype Packet = Packet(topic: string, from: nat, message: Message)

  /** An acknowledgement; only the index and the path travel. */
  datatype Ack = Ack(receiver: nat, index: nat, path: string)

  /** `held[j]` is what the client behind request j has received so far. Messages and
      acknowledgements once on the channel stay deliverable. */
  datatype World = World(
    globalTopic: string,
    senders: seq<Sender>,
    sessions: map<string, nat>,
    published: set<Packet>,
    held: seq<map<nat, Message>>,
    acks: set<Ack>)

  datatype Action =
    | Request(path: string, topic: string, chunks: seq<seq<byte>>, hash: string)
    | Run(t: nat)
    | Deliver(j: nat, packet: Packet)
    | Acknowledge(j: nat, index: nat)
    | HandleAck(ack: Ack)

  const Initial := World("", [], map[], {}, [], {})

  function SessionKey(path: string, topic: string): string { topic + ":" + path }

  /** On one topic the keys tell paths apart, and with topics that contain no colon they tell
      topics apart as well; with a colon in a topic they need not. */
  lemma KeysTellApart(path: string, topic: string, path': string, topic': string)
    ensures SessionKey(path, topic) == SessionKey(path', topic) <==> path == path'
    ensures ':' !in topic && ':' !in topic' ==>
      (SessionKey(path, topic) == SessionKey(path', topic') <==> path == path' && topic == topic')
    ensures SessionKey("c", "a:b") == "a:b:c" == SessionKey("b:c", "a")
  {
    var k, k' := SessionKey(path, topic), SessionKey(path', topic');
    assert k[|topic| + 1..] == path && SessionKey(path', topic)[|topic| + 1..] == path';
    if ':' !in topic && ':' !in topic' && k == k' {
      assert k == topic + [':'] + path && k' == topic' + [':'] + path';
      SplitAtSeparator(topic, path, ':');
      SplitAtSeparator(topic', path', ':');
      assert topic == Split(k, ':')[0] == topic';
    }
  }

  function ChunkMessage(s: Sender, i: nat): Message
    requires i < |s.chunks|
  {
    Message(i, |s.chunks|, s.chunks[i], if i == |s.chunks| - 1 then Some(s.hash) else None)
  }

  /** The indices from `i` on that are not acknowledged, in order. */
  function Missing(acks: set<nat>, i: nat, total: nat): (m: seq<nat>)
    requires i <= total
    ensures |m| <= total - i
    ensures forall k <- m :: k < total
    decreases total - i
  {
    if i == total then []
    else if i in acks then Missing(acks, i + 1, total)
    else [i] + Missing(acks, i + 1, total)
  }

  ghost predicate Ascending(m: seq<nat>) { forall a, b :: 0 <= a < b < |m| ==> m[a] < m[b] }

  /** The list holds exactly the unacknowledged indices, each once, in ascending order. */
  lemma {:induction false} MissingExactly(acks: set<nat>, i: nat, total: nat)
    requires i <= total
    ensures forall k :: k in Missing(acks, i, total) <==> i <= k < total && k !in acks
    ensures Ascending(Missing(acks, i, total))
    decreases total - i
  {
    if i < total {
      MissingExactly(acks, i + 1, total);
      var rest, m := Missing(acks, i + 1, total), Missing(acks, i, total);
      if i !in acks {
        assert m == [i] + rest;
        forall b | 0 <= b < |rest| ensures i < rest[b] {
          assert rest[b] in rest;
        }
      }
    }
  }

  lemma {:induction false} NoneMissing(acks: set<nat>, i: nat, total: nat)
    requires i <= total
    ensures Missing(acks, i, total) == [] <==> forall k :: i <= k < total ==> k in acks
    decreases total - i
  {
    if i < total {
      NoneMissing(acks, i + 1, total);
    }
  }

  // ----- the steps

  ghost predicate ValidSender(s: Sender)
  {
    match s.pc
    case Sending(next) => next <= |s.chunks|
    case Waiting(retry) => retry <= MAX_RETRIES
    case Resending(retry, missing, next) =>
      retry < MAX_RETRIES && next <= |missing| <= |s.chunks| && forall k <- missing :: k < |s.chunks|
    case _ => true
  }

  /** Where the sender stands after its next step. */
  function NextPc(s: Sender): Pc
  {
    match s.pc
    case Registering => Sending(0)
    case Sending(next) => if next < |s.chunks| then Sending(next + 1) else Waiting(0)
    case Waiting(retry) =>
      if retry >= MAX_RETRIES then Cleaning(false)
      else
        var missing := Missing(s.acks, 0, |s.chunks|);
        if missing == [] then Cleaning(true) else Resending(retry, missing, 0)
    case Resending(retry, missing, next) =>
      if next < |missing| then Resending(retry, missing, next + 1) else Waiting(retry + 1)
    case Cleaning(confirmed) => Finished(confirmed)
    case Finished(_) => s.pc
  }

  /** The index of the chunk that the step publishes, and on which topic. The first pass uses
      the topic handed to the sender; the retry rounds use the global topic of the moment. */
  function Emitted(s: Sender, globalTopic: string): Option<(string, nat)>
  {
    match s.pc
    case Sending(next) => if next < |s.chunks| then Some((s.topic, next)) else None
    case Resending(_, missing, next) => if next < |missing| then Some((globalTopic, missing[next])) else None
    case _ => None
  }

  function Packets(s: Sender, t: nat, globalTopic: string): set<Packet>
  {
    match Emitted(s, globalTopic)
    case Some((topic, i)) => if i < |s.chunks| then {Packet(topic, t, ChunkMessage(s, i))} else {}
    case None => {}
  }

  /** Registering enters the sender into the session table, and cleaning up takes its key out. */
  function SessionsAfter(sessions: map<string, nat>, s: Sender, t: nat): map<string, nat>
  {
    var key := SessionKey(s.path, s.topic);
    match s.pc
    case Registering => sessions[key := t]
    case Cleaning(_) => sessions - {key}
    case _ => sessions
  }

  function RunStep(w: World, t: nat): World
    requires t < |w.senders|
  {
    var s := w.senders[t];
    w.(senders := w.senders[t := s.(pc := NextPc(s))],
       published := w.published + Packets(s, t, w.globalTopic),
       sessions := SessionsAfter(w.sessions, s, t))
  }

  predicate Enabled(w: World, a: Action)
  {
    match a
    case Request(_, _, _, _) => true
    case Run(t) => t < |w.senders| && !w.senders[t].pc.Finished?
    case Deliver(j, packet) => j < |w.senders| && packet in w.published && packet.topic == w.senders[j].topic
    case Acknowledge(j, index) => j < |w.senders| && j < |w.held| && index in w.held[j]
    case HandleAck(ack) => ack in w.acks
  }

  function Routed(w: World, ack: Ack): Option<nat>
  {
    var key := SessionKey(ack.path, w.globalTopic);
    if key in w.sessions then Some(w.sessions[key]) else None
  }

  function Receive(held: map<nat, Message>, m: Message): map<nat, Message> { held[m.index := m] }

  function Next(w: World, a: Action): World
    requires Valid(w) && Enabled(w, a)
  {
    match a
    case Request(path, topic, chunks, hash) =>
      w.(globalTopic := topic,
         senders := w.senders + [Sender(path, topic, chunks, hash, {}, Registering)],
         held := w.held + [map[]])
    case Run(t) => RunStep(w, t)
    case Deliver(j, packet) => w.(held := w.held[j := Receive(w.held[j], packet.message)])
    case Acknowledge(j, index) => w.(acks := w.acks + {Ack(j, index, w.senders[j].path)})
    case HandleAck(ack) =>
      match Routed(w, ack)
      case None => w
      case Some(t) => w.(senders := w.senders[t := w.senders[t].(acks := w.senders[t].acks + {ack.index})])
  }

  // ----- what every interleaving keeps

  /** Every message ever published for index i by a sender carries exactly its chunk i, the
      number of its chunks, and its hash if and only if i is the last index. */
  ghost predicate Authentic(w: World)
  {
    forall p <- w.published :: p.from < |w.senders| && Authored(p, w.senders[p.from])
  }

  predicate Authored(p: Packet, s: Sender)
  {
    p.message.index < |s.chunks| && p.message == ChunkMessage(s, p.message.index)
  }

  ghost predicate Valid(w: World)
  {
    && |w.held| == |w.senders|
    && (forall s <- w.senders :: ValidSender(s))
    && (forall k <- w.sessions :: w.sessions[k] < |w.senders|)
    && Authentic(w)
  }

  /** The sender is the same transfer of the same file. */
  predicate SameFile(s: Sender, s': Sender)
  {
    s.path == s'.path && s.topic == s'.topic && s.chunks == s'.chunks && s.hash == s'.hash
  }

  /** The chunk that a step publishes exists. */
  lemma EmittedInRange(s: Sender, globalTopic: string)
    requires ValidSender(s)
    ensures Emitted(s, globalTopic).Some? ==> Emitted(s, globalTopic).value.1 < |s.chunks|
    ensures ValidSender(s.(pc := NextPc(s)))
  {
    if s.pc.Resending? && s.pc.next < |s.pc.missing| {
      assert s.pc.missing[s.pc.next] in s.pc.missing;
    }
  }

  /** What a step publishes is a chunk of the sender that runs. */
  lemma StepPublishes(w: World, a: Action)
    requires Valid(w) && Enabled(w, a)
    ensures w.published <= Next(w, a).published
    ensures forall p <- Next(w, a).published ::
      (p in w.published || (a.Run? && p.from == a.t && Authored(p, w.senders[a.t])))
  {
  }

  lemma StepKeepsFiles(w: World, a: Action)
    requires Valid(w) && Enabled(w, a)
    ensures |w.senders| <= |Next(w, a).senders|
    ensures forall t :: 0 <= t < |w.senders| ==> SameFile(w.senders[t], Next(w, a).senders[t])
  {}

  lemma StepKeepsValid(w: World, a: Action)
    requires Valid(w) && Enabled(w, a)
    ensures Valid(Next(w, a))
  {
    var w' := Next(w, a);
    StepKeepsFiles(w, a);
    forall s <- w'.senders ensures ValidSender(s) {
      var t :| 0 <= t < |w'.senders| && w'.senders[t] == s;
      if t < |w.senders| {
        assert w.senders[t] in w.senders;
        EmittedInRange(w.senders[t], w.globalTopic);
      }
    }
    StepPublishes(w, a);
    forall p <- w'.published ensures p.from < |w'.senders| && Authored(p, w'.senders[p.from]) {
      assert SameFile(w.senders[p.from], w'.senders[p.from]);
    }
  }

  // ----- runs

  ghost predicate Legal(w: World, run: seq<Action>)
    requires Valid(w)
    decreases |run|
  {
    run == [] || (Enabled(w, run[0]) && (StepKeepsValid(w, run[0]); Legal(Next(w, run[0]), run[1..])))
  }

  ghost function Exec(w: World, run: seq<Action>): (w': World)
    requires Valid(w) && Legal(w, run)
    ensures Valid(w')
    decreases |run|
  {
    if run == [] then w else (StepKeepsValid(w, run[0]); Exec(Next(w, run[0]), run[1..]))
  }

  /** `ok` holds of every action of the run in the world where it is taken. */
  ghost predicate Always(w: World, run: seq<Action>, ok: (World, Action) -> bool)
    requires Valid(w) && Legal(w, run)
    decreases |run|
  {
    run == [] || (ok(w, run[0]) && (StepKeepsValid(w, run[0]); Always(Next(w, run[0]), run[1..], ok)))
  }

  // ----- topics: retries go to the global topic

  /** Every message stands on the topic of the transfer it belongs to. */
  ghost predicate Isolated(w: World)
  {
    forall p <- w.published :: p.from < |w.senders| ==> p.topic == w.senders[p.from].topic
  }

  /** A retry is published while the global topic is that of another request. */
  predicate Misroutes(w: World, a: Action)
  {
    && a.Run? && a.t < |w.senders|
    && w.senders[a.t].pc.Resending?
    && w.senders[a.t].pc.next < |w.senders[a.t].pc.missing|
    && w.globalTopic != w.senders[a.t].topic
  }

  lemma StepIsolation(w: World, a: Action)
    requires Valid(w) && Enabled(w, a)
    ensures Isolated(Next(w, a)) <==> Isolated(w) && !Misroutes(w, a)
  {
    StepKeepsFiles(w, a);
    StepPublishes(w, a);
    var w' := Next(w, a);
    if Misroutes(w, a) {
      var s := w.senders[a.t];
      assert s in w.senders && SameFile(s, w'.senders[a.t]);
      EmittedInRange(s, w.globalTopic);
      assert Packet(w.globalTopic, a.t, ChunkMessage(s, s.pc.missing[s.pc.next])) in w'.published;
    } else if Isolated(w) {
      forall p <- w'.published ensures p.topic == w'.senders[p.from].topic {
        if p in w.published {
          assert SameFile(w.senders[p.from], w'.senders[p.from]);
        }
      }
    } else {
      var p :| p in w.published && p.topic != w.senders[p.from].topic;
      assert p in w'.published && SameFile(w.senders[p.from], w'.senders[p.from]);
    }
  }

  /** Over whole runs of any number of concurrent transfers, messages stay on their own topics
      exactly when no retry was published while another request had set the global topic. */
  lemma {:induction false} IsolationExactly(w: World, run: seq<Action>)
    requires Valid(w) && Legal(w, run)
    ensures Isolated(Exec(w, run)) <==> Isolated(w) && Always(w, run, (v, a) => !Misroutes(v, a))
    decreases |run|
  {
    if run != [] {
      StepKeepsValid(w, run[0]);
      StepIsolation(w, run[0]);
      IsolationExactly(Next(w, run[0]), run[1..]);
    }
  }
}
