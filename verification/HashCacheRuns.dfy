/** The file-hash cache under concurrency. Callers stat, look up, read in blocks and store, with
    the lock released in between, interleaved with writers of the files and a clock. The hash
    functions are a parameter. */
module HashCacheRuns {
  import opened Text

  const BLOCK: nat := 4096
  const LIFETIME: nat := 60_000_000_000  // sixty seconds in nanoseconds

  type Time = nat

  /** Modification time and size, what a lookup compares. */
  datatype Stamp = Stamp(mtime: int, size: nat)

  datatype File = File(content: seq<byte>, mtime: int)

  function StampOf(f: File): Stamp { Stamp(f.mtime, |f.content|) }

  datatype Hashes = Hashes(md5: string, sha256: string)

  type HashFn = seq<byte> -> Hashes

  /** `began` records when the read behind the hashes was begun. */
  datatype Entry = Entry(stamp: Stamp, hashes: Hashes, last: Time, began: Time)

  /** Where one call of getFileMd5 stands. */
  datatype Caller =
    | Idle
    | Statted(path: string, stamp: Stamp)
    | Timed(path: string, stamp: Stamp, now: Time)
    | Missed(path: string, stamp: Stamp, now: Time)
    | Reading(path: string, stamp: Stamp, now: Time, began: Time, bytes: seq<byte>)
    | Hashed(path: string, stamp: Stamp, now: Time, began: Time, bytes: seq<byte>)
    | Returned(path: string, stamp: Stamp, now: Time, began: Time, md5: string)

  /** `used[p]` are the stamps the file at p has had. */
  datatype World = World(
    clock: Time,
    files: map<string, File>,
    used: map<string, set<Stamp>>,
    cache: map<string, Entry>,
    callers: seq<Caller>)

  datatype Action =
    | Tick(to: Time)
    | Write(path: string, content: seq<byte>, mtime: int)
    | Stat(c: nat, path: string)
    | TakeTime(c: nat)
    | Lookup(c: nat)
    | Open(c: nat)
    | Read(c: nat)
    | Store(c: nat)

  predicate Fresh(entry: Entry, stamp: Stamp, now: Time)
  {
    now - entry.last < LIFETIME && entry.stamp == stamp
  }

  predicate Enabled(w: World, a: Action)
  {
    match a
    case Tick(to) => w.clock <= to
    case Write(_, _, _) => true
    case Stat(c, path) => c < |w.callers| && path in w.files
    case TakeTime(c) => c < |w.callers| && w.callers[c].Statted?
    case Lookup(c) => c < |w.callers| && w.callers[c].Timed?
    case Open(c) => c < |w.callers| && w.callers[c].Missed? && w.callers[c].path in w.files
    case Read(c) => c < |w.callers| && w.callers[c].Reading? && w.callers[c].path in w.files
    case Store(c) => c < |w.callers| && w.callers[c].Hashed?
  }

  function UsedAt(w: World, path: string): set<Stamp>
  {
    if path in w.used then w.used[path] else {}
  }

  function At(w: World, c: nat, caller: Caller): World
    requires c < |w.callers|
  {
    w.(callers := w.callers[c := caller])
  }

  /** The block a read at the offset of the bytes read so far returns; empty at the end. */
  function NextBlock(content: seq<byte>, offset: nat): seq<byte>
  {
    if offset >= |content| then []
    else if offset + BLOCK <= |content| then content[offset..offset + BLOCK]
    else content[offset..]
  }

  function Next(hash: HashFn, w: World, a: Action): World
    requires Enabled(w, a)
  {
    match a
    case Tick(to) => w.(clock := to)
    case Write(path, content, mtime) =>
      var file := File(content, mtime);
      w.(files := w.files[path := file], used := w.used[path := UsedAt(w, path) + {StampOf(file)}])
    case Stat(c, path) => At(w, c, Statted(path, StampOf(w.files[path])))
    case TakeTime(c) => At(w, c, Timed(w.callers[c].path, w.callers[c].stamp, w.clock))
    case Lookup(c) =>
      var s := w.callers[c];
      if s.path in w.cache && Fresh(w.cache[s.path], s.stamp, s.now) then
        At(w, c, Returned(s.path, s.stamp, s.now, w.cache[s.path].began, w.cache[s.path].hashes.md5))
      else At(w, c, Missed(s.path, s.stamp, s.now))
    case Open(c) =>
      var s := w.callers[c];
      At(w, c, Reading(s.path, s.stamp, s.now, w.clock, []))
    case Read(c) =>
      var s := w.callers[c];
      var block := NextBlock(w.files[s.path].content, |s.bytes|);
      if block == [] then At(w, c, Hashed(s.path, s.stamp, s.now, s.began, s.bytes))
      else At(w, c, Reading(s.path, s.stamp, s.now, s.began, s.bytes + block))
    case Store(c) =>
      var s := w.callers[c];
      var hashes := hash(s.bytes);
      At(w.(cache := w.cache[s.path := Entry(s.stamp, hashes, s.now, s.began)]), c,
         Returned(s.path, s.stamp, s.now, s.began, hashes.md5))
  }

  /** A lookup is answered from the cache exactly when there is an entry for the path with the
      modification time and the size the call found, made less than sixty seconds, in nanoseconds,
      before the call took the time. */
  predicate Served(w: World, path: string, mtime: int, size: nat, now: Time)
  {
    && path in w.cache
    && now - w.cache[path].last < 60_000_000_000
    && w.cache[path].stamp.mtime == mtime && w.cache[path].stamp.size == size
  }

  lemma LookupServesExactly(hash: HashFn, w: World, c: nat)
    requires Enabled(w, Lookup(c))
    ensures var s, w' := w.callers[c], Next(hash, w, Lookup(c));
      && w'.cache == w.cache && w'.files == w.files && w'.clock == w.clock
      && (w'.callers[c].Returned? <==> Served(w, s.path, s.stamp.mtime, s.stamp.size, s.now))
      && (w'.callers[c].Returned? ==> w'.callers[c].md5 == w.cache[s.path].hashes.md5)
      && (!w'.callers[c].Returned? ==> w'.callers[c] == Missed(s.path, s.stamp, s.now))
  {}

  // ----- runs

  ghost predicate Legal(hash: HashFn, w: World, run: seq<Action>)
    decreases |run|
  {
    run == [] || (Enabled(w, run[0]) && Legal(hash, Next(hash, w, run[0]), run[1..]))
  }

  ghost function Exec(hash: HashFn, w: World, run: seq<Action>): World
    requires Legal(hash, w, run)
    decreases |run|
  {
    if run == [] then w else Exec(hash, Next(hash, w, run[0]), run[1..])
  }

  /** `ok` holds of every action of the run in the world where it is taken. */
  ghost predicate Always(hash: HashFn, w: World, run: seq<Action>, ok: (World, Action) -> bool)
    requires Legal(hash, w, run)
    decreases |run|
  {
    run == [] || (ok(w, run[0]) && Always(hash, Next(hash, w, run[0]), run[1..], ok))
  }

  /** `inv` holds of every world of the run. */
  ghost predicate Throughout(hash: HashFn, w: World, run: seq<Action>, inv: World -> bool)
    requires Legal(hash, w, run)
    decreases |run|
  {
    inv(w) && (run == [] || Throughout(hash, Next(hash, w, run[0]), run[1..], inv))
  }

  // ----- agreement with direct hashing

  predicate Current(w: World, path: string, stamp: Stamp)
  {
    path in w.files && StampOf(w.files[path]) == stamp
  }

  /** An entry whose stamp is the file's current one holds the hashes of the current content. */
  ghost predicate CacheAgrees(hash: HashFn, w: World)
  {
    forall p <- w.cache :: Current(w, p, w.cache[p].stamp) ==> w.cache[p].hashes == hash(w.files[p].content)
  }

  /** The same for a call in flight: while its stamp is current it has read a true prefix, then
      the whole content. */
  predicate CallerAgrees(w: World, s: Caller)
  {
    match s
    case Reading(p, stamp, _, _, bytes) => Current(w, p, stamp) ==> bytes <= w.files[p].content
    case Hashed(p, stamp, _, _, bytes) => Current(w, p, stamp) ==> bytes == w.files[p].content
    case _ => true
  }

  ghost predicate Agrees(hash: HashFn, w: World)
  {
    CacheAgrees(hash, w) && forall s <- w.callers :: CallerAgrees(w, s)
  }

  /** The call has gathered, under this stamp, bytes that are not those of the content. */
  predicate HoldsOther(s: Caller, path: string, stamp: Stamp, content: seq<byte>)
  {
    match s
    case Reading(p, st, _, _, bytes) => p == path && st == stamp && !(bytes <= content)
    case Hashed(p, st, _, _, bytes) => p == path && st == stamp && bytes != content
    case _ => false
  }

  /** A write gives the file a stamp under which the cache has other hashes, or a call in flight
      other bytes. */
  predicate Harmful(hash: HashFn, w: World, a: Action)
  {
    && a.Write?
    && var stamp := StampOf(File(a.content, a.mtime));
    && (|| (a.path in w.cache && w.cache[a.path].stamp == stamp && w.cache[a.path].hashes != hash(a.content))
        || (exists s <- w.callers :: HoldsOther(s, a.path, stamp, a.content)))
  }

  lemma WriteAgrees(hash: HashFn, w: World, a: Action)
    requires Agrees(hash, w) && a.Write?
    ensures Agrees(hash, Next(hash, w, a)) <==> !Harmful(hash, w, a)
  {
    var w' := Next(hash, w, a);
    var stamp := StampOf(File(a.content, a.mtime));
    forall s <- w.callers ensures CallerAgrees(w', s) <==> !HoldsOther(s, a.path, stamp, a.content) {
      assert CallerAgrees(w, s);
    }
    if a.path in w.cache && w.cache[a.path].stamp == stamp && w.cache[a.path].hashes != hash(a.content) {
      assert a.path in w'.cache;
    }
  }

  lemma StepKeepsCacheAgrees(hash: HashFn, w: World, a: Action)
    requires Agrees(hash, w) && Enabled(w, a) && !a.Write?
    ensures CacheAgrees(hash, Next(hash, w, a))
  {
    if a.Store? {
      assert w.callers[a.c] in w.callers;
    }
  }

  /** A block read after a true prefix makes a longer true prefix, and none is left at the end. */
  lemma BlockExtends(content: seq<byte>, bytes: seq<byte>)
    ensures bytes <= content ==> bytes + NextBlock(content, |bytes|) <= content
    ensures bytes <= content ==> (NextBlock(content, |bytes|) == [] <==> bytes == content)
  {}

  lemma StepKeepsCallersAgree(hash: HashFn, w: World, a: Action)
    requires Agrees(hash, w) && Enabled(w, a) && !a.Write?
    ensures forall s <- Next(hash, w, a).callers :: CallerAgrees(Next(hash, w, a), s)
  {
    var w' := Next(hash, w, a);
    forall s <- w'.callers ensures CallerAgrees(w', s) {
      if s in w.callers {
        assert CallerAgrees(w, s);
      } else if a.Read? {
        BlockExtends(w.files[w.callers[a.c].path].content, w.callers[a.c].bytes);
        assert w.callers[a.c] in w.callers && CallerAgrees(w, w.callers[a.c]);
      } else {
        assert a.Stat? || w.callers[a.c] in w.callers;
      }
    }
  }

  /** A step keeps the agreement if and only if it is not a harmful write. */
  lemma StepAgrees(hash: HashFn, w: World, a: Action)
    requires Agrees(hash, w) && Enabled(w, a)
    ensures Agrees(hash, Next(hash, w, a)) <==> !Harmful(hash, w, a)
  {
    if a.Write? {
      WriteAgrees(hash, w, a);
    } else {
      StepKeepsCacheAgrees(hash, w, a);
      StepKeepsCallersAgree(hash, w, a);
    }
  }

  /** In every state of a run of any number of callers and writers, current entries and calls
      agree with the files, if and only if no write was harmful. */
  lemma {:induction false} AgreesExactly(hash: HashFn, w: World, run: seq<Action>)
    requires Legal(hash, w, run)
    ensures Throughout(hash, w, run, v => Agrees(hash, v))
       <==> Agrees(hash, w) && Always(hash, w, run, (v, a) => !Harmful(hash, v, a))
    decreases |run|
  {
    if run != [] && Agrees(hash, w) {
      var w' := Next(hash, w, run[0]);
      StepAgrees(hash, w, run[0]);
      AgreesExactly(hash, w', run[1..]);
      if Harmful(hash, w, run[0]) {
        assert !Throughout(hash, w', run[1..], v => Agrees(hash, v));
      }
    }
  }

  // ----- a call between its stat and its return

  /** No write to `path` and no new call by caller c. */
  predicate Undisturbed(a: Action, c: nat, path: string)
  {
    !(a.Write? && a.path == path) && !(a.Stat? && a.c == c)
  }

  /** The call is on this path with the file's current stamp, and if it has returned, then with
      the MD5 of the content. */
  ghost predicate OnTrack(hash: HashFn, w: World, c: nat, path: string)
  {
    && c < |w.callers| && !w.callers[c].Idle?
    && w.callers[c].path == path && Current(w, path, w.callers[c].stamp)
    && (w.callers[c].Returned? ==> w.callers[c].md5 == hash(w.files[path].content).md5)
  }

  lemma StepKeepsOnTrack(hash: HashFn, w: World, a: Action, c: nat, path: string)
    requires Agrees(hash, w) && Enabled(w, a) && OnTrack(hash, w, c, path) && Undisturbed(a, c, path)
    ensures OnTrack(hash, Next(hash, w, a), c, path)
  {
    assert w.callers[c] in w.callers;
  }

  lemma {:induction false} CallGoesOn(hash: HashFn, w: World, run: seq<Action>, c: nat, path: string)
    requires Legal(hash, w, run) && Agrees(hash, w) && Always(hash, w, run, (v, a) => !Harmful(hash, v, a))
    requires OnTrack(hash, w, c, path) && forall a <- run :: Undisturbed(a, c, path)
    ensures OnTrack(hash, Exec(hash, w, run), c, path)
    decreases |run|
  {
    if run != [] {
      assert run[0] in run;
      StepAgrees(hash, w, run[0]);
      StepKeepsOnTrack(hash, w, run[0], c, path);
      CallGoesOn(hash, Next(hash, w, run[0]), run[1..], c, path);
    }
  }

  lemma {:induction false} RunKeepsAgrees(hash: HashFn, w: World, run: seq<Action>)
    requires Legal(hash, w, run) && Agrees(hash, w) && Always(hash, w, run, (v, a) => !Harmful(hash, v, a))
    ensures Agrees(hash, Exec(hash, w, run))
    decreases |run|
  {
    if run != [] {
      StepAgrees(hash, w, run[0]);
      RunKeepsAgrees(hash, Next(hash, w, run[0]), run[1..]);
    }
  }

  /** Before the first call: nothing cached, nobody calling. */
  ghost predicate Start(w: World)
  {
    && w.cache == map[]
    && (forall s <- w.callers :: s.Idle?)
    && (forall p <- w.files :: StampOf(w.files[p]) in UsedAt(w, p))
  }

  lemma {:induction false} LegalSplit(
      hash: HashFn, w: World, first: seq<Action>, rest: seq<Action>, ok: (World, Action) -> bool)
    requires Legal(hash, w, first + rest) && Always(hash, w, first + rest, ok)
    ensures Legal(hash, w, first) && Always(hash, w, first, ok)
    ensures Legal(hash, Exec(hash, w, first), rest) && Always(hash, Exec(hash, w, first), rest, ok)
    ensures Exec(hash, w, first + rest) == Exec(hash, Exec(hash, w, first), rest)
    decreases |first|
  {
    if first == [] {
      assert first + rest == rest;
    } else {
      assert (first + rest)[1..] == first[1..] + rest;
      LegalSplit(hash, Next(hash, w, first[0]), first[1..], rest, ok);
    }
  }

  /** In every run of any number of callers and writers without a harmful write: a call that
      returns, and between whose stat and return the file is not written, returns the MD5 of the
      file's content, whether it was served from the cache or computed. */
  lemma CallAgreesWithDirectHashing(
      hash: HashFn, w: World, before: seq<Action>, c: nat, path: string, after: seq<Action>)
    requires Start(w)
    requires var run := before + ([Stat(c, path)] + after);
      Legal(hash, w, run) && Always(hash, w, run, (v, a) => !Harmful(hash, v, a))
    requires forall a <- after :: Undisturbed(a, c, path)
    ensures var w' := Exec(hash, w, before + ([Stat(c, path)] + after));
      && c < |w'.callers| && path in w'.files
      && (w'.callers[c].Returned? ==> w'.callers[c].md5 == hash(w'.files[path].content).md5)
  {
    var call := [Stat(c, path)] + after;
    LegalSplit(hash, w, before, call, (v, a) => !Harmful(hash, v, a));
    RunKeepsAgrees(hash, w, before);
    var v := Exec(hash, w, before);
    assert call[1..] == after;
    StepAgrees(hash, v, call[0]);
    CallGoesOn(hash, Next(hash, v, call[0]), after, c, path);
  }

  // ----- writes that give new stamps are harmless

  /** A write gives the file a stamp it has not had before. */
  predicate NewStamp(w: World, a: Action)
  {
    a.Write? ==> StampOf(File(a.content, a.mtime)) !in UsedAt(w, a.path)
  }

  ghost predicate StampsUsed(w: World)
  {
    && (forall p <- w.files :: StampOf(w.files[p]) in UsedAt(w, p))
    && (forall p <- w.cache :: w.cache[p].stamp in UsedAt(w, p))
    && (forall s <- w.callers :: !s.Idle? ==> s.stamp in UsedAt(w, s.path))
  }

  lemma StepKeepsStampsUsed(hash: HashFn, w: World, a: Action)
    requires StampsUsed(w) && Enabled(w, a)
    ensures StampsUsed(Next(hash, w, a))
  {}

  /** Writes that always give the file a stamp it has not had before are not harmful. */
  lemma {:induction false} NewStampsAreHarmless(hash: HashFn, w: World, run: seq<Action>)
    requires StampsUsed(w) && Legal(hash, w, run) && Always(hash, w, run, NewStamp)
    ensures Always(hash, w, run, (v, a) => !Harmful(hash, v, a))
    decreases |run|
  {
    if run != [] {
      StepKeepsStampsUsed(hash, w, run[0]);
      assert !Harmful(hash, w, run[0]);
      NewStampsAreHarmless(hash, Next(hash, w, run[0]), run[1..]);
    }
  }

  // ----- staleness, without trusting the stamps

  ghost predicate Recent(w: World)
  {
    && (forall p <- w.cache :: w.cache[p].last <= w.cache[p].began <= w.clock)
    && (forall s <- w.callers :: CallerRecent(w, s))
  }

  predicate CallerRecent(w: World, s: Caller)
  {
    match s
    case Timed(_, _, now) => now <= w.clock
    case Missed(_, _, now) => now <= w.clock
    case Reading(_, _, now, began, _) => now <= began <= w.clock
    case Hashed(_, _, now, began, _) => now <= began <= w.clock
    case Returned(_, _, now, began, _) => now < began + LIFETIME && now <= w.clock
    case _ => true
  }

  lemma StepKeepsCallersRecent(hash: HashFn, w: World, a: Action)
    requires Recent(w) && Enabled(w, a)
    ensures forall s <- Next(hash, w, a).callers :: CallerRecent(Next(hash, w, a), s)
  {
    var w' := Next(hash, w, a);
    forall s <- w'.callers ensures CallerRecent(w', s) {
      if s !in w.callers {
        assert a.Stat? || w.callers[a.c] in w.callers;
      }
    }
  }

  lemma StepKeepsRecent(hash: HashFn, w: World, a: Action)
    requires Recent(w) && Enabled(w, a)
    ensures Recent(Next(hash, w, a))
  {
    StepKeepsCallersRecent(hash, w, a);
    if a.Store? {
      assert w.callers[a.c] in w.callers;
    }
  }

  lemma {:induction false} RunKeepsRecent(hash: HashFn, w: World, run: seq<Action>)
    requires Recent(w) && Legal(hash, w, run)
    ensures Recent(Exec(hash, w, run))
    decreases |run|
  {
    if run != [] {
      StepKeepsRecent(hash, w, run[0]);
      RunKeepsRecent(hash, Next(hash, w, run[0]), run[1..]);
    }
  }

  /** In every run, whatever the writers do to modification times: a hash returned by a call
      comes from a read begun less than sixty seconds before the call took the time. */
  lemma NeverOlderThanAMinute(hash: HashFn, w: World, run: seq<Action>, c: nat)
    requires Start(w) && Legal(hash, w, run)
    ensures var w' := Exec(hash, w, run);
      c < |w'.callers| && w'.callers[c].Returned? ==> w'.callers[c].now - w'.callers[c].began < 60_000_000_000
  {
    RunKeepsRecent(hash, w, run);
    var w' := Exec(hash, w, run);
    if c < |w'.callers| {
      assert w'.callers[c] in w'.callers;
    }
  }

  // ----- a harmful write

  lemma {:induction false} LegalConcat(hash: HashFn, w: World, run: seq<Action>, a: Action)
    requires Legal(hash, w, run) && Enabled(Exec(hash, w, run), a)
    ensures Legal(hash, w, run + [a]) && Exec(hash, w, run + [a]) == Next(hash, Exec(hash, w, run), a)
    decreases |run|
  {
    if run == [] {
      assert (run + [a])[1..] == [];
    } else {
      LegalConcat(hash, Next(hash, w, run[0]), run[1..], a);
      assert (run + [a])[1..] == run[1..] + [a];
    }
  }

  lemma TakeStep(hash: HashFn, start: World, run: seq<Action>, w: World, a: Action)
    returns (run': seq<Action>, w': World)
    requires Legal(hash, start, run) && Exec(hash, start, run) == w && Enabled(w, a)
    ensures run' == run + [a] && w' == Next(hash, w, a)
    ensures Legal(hash, start, run') && Exec(hash, start, run') == w'
  {
    LegalConcat(hash, start, run, a);
    run', w' := run + [a], Next(hash, w, a);
  }

  const TWIN: Stamp := Stamp(7, 1)

  function Opening(callers: seq<Caller>): World
  {
    World(0, map["f" := File([1], 7)], map["f" := {TWIN}], map[], callers)
  }

  /** A call that misses the cache and stores the hashes of the one-byte file. */
  lemma FirstCall(hash: HashFn) returns (run: seq<Action>, w: World)
    ensures var start := Opening([Idle, Idle]); Legal(hash, start, run) && Exec(hash, start, run) == w
    ensures w.clock == 0 && w.files == map["f" := File([1], 7)]
    ensures w.cache == map["f" := Entry(TWIN, hash([1]), 0, 0)]
    ensures |w.callers| == 2
  {
    var start := Opening([Idle, Idle]);
    run, w := TakeStep(hash, start, [], start, Stat(0, "f"));
    run, w := TakeStep(hash, start, run, w, TakeTime(0));
    run, w := TakeStep(hash, start, run, w, Lookup(0));
    run, w := TakeStep(hash, start, run, w, Open(0));
    assert w.callers[0] == Reading("f", TWIN, 0, 0, []);
    run, w := TakeStep(hash, start, run, w, Read(0));
    assert w.callers[0].bytes == [1];
    run, w := TakeStep(hash, start, run, w, Read(0));
    run, w := TakeStep(hash, start, run, w, Store(0));
  }

  /** A write that keeps modification time and size goes unnoticed: a first call caches the
      hashes of "1", the file becomes "2" with the same stamp, and a second call, with no write
      between its stat and its return, is served the MD5 of the old content. */
  lemma ReusedStampGoesUnnoticed(hash: HashFn) returns (start: World, run: seq<Action>)
    requires hash([1]).md5 != hash([2]).md5
    ensures Start(start) && Legal(hash, start, run)
    ensures var w := Exec(hash, start, run);
      && |w.callers| == 2 && w.callers[1].Returned? && "f" in w.files
      && Current(w, "f", w.callers[1].stamp)
      && "f" in start.files && start.files["f"].content == [1] && w.files["f"].content == [2]
      && w.callers[1].md5 == hash([1]).md5 != hash([2]).md5
  {
    var w;
    start := Opening([Idle, Idle]);
    run, w := FirstCall(hash);
    run, w := TakeStep(hash, start, run, w, Write("f", [2], 7));
    run, w := TakeStep(hash, start, run, w, Stat(1, "f"));
    run, w := TakeStep(hash, start, run, w, TakeTime(1));
    assert w.callers[1] == Timed("f", TWIN, 0);
    run, w := TakeStep(hash, start, run, w, Lookup(1));
  }
}
