/** `getFileSha256` with concurrent callers: after its call of getFileMd5 it reads the cache once
    more, and takes the entry for the path whatever its stamp. */
module HashCacheSha {
  import opened Text
  import opened HashCacheRuns

  /** The second read of the cache; `None` is the error "cache missing entry". */
  function Sha256Read(w: World, path: string): Option<string>
  {
    if path in w.cache then Some(w.cache[path].hashes.sha256) else None
  }

  predicate EntryCurrent(w: World, path: string)
  {
    path in w.cache && Current(w, path, w.cache[path].stamp)
  }

  /** A call that took its stamp from another state of the file stores over the entry, or a write
      gives the file another stamp. */
  predicate Displaces(w: World, a: Action, path: string)
  {
    match a
    case Store(c) =>
      && c < |w.callers| && w.callers[c].Hashed? && w.callers[c].path == path
      && !Current(w, path, w.callers[c].stamp)
    case Write(p, content, mtime) =>
      p == path && path in w.cache && StampOf(File(content, mtime)) != w.cache[path].stamp
    case _ => false
  }

  lemma StepKeepsEntry(hash: HashFn, w: World, a: Action, path: string)
    requires Enabled(w, a) && EntryCurrent(w, path)
    ensures EntryCurrent(Next(hash, w, a), path) <==> !Displaces(w, a, path)
  {}

  /** The entry has the file's current stamp in every state of a run if and only if no step
      displaced it. */
  lemma {:induction false} EntryCurrentExactly(hash: HashFn, w: World, run: seq<Action>, path: string)
    requires Legal(hash, w, run)
    ensures Throughout(hash, w, run, v => EntryCurrent(v, path))
       <==> EntryCurrent(w, path) && Always(hash, w, run, (v, a) => !Displaces(v, a, path))
    decreases |run|
  {
    if run != [] && EntryCurrent(w, path) {
      StepKeepsEntry(hash, w, run[0], path);
      EntryCurrentExactly(hash, Next(hash, w, run[0]), run[1..], path);
      if Displaces(w, run[0], path) {
        assert !Throughout(hash, Next(hash, w, run[0]), run[1..], v => EntryCurrent(v, path));
      }
    }
  }

  lemma {:induction false} ThroughoutEnd(hash: HashFn, w: World, run: seq<Action>, inv: World -> bool)
    requires Legal(hash, w, run) && Throughout(hash, w, run, inv)
    ensures inv(Exec(hash, w, run))
    decreases |run|
  {
    if run != [] {
      ThroughoutEnd(hash, Next(hash, w, run[0]), run[1..], inv);
    }
  }

  /** A call that returns, from the cache or after storing, leaves an entry with its own stamp. */
  lemma ReturnLeavesEntry(hash: HashFn, w: World, a: Action, c: nat, path: string)
    requires Enabled(w, a) && OnTrack(hash, w, c, path) && (a == Lookup(c) || a == Store(c))
    ensures Next(hash, w, a).callers[c].Returned? ==> EntryCurrent(Next(hash, w, a), path)
  {}

  /** From a call's return on: without a harmful write, and without a step that displaces the
      entry, the second read gives the SHA-256 of the content. */
  lemma ReadAfterReturn(hash: HashFn, w: World, a: Action, c: nat, path: string, after: seq<Action>)
    requires Enabled(w, a) && OnTrack(hash, w, c, path) && (a == Lookup(c) || a == Store(c))
    requires Agrees(hash, w) && Next(hash, w, a).callers[c].Returned?
    requires var u := Next(hash, w, a);
      && Legal(hash, u, after) && Always(hash, u, after, (v, b) => !Harmful(hash, v, b))
      && Always(hash, u, after, (v, b) => !Displaces(v, b, path))
    ensures var w' := Exec(hash, Next(hash, w, a), after);
      path in w'.files && Sha256Read(w', path) == Some(hash(w'.files[path].content).sha256)
  {
    var u := Next(hash, w, a);
    StepAgrees(hash, w, a);
    ReturnLeavesEntry(hash, w, a, c, path);
    EntryCurrentExactly(hash, u, after, path);
    ThroughoutEnd(hash, u, after, v => EntryCurrent(v, path));
    RunKeepsAgrees(hash, u, after);
  }

  /** In every run without a harmful write: when a call returns that no write to its file disturbed
      since its stat, and no step displaces the entry before the second read of the cache, then
      getFileSha256 returns the SHA-256 of the content. */
  lemma Sha256AgreesWithDirectHashing(
      hash: HashFn, w: World, before: seq<Action>, c: nat, path: string,
      during: seq<Action>, last: Action, after: seq<Action>)
    requires Start(w) && (last == Lookup(c) || last == Store(c))
    requires var run := before + ([Stat(c, path)] + (during + ([last] + after)));
      Legal(hash, w, run) && Always(hash, w, run, (v, a) => !Harmful(hash, v, a))
    requires forall a <- during :: Undisturbed(a, c, path)
    ensures Legal(hash, w, before + ([Stat(c, path)] + during))
    ensures var u := Exec(hash, w, before + ([Stat(c, path)] + during));
      && Enabled(u, last)
      && var u' := Next(hash, u, last);
      && Legal(hash, u', after)
      && c < |u'.callers|
      && (u'.callers[c].Returned? && Always(hash, u', after, (v, a) => !Displaces(v, a, path)) ==>
            var w' := Exec(hash, u', after);
            path in w'.files && Sha256Read(w', path) == Some(hash(w'.files[path].content).sha256))
  {
    var ok := (v, a) => !Harmful(hash, v, a);
    var call := [Stat(c, path)] + during;
    var rest := [last] + after;
    assert before + ([Stat(c, path)] + (during + rest)) == (before + call) + rest;
    LegalSplit(hash, w, before + call, rest, ok);
    LegalSplit(hash, w, before, call, ok);
    RunKeepsAgrees(hash, w, before);
    var v := Exec(hash, w, before);
    assert call[0] == Stat(c, path) && call[1..] == during;
    StepAgrees(hash, v, call[0]);
    CallGoesOn(hash, Next(hash, v, call[0]), during, c, path);
    RunKeepsAgrees(hash, w, before + call);
    var u := Exec(hash, w, before + call);
    assert rest[0] == last && rest[1..] == after;
    var u' := Next(hash, u, last);
    if u'.callers[c].Returned? && Always(hash, u', after, (v, a) => !Displaces(v, a, path)) {
      ReadAfterReturn(hash, u, last, c, path, after);
    }
  }

  // ----- an overtaken store

  lemma {:induction false} NewConcat(hash: HashFn, w: World, run: seq<Action>, a: Action)
    requires Legal(hash, w, run) && Always(hash, w, run, NewStamp)
    requires Enabled(Exec(hash, w, run), a) && NewStamp(Exec(hash, w, run), a)
    ensures Legal(hash, w, run + [a]) && Always(hash, w, run + [a], NewStamp)
    decreases |run|
  {
    LegalConcat(hash, w, run, a);
    if run == [] {
      assert (run + [a])[1..] == [];
    } else {
      NewConcat(hash, Next(hash, w, run[0]), run[1..], a);
      assert (run + [a])[1..] == run[1..] + [a];
    }
  }

  lemma TakeNew(hash: HashFn, start: World, run: seq<Action>, w: World, a: Action)
    returns (run': seq<Action>, w': World)
    requires Legal(hash, start, run) && Exec(hash, start, run) == w && Always(hash, start, run, NewStamp)
    requires Enabled(w, a) && NewStamp(w, a)
    ensures run' == run + [a] && w' == Next(hash, w, a)
    ensures Legal(hash, start, run') && Exec(hash, start, run') == w' && Always(hash, start, run', NewStamp)
  {
    NewConcat(hash, start, run, a);
    run', w' := TakeStep(hash, start, run, w, a);
  }

  const OLD := Hashed("f", TWIN, 0, 0, [1])
  const NEW_STAMP := Stamp(8, 1)

  /** The first call has hashed the one-byte file, but not stored yet, when the file is written. */
  lemma FirstCallHashed(hash: HashFn) returns (run: seq<Action>, w: World)
    ensures var start := Opening([Idle, Idle]);
      Legal(hash, start, run) && Exec(hash, start, run) == w && Always(hash, start, run, NewStamp)
    ensures w.clock == 0 && w.files == map["f" := File([2], 8)] && w.cache == map[] && w.callers == [OLD, Idle]
  {
    var start := Opening([Idle, Idle]);
    run, w := TakeNew(hash, start, [], start, Stat(0, "f"));
    run, w := TakeNew(hash, start, run, w, TakeTime(0));
    run, w := TakeNew(hash, start, run, w, Lookup(0));
    run, w := TakeNew(hash, start, run, w, Open(0));
    assert w.callers[0] == Reading("f", TWIN, 0, 0, []);
    run, w := TakeNew(hash, start, run, w, Read(0));
    assert w.callers[0].bytes == [1];
    run, w := TakeNew(hash, start, run, w, Read(0));
    run, w := TakeNew(hash, start, run, w, Write("f", [2], 8));
  }

  /** A second call goes through in the meantime, undisturbed, and returns the MD5 of the content. */
  lemma SecondCallReturned(hash: HashFn) returns (run: seq<Action>, w: World)
    ensures var start := Opening([Idle, Idle]);
      Legal(hash, start, run) && Exec(hash, start, run) == w && Always(hash, start, run, NewStamp)
    ensures w.files == map["f" := File([2], 8)]
    ensures w.callers == [OLD, Returned("f", NEW_STAMP, 0, 0, hash([2]).md5)]
  {
    var start := Opening([Idle, Idle]);
    run, w := FirstCallHashed(hash);
    run, w := TakeNew(hash, start, run, w, Stat(1, "f"));
    run, w := TakeNew(hash, start, run, w, TakeTime(1));
    run, w := TakeNew(hash, start, run, w, Lookup(1));
    run, w := TakeNew(hash, start, run, w, Open(1));
    assert w.callers[1] == Reading("f", NEW_STAMP, 0, 0, []);
    run, w := TakeNew(hash, start, run, w, Read(1));
    assert w.callers[1].bytes == [2];
    run, w := TakeNew(hash, start, run, w, Read(1));
    run, w := TakeNew(hash, start, run, w, Store(1));
  }

  /** A run in which every write gives a new stamp: the first call stores what it hashed before the
      write over the entry of the second, which has returned the right MD5 and whose getFileSha256
      then returns the SHA-256 of the old content. */
  lemma OvertakenStore(hash: HashFn) returns (start: World, run: seq<Action>)
    requires hash([1]).sha256 != hash([2]).sha256
    ensures Start(start) && Legal(hash, start, run)
    ensures Always(hash, start, run, NewStamp) && Always(hash, start, run, (v, a) => !Harmful(hash, v, a))
    ensures var w := Exec(hash, start, run);
      && |w.callers| == 2 && w.callers[1].Returned? && "f" in w.files
      && Current(w, "f", w.callers[1].stamp)
      && "f" in start.files && start.files["f"].content == [1] && w.files["f"].content == [2]
      && w.callers[1].md5 == hash([2]).md5
      && Sha256Read(w, "f") == Some(hash([1]).sha256) != Some(hash([2]).sha256)
  {
    var w;
    start := Opening([Idle, Idle]);
    run, w := SecondCallReturned(hash);
    run, w := TakeNew(hash, start, run, w, Store(0));
    NewStampsAreHarmless(hash, start, run);
  }
}
