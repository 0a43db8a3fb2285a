/** A call that is not interrupted takes the steps of the protocol to the result that `HashCache`
    states for the method. */
module HashCacheSolo {
  import opened Text
  import opened HashCacheRuns

  lemma {:induction false} RunConcat(hash: HashFn, w: World, a: seq<Action>, b: seq<Action>)
    requires Legal(hash, w, a) && Legal(hash, Exec(hash, w, a), b)
    ensures Legal(hash, w, a + b) && Exec(hash, w, a + b) == Exec(hash, Exec(hash, w, a), b)
    decreases |a|
  {
    if a == [] {
      assert a + b == b;
    } else {
      assert (a + b)[1..] == a[1..] + b;
      RunConcat(hash, Next(hash, w, a[0]), a[1..], b);
    }
  }

  predicate ReadsOnly(run: seq<Action>, c: nat) { forall a <- run :: a == Read(c) }

  /** The read loop goes to the end of the file. */
  lemma {:induction false} ReadToEnd(hash: HashFn, w: World, c: nat) returns (run: seq<Action>)
    requires c < |w.callers| && w.callers[c].Reading? && w.callers[c].path in w.files
    requires w.callers[c].bytes <= w.files[w.callers[c].path].content
    ensures Legal(hash, w, run) && ReadsOnly(run, c)
    ensures var s := w.callers[c];
      Exec(hash, w, run) == At(w, c, Hashed(s.path, s.stamp, s.now, s.began, w.files[s.path].content))
    decreases |w.files[w.callers[c].path].content| - |w.callers[c].bytes|
  {
    var s := w.callers[c];
    var content := w.files[s.path].content;
    var w' := Next(hash, w, Read(c));
    if NextBlock(content, |s.bytes|) == [] {
      assert s.bytes == content;
      run := [Read(c)];
      assert run[1..] == [];
    } else {
      var rest := ReadToEnd(hash, w', c);
      run := [Read(c)] + rest;
      assert run[1..] == rest;
      assert At(w', c, Hashed(s.path, s.stamp, s.now, s.began, content))
          == At(w, c, Hashed(s.path, s.stamp, s.now, s.began, content));
    }
  }

  lemma TimedStep(hash: HashFn, w: World, c: nat, path: string)
    requires c < |w.callers| && path in w.files
    ensures var found := At(w, c, Statted(path, StampOf(w.files[path])));
      && Next(hash, w, Stat(c, path)) == found
      && Enabled(found, TakeTime(c))
      && Next(hash, found, TakeTime(c)) == At(w, c, Timed(path, StampOf(w.files[path]), w.clock))
  {}

  /** From the stat to the lookup: three steps that leave everything but the caller alone. */
  lemma UpToLookup(hash: HashFn, w: World, c: nat, path: string) returns (run: seq<Action>)
    requires c < |w.callers| && path in w.files
    ensures Legal(hash, w, run) && run == [Stat(c, path), TakeTime(c), Lookup(c)]
    ensures var file := w.files[path];
      var stamp := Stamp(file.mtime, |file.content|);
      Exec(hash, w, run) == At(w, c,
        if Served(w, path, file.mtime, |file.content|, w.clock)
        then Returned(path, stamp, w.clock, w.cache[path].began, w.cache[path].hashes.md5)
        else Missed(path, stamp, w.clock))
  {
    var v;
    TimedStep(hash, w, c, path);
    run, v := TakeStep(hash, w, [], w, Stat(c, path));
    run, v := TakeStep(hash, w, run, v, TakeTime(c));
    LookupServesExactly(hash, v, c);
    run, v := TakeStep(hash, w, run, v, Lookup(c));
  }

  /** From a missed lookup to the return. */
  lemma AfterMiss(hash: HashFn, w: World, c: nat) returns (run: seq<Action>)
    requires c < |w.callers| && w.callers[c].Missed? && w.callers[c].path in w.files
    ensures Legal(hash, w, run)
    ensures |run| >= 2 && run[0] == Open(c) && run[|run| - 1] == Store(c) && ReadsOnly(run[1..|run| - 1], c)
    ensures var s := w.callers[c];
      var content := w.files[s.path].content;
      Exec(hash, w, run)
        == At(w.(cache := w.cache[s.path := Entry(s.stamp, hash(content), s.now, w.clock)]), c,
              Returned(s.path, s.stamp, s.now, w.clock, hash(content).md5))
  {
    var s := w.callers[c];
    var content := w.files[s.path].content;
    var w1 := Next(hash, w, Open(c));
    var blocks := ReadToEnd(hash, w1, c);
    var w2 := Exec(hash, w1, blocks);
    assert w2 == At(w, c, Hashed(s.path, s.stamp, s.now, w.clock, content));
    assert [Store(c)][1..] == [];
    RunConcat(hash, w1, blocks, [Store(c)]);
    run := [Open(c)] + (blocks + [Store(c)]);
    assert run[1..] == blocks + [Store(c)];
    assert run[1..|run| - 1] == blocks;
  }

  /** A call of its own from any state: a hit returns the entry's MD5 and leaves the cache, and a
      miss returns the MD5 of the content and stores one entry, made at the time it took. */
  lemma SoloCall(hash: HashFn, w: World, c: nat, path: string) returns (run: seq<Action>)
    requires c < |w.callers| && path in w.files
    ensures Legal(hash, w, run) && run != [] && run[0] == Stat(c, path)
    ensures var file := w.files[path];
      var stamp := Stamp(file.mtime, |file.content|);
      Exec(hash, w, run) ==
        if Served(w, path, file.mtime, |file.content|, w.clock) then
          At(w, c, Returned(path, stamp, w.clock, w.cache[path].began, w.cache[path].hashes.md5))
        else
          At(w.(cache := w.cache[path := Entry(stamp, hash(file.content), w.clock, w.clock)]), c,
             Returned(path, stamp, w.clock, w.clock, hash(file.content).md5))
  {
    var file := w.files[path];
    run := UpToLookup(hash, w, c, path);
    if !Served(w, path, file.mtime, |file.content|, w.clock) {
      var rest := AfterMiss(hash, Exec(hash, w, run), c);
      RunConcat(hash, w, run, rest);
      run := run + rest;
    }
  }
}
