/** `getFileMd5` and `getFileSha256` for one caller at a time, on the cache they update. */
module HashCache {
  import opened Text
  import opened HashCacheRuns

  /** What goes wrong with a file after the stat, if anything: `from` is the first offset at which
      a read fails. */
  datatype Fault = NoFault | OpenFails | ReadFails(from: nat)

  /** The loop reads on until the end of the file is reported, at the offset of its length. */
  predicate Fails(fault: Fault, content: seq<byte>)
  {
    fault.OpenFails? || (fault.ReadFails? && fault.from <= |content|)
  }

  datatype Sha256Result = Sha256(sum: string) | Md5Failed | MissingEntry

  class Cache {
    const hash: HashFn
    var entries: map<string, Entry>

    constructor (hash: HashFn)
      ensures this.hash == hash && entries == map[]
    {
      this.hash := hash;
      entries := map[];
    }

    /** Every entry with the file's current stamp holds the hashes of its content. */
    predicate Faithful(disk: map<string, File>)
      reads this
    {
      forall p <- entries ::
        p in disk && StampOf(disk[p]) == entries[p].stamp ==> entries[p].hashes == hash(disk[p].content)
    }

    /** There is an entry less than sixty seconds old, in nanoseconds, for the file's modification
        time and size. */
    predicate Hit(disk: map<string, File>, path: string, now: Time)
      requires path in disk
      reads this
    {
      && path in entries
      && now - entries[path].last < 60_000_000_000
      && entries[path].stamp == Stamp(disk[path].mtime, |disk[path].content|)
    }

    /** After the stat, opening the file may fail, and so may every read from an offset on. A hit
        needs neither; a failing miss leaves the cache as it was. */
    method GetFileMd5(disk: map<string, File>, path: string, now: Time, fault: Fault) returns (md5: Option<string>)
      modifies this
      ensures path !in disk ==> md5.None? && entries == old(entries)
      ensures path in disk && old(Hit(disk, path, now)) ==>
        md5 == Some(old(entries)[path].hashes.md5) && entries == old(entries)
      ensures path in disk && !old(Hit(disk, path, now)) && Fails(fault, disk[path].content) ==>
        md5.None? && entries == old(entries)
      ensures path in disk && !old(Hit(disk, path, now)) && !Fails(fault, disk[path].content) ==>
        && md5 == Some(hash(disk[path].content).md5)
        && entries == old(entries)[path :=
             Entry(Stamp(disk[path].mtime, |disk[path].content|), hash(disk[path].content), now, now)]
      ensures old(Faithful(disk)) ==>
        Faithful(disk) && (path in disk && md5.Some? ==> md5 == Some(hash(disk[path].content).md5))
    {
      if path !in disk {
        return None;
      }
      var stamp := StampOf(disk[path]);
      if path in entries && Fresh(entries[path], stamp, now) {
        return Some(entries[path].hashes.md5);
      }
      if fault.OpenFails? {
        return None;
      }
      var content := disk[path].content;
      var bytes: seq<byte> := [];
      while true
        invariant bytes <= content
        decreases |content| - |bytes|
      {
        if fault.ReadFails? && fault.from <= |bytes| {
          return None;
        }
        var block := NextBlock(content, |bytes|);
        if block == [] {
          break;
        }
        bytes := bytes + block;
      }
      assert bytes == content;
      var hashes := hash(bytes);
      entries := entries[path := Entry(stamp, hashes, now, now)];
      return Some(hashes.md5);
    }

    /** The error "cache missing entry" does not occur for a caller alone: once getFileMd5 has
        found the MD5, the entry is there, and it is that of the current stamp. */
    method GetFileSha256(disk: map<string, File>, path: string, now: Time, fault: Fault) returns (r: Sha256Result)
      modifies this
      ensures !r.MissingEntry?
      ensures r.Sha256? <==> path in disk && (old(Hit(disk, path, now)) || !Fails(fault, disk[path].content))
      ensures old(Faithful(disk)) ==>
        Faithful(disk) && (path in disk && r.Sha256? ==> r.sum == hash(disk[path].content).sha256)
    {
      var md5 := GetFileMd5(disk, path, now, fault);
      if md5.None? {
        return Md5Failed;
      }
      if path !in entries {
        return MissingEntry;
      }
      return Sha256(entries[path].hashes.sha256);
    }
  }
}
