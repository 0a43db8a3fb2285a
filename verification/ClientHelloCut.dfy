/** Captures that end inside the extension block: the parser cuts the block to the bytes there
    are, and what it then returns. */
module ClientHelloCut {
  import opened Text
  import opened ClientHello

  /** The same version and ciphers, and no list longer or different as far as it goes. */
  predicate PrefixOf(a: Ja3, b: Ja3)
  {
    && a.version == b.version && a.ciphers == b.ciphers
    && a.extensions <= b.extensions && a.groups <= b.groups && a.points <= b.points
  }

  lemma {:induction false} CollectGrows(acc: Ja3, m: seq<byte>, items: seq<Item>)
    requires Inside(m, items) && Collect(acc, m, items).Parsed?
    ensures PrefixOf(acc, Collect(acc, m, items).ja3)
    decreases |items|
  {
    if items != [] {
      CollectGrows(Add(acc, m, items[0]), m, items[1..]);
    }
  }

  lemma {:induction false} CutU16s(m: seq<byte>, n: nat, from: nat, count: nat)
    requires from + 2 * count <= n <= |m|
    ensures U16s(m[..n], from, count) == U16s(m, from, count)
  {
    if count > 0 {
      CutU16s(m, n, from, count - 1);
    }
  }

  lemma CutGroups(m: seq<byte>, n: nat, at: nat, size: nat)
    requires at + size <= n <= |m|
    ensures OverrunsBody(m[..n], at, size) == OverrunsBody(m, at, size)
    ensures GroupList(m[..n], at, size) == GroupList(m, at, size)
  {
    if size >= 2 {
      assert Len16At(m[..n], at) == Len16At(m, at);
      CutU16s(m, n, at + 2, Min(Announced(m, at), (size - 2) / 2));
    }
  }

  lemma CutPoints(m: seq<byte>, n: nat, at: nat, size: nat)
    requires at + size <= n <= |m|
    ensures PointList(m[..n], at, size) == PointList(m, at, size)
  {
    if size >= 1 {
      var k := Min(Len8At(m, at), size - 1);
      assert m[..n][at + 1..at + 1 + k] == m[at + 1..at + 1 + k];
    }
  }

  /** An extension that lies before the cut adds the same. */
  lemma CutItem(acc: Ja3, m: seq<byte>, n: nat, item: Item)
    requires n <= |m| && item.complete && item.at + item.size <= n
    ensures Overruns(m[..n], item) == Overruns(m, item) && Add(acc, m[..n], item) == Add(acc, m, item)
  {
    CutGroups(m, n, item.at, item.size);
    CutPoints(m, n, item.at, item.size);
  }

  lemma WalkHead(m: seq<byte>, pos: nat, end: nat)
    requires pos + 4 <= end <= |m|
    ensures var items, at, size := Walk(m, pos, end), pos + 4, Len16At(m, pos + 2);
      && items != [] && items[0] == Item(U16At(m, pos), at, size, at + size <= end)
      && (at + size <= end ==> items[1..] == Walk(m, at + size, end))
      && (at + size > end ==> items[1..] == [])
  {}

  lemma {:induction false} CutWalk(acc: Ja3, m: seq<byte>, pos: nat, n: nat, end: nat)
    requires pos <= n <= end <= |m|
    requires Collect(acc, m, Walk(m, pos, end)).Parsed?
    ensures var cut := Collect(acc, m[..n], Walk(m[..n], pos, n));
      cut.Parsed? && PrefixOf(cut.ja3, Collect(acc, m, Walk(m, pos, end)).ja3)
    decreases end - pos
  {
    var items, short := Walk(m, pos, end), Walk(m[..n], pos, n);
    CollectGrows(acc, m, items);
    if pos + 4 <= n {
      WalkHead(m, pos, end);
      WalkHead(m[..n], pos, n);
      var at, size := pos + 4, Len16At(m, pos + 2);
      assert U16At(m[..n], pos) == U16At(m, pos) && Len16At(m[..n], pos + 2) == size;
      CollectGrows(Add(acc, m, items[0]), m, items[1..]);
      if at + size <= n {
        CutItem(acc, m, n, items[0]);
        CutWalk(Add(acc, m, items[0]), m, at + size, n, end);
      } else {
        CutTail(acc, m, n, items[0], short);
      }
    }
  }

  /** An extension that the cut goes through still shows its type, and its body is not opened. */
  lemma CutTail(acc: Ja3, m: seq<byte>, n: nat, item: Item, short: seq<Item>)
    requires n <= |m| && (item.complete ==> item.at + item.size <= |m|)
    requires short == [Item(item.kind, item.at, item.size, false)]
    ensures Collect(acc, m[..n], short).Parsed?
    ensures PrefixOf(Collect(acc, m[..n], short).ja3, Add(acc, m, item))
  {
    assert short[1..] == [];
  }

  lemma CutBytes(m: seq<byte>, n: nat, i: nat)
    requires n <= |m|
    ensures i + 1 <= n ==> Len8At(m[..n], i) == Len8At(m, i)
    ensures i + 2 <= n ==> U16At(m[..n], i) == U16At(m, i)
  {}

  lemma CutCompression(m: seq<byte>, n: nat, pos: nat, version: u16, ciphers: seq<u16>)
    requires var h := CompressionOn(m, pos, version, ciphers); h.Reached? && h.start <= n <= h.end
    ensures CompressionOn(m[..n], pos, version, ciphers) == CompressionOn(m, pos, version, ciphers).(end := n)
  {
    CutBytes(m, n, pos);
    CutBytes(m, n, pos + 1 + Len8At(m, pos));
  }

  lemma CutCiphers(m: seq<byte>, n: nat, pos: nat, version: u16)
    requires var h := CiphersOn(m, pos, version); h.Reached? && h.start <= n <= h.end
    ensures CiphersOn(m[..n], pos, version) == CiphersOn(m, pos, version).(end := n)
  {
    var length := Len16At(m, pos);
    var count := (length + 1) / 2;
    assert pos + 2 + 2 * count <= pos + 3 + length <= n;
    CutBytes(m, n, pos);
    CutU16s(m, n, pos + 2, count);
    CutCompression(m, n, pos + 2 + length, version, U16s(m, pos + 2, count));
  }

  lemma CutHeader(m: seq<byte>, n: nat)
    requires ParseHeader(m).Reached? && ParseHeader(m).start <= n <= ParseHeader(m).end
    ensures ParseHeader(m[..n]) == ParseHeader(m).(end := n)
  {
    CutBytes(m, n, 38);
    CutBytes(m, n, 4);
    CutCiphers(m, n, 39 + Len8At(m, 38), U16At(m, 4));
  }

  /** Cutting any parsed message anywhere inside its extension block gives a fingerprint again,
      with the same version and ciphers and with prefixes of the three other lists. */
  lemma CutCapture(m: seq<byte>, n: nat)
    requires ParseHandshake(m).Parsed? && ParseHeader(m).start <= n <= ParseHeader(m).end
    ensures ParseHandshake(m[..n]).Parsed? && PrefixOf(ParseHandshake(m[..n]).ja3, ParseHandshake(m).ja3)
  {
    var h := ParseHeader(m);
    CutHeader(m, n);
    CutWalk(Ja3(h.version, h.ciphers, [], [], []), m, h.start, n, h.end);
  }
}
