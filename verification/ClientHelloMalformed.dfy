/** What the parser makes of messages that are not well-formed: messages cut before the extensions,
    an odd length of the cipher suites, bodies that announce more or less than they hold, and an
    extension block that ends in the middle of an extension. */
module ClientHelloMalformed {
  import opened Text
  import opened ClientHello
  import opened ClientHelloWire

  // ----- cut before the extensions

  lemma SameStart(s: seq<byte>, n: nat, i: nat)
    requires n <= |s|
    ensures i + 2 <= n ==> U16At(s[..n], i) == U16At(s, i) && Len16At(s[..n], i) == Len16At(s, i)
    ensures i < n ==> Len8At(s[..n], i) == Len8At(s, i)
  {}

  lemma HeaderFields(h: Hello)
    requires ValidHello(h)
    ensures var s, p, c, o := Serialize(h), |Preamble(h)|, |CipherBytes(h)|, |CompressionBytes(h)|;
      && p == 39 + |h.session| && c == 2 + 2 * |h.ciphers| && o == 1 + |h.compression| && p + c + o + 2 <= |s|
      && s[0] == CLIENT_HELLO && U16At(s, 4) == h.version && Len8At(s, 38) == |h.session|
      && Len16At(s, p) == 2 * |h.ciphers| && Len8At(s, p + c) == |h.compression|
  {
    var s, p, c := Serialize(h), |Preamble(h)|, |CipherBytes(h)|;
    Places(s, h);
    PreambleBytes(s, h);
    AtSplit(s, p, Enc16(2 * |h.ciphers|), EncU16s(h.ciphers));
    ReadU16(s, p, 2 * |h.ciphers|);
    AtSplit(s, p + c, [|h.compression|], h.compression);
    ReadByte(s, p + c, |h.compression|);
  }

  lemma CutInCompression(h: Hello, n: nat, version: u16, ciphers: seq<u16>)
    requires ValidHello(h) && n <= |Serialize(h)|
    requires var at := |Preamble(h)| + |CipherBytes(h)|; at <= n < at + |CompressionBytes(h)| + 2
    ensures var at := |Preamble(h)| + |CipherBytes(h)|;
      CompressionOn(Serialize(h)[..n], at, version, ciphers)
        == Refused(if n == at then TruncatedCompression else NoExtensions)
  {
    HeaderFields(h);
    SameStart(Serialize(h), n, |Preamble(h)| + |CipherBytes(h)|);
  }

  lemma CutInCiphers(h: Hello, n: nat, version: u16)
    requires ValidHello(h) && n < |Preamble(h)| + |CipherBytes(h)| + |CompressionBytes(h)| + 2 && n <= |Serialize(h)|
    ensures var m, p, c := Serialize(h)[..n], |Preamble(h)|, |CipherBytes(h)|;
      CiphersOn(m, p, version) == Refused(
        if n < p + 2 then TruncatedCipherSuites
        else if n < p + c then TruncatedCipherEntry
        else if n == p + c then TruncatedCompression
        else NoExtensions)
  {
    var m, p, c := Serialize(h)[..n], |Preamble(h)|, |CipherBytes(h)|;
    HeaderFields(h);
    SameStart(Serialize(h), n, p);
    if p + 2 <= n {
      assert (Len16At(m, p) + 1) / 2 == |h.ciphers|;
      if p + c <= n {
        CutInCompression(h, n, version, U16s(m, p + 2, |h.ciphers|));
      }
    }
  }

  /** A well-formed message cut before its extensions is refused with the error of the field where
      it is cut, and with the first error if fewer than 42 bytes are left. */
  lemma CutBeforeExtensions(h: Hello, n: nat)
    requires ValidHello(h) && n < |Preamble(h)| + |CipherBytes(h)| + |CompressionBytes(h)| + 2
    ensures n <= |Serialize(h)|
    ensures var p := 39 + |h.session|;
      var c := p + 2 + 2 * |h.ciphers|;
      Parse(Serialize(h)[..n]) == Failed(
        if n < 42 then NotClientHello
        else if n < p + 2 then TruncatedCipherSuites
        else if n < c then TruncatedCipherEntry
        else if n == c then TruncatedCompression
        else NoExtensions)
  {
    var s := Serialize(h);
    HeaderFields(h);
    var m := s[..n];
    assert n > 0 ==> m[0] == s[0];
    assert StripRecord(m) == m;
    if n >= 42 {
      SameStart(s, n, 4);
      SameStart(s, n, 38);
      CutInCiphers(h, n, h.version);
      assert ParseHeader(m) == CiphersOn(m, |Preamble(h)|, h.version);
    }
  }

  // ----- bodies that announce another number than they hold

  /** A supported_groups body that announces `length` bytes of groups and holds `count` groups, and
      half a group more if `extra` is 1: the announced groups are read as far as they go, and half a
      group that is announced makes the parser index out of range. */
  lemma AnnouncedGroups(m: seq<byte>, at: nat, length: nat, count: nat, extra: nat)
    requires extra <= 1 && at + 2 + 2 * count + extra <= |m| && Len16At(m, at) == length
    ensures var size := 2 + 2 * count + extra;
      && (OverrunsBody(m, at, size) <==> extra == 1 && length / 2 > count)
      && GroupList(m, at, size) == U16s(m, at + 2, if length / 2 < count then length / 2 else count)
  {
    assert (2 + 2 * count + extra - 2) / 2 == count;
    assert (2 + 2 * count + extra) % 2 == extra;
  }

  /** An ec_point_formats body that announces `length` formats and holds `formats`. */
  lemma AnnouncedPoints(m: seq<byte>, at: nat, length: byte, formats: seq<byte>)
    requires At(m, at, [length] + formats)
    ensures at + 1 + |formats| <= |m|
    ensures PointList(m, at, 1 + |formats|) == if length <= |formats| then formats[..length] else formats
  {
    AtSplit(m, at, [length], formats);
    ReadByte(m, at, length);
    assert m[at + 1..at + 1 + |formats|] == formats;
  }

  /** A body too short for its own length gives nothing. */
  lemma ShortBodies(m: seq<byte>, at: nat, size: nat)
    requires at + size <= |m|
    ensures size < 2 ==> GroupList(m, at, size) == [] && !OverrunsBody(m, at, size)
    ensures size == 0 ==> PointList(m, at, size) == []
  {}

  // ----- the end of the extension block

  lemma {:induction false} CollectUpTo(acc: Ja3, m: seq<byte>, i: nat, es: seq<Extension>, end: nat)
    requires ValidExtensions(es) && At(m, i, ExtensionsBytes(es)) && i + |ExtensionsBytes(es)| <= end <= |m|
    ensures Collect(acc, m, Walk(m, i, end))
         == Collect(ExtendAll(acc, es), m, Walk(m, i + |ExtensionsBytes(es)|, end))
    decreases |es|
  {
    if es != [] {
      SplitFirst(m, i, es);
      CollectExtension(acc, m, i, es[0], end);
      CollectUpTo(Extend(acc, es[0]), m, i + |ExtensionBytes(es[0])|, es[1..], end);
    }
  }

  /** Fewer than four bytes after the last extension are ignored. */
  lemma LooseEnd(acc: Ja3, m: seq<byte>, i: nat, es: seq<Extension>, end: nat)
    requires ValidExtensions(es) && At(m, i, ExtensionsBytes(es))
    requires i + |ExtensionsBytes(es)| <= end < i + |ExtensionsBytes(es)| + 4 && end <= |m|
    ensures Collect(acc, m, Walk(m, i, end)) == Parsed(ExtendAll(acc, es))
  {
    CollectUpTo(acc, m, i, es, end);
  }

  /** Of an extension whose body is not all there, only the type is taken. */
  lemma IncompleteExtension(acc: Ja3, m: seq<byte>, i: nat, es: seq<Extension>, end: nat)
    requires ValidExtensions(es) && At(m, i, ExtensionsBytes(es))
    requires var t := i + |ExtensionsBytes(es)|; t + 4 <= end <= |m| && end < t + 4 + Len16At(m, t + 2)
    ensures var before := ExtendAll(acc, es);
      Collect(acc, m, Walk(m, i, end))
        == Parsed(before.(extensions := before.extensions + [U16At(m, i + |ExtensionsBytes(es)|)]))
  {
    var t := i + |ExtensionsBytes(es)|;
    CollectUpTo(acc, m, i, es, end);
    OnlyItem(ExtendAll(acc, es), m, t, end);
  }

  lemma OnlyItem(acc: Ja3, m: seq<byte>, t: nat, end: nat)
    requires t + 4 <= end <= |m| && end < t + 4 + Len16At(m, t + 2)
    ensures Collect(acc, m, Walk(m, t, end)) == Parsed(acc.(extensions := acc.extensions + [U16At(m, t)]))
  {
    assert Walk(m, t, end) == [Item(U16At(m, t), t + 4, Len16At(m, t + 2), false)];
  }

  // ----- an odd length of the cipher suites

  /** The last suite then consists of the odd byte and the length of the compression methods, and
      the parser goes on at that length. */
  lemma OddCiphers(m: seq<byte>, at: nat, count: nat, version: u16)
    requires at + 4 + 2 * count <= |m| && Len16At(m, at) == 2 * count + 1
    ensures var end := at + 2 + 2 * count;
      CiphersOn(m, at, version) == CompressionOn(m, end + 1, version, U16s(m, at + 2, count) + [U16At(m, end)])
  {
    assert (2 * count + 2) / 2 == count + 1;
  }
}
