/** ClientHello messages as RFC 8446, section 4.1.2 writes them, and the proof that the JA3
    parser reads back exactly the fields the fingerprint is made of. */
module ClientHelloWire {
  import opened Text
  import opened ClientHello

  /** RFC 8446, section 4.2.7 and RFC 8422, section 5.1.2 give the two bodies the parser opens. */
  datatype Extension =
    | SupportedGroups(groups: seq<u16>)
    | PointFormats(formats: seq<byte>)
    | Other(kind: u16, body: seq<byte>)

  datatype Hello = Hello(
    length: seq<byte>,
    version: u16,
    random: seq<byte>,
    session: seq<byte>,
    ciphers: seq<u16>,
    compression: seq<byte>,
    extensions: seq<Extension>)

  /** The two bytes of `n`, the high one first. */
  function Enc16(n: nat): (b: seq<byte>)
    requires n < 0x1_0000
    ensures |b| == 2 && U16At(b, 0) == n
  {
    [n / 256, n % 256]
  }

  function EncU16s(ns: seq<u16>): (b: seq<byte>)
    ensures |b| == 2 * |ns|
  {
    if ns == [] then [] else EncU16s(ns[..|ns| - 1]) + Enc16(ns[|ns| - 1])
  }

  function Kind(e: Extension): u16
  {
    match e
    case SupportedGroups(_) => 10
    case PointFormats(_) => 11
    case Other(kind, _) => kind
  }

  /** Every length fits its field, and the two kinds above are not written as `Other`. */
  predicate ValidExtension(e: Extension)
  {
    match e
    case SupportedGroups(groups) => 2 * |groups| < 0xFFFE
    case PointFormats(formats) => |formats| < 0x100
    case Other(kind, body) => kind != 10 && kind != 11 && |body| < 0x1_0000
  }

  function Body(e: Extension): (b: seq<byte>)
    requires ValidExtension(e)
    ensures |b| < 0x1_0000
  {
    match e
    case SupportedGroups(groups) => Enc16(2 * |groups|) + EncU16s(groups)
    case PointFormats(formats) => [|formats|] + formats
    case Other(_, body) => body
  }

  function ExtensionBytes(e: Extension): (b: seq<byte>)
    requires ValidExtension(e)
    ensures |b| == 4 + |Body(e)|
  {
    Enc16(Kind(e)) + Enc16(|Body(e)|) + Body(e)
  }

  ghost predicate ValidExtensions(es: seq<Extension>) { forall e <- es :: ValidExtension(e) }

  function ExtensionsBytes(es: seq<Extension>): seq<byte>
    requires ValidExtensions(es)
  {
    if es == [] then [] else ExtensionBytes(es[0]) + ExtensionsBytes(es[1..])
  }

  ghost predicate ValidHello(h: Hello)
  {
    && |h.length| == 3
    && |h.random| == 32
    && |h.session| < 0x100
    && 2 * |h.ciphers| < 0x1_0000
    && |h.compression| < 0x100
    && ValidExtensions(h.extensions)
    && |ExtensionsBytes(h.extensions)| < 0x1_0000
  }

  /** Up to the cipher suites; the rest is written by the functions below. */
  function Preamble(h: Hello): seq<byte>
    requires ValidHello(h)
  {
    [1] + h.length + Enc16(h.version) + h.random + [|h.session|] + h.session
  }

  function CipherBytes(h: Hello): seq<byte>
    requires ValidHello(h)
  {
    Enc16(2 * |h.ciphers|) + EncU16s(h.ciphers)
  }

  function CompressionBytes(h: Hello): seq<byte>
    requires ValidHello(h)
  {
    [|h.compression|] + h.compression
  }

  function Serialize(h: Hello): seq<byte>
    requires ValidHello(h)
  {
    var extensions := ExtensionsBytes(h.extensions);
    Preamble(h) + CipherBytes(h) + CompressionBytes(h) + Enc16(|extensions|) + extensions
  }

  // ----- the fingerprint a message should have

  function KindsOf(es: seq<Extension>): seq<u16>
  {
    seq(|es|, i requires 0 <= i < |es| => Kind(es[i]))
  }

  function GroupsOf(es: seq<Extension>): seq<u16>
  {
    if es == [] then []
    else if es[0].SupportedGroups? then es[0].groups + GroupsOf(es[1..])
    else GroupsOf(es[1..])
  }

  function PointsOf(es: seq<Extension>): seq<byte>
  {
    if es == [] then []
    else if es[0].PointFormats? then es[0].formats + PointsOf(es[1..])
    else PointsOf(es[1..])
  }

  function Fingerprint(h: Hello): Ja3
  {
    Ja3(h.version, h.ciphers, KindsOf(h.extensions), GroupsOf(h.extensions), PointsOf(h.extensions))
  }

  // ----- reading fields back

  /** `b` stands in `m` from index `i` on. */
  ghost predicate At(m: seq<byte>, i: nat, b: seq<byte>)
  {
    i + |b| <= |m| && forall k :: 0 <= k < |b| ==> m[i + k] == b[k]
  }

  lemma AtSplit(m: seq<byte>, i: nat, a: seq<byte>, b: seq<byte>)
    requires At(m, i, a + b)
    ensures At(m, i, a) && At(m, i + |a|, b)
  {
    var c := a + b;
    assert forall k :: 0 <= k < |a| ==> c[k] == a[k];
    forall k | 0 <= k < |b| ensures m[i + |a| + k] == b[k] {
      assert c[|a| + k] == b[k];
    }
  }

  lemma ReadByte(m: seq<byte>, i: nat, x: byte)
    requires At(m, i, [x])
    ensures m[i] == x
  {
    assert m[i + 0] == [x][0];
  }

  lemma ReadU16(m: seq<byte>, i: nat, n: nat)
    requires n < 0x1_0000 && At(m, i, Enc16(n))
    ensures U16At(m, i) == n
  {
    assert m[i + 0] == Enc16(n)[0] && m[i + 1] == Enc16(n)[1];
  }

  lemma {:induction false} ReadU16s(m: seq<byte>, i: nat, ns: seq<u16>)
    requires At(m, i, EncU16s(ns))
    ensures U16s(m, i, |ns|) == ns
  {
    if ns != [] {
      var init, last := ns[..|ns| - 1], ns[|ns| - 1];
      AtSplit(m, i, EncU16s(init), Enc16(last));
      ReadU16s(m, i, init);
      ReadU16(m, i + 2 * |init|, last);
      assert ns == init + [last];
    }
  }

  function Extend(acc: Ja3, e: Extension): Ja3
  {
    var acc' := acc.(extensions := acc.extensions + [Kind(e)]);
    match e
    case SupportedGroups(groups) => acc'.(groups := acc.groups + groups)
    case PointFormats(formats) => acc'.(points := acc.points + formats)
    case Other(_, _) => acc'
  }

  lemma ReadBody(acc: Ja3, m: seq<byte>, i: nat, e: Extension)
    requires ValidExtension(e) && At(m, i, Body(e))
    ensures var item := Item(Kind(e), i, |Body(e)|, true);
      !Overruns(m, item) && Add(acc, m, item) == Extend(acc, e)
  {
    match e
    case SupportedGroups(groups) =>
      AtSplit(m, i, Enc16(2 * |groups|), EncU16s(groups));
      ReadU16(m, i, 2 * |groups|);
      ReadU16s(m, i + 2, groups);
    case PointFormats(formats) =>
      AtSplit(m, i, [|formats|], formats);
      ReadByte(m, i, |formats|);
      assert m[i + 1..i + 1 + |formats|] == formats;
    case Other(_, _) =>
  }

  lemma CollectHead(acc: Ja3, m: seq<byte>, i: nat, kind: u16, size: nat, end: nat)
    requires i + 4 + size <= end <= |m| && U16At(m, i) == kind && Len16At(m, i + 2) == size
    requires !Overruns(m, Item(kind, i + 4, size, true))
    ensures Collect(acc, m, Walk(m, i, end))
         == Collect(Add(acc, m, Item(kind, i + 4, size, true)), m, Walk(m, i + 4 + size, end))
  {
    assert Walk(m, i, end) == [Item(kind, i + 4, size, true)] + Walk(m, i + 4 + size, end);
  }

  lemma ReadExtension(m: seq<byte>, i: nat, e: Extension)
    requires ValidExtension(e) && At(m, i, ExtensionBytes(e))
    ensures i + 4 + |Body(e)| <= |m| && At(m, i + 4, Body(e))
    ensures U16At(m, i) == Kind(e) && Len16At(m, i + 2) == |Body(e)|
  {
    AtSplit(m, i, Enc16(Kind(e)) + Enc16(|Body(e)|), Body(e));
    AtSplit(m, i, Enc16(Kind(e)), Enc16(|Body(e)|));
    ReadU16(m, i, Kind(e));
    ReadU16(m, i + 2, |Body(e)|);
  }

  lemma CollectExtension(acc: Ja3, m: seq<byte>, i: nat, e: Extension, end: nat)
    requires ValidExtension(e) && At(m, i, ExtensionBytes(e)) && i + |ExtensionBytes(e)| <= end <= |m|
    ensures Collect(acc, m, Walk(m, i, end)) == Collect(Extend(acc, e), m, Walk(m, i + |ExtensionBytes(e)|, end))
  {
    ReadExtension(m, i, e);
    ReadBody(acc, m, i + 4, e);
    CollectHead(acc, m, i, Kind(e), |Body(e)|, end);
  }

  function ExtendAll(acc: Ja3, es: seq<Extension>): Ja3
    decreases |es|
  {
    if es == [] then acc else ExtendAll(Extend(acc, es[0]), es[1..])
  }

  lemma SplitFirst(m: seq<byte>, i: nat, es: seq<Extension>)
    requires ValidExtensions(es) && es != [] && At(m, i, ExtensionsBytes(es))
    ensures var head, rest := ExtensionBytes(es[0]), ExtensionsBytes(es[1..]);
      At(m, i, head) && At(m, i + |head|, rest) && |ExtensionsBytes(es)| == |head| + |rest|
  {
    AtSplit(m, i, ExtensionBytes(es[0]), ExtensionsBytes(es[1..]));
  }

  lemma {:induction false} CollectExtensions(acc: Ja3, m: seq<byte>, i: nat, es: seq<Extension>, end: nat)
    requires ValidExtensions(es) && At(m, i, ExtensionsBytes(es)) && end == i + |ExtensionsBytes(es)|
    ensures Collect(acc, m, Walk(m, i, end)) == Parsed(ExtendAll(acc, es))
    decreases |es|
  {
    if es != [] {
      SplitFirst(m, i, es);
      CollectExtension(acc, m, i, es[0], end);
      CollectExtensions(Extend(acc, es[0]), m, i + |ExtensionBytes(es[0])|, es[1..], end);
    }
  }

  lemma {:induction false} ExtendAllLists(acc: Ja3, es: seq<Extension>)
    ensures ExtendAll(acc, es)
         == acc.(extensions := acc.extensions + KindsOf(es),
                 groups := acc.groups + GroupsOf(es),
                 points := acc.points + PointsOf(es))
    decreases |es|
  {
    if es == [] {
      assert acc.extensions + [] == acc.extensions && acc.groups + [] == acc.groups && acc.points + [] == acc.points;
    } else {
      var acc' := Extend(acc, es[0]);
      ExtendAllLists(acc', es[1..]);
      assert acc'.extensions + KindsOf(es[1..]) == acc.extensions + KindsOf(es);
      assert acc'.groups + GroupsOf(es[1..]) == acc.groups + GroupsOf(es);
      assert acc'.points + PointsOf(es[1..]) == acc.points + PointsOf(es);
    }
  }

  lemma EvenCiphers(m: seq<byte>, i: nat, ciphers: seq<u16>, version: u16)
    requires i + 2 + 2 * |ciphers| <= |m| && U16At(m, i) == 2 * |ciphers|
    requires U16s(m, i + 2, |ciphers|) == ciphers
    ensures CiphersOn(m, i, version) == CompressionOn(m, i + 2 + 2 * |ciphers|, version, ciphers)
  {
    assert (Len16At(m, i) + 1) / 2 == |ciphers|;
  }

  lemma ReadCiphers(m: seq<byte>, i: nat, h: Hello, version: u16)
    requires ValidHello(h) && At(m, i, CipherBytes(h))
    ensures CiphersOn(m, i, version) == CompressionOn(m, i + |CipherBytes(h)|, version, h.ciphers)
  {
    AtSplit(m, i, Enc16(2 * |h.ciphers|), EncU16s(h.ciphers));
    ReadU16(m, i, 2 * |h.ciphers|);
    ReadU16s(m, i + 2, h.ciphers);
    EvenCiphers(m, i, h.ciphers, version);
  }

  lemma ReadCompression(m: seq<byte>, i: nat, h: Hello, version: u16, size: nat)
    requires ValidHello(h) && size < 0x1_0000
    requires At(m, i, CompressionBytes(h)) && At(m, i + |CompressionBytes(h)|, Enc16(size))
    requires i + |CompressionBytes(h)| + 2 + size <= |m|
    ensures var at := i + |CompressionBytes(h)| + 2;
      CompressionOn(m, i, version, h.ciphers) == Reached(version, h.ciphers, at, at + size)
  {
    AtSplit(m, i, [|h.compression|], h.compression);
    ReadByte(m, i, |h.compression|);
    ReadU16(m, i + |CompressionBytes(h)|, size);
  }

  lemma Places(m: seq<byte>, h: Hello)
    requires ValidHello(h) && At(m, 0, Serialize(h))
    ensures var e, p, c, o := ExtensionsBytes(h.extensions), |Preamble(h)|, |CipherBytes(h)|, |CompressionBytes(h)|;
      && |Serialize(h)| == p + c + o + 2 + |e| <= |m|
      && At(m, 0, Preamble(h))
      && At(m, p, CipherBytes(h))
      && At(m, p + c, CompressionBytes(h))
      && At(m, p + c + o, Enc16(|e|))
  {
    var e := ExtensionsBytes(h.extensions);
    var p, c, o := Preamble(h), CipherBytes(h), CompressionBytes(h);
    AtSplit(m, 0, p + c + o + Enc16(|e|), e);
    AtSplit(m, 0, p + c + o, Enc16(|e|));
    AtSplit(m, 0, p + c, o);
    AtSplit(m, 0, p, c);
  }

  lemma ReadHeader(m: seq<byte>, h: Hello)
    requires ValidHello(h) && At(m, 0, Serialize(h))
    ensures m[0] == CLIENT_HELLO
    ensures var at := |Serialize(h)|;
      ParseHeader(m) == Reached(h.version, h.ciphers, at - |ExtensionsBytes(h.extensions)|, at)
  {
    var p := |Preamble(h)|;
    Places(m, h);
    ReadPreamble(m, h);
    ReadCiphers(m, p, h, h.version);
    ReadCompression(m, p + |CipherBytes(h)|, h, h.version, |ExtensionsBytes(h.extensions)|);
  }

  lemma PreambleBytes(m: seq<byte>, h: Hello)
    requires ValidHello(h) && At(m, 0, Preamble(h))
    ensures |Preamble(h)| == 39 + |h.session| <= |m|
    ensures m[0] == CLIENT_HELLO && U16At(m, 4) == h.version && Len8At(m, 38) == |h.session|
  {
    var a, v := [CLIENT_HELLO] + h.length, Enc16(h.version);
    AtSplit(m, 0, a + v + h.random + [|h.session|], h.session);
    AtSplit(m, 0, a + v + h.random, [|h.session|]);
    AtSplit(m, 0, a + v, h.random);
    AtSplit(m, 0, a, v);
    AtSplit(m, 0, [CLIENT_HELLO], h.length);
    ReadU16(m, 4, h.version);
    ReadByte(m, 0, CLIENT_HELLO);
    ReadByte(m, 38, |h.session|);
  }

  lemma ReadPreamble(m: seq<byte>, h: Hello)
    requires ValidHello(h) && |m| >= |Preamble(h)| + 4 && At(m, 0, Preamble(h))
    ensures m[0] == CLIENT_HELLO
    ensures ParseHeader(m) == CiphersOn(m, |Preamble(h)|, h.version)
  {
    PreambleBytes(m, h);
  }

  /** An optional five-byte record header in front of the message. */
  predicate RecordHeader(header: seq<byte>)
  {
    header == [] || (|header| == 5 && header[0] == 22)
  }

  lemma ExtensionsPlace(m: seq<byte>, h: Hello)
    requires ValidHello(h) && At(m, 0, Serialize(h))
    ensures var e := ExtensionsBytes(h.extensions);
      |Serialize(h)| <= |m| && At(m, |Serialize(h)| - |e|, e)
  {
    var e := ExtensionsBytes(h.extensions);
    AtSplit(m, 0, Preamble(h) + CipherBytes(h) + CompressionBytes(h) + Enc16(|e|), e);
  }

  lemma ReadExtensions(m: seq<byte>, h: Hello, i: nat)
    requires ValidHello(h) && At(m, i, ExtensionsBytes(h.extensions))
    ensures Collect(Ja3(h.version, h.ciphers, [], [], []), m, Walk(m, i, i + |ExtensionsBytes(h.extensions)|))
         == Parsed(Fingerprint(h))
  {
    var none := Ja3(h.version, h.ciphers, [], [], []);
    CollectExtensions(none, m, i, h.extensions, i + |ExtensionsBytes(h.extensions)|);
    ExtendAllLists(none, h.extensions);
    assert Fingerprint(h) == ExtendAll(none, h.extensions);
  }

  lemma ParseReached(m: seq<byte>, version: u16, ciphers: seq<u16>, start: nat, end: nat)
    requires start <= end <= |m| && ParseHeader(m) == Reached(version, ciphers, start, end)
    ensures ParseHandshake(m) == Collect(Ja3(version, ciphers, [], [], []), m, Walk(m, start, end))
  {}

  lemma ParseFromHeader(m: seq<byte>, h: Hello, start: nat, end: nat)
    requires ValidHello(h) && At(m, start, ExtensionsBytes(h.extensions))
    requires end == start + |ExtensionsBytes(h.extensions)| <= |m|
    requires ParseHeader(m) == Reached(h.version, h.ciphers, start, end)
    ensures ParseHandshake(m) == Parsed(Fingerprint(h))
  {
    ReadExtensions(m, h, start);
    ParseReached(m, h.version, h.ciphers, start, end);
  }

  lemma ParseMessage(m: seq<byte>, h: Hello)
    requires ValidHello(h) && At(m, 0, Serialize(h))
    ensures m[0] == CLIENT_HELLO && ParseHandshake(m) == Parsed(Fingerprint(h))
  {
    ReadHeader(m, h);
    ExtensionsPlace(m, h);
    var end := |Serialize(h)|;
    ParseFromHeader(m, h, end - |ExtensionsBytes(h.extensions)|, end);
  }

  /** Parsing a well-formed ClientHello, with or without its record header and with any bytes
      after it, gives its fingerprint. The random, the session id, the compression methods, the
      handshake length and the trailing bytes do not occur in the result. */
  lemma ParseSerialized(header: seq<byte>, h: Hello, trailing: seq<byte>)
    requires RecordHeader(header) && ValidHello(h)
    ensures Parse(header + Serialize(h) + trailing) == Parsed(Fingerprint(h))
  {
    var raw := header + Serialize(h) + trailing;
    var m := raw[|header|..];
    assert m == Serialize(h) + trailing;
    assert At(m, 0, Serialize(h) + trailing);
    AtSplit(m, 0, Serialize(h), trailing);
    ParseMessage(m, h);
    assert header == [] ==> raw == m;
  }
}
