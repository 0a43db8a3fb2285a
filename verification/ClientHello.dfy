/** The TLS ClientHello parser behind the JA3 fingerprint. `Parse` states what the parser
    returns in closed form, and `BuildJa3FromRaw` is the cursor loop, proved against it. */
module ClientHello {
  import opened Text

  type u16 = x: int | 0 <= x < 0x1_0000

  datatype Ja3 = Ja3(version: u16, ciphers: seq<u16>, extensions: seq<u16>, groups: seq<u16>, points: seq<byte>)

  datatype ParseError =
    | NotClientHello
    | TruncatedVersion
    | TruncatedRandom
    | TruncatedCipherSuites
    | TruncatedCipherEntry
    | TruncatedCompression
    | NoExtensions

  /** `IndexPanic` is Go's run-time error for an index out of range. */
  datatype Outcome = Parsed(ja3: Ja3) | Failed(error: ParseError) | IndexPanic

  const HANDSHAKE_RECORD: byte := 0x16
  const CLIENT_HELLO: byte := 0x01
  const SUPPORTED_GROUPS: u16 := 10
  const EC_POINT_FORMATS: u16 := 11

  function U16At(b: seq<byte>, i: nat): u16
    requires i + 2 <= |b|
  {
    (b[i] as int) * 256 + b[i + 1] as int
  }

  /** A one-byte and a two-byte length. */
  function Len8At(b: seq<byte>, i: nat): nat
    requires i < |b|
  {
    b[i] as int
  }

  function Len16At(b: seq<byte>, i: nat): nat
    requires i + 2 <= |b|
  {
    U16At(b, i) as int
  }

  function U16s(b: seq<byte>, from: nat, count: nat): (r: seq<u16>)
    requires from + 2 * count <= |b|
  {
    if count == 0 then [] else U16s(b, from, count - 1) + [U16At(b, from + 2 * count - 2)]
  }

  // ----- what the parser makes of an extension block

  /** One extension: its type, and the range `at..at + size` of its body, which is opened only
      when the block holds all of it. */
  datatype Item = Item(kind: u16, at: nat, size: nat, complete: bool)

  ghost predicate Inside(m: seq<byte>, items: seq<Item>)
  {
    forall e <- items :: e.complete ==> e.at + e.size <= |m|
  }

  /** The extensions of `m[pos..end]`. */
  function Walk(m: seq<byte>, pos: nat, end: nat): (items: seq<Item>)
    requires pos <= end <= |m|
    ensures Inside(m, items)
    decreases end - pos
  {
    if pos + 4 > end then []
    else
      var kind, at, size := U16At(m, pos), pos + 4, Len16At(m, pos + 2);
      if at + size > end then [Item(kind, at, size, false)]
      else [Item(kind, at, size, true)] + Walk(m, at + size, end)
  }

  /** How many groups a supported_groups body announces. */
  function Announced(m: seq<byte>, at: nat): nat
    requires at + 2 <= |m|
  {
    Len16At(m, at) / 2
  }

  /** The announced groups reach into an odd last byte. */
  predicate OverrunsBody(m: seq<byte>, at: nat, size: nat)
    requires at + size <= |m|
  {
    size >= 2 && size % 2 == 1 && Announced(m, at) > (size - 2) / 2
  }

  predicate Overruns(m: seq<byte>, item: Item)
    requires item.complete ==> item.at + item.size <= |m|
  {
    item.kind == SUPPORTED_GROUPS && item.complete && OverrunsBody(m, item.at, item.size)
  }

  function GroupList(m: seq<byte>, at: nat, size: nat): seq<u16>
    requires at + size <= |m|
  {
    if size < 2 then [] else U16s(m, at + 2, Min(Announced(m, at), (size - 2) / 2))
  }

  function PointList(m: seq<byte>, at: nat, size: nat): seq<byte>
    requires at + size <= |m|
  {
    if size < 1 then [] else m[at + 1..at + 1 + Min(Len8At(m, at), size - 1)]
  }

  /** What one extension adds to a fingerprint. */
  function Add(acc: Ja3, m: seq<byte>, item: Item): Ja3
    requires item.complete ==> item.at + item.size <= |m|
  {
    var acc' := acc.(extensions := acc.extensions + [item.kind]);
    if !item.complete then acc'
    else if item.kind == SUPPORTED_GROUPS then acc'.(groups := acc.groups + GroupList(m, item.at, item.size))
    else if item.kind == EC_POINT_FORMATS then acc'.(points := acc.points + PointList(m, item.at, item.size))
    else acc'
  }

  function Collect(acc: Ja3, m: seq<byte>, items: seq<Item>): Outcome
    requires Inside(m, items)
    decreases |items|
  {
    if items == [] then Parsed(acc)
    else if Overruns(m, items[0]) then IndexPanic
    else Collect(Add(acc, m, items[0]), m, items[1..])
  }

  lemma {:induction false} CollectPanics(acc: Ja3, m: seq<byte>, items: seq<Item>)
    requires Inside(m, items)
    ensures Collect(acc, m, items).Parsed? || Collect(acc, m, items).IndexPanic?
    ensures Collect(acc, m, items).IndexPanic? <==> exists e <- items :: Overruns(m, e)
    decreases |items|
  {
    if items != [] {
      assert items == [items[0]] + items[1..];
      if !Overruns(m, items[0]) {
        CollectPanics(Add(acc, m, items[0]), m, items[1..]);
      }
    }
  }

  // ----- what the parser makes of a whole message

  function StripRecord(raw: seq<byte>): seq<byte>
  {
    if |raw| > 5 && raw[0] == HANDSHAKE_RECORD then raw[5..] else raw
  }

  /** What precedes the extensions: the version, the cipher suites, and where the extension
      block starts and ends, cut to the bytes there are; or why it was not reached. */
  datatype Header = Reached(version: u16, ciphers: seq<u16>, start: nat, end: nat) | Refused(error: ParseError)

  /** From the compression methods on. */
  function CompressionOn(m: seq<byte>, pos: nat, version: u16, ciphers: seq<u16>): (h: Header)
    ensures h.Reached? ==> h.start <= h.end <= |m|
  {
    if pos >= |m| then Refused(TruncatedCompression)
    else
      var at := pos + 1 + Len8At(m, pos);
      if at + 2 > |m| then Refused(NoExtensions)
      else Reached(version, ciphers, at + 2, Min(at + 2 + Len16At(m, at), |m|))
  }

  /** From the cipher suites on. An odd length makes the last suite read one byte further. */
  function CiphersOn(m: seq<byte>, pos: nat, version: u16): (h: Header)
    ensures h.Reached? ==> h.start <= h.end <= |m|
  {
    if pos + 2 > |m| then Refused(TruncatedCipherSuites)
    else
      var length := Len16At(m, pos);
      var count := (length + 1) / 2;
      if pos + 2 + 2 * count > |m| then Refused(TruncatedCipherEntry)
      else CompressionOn(m, pos + 2 + length, version, U16s(m, pos + 2, count))
  }

  /** From the version on, for a message of any length. */
  function VersionOn(m: seq<byte>): (h: Header)
    ensures h.Reached? ==> h.start <= h.end <= |m|
    ensures h == Refused(TruncatedVersion) <==> |m| < 6
    ensures h == Refused(TruncatedRandom) <==> 6 <= |m| < 39
  {
    if |m| < 6 then Refused(TruncatedVersion)
    else if |m| <= 38 then Refused(TruncatedRandom)
    else CiphersOn(m, 39 + Len8At(m, 38), U16At(m, 4))
  }

  function ParseHeader(m: seq<byte>): (h: Header)
    ensures h.Reached? ==> h.start <= h.end <= |m|
  {
    if |m| < 42 || m[0] != CLIENT_HELLO then Refused(NotClientHello) else VersionOn(m)
  }

  function Parse(raw: seq<byte>): Outcome { ParseHandshake(StripRecord(raw)) }

  function ParseHandshake(m: seq<byte>): Outcome { Finish(m, ParseHeader(m)) }

  function Finish(m: seq<byte>, h: Header): Outcome
    requires h.Reached? ==> h.start <= h.end <= |m|
  {
    match h
    case Refused(e) => Failed(e)
    case Reached(version, ciphers, start, end) => Collect(Ja3(version, ciphers, [], [], []), m, Walk(m, start, end))
  }

  /** The extensions the parser visits in `m`. */
  function Visited(m: seq<byte>): (items: seq<Item>)
    ensures Inside(m, items)
  {
    var h := ParseHeader(m);
    if h.Reached? then Walk(m, h.start, h.end) else []
  }

  /** The parser indexes out of range exactly on messages where it visits a supported_groups
      body of odd length that announces more groups than it holds. */
  lemma PanicsExactlyOnOddGroups(raw: seq<byte>)
    ensures var m := StripRecord(raw);
      Parse(raw).IndexPanic? <==> exists e <- Visited(m) :: Overruns(m, e)
  {
    var m := StripRecord(raw);
    var h := ParseHeader(m);
    if h.Reached? {
      CollectPanics(Ja3(h.version, h.ciphers, [], [], []), m, Visited(m));
    }
  }

  /** A ClientHello with one supported_groups extension, whose body of three bytes announces one
      group and holds half of it. */
  function HalfGroup(random: seq<byte>): seq<byte>
  {
    [1, 0, 0, 0, 3, 3] + random + [0, 0, 0, 0, 0, 7, 0, 10, 0, 3, 0, 2, 29]
  }

  lemma HalfGroupBytes(m: seq<byte>, random: seq<byte>)
    requires |random| == 32 && m == HalfGroup(random)
    ensures |m| == 51 && m[0] == CLIENT_HELLO && U16At(m, 4) == 0x0303
    ensures Len8At(m, 38) == 0 && Len16At(m, 39) == 0 && Len8At(m, 41) == 0 && Len16At(m, 42) == 7
    ensures U16At(m, 44) == SUPPORTED_GROUPS && Len16At(m, 46) == 3 && Len16At(m, 48) == 2
  {
    assert m[38..] == [0, 0, 0, 0, 0, 7, 0, 10, 0, 3, 0, 2, 29];
    assert forall i :: 38 <= i < 51 ==> m[i] == m[38..][i - 38];
  }

  lemma HalfGroupPanics(random: seq<byte>)
    requires |random| == 32
    ensures Parse(HalfGroup(random)).IndexPanic?
  {
    var m := HalfGroup(random);
    HalfGroupBytes(m, random);
    assert CompressionOn(m, 41, 0x0303, []) == Reached(0x0303, [], 44, 51);
    assert ParseHeader(m) == Reached(0x0303, [], 44, 51);
    assert Walk(m, 44, 51)[0] == Item(SUPPORTED_GROUPS, 48, 3, true);
    assert Overruns(m, Item(SUPPORTED_GROUPS, 48, 3, true));
  }

  /** A message that is cut before the cipher suites is refused with one of two errors of their
      own, but the length check at the start comes first, so that neither is ever returned. */
  lemma NeverTruncatedVersionOrRandom(raw: seq<byte>)
    ensures Parse(raw) != Failed(TruncatedVersion) && Parse(raw) != Failed(TruncatedRandom)
  {
    var m := StripRecord(raw);
    var h := ParseHeader(m);
    if h.Reached? {
      CollectPanics(Ja3(h.version, h.ciphers, [], [], []), m, Visited(m));
    }
  }

  // ----- the cursor loop

  /** The loop over the body `raw[at..at + size]` of a supported_groups extension; `None` is
      the index panic. */
  method ReadGroups(raw: seq<byte>, at: nat, size: nat, curves: seq<u16>) returns (r: Option<seq<u16>>)
    requires at + size <= |raw|
    ensures r == if OverrunsBody(raw, at, size) then None else Some(curves + GroupList(raw, at, size))
  {
    var out := curves;
    assert curves + [] == curves;
    if size >= 2 {
      var clen := Len16At(raw, at);
      var i := 0;
      while i + 1 < clen && 2 + i < size
        invariant 0 <= i && i % 2 == 0
        invariant i <= 2 * Announced(raw, at) && i <= size - 2
        invariant out == curves + U16s(raw, at + 2, i / 2)
      {
        if 3 + i >= size {
          return None;
        }
        out := out + [U16At(raw, at + 2 + i)];
        i := i + 2;
      }
      assert i / 2 == Min(Announced(raw, at), (size - 2) / 2);
    }
    return Some(out);
  }

  method ReadPoints(raw: seq<byte>, at: nat, size: nat, points: seq<byte>) returns (out: seq<byte>)
    requires at + size <= |raw|
    ensures out == points + PointList(raw, at, size)
  {
    out := points;
    if size >= 1 {
      var plen := Len8At(raw, at);
      var i := 0;
      while i < plen && 1 + i < size
        invariant 0 <= i <= plen && 1 + i <= size
        invariant out == points + raw[at + 1..at + 1 + i]
      {
        out := out + [raw[at + 1 + i]];
        i := i + 1;
      }
    }
  }

  method ReadExtensions(raw: seq<byte>, start: nat, end: nat, version: u16, ciphers: seq<u16>) returns (r: Outcome)
    requires start <= end <= |raw|
    ensures r == Collect(Ja3(version, ciphers, [], [], []), raw, Walk(raw, start, end))
  {
    var pos := start;
    var exts: seq<u16>, curves: seq<u16>, points: seq<byte> := [], [], [];
    while pos + 4 <= end
      invariant start <= pos <= end
      invariant Collect(Ja3(version, ciphers, exts, curves, points), raw, Walk(raw, pos, end))
             == Collect(Ja3(version, ciphers, [], [], []), raw, Walk(raw, start, end))
    {
      ghost var rest := Walk(raw, pos, end);
      var extType := U16At(raw, pos);
      exts := exts + [extType];
      var elen := Len16At(raw, pos + 2);
      pos := pos + 4;
      if pos + elen > end {
        assert rest == [Item(extType, pos, elen, false)];
        break;
      }
      assert rest[0] == Item(extType, pos, elen, true) && rest[1..] == Walk(raw, pos + elen, end);
      if extType == SUPPORTED_GROUPS {
        var c := ReadGroups(raw, pos, elen, curves);
        if c.None? {
          return IndexPanic;
        }
        curves := c.value;
      } else if extType == EC_POINT_FORMATS {
        points := ReadPoints(raw, pos, elen, points);
      }
      pos := pos + elen;
    }
    return Parsed(Ja3(version, ciphers, exts, curves, points));
  }

  method ReadCiphers(raw: seq<byte>, pos: nat, csLen: nat) returns (r: Option<seq<u16>>)
    requires pos <= |raw|
    ensures var count := (csLen + 1) / 2;
            r == if pos + 2 * count > |raw| then None else Some(U16s(raw, pos, count))
  {
    var ciphers: seq<u16> := [];
    var i := 0;
    while i < csLen
      invariant 0 <= i <= csLen + 1 && i % 2 == 0
      invariant pos + i <= |raw|
      invariant ciphers == U16s(raw, pos, i / 2)
    {
      if pos + i + 1 >= |raw| {
        return None;
      }
      ciphers := ciphers + [U16At(raw, pos + i)];
      i := i + 2;
    }
    assert i / 2 == (csLen + 1) / 2;
    return Some(ciphers);
  }

  /** From the compression methods to the end. */
  method BuildFromCompression(raw: seq<byte>, start: nat, vers: u16, ciphers: seq<u16>) returns (r: Outcome)
    ensures r == Finish(raw, CompressionOn(raw, start, vers, ciphers))
  {
    var pos := start;
    if pos >= |raw| {
      return Failed(TruncatedCompression);
    }
    var compLen := Len8At(raw, pos);
    pos := pos + 1;
    pos := pos + compLen;
    if pos + 2 > |raw| {
      return Failed(NoExtensions);
    }
    var extLen := Len16At(raw, pos);
    pos := pos + 2;
    if pos + extLen > |raw| {
      extLen := |raw| - pos;
    }
    assert CompressionOn(raw, start, vers, ciphers) == Reached(vers, ciphers, pos, pos + extLen);
    r := ReadExtensions(raw, pos, pos + extLen, vers, ciphers);
  }

  /** From the version to the end. */
  method BuildFromVersion(raw: seq<byte>) returns (r: Outcome)
    ensures r == Finish(raw, VersionOn(raw))
  {
    var pos := 4;
    if pos + 2 > |raw| {
      return Failed(TruncatedVersion);
    }
    var vers := U16At(raw, pos);
    pos := pos + 2;
    pos := pos + 32;
    if pos >= |raw| {
      return Failed(TruncatedRandom);
    }
    var sessLen := Len8At(raw, pos);
    pos := pos + 1;
    pos := pos + sessLen;
    if pos + 2 > |raw| {
      return Failed(TruncatedCipherSuites);
    }
    var csLen := Len16At(raw, pos);
    pos := pos + 2;
    var read := ReadCiphers(raw, pos, csLen);
    if read.None? {
      return Failed(TruncatedCipherEntry);
    }
    var ciphers := read.value;
    pos := pos + csLen;
    r := BuildFromCompression(raw, pos, vers, ciphers);
  }

  method BuildJa3FromHandshake(raw: seq<byte>) returns (r: Outcome)
    ensures r == ParseHandshake(raw)
  {
    if |raw| < 42 || raw[0] != CLIENT_HELLO {
      return Failed(NotClientHello);
    }
    r := BuildFromVersion(raw);
  }

  method BuildJa3FromRaw(packet: seq<byte>) returns (r: Outcome)
    ensures r == Parse(packet)
  {
    var raw := packet;
    if |raw| > 5 && raw[0] == HANDSHAKE_RECORD {
      raw := raw[5..];
    }
    r := BuildJa3FromHandshake(raw);
  }
}
