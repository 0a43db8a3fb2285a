/** The budgeted scan of process memory: at most one block of each readable region is read, and
    at most one hit of it is reported, until a byte or a hit budget is used up. */
module ProcessSearch {
  import opened Text

  const BLOCK: nat := 4096

  type Bytes = seq<byte>

  datatype Region = Region(start: int, end: int, perms: string)

  datatype Hit = Hit(address: int, perms: string)

  /** Reading n bytes at an address: `None` is an error that yields no bytes to search. */
  type Memory = (int, nat) -> Option<Bytes>

  ghost predicate WellBehaved(mem: Memory)
  {
    forall at: int, n: nat :: n > 0 && mem(at, n).Some? ==> 0 < |mem(at, n).value| <= n
  }

  /** One decoded character or invalid byte, and the encoding of what strings.ToLower makes of it. */
  datatype Piece = Piece(raw: Bytes, folded: Bytes)

  /** `decode` is how strings.ToLower takes bytes apart that are not all ASCII. */
  datatype Query = Query(needle: Bytes, maxTotal: int, maxHits: int, caseInsensitive: bool, decode: Bytes -> seq<Piece>)

  predicate Ascii(data: Bytes) { forall b <- data :: b < 0x80 }

  function LowerByte(b: byte): byte { if 0x41 <= b <= 0x5A then b + 0x20 else b }

  function LowerBytes(data: Bytes): (r: Bytes)
    ensures |r| == |data|
  {
    seq(|data|, i requires 0 <= i < |data| => LowerByte(data[i]))
  }

  function RawOf(ps: seq<Piece>): Bytes
  {
    if ps == [] then [] else RawOf(ps[..|ps| - 1]) + ps[|ps| - 1].raw
  }

  function FoldedOf(ps: seq<Piece>): Bytes
  {
    if ps == [] then [] else FoldedOf(ps[..|ps| - 1]) + ps[|ps| - 1].folded
  }

  /** strings.ToLower has a path of its own for ASCII. */
  function Lower(q: Query, data: Bytes): Bytes
  {
    if !q.caseInsensitive then data
    else if Ascii(data) then LowerBytes(data)
    else FoldedOf(q.decode(data))
  }

  predicate OccursAt(data: Bytes, needle: Bytes, i: nat)
  {
    i + |needle| <= |data| && data[i..i + |needle|] == needle
  }

  /** bytes.Index: the least index at which the needle occurs. */
  function IndexOf(data: Bytes, needle: Bytes): (r: Option<nat>)
    ensures r.Some? ==> OccursAt(data, needle, r.value) && forall k :: 0 <= k < r.value ==> !OccursAt(data, needle, k)
    ensures r.None? ==> forall k: nat :: !OccursAt(data, needle, k)
  {
    IndexFrom(data, needle, 0)
  }

  function IndexFrom(data: Bytes, needle: Bytes, i: nat): (r: Option<nat>)
    ensures r.Some? ==>
      i <= r.value && OccursAt(data, needle, r.value) && forall k :: i <= k < r.value ==> !OccursAt(data, needle, k)
    ensures r.None? ==> forall k: nat :: i <= k ==> !OccursAt(data, needle, k)
    decreases |data| - i
  {
    if i > |data| then None
    else if OccursAt(data, needle, i) then Some(i)
    else if i == |data| then None
    else IndexFrom(data, needle, i + 1)
  }

  // ----- the scan as a fold

  /** What has been read so far, and from which regions. */
  datatype State = State(total: int, hits: seq<Hit>, scans: seq<Scan>)

  datatype Scan = Scan(region: Region, data: Bytes)

  function Max(a: int, b: int): int { if a < b then b else a }

  /** The number of bytes asked of a region. */
  function Wanted(q: Query, total: int, r: Region): (n: nat)
    requires r.start < r.end && total < q.maxTotal
    ensures 0 < n <= BLOCK && n <= r.end - r.start && n <= q.maxTotal - total
  {
    Min(BLOCK, Min(r.end - r.start, q.maxTotal - total))
  }

  /** The whole block, or the rest of the region, or the rest of the byte budget. */
  lemma WantedIs(q: Query, total: int, r: Region)
    requires r.start < r.end && total < q.maxTotal
    ensures Wanted(q, total, r) in {4096, r.end - r.start, q.maxTotal - total}
    ensures Wanted(q, total, r) <= 4096
  {}

  predicate Stops(q: Query, s: State) { s.total >= q.maxTotal || |s.hits| >= q.maxHits }

  function ReadRegion(mem: Memory, q: Query, s: State, r: Region): Option<Bytes>
    requires !Stops(q, s)
  {
    if r.end <= r.start then None else mem(r.start, Wanted(q, s.total, r))
  }

  function HitIn(q: Query, scan: Scan): Option<Hit>
  {
    match IndexOf(Lower(q, scan.data), Lower(q, q.needle))
    case None => None
    case Some(i) => Some(Hit(scan.region.start + i, scan.region.perms))
  }

  function Step(mem: Memory, q: Query, s: State, r: Region): State
    requires !Stops(q, s)
  {
    match ReadRegion(mem, q, s, r)
    case None => s
    case Some(data) =>
      var scan := Scan(r, data);
      State(s.total + |data|,
            if HitIn(q, scan).Some? then s.hits + [HitIn(q, scan).value] else s.hits,
            s.scans + [scan])
  }

  function Search(mem: Memory, q: Query, s: State, regions: seq<Region>): State
    decreases |regions|
  {
    if regions == [] || Stops(q, s) then s
    else Search(mem, q, Step(mem, q, s, regions[0]), regions[1..])
  }

  const Nothing := State(0, [], [])

  lemma SearchOn(mem: Memory, q: Query, s: State, regions: seq<Region>, i: nat)
    requires i < |regions| && !Stops(q, s)
    ensures Search(mem, q, s, regions[i..]) == Search(mem, q, Step(mem, q, s, regions[i]), regions[i + 1..])
  {
    assert regions[i..][0] == regions[i] && regions[i..][1..] == regions[i + 1..];
  }

  lemma SearchEnds(mem: Memory, q: Query, s: State, regions: seq<Region>, i: nat)
    requires i <= |regions| && (i == |regions| || Stops(q, s))
    ensures Search(mem, q, s, regions[i..]) == s
  {}

  /** One region: `s` is the state of the fold before it. */
  method ScanRegion(
      mem: Memory, q: Query, needle: Bytes, r: Region, hits: seq<Hit>, totalRead: int, ghost s: State)
    returns (hits': seq<Hit>, totalRead': int)
    requires !Stops(q, s) && s.hits == hits && s.total == totalRead && needle == Lower(q, q.needle)
    ensures hits' == Step(mem, q, s, r).hits && totalRead' == Step(mem, q, s, r).total
  {
    hits', totalRead' := hits, totalRead;
    var segSize := r.end - r.start;
    if segSize <= 0 {
      return;
    }
    if segSize > q.maxTotal - totalRead {
      segSize := q.maxTotal - totalRead;
    }
    var block := mem(r.start, if BLOCK < segSize then BLOCK else segSize);
    assert block == ReadRegion(mem, q, s, r);
    if block.None? {
      return;
    }
    var data := Lower(q, block.value);
    var idx := IndexOf(data, needle);
    if idx.Some? {
      hits' := hits' + [Hit(r.start + idx.value, r.perms)];
    }
    totalRead' := totalRead' + |block.value|;
  }

  method ProcessSearchText(mem: Memory, q: Query, regions: seq<Region>)
    returns (found: Option<(seq<Hit>, int)>)
    requires WellBehaved(mem)
    ensures found.None? <==> q.needle == []
    ensures found.Some? ==>
      found.value.0 == Search(mem, q, Nothing, regions).hits && found.value.1 == Search(mem, q, Nothing, regions).total
  {
    if |q.needle| == 0 {
      return None;
    }
    var needle := Lower(q, q.needle);
    var hits: seq<Hit> := [];
    var totalRead := 0;
    ghost var s := Nothing;
    var i := 0;
    while i < |regions|
      invariant 0 <= i <= |regions|
      invariant s.hits == hits && s.total == totalRead
      invariant Search(mem, q, s, regions[i..]) == Search(mem, q, Nothing, regions)
    {
      if totalRead >= q.maxTotal || |hits| >= q.maxHits {
        break;
      }
      SearchOn(mem, q, s, regions, i);
      hits, totalRead := ScanRegion(mem, q, needle, regions[i], hits, totalRead, s);
      s := Step(mem, q, s, regions[i]);
      i := i + 1;
      if |hits| >= q.maxHits {
        break;
      }
    }
    SearchEnds(mem, q, s, regions, i);
    return Some((hits, totalRead));
  }

  // ----- budgets

  function TotalOf(scans: seq<Scan>): nat
  {
    if scans == [] then 0 else TotalOf(scans[..|scans| - 1]) + |scans[|scans| - 1].data|
  }

  function HitsOf(q: Query, scans: seq<Scan>): seq<Hit>
  {
    if scans == [] then []
    else
      var last := HitIn(q, scans[|scans| - 1]);
      HitsOf(q, scans[..|scans| - 1]) + if last.Some? then [last.value] else []
  }

  /** The totals are those of the scans made, within the budgets, and each scan is the start of
      its region. */
  ghost predicate Accounted(mem: Memory, q: Query, s: State)
  {
    && s.total == TotalOf(s.scans) <= Max(0, q.maxTotal)
    && s.hits == HitsOf(q, s.scans) && |s.hits| <= Max(0, q.maxHits)
    && forall c <- s.scans ::
         && 0 < |c.data| <= BLOCK && |c.data| <= c.region.end - c.region.start
         && exists n: nat ::
              0 < n <= BLOCK && n <= c.region.end - c.region.start && mem(c.region.start, n) == Some(c.data)
  }

  lemma StepAccounted(mem: Memory, q: Query, s: State, r: Region)
    requires WellBehaved(mem) && Accounted(mem, q, s) && !Stops(q, s)
    ensures Accounted(mem, q, Step(mem, q, s, r))
  {
    var s' := Step(mem, q, s, r);
    if s' != s {
      assert s'.scans[..|s'.scans| - 1] == s.scans;
      var last := HitIn(q, s'.scans[|s'.scans| - 1]);
      assert HitsOf(q, s'.scans) == HitsOf(q, s.scans) + if last.Some? then [last.value] else [];
    }
  }

  lemma {:induction false} SearchAccounted(mem: Memory, q: Query, s: State, regions: seq<Region>)
    requires WellBehaved(mem) && Accounted(mem, q, s)
    ensures Accounted(mem, q, Search(mem, q, s, regions))
    decreases |regions|
  {
    if regions != [] && !Stops(q, s) {
      StepAccounted(mem, q, s, regions[0]);
      SearchAccounted(mem, q, Step(mem, q, s, regions[0]), regions[1..]);
    }
  }

  /** The bytes read are those of the scanned region starts, never more than `maxTotal`; the hits
      are the first occurrences in them, never more than `maxHits`. */
  lemma BudgetsKept(mem: Memory, q: Query, regions: seq<Region>)
    requires WellBehaved(mem)
    ensures Accounted(mem, q, Search(mem, q, Nothing, regions))
  {
    SearchAccounted(mem, q, Nothing, regions);
  }

  // ----- exactness

  /** The same byte, or a capital letter of ASCII and its small letter. */
  predicate SameLetter(x: byte, y: byte)
  {
    x == y || (65 <= x <= 90 && y == x + 32) || (65 <= y <= 90 && x == y + 32)
  }

  /** The needle as it was given, or up to the case of ASCII letters. */
  predicate Same(q: Query, a: Bytes, b: Bytes)
  {
    if q.caseInsensitive then |a| == |b| && forall i :: 0 <= i < |a| ==> SameLetter(a[i], b[i]) else a == b
  }

  lemma LowerIsSame(a: Bytes, b: Bytes)
    ensures LowerBytes(a) == LowerBytes(b) <==> |a| == |b| && forall i :: 0 <= i < |a| ==> SameLetter(a[i], b[i])
  {
    var x, y := LowerBytes(a), LowerBytes(b);
    if |a| == |b| {
      forall i | 0 <= i < |a| ensures x[i] == y[i] <==> SameLetter(a[i], b[i]) {}
      if forall i :: 0 <= i < |a| ==> SameLetter(a[i], b[i]) {
        assert x == y;
      }
    }
  }

  predicate NeedleAt(q: Query, data: Bytes, i: nat)
  {
    i + |q.needle| <= |data| && Same(q, data[i..i + |q.needle|], q.needle)
  }

  lemma LowerSlice(q: Query, data: Bytes, i: nat)
    requires q.caseInsensitive ==> Ascii(data) && Ascii(q.needle)
    ensures OccursAt(Lower(q, data), Lower(q, q.needle), i) <==> NeedleAt(q, data, i)
  {
    var n := |q.needle|;
    if q.caseInsensitive && i + n <= |data| {
      assert LowerBytes(data)[i..i + n] == LowerBytes(data[i..i + n]);
      LowerIsSame(data[i..i + n], q.needle);
    }
  }

  /** A hit is at the least place in the scanned bytes where the needle stands, and a scan
      without a hit has no such place; with case folding this is for ASCII bytes. */
  lemma HitsAreExact(q: Query, scan: Scan)
    requires q.caseInsensitive ==> Ascii(scan.data) && Ascii(q.needle)
    ensures match HitIn(q, scan)
      case None => forall k: nat :: !NeedleAt(q, scan.data, k)
      case Some(h) =>
        && h.perms == scan.region.perms && h.address >= scan.region.start
        && NeedleAt(q, scan.data, h.address - scan.region.start)
        && (forall k: nat :: k < h.address - scan.region.start ==> !NeedleAt(q, scan.data, k))
  {
    forall k: nat ensures OccursAt(Lower(q, scan.data), Lower(q, q.needle), k) <==> NeedleAt(q, scan.data, k) {
      LowerSlice(q, scan.data, k);
    }
  }

  // ----- folding beyond ASCII

  predicate Continuation(b: byte) { 0x80 <= b < 0xC0 }

  /** The UTF-8 encoding of one character starts with its only byte that is not a continuation. */
  predicate OneCharacter(b: Bytes)
  {
    b != [] && !Continuation(b[0]) && forall i :: 1 <= i < |b| ==> Continuation(b[i])
  }

  ghost predicate Pieces(ps: seq<Piece>)
  {
    forall p <- ps :: p.raw != [] && OneCharacter(p.folded)
  }

  /** The pieces are a decomposition of the bytes, each folded to one character. */
  ghost predicate DecodesCharacters(q: Query)
  {
    forall data :: RawOf(q.decode(data)) == data && Pieces(q.decode(data))
  }

  /** The pieces of any bytes; on ASCII each byte is one. */
  function PiecesOf(q: Query, data: Bytes): seq<Piece>
  {
    if Ascii(data) then seq(|data|, i requires 0 <= i < |data| => Piece([data[i]], [LowerByte(data[i])]))
    else q.decode(data)
  }

  lemma {:induction false} AsciiPieces(q: Query, data: Bytes)
    requires Ascii(data)
    ensures RawOf(PiecesOf(q, data)) == data && FoldedOf(PiecesOf(q, data)) == LowerBytes(data)
    decreases |data|
  {
    if data != [] {
      var init := data[..|data| - 1];
      assert forall b <- init :: b in data;
      AsciiPieces(q, init);
      assert PiecesOf(q, data)[..|data| - 1] == PiecesOf(q, init);
      assert LowerBytes(data) == LowerBytes(init) + [LowerByte(data[|data| - 1])];
    }
  }

  /** Folding works piece by piece, and loses and adds no piece. */
  lemma FoldIsPiecewise(q: Query, data: Bytes)
    requires q.caseInsensitive && DecodesCharacters(q)
    ensures var ps := PiecesOf(q, data);
      RawOf(ps) == data && FoldedOf(ps) == Lower(q, data) && Pieces(ps)
  {
    if Ascii(data) {
      AsciiPieces(q, data);
      forall p <- PiecesOf(q, data) ensures p.raw != [] && OneCharacter(p.folded) {
        var i :| 0 <= i < |data| && p == Piece([data[i]], [LowerByte(data[i])]);
        assert data[i] in data;
      }
    }
  }

  /** A byte of the folded text that is not a continuation is the first of its piece. */
  lemma {:induction false} StartsPiece(ps: seq<Piece>, i: nat) returns (k: nat)
    requires Pieces(ps) && i < |FoldedOf(ps)| && !Continuation(FoldedOf(ps)[i])
    ensures k < |ps| && i == |FoldedOf(ps[..k])|
    decreases |ps|
  {
    var last := |ps| - 1;
    var before := |FoldedOf(ps[..last])|;
    if i < before {
      k := StartsPiece(ps[..last], i);
      assert ps[..last][..k] == ps[..k];
    } else {
      assert ps[last] in ps;
      assert FoldedOf(ps)[i] == ps[last].folded[i - before];
      k := last;
    }
  }

  lemma {:induction false} LaterPieceFurther(ps: seq<Piece>, j: nat, k: nat)
    requires Pieces(ps) && j < k <= |ps|
    ensures |FoldedOf(ps[..j])| < |FoldedOf(ps[..k])|
    decreases k
  {
    var last := k - 1;
    assert ps[..k][..last] == ps[..last] && ps[last] in ps;
    if j < last {
      LaterPieceFurther(ps, j, last);
    }
  }

  lemma NeedleStartsCharacter(q: Query)
    requires q.caseInsensitive && q.needle != [] && DecodesCharacters(q)
    ensures Lower(q, q.needle) != [] && !Continuation(Lower(q, q.needle)[0])
  {
    FoldIsPiecewise(q, q.needle);
    var ps := PiecesOf(q, q.needle);
    assert ps[..1][..0] == [] && ps[0] in ps;
    assert FoldedOf(ps[..1]) == ps[0].folded;
    FoldedPrefix(ps, 1);
  }

  lemma {:induction false} FoldedPrefix(ps: seq<Piece>, k: nat)
    requires k <= |ps|
    ensures FoldedOf(ps[..k]) <= FoldedOf(ps)
    decreases |ps|
  {
    if k < |ps| {
      FoldedPrefix(ps[..|ps| - 1], k);
      assert ps[..|ps| - 1][..k] == ps[..k];
    } else {
      assert ps[..k] == ps;
    }
  }

  /** The folded needle stands in the folded bytes from piece k on. */
  predicate StandsAt(q: Query, data: Bytes, k: nat)
  {
    var ps := PiecesOf(q, data);
    k < |ps| && OccursAt(FoldedOf(ps), Lower(q, q.needle), |FoldedOf(ps[..k])|)
  }

  predicate FirstAt(q: Query, data: Bytes, k: nat)
  {
    StandsAt(q, data, k) && forall j :: 0 <= j < k ==> !StandsAt(q, data, j)
  }

  lemma HitStartsPiece(q: Query, data: Bytes, i: nat) returns (k: nat)
    requires q.caseInsensitive && q.needle != [] && DecodesCharacters(q)
    requires IndexOf(Lower(q, data), Lower(q, q.needle)) == Some(i)
    ensures FirstAt(q, data, k) && i == |FoldedOf(PiecesOf(q, data)[..k])|
  {
    var ps, text, needle := PiecesOf(q, data), Lower(q, data), Lower(q, q.needle);
    FoldIsPiecewise(q, data);
    NeedleStartsCharacter(q);
    assert text[i] == text[i..i + |needle|][0] == needle[0];
    k := StartsPiece(ps, i);
    forall j | 0 <= j < k ensures !StandsAt(q, data, j) {
      LaterPieceFurther(ps, j, k);
    }
  }

  /** With case folding, for any bytes and any needle: there is a hit if and only if the needle
      stands at some character, up to case. */
  lemma FoldedHits(q: Query, scan: Scan)
    requires q.caseInsensitive && q.needle != [] && DecodesCharacters(q)
    ensures HitIn(q, scan).Some? <==> exists k :: FirstAt(q, scan.data, k)
    ensures HitIn(q, scan).None? ==> forall k :: !StandsAt(q, scan.data, k)
  {
    FoldIsPiecewise(q, scan.data);
    var found := IndexOf(Lower(q, scan.data), Lower(q, q.needle));
    if found.Some? {
      var k := HitStartsPiece(q, scan.data, found.value);
    }
  }

  /** The address reported for the first such character counts the folded bytes before it. So it
      is the address of that character if and only if the characters before it take as many bytes
      folded as they take in memory. */
  lemma FoldedAddress(q: Query, scan: Scan, k: nat)
    requires q.caseInsensitive && q.needle != [] && DecodesCharacters(q)
    requires FirstAt(q, scan.data, k)
    ensures var before := PiecesOf(q, scan.data)[..k];
      && HitIn(q, scan) == Some(Hit(scan.region.start + |FoldedOf(before)|, scan.region.perms))
      && (HitIn(q, scan).value.address == scan.region.start + |RawOf(before)| <==>
            |FoldedOf(before)| == |RawOf(before)|)
  {
    FoldIsPiecewise(q, scan.data);
    var found := IndexOf(Lower(q, scan.data), Lower(q, q.needle));
    var j := HitStartsPiece(q, scan.data, found.value);
    assert j == k;
  }

  lemma TwoPieces(a: Piece, b: Piece)
    ensures FoldedOf([a]) == a.folded && FoldedOf([a, b]) == a.folded + b.folded
  {
    assert [a][..0] == [] && [a, b][..1] == [a];
  }

  const INVALID_THEN_A: Bytes := [0xFF, 0x61]

  /** strings.ToLower makes U+FFFD of the invalid byte. */
  predicate ReplacesInvalid(q: Query)
  {
    && q.caseInsensitive && q.needle == [0x61]
    && q.decode(INVALID_THEN_A) == [Piece([0xFF], [0xEF, 0xBF, 0xBD]), Piece([0x61], [0x61])]
  }

  lemma AfterInvalidByte(q: Query)
    requires ReplacesInvalid(q)
    ensures FirstAt(q, INVALID_THEN_A, 1) && |FoldedOf(PiecesOf(q, INVALID_THEN_A)[..1])| == 3
    ensures NeedleAt(q, INVALID_THEN_A, 1)
  {
    assert INVALID_THEN_A[0] in INVALID_THEN_A;
    var ps := PiecesOf(q, INVALID_THEN_A);
    TwoPieces(ps[0], ps[1]);
    assert ps == [ps[0], ps[1]] && ps[..0] == [] && ps[..1] == [ps[0]];
    var text := FoldedOf(ps);
    assert Lower(q, q.needle) == [0x61];
    assert text[0..1] == [0xEF] && text[3..4] == [0x61];
    assert INVALID_THEN_A[1..2] == [0x61];
  }

  /** An invalid byte becomes the three bytes of U+FFFD, and the address reported for what follows
      is too high by two. */
  lemma FoldingShiftsAddress(q: Query, start: int)
    requires ReplacesInvalid(q) && DecodesCharacters(q)
    ensures HitIn(q, Scan(Region(start, start + 2, "r"), INVALID_THEN_A)) == Some(Hit(start + 3, "r"))
    ensures NeedleAt(q, INVALID_THEN_A, 1)
  {
    AfterInvalidByte(q);
    FoldedAddress(q, Scan(Region(start, start + 2, "r"), INVALID_THEN_A), 1);
  }

  // ----- completeness

  /** The region was reached with both budgets open, and the read made of it then was scanned, or
      failed. */
  ghost predicate Tried(mem: Memory, q: Query, before: State, r: Region, scans: seq<Scan>)
  {
    && !Stops(q, before)
    && (|| r.end <= r.start
        || (var read := mem(r.start, Wanted(q, before.total, r));
            read.None? || Scan(r, read.value) in scans))
  }

  lemma {:induction false} ScansGrow(mem: Memory, q: Query, s: State, regions: seq<Region>)
    ensures s.scans <= Search(mem, q, s, regions).scans
    decreases |regions|
  {
    if regions != [] && !Stops(q, s) {
      ScansGrow(mem, q, Step(mem, q, s, regions[0]), regions[1..]);
    }
  }

  lemma FirstTried(mem: Memory, q: Query, s: State, regions: seq<Region>)
    requires regions != [] && !Stops(q, s)
    ensures Tried(mem, q, s, regions[0], Search(mem, q, s, regions).scans)
  {
    var r, s' := regions[0], Step(mem, q, s, regions[0]);
    ScansGrow(mem, q, s', regions[1..]);
    if r.end > r.start {
      var read := mem(r.start, Wanted(q, s.total, r));
      if read.Some? {
        assert s'.scans[|s.scans|] == Scan(r, read.value);
        assert Search(mem, q, s, regions).scans[|s.scans|] == Scan(r, read.value);
      }
    }
  }

  /** If neither budget was used up, each region was reached with the state the search had after
      the regions before it, and the read made of it was scanned, or failed. */
  lemma {:induction false} AllRegionsTried(mem: Memory, q: Query, s: State, regions: seq<Region>, i: nat)
    requires i < |regions|
    requires Search(mem, q, s, regions).total < q.maxTotal && |Search(mem, q, s, regions).hits| < q.maxHits
    ensures Tried(mem, q, Search(mem, q, s, regions[..i]), regions[i], Search(mem, q, s, regions).scans)
    decreases |regions|
  {
    if i == 0 {
      FirstTried(mem, q, s, regions);
    } else {
      AllRegionsTried(mem, q, Step(mem, q, s, regions[0]), regions[1..], i - 1);
      assert regions[..i][1..] == regions[1..][..i - 1];
    }
  }

  // ----- memory that can be read everywhere

  /** Every read yields all the bytes asked for. */
  ghost predicate Readable(mem: Memory, bytes: int -> byte)
  {
    forall at: int, n: nat :: n > 0 ==> mem(at, n) == Some(BytesAt(bytes, at, n))
  }

  function BytesAt(bytes: int -> byte, at: int, n: nat): (data: Bytes)
    ensures |data| == n
  {
    seq(n, i => bytes(at + i))
  }

  /** The first 4096 bytes of each region that is not empty, in order. */
  function Blocks(bytes: int -> byte, regions: seq<Region>): seq<Scan>
    decreases |regions|
  {
    if regions == [] then []
    else
      var r := regions[0];
      if r.end <= r.start then Blocks(bytes, regions[1..])
      else
        [Scan(r, BytesAt(bytes, r.start, if r.end - r.start < 4096 then r.end - r.start else 4096))]
        + Blocks(bytes, regions[1..])
  }

  lemma {:induction false} TotalGrows(mem: Memory, q: Query, s: State, regions: seq<Region>)
    ensures s.total <= Search(mem, q, s, regions).total && |s.hits| <= |Search(mem, q, s, regions).hits|
    decreases |regions|
  {
    if regions != [] && !Stops(q, s) {
      TotalGrows(mem, q, Step(mem, q, s, regions[0]), regions[1..]);
    }
  }

  lemma AmpleStep(mem: Memory, bytes: int -> byte, q: Query, s: State, r: Region)
    requires Readable(mem, bytes) && !Stops(q, s) && Step(mem, q, s, r).total < q.maxTotal
    ensures Step(mem, q, s, r).scans == s.scans + Blocks(bytes, [r])
  {
    assert [r][1..] == [] && Blocks(bytes, []) == [];
    if r.start < r.end {
      assert mem(r.start, Wanted(q, s.total, r)) == Some(BytesAt(bytes, r.start, Wanted(q, s.total, r)));
    } else {
      assert s.scans + [] == s.scans;
    }
  }

  /** If no budget is used up, the scans are the first blocks of all regions that are not empty, in
      order. */
  lemma {:induction false} AmpleSearch(mem: Memory, bytes: int -> byte, q: Query, s: State, regions: seq<Region>)
    requires Readable(mem, bytes)
    requires Search(mem, q, s, regions).total < q.maxTotal && |Search(mem, q, s, regions).hits| < q.maxHits
    ensures Search(mem, q, s, regions).scans == s.scans + Blocks(bytes, regions)
    decreases |regions|
  {
    if regions == [] {
      assert s.scans + [] == s.scans;
    } else {
      TotalGrows(mem, q, s, regions);
      var r, s' := regions[0], Step(mem, q, s, regions[0]);
      TotalGrows(mem, q, s', regions[1..]);
      AmpleStep(mem, bytes, q, s, r);
      AmpleSearch(mem, bytes, q, s', regions[1..]);
      assert [r][1..] == [] && Blocks(bytes, []) == [];
      assert Blocks(bytes, regions) == Blocks(bytes, [r]) + Blocks(bytes, regions[1..]);
      assert (s.scans + Blocks(bytes, [r])) + Blocks(bytes, regions[1..])
          == s.scans + (Blocks(bytes, [r]) + Blocks(bytes, regions[1..]));
    }
  }

  lemma {:induction false} ScanHasItsHit(q: Query, scans: seq<Scan>, c: Scan)
    requires c in scans && HitIn(q, c).Some?
    ensures HitIn(q, c).value in HitsOf(q, scans)
  {
    var init, last := scans[..|scans| - 1], scans[|scans| - 1];
    assert scans == init + [last];
    if c in init {
      ScanHasItsHit(q, init, c);
    }
  }

  lemma {:induction false} RegionHasItsBlock(bytes: int -> byte, regions: seq<Region>, r: Region)
    requires r in regions && r.start < r.end
    ensures Scan(r, BytesAt(bytes, r.start, if r.end - r.start < 4096 then r.end - r.start else 4096))
         in Blocks(bytes, regions)
    decreases |regions|
  {
    assert regions == [regions[0]] + regions[1..];
    if regions[0] != r {
      RegionHasItsBlock(bytes, regions[1..], r);
    }
  }

  /** In such memory, a needle that lies wholly in the first 4096 bytes of a region is found: there
      is a hit in that region, at the needle or before it, unless a budget is used up. */
  lemma NeedleFound(mem: Memory, bytes: int -> byte, q: Query, regions: seq<Region>, r: Region, i: nat)
    requires Readable(mem, bytes) && r in regions && r.start < r.end
    requires var data := BytesAt(bytes, r.start, if r.end - r.start < 4096 then r.end - r.start else 4096);
      NeedleAt(q, data, i) && (q.caseInsensitive ==> Ascii(data) && Ascii(q.needle))
    ensures var s := Search(mem, q, Nothing, regions);
      || s.total >= q.maxTotal || |s.hits| >= q.maxHits
      || exists h <- s.hits :: r.start <= h.address <= r.start + i && h.perms == r.perms
  {
    var s := Search(mem, q, Nothing, regions);
    if s.total < q.maxTotal && |s.hits| < q.maxHits {
      var c := Scan(r, BytesAt(bytes, r.start, if r.end - r.start < 4096 then r.end - r.start else 4096));
      AmpleSearch(mem, bytes, q, Nothing, regions);
      RegionHasItsBlock(bytes, regions, r);
      assert c in s.scans;
      HitsAreExact(q, c);
      BudgetsKept(mem, q, regions);
      ScanHasItsHit(q, s.scans, c);
    }
  }
}
