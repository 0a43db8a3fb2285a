/** The signature gate and the build number of the updater. The cryptography, base64 and JSON
    are parameters; RSA-PSS verification (section 8.1 of RFC 8017) is one of them. */
module UpdaterManifest {
  import opened Text

  type Bytes = seq<byte>

  datatype Target = Target(os: string, arch: string, file: string, sha256: string)

  datatype Signature = Signature(keyId: string, algo: string, value: string)

  datatype Manifest = Manifest(
    name: string,
    channel: string,
    version: string,
    buildNumber: int,
    releasedAt: string,
    targets: seq<Target>,
    signature: string,
    signatures: seq<Signature>)

  datatype Crypto = Crypto(
    parseKey: Bytes -> Option<Bytes>,
    decode: string -> Option<Bytes>,
    acceptsPss: (Bytes, Bytes, Bytes) -> bool,
    marshal: Manifest -> Option<Bytes>)

  datatype VerifyError =
    | SignatureMissing
    | BadKey
    | MarshalFailed
    | UnsupportedAlgo
    | BadEncoding
    | Rejected
    | KeyringEmpty
    | NoMatchingKeys

  const PSS_ALGO := "rsa-pss-sha256"

  /** Simple case folding onto ASCII: the letters, and the two other characters that fold to one. */
  function Fold(c: char): char
  {
    if 'A' <= c <= 'Z' then (c as int + 32) as char
    else if c == '\U{17F}' then 's'
    else if c == '\U{212A}' then 'k'
    else c
  }

  /** strings.EqualFold, where one of the strings is ASCII. */
  predicate EqualFold(a: string, b: string)
  {
    |a| == |b| && forall i :: 0 <= i < |a| ==> Fold(a[i]) == Fold(b[i])
  }

  /** With an ASCII string on the right: equal up to the case of letters, or one of the two other
      characters that fold to an ASCII letter. */
  lemma EqualFoldMeans(a: string, b: string)
    requires forall c <- b :: c as int < 128
    ensures EqualFold(a, b) <==>
      && |a| == |b|
      && forall i :: 0 <= i < |a| ==>
           || LowerAscii(a)[i] == LowerAscii(b)[i]
           || (a[i] as int == 0x17F && b[i] in "sS")
           || (a[i] as int == 0x212A && b[i] in "kK")
  {
    if |a| == |b| {
      forall i | 0 <= i < |a|
        ensures Fold(a[i]) == Fold(b[i]) <==>
          || LowerAscii(a)[i] == LowerAscii(b)[i]
          || (a[i] as int == 0x17F && b[i] in "sS")
          || (a[i] as int == 0x212A && b[i] in "kK")
      {
        assert b[i] in b;
        FoldPair(a[i], b[i]);
      }
    }
  }

  lemma FoldPair(x: char, y: char)
    requires y as int < 128
    ensures Fold(x) == Fold(y) <==>
      || LowerAscii([x])[0] == LowerAscii([y])[0]
      || (x as int == 0x17F && y in "sS")
      || (x as int == 0x212A && y in "kK")
  {
    assert "sS"[0] == 's' && "sS"[1] == 'S' && "kK"[0] == 'k' && "kK"[1] == 'K';
    assert y in "sS" <==> y == 's' || y == 'S';
    assert y in "kK" <==> y == 'k' || y == 'K';
  }

  // ----- signatures

  function EffectiveSignatures(m: Manifest): Option<seq<Signature>>
  {
    if |m.signatures| > 0 then Some(m.signatures)
    else if TrimSpace(m.signature) == "" then None
    else Some([Signature("", PSS_ALGO, m.signature)])
  }

  /** What is signed: the manifest without its signatures. */
  function SignedPayload(crypto: Crypto, m: Manifest): Option<Bytes>
  {
    crypto.marshal(m.(signature := "", signatures := []))
  }

  function SignatureError(crypto: Crypto, key: Bytes, sig: Signature, payload: Bytes): Option<VerifyError>
  {
    if sig.algo != "" && !EqualFold(sig.algo, PSS_ALGO) then Some(UnsupportedAlgo)
    else if crypto.decode(sig.value).None? then Some(BadEncoding)
    else if !crypto.acceptsPss(key, payload, crypto.decode(sig.value).value) then Some(Rejected)
    else None
  }

  /** The signature verifies under the key in the PEM text. */
  predicate Verifies(crypto: Crypto, pem: Bytes, sig: Signature, payload: Bytes)
  {
    crypto.parseKey(pem).Some? && SignatureError(crypto, crypto.parseKey(pem).value, sig, payload).None?
  }

  /** There are signatures to check and a payload they sign. */
  predicate Checkable(crypto: Crypto, m: Manifest)
  {
    EffectiveSignatures(m).Some? && SignedPayload(crypto, m).Some?
  }

  /** The signature gate: some effective signature verifies. */
  ghost predicate Accepted(crypto: Crypto, m: Manifest, pem: Bytes)
  {
    && Checkable(crypto, m)
    && exists sig <- EffectiveSignatures(m).value :: Verifies(crypto, pem, sig, SignedPayload(crypto, m).value)
  }

  /** The key accepts the decoded signature text for the marshalled manifest without its signatures. */
  predicate KeyAccepts(crypto: Crypto, m: Manifest, pem: Bytes, value: string)
  {
    var unsigned := crypto.marshal(m.(signature := "", signatures := []));
    && crypto.parseKey(pem).Some? && unsigned.Some? && crypto.decode(value).Some?
    && crypto.acceptsPss(crypto.parseKey(pem).value, unsigned.value, crypto.decode(value).value)
  }

  /** The algorithm of a signature in the list is not given, or is the one supported. */
  predicate NamesPss(sig: Signature) { sig.algo == "" || EqualFold(sig.algo, "rsa-pss-sha256") }

  lemma VerifiesMeans(crypto: Crypto, m: Manifest, pem: Bytes, sig: Signature)
    requires SignedPayload(crypto, m).Some?
    ensures Verifies(crypto, pem, sig, SignedPayload(crypto, m).value)
       <==> NamesPss(sig) && KeyAccepts(crypto, m, pem, sig.value)
  {}

  /** The manifest is accepted exactly when the key accepts the text of a signature in the list, or,
      when the list is empty, that of the single signature field, if it is not blank. */
  lemma AcceptedMeans(crypto: Crypto, m: Manifest, pem: Bytes)
    ensures m.signatures != [] ==>
      (Accepted(crypto, m, pem) <==>
        exists sig <- m.signatures :: NamesPss(sig) && KeyAccepts(crypto, m, pem, sig.value))
    ensures m.signatures == [] ==>
      (Accepted(crypto, m, pem) <==> TrimSpace(m.signature) != "" && KeyAccepts(crypto, m, pem, m.signature))
  {
    EqualFoldMeans("rsa-pss-sha256", "rsa-pss-sha256");
    if Checkable(crypto, m) {
      forall sig <- EffectiveSignatures(m).value
        ensures Verifies(crypto, pem, sig, SignedPayload(crypto, m).value)
           <==> NamesPss(sig) && KeyAccepts(crypto, m, pem, sig.value)
      {
        VerifiesMeans(crypto, m, pem, sig);
      }
      if m.signatures == [] {
        assert EffectiveSignatures(m).value[0] in EffectiveSignatures(m).value;
      }
    }
  }

  lemma SignatureErrorMeans(crypto: Crypto, key: Bytes, sig: Signature, payload: Bytes)
    ensures var e := SignatureError(crypto, key, sig, payload);
      && (e == Some(UnsupportedAlgo) <==> !NamesPss(sig))
      && (e == Some(BadEncoding) <==> NamesPss(sig) && crypto.decode(sig.value).None?)
      && (e == Some(Rejected) <==>
            NamesPss(sig) && crypto.decode(sig.value).Some?
            && !crypto.acceptsPss(key, payload, crypto.decode(sig.value).value))
      && (e.Some? ==> e.value in {UnsupportedAlgo, BadEncoding, Rejected})
  {}

  method VerifySignature(crypto: Crypto, m: Manifest, pubPem: Bytes) returns (err: Option<VerifyError>)
    ensures err.None? <==> Accepted(crypto, m, pubPem)
    ensures EffectiveSignatures(m).None? ==> err == Some(SignatureMissing)
    ensures EffectiveSignatures(m).Some? && crypto.parseKey(pubPem).None? ==> err == Some(BadKey)
    ensures EffectiveSignatures(m).Some? && crypto.parseKey(pubPem).Some? && SignedPayload(crypto, m).None? ==>
      err == Some(MarshalFailed)
    ensures err.Some? && Checkable(crypto, m) && crypto.parseKey(pubPem).Some? ==>
      var sigs := EffectiveSignatures(m).value;
      err == SignatureError(crypto, crypto.parseKey(pubPem).value, sigs[|sigs| - 1], SignedPayload(crypto, m).value)
  {
    var signatures := EffectiveSignatures(m);
    if signatures.None? {
      return Some(SignatureMissing);
    }
    var pub := crypto.parseKey(pubPem);
    if pub.None? {
      return Some(BadKey);
    }
    var payload := SignedPayload(crypto, m);
    if payload.None? {
      return Some(MarshalFailed);
    }
    var lastErr: Option<VerifyError> := None;
    var sigs := signatures.value;
    for i := 0 to |sigs|
      invariant forall k :: 0 <= k < i ==> !Verifies(crypto, pubPem, sigs[k], payload.value)
      invariant i > 0 ==> lastErr.Some? && lastErr == SignatureError(crypto, pub.value, sigs[i - 1], payload.value)
    {
      var e := SignatureError(crypto, pub.value, sigs[i], payload.value);
      if e.None? {
        assert sigs[i] in sigs;
        return None;
      }
      lastErr := e;
    }
    return lastErr;
  }

  /** The signature may be checked against the key at this identifier. */
  predicate Allowed(sig: Signature, id: string)
  {
    sig.keyId == "" || sig.keyId == id
  }

  ghost predicate VerifiesIn(crypto: Crypto, ring: map<string, Bytes>, sig: Signature, payload: Bytes)
  {
    exists id <- ring :: Allowed(sig, id) && Verifies(crypto, ring[id], sig, payload)
  }

  /** Some effective signature verifies under a key of the ring it may be checked against. */
  ghost predicate AcceptedByRing(crypto: Crypto, m: Manifest, ring: map<string, Bytes>)
  {
    && Checkable(crypto, m)
    && exists sig <- EffectiveSignatures(m).value :: VerifiesIn(crypto, ring, sig, SignedPayload(crypto, m).value)
  }

  datatype KeyringResult = Valid(keyId: string) | Invalid(error: VerifyError)

  /** The ring is iterated in any order, as Go iterates a map. */
  method Candidates(ring: map<string, Bytes>, sig: Signature) returns (candidates: Option<seq<Bytes>>)
    ensures candidates.None? <==> sig.keyId != "" && sig.keyId !in ring
    ensures candidates.Some? && ring != map[] ==> candidates.value != []
    ensures candidates.Some? ==>
      forall pem :: pem in candidates.value <==> exists id <- ring :: Allowed(sig, id) && ring[id] == pem
  {
    if sig.keyId != "" {
      if sig.keyId in ring {
        return Some([ring[sig.keyId]]);
      }
      return None;
    }
    var pems: seq<Bytes> := [];
    var todo := ring.Keys;
    while todo != {}
      invariant todo <= ring.Keys
      invariant forall pem :: pem in pems <==> exists id <- ring.Keys - todo :: ring[id] == pem
    {
      var id :| id in todo;
      pems := pems + [ring[id]];
      todo := todo - {id};
    }
    if id :| id in ring {
      assert ring[id] in pems;
    }
    return Some(pems);
  }

  /** Whatever the iteration order: success if and only if some effective signature verifies
      under a key it is allowed to be checked against, and then with the key identifier of the
      first such signature in list order. */
  method VerifyWithKeyring(crypto: Crypto, m: Manifest, ring: map<string, Bytes>) returns (r: KeyringResult)
    ensures r.Valid? <==> AcceptedByRing(crypto, m, ring)
    ensures r.Valid? ==>
      var sigs, payload := EffectiveSignatures(m).value, SignedPayload(crypto, m).value;
      exists i | 0 <= i < |sigs| ::
        && r.keyId == sigs[i].keyId
        && VerifiesIn(crypto, ring, sigs[i], payload)
        && forall k :: 0 <= k < i ==> !VerifiesIn(crypto, ring, sigs[k], payload)
    ensures r.Invalid? && Checkable(crypto, m) ==>
      forall sig <- EffectiveSignatures(m).value :: !VerifiesIn(crypto, ring, sig, SignedPayload(crypto, m).value)
    ensures EffectiveSignatures(m).None? ==> r == Invalid(SignatureMissing)
    ensures EffectiveSignatures(m).Some? && ring == map[] ==> r == Invalid(KeyringEmpty)
    ensures EffectiveSignatures(m).Some? && ring != map[] && SignedPayload(crypto, m).None? ==>
      r == Invalid(MarshalFailed)
    ensures Checkable(crypto, m) && ring != map[] ==>
      (r == Invalid(NoMatchingKeys) <==>
        forall sig <- EffectiveSignatures(m).value :: sig.keyId != "" && sig.keyId !in ring)
  {
    var signatures := EffectiveSignatures(m);
    if signatures.None? {
      return Invalid(SignatureMissing);
    }
    if |ring| == 0 {
      return Invalid(KeyringEmpty);
    }
    var payload := SignedPayload(crypto, m);
    if payload.None? {
      return Invalid(MarshalFailed);
    }
    var lastErr: Option<VerifyError> := None;
    var sigs := signatures.value;
    for i := 0 to |sigs|
      invariant forall k :: 0 <= k < i ==> !VerifiesIn(crypto, ring, sigs[k], payload.value)
      invariant lastErr.None? <==> forall k :: 0 <= k < i ==> sigs[k].keyId != "" && sigs[k].keyId !in ring
      invariant lastErr.Some? ==> lastErr.value in {BadKey, UnsupportedAlgo, BadEncoding, Rejected}
    {
      var sig := sigs[i];
      var candidates := Candidates(ring, sig);
      if candidates.None? {
        continue;
      }
      var pems := candidates.value;
      for j := 0 to |pems|
        invariant forall k :: 0 <= k < j ==> !Verifies(crypto, pems[k], sig, payload.value)
        invariant j > 0 ==> lastErr.Some?
        invariant lastErr.Some? ==> lastErr.value in {BadKey, UnsupportedAlgo, BadEncoding, Rejected}
      {
        var pem := pems[j];
        var pub := crypto.parseKey(pem);
        if pub.None? {
          lastErr := Some(BadKey);
          continue;
        }
        var e := SignatureError(crypto, pub.value, sig, payload.value);
        if e.None? {
          assert pem in pems && sig in sigs;
          return Valid(sig.keyId);
        }
        lastErr := e;
      }
      forall id <- ring | Allowed(sig, id) ensures !Verifies(crypto, ring[id], sig, payload.value) {
        assert ring[id] in pems;
      }
    }
    if lastErr.None? {
      lastErr := Some(NoMatchingKeys);
    }
    return Invalid(lastErr.value);
  }

  /** The ring accepts exactly when one of its keys, which the signature names or leaves open,
      accepts the text of the signature. */
  lemma AcceptedByRingMeans(crypto: Crypto, m: Manifest, ring: map<string, Bytes>)
    ensures m.signatures != [] ==>
      (AcceptedByRing(crypto, m, ring) <==>
        exists sig, id | sig in m.signatures && id in ring ::
          (sig.keyId == "" || sig.keyId == id) && NamesPss(sig) && KeyAccepts(crypto, m, ring[id], sig.value))
    ensures m.signatures == [] ==>
      (AcceptedByRing(crypto, m, ring) <==>
        TrimSpace(m.signature) != "" && exists id <- ring :: KeyAccepts(crypto, m, ring[id], m.signature))
  {
    EqualFoldMeans("rsa-pss-sha256", "rsa-pss-sha256");
    if Checkable(crypto, m) {
      forall sig, id | sig in EffectiveSignatures(m).value && id in ring
        ensures Verifies(crypto, ring[id], sig, SignedPayload(crypto, m).value)
           <==> NamesPss(sig) && KeyAccepts(crypto, m, ring[id], sig.value)
      {
        VerifiesMeans(crypto, m, ring[id], sig);
      }
      if m.signatures == [] {
        assert EffectiveSignatures(m).value[0] in EffectiveSignatures(m).value;
      }
    }
  }

  /** A ring of one key accepts only what the key alone accepts, and the key alone accepts more
      exactly when every signature that verifies under it names another key. */
  lemma OneKeyRing(crypto: Crypto, m: Manifest, id: string, pem: Bytes)
    ensures var ring := map[id := pem];
      && (AcceptedByRing(crypto, m, ring) ==> Accepted(crypto, m, pem))
      && (Accepted(crypto, m, pem) ==>
            (!AcceptedByRing(crypto, m, ring) <==>
              forall sig <- EffectiveSignatures(m).value ::
                Verifies(crypto, pem, sig, SignedPayload(crypto, m).value) ==> !Allowed(sig, id)))
  {
    var ring := map[id := pem];
    if Checkable(crypto, m) {
      var payload := SignedPayload(crypto, m).value;
      forall sig <- EffectiveSignatures(m).value
        ensures VerifiesIn(crypto, ring, sig, payload) <==> Allowed(sig, id) && Verifies(crypto, pem, sig, payload)
      {
        assert id in ring;
      }
    }
  }

  /** A manifest whose only signature verifies under the key, but names another one, is accepted
      by the key alone and refused by the ring of that key. */
  lemma OtherKeyNamed(crypto: Crypto, m: Manifest, sig: Signature, id: string, pem: Bytes)
    requires EffectiveSignatures(m) == Some([sig]) && SignedPayload(crypto, m).Some?
    requires Verifies(crypto, pem, sig, SignedPayload(crypto, m).value) && !Allowed(sig, id)
    ensures Accepted(crypto, m, pem) && !AcceptedByRing(crypto, m, map[id := pem])
  {
    assert sig in EffectiveSignatures(m).value;
    OneKeyRing(crypto, m, id, pem);
  }

  // ----- targets

  predicate TargetFor(t: Target, goos: string, goarch: string)
  {
    EqualFold(t.os, goos) && EqualFold(t.arch, goarch)
  }

  /** The first target of the manifest for the platform. */
  ghost predicate IsFirstTarget(m: Manifest, t: Target, goos: string, goarch: string)
  {
    exists i | 0 <= i < |m.targets| ::
      && t == m.targets[i]
      && TargetFor(t, goos, goarch)
      && forall k :: 0 <= k < i ==> !TargetFor(m.targets[k], goos, goarch)
  }

  method FindTarget(m: Manifest, goos: string, goarch: string) returns (r: Option<Target>)
    ensures r.None? <==> forall t <- m.targets :: !(EqualFold(t.os, goos) && EqualFold(t.arch, goarch))
    ensures r.Some? ==>
      exists i | 0 <= i < |m.targets| ::
        && r.value == m.targets[i] && EqualFold(r.value.os, goos) && EqualFold(r.value.arch, goarch)
        && forall k :: 0 <= k < i ==> !(EqualFold(m.targets[k].os, goos) && EqualFold(m.targets[k].arch, goarch))
    ensures r.Some? ==> IsFirstTarget(m, r.value, goos, goarch)
  {
    for i := 0 to |m.targets|
      invariant forall k :: 0 <= k < i ==> !TargetFor(m.targets[k], goos, goarch)
    {
      if TargetFor(m.targets[i], goos, goarch) {
        return Some(m.targets[i]);
      }
    }
    return None;
  }

  // ----- build numbers

  const INT_LIMIT: int := 0x8000_0000_0000_0000

  /** strconv.Atoi on a 64-bit platform: an optional sign, digits, and the range of int. */
  function Atoi(s: string): Option<int>
  {
    var digits := if s != "" && (s[0] == '+' || s[0] == '-') then s[1..] else s;
    if digits == "" || !AllDigits(digits) then None
    else
      var n: int := if s[0] == '-' then 0 - NumeralValue(digits) else NumeralValue(digits);
      if -INT_LIMIT <= n < INT_LIMIT then Some(n) else None
  }

  function ParseBuildNumber(version: string): int
  {
    var parts := Split(version, '+');
    if |parts| < 2 then 0
    else
      match Atoi(parts[|parts| - 1])
      case None => 0
      case Some(n) => n
  }

  /** Reading back the build number of a version string that ends in '+' and the number. */
  lemma BuildNumberRoundTrip(v: string, n: nat)
    requires n <= 9_223_372_036_854_775_807
    ensures ParseBuildNumber(v + "+" + Decimal(n)) == n
  {
    DecimalRoundTrip(n);
    AfterLastPlus(v, Decimal(n));
    assert Decimal(n)[0] in Decimal(n);
  }

  lemma AfterLastPlus(v: string, t: string)
    requires '+' !in t
    ensures ParseBuildNumber(v + "+" + t) == match Atoi(t) { case None => 0 case Some(n) => n }
  {
    assert v + "+" + t == v + ['+'] + t;
    LastAfterSeparator(v, '+', t);
  }

  /** Neither empty digits nor anything but digits after an optional sign is a number. */
  lemma NotANumber(t: string)
    requires '+' !in t
    requires t == "" || t == "-" || exists i :: 0 <= i < |t| && !IsDigit(t[i]) && (i > 0 || t[0] != '-')
    ensures Atoi(t) == None
  {
    if t != "" && t != "-" {
      var i :| 0 <= i < |t| && !IsDigit(t[i]) && (i > 0 || t[0] != '-');
      assert t[0] in t;
      if t[0] == '-' {
        assert t[1..][i - 1] == t[i] && t[i] in t[1..];
      } else {
        assert t[i] in t;
      }
    }
  }

  /** A version without '+' has the build number 0, and so has one whose last part is no number. */
  lemma NoBuildNumber(v: string, t: string)
    requires '+' !in t
    ensures ParseBuildNumber(t) == 0
    ensures t == "" || t == "-" || (exists i :: 0 <= i < |t| && !IsDigit(t[i]) && (i > 0 || t[0] != '-')) ==>
      ParseBuildNumber(v + "+" + t) == 0
  {
    SplitAtSeparator(t, "", '+');
    AfterLastPlus(v, t);
    if t == "" || t == "-" || exists i :: 0 <= i < |t| && !IsDigit(t[i]) && (i > 0 || t[0] != '-') {
      NotANumber(t);
    }
  }

  /** So has one whose number is out of the range of a 64-bit integer. */
  lemma OutOfRange(v: string, n: nat)
    requires n > 9_223_372_036_854_775_807
    ensures ParseBuildNumber(v + "+" + Decimal(n)) == 0
  {
    DecimalRoundTrip(n);
    assert Decimal(n)[0] in Decimal(n);
    AfterLastPlus(v, Decimal(n));
  }

  lemma AtoiNegative(d: string)
    requires d != "" && AllDigits(d)
    ensures var n := NumeralValue(d);
      Atoi("-" + d) == if n <= 9_223_372_036_854_775_808 then Some(0 - n) else None
  {
    assert ("-" + d)[1..] == d;
  }

  /** A minus sign after the '+' counts. */
  lemma NegativeNumeral(v: string, n: nat)
    ensures ParseBuildNumber(v + "+-" + Decimal(n)) == if n <= 9_223_372_036_854_775_808 then 0 - n else 0
  {
    DecimalRoundTrip(n);
    var d := Decimal(n);
    assert v + "+-" + d == v + "+" + ("-" + d);
    AtoiNegative(d);
    AfterLastPlus(v, "-" + d);
  }

  /** Leading zeros do not. */
  lemma ZeroNumeral(v: string, n: nat)
    requires n <= 9_223_372_036_854_775_807
    ensures ParseBuildNumber(v + "+0" + Decimal(n)) == n
  {
    DecimalRoundTrip(n);
    var d := Decimal(n);
    assert v + "+0" + d == v + "+" + ("0" + d);
    LeadingZero(d);
    assert forall c <- "0" + d :: IsDigit(c);
    AfterLastPlus(v, "0" + d);
  }
}
