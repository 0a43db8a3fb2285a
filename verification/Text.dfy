/** The parts of Go's `strings` and `strconv` packages that the modelled code calls, over
    strings that are sequences of characters, and the round trips between them. */
module Text {
  datatype Option<+T> = None | Some(value: T)

  type byte = x: int | 0 <= x < 256

  function Min(a: nat, b: nat): nat { if a < b then a else b }

  function Take<T>(s: seq<T>, n: nat): (r: seq<T>)
    ensures r <= s && |r| == if n < |s| then n else |s|
  {
    if n < |s| then s[..n] else s
  }

  // ----- strings.Split and strings.Join with a one-character separator

  function Split(s: string, sep: char): (parts: seq<string>)
    ensures |parts| >= 1
  {
    if s == "" then [""]
    else
      var rest := Split(s[1..], sep);
      if s[0] == sep then [""] + rest else [[s[0]] + rest[0]] + rest[1..]
  }

  function Join(parts: seq<string>, sep: char): string
  {
    if |parts| == 0 then ""
    else if |parts| == 1 then parts[0]
    else parts[0] + [sep] + Join(parts[1..], sep)
  }

  ghost predicate Free(parts: seq<string>, sep: char)
  {
    forall p <- parts :: sep !in p
  }

  lemma {:induction false} SplitPrefix(p: string, s: string, sep: char)
    requires sep !in p
    ensures Split(p + s, sep) == [p + Split(s, sep)[0]] + Split(s, sep)[1..]
  {
    if p == "" {
      assert p + s == s;
      assert p + Split(s, sep)[0] == Split(s, sep)[0];
    } else {
      assert (p + s)[1..] == p[1..] + s;
      SplitPrefix(p[1..], s, sep);
      assert p == [p[0]] + p[1..];
      assert p + Split(s, sep)[0] == [p[0]] + (p[1..] + Split(s, sep)[0]);
    }
  }

  lemma {:induction false} SplitJoin(parts: seq<string>, sep: char)
    requires |parts| >= 1 && Free(parts, sep)
    ensures Split(Join(parts, sep), sep) == parts
  {
    var p := parts[0];
    if |parts| == 1 {
      assert p + "" == p;
      SplitPrefix(p, "", sep);
    } else {
      SplitJoin(parts[1..], sep);
      var s := [sep] + Join(parts[1..], sep);
      assert Join(parts, sep) == p + s;
      assert s[1..] == Join(parts[1..], sep);
      SplitPrefix(p, s, sep);
      assert p + "" == p;
    }
  }

  lemma {:induction false} JoinSplit(s: string, sep: char)
    ensures Join(Split(s, sep), sep) == s && Free(Split(s, sep), sep)
  {
    if s != "" {
      JoinSplit(s[1..], sep);
      var rest, parts := Split(s[1..], sep), Split(s, sep);
      assert s == [s[0]] + s[1..];
      if s[0] == sep {
        assert parts[1..] == rest;
      } else {
        assert parts[1..] == rest[1..];
        forall p <- parts ensures sep !in p {
          assert p == [s[0]] + rest[0] || p in rest;
        }
      }
    }
  }

  /** Split cuts at every separator: these two equations fix it. */
  lemma SplitAtSeparator(a: string, s: string, sep: char)
    requires sep !in a
    ensures Split(a, sep) == [a]
    ensures Split(a + [sep] + s, sep) == [a] + Split(s, sep)
  {
    SplitPrefix(a, "", sep);
    assert a + "" == a;
    SplitPrefix(a, [sep] + s, sep);
    assert a + [sep] + s == a + ([sep] + s) && ([sep] + s)[1..] == s;
  }

  lemma {:induction false} LastAfterSeparator(a: string, sep: char, b: string)
    requires sep !in b
    ensures var parts := Split(a + [sep] + b, sep); |parts| >= 2 && parts[|parts| - 1] == b
  {
    var s := a + [sep] + b;
    if a == "" {
      assert s[1..] == b;
      SplitPrefix(b, "", sep);
      assert b + "" == b;
    } else {
      assert s[1..] == a[1..] + [sep] + b;
      LastAfterSeparator(a[1..], sep, b);
    }
  }

  /** strings.ToLower on ASCII text */
  function LowerAscii(s: string): string
  {
    seq(|s|, i requires 0 <= i < |s| => if 'A' <= s[i] <= 'Z' then (s[i] as int + 32) as char else s[i])
  }

  const UPPER := "ABCDEFGHIJKLMNOPQRSTUVWXYZ"
  const LOWER := "abcdefghijklmnopqrstuvwxyz"

  /** The capital letters become the small ones, and nothing else changes. */
  lemma LowerAsciiTable(s: string, i: nat)
    requires i < |s|
    ensures |LowerAscii(s)| == |s|
    ensures forall k :: 0 <= k < 26 && s[i] == UPPER[k] ==> LowerAscii(s)[i] == LOWER[k]
    ensures s[i] !in UPPER ==> LowerAscii(s)[i] == s[i]
  {
    forall k | 0 <= k < 26 ensures UPPER[k] as int == 65 + k && LOWER[k] as int == 97 + k {}
    if 'A' <= s[i] <= 'Z' {
      assert UPPER[s[i] as int - 65] == s[i];
    }
  }

  /** The number of bytes of a character, and of a string, in UTF-8. */
  function Utf8Size(c: char): nat
  {
    if c < '\U{80}' then 1 else if c < '\U{800}' then 2 else if c < '\U{10000}' then 3 else 4
  }

  function ByteLength(s: string): (n: nat)
    ensures |s| <= n <= 4 * |s|
  {
    if s == "" then 0 else ByteLength(s[..|s| - 1]) + Utf8Size(s[|s| - 1])
  }

  /** ASCII takes one byte a character, and the rest two to four, as section 3 of RFC 3629 lays out. */
  lemma {:induction false} ByteLengths(a: string, b: string, c: char)
    ensures ByteLength(a + b) == ByteLength(a) + ByteLength(b)
    ensures ByteLength([c])
         == if c as int <= 0x7F then 1 else if c as int <= 0x7FF then 2 else if c as int <= 0xFFFF then 3 else 4
    decreases |b|
  {
    assert [c][..0] == "" && ByteLength("") == 0;
    if b == "" {
      assert a + b == a;
    } else {
      ByteLengths(a, b[..|b| - 1], c);
      assert (a + b)[..|a + b| - 1] == a + b[..|b| - 1];
    }
  }

  // ----- decimal numerals (fmt's %d for non-negative numbers, strconv.Atoi)

  function Digit(d: nat): char
    requires d < 10
  {
    "0123456789"[d]
  }

  predicate IsDigit(c: char) { '0' <= c <= '9' }

  function DigitValue(c: char): nat
    requires IsDigit(c)
  {
    c as int - '0' as int
  }

  predicate AllDigits(s: string) { forall c <- s :: IsDigit(c) }

  function Decimal(n: nat): string
  {
    if n < 10 then [Digit(n)] else Decimal(n / 10) + [Digit(n % 10)]
  }

  function NumeralValue(s: string): nat
    requires AllDigits(s)
  {
    if s == "" then 0 else 10 * NumeralValue(s[..|s| - 1]) + DigitValue(s[|s| - 1])
  }

  lemma {:induction false} DecimalRoundTrip(n: nat)
    ensures Decimal(n) != "" && AllDigits(Decimal(n)) && NumeralValue(Decimal(n)) == n
  {
    if n < 10 {
      assert NumeralValue("") == 0;
    } else {
      DecimalRoundTrip(n / 10);
      var s := Decimal(n);
      assert s[..|s| - 1] == Decimal(n / 10);
    }
  }

  predicate Canonical(s: string) { AllDigits(s) && s != "" && (|s| > 1 ==> s[0] != '0') }

  lemma {:induction false} DecimalCanonical(n: nat)
    ensures Canonical(Decimal(n)) && (n > 0 ==> Decimal(n)[0] != '0')
    ensures n < 10 ==> Decimal(n) == [(48 + n) as char]
  {
    DecimalRoundTrip(n);
    if n >= 10 {
      DecimalCanonical(n / 10);
    }
  }

  lemma {:induction false} NumeralPositive(s: string)
    requires Canonical(s) && |s| > 1
    ensures NumeralValue(s) >= 10
  {
    var init := s[..|s| - 1];
    if |s| == 2 {
      assert init == [s[0]] && NumeralValue("") == 0 && init[..0] == "";
    } else {
      NumeralPositive(init);
    }
  }

  lemma AppendDigit(n: nat, d: nat)
    requires n > 0 && d < 10
    ensures Decimal(10 * n + d) == Decimal(n) + [Digit(d)]
  {
    assert (10 * n + d) / 10 == n && (10 * n + d) % 10 == d;
  }

  lemma DigitOfValue(c: char)
    requires IsDigit(c)
    ensures DigitValue(c) < 10 && Digit(DigitValue(c)) == c
  {
    var k := DigitValue(c);
    assert k < 10 && "0123456789"[k] as int == 48 + k;
  }

  lemma CanonicalInit(s: string)
    requires Canonical(s) && |s| > 1
    ensures var init := s[..|s| - 1];
      Canonical(init) && NumeralValue(init) > 0 && s == init + [Digit(DigitValue(s[|s| - 1]))]
  {
    var init, last := s[..|s| - 1], s[|s| - 1];
    assert last in s;
    DigitOfValue(last);
    assert s == init + [last];
    if |init| > 1 {
      NumeralPositive(init);
    } else {
      assert init == [s[0]] && init[..0] == "";
    }
  }

  /** The decimal is the only numeral without leading zeros that has the value. */
  lemma {:induction false} DecimalUnique(s: string)
    requires Canonical(s)
    ensures s == Decimal(NumeralValue(s))
  {
    var init, last := s[..|s| - 1], s[|s| - 1];
    assert last in s;
    if init == "" {
      assert NumeralValue(s) == DigitValue(last);
      assert s == [last];
    } else {
      CanonicalInit(s);
      DecimalUnique(init);
      AppendDigit(NumeralValue(init), DigitValue(last));
    }
  }

  /** A digit counts as its distance from '0', and leading zeros count nothing. */
  lemma {:induction false} LeadingZero(s: string)
    requires AllDigits(s)
    ensures NumeralValue("0" + s) == NumeralValue(s)
    ensures |s| == 1 ==> NumeralValue(s) == s[0] as int - 48
  {
    if s == "" {
      assert "0"[..0] == "" && NumeralValue("") == 0 && "0" + s == "0";
    } else {
      LeadingZero(s[..|s| - 1]);
      assert ("0" + s)[..|s|] == "0" + s[..|s| - 1];
    }
  }

  // ----- strings.TrimSpace and strings.Fields

  /** unicode.IsSpace */
  predicate IsSpace(c: char)
  {
    c in "\t\n\U{0B}\U{0C}\r \U{85}\U{A0}\U{1680}\U{2028}\U{2029}\U{202F}\U{205F}\U{3000}"
    || '\U{2000}' <= c <= '\U{200A}'
  }

  /** The characters with the property White_Space, by their code points. */
  lemma SpaceCodes(c: char)
    ensures IsSpace(c) <==>
      var n := c as int;
      || 9 <= n <= 13 || n == 32 || n == 0x85 || n == 0xA0 || n == 0x1680
      || 0x2000 <= n <= 0x200A || n == 0x2028 || n == 0x2029 || n == 0x202F || n == 0x205F || n == 0x3000
  {
    var cs := "\t\n\U{0B}\U{0C}\r \U{85}\U{A0}\U{1680}\U{2028}\U{2029}\U{202F}\U{205F}\U{3000}";
    assert cs[0] as int == 9 && cs[1] as int == 10 && cs[2] as int == 11 && cs[3] as int == 12 && cs[4] as int == 13;
    assert cs[5] as int == 32 && cs[6] as int == 0x85 && cs[7] as int == 0xA0 && cs[8] as int == 0x1680;
    assert cs[9] as int == 0x2028 && cs[10] as int == 0x2029 && cs[11] as int == 0x202F && cs[12] as int == 0x205F;
    assert cs[13] as int == 0x3000;
  }

  predicate AllSpace(s: string) { forall c <- s :: IsSpace(c) }

  predicate NoSpace(s: string) { forall c <- s :: !IsSpace(c) }

  function TrimLeft(s: string): (t: string)
    ensures t != "" ==> !IsSpace(t[0])
    ensures |t| <= |s|
    ensures t != "" ==> t[|t| - 1] == s[|s| - 1]
  {
    if s != "" && IsSpace(s[0]) then TrimLeft(s[1..]) else s
  }

  function TrimRight(s: string): (t: string)
    ensures t != "" ==> !IsSpace(t[|t| - 1])
    ensures t <= s
  {
    if s != "" && IsSpace(s[|s| - 1]) then TrimRight(s[..|s| - 1]) else s
  }

  function TrimSpace(s: string): string { TrimLeft(TrimRight(s)) }

  predicate Trimmed(s: string) { s == "" || (!IsSpace(s[0]) && !IsSpace(s[|s| - 1])) }

  lemma TrimTrimmed(s: string)
    requires Trimmed(s)
    ensures TrimSpace(s) == s
  {}

  lemma {:induction false} TrimLeftSpace(a: string, s: string)
    requires AllSpace(a) && (s == "" || !IsSpace(s[0]))
    ensures TrimLeft(a + s) == s
  {
    if a == "" {
      assert a + s == s;
    } else {
      assert (a + s)[0] == a[0] && (a + s)[1..] == a[1..] + s;
      TrimLeftSpace(a[1..], s);
    }
  }

  lemma {:induction false} TrimRightSpace(s: string, b: string)
    requires AllSpace(b) && (s == "" || !IsSpace(s[|s| - 1]))
    ensures TrimRight(s + b) == s
    decreases |b|
  {
    if b == "" {
      assert s + b == s;
    } else {
      assert (s + b)[|s + b| - 1] == b[|b| - 1] && (s + b)[..|s + b| - 1] == s + b[..|b| - 1];
      TrimRightSpace(s, b[..|b| - 1]);
    }
  }

  /** Exactly the space around a text goes. */
  lemma TrimSurrounded(a: string, m: string, b: string)
    requires AllSpace(a) && Trimmed(m) && AllSpace(b)
    ensures TrimSpace(a + m + b) == m
  {
    if m == "" {
      assert forall c <- a + b :: IsSpace(c);
      TrimRightSpace("", a + b);
      assert "" + (a + b) == a + m + b;
    } else {
      assert (a + m)[|a + m| - 1] == m[|m| - 1];
      TrimRightSpace(a + m, b);
      TrimLeftSpace(a, m);
    }
  }

  lemma TrimFront(a: string, m: string)
    requires AllSpace(a) && Trimmed(m)
    ensures TrimSpace(a + m) == m
  {
    TrimSurrounded(a, m, "");
    assert a + m + "" == a + m;
  }

  lemma TrimBlank(a: string)
    requires AllSpace(a)
    ensures TrimSpace(a) == ""
  {
    TrimRightSpace("", a);
    assert "" + a == a;
  }

  function Fields(s: string): seq<string>
    decreases |s|
  {
    var t := TrimLeft(s);
    if t == "" then []
    else var k := WordEnd(t); [t[..k]] + Fields(t[k..])
  }

  function WordEnd(s: string): (k: nat)
    ensures k <= |s| && NoSpace(s[..k]) && (k < |s| ==> IsSpace(s[k]))
    ensures s != "" && !IsSpace(s[0]) ==> k > 0
  {
    if s == "" || IsSpace(s[0]) then 0 else 1 + WordEnd(s[1..])
  }

  lemma {:induction false} WordEndAt(w: string, s: string)
    requires NoSpace(w) && (s == "" || IsSpace(s[0]))
    ensures WordEnd(w + s) == |w|
  {
    if w == "" {
      assert w + s == s;
    } else {
      assert (w + s)[1..] == w[1..] + s;
      WordEndAt(w[1..], s);
    }
  }

  predicate Words(ws: seq<string>) { forall w <- ws :: w != "" && NoSpace(w) }

  lemma {:induction false} FieldsJoin(ws: seq<string>)
    requires Words(ws)
    ensures Fields(Join(ws, ' ')) == ws
  {
    if |ws| == 1 {
      WordEndAt(ws[0], "");
      assert ws[0] + "" == ws[0];
    } else if |ws| > 1 {
      var tail := [' '] + Join(ws[1..], ' ');
      var s := ws[0] + tail;
      assert Join(ws, ' ') == s;
      WordEndAt(ws[0], tail);
      assert s[0] == ws[0][0];
      assert s[..|ws[0]|] == ws[0] && s[|ws[0]|..] == tail;
      FieldsJoin(ws[1..]);
      assert tail[1..] == Join(ws[1..], ' ');
      FieldsSkipSpace(tail);
    }
  }

  lemma FieldsSkipSpace(s: string)
    requires s != "" && IsSpace(s[0])
    ensures Fields(s) == Fields(s[1..])
  {}

  lemma FieldsBlank(a: string)
    requires AllSpace(a)
    ensures Fields(a) == []
  {
    TrimLeftSpace(a, "");
    assert a + "" == a;
  }

  /** The words of a text: the first word and those that follow it, and space in front does not
      count. */
  lemma FieldsFirst(w: string, s: string)
    requires w != "" && NoSpace(w) && (s == "" || IsSpace(s[0]))
    ensures Fields(w + s) == [w] + Fields(s)
  {
    var t := w + s;
    assert w[0] in w && t[0] == w[0];
    assert TrimLeft(t) == t;
    WordEndAt(w, s);
    assert t[..|w|] == w && t[|w|..] == s;
  }

  lemma FieldsSkip(a: string, s: string)
    requires AllSpace(a) && s != "" && !IsSpace(s[0])
    ensures Fields(a + s) == Fields(s)
  {
    TrimLeftSpace(a, s);
    assert TrimLeft(s) == s;
  }

  predicate HasPrefix(s: string, p: string) { p <= s }

  lemma PrefixMeans(s: string, p: string)
    ensures HasPrefix(s, p) <==> exists t :: s == p + t
  {
    if HasPrefix(s, p) {
      assert s == p + s[|p|..];
    }
  }
}
