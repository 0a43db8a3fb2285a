/** The printed JA3 string, and the reader that shows it can be decoded in one way only. */
module Ja3Text {
  import opened Text
  import opened ClientHello

  function Decimals(nums: seq<nat>): (parts: seq<string>)
    ensures |parts| == |nums|
  {
    seq(|nums|, i requires 0 <= i < |nums| => Decimal(nums[i]))
  }

  /** The text of one list: its decimals with '-' between them. */
  function ListText(nums: seq<nat>): string { Join(Decimals(nums), '-') }

  /** joinU16 and joinU8. */
  method JoinNumbers(nums: seq<nat>) returns (s: string)
    ensures s == ListText(nums)
  {
    var parts := new string[|nums|];
    for i := 0 to |nums|
      invariant parts[..i] == Decimals(nums)[..i]
    {
      parts[i] := Decimal(nums[i]);
    }
    assert parts[..] == Decimals(nums);
    s := Join(parts[..], '-');
  }

  function Ja3String(j: Ja3): string
  {
    Join([Decimal(j.version), ListText(j.ciphers), ListText(j.extensions), ListText(j.groups), ListText(j.points)], ',')
  }

  method PrintJa3(j: Ja3) returns (s: string)
    ensures s == Ja3String(j)
  {
    var ciphers := JoinNumbers(j.ciphers);
    var extensions := JoinNumbers(j.extensions);
    var groups := JoinNumbers(j.groups);
    var points := JoinNumbers(j.points);
    s := Join([Decimal(j.version), ciphers, extensions, groups, points], ',');
  }

  // ----- the decoder

  datatype Numbers = Numbers(version: nat, lists: seq<seq<nat>>)

  function ReadList(s: string): Option<seq<nat>>
  {
    if s == "" then Some([])
    else
      var parts := Split(s, '-');
      if forall p <- parts :: AllDigits(p) then
        Some(seq(|parts|, i requires 0 <= i < |parts| => assert parts[i] in parts; NumeralValue(parts[i])))
      else None
  }

  function ReadJa3(s: string): Option<Numbers>
  {
    var parts := Split(s, ',');
    if |parts| != 5 || !AllDigits(parts[0]) then None
    else
      var a, b, c, d := ReadList(parts[1]), ReadList(parts[2]), ReadList(parts[3]), ReadList(parts[4]);
      if a.None? || b.None? || c.None? || d.None? then None
      else Some(Numbers(NumeralValue(parts[0]), [a.value, b.value, c.value, d.value]))
  }

  lemma DecimalAlphabet(n: nat, c: char)
    requires !IsDigit(c)
    ensures c !in Decimal(n)
  {
    DecimalRoundTrip(n);
  }

  lemma {:induction false} JoinAlphabet(parts: seq<string>, sep: char, c: char)
    requires c != sep && Free(parts, c)
    ensures c !in Join(parts, sep)
  {
    if |parts| > 1 {
      JoinAlphabet(parts[1..], sep, c);
    }
  }

  lemma ListRoundTrip(nums: seq<nat>)
    ensures ReadList(ListText(nums)) == Some(nums)
    ensures ',' !in ListText(nums)
  {
    var parts := Decimals(nums);
    forall i | 0 <= i < |nums|
      ensures AllDigits(parts[i]) && parts[i] != "" && NumeralValue(parts[i]) == nums[i]
      ensures '-' !in parts[i] && ',' !in parts[i]
    {
      DecimalRoundTrip(nums[i]);
      DecimalAlphabet(nums[i], '-');
      DecimalAlphabet(nums[i], ',');
    }
    JoinAlphabet(parts, '-', ',');
    if nums != [] {
      SplitJoin(parts, '-');
      assert Join(parts, '-') != "" by { assert parts[0] != ""; }
      var r := ReadList(ListText(nums));
      assert r.Some? && |r.value| == |nums|;
      assert forall i :: 0 <= i < |nums| ==> r.value[i] == NumeralValue(parts[i]);
      assert r.value == nums;
    }
  }

  /** Splitting on ',' and then on '-' recovers the version and the four lists, empty or not. */
  lemma Ja3RoundTrip(j: Ja3)
    ensures ReadJa3(Ja3String(j)) == Some(Numbers(j.version, [j.ciphers, j.extensions, j.groups, j.points]))
  {
    DecimalRoundTrip(j.version);
    DecimalAlphabet(j.version, ',');
    ListRoundTrip(j.ciphers);
    ListRoundTrip(j.extensions);
    ListRoundTrip(j.groups);
    ListRoundTrip(j.points);
    var parts := [
      Decimal(j.version), ListText(j.ciphers), ListText(j.extensions), ListText(j.groups), ListText(j.points)];
    SplitJoin(parts, ',');
  }

  /** Two fingerprints print alike only if they are the same. */
  lemma Ja3StringInjective(a: Ja3, b: Ja3)
    requires Ja3String(a) == Ja3String(b)
    ensures a == b
  {
    Ja3RoundTrip(a);
    Ja3RoundTrip(b);
    var x := Numbers(a.version, [a.ciphers, a.extensions, a.groups, a.points]);
    var y := Numbers(b.version, [b.ciphers, b.extensions, b.groups, b.points]);
    assert x.lists[0] == y.lists[0] && x.lists[1] == y.lists[1] && x.lists[2] == y.lists[2] && x.lists[3] == y.lists[3];
  }
}
