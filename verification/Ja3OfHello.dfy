/** `buildJA3FromRaw` from the packet to the printed string, and what two equal strings say about
    two ClientHello messages. */
module Ja3OfHello {
  import opened Text
  import opened ClientHello
  import opened ClientHelloWire
  import opened Ja3Text

  datatype TextOutcome = Printed(text: string) | Refused(error: ParseError) | Panicked

  function TextOf(o: Outcome): TextOutcome
  {
    match o
    case Parsed(ja3) => Printed(Ja3String(ja3))
    case Failed(e) => TextOutcome.Refused(e)
    case IndexPanic => Panicked
  }

  method BuildJa3Text(packet: seq<byte>) returns (r: TextOutcome)
    ensures r == TextOf(Parse(packet))
  {
    var o := BuildJa3FromRaw(packet);
    match o {
      case Parsed(ja3) =>
        var s := PrintJa3(ja3);
        r := Printed(s);
      case Failed(e) =>
        r := TextOutcome.Refused(e);
      case IndexPanic =>
        r := Panicked;
    }
  }

  lemma JoinMore(first: string, rest: seq<string>, sep: char)
    requires rest != []
    ensures Join([first] + rest, sep) == first + [sep] + Join(rest, sep)
  {
    assert ([first] + rest)[1..] == rest;
  }

  /** The printed form spelled out: the five parts with commas between them, and each list as its
      decimals with hyphens between them. */
  lemma PrintedForm(j: Ja3)
    ensures Ja3String(j)
         == Decimal(j.version) + "," + (ListText(j.ciphers) + "," + (ListText(j.extensions) + ","
              + (ListText(j.groups) + "," + ListText(j.points))))
  {
    var v, c, e, g, p :=
      Decimal(j.version), ListText(j.ciphers), ListText(j.extensions), ListText(j.groups), ListText(j.points);
    JoinMore(g, [p], ',');
    JoinMore(e, [g, p], ',');
    JoinMore(c, [e, g, p], ',');
    JoinMore(v, [c, e, g, p], ',');
    assert [g] + [p] == [g, p] && [e] + [g, p] == [e, g, p] && [c] + [e, g, p] == [c, e, g, p];
    assert [v] + [c, e, g, p] == [v, c, e, g, p];
  }

  lemma ListForm(first: nat, rest: seq<nat>)
    ensures ListText([]) == "" && ListText([first]) == Decimal(first)
    ensures rest != [] ==> ListText([first] + rest) == Decimal(first) + "-" + ListText(rest)
  {
    if rest != [] {
      assert Decimals([first] + rest) == [Decimal(first)] + Decimals(rest);
      JoinMore(Decimal(first), Decimals(rest), '-');
    }
  }

  /** Nothing of what the parser finds is lost in the string. */
  lemma TextTellsOutcome(a: Outcome, b: Outcome)
    ensures TextOf(a) == TextOf(b) <==> a == b
  {
    if a.Parsed? && b.Parsed? && Ja3String(a.ja3) == Ja3String(b.ja3) {
      Ja3StringInjective(a.ja3, b.ja3);
    }
  }

  /** Two messages on the wire, each with or without a record header and whatever follows it, print
      the same string if and only if they agree in version, ciphers, extension types, groups and
      point formats. */
  lemma SameTextSameFingerprint(
      header: seq<byte>, h: Hello, trailing: seq<byte>, header': seq<byte>, h': Hello, trailing': seq<byte>)
    requires RecordHeader(header) && ValidHello(h) && RecordHeader(header') && ValidHello(h')
    ensures var a, b := header + Serialize(h) + trailing, header' + Serialize(h') + trailing';
      && TextOf(Parse(a)).Printed?
      && (TextOf(Parse(a)) == TextOf(Parse(b)) <==> Fingerprint(h) == Fingerprint(h'))
  {
    ParseSerialized(header, h, trailing);
    ParseSerialized(header', h', trailing');
    TextTellsOutcome(Parsed(Fingerprint(h)), Parsed(Fingerprint(h')));
  }
}
