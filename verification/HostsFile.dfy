/** The hosts-file parser and a printer it inverts. */
module HostsFile {
  import opened Text

  datatype Entry = Entry(ip: string, hostnames: seq<string>, comment: string)

  /** strings.Index of one character; the length of the string when there is none. */
  function IndexOf(s: string, c: char): (i: nat)
    ensures i <= |s| && c !in s[..i] && (i < |s| ==> s[i] == c)
  {
    if s == "" || s[0] == c then 0 else 1 + IndexOf(s[1..], c)
  }

  function CommentAt(l: string): nat
  {
    if '#' in l then IndexOf(l, '#') else IndexOf(l, ';')
  }

  /** What stands before the comment, and the comment. */
  function BodyOf(l: string): string
  {
    var i := CommentAt(l);
    if i < |l| then TrimSpace(l[..i]) else l
  }

  function CommentOf(l: string): string
  {
    var i := CommentAt(l);
    if i < |l| then TrimSpace(l[i + 1..]) else ""
  }

  function FromFields(fields: seq<string>, comment: string): Option<Entry>
  {
    if |fields| < 2 then None else Some(Entry(fields[0], fields[1..], comment))
  }

  function ReadLine(raw: string): Option<Entry>
  {
    var l := TrimSpace(raw);
    if l == "" || HasPrefix(l, "#") || HasPrefix(l, ";") then None
    else FromFields(Fields(BodyOf(l)), CommentOf(l))
  }

  /** The entries that `read` finds in the lines, in order. */
  function EntriesBy(raw: seq<string>, read: string -> Option<Entry>): seq<Entry>
  {
    if raw == [] then []
    else
      var e := read(raw[|raw| - 1]);
      if e.Some? then EntriesBy(raw[..|raw| - 1], read) + [e.value] else EntriesBy(raw[..|raw| - 1], read)
  }

  function Entries(content: string): seq<Entry> { EntriesBy(Split(content, '\n'), ReadLine) }

  lemma {:induction false} EntriesGrow(raw: seq<string>, read: string -> Option<Entry>, i: nat)
    requires i <= |raw|
    ensures EntriesBy(raw[..i], read) <= EntriesBy(raw, read)
    decreases |raw|
  {
    if i == |raw| {
      assert raw[..i] == raw;
    } else {
      var init := raw[..|raw| - 1];
      EntriesGrow(init, read, i);
      assert init[..i] == raw[..i];
    }
  }

  method CollectEntries(lines: seq<string>, read: string -> Option<Entry>, limit: int) returns (entries: seq<Entry>)
    ensures entries == Take(EntriesBy(lines, read), if limit >= 1 then limit else 1)
  {
    entries := [];
    assert lines[..0] == [];
    for i := 0 to |lines|
      invariant entries == EntriesBy(lines[..i], read)
      invariant |entries| < (if limit >= 1 then limit else 1)
    {
      assert lines[..i + 1][..i] == lines[..i];
      var e := read(lines[i]);
      if e.None? {
        continue;
      }
      entries := entries + [e.value];
      if |entries| >= limit {
        EntriesGrow(lines, read, i + 1);
        return;
      }
    }
    assert lines[..|lines|] == lines;
  }

  /** At least one entry is read whatever the limit is. */
  method ParseHostsContent(content: string, limit: int) returns (entries: seq<Entry>)
    ensures entries == Take(Entries(content), if limit >= 1 then limit else 1)
  {
    entries := CollectEntries(Split(content, '\n'), ReadLine, limit);
  }

  // ----- printing

  predicate NameText(s: string) { s != "" && NoSpace(s) && '#' !in s && ';' !in s }

  predicate ValidEntry(e: Entry)
  {
    && NameText(e.ip)
    && e.hostnames != [] && (forall h <- e.hostnames :: NameText(h))
    && Trimmed(e.comment) && '\n' !in e.comment
  }

  function Names(e: Entry): string { Join([e.ip] + e.hostnames, ' ') }

  function PrintEntry(e: Entry): string
  {
    if e.comment == "" then Names(e) else Names(e) + " # " + e.comment
  }

  function PrintAll(es: seq<Entry>): string
  {
    Join(seq(|es|, i requires 0 <= i < |es| => PrintEntry(es[i])), '\n')
  }

  lemma {:induction false} JoinEnds(ws: seq<string>, c: char)
    requires Words(ws) && ws != []
    ensures var s := Join(ws, ' '); s != "" && !IsSpace(s[0]) && !IsSpace(s[|s| - 1])
    ensures c != ' ' && Free(ws, c) ==> c !in Join(ws, ' ')
  {
    assert ws[0] in ws && ws[0][0] in ws[0] && ws[0][|ws[0]| - 1] in ws[0];
    if |ws| > 1 {
      JoinEnds(ws[1..], c);
    }
  }

  lemma NamesText(e: Entry)
    requires ValidEntry(e)
    ensures Words([e.ip] + e.hostnames)
    ensures var s := Names(e); s != "" && !IsSpace(s[0]) && !IsSpace(s[|s| - 1])
    ensures '#' !in Names(e) && ';' !in Names(e) && '\n' !in Names(e)
  {
    var ws := [e.ip] + e.hostnames;
    assert Words(ws) && Free(ws, '#') && Free(ws, ';');
    assert IsSpace('\n');
    JoinEnds(ws, '#');
    JoinEnds(ws, ';');
    JoinEnds(ws, '\n');
  }

  lemma {:induction false} IndexAt(a: string, c: char, b: string)
    requires c !in a
    ensures IndexOf(a + [c] + b, c) == |a|
  {
    if a != "" {
      assert (a + [c] + b)[1..] == a[1..] + [c] + b;
      IndexAt(a[1..], c, b);
    }
  }

  lemma TrimOneSpace(s: string)
    requires Trimmed(s) && s != ""
    ensures TrimSpace(s + " ") == s && TrimSpace(" " + s) == s
  {
    assert (s + " ")[..|s|] == s && (" " + s)[1..] == s;
    assert TrimRight(s + " ") == TrimRight(s) == s;
    assert TrimRight(" " + s) == " " + s;
    assert TrimLeft(" " + s) == TrimLeft(s) == s;
  }

  lemma FieldsOfNames(e: Entry)
    requires ValidEntry(e)
    ensures FromFields(Fields(Names(e)), e.comment) == Some(e)
  {
    NamesText(e);
    FieldsJoin([e.ip] + e.hostnames);
  }

  lemma CutAt(a: string, c: char, b: string)
    requires c !in a
    ensures var l := a + [c] + b;
      c in l && IndexOf(l, c) == |a| < |l| && l[..|a|] == a && l[|a| + 1..] == b
  {
    var l := a + [c] + b;
    IndexAt(a, c, b);
    assert l[|a|] == c;
  }

  lemma CommentedLine(e: Entry)
    requires e.comment != ""
    ensures PrintEntry(e) == (Names(e) + " ") + ['#'] + (" " + e.comment)
  {}

  lemma CommentPosition(e: Entry)
    requires ValidEntry(e)
    ensures BodyOf(PrintEntry(e)) == Names(e) && CommentOf(PrintEntry(e)) == e.comment
  {
    NamesText(e);
    if e.comment != "" {
      CommentedLine(e);
      CutAt(Names(e) + " ", '#', " " + e.comment);
      TrimOneSpace(Names(e));
      TrimOneSpace(e.comment);
    }
  }

  lemma PrintedIsTrimmed(e: Entry)
    requires ValidEntry(e)
    ensures var l := PrintEntry(e);
      l != "" && TrimSpace(l) == l && !HasPrefix(l, "#") && !HasPrefix(l, ";") && '\n' !in l
  {
    var l, names := PrintEntry(e), Names(e);
    NamesText(e);
    assert names[0] in names && l[0] == names[0];
    if e.comment != "" {
      assert l[|l| - 1] == e.comment[|e.comment| - 1];
    }
    TrimTrimmed(l);
  }

  lemma EntryRoundTrip(e: Entry)
    requires ValidEntry(e)
    ensures ReadLine(PrintEntry(e)) == Some(e)
  {
    PrintedIsTrimmed(e);
    CommentPosition(e);
    FieldsOfNames(e);
  }

  lemma {:induction false} EntriesOfPrinted(es: seq<Entry>, raw: seq<string>, read: string -> Option<Entry>)
    requires |raw| == |es| && forall i :: 0 <= i < |es| ==> read(raw[i]) == Some(es[i])
    ensures EntriesBy(raw, read) == es
  {
    if es != [] {
      var k := |es| - 1;
      EntriesOfPrinted(es[..k], raw[..k], read);
      assert es == es[..k] + [es[k]];
    }
  }

  /** Printing any list of entries and parsing the text returns the list; with the contract of
      `ParseHostsContent`, cut to the limit. */
  lemma HostsRoundTrip(es: seq<Entry>)
    requires forall e <- es :: ValidEntry(e)
    ensures Entries(PrintAll(es)) == es
  {
    var raw := seq(|es|, i requires 0 <= i < |es| => PrintEntry(es[i]));
    forall i | 0 <= i < |es| ensures '\n' !in raw[i] && ReadLine(raw[i]) == Some(es[i]) {
      PrintedIsTrimmed(es[i]);
      EntryRoundTrip(es[i]);
    }
    if es == [] {
      assert Split("", '\n') == [""] && ReadLine("") == None;
      assert EntriesBy([""][..0], ReadLine) == [];
    } else {
      SplitJoin(raw, '\n');
      EntriesOfPrinted(es, raw, ReadLine);
    }
  }

  // ----- other lines

  /** Space around a line does not count. */
  lemma PaddedLine(a: string, e: Entry, b: string)
    requires ValidEntry(e) && AllSpace(a) && AllSpace(b)
    ensures ReadLine(a + PrintEntry(e) + b) == Some(e)
  {
    var l := PrintEntry(e);
    PrintedIsTrimmed(e);
    PrintedEnds(e);
    TrimSurrounded(a, l, b);
    EntryRoundTrip(e);
  }

  lemma PrintedEnds(e: Entry)
    requires ValidEntry(e)
    ensures Trimmed(PrintEntry(e))
  {
    NamesText(e);
    var l := PrintEntry(e);
    assert l[0] == Names(e)[0];
    if e.comment != "" {
      assert l[|l| - 1] == e.comment[|e.comment| - 1];
    }
  }

  function SemicolonText(e: Entry): string { (Names(e) + " ") + [';'] + (" " + e.comment) }

  lemma NoHash(e: Entry)
    requires ValidEntry(e) && '#' !in e.comment
    ensures '#' !in SemicolonText(e) && ';' !in Names(e) + " "
  {
    NamesText(e);
  }

  lemma CommentAfterSemicolon(a: string, b: string)
    requires ';' !in a && '#' !in a + [';'] + b
    ensures BodyOf(a + [';'] + b) == TrimSpace(a) && CommentOf(a + [';'] + b) == TrimSpace(b)
  {
    CutAt(a, ';', b);
  }

  lemma SemicolonPosition(e: Entry)
    requires ValidEntry(e) && e.comment != "" && '#' !in e.comment
    ensures BodyOf(SemicolonText(e)) == Names(e) && CommentOf(SemicolonText(e)) == e.comment
  {
    NoHash(e);
    CommentAfterSemicolon(Names(e) + " ", " " + e.comment);
    NamesText(e);
    TrimOneSpace(Names(e));
    TrimOneSpace(e.comment);
  }

  lemma SemicolonTrimmed(e: Entry)
    requires ValidEntry(e) && e.comment != ""
    ensures var l := SemicolonText(e);
      l != "" && TrimSpace(l) == l && !HasPrefix(l, "#") && !HasPrefix(l, ";")
  {
    var l := SemicolonText(e);
    NamesText(e);
    assert Names(e)[0] in Names(e) && l[0] == Names(e)[0] && l[|l| - 1] == e.comment[|e.comment| - 1];
    TrimTrimmed(l);
  }

  /** A comment may begin with ';' too, if no '#' stands in it. */
  lemma SemicolonLine(e: Entry)
    requires ValidEntry(e) && e.comment != "" && '#' !in e.comment
    ensures ReadLine(SemicolonText(e)) == Some(e)
  {
    SemicolonTrimmed(e);
    SemicolonPosition(e);
    FieldsOfNames(e);
  }

  /** Blank lines, lines of a comment, and lines of one word are passed over. */
  lemma SkippedLines(a: string, c: string, w: string, b: string)
    requires AllSpace(a) && AllSpace(b) && w != "" && NoSpace(w) && '#' !in w && ';' !in w
    requires Trimmed("#" + c) && Trimmed(";" + c)
    ensures ReadLine(a) == None
    ensures ReadLine(a + ("#" + c) + b) == None && ReadLine(a + (";" + c) + b) == None
    ensures ReadLine(a + w + b) == None
  {
    TrimBlank(a);
    TrimSurrounded(a, "#" + c, b);
    TrimSurrounded(a, ";" + c, b);
    OneWord(a, w, b);
  }

  lemma OneWord(a: string, w: string, b: string)
    requires AllSpace(a) && AllSpace(b) && w != "" && NoSpace(w) && '#' !in w && ';' !in w
    ensures ReadLine(a + w + b) == None
  {
    assert w[0] in w && w[|w| - 1] in w;
    TrimSurrounded(a, w, b);
    FieldsFirst(w, "");
    assert w + "" == w;
  }

  /** The entries of two texts, one after the other on lines of their own. */
  lemma EntriesOfTwo(s: string, t: string)
    ensures Entries(s + "\n" + t) == Entries(s) + Entries(t)
  {
    SplitTwo(s, t);
    EntriesConcat(Split(s, '\n'), Split(t, '\n'));
  }

  lemma SplitFirst(s: string, sep: char)
    requires s != ""
    ensures var rest := Split(s[1..], sep);
      Split(s, sep) == if s[0] == sep then [""] + rest else [[s[0]] + rest[0]] + rest[1..]
  {}

  lemma {:induction false} SplitTwo(s: string, t: string)
    ensures Split(s + "\n" + t, '\n') == Split(s, '\n') + Split(t, '\n')
  {
    var both := s + "\n" + t;
    SplitFirst(both, '\n');
    if s == "" {
      assert both[1..] == t && both[0] == '\n' && Split(s, '\n') == [""];
    } else {
      SplitTwo(s[1..], t);
      SplitFirst(s, '\n');
      assert both[1..] == s[1..] + "\n" + t && both[0] == s[0];
      FirstOfTwo(Split(s[1..], '\n'), Split(t, '\n'), s[0]);
    }
  }

  lemma FirstOfTwo(rest: seq<string>, more: seq<string>, c: char)
    requires rest != []
    ensures [""] + (rest + more) == ([""] + rest) + more
    ensures [[c] + (rest + more)[0]] + (rest + more)[1..] == ([[c] + rest[0]] + rest[1..]) + more
  {
    assert (rest + more)[0] == rest[0] && (rest + more)[1..] == rest[1..] + more;
  }

  lemma Reassociate(a: seq<Entry>, b: seq<Entry>, c: seq<Entry>)
    ensures (a + b) + c == a + (b + c)
  {}

  lemma {:induction false} EntriesConcat(a: seq<string>, b: seq<string>)
    ensures EntriesBy(a + b, ReadLine) == EntriesBy(a, ReadLine) + EntriesBy(b, ReadLine)
    decreases |b|
  {
    if b == [] {
      assert a + b == a;
    } else {
      var init, e := b[..|b| - 1], ReadLine(b[|b| - 1]);
      EntriesConcat(a, init);
      assert (a + b)[..|a + b| - 1] == a + init && (a + b)[|a + b| - 1] == b[|b| - 1];
      if e.Some? {
        Reassociate(EntriesBy(a, ReadLine), EntriesBy(init, ReadLine), [e.value]);
      }
    }
  }
}
