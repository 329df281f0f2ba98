/** The text format of exportFeat and importFeat. A file is modelled as its
    sequence of lines (without line terminators) and the user's answers to
    "add the loaded entry?" as a sequence of booleans, one per offered block. */
module Codec {
  import opened Text
  import opened Phrases
  import opened EntryStore

  datatype Option<T> = None | Some(value: T)

  /* ---------------------------------------------------------------------- */
  /* Export                                                                 */
  /* ---------------------------------------------------------------------- */

  /** The "%s: %s" line of one pair. */
  function FormatPair(p: Pair): string {
    p.lang + ": " + p.trans
  }

  /** One line per active pair, then the blank line that closes the entry. */
  function EntryLines(e: Entry): (ls: seq<string>)
    requires e.count <= |e.pairs|
    ensures |ls| == e.count + 1 && ls[e.count] == ""
    ensures forall j :: 0 <= j < e.count ==> ls[j] == FormatPair(e.pairs[j])
  {
    seq(e.count, j requires 0 <= j < e.count => FormatPair(e.pairs[j])) + [""]
  }

  /** The lines of a sequence of entries, one block after the other. */
  function EntriesLines(es: seq<Entry>): (ls: seq<string>)
    requires forall i :: 0 <= i < |es| ==> ValidEntry(es[i])
    decreases |es|
  {
    if es == [] then []
    else
      assert ValidEntry(es[0]);
      assert forall i :: 1 <= i < |es| ==> es[1..][i - 1] == es[i];
      EntryLines(es[0]) + EntriesLines(es[1..])
  }

  function ExportLines(s: Store): seq<string>
    requires ValidStore(s)
  {
    EntriesLines(Entries(s))
  }

  /** exportFeat: refused when the store is empty; otherwise the lines written. */
  function Export(s: Store): (r: Option<seq<string>>)
    requires ValidStore(s)
    ensures r.None? <==> s.n == 0
    ensures r.Some? ==> r.value == ExportLines(s) && |r.value| >= 1
  {
    if s.n == 0 then None
    else
      assert ExportLines(s) == EntryLines(s.slots[0]) + EntriesLines(Entries(s)[1..]);
      Some(ExportLines(s))
  }

  /* ---------------------------------------------------------------------- */
  /* sscanf(line, "%[^:\n]: %[^:\n]", lang, trans)                          */
  /* ---------------------------------------------------------------------- */

  /** The characters a %[^:\n] conversion stops at. */
  predicate IsStop(c: char) {
    c == ':' || c == '\n'
  }

  /** isspace in the "C" locale: what a blank in a scanf format skips. */
  predicate IsSpace(c: char) {
    c == ' ' || c == '\t' || c == '\n' || c == '\r' || c as int == 11 || c as int == 12
  }

  /** The length of the longest prefix free of ':' and newline. */
  function Span(s: string): (k: nat)
    ensures k <= |s|
    ensures forall i :: 0 <= i < k ==> !IsStop(s[i])
    ensures k < |s| ==> IsStop(s[k])
    decreases |s|
  {
    if s == [] || IsStop(s[0]) then 0 else 1 + Span(s[1..])
  }

  /** Position k of the line is the ':' ending a non-empty language. */
  predicate LangEnd(line: string, k: int) {
    0 < k < |line| && NoStop(line[..k]) && line[k] == ':'
  }

  /** A language can only end where the line's span of non-stops ends. */
  lemma LangEndIsSpan(line: string)
    ensures forall k :: LangEnd(line, k) ==> k == Span(line)
  {
  }

  /** The length of the longest prefix of white space. */
  function SkipSpace(s: string): (k: nat)
    ensures k <= |s|
    ensures forall i :: 0 <= i < k ==> IsSpace(s[i])
    ensures k < |s| ==> !IsSpace(s[k])
    decreases |s|
  {
    if s == [] || !IsSpace(s[0]) then 0 else 1 + SkipSpace(s[1..])
  }

  predicate NoStop(s: string) {
    forall i :: 0 <= i < |s| ==> !IsStop(s[i])
  }

  /** The second conversion, on the text after the ':': the format's blank
      skips any white space, then a non-empty run up to the next ':' or
      newline is read. */
  function ParseTrans(rest: string): (r: Option<string>)
    ensures r.Some? ==>
      var w := SkipSpace(rest);
      && |r.value| > 0 && NoStop(r.value)
      && w + |r.value| <= |rest| && rest[w..w + |r.value|] == r.value
      && (w + |r.value| < |rest| ==> IsStop(rest[w + |r.value|]))
    ensures r.None? ==> SkipSpace(rest) == |rest| || IsStop(rest[SkipSpace(rest)])
  {
    var w := SkipSpace(rest);
    var tail := rest[w..];
    var b := Span(tail);
    if b == 0 then None
    else
      assert tail[..b] == rest[w..w + b];
      Some(tail[..b])
  }

  /** Both conversions succeed (sscanf returns 2): a non-empty language up to
      the first ':', the ':', then the translation ParseTrans reads from the
      rest of the line; whatever follows it is ignored. */
  function ParsePair(line: string): (r: Option<Pair>)
    ensures r.Some? ==>
      && |r.value.lang| > 0 && NoStop(r.value.lang)
      && |r.value.lang| < |line| && line[..|r.value.lang| + 1] == r.value.lang + ":"
      && ParseTrans(line[|r.value.lang| + 1..]) == Some(r.value.trans)
    ensures r.None? ==> forall k :: LangEnd(line, k) ==> ParseTrans(line[k + 1..]).None?
  {
    var a := Span(line);
    LangEndIsSpan(line);
    if a == 0 || a == |line| || line[a] != ':' then None
    else
      match ParseTrans(line[a + 1..])
      case None => None
      case Some(t) =>
        assert line[..a + 1] == line[..a] + ":";
        Some(Pair(line[..a], t))
  }

  /** A parsed pair: a non-empty language that is the line up to its first
      ':', and a non-empty translation free of ':' and newline that does not
      start with white space. */
  lemma ParsePairSome(line: string)
    ensures var r := ParsePair(line);
      r.Some? ==>
        && |r.value.lang| > 0 && NoStop(r.value.lang)
        && |r.value.trans| > 0 && NoStop(r.value.trans)
        && |r.value.lang| < |line| && line[..|r.value.lang| + 1] == r.value.lang + ":"
        && !IsSpace(r.value.trans[0])
  {
    var a := Span(line);
    if ParsePair(line).Some? {
      assert line[..a + 1] == line[..a] + ":";
    }
  }

  /** A line without ':' never parses. */
  lemma ParsePairNoColon(line: string)
    requires forall i :: 0 <= i < |line| ==> line[i] != ':'
    ensures ParsePair(line).None?
  {
  }

  /** A pair the export format carries faithfully: normalised, both strings
      non-empty and free of ':' and newline, the translation not starting
      with white space. */
  predicate Exportable(p: Pair) {
    && NormalPair(p)
    && |p.lang| > 0 && NoStop(p.lang)
    && |p.trans| > 0 && NoStop(p.trans)
    && !IsSpace(p.trans[0])
  }

  /** Every exported pair line re-parses to its pair. */
  lemma ParseFormat(p: Pair)
    requires |p.lang| > 0 && NoStop(p.lang)
    requires |p.trans| > 0 && NoStop(p.trans) && !IsSpace(p.trans[0])
    ensures ParsePair(FormatPair(p)) == Some(p)
  {
    var line := FormatPair(p);
    assert line == p.lang + (": " + p.trans);
    SpanPrefix(p.lang, ": " + p.trans);
    assert line[|p.lang|] == ':';
    var rest := line[|p.lang| + 1..];
    assert rest == " " + p.trans;
    assert rest[1..] == p.trans;
    SkipOneSpace(p.trans);
    SpanPrefix(p.trans, "");
    assert p.trans + "" == p.trans;
  }

  lemma {:induction false} SpanPrefix(a: string, b: string)
    requires NoStop(a) && (b == [] || IsStop(b[0]))
    ensures Span(a + b) == |a|
    decreases |a|
  {
    if a != [] {
      assert (a + b)[1..] == a[1..] + b;
      SpanPrefix(a[1..], b);
    } else {
      assert a + b == b;
    }
  }

  lemma SkipOneSpace(t: string)
    requires |t| > 0 && !IsSpace(t[0])
    ensures SkipSpace(" " + t) == 1
  {
    assert (" " + t)[1..] == t;
  }

  /** A blank line never parses: it ends the pending block. */
  lemma BlankLineEndsBlock()
    ensures ParsePair("") == None
  {
  }

  /* ---------------------------------------------------------------------- */
  /* Import                                                                 */
  /* ---------------------------------------------------------------------- */

  /** The number of "yes" answers among the first k. */
  function Yeses(answers: seq<bool>): nat
    decreases |answers|
  {
    if answers == [] then 0 else (if answers[0] then 1 else 0) + Yeses(answers[1..])
  }

  /** The read loop of importFeat from a given pending block `temp`: a
      parsable line is normalised and added to the block while it holds fewer
      than 10 pairs; any other line offers the block, which is appended when
      the answer is yes (a missing answer counts as no), and a new block
      starts. Reading stops at the end of the lines or once 150 entries are
      stored; a block still pending at the end is dropped. */
  function ImportFrom(s: Store, temp: Entry, lines: seq<string>, answers: seq<bool>): (r: Store)
    requires ValidStore(s) && ValidEntry(temp)
    ensures ValidStore(r) && s.n <= r.n <= MaxEntries
    ensures r.n - s.n <= Yeses(answers)
    ensures forall i :: 0 <= i < s.n ==> r.slots[i] == s.slots[i]
    ensures Normalised(s) && NormalEntry(temp) ==> Normalised(r)
    decreases |lines|
  {
    if lines == [] || s.n >= MaxEntries then s
    else
      var parsed := ParsePair(lines[0]);
      if parsed.Some? && temp.count < MaxCount then
        ImportFrom(s, AssignNewEntries(temp, Ingest(parsed.value)), lines[1..], answers)
      else
        var yes := |answers| > 0 && answers[0];
        var rest := if answers == [] then [] else answers[1..];
        ClearedNormal();
        if yes then ImportFrom(Append(s, temp), Cleared, lines[1..], rest)
        else ImportFrom(s, Cleared, lines[1..], rest)
  }

  /** importFeat over the lines of a file. */
  function Import(s: Store, lines: seq<string>, answers: seq<bool>): (r: Store)
    requires ValidStore(s)
    ensures ValidStore(r) && s.n <= r.n <= MaxEntries
    ensures r.n - s.n <= Yeses(answers)
    ensures forall i :: 0 <= i < s.n ==> r.slots[i] == s.slots[i]
    ensures Normalised(s) ==> Normalised(r)
  {
    ClearedNormal();
    ImportFrom(s, Cleared, lines, answers)
  }

  /* ---------------------------------------------------------------------- */
  /* Round trip                                                             */
  /* ---------------------------------------------------------------------- */

  predicate ExportableEntry(e: Entry)
    requires ValidEntry(e)
  {
    forall j :: 0 <= j < e.count ==> Exportable(e.pairs[j])
  }

  /** The block being rebuilt after its first j pair lines. */
  function PrefixEntry(e: Entry, j: nat): (r: Entry)
    requires ValidEntry(e) && j <= e.count
    ensures ValidEntry(r) && r.count == j
  {
    ClearedNormal();
    Entry(e.pairs[..j] + Cleared.pairs[j..], j)
  }

  /** Adding pair j to the first j pairs gives the first j + 1. */
  lemma PrefixStep(e: Entry, j: nat)
    requires ValidEntry(e) && ExportableEntry(e) && j < e.count
    ensures AssignNewEntries(PrefixEntry(e, j), Ingest(e.pairs[j])) == PrefixEntry(e, j + 1)
  {
    assert Ingest(e.pairs[j]) == e.pairs[j];
    var a := AssignNewEntries(PrefixEntry(e, j), e.pairs[j]);
    var b := PrefixEntry(e, j + 1);
    assert a.pairs == b.pairs by {
      forall k | 0 <= k < MaxCount
        ensures a.pairs[k] == b.pairs[k]
      {
      }
    }
  }

  /** All pairs of a well-formed entry rebuild the entry. */
  lemma PrefixFull(e: Entry)
    requires ValidEntry(e)
    ensures PrefixEntry(e, e.count) == e
  {
    var b := PrefixEntry(e, e.count);
    ClearedNormal();
    assert b.pairs == e.pairs by {
      forall k | 0 <= k < MaxCount
        ensures b.pairs[k] == e.pairs[k]
      {
      }
    }
  }

  /** One parsable line while the block has room: the pair joins the block. */
  lemma ImportPairLine(s: Store, temp: Entry, p: Pair, rest: seq<string>, answers: seq<bool>)
    requires ValidStore(s) && s.n < MaxEntries && ValidEntry(temp) && temp.count < MaxCount
    requires |p.lang| > 0 && NoStop(p.lang)
    requires |p.trans| > 0 && NoStop(p.trans) && !IsSpace(p.trans[0])
    ensures ImportFrom(s, temp, [FormatPair(p)] + rest, answers) ==
      ImportFrom(s, AssignNewEntries(temp, Ingest(p)), rest, answers)
  {
    ParseFormat(p);
    assert ([FormatPair(p)] + rest)[1..] == rest;
  }

  /** A blank line answered yes: the block is appended and a new one starts. */
  lemma ImportBlankLine(s: Store, temp: Entry, rest: seq<string>, answers: seq<bool>)
    requires ValidStore(s) && s.n < MaxEntries && ValidEntry(temp)
    requires |answers| > 0 && answers[0]
    ensures ImportFrom(s, temp, [""] + rest, answers) ==
      ImportFrom(Append(s, temp), Cleared, rest, answers[1..])
  {
    BlankLineEndsBlock();
    assert ([""] + rest)[1..] == rest;
  }

  /** The line of pair j moves the block from j pairs to j + 1. */
  lemma ImportEntryStep(s: Store, e: Entry, j: nat, rest: seq<string>, answers: seq<bool>)
    requires ValidStore(s) && s.n < MaxEntries && ValidEntry(e) && ExportableEntry(e)
    requires j < e.count
    ensures ImportFrom(s, PrefixEntry(e, j), EntryLines(e)[j..] + rest, answers) ==
      ImportFrom(s, PrefixEntry(e, j + 1), EntryLines(e)[j + 1..] + rest, answers)
  {
    var ls := EntryLines(e);
    var p := e.pairs[j];
    assert Exportable(p);
    assert ls[j..] + rest == [FormatPair(p)] + (ls[j + 1..] + rest);
    ImportPairLine(s, PrefixEntry(e, j), p, ls[j + 1..] + rest, answers);
    PrefixStep(e, j);
  }

  /** Reading the rest of an entry's lines completes the block and offers it. */
  lemma {:induction false} ImportEntryFrom(s: Store, e: Entry, j: nat, rest: seq<string>, answers: seq<bool>)
    requires ValidStore(s) && s.n < MaxEntries && ValidEntry(e) && ExportableEntry(e)
    requires j <= e.count && |answers| > 0 && answers[0]
    ensures ImportFrom(s, PrefixEntry(e, j), EntryLines(e)[j..] + rest, answers) ==
      ImportFrom(Append(s, e), Cleared, rest, answers[1..])
    decreases e.count - j
  {
    if j == e.count {
      assert EntryLines(e)[j..] + rest == [""] + rest;
      PrefixFull(e);
      ImportBlankLine(s, e, rest, answers);
    } else {
      ImportEntryStep(s, e, j, rest, answers);
      ImportEntryFrom(s, e, j + 1, rest, answers);
    }
  }

  /** The store after appending the entries es one by one. */
  function AppendAll(s: Store, es: seq<Entry>): (r: Store)
    requires ValidStore(s) && s.n + |es| <= MaxEntries
    requires forall i :: 0 <= i < |es| ==> ValidEntry(es[i])
    ensures ValidStore(r) && r.n == s.n + |es|
    decreases |es|
  {
    if es == [] then s
    else
      assert ValidEntry(es[0]);
      assert forall i :: 1 <= i < |es| ==> es[1..][i - 1] == es[i];
      AppendAll(Append(s, es[0]), es[1..])
  }

  /** Appending es places them in slots n..n+|es|-1 and leaves the rest. */
  lemma {:induction false} AppendAllSlots(s: Store, es: seq<Entry>)
    requires ValidStore(s) && s.n + |es| <= MaxEntries
    requires forall i :: 0 <= i < |es| ==> ValidEntry(es[i])
    ensures forall i :: 0 <= i < s.n ==> AppendAll(s, es).slots[i] == s.slots[i]
    ensures forall i :: 0 <= i < |es| ==> AppendAll(s, es).slots[s.n + i] == es[i]
    ensures forall i :: s.n + |es| <= i < MaxEntries ==> AppendAll(s, es).slots[i] == s.slots[i]
    decreases |es|
  {
    if es != [] {
      var s1 := Append(s, es[0]);
      assert ValidEntry(es[0]);
      assert forall i :: 1 <= i < |es| ==> es[1..][i - 1] == es[i];
      AppendAllSlots(s1, es[1..]);
      var r := AppendAll(s, es);
      assert r == AppendAll(s1, es[1..]);
      forall i | 0 <= i < |es|
        ensures r.slots[s.n + i] == es[i]
      {
        if i > 0 {
          assert r.slots[s1.n + (i - 1)] == es[1..][i - 1];
        }
      }
    }
  }

  /** The store after appending es, as one value. */
  lemma AppendAllStore(s: Store, es: seq<Entry>)
    requires ValidStore(s) && s.n + |es| <= MaxEntries
    requires forall i :: 0 <= i < |es| ==> ValidEntry(es[i])
    ensures AppendAll(s, es) == Store(s.slots[..s.n] + es + s.slots[s.n + |es|..], s.n + |es|)
  {
    AppendAllSlots(s, es);
    var r := AppendAll(s, es);
    var pre, post := s.slots[..s.n], s.slots[s.n + |es|..];
    var want := pre + es + post;
    assert |want| == MaxEntries;
    forall i | 0 <= i < MaxEntries
      ensures r.slots[i] == want[i]
    {
      if i < s.n {
        assert want[i] == pre[i];
      } else if i < s.n + |es| {
        assert want[i] == es[i - s.n];
        assert r.slots[s.n + (i - s.n)] == es[i - s.n];
      } else {
        assert want[i] == post[i - s.n - |es|];
      }
    }
    assert r.slots == want;
  }

  /** No pairs read yet: the block is a cleared entry. */
  lemma PrefixEmpty(e: Entry)
    requires ValidEntry(e)
    ensures PrefixEntry(e, 0) == Cleared
  {
    assert PrefixEntry(e, 0).pairs == Cleared.pairs;
  }

  /** The first entry's lines append it and leave the rest to read. */
  lemma ImportFirstEntry(s: Store, es: seq<Entry>, answers: seq<bool>)
    requires ValidStore(s) && s.n < MaxEntries && |es| > 0
    requires forall i :: 0 <= i < |es| ==> ValidEntry(es[i])
    requires ExportableEntry(es[0]) && |answers| > 0 && answers[0]
    ensures ImportFrom(s, Cleared, EntriesLines(es), answers) ==
      ImportFrom(Append(s, es[0]), Cleared, EntriesLines(es[1..]), answers[1..])
  {
    var e := es[0];
    PrefixEmpty(e);
    assert EntryLines(e)[0..] == EntryLines(e);
    ImportEntryFrom(s, e, 0, EntriesLines(es[1..]), answers);
  }

  /** Importing the lines of entries es, answering yes to every block,
      appends exactly those entries in order. */
  lemma {:induction false} ImportEntries(s: Store, es: seq<Entry>, answers: seq<bool>)
    requires ValidStore(s) && s.n + |es| <= MaxEntries
    requires forall i :: 0 <= i < |es| ==> ValidEntry(es[i]) && ExportableEntry(es[i])
    requires |answers| >= |es| && forall i :: 0 <= i < |es| ==> answers[i]
    ensures ImportFrom(s, Cleared, EntriesLines(es), answers) == AppendAll(s, es)
    decreases |es|
  {
    if es != [] {
      var tail := es[1..];
      ImportFirstEntry(s, es, answers);
      assert forall i :: 0 <= i < |tail| ==> tail[i] == es[i + 1] && answers[1..][i] == answers[i + 1];
      ImportEntries(Append(s, es[0]), tail, answers[1..]);
    }
  }

  /** Every entry of es is valid and exportable, stated entry by entry. */
  predicate AllExportable(es: seq<Entry>)
    decreases |es|
  {
    es == [] || (ValidEntry(es[0]) && ExportableEntry(es[0]) && AllExportable(es[1..]))
  }

  lemma {:induction false} AllExportableIff(es: seq<Entry>)
    ensures AllExportable(es) <==>
      forall i :: 0 <= i < |es| ==> ValidEntry(es[i]) && ExportableEntry(es[i])
    decreases |es|
  {
    if es != [] {
      assert forall i :: 1 <= i < |es| ==> es[1..][i - 1] == es[i];
      AllExportableIff(es[1..]);
    }
  }

  /** Importing the lines of entries es into s, confirming every block,
      gives s with es spliced in at slot n. */
  lemma ImportEntriesStore(s: Store, es: seq<Entry>, lines: seq<string>, answers: seq<bool>)
    requires ValidStore(s) && s.n + |es| <= MaxEntries && AllExportable(es)
    requires forall i :: 0 <= i < |es| ==> ValidEntry(es[i])
    requires |answers| >= |es| && forall i :: 0 <= i < |es| ==> answers[i]
    requires lines == EntriesLines(es)
    ensures Import(s, lines, answers) ==
      Store(s.slots[..s.n] + es + s.slots[s.n + |es|..], s.n + |es|)
  {
    AllExportableIff(es);
    ImportEntries(s, es, answers);
    AppendAllStore(s, es);
  }

  /** The active entries of a store whose pairs are exportable. */
  lemma ActiveExportable(t: Store)
    requires ValidStore(t)
    requires forall i :: 0 <= i < t.n ==> ExportableEntry(t.slots[i])
    ensures |Entries(t)| == t.n && AllExportable(Entries(t))
    ensures forall i :: 0 <= i < |Entries(t)| ==> ValidEntry(Entries(t)[i])
  {
    var es := Entries(t);
    assert forall i :: 0 <= i < |es| ==> es[i] == t.slots[i];
    AllExportableIff(es);
  }

  /** The codec round trip: importing the export of store t into store s,
      confirming every block, appends t's entries after s's in order,
      provided t's pairs are exportable and both fit in 150 entries. */
  lemma ImportExport(s: Store, t: Store, answers: seq<bool>)
    requires ValidStore(s) && ValidStore(t) && s.n + t.n <= MaxEntries
    requires forall i :: 0 <= i < t.n ==> ExportableEntry(t.slots[i])
    requires |answers| >= t.n && forall i :: 0 <= i < t.n ==> answers[i]
    ensures Import(s, ExportLines(t), answers) ==
      Store(s.slots[..s.n] + Entries(t) + s.slots[s.n + t.n..], s.n + t.n)
  {
    ActiveExportable(t);
    ImportEntriesStore(s, Entries(t), ExportLines(t), answers);
  }

  /** Splicing a store's active entries into the empty store gives it back. */
  lemma SpliceIntoEmpty(t: Store)
    requires ValidStore(t)
    ensures Store(EmptyStore().slots[..0] + Entries(t) + EmptyStore().slots[t.n..], t.n) == t
  {
    var s := EmptyStore();
    var want := s.slots[..0] + Entries(t) + s.slots[t.n..];
    assert |want| == MaxEntries;
    forall i | 0 <= i < MaxEntries
      ensures want[i] == t.slots[i]
    {
      if i < t.n {
        assert want[i] == Entries(t)[i];
      } else {
        assert want[i] == s.slots[i] == Cleared;
      }
    }
    assert want == t.slots;
  }

  /** In particular an exported store re-imports into an empty store as itself. */
  lemma ImportExportEmpty(t: Store, answers: seq<bool>)
    requires ValidStore(t)
    requires forall i :: 0 <= i < t.n ==> ExportableEntry(t.slots[i])
    requires |answers| >= t.n && forall i :: 0 <= i < t.n ==> answers[i]
    ensures Import(EmptyStore(), ExportLines(t), answers) == t
  {
    EmptyStoreValid();
    ImportExport(EmptyStore(), t, answers);
    SpliceIntoEmpty(t);
  }
}
