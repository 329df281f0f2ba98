/** Exact-match lookups over the pairs of an entry and over the entries of the
    store: isLangInEntry, isPairInEntry / findPairInAllEntries and
    isWordInEntry / findWordInAllEntries. Each entry-level scan covers the
    inclusive pair range [start, end], where `end == -1` stands for count-1. */
module Matcher {
  import opened Phrases

  /** What a scan compares a pair against. */
  datatype Key =
    | PairKey(lang: string, trans: string)  // language and translation
    | WordKey(word: string)                 // translation only
    | LangKey(language: string)             // language only

  predicate Fits(p: Pair, k: Key) {
    match k
    case PairKey(l, t) => p.lang == l && p.trans == t
    case WordKey(t) => p.trans == t
    case LangKey(l) => p.lang == l
  }

  /** The last pair index a scan covers. */
  function LastIndex(e: Entry, end: int): int {
    if end == -1 then e.count - 1 else end
  }

  /** The bounds an entry-level scan may be given: `end` is -1 or a slot index. */
  predicate ScanRange(e: Entry, end: int) {
    ValidEntry(e) && (end == -1 || end < MaxCount)
  }

  /** Some pair of `e` in the inclusive range [start, end] fits `k`. */
  ghost predicate HasFit(e: Entry, k: Key, start: nat, end: int)
    requires ScanRange(e, end)
  {
    exists j :: start <= j <= LastIndex(e, end) && Fits(e.pairs[j], k)
  }

  function ScanFrom(e: Entry, k: Key, i: nat, last: int): (r: int)
    requires ValidEntry(e) && last < MaxCount
    ensures r == -1 || (i <= r <= last && Fits(e.pairs[r], k))
    ensures r != -1 ==> forall j :: i <= j < r ==> !Fits(e.pairs[j], k)
    ensures r == -1 <==> forall j :: i <= j <= last ==> !Fits(e.pairs[j], k)
    decreases last - i + 1
  {
    if i > last then -1
    else if Fits(e.pairs[i], k) then i
    else ScanFrom(e, k, i + 1, last)
  }

  /** The first pair index in [start, end] that fits `k`, or -1. */
  function FirstFit(e: Entry, k: Key, start: nat, end: int): (r: int)
    requires ScanRange(e, end)
    ensures r == -1 <==> !HasFit(e, k, start, end)
    ensures r != -1 ==> start <= r <= LastIndex(e, end) && Fits(e.pairs[r], k)
    ensures r != -1 ==> forall j :: start <= j < r ==> !Fits(e.pairs[j], k)
  {
    ScanFrom(e, k, start, LastIndex(e, end))
  }

  /** isLangInEntry: does some active pair of `e` have language `lang`? */
  function IsLangInEntry(e: Entry, lang: string): (r: bool)
    requires ValidEntry(e)
    ensures r <==> exists j :: 0 <= j < e.count && e.pairs[j].lang == lang
  {
    FirstFit(e, LangKey(lang), 0, -1) != -1
  }

  /** isPairInEntry: the first index in [start, end] holding exactly the pair
      (lang, tl), or -1 when there is none. */
  function IsPairInEntry(e: Entry, lang: string, tl: string, start: nat, end: int): (r: int)
    requires ScanRange(e, end)
    ensures r == -1 <==> forall j :: start <= j <= LastIndex(e, end) ==> e.pairs[j] != Pair(lang, tl)
    ensures r != -1 ==> start <= r <= LastIndex(e, end) && e.pairs[r] == Pair(lang, tl)
    ensures r != -1 ==> forall j :: start <= j < r ==> e.pairs[j] != Pair(lang, tl)
  {
    FirstFit(e, PairKey(lang, tl), start, end)
  }

  /** isWordInEntry: the first index in [start, end] whose translation is
      `tl`, or -1 when there is none. */
  function IsWordInEntry(e: Entry, tl: string, start: nat, end: int): (r: int)
    requires ScanRange(e, end)
    ensures r == -1 <==> forall j :: start <= j <= LastIndex(e, end) ==> e.pairs[j].trans != tl
    ensures r != -1 ==> start <= r <= LastIndex(e, end) && e.pairs[r].trans == tl
    ensures r != -1 ==> forall j :: start <= j < r ==> e.pairs[j].trans != tl
  {
    FirstFit(e, WordKey(tl), start, end)
  }

  /* ---------------------------------------------------------------------- */
  /* Scans over all active entries                                          */
  /* ---------------------------------------------------------------------- */

  /** The return flag and the match list (arrMatched, *pMatches) of a search. */
  datatype Matches = Matches(found: bool, indices: seq<nat>)

  /** The active entries all allow the scan range. */
  predicate Searchable(s: Store, end: int) {
    s.n <= |s.slots| && (forall i :: 0 <= i < s.n ==> ValidEntry(s.slots[i])) && (end == -1 || end < MaxCount)
  }

  predicate StrictlyIncreasing(xs: seq<nat>) {
    forall a, b :: 0 <= a < b < |xs| ==> xs[a] < xs[b]
  }

  function CollectFrom(s: Store, k: Key, start: nat, end: int, i: nat): (ms: seq<nat>)
    requires Searchable(s, end) && i <= s.n
    ensures StrictlyIncreasing(ms)
    ensures forall a :: 0 <= a < |ms| ==> i <= ms[a] < s.n
    ensures forall x: nat :: x in ms <==> i <= x < s.n && HasFit(s.slots[x], k, start, end)
    decreases s.n - i
  {
    if i == s.n then []
    else
      var rest := CollectFrom(s, k, start, end, i + 1);
      if FirstFit(s.slots[i], k, start, end) != -1 then [i] + rest else rest
  }

  /** The entries 0..n-1 with a fitting pair in [start, end], in store order. */
  function FindInAllEntries(s: Store, k: Key, start: nat, end: int): (m: Matches)
    requires Searchable(s, end)
    ensures m.found <==> |m.indices| > 0
    ensures StrictlyIncreasing(m.indices)
    ensures forall x: nat :: x in m.indices <==> x < s.n && HasFit(s.slots[x], k, start, end)
  {
    var ms := CollectFrom(s, k, start, end, 0);
    Matches(|ms| > 0, ms)
  }

  /** findPairInAllEntries: exactly the active entries holding (lang, tl)
      somewhere in [start, end], in increasing order, flagged when any. */
  function FindPairInAllEntries(lang: string, tl: string, s: Store, start: nat, end: int): (m: Matches)
    requires Searchable(s, end)
    ensures m.found <==> |m.indices| > 0
    ensures StrictlyIncreasing(m.indices)
    ensures forall x: nat :: x in m.indices <==>
      x < s.n && exists j :: start <= j <= LastIndex(s.slots[x], end) && s.slots[x].pairs[j] == Pair(lang, tl)
  {
    FindInAllEntries(s, PairKey(lang, tl), start, end)
  }

  /** findWordInAllEntries: exactly the active entries with translation `tl`
      somewhere in [start, end], in increasing order, flagged when any. */
  function FindWordInAllEntries(s: Store, tl: string, start: nat, end: int): (m: Matches)
    requires Searchable(s, end)
    ensures m.found <==> |m.indices| > 0
    ensures StrictlyIncreasing(m.indices)
    ensures forall x: nat :: x in m.indices <==>
      x < s.n && exists j :: start <= j <= LastIndex(s.slots[x], end) && s.slots[x].pairs[j].trans == tl
  {
    FindInAllEntries(s, WordKey(tl), start, end)
  }

  /** The entries whose source pair is `p`: the range 0,0 the add features use. */
  function SourceMatches(s: Store, p: Pair): (ms: seq<nat>)
    requires ValidStore(s)
    ensures StrictlyIncreasing(ms)
    ensures forall x: nat :: x in ms <==> x < s.n && s.slots[x].pairs[0] == p
  {
    var m := FindPairInAllEntries(p.lang, p.trans, s, 0, 0);
    assert forall x: nat :: x < s.n ==> LastIndex(s.slots[x], 0) == 0;
    m.indices
  }
}
