/** The data model of the phrase store: language-translation pairs, entries
    of at most ten pairs, and the store of at most 150 entries. The store is
    modelled with all its slots, as the program keeps it: the `n` active
    entries sit in slots 0..n-1 and every higher slot is a cleared entry. */
module Phrases {
  import opened Text

  const MaxEntries: nat := 150
  const MaxCount: nat := 10

  /** One language-translation pair; pair 0 of an entry is its source pair. */
  datatype Pair = Pair(lang: string, trans: string)

  /** An emptied pair slot (both strings set to ""). */
  const Blank: Pair := Pair("", "")

  /** An entry: all ten pair slots and the number `count` in use. */
  datatype Entry = Entry(pairs: seq<Pair>, count: nat)

  /** clearEntry: ten blank slots and a zero count. */
  function ClearEntry(): (e: Entry)
    ensures |e.pairs| == MaxCount && e.count == 0
    ensures forall j :: 0 <= j < |e.pairs| ==> e.pairs[j] == Blank
  {
    Entry(seq(MaxCount, _ => Blank), 0)
  }

  const Cleared: Entry := ClearEntry()

  /** Ten slots, at most ten in use, and the unused slots blank. */
  predicate ValidEntry(e: Entry) {
    && |e.pairs| == MaxCount
    && e.count <= MaxCount
    && forall j :: e.count <= j < MaxCount ==> e.pairs[j] == Blank
  }

  /** The store: 150 entry slots and the active entry count `n`. */
  datatype Store = Store(slots: seq<Entry>, n: nat)

  predicate ValidStore(s: Store) {
    && |s.slots| == MaxEntries
    && s.n <= MaxEntries
    && (forall i :: 0 <= i < |s.slots| ==> ValidEntry(s.slots[i]))
    && forall i :: s.n <= i < |s.slots| ==> s.slots[i] == Cleared
  }

  /** The store as the program starts with it. */
  function EmptyStore(): Store {
    Store(seq(MaxEntries, _ => Cleared), 0)
  }

  /** The active pairs of an entry. */
  function Active(e: Entry): seq<Pair>
    requires e.count <= |e.pairs|
  {
    e.pairs[..e.count]
  }

  /** The active entries of a store. */
  function Entries(s: Store): seq<Entry>
    requires s.n <= |s.slots|
  {
    s.slots[..s.n]
  }

  /* ---------------------------------------------------------------------- */
  /* Normalisation at the ingestion points                                  */
  /* ---------------------------------------------------------------------- */

  /** Languages are stored title-cased and translations lower-cased. */
  predicate NormalPair(p: Pair) {
    Titled(p.lang, true) && AllLower(p.trans)
  }

  predicate NormalEntry(e: Entry) {
    forall j :: 0 <= j < |e.pairs| ==> NormalPair(e.pairs[j])
  }

  /** Every pair slot of the store, used or blank, is normalised. */
  predicate Normalised(s: Store) {
    forall i :: 0 <= i < |s.slots| ==> NormalEntry(s.slots[i])
  }

  /** What getLangTrans and importFeat do to every pair they read. */
  function Ingest(raw: Pair): (p: Pair)
    ensures NormalPair(p)
    ensures |p.lang| == |raw.lang| && |p.trans| == |raw.trans|
    ensures NormalPair(raw) ==> p == raw
  {
    TitleFromTitled(raw.lang, true);
    LowercaseAllLower(raw.trans);
    Pair(TitleCase(raw.lang), Lowercase(raw.trans))
  }

  lemma ClearedNormal()
    ensures NormalPair(Blank) && NormalEntry(Cleared) && ValidEntry(Cleared)
  {
  }

  lemma EmptyStoreValid()
    ensures ValidStore(EmptyStore()) && Normalised(EmptyStore())
  {
    ClearedNormal();
  }
}
