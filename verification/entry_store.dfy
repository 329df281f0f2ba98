/** The store mutators: appending pairs (assignNewEntries, addMoreTrans), the
    add-entry and add-translation features with their capacity checks, the
    shift deletions of an entry and of a pair, and emptying the store. */
module EntryStore {
  import opened Text
  import opened Phrases
  import opened Matcher
  import opened Canonical

  /** How a feature ended; on anything but Added the store is unchanged. */
  datatype Status =
    | Added
    | StoreFull        // 150 entries already stored
    | EntryFull        // the chosen entry already holds 10 pairs
    | NoSuchSource     // no entry has the given source pair
    | Declined         // the source pair exists and the user chose not to add another entry

  datatype Reply = Reply(store: Store, status: Status)

  function Min(a: int, b: int): int {
    if a <= b then a else b
  }

  /* ---------------------------------------------------------------------- */
  /* Appending pairs                                                        */
  /* ---------------------------------------------------------------------- */

  /** assignNewEntries: write `p` into the first unused pair slot. */
  function AssignNewEntries(e: Entry, p: Pair): (r: Entry)
    requires ValidEntry(e) && e.count < MaxCount
    ensures ValidEntry(r)
    ensures r.count == e.count + 1
    ensures r.pairs[e.count] == p
    ensures forall j :: 0 <= j < MaxCount && j != e.count ==> r.pairs[j] == e.pairs[j]
    ensures NormalEntry(e) && NormalPair(p) ==> NormalEntry(r)
  {
    Entry(e.pairs[e.count := p], e.count + 1)
  }

  /** The active pairs grow by exactly the new pair. */
  lemma AssignNewEntriesAppends(e: Entry, p: Pair)
    requires ValidEntry(e) && e.count < MaxCount
    ensures Active(AssignNewEntries(e, p)) == Active(e) + [p]
  {
    var r := AssignNewEntries(e, p);
    assert Active(r) == Active(e) + [p];
  }

  /** addMoreTrans: keep appending the pairs the user enters until they stop
      (the end of `raw`) or the entry holds 10 pairs. */
  function AddMoreTrans(e: Entry, raw: seq<Pair>): (r: Entry)
    requires ValidEntry(e)
    ensures ValidEntry(r)
    ensures r.count == Min(e.count + |raw|, MaxCount)
    decreases |raw|
  {
    if e.count >= MaxCount || raw == [] then
      e
    else
      AddMoreTrans(AssignNewEntries(e, Ingest(raw[0])), raw[1..])
  }

  /** What addMoreTrans leaves in the pair slots: the old pairs, then the
      normalised input pairs in order; normalisation of the entry is kept. */
  lemma {:induction false} AddMoreTransPairs(e: Entry, raw: seq<Pair>)
    requires ValidEntry(e)
    ensures forall j :: 0 <= j < e.count ==> AddMoreTrans(e, raw).pairs[j] == e.pairs[j]
    ensures forall j :: e.count <= j < AddMoreTrans(e, raw).count ==>
      AddMoreTrans(e, raw).pairs[j] == Ingest(raw[j - e.count])
    ensures NormalEntry(e) ==> NormalEntry(AddMoreTrans(e, raw))
    decreases |raw|
  {
    if e.count < MaxCount && raw != [] {
      var e1 := AssignNewEntries(e, Ingest(raw[0]));
      AddMoreTransPairs(e1, raw[1..]);
      AddMoreTransStep(e, raw, e1, AddMoreTrans(e1, raw[1..]));
    }
  }

  /** The pairs after one step of addMoreTrans, seen from the entry before it. */
  lemma AddMoreTransStep(e: Entry, raw: seq<Pair>, e1: Entry, r: Entry)
    requires |raw| > 0 && e.count < MaxCount
    requires |e.pairs| == MaxCount && |e1.pairs| == MaxCount && |r.pairs| == MaxCount
    requires e1.count == e.count + 1 && e1.pairs[e.count] == Ingest(raw[0])
    requires forall j :: 0 <= j < MaxCount && j != e.count ==> e1.pairs[j] == e.pairs[j]
    requires r.count == Min(e1.count + |raw[1..]|, MaxCount)
    requires forall j :: 0 <= j < e1.count ==> r.pairs[j] == e1.pairs[j]
    requires forall j :: e1.count <= j < r.count ==> r.pairs[j] == Ingest(raw[1..][j - e1.count])
    ensures r.count == Min(e.count + |raw|, MaxCount)
    ensures forall j :: 0 <= j < e.count ==> r.pairs[j] == e.pairs[j]
    ensures forall j :: e.count <= j < r.count ==> r.pairs[j] == Ingest(raw[j - e.count])
  {
    forall j | e.count <= j < r.count
      ensures r.pairs[j] == Ingest(raw[j - e.count])
    {
      if j > e.count {
        assert raw[1..][j - e1.count] == raw[j - e.count];
      }
    }
  }

  /** Slot n receives the entry and the count grows by one. */
  function Append(s: Store, e: Entry): (r: Store)
    requires ValidStore(s) && s.n < MaxEntries && ValidEntry(e)
    ensures ValidStore(r) && r.n == s.n + 1
    ensures r.slots[..s.n] == s.slots[..s.n] && r.slots[s.n] == e
    ensures r.slots[s.n + 1..] == s.slots[s.n + 1..]
    ensures Normalised(s) && NormalEntry(e) ==> Normalised(r)
  {
    Store(s.slots[s.n := e], s.n + 1)
  }

  /** A fresh entry holding the source pair and the pairs that follow it. */
  function NewEntry(p: Pair, targets: seq<Pair>): (e: Entry)
    requires NormalPair(p)
    ensures ValidEntry(e) && NormalEntry(e)
    ensures e.count == Min(1 + |targets|, MaxCount) && e.pairs[0] == p
    ensures forall j :: 1 <= j < e.count ==> e.pairs[j] == Ingest(targets[j - 1])
  {
    ClearedNormal();
    AddMoreTransPairs(AssignNewEntries(Cleared, p), targets);
    AddMoreTrans(AssignNewEntries(Cleared, p), targets)
  }

  /** The store with slot `k` replaced. */
  function Put(s: Store, k: nat, e: Entry): (r: Store)
    requires ValidStore(s) && k < s.n && ValidEntry(e)
    ensures ValidStore(r) && r.n == s.n && r.slots[k] == e
    ensures forall i :: 0 <= i < MaxEntries && i != k ==> r.slots[i] == s.slots[i]
    ensures Normalised(s) && NormalEntry(e) ==> Normalised(r)
  {
    Store(s.slots[k := e], s.n)
  }

  /** addEntryFeat: refused at 150 entries; when the normalised source pair is
      already a source pair the user decides whether to add another entry;
      otherwise slot n gets the source pair and the pairs that follow it. */
  function AddEntry(s: Store, source: Pair, addAnyway: bool, targets: seq<Pair>): (r: Reply)
    requires ValidStore(s) && |targets| >= 1
    ensures ValidStore(r.store)
    ensures Normalised(s) ==> Normalised(r.store)
    ensures r.status in {Added, StoreFull, Declined}
    ensures r.status != Added ==> r.store == s
    ensures r.status == StoreFull <==> s.n >= MaxEntries
    ensures r.status == Declined <==>
      s.n < MaxEntries && |SourceMatches(s, Ingest(source))| > 0 && !addAnyway
    ensures r.status == Added ==>
      && r.store.n == s.n + 1
      && r.store.slots[..s.n] == s.slots[..s.n]
      && r.store.slots[s.n].count == Min(1 + |targets|, MaxCount)
      && r.store.slots[s.n].pairs[0] == Ingest(source)
      && (forall j :: 1 <= j < r.store.slots[s.n].count ==> r.store.slots[s.n].pairs[j] == Ingest(targets[j - 1]))
      && r.store.slots[s.n + 1..] == s.slots[s.n + 1..]
  {
    if s.n >= MaxEntries then
      Reply(s, StoreFull)
    else
      var p := Ingest(source);
      if FindPairInAllEntries(p.lang, p.trans, s, 0, 0).found && !addAnyway then
        Reply(s, Declined)
      else
        var e := NewEntry(p, targets);
        Reply(Append(s, e), Added)
  }

  /** Entry k receives the pairs the user enters, through addMoreTrans. */
  function ExtendEntry(s: Store, k: nat, targets: seq<Pair>): (r: Store)
    requires ValidStore(s) && k < s.n
    ensures ValidStore(r) && r.n == s.n
    ensures forall i :: 0 <= i < MaxEntries && i != k ==> r.slots[i] == s.slots[i]
    ensures r.slots[k].count == Min(s.slots[k].count + |targets|, MaxCount)
    ensures forall j :: 0 <= j < s.slots[k].count ==> r.slots[k].pairs[j] == s.slots[k].pairs[j]
    ensures forall j :: s.slots[k].count <= j < r.slots[k].count ==>
      r.slots[k].pairs[j] == Ingest(targets[j - s.slots[k].count])
    ensures Normalised(s) ==> Normalised(r)
  {
    var e := s.slots[k];
    assert ValidEntry(e) && (Normalised(s) ==> NormalEntry(e));
    AddMoreTransPairs(e, targets);
    Put(s, k, AddMoreTrans(e, targets))
  }

  /** addTransFeat: the entries whose source pair is the normalised `source`
      are offered; the user picks one (`pick`, 0-based, among the matches);
      it is refused when that entry holds 10 pairs, and otherwise the pairs
      the user enters are appended up to 10. */
  function AddTranslation(s: Store, source: Pair, pick: nat, targets: seq<Pair>): (r: Reply)
    requires ValidStore(s) && |targets| >= 1
    requires |SourceMatches(s, Ingest(source))| == 0 || pick < |SourceMatches(s, Ingest(source))|
    ensures ValidStore(r.store)
    ensures Normalised(s) ==> Normalised(r.store)
    ensures r.status in {Added, EntryFull, NoSuchSource}
    ensures r.status != Added ==> r.store == s
    ensures r.status == NoSuchSource <==> |SourceMatches(s, Ingest(source))| == 0
    ensures r.status != NoSuchSource ==>
      var k := SourceMatches(s, Ingest(source))[pick];
      && k < s.n
      && (r.status == EntryFull <==> s.slots[k].count == MaxCount)
      && (r.status == Added ==> r.store == ExtendEntry(s, k, targets))
  {
    var ms := SourceMatches(s, Ingest(source));
    if |ms| == 0 then
      Reply(s, NoSuchSource)
    else
      var k := ms[pick];
      assert k in ms;
      if s.slots[k].count >= MaxCount then
        Reply(s, EntryFull)
      else
        Reply(ExtendEntry(s, k, targets), Added)
  }

  /* ---------------------------------------------------------------------- */
  /* Shift deletions                                                        */
  /* ---------------------------------------------------------------------- */

  /** deleteEntry: entries above position choice-1 move down one slot and the
      last active slot is cleared; the caller decrements the count. */
  /** The store with active slot c taken out: the later active entries move
      down one slot and a cleared entry takes the last active slot. */
  function WithoutEntry(s: Store, c: nat): (r: Store)
    requires ValidStore(s) && c < s.n
    ensures ValidStore(r) && r.n == s.n - 1
    ensures Entries(r) == Entries(s)[..c] + Entries(s)[c + 1..]
  {
    var r := Store(s.slots[..c] + s.slots[c + 1..s.n] + [Cleared] + s.slots[s.n..], s.n - 1);
    assert Entries(r) == Entries(s)[..c] + Entries(s)[c + 1..];
    r
  }

  /** The entry with active pair i taken out: the later active pairs move
      down one slot and a blank takes the last active slot. */
  function WithoutPair(e: Entry, i: nat): (r: Entry)
    requires ValidEntry(e) && i < e.count
    ensures ValidEntry(r) && r.count == e.count - 1
    ensures Active(r) == Active(e)[..i] + Active(e)[i + 1..]
  {
    var r := Entry(e.pairs[..i] + e.pairs[i + 1..e.count] + [Blank] + e.pairs[e.count..], e.count - 1);
    assert Active(r) == Active(e)[..i] + Active(e)[i + 1..];
    r
  }

  method DeleteEntry(slots: seq<Entry>, n: nat, choice: nat) returns (r: seq<Entry>)
    requires n <= |slots| && 1 <= choice <= n
    ensures |r| == |slots|
    ensures forall i :: 0 <= i < choice - 1 ==> r[i] == slots[i]
    ensures forall i :: choice - 1 <= i < n - 1 ==> r[i] == slots[i + 1]
    ensures r[n - 1] == Cleared
    ensures forall i :: n <= i < |slots| ==> r[i] == slots[i]
  {
    r := slots;
    var i := choice - 1;
    while i <= n - 2
      invariant choice - 1 <= i <= n - 1
      invariant |r| == |slots|
      invariant forall x :: 0 <= x < choice - 1 ==> r[x] == slots[x]
      invariant forall x :: choice - 1 <= x < i ==> r[x] == slots[x + 1]
      invariant forall x :: i <= x < |slots| ==> r[x] == slots[x]
    {
      r := r[i := r[i + 1]];
      i := i + 1;
    }
    r := r[i := Cleared];
  }

  /** What deleteEntryFeat does once the choice is read: the chosen entry
      (1-based) leaves the store and the entries after it keep their order. */
  method RemoveEntry(s: Store, choice: nat) returns (r: Store)
    requires ValidStore(s) && 1 <= choice <= s.n
    ensures ValidStore(r)
    ensures r.n == s.n - 1
    ensures Entries(r) == Entries(s)[..choice - 1] + Entries(s)[choice..]
    ensures r == WithoutEntry(s, choice - 1)
    ensures Normalised(s) ==> Normalised(r)
  {
    var slots := DeleteEntry(s.slots, s.n, choice);
    r := Store(slots, s.n - 1);
    ClearedNormal();
    assert slots == WithoutEntry(s, choice - 1).slots;
  }

  /** deleteTrans: pairs above position index-1 (1-based `index`) move down one
      slot, the last used slot is blanked and the count drops by one. */
  method DeleteTrans(e: Entry, index: nat) returns (r: Entry)
    requires ValidEntry(e) && 1 <= index <= e.count
    ensures ValidEntry(r)
    ensures r.count == e.count - 1
    ensures Active(r) == Active(e)[..index - 1] + Active(e)[index..]
    ensures r == WithoutPair(e, index - 1)
    ensures NormalEntry(e) ==> NormalEntry(r)
  {
    var ps := e.pairs;
    var i := index - 1;
    while i < e.count - 1
      invariant index - 1 <= i <= e.count - 1
      invariant |ps| == MaxCount
      invariant forall x :: 0 <= x < index - 1 ==> ps[x] == e.pairs[x]
      invariant forall x :: index - 1 <= x < i ==> ps[x] == e.pairs[x + 1]
      invariant forall x :: i <= x < MaxCount ==> ps[x] == e.pairs[x]
    {
      ps := ps[i := ps[i + 1]];
      i := i + 1;
    }
    ps := ps[i := Blank];
    r := Entry(ps, e.count - 1);
    ClearedNormal();
    assert ps == WithoutPair(e, index - 1).pairs;
  }

  /** Every active entry holds a source pair and at least one translation. */
  predicate Complete(s: Store)
    requires s.n <= |s.slots|
  {
    forall i :: 0 <= i < s.n ==> s.slots[i].count >= 2
  }

  /** One round of deleteTransFeat on active entry c with the 1-based pair
      index: an entry of two pairs goes as a whole, otherwise only that pair
      goes and nothing else changes. */
  function Round(s: Store, c: nat, index: nat): (r: Store)
    requires ValidStore(s) && c < s.n && 1 <= index <= s.slots[c].count
    ensures ValidStore(r)
  {
    if s.slots[c].count == 2 then WithoutEntry(s, c)
    else Store(s.slots[c := WithoutPair(s.slots[c], index - 1)], s.n)
  }

  /** The store the rounds of deleteTransFeat leave, from round k on: a
      missing or invalid index ends them, so does the deletion of the whole
      entry, and so does any answer but yes (a missing one included). */
  function Rounds(s: Store, c: nat, picks: seq<int>, again: seq<bool>, k: nat): (r: Store)
    requires ValidStore(s) && c < s.n && k <= |picks|
    ensures ValidStore(r)
    decreases |picks| - k
  {
    if k == |picks| || !(1 <= picks[k] <= s.slots[c].count) then s
    else
      var s' := Round(s, c, picks[k]);
      if s.slots[c].count == 2 || !(k < |again| && again[k]) then s'
      else Rounds(s', c, picks, again, k + 1)
  }

  /** One deletion of deleteTransFeat: removing a pair from an entry of two
      pairs removes the whole entry; otherwise only the pair goes. `index`
      is 1-based; index 1, the source pair, is what getDelIndex reports when
      the user gives up after entering 1. */
  method RemovePair(s: Store, choice: nat, index: nat) returns (r: Store)
    requires ValidStore(s) && 1 <= choice <= s.n
    requires 1 <= index <= s.slots[choice - 1].count
    ensures ValidStore(r)
    ensures Normalised(s) ==> Normalised(r)
    ensures Complete(s) ==> Complete(r)
    ensures s.slots[choice - 1].count == 2 ==>
      r.n == s.n - 1 && Entries(r) == Entries(s)[..choice - 1] + Entries(s)[choice..]
    ensures s.slots[choice - 1].count != 2 ==>
      && r.n == s.n
      && (forall i :: 0 <= i < MaxEntries && i != choice - 1 ==> r.slots[i] == s.slots[i])
      && r.slots[choice - 1].count == s.slots[choice - 1].count - 1
      && Active(r.slots[choice - 1]) ==
           Active(s.slots[choice - 1])[..index - 1] + Active(s.slots[choice - 1])[index..]
    ensures r == Round(s, choice - 1, index)
  {
    if s.slots[choice - 1].count == 2 {
      r := RemoveEntry(s, choice);
      assert forall i :: 0 <= i < r.n ==> r.slots[i] in Entries(r);
    } else {
      var e := DeleteTrans(s.slots[choice - 1], index);
      r := Store(s.slots[choice - 1 := e], s.n);
    }
  }

  /** deleteEntryFeat: an empty store is left alone. Otherwise the list
      display first arranges the store into `shown`, and the 1-based choice
      refers to that order: a choice in 1..n removes that entry, any other
      choice leaves the arranged store. */
  method DeleteEntryFeat(s: Store, choice: int) returns (r: Store, shown: Store)
    requires ValidStore(s)
    ensures ValidStore(shown) && shown.n == s.n && IsCanonical(shown)
    ensures ArrangedFrom(s, shown)
    ensures IsCanonical(s) ==> shown == s
    ensures s.n == 0 ==> r == s
    ensures ValidStore(r)
    ensures 1 <= choice <= s.n ==>
      r.n == s.n - 1 && Entries(r) == Entries(shown)[..choice - 1] + Entries(shown)[choice..]
    ensures !(1 <= choice <= s.n) ==> r == shown
    ensures Normalised(s) ==> Normalised(r)
  {
    if s.n == 0 {
      r, shown := s, s;
      assert ArrangedVia(s, s, s);
      return;
    }
    shown := Canonicalise(s);
    if 1 <= choice <= s.n {
      r := RemoveEntry(shown, choice);
    } else {
      r := shown;
    }
  }

  /** Dropping one element keeps a sub-multiset. */
  lemma DropSubMultiset<T>(xs: seq<T>, i: nat)
    requires 1 <= i <= |xs|
    ensures multiset(xs[..i - 1] + xs[i..]) <= multiset(xs)
  {
    assert xs == xs[..i - 1] + [xs[i - 1]] + xs[i..];
  }

  /** Removing slot c from two stores that differ only there gives the same entries. */
  lemma RemoveSameEntries(a: Store, b: Store, c: nat)
    requires ValidStore(a) && ValidStore(b) && a.n == b.n && c < a.n
    requires forall i :: 0 <= i < MaxEntries && i != c ==> b.slots[i] == a.slots[i]
    ensures Entries(b)[..c] + Entries(b)[c + 1..] == Entries(a)[..c] + Entries(a)[c + 1..]
  {
  }

  /** The state between rounds of deleteTransFeat on the arranged store `a`
      with entry c chosen: only entry c changed, and it kept some of its pairs. */
  predicate PairsKept(a: Store, r: Store, c: nat)
    requires ValidStore(a) && ValidStore(r) && c < a.n
  {
    && r.n == a.n
    && (forall i :: 0 <= i < MaxEntries && i != c ==> r.slots[i] == a.slots[i])
    && multiset(Active(r.slots[c])) <= multiset(Active(a.slots[c]))
  }

  /** What deleteTransFeat leaves of the arranged store `a` with entry c
      chosen: either only entry c changed and kept some of its pairs, or
      entry c is gone and the others keep their order. */
  predicate PairsDeleted(a: Store, r: Store, c: nat)
    requires ValidStore(a) && ValidStore(r) && c < a.n
  {
    || PairsKept(a, r, c)
    || (r.n == a.n - 1 && Entries(r) == Entries(a)[..c] + Entries(a)[c + 1..])
  }

  /** A round that keeps entry c removes one of its pairs and changes nothing else. */
  lemma RoundKeeps(s: Store, c: nat, index: nat)
    requires ValidStore(s) && c < s.n && 1 <= index <= s.slots[c].count
    requires s.slots[c].count != 2
    ensures PairsKept(s, Round(s, c, index), c)
    ensures Round(s, c, index).slots[c].count == s.slots[c].count - 1
  {
    DropSubMultiset(Active(s.slots[c]), index);
  }

  /** Deletions after kept pairs are deletions from the start. */
  lemma PairsDeletedAfterKept(s: Store, t: Store, r: Store, c: nat)
    requires ValidStore(s) && ValidStore(t) && ValidStore(r) && c < s.n
    requires PairsKept(s, t, c) && PairsDeleted(t, r, c)
    ensures PairsDeleted(s, r, c)
  {
  }

  /** The rounds only ever delete: either only entry c changes and keeps
      some of its pairs, or entry c goes and the others keep their order; and
      a valid first index always deletes something. */
  lemma {:induction false} RoundsDelete(s: Store, c: nat, picks: seq<int>, again: seq<bool>, k: nat)
    requires ValidStore(s) && c < s.n && k <= |picks|
    ensures PairsDeleted(s, Rounds(s, c, picks, again, k), c)
    ensures k < |picks| && 1 <= picks[k] <= s.slots[c].count ==>
      var r := Rounds(s, c, picks, again, k);
      r.n == s.n - 1 || r.slots[c].count < s.slots[c].count
    decreases |picks| - k
  {
    if k < |picks| && 1 <= picks[k] <= s.slots[c].count {
      var s' := Round(s, c, picks[k]);
      if s.slots[c].count == 2 {
        assert Rounds(s, c, picks, again, k) == WithoutEntry(s, c);
      } else {
        RoundKeeps(s, c, picks[k]);
        if k < |again| && again[k] {
          var r := Rounds(s', c, picks, again, k + 1);
          assert Rounds(s, c, picks, again, k) == r;
          RoundsDelete(s', c, picks, again, k + 1);
          PairsDeletedAfterKept(s, s', r, c);
        }
      }
    }
  }

  /** Round k of deleteTransFeat: `more` says whether the rounds go on, and
      the rounds from here leave what they would have left before. */
  method RoundStep(r: Store, c: nat, picks: seq<int>, again: seq<bool>, k: nat)
    returns (r': Store, more: bool)
    requires ValidStore(r) && c < r.n && k < |picks|
    ensures ValidStore(r')
    ensures more ==> r'.n == r.n && Rounds(r', c, picks, again, k + 1) == Rounds(r, c, picks, again, k)
    ensures !more ==> r' == Rounds(r, c, picks, again, k)
    ensures Normalised(r) ==> Normalised(r')
    ensures Complete(r) ==> Complete(r')
  {
    var index := picks[k];
    if !(1 <= index <= r.slots[c].count) {
      r', more := r, false;
      return;
    }
    r' := RemovePair(r, c + 1, index);
    more := r.slots[c].count != 2 && k < |again| && again[k];
  }

  /** The rounds of deleteTransFeat on the arranged store `a`, entry c. */
  method DeleteRounds(a: Store, c: nat, picks: seq<int>, again: seq<bool>) returns (r: Store)
    requires ValidStore(a) && c < a.n
    ensures ValidStore(r)
    ensures r == Rounds(a, c, picks, again, 0)
    ensures PairsDeleted(a, r, c)
    ensures Normalised(a) ==> Normalised(r)
    ensures Complete(a) ==> Complete(r)
  {
    RoundsDelete(a, c, picks, again, 0);
    r := a;
    var k := 0;
    while k < |picks|
      invariant k <= |picks|
      invariant ValidStore(r) && r.n == a.n
      invariant Rounds(r, c, picks, again, k) == Rounds(a, c, picks, again, 0)
      invariant Normalised(a) ==> Normalised(r)
      invariant Complete(a) ==> Complete(r)
    {
      var more;
      r, more := RoundStep(r, c, picks, again, k);
      if !more {
        return;
      }
      k := k + 1;
    }
  }

  /** deleteTransFeat: an empty store is left alone. Otherwise the list
      display first arranges the store into `shown`, and the 1-based entry
      choice refers to that order. For a valid choice, `picks` are the pair
      indices getDelIndex reports, one per round, and `again` the answers to
      "delete another?". A round stops the feature when its index is outside
      1..count or missing; otherwise the pair is removed, and when the entry
      held two pairs the whole entry goes and the feature ends. A missing
      answer counts as no. */
  method DeleteTransFeat(s: Store, choice: int, picks: seq<int>, again: seq<bool>)
    returns (r: Store, shown: Store)
    requires ValidStore(s)
    ensures ValidStore(shown) && shown.n == s.n && IsCanonical(shown)
    ensures ArrangedFrom(s, shown)
    ensures IsCanonical(s) ==> shown == s
    ensures s.n == 0 ==> r == s
    ensures ValidStore(r)
    ensures Normalised(s) ==> Normalised(r)
    ensures Complete(shown) ==> Complete(r)
    ensures !(1 <= choice <= s.n) ==> r == shown
    ensures 1 <= choice <= s.n ==> PairsDeleted(shown, r, choice - 1)
    ensures 1 <= choice <= s.n ==> r == Rounds(shown, choice - 1, picks, again, 0)
  {
    if s.n == 0 {
      r, shown := s, s;
      assert ArrangedVia(s, s, s);
      return;
    }
    shown := Canonicalise(s);
    if 1 <= choice <= s.n {
      r := DeleteRounds(shown, choice - 1, picks, again);
    } else {
      r := shown;
    }
  }

  /** emptyEntry: every active entry is cleared and the count is reset. */
  method EmptyEntry(s: Store) returns (r: Store)
    requires s.n <= |s.slots|
    ensures r.n == 0 && |r.slots| == |s.slots|
    ensures forall i :: 0 <= i < s.n ==> r.slots[i] == Cleared
    ensures forall i :: s.n <= i < |s.slots| ==> r.slots[i] == s.slots[i]
    ensures ValidStore(s) ==> r == EmptyStore()
  {
    var slots := s.slots;
    var i := 0;
    while i < s.n
      invariant 0 <= i <= s.n
      invariant |slots| == |s.slots|
      invariant forall x :: 0 <= x < i ==> slots[x] == Cleared
      invariant forall x :: i <= x < |slots| ==> slots[x] == s.slots[x]
    {
      slots := slots[i := Cleared];
      i := i + 1;
    }
    r := Store(slots, 0);
    if ValidStore(s) {
      assert slots == EmptyStore().slots;
    }
  }
}
