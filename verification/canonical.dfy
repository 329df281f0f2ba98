/** The two arrangement passes that the list display and the word and
    translation searches run first: arrangeInterEnt moves the entries that
    hold an "English" pair to the front, and arrangeIntraEnt selection-sorts
    the translation pairs of every entry (positions 1..count-1) by language
    in strcmp order. */
module Canonical {
  import opened Phrases
  import opened Matcher

  const English: string := "English"

  /** swapEntry and swapLangTrans: exchange two positions of a sequence. */
  function Swap<T>(xs: seq<T>, i: nat, j: nat): (r: seq<T>)
    requires i < |xs| && j < |xs|
    ensures |r| == |xs| && r[i] == xs[j] && r[j] == xs[i]
    ensures forall k :: 0 <= k < |xs| && k != i && k != j ==> r[k] == xs[k]
  {
    xs[i := xs[j]][j := xs[i]]
  }

  /** Exchanging two positions below n keeps the multiset of the first n items. */
  lemma SwapPermutes<T>(xs: seq<T>, i: nat, j: nat, n: nat)
    requires i < n && j < n && n <= |xs|
    ensures multiset(Swap(xs, i, j)[..n]) == multiset(xs[..n])
  {
    var ys := xs[..n];
    assert Swap(xs, i, j)[..n] == ys[i := ys[j]][j := ys[i]];
  }

  /* ---------------------------------------------------------------------- */
  /* Inter-entry pass                                                       */
  /* ---------------------------------------------------------------------- */

  /** isLangInEntry(entries, "English", i) for a well-formed entry. */
  predicate HasEnglish(e: Entry) {
    ValidEntry(e) && IsLangInEntry(e, English)
  }

  /** The English-bearing entries of `xs`, in their order. */
  function EnglishEntries(xs: seq<Entry>): (ys: seq<Entry>)
    ensures |ys| <= |xs|
    ensures forall k :: 0 <= k < |ys| ==> HasEnglish(ys[k])
    decreases |xs|
  {
    if xs == [] then []
    else (if HasEnglish(xs[0]) then [xs[0]] else []) + EnglishEntries(xs[1..])
  }

  lemma {:induction false} EnglishEntriesAppend(a: seq<Entry>, b: seq<Entry>)
    ensures EnglishEntries(a + b) == EnglishEntries(a) + EnglishEntries(b)
    decreases |a|
  {
    if a == [] {
      assert a + b == b;
    } else {
      assert (a + b)[1..] == a[1..] + b;
      EnglishEntriesAppend(a[1..], b);
    }
  }

  lemma {:induction false} NoEnglishEntries(xs: seq<Entry>)
    requires forall k :: 0 <= k < |xs| ==> !HasEnglish(xs[k])
    ensures EnglishEntries(xs) == []
    decreases |xs|
  {
    if xs != [] {
      NoEnglishEntries(xs[1..]);
    }
  }

  /** No entry without English comes before an entry with English. */
  predicate EnglishFirst(xs: seq<Entry>, n: nat)
    requires n <= |xs|
  {
    forall p, q :: 0 <= p < q < n && HasEnglish(xs[q]) ==> HasEnglish(xs[p])
  }

  /** When English entries come first they are exactly the English entries,
      in order: the active entries start with EnglishEntries. */
  lemma {:induction false} EnglishPrefix(xs: seq<Entry>)
    requires EnglishFirst(xs, |xs|)
    ensures xs[..|EnglishEntries(xs)|] == EnglishEntries(xs)
    ensures forall k :: |EnglishEntries(xs)| <= k < |xs| ==> !HasEnglish(xs[k])
    decreases |xs|
  {
    if xs != [] {
      var tail := xs[1..];
      assert EnglishFirst(tail, |tail|) by {
        forall p, q | 0 <= p < q < |tail| && HasEnglish(tail[q])
          ensures HasEnglish(tail[p])
        {
          assert xs[q + 1] == tail[q] && xs[p + 1] == tail[p];
        }
      }
      EnglishPrefix(tail);
      if HasEnglish(xs[0]) {
        assert EnglishEntries(xs) == [xs[0]] + EnglishEntries(tail);
        assert xs == [xs[0]] + tail;
      } else {
        assert forall k :: 0 < k < |xs| ==> !HasEnglish(xs[k]);
        NoEnglishEntries(tail);
      }
    }
  }

  /** EnglishPrefix for the first n slots. */
  lemma EnglishFirstPrefix(a: seq<Entry>, n: nat)
    requires n <= |a| && EnglishFirst(a, n)
    ensures a[..n][..|EnglishEntries(a[..n])|] == EnglishEntries(a[..n])
    ensures forall x :: |EnglishEntries(a[..n])| <= x < n ==> !HasEnglish(a[x])
  {
    var xs := a[..n];
    assert EnglishFirst(xs, |xs|) by {
      forall p, q | 0 <= p < q < |xs| && HasEnglish(xs[q])
        ensures HasEnglish(xs[p])
      {
        assert xs[q] == a[q] && xs[p] == a[p];
      }
    }
    EnglishPrefix(xs);
    assert forall x :: 0 <= x < n ==> xs[x] == a[x];
  }

  /** The inner loop of arrangeInterEnt: the nearest entry after i, below n,
      that holds English, or -1. */
  method NearestEnglish(a: seq<Entry>, i: nat, n: nat) returns (j: int)
    requires i < n <= |a|
    ensures j == -1 ==> forall k :: i < k < n ==> !HasEnglish(a[k])
    ensures j != -1 ==> i < j < n && HasEnglish(a[j])
    ensures j != -1 ==> forall k :: i < k < j ==> !HasEnglish(a[k])
  {
    j := i + 1;
    while j < n && !HasEnglish(a[j])
      invariant i + 1 <= j <= n
      invariant forall k :: i < k < j ==> !HasEnglish(a[k])
    {
      j := j + 1;
    }
    if j == n {
      j := -1;
    }
  }

  /** The filter over p, x, m, y, t where only y among x, m, y is English,
      in either order of x and y. */
  lemma EnglishEntriesOfPieces(p: seq<Entry>, x: Entry, m: seq<Entry>, y: Entry, t: seq<Entry>)
    requires !HasEnglish(x) && HasEnglish(y) && EnglishEntries(m) == []
    ensures EnglishEntries(p + [x] + m + [y] + t) == EnglishEntries(p) + [y] + EnglishEntries(t)
    ensures EnglishEntries(p + [y] + m + [x] + t) == EnglishEntries(p) + [y] + EnglishEntries(t)
  {
    var ex, ey := EnglishEntries([x]), EnglishEntries([y]);
    assert ex == [] by {
      assert [x][1..] == [];
    }
    assert ey == [y] by {
      assert [y][1..] == [];
    }
    EnglishEntriesAppend(p + [x] + m + [y], t);
    EnglishEntriesAppend(p + [x] + m, [y]);
    EnglishEntriesAppend(p + [x], m);
    EnglishEntriesAppend(p, [x]);
    assert EnglishEntries(p + [x] + m + [y]) == EnglishEntries(p) + [y];
    EnglishEntriesAppend(p + [y] + m + [x], t);
    EnglishEntriesAppend(p + [y] + m, [x]);
    EnglishEntriesAppend(p + [y], m);
    EnglishEntriesAppend(p, [y]);
    assert EnglishEntries(p + [y] + m + [x]) == EnglishEntries(p) + [y];
  }

  /** The first n items around an exchange of i < j. */
  lemma SwapPieces<T>(a: seq<T>, i: nat, j: nat, n: nat)
    requires i < j < n <= |a|
    ensures a[..n] == a[..i] + [a[i]] + a[i + 1..j] + [a[j]] + a[j + 1..n]
    ensures Swap(a, i, j)[..n] == a[..i] + [a[j]] + a[i + 1..j] + [a[i]] + a[j + 1..n]
  {
    var b := Swap(a, i, j);
    var c := a[..i] + [a[j]] + a[i + 1..j] + [a[i]] + a[j + 1..n];
    assert |b[..n]| == |c|;
    forall k | 0 <= k < n
      ensures b[..n][k] == c[k]
    {
      if k < i {
      } else if k == i {
      } else if k < j {
        assert c[k] == a[i + 1..j][k - i - 1];
      } else if k == j {
      } else {
        assert c[k] == a[j + 1..n][k - j - 1];
      }
    }
  }

  /** Moving the nearest English entry j forward to a non-English position i
      keeps the entries and the order of the English ones. */
  lemma SwapForward(a: seq<Entry>, i: nat, j: nat, n: nat)
    requires i < j < n <= |a|
    requires !HasEnglish(a[i]) && HasEnglish(a[j])
    requires forall k :: i < k < j ==> !HasEnglish(a[k])
    ensures multiset(Swap(a, i, j)[..n]) == multiset(a[..n])
    ensures EnglishEntries(Swap(a, i, j)[..n]) == EnglishEntries(a[..n])
  {
    SwapPermutes(a, i, j, n);
    SwapPieces(a, i, j, n);
    NoEnglishEntries(a[i + 1..j]);
    EnglishEntriesOfPieces(a[..i], a[i], a[i + 1..j], a[j], a[j + 1..n]);
  }

  /** Exchanging two entries keeps every slot well formed and normalised. */
  lemma SwapKeepsSlots(a: seq<Entry>, i: nat, j: nat, normal: bool)
    requires i < |a| && j < |a|
    requires forall x :: 0 <= x < |a| ==> ValidEntry(a[x])
    requires normal ==> forall x :: 0 <= x < |a| ==> NormalEntry(a[x])
    ensures forall x :: 0 <= x < |a| ==> ValidEntry(Swap(a, i, j)[x])
    ensures normal ==> forall x :: 0 <= x < |a| ==> NormalEntry(Swap(a, i, j)[x])
  {
    var b := Swap(a, i, j);
    forall x | 0 <= x < |a|
      ensures ValidEntry(b[x]) && (normal ==> NormalEntry(b[x]))
    {
      if x != i && x != j {
        assert b[x] == a[x];
      }
    }
  }

  /** After the exchange at i the partition reaches position i. */
  lemma SwapExtendsPartition(a: seq<Entry>, i: nat, j: nat, n: nat)
    requires i < j < n <= |a|
    requires HasEnglish(a[j]) && !HasEnglish(a[i])
    requires forall p, q :: 0 <= p < i && p < q < n && HasEnglish(a[q]) ==> HasEnglish(a[p])
    ensures forall p, q :: 0 <= p < i + 1 && p < q < n && HasEnglish(Swap(a, i, j)[q]) ==>
      HasEnglish(Swap(a, i, j)[p])
  {
    var b := Swap(a, i, j);
    forall p, q | 0 <= p < i + 1 && p < q < n && HasEnglish(b[q])
      ensures HasEnglish(b[p])
    {
      if p < i {
        assert b[p] == a[p];
        if q == i {
          assert HasEnglish(a[j]) && p < j;
        } else if q != j {
          assert b[q] == a[q];
        }
      }
    }
  }

  /** What the outer loop of arrangeInterEnt keeps after handling positions
      0..i-1: the same entries, the same English order, English first up to i. */
  ghost predicate InterInv(s: Store, a: seq<Entry>, i: nat)
    requires ValidStore(s)
  {
    && |a| == MaxEntries && i <= s.n
    && (forall x :: s.n <= x < MaxEntries ==> a[x] == s.slots[x])
    && (forall x :: 0 <= x < |a| ==> ValidEntry(a[x]))
    && (Normalised(s) ==> forall x :: 0 <= x < |a| ==> NormalEntry(a[x]))
    && multiset(a[..s.n]) == multiset(s.slots[..s.n])
    && EnglishEntries(a[..s.n]) == EnglishEntries(s.slots[..s.n])
    && (forall p, q :: 0 <= p < i && p < q < s.n && HasEnglish(a[q]) ==> HasEnglish(a[p]))
    && (EnglishFirst(s.slots, s.n) ==> a == s.slots)
  }

  /** Moving the nearest English entry j to position i extends the invariant. */
  lemma SwapStep(s: Store, a: seq<Entry>, i: nat, j: nat)
    requires ValidStore(s) && InterInv(s, a, i) && i < j < s.n
    requires !HasEnglish(a[i]) && HasEnglish(a[j])
    requires forall k :: i < k < j ==> !HasEnglish(a[k])
    ensures InterInv(s, Swap(a, i, j), i + 1)
  {
    SwapForward(a, i, j, s.n);
    SwapKeepsSlots(a, i, j, Normalised(s));
    SwapExtendsPartition(a, i, j, s.n);
  }

  /** Position i needs no move: it holds English, or nothing after it does. */
  lemma KeepStep(s: Store, a: seq<Entry>, i: nat)
    requires ValidStore(s) && InterInv(s, a, i) && i < s.n
    requires HasEnglish(a[i]) || forall k :: i < k < s.n ==> !HasEnglish(a[k])
    ensures InterInv(s, a, i + 1)
  {
  }

  /** One iteration of arrangeInterEnt at position i. */
  method InterStep(s: Store, a: seq<Entry>, i: nat) returns (b: seq<Entry>)
    requires ValidStore(s) && InterInv(s, a, i) && i + 1 < s.n
    ensures InterInv(s, b, i + 1)
  {
    b := a;
    if !HasEnglish(a[i]) {
      var j := NearestEnglish(a, i, s.n);
      if j != -1 {
        SwapStep(s, a, i, j);
        b := Swap(a, i, j);
      } else {
        KeepStep(s, a, i);
      }
    } else {
      KeepStep(s, a, i);
    }
  }

  /** arrangeInterEnt: the active entries are permuted so that those holding
      an "English" pair come first, in their original order; nothing inside
      an entry changes, and an arrangement already in that shape is kept. */
  method ArrangeInterEnt(s: Store) returns (r: Store)
    requires ValidStore(s)
    ensures ValidStore(r) && r.n == s.n
    ensures forall x :: s.n <= x < MaxEntries ==> r.slots[x] == s.slots[x]
    ensures multiset(Entries(r)) == multiset(Entries(s))
    ensures EnglishFirst(r.slots, r.n)
    ensures EnglishEntries(Entries(r)) == EnglishEntries(Entries(s))
    ensures EnglishFirst(s.slots, s.n) ==> r == s
    ensures Normalised(s) ==> Normalised(r)
    ensures var k := |EnglishEntries(Entries(s))|;
      && Entries(r)[..k] == EnglishEntries(Entries(s))
      && forall x :: k <= x < r.n ==> !HasEnglish(r.slots[x])
  {
    var a := s.slots;
    var i := 0;
    while i + 1 < s.n
      invariant InterInv(s, a, i)
    {
      a := InterStep(s, a, i);
      i := i + 1;
    }
    r := Store(a, s.n);
    EnglishFirstPrefix(a, s.n);
  }

  /* ---------------------------------------------------------------------- */
  /* Intra-entry pass                                                       */
  /* ---------------------------------------------------------------------- */

  /** strcmp(a, b) < 0: `a` is below `b` at the first difference, or a proper prefix. */
  predicate StrLess(a: string, b: string)
    decreases |a|
  {
    if |a| == 0 then |b| > 0
    else if |b| == 0 then false
    else if a[0] != b[0] then a[0] < b[0]
    else StrLess(a[1..], b[1..])
  }

  /** The strcmp order is a strict total order on strings. */
  lemma {:induction false} StrLessIrreflexive(a: string)
    ensures !StrLess(a, a)
    decreases |a|
  {
    if |a| > 0 {
      StrLessIrreflexive(a[1..]);
    }
  }

  lemma {:induction false} StrLessTransitive(a: string, b: string, c: string)
    requires StrLess(a, b) && StrLess(b, c)
    ensures StrLess(a, c)
    decreases |a|
  {
    if |a| > 0 && |b| > 0 && |c| > 0 && a[0] == b[0] && b[0] == c[0] {
      StrLessTransitive(a[1..], b[1..], c[1..]);
    }
  }

  lemma {:induction false} StrLessTotal(a: string, b: string)
    ensures a == b || StrLess(a, b) || StrLess(b, a)
    decreases |a|
  {
    if |a| > 0 && |b| > 0 && a[0] == b[0] {
      StrLessTotal(a[1..], b[1..]);
      if a[1..] == b[1..] {
        assert a == [a[0]] + a[1..] && b == [b[0]] + b[1..];
      }
    }
  }

  lemma StrLessAsymmetric(a: string, b: string)
    requires StrLess(a, b)
    ensures !StrLess(b, a)
  {
    if StrLess(b, a) {
      StrLessTransitive(a, b, a);
      StrLessIrreflexive(a);
    }
  }

  /** The translation pairs 1..count-1 ascend by language (ties allowed). */
  predicate Sorted(e: Entry)
    requires ValidEntry(e)
  {
    forall p, q :: 1 <= p < q < e.count ==> !StrLess(e.pairs[q].lang, e.pairs[p].lang)
  }

  /** The inner loop of arrangeIntraEnt: the first position in [j, count)
      holding a least language. */
  method MinLang(ps: seq<Pair>, j: nat, count: nat) returns (m: nat)
    requires j < count <= |ps|
    ensures j <= m < count
    ensures forall l :: j <= l < count ==> !StrLess(ps[l].lang, ps[m].lang)
    ensures forall l :: j <= l < m ==> StrLess(ps[m].lang, ps[l].lang)
  {
    StrLessIrreflexive(ps[j].lang);
    m := j;
    var l := j + 1;
    while l < count
      invariant j <= m < l <= count
      invariant forall x :: j <= x < l ==> !StrLess(ps[x].lang, ps[m].lang)
      invariant forall x :: j <= x < m ==> StrLess(ps[m].lang, ps[x].lang)
    {
      if StrLess(ps[l].lang, ps[m].lang) {
        forall x | j <= x < l
          ensures StrLess(ps[l].lang, ps[x].lang) && !StrLess(ps[x].lang, ps[l].lang)
        {
          StrLessTotal(ps[x].lang, ps[m].lang);
          if ps[x].lang != ps[m].lang {
            StrLessTransitive(ps[l].lang, ps[m].lang, ps[x].lang);
          }
          StrLessAsymmetric(ps[l].lang, ps[x].lang);
        }
        StrLessIrreflexive(ps[l].lang);
        m := l;
      }
      l := l + 1;
    }
  }

  /** What the outer loop of arrangeIntraEnt keeps for one entry after
      placing positions 1..j-1: the same pairs, positions 1..j-1 holding the
      least languages in order, and a sorted entry left as it was. */
  ghost predicate SortInv(e: Entry, ps: seq<Pair>, j: nat)
    requires ValidEntry(e)
  {
    && 1 <= j && (e.count >= 2 ==> j <= e.count - 1)
    && |ps| == MaxCount && ps[0] == e.pairs[0]
    && (forall x :: e.count <= x < MaxCount ==> ps[x] == e.pairs[x])
    && multiset(ps[..e.count]) == multiset(e.pairs[..e.count])
    && (NormalEntry(e) ==> forall x :: 0 <= x < MaxCount ==> NormalPair(ps[x]))
    && (forall p, q :: 1 <= p < j && p < q < e.count ==> !StrLess(ps[q].lang, ps[p].lang))
    && (Sorted(e) ==> ps == e.pairs)
  }

  /** One outer iteration: the least language of [j, count) moves to j. */
  method SortStep(e: Entry, ps: seq<Pair>, j: nat) returns (qs: seq<Pair>)
    requires ValidEntry(e) && SortInv(e, ps, j) && j < e.count - 1
    ensures SortInv(e, qs, j + 1)
  {
    var m := MinLang(ps, j, e.count);
    qs := ps;
    if m != j {
      SwapPermutes(ps, m, j, e.count);
      qs := Swap(ps, m, j);
    }
  }

  /** One entry of arrangeIntraEnt: selection sort of pairs 1..count-1. */
  method SortPairs(e: Entry) returns (r: Entry)
    requires ValidEntry(e)
    ensures ValidEntry(r) && r.count == e.count
    ensures r.pairs[0] == e.pairs[0]
    ensures multiset(Active(r)) == multiset(Active(e))
    ensures Sorted(r)
    ensures Sorted(e) ==> r == e
    ensures NormalEntry(e) ==> NormalEntry(r)
  {
    var ps := e.pairs;
    var j := 1;
    while j < e.count - 1
      invariant SortInv(e, ps, j)
    {
      ps := SortStep(e, ps, j);
      j := j + 1;
    }
    r := Entry(ps, e.count);
  }

  /** Reordering the active pairs does not change which languages an entry holds. */
  lemma PermutedLangs(e1: Entry, e2: Entry, lang: string)
    requires ValidEntry(e1) && ValidEntry(e2)
    requires multiset(Active(e1)) == multiset(Active(e2))
    ensures IsLangInEntry(e1, lang) == IsLangInEntry(e2, lang)
  {
    if IsLangInEntry(e1, lang) {
      var j :| 0 <= j < e1.count && e1.pairs[j].lang == lang;
      assert Active(e1)[j] in multiset(Active(e2));
      var k :| 0 <= k < e2.count && Active(e2)[k] == e1.pairs[j];
    }
    if IsLangInEntry(e2, lang) {
      var j :| 0 <= j < e2.count && e2.pairs[j].lang == lang;
      assert Active(e2)[j] in multiset(Active(e1));
      var k :| 0 <= k < e1.count && Active(e1)[k] == e2.pairs[j];
    }
  }

  /** Every active entry has its translation pairs sorted. */
  predicate AllSorted(s: Store)
    requires ValidStore(s)
  {
    forall i :: 0 <= i < s.n ==> Sorted(s.slots[i])
  }

  /** What the loop of arrangeIntraEnt keeps after sorting entries 0..i-1. */
  ghost predicate IntraInv(s: Store, a: seq<Entry>, i: nat)
    requires ValidStore(s)
  {
    && |a| == MaxEntries && i <= s.n
    && (forall x :: 0 <= x < MaxEntries ==> ValidEntry(a[x]))
    && (forall x :: i <= x < MaxEntries ==> a[x] == s.slots[x])
    && (forall x :: 0 <= x < i ==> SortedVersion(a[x], s.slots[x]))
    && (Normalised(s) ==> forall x :: 0 <= x < MaxEntries ==> NormalEntry(a[x]))
    && (AllSorted(s) ==> a == s.slots)
  }

  /** `r` is `e` with its translation pairs sorted. */
  ghost predicate SortedVersion(r: Entry, e: Entry)
    requires ValidEntry(r) && ValidEntry(e)
  {
    && r.count == e.count
    && r.pairs[0] == e.pairs[0]
    && multiset(Active(r)) == multiset(Active(e))
    && Sorted(r)
    && HasEnglish(r) == HasEnglish(e)
  }

  /** One iteration of arrangeIntraEnt: entry i gets sorted. */
  method IntraStep(s: Store, a: seq<Entry>, i: nat) returns (b: seq<Entry>)
    requires ValidStore(s) && IntraInv(s, a, i) && i < s.n
    ensures IntraInv(s, b, i + 1)
  {
    var e := SortPairs(a[i]);
    PermutedLangs(e, a[i], English);
    b := a[i := e];
  }

  /** arrangeIntraEnt: every active entry keeps its count, its source pair and
      its pairs, and its translation pairs end up sorted by language. */
  method ArrangeIntraEnt(s: Store) returns (r: Store)
    requires ValidStore(s)
    ensures ValidStore(r) && r.n == s.n
    ensures forall i :: s.n <= i < MaxEntries ==> r.slots[i] == s.slots[i]
    ensures forall i :: 0 <= i < s.n ==>
      && r.slots[i].count == s.slots[i].count
      && r.slots[i].pairs[0] == s.slots[i].pairs[0]
      && multiset(Active(r.slots[i])) == multiset(Active(s.slots[i]))
    ensures AllSorted(r)
    ensures forall i :: 0 <= i < s.n ==> HasEnglish(r.slots[i]) == HasEnglish(s.slots[i])
    ensures forall i :: 0 <= i < s.n ==> SortedVersion(r.slots[i], s.slots[i])
    ensures AllSorted(s) ==> r == s
    ensures Normalised(s) ==> Normalised(r)
  {
    var a := s.slots;
    var i := 0;
    while i < s.n
      invariant IntraInv(s, a, i)
    {
      a := IntraStep(s, a, i);
      i := i + 1;
    }
    r := Store(a, s.n);
  }

  /** Both passes in the order the features run them. */
  predicate IsCanonical(s: Store)
    requires ValidStore(s)
  {
    EnglishFirst(s.slots, s.n) && AllSorted(s)
  }

  /** `r` is what the two passes make of `s` through `t`, the store the first
      pass leaves: `t` holds the entries of `s`, the English ones first and in
      their original order, and each entry of `r` is the entry in the same
      slot of `t` with its translation pairs sorted. */
  ghost predicate ArrangedVia(s: Store, t: Store, r: Store)
    requires ValidStore(s) && ValidStore(t) && ValidStore(r)
  {
    && t.n == s.n && r.n == s.n
    && multiset(Entries(t)) == multiset(Entries(s))
    && EnglishEntries(Entries(t)) == EnglishEntries(Entries(s))
    && EnglishFirst(t.slots, t.n)
    && forall i :: 0 <= i < s.n ==> SortedVersion(r.slots[i], t.slots[i])
  }

  /** `r` is an arrangement of `s`: some intermediate store links the two. */
  ghost predicate ArrangedFrom(s: Store, r: Store)
    requires ValidStore(s) && ValidStore(r)
  {
    exists t :: ValidStore(t) && ArrangedVia(s, t, r)
  }

  /** The arrangement the list display and the word and translation
      searches run first: its result is an arrangement of the input and
      canonical, and a canonical store is left unchanged, so running it twice
      gives the same store as running it once. */
  method Canonicalise(s: Store) returns (r: Store)
    requires ValidStore(s)
    ensures ValidStore(r) && r.n == s.n
    ensures ArrangedFrom(s, r)
    ensures IsCanonical(r)
    ensures IsCanonical(s) ==> r == s
    ensures Normalised(s) ==> Normalised(r)
  {
    var t := ArrangeInterEnt(s);
    r := ArrangeIntraEnt(t);
    assert ValidStore(t) && ArrangedVia(s, t, r);
  }
}
