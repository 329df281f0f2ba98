/** The pure part of translateFeat: the text loses its symbols, is split into
    space-free tokens, every token is looked up among the source pairs, and
    the translated tokens are printed separated by single spaces. */
module Translator {
  import opened Text
  import opened Phrases
  import opened Matcher

  /** Entry `e` translates token `w` from `src` to `dst`: its source pair is
      (src, w) and one of its translation pairs has language `dst`. */
  predicate Serves(e: Entry, src: string, dst: string, w: string)
    requires ValidEntry(e)
  {
    e.pairs[0] == Pair(src, w) && FirstFit(e, LangKey(dst), 1, -1) != -1
  }

  lemma ServesMeaning(e: Entry, src: string, dst: string, w: string)
    requires ValidEntry(e)
    ensures Serves(e, src, dst, w) <==>
      e.pairs[0] == Pair(src, w) && exists j :: 1 <= j < e.count && e.pairs[j].lang == dst
  {
    if e.pairs[0] == Pair(src, w) && exists j :: 1 <= j < e.count && e.pairs[j].lang == dst {
      var j :| 1 <= j < e.count && e.pairs[j].lang == dst;
      assert Fits(e.pairs[j], LangKey(dst));
    }
  }

  /** The first entry at or after `i` that serves the token, or -1. */
  function FirstServing(s: Store, src: string, dst: string, w: string, i: nat): (r: int)
    requires ValidStore(s) && i <= s.n
    ensures r == -1 || (i <= r < s.n && Serves(s.slots[r], src, dst, w))
    decreases s.n - i
  {
    if i == s.n then -1
    else if Serves(s.slots[i], src, dst, w) then i
    else FirstServing(s, src, dst, w, i + 1)
  }

  /** FirstServing finds the least serving entry, and -1 means none serves. */
  lemma {:induction false} FirstServingSpec(s: Store, src: string, dst: string, w: string, i: nat)
    requires ValidStore(s) && i <= s.n
    ensures var r := FirstServing(s, src, dst, w, i);
      && (r == -1 <==> forall k :: i <= k < s.n ==> !Serves(s.slots[k], src, dst, w))
      && (r != -1 ==> forall k :: i <= k < r ==> !Serves(s.slots[k], src, dst, w))
    decreases s.n - i
  {
    if i < s.n && !Serves(s.slots[i], src, dst, w) {
      FirstServingSpec(s, src, dst, w, i + 1);
    }
  }

  /** What is printed for one token: the translation held by the first
      serving entry at its first pair in language `dst`; the token itself
      when no entry serves it, and nothing when the store is empty. */
  function TranslateWord(s: Store, src: string, dst: string, w: string): string
    requires ValidStore(s)
  {
    var k := FirstServing(s, src, dst, w, 0);
    if k == -1 then (if s.n >= 1 then w else "")
    else
      var e := s.slots[k];
      e.pairs[FirstFit(e, LangKey(dst), 1, -1)].trans
  }

  /** `r` is the translation of the first translation pair of `e` in language `dst`. */
  ghost predicate FirstInLang(e: Entry, dst: string, r: string)
    requires ValidEntry(e)
  {
    exists j ::
      && 1 <= j < e.count
      && e.pairs[j].lang == dst
      && r == e.pairs[j].trans
      && forall l :: 1 <= l < j ==> e.pairs[l].lang != dst
  }

  /** The meaning of TranslateWord in terms of the entries: an unserved token
      is echoed (when the store is not empty), and a served token becomes
      the translation at the least position j >= 1 in language `dst` of the
      first entry whose source pair is (src, w) and that holds `dst`. */
  lemma TranslateWordMeaning(s: Store, src: string, dst: string, w: string)
    requires ValidStore(s)
    ensures (forall k :: 0 <= k < s.n ==> !Serves(s.slots[k], src, dst, w)) ==>
      TranslateWord(s, src, dst, w) == (if s.n >= 1 then w else "")
    ensures forall k :: (0 <= k < s.n && Serves(s.slots[k], src, dst, w) &&
      forall k' :: 0 <= k' < k ==> !Serves(s.slots[k'], src, dst, w)) ==>
        FirstInLang(s.slots[k], dst, TranslateWord(s, src, dst, w))
  {
    FirstServingSpec(s, src, dst, w, 0);
    var k := FirstServing(s, src, dst, w, 0);
    var r := TranslateWord(s, src, dst, w);
    forall k2 | 0 <= k2 < s.n && Serves(s.slots[k2], src, dst, w) &&
      (forall k' :: 0 <= k' < k2 ==> !Serves(s.slots[k'], src, dst, w))
      ensures FirstInLang(s.slots[k2], dst, r)
    {
      assert k == k2;
      var e := s.slots[k];
      var j := FirstFit(e, LangKey(dst), 1, -1);
      assert Fits(e.pairs[j], LangKey(dst));
      assert forall l :: 1 <= l < j ==> !Fits(e.pairs[l], LangKey(dst));
      assert r == e.pairs[j].trans;
    }
  }

  /** The inner loop of translateFeat over the translation pairs of one
      entry: the first pair in language `dst`, if any. */
  method ScanTranslations(e: Entry, dst: string) returns (out: string, found: bool)
    requires ValidEntry(e)
    ensures found <==> FirstFit(e, LangKey(dst), 1, -1) != -1
    ensures found ==> out == e.pairs[FirstFit(e, LangKey(dst), 1, -1)].trans
    ensures !found ==> out == ""
  {
    out := "";
    found := false;
    var j := 1;
    while j < e.count && !found
      invariant 1 <= j && (j == 1 || j <= e.count)
      invariant !found ==> out == "" && forall l :: 1 <= l < j ==> !Fits(e.pairs[l], LangKey(dst))
      invariant found ==> FirstFit(e, LangKey(dst), 1, -1) == j - 1 && out == e.pairs[j - 1].trans
    {
      if dst == e.pairs[j].lang {
        out := e.pairs[j].trans;
        found := true;
        assert Fits(e.pairs[j], LangKey(dst));
      }
      j := j + 1;
    }
    if !found {
      assert !HasFit(e, LangKey(dst), 1, -1);
    }
  }

  /** The nested loops of translateFeat for one token, with the `found` flag
      that stops both loops and the echo on the last entry. */
  method TranslateToken(s: Store, src: string, dst: string, w: string) returns (out: string)
    requires ValidStore(s)
    ensures out == TranslateWord(s, src, dst, w)
  {
    FirstServingSpec(s, src, dst, w, 0);
    out := "";
    var found := false;
    var i := 0;
    while i < s.n && !found
      invariant 0 <= i <= s.n
      invariant !found ==> forall k :: 0 <= k < i ==> !Serves(s.slots[k], src, dst, w)
      invariant !found ==> out == (if i == s.n && i >= 1 then w else "")
      invariant found ==> out == TranslateWord(s, src, dst, w)
    {
      var e := s.slots[i];
      assert ValidEntry(e);
      if src == e.pairs[0].lang && w == e.pairs[0].trans {
        out, found := ScanTranslations(e, dst);
        if found {
          assert FirstServing(s, src, dst, w, 0) == i;
        }
      }
      if !found && i == s.n - 1 {
        out := w;
      }
      i := i + 1;
    }
  }

  /** Every token translated, in order. */
  function TranslateAll(s: Store, src: string, dst: string, ws: seq<string>): (rs: seq<string>)
    requires ValidStore(s)
    ensures |rs| == |ws|
    decreases |ws|
  {
    if ws == [] then [] else [TranslateWord(s, src, dst, ws[0])] + TranslateAll(s, src, dst, ws[1..])
  }

  /** Token k of the output is the translation of token k of the input. */
  lemma {:induction false} TranslateAllAt(s: Store, src: string, dst: string, ws: seq<string>)
    requires ValidStore(s)
    ensures forall k :: 0 <= k < |ws| ==> TranslateAll(s, src, dst, ws)[k] == TranslateWord(s, src, dst, ws[k])
    decreases |ws|
  {
    if ws != [] {
      TranslateAllAt(s, src, dst, ws[1..]);
      assert forall k :: 1 <= k < |ws| ==> ws[1..][k - 1] == ws[k];
    }
  }

  /** The reference meaning of translateFeat for one text: both languages are
      title-cased as getLang does, symbols are removed, and each token is
      replaced by its translation. */
  function Translate(s: Store, srcLang: string, dstLang: string, text: string): string
    requires ValidStore(s)
  {
    Join(TranslateAll(s, TitleCase(srcLang), TitleCase(dstLang), Tokens(StripSymbols(text))))
  }

  lemma {:induction false} JoinSnoc(xs: seq<string>, x: string)
    requires |xs| >= 1
    ensures Join(xs + [x]) == Join(xs) + " " + x
    decreases |xs|
  {
    if |xs| == 1 {
      assert xs + [x] == [xs[0], x];
    } else {
      assert (xs + [x])[1..] == xs[1..] + [x];
      JoinSnoc(xs[1..], x);
    }
  }

  /** Joining one more element of `rs`. */
  lemma JoinPrefix(rs: seq<string>, k: nat)
    requires k < |rs|
    ensures Join(rs[..k + 1]) == if k == 0 then rs[0] else Join(rs[..k]) + " " + rs[k]
  {
    if k == 0 {
      assert rs[..1] == [rs[0]];
    } else {
      assert rs[..k + 1] == rs[..k] + [rs[k]];
      JoinSnoc(rs[..k], rs[k]);
    }
  }

  /** One token of the loop, translated by the nested loops. */
  method TranslateAt(s: Store, src: string, dst: string, ts: seq<string>, k: nat) returns (t: string)
    requires ValidStore(s) && k < |ts|
    ensures t == TranslateAll(s, src, dst, ts)[k]
  {
    t := TranslateToken(s, src, dst, ts[k]);
    TranslateAllAt(s, src, dst, ts);
  }

  /** The token loop of translateFeat: each token is printed translated,
      with a space before every token but the first. */
  method PrintTokens(s: Store, src: string, dst: string, ts: seq<string>) returns (out: string)
    requires ValidStore(s)
    ensures out == Join(TranslateAll(s, src, dst, ts))
  {
    ghost var rs := TranslateAll(s, src, dst, ts);
    out := "";
    var k := 0;
    while k < |ts|
      invariant 0 <= k <= |ts|
      invariant out == Join(rs[..k])
    {
      var t := TranslateAt(s, src, dst, ts, k);
      JoinPrefix(rs, k);
      if k == 0 {
        out := t;
      } else {
        out := out + " " + t;
      }
      k := k + 1;
    }
    assert rs[..k] == rs;
  }

  /** translateFeat for one text, after both languages are read and title-cased. */
  method TranslateText(s: Store, srcLang: string, dstLang: string, text: string) returns (out: string)
    requires ValidStore(s)
    ensures out == Translate(s, srcLang, dstLang, text)
  {
    var clean := RemoveSymbols(text);
    out := PrintTokens(s, TitleCase(srcLang), TitleCase(dstLang), Tokens(clean));
  }

  /** A text none of whose tokens is a source word in the source language
      comes back with its symbols removed and its spaces collapsed. */
  lemma TranslateEcho(s: Store, srcLang: string, dstLang: string, text: string)
    requires ValidStore(s) && s.n >= 1
    requires forall k :: 0 <= k < s.n ==> s.slots[k].pairs[0].lang != TitleCase(srcLang)
    ensures Translate(s, srcLang, dstLang, text) == Join(Tokens(StripSymbols(text)))
  {
    var ts := Tokens(StripSymbols(text));
    var rs := TranslateAll(s, TitleCase(srcLang), TitleCase(dstLang), ts);
    TranslateAllAt(s, TitleCase(srcLang), TitleCase(dstLang), ts);
    forall k | 0 <= k < |ts|
      ensures rs[k] == ts[k]
    {
      FirstServingSpec(s, TitleCase(srcLang), TitleCase(dstLang), ts[k], 0);
    }
    assert rs == ts;
  }

  /** The translated text splits back into exactly the translated tokens
      when every printed translation is itself a token. */
  lemma TranslateTokens(s: Store, srcLang: string, dstLang: string, text: string)
    requires ValidStore(s) && s.n >= 1
    requires forall k, j :: 0 <= k < s.n && 1 <= j < s.slots[k].count ==> IsToken(s.slots[k].pairs[j].trans)
    ensures Tokens(Translate(s, srcLang, dstLang, text)) ==
      TranslateAll(s, TitleCase(srcLang), TitleCase(dstLang), Tokens(StripSymbols(text)))
  {
    var src, dst := TitleCase(srcLang), TitleCase(dstLang);
    var ts := Tokens(StripSymbols(text));
    var rs := TranslateAll(s, src, dst, ts);
    TranslateAllAt(s, src, dst, ts);
    forall k | 0 <= k < |rs|
      ensures IsToken(rs[k])
    {
      FirstServingSpec(s, src, dst, ts[k], 0);
      var i := FirstServing(s, src, dst, ts[k], 0);
      if i != -1 {
        var j := FirstFit(s.slots[i], LangKey(dst), 1, -1);
        assert rs[k] == s.slots[i].pairs[j].trans;
      }
    }
    TokensOfJoin(rs);
  }
}
