/** Character and string helpers used at every ingestion point of the phrase
    store: ASCII case mapping, title case, lower case, punctuation stripping,
    file-name checks, and the space tokenizer of the translator. */
module Text {

  /* ---------------------------------------------------------------------- */
  /* ASCII case mapping (the "C" locale behaviour of toupper / tolower).    */
  /* ---------------------------------------------------------------------- */

  function Upper(c: char): char {
    if 'a' <= c <= 'z' then (c as int - 32) as char else c
  }

  function Lower(c: char): char {
    if 'A' <= c <= 'Z' then (c as int + 32) as char else c
  }

  /** Case mapping never creates or removes a space, and is idempotent. */
  lemma CaseMapFacts(c: char)
    ensures Upper(Upper(c)) == Upper(c) && Lower(Lower(c)) == Lower(c)
    ensures Upper(Lower(c)) == Upper(c) && Lower(Upper(c)) == Lower(c)
    ensures (Upper(c) == ' ') == (c == ' ') && (Lower(c) == ' ') == (c == ' ')
  {
  }

  /* ---------------------------------------------------------------------- */
  /* titleCase and lowercase                                                */
  /* ---------------------------------------------------------------------- */

  /** Title-cases `s` when the character before it was a space (`atStart`). */
  function TitleFrom(s: string, atStart: bool): (r: string)
    ensures |r| == |s|
    ensures forall i {:trigger r[i]} :: 0 <= i < |s| ==>
      r[i] == (if (if i == 0 then atStart else s[i - 1] == ' ') then Upper(s[i]) else Lower(s[i]))
    decreases |s|
  {
    if s == [] then []
    else [if atStart then Upper(s[0]) else Lower(s[0])] + TitleFrom(s[1..], s[0] == ' ')
  }

  /** titleCase: the first character and every character that follows a
      space are upper-cased, every other character is lower-cased. */
  function TitleCase(s: string): (r: string)
    ensures |r| == |s|
    ensures forall i {:trigger r[i]} :: 0 <= i < |s| ==>
      r[i] == (if i == 0 || s[i - 1] == ' ' then Upper(s[i]) else Lower(s[i]))
  {
    TitleFrom(s, true)
  }

  /** lowercase: every character is lower-cased, the length is kept. */
  function Lowercase(s: string): (r: string)
    ensures |r| == |s|
    ensures forall i :: 0 <= i < |s| ==> r[i] == Lower(s[i])
    decreases |s|
  {
    if s == [] then [] else [Lower(s[0])] + Lowercase(s[1..])
  }

  lemma TitleCaseIdempotent(s: string)
    ensures TitleCase(TitleCase(s)) == TitleCase(s)
  {
    var t := TitleCase(s);
    forall i | 0 <= i < |s|
      ensures TitleCase(t)[i] == t[i]
    {
      CaseMapFacts(s[i]);
      if i > 0 {
        CaseMapFacts(s[i - 1]);
        assert t[i - 1] == (if i - 1 == 0 || s[i - 2] == ' ' then Upper(s[i - 1]) else Lower(s[i - 1]));
      }
    }
  }

  lemma LowercaseIdempotent(s: string)
    ensures Lowercase(Lowercase(s)) == Lowercase(s)
  {
    forall i | 0 <= i < |s|
      ensures Lowercase(Lowercase(s))[i] == Lowercase(s)[i]
    {
      CaseMapFacts(s[i]);
    }
  }

  /** `s` is already in title case, `atStart` telling whether the character
      before it was a space: the form both case maps leave unchanged. */
  predicate Titled(s: string, atStart: bool)
    decreases |s|
  {
    s == [] || (s[0] == (if atStart then Upper(s[0]) else Lower(s[0])) && Titled(s[1..], s[0] == ' '))
  }

  /** `s` is already in lower case. */
  predicate AllLower(s: string)
    decreases |s|
  {
    s == [] || (s[0] == Lower(s[0]) && AllLower(s[1..]))
  }

  /** Title-casing yields a titled string, and a titled string is its own
      title case. */
  lemma {:induction false} TitleFromTitled(s: string, atStart: bool)
    ensures Titled(TitleFrom(s, atStart), atStart)
    ensures Titled(s, atStart) ==> TitleFrom(s, atStart) == s
    decreases |s|
  {
    if s != [] {
      var t := TitleFrom(s, atStart);
      CaseMapFacts(s[0]);
      TitleFromTitled(s[1..], s[0] == ' ');
      assert t[1..] == TitleFrom(s[1..], s[0] == ' ');
      assert t[0] == ' ' <==> s[0] == ' ';
      if Titled(s, atStart) {
        assert s == [s[0]] + s[1..];
      }
    }
  }

  lemma {:induction false} LowercaseAllLower(s: string)
    ensures AllLower(Lowercase(s))
    ensures AllLower(s) ==> Lowercase(s) == s
    decreases |s|
  {
    if s != [] {
      CaseMapFacts(s[0]);
      LowercaseAllLower(s[1..]);
      assert Lowercase(s)[1..] == Lowercase(s[1..]);
      if AllLower(s) {
        assert s == [s[0]] + s[1..];
      }
    }
  }

  /* ---------------------------------------------------------------------- */
  /* removeSymbols                                                          */
  /* ---------------------------------------------------------------------- */

  /** The punctuation the translator deletes from its input text. */
  predicate IsSymbol(c: char) {
    c == ',' || c == '.' || c == '!' || c == '?'
  }

  /** Reference definition: `s` with every symbol deleted, order kept. */
  function StripSymbols(s: string): (r: string)
    ensures |r| <= |s|
    ensures forall i :: 0 <= i < |r| ==> !IsSymbol(r[i])
    ensures forall c :: c in r <==> c in s && !IsSymbol(c)
    decreases |s|
  {
    if s == [] then []
    else (if IsSymbol(s[0]) then [] else [s[0]]) + StripSymbols(s[1..])
  }

  /** Stripping distributes over concatenation: characters keep their order. */
  lemma {:induction false} StripSymbolsAppend(a: string, b: string)
    ensures StripSymbols(a + b) == StripSymbols(a) + StripSymbols(b)
    decreases |a|
  {
    if a == [] {
      assert a + b == b;
    } else {
      assert (a + b)[1..] == a[1..] + b;
      StripSymbolsAppend(a[1..], b);
    }
  }

  /** A text with no symbol is left as it is. */
  lemma {:induction false} StripSymbolsKeepsClean(s: string)
    requires forall i :: 0 <= i < |s| ==> !IsSymbol(s[i])
    ensures StripSymbols(s) == s
    decreases |s|
  {
    if s != [] {
      StripSymbolsKeepsClean(s[1..]);
    }
  }

  lemma StripSymbolsIdempotent(s: string)
    ensures StripSymbols(StripSymbols(s)) == StripSymbols(s)
  {
    StripSymbolsKeepsClean(StripSymbols(s));
  }

  lemma StripSymbolsSnoc(text: string, i: nat)
    requires i < |text|
    ensures StripSymbols(text[..i + 1]) ==
      StripSymbols(text[..i]) + (if IsSymbol(text[i]) then [] else [text[i]])
  {
    StripSymbolsAppend(text[..i], [text[i]]);
    assert text[..i + 1] == text[..i] + [text[i]];
  }

  /** removeSymbols: the in-place two-index compaction of the source. */
  method RemoveSymbols(text: string) returns (r: string)
    ensures r == StripSymbols(text)
  {
    r := [];
    var i := 0;
    while i < |text|
      invariant 0 <= i <= |text|
      invariant r == StripSymbols(text[..i])
    {
      StripSymbolsSnoc(text, i);
      if !IsSymbol(text[i]) {
        r := r + [text[i]];
      }
      i := i + 1;
    }
    assert text[..i] == text;
  }

  /* ---------------------------------------------------------------------- */
  /* isExtPresent and isInvCharPres                                         */
  /* ---------------------------------------------------------------------- */

  const TxtExtension: string := ".txt"

  /** isExtPresent: at least five characters, the last four being ".txt". */
  function IsExtPresent(name: string): (r: bool)
    ensures r ==> |name| >= 5 && name == name[..|name| - 4] + TxtExtension
  {
    |name| >= 5 && name[|name| - 4..] == TxtExtension
  }

  /** A name made of a stem and ".txt" passes exactly when the stem is not empty. */
  lemma ExtPresentIff(stem: string)
    ensures IsExtPresent(stem + TxtExtension) <==> |stem| >= 1
  {
    var name := stem + TxtExtension;
    assert name[|name| - 4..] == TxtExtension;
  }

  /** The characters not allowed in a file name. */
  predicate IsInvalidFileChar(c: char) {
    c == '\\' || c == '/' || c == ':' || c == '*' || c == '?' ||
    c == '"' || c == '<' || c == '>' || c == '|'
  }

  /** isInvCharPres: does some character of the name fall in the invalid set? */
  function HasInvalidFileChar(name: string): (r: bool)
    ensures r <==> exists i :: 0 <= i < |name| && IsInvalidFileChar(name[i])
    decreases |name|
  {
    if name == [] then false
    else
      assert forall i :: 1 <= i < |name| ==> name[i] == name[1..][i - 1];
      IsInvalidFileChar(name[0]) || HasInvalidFileChar(name[1..])
  }

  /* ---------------------------------------------------------------------- */
  /* Tokenisation with strtok(text, " ")                                   */
  /* ---------------------------------------------------------------------- */

  /** A token as strtok hands it out: non-empty and free of spaces. */
  predicate IsToken(w: string) {
    |w| > 0 && forall k :: 0 <= k < |w| ==> w[k] != ' '
  }

  /** The longest space-free prefix of `s`. */
  function LeadingWord(s: string): (w: string)
    ensures |w| <= |s| && w == s[..|w|]
    ensures forall k :: 0 <= k < |w| ==> w[k] != ' '
    ensures |w| < |s| ==> s[|w|] == ' '
    decreases |s|
  {
    if s == [] || s[0] == ' ' then [] else [s[0]] + LeadingWord(s[1..])
  }

  /** `s` with every space removed. */
  function NonSpaces(s: string): string
    decreases |s|
  {
    if s == [] then [] else (if s[0] == ' ' then [] else [s[0]]) + NonSpaces(s[1..])
  }

  /** The strings of `ts` written one after the other. */
  function Concat(ts: seq<string>): string
    decreases |ts|
  {
    if ts == [] then [] else ts[0] + Concat(ts[1..])
  }

  /** Removing the spaces of a text that starts with a word keeps the word
      and then removes the spaces of what follows it. */
  lemma {:induction false} NonSpacesLeading(s: string)
    requires s != [] && s[0] != ' '
    ensures NonSpaces(s) == LeadingWord(s) + NonSpaces(s[|LeadingWord(s)|..])
    decreases |s|
  {
    var t := s[1..];
    var w := LeadingWord(t);
    assert NonSpaces(s) == [s[0]] + NonSpaces(t);
    assert LeadingWord(s) == [s[0]] + w;
    assert s[|LeadingWord(s)|..] == t[|w|..];
    if t != [] && t[0] != ' ' {
      NonSpacesLeading(t);
      assert NonSpaces(t) == w + NonSpaces(t[|w|..]);
    } else {
      assert w == [];
    }
  }

  /** The maximal runs of non-space characters of `s`, in order: every token
      is non-empty and space-free, and together they hold exactly the
      non-space characters of `s`. */
  function Tokens(s: string): (ts: seq<string>)
    ensures forall k :: 0 <= k < |ts| ==> IsToken(ts[k])
    ensures Concat(ts) == NonSpaces(s)
    decreases |s|
  {
    if s == [] then []
    else if s[0] == ' ' then Tokens(s[1..])
    else
      var w := LeadingWord(s);
      NonSpacesLeading(s);
      [w] + Tokens(s[|w|..])
  }

  /** A leading space yields no token. */
  lemma TokensSpace(t: string)
    ensures Tokens(" " + t) == Tokens(t)
  {
    assert (" " + t)[1..] == t;
  }

  /** A run of spaces of any length yields no token: the gap left by removed
      symbols between two words, or before the first, is skipped. */
  lemma {:induction false} TokensSpaces(m: nat, t: string)
    ensures Tokens(seq(m, _ => ' ') + t) == Tokens(t)
    decreases m
  {
    if m > 0 {
      var spaces := seq(m, _ => ' ');
      assert spaces + t == " " + (seq(m - 1, _ => ' ') + t);
      TokensSpace(seq(m - 1, _ => ' ') + t);
      TokensSpaces(m - 1, t);
    } else {
      assert seq(m, _ => ' ') + t == t;
    }
  }

  /** The tokens separated by single spaces (how the translator prints them). */
  function Join(ts: seq<string>): string
    decreases |ts|
  {
    if |ts| == 0 then ""
    else if |ts| == 1 then ts[0]
    else ts[0] + " " + Join(ts[1..])
  }

  lemma {:induction false} LeadingWordOfToken(w: string, rest: string)
    requires IsToken(w)
    requires rest == [] || rest[0] == ' '
    ensures LeadingWord(w + rest) == w
    decreases |w|
  {
    if |w| > 1 {
      assert (w + rest)[1..] == w[1..] + rest;
      LeadingWordOfToken(w[1..], rest);
    } else {
      assert (w + rest)[1..] == rest;
    }
  }

  /** A token followed by a space and more text is the first token. */
  lemma TokensCons(w: string, tail: string)
    requires IsToken(w)
    ensures Tokens(w + " " + tail) == [w] + Tokens(tail)
  {
    var s := w + " " + tail;
    assert s == w + (" " + tail);
    LeadingWordOfToken(w, " " + tail);
    assert s[|w|..] == " " + tail;
    assert (" " + tail)[1..] == tail;
  }

  /** A token alone is its only token. */
  lemma TokensSingle(w: string)
    requires IsToken(w)
    ensures Tokens(w) == [w]
  {
    LeadingWordOfToken(w, []);
    assert w + [] == w;
    assert w[|w|..] == [];
  }

  /** Tokenising the single-space join of tokens gives the tokens back. */
  lemma {:induction false} TokensOfJoin(ts: seq<string>)
    requires forall k :: 0 <= k < |ts| ==> IsToken(ts[k])
    ensures Tokens(Join(ts)) == ts
    decreases |ts|
  {
    if |ts| == 1 {
      TokensSingle(ts[0]);
    } else if |ts| > 1 {
      TokensCons(ts[0], Join(ts[1..]));
      TokensOfJoin(ts[1..]);
      assert ts == [ts[0]] + ts[1..];
    }
  }
}
