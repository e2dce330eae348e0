/**
 * The text normaliser of the search demo: `preprocess_text` deletes every
 * punctuation character, splits what is left on runs of whitespace, lower-cases
 * each word, drops the words whose lower-case form is a stopword, and joins the
 * survivors with single spaces.
 */
module TextPreprocessing {

  /** The 32 ASCII punctuation characters of Python's `string.punctuation`. */
  const Punctuation: string := "!\"#$%&'()*+,-./:;<=>?@[\\]^_`{|}~"

  /** Membership in `Punctuation`, as the four ASCII ranges it consists of. */
  predicate IsPunctuation(c: char) {
    || ('!' <= c <= '/')
    || (':' <= c <= '@')
    || ('[' <= c <= '`')
    || ('{' <= c <= '~')
  }

  lemma PunctuationRanges(c: char)
    ensures IsPunctuation(c) <==> c in Punctuation
  {
    if '!' <= c <= '/' {
      PunctuationAt(c, c as int - '!' as int);
    } else if ':' <= c <= '@' {
      PunctuationAt(c, c as int - ':' as int + 15);
    } else if '[' <= c <= '`' {
      PunctuationAt(c, c as int - '[' as int + 22);
    } else if '{' <= c <= '~' {
      PunctuationAt(c, c as int - '{' as int + 28);
    } else {
      PunctuationInRanges();
    }
  }

  lemma PunctuationAt(c: char, i: int)
    requires 0 <= i < |Punctuation| && Punctuation[i] == c
    ensures c in Punctuation
  {
  }

  lemma PunctuationInRanges()
    ensures forall i :: 0 <= i < |Punctuation| ==> IsPunctuation(Punctuation[i])
  {
  }

  /** The characters Python's `str.split()` (no argument) treats as whitespace. */
  predicate IsWhitespace(c: char) {
    || ('\t' <= c <= '\r')
    || ('\U{1C}' <= c <= ' ')
    || c == '\U{85}' || c == '\U{A0}' || c == '\U{1680}'
    || ('\U{2000}' <= c <= '\U{200A}')
    || c == '\U{2028}' || c == '\U{2029}' || c == '\U{202F}' || c == '\U{205F}'
    || c == '\U{3000}'
  }

  /** Lower-casing of one character, on the ASCII letters. */
  function Lower(c: char): (d: char)
    ensures !('A' <= d <= 'Z')
    ensures IsPunctuation(d) <==> IsPunctuation(c)
    ensures IsWhitespace(d) <==> IsWhitespace(c)
    ensures if 'A' <= c <= 'Z' then d as int == c as int + 32 else d == c
  {
    if 'A' <= c <= 'Z' then (c as int - 'A' as int + 'a' as int) as char else c
  }

  predicate NoPunctuation(s: string) {
    forall i :: 0 <= i < |s| ==> !IsPunctuation(s[i])
  }

  predicate IsLowercase(s: string) {
    forall i :: 0 <= i < |s| ==> !('A' <= s[i] <= 'Z')
  }

  /** A token of `str.split()`: non-empty and free of whitespace. */
  predicate IsWord(s: string) {
    |s| > 0 && forall i :: 0 <= i < |s| ==> !IsWhitespace(s[i])
  }

  predicate AllWords(words: seq<string>) {
    forall k :: 0 <= k < |words| ==> IsWord(words[k])
  }

  /**
   * The shape of a joined token list: no whitespace but the plain space, no
   * leading or trailing space, and never two spaces in a row.
   */
  predicate WellSpaced(s: string) {
    && (forall i :: 0 <= i < |s| && IsWhitespace(s[i]) ==> s[i] == ' ')
    && (|s| > 0 ==> s[0] != ' ' && s[|s| - 1] != ' ')
    && (forall i :: 0 < i < |s| && s[i] == ' ' ==> s[i - 1] != ' ')
  }

  /** Python's `str.lower()` on a word. */
  function LowerWord(w: string): (r: string)
    ensures |r| == |w| && IsLowercase(r)
    ensures forall i :: 0 <= i < |w| ==> r[i] == Lower(w[i])
    ensures IsWord(r) <==> IsWord(w)
    ensures NoPunctuation(r) <==> NoPunctuation(w)
  {
    seq(|w|, i requires 0 <= i < |w| => Lower(w[i]))
  }

  /** The text with every punctuation character deleted, the rest kept in order. */
  function StripPunctuation(s: string): (r: string)
    ensures NoPunctuation(r)
    ensures |r| <= |s|
  {
    if s == [] then []
    else
      (if IsPunctuation(s[0]) then [] else [s[0]]) + StripPunctuation(s[1..])
  }

  /** The characters of `s` that are not whitespace, in order. */
  function DropWhitespace(s: string): (r: string)
    ensures |r| <= |s|
  {
    if s == [] then []
    else (if IsWhitespace(s[0]) then [] else [s[0]]) + DropWhitespace(s[1..])
  }

  function Concat(words: seq<string>): string {
    if words == [] then [] else words[0] + Concat(words[1..])
  }

  /** Length of the longest whitespace-free prefix of `s`. */
  function WordLength(s: string): (n: nat)
    ensures n <= |s|
    ensures forall i :: 0 <= i < n ==> !IsWhitespace(s[i])
    ensures n < |s| ==> IsWhitespace(s[n])
  {
    if s == [] || IsWhitespace(s[0]) then 0 else 1 + WordLength(s[1..])
  }

  /** Python's `str.split()` with no argument. */
  function Split(s: string): (words: seq<string>)
    decreases |s|
    ensures AllWords(words)
    ensures Concat(words) == DropWhitespace(s)
  {
    if s == [] then []
    else if IsWhitespace(s[0]) then Split(s[1..])
    else
      var n := WordLength(s);
      DropWhitespaceAppend(s[..n], s[n..]);
      DropWhitespaceOfWord(s[..n]);
      assert s == s[..n] + s[n..];
      [s[..n]] + Split(s[n..])
  }

  /** Python's `' '.join(words)`. */
  function Join(words: seq<string>): (r: string)
    ensures words == [] ==> r == ""
    ensures words != [] ==> |r| == |Concat(words)| + |words| - 1
  {
    if words == [] then ""
    else if |words| == 1 then words[0]
    else words[0] + " " + Join(words[1..])
  }

  /** Every word's lower-case form is a stopword. */
  predicate AllStopWords(stopWords: set<string>, words: seq<string>) {
    forall k :: 0 <= k < |words| ==> LowerWord(words[k]) in stopWords
  }

  /** Every word has no punctuation. */
  predicate AllNoPunctuation(words: seq<string>) {
    forall k :: 0 <= k < |words| ==> NoPunctuation(words[k])
  }

  /** Every word is lower case and not a stopword: what the stopword filter lets through. */
  predicate AllKept(stopWords: set<string>, words: seq<string>) {
    forall k :: 0 <= k < |words| ==> IsLowercase(words[k]) && words[k] !in stopWords
  }

  /** What the stopword filter keeps of one word: its lower-case form, unless that is a stopword. */
  function Keep(stopWords: set<string>, w: string): (r: seq<string>)
    ensures r == [] <==> LowerWord(w) in stopWords
    ensures r != [] ==> r == [LowerWord(w)]
    ensures AllKept(stopWords, r)
    ensures IsWord(w) ==> AllWords(r)
    ensures NoPunctuation(w) ==> AllNoPunctuation(r)
  {
    var lw := LowerWord(w);
    if lw in stopWords then [] else [lw]
  }

  /** Each word lower-cased, in order, leaving out those whose lower-case form is a stopword. */
  function Survivors(stopWords: set<string>, words: seq<string>): (r: seq<string>)
    ensures |r| <= |words|
    ensures AllKept(stopWords, r)
    ensures r == [] <==> AllStopWords(stopWords, words)
    ensures AllWords(words) ==> AllWords(r)
    ensures AllNoPunctuation(words) ==> AllNoPunctuation(r)
  {
    if words == [] then []
    else
      var head, tail := Keep(stopWords, words[0]), Survivors(stopWords, words[1..]);
      WordListsAppend(stopWords, head, tail);
      WordListsTail(stopWords, words);
      head + tail
  }

  /** The word-list predicates hold of a concatenation when they hold of both parts. */
  lemma WordListsAppend(stopWords: set<string>, a: seq<string>, b: seq<string>)
    ensures AllKept(stopWords, a) && AllKept(stopWords, b) ==> AllKept(stopWords, a + b)
    ensures AllWords(a) && AllWords(b) ==> AllWords(a + b)
    ensures AllNoPunctuation(a) && AllNoPunctuation(b) ==> AllNoPunctuation(a + b)
  {
    var ab := a + b;
    assert forall k :: |a| <= k < |ab| ==> ab[k] == b[k - |a|];
  }

  /** How the word-list predicates of a non-empty list split into its head and its tail. */
  lemma WordListsTail(stopWords: set<string>, words: seq<string>)
    requires words != []
    ensures AllStopWords(stopWords, words)
            <==> LowerWord(words[0]) in stopWords && AllStopWords(stopWords, words[1..])
    ensures AllWords(words) ==> IsWord(words[0]) && AllWords(words[1..])
    ensures AllNoPunctuation(words) ==> NoPunctuation(words[0]) && AllNoPunctuation(words[1..])
  {
    assert forall k :: 1 <= k < |words| ==> words[k] == words[1..][k - 1];
  }

  /** `preprocess_text(text)`, with the stopword list as a parameter. */
  function PreprocessText(stopWords: set<string>, text: string): (r: string)
    ensures NoPunctuation(r)
    ensures IsLowercase(r)
    ensures WellSpaced(r)
    ensures forall k :: 0 <= k < |Split(r)| ==> Split(r)[k] !in stopWords
    ensures r == "" <==> AllStopWords(stopWords, Split(StripPunctuation(text)))
  {
    var tokens := Split(StripPunctuation(text));
    var words := Survivors(stopWords, tokens);
    SplitNoPunctuation(StripPunctuation(text));
    JoinFacts(words);
    SplitJoin(words);
    assert Join(words) == "" <==> words == [];
    Join(words)
  }

  // ---------------------------------------------------------------------
  // Lemmas about splitting and joining

  lemma {:induction false} DropWhitespaceAppend(a: string, b: string)
    ensures DropWhitespace(a + b) == DropWhitespace(a) + DropWhitespace(b)
  {
    if a == [] {
      assert a + b == b;
    } else {
      assert (a + b)[0] == a[0];
      assert (a + b)[1..] == a[1..] + b;
      DropWhitespaceAppend(a[1..], b);
    }
  }

  lemma {:induction false} DropWhitespaceOfWord(w: string)
    requires forall i :: 0 <= i < |w| ==> !IsWhitespace(w[i])
    ensures DropWhitespace(w) == w
  {
    if w != [] {
      DropWhitespaceOfWord(w[1..]);
    }
  }

  /** Every token of a punctuation-free text is punctuation-free. */
  lemma {:induction false} SplitNoPunctuation(s: string)
    requires NoPunctuation(s)
    ensures AllNoPunctuation(Split(s))
    decreases |s|
  {
    if s == [] {
    } else if IsWhitespace(s[0]) {
      SplitNoPunctuation(s[1..]);
    } else {
      SplitNoPunctuation(s[WordLength(s)..]);
    }
  }

  /** A word followed by whitespace (or nothing) is split off as one token. */
  lemma SplitAfterWord(w: string, t: string)
    requires IsWord(w)
    requires t == [] || IsWhitespace(t[0])
    ensures Split(w + t) == [w] + Split(t)
  {
    var s := w + t;
    WordLengthOfWord(w, t);
    assert s[..|w|] == w && s[|w|..] == t;
  }

  lemma {:induction false} WordLengthOfWord(w: string, t: string)
    requires forall i :: 0 <= i < |w| ==> !IsWhitespace(w[i])
    requires t == [] || IsWhitespace(t[0])
    ensures WordLength(w + t) == |w|
  {
    if w != [] {
      assert (w + t)[1..] == w[1..] + t;
      WordLengthOfWord(w[1..], t);
    }
  }

  lemma SplitOfWord(w: string)
    requires IsWord(w)
    ensures Split(w) == [w]
  {
    SplitAfterWord(w, []);
    assert w + [] == w;
  }

  /** Splitting the empty text gives no tokens. */
  lemma SplitOfEmpty()
    ensures Split("") == []
  {
  }

  /** Leading whitespace, of any kind, is skipped. */
  lemma SplitAfterWhitespace(c: char, t: string)
    requires IsWhitespace(c)
    ensures Split([c] + t) == Split(t)
  {
    assert ([c] + t)[1..] == t;
  }

  /** Splitting undoes joining, for any list of whitespace-free, non-empty words. */
  lemma {:induction false} SplitJoin(words: seq<string>)
    requires AllWords(words)
    ensures Split(Join(words)) == words
  {
    if words == [] {
    } else if |words| == 1 {
      SplitOfWord(words[0]);
    } else {
      var w, rest := words[0], Join(words[1..]);
      assert Join(words) == w + (" " + rest);
      SplitJoin(words[1..]);
      SplitAfterWhitespace(' ', rest);
      SplitAfterWord(w, " " + rest);
      assert words == [w] + words[1..];
    }
  }

  /** What joining keeps: the shape, and the absence of punctuation and capitals. */
  lemma {:induction false} JoinFacts(words: seq<string>)
    requires AllWords(words)
    ensures WellSpaced(Join(words))
    ensures AllNoPunctuation(words) ==> NoPunctuation(Join(words))
    ensures (forall k :: 0 <= k < |words| ==> IsLowercase(words[k])) ==> IsLowercase(Join(words))
    ensures Join(words) == "" <==> words == []
    ensures words != [] ==> Join(words)[0] == words[0][0]
  {
    if |words| > 1 {
      JoinFacts(words[1..]);
      var w, rest := words[0], Join(words[1..]);
      JoinSpacing(w, rest);
      if AllNoPunctuation(words) {
        assert NoPunctuation(w) && NoPunctuation(words[1..][0]);
        JoinCleanAppend(w, rest);
      }
      if forall k :: 0 <= k < |words| ==> IsLowercase(words[k]) {
        assert IsLowercase(w) && IsLowercase(words[1..][0]);
        JoinCleanAppend(w, rest);
      }
    }
  }

  /** A word, a space and a well-spaced non-empty text make a well-spaced text. */
  lemma JoinSpacing(w: string, rest: string)
    requires IsWord(w) && WellSpaced(rest) && rest != []
    ensures WellSpaced(w + " " + rest)
    ensures (w + " " + rest)[0] == w[0]
  {
    var s := w + " " + rest;
    assert forall i :: 0 <= i < |w| ==> s[i] == w[i];
    assert s[|w|] == ' ';
    assert forall i :: |w| < i < |s| ==> s[i] == rest[i - |w| - 1];
    assert s[|w| + 1] == rest[0];
  }

  /** Joining two texts with a space keeps "no punctuation" and "lower case". */
  lemma JoinCleanAppend(w: string, rest: string)
    ensures NoPunctuation(w) && NoPunctuation(rest) ==> NoPunctuation(w + " " + rest)
    ensures IsLowercase(w) && IsLowercase(rest) ==> IsLowercase(w + " " + rest)
  {
    var s := w + " " + rest;
    assert forall i :: 0 <= i < |w| ==> s[i] == w[i];
    assert forall i :: |w| < i < |s| ==> s[i] == rest[i - |w| - 1];
  }

  /** Every character that is not punctuation is kept, as often as it occurs. */
  lemma {:induction false} StripPunctuationKeeps(s: string, c: char)
    requires !IsPunctuation(c)
    ensures multiset(StripPunctuation(s))[c] == multiset(s)[c]
  {
    if s != [] {
      StripPunctuationKeeps(s[1..], c);
      assert s == [s[0]] + s[1..];
    }
  }

  /** A punctuation-free text passes the punctuation filter unchanged. */
  lemma {:induction false} StripPunctuationOfClean(s: string)
    requires NoPunctuation(s)
    ensures StripPunctuation(s) == s
  {
    if s != [] {
      StripPunctuationOfClean(s[1..]);
      assert s == [s[0]] + s[1..];
    }
  }

  /** Every word whose lower-case form is not a stopword is kept. */
  lemma {:induction false} SurvivorsKept(stopWords: set<string>, words: seq<string>, k: nat)
    requires k < |words|
    ensures LowerWord(words[k]) !in stopWords ==> LowerWord(words[k]) in Survivors(stopWords, words)
  {
    if k > 0 {
      SurvivorsKept(stopWords, words[1..], k - 1);
      assert words[1..][k - 1] == words[k];
    }
  }

  /** The filter keeps the order of the words: it distributes over concatenation. */
  lemma {:induction false} SurvivorsAppend(stopWords: set<string>, a: seq<string>, b: seq<string>)
    ensures Survivors(stopWords, a + b) == Survivors(stopWords, a) + Survivors(stopWords, b)
  {
    if a == [] {
      assert a + b == b;
    } else {
      SurvivorsAppend(stopWords, a[1..], b);
      SurvivorsAppendStep(stopWords, a, b);
    }
  }

  /** The inductive step of `SurvivorsAppend`: from the tail of `a` to `a`. */
  lemma SurvivorsAppendStep(stopWords: set<string>, a: seq<string>, b: seq<string>)
    requires a != []
    requires Survivors(stopWords, a[1..] + b) == Survivors(stopWords, a[1..]) + Survivors(stopWords, b)
    ensures Survivors(stopWords, a + b) == Survivors(stopWords, a) + Survivors(stopWords, b)
  {
    var t := a[1..];
    ConsAppend(a, b);
    SurvivorsCons(stopWords, a[0], t + b);
    SurvivorsCons(stopWords, a[0], t);
    AppendAssoc(Keep(stopWords, a[0]), Survivors(stopWords, t), Survivors(stopWords, b));
  }

  lemma ConsAppend<T>(a: seq<T>, b: seq<T>)
    requires a != []
    ensures a == [a[0]] + a[1..]
    ensures a + b == [a[0]] + (a[1..] + b)
  {
  }

  lemma AppendAssoc<T>(x: seq<T>, y: seq<T>, z: seq<T>)
    ensures (x + y) + z == x + (y + z)
  {
  }

  lemma SurvivorsCons(stopWords: set<string>, w: string, rest: seq<string>)
    ensures Survivors(stopWords, [w] + rest) == Keep(stopWords, w) + Survivors(stopWords, rest)
  {
    assert ([w] + rest)[1..] == rest;
  }

  /** Words that are already lower case and not stopwords all survive the filter. */
  lemma {:induction false} SurvivorsOfClean(stopWords: set<string>, words: seq<string>)
    requires AllKept(stopWords, words)
    ensures Survivors(stopWords, words) == words
  {
    if words != [] {
      assert LowerWord(words[0]) == words[0];
      SurvivorsOfClean(stopWords, words[1..]);
      assert words == [words[0]] + words[1..];
    }
  }

  // ---------------------------------------------------------------------
  // Properties of preprocess_text

  /**
   * The output tokens are exactly the lower-cased whitespace tokens of the
   * punctuation-stripped input, in their original order, minus the stopwords.
   */
  lemma OutputTokens(stopWords: set<string>, text: string)
    ensures Split(PreprocessText(stopWords, text))
            == Survivors(stopWords, Split(StripPunctuation(text)))
    ensures AllWords(Split(PreprocessText(stopWords, text)))
  {
    SplitJoin(Survivors(stopWords, Split(StripPunctuation(text))));
  }

  /** Preprocessing an already preprocessed text changes nothing. */
  lemma Idempotent(stopWords: set<string>, text: string)
    ensures PreprocessText(stopWords, PreprocessText(stopWords, text))
            == PreprocessText(stopWords, text)
  {
    var r := PreprocessText(stopWords, text);
    var words := Survivors(stopWords, Split(StripPunctuation(text)));
    SplitJoin(words);
    StripPunctuationOfClean(r);
    SurvivorsOfClean(stopWords, words);
  }

  /**
   * Only stopwords without punctuation can ever match: the punctuation is gone
   * before the stopword test, so an entry such as a contraction with an
   * apostrophe never removes anything.
   */
  lemma PunctuatedStopWordsNeverMatch(stopWords: set<string>, other: set<string>, text: string)
    requires forall w :: NoPunctuation(w) ==> (w in stopWords <==> w in other)
    ensures PreprocessText(stopWords, text) == PreprocessText(other, text)
  {
    var words := Split(StripPunctuation(text));
    SplitNoPunctuation(StripPunctuation(text));
    SurvivorsAgree(stopWords, other, words);
  }

  lemma {:induction false} SurvivorsAgree(stopWords: set<string>, other: set<string>, words: seq<string>)
    requires forall w :: NoPunctuation(w) ==> (w in stopWords <==> w in other)
    requires AllNoPunctuation(words)
    ensures Survivors(stopWords, words) == Survivors(other, words)
  {
    if words != [] {
      assert NoPunctuation(LowerWord(words[0]));
      SurvivorsAgree(stopWords, other, words[1..]);
    }
  }

  /** Punctuation goes before the split, so "a.b" is one token. */
  lemma PunctuationInsideWord(stopWords: set<string>)
    requires "ab" !in stopWords
    ensures PreprocessText(stopWords, "a.b") == "ab"
  {
    assert StripPunctuation("a.b") == "ab";
    SplitOfWord("ab");
    assert LowerWord("ab") == "ab";
    assert Survivors(stopWords, ["ab"]) == ["ab"] by { assert ["ab"][1..] == []; }
  }

  /** Filtering punctuation distributes over concatenation. */
  lemma {:induction false} StripPunctuationAppend(a: string, b: string)
    ensures StripPunctuation(a + b) == StripPunctuation(a) + StripPunctuation(b)
  {
    if a == [] {
      assert a + b == b;
    } else {
      var c := a[0];
      var head := if IsPunctuation(c) then [] else [c];
      calc {
        StripPunctuation(a + b);
        == { assert a + b == [c] + (a[1..] + b); StripPunctuationCons(c, a[1..] + b); }
        head + StripPunctuation(a[1..] + b);
        == { StripPunctuationAppend(a[1..], b); }
        head + (StripPunctuation(a[1..]) + StripPunctuation(b));
        == (head + StripPunctuation(a[1..])) + StripPunctuation(b);
        == { assert a == [c] + a[1..]; StripPunctuationCons(c, a[1..]); }
        StripPunctuation(a) + StripPunctuation(b);
      }
    }
  }

  lemma StripPunctuationCons(c: char, t: string)
    ensures StripPunctuation([c] + t) == (if IsPunctuation(c) then [] else [c]) + StripPunctuation(t)
  {
    assert ([c] + t)[1..] == t;
  }
}
