/**
 * Laws of Roman-to-Sildish transliteration, stated over the reference
 * functions of the `Transliteration` module: how the region renderer tells
 * each token whether it is first or last, how words are split into regions,
 * what becomes of a capitalised word and of text without Sildish letters,
 * and how words separated by a caseless character are transliterated
 * independently.
 */
module TransliterationLaws {
  import opened Wrappers
  import opened PrefixTree
  import opened SoundSystem
  import opened RomanToSildish
  import opened Transliteration

  // ---------------------------------------------------------------------
  // The region renderer's flags
  // ---------------------------------------------------------------------

  /** A rendering written by position: token `i` is told that it is the
    * first exactly when `i == 0` and the last exactly when it is the final
    * token. */
  function RenderByIndex<P>(tokens: seq<Token<P>>, select: (P, bool, bool) -> string, i: nat): string
    requires i <= |tokens|
    decreases |tokens| - i
  {
    if i == |tokens| then ""
    else select(tokens[i].data, i == 0, i == |tokens| - 1) + RenderByIndex(tokens, select, i + 1)
  }

  /** From token `i` on, the renderer hands each selector call the flags that
    * `RenderByIndex` names: `first` only to the first token, `last` only to
    * the final one. */
  lemma {:induction false} RenderFlagsFrom<P>(tokens: seq<Token<P>>, select: (P, bool, bool) -> string, i: nat)
    requires i <= |tokens|
    ensures Render(tokens[i..], i == 0, select) == RenderByIndex(tokens, select, i)
    decreases |tokens| - i
  {
    if i < |tokens| {
      RenderFlagsFrom(tokens, select, i + 1);
      assert tokens[i..][1..] == tokens[i + 1..];
    }
  }

  /** The region renderer's selector sees `first` on its first call only, and
    * `last` exactly on the call after which nothing is left. */
  lemma RenderFlags<P>(tokens: seq<Token<P>>, select: (P, bool, bool) -> string)
    ensures Render(tokens, true, select) == RenderByIndex(tokens, select, 0)
  {
    RenderFlagsFrom(tokens, select, 0);
    assert tokens[0..] == tokens;
  }

  /** The renderer's buffer never holds more than the lookahead, and it is
    * empty exactly when the whole region has been rendered. */
  lemma BufferBound<P>(
    trie: Tree<char, P>, region: string, lookahead: nat, select: (P, bool, bool) -> string,
    done: nat, next: nat, buffer: string, first: bool, sildish: string)
    requires lookahead >= 1 && LettersAreKeys(trie, region)
    requires RegionState(trie, region, lookahead, select, done, next, buffer, first, sildish)
    ensures |buffer| <= lookahead && (buffer == [] <==> done == |region|)
  {
  }

  // ---------------------------------------------------------------------
  // Whole inputs
  // ---------------------------------------------------------------------

  /** Nothing to transliterate gives nothing. */
  lemma EmptyInput(trie: Tree<char, PhonemeData>, a: Alphabet)
    requires IsCatalogTrie(trie) && Classifies(a)
    ensures Transliterated(trie, a, "") == ""
  {
  }

  /** The empty word renders as the capital mark alone when capitalised, and
    * as nothing otherwise. */
  lemma EmptyWord(trie: Tree<char, PhonemeData>, a: Alphabet, capitalized: bool)
    requires IsCatalogTrie(trie)
    ensures RenderWord(trie, a, "", capitalized) == if capitalized then CapitalMark else ""
  {
    assert Segment(a, "", capitalized) == Regions("", "", "");
  }

  /** Input that is one gap, copied through as it is, with nothing before
    * it: its transliteration is that copy. */
  lemma OneGap(trie: Tree<char, PhonemeData>, a: Alphabet, s: string)
    requires IsCatalogTrie(trie) && Classifies(a) && s != []
    requires WordEnd(a, s, 0) == 0 && GapEnd(a, s, 0) == |s|
    requires WordGlyphs(trie, a, s, 0) == "" && Echo(s[0..|s|]) == s
    ensures Transliterated(trie, a, s) == s
  {
    WordThenGap(trie, a, s, 0, "", s, |s|);
    var rest := TransliterationFrom(trie, a, s, |s|);
    assert rest == "";
    assert "" + s + rest == s;
  }

  /** Text without Sildish letters is one gap from its first character on. */
  lemma NoLetters(a: Alphabet, s: string)
    requires s != [] && forall j :: 0 <= j < |s| ==> !IsSildishIn(a, s[j]) && !IsSildishIn(a, Lower(s[j]))
    ensures WordEnd(a, s, 0) == 0 && GapEnd(a, s, 0) == |s|
  {
    assert !IsSildishIn(a, Lower(s[0]));
    assert NextSildish(a, s, 1) == |s|;
  }

  /** An empty word before a gap that starts with a character other than an
    * upper-case letter: no glyphs, and the gap is copied as it is. */
  lemma EmptyWordBeforeGap(trie: Tree<char, PhonemeData>, a: Alphabet, s: string)
    requires IsCatalogTrie(trie) && Classifies(a) && s != [] && !IsUpper(s[0]) && WordEnd(a, s, 0) == 0
    ensures WordGlyphs(trie, a, s, 0) == "" && Echo(s[0..|s|]) == s
  {
    EmptyWord(trie, a, false);
    assert LowerAll(s[0..0]) == "";
    assert Lower(s[0]) == s[0];
    assert s[0..|s|] == s;
  }

  /** Text without Sildish letters, in either case, that does not start with
    * an upper-case letter is copied through as it is. */
  lemma PassThrough(trie: Tree<char, PhonemeData>, a: Alphabet, s: string)
    requires IsCatalogTrie(trie) && Classifies(a)
    requires forall j :: 0 <= j < |s| ==> !IsSildishIn(a, s[j]) && !IsSildishIn(a, Lower(s[j]))
    requires s != [] ==> !IsUpper(s[0])
    ensures Transliterated(trie, a, s) == s
  {
    if s != [] {
      NoLetters(a, s);
      EmptyWordBeforeGap(trie, a, s);
      OneGap(trie, a, s);
    }
  }

  /** A capitalised word's glyphs begin with the capital mark. */
  lemma CapitalWord(trie: Tree<char, PhonemeData>, a: Alphabet, w: string)
    requires IsCatalogTrie(trie) && AllLetters(w)
    ensures CapitalMark <= RenderWord(trie, a, w, true)
  {
    var r := Segment(a, w, true);
    RegionLetters(a, w, true);
    var x := CapitalMark + NonmedialRender(trie, r.leading);
    var y := x + MedialRender(trie, r.medials, true);
    assert CapitalMark <= x <= y <= y + NonmedialRender(trie, r.trailing);
  }

  /** A word that starts with an upper-case letter begins with the capital
    * mark, whether or not that letter is Sildish. */
  lemma CapitalizedStart(trie: Tree<char, PhonemeData>, a: Alphabet, s: string)
    requires IsCatalogTrie(trie) && Classifies(a)
    requires s != [] && IsUpper(s[0])
    ensures CapitalMark <= Transliterated(trie, a, s)
  {
    var e := WordEnd(a, s, 0);
    var g := GapEnd(a, s, e);
    var glyphs := WordGlyphs(trie, a, s, 0);
    assert CapitalMark <= glyphs by {
      WordLetters(a, s, 0);
      CapitalWord(trie, a, LowerAll(s[0..e]));
    }
    var x := glyphs + Echo(s[e..g]);
    assert Transliterated(trie, a, s) == x + TransliterationFrom(trie, a, s, g);
    assert CapitalMark <= glyphs <= x <= x + TransliterationFrom(trie, a, s, g);
  }

  /** An upper-case letter that is not Sildish still sets the capital mark, and
    * is then copied through lower-cased: "K" becomes the mark and "k". */
  lemma CapitalK(trie: Tree<char, PhonemeData>, a: Alphabet)
    requires IsCatalogTrie(trie) && Classifies(a)
    ensures Transliterated(trie, a, "K") == CapitalMark + "k"
  {
    var s := "K";
    assert !IsSildishIn(a, Lower(s[0]));
    assert WordEnd(a, s, 0) == 0;
    assert GapEnd(a, s, 0) == 1;
    EmptyWord(trie, a, true);
    assert LowerAll(s[0..0]) == "";
    assert Echo(s[0..1]) == "k";
  }

  // ---------------------------------------------------------------------
  // Word segmentation
  // ---------------------------------------------------------------------

  /** What the segmentation examples ask of the alphabet: the letters they
    * use are classified as in Sildish, "ll" is a doubled consonant and "sh"
    * one plain consonant. */
  ghost predicate ExampleLetters(a: Alphabet)
  {
    Classifies(a)
    && a.isVowel('a') && a.isVowel('e')
    && a.isConsonant('m') && a.isConsonant('n') && a.isConsonant('v')
    && a.isConsonant('l') && a.isConsonant('s') && a.isConsonant('h')
    && ('l', 'l') !in a.digraphs && ('s', 'h') in a.digraphs
  }

  /** With one consonant the trailing vowel stays with the medials: "ama" is a
    * leading "a" and the medials "ma". */
  lemma SegmentAma(a: Alphabet)
    requires ExampleLetters(a)
    ensures Segment(a, "ama", false) == Regions("a", "ma", "")
  {
    var w := "ama";
    assert !a.isVowel('m');
    assert VowelPrefixLength(a, w[1..]) == 0;
    assert w[1..] == "ma" && "ma"[1..] == "a";
    assert Consonants(a, "a") == 0;
    assert Consonants(a, "ma") == 1;
  }

  /** With two consonants the trailing vowel is set apart: "mana" is the
    * medials "man" and the trailing "a". */
  lemma SegmentMana(a: Alphabet)
    requires ExampleLetters(a)
    ensures Segment(a, "mana", false) == Regions("", "man", "a")
  {
    var w := "mana";
    assert !a.isVowel('m') && !a.isVowel('n') && !a.isConsonant('a');
    assert w[0..] == w && w[1..] == "ana" && w[2..] == "na" && w[3..] == "a";
    assert Consonants(a, "a") == 0;
    assert Consonants(a, "mana") == 2;
    assert w[..3] == "man" && w[..3][..2] == "ma";
    assert VowelSuffixLength(a, w[..3]) == 0;
    assert VowelSuffixLength(a, w) == 1;
  }

  /** A doubled consonant counts twice: "vella" is the medials "vell" and the
    * trailing "a". */
  lemma SegmentVella(a: Alphabet)
    requires ExampleLetters(a)
    ensures Segment(a, "vella", false) == Regions("", "vell", "a")
  {
    var w := "vella";
    assert !a.isVowel('v') && !a.isVowel('l') && !a.isConsonant('a') && !a.isConsonant('e');
    assert w[0..] == w && w[1..] == "ella" && w[2..] == "lla" && w[3..] == "la" && w[4..] == "a";
    assert Consonants(a, "a") == 0;
    assert Consonants(a, "la") == 1;
    assert Consonants(a, "lla") == 2;
    assert Consonants(a, "vella") == 3;
    assert w[..4] == "vell";
    assert VowelSuffixLength(a, w[..4]) == 0;
    assert VowelSuffixLength(a, w) == 1;
  }

  /** A digraph counts once: in "asha" the "sh" is the only consonant, so the
    * trailing vowel stays with the medials "sha" after the leading "a". */
  lemma SegmentAsha(a: Alphabet)
    requires ExampleLetters(a)
    ensures Segment(a, "asha", false) == Regions("a", "sha", "")
  {
    var w := "asha";
    assert !a.isVowel('s');
    assert VowelPrefixLength(a, w[1..]) == 0;
    assert w[1..] == "sha" && "sha"[2..] == "a";
    assert IsConsonantDigraph(a, 's', 'h');
    assert Consonants(a, "a") == 0;
    assert Consonants(a, "sha") == 1;
  }

  /** A capitalised word has no leading vowels: "ama" capitalised is all
    * medials. */
  lemma SegmentCapitalAma(a: Alphabet)
    requires ExampleLetters(a)
    ensures Segment(a, "ama", true) == Regions("", "ama", "")
  {
    var w := "ama";
    assert !a.isConsonant('a');
    assert w[0..] == w && w[1..] == "ma" && "ma"[1..] == "a";
    assert Consonants(a, "a") == 0;
    assert Consonants(a, "ma") == 1;
    assert Consonants(a, w) == 1;
  }

  /** "ll" is the doubled reduplicable "l", not a plain consonant. */
  lemma DoubledL(trie: Tree<char, PhonemeData>)
    requires IsCatalogTrie(trie)
    ensures !IsPlainConsonant(Get(trie, "ll"))
  {
    assert Get(trie, "ll") == CatalogEntry("ll");
  }

  /** "sh" is one plain consonant. */
  lemma DigraphSh(trie: Tree<char, PhonemeData>)
    requires IsCatalogTrie(trie)
    ensures IsPlainConsonant(Get(trie, "sh"))
  {
    assert Get(trie, "sh") == CatalogEntry("sh");
  }

  /** The Sildish alphabet read off a catalog tree has the example letters. */
  lemma SildishExampleLetters(trie: Tree<char, PhonemeData>)
    requires IsCatalogTrie(trie)
    ensures ExampleLetters(SildishAlphabet(trie))
  {
    var a := SildishAlphabet(trie);
    SildishAlphabetClassifies(trie);
    assert a.isVowel('a') && a.isVowel('e');
    assert a.isConsonant('m') && a.isConsonant('n') && a.isConsonant('v')
      && a.isConsonant('l') && a.isConsonant('s') && a.isConsonant('h');
    assert ('l', 'l') !in a.digraphs && ('s', 'h') in a.digraphs by {
      DoubledL(trie);
      DigraphSh(trie);
    }
  }

  // ---------------------------------------------------------------------
  // Words separated by a caseless character
  // ---------------------------------------------------------------------

  /** Two words with the same letters and the same first character have the
    * same glyphs. */
  lemma SameWordGlyphs(trie: Tree<char, PhonemeData>, a: Alphabet, s: string, i: nat, e: nat, t: string, k: nat, d: nat)
    requires IsCatalogTrie(trie) && Classifies(a) && i < |s| && k < |t|
    requires e == WordEnd(a, s, i) && d == WordEnd(a, t, k)
    requires s[i] == t[k] && s[i..e] == t[k..d]
    ensures WordGlyphs(trie, a, s, i) == WordGlyphs(trie, a, t, k)
  {
  }

  /** Word ends agree in two texts that agree from `i` and `j` on. */
  lemma {:induction false} WordEndSuffix(a: Alphabet, s: string, i: nat, v: string, j: nat)
    requires i <= |s| && j <= |v| && s[i..] == v[j..]
    ensures WordEnd(a, s, i) - i == WordEnd(a, v, j) - j
    decreases |s| - i
  {
    assert |s| - i == |v| - j;
    if i < |s| {
      assert s[i] == s[i..][0] && v[j] == v[j..][0];
      assert s[i + 1..] == s[i..][1..] && v[j + 1..] == v[j..][1..];
      WordEndSuffix(a, s, i + 1, v, j + 1);
    }
  }

  /** ... and so do the next Sildish characters. */
  lemma {:induction false} NextSildishSuffix(a: Alphabet, s: string, i: nat, v: string, j: nat)
    requires i <= |s| && j <= |v| && s[i..] == v[j..]
    ensures NextSildish(a, s, i) - i == NextSildish(a, v, j) - j
    decreases |s| - i
  {
    assert |s| - i == |v| - j;
    if i < |s| {
      assert s[i] == s[i..][0] && v[j] == v[j..][0];
      assert s[i + 1..] == s[i..][1..] && v[j + 1..] == v[j..][1..];
      NextSildishSuffix(a, s, i + 1, v, j + 1);
    }
  }

  /** Slices at the same offsets into two agreeing tails agree. */
  lemma SliceSuffix(s: string, i: nat, v: string, j: nat, x: nat, y: nat, x': nat, y': nat)
    requires i <= x <= y <= |s| && j <= x' <= y' <= |v| && s[i..] == v[j..]
    requires x - i == x' - j && y - i == y' - j
    ensures s[x..y] == v[x'..y'] && s[y..] == v[y'..]
  {
    forall k | x <= k < |s|
      ensures s[k] == v[k - x + x']
    {
      assert s[k] == s[i..][k - i] && v[k - x + x'] == v[j..][k - i];
    }
    assert s[x..y] == v[x'..y'];
    assert s[y..] == v[y'..];
  }

  /** The word step at `i` of `s` and at `j` of `v`, two texts that agree from
    * there on, read the same word and the same gap and leave tails that still
    * agree. */
  lemma StepSuffix(a: Alphabet, s: string, i: nat, v: string, j: nat)
    requires i < |s| && j <= |v| && s[i..] == v[j..]
    ensures j < |v| && s[i] == v[j]
    ensures s[i..WordEnd(a, s, i)] == v[j..WordEnd(a, v, j)]
    ensures s[WordEnd(a, s, i)..GapEnd(a, s, WordEnd(a, s, i))] == v[WordEnd(a, v, j)..GapEnd(a, v, WordEnd(a, v, j))]
    ensures s[GapEnd(a, s, WordEnd(a, s, i))..] == v[GapEnd(a, v, WordEnd(a, v, j))..]
  {
    assert s[i] == s[i..][0] && v[j] == v[j..][0];
    var d, e := WordEnd(a, s, i), WordEnd(a, v, j);
    WordEndSuffix(a, s, i, v, j);
    SliceSuffix(s, i, v, j, i, d, j, e);
    if d < |s| {
      assert s[d] == s[d..][0] && v[e] == v[e..][0];
      assert s[d + 1..] == s[d..][1..] && v[e + 1..] == v[e..][1..];
      NextSildishSuffix(a, s, d + 1, v, e + 1);
    }
    SliceSuffix(s, d, v, e, d, GapEnd(a, s, d), e, GapEnd(a, v, e));
  }

  /** A word step of `s` whose word and gap spell those of a step of `t`
    * writes what that step writes. */
  lemma SameStep(
    trie: Tree<char, PhonemeData>, a: Alphabet, s: string, i: nat, d: nat, h: nat,
    t: string, k: nat, e: nat, g: nat, glyphs: string, copied: string)
    requires IsCatalogTrie(trie) && Classifies(a) && i < |s| && k < |t|
    requires d == WordEnd(a, s, i) && h == GapEnd(a, s, d)
    requires e == WordEnd(a, t, k) && g == GapEnd(a, t, e)
    requires s[i] == t[k] && s[i..d] == t[k..e] && s[d..h] == t[e..g]
    requires glyphs == WordGlyphs(trie, a, t, k) && copied == Echo(t[e..g])
    ensures TransliterationFrom(trie, a, s, i) == glyphs + copied + TransliterationFrom(trie, a, s, h)
  {
    SameWordGlyphs(trie, a, s, i, d, t, k, e);
    WordThenGap(trie, a, s, i, glyphs, copied, h);
  }

  /** Two texts that agree from `i` and `j` on are transliterated alike from
    * there, once a word starts at both places. */
  lemma {:induction false} SuffixFrom(trie: Tree<char, PhonemeData>, a: Alphabet, s: string, i: nat, v: string, j: nat)
    requires IsCatalogTrie(trie) && Classifies(a)
    requires i <= |s| && j <= |v| && s[i..] == v[j..]
    ensures TransliterationFrom(trie, a, s, i) == TransliterationFrom(trie, a, v, j)
    decreases |s| - i
  {
    if i < |s| {
      StepSuffix(a, s, i, v, j);
      var d, e := WordEnd(a, s, i), WordEnd(a, v, j);
      var h, g := GapEnd(a, s, d), GapEnd(a, v, e);
      var glyphs := WordGlyphs(trie, a, v, j);
      var copied := Echo(v[e..g]);
      WordThenGap(trie, a, v, j, glyphs, copied, g);
      SameStep(trie, a, s, i, d, h, v, j, e, g, glyphs, copied);
      SuffixFrom(trie, a, s, h, v, g);
    } else {
      assert |v[j..]| == 0;
    }
  }

  /** Characters after `u`, the first of them not Sildish, leave the word
    * ends inside `u` where they were. */
  lemma {:induction false} WordEndPrefix(a: Alphabet, s: string, m: nat, u: string, i: nat)
    requires i <= m < |s| && u == s[..m] && !IsSildishIn(a, Lower(s[m]))
    ensures WordEnd(a, s, i) == WordEnd(a, u, i)
    decreases m - i
  {
    if i < m {
      assert s[i] == u[i];
      WordEndPrefix(a, s, m, u, i + 1);
    }
  }

  /** ... and the next Sildish character, when `u` has one. */
  lemma {:induction false} NextSildishPrefix(a: Alphabet, s: string, m: nat, u: string, k: nat)
    requires k <= m <= |s| && u == s[..m] && NextSildish(a, u, k) < m
    ensures NextSildish(a, s, k) == NextSildish(a, u, k)
    decreases m - k
  {
    assert s[k] == u[k];
    if !IsSildishIn(a, u[k]) {
      NextSildishPrefix(a, s, m, u, k + 1);
    }
  }

  /** What `u` ends with for the separated-words law: nothing, or a letter
    * that is Sildish as it is and lower-cased. */
  predicate EndsInLetter(a: Alphabet, u: string)
  {
    u != [] ==> IsSildishIn(a, u[|u| - 1]) && IsSildishIn(a, Lower(u[|u| - 1]))
  }

  /** What follows `u` in `s` for the law: a character that is neither
    * Sildish once lower-cased nor upper-case. */
  predicate BreaksAfter(a: Alphabet, s: string, m: nat)
  {
    m < |s| && !IsSildishIn(a, Lower(s[m])) && !IsUpper(s[m])
  }

  /** A word step inside `u` reads, in `s`, the same word and, unless the
    * word ends `u`, the same gap. */
  lemma PrefixStep(a: Alphabet, s: string, m: nat, u: string, i: nat)
    requires i < m && BreaksAfter(a, s, m) && u == s[..m] && EndsInLetter(a, u)
    ensures s[i] == u[i] && WordEnd(a, s, i) == WordEnd(a, u, i)
    ensures s[i..WordEnd(a, u, i)] == u[i..WordEnd(a, u, i)]
    ensures WordEnd(a, u, i) == m ==> GapEnd(a, u, m) == m
    ensures WordEnd(a, u, i) < m ==>
      GapEnd(a, s, WordEnd(a, u, i)) == GapEnd(a, u, WordEnd(a, u, i))
      && s[WordEnd(a, u, i)..GapEnd(a, u, WordEnd(a, u, i))] == u[WordEnd(a, u, i)..GapEnd(a, u, WordEnd(a, u, i))]
  {
    var e := WordEnd(a, u, i);
    WordEndPrefix(a, s, m, u, i);
    assert s[i] == u[i] && s[i..e] == u[i..e];
    if e < m {
      PrefixGap(a, s, m, u, e);
    }
  }

  /** A gap that starts inside `u` ends, in `s`, where it ends in `u`. */
  lemma PrefixGap(a: Alphabet, s: string, m: nat, u: string, e: nat)
    requires e < m && BreaksAfter(a, s, m) && u == s[..m] && EndsInLetter(a, u)
    requires !IsSildishIn(a, Lower(u[e]))
    ensures GapEnd(a, s, e) == GapEnd(a, u, e) && s[e..GapEnd(a, u, e)] == u[e..GapEnd(a, u, e)]
  {
    assert s[e] == u[e];
    assert e + 1 < m;
    assert NextSildish(a, u, e + 1) < m by {
      assert IsSildishIn(a, u[m - 1]);
    }
    NextSildishPrefix(a, s, m, u, e + 1);
  }

  /** A word at `m` that is no word contributes no glyphs. */
  lemma NoWordAt(trie: Tree<char, PhonemeData>, a: Alphabet, s: string, m: nat)
    requires IsCatalogTrie(trie) && Classifies(a) && BreaksAfter(a, s, m)
    ensures WordEnd(a, s, m) == m && WordGlyphs(trie, a, s, m) == ""
  {
    EmptyWord(trie, a, false);
    assert LowerAll(s[m..m]) == "";
  }

  /** In `s`, the last word of `u` runs into the gap after `u`. */
  lemma LastWordInText(trie: Tree<char, PhonemeData>, a: Alphabet, s: string, m: nat, u: string, i: nat)
    requires IsCatalogTrie(trie) && Classifies(a)
    requires i < m && BreaksAfter(a, s, m) && u == s[..m] && EndsInLetter(a, u)
    requires WordEnd(a, u, i) == m
    ensures TransliterationFrom(trie, a, s, i)
      == WordGlyphs(trie, a, u, i) + Echo(s[m..GapEnd(a, s, m)]) + TransliterationFrom(trie, a, s, GapEnd(a, s, m))
  {
    PrefixStep(a, s, m, u, i);
    SameWordGlyphs(trie, a, s, i, m, u, i, m);
    WordThenGap(trie, a, s, i, WordGlyphs(trie, a, u, i), Echo(s[m..GapEnd(a, s, m)]), GapEnd(a, s, m));
  }

  /** At the break after `u` there is no word, only the gap. */
  lemma GapAtBreak(trie: Tree<char, PhonemeData>, a: Alphabet, s: string, m: nat)
    requires IsCatalogTrie(trie) && Classifies(a) && BreaksAfter(a, s, m)
    ensures TransliterationFrom(trie, a, s, m)
      == Echo(s[m..GapEnd(a, s, m)]) + TransliterationFrom(trie, a, s, GapEnd(a, s, m))
  {
    var copied := Echo(s[m..GapEnd(a, s, m)]);
    NoWordAt(trie, a, s, m);
    WordThenGap(trie, a, s, m, "", copied, GapEnd(a, s, m));
    Unit(copied);
  }

  /** In `u` itself, its last word is all that is left. */
  lemma LastWordInPrefix(trie: Tree<char, PhonemeData>, a: Alphabet, u: string, i: nat)
    requires IsCatalogTrie(trie) && Classifies(a)
    requires i < |u| && WordEnd(a, u, i) == |u|
    ensures TransliterationFrom(trie, a, u, i) == WordGlyphs(trie, a, u, i)
  {
    var glyphs := WordGlyphs(trie, a, u, i);
    assert u[|u|..|u|] == "";
    WordThenGap(trie, a, u, i, glyphs, "", |u|);
    assert TransliterationFrom(trie, a, u, |u|) == "";
    Unit(glyphs);
  }

  /** The last word of `u`, in `s`, is followed by the gap after `u`. */
  lemma LastWordStep(trie: Tree<char, PhonemeData>, a: Alphabet, s: string, m: nat, u: string, i: nat)
    requires IsCatalogTrie(trie) && Classifies(a)
    requires i < m && BreaksAfter(a, s, m) && u == s[..m] && EndsInLetter(a, u)
    requires WordEnd(a, u, i) == m
    ensures TransliterationFrom(trie, a, s, i) == TransliterationFrom(trie, a, u, i) + TransliterationFrom(trie, a, s, m)
  {
    var h := GapEnd(a, s, m);
    LastWordInText(trie, a, s, m, u, i);
    GapAtBreak(trie, a, s, m);
    LastWordInPrefix(trie, a, u, i);
    Associative(WordGlyphs(trie, a, u, i), Echo(s[m..h]), TransliterationFrom(trie, a, s, h));
  }

  /** The empty string is a unit of concatenation. */
  lemma Unit(x: string)
    ensures "" + x == x && x + "" == x
  {
  }

  /** From a word start inside `u`, the transliteration of `s` is that of `u`
    * followed by the transliteration of `s` from the end of `u`. */
  lemma {:induction false} PrefixFrom(trie: Tree<char, PhonemeData>, a: Alphabet, s: string, m: nat, u: string, i: nat)
    requires IsCatalogTrie(trie) && Classifies(a)
    requires i <= m && BreaksAfter(a, s, m) && u == s[..m] && EndsInLetter(a, u)
    ensures TransliterationFrom(trie, a, s, i) == TransliterationFrom(trie, a, u, i) + TransliterationFrom(trie, a, s, m)
    decreases m - i
  {
    if i == m {
      assert TransliterationFrom(trie, a, u, i) == "";
      Unit(TransliterationFrom(trie, a, s, m));
    } else if WordEnd(a, u, i) == m {
      LastWordStep(trie, a, s, m, u, i);
    } else {
      var g := GapEnd(a, u, WordEnd(a, u, i));
      var step := InnerWordStep(trie, a, s, m, u, i);
      assert i < g <= m;
      PrefixFrom(trie, a, s, m, u, g);
      Associative(step, TransliterationFrom(trie, a, u, g), TransliterationFrom(trie, a, s, m));
    }
  }

  /** What a word step writes: the word's glyphs and the gap after it. */
  function StepText(trie: Tree<char, PhonemeData>, a: Alphabet, u: string, i: nat): string
    requires IsCatalogTrie(trie) && Classifies(a) && i < |u|
  {
    WordGlyphs(trie, a, u, i) + Echo(u[WordEnd(a, u, i)..GapEnd(a, u, WordEnd(a, u, i))])
  }

  /** A word step inside `u` that stops short of its end writes the same in
    * `u` and in `s`. */
  lemma InnerWordStep(trie: Tree<char, PhonemeData>, a: Alphabet, s: string, m: nat, u: string, i: nat)
    returns (step: string)
    requires IsCatalogTrie(trie) && Classifies(a)
    requires i < m && BreaksAfter(a, s, m) && u == s[..m] && EndsInLetter(a, u)
    requires WordEnd(a, u, i) < m
    ensures step == StepText(trie, a, u, i)
    ensures i < GapEnd(a, u, WordEnd(a, u, i)) <= m
    ensures TransliterationFrom(trie, a, u, i) == step + TransliterationFrom(trie, a, u, GapEnd(a, u, WordEnd(a, u, i)))
    ensures TransliterationFrom(trie, a, s, i) == step + TransliterationFrom(trie, a, s, GapEnd(a, u, WordEnd(a, u, i)))
  {
    PrefixStep(a, s, m, u, i);
    var e := WordEnd(a, u, i);
    var g := GapEnd(a, u, e);
    var glyphs := WordGlyphs(trie, a, u, i);
    var copied := Echo(u[e..g]);
    WordThenGap(trie, a, u, i, glyphs, copied, g);
    SameStep(trie, a, s, i, e, g, u, i, e, g, glyphs, copied);
    step := glyphs + copied;
  }

  /** The break after `u` in `u + [sep] + v`, for a separator that is neither
    * Sildish nor upper-case and a `v` that starts with a Sildish character (or
    * is empty): the separator alone is copied, and `v` follows. */
  lemma Separator(a: Alphabet, u: string, sep: char, v: string, s: string)
    requires s == u + [sep] + v
    requires !IsSildishIn(a, sep) && !IsSildishIn(a, Lower(sep)) && !IsUpper(sep)
    requires v == [] || IsSildishIn(a, v[0])
    ensures BreaksAfter(a, s, |u|) && u == s[..|u|] && s[|u| + 1..] == v[0..]
    ensures GapEnd(a, s, |u|) == |u| + 1 && Echo(s[|u|..|u| + 1]) == [sep]
  {
    var m := |u|;
    assert s[m] == sep;
    assert s[..m] == u;
    assert s[m + 1..] == v;
    if v != [] {
      assert s[m + 1] == v[0];
    }
    assert s[m..m + 1] == [sep];
  }

  /** The separated-words law with the break after `u` located at `m` and
    * the rest `v` starting at `h`. */
  lemma SeparatedAt(trie: Tree<char, PhonemeData>, a: Alphabet, s: string, m: nat, h: nat, u: string, sep: char, v: string)
    requires IsCatalogTrie(trie) && Classifies(a)
    requires BreaksAfter(a, s, m) && u == s[..m] && EndsInLetter(a, u)
    requires h == GapEnd(a, s, m) && s[h..] == v[0..] && Echo(s[m..h]) == [sep]
    ensures Transliterated(trie, a, s) == Transliterated(trie, a, u) + [sep] + Transliterated(trie, a, v)
  {
    PrefixFrom(trie, a, s, m, u, 0);
    GapAtBreak(trie, a, s, m);
    SuffixFrom(trie, a, s, h, v, 0);
    Associative(Transliterated(trie, a, u), [sep], Transliterated(trie, a, v));
  }

  /** Words separated by a caseless character that is not Sildish, such as a
    * space, a hyphen or a digit, are transliterated independently, and the
    * separator is copied between them. */
  lemma SeparatedWords(trie: Tree<char, PhonemeData>, a: Alphabet, u: string, sep: char, v: string)
    requires IsCatalogTrie(trie) && Classifies(a)
    requires EndsInLetter(a, u)
    requires !IsSildishIn(a, sep) && !IsSildishIn(a, Lower(sep)) && !IsUpper(sep)
    requires v == [] || IsSildishIn(a, v[0])
    ensures Transliterated(trie, a, u + [sep] + v) == Transliterated(trie, a, u) + [sep] + Transliterated(trie, a, v)
  {
    Separator(a, u, sep, v, u + [sep] + v);
    SeparatedAt(trie, a, u + [sep] + v, |u|, |u| + 1, u, sep, v);
  }

  // ---------------------------------------------------------------------
  // Single phonemes and clusters
  // ---------------------------------------------------------------------

  /** A roman is spelled in lower-case Sildish letters: vowel letters for a
    * vowel or diphthong, consonant letters for a consonant. */
  lemma RomanLetters(roman: string, g: GraphemeSet)
    requires forall c :: c in roman ==> (if IsVowelKind(g) then c in VowelLetters else c in ConsonantLetters)
    ensures AllLetters(roman)
    ensures forall j :: 0 <= j < |roman| ==> if IsVowelKind(g) then roman[j] in VowelLetters else roman[j] in ConsonantLetters
  {
    forall j | 0 <= j < |roman|
      ensures IsLetter(roman[j])
      ensures if IsVowelKind(g) then roman[j] in VowelLetters else roman[j] in ConsonantLetters
    {
      assert roman[j] in roman;
    }
  }

  /** A key of the catalog on its own munches to one token: the key with its
    * entry. */
  lemma KeyToken(trie: Tree<char, PhonemeData>, s: string, d: PhonemeData)
    requires IsCatalogTrie(trie) && AllLetters(s) && s != [] && CatalogEntry(s) == Some(d)
    ensures LettersAreKeys(trie, s)
    ensures Munch(trie, RegionLookahead, s, 0) == [Token(s, d)]
  {
    MunchIsMaximal(trie, RegionLookahead, s, 0);
    var m := Munch(trie, RegionLookahead, s, 0);
    assert |m| >= 1;
    assert s[0..|s|] == s;
    if |m[0].key| < |s| {
      assert false;
    }
    assert m[0].key == s;
    assert m[1..] == [];
    assert m == [m[0]] + m[1..];
  }

  /** One token is rendered as both the first and the last. */
  lemma RenderOne<P>(t: Token<P>, select: (P, bool, bool) -> string)
    ensures Render([t], true, select) == select(t.data, true, true)
  {
    assert [t][1..] == [];
    Unit(select(t.data, true, true));
  }

  /** A key of the catalog on its own, as the medials, is the glyph of its
    * entry as both the first and the last phoneme. */
  lemma KeyMedial(trie: Tree<char, PhonemeData>, w: string, d: PhonemeData, capitalized: bool)
    requires IsCatalogTrie(trie) && AllLetters(w) && w != [] && CatalogEntry(w) == Some(d)
    ensures MedialRender(trie, w, capitalized) == MedialGlyph(capitalized, d, true, true)
  {
    KeyToken(trie, w, d);
    RenderOne(Token(w, d), MedialSelector(capitalized));
  }

  /** A key of the catalog on its own, as a leading or trailing region, is
    * the non-medial glyph of its entry. */
  lemma KeyNonmedial(trie: Tree<char, PhonemeData>, w: string, d: PhonemeData)
    requires IsCatalogTrie(trie) && AllLetters(w) && w != [] && CatalogEntry(w) == Some(d)
    ensures NonmedialRender(trie, w) == NonmedialGlyph(d, true, true)
  {
    KeyToken(trie, w, d);
    RenderOne(Token(w, d), NonmedialGlyph);
  }

  /** A vowel or diphthong on its own, as a leading or trailing region, is its
    * glyph without the bar. */
  lemma NonmedialVowel(trie: Tree<char, PhonemeData>, p: Phoneme)
    requires IsCatalogTrie(trie) && IsVowelPhoneme(p)
    ensures AllLetters(p.Data().roman)
    ensures NonmedialRender(trie, p.Data().roman) == p.Data().graphemeSet.withoutBar
  {
    var d := p.Data();
    RomanSpelling(p);
    RomanLetters(d.roman, d.graphemeSet);
    CatalogRoundTrip(p);
    KeyNonmedial(trie, d.roman, d);
  }

  /** A phoneme on its own as the medials: a vowel or diphthong is its
    * standard glyph; a consonant is its initial glyph, or its final glyph in a
    * capitalised word. */
  lemma SingleMedial(trie: Tree<char, PhonemeData>, p: Phoneme, capitalized: bool)
    requires IsCatalogTrie(trie)
    ensures AllLetters(p.Data().roman)
    ensures MedialRender(trie, p.Data().roman, capitalized)
      == if IsVowelPhoneme(p) then p.Data().graphemeSet.standard
         else if capitalized then p.Data().graphemeSet.final
         else p.Data().graphemeSet.initial
  {
    var d := p.Data();
    RomanSpelling(p);
    RomanLetters(d.roman, d.graphemeSet);
    CatalogRoundTrip(p);
    if IsVowelPhoneme(p) {
      KeyMedial(trie, d.roman, d, capitalized);
    } else {
      KeyMedial(trie, d.roman, SingleForm(d), capitalized);
    }
  }

  /** A reduplicable consonant written twice, as the medials, is its initial
    * reduplicated glyph, or its final reduplicated glyph in a capitalised
    * word. */
  lemma DoubledMedial(trie: Tree<char, PhonemeData>, p: Phoneme, capitalized: bool)
    requires IsCatalogTrie(trie) && IsReduplicablePhoneme(p)
    ensures AllLetters(p.Data().roman + p.Data().roman)
    ensures MedialRender(trie, p.Data().roman + p.Data().roman, capitalized)
      == if capitalized then p.Data().graphemeSet.finalReduplicated else p.Data().graphemeSet.initialReduplicated
  {
    var d := p.Data();
    var w := d.roman + d.roman;
    RomanSpelling(p);
    ReduplicableRomanIsOneLetter(p);
    assert AllLetters(w) by {
      assert d.roman[0] in d.roman;
      assert w == [d.roman[0], d.roman[0]];
    }
    CatalogRoundTrip(p);
    KeyMedial(trie, w, d, capitalized);
  }

  /** Two keys starting at `i`, each the longest of at most two letters
    * there, have the same length. */
  lemma SameKeyLength(s: string, i: nat, k: nat, n: nat)
    requires i + k <= |s| && i + n <= |s| && k <= 2
    requires CatalogEntry(s[i..i + k]).Some? && CatalogEntry(s[i..i + n]).Some?
    requires forall j :: i + k < j <= |s| ==> CatalogEntry(s[i..j]).None?
    requires forall j :: i + n < j <= |s| && j <= i + 2 ==> CatalogEntry(s[i..j]).None?
    ensures k == n
  {
  }

  /** Maximal munch at position `i` takes the key `key` when it starts there
    * and no longer key of at most two letters does. */
  lemma LongestKeyFirst(trie: Tree<char, PhonemeData>, s: string, i: nat, key: string, d: PhonemeData)
    requires IsCatalogTrie(trie) && AllLetters(s) && i < |s|
    requires i + |key| <= |s| && key == s[i..i + |key|] && CatalogEntry(key) == Some(d)
    requires forall j :: i + |key| < j <= |s| && j <= i + 2 ==> CatalogEntry(s[i..j]).None?
    ensures LettersAreKeys(trie, s)
    ensures Munch(trie, RegionLookahead, s, i) == [Token(key, d)] + Munch(trie, RegionLookahead, s, i + |key|)
  {
    MunchIsMaximal(trie, RegionLookahead, s, i);
    var m := Munch(trie, RegionLookahead, s, i);
    assert |m| >= 1;
    var t := m[0];
    KeyLength(t.key);
    SameKeyLength(s, i, |t.key|, |key|);
    assert t == Token(key, d);
    assert m == [t] + m[1..];
  }

  /** Four letters that are two keys of two letters munch to those keys. */
  lemma TwoKeys(trie: Tree<char, PhonemeData>, s: string, d1: PhonemeData, d2: PhonemeData)
    requires IsCatalogTrie(trie) && AllLetters(s) && |s| == 4
    requires CatalogEntry(s[0..2]) == Some(d1) && CatalogEntry(s[2..4]) == Some(d2)
    ensures LettersAreKeys(trie, s)
    ensures Munch(trie, RegionLookahead, s, 0) == [Token(s[0..2], d1), Token(s[2..4], d2)]
  {
    LongestKeyFirst(trie, s, 0, s[0..2], d1);
    LongestKeyFirst(trie, s, 2, s[2..4], d2);
    assert Munch(trie, RegionLookahead, s, 4) == [];
  }

  /** Four letters whose first letter is a key that the second does not
    * extend, followed by a key of two letters and one of one letter, munch
    * to those three keys. */
  lemma ThreeKeys(trie: Tree<char, PhonemeData>, s: string, d1: PhonemeData, d2: PhonemeData, d3: PhonemeData)
    requires IsCatalogTrie(trie) && AllLetters(s) && |s| == 4
    requires CatalogEntry(s[0..1]) == Some(d1) && CatalogEntry(s[0..2]).None?
    requires CatalogEntry(s[1..3]) == Some(d2) && CatalogEntry(s[3..4]) == Some(d3)
    ensures LettersAreKeys(trie, s)
    ensures Munch(trie, RegionLookahead, s, 0) == [Token(s[0..1], d1), Token(s[1..3], d2), Token(s[3..4], d3)]
  {
    LongestKeyFirst(trie, s, 0, s[0..1], d1);
    LongestKeyFirst(trie, s, 1, s[1..3], d2);
    LongestKeyFirst(trie, s, 3, s[3..4], d3);
    assert Munch(trie, RegionLookahead, s, 4) == [];
  }

  /** "aeei" and "eoia" are Sildish letters, cut where munch cuts them. */
  lemma ExampleCuts()
    ensures AllLetters("aeei") && "aeei"[0..2] == "ae" && "aeei"[2..4] == "ei"
    ensures AllLetters("eoia") && "eoia"[0..1] == "e" && "eoia"[0..2] == "eo"
      && "eoia"[1..3] == "oi" && "eoia"[3..4] == "a"
  {
    assert AllLetters("aeei");
    assert AllLetters("eoia");
  }

  /** The keys of "aeei": "ae" and "ei". */
  lemma AeeiKeys()
    ensures CatalogEntry("ae") == Some(Ae.Data()) && CatalogEntry("ei") == Some(Ei.Data())
  {
    assert DecodeRoman("ae") == Some(Ae);
    assert DecodeRoman("ei") == Some(Ei);
  }

  /** The keys of "eoia": "e", "oi" and "a"; "eo" is none. */
  lemma EoiaKeys()
    ensures CatalogEntry("e") == Some(E.Data()) && CatalogEntry("eo").None?
    ensures CatalogEntry("oi") == Some(Oi.Data()) && CatalogEntry("a") == Some(A.Data())
  {
    assert DecodeRoman("e") == Some(E);
    assert DecodeRoman("eo").None? && DecodeCluster("eo").None?;
    assert DecodeRoman("oi") == Some(Oi);
    assert DecodeRoman("a") == Some(A);
  }

  /** Maximal munch takes "aeei" as the diphthongs "ae" and "ei", not as
    * "a", "e", "ei". */
  lemma MunchAeei(trie: Tree<char, PhonemeData>)
    requires IsCatalogTrie(trie)
    ensures AllLetters("aeei") && LettersAreKeys(trie, "aeei")
    ensures Munch(trie, RegionLookahead, "aeei", 0) == [Token("ae", Ae.Data()), Token("ei", Ei.Data())]
  {
    ExampleCuts();
    AeeiKeys();
    TwoKeys(trie, "aeei", Ae.Data(), Ei.Data());
  }

  /** "eo" is no key, so maximal munch takes "eoia" as "e", then "oi", then
    * "a". */
  lemma MunchEoia(trie: Tree<char, PhonemeData>)
    requires IsCatalogTrie(trie)
    ensures AllLetters("eoia") && LettersAreKeys(trie, "eoia")
    ensures Munch(trie, RegionLookahead, "eoia", 0) == [Token("e", E.Data()), Token("oi", Oi.Data()), Token("a", A.Data())]
  {
    ExampleCuts();
    EoiaKeys();
    ThreeKeys(trie, "eoia", E.Data(), Oi.Data(), A.Data());
  }

  /** Two tokens are rendered as the first and then the last. */
  lemma RenderTwo<P>(t1: Token<P>, t2: Token<P>, select: (P, bool, bool) -> string)
    ensures Render([t1, t2], true, select) == select(t1.data, true, false) + select(t2.data, false, true)
  {
    assert [t1, t2][1..] == [t2] && [t2][1..] == [];
    assert Render([t2], false, select) == select(t2.data, false, true) + Render([], false, select);
    Unit(select(t2.data, false, true));
  }

  /** Three tokens are rendered as the first, a middle one and the last. */
  lemma RenderThree<P>(t1: Token<P>, t2: Token<P>, t3: Token<P>, select: (P, bool, bool) -> string)
    ensures Render([t1, t2, t3], true, select)
      == select(t1.data, true, false) + select(t2.data, false, false) + select(t3.data, false, true)
  {
    assert [t1, t2, t3][1..] == [t2, t3] && [t2, t3][1..] == [t3] && [t3][1..] == [];
    assert Render([t3], false, select) == select(t3.data, false, true) + Render([], false, select);
    Unit(select(t3.data, false, true));
    assert Render([t2, t3], false, select) == select(t2.data, false, false) + Render([t3], false, select);
    assert Render([t1, t2, t3], true, select) == select(t1.data, true, false) + Render([t2, t3], false, select);
  }

  /** "aeei" outside the medials: the bar-less glyphs of "ae" and "ei". */
  lemma RenderAeei(trie: Tree<char, PhonemeData>)
    requires IsCatalogTrie(trie)
    ensures AllLetters("aeei")
    ensures NonmedialRender(trie, "aeei") == Ae.Data().graphemeSet.withoutBar + Ei.Data().graphemeSet.withoutBar
  {
    MunchAeei(trie);
    RenderTwo(Token("ae", Ae.Data()), Token("ei", Ei.Data()), NonmedialGlyph);
  }

  /** "eoia" outside the medials: the bar-less glyphs of "e", "oi" and "a". */
  lemma RenderEoia(trie: Tree<char, PhonemeData>)
    requires IsCatalogTrie(trie)
    ensures AllLetters("eoia")
    ensures NonmedialRender(trie, "eoia")
      == E.Data().graphemeSet.withoutBar + Oi.Data().graphemeSet.withoutBar + A.Data().graphemeSet.withoutBar
  {
    MunchEoia(trie);
    RenderThree(Token("e", E.Data()), Token("oi", Oi.Data()), Token("a", A.Data()), NonmedialGlyph);
  }

  /** The leading and trailing regions and the medials of an empty word are
    * rendered as nothing. */
  lemma EmptyRegions(trie: Tree<char, PhonemeData>, capitalized: bool)
    requires IsCatalogTrie(trie)
    ensures NonmedialRender(trie, "") == "" && MedialRender(trie, "", capitalized) == ""
  {
  }

  /** A lower-case word of Sildish letters that is the whole text is the
    * rendering of its regions, without the capital mark. */
  lemma LoneWord(trie: Tree<char, PhonemeData>, w: string)
    requires IsCatalogTrie(trie) && AllLetters(w) && w != []
    ensures Classifies(SildishAlphabet(trie))
    ensures Transliterated(trie, SildishAlphabet(trie), w) == RenderWord(trie, SildishAlphabet(trie), w, false)
  {
    var a := SildishAlphabet(trie);
    SildishAlphabetClassifies(trie);
    forall j | 0 <= j < |w|
      ensures Lower(w[j]) == w[j] && IsSildishIn(a, Lower(w[j]))
    {
      LetterRange(w[j]);
    }
    assert WordEnd(a, w, 0) == |w|;
    LastWordInPrefix(trie, a, w, 0);
    assert w[0..|w|] == w;
    assert LowerAll(w) == w;
  }

  /** A word of vowel letters is all leading vowels. */
  lemma VowelWordRegions(trie: Tree<char, PhonemeData>, w: string)
    requires forall j :: 0 <= j < |w| ==> w[j] in VowelLetters
    ensures Segment(SildishAlphabet(trie), w, false) == Regions(w, "", "")
  {
    var a := SildishAlphabet(trie);
    assert forall j :: 0 <= j < |w| ==> a.isVowel(w[j]);
    assert VowelPrefixLength(a, w) == |w|;
    assert w[..|w|] == w && w[|w|..] == "";
    assert Consonants(a, "") == 0;
  }

  /** A one-letter consonant, or a two-letter one that the tree holds as a
    * plain consonant, counts as one consonant. */
  lemma ConsonantCount(trie: Tree<char, PhonemeData>, w: string)
    requires IsCatalogTrie(trie) && 1 <= |w| <= 2
    requires forall j :: 0 <= j < |w| ==> w[j] in ConsonantLetters
    requires |w| == 2 ==> IsPlainConsonant(CatalogEntry(w))
    ensures Consonants(SildishAlphabet(trie), w) == 1
  {
    var a := SildishAlphabet(trie);
    assert a.isConsonant(w[0]);
    ConsonantsAt(a, w, 0);
    assert w[0..] == w;
    if |w| == 2 {
      assert (w[0], w[1]) in a.digraphs by {
        assert [w[0], w[1]] == w;
        assert Get(trie, w) == CatalogEntry(w);
      }
      assert IsConsonantDigraph(a, w[0], w[1]);
      assert w[2..] == [];
    } else {
      assert w[1..] == [];
    }
  }

  /** A one-letter consonant, or a two-letter one that the tree holds as a
    * plain consonant, is all medials. */
  lemma ConsonantWordRegions(trie: Tree<char, PhonemeData>, w: string)
    requires IsCatalogTrie(trie) && 1 <= |w| <= 2
    requires forall j :: 0 <= j < |w| ==> w[j] in ConsonantLetters
    requires |w| == 2 ==> IsPlainConsonant(CatalogEntry(w))
    ensures Segment(SildishAlphabet(trie), w, false) == Regions("", w, "")
  {
    var a := SildishAlphabet(trie);
    LettersDisjoint(w[0]);
    assert !a.isVowel(w[0]);
    assert VowelPrefixLength(a, w) == 0;
    ConsonantCount(trie, w);
    assert w[0..] == w;
    assert TrailingLength(a, w) == 0;
    assert w[..0] == "" && w[..|w|] == w && w[|w|..] == "";
  }

  /** A word that is all medials is rendered as its medials. */
  lemma AllMedials(trie: Tree<char, PhonemeData>, a: Alphabet, w: string)
    requires IsCatalogTrie(trie) && AllLetters(w) && Segment(a, w, false) == Regions("", w, "")
    ensures RenderWord(trie, a, w, false) == MedialRender(trie, w, false)
  {
    EmptyRegions(trie, false);
    Unit(MedialRender(trie, w, false));
  }

  /** A word that is all leading vowels is rendered as a non-medial region. */
  lemma AllLeading(trie: Tree<char, PhonemeData>, a: Alphabet, w: string)
    requires IsCatalogTrie(trie) && AllLetters(w) && Segment(a, w, false) == Regions(w, "", "")
    ensures RenderWord(trie, a, w, false) == NonmedialRender(trie, w)
  {
    EmptyRegions(trie, false);
    Unit(NonmedialRender(trie, w));
  }

  /** A plain-consonant key that is the whole text is its initial glyph. */
  lemma ConsonantKeyWord(trie: Tree<char, PhonemeData>, w: string, d: PhonemeData)
    requires IsCatalogTrie(trie) && 1 <= |w| <= 2 && AllLetters(w)
    requires forall j :: 0 <= j < |w| ==> w[j] in ConsonantLetters
    requires CatalogEntry(w) == Some(d) && d.graphemeSet.Consonant?
    ensures Classifies(SildishAlphabet(trie))
    ensures Transliterated(trie, SildishAlphabet(trie), w) == d.graphemeSet.initial
  {
    var a := SildishAlphabet(trie);
    LoneWord(trie, w);
    assert Transliterated(trie, a, w) == RenderWord(trie, a, w, false);
    ConsonantWordRegions(trie, w);
    AllMedials(trie, a, w);
    KeyMedial(trie, w, d, false);
  }

  /** A phoneme's roman that is the whole text: a vowel or diphthong is its
    * glyph without the bar, a consonant its initial glyph. */
  lemma PhonemeWord(trie: Tree<char, PhonemeData>, p: Phoneme)
    requires IsCatalogTrie(trie)
    ensures Classifies(SildishAlphabet(trie))
    ensures Transliterated(trie, SildishAlphabet(trie), p.Data().roman)
      == if IsVowelPhoneme(p) then p.Data().graphemeSet.withoutBar else p.Data().graphemeSet.initial
  {
    var d := p.Data();
    SildishAlphabetClassifies(trie);
    RomanSpelling(p);
    RomanLetters(d.roman, d.graphemeSet);
    CatalogRoundTrip(p);
    if IsVowelPhoneme(p) {
      LoneWord(trie, d.roman);
      VowelWordRegions(trie, d.roman);
      AllLeading(trie, SildishAlphabet(trie), d.roman);
      NonmedialVowel(trie, p);
    } else {
      ConsonantKeyWord(trie, d.roman, SingleForm(d));
    }
  }

  /** A cluster's roman that is the whole text is the cluster's initial
    * glyph. */
  lemma ClusterWord(trie: Tree<char, PhonemeData>, q: PhonemeCluster)
    requires IsCatalogTrie(trie)
    ensures Classifies(SildishAlphabet(trie))
    ensures Transliterated(trie, SildishAlphabet(trie), q.Data().roman) == q.Data().graphemeSet.initial
  {
    ClusterRoundTrip(q);
    assert |q.Data().roman| == 1 && q.Data().roman[0] in ConsonantLetters && q.Data().graphemeSet.Consonant?;
    assert AllLetters(q.Data().roman);
    ConsonantKeyWord(trie, q.Data().roman, q.Data());
  }

  // ---------------------------------------------------------------------
  // The laws for the sound system's own tree and alphabet
  // ---------------------------------------------------------------------

  /** The production tree and the sound system's alphabet meet the laws'
    * assumptions, and the alphabet classifies a character and its lower
    * case alike. */
  lemma Production(c: char)
    ensures IsCatalogTrie(RomanToSildishTrie()) && Classifies(SildishAlphabet(RomanToSildishTrie()))
    ensures IsSildishIn(SildishAlphabet(RomanToSildishTrie()), c) == IsSildish(c)
    ensures IsSildishIn(SildishAlphabet(RomanToSildishTrie()), Lower(c)) == IsSildish(c)
  {
    ProductionIsCatalogTrie();
    SildishAlphabetClassifies(RomanToSildishTrie());
    Classification(c);
  }

  /** `transliterateToSildish("")` is "". */
  lemma SildishEmpty()
    ensures SildishTransliteration("") == ""
  {
    Production(' ');
    EmptyInput(RomanToSildishTrie(), SildishAlphabet(RomanToSildishTrie()));
  }

  /** Text without Sildish letters that does not start with an upper-case
    * letter is copied through unchanged. */
  lemma SildishPassThrough(s: string)
    requires forall j :: 0 <= j < |s| ==> !IsSildish(s[j])
    requires s != [] ==> !IsUpper(s[0])
    ensures SildishTransliteration(s) == s
  {
    var trie := RomanToSildishTrie();
    var a := SildishAlphabet(trie);
    Production(' ');
    forall j | 0 <= j < |s|
      ensures !IsSildishIn(a, s[j]) && !IsSildishIn(a, Lower(s[j]))
    {
      Production(s[j]);
    }
    PassThrough(trie, a, s);
  }

  /** A text that starts with an upper-case letter begins with the capital
    * mark. */
  lemma SildishCapitalizedStart(s: string)
    requires s != [] && IsUpper(s[0])
    ensures CapitalMark <= SildishTransliteration(s)
  {
    Production(' ');
    CapitalizedStart(RomanToSildishTrie(), SildishAlphabet(RomanToSildishTrie()), s);
  }

  /** "K" becomes the capital mark followed by "k". */
  lemma SildishCapitalK()
    ensures SildishTransliteration("K") == CapitalMark + "k"
  {
    Production(' ');
    CapitalK(RomanToSildishTrie(), SildishAlphabet(RomanToSildishTrie()));
  }

  /** Words separated by a space, a hyphen, a digit or any other caseless
    * character that is not a Sildish letter are transliterated independently. */
  lemma SildishSeparatedWords(u: string, sep: char, v: string)
    requires u != [] ==> IsSildish(u[|u| - 1])
    requires !IsSildish(sep) && !IsUpper(sep)
    requires v != [] ==> IsSildish(v[0])
    ensures SildishTransliteration(u + [sep] + v) == SildishTransliteration(u) + [sep] + SildishTransliteration(v)
  {
    var trie := RomanToSildishTrie();
    var a := SildishAlphabet(trie);
    Production(sep);
    if u != [] {
      Production(u[|u| - 1]);
    }
    if v != [] {
      Production(v[0]);
    }
    SeparatedWords(trie, a, u, sep, v);
  }

  /** Every phoneme's roman alone becomes one glyph: a vowel's or
    * diphthong's without the bar, a consonant's initial one. */
  lemma SildishPhonemeWord(p: Phoneme)
    ensures SildishTransliteration(p.Data().roman)
      == if IsVowelPhoneme(p) then p.Data().graphemeSet.withoutBar else p.Data().graphemeSet.initial
  {
    ProductionIsCatalogTrie();
    PhonemeWord(RomanToSildishTrie(), p);
  }

  /** Every cluster's roman alone becomes the cluster's initial glyph. */
  lemma SildishClusterWord(q: PhonemeCluster)
    ensures SildishTransliteration(q.Data().roman) == q.Data().graphemeSet.initial
  {
    ProductionIsCatalogTrie();
    ClusterWord(RomanToSildishTrie(), q);
  }

  /** The segmentation examples, for the sound system's alphabet. */
  lemma SildishSegments()
    ensures Segment(SildishAlphabet(RomanToSildishTrie()), "ama", false) == Regions("a", "ma", "")
    ensures Segment(SildishAlphabet(RomanToSildishTrie()), "mana", false) == Regions("", "man", "a")
    ensures Segment(SildishAlphabet(RomanToSildishTrie()), "vella", false) == Regions("", "vell", "a")
    ensures Segment(SildishAlphabet(RomanToSildishTrie()), "asha", false) == Regions("a", "sha", "")
    ensures Segment(SildishAlphabet(RomanToSildishTrie()), "ama", true) == Regions("", "ama", "")
  {
    var a := SildishAlphabet(RomanToSildishTrie());
    ProductionIsCatalogTrie();
    SildishExampleLetters(RomanToSildishTrie());
    SegmentAma(a);
    SegmentMana(a);
    SegmentVella(a);
    SegmentAsha(a);
    SegmentCapitalAma(a);
  }
}
