/**
 * Roman-to-Sildish transliteration: a maximal-munch renderer for regions of
 * a word, the glyph selectors for non-medial vowels and for medials, and the
 * word segmenter that splits text into capital mark, leading vowels, medials
 * and trailing vowels and copies everything else through.
 *
 * The methods take the prefix tree as a parameter `trie` satisfying
 * `IsCatalogTrie`; `RomanToSildishLookup` shows the production tree does.
 */
module Transliteration {
  import opened Wrappers
  import opened PrefixTree
  import opened SoundSystem
  import opened RomanToSildish

  /** The tree answers every key as the catalog does. */
  ghost predicate IsCatalogTrie(trie: Tree<char, PhonemeData>)
  {
    forall s {:trigger CatalogEntry(s)} :: Get(trie, s) == CatalogEntry(s)
  }

  /** The production tree is a catalog tree. */
  lemma ProductionIsCatalogTrie()
    ensures IsCatalogTrie(RomanToSildishTrie())
  {
    forall s ensures Get(RomanToSildishTrie(), s) == CatalogEntry(s) {
      RomanToSildishLookup(s);
    }
  }

  /** A lower-case Sildish letter. */
  predicate IsLetter(c: char)
  {
    c in VowelLetters + ConsonantLetters
  }

  /** Every character of `s` is a lower-case Sildish letter. */
  predicate AllLetters(s: string)
  {
    forall i :: 0 <= i < |s| ==> IsLetter(s[i])
  }

  /** Every letter of `s` is on its own a key of `trie`: what the renderer's
    * force-unwrapped `last!` demands of its input. */
  predicate LettersAreKeys<P>(trie: Tree<char, P>, s: string)
  {
    forall i :: 0 <= i < |s| ==> Get(trie, [s[i]]).Some?
  }

  /** On a catalog tree every string of Sildish letters qualifies. */
  lemma CatalogLettersAreKeys(trie: Tree<char, PhonemeData>, s: string)
    requires IsCatalogTrie(trie) && AllLetters(s)
    ensures LettersAreKeys(trie, s)
  {
    forall i | 0 <= i < |s| ensures Get(trie, [s[i]]).Some? {
      LetterIsKey(s[i]);
      assert Get(trie, [s[i]]) == CatalogEntry([s[i]]);
    }
  }

  function Min(a: nat, b: nat): nat
  {
    if a <= b then a else b
  }

  /** The length of the longest prefix of `buffer`, at most `k` long, that is
    * a key of `trie` (0 if none is). */
  function LongestKey<P>(trie: Tree<char, P>, buffer: string, k: nat): (r: nat)
    requires k <= |buffer|
    ensures r <= k
    ensures 0 < r ==> Get(trie, buffer[..r]).Some?
    ensures forall j :: r < j <= k ==> Get(trie, buffer[..j]).None?
  {
    if k == 0 then 0
    else if Get(trie, buffer[..k]).Some? then k
    else LongestKey(trie, buffer, k - 1)
  }

  /** The lookahead buffer at position `i`: the next `lookahead` letters, or
    * fewer near the end. */
  function Window(s: string, i: nat, lookahead: nat): string
    requires i <= |s|
  {
    s[i..Min(i + lookahead, |s|)]
  }

  /** The length of the key munched at position `i`: at least one letter when
    * the letter there is a key. */
  function Step<P>(trie: Tree<char, P>, s: string, i: nat, lookahead: nat): (k: nat)
    requires lookahead >= 1 && LettersAreKeys(trie, s) && i < |s|
    ensures 1 <= k <= |Window(s, i, lookahead)| && i + k <= |s|
    ensures Get(trie, Window(s, i, lookahead)[..k]).Some?
  {
    var buffer := Window(s, i, lookahead);
    assert buffer[..1] == [s[i]];
    LongestKey(trie, buffer, |buffer|)
  }

  /** One munched phoneme: the letters it consumed and the payload found. */
  datatype Token<P> = Token(key: string, data: P)

  /** Maximal munch from position `i` with a lookahead of `lookahead` letters:
    * repeatedly take the longest key of `trie` that is a prefix of the next
    * `lookahead` letters. */
  function Munch<P>(trie: Tree<char, P>, lookahead: nat, s: string, i: nat): seq<Token<P>>
    requires lookahead >= 1 && LettersAreKeys(trie, s) && i <= |s|
    decreases |s| - i
  {
    if i == |s| then []
    else
      var k := Step(trie, s, i, lookahead);
      var key := Window(s, i, lookahead)[..k];
      [Token(key, Get(trie, key).value)] + Munch(trie, lookahead, s, i + k)
  }

  /** The letters a token sequence consumed, in order. */
  function Keys<P>(tokens: seq<Token<P>>): string
  {
    if tokens == [] then "" else tokens[0].key + Keys(tokens[1..])
  }

  /** Munching consumes every letter exactly once, in order, each token a key
    * of one to `lookahead` letters holding the tree's payload. */
  lemma {:induction false} MunchConsumes<P>(trie: Tree<char, P>, lookahead: nat, s: string, i: nat)
    requires lookahead >= 1 && LettersAreKeys(trie, s) && i <= |s|
    ensures Keys(Munch(trie, lookahead, s, i)) == s[i..]
    ensures forall t :: t in Munch(trie, lookahead, s, i) ==>
      1 <= |t.key| <= lookahead && Get(trie, t.key) == Some(t.data)
    decreases |s| - i
  {
    if i < |s| {
      var k := Step(trie, s, i, lookahead);
      var key := Window(s, i, lookahead)[..k];
      MunchConsumes(trie, lookahead, s, i + k);
      assert key == s[i..i + k];
      assert s[i..i + k] + s[i + k..] == s[i..];
    }
  }

  /** The glyphs chosen for a token sequence: `select` receives each token's
    * payload, whether it is the first token, and whether it is the last. */
  function Render<P>(tokens: seq<Token<P>>, first: bool, select: (P, bool, bool) -> string): string
  {
    if tokens == [] then ""
    else select(tokens[0].data, first, |tokens| == 1) + Render(tokens[1..], false, select)
  }

  /** Munching and rendering in one pass, from position `i`. */
  function RenderFrom<P>(
    trie: Tree<char, P>, lookahead: nat, s: string, i: nat, first: bool,
    select: (P, bool, bool) -> string): string
    requires lookahead >= 1 && LettersAreKeys(trie, s) && i <= |s|
    decreases |s| - i
  {
    if i == |s| then ""
    else
      var k := Step(trie, s, i, lookahead);
      select(Get(trie, Window(s, i, lookahead)[..k]).value, first, i + k == |s|)
        + RenderFrom(trie, lookahead, s, i + k, false, select)
  }

  /** The one-pass rendering renders the munched tokens. */
  lemma {:induction false} RenderFromMunch<P>(
    trie: Tree<char, P>, lookahead: nat, s: string, i: nat, first: bool,
    select: (P, bool, bool) -> string)
    requires lookahead >= 1 && LettersAreKeys(trie, s) && i <= |s|
    ensures RenderFrom(trie, lookahead, s, i, first, select) == Render(Munch(trie, lookahead, s, i), first, select)
    decreases |s| - i
  {
    if i < |s| {
      var k := Step(trie, s, i, lookahead);
      RenderFromMunch(trie, lookahead, s, i + k, false, select);
      var tokens := Munch(trie, lookahead, s, i);
      assert tokens[1..] == Munch(trie, lookahead, s, i + k);
      if i + k < |s| {
        assert Munch(trie, lookahead, s, i + k) != [];
      }
    }
  }

  /** The payload `allPayloads(along:).last!` yields: the longest key in the
    * buffer, found at its length. */
  lemma LastPayload<P>(trie: Tree<char, P>, buffer: string)
    requires buffer != [] && Get(trie, [buffer[0]]).Some?
    ensures var m := Matches(trie, buffer, |buffer| + 1); var k := LongestKey(trie, buffer, |buffer|);
      m != [] && 1 <= k && m[|m| - 1] == PositionedPayload(Get(trie, buffer[..k]).value, k)
  {
    assert buffer[..1] == [buffer[0]];
    var k := LongestKey(trie, buffer, |buffer|);
    MatchesCharacterized(trie, buffer, |buffer| + 1);
    var m := Matches(trie, buffer, |buffer| + 1);
    assert PositionedPayload(Get(trie, buffer[..k]).value, k) in m;
    LastMatchIsLongest(trie, buffer);
  }

  /** What the region renderer's loop keeps: the buffer holds the letters
    * between `done` and `next`, topped up to the lookahead, and what is
    * rendered so far followed by rendering from `done` is the whole region's
    * rendering. */
  ghost predicate RegionState<P>(
    trie: Tree<char, P>, region: string, lookahead: nat, select: (P, bool, bool) -> string,
    done: nat, next: nat, buffer: string, first: bool, sildish: string)
    requires lookahead >= 1 && LettersAreKeys(trie, region)
  {
    done <= next <= |region| && next == Min(done + lookahead, |region|)
    && buffer == region[done..next]
    && sildish + RenderFrom(trie, lookahead, region, done, first, select)
       == RenderFrom(trie, lookahead, region, 0, true, select)
  }

  /** The last payload along a non-empty buffer sits one to `|buffer|` letters in. */
  lemma LastBounds<P>(
    trie: Tree<char, P>, region: string, lookahead: nat, select: (P, bool, bool) -> string,
    done: nat, next: nat, buffer: string, first: bool, sildish: string,
    payloads: seq<PositionedPayload<P>>)
    requires lookahead >= 1 && LettersAreKeys(trie, region)
    requires RegionState(trie, region, lookahead, select, done, next, buffer, first, sildish) && buffer != []
    requires payloads == Matches(trie, buffer, |buffer| + 1)
    ensures payloads != [] && 1 <= payloads[|payloads| - 1].position <= |buffer|
  {
    assert buffer[0] == region[done];
    LastPayload(trie, buffer);
  }

  /** The last payload along the window at `done` is the key `Step` munches
    * there, with its payload. */
  lemma WindowPayload<P>(
    trie: Tree<char, P>, region: string, lookahead: nat, done: nat, payloads: seq<PositionedPayload<P>>)
    requires lookahead >= 1 && LettersAreKeys(trie, region) && done < |region|
    requires payloads == Matches(trie, Window(region, done, lookahead), |Window(region, done, lookahead)| + 1)
    ensures payloads != [] && payloads[|payloads| - 1].position == Step(trie, region, done, lookahead)
    ensures payloads[|payloads| - 1].payload
      == Get(trie, Window(region, done, lookahead)[..Step(trie, region, done, lookahead)]).value
  {
    var buffer := Window(region, done, lookahead);
    assert buffer[0] == region[done];
    LastPayload(trie, buffer);
  }

  /** One turn of the region renderer's loop keeps `RegionState`. */
  lemma RegionAdvance<P>(
    trie: Tree<char, P>, region: string, lookahead: nat, select: (P, bool, bool) -> string,
    done: nat, next: nat, buffer: string, first: bool, sildish: string,
    payloads: seq<PositionedPayload<P>>,
    done': nat, next': nat, buffer': string, sildish': string)
    requires lookahead >= 1 && LettersAreKeys(trie, region)
    requires RegionState(trie, region, lookahead, select, done, next, buffer, first, sildish) && buffer != []
    requires payloads == Matches(trie, buffer, |buffer| + 1)
    requires payloads != [] && 1 <= payloads[|payloads| - 1].position <= |buffer|
    requires done' == done + payloads[|payloads| - 1].position
    requires next' == next + Min(payloads[|payloads| - 1].position, |region| - next)
    requires buffer' == buffer[payloads[|payloads| - 1].position..] + region[next..next']
    requires sildish' == sildish + select(payloads[|payloads| - 1].payload, first, buffer' == [])
    ensures RegionState(trie, region, lookahead, select, done', next', buffer', false, sildish')
  {
    var p := payloads[|payloads| - 1];
    BufferAdvance(region, lookahead, done, next, buffer, p.position, done', next', buffer');
    assert buffer == Window(region, done, lookahead);
    WindowPayload(trie, region, lookahead, done, payloads);
    RenderAdvance(trie, region, lookahead, select, done, first, sildish, p, done', buffer' == [], sildish');
  }

  /** One turn of the region renderer's loop renders the token munched at
    * `done`. */
  lemma {:induction false} RenderAdvance<P>(
    trie: Tree<char, P>, region: string, lookahead: nat, select: (P, bool, bool) -> string,
    done: nat, first: bool, sildish: string, p: PositionedPayload<P>,
    done': nat, isLast: bool, sildish': string)
    requires lookahead >= 1 && LettersAreKeys(trie, region) && done < |region|
    requires sildish + RenderFrom(trie, lookahead, region, done, first, select)
      == RenderFrom(trie, lookahead, region, 0, true, select)
    requires p.position == Step(trie, region, done, lookahead)
    requires p.payload == Get(trie, Window(region, done, lookahead)[..p.position]).value
    requires done' == done + p.position && isLast == (done' == |region|)
    requires sildish' == sildish + select(p.payload, first, isLast)
    ensures sildish' + RenderFrom(trie, lookahead, region, done', false, select)
      == RenderFrom(trie, lookahead, region, 0, true, select)
  {
    Telescope(sildish, select(p.payload, first, isLast), RenderFrom(trie, lookahead, region, done', false, select),
      RenderFrom(trie, lookahead, region, done, first, select), RenderFrom(trie, lookahead, region, 0, true, select), sildish');
  }

  /** Rendering one more glyph moves it from what is left to what is done. */
  lemma Telescope(done: string, glyph: string, tail: string, left: string, whole: string, done': string)
    requires done + left == whole && left == glyph + tail && done' == done + glyph
    ensures done' + tail == whole
  {
    Associative(done, glyph, tail);
  }

  /** The buffer after dropping the `k` letters munched and topping up from
    * the region. */
  lemma BufferAdvance(
    region: string, lookahead: nat, done: nat, next: nat, buffer: string, k: nat,
    done': nat, next': nat, buffer': string)
    requires done <= next <= |region| && next == Min(done + lookahead, |region|)
    requires buffer == region[done..next] && 1 <= k <= |buffer|
    requires done' == done + k && next' == next + Min(k, |region| - next)
    requires buffer' == buffer[k..] + region[next..next']
    ensures done' <= next' <= |region| && next' == Min(done' + lookahead, |region|)
    ensures buffer' == region[done'..next'] && (buffer' == [] <==> done' == |region|)
  {
    Refilled(region, done, next, k, next' - next, buffer);
  }

  lemma Associative(a: string, b: string, c: string)
    ensures (a + b) + c == a + (b + c)
  {
  }

  /** The buffer after dropping `k` letters and refilling up to `refill`. */
  lemma Refilled(region: string, done: nat, next: nat, k: nat, refill: nat, buffer: string)
    requires done + k <= next && next + refill <= |region| && buffer == region[done..next]
    ensures buffer[k..] + region[next..next + refill] == region[done + k..next + refill]
  {
    assert buffer[k..] == region[done + k..next];
  }

  /** One turn of the region renderer's loop: the payloads along the buffer,
    * the last one's glyph appended, its letters dropped and the buffer topped
    * up from the region. */
  method RegionTurn<P>(
    trie: Tree<char, P>, region: string, longestRomanization: nat, selector: (P, bool, bool) -> string,
    done: nat, next: nat, buffer: string, first: bool, sildish: string)
    returns (done': nat, next': nat, buffer': string, sildish': string)
    requires longestRomanization >= 1 && LettersAreKeys(trie, region)
    requires RegionState(trie, region, longestRomanization, selector, done, next, buffer, first, sildish) && buffer != []
    ensures done < done' && RegionState(trie, region, longestRomanization, selector, done', next', buffer', false, sildish')
  {
    var payloads := AllPayloads(trie, buffer);
    LastBounds(trie, region, longestRomanization, selector, done, next, buffer, first, sildish, payloads);
    var payload := payloads[|payloads| - 1];
    buffer' := buffer[payload.position..] + region[next..next + Min(payload.position, |region| - next)];
    next' := next + Min(payload.position, |region| - next);
    done' := done + payload.position;
    sildish' := sildish + selector(payload.payload, first, buffer' == []);
    RegionAdvance(trie, region, longestRomanization, selector, done, next, buffer, first, sildish,
      payloads, done', next', buffer', sildish');
  }

  /** The region renderer: munch `region` through a refilled lookahead buffer
    * and concatenate the selected glyphs. It is generic in the payload; the
    * selectors below read the payload's grapheme set. */
  method TransliterateRegion<P>(
    trie: Tree<char, P>, region: string, longestRomanization: nat,
    selector: (P, bool, bool) -> string)
    returns (sildish: string)
    requires longestRomanization >= 1 && LettersAreKeys(trie, region)
    ensures sildish == Render(Munch(trie, longestRomanization, region, 0), true, selector)
  {
    sildish := "";
    var first := true;
    var done: nat := 0;
    var next: nat := Min(longestRomanization, |region|);
    var buffer := region[..next];
    while buffer != []
      invariant RegionState(trie, region, longestRomanization, selector, done, next, buffer, first, sildish)
      decreases |region| - done
    {
      done, next, buffer, sildish := RegionTurn(trie, region, longestRomanization, selector, done, next, buffer, first, sildish);
      first := false;
    }
    RenderFromMunch(trie, longestRomanization, region, 0, true, selector);
  }

  /** On a catalog tree, with a lookahead of at least two letters (the longest
    * key), the token munched at `i` is the longest catalog key starting
    * there, and munching goes on right after it. */
  lemma MunchIsMaximal(trie: Tree<char, PhonemeData>, lookahead: nat, s: string, i: nat)
    requires IsCatalogTrie(trie) && lookahead >= 2 && AllLetters(s) && i < |s|
    ensures LettersAreKeys(trie, s)
    ensures var t := Munch(trie, lookahead, s, i)[0];
      i + |t.key| <= |s| && t.key == s[i..i + |t.key|] && CatalogEntry(t.key) == Some(t.data)
      && (forall j :: i + |t.key| < j <= |s| ==> CatalogEntry(s[i..j]).None?)
      && Munch(trie, lookahead, s, i)[1..] == Munch(trie, lookahead, s, i + |t.key|)
  {
    CatalogLettersAreKeys(trie, s);
    MunchHead(trie, lookahead, s, i);
    var k := Step(trie, s, i, lookahead);
    var t := Munch(trie, lookahead, s, i)[0];
    assert Get(trie, t.key) == CatalogEntry(t.key);
    NoLongerCatalogKey(trie, lookahead, s, i, k);
  }

  /** No catalog key starting at `i` is longer than `k` letters when the tree
    * holds none within the lookahead. */
  lemma NoLongerCatalogKey(trie: Tree<char, PhonemeData>, lookahead: nat, s: string, i: nat, k: nat)
    requires IsCatalogTrie(trie) && lookahead >= 2 && i + k <= |s|
    requires forall j :: i + k < j <= Min(i + lookahead, |s|) ==> Get(trie, s[i..j]).None?
    ensures forall j :: i + k < j <= |s| ==> CatalogEntry(s[i..j]).None?
  {
    forall j | i + k < j <= |s| ensures CatalogEntry(s[i..j]).None? {
      if j <= i + lookahead {
        assert Get(trie, s[i..j]) == CatalogEntry(s[i..j]);
      } else if CatalogEntry(s[i..j]).Some? {
        KeyLength(s[i..j]);
      }
    }
  }

  /** The first token munched at `i` is the longest key in the lookahead
    * buffer, and munching goes on right after it. */
  lemma MunchHead<P>(trie: Tree<char, P>, lookahead: nat, s: string, i: nat)
    requires lookahead >= 1 && LettersAreKeys(trie, s) && i < |s|
    ensures var k := Step(trie, s, i, lookahead); var t := Munch(trie, lookahead, s, i)[0];
      t.key == s[i..i + k] && Get(trie, t.key) == Some(t.data)
      && (forall j :: i + k < j <= Min(i + lookahead, |s|) ==> Get(trie, s[i..j]).None?)
      && Munch(trie, lookahead, s, i)[1..] == Munch(trie, lookahead, s, i + k)
  {
    var buffer := Window(s, i, lookahead);
    var k := Step(trie, s, i, lookahead);
    assert buffer[..k] == s[i..i + k];
    forall j | i + k < j <= Min(i + lookahead, |s|) ensures Get(trie, s[i..j]).None? {
      assert s[i..j] == buffer[..j - i];
    }
  }

  /** On a catalog tree, the key munched at a vowel letter holds a vowel or a
    * diphthong. */
  lemma StepVowel(trie: Tree<char, PhonemeData>, lookahead: nat, s: string, i: nat)
    requires IsCatalogTrie(trie) && lookahead >= 1 && LettersAreKeys(trie, s) && i < |s|
    requires s[i] in VowelLetters
    ensures var key := Window(s, i, lookahead)[..Step(trie, s, i, lookahead)];
      IsVowelKind(Get(trie, key).value.graphemeSet)
  {
    var key := Window(s, i, lookahead)[..Step(trie, s, i, lookahead)];
    assert Get(trie, key) == CatalogEntry(key);
    assert key[0] == s[i];
    VowelKeyIsVowel(key);
  }

  /** On a catalog tree, munching only vowel letters yields only vowels and
    * diphthongs. */
  lemma {:induction false} MunchVowels(trie: Tree<char, PhonemeData>, lookahead: nat, s: string, i: nat)
    requires IsCatalogTrie(trie) && lookahead >= 1 && LettersAreKeys(trie, s) && i <= |s|
    requires forall j :: 0 <= j < |s| ==> s[j] in VowelLetters
    ensures forall t :: t in Munch(trie, lookahead, s, i) ==> IsVowelKind(t.data.graphemeSet)
    decreases |s| - i
  {
    if i < |s| {
      StepVowel(trie, lookahead, s, i);
      MunchVowels(trie, lookahead, s, i + Step(trie, s, i, lookahead));
    }
  }

  /** The selector for non-medial vowels: the glyph without the bar. It is
    * only ever given vowels and diphthongs (`MunchVowels`); the
    * source asserts on anything else, which selects nothing here. */
  function NonmedialGlyph(d: PhonemeData, isFirst: bool, isLast: bool): string
  {
    match d.graphemeSet
    case Vowel(_, withoutBar) => withoutBar
    case Diphthong(_, withoutBar) => withoutBar
    case _ => ""
  }

  /** The selector for medials, in the order its cases are tried: vowels take
    * their standard (barred) glyph; a consonant takes its initial glyph when
    * it comes first in an uncapitalised word, else its final glyph when it
    * comes last, else its standard glyph; a doubled reduplicable consonant
    * takes the reduplicated counterparts. */
  function MedialGlyph(isCapitalized: bool, d: PhonemeData, isFirst: bool, isLast: bool): string
  {
    match d.graphemeSet
    case Vowel(standard, _) => standard
    case Diphthong(standard, _) => standard
    case Consonant(standard, initial, final) =>
      if isFirst && !isCapitalized then initial
      else if isLast then final
      else standard
    case ReduplicableConsonant(_, _, _, reduplicated, initialReduplicated, finalReduplicated) =>
      if isFirst && !isCapitalized then initialReduplicated
      else if isLast then finalReduplicated
      else reduplicated
  }

  /** The medial selector closure for a word of the given capitalisation. */
  function MedialSelector(isCapitalized: bool): (PhonemeData, bool, bool) -> string
  {
    (d: PhonemeData, isFirst: bool, isLast: bool) => MedialGlyph(isCapitalized, d, isFirst, isLast)
  }

  /** The lookahead of the medial renderer: the larger of `longestRomanVowel`
    * and `longestRomanConsonant`, the latter with its reversed comparator. */
  function MedialLookahead(): nat
  {
    if LongestRomanVowel() >= LongestRomanConsonant() then LongestRomanVowel()
    else LongestRomanConsonant()
  }

  /** Both buffers hold two letters, and the medial one is as long as every
    * roman. With the corrected `IntendedLongestRomanConsonant` in place of
    * the reversed constant the medial lookahead would be the same, so the
    * reversal is harmless. */
  lemma Lookaheads()
    ensures LongestRomanVowel() == 2 && MedialLookahead() == 2
    ensures forall p: Phoneme :: |p.Data().roman| <= MedialLookahead()
    ensures MedialLookahead()
      == if LongestRomanVowel() >= IntendedLongestRomanConsonant() then LongestRomanVowel() else IntendedLongestRomanConsonant()
  {
    LongestRomanVowelIsTwo();
    LongestRomanConsonantIsOne();
    IntendedLongestRomanConsonantIsLongest();
    forall p: Phoneme ensures |p.Data().roman| <= MedialLookahead() {
      RomanSpelling(p);
    }
  }

  /** Every character of `s` is a lower-case Sildish vowel letter. */
  predicate AllVowelLetters(s: string)
  {
    forall i :: 0 <= i < |s| ==> s[i] in VowelLetters
  }

  /** The lookahead of both renderers: `LongestRomanVowel()` for the
    * non-medial vowels, `MedialLookahead()` for the medials, both two letters
    * (`Lookaheads`). The specification functions use this literal rather than
    * those functions so that reasoning about them does not unfold the
    * catalog; the methods pass the functions themselves. */
  const RegionLookahead: nat := 2

  /** What `transliterateToSildish(nonmedialVowels:)` returns. */
  function NonmedialRender(trie: Tree<char, PhonemeData>, vowels: string): string
    requires IsCatalogTrie(trie) && AllLetters(vowels)
  {
    CatalogLettersAreKeys(trie, vowels);
    Render(Munch(trie, RegionLookahead, vowels, 0), true, NonmedialGlyph)
  }

  /** What `transliterateToSildish(medials:isCapitalized:)` returns. */
  function MedialRender(trie: Tree<char, PhonemeData>, medials: string, isCapitalized: bool): string
    requires IsCatalogTrie(trie) && AllLetters(medials)
  {
    CatalogLettersAreKeys(trie, medials);
    Render(Munch(trie, RegionLookahead, medials, 0), true, MedialSelector(isCapitalized))
  }

  /** `transliterateToSildish(nonmedialVowels:)`. */
  method TransliterateNonmedialVowels(trie: Tree<char, PhonemeData>, vowels: string) returns (sildish: string)
    requires IsCatalogTrie(trie) && AllLetters(vowels)
    ensures sildish == NonmedialRender(trie, vowels)
  {
    Lookaheads();
    CatalogLettersAreKeys(trie, vowels);
    sildish := TransliterateRegion(trie, vowels, LongestRomanVowel(), NonmedialGlyph);
  }

  /** `transliterateToSildish(medials:isCapitalized:)`. */
  method TransliterateMedials(trie: Tree<char, PhonemeData>, medials: string, isCapitalized: bool)
    returns (sildish: string)
    requires IsCatalogTrie(trie) && AllLetters(medials)
    ensures sildish == MedialRender(trie, medials, isCapitalized)
  {
    Lookaheads();
    CatalogLettersAreKeys(trie, medials);
    sildish := TransliterateRegion(trie, medials, MedialLookahead(), MedialSelector(isCapitalized));
  }

  /** The iterator's current element at position `pos`. */
  function At(s: string, pos: nat): Option<char>
  {
    if pos < |s| then Some(s[pos]) else None
  }

  /** Every character lower-cased. */
  function LowerAll(s: string): (r: string)
    ensures |r| == |s| && forall i :: 0 <= i < |s| ==> r[i] == Lower(s[i])
  {
    seq(|s|, i requires 0 <= i < |s| => Lower(s[i]))
  }

  /** Lower-casing twice is lower-casing once. */
  lemma LowerTwice(c: char)
    ensures Lower(Lower(c)) == Lower(c)
  {
  }

  /** Lower-casing a word is idempotent and works piece by piece: the word
    * the advancer lower-cases letter by letter is the lower-cased word. */
  lemma {:induction false} LowerAllLaws(s: string, t: string)
    ensures LowerAll(LowerAll(s)) == LowerAll(s)
    ensures LowerAll(s + t) == LowerAll(s) + LowerAll(t)
  {
    forall i | 0 <= i < |s|
      ensures LowerAll(LowerAll(s))[i] == LowerAll(s)[i]
    {
      LowerTwice(s[i]);
    }
  }

  /** The questions the segmenter asks about letters: `isVowel` stands for
    * `isSildishVowel`, `isConsonant` for `isSildishConsonant`, and
    * `digraphs` holds the letter pairs `(x, c)` under which the tree holds a plain consonant
    * under the two letters `x`, `c` (`AgreesWith`). */
  datatype Alphabet = Alphabet(isVowel: char -> bool, isConsonant: char -> bool, digraphs: iset<(char, char)>)

  /** `isSildish` under an alphabet: a vowel or a consonant. */
  predicate IsSildishIn(a: Alphabet, c: char)
  {
    a.isVowel(c) || a.isConsonant(c)
  }

  /** What the segmenter relies on of its alphabet: no character is both a
    * vowel and a consonant, and a Sildish character lower-cases to a letter
    * from 'a' to 'z' other than 'k'. */
  ghost predicate Classifies(a: Alphabet)
  {
    (forall c :: !(a.isVowel(c) && a.isConsonant(c)))
    && (forall c :: IsSildishIn(a, c) ==> 'a' <= Lower(c) <= 'z' && Lower(c) != 'k')
  }

  /** A tree entry that is a plain (non-reduplicable) consonant. */
  predicate IsPlainConsonant(entry: Option<PhonemeData>)
  {
    entry.Some? && entry.value.graphemeSet.Consonant?
  }

  /** The alphabet's digraph question is answered by looking the two letters
    * up in `trie`. */
  ghost predicate AgreesWith(a: Alphabet, trie: Tree<char, PhonemeData>)
  {
    forall x, c :: ((x, c) in a.digraphs) == IsPlainConsonant(Get(trie, [x, c]))
  }

  /** The alphabet of the sound system, reading digraphs off `trie`. */
  function SildishAlphabet(trie: Tree<char, PhonemeData>): (a: Alphabet)
    ensures forall c :: IsSildishIn(a, c) == IsSildish(c)
  {
    Alphabet(IsSildishVowel, IsSildishConsonant, iset x, c | IsPlainConsonant(Get(trie, [x, c])) :: (x, c))
  }

  /** The sound system's classification has what the segmenter relies on. */
  lemma SildishAlphabetClassifies(trie: Tree<char, PhonemeData>)
    ensures forall c :: IsSildishIn(SildishAlphabet(trie), c) == IsSildish(c)
    ensures Classifies(SildishAlphabet(trie)) && AgreesWith(SildishAlphabet(trie), trie)
  {
    var a := SildishAlphabet(trie);
    forall c
      ensures !(a.isVowel(c) && a.isConsonant(c))
      ensures IsSildishIn(a, c) ==> 'a' <= Lower(c) <= 'z' && Lower(c) != 'k'
    {
      LettersDisjoint(Lower(c));
      LetterRange(Lower(c));
    }
  }

  /** The end of the word that starts at `i`: the run of characters that are
    * Sildish once lower-cased. */
  function WordEnd(a: Alphabet, s: string, i: nat): (e: nat)
    requires i <= |s|
    ensures i <= e <= |s|
    ensures forall j :: i <= j < e ==> IsSildishIn(a, Lower(s[j]))
    ensures e < |s| ==> !IsSildishIn(a, Lower(s[e]))
    decreases |s| - i
  {
    if i == |s| || !IsSildishIn(a, Lower(s[i])) then i else WordEnd(a, s, i + 1)
  }

  /** The end of the run of characters that are vowels once lower-cased. */
  function VowelRunEnd(a: Alphabet, s: string, i: nat): (e: nat)
    requires i <= |s|
    ensures i <= e <= |s|
    ensures forall j :: i <= j < e ==> a.isVowel(Lower(s[j]))
    ensures e < |s| ==> !a.isVowel(Lower(s[e]))
    decreases |s| - i
  {
    if i == |s| || !a.isVowel(Lower(s[i])) then i else VowelRunEnd(a, s, i + 1)
  }

  /** The first Sildish character, as it is, at or after `i` (or the end). */
  function NextSildish(a: Alphabet, s: string, i: nat): (e: nat)
    requires i <= |s|
    ensures i <= e <= |s|
    ensures forall j :: i <= j < e ==> !IsSildishIn(a, s[j])
    ensures e < |s| ==> IsSildishIn(a, s[e])
    decreases |s| - i
  {
    if i == |s| || IsSildishIn(a, s[i]) then i else NextSildish(a, s, i + 1)
  }

  /** The end of what is copied through after a word that ends at `e`:
    * nothing when the word ends the input (the current character is then
    * still its last letter), else everything up to the next Sildish
    * character. */
  function GapEnd(a: Alphabet, s: string, e: nat): (g: nat)
    requires e <= |s|
    ensures e <= g <= |s|
  {
    if e < |s| && !IsSildishIn(a, Lower(s[e])) then NextSildish(a, s, e + 1) else e
  }

  /** Consonant `x` followed by consonant `c` spell one plain
    * (non-reduplicable) consonant, like "sh", "th" or "ng". */
  predicate IsConsonantDigraph(a: Alphabet, x: char, c: char)
  {
    a.isConsonant(c) && (x, c) in a.digraphs
  }

  /** The number of consonants in a run of letters, as the segmenter counts
    * them from the left: a consonant digraph once, every other consonant
    * letter (each letter of a doubled consonant too) once. */
  function Consonants(a: Alphabet, r: string): nat
    decreases |r|
  {
    if r == [] then 0
    else if !a.isConsonant(r[0]) then Consonants(a, r[1..])
    else if |r| >= 2 && IsConsonantDigraph(a, r[0], r[1]) then 1 + Consonants(a, r[2..])
    else 1 + Consonants(a, r[1..])
  }

  /** The number of vowels that start `w`. */
  function VowelPrefixLength(a: Alphabet, w: string): (n: nat)
    ensures n <= |w|
    ensures forall j :: 0 <= j < n ==> a.isVowel(w[j])
    ensures n < |w| ==> !a.isVowel(w[n])
  {
    if w == [] || !a.isVowel(w[0]) then 0 else 1 + VowelPrefixLength(a, w[1..])
  }

  /** The number of vowels that end `w`. */
  function VowelSuffixLength(a: Alphabet, w: string): (n: nat)
    ensures n <= |w|
    ensures forall j :: |w| - n <= j < |w| ==> a.isVowel(w[j])
    ensures n < |w| ==> !a.isVowel(w[|w| - n - 1])
  {
    if w == [] || !a.isVowel(w[|w| - 1]) then 0 else 1 + VowelSuffixLength(a, w[..|w| - 1])
  }

  /** The number of consonants that start `u`: `u.prefix { $0.isSildishConsonant }`. */
  function ConsonantPrefixLength(a: Alphabet, u: string): (n: nat)
    ensures n <= |u|
    ensures forall j :: 0 <= j < n ==> a.isConsonant(u[j])
    ensures n < |u| ==> !a.isConsonant(u[n])
  {
    if u == [] || !a.isConsonant(u[0]) then 0 else 1 + ConsonantPrefixLength(a, u[1..])
  }

  /** A string without consonants counts none. */
  lemma {:induction false} ConsonantsOfVowels(a: Alphabet, r: string)
    requires Classifies(a)
    requires forall j :: 0 <= j < |r| ==> a.isVowel(r[j])
    ensures Consonants(a, r) == 0
    decreases |r|
  {
    if r != [] {
      assert !a.isConsonant(r[0]);
      ConsonantsOfVowels(a, r[1..]);
    }
  }

  /** How many trailing vowels of the letters after the leading vowels are set
    * apart: all of them when there are at least two consonants, else none. */
  function TrailingLength(a: Alphabet, rest: string): (t: nat)
    ensures t <= |rest|
  {
    if Consonants(a, rest) >= 2 then VowelSuffixLength(a, rest) else 0
  }

  /** A string cut in three at `i` and `i + j`. */
  lemma ThreePieces(w: string, i: nat, j: nat)
    requires i <= |w| && j <= |w| - i
    ensures w[..i] + w[i..][..j] + w[i..][j..] == w
  {
    var x, y := w[i..][..j], w[i..][j..];
    assert x + y == w[i..];
    assert w[..i] + x + y == w[..i] + (x + y);
    assert w[..i] + w[i..] == w;
  }

  /** A word split into its regions. */
  datatype Regions = Regions(leading: string, medials: string, trailing: string)

  /** How the segmenter splits a word of letters: an uncapitalised word's
    * leading vowels are set apart; of the rest, the trailing vowels are set
    * apart only when there are at least two consonants, and otherwise stay
    * with the medials (`SegmentLeading`, `SegmentTrailing`). */
  function Segment(a: Alphabet, w: string, capitalized: bool): (r: Regions)
    ensures r.leading + r.medials + r.trailing == w
    ensures capitalized ==> r.leading == ""
  {
    var lead := if capitalized then 0 else VowelPrefixLength(a, w);
    var rest := w[lead..];
    var trail := TrailingLength(a, rest);
    ThreePieces(w, lead, |rest| - trail);
    Regions(w[..lead], rest[..|rest| - trail], rest[|rest| - trail..])
  }

  /** `Segment` from the length of the leading vowels. */
  lemma {:induction false} SegmentOf(
    a: Alphabet, w: string, capitalized: bool, n: nat,
    leading: string, rest: string, medials: string, trailing: string)
    requires n == if capitalized then 0 else VowelPrefixLength(a, w)
    requires n <= |w| && leading == w[..n] && rest == w[n..]
    requires var t := TrailingLength(a, rest);
      medials == rest[..|rest| - t] && trailing == rest[|rest| - t..]
    ensures Segment(a, w, capitalized) == Regions(leading, medials, trailing)
  {
  }

  /** The leading vowels are all the vowels an uncapitalised word starts with. */
  lemma {:induction false} SegmentLeading(a: Alphabet, w: string, capitalized: bool)
    ensures var r := Segment(a, w, capitalized);
      (forall j :: 0 <= j < |r.leading| ==> a.isVowel(r.leading[j]))
      && (!capitalized && r.medials + r.trailing != "" ==> !a.isVowel((r.medials + r.trailing)[0]))
  {
    var r := Segment(a, w, capitalized);
    var lead := if capitalized then 0 else VowelPrefixLength(a, w);
    assert r.leading == w[..lead];
    assert r.medials + r.trailing == w[lead..];
  }

  /** The trailing vowels are vowels, none when there are fewer than two
    * consonants, and otherwise all the vowels at the end. */
  lemma {:induction false} TrailingVowels(a: Alphabet, rest: string)
    requires Classifies(a)
    ensures var t := TrailingLength(a, rest);
      t <= |rest|
      && (forall j :: |rest| - t <= j < |rest| ==> a.isVowel(rest[j]))
      && (Consonants(a, rest) < 2 ==> t == 0)
      && (Consonants(a, rest) >= 2 ==> t < |rest| && !a.isVowel(rest[|rest| - t - 1]))
  {
    if Consonants(a, rest) >= 2 && VowelSuffixLength(a, rest) == |rest| {
      ConsonantsOfVowels(a, rest);
    }
  }

  /** The medials and trailing vowels split the letters after the leading
    * vowels at `TrailingLength`. */
  lemma {:induction false} SegmentRest(a: Alphabet, w: string, capitalized: bool)
    ensures var r := Segment(a, w, capitalized);
      var rest := r.medials + r.trailing;
      var t := TrailingLength(a, rest);
      t <= |rest| && r.medials == rest[..|rest| - t] && r.trailing == rest[|rest| - t..]
  {
    var lead := if capitalized then 0 else VowelPrefixLength(a, w);
    var rest := w[lead..];
    var t := TrailingLength(a, rest);
    assert Segment(a, w, capitalized) == Regions(w[..lead], rest[..|rest| - t], rest[|rest| - t..]);
    assert rest[..|rest| - t] + rest[|rest| - t..] == rest;
  }

  /** The trailing vowels are set apart exactly when the rest of the word has
    * at least two consonants, and then they are all the vowels it ends with. */
  lemma {:induction false} SegmentTrailing(a: Alphabet, w: string, capitalized: bool)
    requires Classifies(a)
    ensures var r := Segment(a, w, capitalized);
      var consonants := Consonants(a, r.medials + r.trailing);
      (forall j :: 0 <= j < |r.trailing| ==> a.isVowel(r.trailing[j]))
      && (consonants < 2 ==> r.trailing == "")
      && (consonants >= 2 ==> r.medials != "" && !a.isVowel(r.medials[|r.medials| - 1]))
  {
    var r := Segment(a, w, capitalized);
    SegmentRest(a, w, capitalized);
    TrailingSplit(a, r.medials + r.trailing, r.medials, r.trailing);
  }

  /** Splitting letters at `TrailingLength`: the trailing vowels are vowels,
    * none when there are fewer than two consonants, and otherwise all that
    * end the letters. */
  lemma {:induction false} TrailingSplit(a: Alphabet, rest: string, medials: string, trailing: string)
    requires Classifies(a)
    requires medials == rest[..|rest| - TrailingLength(a, rest)]
    requires trailing == rest[|rest| - TrailingLength(a, rest)..]
    ensures forall j :: 0 <= j < |trailing| ==> a.isVowel(trailing[j])
    ensures Consonants(a, rest) < 2 ==> trailing == ""
    ensures Consonants(a, rest) >= 2 ==> medials != "" && !a.isVowel(medials[|medials| - 1])
  {
    TrailingVowels(a, rest);
    SuffixSplit(a, rest, TrailingLength(a, rest), medials, trailing);
  }

  /** Splitting `rest` before its last `t` characters, all vowels. */
  lemma {:induction false} SuffixSplit(a: Alphabet, rest: string, t: nat, m: string, tr: string)
    requires t <= |rest| && m == rest[..|rest| - t] && tr == rest[|rest| - t..]
    requires forall j :: |rest| - t <= j < |rest| ==> a.isVowel(rest[j])
    ensures forall j :: 0 <= j < |tr| ==> a.isVowel(tr[j])
    ensures t < |rest| ==> m != "" && m[|m| - 1] == rest[|rest| - t - 1]
  {
    forall j | 0 <= j < |tr| ensures a.isVowel(tr[j]) {
      assert tr[j] == rest[|rest| - t + j];
    }
  }

  /** The regions of a word of letters are letters. */
  lemma RegionLetters(a: Alphabet, w: string, capitalized: bool)
    requires AllLetters(w)
    ensures var r := Segment(a, w, capitalized);
      AllLetters(r.leading) && AllLetters(r.medials) && AllLetters(r.trailing)
  {
    var r := Segment(a, w, capitalized);
    PiecesLetters(r.leading, r.medials, r.trailing, w);
  }

  /** The pieces of a string of letters are letters. */
  lemma PiecesLetters(x: string, y: string, z: string, w: string)
    requires x + y + z == w && AllLetters(w)
    ensures AllLetters(x) && AllLetters(y) && AllLetters(z)
  {
    forall j | 0 <= j < |x| ensures IsLetter(x[j]) {
      assert x[j] == w[j];
    }
    forall j | 0 <= j < |y| ensures IsLetter(y[j]) {
      assert y[j] == w[|x| + j];
    }
    forall j | 0 <= j < |z| ensures IsLetter(z[j]) {
      assert z[j] == w[|x| + |y| + j];
    }
  }

  /** A word, lower-cased, is a string of letters. */
  lemma WordLetters(a: Alphabet, s: string, i: nat)
    requires Classifies(a) && i <= |s|
    ensures AllLetters(LowerAll(s[i..WordEnd(a, s, i)]))
  {
    var w := LowerAll(s[i..WordEnd(a, s, i)]);
    forall j | 0 <= j < |w| ensures IsLetter(w[j]) {
      assert w[j] == Lower(s[i + j]) && IsSildishIn(a, Lower(s[i + j]));
      LowerTwice(s[i + j]);
      LetterRange(w[j]);
    }
  }

  /** The glyphs of one word: the capital mark of a capitalised word, then the
    * leading vowels without bar, the medials, and the trailing vowels without
    * bar. */
  function RenderWord(trie: Tree<char, PhonemeData>, a: Alphabet, w: string, capitalized: bool): string
    requires IsCatalogTrie(trie) && AllLetters(w)
  {
    var r := Segment(a, w, capitalized);
    RegionLetters(a, w, capitalized);
    (if capitalized then CapitalMark else "")
      + NonmedialRender(trie, r.leading)
      + MedialRender(trie, r.medials, capitalized)
      + NonmedialRender(trie, r.trailing)
  }

  /** Characters copied through after a word: the first arrives lower-cased
    * from the advancer, the rest verbatim. */
  function Echo(g: string): (r: string)
    ensures |r| == |g|
  {
    if g == "" then "" else [Lower(g[0])] + g[1..]
  }

  /** The glyphs of the word that starts at `i`. */
  function WordGlyphs(trie: Tree<char, PhonemeData>, a: Alphabet, s: string, i: nat): string
    requires IsCatalogTrie(trie) && Classifies(a) && i < |s|
  {
    WordLetters(a, s, i);
    RenderWord(trie, a, LowerAll(s[i..WordEnd(a, s, i)]), IsUpper(s[i]))
  }

  /** The transliteration of `s` from a word start `i`: the word there (maybe
    * empty, when `s[i]` is not Sildish) and the characters after it up to the
    * next Sildish character, then the rest. */
  function TransliterationFrom(trie: Tree<char, PhonemeData>, a: Alphabet, s: string, i: nat): string
    requires IsCatalogTrie(trie) && Classifies(a) && i <= |s|
    decreases |s| - i
  {
    if i == |s| then ""
    else
      var e := WordEnd(a, s, i);
      var g := GapEnd(a, s, e);
      assert i < g by {
        if e == i {
          assert !IsSildishIn(a, Lower(s[e]));
        }
      }
      WordGlyphs(trie, a, s, i) + Echo(s[e..g]) + TransliterationFrom(trie, a, s, g)
  }

  /** What `transliterateToSildish(_:)` returns for `s`. */
  function Transliterated(trie: Tree<char, PhonemeData>, a: Alphabet, s: string): string
    requires IsCatalogTrie(trie) && Classifies(a)
  {
    TransliterationFrom(trie, a, s, 0)
  }

  /** The character the segmenter holds in `c` once the iterator has produced
    * the element at `pos`: that element lower-cased, or the last element once
    * the iterator is exhausted. */
  function Current(s: string, pos: nat): char
    requires 0 < |s|
  {
    Lower(s[Min(pos, |s| - 1)])
  }

  /** The advancer: fetch the next element; when there is one it becomes the
    * current character, lower-cased, and otherwise the current one stays. */
  method Advance(s: string, pos: nat, c: char) returns (next: nat, cOrNil: Option<char>, current: char)
    requires pos < |s| && c == Current(s, pos)
    ensures next == pos + 1 && cOrNil == At(s, next) && current == Current(s, next)
  {
    next := pos + 1;
    cOrNil := At(s, next);
    if cOrNil.Some? {
      current := Lower(cOrNil.value);
    } else {
      current := c;
    }
  }

  /** Lower-casing one more character. */
  lemma LowerAllSnoc(s: string, i: nat, j: nat)
    requires i <= j < |s|
    ensures LowerAll(s[i..j + 1]) == LowerAll(s[i..j]) + [Lower(s[j])]
  {
  }

  /** The leading-vowel loop of an uncapitalised word. */
  method LeadingVowels(a: Alphabet, s: string, start: nat, c0: char)
    returns (leadingVowels: string, pos: nat, cOrNil: Option<char>, c: char)
    requires start < |s| && c0 == Current(s, start)
    ensures pos == VowelRunEnd(a, s, start) && cOrNil == At(s, pos) && c == Current(s, pos)
    ensures leadingVowels == LowerAll(s[start..pos])
  {
    leadingVowels := "";
    pos, cOrNil, c := start, At(s, start), c0;
    while cOrNil.Some? && a.isVowel(c)
      invariant start <= pos <= VowelRunEnd(a, s, start)
      invariant cOrNil == At(s, pos) && c == Current(s, pos)
      invariant leadingVowels == LowerAll(s[start..pos])
      decreases |s| - pos
    {
      LowerAllSnoc(s, start, pos);
      leadingVowels := leadingVowels + [c];
      pos, cOrNil, c := Advance(s, pos, c);
    }
  }

  /** One greedy step of `Consonants` at index `k`. */
  lemma ConsonantsAt(a: Alphabet, r: string, k: nat)
    requires k < |r|
    ensures Consonants(a, r[k..]) ==
      if !a.isConsonant(r[k]) then Consonants(a, r[k + 1..])
      else if k + 1 < |r| && IsConsonantDigraph(a, r[k], r[k + 1]) then 1 + Consonants(a, r[k + 2..])
      else 1 + Consonants(a, r[k + 1..])
  {
    assert r[k..][1..] == r[k + 1..];
    if k + 1 < |r| {
      assert r[k..][2..] == r[k + 2..];
    }
  }

  /** The consonant prefix is the one made of consonants and followed by a
    * non-consonant (or nothing). */
  lemma {:induction false} ConsonantPrefixUnique(a: Alphabet, u: string, n: nat)
    requires n <= |u| && forall j :: 0 <= j < n ==> a.isConsonant(u[j])
    requires n < |u| ==> !a.isConsonant(u[n])
    ensures ConsonantPrefixLength(a, u) == n
  {
    if n > 0 {
      assert forall j :: 0 <= j < n - 1 ==> u[1..][j] == u[j + 1];
      ConsonantPrefixUnique(a, u[1..], n - 1);
    }
  }

  /** Appending a non-consonant leaves the consonant prefix as it is. */
  lemma ConsonantPrefixSnoc(a: Alphabet, u: string, v: char)
    requires !a.isConsonant(v)
    ensures ConsonantPrefixLength(a, u + [v]) == ConsonantPrefixLength(a, u)
  {
    var n := ConsonantPrefixLength(a, u);
    assert (u + [v])[n] == if n < |u| then u[n] else v;
    ConsonantPrefixUnique(a, u + [v], n);
  }

  /** What the segmenter holds in `unclassified`, given how many consonants it
    * has counted: before the first consonant, nothing has gone to the medials
    * and only vowels are held; afterwards, one consonant (a letter or a
    * digraph) followed by vowels. */
  ghost predicate Unclassified(a: Alphabet, u: string, count: nat, medials: string)
  {
    if count == 0 then
      medials == [] && forall j :: 0 <= j < |u| ==> a.isVowel(u[j])
    else
      u != [] && a.isConsonant(u[0])
      && forall j :: ConsonantPrefixLength(a, u) <= j < |u| ==> a.isVowel(u[j])
  }

  /** The medial loop's invariant, besides the iterator's position `pos`
    * inside the word `r` that starts at `start`: the letters read so far are
    * the medials and the unclassified letters, and the consonants counted and
    * those still ahead make up all of `r`'s. */
  ghost predicate MedialState(
    a: Alphabet, s: string, start: nat, r: string,
    pos: nat, medials: string, u: string, count: nat)
    requires start <= |s| && start <= pos <= WordEnd(a, s, start)
  {
    r == LowerAll(s[start..WordEnd(a, s, start)])
    && medials + u == r[..pos - start]
    && Unclassified(a, u, count, medials)
    && count + Consonants(a, r[pos - start..]) == Consonants(a, r)
  }

  /** A Sildish letter at `pos`, read inside the word that starts at `start`,
    * is that word's letter at `pos - start`, and the word goes on past it. */
  lemma InsideWord(a: Alphabet, s: string, start: nat, r: string, pos: nat)
    requires start <= |s| && start <= pos <= WordEnd(a, s, start)
    requires r == LowerAll(s[start..WordEnd(a, s, start)])
    requires pos < |s| && IsSildishIn(a, Current(s, pos))
    ensures pos + 1 <= WordEnd(a, s, start) && pos - start < |r| && r[pos - start] == Current(s, pos)
  {
  }

  /** A prefix one longer. */
  lemma PrefixSnoc(r: string, k: nat, c: char)
    requires k < |r| && r[k] == c
    ensures r[..k + 1] == r[..k] + [c]
  {
  }

  /** A vowel may follow the unclassified letters. */
  lemma UnclassifiedVowel(a: Alphabet, u: string, count: nat, medials: string, c: char)
    requires Unclassified(a, u, count, medials) && a.isVowel(c) && !a.isConsonant(c)
    ensures Unclassified(a, u + [c], count, medials)
  {
    ConsonantPrefixSnoc(a, u, c);
    assert forall j :: 0 <= j < |u| ==> (u + [c])[j] == u[j];
    assert (u + [c])[|u|] == c;
  }

  /** A vowel joins the unclassified letters. */
  lemma {:induction false} VowelStep(
    a: Alphabet, s: string, start: nat, r: string,
    pos: nat, c: char, medials: string, u: string, count: nat)
    requires start <= |s| && start <= pos <= WordEnd(a, s, start)
    requires MedialState(a, s, start, r, pos, medials, u, count)
    requires pos < |s| && c == Current(s, pos) && IsSildishIn(a, c) && !a.isConsonant(c)
    ensures pos + 1 <= WordEnd(a, s, start)
    ensures MedialState(a, s, start, r, pos + 1, medials, u + [c], count)
  {
    var k := pos - start;
    InsideWord(a, s, start, r, pos);
    ConsonantsAt(a, r, k);
    PrefixSnoc(r, k, c);
    UnclassifiedVowel(a, u, count, medials, c);
  }

  /** A consonant that starts no digraph sends the unclassified letters to the
    * medials and is counted. */
  lemma {:induction false} ConsonantStep(
    a: Alphabet, s: string, start: nat, r: string,
    pos: nat, c: char, medials: string, u: string, count: nat)
    requires start <= |s| && start <= pos <= WordEnd(a, s, start)
    requires MedialState(a, s, start, r, pos, medials, u, count)
    requires pos < |s| && c == Current(s, pos) && a.isConsonant(c)
    requires pos + 1 < |s| ==> !IsConsonantDigraph(a, c, Current(s, pos + 1))
    ensures pos + 1 <= WordEnd(a, s, start)
    ensures MedialState(a, s, start, r, pos + 1, medials + u, [c], count + 1)
  {
    var k := pos - start;
    InsideWord(a, s, start, r, pos);
    ConsonantsAt(a, r, k);
    PrefixSnoc(r, k, c);
    if k + 1 < |r| {
      assert r[k + 1] == Current(s, pos + 1);
    }
  }

  /** A consonant digraph sends the unclassified letters to the medials and is
    * counted once. */
  lemma {:induction false} DigraphStep(
    a: Alphabet, s: string, start: nat, r: string,
    pos: nat, c: char, medials: string, u: string, count: nat, c1: char)
    requires start <= |s| && start <= pos <= WordEnd(a, s, start)
    requires MedialState(a, s, start, r, pos, medials, u, count)
    requires pos < |s| && c == Current(s, pos) && a.isConsonant(c)
    requires pos + 1 < |s| && c1 == Current(s, pos + 1) && IsConsonantDigraph(a, c, c1)
    ensures pos + 2 <= WordEnd(a, s, start)
    ensures MedialState(a, s, start, r, pos + 2, medials + u, [c] + [c1], count + 1)
  {
    var k := pos - start;
    InsideWord(a, s, start, r, pos);
    InsideWord(a, s, start, r, pos + 1);
    ConsonantsAt(a, r, k);
    assert r[..k + 2] == r[..k] + [c, c1] == r[..k] + ([c] + [c1]);
  }

  /** The loop stops at the end of the word. */
  lemma MedialExit(
    a: Alphabet, s: string, start: nat, r: string,
    pos: nat, cOrNil: Option<char>, c: char, medials: string, u: string, count: nat)
    requires 0 < |s| && start <= |s| && start <= pos <= WordEnd(a, s, start)
    requires cOrNil == At(s, pos) && c == Current(s, pos)
    requires MedialState(a, s, start, r, pos, medials, u, count)
    requires !(cOrNil.Some? && IsSildishIn(a, c))
    ensures pos == WordEnd(a, s, start) && medials + u == r && count == Consonants(a, r)
  {
    assert r[pos - start..] == [];
  }

  /** The vowels that end a string after its last consonant. */
  lemma VowelTail(a: Alphabet, r: string, n: nat)
    requires n < |r| && !a.isVowel(r[|r| - n - 1])
    requires forall j :: |r| - n <= j < |r| ==> a.isVowel(r[j])
    ensures VowelSuffixLength(a, r) == n
  {
  }

  /** The flush: where the unclassified letters go once the word has ended.
    * A leading consonant (letter or digraph) joins the medials; so do the
    * vowels after it when it was the only consonant, which otherwise are the
    * trailing vowels. Unclassified vowels with no consonant join the medials. */
  method FlushUnclassified(a: Alphabet, ghost r: string, medials: string, unclassified: string, consonantCount: nat)
    returns (medials': string, trailingVowels: string)
    requires Classifies(a) && r == medials + unclassified
    requires Unclassified(a, unclassified, consonantCount, medials)
    requires consonantCount == Consonants(a, r)
    ensures medials' == r[..|r| - TrailingLength(a, r)] && trailingVowels == r[|r| - TrailingLength(a, r)..]
  {
    medials', trailingVowels := medials, "";
    var u := unclassified;
    if u != [] {
      if a.isConsonant(u[0]) {
        var n := ConsonantPrefixLength(a, u);
        assert !a.isVowel(u[0]);
        assert 1 <= n && !a.isVowel(u[n - 1]);
        assert u[..n] + u[n..] == u;
        medials' := medials' + u[..n];
        u := u[n..];
        if consonantCount == 1 {
          medials' := medials' + u;
        } else {
          assert r[|r| - |u| - 1] == unclassified[n - 1];
          forall j | |r| - |u| <= j < |r| ensures a.isVowel(r[j]) {
            assert r[j] == unclassified[j - |medials|];
          }
          VowelTail(a, r, |u|);
          trailingVowels := u;
        }
      } else {
        medials' := medials' + u;
      }
    }
  }

  /** One pass of the medial loop, from a Sildish character: a consonant,
    * perhaps with the consonant after it as a digraph, or a vowel. */
  method MedialStep(
    trie: Tree<char, PhonemeData>, a: Alphabet, s: string, start: nat, ghost r: string,
    pos: nat, c: char, medials: string, unclassified: string, consonantCount: nat)
    returns (pos': nat, cOrNil': Option<char>, c': char,
      medials': string, unclassified': string, consonantCount': nat)
    requires AgreesWith(a, trie)
    requires start <= |s| && start <= pos <= WordEnd(a, s, start)
    requires MedialState(a, s, start, r, pos, medials, unclassified, consonantCount)
    requires pos < |s| && c == Current(s, pos) && IsSildishIn(a, c)
    ensures pos < pos' <= WordEnd(a, s, start) && cOrNil' == At(s, pos') && c' == Current(s, pos')
    ensures MedialState(a, s, start, r, pos', medials', unclassified', consonantCount')
  {
    if a.isConsonant(c) {
      pos', cOrNil', c', medials', unclassified', consonantCount' :=
        MedialConsonant(trie, a, s, start, r, pos, c, medials, unclassified, consonantCount);
    } else {
      VowelStep(a, s, start, r, pos, c, medials, unclassified, consonantCount);
      medials', unclassified', consonantCount' := medials, unclassified + [c], consonantCount;
      pos', cOrNil', c' := Advance(s, pos, c);
    }
  }

  /** The consonant case of the medial loop: the letters so far become
    * medials, and the consonant, with the next one when the two spell a
    * plain consonant, becomes the unclassified letters. */
  method MedialConsonant(
    trie: Tree<char, PhonemeData>, a: Alphabet, s: string, start: nat, ghost r: string,
    pos: nat, c: char, medials: string, unclassified: string, consonantCount: nat)
    returns (pos': nat, cOrNil': Option<char>, c': char,
      medials': string, unclassified': string, consonantCount': nat)
    requires AgreesWith(a, trie)
    requires start <= |s| && start <= pos <= WordEnd(a, s, start)
    requires MedialState(a, s, start, r, pos, medials, unclassified, consonantCount)
    requires pos < |s| && c == Current(s, pos) && a.isConsonant(c)
    ensures pos < pos' <= WordEnd(a, s, start) && cOrNil' == At(s, pos') && c' == Current(s, pos')
    ensures MedialState(a, s, start, r, pos', medials', unclassified', consonantCount')
  {
    var x := c;
    medials' := medials + unclassified;
    unclassified' := [c];
    consonantCount' := consonantCount + 1;
    pos', cOrNil', c' := Advance(s, pos, c);
    if cOrNil'.Some? && a.isConsonant(c') {
      var spellsConsonant := SpellsPlainConsonant(trie, a, x, c');
      if spellsConsonant {
        DigraphStep(a, s, start, r, pos, x, medials, unclassified, consonantCount, c');
        unclassified' := unclassified' + [c'];
        pos', cOrNil', c' := Advance(s, pos', c');
        return;
      }
    }
    ConsonantStep(a, s, start, r, pos, x, medials, unclassified, consonantCount);
  }

  /** Whether the tree holds a plain consonant under the letters `x`, `c`. */
  method SpellsPlainConsonant(trie: Tree<char, PhonemeData>, a: Alphabet, x: char, c: char) returns (b: bool)
    requires AgreesWith(a, trie)
    ensures b == ((x, c) in a.digraphs)
  {
    var entry := Lookup(trie, [x, c]);
    b := entry.Some? && entry.value.graphemeSet.Consonant?;
  }

  /** The medial loop and its flush: classifies the letters from `start` to
    * the end of the word into medials and trailing vowels. */
  method ClassifyMedials(trie: Tree<char, PhonemeData>, a: Alphabet, s: string, start: nat, c0: char)
    returns (medials: string, trailingVowels: string, pos: nat, cOrNil: Option<char>, c: char)
    requires Classifies(a) && AgreesWith(a, trie)
    requires 0 < |s| && start <= |s| && c0 == Current(s, start)
    ensures pos == WordEnd(a, s, start) && cOrNil == At(s, pos) && c == Current(s, pos)
    ensures var r := LowerAll(s[start..pos]); var t := TrailingLength(a, r);
      medials == r[..|r| - t] && trailingVowels == r[|r| - t..]
  {
    ghost var r := LowerAll(s[start..WordEnd(a, s, start)]);
    var unclassified, consonantCount;
    pos, cOrNil, c, medials, unclassified, consonantCount := MedialLoop(trie, a, s, start, c0, r);
    medials, trailingVowels := FlushUnclassified(a, r, medials, unclassified, consonantCount);
  }

  /** The medial loop over the word `r` that starts at `start`: it reads the
    * whole word, sending letters to the medials or holding them as
    * unclassified, and counts its consonants. */
  method MedialLoop(trie: Tree<char, PhonemeData>, a: Alphabet, s: string, start: nat, c0: char, ghost r: string)
    returns (pos: nat, cOrNil: Option<char>, c: char, medials: string, unclassified: string, consonantCount: nat)
    requires AgreesWith(a, trie)
    requires 0 < |s| && start <= |s| && c0 == Current(s, start)
    requires r == LowerAll(s[start..WordEnd(a, s, start)])
    ensures pos == WordEnd(a, s, start) && cOrNil == At(s, pos) && c == Current(s, pos)
    ensures medials + unclassified == r && consonantCount == Consonants(a, r)
    ensures Unclassified(a, unclassified, consonantCount, medials)
  {
    medials, unclassified, consonantCount := "", "", 0;
    pos, cOrNil, c := start, At(s, start), c0;
    while cOrNil.Some? && IsSildishIn(a, c)
      invariant start <= pos <= WordEnd(a, s, start) && cOrNil == At(s, pos) && c == Current(s, pos)
      invariant MedialState(a, s, start, r, pos, medials, unclassified, consonantCount)
      decreases |s| - pos
    {
      pos, cOrNil, c, medials, unclassified, consonantCount :=
        MedialStep(trie, a, s, start, r, pos, c, medials, unclassified, consonantCount);
    }
    MedialExit(a, s, start, r, pos, cOrNil, c, medials, unclassified, consonantCount);
  }


  /** The first Sildish character after `i` is the one the characters before
    * it are not. */
  lemma NextSildishUnique(a: Alphabet, s: string, i: nat, e: nat)
    requires i <= e <= |s| && forall j :: i <= j < e ==> !IsSildishIn(a, s[j])
    requires e < |s| ==> IsSildishIn(a, s[e])
    ensures NextSildish(a, s, i) == e
  {
  }

  /** Echoing one more character. */
  lemma EchoSnoc(s: string, start: nat, p: nat)
    requires start <= p < |s|
    ensures Echo(s[start..p + 1]) == Echo(s[start..p]) + [if p == start then Lower(s[p]) else s[p]]
  {
    if p > start {
      assert s[start..p + 1][1..] == s[start + 1..p + 1] == s[start..p][1..] + [s[p]];
    }
  }

  /** The copy loop's invariant: what has been copied from `start` up to
    * `pos`, and that none of it was Sildish. */
  ghost predicate CopyState(a: Alphabet, s: string, start: nat, c0: char, pos: nat, c: char, copied: string)
    requires start <= pos <= |s|
  {
    copied == Echo(s[start..pos])
    && (pos == start ==> c == c0)
    && (start < pos ==> !IsSildishIn(a, Lower(s[start])) && forall j :: start < j < pos ==> !IsSildishIn(a, s[j]))
    && (start < pos < |s| ==> c == s[pos])
  }

  /** Copying the current character keeps the copy loop's invariant. */
  lemma CopyAdvance(a: Alphabet, s: string, start: nat, c0: char, pos: nat, c: char, copied: string, c': char)
    requires 0 < |s| && start <= pos < |s| && c0 == Current(s, start)
    requires CopyState(a, s, start, c0, pos, c, copied) && !IsSildishIn(a, c)
    requires pos + 1 < |s| ==> c' == s[pos + 1]
    ensures CopyState(a, s, start, c0, pos + 1, c', copied + [c])
  {
    EchoSnoc(s, start, pos);
  }

  /** Where the copy loop stops. */
  lemma CopyEnd(a: Alphabet, s: string, start: nat, c0: char, pos: nat, c: char, copied: string)
    requires 0 < |s| && start <= pos <= |s| && c0 == Current(s, start)
    requires start == |s| ==> IsSildishIn(a, c0)
    requires CopyState(a, s, start, c0, pos, c, copied)
    requires !(pos < |s| && !IsSildishIn(a, c))
    ensures pos == GapEnd(a, s, start) && copied == Echo(s[start..pos])
  {
    if start < pos {
      NextSildishUnique(a, s, start + 1, pos);
    }
  }

  /** The copy loop: the characters after a word that are not Sildish are
    * copied through, the first lower-cased as the advancer left it, up to the
    * next Sildish character; the exhausted iterator ends the loop. */
  method CopyVerbatim(a: Alphabet, s: string, start: nat, c0: char)
    returns (copied: string, pos: nat, cOrNil: Option<char>)
    requires 0 < |s| && start <= |s| && c0 == Current(s, start)
    requires start == |s| ==> IsSildishIn(a, c0)
    ensures pos == GapEnd(a, s, start) && cOrNil == At(s, pos)
    ensures copied == Echo(s[start..pos])
  {
    copied := "";
    pos, cOrNil := start, At(s, start);
    var c := c0;
    while cOrNil.Some? && !IsSildishIn(a, c)
      invariant start <= pos <= |s| && cOrNil == At(s, pos)
      invariant CopyState(a, s, start, c0, pos, c, copied)
      decreases |s| - pos
    {
      ghost var (pos0, c1, copied0) := (pos, c, copied);
      copied := copied + [c];
      pos := pos + 1;
      cOrNil := At(s, pos);
      if cOrNil.Some? {
        c := cOrNil.value;
      }
      CopyAdvance(a, s, start, c0, pos0, c1, copied0, c);
    }
    CopyEnd(a, s, start, c0, pos, c, copied);
  }

  /** A run of vowels stays inside the word. */
  lemma {:induction false} VowelRunInsideWord(a: Alphabet, s: string, i: nat)
    requires i <= |s|
    ensures VowelRunEnd(a, s, i) <= WordEnd(a, s, i)
    decreases |s| - i
  {
    if i < |s| && a.isVowel(Lower(s[i])) {
      VowelRunInsideWord(a, s, i + 1);
    }
  }

  /** A word read from a later position inside it ends where it does. */
  lemma {:induction false} WordEndAfter(a: Alphabet, s: string, i: nat, j: nat)
    requires i <= |s| && i <= j <= WordEnd(a, s, i)
    ensures WordEnd(a, s, j) == WordEnd(a, s, i)
    decreases j - i
  {
    if i < j {
      WordEndAfter(a, s, i + 1, j);
    }
  }

  /** The vowel prefix is the one made of vowels and followed by a non-vowel
    * (or nothing). */
  lemma {:induction false} VowelPrefixUnique(a: Alphabet, w: string, n: nat)
    requires n <= |w| && forall j :: 0 <= j < n ==> a.isVowel(w[j])
    requires n < |w| ==> !a.isVowel(w[n])
    ensures VowelPrefixLength(a, w) == n
  {
    if n > 0 {
      assert forall j :: 0 <= j < n - 1 ==> w[1..][j] == w[j + 1];
      VowelPrefixUnique(a, w[1..], n - 1);
    }
  }

  /** Lower-casing a string in two pieces. */
  lemma LowerAllSplit(s: string, i: nat, j: nat, k: nat)
    requires i <= j <= k <= |s|
    ensures LowerAll(s[i..k])[..j - i] == LowerAll(s[i..j])
    ensures LowerAll(s[i..k])[j - i..] == LowerAll(s[j..k])
  {
  }

  /** The leading-vowel loop (skipped in a capitalised word) ends at `lead`,
    * after as many letters as `Segment` sets apart, and inside the word. */
  lemma LeadingRun(a: Alphabet, s: string, start: nat, lead: nat)
    requires start < |s|
    requires lead == if IsUpper(s[start]) then start else VowelRunEnd(a, s, start)
    ensures lead <= WordEnd(a, s, start) && WordEnd(a, s, lead) == WordEnd(a, s, start)
    ensures var w := LowerAll(s[start..WordEnd(a, s, start)]);
      (if IsUpper(s[start]) then 0 else VowelPrefixLength(a, w)) == lead - start
  {
    var e := WordEnd(a, s, start);
    VowelRunInsideWord(a, s, start);
    WordEndAfter(a, s, start, lead);
    var w := LowerAll(s[start..e]);
    var n := lead - start;
    if !IsUpper(s[start]) {
      forall j | 0 <= j < n ensures a.isVowel(w[j]) {
        assert w[j] == Lower(s[start + j]);
      }
      if n < |w| {
        assert w[n] == Lower(s[lead]);
      }
      VowelPrefixUnique(a, w, n);
    }
  }

  /** The segmenter's loops find the pieces of the word that `Segment` splits
    * it into: the leading-vowel loop ends after the letters `Segment` sets
    * apart as leading vowels, and the medial loop starts from there and ends
    * at the end of the word. */
  lemma {:induction false} WordRegions(a: Alphabet, s: string, start: nat, lead: nat, e: nat)
    requires start < |s|
    requires lead == if IsUpper(s[start]) then start else VowelRunEnd(a, s, start)
    requires lead <= |s| && e == WordEnd(a, s, lead)
    ensures e == WordEnd(a, s, start) && start <= lead <= e
    ensures lead - start == (if IsUpper(s[start]) then 0 else VowelPrefixLength(a, LowerAll(s[start..e])))
    ensures LowerAll(s[start..e])[..lead - start] == LowerAll(s[start..lead])
    ensures LowerAll(s[start..e])[lead - start..] == LowerAll(s[lead..e])
  {
    LeadingRun(a, s, start, lead);
    LowerAllSplit(s, start, lead, e);
  }

  /** What the two loops of one word collect is its regioning: the leading
    * vowels up to `lead`, then the medials and trailing vowels up to the end
    * of the word `e`. */
  lemma {:induction false} WordSegment(
    a: Alphabet, s: string, start: nat, lead: nat, e: nat,
    leadingVowels: string, medials: string, trailingVowels: string)
    requires start < |s|
    requires lead == if IsUpper(s[start]) then start else VowelRunEnd(a, s, start)
    requires leadingVowels == LowerAll(s[start..lead])
    requires lead <= |s| && e == WordEnd(a, s, lead)
    requires var r := LowerAll(s[lead..e]); var t := TrailingLength(a, r);
      medials == r[..|r| - t] && trailingVowels == r[|r| - t..]
    ensures e == WordEnd(a, s, start)
    ensures Segment(a, LowerAll(s[start..e]), IsUpper(s[start])) == Regions(leadingVowels, medials, trailingVowels)
  {
    var w, n, rest := LowerAll(s[start..e]), lead - start, LowerAll(s[lead..e]);
    assert e == WordEnd(a, s, start) && n <= |w| && leadingVowels == w[..n] && rest == w[n..]
      && n == if IsUpper(s[start]) then 0 else VowelPrefixLength(a, w)
    by {
      WordRegions(a, s, start, lead, e);
    }
    SegmentOf(a, w, IsUpper(s[start]), n, leadingVowels, rest, medials, trailingVowels);
  }

  /** The start of one word, from its first character at `start`: the
    * capital mark, then the leading-vowel loop, which a capitalised word
    * skips. */
  method CapitalAndLeading(a: Alphabet, s: string, start: nat)
    returns (capital: string, leadingVowels: string, pos: nat, cOrNil: Option<char>, c: char)
    requires start < |s|
    ensures capital == if IsUpper(s[start]) then CapitalMark else ""
    ensures pos == (if IsUpper(s[start]) then start else VowelRunEnd(a, s, start))
    ensures leadingVowels == LowerAll(s[start..pos]) && cOrNil == At(s, pos) && c == Current(s, pos)
  {
    capital, leadingVowels := "", "";
    c := s[start];
    if IsUpper(c) {
      capital := CapitalMark;
    }
    c := Lower(c);
    pos := start;
    cOrNil := At(s, start);
    if capital == "" {
      leadingVowels, pos, cOrNil, c := LeadingVowels(a, s, pos, c);
    }
  }

  /** The regioning of one word: its start, then the medial loop with its
    * flush. */
  method RegionWord(trie: Tree<char, PhonemeData>, a: Alphabet, s: string, start: nat)
    returns (capital: string, leadingVowels: string, medials: string, trailingVowels: string,
      pos: nat, cOrNil: Option<char>, c: char)
    requires Classifies(a) && AgreesWith(a, trie)
    requires start < |s|
    ensures pos == WordEnd(a, s, start) && cOrNil == At(s, pos) && c == Current(s, pos)
    ensures capital == if IsUpper(s[start]) then CapitalMark else ""
    ensures Segment(a, LowerAll(s[start..pos]), IsUpper(s[start])) == Regions(leadingVowels, medials, trailingVowels)
  {
    capital, leadingVowels, pos, cOrNil, c := CapitalAndLeading(a, s, start);
    ghost var lead := pos;
    medials, trailingVowels, pos, cOrNil, c := ClassifyMedials(trie, a, s, pos, c);
    WordSegment(a, s, start, lead, pos, leadingVowels, medials, trailingVowels);
  }

  /** One word of the outer loop: its regions, then their glyphs. */
  method TransliterateWord(trie: Tree<char, PhonemeData>, a: Alphabet, s: string, start: nat)
    returns (glyphs: string, pos: nat, cOrNil: Option<char>, c: char)
    requires IsCatalogTrie(trie) && Classifies(a) && AgreesWith(a, trie)
    requires start < |s|
    ensures pos == WordEnd(a, s, start) && cOrNil == At(s, pos) && c == Current(s, pos)
    ensures glyphs == WordGlyphs(trie, a, s, start)
  {
    var capital, leadingVowels, medials, trailingVowels;
    capital, leadingVowels, medials, trailingVowels, pos, cOrNil, c := RegionWord(trie, a, s, start);
    WordLetters(a, s, start);
    RegionLetters(a, LowerAll(s[start..pos]), IsUpper(s[start]));
    var leadingGlyphs := TransliterateNonmedialVowels(trie, leadingVowels);
    var medialGlyphs := TransliterateMedials(trie, medials, capital != "");
    var trailingGlyphs := TransliterateNonmedialVowels(trie, trailingVowels);
    glyphs := capital + leadingGlyphs + medialGlyphs + trailingGlyphs;
  }

  /** `transliterateToSildish(_:)` over a catalog tree and an alphabet that
    * agrees with it. */
  method TransliterateWith(trie: Tree<char, PhonemeData>, a: Alphabet, s: string) returns (sildish: string)
    requires IsCatalogTrie(trie) && Classifies(a) && AgreesWith(a, trie)
    ensures sildish == Transliterated(trie, a, s)
  {
    sildish := "";
    var pos: nat := 0;
    var cOrNil := At(s, 0);
    while cOrNil.Some?
      invariant pos <= |s| && cOrNil == At(s, pos)
      invariant sildish + TransliterationFrom(trie, a, s, pos) == Transliterated(trie, a, s)
      decreases |s| - pos
    {
      var out, next;
      out, next, cOrNil := WordAndGap(trie, a, s, pos);
      Associative(sildish, out, TransliterationFrom(trie, a, s, next));
      sildish, pos := sildish + out, next;
    }
  }

  /** One pass of the outer loop: the word at `pos` and the characters copied
    * after it. */
  method WordAndGap(trie: Tree<char, PhonemeData>, a: Alphabet, s: string, pos: nat)
    returns (out: string, next: nat, cOrNil: Option<char>)
    requires IsCatalogTrie(trie) && Classifies(a) && AgreesWith(a, trie)
    requires pos < |s|
    ensures pos < next <= |s| && cOrNil == At(s, next)
    ensures TransliterationFrom(trie, a, s, pos) == out + TransliterationFrom(trie, a, s, next)
  {
    var glyphs, c, copied, wordEnd;
    glyphs, wordEnd, cOrNil, c := TransliterateWord(trie, a, s, pos);
    copied, next, cOrNil := CopyVerbatim(a, s, wordEnd, c);
    WordThenGap(trie, a, s, pos, glyphs, copied, next);
    Associative(glyphs, copied, TransliterationFrom(trie, a, s, next));
    out := glyphs + copied;
  }

  /** One step of `TransliterationFrom`: a word, then the gap after it. */
  lemma WordThenGap(trie: Tree<char, PhonemeData>, a: Alphabet, s: string, i: nat, glyphs: string, copied: string, g: nat)
    requires IsCatalogTrie(trie) && Classifies(a) && i < |s|
    requires glyphs == WordGlyphs(trie, a, s, i)
    requires g == GapEnd(a, s, WordEnd(a, s, i)) && copied == Echo(s[WordEnd(a, s, i)..g])
    ensures i < g
    ensures TransliterationFrom(trie, a, s, i) == glyphs + copied + TransliterationFrom(trie, a, s, g)
  {
    if WordEnd(a, s, i) == i {
      assert !IsSildishIn(a, Lower(s[i]));
    }
  }

  /** What `transliterateToSildish(_:)` returns with the production tree and
    * the sound system's alphabet. */
  function SildishTransliteration(s: string): string
  {
    ProductionIsCatalogTrie();
    SildishAlphabetClassifies(RomanToSildishTrie());
    Transliterated(RomanToSildishTrie(), SildishAlphabet(RomanToSildishTrie()), s)
  }

  /** `transliterateToSildish(_:)`. */
  method TransliterateToSildish(s: string) returns (sildish: string)
    ensures sildish == SildishTransliteration(s)
  {
    var trie := RomanToSildishTrie();
    ProductionIsCatalogTrie();
    SildishAlphabetClassifies(trie);
    sildish := TransliterateWith(trie, SildishAlphabet(trie), s);
  }
}
