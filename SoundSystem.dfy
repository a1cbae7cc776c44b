/**
 * The Sildish sound system: the phoneme catalog with its roman
 * transliterations, pronunciations and glyph variants, the category filters
 * over it, and the classification of roman letters.
 */
module SoundSystem {
  /** The glyph variants of one phoneme, by kind. */
  datatype GraphemeSet =
    | Vowel(standard: string, withoutBar: string)
    | Diphthong(standard: string, withoutBar: string)
    | Consonant(standard: string, initial: string, final: string)
    | ReduplicableConsonant(
        standard: string, initial: string, final: string,
        reduplicated: string, initialReduplicated: string, finalReduplicated: string)

  /** A simple vowel or a diphthong. */
  predicate IsVowelKind(g: GraphemeSet)
  {
    g.Vowel? || g.Diphthong?
  }

  /** A consonant, reduplicable or not. */
  predicate IsConsonantKind(g: GraphemeSet)
  {
    g.Consonant? || g.ReduplicableConsonant?
  }

  /** Everything the catalog records about one phoneme. */
  datatype PhonemeData = PhonemeData(roman: string, pronunciation: string, graphemeSet: GraphemeSet)
  {
    /** Equality as the catalog defines it: field by field. */
    function Equals(other: PhonemeData): (r: bool)
      ensures r <==> this == other
    {
      roman == other.roman && pronunciation == other.pronunciation && graphemeSet == other.graphemeSet
    }
  }

  /** The phonemes of Sildish. */
  datatype Phoneme = Y | I | E | A | O | U | Ei | Ae | Oi | Ui | Eu | Au | M | N | Ng | P | B | T | D | C | G | F | V | Th | Dh | S | Z | Sh | Zh | Ch | H | Hw | W | J | R | Rh | L
  {
    function Data(): PhonemeData
    {
      match this
      case Y => PhonemeData("y", "i", Vowel("\U{E000}", "\U{E040}"))
      case I => PhonemeData("i", "\U{026A}", Vowel("\U{E001}", "\U{E041}"))
      case E => PhonemeData("e", "\U{025B}", Vowel("\U{E002}", "\U{E042}"))
      case A => PhonemeData("a", "a", Vowel("\U{E003}", "\U{E043}"))
      case O => PhonemeData("o", "o", Vowel("\U{E004}", "\U{E044}"))
      case U => PhonemeData("u", "u", Vowel("\U{E005}", "\U{E045}"))
      case Ei => PhonemeData("ei", "\U{025B}i", Diphthong("\U{E008}", "\U{E048}"))
      case Ae => PhonemeData("ae", "ai", Diphthong("\U{E009}", "\U{E049}"))
      case Oi => PhonemeData("oi", "oi", Diphthong("\U{E00A}", "\U{E04A}"))
      case Ui => PhonemeData("ui", "ui", Diphthong("\U{E00B}", "\U{E04B}"))
      case Eu => PhonemeData("eu", "\U{025B}u", Diphthong("\U{E026}", "\U{E066}"))
      case Au => PhonemeData("au", "au", Diphthong("\U{E027}", "\U{E067}"))
      case M => PhonemeData("m", "m", ReduplicableConsonant("\U{E101}", "\U{E201}", "\U{E301}", "\U{E401}", "\U{E501}", "\U{E601}"))
      case N => PhonemeData("n", "n", ReduplicableConsonant("\U{E107}", "\U{E207}", "\U{E307}", "\U{E407}", "\U{E507}", "\U{E607}"))
      case Ng => PhonemeData("ng", "\U{014B}", Consonant("\U{E10D}", "\U{E20D}", "\U{E30D}"))
      case P => PhonemeData("p", "p", ReduplicableConsonant("\U{E110}", "\U{E210}", "\U{E310}", "\U{E410}", "\U{E510}", "\U{E610}"))
      case B => PhonemeData("b", "b", ReduplicableConsonant("\U{E111}", "\U{E211}", "\U{E311}", "\U{E411}", "\U{E511}", "\U{E611}"))
      case T => PhonemeData("t", "t", ReduplicableConsonant("\U{E116}", "\U{E216}", "\U{E316}", "\U{E416}", "\U{E516}", "\U{E616}"))
      case D => PhonemeData("d", "d", ReduplicableConsonant("\U{E117}", "\U{E217}", "\U{E317}", "\U{E417}", "\U{E517}", "\U{E617}"))
      case C => PhonemeData("c", "k", ReduplicableConsonant("\U{E11C}", "\U{E21C}", "\U{E31C}", "\U{E41C}", "\U{E51C}", "\U{E61C}"))
      case G => PhonemeData("g", "g", ReduplicableConsonant("\U{E11D}", "\U{E21D}", "\U{E31D}", "\U{E41D}", "\U{E51D}", "\U{E61D}"))
      case F => PhonemeData("f", "f", Consonant("\U{E122}", "\U{E222}", "\U{E322}"))
      case V => PhonemeData("v", "v", Consonant("\U{E123}", "\U{E223}", "\U{E323}"))
      case Th => PhonemeData("th", "\U{03B8}", Consonant("\U{E124}", "\U{E224}", "\U{E324}"))
      case Dh => PhonemeData("dh", "\U{00F0}", Consonant("\U{E125}", "\U{E225}", "\U{E325}"))
      case S => PhonemeData("s", "s", ReduplicableConsonant("\U{E126}", "\U{E226}", "\U{E326}", "\U{E426}", "\U{E526}", "\U{E626}"))
      case Z => PhonemeData("z", "z", Consonant("\U{E127}", "\U{E227}", "\U{E327}"))
      case Sh => PhonemeData("sh", "\U{0283}", Consonant("\U{E128}", "\U{E228}", "\U{E328}"))
      case Zh => PhonemeData("zh", "\U{0292}", Consonant("\U{E129}", "\U{E229}", "\U{E329}"))
      case Ch => PhonemeData("ch", "x", Consonant("\U{E12C}", "\U{E22C}", "\U{E32C}"))
      case H => PhonemeData("h", "h", Consonant("\U{E12E}", "\U{E22E}", "\U{E32E}"))
      case Hw => PhonemeData("hw", "\U{028D}", Consonant("\U{E130}", "\U{E230}", "\U{E330}"))
      case W => PhonemeData("w", "w", Consonant("\U{E131}", "\U{E231}", "\U{E331}"))
      case J => PhonemeData("j", "j", Consonant("\U{E13B}", "\U{E23B}", "\U{E33B}"))
      case R => PhonemeData("r", "\U{027E}", Consonant("\U{E147}", "\U{E247}", "\U{E347}"))
      case Rh => PhonemeData("rh", "r", Consonant("\U{E157}", "\U{E257}", "\U{E357}"))
      case L => PhonemeData("l", "l", ReduplicableConsonant("\U{E167}", "\U{E267}", "\U{E367}", "\U{E467}", "\U{E567}", "\U{E667}"))
    }
  }

  /** The phoneme at each position of the declaration order. */
  function CaseAt(i: nat): Phoneme
    requires i < 37
  {
    if i == 0 then Y
    else if i == 1 then I
    else if i == 2 then E
    else if i == 3 then A
    else if i == 4 then O
    else if i == 5 then U
    else if i == 6 then Ei
    else if i == 7 then Ae
    else if i == 8 then Oi
    else if i == 9 then Ui
    else if i == 10 then Eu
    else if i == 11 then Au
    else if i == 12 then M
    else if i == 13 then N
    else if i == 14 then Ng
    else if i == 15 then P
    else if i == 16 then B
    else if i == 17 then T
    else if i == 18 then D
    else if i == 19 then C
    else if i == 20 then G
    else if i == 21 then F
    else if i == 22 then V
    else if i == 23 then Th
    else if i == 24 then Dh
    else if i == 25 then S
    else if i == 26 then Z
    else if i == 27 then Sh
    else if i == 28 then Zh
    else if i == 29 then Ch
    else if i == 30 then H
    else if i == 31 then Hw
    else if i == 32 then W
    else if i == 33 then J
    else if i == 34 then R
    else if i == 35 then Rh
    else L
  }

  /** The position of a phoneme in the declaration order. */
  function IndexOf(p: Phoneme): (i: nat)
    ensures i < 37 && CaseAt(i) == p
  {
    match p
    case Y => 0
    case I => 1
    case E => 2
    case A => 3
    case O => 4
    case U => 5
    case Ei => 6
    case Ae => 7
    case Oi => 8
    case Ui => 9
    case Eu => 10
    case Au => 11
    case M => 12
    case N => 13
    case Ng => 14
    case P => 15
    case B => 16
    case T => 17
    case D => 18
    case C => 19
    case G => 20
    case F => 21
    case V => 22
    case Th => 23
    case Dh => 24
    case S => 25
    case Z => 26
    case Sh => 27
    case Zh => 28
    case Ch => 29
    case H => 30
    case Hw => 31
    case W => 32
    case J => 33
    case R => 34
    case Rh => 35
    case L => 36
  }

  /** Every phoneme, in declaration order (Swift's `allCases`). */
  function AllCases(): seq<Phoneme>
  {
    seq(37, i requires 0 <= i < 37 => CaseAt(i))
  }

  /** Every phoneme is listed in `AllCases()`. */
  lemma AllCasesComplete(p: Phoneme)
    ensures p in AllCases()
  {
    assert AllCases()[IndexOf(p)] == p;
  }

  /** No element occurs twice. */
  predicate NoDuplicates<T(==)>(xs: seq<T>)
  {
    forall i, j :: 0 <= i < j < |xs| ==> xs[i] != xs[j]
  }

  /** `IndexOf` undoes `CaseAt`. */
  lemma IndexOfCaseAt(i: nat)
    requires i < 37
    ensures IndexOf(CaseAt(i)) == i
  {
  }

  /** `AllCases()` lists every phoneme once. */
  lemma AllCasesDistinct()
    ensures NoDuplicates(AllCases())
  {
    forall i, j | 0 <= i < j < |AllCases()| ensures AllCases()[i] != AllCases()[j] {
      IndexOfCaseAt(i);
      IndexOfCaseAt(j);
    }
  }

  /** The two-phoneme clusters written with a single roman letter. */
  datatype PhonemeCluster = Q | X
  {
    function Data(): PhonemeData
    {
      match this
      case Q => PhonemeData("q", "kw", Consonant("\U{E11C}\U{E131}", "\U{E21C}\U{E131}", "\U{E11C}\U{E331}"))
      case X => PhonemeData("x", "ks", Consonant("\U{E11C}\U{E126}", "\U{E21C}\U{E126}", "\U{E11C}\U{E326}"))
    }
  }

  /** Every cluster, in declaration order. */
  const AllClusters: seq<PhonemeCluster> := [Q, X]

  /** Every cluster is listed in `AllClusters`. */
  lemma AllClustersComplete(q: PhonemeCluster)
    ensures q in AllClusters
  {
    assert AllClusters[0] == Q && AllClusters[1] == X;
  }

  /** The mark that opens the bar of a capitalised word. */
  const CapitalMark: string := "\U{EA00}"

  /** Swift's `filter`: the elements satisfying `keep`, in order. */
  function Filter<T>(xs: seq<T>, keep: T -> bool): seq<T>
  {
    if xs == [] then [] else (if keep(xs[0]) then [xs[0]] else []) + Filter(xs[1..], keep)
  }

  /** `Filter` keeps exactly the elements satisfying the predicate. */
  lemma {:induction false} FilterMembership<T>(xs: seq<T>, keep: T -> bool, x: T)
    ensures x in Filter(xs, keep) <==> x in xs && keep(x)
  {
    if xs != [] {
      FilterMembership(xs[1..], keep, x);
      assert xs == [xs[0]] + xs[1..];
    }
  }

  /** Filtering a list without duplicates leaves none. */
  lemma {:induction false} FilterDistinct<T>(xs: seq<T>, keep: T -> bool)
    requires NoDuplicates(xs)
    ensures NoDuplicates(Filter(xs, keep))
  {
    if xs != [] {
      assert NoDuplicates(xs[1..]);
      FilterDistinct(xs[1..], keep);
      FilterMembership(xs[1..], keep, xs[0]);
      assert xs[0] !in xs[1..];
    }
  }

  predicate IsSimpleVowelPhoneme(p: Phoneme) { p.Data().graphemeSet.Vowel? }
  predicate IsDiphthongPhoneme(p: Phoneme) { p.Data().graphemeSet.Diphthong? }
  predicate IsVowelPhoneme(p: Phoneme) { IsVowelKind(p.Data().graphemeSet) }
  predicate IsNonreduplicablePhoneme(p: Phoneme) { p.Data().graphemeSet.Consonant? }
  predicate IsReduplicablePhoneme(p: Phoneme) { p.Data().graphemeSet.ReduplicableConsonant? }
  predicate IsConsonantPhoneme(p: Phoneme) { IsConsonantKind(p.Data().graphemeSet) }
  predicate IsVowelCluster(q: PhonemeCluster) { IsVowelKind(q.Data().graphemeSet) }
  predicate IsConsonantCluster(q: PhonemeCluster) { IsConsonantKind(q.Data().graphemeSet) }

  function AllSimpleVowels(): seq<Phoneme> { Filter(AllCases(), IsSimpleVowelPhoneme) }
  function AllDiphthongs(): seq<Phoneme> { Filter(AllCases(), IsDiphthongPhoneme) }
  function AllVowels(): seq<Phoneme> { Filter(AllCases(), IsVowelPhoneme) }
  function AllNonreduplicableConsonants(): seq<Phoneme> { Filter(AllCases(), IsNonreduplicablePhoneme) }
  function AllReduplicableConsonants(): seq<Phoneme> { Filter(AllCases(), IsReduplicablePhoneme) }
  function AllConsonants(): seq<Phoneme> { Filter(AllCases(), IsConsonantPhoneme) }

  /** The filters select by grapheme kind, and the vowels and the consonants
    * split the phonemes between them. */
  lemma CategoryFilters(p: Phoneme)
    ensures p in AllVowels() <==> IsVowelKind(p.Data().graphemeSet)
    ensures p in AllConsonants() <==> IsConsonantKind(p.Data().graphemeSet)
    ensures p in AllVowels() <==> p in AllSimpleVowels() || p in AllDiphthongs()
    ensures p in AllConsonants() <==> p in AllNonreduplicableConsonants() || p in AllReduplicableConsonants()
    ensures (p in AllVowels()) != (p in AllConsonants())
  {
    AllCasesComplete(p);
    FilterMembership(AllCases(), IsSimpleVowelPhoneme, p);
    FilterMembership(AllCases(), IsDiphthongPhoneme, p);
    FilterMembership(AllCases(), IsVowelPhoneme, p);
    FilterMembership(AllCases(), IsNonreduplicablePhoneme, p);
    FilterMembership(AllCases(), IsReduplicablePhoneme, p);
    FilterMembership(AllCases(), IsConsonantPhoneme, p);
  }

  /** The set of letters used by the romans of `xs` (Swift's `Set(flatMap)`). */
  function RomanLetters<T>(xs: seq<T>, roman: T -> string): set<char>
  {
    if xs == [] then {} else Letters(roman(xs[0])) + RomanLetters(xs[1..], roman)
  }

  /** The set of characters of a string. */
  function Letters(s: string): set<char>
  {
    if s == [] then {} else {s[0]} + Letters(s[1..])
  }

  /** `Letters` holds exactly the characters of the string. */
  lemma {:induction false} LettersMembership(s: string, c: char)
    ensures c in Letters(s) <==> c in s
  {
    if s != [] {
      LettersMembership(s[1..], c);
    }
  }

  /** A letter of an element's roman is in `RomanLetters`. */
  lemma {:induction false} RomanLettersMembership<T>(xs: seq<T>, roman: T -> string, c: char, x: T)
    requires x in xs && c in roman(x)
    ensures c in RomanLetters(xs, roman)
  {
    if x != xs[0] {
      RomanLettersMembership(xs[1..], roman, c, x);
    } else {
      LettersMembership(roman(x), c);
    }
  }

  /** A letter of `RomanLetters` comes from some element's roman. */
  lemma {:induction false} RomanLettersSource<T>(xs: seq<T>, roman: T -> string, c: char) returns (x: T)
    requires c in RomanLetters(xs, roman)
    ensures x in xs && c in roman(x)
  {
    LettersMembership(roman(xs[0]), c);
    if c in roman(xs[0]) {
      x := xs[0];
    } else {
      x := RomanLettersSource(xs[1..], roman, c);
    }
  }

  function PhonemeRoman(p: Phoneme): string { p.Data().roman }
  function ClusterRoman(q: PhonemeCluster): string { q.Data().roman }

  /** The vowel letters of a listing of the catalog: the letters of the romans
    * of its vowels and diphthongs, phonemes and clusters alike. */
  function VowelLettersOf(cases: seq<Phoneme>, clusters: seq<PhonemeCluster>): set<char>
  {
    RomanLetters(Filter(cases, IsVowelPhoneme), PhonemeRoman) + RomanLetters(Filter(clusters, IsVowelCluster), ClusterRoman)
  }

  /** The consonant letters of a listing of the catalog. */
  function ConsonantLettersOf(cases: seq<Phoneme>, clusters: seq<PhonemeCluster>): set<char>
  {
    RomanLetters(Filter(cases, IsConsonantPhoneme), PhonemeRoman) + RomanLetters(Filter(clusters, IsConsonantCluster), ClusterRoman)
  }

  /** The roman letters of the Sildish vowels (`romanSildishVowels`). */
  function RomanSildishVowels(): set<char>
  {
    VowelLettersOf(AllCases(), AllClusters)
  }

  /** The roman letters of the Sildish consonants (`romanSildishConsonants`). */
  function RomanSildishConsonants(): set<char>
  {
    ConsonantLettersOf(AllCases(), AllClusters)
  }

  /** The vowel letters, as the catalog determines them (see `VowelLetterSet`). */
  const VowelLetters: set<char> := {'y', 'i', 'e', 'a', 'o', 'u'}

  /** The consonant letters, as the catalog determines them (see `ConsonantLetterSet`). */
  const ConsonantLetters: set<char> := {'m', 'n', 'g', 'p', 'b', 't', 'd', 'c', 'f', 'v', 'h', 's', 'z', 'w', 'j', 'r', 'l', 'q', 'x'}

  /** Vowel romans are spelled with vowel letters only, consonant romans with
    * consonant letters only, and every roman has one or two letters. */
  lemma RomanSpelling(p: Phoneme)
    ensures 1 <= |p.Data().roman| <= 2
    ensures IsVowelKind(p.Data().graphemeSet) ==> forall c :: c in p.Data().roman ==> c in VowelLetters
    ensures IsConsonantKind(p.Data().graphemeSet) ==> forall c :: c in p.Data().roman ==> c in ConsonantLetters
  {
    RomanLength(p);
    VowelRomanSpelling(p);
    ConsonantRomanSpelling(p);
  }

  /** Every roman has one or two letters. */
  lemma RomanLength(p: Phoneme)
    ensures 1 <= |p.Data().roman| <= 2
  {
    match p
    case Y =>
    case I =>
    case E =>
    case A =>
    case O =>
    case U =>
    case Ei =>
    case Ae =>
    case Oi =>
    case Ui =>
    case Eu =>
    case Au =>
    case M =>
    case N =>
    case Ng =>
    case P =>
    case B =>
    case T =>
    case D =>
    case C =>
    case G =>
    case F =>
    case V =>
    case Th =>
    case Dh =>
    case S =>
    case Z =>
    case Sh =>
    case Zh =>
    case Ch =>
    case H =>
    case Hw =>
    case W =>
    case J =>
    case R =>
    case Rh =>
    case L =>
  }

  /** Vowel romans are spelled with vowel letters only. */
  lemma VowelRomanSpelling(p: Phoneme)
    ensures IsVowelKind(p.Data().graphemeSet) ==> forall c :: c in p.Data().roman ==> c in VowelLetters
  {
    match p
    case Y =>
    case I =>
    case E =>
    case A =>
    case O =>
    case U =>
    case Ei =>
    case Ae =>
    case Oi =>
    case Ui =>
    case Eu =>
    case Au =>
    case M =>
    case N =>
    case Ng =>
    case P =>
    case B =>
    case T =>
    case D =>
    case C =>
    case G =>
    case F =>
    case V =>
    case Th =>
    case Dh =>
    case S =>
    case Z =>
    case Sh =>
    case Zh =>
    case Ch =>
    case H =>
    case Hw =>
    case W =>
    case J =>
    case R =>
    case Rh =>
    case L =>
  }

  /** Consonant romans are spelled with consonant letters only. */
  lemma ConsonantRomanSpelling(p: Phoneme)
    ensures IsConsonantKind(p.Data().graphemeSet) ==> forall c :: c in p.Data().roman ==> c in ConsonantLetters
  {
    match p
    case Y =>
    case I =>
    case E =>
    case A =>
    case O =>
    case U =>
    case Ei =>
    case Ae =>
    case Oi =>
    case Ui =>
    case Eu =>
    case Au =>
    case M =>
    case N =>
    case Ng =>
    case P =>
    case B =>
    case T =>
    case D =>
    case C =>
    case G =>
    case F =>
    case V =>
    case Th =>
    case Dh =>
    case S =>
    case Z =>
    case Sh =>
    case Zh =>
    case Ch =>
    case H =>
    case Hw =>
    case W =>
    case J =>
    case R =>
    case Rh =>
    case L =>
  }

  /** Filtering with a predicate that nothing satisfies leaves nothing. */
  lemma {:induction false} FilterNone<T>(xs: seq<T>, keep: T -> bool)
    requires forall x :: !keep(x)
    ensures Filter(xs, keep) == []
  {
    if xs != [] {
      FilterNone(xs[1..], keep);
    }
  }

  lemma PhonemeLetter(cases: seq<Phoneme>, keep: Phoneme -> bool, p: Phoneme, c: char)
    requires p in cases && keep(p) && c in PhonemeRoman(p)
    ensures c in RomanLetters(Filter(cases, keep), PhonemeRoman)
  {
    FilterMembership(cases, keep, p);
    RomanLettersMembership(Filter(cases, keep), PhonemeRoman, c, p);
  }

  lemma ClusterLetter(clusters: seq<PhonemeCluster>, keep: PhonemeCluster -> bool, q: PhonemeCluster, c: char)
    requires q in clusters && keep(q) && c in ClusterRoman(q)
    ensures c in RomanLetters(Filter(clusters, keep), ClusterRoman)
  {
    FilterMembership(clusters, keep, q);
    RomanLettersMembership(Filter(clusters, keep), ClusterRoman, c, q);
  }

  /** In any complete listing of the catalog the vowel letters are y, i, e, a, o and u. */
  lemma VowelLettersOfListing(cases: seq<Phoneme>, clusters: seq<PhonemeCluster>, c: char)
    requires forall p: Phoneme :: p in cases
    ensures c in VowelLettersOf(cases, clusters) <==> c in VowelLetters
  {
    FilterNone(clusters, IsVowelCluster);
    if c in RomanLetters(Filter(cases, IsVowelPhoneme), PhonemeRoman) {
      var p := RomanLettersSource(Filter(cases, IsVowelPhoneme), PhonemeRoman, c);
      FilterMembership(cases, IsVowelPhoneme, p);
      RomanSpelling(p);
    }
    if c in VowelLetters {
    if c == 'y' {
      PhonemeLetter(cases, IsVowelPhoneme, Y, c);
    } else if c == 'i' {
      PhonemeLetter(cases, IsVowelPhoneme, I, c);
    } else if c == 'e' {
      PhonemeLetter(cases, IsVowelPhoneme, E, c);
    } else if c == 'a' {
      PhonemeLetter(cases, IsVowelPhoneme, A, c);
    } else if c == 'o' {
      PhonemeLetter(cases, IsVowelPhoneme, O, c);
    } else {
      PhonemeLetter(cases, IsVowelPhoneme, U, c);
    }
    }
  }

  /** Consonant romans are spelled with consonant letters. */
  lemma ConsonantLettersOfListingSound(cases: seq<Phoneme>, clusters: seq<PhonemeCluster>, c: char)
    requires c in ConsonantLettersOf(cases, clusters)
    ensures c in ConsonantLetters
  {
    if c in RomanLetters(Filter(cases, IsConsonantPhoneme), PhonemeRoman) {
      var p := RomanLettersSource(Filter(cases, IsConsonantPhoneme), PhonemeRoman, c);
      FilterMembership(cases, IsConsonantPhoneme, p);
      RomanSpelling(p);
    } else {
      var q := RomanLettersSource(Filter(clusters, IsConsonantCluster), ClusterRoman, c);
    }
  }

  lemma ConsonantLettersOfListing0(cases: seq<Phoneme>, clusters: seq<PhonemeCluster>, c: char)
    requires forall p: Phoneme :: p in cases
    requires forall q: PhonemeCluster :: q in clusters
    requires c in {'m', 'n', 'g', 'p', 'b'}
    ensures c in ConsonantLettersOf(cases, clusters)
  {
    if c == 'm' {
      PhonemeLetter(cases, IsConsonantPhoneme, M, c);
    } else if c == 'n' {
      PhonemeLetter(cases, IsConsonantPhoneme, N, c);
    } else if c == 'g' {
      PhonemeLetter(cases, IsConsonantPhoneme, G, c);
    } else if c == 'p' {
      PhonemeLetter(cases, IsConsonantPhoneme, P, c);
    } else {
      PhonemeLetter(cases, IsConsonantPhoneme, B, c);
    }
  }

  lemma ConsonantLettersOfListing1(cases: seq<Phoneme>, clusters: seq<PhonemeCluster>, c: char)
    requires forall p: Phoneme :: p in cases
    requires forall q: PhonemeCluster :: q in clusters
    requires c in {'t', 'd', 'c', 'f', 'v'}
    ensures c in ConsonantLettersOf(cases, clusters)
  {
    if c == 't' {
      PhonemeLetter(cases, IsConsonantPhoneme, T, c);
    } else if c == 'd' {
      PhonemeLetter(cases, IsConsonantPhoneme, D, c);
    } else if c == 'c' {
      PhonemeLetter(cases, IsConsonantPhoneme, C, c);
    } else if c == 'f' {
      PhonemeLetter(cases, IsConsonantPhoneme, F, c);
    } else {
      PhonemeLetter(cases, IsConsonantPhoneme, V, c);
    }
  }

  lemma ConsonantLettersOfListing2(cases: seq<Phoneme>, clusters: seq<PhonemeCluster>, c: char)
    requires forall p: Phoneme :: p in cases
    requires forall q: PhonemeCluster :: q in clusters
    requires c in {'h', 's', 'z', 'w', 'j'}
    ensures c in ConsonantLettersOf(cases, clusters)
  {
    if c == 'h' {
      PhonemeLetter(cases, IsConsonantPhoneme, H, c);
    } else if c == 's' {
      PhonemeLetter(cases, IsConsonantPhoneme, S, c);
    } else if c == 'z' {
      PhonemeLetter(cases, IsConsonantPhoneme, Z, c);
    } else if c == 'w' {
      PhonemeLetter(cases, IsConsonantPhoneme, W, c);
    } else {
      PhonemeLetter(cases, IsConsonantPhoneme, J, c);
    }
  }

  lemma ConsonantLettersOfListing3(cases: seq<Phoneme>, clusters: seq<PhonemeCluster>, c: char)
    requires forall p: Phoneme :: p in cases
    requires forall q: PhonemeCluster :: q in clusters
    requires c in {'r', 'l', 'q', 'x'}
    ensures c in ConsonantLettersOf(cases, clusters)
  {
    if c == 'r' {
      PhonemeLetter(cases, IsConsonantPhoneme, R, c);
    } else if c == 'l' {
      PhonemeLetter(cases, IsConsonantPhoneme, L, c);
    } else if c == 'q' {
      ClusterLetter(clusters, IsConsonantCluster, Q, c);
    } else {
      ClusterLetter(clusters, IsConsonantCluster, X, c);
    }
  }


  /** In any complete listing of the catalog the consonant letters are the
    * nineteen letters other than the vowels and k. */
  lemma ConsonantLettersOfListing(cases: seq<Phoneme>, clusters: seq<PhonemeCluster>, c: char)
    requires forall p: Phoneme :: p in cases
    requires forall q: PhonemeCluster :: q in clusters
    ensures c in ConsonantLettersOf(cases, clusters) <==> c in ConsonantLetters
  {
    if c in ConsonantLettersOf(cases, clusters) {
      ConsonantLettersOfListingSound(cases, clusters, c);
    }
    if c in {'m', 'n', 'g', 'p', 'b'} {
      ConsonantLettersOfListing0(cases, clusters, c);
    }
    if c in {'t', 'd', 'c', 'f', 'v'} {
      ConsonantLettersOfListing1(cases, clusters, c);
    }
    if c in {'h', 's', 'z', 'w', 'j'} {
      ConsonantLettersOfListing2(cases, clusters, c);
    }
    if c in {'r', 'l', 'q', 'x'} {
      ConsonantLettersOfListing3(cases, clusters, c);
    }
  }

  /** The vowel letters computed from the catalog are exactly y, i, e, a, o and u. */
  lemma VowelLetterSet()
    ensures RomanSildishVowels() == VowelLetters
  {
    forall p: Phoneme ensures p in AllCases() {
      AllCasesComplete(p);
    }
    forall c ensures c in RomanSildishVowels() <==> c in VowelLetters {
      VowelLettersOfListing(AllCases(), AllClusters, c);
    }
  }

  /** The consonant letters computed from the catalog are exactly the nineteen
    * letters other than the vowels and k. */
  lemma ConsonantLetterSet()
    ensures RomanSildishConsonants() == ConsonantLetters
  {
    forall p: Phoneme ensures p in AllCases() {
      AllCasesComplete(p);
    }
    forall q: PhonemeCluster ensures q in AllClusters {
      AllClustersComplete(q);
    }
    forall c ensures c in RomanSildishConsonants() <==> c in ConsonantLetters {
      ConsonantLettersOfListing(AllCases(), AllClusters, c);
    }
  }

  /** The vowel and the consonant letters have none in common. */
  lemma LettersDisjoint(c: char)
    ensures !(c in VowelLetters && c in ConsonantLetters)
  {
  }

  /** No letter of the catalog is both a vowel and a consonant. */
  lemma LetterSetsDisjoint(c: char)
    ensures !(c in RomanSildishVowels() && c in RomanSildishConsonants())
  {
    LettersDisjoint(c);
    VowelLetterSet();
    ConsonantLetterSet();
  }

  /** A reduplicable consonant is written with a single letter. */
  lemma ReduplicableRomanIsOneLetter(p: Phoneme)
    requires IsReduplicablePhoneme(p)
    ensures |p.Data().roman| == 1
  {
  }

  /** ASCII upper case. */
  predicate IsUpper(c: char)
  {
    'A' <= c <= 'Z'
  }

  /** ASCII lower-casing; every other character is left as it is. */
  function Lower(c: char): char
  {
    if IsUpper(c) then (c as int + 32) as char else c
  }

  /** Is `c` (in either case) the roman of a Sildish vowel? */
  predicate IsSildishVowel(c: char)
  {
    Lower(c) in VowelLetters
  }

  /** Is `c` (in either case) the roman of a Sildish consonant? */
  predicate IsSildishConsonant(c: char)
  {
    Lower(c) in ConsonantLetters
  }

  /** Is `c` (in either case) a Sildish letter? */
  predicate IsSildish(c: char)
  {
    IsSildishVowel(c) || IsSildishConsonant(c)
  }

  /** The Sildish letters are the lower-case ASCII letters other than k. */
  lemma LetterRange(c: char)
    ensures c in VowelLetters + ConsonantLetters <==> 'a' <= c <= 'z' && c != 'k'
  {
  }

  /** The classification tests the letter sets computed from the catalog. */
  lemma ClassificationSets(c: char)
    ensures IsSildishVowel(c) <==> Lower(c) in RomanSildishVowels()
    ensures IsSildishConsonant(c) <==> Lower(c) in RomanSildishConsonants()
  {
    VowelLetterSet();
    ConsonantLetterSet();
  }

  /** The Sildish letters are exactly the ASCII letters other than k, in either
    * case, none is both a vowel and a consonant, and lower-casing first
    * changes nothing. */
  lemma Classification(c: char)
    ensures IsSildish(c) <==> 'a' <= Lower(c) <= 'z' && Lower(c) != 'k'
    ensures !(IsSildishVowel(c) && IsSildishConsonant(c))
    ensures IsSildishVowel(Lower(c)) == IsSildishVowel(c)
    ensures IsSildishConsonant(Lower(c)) == IsSildishConsonant(c)
    ensures IsSildish(Lower(c)) == IsSildish(c)
  {
    LetterRange(Lower(c));
  }
}
