/**
 * The production Roman-to-Sildish prefix tree: four sub-trees, keyed by roman
 * transliterations, merged into one. A reduplicable consonant is registered
 * twice: once under its roman with a plain consonant payload, and once under
 * its doubled roman with its full payload.
 */
module RomanToSildish {
  import opened Wrappers
  import opened PrefixTree
  import opened SoundSystem

  /** The phoneme written with the single letter `c`, if any. */
  function DecodeLetter(c: char): Option<Phoneme>
  {
    match c
    case 'y' => Some(Y)
    case 'i' => Some(I)
    case 'e' => Some(E)
    case 'a' => Some(A)
    case 'o' => Some(O)
    case 'u' => Some(U)
    case 'm' => Some(M)
    case 'n' => Some(N)
    case 'p' => Some(P)
    case 'b' => Some(B)
    case 't' => Some(T)
    case 'd' => Some(D)
    case 'c' => Some(C)
    case 'g' => Some(G)
    case 'f' => Some(F)
    case 'v' => Some(V)
    case 's' => Some(S)
    case 'z' => Some(Z)
    case 'h' => Some(H)
    case 'w' => Some(W)
    case 'j' => Some(J)
    case 'r' => Some(R)
    case 'l' => Some(L)
    case _ => None
  }

  /** The phoneme written with the two letters `a` and `b`, if any. */
  function DecodeDigraph(a: char, b: char): Option<Phoneme>
  {
    match (a, b)
    case ('e', 'i') => Some(Ei)
    case ('a', 'e') => Some(Ae)
    case ('o', 'i') => Some(Oi)
    case ('u', 'i') => Some(Ui)
    case ('e', 'u') => Some(Eu)
    case ('a', 'u') => Some(Au)
    case ('n', 'g') => Some(Ng)
    case ('t', 'h') => Some(Th)
    case ('d', 'h') => Some(Dh)
    case ('s', 'h') => Some(Sh)
    case ('z', 'h') => Some(Zh)
    case ('c', 'h') => Some(Ch)
    case ('h', 'w') => Some(Hw)
    case ('r', 'h') => Some(Rh)
    case _ => None
  }

  /** The phoneme whose roman is `s`, if any: an independent reading of the
    * roman column of the catalog. */
  function DecodeRoman(s: string): Option<Phoneme>
  {
    if |s| == 1 then DecodeLetter(s[0])
    else if |s| == 2 then DecodeDigraph(s[0], s[1])
    else None
  }

  /** The cluster whose roman is `s`, if any. */
  function DecodeCluster(s: string): Option<PhonemeCluster>
  {
    if s == "q" then Some(Q) else if s == "x" then Some(X) else None
  }

  /** Decoding a phoneme's roman gives the phoneme back. */
  lemma DecodeRomanInverse(p: Phoneme)
    ensures DecodeRoman(p.Data().roman) == Some(p)
  {
    match p
    case Y =>
    case I =>
    case E =>
    case A =>
    case O =>
    case U =>
    case Ei =>
    case Ae =>
    case Oi =>
    case Ui =>
    case Eu =>
    case Au =>
    case M =>
    case N =>
    case Ng =>
    case P =>
    case B =>
    case T =>
    case D =>
    case C =>
    case G =>
    case F =>
    case V =>
    case Th =>
    case Dh =>
    case S =>
    case Z =>
    case Sh =>
    case Zh =>
    case Ch =>
    case H =>
    case Hw =>
    case W =>
    case J =>
    case R =>
    case Rh =>
    case L =>
  }

  /** A decoded letter is the roman of the phoneme it decodes to. */
  lemma DecodeLetterSound(c: char)
    requires DecodeLetter(c).Some?
    ensures DecodeLetter(c).value.Data().roman == [c]
  {
  }

  /** A decoded digraph is the roman of the phoneme it decodes to. */
  lemma DecodeDigraphSound(a: char, b: char)
    requires DecodeDigraph(a, b).Some?
    ensures DecodeDigraph(a, b).value.Data().roman == [a, b]
  {
  }

  /** Decoding yields a phoneme with that roman. */
  lemma DecodeRomanSound(s: string)
    requires DecodeRoman(s).Some?
    ensures DecodeRoman(s).value.Data().roman == s
  {
    if |s| == 1 {
      DecodeLetterSound(s[0]);
      assert s == [s[0]];
    } else {
      DecodeDigraphSound(s[0], s[1]);
      assert s == [s[0], s[1]];
    }
  }

  /** Decoding a cluster's roman gives the cluster back, and conversely. */
  lemma DecodeClusterInverse(q: PhonemeCluster, s: string)
    ensures DecodeCluster(s) == Some(q) <==> q.Data().roman == s
  {
  }

  /** No roman is the roman of both a phoneme and a cluster. */
  lemma ClusterIsNotPhoneme(s: string)
    requires DecodeCluster(s).Some?
    ensures DecodeRoman(s) == None
  {
  }

  /** The single-letter payload of a consonant: a plain consonant with the
    * standard, initial and final glyphs (Transliteration.swift, the consonant
    * sub-tree). */
  function SingleForm(data: PhonemeData): (r: PhonemeData)
    requires IsConsonantKind(data.graphemeSet)
    ensures r.roman == data.roman && r.pronunciation == data.pronunciation
    ensures r.graphemeSet.Consonant?
    ensures r.graphemeSet.standard == data.graphemeSet.standard
    ensures r.graphemeSet.initial == data.graphemeSet.initial
    ensures r.graphemeSet.final == data.graphemeSet.final
  {
    match data.graphemeSet
    case Consonant(standard, initial, final) =>
      PhonemeData(data.roman, data.pronunciation, Consonant(standard, initial, final))
    case ReduplicableConsonant(standard, initial, final, _, _, _) =>
      PhonemeData(data.roman, data.pronunciation, Consonant(standard, initial, final))
  }

  /** What the prefix tree must hold under each key: a reference definition
    * written from the catalog, independently of how the tree is built. */
  function CatalogEntry(s: string): Option<PhonemeData>
  {
    match DecodeRoman(s)
    case Some(p) => Some(if IsVowelPhoneme(p) then p.Data() else SingleForm(p.Data()))
    case None =>
      match DecodeCluster(s)
      case Some(q) => Some(q.Data())
      case None => DoubledEntry(s)
  }

  /** The entry of a doubled reduplicable consonant such as "mm". */
  function DoubledEntry(s: string): Option<PhonemeData>
  {
    if |s| == 2 && s[0] == s[1] then
      match DecodeLetter(s[0])
      case Some(p) => if IsReduplicablePhoneme(p) then Some(p.Data()) else None
      case None => None
    else None
  }

  /** The vowel sub-tree's entries: each vowel under its roman. */
  function VowelEntries(vowels: seq<Phoneme>): seq<(string, PhonemeData)>
  {
    seq(|vowels|, i requires 0 <= i < |vowels| => (vowels[i].Data().roman, vowels[i].Data()))
  }

  /** The consonant sub-tree's entries: each consonant under its roman, as a
    * plain consonant. */
  function ConsonantEntries(consonants: seq<Phoneme>): seq<(string, PhonemeData)>
    requires forall i :: 0 <= i < |consonants| ==> IsConsonantPhoneme(consonants[i])
  {
    seq(|consonants|, i requires 0 <= i < |consonants| => ConsonantEntry(consonants[i]))
  }

  /** A consonant under its roman, as a plain consonant. */
  function ConsonantEntry(p: Phoneme): (string, PhonemeData)
    requires IsConsonantPhoneme(p)
  {
    (p.Data().roman, SingleForm(p.Data()))
  }

  /** The reduplicated sub-tree's entries: each reduplicable consonant under
    * its roman written twice. */
  function ReduplicatedEntries(consonants: seq<Phoneme>): seq<(string, PhonemeData)>
  {
    seq(|consonants|, i requires 0 <= i < |consonants| =>
      (consonants[i].Data().roman + consonants[i].Data().roman, consonants[i].Data()))
  }

  /** The cluster sub-tree's entries. */
  function ClusterEntries(clusters: seq<PhonemeCluster>): seq<(string, PhonemeData)>
  {
    seq(|clusters|, i requires 0 <= i < |clusters| => (clusters[i].Data().roman, clusters[i].Data()))
  }

  /** The production tree built from the given category listings, in the
    * order the four sub-trees are merged. */
  function TrieOf(vowels: seq<Phoneme>, consonants: seq<Phoneme>, reduplicable: seq<Phoneme>, clusters: seq<PhonemeCluster>)
    : Tree<char, PhonemeData>
    requires forall i :: 0 <= i < |consonants| ==> IsConsonantPhoneme(consonants[i])
  {
    Merge(
      Merge(
        Merge(BuildAll(VowelEntries(vowels)), BuildAll(ConsonantEntries(consonants)), KeepNew),
        BuildAll(ReduplicatedEntries(reduplicable)), KeepNew),
      BuildAll(ClusterEntries(clusters)), KeepNew)
  }

  /** The vowel sub-tree's part of `CatalogEntry`. */
  function VowelPart(s: string): Option<PhonemeData>
  {
    match DecodeRoman(s)
    case Some(p) => if IsVowelPhoneme(p) then Some(p.Data()) else None
    case None => None
  }

  /** The consonant sub-tree's part of `CatalogEntry`. */
  function ConsonantPart(s: string): Option<PhonemeData>
  {
    match DecodeRoman(s)
    case Some(p) => if IsConsonantPhoneme(p) then Some(SingleForm(p.Data())) else None
    case None => None
  }

  /** The cluster sub-tree's part of `CatalogEntry`. */
  function ClusterPart(s: string): Option<PhonemeData>
  {
    match DecodeCluster(s)
    case Some(q) => Some(q.Data())
    case None => None
  }

  /** No digraph doubles a letter. */
  lemma NoDoubledDigraph(a: char)
    ensures DecodeDigraph(a, a) == None
  {
  }

  /** At most one sub-tree holds any key, and `CatalogEntry` is whichever does. */
  lemma CatalogParts(s: string)
    ensures VowelPart(s) == None || ConsonantPart(s) == None
    ensures VowelPart(s) == None || DoubledEntry(s) == None
    ensures VowelPart(s) == None || ClusterPart(s) == None
    ensures ConsonantPart(s) == None || DoubledEntry(s) == None
    ensures ConsonantPart(s) == None || ClusterPart(s) == None
    ensures DoubledEntry(s) == None || ClusterPart(s) == None
    ensures CatalogEntry(s) ==
      Combine(Combine(Combine(VowelPart(s), ConsonantPart(s), KeepNew), DoubledEntry(s), KeepNew), ClusterPart(s), KeepNew)
  {
    if |s| == 2 {
      NoDoubledDigraph(s[0]);
    }
    if DecodeCluster(s).Some? {
      ClusterIsNotPhoneme(s);
    }
  }

  /** The vowel sub-tree, built from a listing of exactly the vowels and
    * diphthongs, answers `VowelPart`. */
  lemma GetVowelTree(vowels: seq<Phoneme>, s: string)
    requires forall i :: 0 <= i < |vowels| ==> IsVowelPhoneme(vowels[i])
    requires forall p :: IsVowelPhoneme(p) ==> p in vowels
    ensures Get(BuildAll(VowelEntries(vowels)), s) == VowelPart(s)
  {
    var entries := VowelEntries(vowels);
    GetBuildAll(entries, s);
    forall i | 0 <= i < |entries| && entries[i].0 == s ensures VowelPart(s) == Some(entries[i].1) {
      DecodeRomanInverse(vowels[i]);
    }
    if VowelPart(s).Some? {
      var p := DecodeRoman(s).value;
      DecodeRomanSound(s);
      var i :| 0 <= i < |vowels| && vowels[i] == p;
      assert entries[i] == (s, p.Data());
    }
    FindCharacterized(entries, s, VowelPart(s));
  }

  /** The consonant sub-tree, built from a listing of exactly the consonants,
    * answers `ConsonantPart`. */
  lemma GetConsonantTree(consonants: seq<Phoneme>, s: string)
    requires forall i :: 0 <= i < |consonants| ==> IsConsonantPhoneme(consonants[i])
    requires forall p :: IsConsonantPhoneme(p) ==> p in consonants
    ensures Get(BuildAll(ConsonantEntries(consonants)), s) == ConsonantPart(s)
  {
    var entries := ConsonantEntries(consonants);
    GetBuildAll(entries, s);
    forall i | 0 <= i < |entries| && entries[i].0 == s ensures ConsonantPart(s) == Some(entries[i].1) {
      DecodeRomanInverse(consonants[i]);
    }
    if ConsonantPart(s).Some? {
      var p := DecodeRoman(s).value;
      DecodeRomanSound(s);
      var i :| 0 <= i < |consonants| && consonants[i] == p;
      assert entries[i] == (s, SingleForm(p.Data()));
    }
    FindCharacterized(entries, s, ConsonantPart(s));
  }

  /** The reduplicated sub-tree, built from a listing of exactly the
    * reduplicable consonants, answers `DoubledEntry`. */
  lemma GetReduplicatedTree(reduplicable: seq<Phoneme>, s: string)
    requires forall i :: 0 <= i < |reduplicable| ==> IsReduplicablePhoneme(reduplicable[i])
    requires forall p :: IsReduplicablePhoneme(p) ==> p in reduplicable
    ensures Get(BuildAll(ReduplicatedEntries(reduplicable)), s) == DoubledEntry(s)
  {
    var entries := ReduplicatedEntries(reduplicable);
    GetBuildAll(entries, s);
    forall i | 0 <= i < |entries| && entries[i].0 == s ensures DoubledEntry(s) == Some(entries[i].1) {
      DoubledRoman(reduplicable[i]);
    }
    if DoubledEntry(s).Some? {
      var p := DoubledPhoneme(s);
      var i :| 0 <= i < |reduplicable| && reduplicable[i] == p;
      assert entries[i] == (s, p.Data());
    }
    FindCharacterized(entries, s, DoubledEntry(s));
  }

  /** A reduplicable consonant's doubled roman is its doubled entry. */
  lemma DoubledRoman(p: Phoneme)
    requires IsReduplicablePhoneme(p)
    ensures DoubledEntry(p.Data().roman + p.Data().roman) == Some(p.Data())
  {
    ReduplicableRomanIsOneLetter(p);
    DecodeRomanInverse(p);
    assert p.Data().roman + p.Data().roman == [p.Data().roman[0], p.Data().roman[0]];
  }

  /** A doubled entry is a reduplicable consonant's doubled roman. */
  lemma DoubledPhoneme(s: string) returns (p: Phoneme)
    requires DoubledEntry(s).Some?
    ensures IsReduplicablePhoneme(p) && s == p.Data().roman + p.Data().roman && DoubledEntry(s) == Some(p.Data())
  {
    p := DecodeLetter(s[0]).value;
    DecodeLetterSound(s[0]);
  }

  /** The cluster sub-tree, built from a listing of every cluster, answers
    * `ClusterPart`. */
  lemma GetClusterTree(clusters: seq<PhonemeCluster>, s: string)
    requires forall q: PhonemeCluster :: q in clusters
    ensures Get(BuildAll(ClusterEntries(clusters)), s) == ClusterPart(s)
  {
    var entries := ClusterEntries(clusters);
    GetBuildAll(entries, s);
    forall i | 0 <= i < |entries| && entries[i].0 == s ensures ClusterPart(s) == Some(entries[i].1) {
      DecodeClusterInverse(clusters[i], s);
    }
    if ClusterPart(s).Some? {
      var q := DecodeCluster(s).value;
      DecodeClusterInverse(q, s);
      assert q in clusters;
      var i :| 0 <= i < |clusters| && clusters[i] == q;
      assert entries[i] == (s, q.Data());
    }
    FindCharacterized(entries, s, ClusterPart(s));
  }

  /** Built from listings of the categories, the production tree answers
    * `CatalogEntry` for every key. */
  lemma GetTrieOf(vowels: seq<Phoneme>, consonants: seq<Phoneme>, reduplicable: seq<Phoneme>, clusters: seq<PhonemeCluster>, s: string)
    requires forall i :: 0 <= i < |vowels| ==> IsVowelPhoneme(vowels[i])
    requires forall p :: IsVowelPhoneme(p) ==> p in vowels
    requires forall i :: 0 <= i < |consonants| ==> IsConsonantPhoneme(consonants[i])
    requires forall p :: IsConsonantPhoneme(p) ==> p in consonants
    requires forall i :: 0 <= i < |reduplicable| ==> IsReduplicablePhoneme(reduplicable[i])
    requires forall p :: IsReduplicablePhoneme(p) ==> p in reduplicable
    requires forall q: PhonemeCluster :: q in clusters
    ensures Get(TrieOf(vowels, consonants, reduplicable, clusters), s) == CatalogEntry(s)
  {
    var v := BuildAll(VowelEntries(vowels));
    var c := BuildAll(ConsonantEntries(consonants));
    var r := BuildAll(ReduplicatedEntries(reduplicable));
    var q := BuildAll(ClusterEntries(clusters));
    GetMerge(Merge(Merge(v, c, KeepNew), r, KeepNew), q, KeepNew, s);
    GetMerge(Merge(v, c, KeepNew), r, KeepNew, s);
    GetMerge(v, c, KeepNew, s);
    GetVowelTree(vowels, s);
    GetConsonantTree(consonants, s);
    GetReduplicatedTree(reduplicable, s);
    GetClusterTree(clusters, s);
    CatalogParts(s);
  }

  /** The production tree (the source's `romanToSildish`): the vowel,
    * consonant, reduplicated-consonant and cluster sub-trees merged in that
    * order. */
  function RomanToSildishTrie(): Tree<char, PhonemeData>
  {
    ConsonantListing();
    TrieOf(AllVowels(), AllConsonants(), AllReduplicableConsonants(), AllClusters)
  }

  /** `AllVowels()` lists exactly the vowels and diphthongs. */
  lemma VowelListing()
    ensures forall i :: 0 <= i < |AllVowels()| ==> IsVowelPhoneme(AllVowels()[i])
    ensures forall p :: IsVowelPhoneme(p) ==> p in AllVowels()
  {
    forall p: Phoneme ensures p in AllVowels() <==> IsVowelPhoneme(p) {
      AllCasesComplete(p);
      FilterMembership(AllCases(), IsVowelPhoneme, p);
    }
  }

  /** `AllConsonants()` lists exactly the consonants. */
  lemma ConsonantListing()
    ensures forall i :: 0 <= i < |AllConsonants()| ==> IsConsonantPhoneme(AllConsonants()[i])
    ensures forall p :: IsConsonantPhoneme(p) ==> p in AllConsonants()
  {
    forall p: Phoneme ensures p in AllConsonants() <==> IsConsonantPhoneme(p) {
      AllCasesComplete(p);
      FilterMembership(AllCases(), IsConsonantPhoneme, p);
    }
  }

  /** `AllReduplicableConsonants()` lists exactly the reduplicable consonants. */
  lemma ReduplicableListing()
    ensures forall i :: 0 <= i < |AllReduplicableConsonants()| ==> IsReduplicablePhoneme(AllReduplicableConsonants()[i])
    ensures forall p :: IsReduplicablePhoneme(p) ==> p in AllReduplicableConsonants()
  {
    forall p: Phoneme ensures p in AllReduplicableConsonants() <==> IsReduplicablePhoneme(p) {
      AllCasesComplete(p);
      FilterMembership(AllCases(), IsReduplicablePhoneme, p);
    }
  }

  /** `AllClusters` lists every cluster. */
  lemma ClusterListing()
    ensures forall q: PhonemeCluster :: q in AllClusters
  {
    forall q: PhonemeCluster ensures q in AllClusters {
      AllClustersComplete(q);
    }
  }

  /** The production tree holds exactly the catalog: `CatalogEntry` for every key. */
  lemma RomanToSildishLookup(s: string)
    ensures Get(RomanToSildishTrie(), s) == CatalogEntry(s)
  {
    VowelListing();
    ConsonantListing();
    ReduplicableListing();
    ClusterListing();
    GetTrieOf(AllVowels(), AllConsonants(), AllReduplicableConsonants(), AllClusters, s);
  }

  /** Every roman of the catalog is a key: a vowel or diphthong holds its own
    * data, a consonant its plain-consonant form, a reduplicable consonant
    * written twice its full data. */
  lemma CatalogRoundTrip(p: Phoneme)
    ensures IsVowelPhoneme(p) ==> CatalogEntry(p.Data().roman) == Some(p.Data())
    ensures IsConsonantPhoneme(p) ==> CatalogEntry(p.Data().roman) == Some(SingleForm(p.Data()))
    ensures IsReduplicablePhoneme(p) ==> CatalogEntry(p.Data().roman + p.Data().roman) == Some(p.Data())
  {
    DecodeRomanInverse(p);
    if IsReduplicablePhoneme(p) {
      ReduplicableRomanIsOneLetter(p);
      var doubled := p.Data().roman + p.Data().roman;
      assert doubled == [p.Data().roman[0], p.Data().roman[0]];
      NoDoubledDigraph(doubled[0]);
    }
  }

  /** Every cluster's roman is a key holding the cluster's data. */
  lemma ClusterRoundTrip(q: PhonemeCluster)
    ensures CatalogEntry(q.Data().roman) == Some(q.Data())
  {
    DecodeClusterInverse(q, q.Data().roman);
    ClusterIsNotPhoneme(q.Data().roman);
  }

  /** The production tree answers every roman of the catalog, and every
    * doubled reduplicable consonant, with its entry. A plain consonant's
    * entry is its own data; a reduplicable one's single roman gives only its
    * plain-consonant form. */
  lemma TrieRoundTrip(p: Phoneme, q: PhonemeCluster)
    ensures IsVowelPhoneme(p) ==> Get(RomanToSildishTrie(), p.Data().roman) == Some(p.Data())
    ensures IsConsonantPhoneme(p) ==> Get(RomanToSildishTrie(), p.Data().roman) == Some(SingleForm(p.Data()))
    ensures IsNonreduplicablePhoneme(p) ==> Get(RomanToSildishTrie(), p.Data().roman) == Some(p.Data())
    ensures IsReduplicablePhoneme(p) ==> Get(RomanToSildishTrie(), p.Data().roman + p.Data().roman) == Some(p.Data())
    ensures Get(RomanToSildishTrie(), q.Data().roman) == Some(q.Data())
  {
    CatalogRoundTrip(p);
    ClusterRoundTrip(q);
    RomanToSildishLookup(p.Data().roman);
    RomanToSildishLookup(p.Data().roman + p.Data().roman);
    RomanToSildishLookup(q.Data().roman);
  }

  /** No key is held by two of the four sub-trees, so none of the three merges
    * ever calls its conflict resolver. */
  lemma SubTreesDisjoint(vowels: seq<Phoneme>, consonants: seq<Phoneme>, reduplicable: seq<Phoneme>, clusters: seq<PhonemeCluster>)
    requires forall i :: 0 <= i < |vowels| ==> IsVowelPhoneme(vowels[i])
    requires forall p :: IsVowelPhoneme(p) ==> p in vowels
    requires forall i :: 0 <= i < |consonants| ==> IsConsonantPhoneme(consonants[i])
    requires forall p :: IsConsonantPhoneme(p) ==> p in consonants
    requires forall i :: 0 <= i < |reduplicable| ==> IsReduplicablePhoneme(reduplicable[i])
    requires forall p :: IsReduplicablePhoneme(p) ==> p in reduplicable
    requires forall q: PhonemeCluster :: q in clusters
    ensures var v := BuildAll(VowelEntries(vowels));
      var c := BuildAll(ConsonantEntries(consonants));
      var r := BuildAll(ReduplicatedEntries(reduplicable));
      var q := BuildAll(ClusterEntries(clusters));
      Disjoint(v, c) && Disjoint(Merge(v, c, KeepNew), r) && Disjoint(Merge(Merge(v, c, KeepNew), r, KeepNew), q)
  {
    var v := BuildAll(VowelEntries(vowels));
    var c := BuildAll(ConsonantEntries(consonants));
    var r := BuildAll(ReduplicatedEntries(reduplicable));
    var q := BuildAll(ClusterEntries(clusters));
    forall s
      ensures Get(v, s) == None || Get(c, s) == None
      ensures Get(Merge(v, c, KeepNew), s) == None || Get(r, s) == None
      ensures Get(Merge(Merge(v, c, KeepNew), r, KeepNew), s) == None || Get(q, s) == None
    {
      GetMerge(Merge(v, c, KeepNew), r, KeepNew, s);
      GetMerge(v, c, KeepNew, s);
      GetVowelTree(vowels, s);
      GetConsonantTree(consonants, s);
      GetReduplicatedTree(reduplicable, s);
      GetClusterTree(clusters, s);
      CatalogParts(s);
    }
  }

  /** The production merges are conflict-free. */
  lemma ProductionSubTreesDisjoint()
    ensures forall i :: 0 <= i < |AllConsonants()| ==> IsConsonantPhoneme(AllConsonants()[i])
    ensures var v := BuildAll(VowelEntries(AllVowels()));
      var c := BuildAll(ConsonantEntries(AllConsonants()));
      var r := BuildAll(ReduplicatedEntries(AllReduplicableConsonants()));
      var q := BuildAll(ClusterEntries(AllClusters));
      Disjoint(v, c) && Disjoint(Merge(v, c, KeepNew), r) && Disjoint(Merge(Merge(v, c, KeepNew), r, KeepNew), q)
  {
    VowelListing();
    ConsonantListing();
    ReduplicableListing();
    ClusterListing();
    SubTreesDisjoint(AllVowels(), AllConsonants(), AllReduplicableConsonants(), AllClusters);
  }

  /** A listing without duplicates gives a dictionary without duplicate keys:
    * `Dictionary(uniqueKeysWithValues:)` does not trap on any sub-tree. */
  lemma KeysDistinct(vowels: seq<Phoneme>, consonants: seq<Phoneme>, reduplicable: seq<Phoneme>, clusters: seq<PhonemeCluster>)
    requires NoDuplicates(vowels) && NoDuplicates(consonants) && NoDuplicates(reduplicable) && NoDuplicates(clusters)
    requires forall i :: 0 <= i < |consonants| ==> IsConsonantPhoneme(consonants[i])
    requires forall i :: 0 <= i < |reduplicable| ==> IsReduplicablePhoneme(reduplicable[i])
    ensures DistinctKeys(VowelEntries(vowels))
    ensures DistinctKeys(ConsonantEntries(consonants))
    ensures DistinctKeys(ReduplicatedEntries(reduplicable))
    ensures DistinctKeys(ClusterEntries(clusters))
  {
    forall i, j | 0 <= i < j < |vowels| ensures vowels[i].Data().roman != vowels[j].Data().roman {
      DecodeRomanInverse(vowels[i]);
      DecodeRomanInverse(vowels[j]);
    }
    forall i, j | 0 <= i < j < |consonants| ensures consonants[i].Data().roman != consonants[j].Data().roman {
      DecodeRomanInverse(consonants[i]);
      DecodeRomanInverse(consonants[j]);
    }
    forall i, j | 0 <= i < j < |reduplicable|
      ensures reduplicable[i].Data().roman + reduplicable[i].Data().roman != reduplicable[j].Data().roman + reduplicable[j].Data().roman
    {
      var a, b := reduplicable[i].Data().roman, reduplicable[j].Data().roman;
      ReduplicableRomanIsOneLetter(reduplicable[i]);
      ReduplicableRomanIsOneLetter(reduplicable[j]);
      DecodeRomanInverse(reduplicable[i]);
      DecodeRomanInverse(reduplicable[j]);
      assert (a + a)[0] == a[0] && (b + b)[0] == b[0];
      assert a == [a[0]] && b == [b[0]];
    }
    forall i, j | 0 <= i < j < |clusters| ensures clusters[i].Data().roman != clusters[j].Data().roman {
      DecodeClusterInverse(clusters[i], clusters[j].Data().roman);
    }
  }

  /** The production sub-trees are built from dictionaries with unique keys. */
  lemma ProductionKeysDistinct()
    ensures forall i :: 0 <= i < |AllConsonants()| ==> IsConsonantPhoneme(AllConsonants()[i])
    ensures DistinctKeys(VowelEntries(AllVowels()))
    ensures DistinctKeys(ConsonantEntries(AllConsonants()))
    ensures DistinctKeys(ReduplicatedEntries(AllReduplicableConsonants()))
    ensures DistinctKeys(ClusterEntries(AllClusters))
  {
    AllCasesDistinct();
    FilterDistinct(AllCases(), IsVowelPhoneme);
    FilterDistinct(AllCases(), IsConsonantPhoneme);
    FilterDistinct(AllCases(), IsReduplicablePhoneme);
    ConsonantListing();
    ReduplicableListing();
    assert AllClusters[0] != AllClusters[1];
    KeysDistinct(AllVowels(), AllConsonants(), AllReduplicableConsonants(), AllClusters);
  }

  /** Swift's `max(by:)`: start from the first element and take each later
    * element that the current one is "in increasing order" with. */
  function MaxBy<T>(xs: seq<T>, less: (T, T) -> bool): Option<T>
  {
    if xs == [] then None else Some(MaxFrom(xs[0], xs[1..], less))
  }

  /** The fold behind `MaxBy`. */
  function MaxFrom<T>(current: T, rest: seq<T>, less: (T, T) -> bool): T
  {
    if rest == [] then current
    else MaxFrom(if less(current, rest[0]) then rest[0] else current, rest[1..], less)
  }

  /** A strict weak order, as `max(by:)` demands of its predicate. */
  ghost predicate StrictWeakOrder<T(!new)>(less: (T, T) -> bool)
  {
    (forall a :: !less(a, a))
    && (forall a, b, c :: less(a, b) && less(b, c) ==> less(a, c))
    && (forall a, b, c :: !less(a, b) && !less(b, c) ==> !less(a, c))
  }

  /** The fold ends on an element no element seen is greater than. */
  lemma {:induction false} MaxFromIsMaximal<T(!new)>(current: T, rest: seq<T>, less: (T, T) -> bool)
    requires StrictWeakOrder(less)
    ensures var m := MaxFrom(current, rest, less);
      (m == current || m in rest) && !less(m, current) && forall x :: x in rest ==> !less(m, x)
  {
    if rest != [] {
      var next := if less(current, rest[0]) then rest[0] else current;
      MaxFromIsMaximal(next, rest[1..], less);
      assert rest == [rest[0]] + rest[1..];
    }
  }

  /** `MaxBy` answers an element of a non-empty sequence that no element is
    * greater than, and nothing for the empty sequence. */
  lemma MaxByIsMaximal<T(!new)>(xs: seq<T>, less: (T, T) -> bool)
    requires StrictWeakOrder(less)
    ensures MaxBy(xs, less).Some? <==> xs != []
    ensures MaxBy(xs, less).Some? ==> MaxBy(xs, less).value in xs && forall x :: x in xs ==> !less(MaxBy(xs, less).value, x)
  {
    if xs != [] {
      MaxFromIsMaximal(xs[0], xs[1..], less);
      assert xs == [xs[0]] + xs[1..];
    }
  }

  /** Comparison by roman length, as `longestRomanVowel` writes it. */
  predicate ShorterRoman(a: Phoneme, b: Phoneme)
  {
    |a.Data().roman| < |b.Data().roman|
  }

  /** The reversed comparison `longestRomanConsonant` writes. */
  predicate LongerRoman(a: Phoneme, b: Phoneme)
  {
    |a.Data().roman| > |b.Data().roman|
  }

  /** Comparing by length is a strict weak order, either way round. */
  lemma RomanLengthOrders()
    ensures StrictWeakOrder(ShorterRoman)
    ensures StrictWeakOrder(LongerRoman)
  {
  }

  /** `longestRomanVowel`: the roman length of the vowel that `max(by:)`
    * selects. */
  function LongestRomanVowel(): nat
  {
    VowelListing();
    assert IsVowelPhoneme(Y);
    |MaxBy(AllVowels(), ShorterRoman).value.Data().roman|
  }

  /** `longestRomanConsonant`: the roman length of the consonant that
    * `max(by:)` selects with the reversed comparison. */
  function LongestRomanConsonant(): nat
  {
    ConsonantListing();
    assert IsConsonantPhoneme(M);
    |MaxBy(AllConsonants(), LongerRoman).value.Data().roman|
  }

  /** Over any listing of exactly the vowels, `max(by:)` on roman length
    * selects a two-letter roman. */
  lemma LongestVowelOf(vowels: seq<Phoneme>)
    requires forall i :: 0 <= i < |vowels| ==> IsVowelPhoneme(vowels[i])
    requires forall p :: IsVowelPhoneme(p) ==> p in vowels
    ensures MaxBy(vowels, ShorterRoman).Some? && |MaxBy(vowels, ShorterRoman).value.Data().roman| == 2
  {
    RomanLengthOrders();
    assert IsVowelPhoneme(Ae);
    MaxByIsMaximal(vowels, ShorterRoman);
    var m := MaxBy(vowels, ShorterRoman).value;
    RomanSpelling(m);
    assert !ShorterRoman(m, Ae);
  }

  /** Over any listing of exactly the consonants, `max(by:)` with the reversed
    * comparison selects a one-letter roman. */
  lemma ShortestConsonantOf(consonants: seq<Phoneme>)
    requires forall i :: 0 <= i < |consonants| ==> IsConsonantPhoneme(consonants[i])
    requires forall p :: IsConsonantPhoneme(p) ==> p in consonants
    ensures MaxBy(consonants, LongerRoman).Some? && |MaxBy(consonants, LongerRoman).value.Data().roman| == 1
  {
    RomanLengthOrders();
    assert IsConsonantPhoneme(M);
    MaxByIsMaximal(consonants, LongerRoman);
    var m := MaxBy(consonants, LongerRoman).value;
    RomanSpelling(m);
    assert !LongerRoman(m, M);
  }

  /** The longest vowel roman has two letters. */
  lemma LongestRomanVowelIsTwo()
    ensures LongestRomanVowel() == 2
  {
    VowelListing();
    LongestVowelOf(AllVowels());
  }

  /** The reversed comparison selects a shortest consonant roman, which has
    * one letter, not the longest. */
  lemma LongestRomanConsonantIsOne()
    ensures LongestRomanConsonant() == 1
  {
    ConsonantListing();
    ShortestConsonantOf(AllConsonants());
  }

  /** The reversed comparison misses the two-letter consonant romans: "sh"
    * is longer than the length it reports. */
  lemma ReversedComparisonMissesLongest()
    ensures IsConsonantPhoneme(Sh) && LongestRomanConsonant() < |Sh.Data().roman|
  {
    assert IsConsonantPhoneme(Sh) && |Sh.Data().roman| == 2;
    LongestRomanConsonantIsOne();
  }

  /** What `longestRomanConsonant` is evidently meant to be: the roman length
    * of the consonant selected with the comparison `longestRomanVowel` uses. */
  function IntendedLongestRomanConsonant(): nat
  {
    ConsonantListing();
    LongestConsonantOf(AllConsonants());
    |MaxBy(AllConsonants(), ShorterRoman).value.Data().roman|
  }

  /** Over any listing of exactly the consonants, `max(by:)` on roman length
    * selects a roman no consonant roman is longer than, of two letters. */
  lemma LongestConsonantOf(consonants: seq<Phoneme>)
    requires forall i :: 0 <= i < |consonants| ==> IsConsonantPhoneme(consonants[i])
    requires forall p :: IsConsonantPhoneme(p) ==> p in consonants
    ensures MaxBy(consonants, ShorterRoman).Some?
    ensures |MaxBy(consonants, ShorterRoman).value.Data().roman| == 2
    ensures forall p :: IsConsonantPhoneme(p) ==> |p.Data().roman| <= |MaxBy(consonants, ShorterRoman).value.Data().roman|
  {
    RomanLengthOrders();
    assert IsConsonantPhoneme(Sh);
    MaxByIsMaximal(consonants, ShorterRoman);
    var m := MaxBy(consonants, ShorterRoman).value;
    RomanSpelling(m);
    assert !ShorterRoman(m, Sh);
  }

  /** The intended constant is the length of a longest consonant roman: two. */
  lemma IntendedLongestRomanConsonantIsLongest()
    ensures IntendedLongestRomanConsonant() == 2
    ensures forall p :: IsConsonantPhoneme(p) ==> |p.Data().roman| <= IntendedLongestRomanConsonant()
  {
    ConsonantListing();
    LongestConsonantOf(AllConsonants());
  }

  /** Every key of the catalog has one or two letters. */
  lemma KeyLength(s: string)
    requires CatalogEntry(s).Some?
    ensures 1 <= |s| <= 2
  {
  }

  /** Every Sildish letter is on its own a key. */
  lemma LetterIsKey(c: char)
    requires c in VowelLetters + ConsonantLetters
    ensures CatalogEntry([c]).Some?
  {
    if c == 'q' || c == 'x' {
      assert DecodeCluster([c]).Some?;
    } else {
      assert DecodeLetter(c).Some?;
    }
  }

  /** A key starting with a vowel letter holds a vowel or a diphthong. */
  lemma VowelKeyIsVowel(s: string)
    requires CatalogEntry(s).Some? && s[0] in VowelLetters
    ensures IsVowelKind(CatalogEntry(s).value.graphemeSet)
  {
    KeyLength(s);
    if DecodeRoman(s).Some? {
      var p := DecodeRoman(s).value;
      DecodeRomanSound(s);
      RomanSpelling(p);
      assert s[0] in p.Data().roman;
    }
  }
}
