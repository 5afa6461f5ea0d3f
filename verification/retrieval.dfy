/** The symptom search of `main`: the records whose efficacy text mentions
    the chosen symptom, split into those on sale at a convenience store and
    those sold only at a pharmacy. */
module Retrieval {

  import opened Text
  import opened Selection
  import opened Catalog

  /** The fixed vocabulary of the symptom picker, in its display order. */
  datatype Symptom =
    | Headache | Toothache | MenstrualPain | MusclePain
    | Indigestion | Cold | Fever | Bruise

  /** The Korean word the picker shows and the search looks for. */
  function Token(s: Symptom): (t: string)
    ensures |t| > 0 && Hangul(t)
  {
    match s
    case Headache => "두통"
    case Toothache => "치통"
    case MenstrualPain => "생리통"
    case MusclePain => "근육통"
    case Indigestion => "소화불량"
    case Cold => "감기"
    case Fever => "발열"
    case Bruise => "타박상"
  }

  /** The eight picker entries are eight different words. */
  lemma TokensDistinct(s: Symptom, s': Symptom)
    ensures Token(s) == Token(s') <==> s == s'
  {
  }

  /** The purchase-channel word that marks a convenience-store product. */
  const ConvenienceMarker: string := "편의점"

  /** Every character is a precomposed Hangul syllable. */
  predicate Hangul(s: string) {
    forall i :: 0 <= i < |s| ==> '\U{AC00}' <= s[i] <= '\U{D7A3}'
  }

  /** Characters with a meaning in a Python regular expression. */
  predicate RegexLiteral(s: string) {
    forall i :: 0 <= i < |s| ==> s[i] !in ".^$*+?{}[]\\|()"
  }

  lemma HangulIsLiteral(s: string)
    requires Hangul(s)
    ensures RegexLiteral(s)
  {
  }

  /** `str.contains` takes its argument as a regular expression; every
      vocabulary word and the channel marker are plain Hangul words, so the
      match is plain substring containment. */
  lemma PatternsAreLiteral(s: Symptom)
    ensures RegexLiteral(Token(s)) && RegexLiteral(ConvenienceMarker)
  {
    assert Hangul(Token(s)) && Hangul(ConvenienceMarker);
    HangulIsLiteral(Token(s));
    HangulIsLiteral(ConvenienceMarker);
  }

  predicate Treats(sym: Symptom, d: DrugRecord) {
    Contains(d.efficacy, Token(sym))
  }

  predicate AtConvenienceStore(d: DrugRecord) {
    Contains(d.channel, ConvenienceMarker)
  }

  /** The search outcome: the two tabs and the reported count. */
  datatype SearchResult = SearchResult(
    convenience: seq<DrugRecord>,
    pharmacy: seq<DrugRecord>,
    total: nat)

  /** `recommendations`: the records that mention the symptom, in table order. */
  function Matches(table: seq<DrugRecord>, sym: Symptom): (m: seq<DrugRecord>)
    ensures forall d :: d in m <==> d in table && Treats(sym, d)
  {
    Filter(table, d => Treats(sym, d))
  }

  /** The search: the matches split by the convenience-store marker. The two
      tabs hold every match between them, each exactly once, and the count
      shown is the sum of the two tab sizes. */
  function Search(table: seq<DrugRecord>, sym: Symptom): (r: SearchResult)
    ensures r.total == |r.convenience| + |r.pharmacy|
    ensures forall d :: d in r.convenience <==> d in table && Treats(sym, d) && AtConvenienceStore(d)
    ensures forall d :: d in r.pharmacy <==> d in table && Treats(sym, d) && !AtConvenienceStore(d)
    ensures multiset(r.convenience) + multiset(r.pharmacy) == multiset(Matches(table, sym))
  {
    var m := Matches(table, sym);
    var conv := Filter(m, AtConvenienceStore);
    var pharm := Filter(m, d => !AtConvenienceStore(d));
    FilterPartition(m, AtConvenienceStore, d => !AtConvenienceStore(d));
    assert |multiset(conv) + multiset(pharm)| == |m|;
    SearchResult(conv, pharm, |m|)
  }

  /** The matches are the table records that mention the symptom, read in
      table order: match `k` is the table record at the `k`-th such index. */
  lemma MatchesInTableOrder(table: seq<DrugRecord>, sym: Symptom)
    ensures |Matches(table, sym)| == |Positions(table, d => Treats(sym, d))|
    ensures forall k :: 0 <= k < |Matches(table, sym)| ==>
              Matches(table, sym)[k] == table[Positions(table, d => Treats(sym, d))[k]]
  {
    FilterAtPositions(table, d => Treats(sym, d));
  }

  /** Each tab lists its records in table order: the convenience tab is the
      table read at the indices of the convenience-store matches, and the
      pharmacy tab likewise at the indices of the other matches. */
  lemma TabsInTableOrder(table: seq<DrugRecord>, sym: Symptom)
    ensures var r, ps := Search(table, sym), Positions(table, d => Treats(sym, d) && AtConvenienceStore(d));
      |r.convenience| == |ps| && forall k :: 0 <= k < |ps| ==> r.convenience[k] == table[ps[k]]
    ensures var r, ps := Search(table, sym), Positions(table, d => Treats(sym, d) && !AtConvenienceStore(d));
      |r.pharmacy| == |ps| && forall k :: 0 <= k < |ps| ==> r.pharmacy[k] == table[ps[k]]
  {
    var treats := d => Treats(sym, d);
    var conv := d => Treats(sym, d) && AtConvenienceStore(d);
    var pharm := d => Treats(sym, d) && !AtConvenienceStore(d);
    FilterFilter(table, treats, AtConvenienceStore, conv);
    FilterAtPositions(table, conv);
    FilterFilter(table, treats, d => !AtConvenienceStore(d), pharm);
    FilterAtPositions(table, pharm);
  }

  /** Without a single record mentioning the symptom, both tabs are empty and
      the count is zero; in particular for an empty table. */
  lemma NoMatchNoResult(table: seq<DrugRecord>, sym: Symptom)
    requires forall d :: d in table ==> !Treats(sym, d)
    ensures Search(table, sym) == SearchResult([], [], 0)
  {
  }

  /** A headache remedy sold at both a convenience store and a pharmacy
      lands in the convenience tab with a count of one. */
  lemma ScenarioConvenience(d: DrugRecord)
    requires d.efficacy == "두통,치통" && d.channel == "편의점, 약국"
    ensures Search([d], Headache) == SearchResult([d], [], 1)
  {
    assert Token(Headache) <= d.efficacy;
    assert ConvenienceMarker <= d.channel;
    var r := Search([d], Headache);
    assert d in r.convenience && d !in r.pharmacy;
    SingleMember(r.convenience, d);
  }

  /** A headache remedy sold only at pharmacies lands in the pharmacy tab. */
  lemma ScenarioPharmacyOnly(d: DrugRecord)
    requires d.efficacy == "두통" && d.channel == "약국 전용"
    ensures Search([d], Headache) == SearchResult([], [d], 1)
  {
    assert Token(Headache) <= d.efficacy;
    NotConvenience(d.channel);
    var r := Search([d], Headache);
    assert d in r.pharmacy && d !in r.convenience;
    SingleMember(r.pharmacy, d);
  }

  lemma NotConvenience(c: string)
    requires c == "약국 전용"
    ensures !Contains(c, ConvenienceMarker)
  {
    ContainsSkip(c, ConvenienceMarker);
    ContainsSkip(c[1..], ConvenienceMarker);
    ContainsSkip(c[2..], ConvenienceMarker);
    TooShortNotContained(c[3..], ConvenienceMarker);
  }

  /** A sequence with at most one element, that element being `d`. */
  lemma SingleMember(s: seq<DrugRecord>, d: DrugRecord)
    requires |s| <= 1 && d in s
    ensures s == [d]
  {
  }
}
