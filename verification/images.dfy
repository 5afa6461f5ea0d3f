/** The picture shown for a convenience-store product: the first entry of
    the hand-made override table whose key occurs in the product name, else
    the image URL of the record itself, else none. */
module Images {

  import opened Options
  import opened Text
  import opened Catalog

  datatype Override = Override(key: string, url: string)

  /** `CONVENIENCE_DRUG_IMAGES`, in insertion order, which is the order the
      lookup tries the keys in. */
  const Overrides: seq<Override> := [
    Override("판콜에이내복액", "https://www.dong-wha.co.kr/product/images/product/pancol_a.png"),
    Override("판피린티정", "https://www.donga-st.com/upload/product/20210216_105244_414.jpg"),
    Override("타이레놀정500밀리그람(아세트아미노펜)", "https://www.tylenol.co.kr/sites/tylenol_kr/files/styles/product_image/public/product-images/tylenol_500mg_prod_0.png"),
    Override("어린이부루펜시럽", "https://samil-pharm.com/img/product/brufen_syrup.jpg"),
    Override("베아제정", "https://www.daewoong.co.kr/images/product/otc/bease_img01.jpg"),
    Override("닥터베아제정", "https://www.daewoong.co.kr/images/product/otc/dr_bease_img01.jpg"),
    Override("훼스탈플러스정", "https://handok.co.kr/wp-content/uploads/2020/07/festal_plus.jpg"),
    Override("신신파스아렉스", "https://sinsin.com/img/product/arex_img.jpg")
  ]

  /** Entry `i` is the first entry from `k` on whose key occurs in `name`. */
  predicate FirstHit(table: seq<Override>, name: string, k: nat, i: nat) {
    k <= i < |table| && Contains(name, table[i].key)
    && forall j :: k <= j < i ==> !Contains(name, table[j].key)
  }

  /** The `for key, url in …: if key in name: break` scan, from entry `k`. */
  function FirstMatchFrom(table: seq<Override>, name: string, k: nat): (r: Option<nat>)
    requires k <= |table|
    ensures r.Some? ==> FirstHit(table, name, k, r.value)
    ensures r.None? <==> forall j :: k <= j < |table| ==> !Contains(name, table[j].key)
    decreases |table| - k
  {
    if k == |table| then None
    else if Contains(name, table[k].key) then Some(k)
    else FirstMatchFrom(table, name, k + 1)
  }

  /** `matched_img`: the URL of the first entry whose key occurs in `name`,
      or nothing when no key occurs. */
  function MatchedImage(name: string): (r: Option<string>)
    ensures r.None? <==> forall j :: 0 <= j < |Overrides| ==> !Contains(name, Overrides[j].key)
    ensures forall i: nat :: FirstHit(Overrides, name, 0, i) ==> r == Some(Overrides[i].url)
  {
    match FirstMatchFrom(Overrides, name, 0)
    case Some(i) => Some(Overrides[i].url)
    case None => None
  }

  /** The branch on `matched_img`: an override URL that is an empty string
      would count as no match; then the record's own URL, if present. */
  function Resolve(name: string, image: Option<string>): (r: Option<string>)
    ensures forall i: nat :: FirstHit(Overrides, name, 0, i) && Overrides[i].url != "" ==> r == Some(Overrides[i].url)
    ensures (forall j :: 0 <= j < |Overrides| ==> !Contains(name, Overrides[j].key)) ==> r == image
  {
    match MatchedImage(name)
    case Some(url) => if url != "" then Some(url) else image
    case None => image
  }


  /** The picture of a record in the convenience tab: the first matching
      entry's URL, else the record's own image URL, else none. */
  function RecordImage(d: DrugRecord): (r: Option<string>)
    ensures forall i: nat :: FirstHit(Overrides, d.name, 0, i) ==> r == Some(Overrides[i].url)
    ensures (forall j :: 0 <= j < |Overrides| ==> !Contains(d.name, Overrides[j].key)) ==> r == d.imageUrl
  {
    ResolveSpec(d.name, d.imageUrl, d.imageUrl);
    Resolve(d.name, d.imageUrl)
  }

  lemma FirstHitUnique(table: seq<Override>, name: string, k: nat, i: nat, i': nat)
    requires FirstHit(table, name, k, i) && FirstHit(table, name, k, i')
    ensures i == i'
  {
  }

  /** No override URL is empty, so the truthiness test on the match never
      falls through to the record's own image. */
  lemma OverrideUrlsNonEmpty()
    ensures forall i :: 0 <= i < |Overrides| ==> |Overrides[i].url| > 0
  {
  }

  /** The result is the URL of the first key, in table order, occurring in
      the name; the record's own image is used exactly when no key occurs;
      and there is no picture exactly when no key occurs and the record has
      no image. */
  lemma ResolveSpec(name: string, image: Option<string>, other: Option<string>)
    ensures forall i: nat :: FirstHit(Overrides, name, 0, i) ==> Resolve(name, image) == Some(Overrides[i].url)
    ensures (exists j :: 0 <= j < |Overrides| && Contains(name, Overrides[j].key))
              ==> Resolve(name, image) == Resolve(name, other)
    ensures Resolve(name, image).None? <==>
              (forall j :: 0 <= j < |Overrides| ==> !Contains(name, Overrides[j].key)) && image.None?
  {
    var m := FirstMatchFrom(Overrides, name, 0);
    if m.Some? {
      OverrideUrlsNonEmpty();
      assert Overrides[m.value].url != "";
      forall i: nat | FirstHit(Overrides, name, 0, i) ensures i == m.value {
        FirstHitUnique(Overrides, name, 0, i, m.value);
      }
    }
  }

  /** "닥터베아제정" contains both the line-14 and the line-15 keys; the scan
      stops at the earlier entry, so the picture is the one listed for
      "베아제정", whatever the record's own image. */
  lemma DoctorBeazeTakesEarlierKey(name: string, image: Option<string>)
    requires name == "닥터베아제정"
    ensures Contains(name, Overrides[4].key) && Contains(name, Overrides[5].key)
    ensures Resolve(name, image) == Some("https://www.daewoong.co.kr/images/product/otc/bease_img01.jpg")
  {
    var keys := Overrides;
    TooShortNotContained(name, keys[0].key);
    ContainsSkip(name, keys[1].key);
    ContainsSkip(name[1..], keys[1].key);
    TooShortNotContained(name[2..], keys[1].key);
    TooShortNotContained(name, keys[2].key);
    TooShortNotContained(name, keys[3].key);
    assert keys[4].key <= name[2..];
    assert Contains(name[1..], keys[4].key);
    assert keys[5].key <= name;
    assert FirstHit(Overrides, name, 0, 4);
    ResolveSpec(name, image, image);
  }

  /** The entry for "닥터베아제정" is dead: its key contains the key
      "베아제정" listed before it, so every name that holds the later key
      also holds the earlier one and the scan stops there first. */
  lemma DoctorBeazeEntryUnreachable(name: string)
    ensures FirstMatchFrom(Overrides, name, 0) != Some(5)
  {
    var keys := Overrides;
    if FirstMatchFrom(Overrides, name, 0) == Some(5) {
      assert keys[4].key <= keys[5].key[2..];
      assert Contains(keys[5].key[1..], keys[4].key);
      ContainsTrans(name, keys[5].key, keys[4].key);
      assert false;
    }
  }

  /** The table with the line-15 entry moved above the line-14 one; the
      lookup itself stays an ordered first match. */
  const ReorderedOverrides: seq<Override> :=
    [Overrides[0], Overrides[1], Overrides[2], Overrides[3],
     Overrides[5], Overrides[4], Overrides[6], Overrides[7]]

  /** Reordering the table is enough: with the more specific key listed
      first, the unchanged first-match scan gives "닥터베아제정" its own
      line-15 picture. */
  lemma ReorderedTableReachesLine15(name: string)
    requires name == "닥터베아제정"
    ensures FirstMatchFrom(ReorderedOverrides, name, 0) == Some(4)
    ensures ReorderedOverrides[4].url == "https://www.daewoong.co.kr/images/product/otc/dr_bease_img01.jpg"
  {
    var keys, t := Overrides, ReorderedOverrides;
    assert |t| == 8;
    assert forall k :: 0 <= k < 4 ==> t[k] == keys[k];
    assert t[4] == keys[5];
    TooShortNotContained(name, keys[0].key);
    ContainsSkip(name, keys[1].key);
    ContainsSkip(name[1..], keys[1].key);
    TooShortNotContained(name[2..], keys[1].key);
    TooShortNotContained(name, keys[2].key);
    TooShortNotContained(name, keys[3].key);
    assert keys[5].key <= name;
    assert FirstHit(t, name, 0, 4);
    var m := FirstMatchFrom(t, name, 0);
    FirstHitUnique(t, name, 0, m.value, 4);
  }

  /** `CONVENIENCE_DRUG_IMAGES` is a dict literal: eight entries whose keys
      are pairwise distinct. */
  lemma OverridesIsDict()
    ensures |Overrides| == 8
    ensures forall i, j :: 0 <= i < j < |Overrides| ==> Overrides[i].key != Overrides[j].key
  {
  }

  /** The reordered table holds exactly the entries of the table as written. */
  lemma ReorderedSameEntries()
    ensures multiset(ReorderedOverrides) == multiset(Overrides)
  {
    assert Overrides == ReorderedOverrides[..4] + [ReorderedOverrides[5], ReorderedOverrides[4]] + ReorderedOverrides[6..];
  }
}
