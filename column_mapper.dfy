/** The column mapper: from the header row of a sheet to the position of
    each recognised column, keyed by the slug of its title. */
module ColumnMapper {
  import opened PhpValues
  import opened Calendar
  import opened Slugs
  import opened RowWrapper

  /** The eight fixed field slugs the generator recognises. */
  const FieldKeys: seq<string> :=
    ["festival-name", "city", "country", "mm", "languages", "webpage", "facebook", "email"]

  /** The allow-list: the field slugs plus this year and next year. */
  function AllowedKeys(now: Now): (keys: seq<string>)
    ensures |keys| == 10
    ensures DecimalString(now.year) in keys && DecimalString(now.year + 1) in keys
  {
    FieldKeys + [DecimalString(now.year), DecimalString(now.year + 1)]
  }

  /** Every allowed key is a slug, so a header cell that reads exactly as the
      key (a year column titled "2025", say) is recognised. */
  lemma AllowedKeysAreMatchable(now: Now, k: string)
    requires k in AllowedKeys(now)
    ensures IsSlug(k) && Slug(k) == k
  {
    if k in FieldKeys {
      FieldKeyIsSlug(k);
    } else {
      assert k == DecimalString(now.year) || k == DecimalString(now.year + 1);
      assert AllDigits(k);
    }
    SlugOfSlug(k);
  }

  lemma FieldKeyIsSlug(k: string)
    requires k in FieldKeys
    ensures IsSlug(k)
  {
    if k == "festival-name" {
      JoinedWordsAreSlug("festival", "name");
      assert k == "festival" + "-" + "name";
    } else {
      assert k in ["city", "country", "mm", "languages", "webpage", "facebook", "email"];
      WordIsSlug(k);
    }
  }

  /** A non-empty run of slug characters is a slug. */
  lemma WordIsSlug(w: string)
    requires w != [] && forall i :: 0 <= i < |w| ==> 'a' <= w[i] <= 'z'
    ensures IsSlug(w)
  {
  }

  /** Two slug words joined by a dash form a slug. */
  lemma JoinedWordsAreSlug(first: string, second: string)
    requires first != [] && forall i :: 0 <= i < |first| ==> 'a' <= first[i] <= 'z'
    requires second != [] && forall i :: 0 <= i < |second| ==> 'a' <= second[i] <= 'z'
    ensures IsSlug(first + "-" + second)
  {
    var s := first + "-" + second;
    forall i | 0 <= i < |s| ensures (IsSlugChar(s[i]) || s[i] == '-') && (s[i] == '-' ==> i == |first|) {
      if i < |first| {
        assert s[i] == first[i];
      } else if i > |first| {
        assert s[i] == second[i - |first| - 1];
      }
    }
  }

  /** The slug of every header title, position by position. */
  function SlugifiedTitles(titles: seq<string>): (slugs: seq<string>)
    ensures |slugs| == |titles|
    ensures forall j :: 0 <= j < |titles| ==> slugs[j] == Slug(titles[j])
  {
    seq(|titles|, j requires 0 <= j < |titles| => Slug(titles[j]))
  }

  /** The mapping the loop has built after visiting `slugs`: each allowed
      slug goes to the last position that carries it. */
  function MapColumns(slugs: seq<string>, allowed: seq<string>): (m: Mappings)
    ensures forall k :: k in m ==> k in allowed && m[k] < |slugs| && slugs[m[k]] == k
    ensures forall j :: 0 <= j < |slugs| && slugs[j] in allowed ==> slugs[j] in m
    ensures forall j :: 0 <= j < |slugs| && slugs[j] in m ==> j <= m[slugs[j]]
    decreases |slugs|
  {
    if slugs == [] then map[]
    else
      var m := MapColumns(slugs[..|slugs| - 1], allowed);
      var last := slugs[|slugs| - 1];
      if last in allowed then m[last := |slugs| - 1] else m
  }

  /** The three properties above fix the mapping: any map with them is the
      one the loop builds. */
  lemma {:induction false} MapColumnsUnique(slugs: seq<string>, allowed: seq<string>, m: Mappings)
    requires forall k :: k in m ==> k in allowed && m[k] < |slugs| && slugs[m[k]] == k
    requires forall j :: 0 <= j < |slugs| && slugs[j] in allowed ==> slugs[j] in m
    requires forall j :: 0 <= j < |slugs| && slugs[j] in m ==> j <= m[slugs[j]]
    ensures m == MapColumns(slugs, allowed)
  {
    var built := MapColumns(slugs, allowed);
    forall k | k in m
      ensures k in built && built[k] == m[k]
    {
      assert slugs[m[k]] == k;
      assert m[k] <= built[k];
      assert slugs[built[k]] == k;
    }
    forall k | k in built
      ensures k in m
    {
      assert slugs[built[k]] == k;
    }
  }

  /** Visiting one more column adds or overwrites at most its own entry. */
  lemma MapColumnsExtend(slugs: seq<string>, allowed: seq<string>, i: nat)
    requires i < |slugs|
    ensures MapColumns(slugs[..i + 1], allowed)
         == if slugs[i] in allowed then MapColumns(slugs[..i], allowed)[slugs[i] := i] else MapColumns(slugs[..i], allowed)
  {
    assert slugs[..i + 1][..i] == slugs[..i];
  }

  /** `createColumnIndexMappings` as a value: the slug of each kept title
      mapped to its column. */
  function ColumnMapping(titles: seq<string>, now: Now): (m: Mappings)
    ensures forall k :: k in m ==> k in AllowedKeys(now) && m[k] < |titles| && Slug(titles[m[k]]) == k
    ensures forall j :: 0 <= j < |titles| && Slug(titles[j]) in AllowedKeys(now) ==> Slug(titles[j]) in m
    ensures forall j :: 0 <= j < |titles| && Slug(titles[j]) in m ==> j <= m[Slug(titles[j])]
  {
    MapColumns(SlugifiedTitles(titles), AllowedKeys(now))
  }

  /** `createColumnIndexMappings`: slug every title, then visit the columns
      in order, skipping titles outside the allow-list and overwriting the
      entry of a title seen before. */
  method CreateColumnIndexMappings(columnTitles: seq<string>, now: Now) returns (mappings: Mappings)
    ensures mappings == ColumnMapping(columnTitles, now)
  {
    var slugifiedTitles := SlugifiedTitles(columnTitles);
    var allowedKeys := AllowedKeys(now);
    mappings := map[];
    for columnIndex := 0 to |slugifiedTitles|
      invariant mappings == MapColumns(slugifiedTitles[..columnIndex], allowedKeys)
    {
      var slugifiedTitle := slugifiedTitles[columnIndex];
      MapColumnsExtend(slugifiedTitles, allowedKeys, columnIndex);
      if slugifiedTitle !in allowedKeys {
        continue;
      }
      mappings := mappings[slugifiedTitle := columnIndex];
    }
    assert slugifiedTitles[..|slugifiedTitles|] == slugifiedTitles;
  }

  /** A column whose title does not slug to an allowed key is ignored: no
      key is mapped to it. */
  lemma IgnoredTitleMapsNothing(titles: seq<string>, now: Now, j: nat)
    requires j < |titles| && Slug(titles[j]) !in AllowedKeys(now)
    ensures forall k :: k in ColumnMapping(titles, now) ==> ColumnMapping(titles, now)[k] != j
  {
  }

  /** When two titles slug to the same allowed key, the later column wins. */
  lemma LastOccurrenceWins(titles: seq<string>, now: Now, i: nat, j: nat)
    requires i < j < |titles|
    requires Slug(titles[i]) == Slug(titles[j]) && Slug(titles[j]) in AllowedKeys(now)
    ensures Slug(titles[i]) in ColumnMapping(titles, now)
    ensures ColumnMapping(titles, now)[Slug(titles[i])] != i
  {
  }
}
