/**
 * The dictionary `photosByCountry`: the reduced photos grouped under their
 * trimmed country name, with the groups in order of first appearance and
 * the photos of each group in input order.
 */
module Grouping {
  import opened Text
  import opened Seqs
  import opened Photos
  import opened Country
  import opened OrderedDict

  /** The key a photo is filed under: its country name, trimmed. */
  function CountryKey(r: ReducedPhoto): string {
    Trim(r.country)
  }

  /** The key of every photo of `rs`, in input order. */
  function KeyList(rs: seq<ReducedPhoto>): (ks: seq<string>)
    ensures |ks| == |rs| && forall i :: 0 <= i < |rs| ==> ks[i] == CountryKey(rs[i])
  {
    seq(|rs|, i requires 0 <= i < |rs| => CountryKey(rs[i]))
  }

  /** The trimmed country names of `rs`, each once, in order of first appearance. */
  function Countries(rs: seq<ReducedPhoto>): seq<string> {
    Dedup(KeyList(rs))
  }

  /** The photos of `rs` filed under `k`, in input order. */
  function Members(rs: seq<ReducedPhoto>, k: string): seq<ReducedPhoto>
    decreases |rs|
  {
    if rs == [] then []
    else
      var last := rs[|rs| - 1];
      Members(rs[..|rs| - 1], k) + (if CountryKey(last) == k then [last] else [])
  }

  /** The total size of the groups named by `ks`. */
  function SumOfSizes(rs: seq<ReducedPhoto>, ks: seq<string>): nat
    decreases |ks|
  {
    if ks == [] then 0 else |Members(rs, ks[0])| + SumOfSizes(rs, ks[1..])
  }

  /**
   * The keys of `photosByCountry`: trimmed country names, each once, exactly
   * those that occur, in order of first appearance (a photo filed under a
   * later key is always preceded by one filed under each earlier key).
   */
  lemma CountriesAreTheKeys(rs: seq<ReducedPhoto>)
    ensures Distinct(Countries(rs))
    ensures forall k :: k in Countries(rs) <==> exists n :: 0 <= n < |rs| && CountryKey(rs[n]) == k
    ensures forall i, j, n :: 0 <= i < j < |Countries(rs)| && 0 <= n < |rs| && CountryKey(rs[n]) == Countries(rs)[j] ==>
      exists m :: 0 <= m < n && CountryKey(rs[m]) == Countries(rs)[i]
  {
    var ks := KeyList(rs);
    DedupDistinct(ks);
    forall k ensures k in Countries(rs) <==> exists n :: 0 <= n < |rs| && CountryKey(rs[n]) == k {
      DedupSameElements(ks, k);
    }
    forall i, j, n | 0 <= i < j < |Countries(rs)| && 0 <= n < |rs| && CountryKey(rs[n]) == Countries(rs)[j]
      ensures exists m :: 0 <= m < n && CountryKey(rs[m]) == Countries(rs)[i]
    {
      DedupFirstAppearance(ks, i, j, n);
      var m :| 0 <= m < n && ks[..n][m] == Countries(rs)[i];
      assert ks[m] == ks[..n][m];
      assert CountryKey(rs[m]) == Countries(rs)[i];
    }
  }

  /** Every member of a group is filed under its key and comes from the input. */
  lemma {:induction false} MembersBelong(rs: seq<ReducedPhoto>, k: string)
    ensures forall r :: r in Members(rs, k) ==> CountryKey(r) == k && r in rs
    decreases |rs|
  {
    if rs != [] {
      MembersBelong(rs[..|rs| - 1], k);
      forall r | r in rs[..|rs| - 1] ensures r in rs {
        var m :| 0 <= m < |rs| - 1 && rs[..|rs| - 1][m] == r;
        assert rs[m] == r;
      }
    }
  }

  /** A group is non-empty exactly when some photo is filed under its key. */
  lemma {:induction false} MembersNonEmpty(rs: seq<ReducedPhoto>, k: string)
    ensures |Members(rs, k)| > 0 <==> exists n :: 0 <= n < |rs| && CountryKey(rs[n]) == k
    decreases |rs|
  {
    if rs != [] {
      var init := rs[..|rs| - 1];
      MembersNonEmpty(init, k);
      assert forall n :: 0 <= n < |init| ==> init[n] == rs[n];
    }
  }

  /** Appending a photo adds it at the end of its own group and leaves the other groups alone. */
  lemma MembersSnoc(rs: seq<ReducedPhoto>, r: ReducedPhoto)
    ensures forall k :: Members(rs + [r], k) == Members(rs, k) + (if CountryKey(r) == k then [r] else [])
  {
    assert (rs + [r])[..|rs|] == rs;
  }

  /** A name that is not a key has an empty group. */
  lemma MembersOfUnknownKey(rs: seq<ReducedPhoto>, k: string)
    requires k !in Countries(rs)
    ensures Members(rs, k) == []
  {
    DedupSameElements(KeyList(rs), k);
    MembersNonEmpty(rs, k);
  }

  /** Appending a photo appends its key to the keys when, and only when, the key is new. */
  lemma CountriesSnoc(rs: seq<ReducedPhoto>, r: ReducedPhoto)
    ensures Countries(rs + [r]) ==
      if CountryKey(r) in Countries(rs) then Countries(rs) else Countries(rs) + [CountryKey(r)]
  {
    var ks := KeyList(rs + [r]);
    assert ks[..|rs|] == KeyList(rs);
  }

  /** Appending one photo adds one to the size of its own group and leaves the others alone. */
  lemma {:induction false} SumOfSizesAppend(rs: seq<ReducedPhoto>, r: ReducedPhoto, ks: seq<string>)
    requires Distinct(ks)
    ensures SumOfSizes(rs + [r], ks) == SumOfSizes(rs, ks) + (if CountryKey(r) in ks then 1 else 0)
    decreases |ks|
  {
    var rs' := rs + [r];
    assert rs'[..|rs'| - 1] == rs;
    if ks != [] {
      SumOfSizesAppend(rs, r, ks[1..]);
      assert CountryKey(r) in ks <==> CountryKey(r) == ks[0] || CountryKey(r) in ks[1..];
    }
  }

  /** The group sizes add up to the number of photos. */
  lemma {:induction false} GroupSizesSum(rs: seq<ReducedPhoto>)
    ensures SumOfSizes(rs, Countries(rs)) == |rs|
    decreases |rs|
  {
    if rs != [] {
      var n := |rs| - 1;
      var init, r := rs[..n], rs[n];
      assert rs == init + [r];
      GroupSizesSum(init);
      var ks := Countries(init);
      DedupDistinct(KeyList(init));
      SumOfSizesAppend(init, r, ks);
      CountriesSnoc(init, r);
      if CountryKey(r) !in ks {
        DedupSameElements(KeyList(init), CountryKey(r));
        MembersNonEmpty(init, CountryKey(r));
        SumOfSizesSnoc(rs, ks, CountryKey(r));
      }
    }
  }

  lemma {:induction false} SumOfSizesSnoc(rs: seq<ReducedPhoto>, ks: seq<string>, k: string)
    ensures SumOfSizes(rs, ks + [k]) == SumOfSizes(rs, ks) + |Members(rs, k)|
    decreases |ks|
  {
    if ks == [] {
      assert ks + [k] == [k];
    } else {
      assert (ks + [k])[1..] == ks[1..] + [k];
      SumOfSizesSnoc(rs, ks[1..], k);
    }
  }

  /**
   * `d` is `photosByCountry` for the photos `rs`: its keys are their trimmed
   * country names in order of first appearance, and each key holds its own
   * group object with exactly the photos filed under it, in input order.
   */
  ghost predicate Grouped(d: Dict<CountryPhotos>, rs: seq<ReducedPhoto>)
    reads d.entries.Values
  {
    && d.Valid()
    && d.keys == Countries(rs)
    && (forall k :: k in d.entries ==> d.entries[k].Valid() && d.entries[k].photos == Members(rs, k))
    && (forall k, k' :: k in d.entries && k' in d.entries && k != k' ==> d.entries[k] != d.entries[k'])
  }

  /**
   * The callback of the `reduce`: the photo joins the group of its trimmed
   * country name, or starts a new group under that name.
   */
  method FileUnder(groups: Dict<CountryPhotos>, r: ReducedPhoto, ghost seen: seq<ReducedPhoto>)
    returns (d: Dict<CountryPhotos>)
    requires Grouped(groups, seen)
    modifies groups.entries.Values
    ensures Grouped(d, seen + [r])
    ensures forall k :: k in d.entries ==> d.entries[k] in groups.entries.Values || fresh(d.entries[k])
  {
    var country := Trim(r.country);
    if country in groups.entries {
      JoinGroup(groups, r, seen);
      d := groups;
    } else {
      d := StartGroup(groups, r, seen);
    }
  }

  /** A photo whose trimmed country is already a key is appended to that group. */
  method JoinGroup(groups: Dict<CountryPhotos>, r: ReducedPhoto, ghost seen: seq<ReducedPhoto>)
    requires Grouped(groups, seen) && CountryKey(r) in groups.entries
    modifies groups.entries[CountryKey(r)]
    ensures Grouped(groups, seen + [r])
  {
    CountriesSnoc(seen, r);
    MembersSnoc(seen, r);
    var group := groups.entries[Trim(r.country)];
    group.AddPhoto(r);
    forall k | k in groups.entries
      ensures groups.entries[k].Valid() && groups.entries[k].photos == Members(seen + [r], k)
    {
      if k != CountryKey(r) {
        assert groups.entries[k] != group;
      }
    }
  }

  /** A photo whose trimmed country is not yet a key starts a new group under it. */
  method StartGroup(groups: Dict<CountryPhotos>, r: ReducedPhoto, ghost seen: seq<ReducedPhoto>)
    returns (d: Dict<CountryPhotos>)
    requires Grouped(groups, seen) && CountryKey(r) !in groups.entries
    ensures Grouped(d, seen + [r])
    ensures d.keys == groups.keys + [CountryKey(r)]
    ensures d.entries == groups.entries[CountryKey(r) := d.entries[CountryKey(r)]]
    ensures fresh(d.entries[CountryKey(r)])
  {
    CountriesSnoc(seen, r);
    MembersSnoc(seen, r);
    var country := Trim(r.country);
    var group := new CountryPhotos(r);
    MembersOfUnknownKey(seen, country);
    d := groups.Put(country, group);
    forall k | k in d.entries
      ensures d.entries[k].Valid() && d.entries[k].photos == Members(seen + [r], k)
    {
      if k != country {
        assert d.entries[k] == groups.entries[k];
      }
    }
  }

  /**
   * The `reduce` that builds `photosByCountry` from the reduced photos, with
   * a fresh object for every group.
   */
  method GroupByCountry(photos: seq<Photo>) returns (d: Dict<CountryPhotos>)
    ensures Grouped(d, ReduceAll(photos))
    ensures forall k :: k in d.entries ==> fresh(d.entries[k])
  {
    var rs := ReduceAll(photos);
    d := Empty();
    for i := 0 to |rs|
      invariant Grouped(d, rs[..i])
      invariant forall k :: k in d.entries ==> fresh(d.entries[k])
    {
      assert rs[..i + 1] == rs[..i] + [rs[i]];
      d := FileUnder(d, rs[i], rs[..i]);
    }
    assert rs[..|rs|] == rs;
  }
}
