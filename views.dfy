/**
 * The two re-ordered copies of `photosByCountry`: `sortedPhotosByCountry`,
 * keyed in alphabetical order, and `sortedPhotosByCount`, keyed by
 * decreasing group size. Both share the group objects of the original.
 */
module Views {
  import opened Wrappers
  import opened Text
  import opened Seqs
  import opened Sorting
  import opened Country
  import opened OrderedDict

  /** Removing repetitions from a sequence that has none changes nothing. */
  lemma {:induction false} DedupOfDistinct<T>(s: seq<T>)
    requires Distinct(s)
    ensures Dedup(s) == s
    decreases |s|
  {
    if s != [] {
      var init := s[..|s| - 1];
      DedupOfDistinct(init);
      assert s[|s| - 1] !in init;
      assert s == init + [s[|s| - 1]];
    }
  }

  /** A repetition-free permutation of the keys of `d` names exactly the keys of `d`, once each. */
  lemma PermutedKeys<V>(d: Dict<V>, names: seq<string>)
    requires d.Valid()
    requires multiset(names) == multiset(d.keys) && Distinct(names)
    ensures Dedup(names) == names
    ensures forall k :: k in names <==> k in d.entries
  {
    DedupOfDistinct(names);
    forall k ensures k in names <==> k in d.entries {
      assert k in names <==> k in multiset(names);
      assert k in d.keys <==> k in multiset(d.keys);
    }
  }

  /** Two maps with the same keys and the same value at each key are equal. */
  lemma SameEntries<V>(a: map<string, V>, b: map<string, V>)
    requires forall k :: k in a <==> k in b
    requires forall k :: k in a ==> a[k] == b[k]
    ensures a == b
  {
  }

  /**
   * The loop that copies `source` into a new dictionary key by key, in the
   * order `order` lists the keys: the copy holds exactly the listed keys,
   * each bound to the same value as in `source`, enumerated in order of
   * first mention.
   */
  method Rebuild<V>(source: Dict<V>, order: seq<string>) returns (v: Dict<V>)
    requires forall k :: k in order ==> k in source.entries
    ensures v.Valid()
    ensures v.keys == Dedup(order)
    ensures forall k :: k in v.entries <==> k in order
    ensures forall k :: k in v.entries ==> v.entries[k] == source.entries[k]
  {
    v := Empty();
    for i := 0 to |order|
      invariant v.Valid()
      invariant v.keys == Dedup(order[..i])
      invariant forall k :: k in v.entries <==> k in order[..i]
      invariant forall k :: k in v.entries ==> v.entries[k] == source.entries[k]
    {
      var key := order[i];
      var value := source.entries[key];
      assert order[..i + 1][..i] == order[..i];
      assert order[..i + 1] == order[..i] + [key];
      DedupSameElements(order[..i], key);
      v := v.Put(key, value);
    }
    assert order[..|order|] == order;
  }

  /**
   * `sortedPhotosByCountry`: the keys sorted by UTF-16 code units, each bound
   * to the very group object it has in `d`. The keys are distinct, so each
   * one comes strictly before every later one.
   */
  method SortedByName<V>(d: Dict<V>) returns (v: Dict<V>)
    requires d.Valid()
    ensures v.Valid()
    ensures v.entries == d.entries
    ensures v.keys == Sort(d.keys, CodeUnitLess)
    ensures multiset(v.keys) == multiset(d.keys)
    ensures forall i, j :: 0 <= i < j < |v.keys| ==> CodeUnitLess(v.keys[i], v.keys[j])
  {
    var names := Sort(d.keys, CodeUnitLess);
    CodeUnitLessIsStrict();
    SortSorted(d.keys, CodeUnitLess);
    PermutationOfDistinct(names, d.keys);
    forall i, j | 0 <= i < j < |names| ensures CodeUnitLess(names[i], names[j]) {
      CodeUnitLessTotal(names[i], names[j]);
    }
    PermutedKeys(d, names);
    v := Rebuild(d, names);
    SameEntries(v.entries, d.entries);
  }

  /** The separator between a count and a name. */
  const Separator: string := "||"

  /** What `split("||")[1]` gives a label without a second piece, used as a key. */
  const Undefined: string := "undefined"

  /** `${count}||${countryName}`. */
  function Label(count: nat, name: string): string {
    NatToString(count) + Separator + name
  }

  /**
   * Every label reads back: its count always, and its name as the text of
   * the name up to the name's own first `||`, if any.
   */
  lemma LabelReadsBack(count: nat, name: string)
    ensures LabelCount(Label(count, name)) == Some(count)
    ensures LabelName(Label(count, name)) == Split(name, Separator)[0]
  {
    var digits := NatToString(count);
    assert forall k :: 0 <= k < |digits| ==> digits[k] != Separator[0] by {
      assert AllDigits(digits);
    }
    SplitAfter(digits, Separator, name);
    NumberOfNatToString(count);
  }

  /**
   * `Number(label.split("||")[0])`, with None standing for NaN: the number
   * written before the first `||`, or the whole label when it has none.
   */
  function LabelCount(lbl: string): (count: Option<nat>)
  {
    Number(Split(lbl, Separator)[0])
  }

  /**
   * `label.split("||")[1]`: the text between the first and the second `||`;
   * a label without `||` gives the key "undefined".
   */
  function LabelName(lbl: string): (name: string)
  {
    var parts := Split(lbl, Separator);
    if |parts| >= 2 then parts[1] else Undefined
  }

  /**
   * What any text read as a label gives: without `||`, the count of the
   * whole text and the name "undefined"; with one, the count of the text
   * before the first `||` and the name up to the next `||`.
   */
  lemma LabelPieces(lbl: string)
    ensures !Contains(lbl, Separator) ==> LabelCount(lbl) == Number(lbl) && LabelName(lbl) == Undefined
    ensures Contains(lbl, Separator) ==>
      && LabelCount(lbl) == Number(Cut(lbl, Separator).value.0)
      && LabelName(lbl) == Split(Cut(lbl, Separator).value.1, Separator)[0]
  {
  }

  /** The name read back from any label holds no `||`. */
  lemma LabelNameFree(lbl: string)
    ensures !Contains(LabelName(lbl), Separator)
  {
    if |Split(lbl, Separator)| >= 2 {
      SecondPieceFree(lbl, Separator);
    } else {
      assert forall k :: 0 <= k < |Undefined| ==> Undefined[k] != Separator[0];
      NotContainsFree(Undefined, Separator);
    }
  }

  /**
   * The comparator `countA > countB ? -1 : 1` as a "goes before" relation:
   * a label goes first only when its count is strictly larger. Two labels
   * with the same count, or with a NaN count, never go before each other.
   */
  function CountBefore(a: string, b: string): (r: bool)
    ensures LabelCount(a) == LabelCount(b) ==> !r
    ensures LabelCount(a).None? || LabelCount(b).None? ==> !r
  {
    match (LabelCount(a), LabelCount(b))
    case (Some(x), Some(y)) => x > y
    case _ => false
  }

  lemma CountBeforeIsStrict()
    ensures StrictOrder(CountBefore)
  {
  }

  /** Splitting a text without the separator gives the text alone. */
  lemma SplitWithoutSeparator(s: string)
    requires !Contains(s, Separator)
    ensures Split(s, Separator) == [s]
  {
  }

  /**
   * The label of a count and a name that holds no `||` splits back into
   * the count and the name.
   */
  lemma LabelRoundTrip(n: nat, name: string)
    requires !Contains(name, Separator)
    ensures LabelCount(Label(n, name)) == Some(n)
    ensures LabelName(Label(n, name)) == name
  {
    LabelReadsBack(n, name);
    SplitWithoutSeparator(name);
  }

  /**
   * A name that holds `||` does not come back: only the part before its first
   * `||` does, whatever follows.
   */
  lemma LabelLosesSeparatedName(n: nat, a: string, b: string)
    requires forall k :: 0 <= k < |a| ==> a[k] != '|'
    ensures LabelName(Label(n, a + Separator + b)) == a
  {
    LabelReadsBack(n, a + Separator + b);
    SplitAfter(a, Separator, b);
  }

  /** The label of every key, in key order, with the counts read from `counts`. */
  function Labels(keys: seq<string>, counts: map<string, nat>): (ls: seq<string>)
    requires forall k :: k in keys ==> k in counts
    ensures |ls| == |keys|
    ensures forall m :: 0 <= m < |keys| ==> ls[m] == Label(counts[keys[m]], keys[m])
  {
    seq(|keys|, m requires 0 <= m < |keys| => Label(counts[keys[m]], keys[m]))
  }

  /** `sortedCountryNamesByCount`: the labels sorted by the comparator, mapped back to names. */
  function NamesByCount(labels: seq<string>): (names: seq<string>)
    ensures multiset(names) == multiset(MapSeq(LabelName, labels))
  {
    MapPreservesPermutation(LabelName, Sort(labels, CountBefore), labels);
    MapSeq(LabelName, Sort(labels, CountBefore))
  }

  /** The by-count order of `keys` under the group sizes `counts`. */
  function ByCountOrder(keys: seq<string>, counts: map<string, nat>): seq<string>
    requires forall k :: k in keys ==> k in counts
  {
    NamesByCount(Labels(keys, counts))
  }

  /** When no key holds `||`, every label reads back as its key and the key's count. */
  lemma LabelsReadBack(keys: seq<string>, counts: map<string, nat>)
    requires forall k :: k in keys ==> k in counts && !Contains(k, Separator)
    ensures var labels := Labels(keys, counts);
      && MapSeq(LabelName, labels) == keys
      && forall m :: 0 <= m < |labels| ==> LabelCount(labels[m]) == Some(counts[keys[m]])
  {
    var labels := Labels(keys, counts);
    forall m | 0 <= m < |labels|
      ensures MapSeq(LabelName, labels)[m] == keys[m]
      ensures LabelCount(labels[m]) == Some(counts[keys[m]])
    {
      LabelRoundTrip(counts[keys[m]], keys[m]);
      MapSeqAt(LabelName, labels, m);
    }
  }

  /** When no key holds `||`, the by-count order lists the same keys, each once. */
  lemma ByCountOrderIsPermutation(keys: seq<string>, counts: map<string, nat>)
    requires forall k :: k in keys ==> k in counts && !Contains(k, Separator)
    requires Distinct(keys)
    ensures multiset(ByCountOrder(keys, counts)) == multiset(keys)
    ensures Distinct(ByCountOrder(keys, counts))
  {
    var labels := Labels(keys, counts);
    LabelsReadBack(keys, counts);
    MapPreservesPermutation(LabelName, Sort(labels, CountBefore), labels);
    PermutationOfDistinct(ByCountOrder(keys, counts), keys);
  }

  /** Every sorted label is the label of the key it maps back to. */
  lemma SortedLabelsReadBack(keys: seq<string>, counts: map<string, nat>)
    requires forall k :: k in keys ==> k in counts && !Contains(k, Separator)
    ensures var sorted, names := Sort(Labels(keys, counts), CountBefore), ByCountOrder(keys, counts);
      forall p :: 0 <= p < |sorted| ==> names[p] in counts && LabelCount(sorted[p]) == Some(counts[names[p]])
  {
    var labels := Labels(keys, counts);
    var sorted := Sort(labels, CountBefore);
    var names := MapSeq(LabelName, sorted);
    assert names == ByCountOrder(keys, counts);
    LabelsReadBack(keys, counts);
    forall p | 0 <= p < |sorted|
      ensures names[p] in counts && LabelCount(sorted[p]) == Some(counts[names[p]])
    {
      assert sorted[p] in multiset(labels);
      var m :| 0 <= m < |labels| && labels[m] == sorted[p];
      MapSeqAt(LabelName, labels, m);
      MapSeqAt(LabelName, sorted, p);
      assert names[p] == keys[m];
    }
  }

  /** When no key holds `||`, the counts never increase along the by-count order. */
  lemma ByCountOrderNonIncreasing(keys: seq<string>, counts: map<string, nat>)
    requires forall k :: k in keys ==> k in counts && !Contains(k, Separator)
    ensures var names := ByCountOrder(keys, counts);
      forall i, j :: 0 <= i < j < |names| ==>
        names[i] in counts && names[j] in counts && counts[names[i]] >= counts[names[j]]
  {
    var sorted := Sort(Labels(keys, counts), CountBefore);
    var names := ByCountOrder(keys, counts);
    SortedLabelsReadBack(keys, counts);
    CountBeforeIsStrict();
    SortSorted(Labels(keys, counts), CountBefore);
    forall i, j | 0 <= i < j < |names| ensures counts[names[i]] >= counts[names[j]] {
      assert !CountBefore(sorted[j], sorted[i]);
      assert LabelCount(sorted[i]) == Some(counts[names[i]]);
      assert LabelCount(sorted[j]) == Some(counts[names[j]]);
    }
  }

  /**
   * When no key of `d` holds `||`, the by-count order names every key of
   * `d` exactly once, with counts that never increase.
   */
  lemma ByCountOrderOfDict<V>(d: Dict<V>, counts: map<string, nat>)
    requires d.Valid()
    requires forall k :: k in d.keys ==> k in counts && !Contains(k, Separator)
    ensures var names := ByCountOrder(d.keys, counts);
      && Dedup(names) == names
      && multiset(names) == multiset(d.keys)
      && (forall k :: k in names <==> k in d.entries)
      && forall i, j :: 0 <= i < j < |names| ==>
        names[i] in counts && names[j] in counts && counts[names[i]] >= counts[names[j]]
  {
    var names := ByCountOrder(d.keys, counts);
    ByCountOrderIsPermutation(d.keys, counts);
    ByCountOrderNonIncreasing(d.keys, counts);
    PermutedKeys(d, names);
  }

  /** How the labels of the three keys compare and read back. */
  lemma ThreeLabels(x: string, y: string, z: string, n: nat, m: nat)
    requires m < n
    requires !Contains(x, Separator) && !Contains(y, Separator) && !Contains(z, Separator)
    ensures var a, b, c := Label(n, x), Label(m, y), Label(n, z);
      && CountBefore(a, b) && !CountBefore(b, c) && !CountBefore(a, c)
      && LabelName(a) == x && LabelName(b) == y && LabelName(c) == z
  {
    LabelRoundTrip(n, x);
    LabelRoundTrip(m, y);
    LabelRoundTrip(n, z);
  }

  lemma LabelsOfThree(x: string, y: string, z: string, counts: map<string, nat>)
    requires x in counts && y in counts && z in counts
    ensures Labels([x, y, z], counts) == [Label(counts[x], x), Label(counts[y], y), Label(counts[z], z)]
  {
    var keys := [x, y, z];
    var ls := Labels(keys, counts);
    assert |ls| == 3;
    assert ls == [ls[0], ls[1], ls[2]];
    assert ls[0] == Label(counts[keys[0]], keys[0]);
    assert ls[1] == Label(counts[keys[1]], keys[1]);
    assert ls[2] == Label(counts[keys[2]], keys[2]);
  }

  /**
   * Groups of equal size end up in reverse order of discovery: when `x` and
   * `z` hold `n` photos each and `y`, discovered between them, holds fewer,
   * the by-count order is `z`, `x`, `y`.
   */
  lemma TiesInReverseDiscoveryOrder(x: string, y: string, z: string, counts: map<string, nat>)
    requires x in counts && y in counts && z in counts
    requires counts[x] == counts[z] && counts[y] < counts[x]
    requires !Contains(x, Separator) && !Contains(y, Separator) && !Contains(z, Separator)
    ensures ByCountOrder([x, y, z], counts) == [z, x, y]
  {
    var n, m := counts[x], counts[y];
    var a, b, c := Label(n, x), Label(m, y), Label(n, z);
    var labels := Labels([x, y, z], counts);
    assert labels == [a, b, c] by {
      LabelsOfThree(x, y, z, counts);
    }
    assert Sort(labels, CountBefore) == [c, a, b] by {
      ThreeLabels(x, y, z, n, m);
      SortThree(a, b, c, CountBefore);
    }
    assert MapSeq(LabelName, [c, a, b]) == [z, x, y] by {
      ThreeLabels(x, y, z, n, m);
      MapSeqThree(LabelName, c, a, b);
    }
  }

  /** The count of every group of `d`, by key. */
  ghost function Counts(d: Dict<CountryPhotos>): (counts: map<string, nat>)
    reads d.entries.Values
    ensures forall k :: k in d.entries ==> k in counts && counts[k] == d.entries[k].count
  {
    map k | k in d.entries :: d.entries[k].count
  }

  /** The loop that builds `countTocountryNames`: one label per key, in key order. */
  method CountLabels(d: Dict<CountryPhotos>) returns (labels: seq<string>)
    requires d.Valid()
    ensures labels == Labels(d.keys, Counts(d))
  {
    labels := [];
    for i := 0 to |d.keys|
      invariant labels == Labels(d.keys[..i], Counts(d))
    {
      var name := d.keys[i];
      assert d.keys[..i + 1] == d.keys[..i] + [name];
      labels := labels + [Label(d.entries[name].count, name)];
    }
    assert d.keys[..|d.keys|] == d.keys;
  }

  /**
   * `sortedPhotosByCount`: one `count||name` label per key, in key order;
   * the labels sorted by decreasing count; each label mapped back to its
   * name; the groups copied in that order. When no key holds `||`, the keys
   * come out as a permutation of the original keys, every key keeps its
   * group object, and the group sizes never increase along the keys.
   */
  method SortedByCount(d: Dict<CountryPhotos>) returns (v: Dict<CountryPhotos>)
    requires d.Valid()
    requires forall k :: k in d.keys ==> !Contains(k, Separator)
    ensures v.Valid()
    ensures v.entries == d.entries
    ensures v.keys == ByCountOrder(d.keys, Counts(d))
    ensures multiset(v.keys) == multiset(d.keys)
    ensures forall i, j :: 0 <= i < j < |v.keys| ==> v.entries[v.keys[i]].count >= v.entries[v.keys[j]].count
  {
    var labels := CountLabels(d);
    var names := NamesByCount(labels);
    ghost var counts := Counts(d);
    assert names == ByCountOrder(d.keys, counts);
    ByCountOrderOfDict(d, counts);
    v := Rebuild(d, names);
    SameEntries(v.entries, d.entries);
  }
}
