/**
 * The export after the crawl: the photos are grouped by country, the two
 * re-ordered copies are made, and each of the three dictionaries is turned
 * into a KML document. The three documents differ only in the order of
 * their folders.
 */
module Export {
  import opened Text
  import opened Sorting
  import opened Photos
  import opened Country
  import opened OrderedDict
  import opened Grouping
  import opened Views
  import opened Kml

  /** The size of every group, by key. */
  function GroupSizes(rs: seq<ReducedPhoto>): map<string, nat> {
    map k | k in Countries(rs) :: |Members(rs, k)|
  }

  /** The folders for the groups named by `keys`, in that order. */
  function FoldersOf(keys: seq<string>, rs: seq<ReducedPhoto>): (folders: seq<string>)
    ensures |folders| == |keys|
    ensures forall i :: 0 <= i < |keys| ==> folders[i] == KmlFolder(keys[i], Placemarks(Members(rs, keys[i])))
  {
    seq(|keys|, i requires 0 <= i < |keys| => KmlFolder(keys[i], Placemarks(Members(rs, keys[i]))))
  }

  /** The folders of a dictionary whose groups are those of `rs` are the folders of its keys. */
  method FoldersOfGroups(d: Dict<CountryPhotos>, ghost rs: seq<ReducedPhoto>) returns (folders: seq<string>)
    requires d.Valid()
    requires forall k :: k in d.entries ==> d.entries[k].photos == Members(rs, k)
    ensures folders == FoldersOf(d.keys, rs)
  {
    folders := KmlFoldersFromPhotos(d);
  }

  /** The group sizes of a grouping of `rs`. */
  lemma CountsOfGrouping(d: Dict<CountryPhotos>, rs: seq<ReducedPhoto>)
    requires Grouped(d, rs)
    ensures Counts(d) == GroupSizes(rs)
  {
    forall k ensures k in Counts(d) <==> k in GroupSizes(rs) {
      assert k in d.entries <==> k in d.keys;
    }
    SameEntries(Counts(d), GroupSizes(rs));
  }

  /**
   * The three KML documents of the script, for the crawled photos: folders
   * in order of discovery, in alphabetical order and by decreasing size.
   * The by-count document needs names free of `||`.
   */
  method ExportKml(photos: seq<Photo>) returns (byDiscovery: string, byName: string, byCount: string)
    requires forall k :: k in Countries(ReduceAll(photos)) ==> !Contains(k, Separator)
    ensures var rs := ReduceAll(photos);
      && byDiscovery == KmlFileString(FoldersOf(Countries(rs), rs))
      && byName == KmlFileString(FoldersOf(Sort(Countries(rs), CodeUnitLess), rs))
      && byCount == KmlFileString(FoldersOf(ByCountOrder(Countries(rs), GroupSizes(rs)), rs))
  {
    ghost var rs := ReduceAll(photos);
    var photosByCountry := GroupByCountry(photos);
    var sortedPhotosByCountry := SortedByName(photosByCountry);
    var sortedPhotosByCount := SortedByCount(photosByCountry);
    CountsOfGrouping(photosByCountry, rs);
    var folders := FoldersOfGroups(photosByCountry, rs);
    byDiscovery := KmlFileString(folders);
    folders := FoldersOfGroups(sortedPhotosByCountry, rs);
    byName := KmlFileString(folders);
    folders := FoldersOfGroups(sortedPhotosByCount, rs);
    byCount := KmlFileString(folders);
  }
}
