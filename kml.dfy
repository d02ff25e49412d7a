/**
 * The KML export: one placemark per photo, one folder per country, and the
 * document around the folders. Every builder is a template with fixed tabs
 * and line feeds; names and titles are inserted as they are, unescaped.
 * Each template comes with a reader that takes its text apart again.
 */
module Kml {
  import opened Wrappers
  import opened Text
  import opened Photos
  import opened Country
  import opened OrderedDict

  /** The document up to the folders. */
  const Header: string :=
    "<?xml version=\"1.0\" encoding=\"UTF-8\"?>\n"
    + "\t\t\t<kml xmlns=\"http://www.opengis.net/kml/2.2\" xmlns:gx=\"http://www.google.com/kml/ext/2.2\" "
    + "xmlns:kml=\"http://www.opengis.net/kml/2.2\" xmlns:atom=\"http://www.w3.org/2005/Atom\">\n"
    + "\t\t\t<Folder>\n"
    + "\t\t\t\t<name>Earth View With Google Places</name>\n"
    + "\t\t\t\t<open>1</open>\n"
    + "\t\t\t\t"

  /** The document after the folders. */
  const Footer: string := "\n\t\t\t</Folder>\n\t\t\t</kml>"

  /** A folder up to its photo count. */
  const FolderOpen: string := "\t\t<Folder>\n\t\t\t\t<name>("

  /** A folder between its name and its placemarks. */
  const FolderMiddle: string := "</name>\n\t\t\t\t<open>0</open>\n\t\t\t\t"

  /** A folder after its placemarks. */
  const FolderClose: string := "\n\t\t\t</Folder>"

  /** A placemark up to its name. */
  const PlacemarkOpen: string := "\t\t\t<Placemark>\n\t\t\t\t<name>"

  /** A placemark between its name and its coordinates. */
  const PlacemarkMiddle: string := "</name>\n\t\t\t\t<Point>\n\t\t\t\t\t<coordinates>"

  /** A placemark after its coordinates. */
  const PlacemarkClose: string := "</coordinates>\n\t\t\t\t</Point>\n\t\t\t</Placemark>"

  /**
   * `getKmlFileString`: the folders, joined by line feeds, between the fixed
   * header and footer, where the reader finds them again.
   */
  function KmlFileString(folders: seq<string>): (doc: string)
    ensures ReadDocument(doc) == Some(Join(folders, "\n"))
  {
    UnwrapWrapped(Header, Join(folders, "\n"), Footer);
    Header + Join(folders, "\n") + Footer
  }

  /**
   * `getKmlFolder`: a closed folder named `(n) name`, where `n` is the number
   * of placemarks. It reads back as that number, the name and the placemarks
   * joined by line feeds, provided the name opens no tag (names are inserted
   * unescaped).
   */
  function KmlFolder(folderName: string, placemarks: seq<string>): (folder: string)
    ensures TagFree(folderName) ==>
      ReadFolder(folder) == Some((Some(|placemarks|), folderName, Join(placemarks, "\n")))
  {
    var digits := NatToString(|placemarks|);
    var body := Join(placemarks, "\n");
    var rest := folderName + FolderMiddle + body;
    var inner := digits + ") " + rest;
    UnwrapWrapped(FolderOpen, inner, FolderClose);
    assert forall k :: 0 <= k < |digits| ==> IsDigit(digits[k]);
    CutAfter(digits, ") ", rest);
    NumberOfNatToString(|placemarks|);
    if TagFree(folderName) then
      CutAfter(folderName, FolderMiddle, body);
      FolderOpen + inner + FolderClose
    else
      FolderOpen + inner + FolderClose
  }

  /** The text of a `<coordinates>` element: `lat,lng,0`. */
  function CoordinatesText(lat: Coord, lng: Coord): string {
    lat + "," + lng + ",0"
  }

  /**
   * `getPlacemarkKmlNode`: a placemark named by the title, at the point
   * `lat,lng,0`. It reads back as the title and `lat,lng,0`, provided the
   * title opens no tag (titles are inserted unescaped).
   */
  function KmlPlacemark(lat: Coord, lng: Coord, title: string): (placemark: string)
    ensures TagFree(title) ==> ReadPlacemark(placemark) == Some((title, CoordinatesText(lat, lng)))
  {
    var tail := CoordinatesText(lat, lng);
    UnwrapWrapped(PlacemarkOpen, title + PlacemarkMiddle + tail, PlacemarkClose);
    if TagFree(title) then
      CutAfter(title, PlacemarkMiddle, tail);
      PlacemarkOpen + (title + PlacemarkMiddle + tail) + PlacemarkClose
    else
      PlacemarkOpen + (title + PlacemarkMiddle + tail) + PlacemarkClose
  }

  /**
   * The placemark of one reduced photo: its `lat` field goes first in the
   * coordinates, then its `lng` field.
   */
  function PlacemarkOf(photo: ReducedPhoto): (placemark: string)
    ensures TagFree(photo.title) ==>
      ReadPlacemark(placemark) == Some((photo.title, photo.lat + "," + photo.lng + ",0"))
  {
    KmlPlacemark(photo.lat, photo.lng, photo.title)
  }

  /** The placemarks of a group, one per photo, in group order. */
  function Placemarks(photos: seq<ReducedPhoto>): (ps: seq<string>)
    ensures |ps| == |photos|
    ensures forall m :: 0 <= m < |photos| ==> ps[m] == PlacemarkOf(photos[m])
  {
    seq(|photos|, m requires 0 <= m < |photos| => PlacemarkOf(photos[m]))
  }

  /** The text of `s` between the prefix `pre` and the suffix `post`, if `s` has both. */
  function Unwrap(s: string, pre: string, post: string): (r: Option<string>)
    ensures r.Some? ==> s == pre + r.value + post
  {
    if |pre| + |post| <= |s| && s[..|pre|] == pre && s[|s| - |post|..] == post then
      assert s == s[..|pre|] + s[|pre|..|s| - |post|] + s[|s| - |post|..];
      Some(s[|pre|..|s| - |post|])
    else
      None
  }

  lemma UnwrapWrapped(pre: string, m: string, post: string)
    ensures Unwrap(pre + m + post, pre, post) == Some(m)
  {
    var s := pre + m + post;
    assert s[..|pre|] == pre;
    assert s[|s| - |post|..] == post;
    assert s[|pre|..|s| - |post|] == m;
  }

  /** Reads a document back: the folder text between the header and the footer. */
  function ReadDocument(doc: string): Option<string> {
    Unwrap(doc, Header, Footer)
  }

  /** Reads a placemark back: its name and the text of its coordinates. */
  function ReadPlacemark(placemark: string): Option<(string, string)> {
    match Unwrap(placemark, PlacemarkOpen, PlacemarkClose)
    case None => None
    case Some(inner) => Cut(inner, PlacemarkMiddle)
  }

  /** Reads a folder back: the count in its heading, its name and the text of its placemarks. */
  function ReadFolder(folder: string): Option<(Option<nat>, string, string)> {
    match Unwrap(folder, FolderOpen, FolderClose)
    case None => None
    case Some(inner) =>
      match Cut(inner, ") ")
      case None => None
      case Some((digits, rest)) =>
        match Cut(rest, FolderMiddle)
        case None => None
        case Some((name, body)) => Some((Number(digits), name, body))
  }

  /** A text without `<`, which the templates use to open every tag. */
  predicate TagFree(s: string) {
    forall k :: 0 <= k < |s| ==> s[k] != '<'
  }

  /**
   * The placemark of a crawled photo reads back as its cleaned title and its
   * coordinates in the order longitude, latitude, altitude: the projection
   * swaps the two and the placemark swaps them back.
   */
  lemma ExportedCoordinates(p: Photo)
    requires TagFree(CleanTitle(p.title))
    ensures ReadPlacemark(PlacemarkOf(Reduce(p))) == Some((CleanTitle(p.title), p.lng + "," + p.lat + ",0"))
  {
  }

  /**
   * `getKmlFoldersFromPhotos`: for each key of the dictionary, in enumeration
   * order, the placemarks of its group's photos are collected and wrapped in
   * a folder named by the key.
   */
  method KmlFoldersFromPhotos(photos: Dict<CountryPhotos>) returns (folders: seq<string>)
    requires photos.Valid()
    ensures |folders| == |photos.keys|
    ensures forall i :: 0 <= i < |photos.keys| ==>
      folders[i] == KmlFolder(photos.keys[i], Placemarks(photos.entries[photos.keys[i]].photos))
  {
    folders := [];
    for i := 0 to |photos.keys|
      invariant |folders| == i
      invariant forall m :: 0 <= m < i ==>
        folders[m] == KmlFolder(photos.keys[m], Placemarks(photos.entries[photos.keys[m]].photos))
    {
      var countryName := photos.keys[i];
      var group := photos.entries[countryName].photos;
      var placemarkKmlNodes: seq<string> := [];
      for j := 0 to |group|
        invariant placemarkKmlNodes == Placemarks(group[..j])
      {
        var photo := group[j];
        assert group[..j + 1] == group[..j] + [photo];
        placemarkKmlNodes := placemarkKmlNodes + [KmlPlacemark(photo.lat, photo.lng, photo.title)];
      }
      assert group[..|group|] == group;
      ghost var previous := folders;
      folders := folders + [KmlFolder(countryName, placemarkKmlNodes)];
      assert forall m :: 0 <= m < i ==> folders[m] == previous[m];
    }
  }
}
