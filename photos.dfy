/**
 * The two record shapes: `Photo`, one catalog entry as the site's per-photo
 * API describes it, and `ReducedPhoto`, the projection kept for the KML
 * export, with the decorative title suffix removed.
 */
module Photos {
  import opened Text

  /**
   * A latitude or longitude, carried as the decimal text JavaScript prints
   * for the number; the model only moves coordinates around.
   */
  type Coord = string

  /** One record of the catalog. An absent `nextApi` is the empty string. */
  datatype Photo = Photo(
    id: string,
    slug: string,
    url: string,
    api: string,
    title: string,
    lat: Coord,
    lng: Coord,
    photoUrl: string,
    thumbUrl: string,
    downloadUrl: string,
    region: string,
    country: string,
    attribution: string,
    mapsLink: string,
    mapsTitle: string,
    nextUrl: string,
    nextApi: string,
    prevUrl: string,
    prevApi: string)

  /** The fields a placemark needs. */
  datatype ReducedPhoto = ReducedPhoto(
    country: string,
    region: string,
    lat: Coord,
    lng: Coord,
    title: string)

  /** The text every title carries at its end: a space, an en dash, a space and the site name. */
  const TitleSuffix: string := " \U{2013} Earth View from Google"

  /**
   * The placemark name for a title: when the suffix occurs, its first
   * occurrence (wherever it is) is cut out; otherwise the title is kept.
   */
  function CleanTitle(title: string): (r: string)
    ensures !Contains(title, TitleSuffix) ==> r == title
    ensures forall i: nat {:trigger FirstOccurrence(title, TitleSuffix, i)} ::
      FirstOccurrence(title, TitleSuffix, i) ==>
        r == title[..i] + title[i + |TitleSuffix|..] && |r| == |title| - |TitleSuffix|
  {
    if IndexOf(title, TitleSuffix).Some? then ReplaceFirst(title, TitleSuffix, "") else title
  }

  /**
   * The `ReducedPhoto` constructor, with its parameters in the order it
   * declares them: region and country, then longitude before latitude.
   */
  function NewReducedPhoto(country: string, region: string, lng: Coord, lat: Coord, title: string): (r: ReducedPhoto)
    ensures r.lat == lat && r.lng == lng
    ensures r.country == country && r.region == region && r.title == CleanTitle(title)
  {
    ReducedPhoto(country, region, lat, lng, CleanTitle(title))
  }

  /**
   * The projection applied to every crawled photo. The call passes the
   * photo's latitude where the constructor expects the longitude and the
   * other way round, so the two coordinates trade places.
   */
  function Reduce(p: Photo): (r: ReducedPhoto)
    ensures r.lat == p.lng && r.lng == p.lat
    ensures r.country == p.country && r.region == p.region && r.title == CleanTitle(p.title)
  {
    NewReducedPhoto(p.country, p.region, p.lat, p.lng, p.title)
  }

  /** `photos.map(p => new ReducedPhoto(...))`. */
  function ReduceAll(photos: seq<Photo>): (rs: seq<ReducedPhoto>)
    ensures |rs| == |photos| && forall i :: 0 <= i < |photos| ==> rs[i] == Reduce(photos[i])
  {
    seq(|photos|, i requires 0 <= i < |photos| => Reduce(photos[i]))
  }

  /** A title that ends with the suffix, and holds it nowhere else, loses exactly that ending. */
  lemma CleanTitleStripsTrailingSuffix(name: string)
    requires forall i: nat :: i < |name| ==> !OccursAt(name + TitleSuffix, TitleSuffix, i)
    ensures CleanTitle(name + TitleSuffix) == name
  {
    var t := name + TitleSuffix;
    assert OccursAt(t, TitleSuffix, |name|);
    assert FirstOccurrence(t, TitleSuffix, |name|);
    assert t[..|name|] == name;
  }
}
