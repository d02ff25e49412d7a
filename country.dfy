/** The per-country accumulator: the photos of one country and their number. */
module Country {
  import opened Photos

  class CountryPhotos {
    var count: nat
    var photos: seq<ReducedPhoto>

    /** The count always equals the number of photos, and a group is never empty. */
    predicate Valid()
      reads this
    {
      count == |photos| && |photos| >= 1
    }

    /** A group is created for its first photo. */
    constructor (photo: ReducedPhoto)
      ensures Valid()
      ensures photos == [photo] && count == 1
    {
      photos := [photo];
      count := 1;
    }

    /**
     * Appends a photo and counts it. The early return of the script, taken
     * when the photo array is missing, cannot happen here: `photos` is
     * always a sequence.
     */
    method AddPhoto(photo: ReducedPhoto)
      modifies this
      ensures photos == old(photos) + [photo]
      ensures count == old(count) + 1
      ensures old(Valid()) ==> Valid()
    {
      photos := photos + [photo];
      count := count + 1;
    }
  }
}
