/**
 * The crawl: starting from one API path, fetch a record, append it unless
 * its id was already collected, and follow its `nextApi` link; the walk ends
 * at the first record whose id was already collected (the chain of links
 * loops back), or at once when the first response parses to `null`. A
 * `null` met later aborts the script, like a request that fails.
 */
module Crawl {
  import opened Wrappers
  import opened Photos

  /** What `JSON.parse` yields for one response: `null` or a photo record. */
  datatype Json = Null | Record(photo: Photo)

  /**
   * The site as seen through `get` and `JSON.parse`: each API path the crawl
   * may request, with the value its response parses to. A path without an
   * entry is a request or a parse that throws, which aborts the script.
   */
  type Catalog = map<string, Json>

  /** `JSON.parse(get(baseUrl + path))`, or the path that failed. */
  function Fetch(catalog: Catalog, path: string): (r: Result<Json, string>)
    ensures r.Success? <==> path in catalog
    ensures r.Success? ==> r.value == catalog[path]
    ensures r.Failure? ==> r.error == path
  {
    if path in catalog then Success(catalog[path]) else Failure(path)
  }

  /**
   * `json_obj` after the loop appended `p`: the response at `p.nextApi`, or,
   * when `p` has no `nextApi`, `p` itself again. A null response there is
   * fatal: the script reads its `lat` before the loop condition can see it.
   */
  function Following(catalog: Catalog, p: Photo): (r: Result<Json, string>)
    ensures r.Success? ==> r.value.Record?
    ensures r.Failure? ==> r.error == p.nextApi
    ensures p.nextApi == "" ==> r == Success(Record(p))
    ensures p.nextApi != "" ==>
      && (r.Success? <==> p.nextApi in catalog && catalog[p.nextApi].Record?)
      && (r.Success? ==> r.value == catalog[p.nextApi])
  {
    if p.nextApi == "" then Success(Record(p))
    else
      match Fetch(catalog, p.nextApi)
      case Success(Null) => Failure(p.nextApi)
      case r => r
  }

  predicate DistinctIds(ps: seq<Photo>) {
    forall i, j :: 0 <= i < j < |ps| ==> ps[i].id != ps[j].id
  }

  /** `id` belongs to one of the photos in `ps`. */
  predicate Collected(ps: seq<Photo>, id: string) {
    exists i :: 0 <= i < |ps| && ps[i].id == id
  }

  /**
   * `ps` is a prefix of the walk from `start`: the first record is the one at
   * `start`, each later one is what its predecessor leads to, and no id repeats.
   */
  ghost predicate IsWalk(catalog: Catalog, start: string, ps: seq<Photo>) {
    && DistinctIds(ps)
    && (|ps| > 0 ==> Fetch(catalog, start) == Success(Record(ps[0])))
    && forall i :: 0 <= i < |ps| - 1 ==> Following(catalog, ps[i]) == Success(Record(ps[i + 1]))
  }

  /** The response the loop examines after collecting `ps`. */
  function Next(catalog: Catalog, start: string, ps: seq<Photo>): Result<Json, string> {
    if ps == [] then Fetch(catalog, start) else Following(catalog, ps[|ps| - 1])
  }

  /** The loop stops on `j`: it is `null` (the first response only), or its id was already collected. */
  predicate Stops(j: Json, ps: seq<Photo>) {
    j.Null? || Collected(ps, j.photo.id)
  }

  /** The ids of the records the site can return. */
  ghost function CatalogIds(catalog: Catalog): set<string> {
    set j | j in catalog.Values && j.Record? :: j.photo.id
  }

  /**
   * The loop of the script. On success the result is the whole walk from
   * `start`: a walk whose next response stops the loop. On failure it is the
   * path whose request failed, or whose `null` response aborted the script,
   * reached by a walk that had not yet stopped.
   */
  method Crawl(catalog: Catalog, start: string) returns (r: Result<seq<Photo>, string>)
    ensures r.Success? ==>
      && IsWalk(catalog, start, r.value)
      && Next(catalog, start, r.value).Success?
      && Stops(Next(catalog, start, r.value).value, r.value)
    ensures r.Failure? ==>
      exists ps :: IsWalk(catalog, start, ps) && Next(catalog, start, ps) == Failure(r.error)
  {
    var first := Fetch(catalog, start);
    if first.Failure? {
      assert Next(catalog, start, []) == Failure(start);
      return Failure(start);
    }
    var jsonObj := first.value;
    var loop := true;
    var addedIds: seq<string> := [];
    var photos: seq<Photo> := [];
    ghost var seen: set<string> := {};
    while jsonObj.Record? && loop
      invariant |addedIds| == |photos|
      invariant forall i :: 0 <= i < |photos| ==> photos[i].id == addedIds[i]
      invariant IsWalk(catalog, start, photos)
      invariant Next(catalog, start, photos) == Success(jsonObj)
      invariant !loop ==> jsonObj.Record? && Collected(photos, jsonObj.photo.id)
      invariant jsonObj.Record? ==> jsonObj.photo.id in CatalogIds(catalog)
      invariant forall x :: x in seen <==> x in addedIds
      invariant seen <= CatalogIds(catalog)
      decreases CatalogIds(catalog) - seen, loop
    {
      var id := jsonObj.photo.id;
      if id !in addedIds {
        addedIds := addedIds + [id];
        seen := seen + {id};
        photos := photos + [jsonObj.photo];
        if jsonObj.photo.nextApi != "" {
          var path := jsonObj.photo.nextApi;
          var next := Fetch(catalog, path);
          if next.Failure? || next.value.Null? {
            assert Next(catalog, start, photos) == Failure(path);
            return Failure(path);
          }
          jsonObj := next.value;
          assert jsonObj in catalog.Values;
        }
      } else {
        loop := false;
      }
    }
    r := Success(photos);
  }

  /** Two walks from the same start agree on their common length. */
  lemma {:induction false} WalksAgree(catalog: Catalog, start: string, ps: seq<Photo>, qs: seq<Photo>)
    requires IsWalk(catalog, start, ps) && IsWalk(catalog, start, qs)
    requires |ps| <= |qs|
    ensures ps == qs[..|ps|]
    decreases |ps|
  {
    if |ps| > 1 {
      var n := |ps| - 1;
      assert IsWalk(catalog, start, ps[..n]);
      assert IsWalk(catalog, start, qs[..n]);
      WalksAgree(catalog, start, ps[..n], qs[..n]);
      assert ps[n - 1] == qs[n - 1];
      assert Following(catalog, ps[n - 1]) == Success(Record(ps[n]));
      assert Following(catalog, qs[n - 1]) == Success(Record(qs[n]));
    }
  }

  /**
   * The crawl's postcondition pins the result down: two walks from the same
   * start that both end where the loop stops are the same walk.
   */
  lemma CompleteWalkUnique(catalog: Catalog, start: string, ps: seq<Photo>, qs: seq<Photo>)
    requires IsWalk(catalog, start, ps) && Next(catalog, start, ps).Success? && Stops(Next(catalog, start, ps).value, ps)
    requires IsWalk(catalog, start, qs) && Next(catalog, start, qs).Success? && Stops(Next(catalog, start, qs).value, qs)
    ensures ps == qs
  {
    if |ps| < |qs| {
      Overrun(catalog, start, ps, qs);
    } else if |qs| < |ps| {
      Overrun(catalog, start, qs, ps);
    } else {
      WalksAgree(catalog, start, ps, qs);
    }
  }

  /** A longer walk continues a shorter one with a record whose id is new to it. */
  lemma WalkContinues(catalog: Catalog, start: string, ps: seq<Photo>, qs: seq<Photo>)
    requires IsWalk(catalog, start, ps) && IsWalk(catalog, start, qs)
    ensures |ps| < |qs| ==> Next(catalog, start, ps) == Success(Record(qs[|ps|])) && !Collected(ps, qs[|ps|].id)
  {
    if |ps| < |qs| {
      WalksAgree(catalog, start, ps, qs);
      var n := |ps|;
      forall i | 0 <= i < n ensures ps[i].id != qs[n].id {
        assert ps[i] == qs[i];
      }
    }
  }

  /** A walk cannot go on past a point where the loop stops. */
  lemma Overrun(catalog: Catalog, start: string, ps: seq<Photo>, qs: seq<Photo>)
    requires IsWalk(catalog, start, ps) && Next(catalog, start, ps).Success? && Stops(Next(catalog, start, ps).value, ps)
    requires IsWalk(catalog, start, qs)
    ensures |qs| <= |ps|
  {
    WalkContinues(catalog, start, ps, qs);
  }

  /**
   * The two outcomes of the crawl exclude each other: once some walk from
   * `start` ends where the loop stops, no walk from `start` meets a failing
   * or `null` response.
   */
  lemma SuccessExcludesFailure(catalog: Catalog, start: string, ps: seq<Photo>, qs: seq<Photo>)
    requires IsWalk(catalog, start, ps) && Next(catalog, start, ps).Success? && Stops(Next(catalog, start, ps).value, ps)
    requires IsWalk(catalog, start, qs)
    ensures Next(catalog, start, qs).Success?
  {
    Overrun(catalog, start, ps, qs);
    if |qs| < |ps| {
      WalkContinues(catalog, start, qs, ps);
    } else {
      WalksAgree(catalog, start, qs, ps);
      assert qs == ps;
    }
  }

  /** A record without `nextApi` ends the walk: it is the last one collected. */
  lemma NoNextIsLast(catalog: Catalog, start: string, ps: seq<Photo>, i: nat)
    requires IsWalk(catalog, start, ps)
    requires i < |ps| && ps[i].nextApi == ""
    ensures i == |ps| - 1
  {
    forall k | 0 <= k < |ps| - 1 ensures ps[k].nextApi != "" {
      assert ps[k].id != ps[k + 1].id;
      assert Following(catalog, ps[k]) == Success(Record(ps[k + 1]));
    }
  }

  /**
   * Three records linked in a ring, `a` to `b` to `c` and back to `a`, are
   * crawled from `a` as `[a, b, c]`.
   */
  lemma RingOfThree(pa: string, pb: string, pc: string, a: Photo, b: Photo, c: Photo, ps: seq<Photo>)
    requires pa != pb && pb != pc && pa != pc && pa != "" && pb != "" && pc != ""
    requires a.id != b.id && b.id != c.id && a.id != c.id
    requires a.nextApi == pb && b.nextApi == pc && c.nextApi == pa
    requires var catalog := map[pa := Record(a), pb := Record(b), pc := Record(c)];
      IsWalk(catalog, pa, ps) && Next(catalog, pa, ps).Success? && Stops(Next(catalog, pa, ps).value, ps)
    ensures ps == [a, b, c]
  {
    var catalog := map[pa := Record(a), pb := Record(b), pc := Record(c)];
    var abc := [a, b, c];
    assert Following(catalog, a) == Success(Record(b));
    assert Following(catalog, b) == Success(Record(c));
    assert Next(catalog, pa, abc) == Success(Record(a));
    assert abc[0].id == a.id;
    CompleteWalkUnique(catalog, pa, ps, abc);
  }

  /** Two records where the second has no `nextApi` are crawled as `[a, b]`, `b` only once. */
  lemma ChainWithoutLink(pa: string, pb: string, a: Photo, b: Photo, ps: seq<Photo>)
    requires pa != pb && pb != "" && a.id != b.id
    requires a.nextApi == pb && b.nextApi == ""
    requires var catalog := map[pa := Record(a), pb := Record(b)];
      IsWalk(catalog, pa, ps) && Next(catalog, pa, ps).Success? && Stops(Next(catalog, pa, ps).value, ps)
    ensures ps == [a, b]
  {
    var catalog := map[pa := Record(a), pb := Record(b)];
    var ab := [a, b];
    assert Following(catalog, a) == Success(Record(b));
    assert Next(catalog, pa, ab) == Success(Record(b));
    assert ab[1].id == b.id;
    CompleteWalkUnique(catalog, pa, ps, ab);
  }
}
