/**
 * The Resource Collector and Aggregator: each region's listing is stamped with
 * that region's name, and the per-region lists are flattened in region order.
 * A failed listing call contributes an empty list.
 */
module Collect {
  import opened Wrappers
  import opened Records

  /** One region and what its image and snapshot listing calls returned (None: the call failed). */
  datatype Region = Region(name: string, images: Option<seq<Image>>, snapshots: Option<seq<Dated>>)

  /** What one collector call yields for a region: its records stamped with the region, or []. */
  function Stamped<T>(response: Option<seq<Resource<T>>>, region: string): (rs: seq<Resource<T>>)
    ensures response.None? ==> rs == []
    ensures response.Some? ==> |rs| == |response.value|
    ensures forall i :: 0 <= i < |rs| ==>
      rs[i] == response.value[i].(region := Some(region))
  {
    match response
    case None => []
    case Some(listed) => seq(|listed|, i requires 0 <= i < |listed| => listed[i].(region := Some(region)))
  }

  /** The in-order concatenation of per-region lists. */
  function Flatten<T>(xss: seq<seq<T>>): seq<T> {
    if xss == [] then [] else Flatten(xss[..|xss| - 1]) + xss[|xss| - 1]
  }

  function TotalLength<T>(xss: seq<seq<T>>): nat {
    if xss == [] then 0 else TotalLength(xss[..|xss| - 1]) + |xss[|xss| - 1]|
  }

  /** Flattening the regions listed first, then the rest, is concatenating the two flattenings. */
  lemma {:induction false} FlattenConcat<T>(xss: seq<seq<T>>, yss: seq<seq<T>>)
    ensures Flatten(xss + yss) == Flatten(xss) + Flatten(yss)
    ensures TotalLength(xss + yss) == TotalLength(xss) + TotalLength(yss)
    decreases |yss|
  {
    if yss == [] {
      assert xss + yss == xss;
    } else {
      var init := yss[..|yss| - 1];
      assert (xss + yss)[..|xss + yss| - 1] == xss + init;
      FlattenConcat(xss, init);
    }
  }

  /** The flattened list is as long as all regional lists together, and holds exactly their elements. */
  lemma {:induction false} FlattenContents<T>(xss: seq<seq<T>>)
    ensures |Flatten(xss)| == TotalLength(xss)
    ensures forall x :: x in Flatten(xss) <==> exists i :: 0 <= i < |xss| && x in xss[i]
  {
    if xss != [] {
      var init, last := xss[..|xss| - 1], xss[|xss| - 1];
      FlattenContents(init);
      assert Flatten(xss) == Flatten(init) + last;
      forall x
        ensures x in Flatten(xss) <==> exists i :: 0 <= i < |xss| && x in xss[i]
      {
        if x in Flatten(init) {
          var i :| 0 <= i < |init| && x in init[i];
          assert xss[i] == init[i];
        }
        if exists i :: 0 <= i < |xss| && x in xss[i] {
          var i :| 0 <= i < |xss| && x in xss[i];
          if i < |init| {
            assert x in init[i];
          }
        }
      }
    }
  }

  lemma FlattenMember<T>(xss: seq<seq<T>>, x: T)
    requires x in Flatten(xss)
    ensures exists i :: 0 <= i < |xss| && x in xss[i]
  {
    FlattenContents(xss);
  }

  /** Python's per-region stamping loop: sets the `Region` key of every record in place. */
  method StampRegion<T>(records: array<Resource<T>>, region: string)
    modifies records
    ensures forall i :: 0 <= i < records.Length ==> records[i] == old(records[i]).(region := Some(region))
  {
    var i := 0;
    while i < records.Length
      invariant 0 <= i <= records.Length
      invariant forall k :: 0 <= k < i ==> records[k] == old(records[k]).(region := Some(region))
      invariant forall k :: i <= k < records.Length ==> records[k] == old(records[k])
    {
      records[i] := records[i].(region := Some(region));
      i := i + 1;
    }
  }

  /** `get_amis_in_region` / `get_snapshots_in_region`: the listed records, stamped, or [] on failure. */
  method CollectInRegion<T>(response: Option<seq<Resource<T>>>, region: string) returns (rs: seq<Resource<T>>)
    ensures response.None? ==> rs == []
    ensures response.Some? ==> |rs| == |response.value|
    ensures forall i :: 0 <= i < |rs| ==> rs[i] == response.value[i].(region := Some(region))
  {
    if response.None? {
      return [];
    }
    var listed := response.value;
    var records := new Resource<T>[|listed|](i requires 0 <= i < |listed| => listed[i]);
    StampRegion(records, region);
    rs := records[..];
  }

  /** `executor.map` over the regions followed by the flattening comprehension. */
  method CollectAll<T>(regions: seq<string>, responses: seq<Option<seq<Resource<T>>>>) returns (all: seq<Resource<T>>)
    requires |responses| == |regions|
    ensures all == Flatten(seq(|regions|, i requires 0 <= i < |regions| => Stamped(responses[i], regions[i])))
  {
    var perRegion: seq<seq<Resource<T>>> := [];
    for i := 0 to |regions|
      invariant |perRegion| == i
      invariant forall k :: 0 <= k < i ==> perRegion[k] == Stamped(responses[k], regions[k])
    {
      var rs := CollectInRegion(responses[i], regions[i]);
      perRegion := perRegion + [rs];
    }
    assert perRegion == seq(|regions|, i requires 0 <= i < |regions| => Stamped(responses[i], regions[i]));
    all := Flatten(perRegion);
  }

  /** All images of all regions, in region order; [] when the regions could not be listed. */
  function AllImages(regions: Option<seq<Region>>): seq<Image> {
    match regions
    case None => []
    case Some(rs) => Flatten(seq(|rs|, i requires 0 <= i < |rs| => Stamped(rs[i].images, rs[i].name)))
  }

  /** All snapshots of all regions, in region order; [] when the regions could not be listed. */
  function AllSnapshots(regions: Option<seq<Region>>): seq<Dated> {
    match regions
    case None => []
    case Some(rs) => Flatten(seq(|rs|, i requires 0 <= i < |rs| => Stamped(rs[i].snapshots, rs[i].name)))
  }

  /** `retrieve_amis_snapshots_data`. */
  method Retrieve(regions: Option<seq<Region>>) returns (images: seq<Image>, snapshots: seq<Dated>)
    ensures images == AllImages(regions) && snapshots == AllSnapshots(regions)
  {
    if regions.None? {
      return [], [];
    }
    var rs := regions.value;
    var names := seq(|rs|, i requires 0 <= i < |rs| => rs[i].name);
    var imageResponses := seq(|rs|, i requires 0 <= i < |rs| => rs[i].images);
    var snapshotResponses := seq(|rs|, i requires 0 <= i < |rs| => rs[i].snapshots);
    images := CollectAll(names, imageResponses);
    snapshots := CollectAll(names, snapshotResponses);
    assert seq(|names|, i requires 0 <= i < |names| => Stamped(imageResponses[i], names[i]))
        == seq(|rs|, i requires 0 <= i < |rs| => Stamped(rs[i].images, rs[i].name));
    assert seq(|names|, i requires 0 <= i < |names| => Stamped(snapshotResponses[i], names[i]))
        == seq(|rs|, i requires 0 <= i < |rs| => Stamped(rs[i].snapshots, rs[i].name));
  }

  /** Every aggregated record carries the name of a listed region, and the aggregate holds all of them. */
  lemma AggregateRegions(regions: seq<Region>)
    ensures forall x :: x in AllImages(Some(regions)) ==>
      exists i :: 0 <= i < |regions| && x.region == Some(regions[i].name)
    ensures forall x :: x in AllSnapshots(Some(regions)) ==>
      exists i :: 0 <= i < |regions| && x.region == Some(regions[i].name)
    ensures |AllImages(Some(regions))| ==
      TotalLength(seq(|regions|, i requires 0 <= i < |regions| => Stamped(regions[i].images, regions[i].name)))
  {
    var imgs := seq(|regions|, i requires 0 <= i < |regions| => Stamped(regions[i].images, regions[i].name));
    var snaps := seq(|regions|, i requires 0 <= i < |regions| => Stamped(regions[i].snapshots, regions[i].name));
    FlattenContents(imgs);
    FlattenContents(snaps);
    assert AllImages(Some(regions)) == Flatten(imgs);
    assert AllSnapshots(Some(regions)) == Flatten(snaps);
    forall x | x in AllImages(Some(regions))
      ensures exists i :: 0 <= i < |regions| && x.region == Some(regions[i].name)
    {
      FlattenMember(imgs, x);
      var i :| 0 <= i < |imgs| && x in imgs[i];
      var j :| 0 <= j < |imgs[i]| && imgs[i][j] == x;
    }
    forall x | x in AllSnapshots(Some(regions))
      ensures exists i :: 0 <= i < |regions| && x.region == Some(regions[i].name)
    {
      FlattenMember(snaps, x);
      var i :| 0 <= i < |snaps| && x in snaps[i];
      var j :| 0 <= j < |snaps[i]| && snaps[i][j] == x;
    }
  }
}
