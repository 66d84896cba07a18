/**
 * The Age Classifier (`process_data`): one cutoff, now minus seven days, splits
 * the images and the snapshots into recent and stale; stale ones become summary
 * rows, the oldest creation instant of each collection is tracked over all of
 * its records, and a text summary is assembled.
 */
module Classify {
  import opened Wrappers
  import opened Decimal
  import opened DateTimes
  import opened Records
  import opened Summary

  /** `timedelta(days=7)`. */
  const StaleAfterDays: nat := 7

  /** `datetime.now() - timedelta(days=7)`; None where Python raises OverflowError. */
  function CutoffOf(now: DateTime): Option<DateTime> {
    MinusDays(now, StaleAfterDays)
  }

  /** A record is stale when it was created strictly before the cutoff. */
  predicate IsStale(r: Dated, cutoff: DateTime) {
    Before(r.created, cutoff)
  }

  /** The cutoff lies exactly seven calendar days before `now`, at the same time of day,
      and a record created exactly at the cutoff is not stale. */
  lemma CutoffIsSevenDaysEarlier(now: DateTime, r: Dated)
    ensures CutoffOf(now).Some? <==> Ordinal(now) > 7
    ensures CutoffOf(now).Some? ==>
      var c := CutoffOf(now).value;
      Ordinal(c) == Ordinal(now) - 7 && SameTimeOfDay(c, now) && Before(c, now) &&
      (r.created == c ==> !IsStale(r, c))
  {
    MinusDaysOrdinal(now, StaleAfterDays);
  }

  /** The stale records, in their original order. */
  function Stale(rs: seq<Dated>, cutoff: DateTime): (st: seq<Dated>)
    ensures |st| <= |rs|
  {
    if rs == [] then []
    else
      var init := Stale(rs[..|rs| - 1], cutoff);
      var last := rs[|rs| - 1];
      if IsStale(last, cutoff) then init + [last] else init
  }

  /** The filter keeps exactly the stale records. */
  lemma {:induction false} StaleMembers(rs: seq<Dated>, cutoff: DateTime)
    ensures forall x :: x in Stale(rs, cutoff) <==> x in rs && IsStale(x, cutoff)
  {
    if rs != [] {
      var init := rs[..|rs| - 1];
      StaleMembers(init, cutoff);
      assert rs == init + [rs[|rs| - 1]];
    }
  }

  /** Filtering distributes over concatenation, so the filter keeps the input's order. */
  lemma {:induction false} StaleConcat(xs: seq<Dated>, ys: seq<Dated>, cutoff: DateTime)
    ensures Stale(xs + ys, cutoff) == Stale(xs, cutoff) + Stale(ys, cutoff)
    decreases |ys|
  {
    if ys == [] {
      assert xs + ys == xs;
    } else {
      var init := ys[..|ys| - 1];
      assert (xs + ys)[..|xs + ys| - 1] == xs + init;
      StaleConcat(xs, init, cutoff);
    }
  }

  /** Every stale record carries a `Region` key (otherwise Python raises KeyError). */
  predicate StaleTagged(rs: seq<Dated>, cutoff: DateTime) {
    forall i :: 0 <= i < |rs| && IsStale(rs[i], cutoff) ==> rs[i].region.Some?
  }

  /** The summary row of a record: missing Name and ID become 'N/A'. */
  function RowOf(r: Dated): StaleRow
    requires r.region.Some?
  {
    StaleRow(r.name.GetOr("N/A"), r.id.GetOr("N/A"), DateText(r.created), TimeText(r.created), r.region.value)
  }

  /** Every record carries a `Region` key. */
  predicate AllTagged(rs: seq<Dated>) {
    forall i :: 0 <= i < |rs| ==> rs[i].region.Some?
  }

  /** Appending a record keeps all records tagged exactly when it is tagged itself. */
  lemma TaggedSnoc(rs: seq<Dated>, x: Dated)
    ensures AllTagged(rs + [x]) <==> AllTagged(rs) && x.region.Some?
  {
    var ext := rs + [x];
    assert ext[|rs|] == x;
    assert forall i :: 0 <= i < |rs| ==> ext[i] == rs[i];
  }

  function Rows(rs: seq<Dated>): (rows: seq<StaleRow>)
    requires AllTagged(rs)
    ensures |rows| == |rs|
  {
    if rs == [] then [] else Rows(rs[..|rs| - 1]) + [RowOf(rs[|rs| - 1])]
  }

  /** Row i describes stale record i. */
  lemma {:induction false} RowsAt(rs: seq<Dated>)
    requires AllTagged(rs)
    ensures forall i :: 0 <= i < |rs| ==> Rows(rs)[i] == RowOf(rs[i])
  {
    if rs != [] {
      RowsAt(rs[..|rs| - 1]);
    }
  }

  /** The oldest instant, found as Python's loop does: replace the running value on a strictly earlier one. */
  function Oldest(rs: seq<Dated>): (o: Option<DateTime>)
    ensures o.None? <==> rs == []
  {
    if rs == [] then None
    else
      var last := rs[|rs| - 1].created;
      match Oldest(rs[..|rs| - 1])
      case None => Some(last)
      case Some(o) => if Before(last, o) then Some(last) else Some(o)
  }

  /** For a non-empty collection the tracked instant is the minimum creation instant of all
      records, stale or not, and is itself one of them. */
  lemma {:induction false} OldestIsMinimum(rs: seq<Dated>)
    ensures Oldest(rs).None? <==> rs == []
    ensures Oldest(rs).Some? ==>
      (exists i :: 0 <= i < |rs| && rs[i].created == Oldest(rs).value) &&
      forall i :: 0 <= i < |rs| ==> !Before(rs[i].created, Oldest(rs).value)
  {
    if rs != [] {
      var init := rs[..|rs| - 1];
      var last := rs[|rs| - 1].created;
      OldestIsMinimum(init);
      var o := Oldest(rs).value;
      if init == [] {
        assert rs[0].created == o;
      } else {
        var prev := Oldest(init).value;
        var k :| 0 <= k < |init| && init[k].created == prev;
        if Before(last, prev) {
          assert rs[|rs| - 1].created == o;
          forall i | 0 <= i < |rs| ensures !Before(rs[i].created, o) {
            if i < |init| {
              assert rs[i] == init[i];
              BeforeIsStrictTotalOrder(rs[i].created, last, prev);
            } else {
              BeforeIsStrictTotalOrder(last, last, last);
            }
          }
        } else {
          assert rs[k].created == o;
          forall i | 0 <= i < |rs| ensures !Before(rs[i].created, o) {
            if i < |init| {
              assert rs[i] == init[i];
            }
          }
        }
      }
    }
  }

  /** Visiting one more record: how the filter, its rows and the oldest instant grow. */
  lemma Snoc(rs: seq<Dated>, x: Dated, cutoff: DateTime)
    ensures (rs + [x])[..|rs|] == rs
    ensures Stale(rs + [x], cutoff) == if IsStale(x, cutoff) then Stale(rs, cutoff) + [x] else Stale(rs, cutoff)
    ensures Oldest(rs + [x]) ==
      if Oldest(rs).None? || Before(x.created, Oldest(rs).value) then Some(x.created) else Oldest(rs)
  {
    assert (rs + [x])[..|rs|] == rs;
  }

  /** What the classifier keeps of one collection. */
  datatype Tally = Tally(total: nat, stale: nat, oldest: Option<DateTime>, rows: seq<StaleRow>)

  /** The classification of one collection of dated records; None when a stale one has no region. */
  function TallyOf(rs: seq<Dated>, cutoff: DateTime): (r: Option<Tally>)
    ensures r.Some? ==> r.value.total == |rs| && r.value.stale <= r.value.total
    ensures r.Some? ==> (r.value.oldest.Some? <==> rs != [])
  {
    var st := Stale(rs, cutoff);
    if AllTagged(st) then
      Some(Tally(|rs|, |st|, Oldest(rs), Rows(st)))
    else None
  }

  /** The running value of Python's `oldest_*_date` after visiting `x`. */
  function NextOldest(oldest: Option<DateTime>, x: Dated): Option<DateTime> {
    if oldest.None? || Before(x.created, oldest.value) then Some(x.created) else oldest
  }

  /** The tally after visiting one more record, as the body of Python's loop computes it;
      None when the record is stale and has no region. */
  function Visit(t: Tally, x: Dated, cutoff: DateTime): Option<Tally> {
    if !IsStale(x, cutoff) then Some(t.(total := t.total + 1, oldest := NextOldest(t.oldest, x)))
    else if x.region.None? then None
    else Some(Tally(t.total + 1, t.stale + 1, NextOldest(t.oldest, x), t.rows + [RowOf(x)]))
  }

  /** A recent record leaves the filter and the rows as they were. */
  lemma VisitRecent(rs: seq<Dated>, x: Dated, cutoff: DateTime)
    requires TallyOf(rs, cutoff).Some? && !IsStale(x, cutoff)
    ensures TallyOf(rs + [x], cutoff) == Visit(TallyOf(rs, cutoff).value, x, cutoff)
  {
    Snoc(rs, x, cutoff);
  }

  /** A stale record is appended to the filter, and its row to the rows. */
  lemma VisitStale(rs: seq<Dated>, x: Dated, cutoff: DateTime)
    requires TallyOf(rs, cutoff).Some? && IsStale(x, cutoff)
    ensures TallyOf(rs + [x], cutoff) == Visit(TallyOf(rs, cutoff).value, x, cutoff)
  {
    Snoc(rs, x, cutoff);
    var st := Stale(rs, cutoff);
    TaggedSnoc(st, x);
    if x.region.Some? {
      RowsSnoc(st, x);
    }
  }

  /** A tagged record appended to tagged records adds its row at the end. */
  lemma RowsSnoc(rs: seq<Dated>, x: Dated)
    requires AllTagged(rs) && x.region.Some?
    ensures AllTagged(rs + [x]) && Rows(rs + [x]) == Rows(rs) + [RowOf(x)]
  {
    TaggedSnoc(rs, x);
    assert (rs + [x])[..|rs|] == rs;
  }

  /** Visiting one more record updates the tally as the body of Python's loop does. */
  lemma TallySnoc(rs: seq<Dated>, x: Dated, cutoff: DateTime)
    requires TallyOf(rs, cutoff).Some?
    ensures TallyOf(rs + [x], cutoff) == Visit(TallyOf(rs, cutoff).value, x, cutoff)
  {
    if IsStale(x, cutoff) {
      VisitStale(rs, x, cutoff);
    } else {
      VisitRecent(rs, x, cutoff);
    }
  }

  /** Counts, rows and oldest instant agree: one row per stale record in order, stale count = rows,
      recent = total - stale is never negative, and the tally fails exactly on an untagged stale record. */
  lemma TallyFacts(rs: seq<Dated>, cutoff: DateTime)
    ensures TallyOf(rs, cutoff).Some? <==> StaleTagged(rs, cutoff)
    ensures TallyOf(rs, cutoff).Some? ==>
      var t := TallyOf(rs, cutoff).value;
      t.total == |rs| && t.stale == |t.rows| <= t.total &&
      t.rows == Rows(Stale(rs, cutoff)) &&
      (t.oldest.Some? <==> rs != [])
  {
    var st := Stale(rs, cutoff);
    OldestIsMinimum(rs);
    StaleMembers(rs, cutoff);
    if StaleTagged(rs, cutoff) {
      forall i | 0 <= i < |st| ensures st[i].region.Some? {
        assert st[i] in rs;
        var j :| 0 <= j < |rs| && rs[j] == st[i];
      }
    } else {
      var j :| 0 <= j < |rs| && IsStale(rs[j], cutoff) && rs[j].region.None?;
      assert rs[j] in st;
    }
  }

  /** A successful tally holds one row per stale record, in order, each describing that record. */
  lemma TallyRows(rs: seq<Dated>, cutoff: DateTime)
    requires TallyOf(rs, cutoff).Some?
    ensures var rows := TallyOf(rs, cutoff).value.rows; var st := Stale(rs, cutoff);
      |rows| == |st| &&
      forall i :: 0 <= i < |st| ==> st[i].region.Some? && rows[i] == RowOf(st[i])
  {
    RowsAt(Stale(rs, cutoff));
  }

  /** A prefix whose tally fails makes the whole tally fail. */
  lemma TallyPrefix(rs: seq<Dated>, k: nat, cutoff: DateTime)
    requires k <= |rs| && TallyOf(rs[..k], cutoff).None?
    ensures TallyOf(rs, cutoff).None?
  {
    TallyFacts(rs[..k], cutoff);
    TallyFacts(rs, cutoff);
    var j :| 0 <= j < k && IsStale(rs[..k][j], cutoff) && rs[..k][j].region.None?;
    assert rs[j] == rs[..k][j];
  }

  /** Visiting record i of a successfully tallied prefix: the next prefix's tally is the visit,
      and a failed visit fails the whole tally. */
  lemma ScanStep(rs: seq<Dated>, i: nat, cutoff: DateTime)
    requires i < |rs| && TallyOf(rs[..i], cutoff).Some?
    ensures TallyOf(rs[..i + 1], cutoff) == Visit(TallyOf(rs[..i], cutoff).value, rs[i], cutoff)
    ensures Visit(TallyOf(rs[..i], cutoff).value, rs[i], cutoff).None? ==> TallyOf(rs, cutoff).None?
  {
    assert rs[..i + 1] == rs[..i] + [rs[i]];
    TallySnoc(rs[..i], rs[i], cutoff);
    if TallyOf(rs[..i + 1], cutoff).None? {
      TallyPrefix(rs, i + 1, cutoff);
    }
  }

  /** The snapshot loop of `process_data`. */
  method ScanSnapshots(snapshots: seq<Dated>, cutoff: DateTime) returns (r: Option<Tally>)
    ensures r == TallyOf(snapshots, cutoff)
  {
    var staleCount := 0;
    var rows: seq<StaleRow> := [];
    var oldest: Option<DateTime> := None;
    var i := 0;
    while i < |snapshots|
      invariant 0 <= i <= |snapshots|
      invariant TallyOf(snapshots[..i], cutoff) == Some(Tally(i, staleCount, oldest, rows))
    {
      var s := snapshots[i];
      ScanStep(snapshots, i, cutoff);
      if IsStale(s, cutoff) {
        if s.region.None? {
          return None;
        }
        staleCount := staleCount + 1;
        rows := rows + [RowOf(s)];
      }
      if oldest.None? || Before(s.created, oldest.value) {
        oldest := Some(s.created);
      }
      i := i + 1;
    }
    assert snapshots[..i] == snapshots;
    r := Some(Tally(|snapshots|, staleCount, oldest, rows));
  }

  /** An image's `CreationDate`, parsed; None where `strptime` raises (missing or malformed text). */
  function CreationInstant(image: Image): Option<DateTime> {
    match image.created
    case None => None
    case Some(text) => ParseIso(text)
  }

  function WithInstant(image: Image, t: DateTime): Dated {
    Resource(image.name, image.id, t, image.region)
  }

  /** The images with parsed creation dates, or None if any one fails to parse. */
  function Resolve(images: seq<Image>): (r: Option<seq<Dated>>)
    ensures r.Some? ==> |r.value| == |images|
  {
    if images == [] then Some([])
    else
      var last := images[|images| - 1];
      match Resolve(images[..|images| - 1])
      case None => None
      case Some(init) =>
        match CreationInstant(last)
        case None => None
        case Some(t) => Some(init + [WithInstant(last, t)])
  }

  /** Resolving succeeds exactly when every creation date parses. */
  lemma {:induction false} ResolveSucceeds(images: seq<Image>)
    ensures Resolve(images).Some? <==> forall i :: 0 <= i < |images| ==> CreationInstant(images[i]).Some?
  {
    if images != [] {
      var init := images[..|images| - 1];
      ResolveSucceeds(init);
      assert forall i :: 0 <= i < |init| ==> images[i] == init[i];
    }
  }

  /** A resolved image keeps its name, id and region and takes its parsed creation date. */
  lemma {:induction false} ResolveAt(images: seq<Image>)
    requires Resolve(images).Some?
    ensures forall i :: 0 <= i < |images| ==>
      CreationInstant(images[i]).Some? &&
      Resolve(images).value[i] == WithInstant(images[i], CreationInstant(images[i]).value)
  {
    if images != [] {
      var init := images[..|images| - 1];
      ResolveAt(init);
      var r := Resolve(images).value;
      assert r == Resolve(init).value + [WithInstant(images[|images| - 1], CreationInstant(images[|images| - 1]).value)];
      forall i | 0 <= i < |images|
        ensures CreationInstant(images[i]).Some? && r[i] == WithInstant(images[i], CreationInstant(images[i]).value)
      {
        if i < |init| {
          assert images[i] == init[i];
        }
      }
    }
  }

  /** Resolving a prefix resolves to the prefix of the whole, and fails whenever the whole does not succeed. */
  lemma {:induction false} ResolvePrefix(images: seq<Image>, k: nat)
    requires k <= |images|
    ensures Resolve(images[..k]).None? ==> Resolve(images).None?
    ensures Resolve(images).Some? ==> Resolve(images[..k]) == Some(Resolve(images).value[..k])
    decreases |images|
  {
    if k < |images| {
      var init := images[..|images| - 1];
      assert init[..k] == images[..k];
      ResolvePrefix(init, k);
      if Resolve(images).Some? {
        assert Resolve(images).value[..k] == Resolve(init).value[..k];
      }
    } else {
      assert images[..k] == images;
      if Resolve(images).Some? {
        assert Resolve(images).value[..k] == Resolve(images).value;
      }
    }
  }

  /** The classification of the images: parse failure or an untagged stale image yields None. */
  function ImageTally(images: seq<Image>, cutoff: DateTime): (r: Option<Tally>)
    ensures r.Some? ==> r.value.total == |images| && r.value.stale <= r.value.total
    ensures r.Some? ==> (r.value.oldest.Some? <==> images != [])
  {
    match Resolve(images)
    case None => None
    case Some(rs) => TallyOf(rs, cutoff)
  }

  /** Resolving one more image of a prefix. */
  lemma ResolveStep(images: seq<Image>, i: nat)
    requires i < |images|
    ensures Resolve(images[..i + 1]) ==
      if Resolve(images[..i]).None? || CreationInstant(images[i]).None? then None
      else Some(Resolve(images[..i]).value + [WithInstant(images[i], CreationInstant(images[i]).value)])
  {
    assert images[..i + 1][..i] == images[..i];
  }

  /** A stale image without a region makes the whole image classification fail. */
  lemma UntaggedStaleImage(images: seq<Image>, i: nat, cutoff: DateTime)
    requires i < |images| && Resolve(images[..i + 1]).Some?
    requires var s := Resolve(images[..i + 1]).value[i]; IsStale(s, cutoff) && s.region.None?
    ensures ImageTally(images, cutoff).None?
  {
    ResolvePrefix(images, i + 1);
    var all := Resolve(images);
    if all.Some? {
      assert all.value[..i + 1][i] == all.value[i];
      StaleMembers(all.value, cutoff);
      TallyFacts(all.value, cutoff);
    }
  }

  /** Visiting image i: a date that does not parse, or a stale image without a region, fails
      the whole image classification; otherwise the resolved prefix and its tally grow by one. */
  lemma ImageStep(images: seq<Image>, i: nat, resolved: seq<Dated>, t: Tally, cutoff: DateTime)
    requires i < |images| && Resolve(images[..i]) == Some(resolved) && TallyOf(resolved, cutoff) == Some(t)
    ensures CreationInstant(images[i]).None? ==> ImageTally(images, cutoff).None?
    ensures CreationInstant(images[i]).Some? ==>
      var s := WithInstant(images[i], CreationInstant(images[i]).value);
      Resolve(images[..i + 1]) == Some(resolved + [s]) &&
      TallyOf(resolved + [s], cutoff) == Visit(t, s, cutoff) &&
      (Visit(t, s, cutoff).None? ==> ImageTally(images, cutoff).None?)
  {
    ResolveStep(images, i);
    if CreationInstant(images[i]).None? {
      ResolvePrefix(images, i + 1);
    } else {
      var s := WithInstant(images[i], CreationInstant(images[i]).value);
      TallySnoc(resolved, s, cutoff);
      if IsStale(s, cutoff) && s.region.None? {
        UntaggedStaleImage(images, i, cutoff);
      }
    }
  }

  /** The image loop of `process_data`: parses each creation date, then classifies it. */
  method ScanImages(images: seq<Image>, cutoff: DateTime) returns (r: Option<Tally>)
    ensures r == ImageTally(images, cutoff)
  {
    var staleCount := 0;
    var rows: seq<StaleRow> := [];
    var oldest: Option<DateTime> := None;
    ghost var resolved: seq<Dated> := [];
    var i := 0;
    while i < |images|
      invariant 0 <= i <= |images|
      invariant Resolve(images[..i]) == Some(resolved)
      invariant TallyOf(resolved, cutoff) == Some(Tally(i, staleCount, oldest, rows))
    {
      var image := images[i];
      ImageStep(images, i, resolved, Tally(i, staleCount, oldest, rows), cutoff);
      var parsed := CreationInstant(image);
      if parsed.None? {
        return None;
      }
      var s := WithInstant(image, parsed.value);
      if IsStale(s, cutoff) {
        if s.region.None? {
          return None;
        }
        staleCount := staleCount + 1;
        rows := rows + [RowOf(s)];
      }
      if oldest.None? || Before(s.created, oldest.value) {
        oldest := Some(s.created);
      }
      resolved := resolved + [s];
      i := i + 1;
    }
    assert images[..i] == images;
    r := Some(Tally(|images|, staleCount, oldest, rows));
  }

  /** The AMI section when there are no images at all: zero counts and no oldest line. */
  const AmiZeroText: string :=
    "AMIs:\nTotal AMIs created within the last 7 days: 0\nTotal AMIs created before the last 7 days: 0\n"

  /** The AMI section of a tally. */
  function AmiSummary(t: Tally): string
    requires t.total > 0 ==> t.oldest.Some?
    requires t.stale <= t.total
  {
    if t.total == 0 then AmiZeroText
    else SectionText("AMIs", "AMI", t.total - t.stale, t.stale, t.oldest.value)
  }

  /** The snapshot section of a tally. */
  function SnapshotSummary(t: Tally): string
    requires t.oldest.Some? && t.stale <= t.total
  {
    SectionText("Snapshots", "Snapshot", t.total - t.stale, t.stale, t.oldest.value)
  }

  /** What `process_data` returns: the summary text and the two stale-row lists. */
  datatype Processed = Processed(summary: string, amiRows: seq<StaleRow>, snapshotRows: seq<StaleRow>)

  /**
   * `process_data`: None when the cutoff overflows, an image date is missing or malformed,
   * a stale record lacks its region, or there are no snapshots at all (the snapshot
   * summary is then never bound).
   */
  function Process(images: seq<Image>, snapshots: seq<Dated>, now: DateTime): Option<Processed> {
    match CutoffOf(now)
    case None => None
    case Some(cutoff) =>
      match ImageTally(images, cutoff)
      case None => None
      case Some(ta) =>
        if snapshots == [] then None
        else match TallyOf(snapshots, cutoff)
          case None => None
          case Some(ts) =>
            Some(Processed(AmiSummary(ta) + SnapshotSummary(ts), ta.rows, ts.rows))
  }

  /** `process_data`, step by step. */
  method ProcessData(images: seq<Image>, snapshots: seq<Dated>, now: DateTime) returns (r: Option<Processed>)
    ensures r == Process(images, snapshots, now)
  {
    var cutoff := CutoffOf(now);
    if cutoff.None? {
      return None;
    }
    var ta := ScanImages(images, cutoff.value);
    if ta.None? {
      return None;
    }
    if snapshots == [] {
      return None;
    }
    var ts := ScanSnapshots(snapshots, cutoff.value);
    if ts.None? {
      return None;
    }
    var summary := AmiSummary(ta.value) + SnapshotSummary(ts.value);
    r := Some(Processed(summary, ta.value.rows, ts.value.rows));
  }

  /** The image classification fails exactly on a missing or malformed creation date or an untagged stale image. */
  lemma ImageTallyFailure(images: seq<Image>, cutoff: DateTime)
    ensures ImageTally(images, cutoff).None? <==>
      (exists i :: 0 <= i < |images| && CreationInstant(images[i]).None?) ||
      (Resolve(images).Some? && !StaleTagged(Resolve(images).value, cutoff))
  {
    ResolveSucceeds(images);
    if Resolve(images).Some? {
      TallyFacts(Resolve(images).value, cutoff);
    }
  }

  /** When `process_data` yields nothing: the cutoff overflows, the images fail to classify,
      there are no snapshots, or a stale snapshot has no region. */
  lemma ProcessFailure(images: seq<Image>, snapshots: seq<Dated>, now: DateTime)
    ensures Process(images, snapshots, now).None? <==>
      CutoffOf(now).None? ||
      ImageTally(images, CutoffOf(now).value).None? ||
      snapshots == [] ||
      !StaleTagged(snapshots, CutoffOf(now).value)
  {
    if CutoffOf(now).Some? {
      TallyFacts(snapshots, CutoffOf(now).value);
    }
  }

  /** On success the AMI rows are the order-preserving filter of the resolved images by
      staleness against the cutoff seven days before `now`, one row per stale image. */
  lemma ProcessImageRows(images: seq<Image>, snapshots: seq<Dated>, now: DateTime)
    requires Process(images, snapshots, now).Some?
    ensures CutoffOf(now).Some? && Resolve(images).Some?
    ensures var rows := Process(images, snapshots, now).value.amiRows;
      var st := Stale(Resolve(images).value, CutoffOf(now).value);
      |rows| == |st| <= |images| &&
      forall i :: 0 <= i < |st| ==> st[i].region.Some? && rows[i] == RowOf(st[i])
  {
    TallyRows(Resolve(images).value, CutoffOf(now).value);
  }

  /** On success the snapshot rows are the order-preserving filter of the snapshots by
      staleness against the same cutoff, one row per stale snapshot. */
  lemma ProcessSnapshotRows(images: seq<Image>, snapshots: seq<Dated>, now: DateTime)
    requires Process(images, snapshots, now).Some?
    ensures CutoffOf(now).Some?
    ensures var rows := Process(images, snapshots, now).value.snapshotRows;
      var st := Stale(snapshots, CutoffOf(now).value);
      |rows| == |st| <= |snapshots| &&
      forall i :: 0 <= i < |st| ==> st[i].region.Some? && rows[i] == RowOf(st[i])
  {
    TallyRows(snapshots, CutoffOf(now).value);
  }

  /** On success the summary counts, for each collection, the records created within the last seven
      days and those created before, and shows the date and time of the oldest record of all; with
      no images the AMI section is the fixed zero-count text. */
  lemma ProcessSummary(images: seq<Image>, snapshots: seq<Dated>, now: DateTime)
    requires Process(images, snapshots, now).Some?
    ensures CutoffOf(now).Some? && Resolve(images).Some? && snapshots != []
    ensures ImageTally(images, CutoffOf(now).value).Some? && TallyOf(snapshots, CutoffOf(now).value).Some?
    ensures var c := CutoffOf(now).value;
      var rs := Resolve(images).value;
      var ta := ImageTally(images, c).value;
      var ts := TallyOf(snapshots, c).value;
      ta.total == |images| && ta.stale == |Stale(rs, c)| <= |images| && ta.oldest == Oldest(rs) &&
      ts.total == |snapshots| && ts.stale == |Stale(snapshots, c)| <= |snapshots| && ts.oldest == Oldest(snapshots) &&
      ts.oldest.Some? && (images != [] ==> ta.oldest.Some?) &&
      Process(images, snapshots, now).value.summary ==
        (if ta.total == 0 then AmiZeroText else SectionText("AMIs", "AMI", ta.total - ta.stale, ta.stale, ta.oldest.value)) +
        SectionText("Snapshots", "Snapshot", ts.total - ts.stale, ts.stale, ts.oldest.value)
  {
    var c := CutoffOf(now).value;
    var rs := Resolve(images).value;
    TallyFacts(rs, c);
    TallyFacts(snapshots, c);
    var ta := ImageTally(images, c).value;
    var ts := TallyOf(snapshots, c).value;
    AmiSection(ta);
    SnapshotSection(ts);
    JoinEqual(Process(images, snapshots, now).value.summary, AmiSummary(ta), SnapshotSummary(ts),
      if ta.total == 0 then AmiZeroText else SectionText("AMIs", "AMI", ta.total - ta.stale, ta.stale, ta.oldest.value),
      SectionText("Snapshots", "Snapshot", ts.total - ts.stale, ts.stale, ts.oldest.value));
  }

  lemma AmiSection(t: Tally)
    requires t.stale <= t.total && (t.total > 0 ==> t.oldest.Some?)
    ensures AmiSummary(t) ==
      if t.total == 0 then AmiZeroText else SectionText("AMIs", "AMI", t.total - t.stale, t.stale, t.oldest.value)
  {
  }

  lemma SnapshotSection(t: Tally)
    requires t.stale <= t.total && t.oldest.Some?
    ensures SnapshotSummary(t) == SectionText("Snapshots", "Snapshot", t.total - t.stale, t.stale, t.oldest.value)
  {
  }

  lemma JoinEqual(s: string, a: string, b: string, x: string, y: string)
    requires s == a + b && a == x && b == y
    ensures s == x + y
  {
  }

  /** A parsed image's row shows the Date and Time of its own `CreationDate` text. */
  lemma ImageRowShowsCreationText(image: Image, t: DateTime)
    requires CreationInstant(image) == Some(t) && image.region.Some?
    ensures RowOf(WithInstant(image, t)).date == image.created.value[0..10]
    ensures RowOf(WithInstant(image, t)).time == image.created.value[11..19]
    ensures RowOf(WithInstant(image, t)).name == image.name.GetOr("N/A")
  {
    ParsedTextShown(image.created.value);
  }
}
