/**
 * The Entry Point (`lambda_handler`): collect, stop when there is nothing at all,
 * classify, stop when no snapshot is stale, otherwise write the report and notify.
 * An exception anywhere (notably when classification yields nothing) turns into
 * the failure response.
 */
module Handler {
  import opened Wrappers
  import opened DateTimes
  import opened Records
  import opened Collect
  import opened Classify
  import opened Report
  import opened Account

  /** What the notification carries: the account id, the classifier's summary and the report's key. */
  datatype Notice = Notice(accountId: Option<string>, summary: string, key: string)

  datatype Outcome =
    | NoResources                                         // nothing listed in any region
    | NoStaleSnapshots                                    // classified, but no stale snapshot
    | Reported(document: seq<Line>, notice: Option<Notice>) // report built; notice None when the upload or the notification failed
    | Crashed                                             // caught at the top level

  /** The response's `statusCode`. */
  function StatusCode(outcome: Outcome): int {
    if outcome.Crashed? then 500 else 200
  }

  /**
   * The handler's branches, given what was collected. `stored` says whether
   * `put_object` succeeded; when it did not, `upload_csv_to_s3` returns None and
   * `publish_sns_notification` fails inside its own handler, so nothing is published.
   * `published` says whether `generate_presigned_url` and `sns.publish` succeeded; when
   * either raises, `publish_sns_notification` catches it, nothing is delivered and the
   * response is still 200.
   */
  function Decide(accountId: Option<string>, images: seq<Image>, snapshots: seq<Dated>,
                  now: DateTime, capturedAt: DateTime, stored: bool, published: bool): Outcome
  {
    if |images| == 0 && |snapshots| == 0 then NoResources
    else match Process(images, snapshots, now)
      case None => Crashed
      case Some(p) =>
        if |p.snapshotRows| == 0 then NoStaleSnapshots
        else
          var key := ObjectKey(FileName(p.amiRows != [], capturedAt));
          Reported(Document(p.amiRows, p.snapshotRows),
                   if stored && published then Some(Notice(accountId, p.summary, key)) else None)
  }

  /** `lambda_handler`, step by step, with the listing responses, clock readings and the results
      of the upload and of the notification as inputs. */
  method Handle(context: Context, regions: Option<seq<Region>>, now: DateTime, capturedAt: DateTime,
                stored: bool, published: bool)
    returns (outcome: Outcome)
    ensures outcome == Decide(AccountId(context), AllImages(regions), AllSnapshots(regions), now, capturedAt, stored, published)
  {
    var accountId := AccountId(context);
    var images, snapshots := Retrieve(regions);
    if |images| == 0 && |snapshots| == 0 {
      return NoResources;
    }
    var processed := ProcessData(images, snapshots, now);
    if processed.None? {
      return Crashed;
    }
    var p := processed.value;
    if |p.snapshotRows| == 0 {
      return NoStaleSnapshots;
    }
    var document, fileName := WriteReport(p.amiRows, p.snapshotRows, capturedAt);
    var notice := if stored && published then Some(Notice(accountId, p.summary, ObjectKey(fileName))) else None;
    outcome := Reported(document, notice);
  }

  /** The report is written and a notice sent only when something was listed, classification
      succeeded and at least one snapshot is stale; stale images alone never lead there. */
  lemma Gating(accountId: Option<string>, images: seq<Image>, snapshots: seq<Dated>,
               now: DateTime, capturedAt: DateTime, stored: bool, published: bool)
    ensures var o := Decide(accountId, images, snapshots, now, capturedAt, stored, published);
      (o == NoResources <==> images == [] && snapshots == []) &&
      (o == Crashed <==> (images != [] || snapshots != []) && Process(images, snapshots, now).None?) &&
      (o == NoStaleSnapshots <==> (images != [] || snapshots != []) && Process(images, snapshots, now).Some? &&
                                  Process(images, snapshots, now).value.snapshotRows == []) &&
      (o.Reported? <==> Process(images, snapshots, now).Some? && Process(images, snapshots, now).value.snapshotRows != []) &&
      (StatusCode(o) == 500 <==> o == Crashed)
    ensures var o := Decide(accountId, images, snapshots, now, capturedAt, stored, published);
      o.Reported? ==>
        var p := Process(images, snapshots, now).value;
        o.document == Document(p.amiRows, p.snapshotRows) &&
        (o.notice.Some? <==> stored && published) &&
        (o.notice.Some? ==> o.notice.value.key == Folder + FileName(p.amiRows != [], capturedAt) &&
                            o.notice.value.accountId == accountId && o.notice.value.summary == p.summary)
  {
    if images == [] && snapshots == [] {
      ProcessFailure(images, snapshots, now);
    }
  }

  /** With images listed but no snapshot at all, the snapshot summary is never bound:
      classification yields nothing and the handler answers 500. */
  lemma ImagesWithoutSnapshotsFail(accountId: Option<string>, images: seq<Image>,
                                   now: DateTime, capturedAt: DateTime, stored: bool, published: bool)
    requires images != []
    ensures Decide(accountId, images, [], now, capturedAt, stored, published) == Crashed
    ensures StatusCode(Decide(accountId, images, [], now, capturedAt, stored, published)) == 500
  {
    ProcessFailure(images, [], now);
  }

  /** Stale images without a stale snapshot never produce a report. */
  lemma StaleImagesAloneDoNotReport(accountId: Option<string>, images: seq<Image>, snapshots: seq<Dated>,
                                    now: DateTime, capturedAt: DateTime, stored: bool, published: bool)
    requires Process(images, snapshots, now).Some?
    requires Process(images, snapshots, now).value.amiRows != []
    requires Process(images, snapshots, now).value.snapshotRows == []
    ensures Decide(accountId, images, snapshots, now, capturedAt, stored, published) == NoStaleSnapshots
  {
    ProcessSnapshotRows(images, snapshots, now);
  }
}
