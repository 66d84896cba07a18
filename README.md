# Stale AMI and snapshot detection — a Dafny model

This project models the data pipeline of a scheduled AWS Lambda function
(`lambda_function.py`). The function lists the account's own machine images
(AMIs) and EBS snapshots in every region and stamps each record with its
region. It flattens the per-region lists and classifies every record against
one cutoff, `now − 7 days`. It then builds a CSV-like report of the stale
records, stores it under `Old-AMI-Snapshot/`, and publishes a notification.
The cloud calls are inputs here. The model covers what the function decides
and computes from their results:

- `Collect`: stamping regions in place, per-region failure isolation, and
  in-order flattening (`get_amis_in_region`, `get_snapshots_in_region`,
  `retrieve_amis_snapshots_data`).
- `DateTimes`: naive datetimes and their ordering. Also the 7-day subtraction
  (with Python's `toordinal` as the reference), the `strftime` projections, and
  the `strptime` parse of `CreationDate`.
- `Classify`: `process_data`. It has two scanning loops proved against a
  filter, map and minimum specification, the summary text, and its failure
  cases.
- `Summary` and `Decimal`: the summary's sections, with the counts written as
  Python writes an `int` and read back from the text.
- `Report`: the buffer writes, file name and object key of
  `upload_csv_to_s3`, with a reader that inverts the document.
- `Account`: `get_account_id_from_context` and the colon split it relies on.
- `Handler`: the branches of `lambda_handler` and its status code.

Behaviour worth knowing, as the code has it:

- `process_data` yields `None` in four cases: the cutoff would fall before year 1;
  an image's `CreationDate` is missing or malformed; a stale record has no
  `Region`; or the snapshot list is empty (line 153 then reads the unbound
  `snapshot_message`). The handler unpacks that `None`, raises, and answers 500.
  So an account with images but no snapshots always gets a 500.
- Only stale snapshots gate the report (line 246). Stale images alone never
  produce one.
- The account id is field index 4 of the colon-split ARN (its fifth field).
- A malformed timestamp leads to the 500 response described above.
- Flattening preserves region order, because `executor.map` keeps input order.
- A failed upload, pre-signed URL or publish is caught inside its own helper.
  Nothing is delivered and the response is still 200.

## Model

| member | source | states |
|---|---|---|
| `DateTimes.MinusDaysOrdinal` | lambda_function.py:90 | subtracting n days lowers the ordinal by exactly n and keeps the time of day; the result is strictly earlier, and it fails exactly when it would precede 0001-01-01 |
| `DateTimes.PrevDayOrdinal` | lambda_function.py:90 | one calendar day back is one ordinal day back, at the same time of day, and exists iff the date is after 0001-01-01 |
| `DateTimes.YearLength` | lambda_function.py:90 | the closed form for days before a year grows by 366 across a leap year and 365 otherwise |
| `DateTimes.ParseIsoCanonical` | lambda_function.py:111-113 | every `CreationDate` text that `strptime` accepts is the `%Y-%m-%dT%H:%M:%S.%fZ` rendering of the parsed date-time, once `T` and `Z` are upper-cased and the fraction is zero-padded on the right to six digits |
| `DateTimes.ParseIsoText` | lambda_function.py:113 | parsing the `%Y-%m-%dT%H:%M:%S.%fZ` rendering of any date-time gives that date-time back |
| `DateTimes.ParsedTextShown` | lambda_function.py:113-120 | the Date and Time projections of a parsed creation date are the date and time characters of its text |
| `DateTimes.BeforeIsStrictTotalOrder` | lambda_function.py:114 | comparison of naive datetimes is irreflexive, asymmetric, transitive and total |
| `Classify.CutoffIsSevenDaysEarlier` | lambda_function.py:90 | the cutoff is exactly seven ordinal days before now at the same time of day; it exists iff now is past the seventh day of year 1; a record created exactly at the cutoff is not stale |
| `Classify.StaleMembers` | lambda_function.py:114-116 | the stale list holds exactly the records created strictly before the cutoff |
| `Classify.StaleConcat` | lambda_function.py:110-122 | the stale filter distributes over concatenation, so it keeps input order |
| `Classify.RowsAt` | lambda_function.py:116-122 | stale row i is built from stale record i |
| `Classify.OldestIsMinimum` | lambda_function.py:124-127 | for a non-empty collection the tracked instant is a creation instant of some record, and no record, stale or not, is earlier; it is absent iff the collection is empty |
| `Classify.TallySnoc` | lambda_function.py:132-145 | visiting one more record adds one to the stale count and one row when it is stale, updates the oldest instant, and fails on a stale record without a region |
| `Classify.TallyRows` | lambda_function.py:114-122 | a successful tally holds one row per stale record, in order, each record carrying a region and row i built from stale record i |
| `Classify.TallyFacts` | lambda_function.py:97-100 | classification fails iff a stale record lacks its region; otherwise the stale count equals the number of rows, is at most the total, the rows are the stale filter mapped to rows, and the oldest instant exists iff there are records |
| `Classify.ScanSnapshots` | lambda_function.py:131-148 | the snapshot loop computes the counts, rows and oldest instant of the specification tally |
| `Classify.ResolveSucceeds` | lambda_function.py:110-113 | image dates resolve iff every `CreationDate` is present and parses |
| `Classify.ResolveAt` | lambda_function.py:110-121 | resolved image i keeps image i's name, id and region and takes its parsed `CreationDate` |
| `Classify.ScanImages` | lambda_function.py:104-128 | the image loop, which parses each date before classifying it, computes the specification tally of the resolved images, or fails as it does |
| `Classify.ImageTallyFailure` | lambda_function.py:110-121 | image classification fails iff some creation date is missing or malformed, or a stale image lacks its region |
| `Classify.ProcessData` | lambda_function.py:86-161 | `process_data` step by step equals its specification: the cutoff, both tallies and the joined summary |
| `Classify.ProcessFailure` | lambda_function.py:131-161 | `process_data` yields nothing iff the cutoff overflows, the images fail to classify, the snapshot list is empty, or a stale snapshot lacks its region |
| `Classify.ProcessImageRows` | lambda_function.py:110-121 | on success the AMI rows are as many as the resolved images created before the cutoff, in order, and row i is built from the i-th of them, which carries a region; there are no more rows than images |
| `Classify.ProcessSnapshotRows` | lambda_function.py:131-143 | on success the snapshot rows are as many as the snapshots created before the same cutoff, in order, and row i is built from the i-th of them; there are no more rows than snapshots |
| `Classify.ProcessSummary` | lambda_function.py:97-153 | on success the summary is the AMI section followed by the snapshot section. With no images the AMI section is the fixed zero-count text; otherwise each section carries total − stale recent records, the stale count, and the oldest instant over all records of its collection |
| `Summary.SectionCounts` | lambda_function.py:126-129 | in a section both counts sit right after their labels as the decimal text of the count (which `Decimal.ValueOfText` reads back to the count), each followed by a line break; the section ends with the line holding the oldest record's date and time |
| `Decimal.ValueOfText` | lambda_function.py:129 | the decimal text Python writes for a non-negative `int` reads back to that number |
| `Classify.ImageRowShowsCreationText` | lambda_function.py:116-121 | a stale image's row shows the date and time characters of its `CreationDate` text and its name, or 'N/A' when it has none |
| `Collect.StampRegion` | lambda_function.py:41-42 | the in-place loop sets every record's region to the given region and changes nothing else |
| `Collect.CollectInRegion` | lambda_function.py:36-60 | a region's result is its listed records in order, each stamped with the region; a failed listing gives an empty list |
| `Collect.CollectAll` | lambda_function.py:71-79 | mapping over the regions and flattening yields the in-order concatenation of the stamped per-region lists |
| `Collect.Retrieve` | lambda_function.py:63-83 | the aggregate images and snapshots are the flattened per-region results; unlisted regions give two empty lists |
| `Collect.FlattenConcat` | lambda_function.py:78-79 | flattening distributes over concatenation of the region lists, for contents and for length |
| `Collect.FlattenContents` | lambda_function.py:78-79 | the flattened list's length is the sum of the per-region lengths, and it holds exactly their elements |
| `Collect.AggregateRegions` | lambda_function.py:41-42 | every aggregated image and snapshot carries the name of a listed region, and the image aggregate is as long as all regional lists together |
| `Report.WriteReport` | lambda_function.py:167-185 | the step-by-step buffer writes produce the report document, and the file name extended in place is the specified one |
| `Report.ReadDocument` | lambda_function.py:172-184 | the header row comes first, and reading the document back yields exactly the stale AMI rows under the AMIs section and the stale snapshot rows under the Snapshots section, each in list order |
| `Report.DocumentSections` | lambda_function.py:176-183 | the AMIs marker appears iff there are stale AMIs; the Snapshots marker always appears, once; there is one row line per stale item besides the header |
| `Report.FileNameShape` | lambda_function.py:174-191 | the file name starts with `AMIs__` iff stale AMIs exist and always ends with `Snapshots__before_7_days__<stamp>.csv`; the key is `Old-AMI-Snapshot/` followed by the file name |
| `Account.SplitJoin` | lambda_function.py:29 | splitting on a separator yields separator-free fields, one more than there are separators, that join back to the text |
| `Account.SplitUnique` | lambda_function.py:29 | separator-free fields are recovered by splitting their join |
| `Account.AccountIdFacts` | lambda_function.py:26-33 | an id is found iff the context has an ARN with at least four colons; it is then field index 4 of the unique colon-free decomposition of the ARN, and otherwise the result is None |
| `Handler.Handle` | lambda_function.py:232-270 | the handler's steps (account id, retrieval, classification, report) produce the outcome its decision function specifies |
| `Handler.Gating` | lambda_function.py:240-265 | no report iff nothing was listed; a 500 iff classification of listed records fails; report and notice iff classification succeeds with a stale snapshot. The notice exists iff both the upload and the notification succeeded, and it carries the key, account id and summary |
| `Handler.ImagesWithoutSnapshotsFail` | lambda_function.py:131-161 | images listed without any snapshot always end in the failure response |
| `Handler.StaleImagesAloneDoNotReport` | lambda_function.py:245-247 | stale images without a stale snapshot never produce a report |

## Left out

- Cloud calls (`describe_regions`, `describe_images`, `describe_snapshots`, `put_object`, `generate_presigned_url`, `sns.publish`): network I/O through boto3. Their results are inputs: the region list (None when listing fails), each region's responses (None when a call fails), `stored`, which says whether the upload succeeded, and `published`, which says whether the pre-signed URL and the publish succeeded.
- The `ThreadPoolExecutor` fan-out: it only adds concurrency. It is modelled as a sequential map over the regions, which keeps their order as `executor.map` does.
- Logging and the environment variables `ACCOUNT_NAME`, `BUCKET_NAME` and `TOPIC_ARN`: global side effects and configuration.
- `datetime.now()`: the classification instant `now` and the file-name instant `capturedAt` are parameters. The Lambda's local clock is taken to be UTC.
- Time zones: a snapshot's `StartTime` is taken to be the naive value left after `replace(tzinfo=None)`.
- The notification's subject and message text and the pre-signed URL: plain string building with no property beyond embedding the key. The `Notice` keeps the account id, the summary and the key. The account name is not modelled.
- `json.dumps` of the response body: only the status code is modelled.
- `csv.writer` quoting, escaping and `\r\n` line ends: a row is its sequence of fields.
- `DateTimes.ParseIso`: accepts only the canonical fixed-width fields. Python's `strptime` also accepts one-digit month, day, hour, minute and second, a space-padded day, and non-ASCII decimal digits. The model rejects those.
- `DateTimes.DateText`: `%Y` is always padded to four digits. glibc's `strftime` prints years below 1000 without padding.
- Missing keys other than those modelled are left out: a snapshot without `StartTime` and a region without `RegionName` cannot be expressed.
- The `fold` attribute of Python datetimes is not modelled. It plays no part in comparisons.
