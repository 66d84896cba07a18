/**
 * The Report Builder (`upload_csv_to_s3`): the CSV-like document with its header
 * row, an AMIs section written only when stale images exist and a Snapshots
 * section always written; the file name and the object key it is stored under.
 */
module Report {
  import opened DateTimes
  import opened Records

  /** One write into the buffer: a raw text write, or one `csv_writer.writerow` of fields. */
  datatype Line = Raw(text: string) | Row(fields: seq<string>)

  const Header: seq<string> := ["Name", "ID", "Date", "Time(UTC)", "Region"]
  const AmiMarker: string := "\nAMIs\n"
  const SnapshotMarker: string := "\nSnapshots\n"
  const AmiPrefix: string := "AMIs__"
  const SnapshotStem: string := "Snapshots__before_7_days__"
  const Folder: string := "Old-AMI-Snapshot/"

  /** The five columns written for one stale item. */
  function Fields(r: StaleRow): seq<string> {
    [r.name, r.id, r.date, r.time, r.region]
  }

  function FieldsOf(rows: seq<StaleRow>): (fs: seq<seq<string>>)
    ensures |fs| == |rows|
    ensures forall i :: 0 <= i < |rows| ==> fs[i] == Fields(rows[i])
  {
    seq(|rows|, i requires 0 <= i < |rows| => Fields(rows[i]))
  }

  function RowLines(rows: seq<StaleRow>): (ls: seq<Line>)
    ensures |ls| == |rows|
    ensures forall i :: 0 <= i < |rows| ==> ls[i] == Row(Fields(rows[i]))
  {
    seq(|rows|, i requires 0 <= i < |rows| => Row(Fields(rows[i])))
  }

  /** The buffer's contents once the report is written. */
  function Document(amiRows: seq<StaleRow>, snapshotRows: seq<StaleRow>): seq<Line> {
    [Row(Header)] +
    (if amiRows != [] then [Raw(AmiMarker)] + RowLines(amiRows) else []) +
    [Raw(SnapshotMarker)] + RowLines(snapshotRows)
  }

  /** The part of `file_name` always written: the snapshot stem, the capture stamp and `.csv`. */
  function SnapshotFile(capturedAt: DateTime): string {
    SnapshotStem + StampText(capturedAt) + ".csv"
  }

  /** `file_name` as built: the AMIs prefix only when there are stale images. */
  function FileName(hasAmis: bool, capturedAt: DateTime): string {
    (if hasAmis then AmiPrefix else "") + SnapshotFile(capturedAt)
  }

  /** The object key: the fixed folder followed by the file name. */
  function ObjectKey(fileName: string): string {
    Folder + fileName
  }

  /** Writing row i after the rows before it gives the lines of the first i + 1 rows. */
  lemma AppendRow(start: seq<Line>, rows: seq<StaleRow>, i: nat)
    requires i < |rows|
    ensures start + RowLines(rows[..i]) + [Row(Fields(rows[i]))] == start + RowLines(rows[..i + 1])
  {
    assert RowLines(rows[..i + 1]) == RowLines(rows[..i]) + [Row(Fields(rows[i]))];
  }

  /** The document as the buffer receives it: header, optional AMIs section, Snapshots section. */
  lemma DocumentInOrder(amiRows: seq<StaleRow>, snapshotRows: seq<StaleRow>)
    ensures Document(amiRows, snapshotRows) ==
      (if amiRows != [] then [Row(Header), Raw(AmiMarker)] + RowLines(amiRows) else [Row(Header)]) +
      [Raw(SnapshotMarker)] + RowLines(snapshotRows)
  {
    if amiRows != [] {
      assert [Row(Header)] + ([Raw(AmiMarker)] + RowLines(amiRows)) == [Row(Header), Raw(AmiMarker)] + RowLines(amiRows);
    } else {
      assert [Row(Header)] + [] == [Row(Header)];
    }
  }

  /** The buffer writes and the file-name extension of `upload_csv_to_s3`, in order. */
  method WriteReport(amiRows: seq<StaleRow>, snapshotRows: seq<StaleRow>, capturedAt: DateTime)
    returns (document: seq<Line>, fileName: string)
    ensures document == Document(amiRows, snapshotRows)
    ensures fileName == FileName(amiRows != [], capturedAt)
  {
    var timestamp := StampText(capturedAt);
    document := [Row(Header)];
    fileName := "";
    if amiRows != [] {
      document := document + [Raw(AmiMarker)];
      ghost var start := document;
      assert document == start + RowLines(amiRows[..0]);
      for i := 0 to |amiRows|
        invariant document == start + RowLines(amiRows[..i])
      {
        AppendRow(start, amiRows, i);
        document := document + [Row(Fields(amiRows[i]))];
      }
      assert amiRows[..|amiRows|] == amiRows;
      fileName := AmiPrefix;
    }
    document := document + [Raw(SnapshotMarker)];
    ghost var start := document;
    assert document == start + RowLines(snapshotRows[..0]);
    for i := 0 to |snapshotRows|
      invariant document == start + RowLines(snapshotRows[..i])
    {
      AppendRow(start, snapshotRows, i);
      document := document + [Row(Fields(snapshotRows[i]))];
    }
    assert snapshotRows[..|snapshotRows|] == snapshotRows;
    DocumentInOrder(amiRows, snapshotRows);
    fileName := fileName + SnapshotStem + timestamp + ".csv";
    assert fileName == (if amiRows != [] then AmiPrefix else "") + (SnapshotStem + timestamp + ".csv");
  }

  /** Which section a reader of the document is in. */
  datatype Section = Preamble | InAmis | InSnapshots

  /** Reads a document back: the rows under the AMIs marker and the rows under the Snapshots marker. */
  function Read(doc: seq<Line>, section: Section): (seq<seq<string>>, seq<seq<string>>) {
    if doc == [] then ([], [])
    else match doc[0]
      case Raw(text) =>
        Read(doc[1..], if text == AmiMarker then InAmis else if text == SnapshotMarker then InSnapshots else section)
      case Row(fields) =>
        var (amis, snapshots) := Read(doc[1..], section);
        match section
        case Preamble => (amis, snapshots)
        case InAmis => ([fields] + amis, snapshots)
        case InSnapshots => (amis, [fields] + snapshots)
  }

  /** Rows read under `section` go in front of that section's list. */
  function Prepend(section: Section, fs: seq<seq<string>>, read: (seq<seq<string>>, seq<seq<string>>))
    : (seq<seq<string>>, seq<seq<string>>)
  {
    if section == InAmis then (fs + read.0, read.1) else (read.0, fs + read.1)
  }

  lemma {:induction false} ReadRows(rows: seq<StaleRow>, rest: seq<Line>, section: Section)
    requires section != Preamble
    ensures Read(RowLines(rows) + rest, section) == Prepend(section, FieldsOf(rows), Read(rest, section))
  {
    if rows != [] {
      var f := Fields(rows[0]);
      var tail := RowLines(rows[1..]) + rest;
      FirstRow(rows, rest);
      ReadRowLine(f, tail, section);
      ReadRows(rows[1..], rest, section);
      PrependTwice(section, [f], FieldsOf(rows[1..]), Read(rest, section));
    } else {
      assert RowLines(rows) + rest == rest;
      PrependNothing(section, FieldsOf(rows), Read(rest, section));
    }
  }

  lemma PrependTwice(section: Section, a: seq<seq<string>>, b: seq<seq<string>>,
                     read: (seq<seq<string>>, seq<seq<string>>))
    ensures Prepend(section, a, Prepend(section, b, read)) == Prepend(section, a + b, read)
  {
    assert a + (b + read.0) == a + b + read.0;
    assert a + (b + read.1) == a + b + read.1;
  }

  lemma PrependNothing(section: Section, fs: seq<seq<string>>, read: (seq<seq<string>>, seq<seq<string>>))
    requires fs == []
    ensures Prepend(section, fs, read) == read
  {
    assert fs + read.0 == read.0;
    assert fs + read.1 == read.1;
  }

  /** The first row's line comes first, and its fields first. */
  lemma FirstRow(rows: seq<StaleRow>, rest: seq<Line>)
    requires rows != []
    ensures RowLines(rows) + rest == [Row(Fields(rows[0]))] + (RowLines(rows[1..]) + rest)
    ensures FieldsOf(rows) == [Fields(rows[0])] + FieldsOf(rows[1..])
  {
    assert RowLines(rows) == [Row(Fields(rows[0]))] + RowLines(rows[1..]);
  }

  /** A row under a marker joins that marker's section. */
  lemma ReadRowLine(fields: seq<string>, rest: seq<Line>, section: Section)
    requires section != Preamble
    ensures Read([Row(fields)] + rest, section) == Prepend(section, [fields], Read(rest, section))
  {
    assert ([Row(fields)] + rest)[1..] == rest;
  }

  /** A raw write in front only switches the section. */
  lemma ReadRaw(text: string, rest: seq<Line>, section: Section)
    ensures Read([Raw(text)] + rest, section) ==
      Read(rest, if text == AmiMarker then InAmis else if text == SnapshotMarker then InSnapshots else section)
  {
    assert ([Raw(text)] + rest)[1..] == rest;
  }

  /** A row before any marker belongs to no section. */
  lemma ReadPreambleRow(fields: seq<string>, rest: seq<Line>)
    ensures Read([Row(fields)] + rest, Preamble) == Read(rest, Preamble)
  {
    assert ([Row(fields)] + rest)[1..] == rest;
  }

  /** The Snapshots section read from inside the AMIs section, or before it: its rows only. */
  lemma ReadSnapshotSection(snapshotRows: seq<StaleRow>, section: Section)
    requires section != InSnapshots
    ensures Read([Raw(SnapshotMarker)] + RowLines(snapshotRows), section) == ([], FieldsOf(snapshotRows))
  {
    ReadRaw(SnapshotMarker, RowLines(snapshotRows), section);
    assert SnapshotMarker != AmiMarker;
    ReadRows(snapshotRows, [], InSnapshots);
    assert RowLines(snapshotRows) + [] == RowLines(snapshotRows);
    assert FieldsOf(snapshotRows) + [] == FieldsOf(snapshotRows);
  }

  /** Reading the report back yields exactly the stale rows of each section, in order, and
      the header comes first. */
  lemma ReadDocument(amiRows: seq<StaleRow>, snapshotRows: seq<StaleRow>)
    ensures Document(amiRows, snapshotRows)[0] == Row(Header)
    ensures Read(Document(amiRows, snapshotRows), Preamble) == (FieldsOf(amiRows), FieldsOf(snapshotRows))
  {
    var tail := [Raw(SnapshotMarker)] + RowLines(snapshotRows);
    if amiRows != [] {
      var amis := RowLines(amiRows) + tail;
      assert Document(amiRows, snapshotRows) == [Row(Header)] + ([Raw(AmiMarker)] + amis);
      ReadPreambleRow(Header, [Raw(AmiMarker)] + amis);
      ReadRaw(AmiMarker, amis, Preamble);
      ReadRows(amiRows, tail, InAmis);
      ReadSnapshotSection(snapshotRows, InAmis);
      assert FieldsOf(amiRows) + [] == FieldsOf(amiRows);
    } else {
      assert Document(amiRows, snapshotRows) == [Row(Header)] + tail;
      ReadPreambleRow(Header, tail);
      ReadSnapshotSection(snapshotRows, Preamble);
      assert FieldsOf(amiRows) == [];
    }
  }

  /** The AMIs marker appears exactly when there are stale images; the Snapshots marker always,
      exactly once; and there is one row per stale item besides the header. */
  lemma DocumentSections(amiRows: seq<StaleRow>, snapshotRows: seq<StaleRow>)
    ensures Raw(AmiMarker) in Document(amiRows, snapshotRows) <==> amiRows != []
    ensures var doc := Document(amiRows, snapshotRows);
      var m := if amiRows != [] then |amiRows| + 2 else 1;
      |doc| == m + 1 + |snapshotRows| && doc[m] == Raw(SnapshotMarker) &&
      forall k :: 0 <= k < |doc| && k != m && doc[k].Raw? ==> doc[k] == Raw(AmiMarker) && k == 1
  {
    var doc := Document(amiRows, snapshotRows);
    if amiRows != [] {
      assert doc[1] == Raw(AmiMarker);
    } else {
      assert forall k :: 0 <= k < |doc| ==> doc[k] != Raw(AmiMarker) by {
        assert AmiMarker != SnapshotMarker;
      }
    }
  }

  /** A concatenation splits back into its two parts. */
  lemma SplitAt(p: string, q: string)
    ensures (p + q)[..|p|] == p && (p + q)[|p|..] == q
  {
  }

  /** The file name starts with `AMIs__` exactly when there are stale images, always ends with
      `Snapshots__before_7_days__<stamp>.csv`, and the key places it under the fixed folder. */
  lemma FileNameShape(hasAmis: bool, capturedAt: DateTime)
    ensures var name := FileName(hasAmis, capturedAt);
      var suffix := SnapshotFile(capturedAt);
      |name| >= |suffix| && name[|name| - |suffix|..] == suffix &&
      (|name| >= |AmiPrefix| && name[..|AmiPrefix|] == AmiPrefix <==> hasAmis) &&
      ObjectKey(name)[..|Folder|] == Folder && ObjectKey(name)[|Folder|..] == name
  {
    var name := FileName(hasAmis, capturedAt);
    var suffix := SnapshotFile(capturedAt);
    var prefix := if hasAmis then AmiPrefix else "";
    SplitAt(prefix, suffix);
    SplitAt(Folder, name);
    if !hasAmis {
      assert name == suffix;
      assert suffix[0] == SnapshotStem[0] == 'S';
      assert AmiPrefix[0] == 'A';
    }
  }
}
