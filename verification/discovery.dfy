/** Sheet discovery (finance_manager.py lines 98-116): the files listed in
    the drive folder are split into the one year-summary spreadsheet, found
    by its configured title, and a title-to-id table of month spreadsheets.
    Listing the folder is remote I/O; the model starts from the listing. */
module Discovery {
  import opened Wrappers
  import opened OrderedDict

  /** One entry of the folder listing. */
  datatype DriveFile = DriveFile(title: string, id: string)

  /** The month sheets by title, in listing order, and the year-summary id. */
  datatype SheetIndex = SheetIndex(months: Dict<string, string>, yearSummaryId: string)

  function Titles(files: seq<DriveFile>): (r: seq<string>)
    ensures |r| == |files|
    ensures forall i :: 0 <= i < |files| ==> r[i] == files[i].title
  {
    seq(|files|, i requires 0 <= i < |files| => files[i].title)
  }

  /** The loop of `find_sheets`: every file titled `yearName` overwrites the
      year-summary id, every other file is stored under its title. */
  function FindSheets(files: seq<DriveFile>, yearName: string): (r: SheetIndex)
    ensures Valid(r.months)
    ensures yearName !in KeySeq(r.months)
    decreases |files|
  {
    if |files| == 0 then SheetIndex([], "")
    else
      var prev := FindSheets(files[..|files| - 1], yearName);
      var f := files[|files| - 1];
      if f.title == yearName then prev.(yearSummaryId := f.id)
      else prev.(months := Put(prev.months, f.title, f.id))
  }

  /** The position of the last file titled `t`, if any. */
  function LastIndex(files: seq<DriveFile>, t: string): (r: Option<nat>)
    ensures r.Some? ==> r.value < |files| && files[r.value].title == t
    ensures r.Some? ==> forall j :: r.value < j < |files| ==> files[j].title != t
    ensures r.None? <==> t !in Titles(files)
  {
    if |files| == 0 then None
    else if files[|files| - 1].title == t then Some(|files| - 1)
    else
      var r := LastIndex(files[..|files| - 1], t);
      assert Titles(files) == Titles(files[..|files| - 1]) + [files[|files| - 1].title];
      r
  }

  /** The position of the first file titled `t`, or `|files|` if none is. */
  function FirstIndex(files: seq<DriveFile>, t: string): (r: nat)
    ensures r <= |files|
    ensures r < |files| ==> files[r].title == t
    ensures forall j :: 0 <= j < r ==> files[j].title != t
    ensures r < |files| <==> t in Titles(files)
  {
    if |files| == 0 then 0
    else
      var p := files[..|files| - 1];
      var k := FirstIndex(p, t);
      assert Titles(files) == Titles(p) + [files[|files| - 1].title];
      if k < |p| then k
      else if files[|files| - 1].title == t then |files| - 1
      else |files|
  }

  /** The year-summary id is that of the last file with the configured
      title, or '' when there is none. */
  lemma {:induction false} SummaryIdLookup(files: seq<DriveFile>, yearName: string)
    ensures FindSheets(files, yearName).yearSummaryId
         == (match LastIndex(files, yearName)
             case Some(i) => files[i].id
             case None => "")
    decreases |files|
  {
    if |files| > 0 {
      SummaryIdLookup(files[..|files| - 1], yearName);
    }
  }

  /** A month title maps to the id of the last file bearing it. */
  lemma {:induction false} MonthLookup(files: seq<DriveFile>, yearName: string, t: string)
    requires t != yearName
    ensures Get(FindSheets(files, yearName).months, t)
         == (match LastIndex(files, t)
             case Some(i) => Some(files[i].id)
             case None => None)
    decreases |files|
  {
    if |files| > 0 {
      MonthLookup(files[..|files| - 1], yearName, t);
    }
  }

  /** What `find_sheets` returns for one title: the year-summary title never
      enters the month table and its last file's id (or '') is the summary
      id; every other title maps to the id of the last file bearing it. */
  lemma FindSheetsLookup(files: seq<DriveFile>, yearName: string, t: string)
    ensures var r := FindSheets(files, yearName);
            t == yearName ==>
              r.yearSummaryId == (match LastIndex(files, t)
                                  case Some(i) => files[i].id
                                  case None => "")
    ensures var r := FindSheets(files, yearName);
            t != yearName ==>
              Get(r.months, t) == (match LastIndex(files, t)
                                   case Some(i) => Some(files[i].id)
                                   case None => None)
  {
    SummaryIdLookup(files, yearName);
    if t != yearName {
      MonthLookup(files, yearName, t);
    }
  }

  /** The month table holds exactly the titles other than `yearName`. */
  lemma {:induction false} FindSheetsKeys(files: seq<DriveFile>, yearName: string)
    ensures var keys := KeySeq(FindSheets(files, yearName).months);
            forall t :: t in keys <==> t != yearName && t in Titles(files)
    decreases |files|
  {
    if |files| > 0 {
      var p := files[..|files| - 1];
      FindSheetsKeys(p, yearName);
      assert Titles(files) == Titles(p) + [files[|files| - 1].title];
    }
  }

  /** Titles seen before the last file keep their first position. */
  lemma FirstIndexPrefix(files: seq<DriveFile>, t: string)
    requires |files| > 0 && t in Titles(files[..|files| - 1])
    ensures FirstIndex(files, t) == FirstIndex(files[..|files| - 1], t)
  {
  }

  /** One more file either leaves the month table's keys as they were or
      appends its title, which was not listed before. */
  lemma FindSheetsStep(files: seq<DriveFile>, yearName: string)
    requires |files| > 0
    ensures var p := files[..|files| - 1];
            var t := files[|files| - 1].title;
            var prev := KeySeq(FindSheets(p, yearName).months);
            var keys := KeySeq(FindSheets(files, yearName).months);
            keys == prev || (keys == prev + [t] && t !in Titles(p))
  {
    var p := files[..|files| - 1];
    var t := files[|files| - 1].title;
    FindSheetsKeys(p, yearName);
  }

  /** `keys` are ordered by the position of their first file. */
  ghost predicate InFirstOrder(files: seq<DriveFile>, keys: seq<string>) {
    forall i, j :: 0 <= i < j < |keys| ==> FirstIndex(files, keys[i]) < FirstIndex(files, keys[j])
  }

  /** Appending a file keeps the first positions of the titles listed
      before it, all of which lie before the new file. */
  lemma OrderKept(files: seq<DriveFile>, prev: seq<string>)
    requires |files| > 0
    requires forall k :: 0 <= k < |prev| ==> prev[k] in Titles(files[..|files| - 1])
    requires InFirstOrder(files[..|files| - 1], prev)
    ensures InFirstOrder(files, prev)
    ensures forall k :: 0 <= k < |prev| ==> FirstIndex(files, prev[k]) < |files| - 1
  {
    var p := files[..|files| - 1];
    forall k | 0 <= k < |prev|
      ensures FirstIndex(files, prev[k]) == FirstIndex(p, prev[k]) < |p|
    {
      FirstIndexPrefix(files, prev[k]);
    }
  }

  /** A title first listed by the appended file comes after all earlier ones. */
  lemma OrderExtended(files: seq<DriveFile>, prev: seq<string>)
    requires |files| > 0
    requires forall k :: 0 <= k < |prev| ==> prev[k] in Titles(files[..|files| - 1])
    requires InFirstOrder(files[..|files| - 1], prev)
    requires files[|files| - 1].title !in Titles(files[..|files| - 1])
    ensures InFirstOrder(files, prev + [files[|files| - 1].title])
  {
    var t := files[|files| - 1].title;
    var keys := prev + [t];
    OrderKept(files, prev);
    assert FirstIndex(files, t) == |files| - 1;
    forall i, j | 0 <= i < j < |keys|
      ensures FirstIndex(files, keys[i]) < FirstIndex(files, keys[j])
    {
      assert keys[i] == prev[i];
      if j < |prev| {
        assert keys[j] == prev[j];
      }
    }
  }

  /** One more file keeps the month table's keys in first-listing order. */
  lemma OrderStep(files: seq<DriveFile>, prev: seq<string>, keys: seq<string>)
    requires |files| > 0
    requires forall k :: 0 <= k < |prev| ==> prev[k] in Titles(files[..|files| - 1])
    requires InFirstOrder(files[..|files| - 1], prev)
    requires keys == prev || (keys == prev + [files[|files| - 1].title]
                              && files[|files| - 1].title !in Titles(files[..|files| - 1]))
    ensures InFirstOrder(files, keys)
  {
    if keys == prev {
      OrderKept(files, prev);
    } else {
      OrderExtended(files, prev);
    }
  }

  /** The month table lists its titles in the order in which they first
      appear in the listing (Python dicts keep first-insertion order). */
  lemma {:induction false} FindSheetsOrder(files: seq<DriveFile>, yearName: string)
    ensures var keys := KeySeq(FindSheets(files, yearName).months);
            forall i, j :: 0 <= i < j < |keys| ==>
              FirstIndex(files, keys[i]) < FirstIndex(files, keys[j])
    decreases |files|
  {
    if |files| > 0 {
      var p := files[..|files| - 1];
      FindSheetsOrder(p, yearName);
      FindSheetsKeys(p, yearName);
      FindSheetsStep(files, yearName);
      var prev := KeySeq(FindSheets(p, yearName).months);
      var keys := KeySeq(FindSheets(files, yearName).months);
      OrderStep(files, prev, keys);
    }
  }
}
