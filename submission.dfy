/** `POST /submit`: build the rows, and when there are any, ensure the
    worksheet, append the rows and recolour its Result column. */
module Submission {
  import opened Values
  import opened Roster
  import opened Records
  import opened Workbook
  import opened Coloring

  /** A plain-text answer (`res.send`) or the rendered success page. */
  datatype Reply = Text(text: string) | Success(message: string)

  const NoMarksMessage := "No marks/grades entered!"

  /** `${className}-${subjectName}` */
  function SheetName(body: Body): string
  {
    Interpolated(Field(body, "className")) + "-" + Interpolated(SubjectOf(body))
  }

  function SuccessMessage(sheetName: string): string
  {
    "Data for " + sheetName + " submitted successfully!"
  }

  /** The rows handed to the append call. */
  function RowsOf(records: seq<Record>): seq<seq<string>>
  {
    seq(|records|, i requires 0 <= i < |records| => records[i].Cells())
  }

  /** The worksheets after a submission: untouched when it builds no row,
      ensure-then-append on its sheet otherwise. */
  function SubmittedSheets(sheets: Sheets, roster: seq<Student>, body: Body, timestamp: string, parse: Parser, newSheetId: int): Sheets
  {
    var records := SubmissionRecords(roster, body, timestamp, parse);
    if records == [] then sheets else Synced(sheets, SheetName(body), newSheetId, RowsOf(records))
  }

  /** The batch of colouring requests sent after the append: none for a
      grade subject, and none when the read-back column is empty. */
  function ColoringBatch(subject: Option<string>, sheet: Sheet): Option<seq<Request>>
  {
    if IsGradeSubject(subject) then None
    else
      var requests := ColoringRequests(sheet.id, ResultColumnValues(sheet.rows));
      if |requests| > 0 then Some(requests) else None
  }

  /** The handler. The worksheet id is chosen by the service when it adds a
      sheet and is passed in; the timestamp and number parsing likewise. The
      result `batch` is the batchUpdate of colouring requests, if one is sent. */
  method Submit(wb: Workbook, roster: seq<Student>, body: Body, timestamp: string, parse: Parser, newSheetId: int)
    returns (reply: Reply, batch: Option<seq<Request>>)
    modifies wb
    ensures wb.sheets == SubmittedSheets(old(wb.sheets), roster, body, timestamp, parse, newSheetId)
    ensures SubmissionRecords(roster, body, timestamp, parse) == [] ==>
      reply == Text(NoMarksMessage) && batch == None && wb.sheets == old(wb.sheets)
    ensures SubmissionRecords(roster, body, timestamp, parse) != [] ==>
      && wb.sheets == Synced(old(wb.sheets), SheetName(body), newSheetId, RowsOf(SubmissionRecords(roster, body, timestamp, parse)))
      && SheetName(body) in wb.sheets
      && batch == ColoringBatch(SubjectOf(body), wb.sheets[SheetName(body)])
      && reply == Success(SuccessMessage(SheetName(body)))
  {
    var records := SubmissionRecords(roster, body, timestamp, parse);
    if |records| == 0 {
      return Text(NoMarksMessage), None;
    }
    var sheetName := SheetName(body);
    var _ := wb.EnsureSheet(sheetName, newSheetId);
    wb.Append(sheetName, RowsOf(records));
    batch := None;
    if !IsGradeSubject(SubjectOf(body)) {
      var sheet := wb.sheets[sheetName];
      var requests := ColoringRequests(sheet.id, ResultColumnValues(sheet.rows));
      if |requests| > 0 {
        batch := Some(requests);
      }
    }
    reply := Success(SuccessMessage(sheetName));
  }

  /** A batch is sent exactly when the subject is not a grade subject and the
      sheet has a row below its header, and it then has one request per such
      row. */
  lemma ColoringBatchSent(subject: Option<string>, sheet: Sheet)
    ensures ColoringBatch(subject, sheet).Some? <==> !IsGradeSubject(subject) && |sheet.rows| > 1
    ensures ColoringBatch(subject, sheet).Some? ==> |ColoringBatch(subject, sheet).value| == |sheet.rows| - 1
  {
    RequestPerSheetRow(sheet.id, sheet.rows);
  }

  /** The last |records| rows of a sheet are coloured by their results: the
      colouring batch holds one request per row below the header, and the
      request for each of those rows covers its Result cell and is light red
      exactly when the record's result is "Fail". */
  ghost predicate ColouredByResult(sheet: Sheet, records: seq<Record>, subject: Option<string>)
  {
    var base := |sheet.rows| - |records|;
    && base >= 1
    && ColoringBatch(subject, sheet).Some?
    && |ColoringBatch(subject, sheet).value| == |sheet.rows| - 1
    && forall k :: 0 <= k < |records| ==>
      var req := ColoringBatch(subject, sheet).value[base - 1 + k];
      && req.range == GridRange(sheet.id, base + k, base + k + 1, ResultColumn, ResultColumn + 1)
      && (req.backgroundColor == LightRed <==> records[k].result == "Fail")
  }

  /** The request for the k-th of the last |records| rows of a sheet. */
  lemma TrailingRowRequest(sheet: Sheet, records: seq<Record>, k: nat)
    requires |sheet.rows| > |records| > k
    requires sheet.rows[|sheet.rows| - |records| + k] == records[k].Cells()
    requires records[k].result == "Pass" || records[k].result == "Fail"
    ensures |sheet.rows| - |records| - 1 + k < |ColoringRequests(sheet.id, ResultColumnValues(sheet.rows))|
    ensures var base := |sheet.rows| - |records|;
      var req := ColoringRequests(sheet.id, ResultColumnValues(sheet.rows))[base - 1 + k];
      && req.range == GridRange(sheet.id, base + k, base + k + 1, ResultColumn, ResultColumn + 1)
      && (req.backgroundColor == LightRed <==> records[k].result == "Fail")
  {
    ResultCellOf(records[k]);
    RequestForResultRow(sheet.id, sheet.rows, |sheet.rows| - |records| + k);
  }

  /** Rows below the header that hold records with results "Pass" or "Fail"
      are coloured by those results. */
  lemma TrailingRowsColoured(sheet: Sheet, records: seq<Record>, subject: Option<string>)
    requires !IsGradeSubject(subject) && records != []
    requires forall r :: r in records ==> r.result == "Pass" || r.result == "Fail"
    requires |sheet.rows| > |records| && sheet.rows[|sheet.rows| - |records|..] == RowsOf(records)
    ensures ColouredByResult(sheet, records, subject)
  {
    var base := |sheet.rows| - |records|;
    RequestPerSheetRow(sheet.id, sheet.rows);
    var requests := ColoringRequests(sheet.id, ResultColumnValues(sheet.rows));
    assert ColoringBatch(subject, sheet) == Some(requests);
    forall k | 0 <= k < |records|
      ensures requests[base - 1 + k].range == GridRange(sheet.id, base + k, base + k + 1, ResultColumn, ResultColumn + 1)
      ensures requests[base - 1 + k].backgroundColor == LightRed <==> records[k].result == "Fail"
    {
      assert records[k] in records;
      assert sheet.rows[base + k] == RowsOf(records)[k];
      TrailingRowRequest(sheet, records, k);
    }
  }

  /** Syncing such records into a sheet that holds its header row, or into a
      new one, colours the appended rows by their results. */
  lemma AppendedRowsColoured(sheets: Sheets, name: string, newSheetId: int, records: seq<Record>, subject: Option<string>)
    requires !IsGradeSubject(subject) && records != []
    requires forall r :: r in records ==> r.result == "Pass" || r.result == "Fail"
    requires name in sheets ==> sheets[name].rows != []
    ensures ColouredByResult(Synced(sheets, name, newSheetId, RowsOf(records))[name], records, subject)
  {
    var rows := RowsOf(records);
    SyncedSheets(sheets, name, newSheetId, rows);
    var sheet := Synced(sheets, name, newSheetId, rows)[name];
    var oldRows := if name in sheets then sheets[name].rows else [Header];
    assert sheet.rows == oldRows + rows;
    assert sheet.rows[|sheet.rows| - |records|..] == rows;
    TrailingRowsColoured(sheet, records, subject);
  }

  /** A marks submission that builds rows recolours the whole Result column
      of its sheet, and each newly appended row is light red exactly when its
      result is "Fail". */
  lemma NewRowsColouredByResult(sheets: Sheets, roster: seq<Student>, body: Body, timestamp: string, parse: Parser, newSheetId: int)
    requires !IsGradeSubject(SubjectOf(body))
    requires SubmissionRecords(roster, body, timestamp, parse) != []
    requires SheetName(body) in sheets ==> sheets[SheetName(body)].rows != []
    ensures ColouredByResult(Synced(sheets, SheetName(body), newSheetId, RowsOf(SubmissionRecords(roster, body, timestamp, parse)))[SheetName(body)],
      SubmissionRecords(roster, body, timestamp, parse), SubjectOf(body))
  {
    var records := SubmissionRecords(roster, body, timestamp, parse);
    assert forall r :: r in records ==> r.result == "Pass" || r.result == "Fail" by {
      RecordsShareSubmission(body, SubmittedStudents(roster, body), timestamp, parse);
    }
    AppendedRowsColoured(sheets, SheetName(body), newSheetId, records, SubjectOf(body));
  }

  /** Submitting twice to a sheet that did not exist creates it only when
      some submission builds a row. It then holds one header row, followed
      by both submissions' rows in order, under the id of the submission that
      created it. Every other worksheet is untouched. */
  lemma TwoSubmissionsOneHeader(sheets: Sheets, roster: seq<Student>, body1: Body, body2: Body,
                                ts1: string, ts2: string, parse: Parser, id1: int, id2: int)
    requires SheetName(body1) == SheetName(body2) && SheetName(body1) !in sheets
    ensures var name := SheetName(body1);
      var records1, records2 := SubmissionRecords(roster, body1, ts1, parse), SubmissionRecords(roster, body2, ts2, parse);
      var after := SubmittedSheets(SubmittedSheets(sheets, roster, body1, ts1, parse, id1), roster, body2, ts2, parse, id2);
      && after.Keys == (if records1 == [] && records2 == [] then sheets.Keys else sheets.Keys + {name})
      && (forall n :: n in sheets ==> after[n] == sheets[n])
      && (name in after ==> after[name] == Sheet(if records1 != [] then id1 else id2, [Header] + RowsOf(records1) + RowsOf(records2)))
  {
    var name := SheetName(body1);
    var records1, records2 := SubmissionRecords(roster, body1, ts1, parse), SubmissionRecords(roster, body2, ts2, parse);
    var rows1, rows2 := RowsOf(records1), RowsOf(records2);
    var middle := SubmittedSheets(sheets, roster, body1, ts1, parse, id1);
    if records1 != [] {
      SyncedSheets(sheets, name, id1, rows1);
      if records2 != [] {
        HeaderWrittenOnce(sheets, name, id1, id2, rows1, rows2);
        SyncedSheets(middle, name, id2, rows2);
      } else {
        assert rows2 == [];
      }
    } else {
      assert rows1 == [];
      if records2 != [] {
        SyncedSheets(sheets, name, id2, rows2);
      }
    }
  }
}
