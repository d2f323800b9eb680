/** The spreadsheet the handler writes to, as an abstract workbook: worksheet
    name to worksheet. Only the two writes the handler makes are modelled:
    adding a worksheet with its header, and appending rows. */
module Workbook {
  import opened Records

  /** A worksheet: the numeric id the service gave it, and its rows from
      row 1 on. */
  datatype Sheet = Sheet(id: int, rows: seq<seq<string>>)

  type Sheets = map<string, Sheet>

  /** The worksheets after "create it with its header if absent". */
  function WithSheet(sheets: Sheets, name: string, newId: int): Sheets
  {
    if name in sheets then sheets else sheets[name := Sheet(newId, [Header])]
  }

  /** The worksheets after appending rows at the first free row of one. */
  function WithRows(sheets: Sheets, name: string, rows: seq<seq<string>>): Sheets
    requires name in sheets
  {
    sheets[name := sheets[name].(rows := sheets[name].rows + rows)]
  }

  /** Ensure, then append: what a submission does to the workbook. */
  function Synced(sheets: Sheets, name: string, newId: int, rows: seq<seq<string>>): Sheets
  {
    WithRows(WithSheet(sheets, name, newId), name, rows)
  }

  /** After a sync the target sheet holds its old rows, or the header when it
      is new, followed by the appended rows; every other sheet is untouched. */
  lemma SyncedSheets(sheets: Sheets, name: string, newId: int, rows: seq<seq<string>>)
    ensures Synced(sheets, name, newId, rows).Keys == sheets.Keys + {name}
    ensures Synced(sheets, name, newId, rows)[name] ==
      if name in sheets then Sheet(sheets[name].id, sheets[name].rows + rows)
      else Sheet(newId, [Header] + rows)
    ensures forall n :: n in sheets && n != name ==> Synced(sheets, name, newId, rows)[n] == sheets[n]
  {
  }

  /** A second submission to the same sheet appends below the first one's
      rows and writes no second header. */
  lemma HeaderWrittenOnce(sheets: Sheets, name: string, id1: int, id2: int, rows1: seq<seq<string>>, rows2: seq<seq<string>>)
    requires name !in sheets
    ensures Synced(Synced(sheets, name, id1, rows1), name, id2, rows2)[name] == Sheet(id1, [Header] + rows1 + rows2)
  {
    SyncedSheets(sheets, name, id1, rows1);
    SyncedSheets(Synced(sheets, name, id1, rows1), name, id2, rows2);
  }

  class Workbook {
    var sheets: Sheets

    constructor (initial: Sheets)
      ensures sheets == initial
    {
      sheets := initial;
    }

    /** Adds the worksheet with its 12-column header when no worksheet has
        that name; reports whether it did. */
    method EnsureSheet(name: string, newId: int) returns (created: bool)
      modifies this
      ensures created <==> name !in old(sheets)
      ensures sheets == WithSheet(old(sheets), name, newId)
    {
      created := name !in sheets;
      if created {
        sheets := sheets[name := Sheet(newId, [Header])];
      }
    }

    /** Appends rows below the last row of an existing worksheet. */
    method Append(name: string, rows: seq<seq<string>>)
      requires name in sheets
      modifies this
      ensures sheets == WithRows(old(sheets), name, rows)
    {
      var sheet := sheets[name];
      sheets := sheets[name := Sheet(sheet.id, sheet.rows + rows)];
    }
  }
}
