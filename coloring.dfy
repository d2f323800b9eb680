/** The colouring pass: one background request per value of the Result
    column, light red for a "fail" and white for anything else. */
module Coloring {
  import opened Records

  /** The characters JavaScript's `String.prototype.trim` removes: the
      WhiteSpace and LineTerminator code points of ECMAScript. */
  predicate IsTrimmed(c: char)
  {
    var n := c as int;
    n == 0x09 || n == 0x0A || n == 0x0B || n == 0x0C || n == 0x0D || n == 0x20 ||
    n == 0xA0 || n == 0x1680 || (0x2000 <= n <= 0x200A) || n == 0x2028 || n == 0x2029 ||
    n == 0x202F || n == 0x205F || n == 0x3000 || n == 0xFEFF
  }

  /** The number of white space characters s starts with. */
  function LeadingSpace(s: string): (n: nat)
    ensures n <= |s|
    ensures forall k :: 0 <= k < n ==> IsTrimmed(s[k])
    ensures n < |s| ==> !IsTrimmed(s[n])
  {
    if s != [] && IsTrimmed(s[0]) then 1 + LeadingSpace(s[1..]) else 0
  }

  /** The number of white space characters s ends with. */
  function TrailingSpace(s: string): (n: nat)
    ensures n <= |s|
    ensures forall k :: |s| - n <= k < |s| ==> IsTrimmed(s[k])
    ensures n < |s| ==> !IsTrimmed(s[|s| - 1 - n])
  {
    if s != [] && IsTrimmed(s[|s| - 1]) then 1 + TrailingSpace(s[..|s| - 1]) else 0
  }

  /** `s.trim()`: leading, then trailing white space removed. */
  function Trim(s: string): string
  {
    var u := s[LeadingSpace(s)..];
    u[..|u| - TrailingSpace(u)]
  }

  /** `toLowerCase` on a character. Only A to Z are mapped: no other
      character lower-cases to one of the letters of "fail". */
  function LowerChar(c: char): char
  {
    if 'A' <= c <= 'Z' then (c as int + 32) as char else c
  }

  function ToLower(s: string): string
  {
    seq(|s|, i requires 0 <= i < |s| => LowerChar(s[i]))
  }

  /** `value.toLowerCase() === "fail"` on the trimmed cell value. */
  predicate IsFail(value: string)
  {
    ToLower(Trim(value)) == "fail"
  }

  /** Text without white space at either end is left as it is. */
  lemma TrimKeepsClean(s: string)
    requires s != [] ==> !IsTrimmed(s[0]) && !IsTrimmed(s[|s| - 1])
    ensures Trim(s) == s
  {
  }

  predicate IsLetter(c: char)
  {
    'A' <= c <= 'Z' || 'a' <= c <= 'z'
  }

  /** A word that starts and ends with a letter is its own trimmed form. */
  lemma TrimOfWord(s: string)
    requires s != [] && IsLetter(s[0]) && IsLetter(s[|s| - 1])
    ensures Trim(s) == s
  {
    assert !IsTrimmed(s[0]) && !IsTrimmed(s[|s| - 1]);
    TrimKeepsClean(s);
  }

  lemma LowerOfFail()
    ensures ToLower("Fail") == "fail" && ToLower("FAIL") == "fail"
  {
    var t, u := ToLower("Fail"), ToLower("FAIL");
    assert t[0] == 'f' && t[1] == 'a' && t[2] == 'i' && t[3] == 'l';
    assert u[0] == 'f' && u[1] == 'a' && u[2] == 'i' && u[3] == 'l';
  }

  /** The result the record builder writes for a failed mark is a "fail",
      also in capitals. */
  lemma FailResultIsFail()
    ensures IsFail("Fail") && IsFail("FAIL")
  {
    TrimOfWord("Fail");
    TrimOfWord("FAIL");
    LowerOfFail();
  }

  /** The other results the record builder writes are not. */
  lemma OtherResultsAreNotFail()
    ensures !IsFail("Pass") && !IsFail("Grade")
  {
    TrimOfWord("Pass");
    TrimOfWord("Grade");
    assert ToLower("Pass")[0] == 'p';
    assert |ToLower("Grade")| == 5;
  }

  /** Trimming removes exactly the white space padding around a word. */
  lemma TrimPadded(pre: string, w: string, post: string)
    requires forall k :: 0 <= k < |pre| ==> IsTrimmed(pre[k])
    requires forall k :: 0 <= k < |post| ==> IsTrimmed(post[k])
    requires w != [] && !IsTrimmed(w[0]) && !IsTrimmed(w[|w| - 1])
    ensures Trim(pre + w + post) == w
  {
    var s := pre + w + post;
    var i := LeadingSpace(s);
    assert s[|pre|] == w[0];
    assert forall k :: 0 <= k < |pre| ==> s[k] == pre[k];
    assert i == |pre|;
    var u := s[i..];
    assert u == w + post;
    var n := TrailingSpace(u);
    assert u[|w| - 1] == w[|w| - 1];
    assert forall k :: 0 <= k < |post| ==> u[|w| + k] == post[k];
    assert n == |post|;
    assert u[..|u| - n] == w;
  }

  /** Case and surrounding white space do not matter: any capitalisation of
      "fail" padded with white space is a "fail". */
  lemma PaddedFailIsFail(pre: string, w: string, post: string)
    requires forall k :: 0 <= k < |pre| ==> IsTrimmed(pre[k])
    requires forall k :: 0 <= k < |post| ==> IsTrimmed(post[k])
    requires ToLower(w) == "fail"
    ensures IsFail(pre + w + post)
  {
    var t := ToLower(w);
    assert |w| == |t| == 4;
    assert t[0] == 'f' && t[3] == 'l';
    assert LowerChar(w[0]) == 'f' && LowerChar(w[3]) == 'l';
    TrimPadded(pre, w, post);
  }

  /** v is a capitalisation of "fail" with white space padding: pre, w and
      post split it that way. */
  ghost predicate PaddedFail(v: string, pre: string, w: string, post: string)
  {
    && v == pre + w + post
    && (forall k :: 0 <= k < |pre| ==> IsTrimmed(pre[k]))
    && (forall k :: 0 <= k < |post| ==> IsTrimmed(post[k]))
    && ToLower(w) == "fail"
  }

  /** A value is a "fail" exactly when it is some capitalisation of "fail"
      with white space padding: nothing else about it matters. */
  lemma FailIffPaddedFail(v: string)
    ensures IsFail(v) <==> exists pre, w, post :: PaddedFail(v, pre, w, post)
  {
    if IsFail(v) {
      var i := LeadingSpace(v);
      var u := v[i..];
      var j := |u| - TrailingSpace(u);
      var pre, w, post := v[..i], u[..j], u[j..];
      assert v == pre + w + post;
      assert forall k :: 0 <= k < |post| ==> post[k] == u[j + k];
      assert PaddedFail(v, pre, w, post);
    }
    if exists pre, w, post :: PaddedFail(v, pre, w, post) {
      var pre, w, post :| PaddedFail(v, pre, w, post);
      PaddedFailIsFail(pre, w, post);
    }
  }

  datatype Color = Color(red: real, green: real, blue: real)

  const White := Color(1.0, 1.0, 1.0)
  const LightRed := Color(1.0, 0.8, 0.8)

  /** A half-open block of cells: rows [startRowIndex, endRowIndex) and
      columns [startColumnIndex, endColumnIndex), 0-based. */
  datatype GridRange = GridRange(sheetId: int, startRowIndex: int, endRowIndex: int, startColumnIndex: int, endColumnIndex: int)

  /** A `repeatCell` request that sets the background colour of a range. */
  datatype Request = RepeatCell(range: GridRange, backgroundColor: Color, fields: string)

  const BackgroundField := "userEnteredFormat.backgroundColor"

  /** What the service returns for the range K2:K of a sheet: one list per
      row below the header, holding the row's Result cell when it has one. */
  function ResultColumnValues(rows: seq<seq<string>>): seq<seq<string>>
  {
    if |rows| <= 1 then [] else seq(|rows| - 1, i requires 0 <= i < |rows| - 1 => ResultCell(rows[i + 1]))
  }

  /** One row of that read: [] when the row has no Result value. */
  function ResultCell(row: seq<string>): seq<string>
  {
    if |row| > ResultColumn && row[ResultColumn] != "" then [row[ResultColumn]] else []
  }

  /** `row[0] ? row[0].toString().trim() : ""` */
  function CellText(row: seq<string>): string
  {
    if row != [] && row[0] != "" then Trim(row[0]) else ""
  }

  /** The colour for one value of the Result column. */
  function CellColor(row: seq<string>): Color
  {
    if ToLower(CellText(row)) == "fail" then LightRed else White
  }

  /** `results.map((row, i) => ...)` */
  function ColoringRequests(sheetId: int, results: seq<seq<string>>): seq<Request>
  {
    seq(|results|, i requires 0 <= i < |results| =>
      RepeatCell(GridRange(sheetId, i + 1, i + 2, ResultColumn, ResultColumn + 1), CellColor(results[i]), BackgroundField))
  }

  /** One request per value: the i-th covers exactly the Result cell of sheet
      row i + 1 (0-based, below the header), and is light red exactly when
      that value is a "fail" and white otherwise. */
  lemma RequestPerValue(sheetId: int, results: seq<seq<string>>)
    ensures |ColoringRequests(sheetId, results)| == |results|
    ensures forall i :: 0 <= i < |results| ==>
      var req := ColoringRequests(sheetId, results)[i];
      && req.range == GridRange(sheetId, i + 1, i + 2, 10, 11)
      && req.fields == BackgroundField
      && (req.backgroundColor == LightRed <==> results[i] != [] && IsFail(results[i][0]))
      && (req.backgroundColor != LightRed ==> req.backgroundColor == White)
  {
    forall i | 0 <= i < |results|
      ensures results[i] != [] && results[i][0] == "" ==> !IsFail(results[i][0])
    {
      assert Trim("") == "";
    }
  }

  /** Read back from a sheet, the requests colour every row below the header
      and nothing else. */
  lemma RequestPerSheetRow(sheetId: int, rows: seq<seq<string>>)
    ensures |ColoringRequests(sheetId, ResultColumnValues(rows))| == if |rows| <= 1 then 0 else |rows| - 1
  {
  }

  /** The request for sheet row j covers that row's Result cell, and is light
      red exactly when the cell holds a "fail". */
  lemma RequestForSheetRow(sheetId: int, rows: seq<seq<string>>, j: int)
    requires 1 <= j < |rows| && |rows[j]| > ResultColumn
    ensures j - 1 < |ColoringRequests(sheetId, ResultColumnValues(rows))|
    ensures var req := ColoringRequests(sheetId, ResultColumnValues(rows))[j - 1];
      && req.range == GridRange(sheetId, j, j + 1, ResultColumn, ResultColumn + 1)
      && (req.backgroundColor == LightRed <==> IsFail(rows[j][ResultColumn]))
  {
    var results := ResultColumnValues(rows);
    assert results[j - 1] == ResultCell(rows[j]);
    assert Trim("") == "";
  }

  /** For a row whose Result cell holds "Pass" or "Fail", as the record
      builder writes them, the request is light red exactly for "Fail". */
  lemma RequestForResultRow(sheetId: int, rows: seq<seq<string>>, j: int)
    requires 1 <= j < |rows| && |rows[j]| > ResultColumn
    requires rows[j][ResultColumn] == "Pass" || rows[j][ResultColumn] == "Fail"
    ensures j - 1 < |ColoringRequests(sheetId, ResultColumnValues(rows))|
    ensures var req := ColoringRequests(sheetId, ResultColumnValues(rows))[j - 1];
      && req.range == GridRange(sheetId, j, j + 1, ResultColumn, ResultColumn + 1)
      && (req.backgroundColor == LightRed <==> rows[j][ResultColumn] == "Fail")
  {
    RequestForSheetRow(sheetId, rows, j);
    FailResultIsFail();
    OtherResultsAreNotFail();
  }
}
