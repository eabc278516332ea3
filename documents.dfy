/**
 * The document rows of the dashboard. The backend sends each document as an
 * array `[timestamp, code, appName, user, status]`; the client keeps those
 * arrays as shared objects, so a row is a `Row` object here. Only the status
 * cell is ever written after a row is created.
 */
module Documents {
  import opened Text

  /** One cell of a row array: a string, or nothing when the array is too
      short or the backend sent no value. */
  datatype Cell = Missing | Str(text: string)

  /** `cell || ''`: a missing cell reads as the empty string. */
  function OrEmpty(c: Cell): string {
    match c
    case Missing => ""
    case Str(s) => s
  }

  /** `${cell}` in a template string: a missing cell prints as "undefined". */
  function Display(c: Cell): string {
    match c
    case Missing => "undefined"
    case Str(s) => s
  }

  /** The value of a row: `[timestamp, code, appName, user, status]`. */
  datatype RowData = RowData(timestamp: Cell, code: Cell, appName: Cell, owner: Cell, status: Cell)

  /** A row array as the client holds it; `allData` and `filteredData` share
      these objects. */
  class Row {
    const timestamp: Cell
    const code: Cell
    const appName: Cell
    const owner: Cell
    var status: Cell

    constructor (d: RowData)
      ensures Value() == d
    {
      timestamp, code, appName, owner, status := d.timestamp, d.code, d.appName, d.owner, d.status;
    }

    /** The current contents of this row. */
    function Value(): RowData
      reads this
    {
      RowData(timestamp, code, appName, owner, status)
    }
  }

  /** The contents of a sequence of rows, position by position. */
  function Values(rows: seq<Row>): (vs: seq<RowData>)
    reads rows
    ensures |vs| == |rows|
    ensures forall i | 0 <= i < |rows| :: vs[i] == rows[i].Value()
  {
    if rows == [] then [] else [rows[0].Value()] + Values(rows[1..])
  }

  /** The search predicate: the lower-cased code, app name, user or status
      contains the keyword (which the caller has already lower-cased). */
  predicate Matches(d: RowData, keyword: string)
    ensures keyword == "" ==> Matches(d, keyword)
    ensures Matches(d, keyword) ==>
      || |keyword| <= |OrEmpty(d.code)| || |keyword| <= |OrEmpty(d.appName)|
      || |keyword| <= |OrEmpty(d.owner)| || |keyword| <= |OrEmpty(d.status)|
  {
    ContainsEmpty(Lower(OrEmpty(d.code)));
    || Contains(Lower(OrEmpty(d.code)), keyword)
    || Contains(Lower(OrEmpty(d.appName)), keyword)
    || Contains(Lower(OrEmpty(d.owner)), keyword)
    || Contains(Lower(OrEmpty(d.status)), keyword)
  }

  /** `a` is an order-preserving subsequence of `b`. */
  predicate IsSubsequence<T(==)>(a: seq<T>, b: seq<T>) {
    if a == [] then true
    else if b == [] then false
    else (a[0] == b[0] && IsSubsequence(a[1..], b[1..])) || IsSubsequence(a, b[1..])
  }

  /** No row object appears twice. */
  predicate Distinct(rows: seq<Row>) {
    forall i, j | 0 <= i < j < |rows| :: rows[i] != rows[j]
  }

  /** `allData.filter(row => Matches(row, keyword))`: the rows that match, in
      their original order. */
  function Select(rows: seq<Row>, keyword: string): (r: seq<Row>)
    reads rows
    ensures IsSubsequence(r, rows)
  {
    if rows == [] then []
    else if Matches(rows[0].Value(), keyword) then [rows[0]] + Select(rows[1..], keyword)
    else Select(rows[1..], keyword)
  }

  /** `rows.find(row => row[1] === code)`, as an index: the first row whose
      code is `code`, or `|vs|` when there is none. */
  function FirstWithCode(vs: seq<RowData>, code: string): (k: nat)
    ensures k <= |vs|
    ensures k < |vs| ==> vs[k].code == Str(code)
    ensures forall j | 0 <= j < k :: vs[j].code != Str(code)
  {
    if vs == [] then 0
    else if vs[0].code == Str(code) then 0
    else 1 + FirstWithCode(vs[1..], code)
  }

  /** A subsequence holds only elements of the whole. */
  lemma {:induction false} SubsequenceMembers<T>(a: seq<T>, b: seq<T>, x: T)
    requires IsSubsequence(a, b) && x in a
    ensures x in b
  {
    if a[0] == b[0] && IsSubsequence(a[1..], b[1..]) {
      if x != a[0] {
        SubsequenceMembers(a[1..], b[1..], x);
      }
    } else {
      SubsequenceMembers(a, b[1..], x);
    }
  }

  /** Every sequence is a subsequence of itself. */
  lemma {:induction false} SubsequenceReflexive<T>(a: seq<T>)
    ensures IsSubsequence(a, a)
  {
    if a != [] {
      SubsequenceReflexive(a[1..]);
    }
  }

  /** The search keeps exactly the rows that match. */
  lemma {:induction false} SelectKeepsMatches(rows: seq<Row>, keyword: string)
    ensures forall i | 0 <= i < |Select(rows, keyword)| ::
      Select(rows, keyword)[i] in rows && Matches(Select(rows, keyword)[i].Value(), keyword)
    ensures forall i | 0 <= i < |rows| && Matches(rows[i].Value(), keyword) :: rows[i] in Select(rows, keyword)
  {
    if rows != [] {
      SelectKeepsMatches(rows[1..], keyword);
    }
  }

  /** An empty keyword keeps every row: every field contains "". */
  lemma {:induction false} SelectEmptyKeyword(rows: seq<Row>)
    ensures Select(rows, "") == rows
  {
    if rows != [] {
      ContainsEmpty(Lower(OrEmpty(rows[0].code)));
      SelectEmptyKeyword(rows[1..]);
    }
  }

  /** A field that contains the typed text verbatim makes the row match the
      lower-cased keyword: the search ignores case. */
  lemma MatchesIgnoringCase(d: RowData, typed: string)
    requires || Contains(OrEmpty(d.code), typed) || Contains(OrEmpty(d.appName), typed)
             || Contains(OrEmpty(d.owner), typed) || Contains(OrEmpty(d.status), typed)
    ensures Matches(d, Lower(typed))
  {
    if Contains(OrEmpty(d.code), typed) {
      ContainsLowered(OrEmpty(d.code), typed);
    } else if Contains(OrEmpty(d.appName), typed) {
      ContainsLowered(OrEmpty(d.appName), typed);
    } else if Contains(OrEmpty(d.owner), typed) {
      ContainsLowered(OrEmpty(d.owner), typed);
    } else {
      ContainsLowered(OrEmpty(d.status), typed);
    }
  }

  /** Distinct rows stay distinct when a row that is not among them is put
      in front. */
  lemma DistinctPrepend(r: Row, rows: seq<Row>)
    requires Distinct(rows) && r !in rows
    ensures Distinct([r] + rows)
  {
  }
}
