/**
 * The dashboard's client-side state (`State` in script.js) and the
 * operations that change it: loading the documents, adding one, changing a
 * status, searching, changing page, and rendering the visible page.
 *
 * Network calls are not modelled; each operation takes the backend's reply
 * as a parameter and returns the request it would send, if it sends one.
 */
module Dashboard {
  import opened Wrappers
  import opened Text
  import opened Accounts
  import opened Documents
  import opened Paging
  import opened StatusBadges

  /** `State.pagination.limit`. */
  const PageSize: nat := 10

  /** What a GET of the document list yields: the parsed rows, a falsy body
      (`null`, `false`, `0`, `""`), or a failure (network error or a body
      that is not JSON). */
  datatype FetchReply = Fetched(rows: seq<RowData>) | FalsyBody | FetchFailed

  /** The rows a successful fetch stores: `data || []`. */
  function Received(reply: FetchReply): (rows: seq<RowData>)
    requires !reply.FetchFailed?
    ensures reply.FalsyBody? ==> rows == []
    ensures reply.Fetched? ==> rows == reply.rows
  {
    if reply.Fetched? then reply.rows else []
  }

  datatype AddRequest = AddRequest(prdNumber: string, appName: string, status: string, user: string)

  /** The reply to an add request: success with the stored row, a reported
      failure, or a network/parse failure. */
  datatype AddReply = Added(row: RowData) | AddRejected(message: string) | AddFailed

  datatype StatusRequest = StatusRequest(prdCode: string, newStatus: string, role: string, user: string)

  datatype UpdateReply = Updated | UpdateRejected(message: string) | UpdateFailed

  /** One rendered table row: code, app name, status badge, user, timestamp. */
  datatype Line = Line(code: Cell, appName: Cell, badge: Badge, owner: Cell, timestamp: Cell)

  /** The table: the empty-state notice, or the rows of the current page with
      the pagination bar. */
  datatype TableView = EmptyState | Table(lines: seq<Line>, controls: seq<Control>)

  /** One rendered row: the cells in column order and the status badge,
      clickable only for an administrator. */
  function LineOf(session: Session, d: RowData): (l: Line)
    ensures l.code == d.code && l.appName == d.appName && l.owner == d.owner && l.timestamp == d.timestamp
    ensures l.badge == StatusBadge(session, d.status, d.code)
    ensures l.badge.text == d.status && (l.badge.onClick.Some? <==> IsAdmin(session))
  {
    Line(d.code, d.appName, StatusBadge(session, d.status, d.code), d.owner, d.timestamp)
  }

  class Registry {
    var session: Session
    /** The mirror of the backend's documents, newest insert first. */
    var allData: seq<Row>
    /** The rows the table shows, a subsequence of `allData`. */
    var filteredData: seq<Row>
    /** `State.pagination.page`. */
    var page: int
    /** The contents of the search box. */
    var searchText: string

    ghost predicate Valid()
      reads this
    {
      && page >= 1
      && Distinct(allData)
      && IsSubsequence(filteredData, allData)
    }

    /** Every row the table can show is a row of the mirror. */
    lemma ViewRowsAreMirrorRows()
      requires Valid()
      ensures forall r | r in filteredData :: r in allData
    {
      forall r | r in filteredData ensures r in allData {
        SubsequenceMembers(filteredData, allData, r);
      }
    }

    /** The state at start-up: the stored session, no rows, page 1. */
    constructor (stored: Session)
      ensures Valid()
      ensures session == stored && allData == [] && filteredData == []
      ensures page == 1 && searchText == ""
    {
      session, allData, filteredData := stored, [], [];
      page, searchText := 1, "";
    }

    /** `Data.fetchDocuments`: the mirror becomes the fetched rows (none for a
        falsy body) and the view shows all of them; the page is kept. A failed
        fetch changes nothing. */
    method Load(reply: FetchReply)
      requires Valid()
      modifies this
      ensures Valid()
      ensures session == old(session) && page == old(page) && searchText == old(searchText)
      ensures reply.FetchFailed? ==> allData == old(allData) && filteredData == old(filteredData)
      ensures !reply.FetchFailed? ==>
        && Values(allData) == Received(reply)
        && filteredData == allData
        && forall r | r in allData :: fresh(r)
    {
      if reply.FetchFailed? {
        return;
      }
      var data := Received(reply);
      var rows: seq<Row> := [];
      for i := 0 to |data|
        invariant |rows| == i
        invariant forall k | 0 <= k < i :: rows[k].Value() == data[k]
        invariant Distinct(rows)
        invariant forall r | r in rows :: fresh(r)
        invariant unchanged(this)
      {
        var row := new Row(data[i]);
        rows := rows + [row];
      }
      allData := rows;
      filteredData := rows;
      SubsequenceReflexive(rows);
    }

    /** `Data.addDocument`: the request carries the signed-in user's name (with
        nobody signed in the request is never sent). On success the new row
        goes in front of the mirror, the search box is cleared, the view shows
        every row and the page is 1; otherwise nothing changes. */
    method AddDocument(num: string, app: string, status: string, reply: AddReply)
      returns (ok: bool, request: Option<AddRequest>)
      requires Valid()
      modifies this
      ensures Valid()
      ensures request == if session.SignedIn? then Some(AddRequest(num, app, status, session.user.name)) else None
      ensures ok <==> request.Some? && reply.Added?
      ensures ok ==>
        && |allData| == |old(allData)| + 1
        && fresh(allData[0]) && allData[1..] == old(allData)
        && Values(allData) == [reply.row] + old(Values(allData))
        && filteredData == allData && page == 1 && searchText == ""
      ensures !ok ==>
        && allData == old(allData) && filteredData == old(filteredData)
        && page == old(page) && searchText == old(searchText)
      ensures session == old(session)
    {
      if session.SignedOut? {
        return false, None;
      }
      request := Some(AddRequest(num, app, status, session.user.name));
      if !reply.Added? {
        return false, request;
      }
      var row := new Row(reply.row);
      DistinctPrepend(row, allData);
      allData := [row] + allData;
      searchText := "";
      filteredData := allData;
      page := 1;
      SubsequenceReflexive(allData);
      ok := true;
    }

    /** `Data.updateStatus`: only an administrator sends the request. When the
        backend accepts it, the status of the first row whose code is
        `prdCode` becomes `newStatus`; no other row and no other cell
        changes, and the view, which shares the row, shows the new status. */
    method UpdateStatus(prdCode: string, newStatus: string, reply: UpdateReply)
      returns (request: Option<StatusRequest>)
      requires Valid()
      modifies allData
      ensures Valid()
      ensures request == if IsAdmin(session) then Some(StatusRequest(prdCode, newStatus, session.user.role, session.user.name)) else None
      ensures var k := FirstWithCode(old(Values(allData)), prdCode);
        var applied := request.Some? && reply.Updated?;
        && (forall j | 0 <= j < |allData| ::
              allData[j].Value() == if applied && j == k then old(allData[j].Value()).(status := Str(newStatus)) else old(allData[j].Value()))
        && (forall r | r in filteredData ::
              r.status == if applied && k < |allData| && r == allData[k] then Str(newStatus) else old(r.status))
    {
      if !IsAdmin(session) {
        return None;
      }
      request := Some(StatusRequest(prdCode, newStatus, session.user.role, session.user.name));
      if !reply.Updated? {
        return;
      }
      var i := 0;
      while i < |allData| && allData[i].code != Str(prdCode)
        invariant 0 <= i <= |allData|
        invariant forall j | 0 <= j < i :: allData[j].code != Str(prdCode)
      {
        i := i + 1;
      }
      assert i == FirstWithCode(Values(allData), prdCode);
      if i < |allData| {
        allData[i].status := Str(newStatus);
      }
    }

    /** The search box handler: the view becomes the rows that match the
        lower-cased input, in mirror order, and the page goes back to 1. */
    method Search(input: string)
      requires Valid()
      modifies this
      ensures Valid()
      ensures filteredData == Select(allData, Lower(input))
      ensures input == "" ==> filteredData == allData
      ensures page == 1 && searchText == input
      ensures allData == old(allData) && session == old(session)
    {
      var keyword := Lower(input);
      var view := Select(allData, keyword);
      if input == "" {
        assert keyword == "";
        SelectEmptyKeyword(allData);
      }
      searchText, filteredData, page := input, view, 1;
    }

    /** `UI.changePage`: a page outside 1..TotalPages is refused and leaves the
        state as it was; any other page becomes the current one. */
    method ChangePage(p: int)
      requires Valid()
      modifies this`page
      ensures Valid()
      ensures page == if 1 <= p <= TotalPages(|filteredData|, PageSize) then p else old(page)
    {
      var total := TotalPages(|filteredData|, PageSize);
      if p < 1 || p > total {
        return;
      }
      page := p;
    }

    /** `UI.renderTable`: nothing but the empty-state notice when the view is
        empty; otherwise one line per row of the current page, in order, and
        the pagination bar. */
    method RenderTable() returns (view: TableView)
      requires Valid()
      ensures view.EmptyState? <==> filteredData == []
      ensures view.Table? ==>
        var rows := PageSlice(filteredData, page, PageSize);
        && |view.lines| == |rows|
        && (forall k | 0 <= k < |rows| :: view.lines[k] == LineOf(session, rows[k].Value()))
        && view.controls == Controls(TotalPages(|filteredData|, PageSize), page)
    {
      if filteredData == [] {
        return EmptyState;
      }
      var rows := PageSlice(filteredData, page, PageSize);
      var lines: seq<Line> := [];
      for k := 0 to |rows|
        invariant |lines| == k
        invariant forall j | 0 <= j < k :: lines[j] == LineOf(session, rows[j].Value())
      {
        lines := lines + [LineOf(session, rows[k].Value())];
      }
      var controls := PaginationControls(|filteredData|, PageSize, page);
      view := Table(lines, controls);
    }
  }
}
