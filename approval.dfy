/** `handleApprovalRequested.ts`: read the blocklist tab, then approve or deny every pending
    order of the event, denying exactly the orders whose e-mail is blocklisted. */
module Approval {
  import opened Wrappers
  import opened Text
  import opened Sheets
  import opened Pretix

  /** The range read is `A5:Z`: 0-based rows from 4 on, columns A to Z. */
  const FirstListedRow := 4
  const ListedColumns := 26

  /** Column H, where the second missed event of a row starts. */
  const SecondEventColumn := 7

  // ---------------------------------------------------------------------------
  // The blocklist

  /** Some cell from column H on holds something other than white space. */
  predicate HasSecondEvent(row: Row) {
    exists c :: SecondEventColumn <= c < |row| && Trim(row[c]) != ""
  }

  /** A row that blocks its e-mail: a first cell and a second missed event. */
  predicate Blocked(row: Row) {
    CellOf(row, 0) != "" && HasSecondEvent(row)
  }

  /** The set the loop of `getBlockList` builds from the rows it has seen. */
  function BlockSet(rows: Table): set<string>
    decreases |rows|
  {
    if rows == [] then {}
    else
      var prev := BlockSet(rows[..|rows| - 1]);
      var row := rows[|rows| - 1];
      if Blocked(row) then prev + {Normalize(row[0])} else prev
  }

  /** `getBlockList` on the blocklist tab. */
  function BlockListOf(sheet: Table): set<string> {
    BlockSet(Read(sheet, FirstListedRow, ListedColumns))
  }

  /** `getBlockList`: one read of `A5:Z`, then the loop over its rows. */
  method GetBlockList(sheet: Table) returns (blocklist: set<string>)
    ensures blocklist == BlockListOf(sheet)
  {
    var rows := Read(sheet, FirstListedRow, ListedColumns);
    blocklist := CollectBlocked(rows);
  }

  /** The `for` loop of `getBlockList` over the rows read. */
  method CollectBlocked(rows: Table) returns (blocklist: set<string>)
    ensures blocklist == BlockSet(rows)
  {
    blocklist := {};
    var i := 0;
    while i < |rows|
      invariant 0 <= i <= |rows|
      invariant blocklist == BlockSet(rows[..i])
    {
      var row := rows[i];
      assert rows[..i + 1][..i] == rows[..i];
      if |row| > 0 && row[0] != "" {
        var normalized := Normalize(row[0]);
        var hasSecondEvent := exists c :: SecondEventColumn <= c < |row| && Trim(row[c]) != "";
        if hasSecondEvent {
          blocklist := blocklist + {normalized};
        }
      }
      i := i + 1;
    }
    assert rows[..i] == rows;
  }

  /** A normalised e-mail is in the set exactly when some row it has seen blocks it. */
  lemma {:induction false} BlockSetIff(rows: Table, e: string)
    ensures e in BlockSet(rows) <==> exists i :: 0 <= i < |rows| && Blocked(rows[i]) && Normalize(rows[i][0]) == e
    decreases |rows|
  {
    if rows != [] {
      var front := rows[..|rows| - 1];
      BlockSetIff(front, e);
      assert forall i :: 0 <= i < |front| ==> front[i] == rows[i];
    }
  }

  /** Row r of the tab (0-based) blocks its e-mail: it is at row 5 or below, has a first cell,
      and some cell from H to Z holds something other than white space. */
  predicate BlockedAt(sheet: Table, r: nat) {
    && r >= FirstListedRow
    && Cell(sheet, r, 0) != ""
    && exists c :: SecondEventColumn <= c < ListedColumns && Trim(Cell(sheet, r, c)) != ""
  }

  lemma TrimEmpty()
    ensures Trim("") == ""
  {
  }

  lemma BlockedRead(sheet: Table, r: nat)
    ensures var rows := Read(sheet, FirstListedRow, ListedColumns);
            BlockedAt(sheet, r) ==> r - FirstListedRow < |rows|
                                    && Blocked(rows[r - FirstListedRow])
                                    && rows[r - FirstListedRow][0] == Cell(sheet, r, 0)
  {
    var rows := Read(sheet, FirstListedRow, ListedColumns);
    if BlockedAt(sheet, r) {
      var c :| SecondEventColumn <= c < ListedColumns && Trim(Cell(sheet, r, c)) != "";
      TrimEmpty();
      ReadCovers(sheet, FirstListedRow, ListedColumns, r, c);
      var i := r - FirstListedRow;
      ReadCell(sheet, FirstListedRow, ListedColumns, i, c);
      ReadCell(sheet, FirstListedRow, ListedColumns, i, 0);
      assert CellOf(rows[i], c) == Cell(sheet, r, c);
    }
  }

  lemma ReadBlocked(sheet: Table, i: nat)
    requires i < |Read(sheet, FirstListedRow, ListedColumns)|
    requires Blocked(Read(sheet, FirstListedRow, ListedColumns)[i])
    ensures BlockedAt(sheet, FirstListedRow + i)
    ensures Read(sheet, FirstListedRow, ListedColumns)[i][0] == Cell(sheet, FirstListedRow + i, 0)
  {
    var rows := Read(sheet, FirstListedRow, ListedColumns);
    var c :| SecondEventColumn <= c < |rows[i]| && Trim(rows[i][c]) != "";
    ReadRowsWithin(sheet, FirstListedRow, ListedColumns);
    ReadCell(sheet, FirstListedRow, ListedColumns, i, c);
    ReadCell(sheet, FirstListedRow, ListedColumns, i, 0);
    assert Trim(Cell(sheet, FirstListedRow + i, c)) != "";
  }

  /** An e-mail is on the blocklist exactly when a row of the tab blocks it. */
  lemma InBlocklistIff(sheet: Table, e: string)
    ensures e in BlockListOf(sheet)
            <==> exists r :: BlockedAt(sheet, r) && Normalize(Cell(sheet, r, 0)) == e
  {
    var rows := Read(sheet, FirstListedRow, ListedColumns);
    BlockSetIff(rows, e);
    if e in BlockListOf(sheet) {
      var i :| 0 <= i < |rows| && Blocked(rows[i]) && Normalize(rows[i][0]) == e;
      ReadBlocked(sheet, i);
    }
    if exists r :: BlockedAt(sheet, r) && Normalize(Cell(sheet, r, 0)) == e {
      var r :| BlockedAt(sheet, r) && Normalize(Cell(sheet, r, 0)) == e;
      BlockedRead(sheet, r);
    }
  }

  // ---------------------------------------------------------------------------
  // The pending orders

  datatype OrderAction = Approve(code: string) | Deny(code: string)

  /** `order.email ? order.email.toLowerCase().trim() : ""`. */
  function EmailKey(o: PendingOrder): string {
    match o.email
    case None => ""
    case Some(e) => if e == "" then "" else Normalize(e)
  }

  /** The approve or deny request for one order that is not cancelled. */
  function ActionFor(blocklist: set<string>, o: PendingOrder): OrderAction {
    if EmailKey(o) in blocklist then Deny(o.code) else Approve(o.code)
  }

  /** The requests of the `for` loop over some orders, in order; cancelled orders are skipped. */
  function Actions(blocklist: set<string>, orders: seq<PendingOrder>): seq<OrderAction>
    decreases |orders|
  {
    if orders == [] then []
    else
      var prev := Actions(blocklist, orders[..|orders| - 1]);
      var o := orders[|orders| - 1];
      if o.status == Cancelled then prev else prev + [ActionFor(blocklist, o)]
  }

  /** The paging loop: the requests page after page; a failed page fetch throws and stops. */
  function Decide(blocklist: set<string>, listing: seq<Page<PendingOrder>>): (r: Run<OrderAction>)
    decreases |listing|
    ensures r.completed <==> AllFetched(listing)
  {
    if listing == [] then Run([], true)
    else
      var prev := Decide(blocklist, listing[..|listing| - 1]);
      var page := listing[|listing| - 1];
      if !prev.completed then prev
      else if page.FetchFailed? then Run(prev.effects, false)
      else Run(prev.effects + Actions(blocklist, page.results), true)
  }

  /** The orders that are not cancelled, in their order: the reference for what is acted on. */
  function NonCancelled(orders: seq<PendingOrder>): (r: seq<PendingOrder>)
    decreases |orders|
    ensures forall o :: o in r ==> o in orders && o.status != Cancelled
    ensures forall i :: 0 <= i < |orders| && orders[i].status != Cancelled ==> orders[i] in r
  {
    if orders == [] then []
    else
      var front, o := orders[..|orders| - 1], orders[|orders| - 1];
      NonCancelled(front) + (if o.status == Cancelled then [] else [o])
  }

  /** Every order that is not cancelled gets exactly one request, in order: a denial exactly
      when its normalised e-mail is blocklisted, an approval otherwise. */
  lemma {:induction false} ActionsPerOrder(blocklist: set<string>, orders: seq<PendingOrder>)
    ensures var acts, nc := Actions(blocklist, orders), NonCancelled(orders);
            && |acts| == |nc|
            && (forall k :: 0 <= k < |acts| ==> acts[k].code == nc[k].code)
            && (forall k :: 0 <= k < |acts| ==> (acts[k].Deny? <==> EmailKey(nc[k]) in blocklist))
    decreases |orders|
  {
    if orders != [] {
      var front := orders[..|orders| - 1];
      var o := orders[|orders| - 1];
      ActionsPerOrder(blocklist, front);
    }
  }

  lemma {:induction false} ActionsConcat(blocklist: set<string>, a: seq<PendingOrder>, b: seq<PendingOrder>)
    ensures Actions(blocklist, a + b) == Actions(blocklist, a) + Actions(blocklist, b)
    decreases |b|
  {
    if b == [] {
      assert a + b == a;
    } else {
      assert (a + b)[..|a + b| - 1] == a + b[..|b| - 1];
      ActionsConcat(blocklist, a, b[..|b| - 1]);
    }
  }

  /** When every page is fetched, the requests are those for all orders of all pages. */
  lemma {:induction false} DecideAllFetched(blocklist: set<string>, listing: seq<Page<PendingOrder>>)
    requires AllFetched(listing)
    ensures Decide(blocklist, listing) == Run(Actions(blocklist, Flatten(listing)), true)
    decreases |listing|
  {
    if listing != [] {
      var front := listing[..|listing| - 1];
      assert AllFetched(front);
      DecideAllFetched(blocklist, front);
      ActionsConcat(blocklist, Flatten(front), listing[|listing| - 1].results);
    }
  }

  /** When page k is the first that fails, the run stops with the requests of the pages
      before it. */
  lemma {:induction false} DecideStopsAt(blocklist: set<string>, listing: seq<Page<PendingOrder>>, k: nat)
    requires k < |listing| && listing[k].FetchFailed? && AllFetched(listing[..k])
    ensures Decide(blocklist, listing) == Run(Actions(blocklist, Flatten(listing[..k])), false)
    decreases |listing|
  {
    if k < |listing| - 1 {
      var front := listing[..|listing| - 1];
      assert front[..k] == listing[..k];
      DecideStopsAt(blocklist, front, k);
    } else {
      DecideAllFetched(blocklist, listing[..k]);
    }
  }

  /** The `for` loop over the orders of one page. */
  method DecidePage(blocklist: set<string>, results: seq<PendingOrder>) returns (acts: seq<OrderAction>)
    ensures acts == Actions(blocklist, results)
  {
    acts := [];
    var j := 0;
    while j < |results|
      invariant 0 <= j <= |results|
      invariant acts == Actions(blocklist, results[..j])
    {
      var order := results[j];
      assert results[..j + 1][..j] == results[..j];
      if order.status != Cancelled {
        var email := if order.email.Some? && order.email.value != "" then Normalize(order.email.value) else "";
        if email in blocklist {
          acts := acts + [Deny(order.code)];
        } else {
          acts := acts + [Approve(order.code)];
        }
      }
      j := j + 1;
    }
    assert results[..j] == results;
  }

  /** `validatePendingOrders`. */
  method ValidatePendingOrders(blocklist: set<string>, listing: seq<Page<PendingOrder>>)
    returns (run: Run<OrderAction>)
    ensures run == Decide(blocklist, listing)
  {
    var acts: seq<OrderAction> := [];
    var p := 0;
    while p < |listing|
      invariant 0 <= p <= |listing|
      invariant Decide(blocklist, listing[..p]) == Run(acts, true)
    {
      assert listing[..p + 1][..p] == listing[..p];
      var page := listing[p];
      if page.FetchFailed? {
        DecideStopped(blocklist, listing, p + 1);
        return Run(acts, false);
      }
      var pageActs := DecidePage(blocklist, page.results);
      acts := acts + pageActs;
      p := p + 1;
    }
    assert listing[..p] == listing;
    return Run(acts, true);
  }

  /** Once a page fails, the later pages are not fetched. */
  lemma {:induction false} DecideStopped(blocklist: set<string>, listing: seq<Page<PendingOrder>>, k: nat)
    requires k <= |listing| && !Decide(blocklist, listing[..k]).completed
    ensures Decide(blocklist, listing) == Decide(blocklist, listing[..k])
    decreases |listing|
  {
    if k < |listing| {
      var front := listing[..|listing| - 1];
      assert front[..k] == listing[..k];
      DecideStopped(blocklist, front, k);
    } else {
      assert listing[..k] == listing;
    }
  }

  /** `handleApprovalRequested`: the blocklist is read first, then the orders are decided. */
  method HandleApprovalRequested(sheet: Table, listing: seq<Page<PendingOrder>>)
    returns (run: Run<OrderAction>)
    ensures run == Decide(BlockListOf(sheet), listing)
  {
    var blocklist := GetBlockList(sheet);
    run := ValidatePendingOrders(blocklist, listing);
  }
}
