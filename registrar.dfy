/** `handleEventCreated.ts`: when an event is created whose "Regular Ticket" products are all
    free, add a row `[slug, name, start, end, "no"]` to the registry tab, unless the slug is
    already listed in its column A. */
module Registrar {
  import opened Wrappers
  import opened Text
  import opened Sheets
  import opened Pretix

  const RegularTicket := "Regular Ticket"

  /** One day in milliseconds, the default length of an event without an end. */
  const DayMillis := 24 * 60 * 60 * 1000

  /** The English or the German name of the item is "Regular Ticket". */
  predicate IsRegular(item: Item) {
    item.nameEn == Some(RegularTicket) || item.nameDe == Some(RegularTicket)
  }

  /** `items.filter(...)` for the regular tickets. */
  function RegularTickets(items: seq<Item>): (r: seq<Item>)
    ensures forall x :: x in r <==> x in items && IsRegular(x)
  {
    if items == [] then []
    else if IsRegular(items[0]) then [items[0]] + RegularTickets(items[1..])
    else RegularTickets(items[1..])
  }

  /** `isEventFree`, with the items the fetch returned (none when it failed) and
      `parseFloat(p) === 0` as `priceIsZero(p)`: there is a regular ticket, and every regular
      ticket is priced zero. */
  function IsEventFree(items: Option<seq<Item>>, priceIsZero: string -> bool): (r: bool)
    ensures r <==> items.Some?
                   && (exists i :: 0 <= i < |items.value| && IsRegular(items.value[i]))
                   && (forall i :: 0 <= i < |items.value| && IsRegular(items.value[i])
                         ==> priceIsZero(items.value[i].defaultPrice))
  {
    match items
    case None => false
    case Some(all) =>
      var regular := RegularTickets(all);
      assert |regular| > 0 ==> regular[0] in regular;
      assert forall i :: 0 <= i < |all| && IsRegular(all[i]) ==> all[i] in regular;
      RegularAllFree(all, priceIsZero);
      |regular| > 0 && forall k :: 0 <= k < |regular| ==> priceIsZero(regular[k].defaultPrice)
  }

  /** Every regular ticket is free whether the test runs over the filtered list or over all
      items. */
  lemma RegularAllFree(all: seq<Item>, priceIsZero: string -> bool)
    ensures var regular := RegularTickets(all);
            (forall k :: 0 <= k < |regular| ==> priceIsZero(regular[k].defaultPrice))
            <==> (forall i :: 0 <= i < |all| && IsRegular(all[i]) ==> priceIsZero(all[i].defaultPrice))
  {
    var regular := RegularTickets(all);
    if forall k :: 0 <= k < |regular| ==> priceIsZero(regular[k].defaultPrice) {
      forall i | 0 <= i < |all| && IsRegular(all[i]) ensures priceIsZero(all[i].defaultPrice) {
        assert all[i] in regular;
        var k :| 0 <= k < |regular| && regular[k] == all[i];
      }
    }
    if forall i :: 0 <= i < |all| && IsRegular(all[i]) ==> priceIsZero(all[i].defaultPrice) {
      forall k | 0 <= k < |regular| ensures priceIsZero(regular[k].defaultPrice) {
        assert regular[k] in regular;
        assert regular[k] in all && IsRegular(regular[k]);
        var i :| 0 <= i < |all| && all[i] == regular[k];
        assert priceIsZero(all[i].defaultPrice);
      }
    }
  }

  // ---------------------------------------------------------------------------
  // The registry's slugs

  /** `values.flat()`. */
  function Flat(rows: Table): seq<string>
    decreases |rows|
  {
    if rows == [] then [] else rows[0] + Flat(rows[1..])
  }

  lemma {:induction false} FlatMembers(rows: Table, x: string)
    requires forall i :: 0 <= i < |rows| ==> |rows[i]| <= 1
    ensures x in Flat(rows) <==> exists i :: 0 <= i < |rows| && rows[i] == [x]
    decreases |rows|
  {
    if rows != [] {
      FlatMembers(rows[1..], x);
      assert forall i :: 1 <= i < |rows| ==> rows[1..][i - 1] == rows[i];
      if exists i :: 0 <= i < |rows| && rows[i] == [x] {
        var i :| 0 <= i < |rows| && rows[i] == [x];
        if i > 0 {
          assert rows[1..][i - 1] == [x];
        }
      }
    }
  }

  /** `cells.map((s) => s.toString().trim())`. */
  function TrimAll(cells: seq<string>): seq<string> {
    seq(|cells|, i requires 0 <= i < |cells| => Trim(cells[i]))
  }

  /** The trimmed cells of column A, `values?.flat().map((s) => s.toString().trim()) || []`. */
  function ExistingSlugs(info: Table): seq<string> {
    TrimAll(Flat(Read(info, 0, 1)))
  }

  /** Row r of the registry lists the slug: its column A, trimmed, is the slug. */
  predicate ListedAt(info: Table, r: nat, slug: string) {
    Cell(info, r, 0) != "" && Trim(Cell(info, r, 0)) == slug
  }

  /** The slug is among the trimmed cells of one-cell rows exactly when one of them trims to it. */
  lemma SlugInRows(rows: Table, slug: string)
    requires forall i :: 0 <= i < |rows| ==> |rows[i]| <= 1
    ensures slug in TrimAll(Flat(rows))
            <==> exists i :: 0 <= i < |rows| && |rows[i]| == 1 && Trim(rows[i][0]) == slug
  {
    var cells := Flat(rows);
    if slug in TrimAll(cells) {
      var k :| 0 <= k < |cells| && TrimAll(cells)[k] == slug;
      FlatMembers(rows, cells[k]);
      var i :| 0 <= i < |rows| && rows[i] == [cells[k]];
    }
    if exists i :: 0 <= i < |rows| && |rows[i]| == 1 && Trim(rows[i][0]) == slug {
      var i :| 0 <= i < |rows| && |rows[i]| == 1 && Trim(rows[i][0]) == slug;
      assert rows[i] == [rows[i][0]];
      FlatMembers(rows, rows[i][0]);
      var k :| 0 <= k < |cells| && cells[k] == rows[i][0];
      assert TrimAll(cells)[k] == slug;
    }
  }

  /** A row of the column-A read holds the registry's cell, and is empty exactly when the
      cell is. */
  lemma ReadColumnA(info: Table, i: nat)
    requires i < |Read(info, 0, 1)|
    ensures var row := Read(info, 0, 1)[i];
            && |row| <= 1
            && (|row| == 1 <==> Cell(info, i, 0) != "")
            && (|row| == 1 ==> row[0] == Cell(info, i, 0))
  {
    ReadCell(info, 0, 1, i, 0);
    TrimRowCells(Take(info[i], 1));
  }

  /** The slug is found exactly when some row of the registry lists it. */
  lemma ListedIff(info: Table, slug: string)
    ensures slug in ExistingSlugs(info) <==> exists r: nat :: ListedAt(info, r, slug)
  {
    var rows := Read(info, 0, 1);
    ReadRowsWithin(info, 0, 1);
    SlugInRows(rows, slug);
    if slug in ExistingSlugs(info) {
      var i :| 0 <= i < |rows| && |rows[i]| == 1 && Trim(rows[i][0]) == slug;
      ReadColumnA(info, i);
      assert ListedAt(info, i, slug);
    }
    if exists r: nat :: ListedAt(info, r, slug) {
      var r: nat :| ListedAt(info, r, slug);
      ReadCovers(info, 0, 1, r, 0);
      ReadColumnA(info, r);
    }
  }

  // ---------------------------------------------------------------------------
  // The new row

  /** `new Date(s).getTime()` (none for an invalid date) and `Date.prototype.toISOString`. */
  datatype Dates = Dates(parse: string -> Option<int>, toIso: int -> string)

  /** `date_to` when it is set and non-empty, otherwise one day after `date_from`; an invalid
      start then makes `toISOString` throw, which is none here. */
  function EndTime(d: EventDetails, dates: Dates): (r: Option<string>)
    ensures d.dateTo.Some? && d.dateTo.value != "" ==> r == d.dateTo
    ensures (d.dateTo.None? || d.dateTo.value == "") ==>
              r == (if dates.parse(d.dateFrom).Some?
                    then Some(dates.toIso(dates.parse(d.dateFrom).value + DayMillis)) else None)
  {
    if d.dateTo.Some? && d.dateTo.value != "" then d.dateTo
    else
      match dates.parse(d.dateFrom)
      case None => None
      case Some(start) => Some(dates.toIso(start + DayMillis))
  }

  /** The row `[slug, name, start, end, "no"]`, where the name is the English name, else the
      German name, else the slug. */
  function EventRow(d: EventDetails, endTime: string): (r: Row)
    ensures |r| == 5 && r[0] == d.slug && r[2] == d.dateFrom && r[3] == endTime && r[4] == "no"
    ensures d.nameEn.Some? && d.nameEn.value != "" ==> r[1] == d.nameEn.value
    ensures ((d.nameEn.None? || d.nameEn.value == "") && d.nameDe.Some? && d.nameDe.value != "")
              ==> r[1] == d.nameDe.value
    ensures ((d.nameEn.None? || d.nameEn.value == "") && (d.nameDe.None? || d.nameDe.value == ""))
              ==> r[1] == d.slug
  {
    [d.slug, OrElse(d.nameEn, OrElse(d.nameDe, d.slug)), d.dateFrom, endTime, "no"]
  }

  // ---------------------------------------------------------------------------
  // The handler

  /** What `handleEventCreated` does: return early, throw, or append one row. */
  datatype Outcome =
    | NotFree
    | EventFetchFailed
    | AlreadyListed
    | InvalidStart
    | Appended(w: SheetWrite)

  /** `handleEventCreated`, with the items and the event record as the fetches returned them
      (none for a failed fetch) and the registry tab as it stands. */
  function HandleEventCreated(items: Option<seq<Item>>, event: Option<EventDetails>, info: Table,
                              dates: Dates, priceIsZero: string -> bool): (out: Outcome)
    ensures out.Appended? ==> out.w.Append? && out.w.tab == Info && event.Some?
  {
    if !IsEventFree(items, priceIsZero) then NotFree
    else if event.None? then EventFetchFailed
    else
      var d := event.value;
      if d.slug in ExistingSlugs(info) then AlreadyListed
      else
        match EndTime(d, dates)
        case None => InvalidStart
        case Some(endTime) => Appended(Append(Info, EventRow(d, endTime)))
  }

  /** A row is appended exactly when the event is free, its record was fetched, its slug is
      not listed, and its end time can be computed; the row goes to the registry tab. */
  lemma AppendedIff(items: Option<seq<Item>>, event: Option<EventDetails>, info: Table,
                    dates: Dates, priceIsZero: string -> bool)
    ensures var out := HandleEventCreated(items, event, info, dates, priceIsZero);
            out.Appended? <==> && IsEventFree(items, priceIsZero) && event.Some?
                               && !(exists r: nat :: ListedAt(info, r, event.value.slug))
                               && EndTime(event.value, dates).Some?
    ensures var out := HandleEventCreated(items, event, info, dates, priceIsZero);
            out.Appended? ==> out.w == Append(Info, EventRow(event.value, EndTime(event.value, dates).value))
  {
    if event.Some? {
      ListedIff(info, event.value.slug);
    }
  }

  /** Registering an event twice adds one row: after the append, the same event is found
      in column A (a pretix slug has no surrounding white space). */
  lemma RegistrationIdempotent(items: Option<seq<Item>>, event: Option<EventDetails>, info: Table,
                               dates: Dates, priceIsZero: string -> bool)
    requires HandleEventCreated(items, event, info, dates, priceIsZero).Appended?
    requires event.Some? && event.value.slug != "" && Trim(event.value.slug) == event.value.slug
    ensures var w := HandleEventCreated(items, event, info, dates, priceIsZero).w;
            HandleEventCreated(items, event, Apply(info, w), dates, priceIsZero) == AlreadyListed
  {
    var w := HandleEventCreated(items, event, info, dates, priceIsZero).w;
    var d := event.value;
    var row := EventRow(d, EndTime(d, dates).value);
    var after := Apply(info, w);
    assert after == AppendRow(info, row);
    var r := |DropTrailingEmptyRows(info)|;
    AppendRowCell(info, row, r, 0);
    assert ListedAt(after, r, d.slug);
    ListedIff(after, d.slug);
  }

  /** The append leaves every row above the new one as it was. */
  lemma AppendKeepsRows(info: Table, w: SheetWrite, r: nat, c: nat)
    requires w.Append? && r != |DropTrailingEmptyRows(info)|
    ensures Cell(Apply(info, w), r, c) == Cell(info, r, c)
  {
    AppendRowCell(info, w.row, r, c);
  }
}
