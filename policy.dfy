/** The policy the two handlers implement together: a first no-show puts an attendee on the
    blocklist tab without blocking them, and a second no-show, written into the next slot of
    their row, has their next order denied. */
module Policy {
  import opened Wrappers
  import opened Text
  import opened Sheets
  import opened Pretix
  import NoShows
  import Approval

  /** Rows below the last non-empty one are empty. */
  lemma CellBelowLast(t: Table, r: nat, c: nat)
    requires r >= |DropTrailingEmptyRows(t)|
    ensures Cell(t, r, c) == ""
  {
    DropTrailingShape(t);
  }

  /** Appending a row of at most seven cells changes for no row whether it blocks. */
  lemma AppendedBlockedAt(blocklist: Table, row: Row, r: nat)
    requires |row| <= 7
    ensures var after := AppendRow(blocklist, row);
            && (Approval.BlockedAt(after, r) <==> Approval.BlockedAt(blocklist, r))
            && (Approval.BlockedAt(blocklist, r) ==> Cell(after, r, 0) == Cell(blocklist, r, 0))
  {
    var after := AppendRow(blocklist, row);
    var n := |DropTrailingEmptyRows(blocklist)|;
    if r == n {
      CellBelowLast(blocklist, r, 0);
      forall c: nat | Approval.SecondEventColumn <= c
        ensures Cell(after, n, c) == ""
      {
        AppendRowCell(blocklist, row, n, c);
      }
      Approval.TrimEmpty();
    } else {
      forall c: nat ensures Cell(after, r, c) == Cell(blocklist, r, c) {
        AppendRowCell(blocklist, row, r, c);
      }
    }
  }

  /** A row of at most seven cells (e-mail, names and one event) blocks nobody, so appending
      one leaves the blocklist as it was. */
  lemma AppendKeepsBlocklist(blocklist: Table, row: Row)
    requires |row| <= 7
    ensures Approval.BlockListOf(AppendRow(blocklist, row)) == Approval.BlockListOf(blocklist)
  {
    var after := AppendRow(blocklist, row);
    forall e: string
      ensures e in Approval.BlockListOf(after) <==> e in Approval.BlockListOf(blocklist)
    {
      Approval.InBlocklistIff(after, e);
      Approval.InBlocklistIff(blocklist, e);
      if e in Approval.BlockListOf(after) {
        var r: nat :| Approval.BlockedAt(after, r) && Normalize(Cell(after, r, 0)) == e;
        AppendedBlockedAt(blocklist, row, r);
      }
      if e in Approval.BlockListOf(blocklist) {
        var r: nat :| Approval.BlockedAt(blocklist, r) && Normalize(Cell(blocklist, r, 0)) == e;
        AppendedBlockedAt(blocklist, row, r);
      }
    }
  }

  /** A first no-show: the attendee's e-mail matches no row, so the one write is the new
      seven-cell row, and the blocklist, hence every approval decision, stays as it was. */
  lemma FirstNoShowDoesNotBlock(blocklist: Table, email: string, names: NoShows.Names,
                                ev: NoShows.EventCells)
    requires NoShows.FindRow(Read(blocklist, 0, NoShows.BlocklistWidth), email, 0).None?
    ensures NoShows.WithinWidth(Read(blocklist, 0, NoShows.BlocklistWidth))
    ensures var w := Append(Blocklist, NoShows.NewRow(email, names, ev));
            && NoShows.AddWrites([(email, names)], Read(blocklist, 0, NoShows.BlocklistWidth), ev)
               == Run([w], true)
            && Approval.BlockListOf(Apply(blocklist, w)) == Approval.BlockListOf(blocklist)
  {
    ReadRowsWithin(blocklist, 0, NoShows.BlocklistWidth);
    var row := NoShows.NewRow(email, names, ev);
    assert [(email, names)][..0] == [];
    AppendKeepsBlocklist(blocklist, row);
  }

  /** The slot search picks column H when column D is taken and H is free. */
  lemma SecondSlotIsH(row: Row, width: nat)
    requires width > 7 && CellOf(row, 3) != "" && CellOf(row, 7) == ""
    ensures NoShows.FirstFreeSlot(row, width) == Some(7)
  {
    var s := NoShows.FirstFreeSlot(row, width);
    assert (7 - 3) % 4 == 0;
  }

  /** On the rows read, a second no-show of an attendee whose row has its first event in D:G
      is the one write of the event into H:K. */
  lemma SecondNoShowWrite(data: Table, email: string, names: NoShows.Names,
                          ev: NoShows.EventCells, r: nat)
    requires NoShows.WithinWidth(data)
    requires NoShows.FindRow(data, email, 0) == Some(r)
    requires |data| >= 4 && |data[3]| > 7 && CellOf(data[r], 3) != "" && CellOf(data[r], 7) == ""
    ensures NoShows.AddWrites([(email, names)], data, ev) == Run([NoShows.SlotWrite(7, r, ev)], true)
  {
    SecondSlotIsH(data[r], |data[3]|);
    assert [(email, names)][..0] == [];
  }

  /** Writing an event into H:K of a row at row 5 or below whose column A is filled puts
      that cell's normal form on the blocklist. */
  lemma SlotWriteBlocks(blocklist: Table, ev: NoShows.EventCells, r: nat)
    requires r >= Approval.FirstListedRow && Trim(ev.slug) != "" && Cell(blocklist, r, 0) != ""
    ensures Normalize(Cell(blocklist, r, 0))
            in Approval.BlockListOf(Apply(blocklist, NoShows.SlotWrite(7, r, ev)))
  {
    var after := Apply(blocklist, NoShows.SlotWrite(7, r, ev));
    NoShows.SlotWriteCells(blocklist, 7, r, ev);
    assert Cell(after, r, 7) == ev.slug;
    assert Cell(after, r, 0) == Cell(blocklist, r, 0);
    assert Approval.BlockedAt(after, r);
    Approval.InBlocklistIff(after, Normalize(Cell(blocklist, r, 0)));
  }

  /** A second no-show: the attendee's row (at row 5 or below, with its first event in D:G)
      gets the event in H:K, after which the blocklist holds the attendee's normalised e-mail
      and a pending order with that e-mail is denied. */
  lemma SecondNoShowBlocks(blocklist: Table, email: string, names: NoShows.Names,
                           ev: NoShows.EventCells, r: nat, o: PendingOrder)
    requires var data := Read(blocklist, 0, NoShows.BlocklistWidth);
             && NoShows.FindRow(data, email, 0) == Some(r)
             && r >= Approval.FirstListedRow && |data| >= 4 && |data[3]| > 7
             && CellOf(data[r], 3) != "" && CellOf(data[r], 7) == ""
    requires Trim(ev.slug) != ""
    requires email != "" && Trim(email) == email && o.email == Some(email)
    ensures NoShows.WithinWidth(Read(blocklist, 0, NoShows.BlocklistWidth))
    ensures var w := NoShows.SlotWrite(7, r, ev);
            && NoShows.AddWrites([(email, names)], Read(blocklist, 0, NoShows.BlocklistWidth), ev)
               == Run([w], true)
            && Approval.EmailKey(o) in Approval.BlockListOf(Apply(blocklist, w))
            && Approval.ActionFor(Approval.BlockListOf(Apply(blocklist, w)), o) == Approval.Deny(o.code)
  {
    var data := Read(blocklist, 0, NoShows.BlocklistWidth);
    ReadRowsWithin(blocklist, 0, NoShows.BlocklistWidth);
    SecondNoShowWrite(data, email, names, ev, r);
    // Column A of the matching row normalises to the e-mail, which is already trimmed.
    var found := NoShows.FindRow(data, email, 0);
    assert found.value == r && NoShows.Matches(data[r], email);
    ReadCell(blocklist, 0, NoShows.BlocklistWidth, r, 0);
    assert Cell(blocklist, r, 0) == CellOf(data[r], 0) == data[r][0];
    NormalizeTrimmed(email);
    assert Normalize(Cell(blocklist, r, 0)) == Approval.EmailKey(o);
    SlotWriteBlocks(blocklist, ev, r);
  }
}
