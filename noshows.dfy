/** The daily reconciliation of `fillBlockList.ts`: for every event of the registry that has
    ended and is not yet checked, collect the attendees who did not check in, write each of
    them into the blocklist tab (a new row, or the next free four-column slot of their row),
    and mark the event as checked. */
module NoShows {
  import opened Wrappers
  import opened Text
  import opened Sheets
  import opened Pretix

  /** The identifiers of the order-form questions for the first and the last name. */
  const FirstNameQuestion := "RFRGMYPK"
  const LastNameQuestion := "ZRV87CSB"

  datatype Names = Names(first: string, last: string)

  // ---------------------------------------------------------------------------
  // The missed map: a JavaScript object keyed by e-mail, in insertion order

  /** The entries of the object in the order `Object.entries` lists them. */
  type MissedMap = seq<(string, Names)>

  predicate HasKey(m: MissedMap, k: string) {
    exists i :: 0 <= i < |m| && m[i].0 == k
  }

  predicate UniqueKeys(m: MissedMap) {
    forall i, j :: 0 <= i < j < |m| ==> m[i].0 != m[j].0
  }

  /** `m[k]`. */
  function Get(m: MissedMap, k: string): Option<Names>
    decreases |m|
  {
    if m == [] then None else if m[0].0 == k then Some(m[0].1) else Get(m[1..], k)
  }

  /** `m[k] = v`: an existing key keeps its place and takes the new value, a new key goes last. */
  function Put(m: MissedMap, k: string, v: Names): MissedMap
    decreases |m|
  {
    if m == [] then [(k, v)]
    else if m[0].0 == k then [(k, v)] + m[1..]
    else [m[0]] + Put(m[1..], k, v)
  }

  lemma HasKeyTail(m: MissedMap, k: string)
    requires m != [] && m[0].0 != k
    ensures HasKey(m, k) <==> HasKey(m[1..], k)
  {
    if HasKey(m, k) {
      var i :| 0 <= i < |m| && m[i].0 == k;
      assert m[1..][i - 1].0 == k;
    }
    if HasKey(m[1..], k) {
      var i :| 0 <= i < |m[1..]| && m[1..][i].0 == k;
      assert m[i + 1].0 == k;
    }
  }

  /** Reading after `m[k] = v` gives `v` at `k` and what was there before at every other key. */
  lemma {:induction false} PutGet(m: MissedMap, k: string, v: Names, k': string)
    ensures Get(Put(m, k, v), k') == if k' == k then Some(v) else Get(m, k')
    decreases |m|
  {
    if m != [] && m[0].0 != k {
      PutGet(m[1..], k, v, k');
      assert Put(m, k, v)[1..] == Put(m[1..], k, v);
    } else if m != [] {
      assert Put(m, k, v)[1..] == m[1..];
    }
  }

  /** `m[k] = v` adds one entry exactly when the key is new, keeps the keys in their order with
      a new key last, and keeps the keys unique. */
  lemma {:induction false} PutShape(m: MissedMap, k: string, v: Names)
    ensures var r := Put(m, k, v);
            && |r| == (if HasKey(m, k) then |m| else |m| + 1)
            && (forall i :: 0 <= i < |m| ==> r[i].0 == m[i].0)
            && (!HasKey(m, k) ==> r[|m|] == (k, v))
    decreases |m|
  {
    var r := Put(m, k, v);
    if m == [] {
      assert !HasKey(m, k);
    } else if m[0].0 == k {
      assert HasKey(m, k);
      assert forall i :: 0 <= i < |m| ==> r[i].0 == m[i].0;
    } else {
      HasKeyTail(m, k);
      PutShape(m[1..], k, v);
      var t := Put(m[1..], k, v);
      assert r == [m[0]] + t;
      assert forall i :: 1 <= i < |m| ==> r[i].0 == m[1..][i - 1].0;
    }
  }

  lemma UniqueTail(m: MissedMap)
    requires m != [] && UniqueKeys(m)
    ensures UniqueKeys(m[1..])
  {
    forall i, j | 0 <= i < j < |m[1..]| ensures m[1..][i].0 != m[1..][j].0 {
      assert m[1..][i] == m[i + 1] && m[1..][j] == m[j + 1];
    }
  }

  lemma UniqueCons(x: (string, Names), t: MissedMap)
    requires UniqueKeys(t) && forall j :: 0 <= j < |t| ==> t[j].0 != x.0
    ensures UniqueKeys([x] + t)
  {
    var r := [x] + t;
    forall i, j | 0 <= i < j < |r| ensures r[i].0 != r[j].0 {
      assert r[j] == t[j - 1];
      if i > 0 {
        assert r[i] == t[i - 1];
      }
    }
  }

  /** Putting keeps the keys distinct. */
  lemma {:induction false} PutUnique(m: MissedMap, k: string, v: Names)
    requires UniqueKeys(m)
    ensures UniqueKeys(Put(m, k, v))
    decreases |m|
  {
    if m != [] && m[0].0 != k {
      UniqueTail(m);
      PutUnique(m[1..], k, v);
      HasKeyTail(m, k);
      PutShape(m[1..], k, v);
      var t := Put(m[1..], k, v);
      forall j | 0 <= j < |t| ensures t[j].0 != m[0].0 {
        if j < |m[1..]| {
          assert t[j].0 == m[j + 1].0;
        }
      }
      UniqueCons(m[0], t);
    } else if m != [] {
      UniqueTail(m);
      forall j | 0 <= j < |m[1..]| ensures m[1..][j].0 != k {
        assert m[1..][j] == m[j + 1];
      }
      UniqueCons((k, v), m[1..]);
    }
  }

  /** A key is present exactly when reading it gives a value. */
  lemma {:induction false} GetIff(m: MissedMap, k: string)
    ensures Get(m, k).Some? <==> HasKey(m, k)
    decreases |m|
  {
    if m != [] && m[0].0 != k {
      GetIff(m[1..], k);
      if HasKey(m, k) {
        var i :| 0 <= i < |m| && m[i].0 == k;
        assert m[1..][i - 1].0 == k;
      }
      if HasKey(m[1..], k) {
        var i :| 0 <= i < |m[1..]| && m[1..][i].0 == k;
        assert m[i + 1].0 == k;
      }
    } else if m != [] {
      assert m[0].0 == k;
    }
  }

  // ---------------------------------------------------------------------------
  // One order

  /** `a.answer || ""`. */
  function AnswerText(a: Answer): string {
    OrElse(a.answer, "")
  }

  /** The value the `forEach` over the answers leaves in the variable for `question`:
      each matching answer overwrites the one before. */
  function NameFrom(answers: seq<Answer>, question: string): string
    decreases |answers|
  {
    if answers == [] then ""
    else
      var a := answers[|answers| - 1];
      if a.questionIdentifier == question then AnswerText(a)
      else NameFrom(answers[..|answers| - 1], question)
  }

  function NamesOf(answers: seq<Answer>): Names {
    Names(NameFrom(answers, FirstNameQuestion), NameFrom(answers, LastNameQuestion))
  }

  /** The name is that of the last answer to the question. */
  lemma {:induction false} NameIsLastAnswer(answers: seq<Answer>, question: string, j: nat)
    requires j < |answers| && answers[j].questionIdentifier == question
    requires forall k :: j < k < |answers| ==> answers[k].questionIdentifier != question
    ensures NameFrom(answers, question) == AnswerText(answers[j])
    decreases |answers|
  {
    if j < |answers| - 1 {
      var front := answers[..|answers| - 1];
      assert forall k :: j < k < |front| ==> front[k] == answers[k];
      NameIsLastAnswer(front, question, j);
    }
  }

  /** Without an answer to the question the name stays "". */
  lemma {:induction false} NameUnanswered(answers: seq<Answer>, question: string)
    requires forall k :: 0 <= k < |answers| ==> answers[k].questionIdentifier != question
    ensures NameFrom(answers, question) == ""
    decreases |answers|
  {
    if answers != [] {
      var front := answers[..|answers| - 1];
      assert forall k :: 0 <= k < |front| ==> front[k] == answers[k];
      NameUnanswered(front, question);
    }
  }

  /** The loop over the first position's answers. */
  method ReadNames(answers: seq<Answer>) returns (names: Names)
    ensures names == NamesOf(answers)
  {
    var first, last := "", "";
    var i := 0;
    while i < |answers|
      invariant 0 <= i <= |answers|
      invariant first == NameFrom(answers[..i], FirstNameQuestion)
      invariant last == NameFrom(answers[..i], LastNameQuestion)
    {
      var a := answers[i];
      assert answers[..i + 1][..i] == answers[..i];
      if a.questionIdentifier == FirstNameQuestion { first := OrElse(a.answer, ""); }
      if a.questionIdentifier == LastNameQuestion { last := OrElse(a.answer, ""); }
      i := i + 1;
    }
    assert answers[..i] == answers;
    names := Names(first, last);
  }

  /** Some position's `checkins` is an empty array. */
  predicate HasUnchecked(o: Order) {
    exists i :: 0 <= i < |o.positions| && o.positions[i].checkins == CheckinList(0)
  }

  /** The orders that make their e-mail a no-show. */
  predicate Recorded(o: Order) {
    o.status != Cancelled && HasUnchecked(o)
  }

  /** The names of a recorded order, from the answers of its first position. */
  function AttendeeOf(o: Order): Names
    requires HasUnchecked(o)
  {
    NamesOf(o.positions[0].answers)
  }

  // ---------------------------------------------------------------------------
  // All orders of an event

  /** The missed map after the loop has seen `orders`, in order. */
  function Collect(orders: seq<Order>): MissedMap
    decreases |orders|
  {
    if orders == [] then []
    else
      var prev := Collect(orders[..|orders| - 1]);
      var o := orders[|orders| - 1];
      if Recorded(o) then Put(prev, o.email, AttendeeOf(o)) else prev
  }

  /** `getNoShows`: the missed map of all pages, or nothing when a page fetch fails, which
      throws. */
  function NoShows(listing: seq<Page<Order>>): Option<MissedMap> {
    if AllFetched(listing) then Some(Collect(Flatten(listing))) else None
  }

  /** An e-mail is in the map exactly when it has a non-cancelled order with a position that
      was not checked in. */
  lemma {:induction false} CollectHas(orders: seq<Order>, e: string)
    ensures Get(Collect(orders), e).Some?
            <==> exists i :: 0 <= i < |orders| && Recorded(orders[i]) && orders[i].email == e
    decreases |orders|
  {
    if orders != [] {
      var n := |orders|;
      var front := orders[..n - 1];
      CollectHas(front, e);
      var o := orders[n - 1];
      if Recorded(o) {
        PutGet(Collect(front), o.email, AttendeeOf(o), e);
      }
      assert forall i :: 0 <= i < n - 1 ==> front[i] == orders[i];
    }
  }

  /** The names stored for an e-mail are those of its last recorded order. */
  lemma {:induction false} CollectLastWins(orders: seq<Order>, e: string, j: nat)
    requires j < |orders| && Recorded(orders[j]) && orders[j].email == e
    requires forall k :: j < k < |orders| ==> !(Recorded(orders[k]) && orders[k].email == e)
    ensures Get(Collect(orders), e) == Some(AttendeeOf(orders[j]))
    decreases |orders|
  {
    var n := |orders|;
    if j < n - 1 {
      var front := orders[..n - 1];
      assert forall k :: j < k < |front| ==> front[k] == orders[k];
      CollectLastWins(front, e, j);
      var o := orders[n - 1];
      if Recorded(o) {
        PutGet(Collect(front), o.email, AttendeeOf(o), e);
      }
    } else {
      PutGet(Collect(orders[..n - 1]), e, AttendeeOf(orders[j]), e);
    }
  }

  /** Every key appears once, so every no-show gets one write. */
  lemma {:induction false} CollectUnique(orders: seq<Order>)
    ensures UniqueKeys(Collect(orders))
    decreases |orders|
  {
    if orders != [] {
      var o := orders[|orders| - 1];
      CollectUnique(orders[..|orders| - 1]);
      if Recorded(o) {
        PutUnique(Collect(orders[..|orders| - 1]), o.email, AttendeeOf(o));
      }
    }
  }

  /** An e-mail whose orders are all cancelled is never recorded. */
  lemma CancelledNeverRecorded(orders: seq<Order>, e: string)
    requires forall i :: 0 <= i < |orders| && orders[i].email == e ==> orders[i].status == Cancelled
    ensures Get(Collect(orders), e) == None
  {
    CollectHas(orders, e);
  }

  lemma NotAllFetched(listing: seq<Page<Order>>, p: nat)
    requires p < |listing| && listing[p].FetchFailed?
    ensures NoShows(listing) == None
  {
  }

  lemma FlattenStep(listing: seq<Page<Order>>, p: nat)
    requires p < |listing| && listing[p].Fetched?
    ensures Flatten(listing[..p + 1]) == Flatten(listing[..p]) + listing[p].results
  {
    assert listing[..p + 1][..p] == listing[..p];
  }

  lemma CollectSnoc(seen: seq<Order>, o: Order)
    ensures Collect(seen + [o])
            == if Recorded(o) then Put(Collect(seen), o.email, AttendeeOf(o)) else Collect(seen)
  {
    assert (seen + [o])[..|seen|] == seen;
  }

  /** The `for` loop over the orders of one page. */
  method CollectPage(missed: MissedMap, ghost seen: seq<Order>, results: seq<Order>)
    returns (m: MissedMap)
    requires missed == Collect(seen)
    ensures m == Collect(seen + results)
  {
    m := missed;
    var j := 0;
    assert seen + results[..0] == seen;
    while j < |results|
      invariant 0 <= j <= |results|
      invariant m == Collect(seen + results[..j])
    {
      var o := results[j];
      CollectSnoc(seen + results[..j], o);
      assert seen + results[..j] + [o] == seen + results[..j + 1];
      if o.status != Cancelled {
        var hasUnchecked := exists k :: 0 <= k < |o.positions| && o.positions[k].checkins == CheckinList(0);
        if hasUnchecked {
          var names := ReadNames(o.positions[0].answers);
          m := Put(m, o.email, names);
        }
      }
      j := j + 1;
    }
    assert results[..j] == results;
  }

  /** The paging loop of `getNoShows`. */
  method GetNoShows(listing: seq<Page<Order>>) returns (r: Option<MissedMap>)
    ensures r == NoShows(listing)
  {
    var missed: MissedMap := [];
    var p := 0;
    while p < |listing|
      invariant 0 <= p <= |listing|
      invariant AllFetched(listing[..p])
      invariant missed == Collect(Flatten(listing[..p]))
    {
      var page := listing[p];
      if page.FetchFailed? {
        NotAllFetched(listing, p);
        return None;
      }
      missed := CollectPage(missed, Flatten(listing[..p]), page.results);
      FlattenStep(listing, p);
      assert listing[..p + 1][..p] == listing[..p];
      p := p + 1;
    }
    assert listing[..p] == listing;
    return Some(missed);
  }

  // ---------------------------------------------------------------------------
  // Writing the no-shows of one event into the blocklist

  /** The columns of the blocklist tab that the handler reads: `A:Z`. */
  const BlocklistWidth := 26

  /** The four values that describe one missed event: slug, name, date and the day entered. */
  datatype EventCells = EventCells(slug: string, name: string, date: string, today: string)

  /** `eventDetails.name?.en || eventSlug` and `date_from.split("T")[0]`. */
  function EventCellsOf(slug: string, d: EventDetails, today: string): (ev: EventCells)
    ensures ev.slug == slug && ev.today == today
    ensures d.nameEn.Some? && d.nameEn.value != "" ==> ev.name == d.nameEn.value
    ensures d.nameEn.None? || d.nameEn.value == "" ==> ev.name == slug
    ensures ev.date <= d.dateFrom && 'T' !in ev.date
    ensures ev.date == d.dateFrom || (|ev.date| < |d.dateFrom| && d.dateFrom[|ev.date|] == 'T')
  {
    EventCells(slug, OrElse(d.nameEn, slug), PrefixBefore(d.dateFrom, 'T'), today)
  }

  /** The row appended for a first no-show: e-mail, names and the first event slot (D:G). */
  function NewRow(email: string, n: Names, ev: EventCells): Row {
    [email, n.first, n.last, ev.slug, ev.name, ev.date, ev.today]
  }

  function SlotValues(ev: EventCells): Row {
    [ev.slug, ev.name, ev.date, ev.today]
  }

  /** The `findIndex` test: the first cell, lower-cased and trimmed, is the lower-cased e-mail.
      A row without a first cell never matches. */
  predicate Matches(row: Row, email: string) {
    |row| > 0 && Normalize(row[0]) == Lower(email)
  }

  /** `data.findIndex(...)` from index `from` on. */
  function FindRow(data: Table, email: string, from: nat): (r: Option<nat>)
    decreases |data| - from
    ensures r.Some? ==> from <= r.value < |data| && Matches(data[r.value], email)
    ensures r.Some? ==> forall k :: from <= k < r.value ==> !Matches(data[k], email)
    ensures r.None? ==> forall k :: from <= k < |data| ==> !Matches(data[k], email)
  {
    if from >= |data| then None
    else if Matches(data[from], email) then Some(from)
    else FindRow(data, email, from + 1)
  }

  /** The first of the columns c, c + 4, c + 8, ... below `width` whose cell is empty. */
  function FreeSlotFrom(row: Row, width: nat, c: nat): (r: Option<nat>)
    decreases width - c
    ensures r.Some? ==> c <= r.value < width && (r.value - c) % 4 == 0 && CellOf(row, r.value) == ""
    ensures r.Some? ==> forall k :: c <= k < r.value && (k - c) % 4 == 0 ==> CellOf(row, k) != ""
    ensures r.None? ==> forall k :: c <= k < width && (k - c) % 4 == 0 ==> CellOf(row, k) != ""
  {
    if c >= width then None
    else if CellOf(row, c) == "" then Some(c)
    else
      FreeSlotFrom(row, width, c + 4)
  }

  /** The first free event slot: columns D, H, L, ... (0-based 3, 7, 11, ...). */
  function FirstFreeSlot(row: Row, width: nat): Option<nat> {
    FreeSlotFrom(row, width, 3)
  }

  /** The `for` loop with `break` that looks for the insertion column. */
  method FindFreeSlot(row: Row, width: nat) returns (slot: Option<nat>)
    ensures slot == FirstFreeSlot(row, width)
  {
    var c := 3;
    while c < width
      invariant c >= 3
      invariant FreeSlotFrom(row, width, c) == FirstFreeSlot(row, width)
      decreases width - c
    {
      if CellOf(row, c) == "" {
        return Some(c);
      }
      c := c + 4;
    }
    return None;
  }

  /** The range `<col c><r+1>:<col c+3><r+1>` of the slot at 0-based column c of row r. */
  function SlotRange(c: nat, r: nat): A1Range
    requires c + 3 < 0xD800 - 65
  {
    A1Range(ColumnLetter(c), r + 1, ColumnLetter(c + 3), r + 1)
  }

  function SlotWrite(c: nat, r: nat, ev: EventCells): SheetWrite
    requires c + 3 < 0xD800 - 65
  {
    Update(Blocklist, SlotRange(c, r), SlotValues(ev))
  }

  /** What the handler does for one entry of the missed map. */
  datatype Step = Wrote(w: SheetWrite) | Skipped | Failed

  /** Rows as wide as the read `A:Z` gives them. */
  predicate WithinWidth(data: Table) {
    forall i :: 0 <= i < |data| ==> |data[i]| <= BlocklistWidth
  }

  /** One entry: append a new row, or update the first free slot of the matching row, or skip
      when the row has no free slot. A matching row with fewer than four rows read makes
      `data[3].length` throw, and so does a slot range the API rejects. */
  function EntryStep(data: Table, email: string, n: Names, ev: EventCells): Step
    requires WithinWidth(data)
  {
    match FindRow(data, email, 0)
    case None => Wrote(Append(Blocklist, NewRow(email, n, ev)))
    case Some(r) =>
      if |data| < 4 then Failed
      else
        match FirstFreeSlot(data[r], |data[3]|)
        case None => Skipped
        case Some(c) =>
          var w := SlotWrite(c, r, ev);
          if Accepted(w) then Wrote(w) else Failed
  }

  /** Every write of an entry goes to the blocklist tab and is one the sheet accepts; a new
      row is appended exactly when no row of the tab holds the e-mail. */
  lemma EntryStepWrites(data: Table, email: string, n: Names, ev: EventCells)
    requires WithinWidth(data)
    ensures var step := EntryStep(data, email, n, ev);
            step.Wrote? ==> step.w.tab == Blocklist && Accepted(step.w)
    ensures var step := EntryStep(data, email, n, ev);
            step.Wrote? && step.w.Append? <==> FindRow(data, email, 0).None?
  {
  }

  /** `addNoShowToList` over the entries of the map, against one read of the tab. */
  function AddWrites(missed: MissedMap, data: Table, ev: EventCells): Run<SheetWrite>
    requires WithinWidth(data)
    decreases |missed|
  {
    if missed == [] then Run([], true)
    else
      var (email, n) := missed[|missed| - 1];
      Extend(AddWrites(missed[..|missed| - 1], data, ev), EntryStep(data, email, n, ev))
  }

  /** One entry's step after the earlier ones: nothing once a step has thrown. */
  function Extend(prev: Run<SheetWrite>, step: Step): Run<SheetWrite> {
    if !prev.completed then prev
    else
      match step
      case Wrote(w) => Run(prev.effects + [w], true)
      case Skipped => prev
      case Failed => Run(prev.effects, false)
  }

  lemma ExtendCompleted(prev: Run<SheetWrite>, step: Step)
    ensures Extend(prev, step).completed <==> prev.completed && !step.Failed?
  {
  }

  /** The slots at 0-based columns 3 to 19 have ranges the API takes, D:G up to T:W, and the
      update writes exactly the four cells of the slot. */
  lemma SlotWriteCells(t: Table, c: nat, r: nat, ev: EventCells)
    requires c + 3 < BlocklistWidth
    ensures Accepted(SlotWrite(c, r, ev))
    ensures forall r': nat, c': nat :: Cell(Apply(t, SlotWrite(c, r, ev)), r', c')
              == if r' == r && c <= c' < c + 4 then SlotValues(ev)[c' - c] else Cell(t, r', c')
  {
    assert ColumnOf(ColumnLetter(c)) == Some(c);
    assert ColumnOf(ColumnLetter(c + 3)) == Some(c + 3);
    forall r': nat, c': nat ensures Cell(Apply(t, SlotWrite(c, r, ev)), r', c')
              == if r' == r && c <= c' < c + 4 then SlotValues(ev)[c' - c] else Cell(t, r', c')
    {
      SetCellsCell(t, r, c, SlotValues(ev), r', c');
    }
  }

  /** The sixth slot, at column X, would end past column Z: its range `X<n>:[<n>` is refused. */
  lemma SixthSlotRefused(r: nat, ev: EventCells)
    ensures !Accepted(SlotWrite(23, r, ev))
  {
    assert ColumnLetter(26) == '[';
  }

  /** Within the read, a free slot is at most at column X. */
  lemma SlotWithinRead(data: Table, r: nat)
    requires WithinWidth(data) && 4 <= |data| && r < |data|
    requires FirstFreeSlot(data[r], |data[3]|).Some?
    ensures FirstFreeSlot(data[r], |data[3]|).value <= 23
  {
    var c := FirstFreeSlot(data[r], |data[3]|).value;
    assert (c - 3) % 4 == 0 && c < BlocklistWidth;
  }

  /** Every write of a run is the write of one of the entries. */
  lemma {:induction false} AddWritesFromEntries(missed: MissedMap, data: Table, ev: EventCells)
    requires WithinWidth(data)
    ensures forall w :: w in AddWrites(missed, data, ev).effects ==>
              (exists i :: 0 <= i < |missed| && EntryStep(data, missed[i].0, missed[i].1, ev) == Wrote(w))
    decreases |missed|
  {
    if missed != [] {
      var front := missed[..|missed| - 1];
      AddWritesFromEntries(front, data, ev);
      assert forall i :: 0 <= i < |front| ==> front[i] == missed[i];
    }
  }

  /** A run stops exactly when some entry fails. */
  lemma AddWritesStops(missed: MissedMap, data: Table, ev: EventCells)
    requires WithinWidth(data)
    ensures AddWrites(missed, data, ev).completed
            <==> forall i :: 0 <= i < |missed| ==> !EntryStep(data, missed[i].0, missed[i].1, ev).Failed?
  {
    if AddWrites(missed, data, ev).completed {
      AddWritesCompletedNoFailure(missed, data, ev);
    } else {
      AddWritesStoppedFailure(missed, data, ev);
    }
  }

  lemma {:induction false} AddWritesCompletedNoFailure(missed: MissedMap, data: Table, ev: EventCells)
    requires WithinWidth(data) && AddWrites(missed, data, ev).completed
    ensures forall i :: 0 <= i < |missed| ==> !EntryStep(data, missed[i].0, missed[i].1, ev).Failed?
    decreases |missed|
  {
    if missed != [] {
      var n := |missed| - 1;
      var front := missed[..n];
      var last := EntryStep(data, missed[n].0, missed[n].1, ev);
      ExtendCompleted(AddWrites(front, data, ev), last);
      assert !last.Failed? && AddWrites(front, data, ev).completed;
      AddWritesCompletedNoFailure(front, data, ev);
      forall i | 0 <= i < |missed| ensures !EntryStep(data, missed[i].0, missed[i].1, ev).Failed? {
        if i < n {
          assert front[i] == missed[i];
        } else {
          assert i == n;
        }
      }
    }
  }

  lemma {:induction false} AddWritesStoppedFailure(missed: MissedMap, data: Table, ev: EventCells)
    requires WithinWidth(data) && !AddWrites(missed, data, ev).completed
    ensures exists i :: 0 <= i < |missed| && EntryStep(data, missed[i].0, missed[i].1, ev).Failed?
    decreases |missed|
  {
    var n := |missed| - 1;
    var front := missed[..n];
    ExtendCompleted(AddWrites(front, data, ev), EntryStep(data, missed[n].0, missed[n].1, ev));
    if AddWrites(front, data, ev).completed {
      assert EntryStep(data, missed[n].0, missed[n].1, ev).Failed?;
    } else {
      AddWritesStoppedFailure(front, data, ev);
      var i :| 0 <= i < |front| && EntryStep(data, front[i].0, front[i].1, ev).Failed?;
      assert front[i] == missed[i];
    }
  }

  /** In a completed run, every entry whose step writes has its write among the effects. */
  lemma {:induction false} AddWritesComplete(missed: MissedMap, data: Table, ev: EventCells, i: nat)
    requires WithinWidth(data) && i < |missed|
    requires AddWrites(missed, data, ev).completed
    requires EntryStep(data, missed[i].0, missed[i].1, ev).Wrote?
    ensures EntryStep(data, missed[i].0, missed[i].1, ev).w in AddWrites(missed, data, ev).effects
    decreases |missed|
  {
    var front := missed[..|missed| - 1];
    var prev := AddWrites(front, data, ev);
    if i < |missed| - 1 {
      assert front[i] == missed[i];
      AddWritesComplete(front, data, ev, i);
    }
  }

  /** All writes of the handler go to the blocklist tab. */
  lemma {:induction false} AddWritesTab(missed: MissedMap, data: Table, ev: EventCells)
    requires WithinWidth(data)
    ensures forall w :: w in AddWrites(missed, data, ev).effects ==> w.tab == Blocklist
  {
    AddWritesFromEntries(missed, data, ev);
  }

  /** Once an entry fails, the later entries write nothing. */
  lemma {:induction false} AddWritesStopped(missed: MissedMap, data: Table, ev: EventCells, k: nat)
    requires WithinWidth(data) && k <= |missed|
    requires !AddWrites(missed[..k], data, ev).completed
    ensures AddWrites(missed, data, ev) == AddWrites(missed[..k], data, ev)
    decreases |missed|
  {
    if k < |missed| {
      var front := missed[..|missed| - 1];
      assert front[..k] == missed[..k];
      AddWritesStopped(front, data, ev, k);
    } else {
      assert missed[..k] == missed;
    }
  }

  /** One more entry on a run that has not stopped. */
  lemma AddWritesNext(missed: MissedMap, data: Table, ev: EventCells, i: nat)
    requires WithinWidth(data) && i < |missed|
    requires AddWrites(missed[..i], data, ev).completed
    ensures var prev := AddWrites(missed[..i], data, ev);
            AddWrites(missed[..i + 1], data, ev)
            == match EntryStep(data, missed[i].0, missed[i].1, ev)
               case Wrote(w) => Run(prev.effects + [w], true)
               case Skipped => prev
               case Failed => Run(prev.effects, false)
  {
    assert missed[..i + 1][..i] == missed[..i];
  }

  /** `addNoShowToList` as a function of the blocklist tab as it stands when it is read. */
  function AddToBlocklist(missed: MissedMap, slug: string, d: EventDetails, today: string, blocklist: Table)
    : Run<SheetWrite>
  {
    ReadRowsWithin(blocklist, 0, BlocklistWidth);
    AddWrites(missed, Read(blocklist, 0, BlocklistWidth), EventCellsOf(slug, d, today))
  }

  /** The body of the loop of `addNoShowToList` for one entry. */
  method WriteEntry(data: Table, email: string, info: Names, ev: EventCells) returns (step: Step)
    requires WithinWidth(data)
    ensures step == EntryStep(data, email, info, ev)
  {
    var found := FindRow(data, email, 0);
    if found.None? {
      return Wrote(Append(Blocklist, NewRow(email, info, ev)));
    }
    var r := found.value;
    if |data| < 4 {
      return Failed;
    }
    var slot := FindFreeSlot(data[r], |data[3]|);
    if slot.None? {
      return Skipped;
    }
    var c := slot.value;
    SlotWithinRead(data, r);
    var w := SlotWrite(c, r, ev);
    if !Accepted(w) {
      return Failed;
    }
    return Wrote(w);
  }

  /** `addNoShowToList`: one read of `A:Z`, then one write per entry of the map. */
  method AddNoShowToList(missed: MissedMap, slug: string, d: EventDetails, today: string, blocklist: Table)
    returns (run: Run<SheetWrite>)
    ensures run == AddToBlocklist(missed, slug, d, today, blocklist)
  {
    var ev := EventCellsOf(slug, d, today);
    var data := Read(blocklist, 0, BlocklistWidth);
    ReadRowsWithin(blocklist, 0, BlocklistWidth);
    var writes: seq<SheetWrite> := [];
    var i := 0;
    while i < |missed|
      invariant 0 <= i <= |missed|
      invariant AddWrites(missed[..i], data, ev) == Run(writes, true)
    {
      var (email, info) := missed[i];
      var step := WriteEntry(data, email, info, ev);
      AddWritesNext(missed, data, ev, i);
      if step.Failed? {
        AddWritesStopped(missed, data, ev, i + 1);
        return Run(writes, false);
      }
      if step.Wrote? {
        writes := writes + [step.w];
      }
      i := i + 1;
    }
    assert missed[..i] == missed;
    return Run(writes, true);
  }

  // ---------------------------------------------------------------------------
  // The registry loop

  /** The answers of the pretix API that the run sees: the event records and the order
      listings, by slug. A slug without a record is a failed event fetch; a slug without a
      listing is a failed orders fetch. */
  datatype Api = Api(events: map<string, EventDetails>, orders: map<string, seq<Page<Order>>>)

  /** The clock and the date parser: `new Date()` in milliseconds, its ISO day, and
      `new Date(s).getTime()`, with `None` for an invalid date. */
  datatype Clock = Clock(now: int, today: string, parse: string -> Option<int>)

  /** The registry columns that are read, `A:E`: slug, name, start, end, checked. */
  const RegistryWidth := 5

  /** The 0-based index of the first registry row with an event; rows 1 to 6 are headers. */
  const FirstEventRow := 6

  function OrdersOf(api: Api, slug: string): seq<Page<Order>> {
    if slug in api.orders then api.orders[slug] else [FetchFailed]
  }

  /** `new Date(endDate)`; a missing or empty end is an invalid date. */
  function EndOf(row: Row, clock: Clock): Option<int> {
    var endDate := CellOf(row, 3);
    if endDate == "" then None else clock.parse(endDate)
  }

  /** A registry row the loop processes: it has a slug, is not yet checked, and ended
      no later than now. */
  predicate Due(row: Row, clock: Clock) {
    && CellOf(row, 0) != ""
    && Lower(CellOf(row, 4)) == "no"
    && EndOf(row, clock).Some?
    && EndOf(row, clock).value <= clock.now
  }

  /** The update of cell `E<i+1>` to "yes" that marks registry row i as checked. */
  function MarkChecked(i: nat): SheetWrite {
    Update(Info, A1Range('E', i + 1, 'E', i + 1), ["yes"])
  }

  /** One registry row, against the blocklist as the earlier rows left it. */
  function EventStep(row: Row, i: nat, current: Table, api: Api, clock: Clock): Run<SheetWrite> {
    var slug := CellOf(row, 0);
    if !Due(row, clock) || slug !in api.events then Run([], true)
    else
      match NoShows(OrdersOf(api, slug))
      case None => Run([], false)
      case Some(missed) =>
        var add := if |missed| == 0 then Run([], true)
                   else AddToBlocklist(missed, slug, api.events[slug], clock.today, current);
        if add.completed then Run(add.effects + [MarkChecked(i)], true) else add
  }

  /** Only a due row writes anything or stops the run, and a completed row that wrote ends
      with the write that marks it processed. */
  lemma EventStepEnds(row: Row, i: nat, current: Table, api: Api, clock: Clock)
    ensures var r := EventStep(row, i, current, api, clock);
            !r.completed || r.effects != [] ==> Due(row, clock)
    ensures var r := EventStep(row, i, current, api, clock);
            r.completed && r.effects != [] ==> r.effects[|r.effects| - 1] == MarkChecked(i)
  {
  }

  /** The writes of the registry loop over the rows before `n`. */
  function ReconcileUpTo(rows: Table, blocklist: Table, api: Api, clock: Clock, n: nat): Run<SheetWrite>
    requires n <= |rows|
    decreases n
  {
    if n <= FirstEventRow then Run([], true)
    else
      var prev := ReconcileUpTo(rows, blocklist, api, clock, n - 1);
      if !prev.completed then prev
      else
        var step := EventStep(rows[n - 1], n - 1, ApplyAll(blocklist, Blocklist, prev.effects), api, clock);
        Run(prev.effects + step.effects, step.completed)
  }

  /** `fillBlockList`: one read of the registry, then the loop over its rows. */
  function Reconcile(info: Table, blocklist: Table, api: Api, clock: Clock): Run<SheetWrite> {
    var rows := Read(info, 0, RegistryWidth);
    if |rows| < 2 then Run([], true) else ReconcileUpTo(rows, blocklist, api, clock, |rows|)
  }

  /** Once an event stops the run, the later rows write nothing. */
  lemma {:induction false} ReconcileStopped(rows: Table, blocklist: Table, api: Api, clock: Clock, n: nat, k: nat)
    requires k <= n <= |rows|
    requires !ReconcileUpTo(rows, blocklist, api, clock, k).completed
    ensures ReconcileUpTo(rows, blocklist, api, clock, n) == ReconcileUpTo(rows, blocklist, api, clock, k)
    decreases n
  {
    if k < n {
      ReconcileStopped(rows, blocklist, api, clock, n - 1, k);
    }
  }

  lemma ReconcileAdvance(rows: Table, blocklist: Table, api: Api, clock: Clock, i: nat,
                         writes: seq<SheetWrite>, step: Run<SheetWrite>)
    requires FirstEventRow <= i < |rows|
    requires ReconcileUpTo(rows, blocklist, api, clock, i) == Run(writes, true)
    requires step == EventStep(rows[i], i, ApplyAll(blocklist, Blocklist, writes), api, clock)
    ensures ReconcileUpTo(rows, blocklist, api, clock, i + 1) == Run(writes + step.effects, step.completed)
  {
  }

  /** The body of the loop of `fillBlockList` for registry row i. */
  method ProcessRow(row: Row, i: nat, current: Table, api: Api, clock: Clock) returns (step: Run<SheetWrite>)
    ensures step == EventStep(row, i, current, api, clock)
  {
    var slug, endDate, checked := CellOf(row, 0), CellOf(row, 3), CellOf(row, 4);
    if slug == "" || Lower(checked) != "no" {
      return Run([], true);
    }
    var eventEnd := if endDate == "" then None else clock.parse(endDate);
    if eventEnd.None? || eventEnd.value > clock.now || slug !in api.events {
      return Run([], true);
    }
    var d := api.events[slug];
    var missed := GetNoShows(OrdersOf(api, slug));
    if missed.None? {
      return Run([], false);
    }
    var add := Run([], true);
    if |missed.value| != 0 {
      add := AddNoShowToList(missed.value, slug, d, clock.today, current);
    }
    if !add.completed {
      return add;
    }
    return Run(add.effects + [MarkChecked(i)], true);
  }

  /** After one row of the loop: a row that stops the run stops it for good, and the blocklist
      is the earlier rows' result with this row's writes applied. */
  lemma RegistryStep(rows: Table, blocklist: Table, api: Api, clock: Clock, i: nat,
                     writes: seq<SheetWrite>, step: Run<SheetWrite>)
    requires FirstEventRow <= i < |rows|
    requires ReconcileUpTo(rows, blocklist, api, clock, i + 1) == Run(writes + step.effects, step.completed)
    ensures !step.completed ==> ReconcileUpTo(rows, blocklist, api, clock, |rows|) == Run(writes + step.effects, false)
    ensures ApplyAll(blocklist, Blocklist, writes + step.effects)
            == ApplyAll(ApplyAll(blocklist, Blocklist, writes), Blocklist, step.effects)
  {
    if !step.completed {
      ReconcileStopped(rows, blocklist, api, clock, |rows|, i + 1);
    }
    ApplyAllConcat(blocklist, Blocklist, writes, step.effects);
  }

  /** The `for` loop of `fillBlockList` over the registry rows from index 6 on, with the
      blocklist tab as each event leaves it. */
  method ProcessRows(rows: Table, blocklist: Table, api: Api, clock: Clock) returns (run: Run<SheetWrite>)
    ensures run == ReconcileUpTo(rows, blocklist, api, clock, |rows|)
  {
    if |rows| <= FirstEventRow {
      return Run([], true);
    }
    var writes: seq<SheetWrite> := [];
    var current := blocklist;
    var i := FirstEventRow;
    while i < |rows|
      invariant FirstEventRow <= i <= |rows|
      invariant ReconcileUpTo(rows, blocklist, api, clock, i) == Run(writes, true)
      invariant current == ApplyAll(blocklist, Blocklist, writes)
    {
      var step := ProcessRow(rows[i], i, current, api, clock);
      ReconcileAdvance(rows, blocklist, api, clock, i, writes, step);
      RegistryStep(rows, blocklist, api, clock, i, writes, step);
      if !step.completed {
        return Run(writes + step.effects, false);
      }
      current := ApplyAll(current, Blocklist, step.effects);
      writes := writes + step.effects;
      i := i + 1;
    }
    return Run(writes, true);
  }

  /** `fillBlockList`: one read of the registry's columns A to E, an early return for fewer
      than two rows, then the loop. */
  method FillBlockList(info: Table, blocklist: Table, api: Api, clock: Clock) returns (run: Run<SheetWrite>)
    ensures run == Reconcile(info, blocklist, api, clock)
  {
    var rows := Read(info, 0, RegistryWidth);
    if |rows| < 2 {
      return Run([], true);
    }
    run := ProcessRows(rows, blocklist, api, clock);
  }

  // ---------------------------------------------------------------------------
  // What the registry loop writes

  /** A registry with no event row below the six header rows gets no write. */
  lemma FewRowsNothing(info: Table, blocklist: Table, api: Api, clock: Clock)
    requires |DropTrailingEmptyRows(info)| <= FirstEventRow
    ensures Reconcile(info, blocklist, api, clock) == Run([], true)
  {
    ReadWithinRows(info, RegistryWidth);
  }

  /** The one registry write of an event marks its own row, and only a processed row. */
  lemma EventStepInfoWrites(row: Row, i: nat, current: Table, api: Api, clock: Clock)
    ensures forall w :: w in EventStep(row, i, current, api, clock).effects && w.tab == Info ==>
              w == MarkChecked(i) && Due(row, clock) && CellOf(row, 0) in api.events
  {
    var slug := CellOf(row, 0);
    if Due(row, clock) && slug in api.events {
      var listing := NoShows(OrdersOf(api, slug));
      if listing.Some? && |listing.value| != 0 {
        var ev := EventCellsOf(slug, api.events[slug], clock.today);
        ReadRowsWithin(current, 0, BlocklistWidth);
        AddWritesTab(listing.value, Read(current, 0, BlocklistWidth), ev);
      }
    }
  }

  /** Every registry write among `writes` marks a processed row before `n`. */
  predicate MarksProcessed(writes: seq<SheetWrite>, rows: Table, api: Api, clock: Clock, n: nat)
    requires n <= |rows|
  {
    forall w :: w in writes && w.tab == Info ==>
      (exists i :: FirstEventRow <= i < n && w == MarkChecked(i)
                   && Due(rows[i], clock) && CellOf(rows[i], 0) in api.events)
  }

  lemma MarksProcessedStep(prev: seq<SheetWrite>, step: seq<SheetWrite>, rows: Table, api: Api,
                           clock: Clock, n: nat)
    requires FirstEventRow < n <= |rows|
    requires MarksProcessed(prev, rows, api, clock, n - 1)
    requires forall w :: w in step && w.tab == Info ==>
               w == MarkChecked(n - 1) && Due(rows[n - 1], clock) && CellOf(rows[n - 1], 0) in api.events
    ensures MarksProcessed(prev + step, rows, api, clock, n)
  {
    forall w | w in prev + step && w.tab == Info
      ensures exists i :: FirstEventRow <= i < n && w == MarkChecked(i)
                          && Due(rows[i], clock) && CellOf(rows[i], 0) in api.events
    {
      if w in prev {
        var i :| FirstEventRow <= i < n - 1 && w == MarkChecked(i)
                 && Due(rows[i], clock) && CellOf(rows[i], 0) in api.events;
      } else {
        assert FirstEventRow <= n - 1 < n;
      }
    }
  }

  /** The registry writes of one more row are the earlier ones and possibly the mark of
      that row. */
  lemma InfoWritesSplit(prev: seq<SheetWrite>, step: seq<SheetWrite>, mark: SheetWrite, processed: bool)
    requires forall w :: w in step && w.tab == Info ==> w == mark && processed
    ensures forall w :: w in prev + step && w.tab == Info ==> w in prev || (w == mark && processed)
  {
  }

  lemma ReconcileInfoStep(rows: Table, blocklist: Table, api: Api, clock: Clock, n: nat)
    requires FirstEventRow < n <= |rows|
    ensures forall w :: w in ReconcileUpTo(rows, blocklist, api, clock, n).effects && w.tab == Info ==>
              w in ReconcileUpTo(rows, blocklist, api, clock, n - 1).effects
              || (w == MarkChecked(n - 1) && Due(rows[n - 1], clock) && CellOf(rows[n - 1], 0) in api.events)
  {
    var prev := ReconcileUpTo(rows, blocklist, api, clock, n - 1);
    if prev.completed {
      var current := ApplyAll(blocklist, Blocklist, prev.effects);
      var step := EventStep(rows[n - 1], n - 1, current, api, clock);
      ReconcileAdvance(rows, blocklist, api, clock, n - 1, prev.effects, step);
      EventStepInfoWrites(rows[n - 1], n - 1, current, api, clock);
      InfoWritesSplit(prev.effects, step.effects, MarkChecked(n - 1),
                      Due(rows[n - 1], clock) && CellOf(rows[n - 1], 0) in api.events);
    } else {
      assert ReconcileUpTo(rows, blocklist, api, clock, n) == prev;
    }
  }

  /** Every registry write of the loop marks a processed row (0-based index 6 or more). */
  lemma {:induction false} ReconcileInfoWrites(rows: Table, blocklist: Table, api: Api, clock: Clock, n: nat)
    requires n <= |rows|
    ensures forall w :: w in ReconcileUpTo(rows, blocklist, api, clock, n).effects && w.tab == Info ==>
              (exists i :: FirstEventRow <= i < n && w == MarkChecked(i)
                           && Due(rows[i], clock) && CellOf(rows[i], 0) in api.events)
    decreases n
  {
    if n > FirstEventRow {
      ReconcileInfoWrites(rows, blocklist, api, clock, n - 1);
      ReconcileInfoStep(rows, blocklist, api, clock, n);
      var prev := ReconcileUpTo(rows, blocklist, api, clock, n - 1).effects;
      forall w | w in ReconcileUpTo(rows, blocklist, api, clock, n).effects && w.tab == Info
        ensures exists i :: FirstEventRow <= i < n && w == MarkChecked(i)
                            && Due(rows[i], clock) && CellOf(rows[i], 0) in api.events
      {
        if w in prev {
          var i :| FirstEventRow <= i < n - 1 && w == MarkChecked(i)
                   && Due(rows[i], clock) && CellOf(rows[i], 0) in api.events;
        } else {
          assert FirstEventRow <= n - 1 < n;
        }
      }
    }
  }

  lemma EventStepMarks(row: Row, i: nat, current: Table, api: Api, clock: Clock)
    requires EventStep(row, i, current, api, clock).completed
    requires Due(row, clock) && CellOf(row, 0) in api.events
    ensures MarkChecked(i) in EventStep(row, i, current, api, clock).effects
  {
  }

  /** A run that completed marked every processed row whose event could be fetched. */
  lemma {:induction false} ReconcileMarks(rows: Table, blocklist: Table, api: Api, clock: Clock, n: nat, i: nat)
    requires n <= |rows| && FirstEventRow <= i < n
    requires ReconcileUpTo(rows, blocklist, api, clock, n).completed
    requires Due(rows[i], clock) && CellOf(rows[i], 0) in api.events
    ensures MarkChecked(i) in ReconcileUpTo(rows, blocklist, api, clock, n).effects
    decreases n
  {
    var prev := ReconcileUpTo(rows, blocklist, api, clock, n - 1);
    assert prev.completed;
    var step := EventStep(rows[n - 1], n - 1, ApplyAll(blocklist, Blocklist, prev.effects), api, clock);
    assert ReconcileUpTo(rows, blocklist, api, clock, n) == Run(prev.effects + step.effects, step.completed);
    if i < n - 1 {
      ReconcileMarks(rows, blocklist, api, clock, n - 1, i);
    } else {
      assert i == n - 1;
      EventStepMarks(rows[i], i, ApplyAll(blocklist, Blocklist, prev.effects), api, clock);
    }
  }

  /** Registry rows that are read are judged on their own cells; rows below the read have no
      slug and are never processed. */
  lemma DueRead(info: Table, clock: Clock, i: nat)
    ensures var rows := Read(info, 0, RegistryWidth);
            i < |rows| ==> (Due(rows[i], clock) <==> Due(RowOf(info, i), clock))
                           && CellOf(rows[i], 0) == CellOf(RowOf(info, i), 0)
    ensures i >= |Read(info, 0, RegistryWidth)| ==> !Due(RowOf(info, i), clock)
  {
    if i < |Read(info, 0, RegistryWidth)| {
      DueReadWithin(info, clock, i);
    } else {
      DueReadBelow(info, clock, i);
    }
  }

  lemma DueReadWithin(info: Table, clock: Clock, i: nat)
    requires i < |Read(info, 0, RegistryWidth)|
    ensures var row := Read(info, 0, RegistryWidth)[i];
            && (Due(row, clock) <==> Due(RowOf(info, i), clock))
            && CellOf(row, 0) == CellOf(RowOf(info, i), 0)
  {
    var row := Read(info, 0, RegistryWidth)[i];
    ReadCell(info, 0, RegistryWidth, i, 0);
    ReadCell(info, 0, RegistryWidth, i, 3);
    ReadCell(info, 0, RegistryWidth, i, 4);
    DueSameCells(row, RowOf(info, i), clock);
  }

  lemma DueReadBelow(info: Table, clock: Clock, i: nat)
    requires i >= |Read(info, 0, RegistryWidth)|
    ensures !Due(RowOf(info, i), clock)
  {
    if Cell(info, i, 0) != "" {
      ReadCovers(info, 0, RegistryWidth, i, 0);
    }
  }

  /** Whether a row is due depends on its columns A, D and E only. */
  lemma DueSameCells(a: Row, b: Row, clock: Clock)
    requires CellOf(a, 0) == CellOf(b, 0) && CellOf(a, 3) == CellOf(b, 3) && CellOf(a, 4) == CellOf(b, 4)
    ensures Due(a, clock) <==> Due(b, clock)
  {
  }

  /** The loop over the rows read marks row i exactly when it is an event row that is due and
      whose event could be fetched, once the run completed. */
  lemma MarkedIffRows(rows: Table, blocklist: Table, api: Api, clock: Clock, i: nat)
    requires ReconcileUpTo(rows, blocklist, api, clock, |rows|).completed
    ensures MarkChecked(i) in ReconcileUpTo(rows, blocklist, api, clock, |rows|).effects
            <==> FirstEventRow <= i < |rows| && Due(rows[i], clock) && CellOf(rows[i], 0) in api.events
  {
    ReconcileInfoWrites(rows, blocklist, api, clock, |rows|);
    if FirstEventRow <= i < |rows| && Due(rows[i], clock) && CellOf(rows[i], 0) in api.events {
      ReconcileMarks(rows, blocklist, api, clock, |rows|, i);
    }
  }

  /** After a run that completed, cell `E<i+1>` was set to "yes" exactly when registry row i
      is an event row with a slug, is unchecked, ended no later than now, and its event could
      be fetched. */
  lemma MarkedIff(info: Table, blocklist: Table, api: Api, clock: Clock, i: nat)
    requires Reconcile(info, blocklist, api, clock).completed
    ensures MarkChecked(i) in Reconcile(info, blocklist, api, clock).effects
            <==> FirstEventRow <= i && Due(RowOf(info, i), clock) && CellOf(RowOf(info, i), 0) in api.events
  {
    var rows := Read(info, 0, RegistryWidth);
    DueRead(info, clock, i);
    if |rows| >= 2 {
      MarkedIffRows(rows, blocklist, api, clock, i);
    }
  }
}
