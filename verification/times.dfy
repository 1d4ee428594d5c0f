/** The two readers of per-playstyle completion times and the rule that
    chooses between them. A time record maps each of the fourteen slots
    (an average and a poll count per playstyle) to an optional value:
    averages in hundredths of an hour, poll counts as whole numbers. */
module Times {
  import opened Wrappers
  import opened Text
  import opened Labels
  import Duration

  /** `main_story` and friends are `Avg` slots; `main_story_polled` and
      friends are `Polled` slots. */
  datatype Slot = Avg(key: TimeKey) | Polled(key: TimeKey)

  type TimeRecord = map<Slot, Option<int>>

  const AvgSlots: set<Slot> := set k | k in TimeKeys :: Avg(k)
  const PolledSlots: set<Slot> := set k | k in TimeKeys :: Polled(k)

  /** `TIME_KEYS + POLLED_KEYS`. */
  const AllSlots: set<Slot> := AvgSlots + PolledSlots

  lemma SlotKnown(s: Slot)
    ensures s in AllSlots
    ensures s in AvgSlots <==> s.Avg?
    ensures s in PolledSlots <==> s.Polled?
  {
    TimeKeysComplete(s.key);
  }

  /** Every slot of `slots` present with no value. */
  function Blank(slots: set<Slot>): (r: TimeRecord)
    ensures r.Keys == slots
    ensures forall s :: s in r ==> r[s] == None
  {
    map s | s in slots :: None
  }

  /** `ensure_time_keys`: add every missing slot with no value. */
  function EnsureTimeKeys(t: TimeRecord): (r: TimeRecord)
    ensures r.Keys == AllSlots
    ensures forall s :: s in t ==> s in r && r[s] == t[s]
    ensures forall s :: s in r && s !in t ==> r[s] == None
  {
    forall s: Slot ensures s in AllSlots { SlotKnown(s); }
    map s | s in AllSlots :: if s in t then t[s] else None
  }

  /** Completing the slots twice is completing them once. */
  lemma EnsureTimeKeysIdempotent(t: TimeRecord)
    ensures EnsureTimeKeys(EnsureTimeKeys(t)) == EnsureTimeKeys(t)
  {
  }

  /** Store `v` in slot `s` when there is a value; a missing value leaves
      the record alone (the source's `if … is not None:` guards). */
  function Put(t: TimeRecord, s: Slot, v: Option<int>): TimeRecord
  {
    if v.Some? then t[s := v] else t
  }

  // ---------------------------------------------------------------- table layout

  /** A table of the statistics section: the text of the first header
      cell (absent without a header or header cell), and the cell texts
      of the data rows (absent without a body). */
  datatype Table = Table(head: Option<string>, body: Option<seq<seq<string>>>)

  /** The section a table belongs to, trimmed and lower-cased. */
  function Section(t: Table): (r: Option<string>)
    ensures r.Some? <==> t.head.Some?
  {
    if t.head.Some? then Some(Lower(Strip(t.head.value))) else None
  }

  const SinglePlayerSection: string := "single-player"

  /** The average of a data row: empty text and a lone "--" or "-" give
      no value, anything else goes through the duration grammar. */
  function AvgValue(text: string): Option<int>
  {
    if text == [] || Lower(Strip(text)) in {"--", "-"} then None
    else Duration.ParseHours(text)
  }

  /** The guard in front of the duration grammar changes nothing: the
      grammar already reads empty text, "--" and "-" as no value. */
  lemma AvgValueIsParseHours(text: string)
    ensures AvgValue(text) == Duration.ParseHours(text)
  {
    var t := Strip(text);
    if text != [] && Lower(t) in {"--", "-"} {
      assert |Lower(t)| == |t|;
      forall i | 0 <= i < |t|
        ensures t[i] == '-'
      {
        assert LowerChar(t[i]) == '-';
      }
      assert t == "-" || t == "--";
      Duration.ParseHoursMissing(text);
    }
  }

  /** What a data row says: its key, its average and its poll count. */
  datatype RowData = RowData(key: TimeKey, avg: Option<int>, polled: Option<int>)

  /** A data row is read when it has the three cells a data row needs and
      its label is in the vocabulary; the second cell is the poll count
      and the third the average. */
  function ParseRow(row: seq<string>): (r: Option<RowData>)
    ensures r.None? <==> |row| < 3 || NormTimeLabel(row[0]).None?
    ensures r.Some? ==> r.value.key == NormTimeLabel(row[0]).value
    ensures r.Some? ==> r.value.avg == AvgValue(row[2]) && r.value.polled == ToInt(row[1])
  {
    if |row| < 3 then None
    else match NormTimeLabel(row[0])
      case None => None
      case Some(k) => Some(RowData(k, AvgValue(row[2]), ToInt(row[1])))
  }

  /** The slots a row of key `k` may touch in section `section`. */
  function RowSlots(section: Option<string>, k: TimeKey): set<Slot>
  {
    {Avg(k), Polled(k)}
      + (if section == Some(SinglePlayerSection) && k == MainStory then {Avg(SinglePlayer), Polled(SinglePlayer)} else {})
  }

  /** Store one read row: in the single-player section a `main story` row
      is first stored under `single_player` as well, then under its own
      key; a missing average or count is not stored. */
  function Apply(t: TimeRecord, section: Option<string>, d: RowData): (r: TimeRecord)
    ensures t.Keys <= r.Keys <= t.Keys + RowSlots(section, d.key)
    ensures forall s :: s in t && s !in RowSlots(section, d.key) ==> r[s] == t[s]
    ensures forall s :: s in t && t[s].Some? ==> r[s].Some?
    ensures forall s :: s in t && r[s] != t[s] ==> r[s].Some?
  {
    var k := d.key;
    var mirrored :=
      if section == Some(SinglePlayerSection) && k == MainStory then
        Put(Put(t, Avg(SinglePlayer), d.avg), Polled(SinglePlayer), d.polled)
      else t;
    Put(Put(mirrored, Avg(k), d.avg), Polled(k), d.polled)
  }

  /** What a read row writes into slot `s`: the value it stores there, or
      `None` when it leaves the slot alone. */
  function RowWrite(section: Option<string>, d: RowData, s: Slot): Option<int>
  {
    var mirror := section == Some(SinglePlayerSection) && d.key == MainStory;
    if s == Avg(d.key) || (mirror && s == Avg(SinglePlayer)) then d.avg
    else if s == Polled(d.key) || (mirror && s == Polled(SinglePlayer)) then d.polled
    else None
  }

  /** Slot by slot, a row stores what it writes and keeps everything
      else. */
  lemma ApplySlot(t: TimeRecord, section: Option<string>, d: RowData, s: Slot)
    requires s in t
    ensures Apply(t, section, d)[s] == if RowWrite(section, d, s).Some? then RowWrite(section, d, s) else t[s]
  {
  }

  /** A `main story` row of the single-player table stores the same
      average and poll count under `single_player`; a row that has an
      average or a count stores it under its own key. */
  lemma ApplyWrites(t: TimeRecord, section: Option<string>, d: RowData)
    requires AllSlots <= t.Keys
    ensures var r := Apply(t, section, d);
      && (d.avg.Some? ==> r[Avg(d.key)] == d.avg)
      && (d.polled.Some? ==> r[Polled(d.key)] == d.polled)
      && (section == Some(SinglePlayerSection) && d.key == MainStory ==>
            && r[Avg(SinglePlayer)] == (if d.avg.Some? then r[Avg(MainStory)] else t[Avg(SinglePlayer)])
            && r[Polled(SinglePlayer)] == (if d.polled.Some? then r[Polled(MainStory)] else t[Polled(SinglePlayer)]))
  {
    SlotKnown(Avg(d.key));
    SlotKnown(Polled(d.key));
    SlotKnown(Avg(SinglePlayer));
    SlotKnown(Polled(SinglePlayer));
    ApplySlot(t, section, d, Avg(d.key));
    ApplySlot(t, section, d, Polled(d.key));
    ApplySlot(t, section, d, Avg(SinglePlayer));
    ApplySlot(t, section, d, Polled(SinglePlayer));
  }

  /** A data row of some table, read, with the section of its table. */
  datatype Entry = Entry(section: Option<string>, data: Option<RowData>)

  /** The data rows of the tables in page order, tables without a body
      contributing none (the two nested loops of the source, flattened). */
  function Entries(tables: seq<Table>): seq<Entry>
    decreases |tables|
  {
    if tables == [] then []
    else
      var t := tables[0];
      var here := if t.body.None? then [] else TableEntries(Section(t), t.body.value);
      here + Entries(tables[1..])
  }

  function TableEntries(section: Option<string>, rows: seq<seq<string>>): (r: seq<Entry>)
    ensures |r| == |rows|
    ensures forall i :: 0 <= i < |rows| ==> r[i] == Entry(section, ParseRow(rows[i]))
    decreases |rows|
  {
    if rows == [] then []
    else [Entry(section, ParseRow(rows[0]))] + TableEntries(section, rows[1..])
  }

  /** One row: an unread row (too short, or with an unknown label)
      changes nothing. */
  function Step(t: TimeRecord, e: Entry): (r: TimeRecord)
    ensures e.data.None? ==> r == t
    ensures t.Keys <= r.Keys
    ensures forall s :: s in t && t[s].Some? ==> r[s].Some?
    ensures forall s :: s in t && r[s] != t[s] ==> r[s].Some?
  {
    if e.data.None? then t else Apply(t, e.section, e.data.value)
  }

  function ReadEntries(t: TimeRecord, es: seq<Entry>): (r: TimeRecord)
    ensures t.Keys <= r.Keys
    ensures forall s :: s in t && t[s].Some? ==> r[s].Some?
    decreases |es|
  {
    if es == [] then t
    else ReadEntries(Step(t, es[0]), es[1..])
  }

  /** `parse_times_from_tables`: all fourteen slots start empty, then every
      data row of every table is read in page order. */
  function ReadTables(tables: seq<Table>): (r: TimeRecord)
    ensures r.Keys == AllSlots
  {
    var r := ReadEntries(Blank(AllSlots), Entries(tables));
    assert r.Keys <= AllSlots by {
      forall s | s in r ensures s in AllSlots { SlotKnown(s); }
    }
    r
  }

  /** The last value any of the rows writes into slot `s`, if one does. */
  function LastWrite(es: seq<Entry>, s: Slot): Option<int>
    decreases |es|
  {
    if es == [] then None
    else
      var e := es[|es| - 1];
      var w := if e.data.None? then None else RowWrite(e.section, e.data.value, s);
      if w.Some? then w else LastWrite(es[..|es| - 1], s)
  }

  lemma {:induction false} ReadEntriesAppend(t: TimeRecord, a: seq<Entry>, b: seq<Entry>)
    ensures ReadEntries(t, a + b) == ReadEntries(ReadEntries(t, a), b)
    decreases |a|
  {
    if a == [] {
      assert a + b == b;
    } else {
      assert (a + b)[0] == a[0];
      assert (a + b)[1..] == a[1..] + b;
      ReadEntriesAppend(Step(t, a[0]), a[1..], b);
    }
  }

  /** Each slot ends up holding the last value any row wrote into it, or
      its starting value when no row wrote one: the last writer wins, and
      a row without a value never erases an earlier one. */
  lemma {:induction false} ReadEntriesLastWrite(t: TimeRecord, es: seq<Entry>, s: Slot)
    requires s in t
    ensures s in ReadEntries(t, es)
    ensures ReadEntries(t, es)[s] == if LastWrite(es, s).Some? then LastWrite(es, s) else t[s]
    decreases |es|
  {
    if es != [] {
      var init := es[..|es| - 1];
      var e := es[|es| - 1];
      assert es == init + [e];
      ReadEntriesAppend(t, init, [e]);
      ReadEntriesLastWrite(t, init, s);
      var mid := ReadEntries(t, init);
      assert ReadEntries(mid, [e]) == Step(mid, e) by {
        assert [e][1..] == [];
      }
      if e.data.Some? {
        ApplySlot(mid, e.section, e.data.value, s);
      }
    }
  }

  /** The table reader's value for a slot is the last value written to
      it by any data row of any table, in page order; no table row
      writing it leaves it empty. */
  lemma ReadTablesLastWrite(tables: seq<Table>, s: Slot)
    ensures s in ReadTables(tables)
    ensures ReadTables(tables)[s] == LastWrite(Entries(tables), s)
  {
    SlotKnown(s);
    ReadEntriesLastWrite(Blank(AllSlots), Entries(tables), s);
  }

  // ---------------------------------------------------------------- list layout

  /** A list item of the older layout: the label heading and the value
      heading, either of which may be missing. */
  datatype ListItem = ListItem(heading: Option<string>, value: Option<string>)

  /** The three keys the list reader keeps aside and applies last. */
  predicate IsExtra(k: TimeKey) {
    k == SinglePlayer || k == CoOp || k == Versus
  }

  /** What a list item says: its key and its value, which the duration
      grammar may fail to read. */
  datatype ItemData = ItemData(key: TimeKey, val: Option<int>)

  /** An item is read when both headings are there and the label is in
      the vocabulary. */
  function ParseItem(item: ListItem): (r: Option<ItemData>)
    ensures r.None? <==> item.heading.None? || item.value.None? || NormTimeLabel(item.heading.value).None?
    ensures r.Some? ==> r.value.key == NormTimeLabel(item.heading.value).value
    ensures r.Some? ==> r.value.val == Duration.ParseHours(item.value.value)
  {
    if item.heading.None? || item.value.None? then None
    else match NormTimeLabel(item.heading.value)
      case None => None
      case Some(k) => Some(ItemData(k, Duration.ParseHours(item.value.value)))
  }

  function ParseItems(items: seq<ListItem>): (r: seq<Option<ItemData>>)
    ensures |r| == |items|
    ensures forall i :: 0 <= i < |items| ==> r[i] == ParseItem(items[i])
    decreases |items|
  {
    if items == [] then [] else [ParseItem(items[0])] + ParseItems(items[1..])
  }

  /** The list reader's two dictionaries: the seven averages and the
      extras kept aside. */
  datatype ListState = ListState(result: TimeRecord, extra: map<TimeKey, Option<int>>)

  /** One item: an extra goes aside, any other key into the result,
      whether or not its value was read. */
  function ItemStep(st: ListState, d: Option<ItemData>): (r: ListState)
    ensures st.result.Keys <= r.result.Keys <= st.result.Keys + AvgSlots
  {
    match d
    case None => st
    case Some(ItemData(k, v)) =>
      SlotKnown(Avg(k));
      if IsExtra(k) then st.(extra := st.extra[k := v])
      else st.(result := st.result[Avg(k) := v])
  }

  function ReadItems(st: ListState, ds: seq<Option<ItemData>>): (r: ListState)
    ensures st.result.Keys <= r.result.Keys <= st.result.Keys + AvgSlots
    decreases |ds|
  {
    if ds == [] then st
    else ReadItems(ItemStep(st, ds[0]), ds[1..])
  }

  const ListStart: ListState := ListState(Blank(AvgSlots), map[])

  /** `main_story` borrows the single-player value when it has none and
      the single-player value is present. */
  function Backfill(res: TimeRecord, extra: map<TimeKey, Option<int>>): (r: TimeRecord)
    requires Avg(MainStory) in res
    ensures r.Keys == res.Keys
    ensures forall s :: s in res && s != Avg(MainStory) ==> r[s] == res[s]
    ensures r[Avg(MainStory)] ==
      if res[Avg(MainStory)].None? && SinglePlayer in extra then extra[SinglePlayer] else res[Avg(MainStory)]
  {
    if res[Avg(MainStory)].None? && SinglePlayer in extra && extra[SinglePlayer].Some? then
      res[Avg(MainStory) := extra[SinglePlayer]]
    else res
  }

  /** `result.update(extra)`: every extra key overwrites its average. */
  function Overlay(res: TimeRecord, extra: map<TimeKey, Option<int>>): (r: TimeRecord)
    requires forall k :: k in extra ==> Avg(k) in res
    ensures r.Keys == res.Keys
    ensures forall s :: s in res ==> r[s] == if s.Avg? && s.key in extra then extra[s.key] else res[s]
  {
    map s | s in res.Keys :: if s.Avg? && s.key in extra then extra[s.key] else res[s]
  }

  /** The end of the list reader: the backfill, the extras written over
      the result (an extra without a value included) and the missing slots
      added. */
  function FinishList(st: ListState): (r: TimeRecord)
    requires st.result.Keys == AvgSlots
    ensures r.Keys == AllSlots
    ensures forall k :: Polled(k) in r && r[Polled(k)] == None
  {
    SlotKnown(Avg(MainStory));
    var backfilled := Backfill(st.result, st.extra);
    assert forall k :: k in st.extra ==> Avg(k) in backfilled by {
      forall k ensures Avg(k) in AvgSlots { SlotKnown(Avg(k)); }
    }
    var merged := Overlay(backfilled, st.extra);
    var r := EnsureTimeKeys(merged);
    assert forall k :: Polled(k) in r && r[Polled(k)] == None by {
      forall k ensures Polled(k) in r && r[Polled(k)] == None {
        SlotKnown(Polled(k));
      }
    }
    r
  }

  /** `parse_times_from_page`: without the statistics list the seven
      averages come back empty and no poll count is present at all;
      otherwise the items are read in order and the result finished. */
  function ReadList(stats: Option<seq<ListItem>>): (r: TimeRecord)
    ensures stats.None? ==> r == Blank(AvgSlots)
    ensures stats.Some? ==> r.Keys == AllSlots
    ensures stats.Some? ==> forall k :: Polled(k) in r && r[Polled(k)] == None
  {
    if stats.None? then Blank(AvgSlots)
    else ListFrom(ParseItems(stats.value))
  }

  /** The list reader over already-read items. */
  function ListFrom(ds: seq<Option<ItemData>>): (r: TimeRecord)
    ensures r.Keys == AllSlots
    ensures forall k :: Polled(k) in r && r[Polled(k)] == None
  {
    FinishList(ReadItems(ListStart, ds))
  }

  /** The value of the last read item naming key `k`, if any item does
      (that value itself may be absent). */
  function LastItem(ds: seq<Option<ItemData>>, k: TimeKey): Option<Option<int>>
    decreases |ds|
  {
    if ds == [] then None
    else
      var d := ds[|ds| - 1];
      if d.Some? && d.value.key == k then Some(d.value.val) else LastItem(ds[..|ds| - 1], k)
  }

  lemma {:induction false} ReadItemsAppend(st: ListState, a: seq<Option<ItemData>>, b: seq<Option<ItemData>>)
    ensures ReadItems(st, a + b) == ReadItems(ReadItems(st, a), b)
    decreases |a|
  {
    if a == [] {
      assert a + b == b;
    } else {
      assert (a + b)[0] == a[0];
      assert (a + b)[1..] == a[1..] + b;
      ReadItemsAppend(ItemStep(st, a[0]), a[1..], b);
    }
  }

  /** Each extra key's final value is kept aside and is the value of the
      last item naming it: later items overwrite earlier ones, with or
      without a value. */
  lemma {:induction false} ReadItemsLastExtra(ds: seq<Option<ItemData>>, k: TimeKey)
    requires IsExtra(k)
    ensures var st := ReadItems(ListStart, ds);
      && (k in st.extra <==> LastItem(ds, k).Some?)
      && (k in st.extra ==> st.extra[k] == LastItem(ds, k).value)
    decreases |ds|
  {
    SlotKnown(Avg(k));
    if ds != [] {
      var init := ds[..|ds| - 1];
      var last := ds[|ds| - 1];
      assert ds == init + [last];
      ReadItemsAppend(ListStart, init, [last]);
      ReadItemsLastExtra(init, k);
      var mid := ReadItems(ListStart, init);
      assert ReadItems(mid, [last]) == ItemStep(mid, last) by {
        assert [last][1..] == [];
      }
      ItemStepExtra(mid, last, k);
    }
  }

  /** One item touches the extra `k` exactly when it names `k`. */
  lemma ItemStepExtra(st: ListState, d: Option<ItemData>, k: TimeKey)
    requires IsExtra(k)
    ensures var r := ItemStep(st, d);
      if d.Some? && d.value.key == k then k in r.extra && r.extra[k] == d.value.val
      else (k in r.extra <==> k in st.extra) && (k in st.extra ==> r.extra[k] == st.extra[k])
  {
  }

  /** The average of an extra key stays empty in the result proper. */
  lemma {:induction false} ReadItemsExtraResult(ds: seq<Option<ItemData>>, k: TimeKey)
    requires IsExtra(k)
    ensures var st := ReadItems(ListStart, ds);
      Avg(k) in st.result && st.result[Avg(k)] == None
    decreases |ds|
  {
    SlotKnown(Avg(k));
    if ds != [] {
      var init := ds[..|ds| - 1];
      var last := ds[|ds| - 1];
      assert ds == init + [last];
      ReadItemsAppend(ListStart, init, [last]);
      ReadItemsExtraResult(init, k);
      var mid := ReadItems(ListStart, init);
      assert ReadItems(mid, [last]) == ItemStep(mid, last) by {
        assert [last][1..] == [];
      }
    }
  }

  /** Each other key's final average is the value of the last item naming
      it, and such a key is never kept aside. */
  lemma {:induction false} ReadItemsLastCore(ds: seq<Option<ItemData>>, k: TimeKey)
    requires !IsExtra(k)
    ensures var st := ReadItems(ListStart, ds);
      && k !in st.extra
      && Avg(k) in st.result && st.result[Avg(k)] == LastItem(ds, k).GetOr(None)
    decreases |ds|
  {
    SlotKnown(Avg(k));
    if ds != [] {
      var init := ds[..|ds| - 1];
      var last := ds[|ds| - 1];
      assert ds == init + [last];
      ReadItemsAppend(ListStart, init, [last]);
      ReadItemsLastCore(init, k);
      var mid := ReadItems(ListStart, init);
      assert ReadItems(mid, [last]) == ItemStep(mid, last) by {
        assert [last][1..] == [];
      }
      ItemStepCore(mid, last, k);
    }
  }

  /** One item sets the average of a key other than an extra exactly when
      it names that key, and never puts it aside. */
  lemma ItemStepCore(st: ListState, d: Option<ItemData>, k: TimeKey)
    requires !IsExtra(k) && Avg(k) in st.result && k !in st.extra
    ensures var r := ItemStep(st, d);
      && k !in r.extra && Avg(k) in r.result
      && r.result[Avg(k)] == if d.Some? && d.value.key == k then d.value.val else st.result[Avg(k)]
  {
  }

  /** The list reader's average for a key is the value of the last item
      naming it, extras included even when their value is absent, except
      that an empty `main_story` takes the single-player value. */
  lemma ReadListValues(items: seq<ListItem>, k: TimeKey)
    ensures var ds := ParseItems(items);
      ReadList(Some(items))[Avg(k)] ==
        if k == MainStory && LastItem(ds, MainStory).GetOr(None).None? then LastItem(ds, SinglePlayer).GetOr(None)
        else LastItem(ds, k).GetOr(None)
  {
    ListFromValues(ParseItems(items), k);
  }

  lemma ListFromValues(ds: seq<Option<ItemData>>, k: TimeKey)
    ensures Avg(k) in ListFrom(ds)
    ensures ListFrom(ds)[Avg(k)] ==
      if k == MainStory && LastItem(ds, MainStory).GetOr(None).None? then LastItem(ds, SinglePlayer).GetOr(None)
      else LastItem(ds, k).GetOr(None)
  {
    var st := ReadItems(ListStart, ds);
    if IsExtra(k) {
      ReadItemsLastExtra(ds, k);
      ReadItemsExtraResult(ds, k);
    } else {
      ReadItemsLastCore(ds, k);
    }
    FinishListAvg(st, k);
    if k == MainStory {
      ReadItemsLastExtra(ds, SinglePlayer);
      assert LastItem(ds, SinglePlayer).GetOr(None) == if SinglePlayer in st.extra then st.extra[SinglePlayer] else None;
    }
  }

  lemma AvgsKnown()
    ensures forall k :: Avg(k) in AvgSlots
  {
    forall k ensures Avg(k) in AvgSlots { SlotKnown(Avg(k)); }
  }

  /** The average `FinishList` leaves for key `k`. */
  lemma FinishListAvg(st: ListState, k: TimeKey)
    requires st.result.Keys == AvgSlots
    ensures Avg(k) in st.result && Avg(MainStory) in st.result
    ensures FinishList(st)[Avg(k)] ==
      if k in st.extra then st.extra[k]
      else if k == MainStory && st.result[Avg(MainStory)].None? && SinglePlayer in st.extra then st.extra[SinglePlayer]
      else st.result[Avg(k)]
  {
    SlotKnown(Avg(k));
    SlotKnown(Avg(MainStory));
    FinishListUnfold(st);
    var b := Backfill(st.result, st.extra);
    var o := Overlay(b, st.extra);
    assert o[Avg(k)] == if k in st.extra then st.extra[k] else b[Avg(k)];
    assert FinishList(st)[Avg(k)] == o[Avg(k)];
  }

  /** `FinishList` as the composition of its three stages. */
  lemma FinishListUnfold(st: ListState)
    requires st.result.Keys == AvgSlots
    ensures Avg(MainStory) in st.result
    ensures var b := Backfill(st.result, st.extra);
      && (forall j :: j in st.extra ==> Avg(j) in b)
      && FinishList(st) == EnsureTimeKeys(Overlay(b, st.extra))
  {
    SlotKnown(Avg(MainStory));
    AvgsKnown();
  }

  // ---------------------------------------------------------------- selection

  /** Whether the table reader found no average at all. */
  predicate NoAverages(t: TimeRecord) {
    forall k :: Avg(k) in t ==> t[Avg(k)].None?
  }

  /** The selection rule of the record assembler: the table layout unless
      it has no average, in which case the list layout replaces it
      wholesale; the missing slots are added either way. */
  function SelectTimes(tables: seq<Table>, stats: Option<seq<ListItem>>): (r: TimeRecord)
    ensures r.Keys == AllSlots
  {
    var t := ReadTables(tables);
    if NoAverages(t) then EnsureTimeKeys(ReadList(stats)) else t
  }

  /** The table result is kept exactly when it holds some average, and
      when it is dropped no poll count survives: the list layout carries
      none. */
  lemma SelectTimesRule(tables: seq<Table>, stats: Option<seq<ListItem>>)
    ensures var t := ReadTables(tables);
      && (!NoAverages(t) ==> SelectTimes(tables, stats) == t)
      && (NoAverages(t) ==> SelectTimes(tables, stats) == EnsureTimeKeys(ReadList(stats)))
      && (NoAverages(t) ==> forall k :: Polled(k) in SelectTimes(tables, stats) && SelectTimes(tables, stats)[Polled(k)] == None)
  {
    ListNoPolledAll(stats);
  }

  lemma ListNoPolledAll(stats: Option<seq<ListItem>>)
    ensures var r := EnsureTimeKeys(ReadList(stats)); forall k :: Polled(k) in r && r[Polled(k)] == None
  {
    forall k: TimeKey
      ensures var r := EnsureTimeKeys(ReadList(stats)); Polled(k) in r && r[Polled(k)] == None
    {
      ListNoPolled(stats, k);
    }
  }

  /** The list layout, completed, carries no poll count. */
  lemma ListNoPolled(stats: Option<seq<ListItem>>, k: TimeKey)
    ensures var r := EnsureTimeKeys(ReadList(stats)); Polled(k) in r && r[Polled(k)] == None
  {
    SlotKnown(Polled(k));
    if stats.None? {
      assert Polled(k) !in ReadList(stats);
    }
  }
}
