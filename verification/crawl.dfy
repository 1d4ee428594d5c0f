/** The crawl's sequential bookkeeping: the producer's walk over game ids,
    the consumer's fold over the queue items, and the start/end arithmetic
    that resumes a crawl from an earlier dataset. Fetching, scheduling and
    the output file are parameters of the model. */
module Crawl {
  import opened Wrappers
  import opened Text
  import opened Labels
  import Game

  // ---------------------------------------------------------------- producer

  /** The decimal spelling Python gives an integer. */
  function IntToString(i: int): string
  {
    if i < 0 then "-" + NatToString(-i) else NatToString(i)
  }

  /** The address the producer fetches for a game id. */
  function ProducerUrl(i: int): (r: string)
    ensures i >= 0 ==> r == GameUrl(i)
  {
    "https://howlongtobeat.com/game/" + IntToString(i)
  }

  /** A queue item: the outcome for one id, or the end-of-stream marker
      the entry point puts after the producer finishes. */
  datatype Item =
    | Outcome(id: int, data: Option<Game.Record>, err: Option<string>)
    | Sentinel

  /** The report of a failed parse: the error message and a line break
      (the traceback text is left out). */
  function ErrorReport(message: string): (r: string)
    ensures |r| == |message| + 1 && r[..|message|] == message && r[|message|] == '\n'
  {
    message + "\n"
  }

  /** The item for one id, given what the fetch returned (`None` for a
      missing page or exhausted retries). */
  function ProduceOne(id: int, fetched: Option<Game.Page>): (r: Item)
    ensures r.Outcome? && r.id == id
    ensures fetched.None? ==> r.data.None? && r.err.None?
    ensures r.err.Some? ==> r.data.None? && r.err.value != []
  {
    if fetched.None? then Outcome(id, None, None)
    else match Game.ParseGame(ProducerUrl(id), fetched.value)
      case Err(e) => Outcome(id, None, Some(ErrorReport(e)))
      case Ok(d) => Outcome(id, d, None)
  }

  /** How many ids the producer walks from `start` before the bound: all
      of them without a bound, the ids below it otherwise. */
  function Walk(start: int, end: Option<int>, n: nat): (k: nat)
    ensures k <= n
    ensures end.None? ==> k == n
    ensures end.Some? ==> start + k <= end.value || k == 0
    ensures end.Some? && end.value <= start ==> k == 0
    ensures end.Some? && start < end.value ==> k == n || start + k == end.value
  {
    if end.None? then n
    else if end.value - start <= 0 then 0
    else if end.value - start < n then end.value - start
    else n
  }

  /** The producer's output before the stop flag was seen: `fetched[k]` is
      what the fetch of id `start + k` returned, and the length of
      `fetched` is how many ids were attempted before the stop flag was
      observed. */
  function Produce(start: int, end: Option<int>, fetched: seq<Option<Game.Page>>): (r: seq<Item>)
    ensures |r| == Walk(start, end, |fetched|)
    ensures forall k :: 0 <= k < |r| ==> r[k] == ProduceOne(start + k, fetched[k])
  {
    var k := Walk(start, end, |fetched|);
    Outcomes(start, fetched[..k], ProduceOne)
  }

  /** The items for consecutive ids from `start`, one per fetch result,
      each made by `one`. */
  function Outcomes(start: int, fs: seq<Option<Game.Page>>, one: (int, Option<Game.Page>) -> Item): (r: seq<Item>)
    ensures |r| == |fs|
    ensures forall k :: 0 <= k < |r| ==> r[k] == one(start + k, fs[k])
  {
    seq(|fs|, j requires 0 <= j < |fs| => one(start + j, fs[j]))
  }

  /** The producer walks consecutive ids, each below the bound. */
  lemma ProduceIds(start: int, end: Option<int>, fetched: seq<Option<Game.Page>>, k: int)
    requires 0 <= k < |Produce(start, end, fetched)|
    ensures Produce(start, end, fetched)[k].Outcome?
    ensures Produce(start, end, fetched)[k].id == start + k
    ensures end.Some? ==> Produce(start, end, fetched)[k].id < end.value
  {
  }

  /** From a non-negative start every fetched page parses without error,
      and a record produced for an id carries that id. */
  lemma ProduceNoErrors(start: int, end: Option<int>, fetched: seq<Option<Game.Page>>, k: int)
    requires start >= 0 && 0 <= k < |Produce(start, end, fetched)|
    ensures Produce(start, end, fetched)[k].err.None?
    ensures var it := Produce(start, end, fetched)[k];
      it.data.Some? ==> it.data.value.id == NatToString(start + k)
  {
    if fetched[k].Some? {
      Game.ParseGameProducerUrl(start + k, fetched[k].value);
    }
  }

  // ---------------------------------------------------------------- consumer

  /** The consumer's state: the rows written so far, the ids known to be in
      the dataset, the current run of missing pages and the stop flag. */
  datatype State = State(written: seq<Game.Record>, existing: set<string>, streak: nat, stop: bool)

  /** A truthy error text. */
  predicate Failed(it: Item)
  {
    it.Outcome? && it.err.Some? && it.err.value != []
  }

  /** One consumer step: an error is only logged; a missing page extends
      the streak and raises the stop flag once the streak reaches the
      threshold; a record resets the streak and is written unless its id is
      already known. */
  function Step(st: State, it: Item, threshold: int): (r: State)
    requires it.Outcome?
    ensures Failed(it) ==> r == st
    ensures !Failed(it) && it.data.None? ==>
      r == st.(streak := st.streak + 1, stop := st.stop || st.streak + 1 >= threshold)
    ensures !Failed(it) && it.data.Some? ==> r.streak == 0 && r.stop == st.stop
    ensures !Failed(it) && it.data.Some? && it.data.value.id in st.existing ==> r == st.(streak := 0)
    ensures !Failed(it) && it.data.Some? && it.data.value.id !in st.existing ==>
      r.written == st.written + [it.data.value] && r.existing == st.existing + {it.data.value.id}
  {
    if Failed(it) then st
    else if it.data.None? then
      st.(streak := st.streak + 1, stop := st.stop || st.streak + 1 >= threshold)
    else if it.data.value.id in st.existing then st.(streak := 0)
    else State(st.written + [it.data.value], st.existing + {it.data.value.id}, 0, st.stop)
  }

  /** The consumer loop: steps through the items up to the first
      end-of-stream marker. It only appends rows and only adds known ids. */
  function Consume(st: State, items: seq<Item>, threshold: int): (r: State)
    ensures |st.written| <= |r.written| && r.written[..|st.written|] == st.written
    ensures st.existing <= r.existing
    decreases |items|
  {
    if items == [] || items[0].Sentinel? then st
    else
      var st' := Step(st, items[0], threshold);
      var r := Consume(st', items[1..], threshold);
      assert r.written[..|st.written|] == r.written[..|st'.written|][..|st.written|];
      r
  }

  /** Consuming two stretches of items, the first without a marker, is
      consuming them one after the other. */
  lemma {:induction false} ConsumeAppend(st: State, a: seq<Item>, b: seq<Item>, threshold: int)
    requires forall k :: 0 <= k < |a| ==> a[k].Outcome?
    ensures Consume(st, a + b, threshold) == Consume(Consume(st, a, threshold), b, threshold)
    decreases |a|
  {
    if a != [] {
      assert (a + b)[0] == a[0];
      assert (a + b)[1..] == a[1..] + b;
      ConsumeAppend(Step(st, a[0], threshold), a[1..], b, threshold);
    } else {
      assert a + b == b;
    }
  }

  /** Items after the marker are never consumed. */
  lemma {:induction false} ConsumeStopsAtSentinel(st: State, a: seq<Item>, b: seq<Item>, threshold: int)
    requires forall k :: 0 <= k < |a| ==> a[k].Outcome?
    ensures Consume(st, a + [Sentinel] + b, threshold) == Consume(st, a, threshold)
  {
    ConsumeAppend(st, a, [Sentinel] + b, threshold);
    assert a + [Sentinel] + b == a + ([Sentinel] + b);
  }

  /** The bookkeeping invariant: the written ids are pairwise distinct,
      and each is known. */
  predicate Sound(st: State)
  {
    && (forall i, j :: 0 <= i < j < |st.written| ==> st.written[i].id != st.written[j].id)
    && (forall i :: 0 <= i < |st.written| ==> st.written[i].id in st.existing)
  }

  function WrittenIds(w: seq<Game.Record>): (r: set<string>)
    ensures forall i :: 0 <= i < |w| ==> w[i].id in r
    ensures forall x :: x in r ==> exists i :: 0 <= i < |w| && w[i].id == x
  {
    set i | 0 <= i < |w| :: w[i].id
  }

  lemma WrittenIdsAppend(a: seq<Game.Record>, b: seq<Game.Record>)
    ensures WrittenIds(a + b) == WrittenIds(a) + WrittenIds(b)
  {
    forall x | x in WrittenIds(a + b)
      ensures x in WrittenIds(a) + WrittenIds(b)
    {
      var i :| 0 <= i < |a + b| && (a + b)[i].id == x;
      if i >= |a| {
        assert b[i - |a|] == (a + b)[i];
      }
    }
    forall i | 0 <= i < |a|
      ensures a[i].id in WrittenIds(a + b)
    {
      assert (a + b)[i] == a[i];
    }
    forall i | 0 <= i < |b|
      ensures b[i].id in WrittenIds(a + b)
    {
      assert (a + b)[|a| + i] == b[i];
    }
  }

  /** One step keeps the invariant and only appends to the rows, adding
      the ids it appends to the known ones. */
  lemma StepSound(st: State, it: Item, threshold: int)
    requires Sound(st) && it.Outcome?
    ensures var r := Step(st, it, threshold);
      && Sound(r)
      && |st.written| <= |r.written| && r.written == st.written + r.written[|st.written|..]
      && r.existing == st.existing + WrittenIds(r.written[|st.written|..])
  {
    var r := Step(st, it, threshold);
    if Failed(it) || it.data.None? || it.data.value.id in st.existing {
      assert r.written == st.written;
      assert r.written[|st.written|..] == [];
      assert st.written + [] == st.written;
    } else {
      assert r.written == st.written + [it.data.value];
      assert r.written[|st.written|..] == [it.data.value];
      var one := [it.data.value];
      assert one[0] == it.data.value;
      forall x | x in WrittenIds(one)
        ensures x == it.data.value.id
      {
        var i :| 0 <= i < |one| && one[i].id == x;
      }
      assert WrittenIds(one) == {it.data.value.id};
    }
  }

  lemma AddedSplit(w: seq<Game.Record>, d: seq<Game.Record>, later: seq<Game.Record>)
    ensures (w + d) + later == w + (d + later)
    ensures (w + (d + later))[|w|..] == d + later
  {
  }

  /** No id is written twice, every written id becomes known, and the known
      ids grow only by the ids written; the rows already written stay. */
  lemma {:induction false} ConsumeSound(st: State, items: seq<Item>, threshold: int)
    requires Sound(st)
    ensures var r := Consume(st, items, threshold);
      && Sound(r)
      && |st.written| <= |r.written| && r.written == st.written + r.written[|st.written|..]
      && r.existing == st.existing + WrittenIds(r.written[|st.written|..])
    decreases |items|
  {
    if items == [] || items[0].Sentinel? {
      assert st.written[|st.written|..] == [];
      assert st.written + [] == st.written;
    } else {
      var st' := Step(st, items[0], threshold);
      StepSound(st, items[0], threshold);
      ConsumeSound(st', items[1..], threshold);
      var r := Consume(st', items[1..], threshold);
      assert Consume(st, items, threshold) == r;
      var d := st'.written[|st.written|..];
      var later := r.written[|st'.written|..];
      AddedSplit(st.written, d, later);
      WrittenIdsAppend(d, later);
    }
  }

  /** Starting afresh over a set of known ids, the rows written have
      distinct ids, none of them known beforehand. */
  lemma ConsumeFresh(existing: set<string>, items: seq<Item>, threshold: int)
    ensures var r := Consume(State([], existing, 0, false), items, threshold);
      && (forall i, j :: 0 <= i < j < |r.written| ==> r.written[i].id != r.written[j].id)
      && (forall i :: 0 <= i < |r.written| ==> r.written[i].id !in existing)
      && r.existing == existing + WrittenIds(r.written)
  {
    ConsumeSound(State([], existing, 0, false), items, threshold);
    ConsumeSkipsKnown(State([], existing, 0, false), items, threshold, existing);
    var r := Consume(State([], existing, 0, false), items, threshold);
    assert r.written[0..] == r.written;
  }

  /** An id known when consuming starts is never written: it stays known,
      and a record whose id is known is skipped. */
  lemma {:induction false} ConsumeSkipsKnown(st: State, items: seq<Item>, threshold: int, known: set<string>)
    requires known <= st.existing
    requires forall i :: 0 <= i < |st.written| ==> st.written[i].id !in known
    ensures forall i :: 0 <= i < |Consume(st, items, threshold).written| ==> Consume(st, items, threshold).written[i].id !in known
    decreases |items|
  {
    if items != [] && items[0].Outcome? {
      var st' := Step(st, items[0], threshold);
      assert forall i :: 0 <= i < |st'.written| ==> st'.written[i].id !in known by {
        if !Failed(items[0]) && items[0].data.Some? && items[0].data.value.id !in st.existing {
          assert forall i :: 0 <= i < |st.written| ==> st'.written[i] == st.written[i];
          assert st'.written[|st.written|] == items[0].data.value;
        }
      }
      ConsumeSkipsKnown(st', items[1..], threshold, known);
    }
  }

  /** A raised stop flag stays raised. */
  lemma {:induction false} ConsumeStopSticky(st: State, items: seq<Item>, threshold: int)
    requires st.stop
    ensures Consume(st, items, threshold).stop
    decreases |items|
  {
    if items != [] && items[0].Outcome? {
      ConsumeStopSticky(Step(st, items[0], threshold), items[1..], threshold);
    }
  }

  /** A streak of misses that has reached the threshold has raised the
      stop flag, whether the crawl is bounded or not. */
  predicate StreakGuarded(st: State, threshold: int)
  {
    st.streak > 0 && st.streak >= threshold ==> st.stop
  }

  lemma {:induction false} ConsumeStreakGuarded(st: State, items: seq<Item>, threshold: int)
    requires StreakGuarded(st, threshold)
    ensures StreakGuarded(Consume(st, items, threshold), threshold)
    decreases |items|
  {
    if items != [] && items[0].Outcome? {
      ConsumeStreakGuarded(Step(st, items[0], threshold), items[1..], threshold);
    }
  }

  /** The streak as a count: the misses since the last record, errors not
      counting, or the initial streak plus all misses if no record came. */
  function Misses(base: nat, items: seq<Item>): nat
    decreases |items|
  {
    if items == [] || items[0].Sentinel? then base
    else if Failed(items[0]) then Misses(base, items[1..])
    else if items[0].data.None? then Misses(base + 1, items[1..])
    else Misses(0, items[1..])
  }

  /** Counting the trailing misses from the end of the stream. */
  function TrailingMisses(base: nat, items: seq<Item>): nat
    requires forall k :: 0 <= k < |items| ==> items[k].Outcome?
    decreases |items|
  {
    if items == [] then base
    else
      var last := items[|items| - 1];
      if Failed(last) then TrailingMisses(base, items[..|items| - 1])
      else if last.data.None? then TrailingMisses(base, items[..|items| - 1]) + 1
      else 0
  }

  /** The consumer's streak is the number of misses since the last record. */
  lemma {:induction false} ConsumeStreak(st: State, items: seq<Item>, threshold: int)
    ensures Consume(st, items, threshold).streak == Misses(st.streak, items)
    decreases |items|
  {
    if items != [] && items[0].Outcome? {
      ConsumeStreak(Step(st, items[0], threshold), items[1..], threshold);
    }
  }

  lemma {:induction false} MissesSnoc(base: nat, items: seq<Item>, it: Item)
    requires forall k :: 0 <= k < |items| ==> items[k].Outcome?
    requires it.Outcome?
    ensures Misses(base, items + [it]) ==
      if Failed(it) then Misses(base, items)
      else if it.data.None? then Misses(base, items) + 1
      else 0
    decreases |items|
  {
    if items == [] {
      assert [it][1..] == [];
    } else {
      assert (items + [it])[0] == items[0];
      assert (items + [it])[1..] == items[1..] + [it];
      var b' := if Failed(items[0]) then base else if items[0].data.None? then base + 1 else 0;
      MissesSnoc(b', items[1..], it);
    }
  }

  /** Read from the end, the streak counts the misses after the last
      record. */
  lemma {:induction false} MissesTrailing(base: nat, items: seq<Item>)
    requires forall k :: 0 <= k < |items| ==> items[k].Outcome?
    ensures Misses(base, items) == TrailingMisses(base, items)
    decreases |items|
  {
    if items != [] {
      var init := items[..|items| - 1];
      var last := items[|items| - 1];
      assert items == init + [last];
      MissesSnoc(base, init, last);
      MissesTrailing(base, init);
    }
  }

  // ---------------------------------------------------------------- resume

  /** The ids already in the dataset: the non-empty id cells (`None` for a
      row without one). A missing dataset has none. */
  function ExistingIds(rows: Option<seq<Option<string>>>): (r: set<string>)
    ensures rows.None? ==> r == {}
    ensures rows.Some? ==> forall x :: x in r <==> x != [] && Some(x) in rows.value
  {
    if rows.None? then {}
    else set i | 0 <= i < |rows.value| && rows.value[i].Some? && rows.value[i].value != [] :: rows.value[i].value
  }

  /** Some id cell parses as `v`. */
  predicate HasId(ids: seq<Option<string>>, v: int) {
    exists i :: 0 <= i < |ids| && ids[i].Some? && ParseInt(ids[i].value) == Some(v)
  }

  /** Every id cell that parses is at most `b`. */
  predicate IdsAtMost(ids: seq<Option<string>>, b: int) {
    forall i :: 0 <= i < |ids| && ids[i].Some? && ParseInt(ids[i].value).Some? ==> ParseInt(ids[i].value).value <= b
  }

  /** The largest parsable id cell, never below zero. */
  function MaxId(ids: seq<Option<string>>): (m: nat)
    ensures IdsAtMost(ids, m)
    ensures m == 0 || HasId(ids, m)
  {
    if ids == [] then 0
    else
      var rest := MaxId(ids[1..]);
      var here := if ids[0].Some? then ParseInt(ids[0].value) else None;
      var m := if here.Some? && here.value > rest then here.value else rest;
      assert m == 0 || HasId(ids, m) by {
        if m != 0 && m == rest {
          var i :| 0 <= i < |ids[1..]| && ids[1..][i].Some? && ParseInt(ids[1..][i].value) == Some(m);
          assert ids[i + 1] == ids[1..][i];
        } else if m != 0 {
          assert ids[0].Some? && ParseInt(ids[0].value) == Some(m);
        }
      }
      m
  }

  /** `get_resume_start`: one past the largest parsable id, or 1. */
  function ResumeStart(rows: Option<seq<Option<string>>>): (r: int)
    ensures r >= 1
    ensures rows.None? ==> r == 1
    ensures rows.Some? ==> IdsAtMost(rows.value, r - 1)
  {
    if rows.None? then 1
    else
      MaxId(rows.value) + 1
  }

  /** The resume point is exactly one past an id the dataset holds, unless
      it is the default 1. */
  lemma ResumeStartReached(rows: Option<seq<Option<string>>>)
    ensures ResumeStart(rows) == 1 || (rows.Some? && HasId(rows.value, ResumeStart(rows) - 1))
  {
    if rows.Some? && MaxId(rows.value) != 0 {
      var ids := rows.value;
      var v := ResumeStart(rows) - 1;
      assert v == MaxId(ids);
      var i :| 0 <= i < |ids| && ids[i].Some? && ParseInt(ids[i].value) == Some(v);
    }
  }

  /** Resuming, the producer never reaches an id the dataset already
      holds. */
  lemma ResumeFresh(rows: Option<seq<Option<string>>>, id: nat)
    requires id >= ResumeStart(rows)
    ensures NatToString(id) !in ExistingIds(rows)
  {
    if rows.Some? && NatToString(id) in ExistingIds(rows) {
      var i :| 0 <= i < |rows.value| && rows.value[i] == Some(NatToString(id));
      ParseIntNatToString(id);
      assert false;
    }
  }

  lemma ResumeFreshAll(rows: Option<seq<Option<string>>>)
    ensures forall n: nat :: n >= ResumeStart(rows) ==> NatToString(n) !in ExistingIds(rows)
  {
    forall n: nat | n >= ResumeStart(rows)
      ensures NatToString(n) !in ExistingIds(rows)
    {
      ResumeFresh(rows, n);
    }
  }

  /** The start and end ids of a run: an explicit positive start wins,
      otherwise the resume value; a count of `*` leaves the run unbounded,
      any other count must parse as an integer and bounds the run at
      `start + max(0, count)`. */
  function StartEnd(start: Option<int>, count: string, rows: Option<seq<Option<string>>>): (r: Result<(int, Option<int>)>)
    ensures r.Err? <==> Strip(count) != "*" && ParseInt(count).None?
    ensures r.Ok? ==> r.value.0 >= 1
    ensures r.Ok? ==> (r.value.0 == if start.Some? && start.value > 0 then start.value else ResumeStart(rows))
    ensures r.Ok? ==> (r.value.1.None? <==> Strip(count) == "*")
    ensures r.Ok? && r.value.1.Some? ==> r.value.1.value - r.value.0 == if ParseInt(count).value > 0 then ParseInt(count).value else 0
  {
    var s := if start.Some? && start.value > 0 then start.value else ResumeStart(rows);
    if Strip(count) == "*" then Ok((s, None))
    else match ParseInt(count)
      case None => Err("invalid literal for int() with base 10")
      case Some(n) => Ok((s, Some(s + if n > 0 then n else 0)))
  }

  /** The whole crawl: the producer's items, the marker, and the consumer's
      fold over them from the resumed state. */
  /** Whatever the start, no id is written twice and none that the
      dataset already holds; the known ids end as the dataset's plus the
      written ones. */
  function Run(start: int, end: Option<int>, fetched: seq<Option<Game.Page>>, rows: Option<seq<Option<string>>>, threshold: int): (r: State)
    ensures forall i, j :: 0 <= i < j < |r.written| ==> r.written[i].id != r.written[j].id
    ensures forall i :: 0 <= i < |r.written| ==> r.written[i].id !in ExistingIds(rows)
    ensures r.existing == ExistingIds(rows) + WrittenIds(r.written)
  {
    ConsumeFresh(ExistingIds(rows), Produce(start, end, fetched) + [Sentinel], threshold);
    Consume(State([], ExistingIds(rows), 0, false), Produce(start, end, fetched) + [Sentinel], threshold)
  }

  /** The records the items carry, in order, up to the marker; a failed
      item carries none. */
  function Records(items: seq<Item>): seq<Game.Record>
    decreases |items|
  {
    if items == [] || items[0].Sentinel? then []
    else if !Failed(items[0]) && items[0].data.Some? then [items[0].data.value] + Records(items[1..])
    else Records(items[1..])
  }

  /** Items whose records carry pairwise distinct ids. */
  predicate DistinctRecordIds(items: seq<Item>)
  {
    forall k, l :: 0 <= k < l < |items| && items[k].Outcome? && items[k].data.Some? && items[l].Outcome? && items[l].data.Some? ==>
      items[k].data.value.id != items[l].data.value.id
  }

  /** Items whose records carry no id from `ids`. */
  predicate NoRecordIn(items: seq<Item>, ids: set<string>)
  {
    forall k :: 0 <= k < |items| && items[k].Outcome? && items[k].data.Some? ==> items[k].data.value.id !in ids
  }

  /** When no record carries a known id and no two carry the same one,
      the consumer skips none: it writes every record, in order. */
  lemma {:induction false} ConsumeWritesAll(st: State, items: seq<Item>, threshold: int)
    requires NoRecordIn(items, st.existing) && DistinctRecordIds(items)
    ensures Consume(st, items, threshold).written == st.written + Records(items)
    decreases |items|
  {
    if items == [] || items[0].Sentinel? {
      assert st.written + [] == st.written;
    } else {
      var st' := Step(st, items[0], threshold);
      var tail := items[1..];
      assert forall k :: 0 <= k < |tail| ==> tail[k] == items[k + 1];
      assert NoRecordIn(tail, st'.existing) && DistinctRecordIds(tail) by {
        forall k | 0 <= k < |tail| && tail[k].Outcome? && tail[k].data.Some?
          ensures tail[k].data.value.id !in st'.existing
        {
          assert items[k + 1] == tail[k];
        }
        forall k, l | 0 <= k < l < |tail| && tail[k].Outcome? && tail[k].data.Some? && tail[l].Outcome? && tail[l].data.Some?
          ensures tail[k].data.value.id != tail[l].data.value.id
        {
          assert items[k + 1] == tail[k] && items[l + 1] == tail[l];
        }
      }
      ConsumeWritesAll(st', tail, threshold);
      if !Failed(items[0]) && items[0].data.Some? {
        assert st.written + Records(items) == st'.written + Records(tail);
      }
    }
  }

  /** A resumed crawl skips no record the producer finds: from the resume
      point, whatever the end, every one is written, in the order of the
      ids. */
  lemma RunResumed(e: Option<int>, fetched: seq<Option<Game.Page>>, rows: Option<seq<Option<string>>>, threshold: int)
    ensures var s := ResumeStart(rows);
      Run(s, e, fetched, rows, threshold).written == Records(Produce(s, e, fetched))
  {
    var s := ResumeStart(rows);
    var items := Produce(s, e, fetched);
    var st := State([], ExistingIds(rows), 0, false);
    assert forall k :: 0 <= k < |items| ==> items[k].Outcome?;
    ConsumeStopsAtSentinel(st, items, [], threshold);
    assert items + [Sentinel] + [] == items + [Sentinel];
    ProducedNotExisting(s, e, fetched, rows);
    ProducedDistinct(s, e, fetched);
    ConsumeWritesAll(st, items, threshold);
    assert [] + Records(items) == Records(items);
  }

  /** Records produced for distinct ids carry distinct ids. */
  lemma ProducedDistinct(s: int, e: Option<int>, fetched: seq<Option<Game.Page>>)
    requires s >= 0
    ensures DistinctRecordIds(Produce(s, e, fetched))
  {
    var items := Produce(s, e, fetched);
    ProduceRecordIds(s, e, fetched);
    forall k, l | 0 <= k < l < |items| && items[k].Outcome? && items[k].data.Some? && items[l].Outcome? && items[l].data.Some?
      ensures items[k].data.value.id != items[l].data.value.id
    {
      ParseIntNatToString(s + k);
      ParseIntNatToString(s + l);
    }
  }

  /** Resuming, no produced record carries an id already known. */
  lemma ProducedNotExisting(s: int, e: Option<int>, fetched: seq<Option<Game.Page>>, rows: Option<seq<Option<string>>>)
    requires s == ResumeStart(rows)
    ensures var items := Produce(s, e, fetched);
      forall k :: 0 <= k < |items| && items[k].Outcome? && items[k].data.Some? ==> items[k].data.value.id !in ExistingIds(rows)
  {
    ProduceRecordIds(s, e, fetched);
    ResumeFreshAll(rows);
    IdsNotIn(Produce(s, e, fetched), s, ExistingIds(rows));
  }

  /** From a non-negative start, the record of the `k`-th item carries the
      id `start + k`. */
  lemma ProduceRecordIds(s: int, e: Option<int>, fetched: seq<Option<Game.Page>>)
    requires s >= 0
    ensures var items := Produce(s, e, fetched);
      forall k :: 0 <= k < |items| && items[k].Outcome? && items[k].data.Some? ==> items[k].data.value.id == NatToString(s + k)
  {
    var items := Produce(s, e, fetched);
    forall k | 0 <= k < |items| && items[k].Outcome? && items[k].data.Some?
      ensures items[k].data.value.id == NatToString(s + k)
    {
      ProduceNoErrors(s, e, fetched, k);
    }
  }

  /** Items numbered from `s` carry no id from a set that holds no
      number from `s` on. */
  lemma IdsNotIn(items: seq<Item>, s: int, ids: set<string>)
    requires s >= 0
    requires forall n: nat :: n >= s ==> NatToString(n) !in ids
    requires forall k :: 0 <= k < |items| && items[k].Outcome? && items[k].data.Some? ==> items[k].data.value.id == NatToString(s + k)
    ensures forall k :: 0 <= k < |items| && items[k].Outcome? && items[k].data.Some? ==> items[k].data.value.id !in ids
  {
    forall k | 0 <= k < |items| && items[k].Outcome? && items[k].data.Some?
      ensures items[k].data.value.id !in ids
    {
      var n: nat := s + k;
      assert NatToString(n) !in ids;
    }
  }
}
