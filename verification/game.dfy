/** The record assembler: one fetched page becomes a catalogue record, no
    record (the page names no game) or an error (the URL carries no id). */
module Game {
  import opened Wrappers
  import opened Text
  import opened Labels
  import Times
  import Release

  // ---------------------------------------------------------------- name

  /** A decoded JSON value, as far as the name lookup looks into it. */
  datatype Json =
    | JObject(fields: map<string, Json>)
    | JArray(elems: seq<Json>)
    | JString(str: string)
    | JOther

  /** The name an embedded JSON item declares: a dict whose "name" is a
      string. */
  function ItemName(it: Json): Option<string>
  {
    if it.JObject? && "name" in it.fields && it.fields["name"].JString? then Some(it.fields["name"].str)
    else None
  }

  /** The items of a decoded script: a list stands for its elements, any
      other value for itself. */
  function ScriptItems(data: Json): seq<Json>
  {
    if data.JArray? then data.elems else [data]
  }

  function ItemNames(items: seq<Json>): (r: seq<Option<string>>)
    ensures |r| == |items| && forall i :: 0 <= i < |items| ==> r[i] == ItemName(items[i])
  {
    seq(|items|, i requires 0 <= i < |items| => ItemName(items[i]))
  }

  /** The name one structured-data script yields; a script without text or
      with invalid JSON (`None` here) yields none. */
  function ScriptName(script: Option<Json>): Option<string>
  {
    if script.None? then None else First(ItemNames(ScriptItems(script.value)))
  }

  function ScriptNames(scripts: seq<Option<Json>>): (r: seq<Option<string>>)
    ensures |r| == |scripts| && forall i :: 0 <= i < |scripts| ==> r[i] == ScriptName(scripts[i])
  {
    seq(|scripts|, i requires 0 <= i < |scripts| => ScriptName(scripts[i]))
  }

  /** `parse_name_from_page`: the header text when it is not empty;
      otherwise the first name found in the structured-data scripts, in
      page order (which may be empty); otherwise none. */
  function ParseName(header: Option<string>, scripts: seq<Option<Json>>): (r: Option<string>)
    ensures header.Some? && header.value != [] ==> r == header
    ensures r.None? <==> (header.None? || header.value == []) && forall i :: 0 <= i < |scripts| ==> ScriptName(scripts[i]).None?
  {
    if header.Some? && header.value != [] then header else First(ScriptNames(scripts))
  }

  /** Without a header text, the name is that of the first script that
      yields one, and within it that of the first item declaring one. */
  lemma ParseNameFromScripts(header: Option<string>, scripts: seq<Option<Json>>, i: int, j: int)
    requires header.None? || header.value == []
    requires FirstAt(ScriptNames(scripts), i)
    requires scripts[i].Some? && FirstAt(ItemNames(ScriptItems(scripts[i].value)), j)
    ensures ParseName(header, scripts) == ItemName(ScriptItems(scripts[i].value)[j])
  {
    FirstIsAt(ScriptNames(scripts), i);
    FirstIsAt(ItemNames(ScriptItems(scripts[i].value)), j);
  }

  // ---------------------------------------------------------------- record

  /** What the page offers the assembler, once extracted: the header text,
      the structured-data scripts, the summary texts with their release
      matches, the statistics tables and the statistics list. */
  datatype Page = Page(
    header: Option<string>,
    scripts: seq<Option<Json>>,
    summaries: seq<Release.Summary>,
    tables: seq<Times.Table>,
    stats: Option<seq<Times.ListItem>>)

  /** One catalogue record; `crawled_at` is left out. */
  datatype Record = Record(
    id: string,
    name: string,
    kind: string,
    release: Release.ReleaseInfo,
    times: Times.TimeRecord,
    sourceUrl: string)

  function SummaryTexts(ss: seq<Release.Summary>): (r: seq<string>)
    ensures |r| == |ss| && forall i :: 0 <= i < |ss| ==> r[i] == ss[i].text
  {
    seq(|ss|, i requires 0 <= i < |ss| => ss[i].text)
  }

  /** The release fields of a page: the primary reader, with the legacy
      date merged in. The merge never fails on a page and always leaves a
      consistent result, since the legacy date is either not needed or a
      well-formed day date; a date the primary reader found is kept. */
  function PageRelease(ss: seq<Release.Summary>): (r: Result<Release.ReleaseInfo>)
    ensures r.Ok? && Release.Consistent(r.value)
    ensures var p := Release.ParseReleaseInfo(ss); p.date.Some? && p.date.value != [] ==> r.value == p
  {
    var primary := Release.ParseReleaseInfo(ss);
    var legacy := Release.LegacyDate(ss);
    if legacy.Some? && (primary.date.None? || primary.date.value == []) then
      var h := First(Release.DayHits(ss)).value;
      Release.MergeDayText(primary, h);
      Release.DayInfoConsistent(h.year, h.month, h.day);
      Release.MergeReleaseInfo(primary, legacy)
    else
      Release.MergeReleaseInfo(primary, legacy)
  }

  /** `parse_hltb_game_from_html`: no record without a non-empty name;
      otherwise the content type, the time record chosen by the selection
      rule, the merged release fields and the id taken from the URL, whose
      absence raises. */
  function ParseGame(url: string, page: Page): (r: Result<Option<Record>>)
    ensures r == Ok(None) <==> var n := ParseName(page.header, page.scripts); n.None? || n.value == []
  {
    var name := ParseName(page.header, page.scripts);
    if name.None? || name.value == [] then Ok(None)
    else
      var kind := DetectContentType(SummaryTexts(page.summaries));
      var times := Times.SelectTimes(page.tables, page.stats);
      match PageRelease(page.summaries)
      case Err(e) => Err(e)
      case Ok(release) =>
        match ExtractIdFromUrl(url)
        case Err(e) => Err(e)
        case Ok(id) => Ok(Some(Record(NatToString(id), name.value, kind, release, times, url)))
  }

  /** Every record the assembler emits carries a non-empty name, the
      content type of its summary texts (one of four), the time record the
      selection rule picks (all fourteen slots), the merged release fields
      (consistent) and its own URL; it fails only when the URL has no
      id. */
  lemma ParseGameRecord(url: string, page: Page)
    ensures var r := ParseGame(url, page);
      && (r.Err? <==> ParseName(page.header, page.scripts).GetOr([]) != [] && ExtractIdFromUrl(url).Err?)
      && (r.Ok? && r.value.Some? ==>
            var rec := r.value.value;
            && rec.name != []
            && rec.name == ParseName(page.header, page.scripts).value
            && rec.kind == DetectContentType(SummaryTexts(page.summaries))
            && rec.kind in {"game", DlcFlag, MultiplayerFlag, DlcFlag + "; " + MultiplayerFlag}
            && rec.times == Times.SelectTimes(page.tables, page.stats)
            && rec.times.Keys == Times.AllSlots
            && rec.release == PageRelease(page.summaries).value
            && Release.Consistent(rec.release)
            && rec.sourceUrl == url
            && rec.id == NatToString(ExtractIdFromUrl(url).value))
  {
  }

  /** A page fetched from an address the crawler built never makes the
      assembler fail, and a record it yields carries the id of that
      address. */
  lemma ParseGameProducerUrl(id: nat, page: Page)
    ensures ParseGame(GameUrl(id), page).Ok?
    ensures ParseGame(GameUrl(id), page).value.Some? ==> ParseGame(GameUrl(id), page).value.value.id == NatToString(id)
  {
    GameUrlId(id);
  }
}
