/** The small normalisers of the crawler: the time-label vocabulary, the
    poll-count reader `to_int`, the content-type detector and the game id
    carried by a page URL. */
module Labels {
  import opened Wrappers
  import opened Text

  // ---------------------------------------------------------------- time keys

  /** The seven playtime categories (`TIME_KEYS`). */
  datatype TimeKey =
    | MainStory | MainPlusSides | Completionist | AllStyles
    | SinglePlayer | CoOp | Versus

  /** `TIME_KEYS`, in the source's order. */
  const TimeKeys: seq<TimeKey> :=
    [MainStory, MainPlusSides, Completionist, AllStyles, SinglePlayer, CoOp, Versus]

  lemma TimeKeysComplete(k: TimeKey)
    ensures k in TimeKeys
  {
  }

  /** The label vocabulary of the statistics tables and lists, already
      trimmed and lower-cased: fourteen spellings for seven keys. */
  const LabelMap: map<string, TimeKey> := map[
    "main story" := MainStory,
    "main + sides" := MainPlusSides,
    "main + extras" := MainPlusSides,
    "completionist" := Completionist,
    "all styles" := AllStyles,
    "all playstyles" := AllStyles,
    "single-player" := SinglePlayer,
    "single player" := SinglePlayer,
    "singleplayer" := SinglePlayer,
    "co-op" := CoOp,
    "coop" := CoOp,
    "competitive" := Versus,
    "vs." := Versus,
    "versus" := Versus
  ]

  /** `norm_time_label`: the key a row or list label names, after trimming
      and lower-casing it; `None` for a label outside the vocabulary. */
  function NormTimeLabel(name: string): (r: Option<TimeKey>)
    ensures r.Some? <==> Lower(Strip(name)) in LabelMap
    ensures r.Some? ==> LabelMap[Lower(Strip(name))] == r.value
  {
    var l := Lower(Strip(name));
    if l in LabelMap then Some(LabelMap[l]) else None
  }

  /** Case and surrounding whitespace never change the key a label names. */
  lemma NormTimeLabelInsensitive(name: string)
    ensures NormTimeLabel(Lower(name)) == NormTimeLabel(name)
    ensures NormTimeLabel(Strip(name)) == NormTimeLabel(name)
  {
    NormalFormInsensitive(name);
  }

  lemma NormalFormInsensitive(name: string)
    ensures Lower(Strip(Lower(name))) == Lower(Strip(name))
    ensures Lower(Strip(Strip(name))) == Lower(Strip(name))
  {
    LowerStrip(name);
    LowerIdempotent(Strip(name));
    StripIdempotent(name);
  }

  /** A vocabulary spelling padded with whitespace on either side, in any
      mix of case the lower-casing undoes, names its key. */
  lemma NormTimeLabelPadded(l: string, x: string, r: string, spelling: string)
    requires spelling in LabelMap
    requires Lower(x) == spelling
    requires x != [] && !IsSpace(x[0]) && !IsSpace(x[|x| - 1])
    requires forall i :: 0 <= i < |l| ==> IsSpace(l[i])
    requires forall i :: 0 <= i < |r| ==> IsSpace(r[i])
    ensures NormTimeLabel(l + x + r) == Some(LabelMap[spelling])
  {
    StripPadded(l, x, r);
  }

  /** Every key has a spelling in the vocabulary, so every key is
      reachable from a page label. */
  lemma EveryKeyNamed(k: TimeKey)
    ensures exists l :: l in LabelMap && LabelMap[l] == k
  {
    match k
    case MainStory => assert LabelMap["main story"] == k;
    case MainPlusSides => assert LabelMap["main + sides"] == k;
    case Completionist => assert LabelMap["completionist"] == k;
    case AllStyles => assert LabelMap["all styles"] == k;
    case SinglePlayer => assert LabelMap["single player"] == k;
    case CoOp => assert LabelMap["coop"] == k;
    case Versus => assert LabelMap["versus"] == k;
  }

  // ---------------------------------------------------------------- to_int

  predicate IsGroupChar(c: char) {
    IsDigit(c) || c == ','
  }

  /** Length of the leading run of digits and thousands commas (the
      `[\d,]*` part of the pattern). */
  function GroupLength(s: string): (k: nat)
    ensures k <= |s|
    ensures forall i :: 0 <= i < k ==> IsGroupChar(s[i])
    ensures k == |s| || !IsGroupChar(s[k])
  {
    if s == [] || !IsGroupChar(s[0]) then 0 else 1 + GroupLength(s[1..])
  }

  /** `s.replace(",", "")`. */
  function DropCommas(s: string): (r: string)
    ensures ',' !in r
    ensures forall i :: 0 <= i < |s| && s[i] != ',' ==> s[i] in r
  {
    if s == [] then []
    else (if s[0] == ',' then [] else [s[0]]) + DropCommas(s[1..])
  }

  lemma {:induction false} DropCommasDigits(s: string)
    requires forall i :: 0 <= i < |s| ==> IsGroupChar(s[i])
    ensures AllDigits(DropCommas(s))
    ensures s != [] && IsDigit(s[0]) ==> DropCommas(s) != []
    decreases |s|
  {
    if s != [] {
      DropCommasDigits(s[1..]);
    }
  }

  lemma {:induction false} DropCommasNone(s: string)
    requires ',' !in s
    ensures DropCommas(s) == s
    decreases |s|
  {
    if s != [] {
      DropCommasNone(s[1..]);
    }
  }

  /** The value of the first `\d[\d,]*` match of `s`, searching from the
      left. */
  function FirstNumber(s: string): (r: Option<nat>)
    ensures r.Some? <==> exists i :: 0 <= i < |s| && IsDigit(s[i])
    decreases |s|
  {
    if s == [] then None
    else if IsDigit(s[0]) then
      var g := s[..GroupLength(s)];
      DropCommasDigits(g);
      Some(DigitsValue(DropCommas(g)))
    else
      var r := FirstNumber(s[1..]);
      assert forall i :: 0 < i < |s| ==> s[i] == s[1..][i - 1];
      r
  }

  /** `to_int`: the poll count of a table cell, reading the first run of
      digits and thousands commas; `None` when the text holds no digit. The
      `ValueError` branch of the source cannot fire, since the matched run
      starts with a digit and keeps only digits once the commas go. */
  function ToInt(text: string): (r: Option<nat>)
    ensures r.Some? <==> exists i :: 0 <= i < |text| && IsDigit(text[i])
  {
    if text == [] then None else FirstNumber(text)
  }

  /** The count of a text is read from its first digit group: whatever
      digit-free text comes first, and whatever follows the group, the
      value is the group's digits with the commas dropped. */
  lemma {:induction false} ToIntGroup(pre: string, g: string, post: string)
    requires forall i :: 0 <= i < |pre| ==> !IsDigit(pre[i])
    requires g != [] && IsDigit(g[0])
    requires forall i :: 0 <= i < |g| ==> IsGroupChar(g[i])
    requires post == [] || !IsGroupChar(post[0])
    ensures AllDigits(DropCommas(g))
    ensures ToInt(pre + g + post) == Some(DigitsValue(DropCommas(g)))
    decreases |pre|
  {
    DropCommasDigits(g);
    if pre == [] {
      assert pre + g + post == g + post;
      GroupLengthOf(g, post);
      assert (g + post)[..|g|] == g;
    } else {
      assert (pre + g + post)[1..] == pre[1..] + g + post;
      ToIntGroup(pre[1..], g, post);
    }
  }

  lemma {:induction false} GroupLengthOf(g: string, post: string)
    requires forall i :: 0 <= i < |g| ==> IsGroupChar(g[i])
    requires post == [] || !IsGroupChar(post[0])
    ensures GroupLength(g + post) == |g|
    decreases |g|
  {
    if g == [] {
      assert g + post == post;
    } else {
      assert (g + post)[1..] == g[1..] + post;
      GroupLengthOf(g[1..], post);
    }
  }

  /** A count printed plainly, between digit-free words, reads back. */
  lemma ToIntNatToString(pre: string, n: nat, post: string)
    requires forall i :: 0 <= i < |pre| ==> !IsDigit(pre[i])
    requires post == [] || !IsGroupChar(post[0])
    ensures ToInt(pre + NatToString(n) + post) == Some(n)
  {
    var s := NatToString(n);
    assert ',' !in s by {
      assert forall i :: 0 <= i < |s| ==> IsDigit(s[i]);
    }
    DropCommasNone(s);
    ToIntGroup(pre, s, post);
  }

  // ---------------------------------------------------------------- content type

  /** The three content kinds a page can declare. */
  const DlcFlag: string := "dlc/expansion"
  const MultiplayerFlag: string := "multiplayer focused"

  /** One summary text raises `flag` when, lower-cased, it holds both a
      "note:" and the flag's words. */
  predicate RaisesFlag(text: string, flag: string) {
    var t := Lower(text);
    Contains(t, "note:") && Contains(t, flag)
  }

  /** The flags raised by the summary texts, in page order, with
      repetitions (the source's `flags` list). */
  function Flags(texts: seq<string>): (r: seq<string>)
    ensures forall f :: f in r ==> f == DlcFlag || f == MultiplayerFlag
    ensures DlcFlag in r <==> exists i :: 0 <= i < |texts| && RaisesFlag(texts[i], DlcFlag)
    ensures MultiplayerFlag in r <==> exists i :: 0 <= i < |texts| && RaisesFlag(texts[i], MultiplayerFlag)
    decreases |texts|
  {
    if texts == [] then []
    else
      var t := texts[0];
      var here := (if RaisesFlag(t, DlcFlag) then [DlcFlag] else [])
        + (if RaisesFlag(t, MultiplayerFlag) then [MultiplayerFlag] else []);
      var rest := Flags(texts[1..]);
      assert forall i :: 0 < i < |texts| ==> texts[i] == texts[1..][i - 1];
      here + rest
  }

  /** `"; ".join(sorted(set(flags)))`, or "game" when no flag is raised.
      Of the two flags "dlc/expansion" sorts first. */
  function TypeName(flags: set<string>): string
  {
    if flags == {} then "game"
    else Join("; ", (if DlcFlag in flags then [DlcFlag] else [])
      + (if MultiplayerFlag in flags then [MultiplayerFlag] else []))
  }

  /** `detect_content_type` over the summary texts of a page. */
  function DetectContentType(texts: seq<string>): (r: string)
    ensures r in {"game", DlcFlag, MultiplayerFlag, DlcFlag + "; " + MultiplayerFlag}
  {
    var fs := Flags(texts);
    var s := set f | f in fs;
    var dlc := DlcFlag in s;
    var multi := MultiplayerFlag in s;
    assert s == (if dlc then {DlcFlag} else {}) + (if multi then {MultiplayerFlag} else {});
    assert Join("; ", [DlcFlag]) == DlcFlag;
    assert Join("; ", [MultiplayerFlag]) == MultiplayerFlag;
    assert Join("; ", [DlcFlag, MultiplayerFlag]) == DlcFlag + "; " + Join("; ", [MultiplayerFlag]);
    TypeName(s)
  }

  /** Lexicographic order on strings, as Python's `<` on `str`. */
  predicate LexLess(a: string, b: string)
    decreases |a|
  {
    if a == [] then b != []
    else if b == [] then false
    else a[0] < b[0] || (a[0] == b[0] && LexLess(a[1..], b[1..]))
  }

  /** The joined name lists the flags in sorted order. */
  lemma FlagsSorted()
    ensures LexLess(DlcFlag, MultiplayerFlag)
  {
  }

  /** A page is typed "dlc/expansion" (alone or with the multiplayer flag)
      exactly when one of its summary texts raises that flag, and likewise
      for "multiplayer focused"; with no flag raised it is a "game". */
  lemma {:induction false} DetectContentTypeFlags(texts: seq<string>)
    ensures var r := DetectContentType(texts);
      && (r == "game" <==> forall i :: 0 <= i < |texts| ==> !RaisesFlag(texts[i], DlcFlag) && !RaisesFlag(texts[i], MultiplayerFlag))
      && (r in {DlcFlag, DlcFlag + "; " + MultiplayerFlag} <==> exists i :: 0 <= i < |texts| && RaisesFlag(texts[i], DlcFlag))
      && (r in {MultiplayerFlag, DlcFlag + "; " + MultiplayerFlag} <==> exists i :: 0 <= i < |texts| && RaisesFlag(texts[i], MultiplayerFlag))
  {
    var fs := Flags(texts);
    var s := set f | f in fs;
    var dlc := DlcFlag in s;
    var multi := MultiplayerFlag in s;
    assert s == (if dlc then {DlcFlag} else {}) + (if multi then {MultiplayerFlag} else {});
    DistinctTypeNames();
  }

  lemma DistinctTypeNames()
    ensures "game" != DlcFlag && "game" != MultiplayerFlag && DlcFlag != MultiplayerFlag
    ensures "game" != DlcFlag + "; " + MultiplayerFlag
    ensures DlcFlag != DlcFlag + "; " + MultiplayerFlag
    ensures MultiplayerFlag != DlcFlag + "; " + MultiplayerFlag
    ensures Join("; ", [DlcFlag, MultiplayerFlag]) == DlcFlag + "; " + MultiplayerFlag
  {
    assert |DlcFlag| != |DlcFlag + "; " + MultiplayerFlag|;
    assert |MultiplayerFlag| != |DlcFlag + "; " + MultiplayerFlag|;
    assert Join("; ", [MultiplayerFlag]) == MultiplayerFlag;
  }

  // ---------------------------------------------------------------- game id

  predicate EndsWith(s: string, suffix: string) {
    |suffix| <= |s| && s[|s| - |suffix|..] == suffix
  }

  /** Length of the trailing run of digits. */
  function TrailingDigits(s: string): (k: nat)
    ensures k <= |s|
    ensures AllDigits(s[|s| - k..])
    ensures k == |s| || !IsDigit(s[|s| - k - 1])
    decreases |s|
  {
    if s == [] || !IsDigit(s[|s| - 1]) then 0
    else
      var k := 1 + TrailingDigits(s[..|s| - 1]);
      assert s[|s| - k..] == s[..|s| - 1][|s| - k..] + [s[|s| - 1]];
      k
  }

  /** The id when `s` ends with "/game/" and then digits. */
  function GameIdAtEnd(s: string): (r: Option<nat>)
    ensures r.Some? ==> Contains(s, "/game/")
  {
    var k := TrailingDigits(s);
    var p := s[..|s| - k];
    if k > 0 && EndsWith(p, "/game/") then
      assert OccursAt(s, "/game/", |p| - 6) by {
        assert s[|p| - 6..|p|] == p[|p| - 6..];
      }
      Some(DigitsValue(s[|s| - k..]))
    else None
  }

  /** `extract_id_from_url`: the digits after a final "/game/" segment,
      which must close the URL (or stand just before a closing newline,
      where a regex `$` also matches); otherwise the `ValueError`. */
  function ExtractIdFromUrl(url: string): (r: Result<nat>)
    ensures r.Ok? ==> Contains(url, "/game/")
  {
    match GameIdAtEnd(url)
    case Some(v) => Ok(v)
    case None =>
      if url != [] && url[|url| - 1] == '\n' then
        match GameIdAtEnd(url[..|url| - 1])
        case Some(v) =>
          assert Contains(url, "/game/") by {
            var j :| 0 <= j <= |url| - 1 - 6 && OccursAt(url[..|url| - 1], "/game/", j);
            assert url[j..j + 6] == url[..|url| - 1][j..j + 6];
            assert OccursAt(url, "/game/", j);
          }
          Ok(v)
        case None => Err("could not extract the game id from the URL")
      else Err("could not extract the game id from the URL")
  }

  lemma {:induction false} TrailingDigitsOf(p: string, ds: string)
    requires p == [] || !IsDigit(p[|p| - 1])
    requires AllDigits(ds)
    ensures TrailingDigits(p + ds) == |ds|
    decreases |ds|
  {
    if ds == [] {
      assert p + ds == p;
    } else {
      assert (p + ds)[..|p + ds| - 1] == p + ds[..|ds| - 1];
      TrailingDigitsOf(p, ds[..|ds| - 1]);
    }
  }

  /** A URL ending in "/game/" and a digit run, optionally followed by one
      newline, carries the digits' value as its id. */
  lemma ExtractIdOf(p: string, ds: string, nl: string)
    requires EndsWith(p, "/game/")
    requires ds != [] && AllDigits(ds)
    requires nl == [] || nl == ['\n']
    ensures ExtractIdFromUrl(p + ds + nl) == Ok(DigitsValue(ds))
  {
    assert p[|p| - 1] == '/';
    TrailingDigitsOf(p, ds);
    assert (p + ds)[..|p + ds| - |ds|] == p;
    assert (p + ds)[|p + ds| - |ds|..] == ds;
    if nl != [] {
      var u := p + ds + nl;
      assert u[|u| - 1] == '\n';
      assert TrailingDigits(u) == 0;
      assert u[..|u| - 1] == p + ds;
    } else {
      assert p + ds + nl == p + ds;
    }
  }

  /** `url` splits into a prefix `p` ending in "/game/", a non-empty digit
      run `ds` and `nl`, which is nothing or one closing newline. */
  predicate IdAddress(url: string, p: string, ds: string, nl: string) {
    && url == p + ds + nl
    && EndsWith(p, "/game/")
    && ds != [] && AllDigits(ds)
    && (nl == [] || nl == ['\n'])
  }

  lemma GameIdAtEndSplit(s: string) returns (p: string, ds: string)
    requires GameIdAtEnd(s).Some?
    ensures IdAddress(s, p, ds, []) && GameIdAtEnd(s).value == DigitsValue(ds)
  {
    var k := TrailingDigits(s);
    p, ds := s[..|s| - k], s[|s| - k..];
    assert s == p + ds + [];
  }

  /** The id reader accepts exactly the addresses of that shape, and the
      id it returns is the value of the digit run. */
  lemma ExtractIdShape(url: string)
    ensures ExtractIdFromUrl(url).Ok? <==> exists p, ds, nl :: IdAddress(url, p, ds, nl)
    ensures ExtractIdFromUrl(url).Ok? ==> exists p, ds, nl :: IdAddress(url, p, ds, nl) && ExtractIdFromUrl(url).value == DigitsValue(ds)
  {
    if ExtractIdFromUrl(url).Ok? {
      if GameIdAtEnd(url).Some? {
        var p, ds := GameIdAtEndSplit(url);
        assert IdAddress(url, p, ds, []);
      } else {
        var s := url[..|url| - 1];
        var p, ds := GameIdAtEndSplit(s);
        assert url == s + ['\n'];
        assert IdAddress(url, p, ds, ['\n']);
      }
    } else if exists p, ds, nl :: IdAddress(url, p, ds, nl) {
      var p, ds, nl :| IdAddress(url, p, ds, nl);
      ExtractIdOf(p, ds, nl);
      assert false;
    }
  }

  /** The page address the crawler requests for game `id`. */
  function GameUrl(id: nat): (r: string)
    ensures EndsWith(r, NatToString(id))
  {
    "https://howlongtobeat.com/game/" + NatToString(id)
  }

  /** Every URL the crawler builds yields back the id it was built from. */
  lemma GameUrlId(id: nat)
    ensures ExtractIdFromUrl(GameUrl(id)) == Ok(id)
  {
    var p := "https://howlongtobeat.com/game/";
    assert EndsWith(p, "/game/");
    ExtractIdOf(p, NatToString(id), []);
    assert p + NatToString(id) + [] == GameUrl(id);
  }
}
