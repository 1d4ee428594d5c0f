/** The post-processing of the finished dataset: the content-type
    normaliser, the filter that drops rows without any time value, and the
    split into one export per recognised content type. A frame is a list of
    column names and a sequence of rows, each row a map from column name to
    an optional cell (`None` for a missing value). */
module Dataset {
  import opened Wrappers
  import opened Text
  import Labels

  // ---------------------------------------------------------------- type

  const Game := "game"
  const Dlc := Labels.DlcFlag
  const Multiplayer := Labels.MultiplayerFlag

  /** The three recognised content types. */
  const KnownTypes: set<string> := {Game, Dlc, Multiplayer}

  /** The spellings each recognised type accepts, after cleaning. */
  const DlcSpellings: set<string> := {"dlc/expansion", "dlc expansion", "dlc", "expansion"}
  const MultiplayerSpellings: set<string> := {"multiplayer focused", "multiplayer"}
  const GameSpellings: set<string> := {"game", "base game", "standalone"}

  /** The shape `normalize_type` gives its text: single blanks between
      words and none at either end, no dash, no capital letter. */
  ghost predicate Cleaned(s: string)
  {
    SingleSpaced(s) && '-' !in s && Lower(s) == s
  }

  /** The cleaned form of a type cell: a missing cell is empty; otherwise
      stripped and lower-cased, dashes read as blanks, runs of blanks
      collapsed to one. */
  function Clean(x: Option<string>): (r: string)
    ensures Cleaned(r)
  {
    var s := if x.None? then "" else Lower(Strip(x.value));
    LowerIdempotent(if x.None? then "" else Strip(x.value));
    var t := ReplaceChar(s, '-', ' ');
    DashesReplaced(s);
    CollapsedCleaned(t);
    CollapseSpaces(t)
  }

  /** Lower-casing and reading dashes as blanks keeps whitespace
      whitespace. */
  lemma DashedBlank(s: string)
    requires forall i :: 0 <= i < |s| ==> IsSpace(s[i])
    ensures var p := ReplaceChar(Lower(s), '-', ' ');
      forall i :: 0 <= i < |p| ==> IsSpace(p[i])
  {
    assert !IsSpace('-');
  }

  /** Lower-casing and reading dashes as blanks works character by
      character, so it distributes over concatenation. */
  lemma DashedAppend(a: string, b: string)
    ensures ReplaceChar(Lower(a + b), '-', ' ') == ReplaceChar(Lower(a), '-', ' ') + ReplaceChar(Lower(b), '-', ' ')
  {
  }

  /** Stripping before lower-casing and reading dashes as blanks changes
      no word. */
  lemma DashedStripWords(x: string)
    ensures Words(ReplaceChar(Lower(Strip(x)), '-', ' ')) == Words(ReplaceChar(Lower(x), '-', ' '))
  {
    var pre, post := StripPieces(x);
    var m := Strip(x);
    DashedAppend(m, post);
    DashedAppend(pre, m + post);
    DashedBlank(pre);
    DashedBlank(post);
    WordsAround(ReplaceChar(Lower(pre), '-', ' '), ReplaceChar(Lower(m), '-', ' '), ReplaceChar(Lower(post), '-', ' '));
  }

  /** Cleaning is collapsing the whitespace of the lower-cased text with
      dashes read as blanks: the initial strip changes nothing, and the
      words of the result are exactly the words of that text. */
  lemma CleanByWords(x: string)
    ensures Clean(Some(x)) == CollapseSpaces(ReplaceChar(Lower(x), '-', ' '))
    ensures Words(Clean(Some(x))) == Words(ReplaceChar(Lower(x), '-', ' '))
  {
    DashedStripWords(x);
    WordsOfJoin(Words(ReplaceChar(Lower(x), '-', ' ')));
  }

  /** Reading the dashes of a lower-cased text as blanks leaves no dash
      and nothing to lower-case. */
  lemma DashesReplaced(s: string)
    requires Lower(s) == s
    ensures var t := ReplaceChar(s, '-', ' ');
      forall i :: 0 <= i < |t| ==> t[i] != '-' && LowerChar(t[i]) == t[i]
  {
    var t := ReplaceChar(s, '-', ' ');
    forall i | 0 <= i < |t|
      ensures t[i] != '-' && LowerChar(t[i]) == t[i]
    {
      assert Lower(s)[i] == LowerChar(s[i]);
    }
  }

  /** Collapsing the blanks of a text without dashes or capitals gives a
      cleaned text. */
  lemma CollapsedCleaned(t: string)
    requires forall i :: 0 <= i < |t| ==> t[i] != '-' && LowerChar(t[i]) == t[i]
    ensures Cleaned(CollapseSpaces(t))
  {
    assert All(t, c => c != '-');
    assert All(t, c => LowerChar(c) == c);
    CollapseAll(t, c => c != '-');
    CollapseAll(t, c => LowerChar(c) == c);
    var r := CollapseSpaces(t);
    assert forall i :: 0 <= i < |r| ==> r[i] != '-';
    assert forall i :: 0 <= i < |r| ==> Lower(r)[i] == r[i];
  }

  /** The synonym table: a listed spelling becomes its type, anything else
      stays as cleaned. */
  function Canonical(s: string): string
  {
    if s in DlcSpellings then Dlc
    else if s in MultiplayerSpellings then Multiplayer
    else if s in GameSpellings then Game
    else s
  }

  /** `normalize_type`: the cleaned text mapped through the synonym table.
      The result has no dash, no space at either end and no run of
      blanks, has no capitals, and is a recognised type exactly when the
      cleaned text is one of the listed spellings; any other cleaned text
      is returned as it is. */
  function NormalizeType(x: Option<string>): (r: string)
    ensures Cleaned(r)
    ensures r in KnownTypes <==> Clean(x) in DlcSpellings + MultiplayerSpellings + GameSpellings
    ensures Clean(x) in DlcSpellings ==> r == Dlc
    ensures Clean(x) in MultiplayerSpellings ==> r == Multiplayer
    ensures Clean(x) in GameSpellings ==> r == Game
    ensures Clean(x) !in DlcSpellings + MultiplayerSpellings + GameSpellings ==> r == Clean(x)
  {
    CanonicalClean(Clean(x));
    CanonicalKnown(Clean(x));
    CanonicalSpellings(Clean(x));
    Canonical(Clean(x))
  }

  /** Each listed spelling gives its own type: the spelling lists are
      disjoint. */
  lemma CanonicalSpellings(s: string)
    ensures s in DlcSpellings ==> Canonical(s) == Dlc
    ensures s in MultiplayerSpellings ==> Canonical(s) == Multiplayer
    ensures s in GameSpellings ==> Canonical(s) == Game
  {
  }

  /** The synonym table maps cleaned texts to cleaned texts. */
  lemma CanonicalClean(s: string)
    requires Cleaned(s)
    ensures Cleaned(Canonical(s))
  {
    NamesClean();
  }

  /** The synonym table gives a recognised type exactly for a listed
      spelling, since every type is a spelling of itself. */
  lemma CanonicalKnown(s: string)
    ensures Canonical(s) in KnownTypes <==> s in DlcSpellings + MultiplayerSpellings + GameSpellings
  {
    assert Game in GameSpellings && Dlc in DlcSpellings && Multiplayer in MultiplayerSpellings;
  }

  /** A non-empty run of lower-case letters and punctuation is one word. */
  lemma PlainWord(s: string)
    requires s != []
    requires forall i :: 0 <= i < |s| ==> ('a' <= s[i] <= 'z') || s[i] == '/' || s[i] == ';'
    ensures NoSpace(s) && SingleSpaced(s)
  {
  }

  lemma NamesSingleSpaced()
    ensures SingleSpaced(Game) && SingleSpaced(Dlc) && SingleSpaced(Multiplayer)
  {
    PlainWord(Game);
    PlainWord(Dlc);
    PlainWord("multiplayer");
    PlainWord("focused");
    assert Multiplayer == "multiplayer" + " " + "focused";
    ConsSingleSpaced("multiplayer", "focused");
  }

  /** A text of lower-case ASCII letters and punctuation is its own
      lower-cased form. */
  lemma LowerAscii(s: string)
    requires forall i :: 0 <= i < |s| ==> ('a' <= s[i] <= 'z') || s[i] == ' ' || s[i] == '/' || s[i] == ';'
    ensures Lower(s) == s
  {
  }

  lemma NamesLowerCase()
    ensures Lower(Game) == Game && Lower(Dlc) == Dlc && Lower(Multiplayer) == Multiplayer
  {
    LowerAscii(Game);
    LowerAscii(Dlc);
    LowerAscii(Multiplayer);
  }

  lemma NamesNoDash()
    ensures '-' !in Game && '-' !in Dlc && '-' !in Multiplayer
  {
  }

  /** The three type names are already in cleaned form. */
  lemma NamesClean()
    ensures Cleaned(Game) && Cleaned(Dlc) && Cleaned(Multiplayer)
  {
    NamesSingleSpaced();
    NamesLowerCase();
    NamesNoDash();
  }

  /** The label of a page that is both an expansion and
      multiplayer-focused. */
  const Joined := Dlc + "; " + Multiplayer

  lemma JoinedSingleSpaced()
    ensures SingleSpaced(Joined)
  {
    NamesSingleSpaced();
    PlainWord(Dlc + ";");
    assert Joined == (Dlc + ";") + " " + Multiplayer;
    ConsSingleSpaced(Dlc + ";", Multiplayer);
  }

  lemma JoinedLowerCase()
    ensures Lower(Joined) == Joined && '-' !in Joined
  {
    LowerAscii(Joined);
  }

  /** A text already in cleaned form is its own cleaned form. */
  lemma CleanFixpoint(s: string)
    requires Cleaned(s)
    ensures Clean(Some(s)) == s
  {
    SingleSpacedStrip(s);
    ReplaceAbsent(s, '-', ' ');
    SingleSpacedCollapse(s);
  }

  /** Normalising twice is normalising once. */
  lemma NormalizeTypeIdempotent(x: Option<string>)
    ensures NormalizeType(Some(NormalizeType(x))) == NormalizeType(x)
  {
    var r := NormalizeType(x);
    CleanFixpoint(r);
  }

  /** The joined label is in cleaned form but is no recognised type. */
  lemma JoinedTypeIsOther()
    ensures NormalizeType(Some(Joined)) == Joined && Joined !in KnownTypes
  {
    JoinedSingleSpaced();
    JoinedLowerCase();
    CleanFixpoint(Joined);
    assert Joined !in DlcSpellings + MultiplayerSpellings + GameSpellings;
  }

  /** Every content type the crawler records normalises to itself, so all
      but the joined label land in the export of their own type. */
  lemma DetectedTypeNormalizes(texts: seq<string>)
    ensures var t := Labels.DetectContentType(texts);
      && NormalizeType(Some(t)) == t
      && (t in KnownTypes <==> t != Joined)
  {
    var t := Labels.DetectContentType(texts);
    NamesClean();
    JoinedTypeIsOther();
    CleanFixpoint(t);
  }

  // ---------------------------------------------------------------- frames

  type Cell = Option<string>
  type Row = map<string, Cell>
  datatype Frame = Frame(columns: seq<string>, rows: seq<Row>)

  /** The cell of a row under a column; a row without it reads missing. */
  function Get(row: Row, column: string): Cell
  {
    if column in row then row[column] else None
  }

  /** The columns whose values make a row worth keeping. */
  const MetricsCols: seq<string> := [
    "main_story_polled", "main_story",
    "main_plus_sides_polled", "main_plus_sides",
    "completionist_polled", "completionist",
    "all_styles_polled", "all_styles",
    "single_player_polled", "single_player",
    "co_op_polled", "co_op",
    "versus_polled", "versus"]

  /** The crawler's bookkeeping columns, dropped from every output. */
  const ServiceCols: seq<string> := ["source_url", "crawled_at"]

  /** The helper column of the split. */
  const TypeNormCol := "_type_norm"

  /** The rows satisfying `keep`, in order. */
  function Filter(rows: seq<Row>, keep: Row -> bool): (r: seq<Row>)
    ensures |r| <= |rows|
    ensures forall x :: x in r <==> x in rows && keep(x)
  {
    if rows == [] then []
    else (if keep(rows[0]) then [rows[0]] else []) + Filter(rows[1..], keep)
  }

  /** Filtering distributes over concatenation: the kept rows keep their
      order. */
  lemma {:induction false} FilterAppend(a: seq<Row>, b: seq<Row>, keep: Row -> bool)
    ensures Filter(a + b, keep) == Filter(a, keep) + Filter(b, keep)
    decreases |a|
  {
    if a == [] {
      assert a + b == b;
    } else {
      assert (a + b)[0] == a[0];
      assert (a + b)[1..] == a[1..] + b;
      FilterAppend(a[1..], b, keep);
    }
  }

  /** The columns of `columns` outside `drop`, in order. */
  function Without(columns: seq<string>, drop: set<string>): (r: seq<string>)
    ensures forall c :: c in r <==> c in columns && c !in drop
  {
    if columns == [] then []
    else (if columns[0] in drop then [] else [columns[0]]) + Without(columns[1..], drop)
  }

  /** A row with the given columns removed. */
  function Project(row: Row, drop: set<string>): (r: Row)
    ensures forall c :: c in r <==> c in row && c !in drop
    ensures forall c :: c in r ==> r[c] == row[c]
  {
    row - drop
  }

  function ProjectAll(rows: seq<Row>, drop: set<string>): (r: seq<Row>)
    ensures |r| == |rows|
    ensures forall i :: 0 <= i < |rows| ==> r[i] == Project(rows[i], drop)
  {
    seq(|rows|, i requires 0 <= i < |rows| => Project(rows[i], drop))
  }

  function SetOf(cols: seq<string>): (s: set<string>)
    ensures forall c :: c in s <==> c in cols
  {
    set c | c in cols
  }

  // ---------------------------------------------------------------- filter

  /** A cell without a value: missing, or only whitespace. */
  predicate Blank(c: Cell)
  {
    c.None? || Strip(c.value) == []
  }

  /** A row whose every time value is blank. */
  predicate AllBlank(row: Row)
  {
    forall c :: c in MetricsCols ==> Blank(Get(row, c))
  }

  function Count(rows: seq<Row>, p: Row -> bool): (n: nat)
    ensures n <= |rows|
  {
    if rows == [] then 0 else (if p(rows[0]) then 1 else 0) + Count(rows[1..], p)
  }

  /** Filtering keeps as many rows as satisfy the test, and drops as many
      as satisfy its negation. */
  lemma {:induction false} FilterCount(rows: seq<Row>, keep: Row -> bool, drop: Row -> bool)
    requires forall x :: drop(x) == !keep(x)
    ensures |Filter(rows, keep)| == Count(rows, keep)
    ensures |rows| - |Filter(rows, keep)| == Count(rows, drop)
    decreases |rows|
  {
    if rows != [] {
      FilterCount(rows[1..], keep, drop);
    }
  }

  /** The result of the filter: the filtered frame, the row counts before
      and after, and the service columns that were present. */
  datatype Filtered = Filtered(frame: Frame, before: nat, after: nat, dropped: seq<string>)

  function HasTime(row: Row): bool
  {
    !AllBlank(row)
  }

  /** `filter_dataset`: fails when a time column is missing; otherwise
      keeps, in order and unchanged but for the service columns, exactly
      the rows with some non-blank time value, and reports which service
      columns it removed. */
  function FilterDataset(f: Frame): (r: Result<Filtered>)
    ensures r.Err? <==> exists c :: c in MetricsCols && c !in f.columns
    ensures r.Ok? ==> r.value.before == |f.rows| && r.value.after == |r.value.frame.rows|
    ensures r.Ok? ==> r.value.frame.rows == ProjectAll(Filter(f.rows, HasTime), SetOf(ServiceCols))
    ensures r.Ok? ==> r.value.frame.columns == Without(f.columns, SetOf(ServiceCols))
    ensures r.Ok? ==> forall c :: c in r.value.dropped <==> c in ServiceCols && c in f.columns
  {
    if exists c :: c in MetricsCols && c !in f.columns then
      Err("missing expected columns")
    else
      var kept := Filter(f.rows, HasTime);
      var drop := SetOf(ServiceCols);
      var present := Without(ServiceCols, SetOf(ServiceCols) - SetOf(f.columns));
      Ok(Filtered(Frame(Without(f.columns, drop), ProjectAll(kept, drop)), |f.rows|, |kept|, present))
  }

  /** The filter removes exactly the rows with every time value blank, and
      none of the output rows carries a service column. */
  lemma FilterDatasetCounts(f: Frame)
    requires FilterDataset(f).Ok?
    ensures FilterDataset(f).value.before - FilterDataset(f).value.after == Count(f.rows, AllBlank)
    ensures forall x :: x in Filter(f.rows, HasTime) <==> x in f.rows && !AllBlank(x)
    ensures forall i, c :: 0 <= i < |FilterDataset(f).value.frame.rows| && c in ServiceCols ==> c !in FilterDataset(f).value.frame.rows[i]
    ensures forall c :: c in ServiceCols ==> c !in FilterDataset(f).value.frame.columns
  {
    FilterCount(f.rows, HasTime, AllBlank);
    var r := FilterDataset(f).value;
    var drop := SetOf(ServiceCols);
    forall i, c | 0 <= i < |r.frame.rows| && c in ServiceCols
      ensures c !in r.frame.rows[i]
    {
      assert c in drop;
    }
  }

  // ---------------------------------------------------------------- split

  /** The normalised type of a row. */
  function TypeOf(row: Row): string
  {
    NormalizeType(Get(row, "type"))
  }

  /** The three exports and the number of rows in none of them. */
  datatype Exports = Exports(game: Frame, dlc: Frame, multiplayer: Frame, other: int)

  /** The rows of one normalised type, as exported: without the service
      columns and the helper column. */
  function Export(f: Frame, name: string): Frame
  {
    var drop := SetOf(ServiceCols) + {TypeNormCol};
    Frame(Without(f.columns, drop), ProjectAll(Filter(f.rows, row => TypeOf(row) == name), drop))
  }

  /** `split_exports`: fails when there is no type column; otherwise one
      export per recognised type and the count of the remaining rows. */
  function SplitExports(f: Frame): (r: Result<Exports>)
    ensures r.Err? <==> "type" !in f.columns
    ensures r.Ok? ==> r.value.game == Export(f, Game) && r.value.dlc == Export(f, Dlc) && r.value.multiplayer == Export(f, Multiplayer)
  {
    if "type" !in f.columns then Err("missing required column 'type'")
    else
      var g := Export(f, Game);
      var d := Export(f, Dlc);
      var m := Export(f, Multiplayer);
      Ok(Exports(g, d, m, |f.rows| - (|g.rows| + |d.rows| + |m.rows|)))
  }

  /** The rows that fall in no export. */
  function Others(rows: seq<Row>): seq<Row>
  {
    Filter(rows, row => TypeOf(row) !in KnownTypes)
  }

  /** The three exports and the rest partition the rows: the "other" count
      is the number of rows of no recognised type, so never negative. */
  lemma {:induction false} PartitionCount(rows: seq<Row>)
    ensures |Filter(rows, row => TypeOf(row) == Game)| + |Filter(rows, row => TypeOf(row) == Dlc)|
          + |Filter(rows, row => TypeOf(row) == Multiplayer)| + |Others(rows)| == |rows|
    decreases |rows|
  {
    if rows != [] {
      PartitionCount(rows[1..]);
    }
  }

  /** The reported "other" count is exactly the number of rows of no
      recognised type, and so never negative. */
  lemma SplitExportsOther(f: Frame)
    requires SplitExports(f).Ok?
    ensures SplitExports(f).value.other == |Others(f.rows)|
    ensures SplitExports(f).value.other >= 0
  {
    PartitionCount(f.rows);
  }

  /** No row goes to two exports, and each exported row is a row of the
      input of that type, with the service and helper columns removed. */
  lemma SplitExportsSelect(f: Frame, name: string, x: Row)
    ensures x in Filter(f.rows, row => TypeOf(row) == name) <==> x in f.rows && TypeOf(x) == name
    ensures forall c :: c in Export(f, name).columns ==> c !in ServiceCols && c != TypeNormCol
    ensures forall i, c :: 0 <= i < |Export(f, name).rows| && c in ServiceCols ==> c !in Export(f, name).rows[i]
    ensures forall i :: 0 <= i < |Export(f, name).rows| ==> TypeNormCol !in Export(f, name).rows[i]
  {
  }
}
