/** The duration grammar of `parse_hours`: free text such as "43½ Hours",
    "1h 30m", "90 Mins" or "10 Hours - 12 Hours" to a number of hours.

    Hours are kept as whole hundredths of an hour. Every value the grammar
    produces is a multiple of 0.01 hours, because each tier either yields a
    whole number, adds one half, or rounds to two decimal places, so a
    `nat` count of hundredths is exact where the Python floats are not.
    Python's `int(avg) if avg.is_integer() else avg` only changes how the
    number is printed, never its value, and is not modelled.

    The regular expressions are matched by hand. Every `\d+` and `\s*` of
    the patterns is followed by a token that can match neither a digit nor
    a space (`½`, `h`, `m`, or the end), so the greedy run is the only one
    the backtracking matcher can accept, and the functions below take the
    greedy run directly. */
module Duration {
  import opened Wrappers
  import opened Text

  const Half: char := '\U{BD}'
  const NoBreakSpace: char := '\U{A0}'

  // ---------------------------------------------------------------- lexemes

  /** The three dash characters the range form splits on. */
  predicate IsDash(c: char) {
    c == '-' || c == '\U{2013}' || c == '\U{2014}'
  }

  function CountDashes(s: string): nat {
    if s == [] then 0 else (if IsDash(s[0]) then 1 else 0) + CountDashes(s[1..])
  }

  lemma {:induction false} CountDashesAppend(a: string, b: string)
    ensures CountDashes(a + b) == CountDashes(a) + CountDashes(b)
    decreases |a|
  {
    if a != [] {
      assert (a + b)[1..] == a[1..] + b;
      CountDashesAppend(a[1..], b);
    } else {
      assert a + b == b;
    }
  }

  lemma {:induction false} CountDashesDigits(s: string)
    requires AllDigits(s)
    ensures CountDashes(s) == 0
    decreases |s|
  {
    if s != [] {
      CountDashesDigits(s[1..]);
    }
  }

  /** Position of the only dash of a text with exactly one, and the two
      dash-free sides around it. */
  function FirstDash(s: string): (k: nat)
    requires CountDashes(s) > 0
    ensures k < |s| && IsDash(s[k])
    ensures CountDashes(s[..k]) == 0
    ensures CountDashes(s[k + 1..]) == CountDashes(s) - 1
  {
    if IsDash(s[0]) then
      assert s[1..] == s[0 + 1..];
      0
    else
      var k := 1 + FirstDash(s[1..]);
      assert s[1..][..k - 1] == s[1..k];
      assert s[..k] == [s[0]] + s[1..k];
      CountDashesAppend([s[0]], s[1..k]);
      assert s[1..][k - 1 + 1..] == s[k + 1..];
      k
  }

  /** The regex `\b` right after a letter: the end of the text or a
      character outside `\w`. */
  predicate Boundary(t: string) {
    t == [] || !IsWordChar(t[0])
  }

  /** `h(?:our)?s?\b` at the start of `t`: one of "h", "hs", "hour",
      "hours" followed by a word boundary. */
  predicate HourWord(t: string) {
    && t != [] && t[0] == 'h'
    && (|| Boundary(t[1..])
        || (|t| >= 2 && t[1] == 's' && Boundary(t[2..]))
        || (|t| >= 4 && t[1] == 'o' && t[2] == 'u' && t[3] == 'r'
            && (|| Boundary(t[4..])
                || (|t| >= 5 && t[4] == 's' && Boundary(t[5..])))))
  }

  /** `(mins?|minutes?)\b` at the start of `t`. */
  predicate MinuteWord(t: string) {
    && |t| >= 3 && t[0] == 'm' && t[1] == 'i' && t[2] == 'n'
    && (|| Boundary(t[3..])
        || (|t| >= 4 && t[3] == 's' && Boundary(t[4..]))
        || (|t| >= 6 && t[3] == 'u' && t[4] == 't' && t[5] == 'e'
            && (|| Boundary(t[6..])
                || (|t| >= 7 && t[6] == 's' && Boundary(t[7..])))))
  }

  /** `^(\d+)\s*`: the leading number and what follows the spaces after it. */
  datatype Lead = Lead(value: nat, rest: string)

  function LeadingNumber(s: string): (r: Option<Lead>)
    ensures r.Some? <==> s != [] && IsDigit(s[0])
  {
    var d := DigitRun(s);
    if d == 0 then None else Some(Lead(DigitsValue(s[..d]), StripLeft(s[d..])))
  }

  /** The text as the grammar sees it: no-break spaces turned into blanks,
      stripped and lower-cased. */
  function Normalise(text: string): (raw: string)
    ensures |raw| <= |text|
  {
    Lower(Strip(ReplaceChar(text, NoBreakSpace, ' ')))
  }

  // ---------------------------------------------------------------- arithmetic

  /** `round(m / 60, 2)` in hundredths: the nearest whole number to
      5m/3 (see `RoundMinutesNearest`). */
  function RoundMinutes(m: nat): nat {
    (10 * m + 3) / 6
  }

  /** 5m/3 is never halfway between two integers, so `round` needs no tie
      rule here, and the result is within a third of a hundredth of the
      exact m/60 hours. */
  lemma RoundMinutesNearest(m: nat)
    ensures -2 <= 6 * RoundMinutes(m) - 10 * m <= 2
  {
    var x := 10 * m + 3;
    var q, rem := x / 6, x % 6;
    assert x == 6 * q + rem && 0 <= rem < 6;
    assert rem != 0 by {
      assert x == 2 * (5 * m + 1) + 1;
    }
  }

  /** `round((a + b) / 2, 2)` in hundredths. The exact mean is kept when
      `a + b` is even; when it is odd the Python result depends on the
      binary rounding of the float and this model takes the lower value. */
  function RangeAverage(a: nat, b: nat): (r: nat)
    ensures -1 <= 2 * r - (a + b) <= 1
    ensures (a + b) % 2 == 0 ==> 2 * r == a + b
  {
    (a + b) / 2
  }

  // ---------------------------------------------------------------- tiers

  /** The part of a numbered tier after its leading `(\d+)\s*`: the
      number `n` has been read and `t` is what follows its spaces. */

  /** `½\s*h(?:our)?s?\b`: "N½ hours" is N + 0.5. */
  function HalfHoursAfter(n: nat, t: string): Option<nat> {
    if t != [] && t[0] == Half && HourWord(StripLeft(t[1..])) then Some(100 * n + 50) else None
  }

  /** `h\s*(\d+)\s*m\b`: "Hh Mm" is H + M/60 to two decimals. */
  function HoursMinutesAfter(h: nat, t: string): Option<nat> {
    if t == [] || t[0] != 'h' then None
    else MinutesPart(h, StripLeft(t[1..]))
  }

  /** `(\d+)\s*m\b` after the "h" of "Hh Mm" and its spaces. */
  function MinutesPart(h: nat, u: string): Option<nat> {
    if u == [] || !IsDigit(u[0]) then None
    else
      var l := LeadingNumber(u).value;
      if l.rest != [] && l.rest[0] == 'm' && Boundary(l.rest[1..]) then Some(100 * h + RoundMinutes(l.value)) else None
  }

  /** `h\b`: "Nh" is N. */
  function ShortHoursAfter(n: nat, t: string): Option<nat> {
    if t != [] && t[0] == 'h' && Boundary(t[1..]) then Some(100 * n) else None
  }

  /** `m\b`: "Nm" is N/60 to two decimals. */
  function ShortMinutesAfter(n: nat, t: string): Option<nat> {
    if t != [] && t[0] == 'm' && Boundary(t[1..]) then Some(RoundMinutes(n)) else None
  }

  /** `(mins?|minutes?)\b`: "N mins" is N/60 to two decimals. */
  function MinutesAfter(n: nat, t: string): Option<nat> {
    if MinuteWord(t) then Some(RoundMinutes(n)) else None
  }

  /** `h(?:our)?s?\b`: "N hours" is N. */
  function HoursAfter(n: nat, t: string): Option<nat> {
    if HourWord(t) then Some(100 * n) else None
  }

  /** `^½\s*h(?:our)?s?\b`: "½ hour" is 0.5. */
  function BareHalfTier(raw: string): Option<nat> {
    if raw != [] && raw[0] == Half && HourWord(StripLeft(raw[1..])) then Some(50) else None
  }

  /** `^(\d+)\s*½\s*h(?:our)?s?\b` and the other numbered tiers applied
      to a whole text. */
  function HalfHoursTier(raw: string): Option<nat> {
    var l := LeadingNumber(raw); if l.None? then None else HalfHoursAfter(l.value.value, l.value.rest)
  }

  function HoursMinutesTier(raw: string): Option<nat> {
    var l := LeadingNumber(raw); if l.None? then None else HoursMinutesAfter(l.value.value, l.value.rest)
  }

  function ShortHoursTier(raw: string): Option<nat> {
    var l := LeadingNumber(raw); if l.None? then None else ShortHoursAfter(l.value.value, l.value.rest)
  }

  function ShortMinutesTier(raw: string): Option<nat> {
    var l := LeadingNumber(raw); if l.None? then None else ShortMinutesAfter(l.value.value, l.value.rest)
  }

  function MinutesTier(raw: string): Option<nat> {
    var l := LeadingNumber(raw); if l.None? then None else MinutesAfter(l.value.value, l.value.rest)
  }

  function HoursTier(raw: string): Option<nat> {
    var l := LeadingNumber(raw); if l.None? then None else HoursAfter(l.value.value, l.value.rest)
  }

  /** The single-value tiers, tried in the order the source tries them. */
  function SingleValue(raw: string): Option<nat> {
    if HalfHoursTier(raw).Some? then HalfHoursTier(raw)
    else if BareHalfTier(raw).Some? then BareHalfTier(raw)
    else if HoursMinutesTier(raw).Some? then HoursMinutesTier(raw)
    else if ShortHoursTier(raw).Some? then ShortHoursTier(raw)
    else if ShortMinutesTier(raw).Some? then ShortMinutesTier(raw)
    else if MinutesTier(raw).Some? then MinutesTier(raw)
    else HoursTier(raw)
  }

  /** The numbered tiers in source order, once the leading number is read. */
  function NumberTiers(n: nat, t: string): Option<nat> {
    if HalfHoursAfter(n, t).Some? then HalfHoursAfter(n, t)
    else if HoursMinutesAfter(n, t).Some? then HoursMinutesAfter(n, t)
    else if ShortHoursAfter(n, t).Some? then ShortHoursAfter(n, t)
    else if ShortMinutesAfter(n, t).Some? then ShortMinutesAfter(n, t)
    else if MinutesAfter(n, t).Some? then MinutesAfter(n, t)
    else HoursAfter(n, t)
  }

  /** The bare-half tier and the numbered tiers never compete: a text
      starts with a digit or with "½", not both. So the single value is
      the numbered tiers' answer when the text starts with a number, and
      the bare-half answer otherwise. */
  lemma SingleValueByLead(raw: string)
    ensures SingleValue(raw) ==
      match LeadingNumber(raw)
      case None => BareHalfTier(raw)
      case Some(Lead(n, t)) => NumberTiers(n, t)
  {
    if LeadingNumber(raw).Some? {
      SingleValueNumbered(raw, LeadingNumber(raw).value);
    } else {
      SingleValueBare(raw);
    }
  }

  lemma SingleValueNumbered(raw: string, l: Lead)
    requires LeadingNumber(raw) == Some(l)
    ensures SingleValue(raw) == NumberTiers(l.value, l.rest)
  {
    assert raw[0] != Half;
    assert BareHalfTier(raw) == None;
    assert HalfHoursTier(raw) == HalfHoursAfter(l.value, l.rest);
    assert HoursMinutesTier(raw) == HoursMinutesAfter(l.value, l.rest);
    assert ShortHoursTier(raw) == ShortHoursAfter(l.value, l.rest);
    assert ShortMinutesTier(raw) == ShortMinutesAfter(l.value, l.rest);
    assert MinutesTier(raw) == MinutesAfter(l.value, l.rest);
    assert HoursTier(raw) == HoursAfter(l.value, l.rest);
  }

  lemma SingleValueBare(raw: string)
    requires LeadingNumber(raw).None?
    ensures SingleValue(raw) == BareHalfTier(raw)
  {
    assert HalfHoursTier(raw).None? && HoursMinutesTier(raw).None? && ShortHoursTier(raw).None?;
    assert ShortMinutesTier(raw).None? && MinutesTier(raw).None? && HoursTier(raw).None?;
  }

  // ---------------------------------------------------------------- parse_hours

  /** `parse_hours(text)` in hundredths of an hour; `None` is "no value".
      The empty text has no value; any other text is normalised first. */
  function ParseHours(text: string): (r: Option<int>)
    ensures r.Some? ==> r.value >= 0
    ensures text == [] ==> r == None
    decreases |text|, 1
  {
    if text == [] then None else ParseNormalised(Normalise(text))
  }

  /** `parse_hours` after normalising: "--" and "-" have no value; a text
      with exactly one dash whose two sides both parse is the average of
      the sides; every other text goes to the single-value tiers, so a
      range whose left side has no unit is not a range. */
  function ParseNormalised(raw: string): (r: Option<int>)
    ensures r.Some? ==> r.value >= 0
    decreases |raw|, 0
  {
    if raw == "--" || raw == "-" then None
    else if CountDashes(raw) == 1 then
      var k := FirstDash(raw);
      var a := ParseHours(raw[..k]);
      var b := ParseHours(raw[k + 1..]);
      if a.Some? && b.Some? then Some(RangeAverage(a.value, b.value))
      else SingleValue(raw)
    else SingleValue(raw)
  }

  // ---------------------------------------------------------------- lemmas

  /** "--", "-" and the empty text have no value. */
  lemma ParseNormalisedMissing(raw: string)
    requires raw == [] || raw == "-" || raw == "--"
    ensures ParseNormalised(raw) == None
  {
    if raw == [] {
      assert SingleValue(raw) == None;
    }
  }

  /** Texts that are blank, "--" or "-" once stripped have no value. */
  lemma ParseHoursMissing(text: string)
    requires Strip(text) == [] || Strip(text) == "-" || Strip(text) == "--"
    ensures ParseHours(text) == None
  {
    if text != [] {
      NormaliseStrip(text);
      NormaliseDashes(Strip(text));
      ParseNormalisedMissing(Normalise(text));
    }
  }

  lemma NormaliseDashes(s: string)
    requires s == [] || s == "-" || s == "--"
    ensures Normalise(s) == s
  {
    assert forall i :: 0 <= i < |s| ==> s[i] == '-';
    assert NoBreakSpace !in s;
    NormaliseTrimmed(s);
    assert Lower(s) == s;
  }

  /** The grammar's view of a trimmed text without no-break spaces is just
      its lower-case form. */
  lemma NormaliseTrimmed(text: string)
    requires text == [] || (!IsSpace(text[0]) && !IsSpace(text[|text| - 1]))
    requires NoBreakSpace !in text
    ensures Normalise(text) == Lower(text)
  {
    ReplaceAbsent(text, NoBreakSpace, ' ');
    StripTrimmed(text);
  }

  lemma NormaliseLower(text: string)
    ensures Normalise(Lower(text)) == Normalise(text)
  {
    var r := ReplaceChar(text, NoBreakSpace, ' ');
    ReplaceLower(text, NoBreakSpace, ' ');
    LowerStrip(r);
    LowerIdempotent(Strip(r));
  }

  lemma NormaliseStrip(text: string)
    ensures Normalise(Strip(text)) == Normalise(text)
  {
    var r := ReplaceChar(text, NoBreakSpace, ' ');
    ReplaceStrip(text, NoBreakSpace, ' ');
    StripIdempotent(r);
  }

  /** Case and surrounding white space (no-break spaces included) never
      change the value of a duration. */
  lemma ParseHoursInsensitive(text: string)
    ensures ParseHours(Lower(text)) == ParseHours(text)
    ensures ParseHours(Strip(text)) == ParseHours(text)
  {
    if text != [] {
      NormaliseLower(text);
      assert ParseHours(Lower(text)) == ParseNormalised(Normalise(Lower(text)));
      NormaliseStrip(text);
      if Strip(text) == [] {
        NormaliseEmpty();
        ParseNormalisedEmpty();
      } else {
        assert ParseHours(Strip(text)) == ParseNormalised(Normalise(Strip(text)));
      }
    }
  }

  lemma NormaliseEmpty()
    ensures Normalise([]) == []
  {
  }

  lemma ParseNormalisedEmpty()
    ensures ParseNormalised([]) == None
  {
    assert SingleValue([]) == None;
  }

  /** A text with no dash after normalising goes straight to the
      single-value tiers. */
  lemma DashFree(text: string)
    requires text != [] && CountDashes(Normalise(text)) == 0
    ensures ParseHours(text) == SingleValue(Normalise(text))
  {
    assert CountDashes("--") == 2 && CountDashes("-") == 1;
  }

  /** A number written out in decimal, then a non-digit: the number is read
      back and the spaces after it are skipped. */
  lemma LeadingNumberOf(n: nat, t: string)
    requires t == [] || !IsDigit(t[0])
    ensures LeadingNumber(NatToString(n) + t) == Some(Lead(n, StripLeft(t)))
  {
    var ds := NatToString(n);
    DigitRunPrefix(ds, t);
    assert (ds + t)[..|ds|] == ds;
    assert (ds + t)[|ds|..] == t;
  }

  /** `str(n) + suffix` for a dash-free unit suffix normalises to
      `str(n)` followed by the lower-case suffix. */
  lemma NumberWithSuffix(n: nat, suffix: string, lowered: string)
    requires suffix != [] && !IsSpace(suffix[|suffix| - 1])
    requires NoBreakSpace !in suffix
    requires Lower(suffix) == lowered && CountDashes(lowered) == 0
    ensures Normalise(NatToString(n) + suffix) == NatToString(n) + lowered
    ensures ParseHours(NatToString(n) + suffix) == SingleValue(NatToString(n) + lowered)
  {
    var ds := NatToString(n);
    var text := ds + suffix;
    assert NoBreakSpace !in ds by {
      assert !IsDigit(NoBreakSpace);
    }
    assert text[0] == ds[0];
    NormaliseTrimmed(text);
    LowerAppend(ds, suffix);
    LowerDigits(ds);
    CountDashesAppend(ds, lowered);
    CountDashesDigits(ds);
    DashFree(text);
  }

  /** `str(n)` then a unit suffix: the value is what the numbered tiers
      make of the suffix once it is lower-cased and its leading spaces
      are skipped. */
  lemma NumberedText(n: nat, suffix: string, lowered: string, rest: string)
    requires UnitText(suffix, lowered, rest)
    ensures ParseHours(NatToString(n) + suffix) == NumberTiers(n, rest)
  {
    var ds := NatToString(n);
    NumberWithSuffix(n, suffix, lowered);
    SingleValueByLead(ds + lowered);
    LeadingNumberOf(n, lowered);
  }


  // The unit words after a number, one tier each. They are stated on the
  // letters of the word so that they hold for every text spelling it.

  /** "hours" after a number: N hours, by the last tier. */
  lemma TiersHours(n: nat, t: string)
    requires |t| == 5 && t[0] == 'h' && t[1] == 'o' && t[2] == 'u' && t[3] == 'r' && t[4] == 's'
    ensures NumberTiers(n, t) == Some(100 * n)
  {
    HourLetterTiers(n, t);
    assert HourWord(t);
  }

  /** After a number, an "h" followed by a letter other than "s" is read by
      the last tier only. */
  lemma HourLetterTiers(n: nat, t: string)
    requires |t| >= 2 && t[0] == 'h' && 'a' <= t[1] <= 'z' && t[1] != 's'
    ensures NumberTiers(n, t) == HoursAfter(n, t)
  {
    var u := t[1..];
    assert u[0] == t[1] && !IsSpace(u[0]) && !IsDigit(u[0]);
    assert StripLeft(u) == u;
    assert MinutesPart(n, StripLeft(u)) == None;
    assert HoursMinutesAfter(n, t) == None;
    assert IsWordChar(u[0]);
    assert ShortHoursAfter(n, t) == None;
    assert !MinuteWord(t);
  }

  /** "mins" after a number: N/60 hours, by the minutes tier. */
  lemma TiersMins(n: nat, t: string)
    requires |t| == 4 && t[0] == 'm' && t[1] == 'i' && t[2] == 'n' && t[3] == 's'
    ensures NumberTiers(n, t) == Some(RoundMinutes(n))
  {
    assert MinuteWord(t);
  }

  /** A lone "h" after a number: N hours, by the short-hours tier. */
  lemma TiersShortHours(n: nat, t: string)
    requires t == ['h']
    ensures NumberTiers(n, t) == Some(100 * n)
  {
    assert StripLeft(t[1..]) == [];
  }

  /** "½ hours" after a number: N and a half hours, by the first tier. */
  lemma TiersHalfHours(n: nat, t: string)
    requires |t| == 7 && t[0] == Half && t[1] == ' '
    requires t[2] == 'h' && t[3] == 'o' && t[4] == 'u' && t[5] == 'r' && t[6] == 's'
    ensures NumberTiers(n, t) == Some(100 * n + 50)
  {
    var w := t[2..];
    assert t[1..] == [' '] + w;
    StripLeftSpaces([' '], w);
    assert HourWord(w);
  }

  /** "h M m" after a number: H hours and M minutes. */
  lemma TiersHoursMinutes(h: nat, m: nat, t: string)
    requires t == ['h', ' '] + NatToString(m) + ['m']
    ensures NumberTiers(h, t) == Some(100 * h + RoundMinutes(m))
  {
    HoursMinutesAfterOf(h, m, t);
    assert t[0] == 'h';
    assert HalfHoursAfter(h, t) == None;
  }

  lemma HoursMinutesAfterOf(h: nat, m: nat, t: string)
    requires t == ['h', ' '] + NatToString(m) + ['m']
    ensures HoursMinutesAfter(h, t) == Some(100 * h + RoundMinutes(m))
  {
    var u := NatToString(m) + ['m'];
    HoursMinutesRest(m, t, u);
    MinutesNumber(m, u);
    MinutesPartOf(h, m, u);
  }

  lemma HoursMinutesRest(m: nat, t: string, u: string)
    requires t == ['h', ' '] + NatToString(m) + ['m'] && u == NatToString(m) + ['m']
    ensures t != [] && t[0] == 'h' && StripLeft(t[1..]) == u
  {
    var ds := NatToString(m);
    assert u[0] == ds[0] && IsDigit(ds[0]);
    assert t == ['h'] + ([' '] + u);
    assert t[1..] == [' '] + u;
    StripLeftSpaces([' '], u);
  }

  lemma MinutesPartOf(h: nat, m: nat, u: string)
    requires LeadingNumber(u) == Some(Lead(m, ['m']))
    ensures MinutesPart(h, u) == Some(100 * h + RoundMinutes(m))
  {
  }

  lemma MinutesNumber(m: nat, u: string)
    requires u == NatToString(m) + ['m']
    ensures LeadingNumber(u) == Some(Lead(m, ['m']))
  {
    LeadingNumberOf(m, ['m']);
    StripLeftM();
  }

  lemma StripLeftM()
    ensures StripLeft(['m']) == ['m']
  {
  }

  /** After a number, only "½", "h" or "m" can start a unit: anything
      else (the end of the text, a dash, a letter) leaves no value. */
  lemma TiersNeedUnit(n: nat, t: string)
    requires t == [] || (t[0] != Half && t[0] != 'h' && t[0] != 'm')
    ensures NumberTiers(n, t) == None
  {
  }

  // Whole texts.

  /** "N Hours" is N hours. */
  lemma HoursRoundTrip(n: nat)
    ensures ParseHours(NatToString(n) + " Hours") == Some(100 * n)
  {
    HoursUnit();
    NumberedText(n, " Hours", " hours", "hours");
    TiersHours(n, "hours");
  }

  /** "N hours", already lower-case, is N hours too. */
  lemma LowerHoursRoundTrip(n: nat)
    ensures ParseHours(NatToString(n) + " hours") == Some(100 * n)
  {
    LowerHoursUnit();
    NumberedText(n, " hours", " hours", "hours");
    TiersHours(n, "hours");
  }

  /** What the round trips need of a unit text: it ends in a non-space,
      has no no-break space, lower-cases to `lowered`, which has no dash,
      does not start with a digit and starts `rest` after its spaces. */
  predicate UnitText(suffix: string, lowered: string, rest: string) {
    && suffix != [] && !IsSpace(suffix[|suffix| - 1]) && NoBreakSpace !in suffix
    && Lower(suffix) == lowered && CountDashes(lowered) == 0
    && lowered != [] && !IsDigit(lowered[0]) && StripLeft(lowered) == rest
  }

  // The unit texts of the round trips. Each fact is proved on its own:
  // put together in one proof, the literal texts cost the solver far more.

  lemma UnitsLower()
    ensures Lower(" Hours") == " hours" && Lower(" hours") == " hours" && Lower("h") == "h"
    ensures Lower("½ Hours") == "½ hours" && Lower(" Mins") == " mins"
  {
  }

  lemma UnitsNoDash()
    ensures CountDashes(" hours") == 0 && CountDashes("h") == 0
    ensures CountDashes("½ hours") == 0 && CountDashes(" mins") == 0
  {
  }

  lemma UnitsStrip()
    ensures StripLeft(" hours") == "hours" && StripLeft(" mins") == "mins"
    ensures StripLeft("h") == "h" && StripLeft("½ hours") == "½ hours"
  {
    SkipOneSpace("hours");
    SkipOneSpace("mins");
  }

  lemma UnitsEnds()
    ensures NoBreakSpace !in " Hours" && NoBreakSpace !in " hours" && NoBreakSpace !in "h"
    ensures NoBreakSpace !in "½ Hours" && NoBreakSpace !in " Mins"
  {
  }

  lemma HoursUnit()
    ensures UnitText(" Hours", " hours", "hours")
  {
    UnitsLower();
    UnitsNoDash();
    UnitsStrip();
    UnitsEnds();
  }

  lemma LowerHoursUnit()
    ensures UnitText(" hours", " hours", "hours")
  {
    UnitsLower();
    UnitsNoDash();
    UnitsStrip();
    UnitsEnds();
  }

  lemma ShortHoursUnit()
    ensures UnitText("h", "h", "h")
  {
    UnitsLower();
    UnitsNoDash();
    UnitsStrip();
    UnitsEnds();
  }

  lemma HalfHoursUnit()
    ensures UnitText("½ Hours", "½ hours", "½ hours")
  {
    UnitsLower();
    UnitsNoDash();
    UnitsStrip();
    UnitsEnds();
  }

  lemma MinsUnit()
    ensures UnitText(" Mins", " mins", "mins")
  {
    UnitsLower();
    UnitsNoDash();
    UnitsStrip();
    UnitsEnds();
  }

  lemma SkipOneSpace(t: string)
    requires t != [] && !IsSpace(t[0])
    ensures StripLeft(" " + t) == t
  {
    StripLeftSpaces(" ", t);
  }

  /** "Nh" is N hours. */
  lemma ShortHoursRoundTrip(n: nat)
    ensures ParseHours(NatToString(n) + "h") == Some(100 * n)
  {
    ShortHoursUnit();
    NumberedText(n, "h", "h", "h");
    TiersShortHours(n, "h");
  }

  /** "N½ Hours" is N and a half hours. */
  lemma HalfHoursRoundTrip(n: nat)
    ensures ParseHours(NatToString(n) + "½ Hours") == Some(100 * n + 50)
  {
    HalfHoursUnit();
    NumberedText(n, "½ Hours", "½ hours", "½ hours");
    TiersHalfHours(n, "½ hours");
  }

  /** "N Mins" is N/60 hours to two decimals. */
  lemma MinutesRoundTrip(n: nat)
    ensures ParseHours(NatToString(n) + " Mins") == Some(RoundMinutes(n))
  {
    MinsUnit();
    NumberedText(n, " Mins", " mins", "mins");
    TiersMins(n, "mins");
  }

  lemma ShortMinutesUnit()
    ensures UnitText("m", "m", "m")
  {
    ShortMinutesLower();
    ShortMinutesNoDash();
    ShortMinutesStrip();
  }

  lemma ShortMinutesLower()
    ensures Lower("m") == "m" && NoBreakSpace !in "m"
  {
  }

  lemma ShortMinutesNoDash()
    ensures CountDashes("m") == 0
  {
  }

  lemma ShortMinutesStrip()
    ensures StripLeft("m") == "m"
  {
  }

  lemma MinutesWordUnit()
    ensures UnitText(" Minutes", " minutes", "minutes")
  {
    MinutesWordLower();
    MinutesWordNoDash();
    SkipOneSpace("minutes");
  }

  lemma MinutesWordNoDash()
    ensures CountDashes(" minutes") == 0 && NoBreakSpace !in " Minutes"
  {
    NoDashes(" minutes");
  }

  lemma MinutesWordLower()
    ensures Lower(" Minutes") == " minutes"
  {
    assert forall i :: 0 <= i < 8 ==> Lower(" Minutes")[i] == " minutes"[i];
  }

  /** A lone "m" after a number: N/60 hours, by the short-minutes tier. */
  lemma TiersShortMinutes(n: nat, t: string)
    requires t == ['m']
    ensures NumberTiers(n, t) == Some(RoundMinutes(n))
  {
    assert t[1..] == [];
  }

  /** "minutes" after a number: N/60 hours, by the minutes tier. */
  lemma TiersMinutes(n: nat, t: string)
    requires |t| == 7 && t[0] == 'm' && t[1] == 'i' && t[2] == 'n' && t[3] == 'u'
    requires t[4] == 't' && t[5] == 'e' && t[6] == 's'
    ensures NumberTiers(n, t) == Some(RoundMinutes(n))
  {
    assert t[7..] == [];
    assert MinuteWord(t);
  }

  /** "Nm" is N/60 hours to two decimals. */
  lemma ShortMinutesRoundTrip(n: nat)
    ensures ParseHours(NatToString(n) + "m") == Some(RoundMinutes(n))
  {
    ShortMinutesUnit();
    NumberedText(n, "m", "m", "m");
    TiersShortMinutes(n, "m");
  }

  /** "N Minutes" is N/60 hours to two decimals. */
  lemma MinutesWordRoundTrip(n: nat)
    ensures ParseHours(NatToString(n) + " Minutes") == Some(RoundMinutes(n))
  {
    MinutesWordUnit();
    NumberedText(n, " Minutes", " minutes", "minutes");
    TiersMinutes(n, "minutes");
  }

  /** "Hh Mm" is H + M/60 hours to two decimals. */
  lemma HoursMinutesRoundTrip(h: nat, m: nat)
    ensures ParseHours(NatToString(h) + "h " + NatToString(m) + "m") == Some(100 * h + RoundMinutes(m))
  {
    HoursMinutesAssoc(NatToString(h), NatToString(m));
    HoursMinutesText(h, m, "h " + NatToString(m) + "m");
  }

  lemma HoursMinutesAssoc(dh: string, dm: string)
    ensures dh + "h " + dm + "m" == dh + ("h " + dm + "m")
  {
  }

  lemma HoursMinutesText(h: nat, m: nat, suffix: string)
    requires suffix == "h " + NatToString(m) + "m"
    ensures ParseHours(NatToString(h) + suffix) == Some(100 * h + RoundMinutes(m))
  {
    HoursMinutesSuffix(m, suffix);
    NumberedText(h, suffix, suffix, suffix);
    TiersHoursMinutes(h, m, suffix);
  }

  /** "h M m" is already in the grammar's form and has no dash. */
  lemma HoursMinutesSuffix(m: nat, suffix: string)
    requires suffix == "h " + NatToString(m) + "m"
    ensures NoBreakSpace !in suffix && Lower(suffix) == suffix && CountDashes(suffix) == 0
    ensures StripLeft(suffix) == suffix
  {
    HoursMinutesChars(m, suffix);
    LowerNoCapitals(suffix);
    NoDashes(suffix);
  }

  lemma HoursMinutesChars(m: nat, suffix: string)
    requires suffix == "h " + NatToString(m) + "m"
    ensures forall i :: 0 <= i < |suffix| ==> suffix[i] == 'h' || suffix[i] == ' ' || IsDigit(suffix[i]) || suffix[i] == 'm'
    ensures suffix[0] == 'h'
  {
    var ds := NatToString(m);
    assert forall i :: 2 <= i < 2 + |ds| ==> suffix[i] == ds[i - 2];
  }

  lemma {:induction false} NoDashes(s: string)
    requires forall i :: 0 <= i < |s| ==> !IsDash(s[i])
    ensures CountDashes(s) == 0
    decreases |s|
  {
    if s != [] {
      NoDashes(s[1..]);
    }
  }

  // Ranges.

  /** A text made of a left side, one dash (any of the three) and a right
      side, neither side holding a dash: the dash found is the one between
      the sides. */
  lemma DashBetween(raw: string, left: string, d: char, right: string)
    requires raw == left + [d] + right && IsDash(d)
    requires CountDashes(left) == 0 && CountDashes(right) == 0
    ensures CountDashes(raw) == 1 && FirstDash(raw) == |left|
    ensures raw[..FirstDash(raw)] == left && raw[FirstDash(raw) + 1..] == right
  {
    CountDashesAppend(left + [d], right);
    CountDashesAppend(left, [d]);
    assert CountDashes([d]) == 1 + CountDashes([d][1..]);
    assert raw[..|left|] == left;
    FirstDashAt(raw, |left|);
    assert raw[|left| + 1..] == right;
  }

  /** The first dash of a text is the dash with none before it. */
  lemma {:induction false} FirstDashAt(s: string, k: nat)
    requires k < |s| && IsDash(s[k]) && CountDashes(s[..k]) == 0
    ensures CountDashes(s) > 0
    ensures FirstDash(s) == k
    decreases k
  {
    if k > 0 {
      assert s[..k] == [s[0]] + s[1..k];
      CountDashesAppend([s[0]], s[1..k]);
      assert s[1..][..k - 1] == s[1..k];
      FirstDashAt(s[1..], k - 1);
    }
  }

  /** A range whose two sides both have a value is worth their mean,
      whichever of the three dashes separates them. */
  lemma RangeMean(raw: string, left: string, d: char, right: string, x: nat, y: nat)
    requires raw == left + [d] + right && IsDash(d)
    requires CountDashes(left) == 0 && CountDashes(right) == 0
    requires ParseHours(left) == Some(x) && ParseHours(right) == Some(y)
    ensures ParseNormalised(raw) == Some(RangeAverage(x, y))
  {
    DashBetween(raw, left, d, right);
    assert left != [];
    assert raw != "-" && raw != "--";
  }

  /** A range with a side that has no value is not a range: the whole text
      goes to the single-value tiers. */
  lemma RangeFallback(raw: string, left: string, d: char, right: string)
    requires raw == left + [d] + right && IsDash(d)
    requires CountDashes(left) == 0 && CountDashes(right) == 0
    requires ParseHours(left) == None || ParseHours(right) == None
    ensures ParseNormalised(raw) == SingleValue(raw)
  {
    DashBetween(raw, left, d, right);
  }

  /** Texts that strip to the same text have the same value. */
  lemma ParseHoursStrip(text: string, core: string)
    requires Strip(text) == core
    ensures ParseHours(text) == ParseHours(core)
  {
    ParseHoursInsensitive(text);
  }

  /** A non-empty text is worth what its normal form is worth. */
  lemma ParseHoursVia(text: string, raw: string)
    requires text != [] && Normalise(text) == raw
    ensures ParseHours(text) == ParseNormalised(raw)
  {
  }

  /** "N hours" with spaces around it is N hours. */
  lemma PaddedHours(n: nat, side: string, core: string)
    requires core == NatToString(n) + " hours" && Strip(side) == core
    ensures ParseHours(side) == Some(100 * n)
  {
    ParseHoursStrip(side, core);
    LowerHoursRoundTrip(n);
  }

  /** A number then a unit starts with a digit and ends where the unit
      ends. */
  lemma NumberUnitEnds(n: nat, unit: string, y: string)
    requires unit != [] && !IsSpace(unit[|unit| - 1])
    requires y == NatToString(n) + unit
    ensures y != [] && !IsSpace(y[0]) && !IsSpace(y[|y| - 1])
  {
    assert y[0] == NatToString(n)[0];
    assert y[|y| - 1] == unit[|unit| - 1];
  }

  // The lemmas below that speak of `ParseHours` only chain other lemmas;
  // the facts about how a text is put together are proved apart, in
  // lemmas that do not mention the parser.

  /** The left side of "A hours - B hours": A hours, and no dash. */
  lemma LeftSide(a: nat, core: string, left: string)
    requires core == NatToString(a) + " hours" && left == core + " "
    ensures ParseHours(left) == Some(100 * a) && CountDashes(left) == 0
  {
    LeftShape(a, core, left);
    PaddedHours(a, left, core);
  }

  lemma LeftShape(a: nat, core: string, left: string)
    requires core == NatToString(a) + " hours" && left == core + " "
    ensures Strip(left) == core && CountDashes(left) == 0
  {
    NumberUnitEnds(a, " hours", core);
    StripTrailing(core, left);
    NoDashes(left);
  }

  /** The right side of "A hours - B hours": B hours, and no dash. */
  lemma RightSide(b: nat, core: string, right: string)
    requires core == NatToString(b) + " hours" && right == " " + core
    ensures ParseHours(right) == Some(100 * b) && CountDashes(right) == 0
  {
    RightShape(b, core, right);
    PaddedHours(b, right, core);
  }

  lemma RightShape(b: nat, core: string, right: string)
    requires core == NatToString(b) + " hours" && right == " " + core
    ensures Strip(right) == core && CountDashes(right) == 0
  {
    NumberUnitEnds(b, " hours", core);
    StripLeading(core, right);
    NoDashes(right);
  }

  /** A bare number, with a space after it, has no unit and no value. */
  lemma BareNumber(n: nat, side: string)
    requires side == NatToString(n) + " "
    ensures ParseHours(side) == None && CountDashes(side) == 0
  {
    BareShape(n, side);
    ParseHoursStrip(side, NatToString(n));
    NumberAlone(n, NatToString(n));
  }

  lemma BareShape(n: nat, side: string)
    requires side == NatToString(n) + " "
    ensures Strip(side) == NatToString(n) && CountDashes(side) == 0
  {
    var dn := NatToString(n);
    DigitsSpaceStrip(dn, side);
    DigitsSpaceNoDash(dn, side);
  }

  lemma DigitsSpaceStrip(dn: string, side: string)
    requires dn != [] && AllDigits(dn) && side == dn + " "
    ensures Strip(side) == dn
  {
    assert IsDigit(dn[0]) && IsDigit(dn[|dn| - 1]);
    StripTrailing(dn, side);
  }

  lemma DigitsSpaceNoDash(dn: string, side: string)
    requires AllDigits(dn) && side == dn + " "
    ensures CountDashes(side) == 0
  {
    forall i | 0 <= i < |side|
      ensures !IsDash(side[i])
    {
      if i < |dn| {
        assert side[i] == dn[i] && IsDigit(dn[i]);
      }
    }
    NoDashes(side);
  }

  /** A number with nothing after it has no value. */
  lemma NumberAlone(n: nat, dn: string)
    requires dn == NatToString(n)
    ensures ParseHours(dn) == None
  {
    NumberShape(n, dn);
    DashFree(dn);
    NumberAloneTiers(n, dn);
  }

  lemma NumberShape(n: nat, dn: string)
    requires dn == NatToString(n)
    ensures dn != [] && Normalise(dn) == dn && CountDashes(Normalise(dn)) == 0
  {
    assert NoBreakSpace !in dn by {
      assert !IsDigit(NoBreakSpace);
    }
    NormaliseTrimmed(dn);
    LowerDigits(dn);
    CountDashesDigits(dn);
  }

  lemma NumberAloneTiers(n: nat, dn: string)
    requires dn == NatToString(n)
    ensures SingleValue(dn) == None
  {
    NumberLead(n, dn, []);
    SingleValueByLead(dn);
    TiersNeedUnit(n, []);
  }

  /** A number, spaces, then a text not starting with a digit or space:
      the number is read and the text is what follows it. */
  lemma NumberLead(n: nat, raw: string, t: string)
    requires t == [] || (!IsDigit(t[0]) && !IsSpace(t[0]))
    requires raw == NatToString(n) + t
    ensures LeadingNumber(raw) == Some(Lead(n, t))
  {
    LeadingNumberOf(n, t);
    assert StripLeft(t) == t;
  }

  /** A text of two numbers with letters, spaces and dashes between and
      after them normalises to its lower-case form. */
  lemma NormaliseNumbers(da: string, mid: string, db: string, unit: string, text: string)
    requires da != [] && AllDigits(da) && AllDigits(db)
    requires text == da + mid + db + unit
    requires PlainChars(mid) && PlainChars(unit)
    requires unit != [] && unit[|unit| - 1] != ' '
    ensures Normalise(text) == da + Lower(mid) + db + Lower(unit)
  {
    PlainText(da, mid, db, unit, text);
    NormaliseTrimmed(text);
    LowerNumbers(da, mid, db, unit, text);
  }

  /** Blanks, dashes and ASCII letters only. */
  predicate PlainChars(s: string) {
    forall i :: 0 <= i < |s| ==> s[i] == ' ' || s[i] == '-' || 'A' <= s[i] <= 'z'
  }

  lemma PlainText(da: string, mid: string, db: string, unit: string, text: string)
    requires da != [] && AllDigits(da) && AllDigits(db)
    requires text == da + mid + db + unit
    requires PlainChars(mid) && PlainChars(unit)
    requires unit != [] && unit[|unit| - 1] != ' '
    ensures NoBreakSpace !in text && !IsSpace(text[0]) && !IsSpace(text[|text| - 1])
  {
    assert forall i :: 0 <= i < |text| ==> text[i] <= 'z';
    assert text[0] == da[0];
    assert text[|text| - 1] == unit[|unit| - 1];
  }

  lemma LowerNumbers(da: string, mid: string, db: string, unit: string, text: string)
    requires AllDigits(da) && AllDigits(db)
    requires text == da + mid + db + unit
    ensures Lower(text) == da + Lower(mid) + db + Lower(unit)
  {
    assert text == da + (mid + (db + unit));
    LowerAppend(da, mid + (db + unit));
    LowerAppend(mid, db + unit);
    LowerAppend(db, unit);
    LowerDigits(da);
    LowerDigits(db);
  }

  /** "A Hours - B Hours" is the mean of A and B hours. */
  lemma RangeRoundTrip(a: nat, b: nat)
    ensures ParseHours(NatToString(a) + " Hours - " + NatToString(b) + " Hours") == Some(50 * (a + b))
  {
    RangeText(a, b, NatToString(a) + " Hours - " + NatToString(b) + " Hours",
              NatToString(a) + " hours", NatToString(b) + " hours");
  }

  lemma RangeText(a: nat, b: nat, text: string, ca: string, cb: string)
    requires text == NatToString(a) + " Hours - " + NatToString(b) + " Hours"
    requires ca == NatToString(a) + " hours" && cb == NatToString(b) + " hours"
    ensures ParseHours(text) == Some(50 * (a + b))
  {
    RangeNormal(a, b, text, ca, cb);
    AroundDash(ca + " - " + cb, ca, cb);
    LeftSide(a, ca, ca + " ");
    RightSide(b, cb, " " + cb);
    RangeMean(ca + " - " + cb, ca + " ", '-', " " + cb, 100 * a, 100 * b);
    WholeHoursMean(a, b);
    ParseHoursVia(text, ca + " - " + cb);
  }

  lemma RangeNormal(a: nat, b: nat, text: string, ca: string, cb: string)
    requires text == NatToString(a) + " Hours - " + NatToString(b) + " Hours"
    requires ca == NatToString(a) + " hours" && cb == NatToString(b) + " hours"
    ensures text != [] && Normalise(text) == ca + " - " + cb
  {
    RangeLowered(a, b, text);
    RangeLower(a, b, Lower(" Hours - "), Lower(" Hours"), ca, cb);
  }

  lemma RangeLowered(a: nat, b: nat, text: string)
    requires text == NatToString(a) + " Hours - " + NatToString(b) + " Hours"
    ensures Normalise(text) == NatToString(a) + Lower(" Hours - ") + NatToString(b) + Lower(" Hours")
  {
    PlainUnits();
    NormaliseNumbers(NatToString(a), " Hours - ", NatToString(b), " Hours", text);
  }

  /** The letters of the unit texts. */
  lemma PlainUnits()
    ensures PlainChars(" Hours - ") && PlainChars(" - ") && PlainChars(" Hours")
  {
  }

  lemma RangeLower(a: nat, b: nat, mid: string, unit: string, ca: string, cb: string)
    requires mid == Lower(" Hours - ") && unit == Lower(" Hours")
    requires ca == NatToString(a) + " hours" && cb == NatToString(b) + " hours"
    ensures NatToString(a) + mid + NatToString(b) + unit == ca + " - " + cb
  {
    assert mid == " hours - " && unit == " hours";
  }

  /** The mean of two whole numbers of hours is exact. */
  lemma WholeHoursMean(a: nat, b: nat)
    ensures RangeAverage(100 * a, 100 * b) == 50 * (a + b)
  {
    assert 100 * a + 100 * b == 2 * (50 * (a + b));
  }

  /** "x - y" is "x " and " y" around a dash. */
  lemma AroundDash(raw: string, x: string, y: string)
    requires raw == x + " - " + y
    ensures raw == (x + " ") + "-" + (" " + y)
  {
  }

  /** The quirk of the range form: without a unit on its left side,
      "A - B Hours" is not a range, and as a single value it is a bare
      number followed by a dash, which no tier accepts. */
  lemma RangeNeedsUnit(a: nat, b: nat)
    ensures ParseHours(NatToString(a) + " - " + NatToString(b) + " Hours") == None
  {
    UnitlessText(a, b, NatToString(a) + " - " + NatToString(b) + " Hours", NatToString(b) + " hours");
  }

  lemma UnitlessText(a: nat, b: nat, text: string, cb: string)
    requires text == NatToString(a) + " - " + NatToString(b) + " Hours"
    requires cb == NatToString(b) + " hours"
    ensures ParseHours(text) == None
  {
    UnitlessNormal(a, b, text, NatToString(a), cb);
    UnitlessRange(a, b, NatToString(a) + " - " + cb, cb);
    ParseHoursVia(text, NatToString(a) + " - " + cb);
  }

  lemma UnitlessNormal(a: nat, b: nat, text: string, da: string, cb: string)
    requires text == NatToString(a) + " - " + NatToString(b) + " Hours"
    requires da == NatToString(a) && cb == NatToString(b) + " hours"
    ensures text != [] && Normalise(text) == da + " - " + cb
  {
    UnitlessLowered(a, b, text);
    UnitlessLower(da, NatToString(b), Lower(" - "), Lower(" Hours"), cb);
  }

  lemma UnitlessLowered(a: nat, b: nat, text: string)
    requires text == NatToString(a) + " - " + NatToString(b) + " Hours"
    ensures Normalise(text) == NatToString(a) + Lower(" - ") + NatToString(b) + Lower(" Hours")
  {
    PlainUnits();
    NormaliseNumbers(NatToString(a), " - ", NatToString(b), " Hours", text);
  }

  lemma UnitlessLower(da: string, db: string, mid: string, unit: string, cb: string)
    requires mid == Lower(" - ") && unit == Lower(" Hours")
    requires cb == db + " hours"
    ensures da + mid + db + unit == da + " - " + cb
  {
    assert mid == " - " && unit == " hours";
  }

  lemma UnitlessRange(a: nat, b: nat, raw: string, cb: string)
    requires cb == NatToString(b) + " hours"
    requires raw == NatToString(a) + " - " + cb
    ensures ParseNormalised(raw) == None
  {
    AroundDash(raw, NatToString(a), cb);
    BareNumber(a, NatToString(a) + " ");
    RightShape(b, cb, " " + cb);
    UnitlessShape(a, raw, cb);
    RangeFallback(raw, NatToString(a) + " ", '-', " " + cb);
    UnitlessSingle(a, raw, "- " + cb);
  }

  lemma UnitlessShape(a: nat, raw: string, cb: string)
    requires raw == NatToString(a) + " - " + cb
    ensures |raw| > 2 && LeadingNumber(raw) == Some(Lead(a, "- " + cb))
  {
    UnitlessAssoc(a, raw, cb);
    LeadingNumberOf(a, " " + ("- " + cb));
    SkipOneSpace("- " + cb);
  }

  lemma UnitlessAssoc(a: nat, raw: string, cb: string)
    requires raw == NatToString(a) + " - " + cb
    ensures |raw| > 2 && raw == NatToString(a) + (" " + ("- " + cb))
  {
  }

  lemma UnitlessSingle(a: nat, raw: string, t: string)
    requires t != [] && t[0] == '-'
    requires LeadingNumber(raw) == Some(Lead(a, t))
    ensures SingleValue(raw) == None
  {
    SingleValueByLead(raw);
    TiersNeedUnit(a, t);
  }

  /** A text that normalises to "½" and an hour word is half an hour. */
  lemma BareHalfValue(text: string, raw: string)
    requires text != [] && Normalise(text) == raw && CountDashes(raw) == 0
    requires raw != [] && raw[0] == Half && HourWord(StripLeft(raw[1..]))
    ensures ParseHours(text) == Some(50)
  {
    DashFree(text);
    SingleValueByLead(raw);
    assert !IsDigit(Half);
  }

  /** "½ Hour" is half an hour. */
  lemma BareHalfHour(text: string)
    requires text == "½ Hour"
    ensures ParseHours(text) == Some(50)
  {
    BareHalfShape(text, "½ hour");
    BareHalfValue(text, "½ hour");
  }

  /** "½", any run of spaces, then "h", "hs", "hour" or "hours", in any
      case (the text is compared once normalised), is half an hour. */
  lemma BareHalfWords(text: string, sp: string, w: string)
    requires Normalise(text) == [Half] + sp + w
    requires forall i :: 0 <= i < |sp| ==> IsSpace(sp[i])
    requires w in {"h", "hs", "hour", "hours"}
    ensures ParseHours(text) == Some(50)
  {
    BareHalfHourWord(w);
    var raw := [Half] + sp + w;
    BareHalfSpaced(raw, sp, w);
    BareHalfValue(text, raw);
  }

  lemma BareHalfSpaced(raw: string, sp: string, w: string)
    requires raw == [Half] + sp + w
    requires forall i :: 0 <= i < |sp| ==> IsSpace(sp[i])
    requires HourWord(w) && !IsSpace(w[0]) && CountDashes(w) == 0
    ensures raw != [] && raw[0] == Half && HourWord(StripLeft(raw[1..])) && CountDashes(raw) == 0
  {
    assert raw[1..] == sp + w;
    StripLeftSpaces(sp, w);
    SpacesNoDash(sp);
    CountDashesAppend([Half] + sp, w);
    CountDashesAppend([Half], sp);
    assert CountDashes([Half]) == 0 + CountDashes([]);
  }

  lemma SpacesNoDash(sp: string)
    requires forall i :: 0 <= i < |sp| ==> IsSpace(sp[i])
    ensures CountDashes(sp) == 0
  {
    forall i | 0 <= i < |sp|
      ensures !IsDash(sp[i])
    {
      SpaceNotDash(sp[i]);
    }
    NoDashes(sp);
  }

  lemma SpaceNotDash(c: char)
    requires IsSpace(c)
    ensures !IsDash(c)
  {
  }

  lemma BareHalfHourWord(w: string)
    requires w in {"h", "hs", "hour", "hours"}
    ensures HourWord(w) && !IsSpace(w[0]) && CountDashes(w) == 0
  {
    assert w[0] == 'h';
    assert forall i :: 0 <= i < |w| ==> 'a' <= w[i] <= 'z';
    NoDashes(w);
  }

  lemma BareHalfShape(text: string, raw: string)
    requires text == "½ Hour" && raw == "½ hour"
    ensures text != [] && Normalise(text) == raw && CountDashes(raw) == 0
    ensures raw != [] && raw[0] == Half && HourWord(StripLeft(raw[1..]))
  {
    BareHalfLower(text, raw);
    BareHalfWord(raw);
  }

  lemma BareHalfLower(text: string, raw: string)
    requires |text| == 6 && text[0] == Half && text[1] == ' ' && text[2] == 'H'
    requires text[3] == 'o' && text[4] == 'u' && text[5] == 'r'
    requires |raw| == 6 && raw[0] == Half && raw[1..] == [' ', 'h', 'o', 'u', 'r']
    ensures Normalise(text) == raw && CountDashes(raw) == 0
  {
    assert NoBreakSpace !in text;
    NormaliseTrimmed(text);
    BareHalfLowerCase(text, raw);
    NoDashes(raw);
  }

  lemma BareHalfLowerCase(text: string, raw: string)
    requires |text| == 6 && text[0] == Half && text[1] == ' ' && text[2] == 'H'
    requires text[3] == 'o' && text[4] == 'u' && text[5] == 'r'
    requires |raw| == 6 && raw[0] == Half && raw[1..] == [' ', 'h', 'o', 'u', 'r']
    ensures Lower(text) == raw
  {
    assert raw[1] == ' ' && raw[2] == 'h' && raw[3] == 'o' && raw[4] == 'u' && raw[5] == 'r';
    assert forall i :: 0 <= i < 6 ==> Lower(text)[i] == raw[i];
  }

  lemma BareHalfWord(raw: string)
    requires |raw| == 6 && raw[0] == Half && raw[1..] == [' ', 'h', 'o', 'u', 'r']
    ensures HourWord(StripLeft(raw[1..]))
  {
    assert raw[1..] == [' '] + raw[2..];
    StripLeftSpaces([' '], raw[2..]);
    assert HourWord(raw[2..]);
  }
}
