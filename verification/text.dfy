/** The character classes and string primitives the crawler leans on:
    Python's `str.isspace`, `str.strip`, `str.lower`, `str.split`,
    `str.join`, `int()` and `f"{n:0Wd}"`, written out over `seq<char>`. */
module Text {
  import opened Wrappers

  // ---------------------------------------------------------------- classes

  /** Python's `str.isspace()` (and the regex class `\s`) on the Basic
      Multilingual Plane: the ASCII controls TAB..CR and FS..US, space,
      NEL, NO-BREAK SPACE and the Unicode space separators. */
  predicate IsSpace(c: char) {
    || ('\t' <= c <= '\r')
    || ('\U{1C}' <= c <= '\U{1F}')
    || c == ' ' || c == '\U{85}' || c == '\U{A0}' || c == '\U{1680}'
    || ('\U{2000}' <= c <= '\U{200A}')
    || c == '\U{2028}' || c == '\U{2029}' || c == '\U{202F}'
    || c == '\U{205F}' || c == '\U{3000}'
  }

  /** The regex class `\d`, restricted to ASCII digits. */
  predicate IsDigit(c: char) {
    '0' <= c <= '9'
  }

  /** The regex class `\w` on Latin-1: letters, digits, the underscore and
      the characters Python counts as numeric (superscripts, vulgar
      fractions such as the one half sign). */
  predicate IsWordChar(c: char) {
    || ('a' <= c <= 'z') || ('A' <= c <= 'Z') || IsDigit(c) || c == '_'
    || c == '\U{AA}' || c == '\U{B2}' || c == '\U{B3}' || c == '\U{B5}'
    || c == '\U{B9}' || c == '\U{BA}' || ('\U{BC}' <= c <= '\U{BE}')
    || ('\U{C0}' <= c <= '\U{D6}') || ('\U{D8}' <= c <= '\U{F6}')
    || ('\U{F8}' <= c <= '\U{FF}')
  }

  predicate AllDigits(s: string) {
    forall i :: 0 <= i < |s| ==> IsDigit(s[i])
  }

  predicate NoSpace(s: string) {
    forall i :: 0 <= i < |s| ==> !IsSpace(s[i])
  }

  // ---------------------------------------------------------------- case

  /** `str.lower()` on one character of Latin-1: A..Z and the accented
      capitals (except the multiplication sign) move down by 32. */
  function LowerChar(c: char): (r: char)
    ensures IsSpace(r) <==> IsSpace(c)
    ensures IsDigit(r) <==> IsDigit(c)
    ensures c == r || ('A' <= c <= 'Z') || ('\U{C0}' <= c <= '\U{DE}')
  {
    if ('A' <= c <= 'Z') || ('\U{C0}' <= c <= '\U{DE}' && c != '\U{D7}') then
      (c as int + 32) as char
    else
      c
  }

  function Lower(s: string): (r: string)
    ensures |r| == |s|
    ensures forall i :: 0 <= i < |s| ==> r[i] == LowerChar(s[i])
  {
    seq(|s|, i requires 0 <= i < |s| => LowerChar(s[i]))
  }

  /** `s.replace(from, to)` for single characters. */
  function ReplaceChar(s: string, from: char, to: char): (r: string)
    ensures |r| == |s|
    ensures forall i :: 0 <= i < |s| ==> r[i] == (if s[i] == from then to else s[i])
  {
    seq(|s|, i requires 0 <= i < |s| => if s[i] == from then to else s[i])
  }

  lemma LowerIdempotent(s: string)
    ensures Lower(Lower(s)) == Lower(s)
  {
    forall i | 0 <= i < |s|
      ensures Lower(Lower(s))[i] == Lower(s)[i]
    {
      var c := s[i];
      if 'A' <= c <= 'Z' {
        assert 'a' <= LowerChar(c) <= 'z';
      } else if '\U{C0}' <= c <= '\U{DE}' && c != '\U{D7}' {
        assert '\U{E0}' <= LowerChar(c) <= '\U{FE}';
      }
    }
  }

  lemma LowerAppend(a: string, b: string)
    ensures Lower(a + b) == Lower(a) + Lower(b)
  {
    assert forall i :: 0 <= i < |a + b| ==> Lower(a + b)[i] == (Lower(a) + Lower(b))[i];
  }

  /** A text with no capital letters is its own lower-case form. */
  lemma LowerNoCapitals(s: string)
    requires forall i :: 0 <= i < |s| ==> !('A' <= s[i] <= 'Z') && s[i] < '\U{C0}'
    ensures Lower(s) == s
  {
  }

  lemma LowerDigits(s: string)
    requires AllDigits(s)
    ensures Lower(s) == s
  {
    assert forall i :: 0 <= i < |s| ==> Lower(s)[i] == s[i];
  }

  // ---------------------------------------------------------------- strip

  /** `s.lstrip()`: the longest suffix of `s` that starts with a
      non-space, everything cut off being space. */
  function StripLeft(s: string): (r: string)
    ensures |r| <= |s| && r == s[|s| - |r|..]
    ensures r == [] || !IsSpace(r[0])
    ensures forall i :: 0 <= i < |s| - |r| ==> IsSpace(s[i])
    decreases |s|
  {
    if s != [] && IsSpace(s[0]) then StripLeft(s[1..]) else s
  }

  /** `s.rstrip()`: the longest prefix of `s` that ends with a non-space. */
  function StripRight(s: string): (r: string)
    ensures |r| <= |s| && r == s[..|r|]
    ensures r == [] || !IsSpace(r[|r| - 1])
    ensures forall i :: |r| <= i < |s| ==> IsSpace(s[i])
    decreases |s|
  {
    if s != [] && IsSpace(s[|s| - 1]) then StripRight(s[..|s| - 1]) else s
  }

  /** `s.strip()`. */
  function Strip(s: string): (r: string)
    ensures |r| <= |s|
    ensures r == [] || (!IsSpace(r[0]) && !IsSpace(r[|r| - 1]))
  {
    StripRight(StripLeft(s))
  }

  /** A string with no space at either end is its own `strip()`. */
  lemma StripTrimmed(s: string)
    requires s == [] || (!IsSpace(s[0]) && !IsSpace(s[|s| - 1]))
    ensures Strip(s) == s
  {
    assert StripLeft(s) == s;
  }

  lemma StripIdempotent(s: string)
    ensures Strip(Strip(s)) == Strip(s)
  {
    StripTrimmed(Strip(s));
  }

  /** Stripping an all-space string leaves nothing. */
  lemma {:induction false} StripAllSpace(s: string)
    requires forall i :: 0 <= i < |s| ==> IsSpace(s[i])
    ensures StripLeft(s) == [] && Strip(s) == []
    decreases |s|
  {
    if s != [] {
      StripAllSpace(s[1..]);
    }
  }

  /** Spaces in front of a text that starts with a non-space are exactly
      what `lstrip` removes. */
  lemma {:induction false} StripLeftSpaces(l: string, y: string)
    requires forall i :: 0 <= i < |l| ==> IsSpace(l[i])
    requires y == [] || !IsSpace(y[0])
    ensures StripLeft(l + y) == y
    decreases |l|
  {
    if l != [] {
      assert (l + y)[1..] == l[1..] + y;
      StripLeftSpaces(l[1..], y);
    } else {
      assert l + y == y;
    }
  }

  lemma {:induction false} StripRightSpaces(y: string, r: string)
    requires forall i :: 0 <= i < |r| ==> IsSpace(r[i])
    requires y == [] || !IsSpace(y[|y| - 1])
    ensures StripRight(y + r) == y
    decreases |r|
  {
    if r != [] {
      assert (y + r)[..|y + r| - 1] == y + r[..|r| - 1];
      StripRightSpaces(y, r[..|r| - 1]);
    } else {
      assert y + r == y;
    }
  }

  /** `(l + x + r).strip() == x` for a trimmed `x` between runs of space. */
  lemma StripPadded(l: string, x: string, r: string)
    requires forall i :: 0 <= i < |l| ==> IsSpace(l[i])
    requires forall i :: 0 <= i < |r| ==> IsSpace(r[i])
    requires x != [] && !IsSpace(x[0]) && !IsSpace(x[|x| - 1])
    ensures Strip(l + x + r) == x
  {
    assert l + x + r == l + (x + r);
    StripLeftSpaces(l, x + r);
    StripRightSpaces(x, r);
  }

  /** One trailing blank is stripped off. */
  lemma StripTrailing(y: string, s: string)
    requires y != [] && !IsSpace(y[0]) && !IsSpace(y[|y| - 1])
    requires s == y + " "
    ensures Strip(s) == y
  {
    StripPadded([], y, " ");
    assert [] + y + " " == s;
  }

  /** One leading blank is stripped off. */
  lemma StripLeading(y: string, s: string)
    requires y != [] && !IsSpace(y[0]) && !IsSpace(y[|y| - 1])
    requires s == " " + y
    ensures Strip(s) == y
  {
    StripPadded(" ", y, []);
    assert " " + y + [] == s;
  }

  /** Lower-casing never creates or removes a space, so it commutes with
      stripping. */
  lemma {:induction false} LowerStripLeft(s: string)
    ensures Lower(StripLeft(s)) == StripLeft(Lower(s))
    decreases |s|
  {
    if s != [] && IsSpace(s[0]) {
      assert Lower(s)[1..] == Lower(s[1..]);
      LowerStripLeft(s[1..]);
    }
  }

  lemma {:induction false} LowerStripRight(s: string)
    ensures Lower(StripRight(s)) == StripRight(Lower(s))
    decreases |s|
  {
    if s != [] && IsSpace(s[|s| - 1]) {
      assert Lower(s)[..|s| - 1] == Lower(s[..|s| - 1]);
      LowerStripRight(s[..|s| - 1]);
    }
  }

  lemma LowerStrip(s: string)
    ensures Lower(Strip(s)) == Strip(Lower(s))
  {
    LowerStripRight(StripLeft(s));
    LowerStripLeft(s);
  }

  /** Replacing a character by another of the same kind (space or not)
      commutes with stripping. */
  lemma {:induction false} ReplaceStripLeft(s: string, from: char, to: char)
    requires IsSpace(from) <==> IsSpace(to)
    ensures ReplaceChar(StripLeft(s), from, to) == StripLeft(ReplaceChar(s, from, to))
    decreases |s|
  {
    var r := ReplaceChar(s, from, to);
    if s != [] && IsSpace(s[0]) {
      assert IsSpace(r[0]);
      assert r[1..] == ReplaceChar(s[1..], from, to);
      ReplaceStripLeft(s[1..], from, to);
    } else if s != [] {
      assert !IsSpace(r[0]);
      assert StripLeft(r) == r;
    }
  }

  lemma {:induction false} ReplaceStripRight(s: string, from: char, to: char)
    requires IsSpace(from) <==> IsSpace(to)
    ensures ReplaceChar(StripRight(s), from, to) == StripRight(ReplaceChar(s, from, to))
    decreases |s|
  {
    if s != [] && IsSpace(s[|s| - 1]) {
      assert ReplaceChar(s, from, to)[..|s| - 1] == ReplaceChar(s[..|s| - 1], from, to);
      ReplaceStripRight(s[..|s| - 1], from, to);
    }
  }

  lemma ReplaceStrip(s: string, from: char, to: char)
    requires IsSpace(from) <==> IsSpace(to)
    ensures ReplaceChar(Strip(s), from, to) == Strip(ReplaceChar(s, from, to))
  {
    ReplaceStripRight(StripLeft(s), from, to);
    ReplaceStripLeft(s, from, to);
  }

  /** Replacing a character that does not occur changes nothing. */
  lemma ReplaceAbsent(s: string, from: char, to: char)
    requires from !in s
    ensures ReplaceChar(s, from, to) == s
  {
    assert forall i :: 0 <= i < |s| ==> ReplaceChar(s, from, to)[i] == s[i];
  }

  /** Lower-casing commutes with replacing one character that lower-casing
      leaves alone by another such character. */
  lemma ReplaceLower(s: string, from: char, to: char)
    requires LowerChar(to) == to
    requires forall c :: LowerChar(c) == from <==> c == from
    ensures ReplaceChar(Lower(s), from, to) == Lower(ReplaceChar(s, from, to))
  {
    assert forall i :: 0 <= i < |s| ==> ReplaceChar(Lower(s), from, to)[i] == Lower(ReplaceChar(s, from, to))[i];
  }

  // ---------------------------------------------------------------- split / join

  /** `sep.join(parts)`. */
  function Join(sep: string, parts: seq<string>): (r: string)
    decreases |parts|
  {
    if |parts| == 0 then ""
    else if |parts| == 1 then parts[0]
    else parts[0] + sep + Join(sep, parts[1..])
  }

  /** Position of the first occurrence of `c` in `s`. */
  function IndexOf(s: string, c: char): (k: nat)
    requires c in s
    ensures k < |s| && s[k] == c && c !in s[..k]
  {
    if s[0] == c then 0 else 1 + IndexOf(s[1..], c)
  }

  /** `s.split(c)`: the pieces between consecutive occurrences of `c`. */
  function Split(s: string, c: char): (r: seq<string>)
    ensures |r| >= 1
    ensures forall i :: 0 <= i < |r| ==> c !in r[i]
    ensures Join([c], r) == s
    decreases |s|
  {
    if c !in s then [s]
    else
      var k := IndexOf(s, c);
      var rest := Split(s[k + 1..], c);
      assert s == s[..k] + [c] + s[k + 1..];
      [s[..k]] + rest
  }

  /** Splitting undoes joining when no piece holds the separator. */
  lemma {:induction false} SplitJoin(parts: seq<string>, c: char)
    requires |parts| >= 1
    requires forall i :: 0 <= i < |parts| ==> c !in parts[i]
    ensures Split(Join([c], parts), c) == parts
    decreases |parts|
  {
    if |parts| > 1 {
      var s := Join([c], parts);
      var tail := Join([c], parts[1..]);
      assert s == parts[0] + [c] + tail;
      assert s[|parts[0]|] == c;
      assert s[..|parts[0]|] == parts[0];
      assert IndexOf(s, c) == |parts[0]|;
      assert s[|parts[0]| + 1..] == tail;
      SplitJoin(parts[1..], c);
    } else {
      assert Join([c], parts) == parts[0];
    }
  }

  // ---------------------------------------------------------------- words

  /** Length of the leading run of non-space characters. */
  function WordLength(s: string): (k: nat)
    ensures k <= |s|
    ensures forall i :: 0 <= i < k ==> !IsSpace(s[i])
    ensures k == |s| || IsSpace(s[k])
  {
    if s == [] || IsSpace(s[0]) then 0 else 1 + WordLength(s[1..])
  }

  /** `s.split()`: the maximal runs of non-space characters, in order. */
  function Words(s: string): (r: seq<string>)
    ensures forall i :: 0 <= i < |r| ==> r[i] != [] && NoSpace(r[i])
    decreases |s|
  {
    if s == [] then []
    else if IsSpace(s[0]) then Words(s[1..])
    else
      var k := WordLength(s);
      [s[..k]] + Words(s[k..])
  }

  /** A string with single spaces between non-space words and no space at
      either end: the shape `" ".join(s.split())` produces. */
  ghost predicate SingleSpaced(s: string) {
    && (forall i :: 0 <= i < |s| && IsSpace(s[i]) ==> s[i] == ' ')
    && (s == [] || (s[0] != ' ' && s[|s| - 1] != ' '))
    && (forall i, j :: 0 <= i < j < |s| && j == i + 1 && s[i] == ' ' ==> s[j] != ' ')
  }

  lemma {:induction false} JoinWordsSingleSpaced(ws: seq<string>)
    requires forall i :: 0 <= i < |ws| ==> ws[i] != [] && NoSpace(ws[i])
    ensures SingleSpaced(Join(" ", ws))
    ensures |ws| > 0 ==> Join(" ", ws) != []
    decreases |ws|
  {
    if |ws| > 1 {
      JoinWordsSingleSpaced(ws[1..]);
      var tail := Join(" ", ws[1..]);
      assert Join(" ", ws) == ws[0] + " " + tail;
      ConsSingleSpaced(ws[0], tail);
    }
  }

  /** Putting a non-empty word and one blank in front of a non-empty
      single-spaced string keeps it single-spaced. */
  lemma ConsSingleSpaced(w: string, tail: string)
    requires w != [] && NoSpace(w)
    requires tail != [] && SingleSpaced(tail)
    ensures SingleSpaced(w + " " + tail)
  {
    ConsBlanks(w, tail);
    ConsEnds(w, tail);
    ConsAdjacent(w, tail);
  }

  lemma ConsBlanks(w: string, tail: string)
    requires NoSpace(w)
    requires forall i :: 0 <= i < |tail| && IsSpace(tail[i]) ==> tail[i] == ' '
    ensures var s := w + " " + tail; forall i :: 0 <= i < |s| && IsSpace(s[i]) ==> s[i] == ' '
  {
    var s := w + " " + tail;
    forall i | 0 <= i < |s| && IsSpace(s[i])
      ensures s[i] == ' '
    {
      if i > |w| {
        assert s[i] == tail[i - |w| - 1];
      }
    }
  }

  lemma ConsEnds(w: string, tail: string)
    requires w != [] && NoSpace(w)
    requires tail != [] && tail[|tail| - 1] != ' '
    ensures var s := w + " " + tail; s[0] != ' ' && s[|s| - 1] != ' '
  {
    var s := w + " " + tail;
    assert s[0] == w[0] && !IsSpace(w[0]);
    assert s[|s| - 1] == tail[|tail| - 1];
  }

  lemma ConsAdjacent(w: string, tail: string)
    requires NoSpace(w)
    requires tail != [] && tail[0] != ' '
    requires forall i, j :: 0 <= i < j < |tail| && j == i + 1 && tail[i] == ' ' ==> tail[j] != ' '
    ensures var s := w + " " + tail;
      forall i, j :: 0 <= i < j < |s| && j == i + 1 && s[i] == ' ' ==> s[j] != ' '
  {
    var s := w + " " + tail;
    forall i, j | 0 <= i < j < |s| && j == i + 1 && s[i] == ' '
      ensures s[j] != ' '
    {
      if i == |w| {
        assert s[j] == tail[0];
      } else if i > |w| {
        assert s[i] == tail[i - |w| - 1] && s[j] == tail[i - |w|];
      }
    }
  }

  /** One word, a blank and a trimmed rest split into that word followed
      by the words of the rest. */
  lemma WordsCons(w: string, tail: string)
    requires w != [] && NoSpace(w)
    requires tail != [] && !IsSpace(tail[0])
    ensures Words(w + " " + tail) == [w] + Words(tail)
  {
    var s := w + " " + tail;
    WordLengthPrefix(w, " " + tail);
    assert s == w + (" " + tail);
    assert s[..|w|] == w;
    assert s[|w|..] == " " + tail;
    assert (" " + tail)[1..] == tail;
  }

  lemma {:induction false} WordsOfJoin(ws: seq<string>)
    requires forall i :: 0 <= i < |ws| ==> ws[i] != [] && NoSpace(ws[i])
    ensures Words(Join(" ", ws)) == ws
    decreases |ws|
  {
    if |ws| == 1 {
      var w := ws[0];
      WordLengthPrefix(w, []);
      assert w + [] == w;
      assert w[..|w|] == w && w[|w|..] == [];
    } else if |ws| > 1 {
      JoinWordsSingleSpaced(ws[1..]);
      WordsCons(ws[0], Join(" ", ws[1..]));
      WordsOfJoin(ws[1..]);
    }
  }

  lemma {:induction false} WordLengthPrefix(w: string, rest: string)
    requires NoSpace(w)
    requires rest == [] || IsSpace(rest[0])
    ensures WordLength(w + rest) == |w|
    decreases |w|
  {
    if w != [] {
      assert (w + rest)[1..] == w[1..] + rest;
      WordLengthPrefix(w[1..], rest);
    } else {
      assert w + rest == rest;
    }
  }

  /** `" ".join(s.split())`: collapse every run of spaces to one blank and
      drop the spaces at both ends. */
  function CollapseSpaces(s: string): (r: string)
    ensures SingleSpaced(r)
  {
    JoinWordsSingleSpaced(Words(s));
    Join(" ", Words(s))
  }

  /** Collapsing twice is collapsing once. */
  lemma CollapseIdempotent(s: string)
    ensures CollapseSpaces(CollapseSpaces(s)) == CollapseSpaces(s)
  {
    WordsOfJoin(Words(s));
  }

  /** Every character of `s` has property `p`. */
  predicate All(s: string, p: char -> bool) {
    forall i :: 0 <= i < |s| ==> p(s[i])
  }

  /** A character property of a text holds of every word of it. */
  lemma {:induction false} WordsAll(s: string, p: char -> bool)
    requires All(s, p)
    ensures forall j :: 0 <= j < |Words(s)| ==> All(Words(s)[j], p)
    decreases |s|
  {
    if s != [] {
      if IsSpace(s[0]) {
        assert All(s[1..], p);
        WordsAll(s[1..], p);
      } else {
        var k := WordLength(s);
        assert All(s[..k], p);
        assert All(s[k..], p);
        WordsAll(s[k..], p);
      }
    }
  }

  /** A character property of the words and of the blank holds of the
      words joined by blanks. */
  lemma {:induction false} JoinAll(ws: seq<string>, p: char -> bool)
    requires p(' ') && forall j :: 0 <= j < |ws| ==> All(ws[j], p)
    ensures All(Join(" ", ws), p)
    decreases |ws|
  {
    if |ws| > 1 {
      JoinAll(ws[1..], p);
      var w := ws[0];
      var tail := Join(" ", ws[1..]);
      var r := Join(" ", ws);
      assert r == w + " " + tail;
      assert All(w, p);
      forall i | 0 <= i < |r|
        ensures p(r[i])
      {
        if i < |w| {
          assert r[i] == w[i];
        } else if i > |w| {
          assert r[i] == tail[i - |w| - 1];
        }
      }
    } else if |ws| == 1 {
      assert All(ws[0], p);
    }
  }

  /** Collapsing spaces keeps a character property the text and the blank
      share. */
  lemma CollapseAll(s: string, p: char -> bool)
    requires p(' ') && All(s, p)
    ensures All(CollapseSpaces(s), p)
  {
    WordsAll(s, p);
    JoinAll(Words(s), p);
  }

  /** The part of a single-spaced text after one of its blanks is
      single-spaced and starts with a non-space. */
  lemma SingleSpacedSuffix(s: string, m: nat)
    requires SingleSpaced(s) && 0 < m <= |s| && s[m - 1] == ' '
    ensures m < |s| && SingleSpaced(s[m..]) && !IsSpace(s[m])
  {
    var rest := s[m..];
    assert m < |s|;
    forall i | 0 <= i < |rest| && IsSpace(rest[i])
      ensures rest[i] == ' '
    {
      assert rest[i] == s[m + i];
    }
    forall i, j | 0 <= i && j == i + 1 && j < |rest| && rest[i] == ' '
      ensures rest[j] != ' '
    {
      assert rest[i] == s[m + i] && rest[j] == s[m + j];
    }
    assert rest[|rest| - 1] == s[|s| - 1];
  }

  /** A single-spaced text that is one word is its only word. */
  lemma SingleWord(s: string)
    requires s != [] && NoSpace(s)
    ensures Words(s) == [s]
  {
    WordLengthPrefix(s, []);
    assert s + [] == s;
    assert s[|s|..] == [];
  }

  /** A text splits at a lone blank after a first word into that word
      and the words after the blank. */
  lemma WordsAtBlank(s: string, k: nat)
    requires 0 < k && k + 1 < |s| && s[k] == ' ' && !IsSpace(s[k + 1]) && NoSpace(s[..k])
    ensures Words(s) == [s[..k]] + Words(s[k + 1..])
  {
    assert s == s[..k] + s[k..];
    WordLengthPrefix(s[..k], s[k..]);
    assert s[k..][1..] == s[k + 1..];
  }

  /** Before its first blank a single-spaced text holds a non-empty word. */
  lemma SingleSpacedFirstWord(s: string)
    requires SingleSpaced(s) && ' ' in s
    ensures 0 < IndexOf(s, ' ') && NoSpace(s[..IndexOf(s, ' ')])
  {
    var k := IndexOf(s, ' ');
    forall i | 0 <= i < k
      ensures !IsSpace(s[..k][i])
    {
      assert s[..k][i] == s[i] && s[i] != ' ';
    }
  }

  lemma JoinCons(w: string, ws: seq<string>)
    requires ws != []
    ensures Join(" ", [w] + ws) == w + " " + Join(" ", ws)
  {
    assert ([w] + ws)[1..] == ws;
  }

  /** A single-spaced text containing a blank is its first word, that
      blank, and a single-spaced rest; its words are the first word
      followed by the words of the rest. */
  lemma SingleSpacedSplit(s: string) returns (k: nat)
    requires SingleSpaced(s) && ' ' in s
    ensures 0 < k < |s| - 1 && s == s[..k] + " " + s[k + 1..]
    ensures SingleSpaced(s[k + 1..]) && Words(s[k + 1..]) != []
    ensures Words(s) == [s[..k]] + Words(s[k + 1..])
  {
    k := IndexOf(s, ' ');
    SingleSpacedFirstWord(s);
    SingleSpacedSuffix(s, k + 1);
    WordsAtBlank(s, k);
    WordsNonEmpty(s[k + 1..]);
    SplitAround(s, k);
  }

  lemma SplitAround(s: string, k: nat)
    requires k < |s| && s[k] == ' '
    ensures s == s[..k] + " " + s[k + 1..]
  {
    assert s == s[..k] + [s[k]] + s[k + 1..];
  }

  lemma WordsNonEmpty(t: string)
    requires t != [] && !IsSpace(t[0])
    ensures Words(t) != []
  {
  }

  /** Joining the words of a single-spaced text with blanks gives the
      text back. */
  lemma {:induction false} SingleSpacedJoinWords(s: string)
    requires SingleSpaced(s)
    ensures Join(" ", Words(s)) == s
    decreases |s|
  {
    if s != [] {
      if ' ' in s {
        var k := SingleSpacedSplit(s);
        SingleSpacedJoinWords(s[k + 1..]);
        JoinCons(s[..k], Words(s[k + 1..]));
      } else {
        SingleWord(s);
      }
    }
  }

  /** A single-spaced text is unchanged by collapsing its spaces. */
  lemma SingleSpacedCollapse(s: string)
    requires SingleSpaced(s)
    ensures CollapseSpaces(s) == s
  {
    SingleSpacedJoinWords(s);
  }

  /** Leading whitespace contributes no word. */
  lemma {:induction false} WordsSkipSpaces(pre: string, s: string)
    requires forall i :: 0 <= i < |pre| ==> IsSpace(pre[i])
    ensures Words(pre + s) == Words(s)
    decreases |pre|
  {
    if pre == [] {
      assert pre + s == s;
    } else {
      assert (pre + s)[1..] == pre[1..] + s;
      WordsSkipSpaces(pre[1..], s);
    }
  }

  /** A word cannot run on into text that starts with a space. */
  lemma {:induction false} WordLengthBefore(m: string, post: string)
    requires post == [] || IsSpace(post[0])
    ensures WordLength(m + post) == WordLength(m)
    decreases |m|
  {
    if m == [] {
      assert m + post == post;
    } else if !IsSpace(m[0]) {
      assert (m + post)[1..] == m[1..] + post;
      WordLengthBefore(m[1..], post);
    }
  }

  /** Trailing whitespace contributes no word. */
  lemma {:induction false} WordsDropTrailing(m: string, post: string)
    requires forall i :: 0 <= i < |post| ==> IsSpace(post[i])
    ensures Words(m + post) == Words(m)
    decreases |m|
  {
    if m == [] {
      WordsSkipSpaces(post, []);
      assert m + post == post + [];
    } else if IsSpace(m[0]) {
      assert (m + post)[1..] == m[1..] + post;
      WordsDropTrailing(m[1..], post);
    } else {
      WordLengthBefore(m, post);
      var k := WordLength(m);
      assert (m + post)[..k] == m[..k];
      assert (m + post)[k..] == m[k..] + post;
      WordsDropTrailing(m[k..], post);
    }
  }

  /** Whitespace on either side contributes no word. */
  lemma WordsAround(pre: string, mid: string, post: string)
    requires forall i :: 0 <= i < |pre| ==> IsSpace(pre[i])
    requires forall i :: 0 <= i < |post| ==> IsSpace(post[i])
    ensures Words(pre + (mid + post)) == Words(mid)
  {
    WordsDropTrailing(mid, post);
    WordsSkipSpaces(pre, mid + post);
  }

  /** `strip()` keeps the middle of the text, with only whitespace cut
      off on either side. */
  lemma StripPieces(x: string) returns (pre: string, post: string)
    ensures x == pre + (Strip(x) + post)
    ensures forall i :: 0 <= i < |pre| ==> IsSpace(pre[i])
    ensures forall i :: 0 <= i < |post| ==> IsSpace(post[i])
  {
    pre := StripLeftPiece(x);
    post := StripRightPiece(StripLeft(x));
  }

  /** `lstrip()` cuts off only whitespace. */
  lemma StripLeftPiece(x: string) returns (pre: string)
    ensures x == pre + StripLeft(x)
    ensures forall i :: 0 <= i < |pre| ==> IsSpace(pre[i])
  {
    var l := StripLeft(x);
    pre := x[..|x| - |l|];
    forall i | 0 <= i < |pre|
      ensures IsSpace(pre[i])
    {
      assert pre[i] == x[i];
    }
    assert x == pre + l;
  }

  /** `rstrip()` cuts off only whitespace. */
  lemma StripRightPiece(l: string) returns (post: string)
    ensures l == StripRight(l) + post
    ensures forall i :: 0 <= i < |post| ==> IsSpace(post[i])
  {
    var m := StripRight(l);
    post := l[|m|..];
    forall i | 0 <= i < |post|
      ensures IsSpace(post[i])
    {
      assert post[i] == l[|m| + i];
    }
    assert l == m + post;
  }

  /** A single-spaced text has nothing to strip. */
  lemma SingleSpacedStrip(s: string)
    requires SingleSpaced(s)
    ensures Strip(s) == s
  {
    if s != [] {
      assert StripLeft(s) == s;
      assert StripRight(s) == s;
    }
  }

  // ---------------------------------------------------------------- search

  /** `pat` occurs in `text` starting at position `i`. */
  predicate OccursAt(text: string, pat: string, i: int) {
    0 <= i <= |text| - |pat| && text[i..i + |pat|] == pat
  }

  /** `pat in text` for strings. */
  predicate Contains(text: string, pat: string) {
    exists i | 0 <= i <= |text| - |pat| :: OccursAt(text, pat, i)
  }

  // ---------------------------------------------------------------- numbers

  /** Length of the leading run of digits. */
  function DigitRun(s: string): (k: nat)
    ensures k <= |s|
    ensures AllDigits(s[..k])
    ensures k == |s| || !IsDigit(s[k])
  {
    if s == [] || !IsDigit(s[0]) then 0
    else
      var k := 1 + DigitRun(s[1..]);
      assert s[..k] == [s[0]] + s[1..][..k - 1];
      k
  }

  /** The digit run of a digit string followed by a non-digit is that
      digit string. */
  lemma {:induction false} DigitRunPrefix(ds: string, t: string)
    requires AllDigits(ds)
    requires t == [] || !IsDigit(t[0])
    ensures DigitRun(ds + t) == |ds|
    decreases |ds|
  {
    if ds != [] {
      assert (ds + t)[1..] == ds[1..] + t;
      DigitRunPrefix(ds[1..], t);
    } else {
      assert ds + t == t;
    }
  }

  function DigitValue(c: char): nat
    requires IsDigit(c)
  {
    c as int - '0' as int
  }

  /** `int(s)` for a string of ASCII digits. */
  function DigitsValue(s: string): nat
    requires AllDigits(s)
  {
    if s == [] then 0 else 10 * DigitsValue(s[..|s| - 1]) + DigitValue(s[|s| - 1])
  }

  function DigitChar(d: nat): (c: char)
    requires d < 10
    ensures IsDigit(c) && DigitValue(c) == d
  {
    ('0' as int + d) as char
  }

  /** `str(n)` for a natural number: canonical decimal digits that read
      back as `n`. */
  function NatToString(n: nat): (r: string)
    ensures r != [] && AllDigits(r)
    ensures DigitsValue(r) == n
    ensures r[0] == '0' ==> n == 0
  {
    if n < 10 then [DigitChar(n)]
    else
      var r := NatToString(n / 10) + [DigitChar(n % 10)];
      assert r[..|r| - 1] == NatToString(n / 10);
      r
  }

  /** Leading zeros do not change the value of a digit string. */
  lemma {:induction false} DigitsValueLeadingZeros(z: nat, s: string)
    requires AllDigits(s)
    ensures AllDigits(Zeros(z) + s)
    ensures DigitsValue(Zeros(z) + s) == DigitsValue(s)
    decreases |s|
  {
    var t := Zeros(z) + s;
    if s == [] {
      assert t == Zeros(z);
      ZerosValue(z);
    } else {
      assert t[..|t| - 1] == Zeros(z) + s[..|s| - 1];
      DigitsValueLeadingZeros(z, s[..|s| - 1]);
    }
  }

  function Zeros(n: nat): (r: string)
    ensures |r| == n && AllDigits(r)
    ensures forall i :: 0 <= i < n ==> r[i] == '0'
  {
    seq(n, i => '0')
  }

  lemma {:induction false} ZerosValue(n: nat)
    ensures DigitsValue(Zeros(n)) == 0
    decreases n
  {
    if n > 0 {
      assert Zeros(n)[..n - 1] == Zeros(n - 1);
      ZerosValue(n - 1);
    }
  }

  /** `f"{n:0{width}d}"` for a natural number: `str(n)` left-padded with
      zeros to at least `width` characters. */
  function ZeroPad(n: nat, width: nat): (r: string)
    ensures AllDigits(r) && DigitsValue(r) == n
    ensures |r| == if |NatToString(n)| >= width then |NatToString(n)| else width
  {
    var s := NatToString(n);
    var z := if |s| >= width then 0 else width - |s|;
    DigitsValueLeadingZeros(z, s);
    Zeros(z) + s
  }

  /** A number below 10^k has at most k decimal digits. */
  lemma {:induction false} NatToStringLength(n: nat, k: nat, bound: nat)
    requires bound == Pow10(k) && n < bound && k >= 1
    ensures |NatToString(n)| <= k
    decreases k
  {
    if n >= 10 {
      assert Pow10(1) == 10;
      NatToStringLength(n / 10, k - 1, Pow10(k - 1));
    }
  }

  function Pow10(k: nat): (r: nat)
    ensures r >= 1
  {
    if k == 0 then 1 else 10 * Pow10(k - 1)
  }

  /** The digit part `int()` accepts: ASCII digits, with single
      underscores allowed between two digits. */
  predicate Grouped(t: string)
    decreases |t|
  {
    t != [] && IsDigit(t[0]) &&
    (|t| == 1 || (IsDigit(t[1]) && Grouped(t[1..])) || (|t| > 2 && t[1] == '_' && Grouped(t[2..])))
  }

  /** The digits of a grouped literal, underscores removed. */
  function Ungroup(t: string): string
  {
    if t == [] then [] else (if t[0] == '_' then [] else [t[0]]) + Ungroup(t[1..])
  }

  lemma {:induction false} UngroupDigits(t: string)
    requires Grouped(t)
    ensures Ungroup(t) != [] && AllDigits(Ungroup(t))
    decreases |t|
  {
    if |t| > 1 {
      if IsDigit(t[1]) && Grouped(t[1..]) {
        UngroupDigits(t[1..]);
      } else {
        UngroupDigits(t[2..]);
        assert t[1..][1..] == t[2..];
      }
    }
  }

  lemma {:induction false} UngroupAppend(a: string, b: string)
    ensures Ungroup(a + b) == Ungroup(a) + Ungroup(b)
    decreases |a|
  {
    if a != [] {
      assert (a + b)[1..] == a[1..] + b;
      UngroupAppend(a[1..], b);
    } else {
      assert a + b == b;
    }
  }

  /** A plain digit string is grouped and has nothing to remove. */
  lemma {:induction false} UngroupPlain(t: string)
    requires t != [] && AllDigits(t)
    ensures Grouped(t) && Ungroup(t) == t
    decreases |t|
  {
    if |t| > 1 {
      UngroupPlain(t[1..]);
    }
  }

  /** `int(s)` for a decimal integer literal: surrounding whitespace, an
      optional sign, then ASCII digits, optionally grouped by single
      underscores; anything else is the `ValueError` Python raises, here
      `None`. */
  function ParseInt(s: string): (r: Option<int>)
    ensures r.Some? ==> exists t :: t != [] && AllDigits(t) && (r.value == DigitsValue(t) || r.value == -(DigitsValue(t) as int))
  {
    var t := Strip(s);
    if t != [] && (t[0] == '+' || t[0] == '-') then
      var body := t[1..];
      if Grouped(body) then
        UngroupDigits(body);
        var v: int := DigitsValue(Ungroup(body));
        Some(if t[0] == '-' then -v else v)
      else None
    else if Grouped(t) then
      UngroupDigits(t);
      Some(DigitsValue(Ungroup(t)))
    else None
  }

  /** `int("1_000") == 1000`: an underscore between two digit runs is
      skipped. */
  lemma ParseIntUnderscore(a: string, b: string)
    requires a != [] && AllDigits(a) && b != [] && AllDigits(b)
    ensures ParseInt(a + "_" + b) == Some(DigitsValue(a + b))
  {
    var s := a + "_" + b;
    assert s[|s| - 1] == b[|b| - 1];
    GroupedJoin(a, b);
    ParseIntGrouped(s);
    UngroupJoin(a, b);
  }

  lemma UngroupJoin(a: string, b: string)
    requires a != [] && AllDigits(a) && b != [] && AllDigits(b)
    ensures Ungroup(a + "_" + b) == a + b
  {
    var u := "_";
    assert Ungroup(u) == [] + Ungroup(u[1..]);
    assert u[1..] == [];
    UngroupAppend(a, u);
    UngroupAppend(a + u, b);
    UngroupPlain(a);
    UngroupPlain(b);
    assert Ungroup(a + u) == a;
  }

  /** An unsigned grouped literal with nothing around it reads as its
      digits. */
  lemma ParseIntGrouped(s: string)
    requires Grouped(s) && IsDigit(s[|s| - 1])
    ensures ParseInt(s) == Some(DigitsValue((UngroupDigits(s); Ungroup(s))))
  {
    assert !IsSpace(s[0]) && !IsSpace(s[|s| - 1]);
    StripTrimmed(s);
  }

  lemma {:induction false} GroupedJoin(a: string, b: string)
    requires a != [] && AllDigits(a) && b != [] && AllDigits(b)
    ensures Grouped(a + "_" + b)
    decreases |a|
  {
    var s := a + "_" + b;
    if |a| == 1 {
      UngroupPlain(b);
      assert s[2..] == b;
    } else {
      GroupedJoin(a[1..], b);
      assert s[1..] == a[1..] + "_" + b;
    }
  }

  /** `int(str(n)) == n`. */
  lemma ParseIntNatToString(n: nat)
    ensures ParseInt(NatToString(n)) == Some(n)
  {
    var s := NatToString(n);
    UngroupPlain(s);
    ParseIntGrouped(s);
  }
}
