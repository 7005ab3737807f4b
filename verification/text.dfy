/** The string primitives the Python code leans on, written out over
    `seq<char>`: the character classes behind `\s`, `\d`, `[A-Z]` and `\b`,
    `str.strip`, `str.split`, `str.join`, `' '.join(s.split())`, `str.rfind`,
    `str.replace`, `str(int)` and `str.zfill(2)`.

    Character classes are declared here rather than taken from the Unicode
    tables: whitespace is the six ASCII whitespace characters, digits are
    ASCII digits, and word characters are ASCII letters and digits, `_`, and
    the Latin letters U+00C0..U+024F (without the two signs U+00D7, U+00F7). */
module Text {
  import opened Wrappers

  // ---------------------------------------------------------------------
  // Character classes

  predicate IsSpace(c: char) {
    c == ' ' || c == '\t' || c == '\n' || c == '\r' || c == '\U{B}' || c == '\U{C}'
  }

  predicate IsNotSpace(c: char) {
    !IsSpace(c)
  }

  predicate IsDigit(c: char) {
    '0' <= c <= '9'
  }

  predicate IsUpper(c: char) {
    'A' <= c <= 'Z'
  }

  predicate IsAsciiLetter(c: char) {
    'A' <= c <= 'Z' || 'a' <= c <= 'z'
  }

  /** A character that Python's `\b` treats as part of a word. */
  predicate IsWordChar(c: char) {
    IsDigit(c) || IsAsciiLetter(c) || c == '_'
    || ('\U{C0}' <= c <= '\U{24F}' && c != '\U{D7}' && c != '\U{F7}')
  }

  /** The set `' ,'` handed to `str.strip` after the postal code is removed. */
  predicate IsSpaceOrComma(c: char) {
    c == ' ' || c == ','
  }

  predicate AllDigits(s: string) {
    forall i :: 0 <= i < |s| ==> IsDigit(s[i])
  }

  predicate NoSpace(s: string) {
    forall i :: 0 <= i < |s| ==> !IsSpace(s[i])
  }

  // ---------------------------------------------------------------------
  // Counting runs and stripping

  /** Length of the longest prefix of `s` whose characters satisfy `p`. */
  function LeadingCount(s: string, p: char -> bool): (k: nat)
    ensures k <= |s|
    ensures forall i :: 0 <= i < k ==> p(s[i])
    ensures k == |s| || !p(s[k])
  {
    if s == [] || !p(s[0]) then 0 else 1 + LeadingCount(s[1..], p)
  }

  /** Length of the longest suffix of `s` whose characters satisfy `p`. */
  function TrailingCount(s: string, p: char -> bool): (k: nat)
    ensures k <= |s|
    ensures forall i :: |s| - k <= i < |s| ==> p(s[i])
    ensures k == |s| || !p(s[|s| - k - 1])
  {
    if s == [] || !p(s[|s| - 1]) then 0 else 1 + TrailingCount(s[..|s| - 1], p)
  }

  /** A run of `p`-characters followed by a character outside `p` is
      counted exactly. */
  lemma {:induction false} LeadingCountOfRun(a: string, b: string, p: char -> bool)
    requires forall i :: 0 <= i < |a| ==> p(a[i])
    requires b == [] || !p(b[0])
    ensures LeadingCount(a + b, p) == |a|
  {
    if a != [] {
      assert (a + b)[1..] == a[1..] + b;
      LeadingCountOfRun(a[1..], b, p);
    } else {
      assert a + b == b;
    }
  }

  /** `s` with its leading `p`-characters removed: a suffix of `s` that
      starts with a character outside `p`. */
  function TrimLeft(s: string, p: char -> bool): (r: string)
    ensures |r| <= |s| && r == s[|s| - |r|..]
    ensures r == [] || !p(r[0])
    ensures forall i :: 0 <= i < |s| - |r| ==> p(s[i])
  {
    s[LeadingCount(s, p)..]
  }

  /** `s` with its trailing `p`-characters removed. */
  function TrimRight(s: string, p: char -> bool): (r: string)
    ensures |r| <= |s| && r == s[..|r|]
    ensures r == [] || !p(r[|r| - 1])
    ensures forall i :: |r| <= i < |s| ==> p(s[i])
  {
    s[..|s| - TrailingCount(s, p)]
  }

  /** Python's `s.strip(chars)` for the character class `p`: a contiguous
      piece of `s` whose ends are outside `p`; a string that already has
      such ends is left alone. */
  function Trim(s: string, p: char -> bool): (r: string)
    ensures |r| <= |s|
    ensures r == [] || (!p(r[0]) && !p(r[|r| - 1]))
    ensures s == [] || (!p(s[0]) && !p(s[|s| - 1])) ==> r == s
  {
    TrimLeft(TrimRight(s, p), p)
  }

  /** Trimming removes only `p`-characters, and only from the ends: the
      result is the piece of `s` between them. */
  lemma TrimKeepsMiddle(s: string, p: char -> bool)
    ensures exists k :: 0 <= k <= |s| - |Trim(s, p)| && TrimmedAt(s, Trim(s, p), k, p)
  {
    var t := TrimRight(s, p);
    var r := TrimLeft(t, p);
    var k := |t| - |r|;
    assert r == Trim(s, p);
    assert k + |r| == |t| <= |s|;
    assert r == s[k..k + |r|];
    forall i | 0 <= i < k
      ensures p(s[i])
    {
      assert s[i] == t[i];
    }
    assert TrimmedAt(s, r, k, p);
  }

  /** `r` sits in `s` at index `k`, and every character of `s` before or
      after it satisfies `p`. */
  predicate TrimmedAt(s: string, r: string, k: nat, p: char -> bool) {
    && k + |r| <= |s| && r == s[k..k + |r|]
    && (forall i :: 0 <= i < k ==> p(s[i]))
    && (forall i :: k + |r| <= i < |s| ==> p(s[i]))
  }

  /** Python's `s.strip()`. */
  function Strip(s: string): string {
    Trim(s, IsSpace)
  }

  // ---------------------------------------------------------------------
  // Searching

  /** `pat` occurs in `s` starting at index `j`. */
  predicate OccursAt(s: string, pat: string, j: nat) {
    j + |pat| <= |s| && s[j..j + |pat|] == pat
  }

  /** Python's `pat in s`. */
  predicate Contains(s: string, pat: string) {
    exists j: nat :: j <= |s| && OccursAt(s, pat, j)
  }

  /** Python's `s.find(c)` for a single character, as an option. */
  function IndexOf(s: string, c: char): (r: Option<nat>)
    ensures r.Some? ==> r.value < |s| && s[r.value] == c && c !in s[..r.value]
    ensures r.None? ==> c !in s
  {
    if s == [] then None
    else if s[0] == c then Some(0)
    else match IndexOf(s[1..], c)
      case None => None
      case Some(i) =>
        assert s[..i + 1] == [s[0]] + s[1..][..i];
        Some(i + 1)
  }

  /** The first occurrence is the one `IndexOf` finds. */
  lemma {:induction false} IndexOfFirst(s: string, c: char, j: nat)
    requires j < |s| && s[j] == c && c !in s[..j]
    ensures IndexOf(s, c) == Some(j)
    decreases j
  {
    if j > 0 {
      assert s[0] == s[..j][0];
      assert s[1..][..j - 1] == s[..j][1..];
      IndexOfFirst(s[1..], c, j - 1);
    }
  }

  /** Python's `s.rfind(c)` for a single character, as an option. */
  function LastIndexOf(s: string, c: char): (r: Option<nat>)
    ensures r.Some? ==> r.value < |s| && s[r.value] == c && c !in s[r.value + 1..]
    ensures r.None? ==> c !in s
  {
    if s == [] then None
    else if s[|s| - 1] == c then Some(|s| - 1)
    else
      var r := LastIndexOf(s[..|s| - 1], c);
      assert s == s[..|s| - 1] + [s[|s| - 1]];
      assert r.Some? ==> s[r.value + 1..] == s[..|s| - 1][r.value + 1..] + [s[|s| - 1]];
      r
  }

  /** Python's `s.rfind(pat)`, as an option. */
  function FindLast(s: string, pat: string): (r: Option<nat>)
    ensures r.Some? ==> OccursAt(s, pat, r.value)
                        && forall j :: r.value < j ==> !OccursAt(s, pat, j)
    ensures r.None? ==> !Contains(s, pat)
  {
    LastOccurrenceBelow(s, pat, |s| + 1)
  }

  /** The last start of `pat` in `s` below `n`. */
  function LastOccurrenceBelow(s: string, pat: string, n: nat): (r: Option<nat>)
    requires n <= |s| + 1
    ensures r.Some? ==> r.value < n && OccursAt(s, pat, r.value)
                        && forall j :: r.value < j ==> !OccursAt(s, pat, j) || j >= n
    ensures r.None? ==> forall j: nat :: j < n ==> !OccursAt(s, pat, j)
  {
    if n == 0 then None
    else if OccursAt(s, pat, n - 1) then Some(n - 1)
    else LastOccurrenceBelow(s, pat, n - 1)
  }

  // ---------------------------------------------------------------------
  // Splitting and joining

  /** Python's `s.split(sep)` for a one-character separator: always at
      least one part, no part holds the separator. */
  function Split(s: string, sep: char): (parts: seq<string>)
    ensures |parts| >= 1
    ensures forall k :: 0 <= k < |parts| ==> sep !in parts[k]
    decreases |s|
  {
    match IndexOf(s, sep)
    case None => [s]
    case Some(i) => [s[..i]] + Split(s[i + 1..], sep)
  }

  /** Python's `sep.join(parts)`. */
  function Join(sep: string, parts: seq<string>): string
  {
    if parts == [] then []
    else if |parts| == 1 then parts[0]
    else parts[0] + sep + Join(sep, parts[1..])
  }

  /** Splitting at `sep` and joining with `sep` gives the text back. */
  lemma {:induction false} JoinSplit(s: string, sep: char)
    ensures Join([sep], Split(s, sep)) == s
    decreases |s|
  {
    match IndexOf(s, sep)
    case None =>
    case Some(i) =>
      var parts := Split(s, sep);
      var tail := Split(s[i + 1..], sep);
      assert parts == [s[..i]] + tail;
      assert parts[0] == s[..i] && parts[1..] == tail;
      assert Join([sep], parts) == s[..i] + [sep] + Join([sep], tail);
      JoinSplit(s[i + 1..], sep);
      assert s == s[..i] + [sep] + s[i + 1..];
  }

  /** Joining separator-free parts with `sep` and splitting again gives the
      parts back. */
  lemma {:induction false} SplitJoin(parts: seq<string>, sep: char)
    requires |parts| >= 1
    requires forall k :: 0 <= k < |parts| ==> sep !in parts[k]
    ensures Split(Join([sep], parts), sep) == parts
    decreases |parts|
  {
    var s := Join([sep], parts);
    if |parts| == 1 {
      assert IndexOf(s, sep).None?;
    } else {
      var rest := Join([sep], parts[1..]);
      assert s == parts[0] + [sep] + rest;
      var n := |parts[0]|;
      assert s[n] == sep;
      assert s[..n] == parts[0];
      assert IndexOf(s, sep) == Some(n);
      assert s[n + 1..] == rest;
      SplitJoin(parts[1..], sep);
    }
  }

  /** Text without the separator is a single part. */
  lemma SplitNoSeparator(s: string, sep: char)
    requires sep !in s
    ensures Split(s, sep) == [s]
  {
  }

  /** Splitting at the first separator `k`. */
  lemma SplitAtFirst(s: string, sep: char, k: nat)
    requires IndexOf(s, sep) == Some(k)
    ensures Split(s, sep) == [s[..k]] + Split(s[k + 1..], sep)
  {
  }

  /** A separator followed by separator-free text `b` adds `b` as the
      last part. */
  lemma {:induction false} SplitAppend(a: string, sep: char, b: string)
    requires sep !in b
    ensures Split(a + [sep] + b, sep) == Split(a, sep) + [b]
    decreases |a|
  {
    var s := a + [sep] + b;
    match IndexOf(a, sep)
    case None =>
      assert s[..|a|] == a;
      IndexOfFirst(s, sep, |a|);
      assert s[|a| + 1..] == b;
      SplitAtFirst(s, sep, |a|);
      SplitNoSeparator(b, sep);
    case Some(k) =>
      assert s[..k] == a[..k];
      IndexOfFirst(s, sep, k);
      assert Split(s, sep) == [a[..k]] + Split(a[k + 1..] + [sep] + b, sep) by {
        SplitAtFirst(s, sep, k);
        assert s[k + 1..] == a[k + 1..] + [sep] + b;
      }
      SplitAppend(a[k + 1..], sep, b);
      SplitAtFirst(a, sep, k);
      AppendAssoc([a[..k]], Split(a[k + 1..], sep), [b]);
  }

  /** Splitting at the last separator: the parts of the text before it,
      then the text after it. */
  lemma SplitAtLast(s: string, sep: char, i: nat)
    requires i < |s| && s[i] == sep && sep !in s[i + 1..]
    ensures Split(s, sep) == Split(s[..i], sep) + [s[i + 1..]]
  {
    assert s == s[..i] + [sep] + s[i + 1..];
    SplitAppend(s[..i], sep, s[i + 1..]);
  }

  /** Python's `sep.join(s.split(sep)[:-1])` and `s.split(sep)[-1]`: the text
      before and after the last separator; with no separator, nothing and all. */
  lemma SplitLastPart(s: string, sep: char)
    ensures var parts := Split(s, sep);
            var i := LastIndexOf(s, sep);
            && (i.None? ==> parts == [s])
            && (i.Some? ==> parts[|parts| - 1] == s[i.value + 1..]
                            && Join([sep], parts[..|parts| - 1]) == s[..i.value])
  {
    var i := LastIndexOf(s, sep);
    if i.Some? {
      SplitAtLast(s, sep, i.value);
      var parts := Split(s, sep);
      assert parts[..|parts| - 1] == Split(s[..i.value], sep);
      JoinSplit(s[..i.value], sep);
    }
  }

  // ---------------------------------------------------------------------
  // Whitespace collapse: ' '.join(s.split())

  /** Python's `s.split()`: the maximal runs of non-whitespace, in order. */
  function Words(s: string): (ws: seq<string>)
    ensures forall k :: 0 <= k < |ws| ==> ws[k] != [] && NoSpace(ws[k])
    decreases |s|
  {
    var t := TrimLeft(s, IsSpace);
    if t == [] then []
    else
      var n := LeadingCount(t, IsNotSpace);
      LeadingWord(t, n);
      var ws := Words(t[n..]);
      WordsCons(t[..n], ws);
      [t[..n]] + ws
  }

  lemma WordsCons(w: string, ws: seq<string>)
    requires w != [] && NoSpace(w)
    requires forall k :: 0 <= k < |ws| ==> ws[k] != [] && NoSpace(ws[k])
    ensures forall k :: 0 <= k < |[w] + ws| ==> ([w] + ws)[k] != [] && NoSpace(([w] + ws)[k])
  {
    forall k | 0 <= k < |[w] + ws|
      ensures ([w] + ws)[k] != [] && NoSpace(([w] + ws)[k])
    {
      if k > 0 {
        assert ([w] + ws)[k] == ws[k - 1];
      }
    }
  }

  /** The run of non-spaces at the head of text that starts with one is a
      word. */
  lemma LeadingWord(t: string, n: nat)
    requires t != [] && !IsSpace(t[0]) && n == LeadingCount(t, IsNotSpace)
    ensures 0 < n <= |t| && t[..n] != [] && NoSpace(t[..n])
  {
    assert IsNotSpace(t[0]);
    assert forall i :: 0 <= i < n ==> t[..n][i] == t[i];
  }

  /** Python's `' '.join(s.split())`. */
  function Collapse(s: string): string {
    Join(" ", Words(s))
  }

  /** No whitespace at either end, the only whitespace character is the
      plain space, and no two spaces are adjacent. */
  ghost predicate IsCollapsed(s: string) {
    && (s == [] || (!IsSpace(s[0]) && !IsSpace(s[|s| - 1])))
    && (forall i :: 0 <= i < |s| && IsSpace(s[i]) ==> s[i] == ' ')
    && (forall i, j :: 0 <= i < j < |s| && j == i + 1 && IsSpace(s[i]) ==> !IsSpace(s[j]))
  }

  lemma {:induction false} JoinWordsCollapsed(ws: seq<string>)
    requires forall k :: 0 <= k < |ws| ==> ws[k] != [] && NoSpace(ws[k])
    ensures IsCollapsed(Join(" ", ws))
    ensures ws != [] ==> Join(" ", ws) != [] && Join(" ", ws)[0] == ws[0][0]
    decreases |ws|
  {
    if |ws| >= 2 {
      JoinWordsCollapsed(ws[1..]);
      var a, b := ws[0], Join(" ", ws[1..]);
      var s := a + " " + b;
      assert Join(" ", ws) == s;
      forall i | 0 <= i < |s| && IsSpace(s[i])
        ensures s[i] == ' ' && 0 < i && i + 1 < |s| && !IsSpace(s[i + 1])
      {
        if i > |a| {
          assert s[i] == b[i - |a| - 1];
          if i + 1 < |s| {
            assert s[i + 1] == b[i - |a|];
          }
        }
      }
    }
  }

  /** Collapsing yields collapsed text. */
  lemma CollapseIsCollapsed(s: string)
    ensures IsCollapsed(Collapse(s))
  {
    JoinWordsCollapsed(Words(s));
  }

  /** The text after a space of collapsed text is collapsed. */
  lemma CollapsedAfterSpace(s: string, n: nat)
    requires IsCollapsed(s) && n < |s| && s[n] == ' '
    ensures n + 1 < |s| && IsCollapsed(s[n + 1..])
  {
    var rest := s[n + 1..];
    forall i | 0 <= i < |rest| && IsSpace(rest[i])
      ensures rest[i] == ' ' && 0 < i && i + 1 < |rest| && !IsSpace(rest[i + 1])
    {
      assert rest[i] == s[n + 1 + i];
      if i + 1 < |rest| {
        assert rest[i + 1] == s[n + 2 + i];
      }
    }
  }

  /** Text that does not start with whitespace is its own left trim. */
  lemma TrimLeftNoSpace(s: string)
    requires s == [] || !IsSpace(s[0])
    ensures TrimLeft(s, IsSpace) == s
  {
    assert LeadingCount(s, IsSpace) == 0;
  }

  /** Collapsed text without a space is one word. */
  lemma WordsOfOneWord(s: string)
    requires IsCollapsed(s) && s != [] && LeadingCount(s, IsNotSpace) == |s|
    ensures Words(s) == [s]
  {
    TrimLeftNoSpace(s);
    assert s[..|s|] == s;
    assert TrimLeft(s[|s|..], IsSpace) == [];
  }

  /** Text starting with a non-space has at least one word. */
  lemma WordsNonEmpty(s: string)
    requires s != [] && !IsSpace(s[0])
    ensures Words(s) != []
  {
    TrimLeftNoSpace(s);
  }

  /** The words of text that starts with a word followed by one space. */
  lemma WordsAtSingleSpace(s: string, n: nat)
    requires s != [] && !IsSpace(s[0]) && n == LeadingCount(s, IsNotSpace)
    requires n + 1 < |s| && IsSpace(s[n]) && !IsSpace(s[n + 1])
    ensures Words(s) == [s[..n]] + Words(s[n + 1..])
  {
    TrimLeftNoSpace(s);
    var t := s[n..];
    assert t[1..] == s[n + 1..];
    WordsAfterSpace(t);
  }

  /** One space in front of a word does not change the words. */
  lemma WordsAfterSpace(t: string)
    requires |t| >= 2 && IsSpace(t[0]) && !IsSpace(t[1])
    ensures Words(t) == Words(t[1..])
  {
    TrimLeftNoSpace(t[1..]);
    assert LeadingCount(t, IsSpace) == 1;
  }

  lemma Around(s: string, n: nat)
    requires n < |s|
    ensures s == s[..n] + [s[n]] + s[n + 1..]
  {
  }

  lemma JoinCons(w: string, ws: seq<string>)
    requires ws != []
    ensures Join(" ", [w] + ws) == w + " " + Join(" ", ws)
  {
    assert ([w] + ws)[1..] == ws;
  }

  /** Collapsed text is left unchanged by collapsing. */
  lemma {:induction false} CollapseFixesCollapsed(s: string)
    requires IsCollapsed(s)
    ensures Collapse(s) == s
    decreases |s|
  {
    if s != [] {
      var n := LeadingCount(s, IsNotSpace);
      if n == |s| {
        WordsOfOneWord(s);
      } else {
        CollapsedAfterSpace(s, n);
        assert !IsSpace(s[n + 1]);
        WordsAtSingleSpace(s, n);
        var first, rest := s[..n], s[n + 1..];
        CollapseFixesCollapsed(rest);
        WordsNonEmpty(rest);
        JoinCons(first, Words(rest));
        Around(s, n);
      }
    }
  }

  /** Joining words with single spaces and splitting again gives the
      words back. */
  lemma {:induction false} WordsOfJoin(ws: seq<string>)
    requires forall k :: 0 <= k < |ws| ==> ws[k] != [] && NoSpace(ws[k])
    ensures Words(Join(" ", ws)) == ws
    decreases |ws|
  {
    if ws == [] {
      assert TrimLeft([], IsSpace) == [];
    } else if |ws| == 1 {
      WordsOfSingleWord(ws[0]);
    } else {
      HeadTail(ws);
      WordsOfJoin(ws[1..]);
      JoinWordsCollapsed(ws[1..]);
      assert !IsSpace(ws[1..][0][0]);
      WordsOfJoinStep(ws[0], ws[1..]);
    }
  }

  lemma WordsOfSingleWord(w: string)
    requires w != [] && NoSpace(w)
    ensures Words(Join(" ", [w])) == [w]
  {
    LeadingCountOfRun(w, [], IsNotSpace);
    assert w + [] == w;
    JoinWordsCollapsed([w]);
    WordsOfOneWord(w);
  }

  /** A word, one space and the join of more words. */
  lemma WordsOfJoinStep(w: string, rest: seq<string>)
    requires w != [] && NoSpace(w) && rest != []
    requires Join(" ", rest) != [] && !IsSpace(Join(" ", rest)[0])
    requires Words(Join(" ", rest)) == rest
    ensures Words(Join(" ", [w] + rest)) == [w] + rest
  {
    assert ([w] + rest)[1..] == rest;
    WordSpaceText(w, Join(" ", rest));
  }

  /** A word, one space, and text starting with a non-space: the word comes
      first, then the text's words. */
  lemma WordSpaceText(w: string, t: string)
    requires w != [] && NoSpace(w) && t != [] && !IsSpace(t[0])
    ensures Words(w + " " + t) == [w] + Words(t)
  {
    var s := w + " " + t;
    LeadingCountOfRun(w, " " + t, IsNotSpace);
    assert w + (" " + t) == s;
    assert s[|w|] == ' ' && s[|w| + 1] == t[0];
    WordsAtSingleSpace(s, |w|);
    assert s[..|w|] == w && s[|w| + 1..] == t;
  }

  /** Collapsing keeps the words: `s.split()` of the collapsed text is
      `s.split()`. */
  lemma CollapseKeepsWords(s: string)
    ensures Words(Collapse(s)) == Words(s)
  {
    WordsOfJoin(Words(s));
  }

  /** Collapsing twice is collapsing once. */
  lemma CollapseIdempotent(s: string)
    ensures Collapse(Collapse(s)) == Collapse(s)
  {
    CollapseIsCollapsed(s);
    CollapseFixesCollapsed(Collapse(s));
  }

  // ---------------------------------------------------------------------
  // Replacing

  /** Python's `s.replace(pat, rep)` for a non-empty `pat`: occurrences are
      replaced left to right, never overlapping. */
  function ReplaceAll(s: string, pat: string, rep: string): (r: string)
    requires pat != []
    ensures rep == [] ==> |r| <= |s|
    ensures rep == [] && OccursAt(s, pat, 0) ==> |r| <= |s| - |pat|
    decreases |s|
  {
    if |s| < |pat| then
      s
    else if s[..|pat|] == pat then
      rep + ReplaceAll(s[|pat|..], pat, rep)
    else
      [s[0]] + ReplaceAll(s[1..], pat, rep)
  }

  /** Text without the pattern comes back unchanged. */
  lemma {:induction false} ReplaceAllAbsent(s: string, pat: string, rep: string)
    requires pat != [] && !Contains(s, pat)
    ensures ReplaceAll(s, pat, rep) == s
    decreases |s|
  {
    if |s| >= |pat| {
      assert !OccursAt(s, pat, 0);
      if Contains(s[1..], pat) {
        var j: nat :| j <= |s[1..]| && OccursAt(s[1..], pat, j);
        assert s[1..][j..j + |pat|] == s[j + 1..j + 1 + |pat|];
        assert OccursAt(s, pat, j + 1);
      }
      ReplaceAllAbsent(s[1..], pat, rep);
      assert [s[0]] + s[1..] == s;
    }
  }

  /** Python's `s.replace(c, '')` for one character. */
  function RemoveChar(s: string, c: char): (r: string)
    ensures c !in r
    ensures |r| <= |s|
    ensures c !in s ==> r == s
    ensures |r| == |s| - multiset(s)[c]
    ensures forall x :: x != c ==> multiset(r)[x] == multiset(s)[x]
    ensures |s| == 1 ==> r == if s[0] == c then [] else s
  {
    if s == [] then []
    else
      var t := RemoveChar(s[1..], c);
      assert multiset(s) == multiset([s[0]]) + multiset(s[1..]) by {
        HeadTail(s);
      }
      if s[0] == c then t else [s[0]] + t
  }

  /** No occurrence of `pat` in `s` starts before index `j`; written
      recursively so that proofs unfold it one position at a time
      (`NoOccurrenceBeforeMeans` gives the quantified reading). */
  predicate NoOccurrenceBefore(s: string, pat: string, j: nat)
    decreases j
  {
    j == 0 || (!OccursAt(s, pat, 0) && |s| > 0 && NoOccurrenceBefore(s[1..], pat, j - 1))
  }

  /** `NoOccurrenceBefore` says exactly that no earlier index starts
      an occurrence. */
  lemma {:induction false} NoOccurrenceBeforeMeans(s: string, pat: string, j: nat)
    requires j <= |s|
    ensures NoOccurrenceBefore(s, pat, j) <==> forall i: nat :: i < j ==> !OccursAt(s, pat, i)
    decreases j
  {
    if j > 0 {
      NoOccurrenceBeforeMeans(s[1..], pat, j - 1);
      forall i: nat | i < j - 1
        ensures OccursAt(s[1..], pat, i) <==> OccursAt(s, pat, i + 1)
      {
        OccursShift(s, pat, i);
      }
      if forall i: nat :: i < j ==> !OccursAt(s, pat, i) {
        assert !OccursAt(s, pat, 0);
        forall i: nat | i < j - 1
          ensures !OccursAt(s[1..], pat, i)
        {
          assert !OccursAt(s, pat, i + 1);
        }
      }
      if NoOccurrenceBefore(s, pat, j) {
        forall i: nat | i < j
          ensures !OccursAt(s, pat, i)
        {
          if i > 0 {
            assert !OccursAt(s[1..], pat, i - 1);
          }
        }
      }
    }
  }

  /** An occurrence in the tail is an occurrence one place further on. */
  lemma OccursShift(s: string, pat: string, i: nat)
    requires |s| > 0
    ensures OccursAt(s[1..], pat, i) <==> OccursAt(s, pat, i + 1)
  {
    if i + 1 + |pat| <= |s| {
      assert s[1..][i..i + |pat|] == s[i + 1..i + 1 + |pat|];
    }
  }

  /** Replacing works from the leftmost occurrence: the text before it is
      kept, the occurrence becomes `rep`, and the rest is replaced in turn. */
  lemma {:induction false} ReplaceAllAtFirst(pre: string, pat: string, rest: string, rep: string)
    requires pat != [] && NoOccurrenceBefore(pre + pat + rest, pat, |pre|)
    ensures ReplaceAll(pre + pat + rest, pat, rep) == pre + rep + ReplaceAll(rest, pat, rep)
    decreases |pre|
  {
    if pre == [] {
      ReplaceAllAtStart(pat, rest, rep);
    } else {
      var s := pre + pat + rest;
      assert s[1..] == pre[1..] + pat + rest;
      ReplaceAllAtFirst(pre[1..], pat, rest, rep);
      ReplaceAllAtFirstStep(pre, pat, rest, rep);
    }
  }

  /** Deleting every copy of `pat` keeps the text before its first
      occurrence. */
  lemma DeleteFromFirst(s: string, pat: string, j: nat)
    requires pat != [] && OccursAt(s, pat, j) && NoOccurrenceBefore(s, pat, j)
    ensures ReplaceAll(s, pat, []) == s[..j] + ReplaceAll(s[j + |pat|..], pat, [])
  {
    var pre, post := s[..j], s[j + |pat|..];
    SliceAround(s, j, j + |pat|);
    ReplaceAllAtFirst(pre, pat, post, []);
    assert pre + [] == pre;
  }

  /** Text that starts with the pattern has it replaced first. */
  lemma ReplaceAllAtStart(pat: string, rest: string, rep: string)
    requires pat != []
    ensures ReplaceAll([] + pat + rest, pat, rep) == [] + rep + ReplaceAll(rest, pat, rep)
  {
    var s := [] + pat + rest;
    assert s[..|pat|] == pat && s[|pat|..] == rest;
  }

  /** One step of `ReplaceAllAtFirst`: a first character that does not
      start the pattern is put back in front of the replaced rest. */
  lemma ReplaceAllAtFirstStep(pre: string, pat: string, rest: string, rep: string)
    requires pat != [] && pre != [] && !OccursAt(pre + pat + rest, pat, 0)
    requires ReplaceAll(pre[1..] + pat + rest, pat, rep) == pre[1..] + rep + ReplaceAll(rest, pat, rep)
    ensures ReplaceAll(pre + pat + rest, pat, rep) == pre + rep + ReplaceAll(rest, pat, rep)
  {
    var s := pre + pat + rest;
    assert s[1..] == pre[1..] + pat + rest;
    ReplaceAllSkip(s, pat, rep);
    assert [pre[0]] + (pre[1..] + rep + ReplaceAll(rest, pat, rep)) == pre + rep + ReplaceAll(rest, pat, rep);
  }

  /** Text that does not start with the pattern keeps its first character. */
  lemma ReplaceAllSkip(s: string, pat: string, rep: string)
    requires pat != [] && |s| >= |pat| && !OccursAt(s, pat, 0)
    ensures ReplaceAll(s, pat, rep) == [s[0]] + ReplaceAll(s[1..], pat, rep)
  {
  }

  /** Python's `s.replace(c, rep)` for one character. */
  function ReplaceChar(s: string, c: char, rep: string): (r: string)
    ensures c !in s ==> r == s
    ensures c !in rep ==> c !in r
    ensures forall x :: x in r ==> x in s || x in rep
  {
    if s == [] then []
    else (if s[0] == c then rep else [s[0]]) + ReplaceChar(s[1..], c, rep)
  }

  /** Removing a character adds no other character. */
  lemma RemoveCharAddsNothing(s: string, c: char, x: char)
    requires x !in s
    ensures x !in RemoveChar(s, c)
  {
  }

  /** Removing a character distributes over concatenation. */
  lemma {:induction false} RemoveCharAppend(a: string, b: string, c: char)
    ensures RemoveChar(a + b, c) == RemoveChar(a, c) + RemoveChar(b, c)
  {
    if a == [] {
      assert a + b == b;
    } else {
      var h := if a[0] == c then [] else [a[0]];
      assert RemoveChar(a + b, c) == h + RemoveChar(a[1..] + b, c) by {
        assert (a + b)[0] == a[0];
        assert (a + b)[1..] == a[1..] + b;
      }
      RemoveCharAppend(a[1..], b, c);
      AppendAssoc(h, RemoveChar(a[1..], c), RemoveChar(b, c));
    }
  }

  /** Replacing a character distributes over concatenation. */
  lemma {:induction false} ReplaceCharAppend(a: string, b: string, c: char, rep: string)
    ensures ReplaceChar(a + b, c, rep) == ReplaceChar(a, c, rep) + ReplaceChar(b, c, rep)
  {
    if a == [] {
      assert a + b == b;
    } else {
      var h := if a[0] == c then rep else [a[0]];
      assert ReplaceChar(a + b, c, rep) == h + ReplaceChar(a[1..] + b, c, rep) by {
        assert (a + b)[0] == a[0];
        assert (a + b)[1..] == a[1..] + b;
      }
      ReplaceCharAppend(a[1..], b, c, rep);
      AppendAssoc(h, ReplaceChar(a[1..], c, rep), ReplaceChar(b, c, rep));
    }
  }

  lemma AppendAssoc<T>(x: seq<T>, y: seq<T>, z: seq<T>)
    ensures x + (y + z) == (x + y) + z
  {
  }

  /** A suffix of a suffix is a suffix. */
  lemma SuffixOfDrop<T>(s: seq<T>, k: nat, r: seq<T>)
    requires k <= |s| && |r| <= |s| - k && r == s[k..][|s| - k - |r|..]
    ensures r == s[|s| - |r|..]
  {
  }

  /** A sequence is its prefix followed by the rest. */
  lemma TakeDrop<T>(s: seq<T>, j: nat)
    requires j <= |s|
    ensures s[..j] + s[j..] == s
  {
  }

  /** A sequence is the pieces before, between and after two cut points. */
  lemma SliceAround<T>(s: seq<T>, j: nat, k: nat)
    requires j <= k <= |s|
    ensures s[..j] + s[j..k] + s[k..] == s
  {
  }

  lemma HeadTail<T>(s: seq<T>)
    requires s != []
    ensures [s[0]] + s[1..] == s
  {
  }

  lemma ConsTail<T>(x: T, s: seq<T>)
    ensures ([x] + s)[0] == x && ([x] + s)[1..] == s
  {
  }

  // ---------------------------------------------------------------------
  // Numbers as text

  function DigitChar(d: nat): (c: char)
    requires d < 10
    ensures IsDigit(c)
  {
    ('0' as int + d) as char
  }

  /** The value of a string of decimal digits. */
  function DigitsValue(s: string): nat
    requires AllDigits(s)
  {
    if s == [] then 0
    else DigitsValue(s[..|s| - 1]) * 10 + (s[|s| - 1] as int - '0' as int)
  }

  /** Python's `str(n)` for a natural number. */
  function NatToString(n: nat): (s: string)
    ensures |s| >= 1 && AllDigits(s)
    ensures n < 10 <==> |s| == 1
  {
    if n < 10 then [DigitChar(n)] else NatToString(n / 10) + [DigitChar(n % 10)]
  }

  /** Python's `str(i)` for an integer. */
  function IntToString(i: int): string {
    if i < 0 then "-" + NatToString(-i) else NatToString(i)
  }

  /** Reading back the decimal rendering of `n` gives `n`. */
  lemma {:induction false} NatToStringRoundTrip(n: nat)
    ensures DigitsValue(NatToString(n)) == n
  {
    if n >= 10 {
      var s := NatToString(n);
      assert s[..|s| - 1] == NatToString(n / 10);
      NatToStringRoundTrip(n / 10);
    }
  }

  /** Python's `str(i).zfill(2)`: one-digit naturals get a leading zero;
      every other rendering already has two or more characters. */
  function ZFill2(i: int): (s: string)
    ensures |s| >= 2
    ensures 0 <= i < 100 ==> |s| == 2 && AllDigits(s) && DigitsValue(s) == i
  {
    NatToStringRoundTrip(if i < 0 then 0 else i);
    if 0 <= i < 10 then
      assert DigitsValue("0") == 0;
      "0" + NatToString(i)
    else IntToString(i)
  }
}
