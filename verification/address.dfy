/** `parse_street_name`: a free-form Brazilian address becomes nine optional
    fields. The text is first collapsed to single spaces; then, from the
    right, the country, the postal code, the state and the city are cut off;
    what is left is split at commas and read from the left as street type and
    name, house number, complements and neighbourhood.

    Each regular expression of the source is written as a predicate saying
    where it matches, and the leftmost match is found by a search. The
    expressions used here never need to backtrack into a different match
    (noted at each one), so each predicate pins the match down. After the
    collapse no line break is left, so `.` is any character and `$` is the
    end of the text. */
module Address {
  import opened Wrappers
  import opened Text

  datatype Address = Address(
    streetType: Option<string>,
    streetName: Option<string>,
    streetNumber: Option<string>,
    streetComplement: Option<string>,
    streetNeighborhood: Option<string>,
    postalCode: Option<string>,
    city: Option<string>,
    state: Option<string>,
    country: Option<string>)

  const NoAddress := Address(None, None, None, None, None, None, None, None, None)

  /** The street-type tokens of the Airflow parser, in the order they are tried. */
  const AirflowStreetTypes: seq<string> :=
    ["Avenida", "Rua", "Alameda", "Travessa", "Praça",
     "Rodovia", "Estrada", "Viela", "Largo", "Beco",
     "Av.", "Al.", "R.", "Tv.", "Pç."]

  /** The migration script's table: the same tokens without the last, "Pç.". */
  const MigrationStreetTypes: seq<string> :=
    ["Avenida", "Rua", "Alameda", "Travessa", "Praça",
     "Rodovia", "Estrada", "Viela", "Largo", "Beco",
     "Av.", "Al.", "R.", "Tv."]

  // ---------------------------------------------------------------------
  // Country: ,\s*([^,]+)$

  /** `,\s*([^,]+)$` matches at `i`: a comma followed by at least one
      character and no further comma. (`\s*` may give back spaces to
      `[^,]+`, so any non-empty comma-free tail matches.) */
  predicate CountryAt(s: string, i: nat) {
    i + 1 < |s| && s[i] == ',' && ',' !in s[i + 1..]
  }

  /** The start of the country match: it can only be the last comma. */
  function FindCountry(s: string): (r: Option<nat>)
    ensures r.Some? ==> CountryAt(s, r.value) && forall j: nat :: j != r.value ==> !CountryAt(s, j)
    ensures r.None? ==> forall j: nat :: !CountryAt(s, j)
  {
    match LastIndexOf(s, ',')
    case None => None
    case Some(i) =>
      assert forall j: nat :: j < i ==> !CountryAt(s, j) by {
        forall j: nat | j < i
          ensures !CountryAt(s, j)
        {
          assert s[j + 1..][i - j - 1] == ',';
        }
      }
      assert forall j: nat :: j > i ==> !CountryAt(s, j) by {
        forall j: nat | j > i && j < |s|
          ensures s[j] != ','
        {
          assert s[i + 1..][j - i - 1] == s[j];
        }
      }
      if i + 1 < |s| then Some(i) else None
  }

  /** Country step: the trimmed text after the final comma, which is cut off
      together with that comma. */
  function ExtractCountry(s: string): (r: (Option<string>, string))
    ensures r.0.None? <==> forall j: nat :: !CountryAt(s, j)
    ensures r.0.None? ==> r.1 == s
    ensures r.0.Some? ==> exists i: nat :: CountryAt(s, i) && r == (Some(Strip(s[i + 1..])), Strip(s[..i]))
    ensures |r.1| <= |s|
  {
    match FindCountry(s)
    case None => (None, s)
    case Some(i) => (Some(Strip(s[i + 1..])), Strip(s[..i]))
  }

  /** At the last comma `i`: the country is the trimmed text after it and
      the text before it, trimmed, is what is left; a comma at the very end
      gives no country and leaves the text as it is. */
  lemma CountryAfterLastComma(s: string, i: nat)
    requires i < |s| && s[i] == ',' && ',' !in s[i + 1..]
    ensures if i + 1 < |s| then ExtractCountry(s) == (Some(Strip(s[i + 1..])), Strip(s[..i]))
            else ExtractCountry(s) == (None, s)
  {
    if i + 1 < |s| {
      assert CountryAt(s, i);
      assert FindCountry(s) == Some(i);
    } else {
      forall j: nat
        ensures !CountryAt(s, j)
      {
        if j < i && j + 1 < |s| {
          assert s[j + 1..][i - j - 1] == ',';
        }
      }
      assert FindCountry(s) == None;
    }
  }

  /** Without a comma there is no country. */
  lemma NoCommaNoCountry(s: string)
    requires ',' !in s
    ensures ExtractCountry(s) == (None, s)
  {
    forall j: nat
      ensures !CountryAt(s, j)
    {
      if j < |s| {
        assert s[j] in s;
      }
    }
    assert FindCountry(s) == None;
  }

  // ---------------------------------------------------------------------
  // Postal code: \b(\d{5}-?\d{3})\b

  /** `\b` before a digit at `i`: start of text or a non-word character before. */
  predicate BoundaryBefore(s: string, i: nat) {
    i == 0 || (i <= |s| && !IsWordChar(s[i - 1]))
  }

  /** `\b` after a digit ending at `e`: end of text or a non-word character next. */
  predicate BoundaryAfter(s: string, e: nat) {
    e == |s| || (e < |s| && !IsWordChar(s[e]))
  }

  predicate DigitsAt(s: string, i: nat, n: nat) {
    i + n <= |s| && AllDigits(s[i..i + n])
  }

  /** The form with the dash, `00000-000`. */
  predicate PostalDashAt(s: string, i: nat) {
    BoundaryBefore(s, i) && DigitsAt(s, i, 5) && i + 5 < |s| && s[i + 5] == '-'
    && DigitsAt(s, i + 6, 3) && BoundaryAfter(s, i + 9)
  }

  /** The form without the dash, `00000000`. */
  predicate PostalPlainAt(s: string, i: nat) {
    BoundaryBefore(s, i) && DigitsAt(s, i, 8) && BoundaryAfter(s, i + 8)
  }

  /** The postal-code expression matches at `i`. The greedy `-?` is tried
      with the dash first; the two forms exclude each other because the
      sixth character is a dash in one and a digit in the other. */
  predicate PostalAt(s: string, i: nat) {
    PostalDashAt(s, i) || PostalPlainAt(s, i)
  }

  /** The leftmost postal-code match at or after `from`. */
  function FindPostal(s: string, from: nat): (r: Option<nat>)
    ensures r.Some? ==> from <= r.value && PostalAt(s, r.value)
                        && forall j: nat :: from <= j < r.value ==> !PostalAt(s, j)
    ensures r.None? ==> forall j: nat :: from <= j ==> !PostalAt(s, j)
    decreases |s| - from
  {
    if from >= |s| then None
    else if PostalAt(s, from) then Some(from)
    else FindPostal(s, from + 1)
  }

  /** Postal-code step: the first match, dash removed, becomes the postal
      code; every occurrence of the matched text is deleted and spaces and
      commas are stripped from both ends. */
  function ExtractPostalCode(s: string): (r: (Option<string>, string))
    ensures r.0.None? <==> forall j: nat :: !PostalAt(s, j)
    ensures r.0.None? ==> r.1 == s
    ensures r.0.Some? ==> |r.0.value| == 8 && AllDigits(r.0.value) && |r.1| <= |s| - 8
  {
    match FindPostal(s, 0)
    case None => (None, s)
    case Some(i) =>
      var m := PostalMatch(s, i);
      PostalCodeDigits(s, i);
      PostalMatchRemoved(s, i);
      (Some(RemoveChar(m, '-')), Trim(ReplaceAll(s, m, []), IsSpaceOrComma))
  }

  /** The postal code comes from the leftmost place where the expression
      matches, whatever the matches further right; every copy of the
      matched text is deleted and spaces and commas are trimmed from the
      ends of what is left. */
  lemma PostalCodeIsFirstMatch(s: string, i: nat)
    requires PostalAt(s, i) && forall j: nat :: j < i ==> !PostalAt(s, j)
    ensures var m := PostalMatch(s, i);
            ExtractPostalCode(s) == (Some(RemoveChar(m, '-')), Trim(ReplaceAll(s, m, []), IsSpaceOrComma))
  {
    var f := FindPostal(s, 0);
    assert f.Some?;
    assert f.value == i by {
      if f.value < i {
      } else if f.value > i {
      }
    }
  }

  /** When the matched text does not occur earlier (as part of a longer
      run of digits, say), the text before the match is kept as it is and
      only the copies from the match on are deleted. (`FindPostal` returns
      the leftmost match.) */
  lemma PostalRemainder(s: string, i: nat)
    requires FindPostal(s, 0) == Some(i)
    requires NoOccurrenceBefore(s, PostalMatch(s, i), i)
    ensures var m := PostalMatch(s, i);
            ExtractPostalCode(s).1 == Trim(s[..i] + ReplaceAll(s[i + |m|..], m, []), IsSpaceOrComma)
  {
    var m := PostalMatch(s, i);
    DeleteFromFirst(s, m, i);
    PostalFoundAt(s, i, s[..i] + ReplaceAll(s[i + |m|..], m, []));
  }

  lemma PostalFoundAt(s: string, i: nat, left: string)
    requires FindPostal(s, 0) == Some(i) && ReplaceAll(s, PostalMatch(s, i), []) == left
    ensures ExtractPostalCode(s).1 == Trim(left, IsSpaceOrComma)
  {
  }

  /** The text of the postal-code match at `i`. */
  function PostalMatch(s: string, i: nat): (m: string)
    requires PostalAt(s, i)
    ensures |m| >= 8 && OccursAt(s, m, i)
  {
    s[i..i + if PostalDashAt(s, i) then 9 else 8]
  }

  /** With its dash removed, the match is eight digits. */
  lemma PostalCodeDigits(s: string, i: nat)
    requires PostalAt(s, i)
    ensures var code := RemoveChar(PostalMatch(s, i), '-');
            |code| == 8 && AllDigits(code)
  {
    var m := PostalMatch(s, i);
    if PostalDashAt(s, i) {
      assert m[..5] == s[i..i + 5] && m[6..] == s[i + 6..i + 9];
      DashCodeDigits(m);
    } else {
      DigitsKeepDashFree(m);
    }
  }

  /** Removing the dash from `a-b` joins the two runs of digits. */
  lemma DashRemoved(a: string, b: string)
    requires AllDigits(a) && AllDigits(b)
    ensures RemoveChar(a + "-" + b, '-') == a + b
  {
    var dash: string := "-";
    assert dash[1..] == [];
    assert RemoveChar(dash, '-') == [];
    DigitsKeepDashFree(a);
    DigitsKeepDashFree(b);
    calc {
      RemoveChar(a + dash + b, '-');
      { RemoveCharAppend(a + dash, b, '-'); }
      RemoveChar(a + dash, '-') + RemoveChar(b, '-');
      { RemoveCharAppend(a, dash, '-'); }
      RemoveChar(a, '-') + RemoveChar(dash, '-') + RemoveChar(b, '-');
      a + [] + b;
      { assert a + [] == a; }
      a + b;
    }
  }

  /** Five digits, a dash and three digits lose the dash. */
  lemma DashCodeDigits(m: string)
    requires |m| == 9 && AllDigits(m[..5]) && m[5] == '-' && AllDigits(m[6..])
    ensures RemoveChar(m, '-') == m[..5] + m[6..]
  {
    SliceAround(m, 5, 6);
    assert m[5..6] == "-";
    DashRemoved(m[..5], m[6..]);
  }

  lemma DigitsKeepDashFree(a: string)
    requires AllDigits(a)
    ensures RemoveChar(a, '-') == a
  {
    forall k | 0 <= k < |a|
      ensures a[k] != '-'
    {
      assert IsDigit(a[k]);
    }
  }

  /** Deleting the match shortens the text by at least eight characters. */
  lemma PostalMatchRemoved(s: string, i: nat)
    requires PostalAt(s, i)
    ensures |ReplaceAll(s, PostalMatch(s, i), [])| <= |s| - 8
  {
    var m := PostalMatch(s, i);
    assert Contains(s, m);
    ReplaceAllShrinks(s, m);
  }

  /** Deleting a pattern that occurs shortens the text by at least its length. */
  lemma {:induction false} ReplaceAllShrinks(s: string, pat: string)
    requires pat != [] && Contains(s, pat)
    ensures |ReplaceAll(s, pat, [])| <= |s| - |pat|
    decreases |s|
  {
    if !OccursAt(s, pat, 0) {
      var j: nat :| j <= |s| && OccursAt(s, pat, j);
      assert j != 0;
      assert s[1..][j - 1..j - 1 + |pat|] == s[j..j + |pat|];
      assert OccursAt(s[1..], pat, j - 1);
      ReplaceAllShrinks(s[1..], pat);
    }
  }

  // ---------------------------------------------------------------------
  // State: -\s*([A-Z]{2})\s*,?\s*$

  /** Whitespace, optionally one comma, whitespace, and nothing else. */
  predicate IsStateTail(t: string) {
    || t == []
    || (IsSpace(t[0]) && IsStateTail(t[1..]))
    || (t[0] == ',' && forall k :: 1 <= k < |t| ==> IsSpace(t[k]))
  }

  /** `-\s*([A-Z]{2})\s*,?\s*$` matches at `p`. The first `\s*` cannot give
      back a space, since a letter must follow it, so it takes all spaces. */
  predicate StateAt(s: string, p: nat) {
    p < |s| && s[p] == '-'
    && var rest := s[p + 1..];
       var k := LeadingCount(rest, IsSpace);
       k + 2 <= |rest| && IsUpper(rest[k]) && IsUpper(rest[k + 1]) && IsStateTail(rest[k + 2..])
  }

  /** The leftmost state match at or after `from`. */
  function FindState(s: string, from: nat): (r: Option<nat>)
    ensures r.Some? ==> from <= r.value && StateAt(s, r.value)
                        && forall j: nat :: from <= j < r.value ==> !StateAt(s, j)
    ensures r.None? ==> forall j: nat :: from <= j ==> !StateAt(s, j)
    decreases |s| - from
  {
    if from >= |s| then None
    else if StateAt(s, from) then Some(from)
    else
      FindState(s, from + 1)
  }

  /** The state expression matches in at most one place: the letters must
      be followed by nothing but spaces and a comma, so no dash of a second
      match can come after them. */
  lemma {:induction false} StateMatchUnique(s: string, p: nat, q: nat)
    requires StateAt(s, p) && StateAt(s, q)
    ensures p == q
  {
    if p < q {
      StateMatchBefore(s, p, q);
    } else if q < p {
      StateMatchBefore(s, q, p);
    }
  }

  /** Text after the state letters holds no dash. */
  lemma StateTailNoDash(t: string, d: nat)
    requires IsStateTail(t) && d < |t|
    ensures t[d] != '-'
  {
    if d > 0 && IsSpace(t[0]) && IsStateTail(t[1..]) {
      StateTailNoDash(t[1..], d - 1);
    }
  }

  /** After the dash of a state match every character is a space, a
      capital letter or a comma. */
  lemma StateMatchBefore(s: string, p: nat, q: nat)
    requires StateAt(s, p) && p < q < |s|
    ensures s[q] != '-'
  {
    var rest := s[p + 1..];
    var k := LeadingCount(rest, IsSpace);
    var e := q - (p + 1);
    assert s[q] == rest[e];
    if e < k {
      assert IsSpace(rest[e]);
    } else if e < k + 2 {
      assert IsUpper(rest[e]);
    } else {
      var t := rest[k + 2..];
      assert rest[e] == t[e - (k + 2)];
      StateTailNoDash(t, e - (k + 2));
    }
  }

  /** With a match at `p`, the state is its two letters and the text before
      the dash, trimmed, is what is left. */
  lemma StateFromMatch(s: string, p: nat)
    requires StateAt(s, p)
    ensures var rest := s[p + 1..];
            var k := LeadingCount(rest, IsSpace);
            ExtractState(s) == (Some(rest[k..k + 2]), Strip(s[..p]))
  {
    var f := FindState(s, 0);
    assert f.Some?;
    StateMatchUnique(s, p, f.value);
    StateAtFound(s, p);
  }

  lemma StateAtFound(s: string, p: nat)
    requires FindState(s, 0) == Some(p)
    ensures var rest := s[p + 1..];
            var k := LeadingCount(rest, IsSpace);
            ExtractState(s) == (Some(rest[k..k + 2]), Strip(s[..p]))
  {
  }

  /** State step: the two capital letters after a final dash become the
      state, and everything from the dash on is cut off. */
  function ExtractState(s: string): (r: (Option<string>, string))
    ensures r.0.None? <==> forall j: nat :: !StateAt(s, j)
    ensures r.0.None? ==> r.1 == s
    ensures r.0.Some? ==> |r.0.value| == 2 && IsUpper(r.0.value[0]) && IsUpper(r.0.value[1])
                          && |r.1| < |s|
  {
    match FindState(s, 0)
    case None => (None, s)
    case Some(p) =>
      var (state, before) := StateSplitAt(s, p);
      (Some(state), before)
  }

  /** The state letters of a match at `p` and the stripped text before its
      dash. */
  function StateSplitAt(s: string, p: nat): (r: (string, string))
    requires StateAt(s, p)
    ensures |r.0| == 2 && IsUpper(r.0[0]) && IsUpper(r.0[1]) && |r.1| < |s|
  {
    var rest := s[p + 1..];
    var k := LeadingCount(rest, IsSpace);
    (rest[k..k + 2], Strip(s[..p]))
  }

  // ---------------------------------------------------------------------
  // City: the last comma-separated part

  /** City step, as written: split at commas, the stripped last part is the
      city, the others joined back and stripped are what is left. Empty text
      gives no city. */
  function ExtractCity(s: string): (r: (Option<string>, string))
  {
    if s == [] then (None, s)
    else
      var parts := Split(s, ',');
      (Some(Strip(parts[|parts| - 1])), Strip(Join(",", parts[..|parts| - 1])))
  }

  /** The city is the trimmed text after the last comma and what is left is
      the trimmed text before it; without a comma the whole text is the city. */
  lemma CityIsLastSegment(s: string)
    requires s != []
    ensures LastIndexOf(s, ',').None? ==> ExtractCity(s) == (Some(Strip(s)), [])
    ensures LastIndexOf(s, ',').Some? ==>
              var i := LastIndexOf(s, ',').value;
              ExtractCity(s) == (Some(Strip(s[i + 1..])), Strip(s[..i]))
  {
    match LastIndexOf(s, ',')
    case None => CityWithoutComma(s);
    case Some(i) => CityAfterLastComma(s, i);
  }

  lemma CityWithoutComma(s: string)
    requires s != [] && LastIndexOf(s, ',').None?
    ensures ExtractCity(s) == (Some(Strip(s)), [])
  {
    SplitLastPart(s, ',');
    var parts := Split(s, ',');
    assert parts == [s];
    assert parts[..|parts| - 1] == [];
    CityParts(s, parts, s, []);
    assert Strip([]) == [];
  }

  lemma CityAfterLastComma(s: string, i: nat)
    requires s != [] && LastIndexOf(s, ',') == Some(i)
    ensures i < |s| && ExtractCity(s) == (Some(Strip(s[i + 1..])), Strip(s[..i]))
  {
    SplitAtLast(s, ',', i);
    var parts := Split(s, ',');
    assert parts[..|parts| - 1] == Split(s[..i], ',');
    JoinSplit(s[..i], ',');
    CityParts(s, parts, s[i + 1..], s[..i]);
  }

  lemma CityParts(s: string, parts: seq<string>, last: string, before: string)
    requires s != [] && parts == Split(s, ',')
    requires parts[|parts| - 1] == last && Join(",", parts[..|parts| - 1]) == before
    ensures ExtractCity(s) == (Some(Strip(last)), Strip(before))
  {
  }

  // ---------------------------------------------------------------------
  // Street part: type and name, number, complement, neighbourhood

  datatype Street = Street(
    streetType: Option<string>,
    streetName: Option<string>,
    streetNumber: Option<string>,
    streetComplement: Option<string>,
    streetNeighborhood: Option<string>)

  const NoStreet := Street(None, None, None, None, None)

  /** `[p.strip() for p in parts if p.strip()]`. */
  function CleanParts(parts: seq<string>): (r: seq<string>)
    ensures |r| <= |parts|
    ensures forall k :: 0 <= k < |r| ==> r[k] != [] && r[k] == Strip(r[k])
  {
    if parts == [] then []
    else
      var p := Strip(parts[0]);
      (if p != [] then [p] else []) + CleanParts(parts[1..])
  }

  /** One segment gives its stripped text, unless that is empty. */
  lemma CleanPartsOne(p: string)
    ensures CleanParts([p]) == if Strip(p) != [] then [Strip(p)] else []
  {
    assert [p][1..] == [];
  }

  /** The segments are cleaned one by one, in order: cleaning commutes
      with concatenation. */
  lemma {:induction false} CleanPartsAppend(a: seq<string>, b: seq<string>)
    ensures CleanParts(a + b) == CleanParts(a) + CleanParts(b)
  {
    if a == [] {
      assert a + b == b;
    } else {
      var h := if Strip(a[0]) != [] then [Strip(a[0])] else [];
      assert (a + b)[0] == a[0] && (a + b)[1..] == a[1..] + b;
      CleanPartsAppend(a[1..], b);
      AppendAssoc(h, CleanParts(a[1..]), CleanParts(b));
    }
  }

  /** The first token of the table that starts `first`. */
  function FirstPrefix(types: seq<string>, first: string): (r: Option<nat>)
    ensures r.Some? ==> r.value < |types| && types[r.value] <= first
                        && forall k :: 0 <= k < r.value ==> !(types[k] <= first)
    ensures r.None? ==> forall k :: 0 <= k < |types| ==> !(types[k] <= first)
  {
    if types == [] then None
    else if types[0] <= first then Some(0)
    else match FirstPrefix(types[1..], first)
      case None => None
      case Some(k) => Some(k + 1)
  }

  /** Street type and name: the first table token that starts the segment is
      the type, kept as written, and the stripped rest is the name; with no
      such token there is no type and the whole stripped segment is the name. */
  function StreetTypeAndName(types: seq<string>, first: string): (r: (Option<string>, string))
    ensures r.0.Some? ==> r.0.value in types && r.0.value <= first
                          && r.1 == Strip(first[|r.0.value|..])
    ensures r.0.None? <==> forall k :: 0 <= k < |types| ==> !(types[k] <= first)
    ensures r.0.None? ==> r.1 == Strip(first)
  {
    match FirstPrefix(types, first)
    case None => (None, Strip(first))
    case Some(k) =>
      var t := types[k];
      StripTwice(first[|t|..]);
      (Some(t), Strip(Strip(first[|t|..])))
  }

  lemma StripTwice(s: string)
    ensures Strip(Strip(s)) == Strip(s)
  {
  }

  /** Searching the first `n` tokens finds what the full search finds, when
      that lies among them, and nothing otherwise. */
  lemma {:induction false} FirstPrefixOfPrefix(types: seq<string>, n: nat, first: string)
    requires n <= |types|
    ensures FirstPrefix(types[..n], first)
            == match FirstPrefix(types, first)
               case Some(k) => if k < n then Some(k) else None
               case None => None
  {
    if n > 0 && types[0] <= first {
    } else if n > 0 {
      assert types[..n][1..] == types[1..][..n - 1];
      FirstPrefixOfPrefix(types[1..], n - 1, first);
    }
  }

  /** A segment starting "Av." keeps the abbreviation as its type (it is not
      expanded to "Avenida"), and the rest is the name. */
  lemma AbbreviatedTypeKept(rest: string)
    ensures StreetTypeAndName(AirflowStreetTypes, "Av." + rest) == (Some("Av."), Strip(rest))
  {
    var first := "Av." + rest;
    forall k | 0 <= k < 10
      ensures !(AirflowStreetTypes[k] <= first)
    {
      var t := AirflowStreetTypes[k];
      assert |t| >= 3 && (t[0] != first[0] || t[1] != first[1] || t[2] != first[2]);
    }
    assert AirflowStreetTypes[10] <= first;
    assert FirstPrefix(AirflowStreetTypes, first) == Some(10);
    assert first[3..] == rest;
  }

  /** The migration table differs from the Airflow table only in lacking
      "Pç.": the two agree on every segment except one that the Airflow
      table reads as "Pç.", which the migration table leaves without a
      type, the whole segment being the name. */
  lemma StreetTablesAgree(first: string)
    ensures var a := StreetTypeAndName(AirflowStreetTypes, first);
            StreetTypeAndName(MigrationStreetTypes, first)
            == if a.0 == Some("Pç.") then (None, Strip(first)) else a
  {
    MigrationTableIsPrefix();
    StreetTypeOfPrefix(AirflowStreetTypes, 14, first);
    var k := FirstPrefix(AirflowStreetTypes, first);
    if k.Some? {
      assert StreetTypeAndName(AirflowStreetTypes, first).0 == Some(AirflowStreetTypes[k.value]);
    }
  }

  /** The migration table is the Airflow table without its last token,
      "Pç.", which appears nowhere else in it. */
  lemma MigrationTableIsPrefix()
    ensures MigrationStreetTypes == AirflowStreetTypes[..14]
    ensures |AirflowStreetTypes| == 15 && AirflowStreetTypes[14] == "Pç."
    ensures forall k :: 0 <= k < 14 ==> AirflowStreetTypes[k] != "Pç."
  {
  }

  /** A table cut to its first `n` tokens reads a segment as the full table
      does when the full table's token lies among them, and finds no type
      otherwise. */
  lemma StreetTypeOfPrefix(types: seq<string>, n: nat, first: string)
    requires n <= |types|
    ensures var k := FirstPrefix(types, first);
            StreetTypeAndName(types[..n], first)
            == if k.Some? && k.value < n then StreetTypeAndName(types, first) else (None, Strip(first))
  {
    FirstPrefixOfPrefix(types, n, first);
    var k := FirstPrefix(types, first);
    if k.Some? && k.value < n {
      assert types[..n][k.value] == types[k.value];
    }
  }

  /** `re.sub(r'^\s*-\s*', '', s)`: one leading dash, with the spaces
      around it, is removed. */
  function DropLeadingDash(s: string): (r: string)
    ensures |r| <= |s| && r == s[|s| - |r|..]
  {
    var a := LeadingCount(s, IsSpace);
    if a < |s| && s[a] == '-' then TrimLeft(s[a + 1..], IsSpace) else s
  }

  /** `re.sub(r'^\s*-\s*|\s*-\s*$', '', s)`: a leading dash and a trailing
      dash, each with its surrounding spaces, are removed. The second
      alternative matches leftmost at the start of the spaces before the last
      character when that character (ignoring trailing spaces) is a dash. */
  function TrimDashes(s: string): (r: string)
    ensures |r| <= |s|
  {
    var t := DropLeadingDash(s);
    var u := TrimRight(t, IsSpace);
    if u != [] && u[|u| - 1] == '-' then TrimRight(u[..|u| - 1], IsSpace) else t
  }

  /** `\d+[A-Za-z]?` at the start of `s`: its length, 0 when `s` does not
      start with a digit. `\d+` never gives back a digit, since a digit
      cannot match what follows it in any of the three expressions. */
  function NumberToken(s: string): (n: nat)
    ensures n <= |s|
  {
    var d := LeadingCount(s, IsDigit);
    if d == 0 then 0
    else if d < |s| && IsAsciiLetter(s[d]) then d + 1
    else d
  }

  /** `^\d+[A-Za-z]?$`: digits, then at most one letter, and nothing else. */
  predicate IsHouseNumber(s: string) {
    |s| >= 1
    && (AllDigits(s) || (|s| >= 2 && AllDigits(s[..|s| - 1]) && IsAsciiLetter(s[|s| - 1])))
  }

  /** The token reader agrees with the house-number expression. */
  lemma NumberTokenMatchesHouseNumber(s: string)
    ensures NumberToken(s) == |s| && s != [] <==> IsHouseNumber(s)
    ensures NumberToken(s) >= 1 ==> IsHouseNumber(s[..NumberToken(s)])
  {
    var d := LeadingCount(s, IsDigit);
    assert AllDigits(s[..d]);
    if IsHouseNumber(s) {
      if AllDigits(s) {
        assert d == |s|;
      } else {
        assert !IsDigit(s[|s| - 1]);
        assert d == |s| - 1;
      }
    }
    if d >= 1 && d < |s| && IsAsciiLetter(s[d]) {
      assert s[..d + 1][..d] == s[..d];
    }
  }

  /** `(.+)$` after the spaces of `\s*` (at least `least` of them): the
      rest of the text, or its last space when it is all spaces. */
  function RestGroup(u: string, least: nat): (r: Option<string>)
    ensures r.Some? ==> r.value != [] && |r.value| <= |u| && r.value == u[|u| - |r.value|..]
    ensures r.Some? && least >= 1 ==> |r.value| < |u|
  {
    var b := LeadingCount(u, IsSpace);
    if b < least then None
    else if b < |u| then Some(u[b..])
    else if b > least then Some(u[|u| - 1..])
    else None
  }

  /** `\s*-\s*(.+)$` at the start of `t`: the dash is the first character
      that is not a space (`\s*` cannot give back a space, since the dash
      must follow it) and at least one character comes after it. */
  predicate DashThenText(t: string) {
    var a := LeadingCount(t, IsSpace);
    a + 1 < |t| && t[a] == '-'
  }

  /** `^(\d+[A-Za-z]?)\s*-\s*(.+)$` matches with the number group ending at `n`. */
  predicate DashMatchAt(s: string, n: nat) {
    1 <= n <= |s| && IsHouseNumber(s[..n]) && DashThenText(s[n..])
  }

  /** `^(\d+[A-Za-z]?)\s+(.+)$` matches with the number group ending at
      `n`: a space follows it, and at least one more character. */
  predicate SpaceMatchAt(s: string, n: nat) {
    1 <= n && n + 1 < |s| && IsHouseNumber(s[..n]) && IsSpace(s[n])
  }

  /** A house number followed by a character that is neither a digit nor a
      letter is the number token: `\d+[A-Za-z]?` cannot end anywhere else. */
  lemma NumberTokenAt(s: string, n: nat)
    requires 1 <= n <= |s| && IsHouseNumber(s[..n])
    requires n == |s| || (!IsDigit(s[n]) && !IsAsciiLetter(s[n]))
    ensures NumberToken(s) == n
  {
    var h := s[..n];
    if AllDigits(h) {
      TakeDrop(s, n);
      LeadingCountOfRun(h, s[n..], IsDigit);
    } else {
      var d := s[..n - 1];
      assert d == h[..n - 1];
      assert AllDigits(d) && IsAsciiLetter(s[n - 1]);
      TakeDrop(s, n - 1);
      LeadingCountOfRun(d, s[n - 1..], IsDigit);
    }
  }

  /** `^(\d+[A-Za-z]?)\s*-\s*(.+)$`: number, dash, rest. */
  function NumberDashRest(s: string): (r: Option<(string, string)>)
    ensures r.Some? ==> IsHouseNumber(r.value.0) && r.value.0 <= s && r.value.1 != []
                        && |r.value.0| + |r.value.1| < |s| && r.value.1 == s[|s| - |r.value.1|..]
  {
    var n := NumberToken(s);
    if n == 0 then None
    else
      var t := s[n..];
      var a := LeadingCount(t, IsSpace);
      if a < |t| && t[a] == '-' then
        match RestGroup(t[a + 1..], 0)
        case None => None
        case Some(rest) =>
          NumberTokenMatchesHouseNumber(s);
          DashRestSuffix(s, n, a, rest);
          Some((s[..n], rest))
      else None
  }

  /** The rest group, taken after the number and the dash, ends the text. */
  lemma DashRestSuffix(s: string, n: nat, a: nat, rest: string)
    requires n + a + 1 <= |s| && |rest| <= |s| - n - a - 1
    requires rest == s[n..][a + 1..][|s| - n - a - 1 - |rest|..]
    ensures rest == s[|s| - |rest|..]
  {
  }

  /** The number-dash-rest result is present exactly when the expression
      matches, and its number is the matched prefix. */
  lemma NumberDashRestMeaning(s: string)
    ensures NumberDashRest(s).Some? <==> exists n: nat :: DashMatchAt(s, n)
    ensures NumberDashRest(s).Some? ==> DashMatchAt(s, |NumberDashRest(s).value.0|)
  {
    var n := NumberToken(s);
    NumberTokenMatchesHouseNumber(s);
    if m: nat :| DashMatchAt(s, m) {
      DashMatchToken(s, m);
      assert DashMatchAt(s, n);
    }
    if NumberDashRest(s).Some? {
      assert DashMatchAt(s, n);
    }
  }

  lemma DashMatchToken(s: string, m: nat)
    requires DashMatchAt(s, m)
    ensures NumberToken(s) == m
  {
    var t := s[m..];
    var a := LeadingCount(t, IsSpace);
    assert s[m] == t[0];
    if a > 0 {
      assert IsSpace(t[0]);
    }
    NumberTokenAt(s, m);
  }

  /** `^(\d+[A-Za-z]?)\s+(.+)$`: number, spaces, rest. */
  function NumberSpaceRest(s: string): (r: Option<(string, string)>)
    ensures r.Some? ==> IsHouseNumber(r.value.0) && r.value.0 <= s && r.value.1 != []
                        && |r.value.0| + |r.value.1| < |s| && r.value.1 == s[|s| - |r.value.1|..]
  {
    var n := NumberToken(s);
    if n == 0 then None
    else
      match RestGroup(s[n..], 1)
      case None => None
      case Some(rest) =>
        assert |rest| < |s| - n;
        NumberTokenMatchesHouseNumber(s);
        SuffixOfDrop(s, n, rest);
        Some((s[..n], rest))
  }

  /** The number-space-rest result is present exactly when the expression
      matches, and its number is the matched prefix. */
  lemma NumberSpaceRestMeaning(s: string)
    ensures NumberSpaceRest(s).Some? <==> exists n: nat :: SpaceMatchAt(s, n)
    ensures NumberSpaceRest(s).Some? ==> SpaceMatchAt(s, |NumberSpaceRest(s).value.0|)
  {
    var n := NumberToken(s);
    NumberTokenMatchesHouseNumber(s);
    if m: nat :| SpaceMatchAt(s, m) {
      NumberTokenAt(s, m);
      assert s[n..][0] == s[n];
      assert SpaceMatchAt(s, n);
    }
    if NumberSpaceRest(s).Some? {
      assert s[n..][0] == s[n];
      assert SpaceMatchAt(s, n);
    }
  }

  /** Number step on the parts after the street: the first of them, without
      a leading dash, is the number when it is one outright (and is then
      consumed); when it starts with a number followed by a dash or spaces,
      the number is taken and the rest put back in its place; otherwise there
      is no number and nothing is consumed. */
  function TakeNumber(parts: seq<string>): (r: (Option<string>, seq<string>))
    ensures r.0.Some? ==> IsHouseNumber(r.0.value)
    ensures r.0.None? ==> r.1 == parts
    ensures parts == [] ==> r == (None, [])
    ensures r.0.Some? ==> parts != [] && (r.1 == parts[1..] || (r.1 != [] && r.1 == [r.1[0]] + parts[1..]))
  {
    if parts == [] then (None, parts)
    else
      var pn := CleanSegment(parts[0]);
      if IsHouseNumber(pn) then (Some(pn), parts[1..])
      else match NumberDashRest(pn)
        case Some((num, rest)) => (Some(num), [rest] + parts[1..])
        case None =>
          match NumberSpaceRest(pn)
          case Some((num, rest)) => (Some(num), [rest] + parts[1..])
          case None => (None, parts)
  }

  /** One of the three number expressions matches the cleaned part. */
  ghost predicate NumberMatches(pn: string) {
    IsHouseNumber(pn) || (exists n: nat :: DashMatchAt(pn, n)) || (exists n: nat :: SpaceMatchAt(pn, n))
  }

  /** A number is taken exactly when one of the three expressions matches
      the cleaned first part, and it is a prefix of that part. */
  lemma TakeNumberWhen(parts: seq<string>)
    requires parts != []
    ensures var pn, r := CleanSegment(parts[0]), TakeNumber(parts);
            && (r.0.Some? <==> NumberMatches(pn))
            && (r.0.Some? ==> r.0.value <= pn)
  {
    var pn := CleanSegment(parts[0]);
    NumberDashRestMeaning(pn);
    NumberSpaceRestMeaning(pn);
  }

  /** A part that is a house number outright is consumed. Otherwise the
      number-dash-rest expression is tried first and then the
      number-space-rest one; the first that matches gives the number, and its
      rest takes the part's place in front of the other parts. */
  lemma TakeNumberRest(parts: seq<string>)
    requires parts != []
    ensures var pn, r := CleanSegment(parts[0]), TakeNumber(parts);
            && (IsHouseNumber(pn) ==> r == (Some(pn), parts[1..]))
            && (!IsHouseNumber(pn) && NumberDashRest(pn).Some? ==>
                  r == (Some(NumberDashRest(pn).value.0), [NumberDashRest(pn).value.1] + parts[1..]))
            && (!IsHouseNumber(pn) && NumberDashRest(pn).None? && NumberSpaceRest(pn).Some? ==>
                  r == (Some(NumberSpaceRest(pn).value.0), [NumberSpaceRest(pn).value.1] + parts[1..]))
  {
  }

  /** A stripped segment that does not start with a dash is left alone by
      the stripping and dash removal in front of the number and
      neighbourhood steps. */
  lemma CleanSegmentKept(part: string)
    requires part != [] && !IsSpace(part[0]) && part[0] != '-' && !IsSpace(part[|part| - 1])
    ensures CleanSegment(part) == part
  {
    assert Strip(part) == part;
    assert LeadingCount(part, IsSpace) == 0;
  }

  /** The ends of `a + mid + b`, and the character after `a`. */
  lemma JoinedEnds(a: string, mid: string, b: string)
    requires a != [] && mid != [] && b != []
    ensures var s := a + mid + b;
            && s[0] == a[0] && s[|s| - 1] == b[|b| - 1]
            && |a| + 1 < |s| && s[|a|] == mid[0]
  {
  }

  /** Digits followed by a space are not a house number by themselves. */
  lemma NotHouseNumberWithSpace(part: string, i: nat)
    requires i + 1 < |part| && part[i] == ' '
    ensures !IsHouseNumber(part)
  {
    if |part| >= 2 {
      assert part[..|part| - 1][i] == ' ';
    }
  }

  /** A segment that is a house number outright is taken whole. */
  lemma NumberAlone(n: string, more: seq<string>)
    requires IsHouseNumber(n)
    ensures TakeNumber([n] + more) == (Some(n), more)
  {
    assert CleanSegment(n) == n by {
      assert IsDigit(n[0]) by {
        if !AllDigits(n) {
          assert n[..|n| - 1][0] == n[0];
        }
      }
      CleanSegmentKept(n);
    }
    NumberTakenWhole(n, more);
  }

  /** The number step on a segment that is a house number by itself. */
  lemma NumberTakenWhole(part: string, more: seq<string>)
    requires CleanSegment(part) == part && IsHouseNumber(part)
    ensures TakeNumber([part] + more) == (Some(part), more)
  {
    ConsTail(part, more);
  }

  /** "275 - Pinheiros": the number is taken and the text after the dash is
      put back in place of the segment. */
  lemma NumberBeforeDash(n: string, rest: string, more: seq<string>)
    requires n != [] && AllDigits(n)
    requires rest != [] && !IsSpace(rest[0]) && !IsSpace(rest[|rest| - 1])
    ensures TakeNumber([n + " - " + rest] + more) == (Some(n), [rest] + more)
  {
    var part := n + " - " + rest;
    JoinedEnds(n, " - ", rest);
    CleanSegmentKept(part);
    NotHouseNumberWithSpace(part, |n|);
    DashRestOfNumber(n, rest);
    NumberTakenAtDash(part, more, n, rest);
  }

  /** The number step on a segment that starts with a number followed by a
      dash and more text. */
  lemma NumberTakenAtDash(part: string, more: seq<string>, num: string, rest: string)
    requires CleanSegment(part) == part && !IsHouseNumber(part)
    requires NumberDashRest(part) == Some((num, rest))
    ensures TakeNumber([part] + more) == (Some(num), [rest] + more)
  {
    ConsTail(part, more);
  }

  /** The number step on a segment that starts with a number followed by
      spaces and more text. */
  lemma NumberTakenAtSpace(part: string, more: seq<string>, num: string, rest: string)
    requires CleanSegment(part) == part && !IsHouseNumber(part)
    requires NumberDashRest(part) == None && NumberSpaceRest(part) == Some((num, rest))
    ensures TakeNumber([part] + more) == (Some(num), [rest] + more)
  {
    ConsTail(part, more);
  }

  lemma DashRestOfNumber(n: string, rest: string)
    requires n != [] && AllDigits(n)
    requires rest != [] && !IsSpace(rest[0])
    ensures NumberDashRest(n + " - " + rest) == Some((n, rest))
  {
    var part := n + " - " + rest;
    DashPieces(n, rest);
    NumberTokenBeforeSpace(n, "- " + rest);
    LeadingCountOfRun(" ", "- " + rest, IsSpace);
    RestAfterOneSpace(rest);
  }

  /** How "n - rest" falls apart around the number. */
  lemma DashPieces(n: string, rest: string)
    ensures var part := n + " - " + rest;
            && part == n + (" " + ("- " + rest))
            && part[|n|..] == " " + ("- " + rest)
            && part[|n|..][2..] == " " + rest
            && part[..|n|] == n
  {
    var part := n + " - " + rest;
    assert part == n + (" " + ("- " + rest));
    assert part[|n|..] == " " + ("- " + rest);
  }

  /** The number token ends at the space after the digits. */
  lemma NumberTokenBeforeSpace(n: string, tail: string)
    requires n != [] && AllDigits(n)
    ensures NumberToken(n + (" " + tail)) == |n|
  {
    LeadingCountOfRun(n, " " + tail, IsDigit);
  }

  /** `\s*(.+)$` on one space and a text starting with a non-space. */
  lemma RestAfterOneSpace(rest: string)
    requires rest != [] && !IsSpace(rest[0])
    ensures RestGroup(" " + rest, 0) == Some(rest) && RestGroup(" " + rest, 1) == Some(rest)
  {
    LeadingCountOfRun(" ", rest, IsSpace);
    assert (" " + rest)[1..] == rest;
  }

  /** "275 Pinheiros": the number is taken and the text after the spaces is
      put back in place of the segment. */
  lemma NumberBeforeSpace(n: string, rest: string, more: seq<string>)
    requires n != [] && AllDigits(n)
    requires rest != [] && !IsSpace(rest[0]) && !IsSpace(rest[|rest| - 1]) && rest[0] != '-'
    ensures TakeNumber([n + " " + rest] + more) == (Some(n), [rest] + more)
  {
    var part := n + " " + rest;
    JoinedEnds(n, " ", rest);
    CleanSegmentKept(part);
    NotHouseNumberWithSpace(part, |n|);
    SpaceRestOfNumber(n, rest);
    NumberTakenAtSpace(part, more, n, rest);
  }

  lemma SpaceRestOfNumber(n: string, rest: string)
    requires n != [] && AllDigits(n)
    requires rest != [] && !IsSpace(rest[0]) && rest[0] != '-'
    ensures NumberDashRest(n + " " + rest) == None
    ensures NumberSpaceRest(n + " " + rest) == Some((n, rest))
  {
    var part := n + " " + rest;
    NumberTokenBeforeSpace(n, rest);
    assert part == n + (" " + rest);
    var t := part[|n|..];
    assert t == " " + rest;
    LeadingCountOfRun(" ", rest, IsSpace);
    assert t[1] == rest[0];
    RestAfterOneSpace(rest);
    assert part[..|n|] == n;
  }

  /** `[re.sub(r'^\s*-\s*|\s*-\s*$', '', p).strip() for p in parts]`, empty
      results dropped: the dash-trimmed parts that are not empty, in order. */
  function ComplementPieces(parts: seq<string>): (r: seq<string>)
    ensures |r| <= |parts|
    ensures forall k :: 0 <= k < |r| ==> r[k] != []
    ensures forall x :: x in r <==> x != [] && x in DashTrimmed(parts)
    ensures (forall k :: 0 <= k < |parts| ==> DashTrimmed(parts)[k] != []) ==> r == DashTrimmed(parts)
  {
    NonEmpty(DashTrimmed(parts))
  }

  /** Each part trimmed of its dashes and spaces, in place. */
  function DashTrimmed(parts: seq<string>): (r: seq<string>)
    ensures |r| == |parts|
    ensures forall k :: 0 <= k < |parts| ==> r[k] == Strip(TrimDashes(parts[k]))
  {
    if parts == [] then [] else [Strip(TrimDashes(parts[0]))] + DashTrimmed(parts[1..])
  }

  /** The non-empty texts, in order: exactly the non-empty members, and
      the whole list when none is empty. */
  function NonEmpty(ps: seq<string>): (r: seq<string>)
    ensures |r| <= |ps|
    ensures forall k :: 0 <= k < |r| ==> r[k] != []
    ensures forall x :: x in r <==> x != [] && x in ps
    ensures (forall k :: 0 <= k < |ps| ==> ps[k] != []) ==> r == ps
  {
    if ps == [] then []
    else
      var rest := NonEmpty(ps[1..]);
      assert forall x :: x in ps <==> x == ps[0] || x in ps[1..] by {
        assert ps == [ps[0]] + ps[1..];
      }
      if ps[0] == [] then rest else [ps[0]] + rest
  }

  /** Dropping empty texts works piece by piece: it commutes with
      concatenation. */
  lemma {:induction false} NonEmptyAppend(a: seq<string>, b: seq<string>)
    ensures NonEmpty(a + b) == NonEmpty(a) + NonEmpty(b)
  {
    if a == [] {
      assert a + b == b;
    } else {
      var h := if a[0] == [] then [] else [a[0]];
      assert (a + b)[0] == a[0] && (a + b)[1..] == a[1..] + b;
      NonEmptyAppend(a[1..], b);
      AppendAssoc(h, NonEmpty(a[1..]), NonEmpty(b));
    }
  }

  /** Neighbourhood and complement step: the last part, without a leading
      dash, is the neighbourhood; if it holds " - ", only the stripped text
      after the last one is, and the stripped text before it (when not
      empty) joins the other parts, which, trimmed of dashes, are joined
      with " - " into the complement. */
  function SplitTail(parts: seq<string>): (r: (Option<string>, Option<string>))
    ensures parts == [] <==> r.1.None?
    ensures r.0.Some? ==> r.0.value != []
    ensures parts != [] ==>
              var c, init := CleanSegment(parts[|parts| - 1]), parts[..|parts| - 1];
              && (FindLast(c, " - ").None? ==> r == (Complement(init), Some(c)))
              && (FindLast(c, " - ").Some? ==>
                    var i := FindLast(c, " - ").value;
                    var before := Strip(c[..i]);
                    && r.1 == Some(Strip(c[i + 3..]))
                    && r.0 == Complement(if before != [] then init + [before] else init))
  {
    if parts == [] then (None, None)
    else
      var nr := NeighborhoodSplit(CleanSegment(parts[|parts| - 1]), parts[..|parts| - 1]);
      (Complement(nr.1), Some(nr.0))
  }

  /** A part stripped, without a leading dash, and stripped again. */
  function CleanSegment(p: string): string {
    Strip(DropLeadingDash(Strip(p)))
  }

  /** The neighbourhood read from the cleaned last part, and the parts left
      for the complement. */
  function NeighborhoodSplit(last: string, init: seq<string>): (r: (string, seq<string>))
    ensures |init| <= |r.1| <= |init| + 1 && r.1[..|init|] == init
  {
    match FindLast(last, " - ")
    case Some(i) =>
      var before := Strip(last[..i]);
      (Strip(last[i + 3..]), if before != [] then init + [before] else init)
    case None => (last, init)
  }

  /** The complement: the pieces joined with " - ", if any is left. */
  function Complement(rest: seq<string>): (r: Option<string>)
    ensures r.Some? ==> r.value != []
  {
    var pieces := ComplementPieces(rest);
    if pieces != [] then Some(Join(" - ", pieces)) else None
  }

  /** A piece with no space or dash at either end: the complement step
      leaves it as it is. */
  predicate CleanPiece(c: string) {
    c != [] && !IsSpace(c[0]) && c[0] != '-' && !IsSpace(c[|c| - 1]) && c[|c| - 1] != '-'
  }

  /** Clean pieces are joined with " - " into the complement, all of them
      and in order. */
  lemma ComplementJoin(cs: seq<string>)
    requires forall k :: 0 <= k < |cs| ==> CleanPiece(cs[k])
    ensures Complement(cs) == if cs == [] then None else Some(Join(" - ", cs))
  {
    CleanPiecesKept(cs);
    assert ComplementPieces(cs) == cs;
  }

  lemma CleanPiecesKept(cs: seq<string>)
    requires forall k :: 0 <= k < |cs| ==> CleanPiece(cs[k])
    ensures DashTrimmed(cs) == cs
  {
    forall k | 0 <= k < |cs|
      ensures DashTrimmed(cs)[k] == cs[k]
    {
      CleanPieceKept(cs[k]);
    }
  }

  lemma CleanPieceKept(c: string)
    requires CleanPiece(c)
    ensures Strip(TrimDashes(c)) == c
  {
    TrimDashesKeeps(c);
  }

  /** "loja 14 - Consolação": when the last part, cleaned of spaces and a
      leading dash, reads `c - nb`, the text after its last " - " is the
      neighbourhood and the text before it the complement. */
  lemma ComplementBeforeLastDash(part: string, c: string, nb: string)
    requires CleanSegment(part) == c + " - " + nb
    requires c != [] && !IsSpace(c[0]) && c[0] != '-' && !IsSpace(c[|c| - 1]) && c[|c| - 1] != '-'
    requires nb != [] && !IsSpace(nb[0]) && nb[0] != '-' && !IsSpace(nb[|nb| - 1])
    requires !Contains(nb, " - ")
    ensures SplitTail([part]) == (Some(c), Some(nb))
  {
    NeighborhoodAfterLastDash(c, nb);
    ComplementOfOne(c);
    SplitTailOfOne(part, c + " - " + nb, c, nb);
  }

  lemma SplitTailOfOne(part: string, last: string, c: string, nb: string)
    requires CleanSegment(part) == last
    requires NeighborhoodSplit(last, []) == (nb, [c]) && Complement([c]) == Some(c)
    ensures SplitTail([part]) == (Some(c), Some(nb))
  {
    assert [part][..0] == [];
  }

  /** A single clean piece is the whole complement. */
  lemma ComplementOfOne(c: string)
    requires c != [] && !IsSpace(c[0]) && c[0] != '-' && !IsSpace(c[|c| - 1]) && c[|c| - 1] != '-'
    ensures Complement([c]) == Some(c)
  {
    TrimDashesKeeps(c);
    assert DashTrimmed([c]) == [c];
  }

  lemma NeighborhoodAfterLastDash(c: string, nb: string)
    requires c != [] && !IsSpace(c[0]) && !IsSpace(c[|c| - 1])
    requires nb != [] && !IsSpace(nb[0]) && nb[0] != '-' && !IsSpace(nb[|nb| - 1])
    requires !Contains(nb, " - ")
    ensures NeighborhoodSplit(c + " - " + nb, []) == (nb, [c])
  {
    var last := c + " - " + nb;
    LastDashAt(c, nb);
    assert last[..|c|] == c && last[|c| + 3..] == nb;
    assert Strip(c) == c && Strip(nb) == nb;
  }

  /** The last " - " of `c - nb` is the one between them. */
  lemma LastDashAt(c: string, nb: string)
    requires nb != [] && nb[0] != '-' && !Contains(nb, " - ")
    ensures FindLast(c + " - " + nb, " - ") == Some(|c|)
  {
    var part := c + " - " + nb;
    var pat := " - ";
    assert part[|c|..|c| + 3] == pat;
    assert OccursAt(part, pat, |c|);
    forall j | |c| < j
      ensures !OccursAt(part, pat, j)
    {
      if j + 3 <= |part| {
        if j == |c| + 1 {
          assert part[j..j + 3][0] == '-';
        } else if j == |c| + 2 {
          assert part[j..j + 3][1] == nb[0];
        } else {
          var e := j - |c| - 3;
          assert part[j..j + 3] == nb[e..e + 3];
          assert !OccursAt(nb, pat, e);
        }
      }
    }
  }

  /** A part without dashes or spaces at its ends keeps them. */
  lemma TrimDashesKeeps(c: string)
    requires c != [] && !IsSpace(c[0]) && c[0] != '-' && !IsSpace(c[|c| - 1]) && c[|c| - 1] != '-'
    ensures TrimDashes(c) == c
  {
    assert LeadingCount(c, IsSpace) == 0;
    assert DropLeadingDash(c) == c;
    assert TrailingCount(c, IsSpace) == 0;
    assert TrimRight(c, IsSpace) == c;
  }

  /** The street part of the address: nothing when no text is left;
      otherwise the comma-separated, stripped, non-empty parts are read from
      the left. */
  function ParseStreet(types: seq<string>, s: string): (r: Street)
    ensures s == [] ==> r == NoStreet
    ensures r.streetName.None? ==> r == NoStreet
    ensures r.streetType.Some? ==> r.streetType.value in types && r.streetName.Some?
    ensures r.streetNumber.Some? ==> IsHouseNumber(r.streetNumber.value)
    ensures CleanParts(Split(s, ',')) == [] ==> r == NoStreet
    ensures var parts := CleanParts(Split(s, ','));
            parts != [] ==>
              var tn := StreetTypeAndName(types, parts[0]);
              var num := TakeNumber(parts[1..]);
              && r.streetType == tn.0 && r.streetName == Some(tn.1)
              && r.streetNumber == num.0
              && (r.streetComplement, r.streetNeighborhood) == SplitTail(num.1)
  {
    if s == [] then NoStreet
    else
      var parts := CleanParts(Split(s, ','));
      if parts == [] then NoStreet
      else
        var (streetType, streetName) := StreetTypeAndName(types, parts[0]);
        var (number, rest) := TakeNumber(parts[1..]);
        var (complement, neighborhood) := SplitTail(rest);
        Street(streetType, Some(streetName), number, complement, neighborhood)
  }

  /** The two street-type tables give the same street part, except for the
      type and name of a first segment the Airflow table reads as "Pç.". */
  lemma ParseStreetTablesAgree(s: string)
    ensures var a, m := ParseStreet(AirflowStreetTypes, s), ParseStreet(MigrationStreetTypes, s);
            && m.streetNumber == a.streetNumber
            && m.streetComplement == a.streetComplement
            && m.streetNeighborhood == a.streetNeighborhood
            && (a.streetType != Some("Pç.") ==> m == a)
            && (a.streetType == Some("Pç.") ==> m.streetType.None?)
  {
    if s != [] {
      var parts := CleanParts(Split(s, ','));
      if parts != [] {
        StreetTablesAgree(parts[0]);
      }
    }
  }

  // ---------------------------------------------------------------------
  // The whole parser

  /** The address fields cut from the right, and the text left over. */
  datatype Tail = Tail(
    country: Option<string>,
    postalCode: Option<string>,
    state: Option<string>,
    city: Option<string>,
    rest: string)

  /** Steps 2 to 5 on collapsed text: country, postal code, state, city. */
  function CutRight(s: string): (r: Tail)
    ensures |r.rest| <= |s|
  {
    var (country, s1) := ExtractCountry(s);
    var (postalCode, s2) := ExtractPostalCode(s1);
    assert |s2| <= |s1| <= |s|;
    var (state, s3) := ExtractState(s2);
    assert |s3| <= |s2|;
    var (city, s4) := ExtractCity(s3);
    assert |s4| <= |s3| by {
      if s3 != [] {
        CityIsLastSegment(s3);
      }
    }
    Tail(country, postalCode, state, city, s4)
  }

  /** `parse_street_name` with the given street-type table. A missing or
      empty address gives no field at all; every field that is given has the
      shape its step looks for. */
  function Parse(types: seq<string>, address: Option<string>): (r: Address)
    ensures address.None? || address == Some([]) ==> r == NoAddress
    ensures r.postalCode.Some? ==> |r.postalCode.value| == 8 && AllDigits(r.postalCode.value)
    ensures r.state.Some? ==> |r.state.value| == 2 && IsUpper(r.state.value[0]) && IsUpper(r.state.value[1])
    ensures r.streetType.Some? ==> r.streetType.value in types && r.streetName.Some?
    ensures r.streetNumber.Some? ==> IsHouseNumber(r.streetNumber.value)
    ensures address.Some? && address.value != [] ==>
              var t := CutRight(Collapse(address.value));
              var st := ParseStreet(types, t.rest);
              && (r.country, r.postalCode, r.state, r.city) == (t.country, t.postalCode, t.state, t.city)
              && (r.streetType, r.streetName, r.streetNumber) == (st.streetType, st.streetName, st.streetNumber)
              && (r.streetComplement, r.streetNeighborhood) == (st.streetComplement, st.streetNeighborhood)
  {
    match address
    case None => NoAddress
    case Some(a) =>
      if a == [] then NoAddress
      else
        var t := CutRight(Collapse(a));
        var st := ParseStreet(types, t.rest);
        Address(st.streetType, st.streetName, st.streetNumber, st.streetComplement,
                st.streetNeighborhood, t.postalCode, t.city, t.state, t.country)
  }
  /** Parsing with the migration table differs from parsing with the Airflow
      table only in the street type and name, and only when the Airflow
      table finds "Pç.". */
  lemma ParseTablesAgree(address: Option<string>)
    ensures var a, m := Parse(AirflowStreetTypes, address), Parse(MigrationStreetTypes, address);
            && m.streetNumber == a.streetNumber
            && m.streetComplement == a.streetComplement
            && m.streetNeighborhood == a.streetNeighborhood
            && m.postalCode == a.postalCode && m.city == a.city
            && m.state == a.state && m.country == a.country
            && (a.streetType != Some("Pç.") ==> m == a)
            && (a.streetType == Some("Pç.") ==> m.streetType.None?)
  {
    if address.Some? && address.value != [] {
      var t := CutRight(Collapse(address.value));
      var sa, sm := ParseStreet(AirflowStreetTypes, t.rest), ParseStreet(MigrationStreetTypes, t.rest);
      assert Parse(AirflowStreetTypes, address)
             == Address(sa.streetType, sa.streetName, sa.streetNumber, sa.streetComplement,
                        sa.streetNeighborhood, t.postalCode, t.city, t.state, t.country);
      assert Parse(MigrationStreetTypes, address)
             == Address(sm.streetType, sm.streetName, sm.streetNumber, sm.streetComplement,
                        sm.streetNeighborhood, t.postalCode, t.city, t.state, t.country);
      ParseStreetTablesAgree(t.rest);
    }
  }
}
