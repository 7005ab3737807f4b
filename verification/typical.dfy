/** `parse_street_name` on the layout most Brazilian addresses from the
    Places API share,

        "Rua Augusta, 275 - Consolação, São Paulo - SP, 01305-000, Brasil",

    that is "street, number - neighbourhood, city - UF, 00000-000, country".
    For every address of that layout whose free-text components are single
    spaced, hold no comma and no digit, every field lands where it belongs. */
module TypicalAddress {
  import opened Wrappers
  import opened Text
  import opened A = Address

  predicate NoDigit(s: string) {
    forall i :: 0 <= i < |s| ==> !IsDigit(s[i])
  }

  /** Non-empty, with no whitespace at either end. */
  predicate CleanEnds(s: string) {
    s != [] && !IsSpace(s[0]) && !IsSpace(s[|s| - 1])
  }

  /** A free-text component: non-empty, single spaced, without a comma. */
  ghost predicate Component(s: string) {
    s != [] && IsCollapsed(s) && ',' !in s
  }

  /** "street, n - nb, city - UF, cep5-cep3, country". */
  function Typical(street: string, n: string, nb: string, city: string, uf: string,
                   cep5: string, cep3: string, country: string): string
  {
    street + ", " + n + " - " + nb + ", " + city + " - " + uf + ", " + cep5 + "-" + cep3 + ", " + country
  }

  /** The components of a typical address: a house number of at most four
      digits (a longer one could be read as part of a postal code), a state
      of two capital letters, a postal code of five and three digits, and a
      neighbourhood that does not itself start with a dash or hold " - ". */
  ghost predicate TypicalParts(street: string, n: string, nb: string, city: string, uf: string,
                               cep5: string, cep3: string, country: string)
  {
    && Component(street) && NoDigit(street)
    && n != [] && |n| <= 4 && AllDigits(n)
    && Component(nb) && NoDigit(nb) && nb[0] != '-' && !Contains(nb, " - ")
    && Component(city) && NoDigit(city)
    && |uf| == 2 && IsUpper(uf[0]) && IsUpper(uf[1])
    && |cep5| == 5 && AllDigits(cep5) && |cep3| == 3 && AllDigits(cep3)
    && Component(country)
  }

  /** Every field of a typical address is read back: the street type and
      name from the street, the number, no complement, the neighbourhood,
      the postal code without its dash, the city, the state and the
      country. */
  lemma {:induction false} ParseTypical(types: seq<string>, street: string, n: string, nb: string, city: string,
                     uf: string, cep5: string, cep3: string, country: string)
    requires TypicalParts(street, n, nb, city, uf, cep5, cep3, country)
    ensures var tn := StreetTypeAndName(types, street);
            Parse(types, Some(Typical(street, n, nb, city, uf, cep5, cep3, country)))
            == A.Address(tn.0, Some(tn.1), Some(n), None, Some(nb),
                               Some(cep5 + cep3), Some(city), Some(uf), Some(country))
  {
    var j2 := street + ", " + n + " - " + nb;
    var j4 := j2 + ", " + city + " - " + uf;
    var j6 := j4 + ", " + cep5 + "-" + cep3;
    var a := j6 + ", " + country;
    assert a == Typical(street, n, nb, city, uf, cep5, cep3, country);
    TypicalCollapsed(street, n, nb, city, uf, cep5, cep3, country);
    CollapseFixesCollapsed(a);
    TypicalTail(street, n, nb, city, uf, cep5, cep3, country);
    StreetPartOfTypical(types, street, n, nb);
  }

  // ---------------------------------------------------------------------
  // Collapsing

  lemma {:induction false} NoSpaceCollapsed(s: string)
    requires forall i :: 0 <= i < |s| ==> !IsSpace(s[i])
    ensures IsCollapsed(s)
  {
  }

  /** Two single-spaced texts joined by ", ", " - " or "-" are single spaced. */
  lemma {:induction false} CollapsedJoin(x: string, sep: string, y: string)
    requires x != [] && IsCollapsed(x) && y != [] && IsCollapsed(y)
    requires sep == ", " || sep == " - " || sep == "-"
    ensures IsCollapsed(x + sep + y)
  {
    var s := x + sep + y;
    forall i | 0 <= i < |s| && IsSpace(s[i])
      ensures s[i] == ' ' && (i + 1 < |s| ==> !IsSpace(s[i + 1]))
    {
      if i < |x| {
        assert s[i] == x[i];
        if i + 1 < |x| {
          assert s[i + 1] == x[i + 1];
        } else {
          assert s[i + 1] == sep[0];
        }
      } else if i < |x| + |sep| {
        assert s[i] == sep[i - |x|];
        if i + 1 < |x| + |sep| {
          assert s[i + 1] == sep[i + 1 - |x|];
        } else {
          assert s[i + 1] == y[0];
        }
      } else {
        assert s[i] == y[i - |x| - |sep|];
        if i + 1 < |s| {
          assert s[i + 1] == y[i + 1 - |x| - |sep|];
        }
      }
    }
    assert s[0] == x[0] && s[|s| - 1] == y[|y| - 1];
  }

  lemma {:induction false} TypicalCollapsed(street: string, n: string, nb: string, city: string, uf: string,
                         cep5: string, cep3: string, country: string)
    requires TypicalParts(street, n, nb, city, uf, cep5, cep3, country)
    ensures IsCollapsed(Typical(street, n, nb, city, uf, cep5, cep3, country))
  {
    NoSpaceCollapsed(n);
    NoSpaceCollapsed(uf);
    NoSpaceCollapsed(cep5);
    NoSpaceCollapsed(cep3);
    var j1 := street + ", " + n;
    CollapsedJoin(street, ", ", n);
    var j2 := j1 + " - " + nb;
    CollapsedJoin(j1, " - ", nb);
    var j3 := j2 + ", " + city;
    CollapsedJoin(j2, ", ", city);
    var j4 := j3 + " - " + uf;
    CollapsedJoin(j3, " - ", uf);
    var j5 := j4 + ", " + cep5;
    CollapsedJoin(j4, ", ", cep5);
    var j6 := j5 + "-" + cep3;
    CollapsedJoin(j5, "-", cep3);
    CollapsedJoin(j6, ", ", country);
  }

  // ---------------------------------------------------------------------
  // Trimming

  /** Trimming removes exactly the `p`-characters around a text whose ends
      are outside `p`. */
  lemma {:induction false} TrimAround(a: string, x: string, b: string, p: char -> bool)
    requires forall i :: 0 <= i < |a| ==> p(a[i])
    requires forall i :: 0 <= i < |b| ==> p(b[i])
    requires x != [] && !p(x[0]) && !p(x[|x| - 1])
    ensures Trim(a + x + b, p) == x
  {
    var s := a + x + b;
    var t := TrimRight(s, p);
    assert s[|a| + |x| - 1] == x[|x| - 1];
    assert |t| > 0 ==> t[|t| - 1] == s[|t| - 1];
    assert t == a + x;
    var r := TrimLeft(t, p);
    assert t[|a|] == x[0];
    assert |r| > 0 ==> r[0] == t[|t| - |r|];
    assert r == x;
  }

  /** Python's `s.strip()` on `s` with a space in front. */
  lemma {:induction false} StripSpaceBefore(x: string)
    requires x != [] && !IsSpace(x[0]) && !IsSpace(x[|x| - 1])
    ensures Strip(" " + x) == x
  {
    var e: string := [];
    assert " " + x + e == " " + x;
    TrimAround(" ", x, e, IsSpace);
  }

  lemma {:induction false} StripSpaceAfter(x: string)
    requires x != [] && !IsSpace(x[0]) && !IsSpace(x[|x| - 1])
    ensures Strip(x + " ") == x
  {
    var e: string := [];
    assert e + x == x;
    TrimAround(e, x, " ", IsSpace);
  }

  /** `str.strip(' ,')` on `x` followed by ", ". */
  lemma {:induction false} TrimCommaAfter(x: string)
    requires x != [] && !IsSpaceOrComma(x[0]) && !IsSpaceOrComma(x[|x| - 1])
    ensures Trim(x + ", ", IsSpaceOrComma) == x
  {
    var e: string := [];
    assert e + x == x;
    TrimAround(e, x, ", ", IsSpaceOrComma);
  }

  // ---------------------------------------------------------------------
  // The steps from the right

  /** The comma at `i` is the last one. */
  lemma {:induction false} LastCommaAt(s: string, i: nat)
    requires i < |s| && s[i] == ',' && ',' !in s[i + 1..]
    ensures LastIndexOf(s, ',') == Some(i)
  {
    assert s[i] in s;
  }

  /** Country, postal code, state and city come off in turn and leave
      "street, n - nb". */
  lemma {:induction false} TypicalTail(street: string, n: string, nb: string, city: string, uf: string,
                    cep5: string, cep3: string, country: string)
    requires TypicalParts(street, n, nb, city, uf, cep5, cep3, country)
    ensures CutRight(Typical(street, n, nb, city, uf, cep5, cep3, country))
            == Tail(Some(country), Some(cep5 + cep3), Some(uf), Some(city), street + ", " + n + " - " + nb)
  {
    var j2 := street + ", " + n + " - " + nb;
    var j3 := j2 + ", " + city;
    var j4 := j3 + " - " + uf;
    var j6 := j4 + ", " + cep5 + "-" + cep3;
    var a := j6 + ", " + country;
    assert a == Typical(street, n, nb, city, uf, cep5, cep3, country);
    CountryOfTypical(j6, country);
    PostalOfTypical(street, n, nb, city, uf, cep5, cep3);
    StateOfTypical(j3, uf);
    CityOfTypical(j2, city);
  }

  lemma {:induction false} CountryOfTypical(j6: string, country: string)
    requires CleanEnds(j6) && CleanEnds(country) && ',' !in country
    ensures ExtractCountry(j6 + ", " + country) == (Some(country), j6)
  {
    var a := j6 + ", " + country;
    CommaJoin(j6, country);
    CountryAtComma(a, |j6|, j6, " " + country);
    StripSpaceBefore(country);
  }

  lemma {:induction false} CountryAtComma(s: string, i: nat, before: string, after: string)
    requires i < |s| && s[i] == ',' && s[..i] == before && s[i + 1..] == after
    requires after != [] && ',' !in after
    ensures ExtractCountry(s) == (Some(Strip(after)), Strip(before))
  {
    CountryAfterLastComma(s, i);
  }

  lemma {:induction false} CityOfTypical(j2: string, city: string)
    requires CleanEnds(j2) && CleanEnds(city) && ',' !in city
    ensures ExtractCity(j2 + ", " + city) == (Some(city), j2)
  {
    var j3 := j2 + ", " + city;
    CommaJoin(j2, city);
    CityAtComma(j3, |j2|, j2, " " + city);
    StripSpaceBefore(city);
  }

  lemma {:induction false} CityAtComma(s: string, i: nat, before: string, after: string)
    requires i < |s| && s[i] == ',' && s[..i] == before && s[i + 1..] == after
    requires ',' !in after
    ensures ExtractCity(s) == (Some(Strip(after)), Strip(before))
  {
    LastCommaAt(s, i);
    CityAfterLastComma(s, i);
  }

  lemma {:induction false} StateOfTypical(j3: string, uf: string)
    requires CleanEnds(j3) && |uf| == 2 && IsUpper(uf[0]) && IsUpper(uf[1])
    ensures ExtractState(j3 + " - " + uf) == (Some(uf), j3)
  {
    var j4 := j3 + " - " + uf;
    var p := |j3| + 1;
    DashJoin(j3, uf);
    StateAtDash(j4, p, uf);
    StateFromMatch(j4, p);
    StripSpaceAfter(j3);
  }

  /** A dash, one space and two capital letters at the very end. */
  lemma {:induction false} StateAtDash(s: string, p: nat, uf: string)
    requires p < |s| && s[p] == '-' && s[p + 1..] == " " + uf
    requires |uf| == 2 && IsUpper(uf[0]) && IsUpper(uf[1])
    ensures var rest := s[p + 1..];
            && StateAt(s, p) && LeadingCount(rest, IsSpace) == 1 && rest[1..3] == uf
  {
    var rest := s[p + 1..];
    LeadingCountOfRun(" ", uf, IsSpace);
    assert rest[1] == uf[0] && rest[2] == uf[1];
    StateTailEmpty(rest[3..]);
    AfterSpace(rest, uf);
  }

  lemma {:induction false} AfterSpace(t: string, u: string)
    requires t == " " + u
    ensures t[1..] == u && t[1..|t|] == u
  {
  }

  lemma {:induction false} StateTailEmpty(t: string)
    requires |t| == 0
    ensures IsStateTail(t)
  {
  }

  /** The pieces of `x, y`: the comma, the text before it, the text after. */
  lemma {:induction false} CommaJoin(x: string, y: string)
    requires ',' !in y
    ensures var s := x + ", " + y;
            && |x| < |s| && s[|x|] == ',' && s[..|x|] == x && s[|x| + 1..] == " " + y
            && ',' !in s[|x| + 1..]
  {
    var s := x + ", " + y;
    JoinDrop(x, ", ", y, 1);
    assert ", "[1..] == " ";
  }

  /** The pieces of `x - y`: the dash, the text before it with the space,
      the text after it. */
  lemma {:induction false} DashJoin(x: string, y: string)
    ensures var s := x + " - " + y;
            && |x| + 1 < |s| && s[|x| + 1] == '-' && s[..|x| + 1] == x + " " && s[|x| + 2..] == " " + y
  {
    JoinTake(x, " - ", y, 1);
    JoinDrop(x, " - ", y, 2);
    assert " - "[..1] == " " && " - "[2..] == " ";
  }

  lemma {:induction false} JoinTake(x: string, sep: string, y: string, k: nat)
    requires k <= |sep|
    ensures (x + sep + y)[..|x| + k] == x + sep[..k]
  {
    var s := x + sep + y;
    forall i | 0 <= i < |x| + k
      ensures s[i] == (x + sep[..k])[i]
    {
    }
  }

  lemma {:induction false} JoinDrop(x: string, sep: string, y: string, k: nat)
    requires k <= |sep|
    ensures (x + sep + y)[|x| + k..] == sep[k..] + y
  {
  }

  /** The postal code is the first place where five digits stand in a row:
      the house number has at most four. */
  lemma {:induction false} PostalOfTypical(street: string, n: string, nb: string, city: string, uf: string,
                                           cep5: string, cep3: string)
    requires Component(street) && NoDigit(street) && n != [] && |n| <= 4
    requires NoDigit(nb) && NoDigit(city) && |uf| == 2 && IsUpper(uf[0]) && IsUpper(uf[1])
    requires |cep5| == 5 && AllDigits(cep5) && |cep3| == 3 && AllDigits(cep3)
    ensures var j4 := street + ", " + n + " - " + nb + ", " + city + " - " + uf;
            ExtractPostalCode(j4 + ", " + cep5 + "-" + cep3) == (Some(cep5 + cep3), j4)
  {
    var j4 := street + ", " + n + " - " + nb + ", " + city + " - " + uf;
    var s := j4 + ", " + cep5 + "-" + cep3;
    var pos := |j4| + 2;
    var x, z := street + ", ", " - " + nb + ", " + city + " - " + uf + ", ";
    TypicalDigits(street, n, nb, city, uf);
    PostalPieces(j4, cep5, cep3);
    NoFiveDigitsBefore(s, x, n, z);
    assert j4[0] == street[0] && j4[|j4| - 1] == uf[1];
    TrimCommaAfter(j4);
    PostalStep(s, pos, j4 + ", ", cep5, cep3, j4);
  }

  /** A postal code at the end of the text, after a space, with no five
      digits in a row before it. */
  lemma {:induction false} PostalStep(s: string, pos: nat, before: string, cep5: string, cep3: string, rest: string)
    requires 0 < pos <= |s| && s[pos - 1] == ' ' && s[pos..] == cep5 + "-" + cep3
    requires |cep5| == 5 && AllDigits(cep5) && |cep3| == 3 && AllDigits(cep3)
    requires forall j: nat :: j < pos ==> !DigitsAt(s, j, 5)
    requires s[..pos] == before && Trim(before, IsSpaceOrComma) == rest
    ensures ExtractPostalCode(s) == (Some(cep5 + cep3), rest)
  {
    PostalDashAtEnd(s, pos, cep5, cep3);
    FirstPostalAt(s, pos);
    PostalAtEnd(s, pos, before);
    PostalWithoutDash(s, cep5, cep3, rest);
  }

  lemma {:induction false} PostalWithoutDash(s: string, cep5: string, cep3: string, rest: string)
    requires AllDigits(cep5) && AllDigits(cep3)
    requires ExtractPostalCode(s) == (Some(RemoveChar(cep5 + "-" + cep3, '-')), rest)
    ensures ExtractPostalCode(s) == (Some(cep5 + cep3), rest)
  {
    DashRemoved(cep5, cep3);
  }

  /** Before the postal code only the house number holds digits. */
  lemma {:induction false} TypicalDigits(street: string, n: string, nb: string, city: string, uf: string)
    requires NoDigit(street) && NoDigit(nb) && NoDigit(city) && |uf| == 2 && IsUpper(uf[0]) && IsUpper(uf[1])
    ensures var x, z := street + ", ", " - " + nb + ", " + city + " - " + uf + ", ";
            && street + ", " + n + " - " + nb + ", " + city + " - " + uf + ", " == x + n + z
            && NoDigit(x) && NoDigit(z)
  {
    var x, z := street + ", ", " - " + nb + ", " + city + " - " + uf + ", ";
    var t := street + ", " + n + " - " + nb + ", " + city + " - " + uf + ", ";
    assert t == x + n + z;
    NoDigitAppend(street, ", ");
    NoDigitAppend(" - ", nb);
    NoDigitAppend(" - " + nb, ", ");
    NoDigitAppend(" - " + nb + ", ", city);
    NoDigitAppend(" - " + nb + ", " + city, " - ");
    NoDigitAppend(" - " + nb + ", " + city + " - ", uf);
    NoDigitAppend(" - " + nb + ", " + city + " - " + uf, ", ");
  }

  lemma {:induction false} PostalPieces(j4: string, cep5: string, cep3: string)
    ensures var s := j4 + ", " + cep5 + "-" + cep3;
            && |s| == |j4| + 2 + |cep5 + "-" + cep3| && s[|j4| + 1] == ' '
            && s[..|j4| + 2] == j4 + ", " && s[|j4| + 2..] == cep5 + "-" + cep3
  {
    var s := j4 + ", " + cep5 + "-" + cep3;
    assert s == (j4 + ", ") + (cep5 + "-" + cep3);
  }

  /** Five digits, a dash and three digits at the end, after a space. */
  lemma {:induction false} PostalDashAtEnd(s: string, pos: nat, cep5: string, cep3: string)
    requires 0 < pos <= |s| && s[pos - 1] == ' ' && s[pos..] == cep5 + "-" + cep3
    requires |cep5| == 5 && AllDigits(cep5) && |cep3| == 3 && AllDigits(cep3)
    ensures PostalDashAt(s, pos) && PostalMatch(s, pos) == cep5 + "-" + cep3
  {
    var t := s[pos..];
    assert s[pos..pos + 5] == t[..5] == cep5;
    assert s[pos + 5] == t[5] == '-';
    assert s[pos + 6..pos + 9] == t[6..9] == cep3;
    assert s[pos..pos + 9] == t;
  }

  /** A postal code at `pos` with no five digits in a row before it is the
      first match, and its text does not occur earlier. */
  lemma {:induction false} FirstPostalAt(s: string, pos: nat)
    requires PostalAt(s, pos) && forall j: nat :: j < pos ==> !DigitsAt(s, j, 5)
    ensures FindPostal(s, 0) == Some(pos)
    ensures NoOccurrenceBefore(s, PostalMatch(s, pos), pos)
  {
    var m := PostalMatch(s, pos);
    assert DigitsAt(s, pos, 5) by {
      PostalStartsWithFive(s, pos);
    }
    assert m[..5] == s[pos..pos + 5];
    forall j: nat | j < pos
      ensures !PostalAt(s, j) && !OccursAt(s, m, j)
    {
      if PostalAt(s, j) {
        PostalStartsWithFive(s, j);
      }
      if OccursAt(s, m, j) {
        MatchStartsWithFive(s, m, j);
      }
    }
    NoOccurrenceBeforeMeans(s, m, pos);
  }

  /** The first postal code ends the text: it is cut off and the text
      before it trimmed of spaces and commas. */
  lemma {:induction false} PostalAtEnd(s: string, pos: nat, before: string)
    requires FindPostal(s, 0) == Some(pos) && NoOccurrenceBefore(s, PostalMatch(s, pos), pos)
    requires pos + |PostalMatch(s, pos)| == |s| && s[..pos] == before
    ensures ExtractPostalCode(s) == (Some(RemoveChar(PostalMatch(s, pos), '-')), Trim(before, IsSpaceOrComma))
  {
    var m := PostalMatch(s, pos);
    PostalRemainder(s, pos);
    var tail := s[pos + |m|..];
    assert ReplaceAll(tail, m, []) == tail;
    AppendNothing(before, tail);
    assert ExtractPostalCode(s).0 == Some(RemoveChar(m, '-'));
  }

  lemma {:induction false} AppendNothing(a: string, b: string)
    requires |b| == 0
    ensures a + b == a
  {
  }

  lemma {:induction false} NoDigitAppend(a: string, b: string)
    requires NoDigit(a) && NoDigit(b)
    ensures NoDigit(a + b)
  {
    forall i | 0 <= i < |a + b|
      ensures !IsDigit((a + b)[i])
    {
      if i >= |a| {
        assert (a + b)[i] == b[i - |a|];
      }
    }
  }

  /** Digits in `x + n + z` sit inside `n`, so with at most four of them no
      run of five digits starts before the end of `z`. */
  lemma {:induction false} NoFiveDigitsBefore(s: string, x: string, n: string, z: string)
    requires |x| + |n| + |z| <= |s| && s[..|x| + |n| + |z|] == x + n + z
    requires NoDigit(x) && NoDigit(z) && z != [] && |n| <= 4
    ensures forall j: nat :: j < |x| + |n| + |z| ==> !DigitsAt(s, j, 5)
  {
    var pos := |x| + |n| + |z|;
    forall j: nat | j < pos && DigitsAt(s, j, 5)
      ensures false
    {
      var t := if j + 4 < pos then j + 4 else pos - 1;
      assert s[j..j + 5][0] == s[j];
      assert s[j..j + 5][t - j] == s[t];
      DigitInside(s, x, n, z, j);
      DigitInside(s, x, n, z, t);
    }
  }

  lemma {:induction false} DigitInside(s: string, x: string, n: string, z: string, i: nat)
    requires |x| + |n| + |z| <= |s| && s[..|x| + |n| + |z|] == x + n + z
    requires NoDigit(x) && NoDigit(z)
    requires i < |x| + |n| + |z| && IsDigit(s[i])
    ensures |x| <= i < |x| + |n|
  {
    assert s[i] == (x + n + z)[i];
  }

  lemma {:induction false} PostalStartsWithFive(s: string, j: nat)
    requires PostalAt(s, j)
    ensures DigitsAt(s, j, 5)
  {
    if !PostalDashAt(s, j) {
      var w := s[j..j + 5];
      forall k | 0 <= k < 5
        ensures IsDigit(w[k])
      {
        assert w[k] == s[j..j + 8][k];
      }
    }
  }

  lemma {:induction false} MatchStartsWithFive(s: string, m: string, j: nat)
    requires |m| >= 5 && AllDigits(m[..5]) && OccursAt(s, m, j)
    ensures DigitsAt(s, j, 5)
  {
    assert s[j..j + 5] == m[..5];
  }

  // ---------------------------------------------------------------------
  // The street part

  /** "street, n - nb" is read as the street, the number and the
      neighbourhood, with no complement. */
  lemma {:induction false} StreetPartOfTypical(types: seq<string>, street: string, n: string, nb: string)
    requires Component(street) && n != [] && AllDigits(n)
    requires Component(nb) && nb[0] != '-' && !Contains(nb, " - ")
    ensures var tn := StreetTypeAndName(types, street);
            ParseStreet(types, street + ", " + n + " - " + nb)
            == Street(tn.0, Some(tn.1), Some(n), None, Some(nb))
  {
    var q := n + " - " + nb;
    var s := street + ", " + q;
    assert street + ", " + n + " - " + nb == s;
    NumberDashNoComma(n, nb);
    assert q[0] == n[0] && q[|q| - 1] == nb[|nb| - 1];
    TwoSegments(s, street, q);
    NumberBeforeDashAlone(n, nb);
    NeighborhoodOnly(nb);
    StreetOfSegments(types, s, street, q, n, nb);
  }

  /** The street part read from two segments, the second of which gives a
      number and a neighbourhood. */
  lemma {:induction false} StreetOfSegments(types: seq<string>, s: string, first: string, second: string,
                                            n: string, nb: string)
    requires s != [] && CleanParts(Split(s, ',')) == [first, second]
    requires TakeNumber([second]) == (Some(n), [nb])
    requires SplitTail([nb]) == (None, Some(nb))
    ensures var tn := StreetTypeAndName(types, first);
            ParseStreet(types, s) == Street(tn.0, Some(tn.1), Some(n), None, Some(nb))
  {
    var parts := CleanParts(Split(s, ','));
    assert parts[0] == first;
    assert parts[1..] == [second];
  }

  /** "n - nb" as the only segment after the street. */
  lemma {:induction false} NumberBeforeDashAlone(n: string, nb: string)
    requires n != [] && AllDigits(n) && CleanEnds(nb)
    ensures TakeNumber([n + " - " + nb]) == (Some(n), [nb])
  {
    NumberBeforeDash(n, nb, []);
    assert [n + " - " + nb] + [] == [n + " - " + nb];
    assert [nb] + [] == [nb];
  }

  /** "x, y" with no comma in either is the segments `x` and `y`. */
  lemma {:induction false} TwoSegments(s: string, x: string, y: string)
    requires s == x + ", " + y && CleanEnds(x) && CleanEnds(y) && ',' !in x && ',' !in y
    ensures CleanParts(Split(s, ',')) == [x, y]
  {
    SplitTwo(s, x, y);
    StripSpaceBefore(y);
    assert Strip(x) == x;
    CleanTwo(x, " " + y);
  }

  lemma {:induction false} SplitTwo(s: string, x: string, y: string)
    requires s == x + ", " + y && ',' !in x && ',' !in y
    ensures Split(s, ',') == [x, " " + y]
  {
    CommaJoin(x, y);
    IndexOfFirst(s, ',', |x|);
    SplitAtFirst(s, ',', |x|);
    assert ',' !in " " + y;
    SplitNoSeparator(" " + y, ',');
  }

  lemma {:induction false} CleanTwo(x: string, y: string)
    requires Strip(x) != [] && Strip(y) != []
    ensures CleanParts([x, y]) == [Strip(x), Strip(y)]
  {
    assert [x, y] == [x] + [y];
    CleanPartsAppend([x], [y]);
    CleanPartsOne(x);
    CleanPartsOne(y);
  }

  lemma {:induction false} NumberDashNoComma(n: string, nb: string)
    requires AllDigits(n) && ',' !in nb
    ensures ',' !in n + " - " + nb
  {
    var q := n + " - " + nb;
    forall i | 0 <= i < |q|
      ensures q[i] != ','
    {
      if i < |n| {
        assert q[i] == n[i];
      } else if i >= |n| + 3 {
        assert q[i] == nb[i - |n| - 3];
      }
    }
  }

  /** A last part without " - " is all neighbourhood; no complement. */
  lemma {:induction false} NeighborhoodOnly(nb: string)
    requires CleanEnds(nb) && nb[0] != '-' && !Contains(nb, " - ")
    ensures SplitTail([nb]) == (None, Some(nb))
  {
    CleanSegmentKept(nb);
    NoLastDash(nb);
    assert [nb][..0] == [];
    ComplementJoin([]);
  }

  lemma {:induction false} NoLastDash(s: string)
    requires !Contains(s, " - ")
    ensures FindLast(s, " - ") == None
  {
  }
}
