/** `parseMSDate`, which every page defines identically: the wire format `/Date(<ms>)/` read by
    the regular expression `/\/Date\((\d+)\)\//` and `Number`. */
module MSDate {
  import opened Text
  import opened Plans

  /** The regular expression matches at i: "/Date(" at i, a non-empty digit run s[i+6..j], then ")/". */
  ghost predicate MatchAt(s: string, i: int, j: int)
  {
    0 <= i && i + 6 < j && j + 2 <= |s|
    && s[i..i + 6] == "/Date(" && AllDigits(s[i + 6..j]) && s[j..j + 2] == ")/"
  }

  /** The leftmost match, which is the one `RegExp.prototype.exec` reports. */
  ghost predicate FirstMatch(s: string, i: int, j: int)
  {
    MatchAt(s, i, j) && forall i', j' :: MatchAt(s, i', j') ==> i <= i'
  }

  /** The captured group of a match, as `Number` reads it. */
  ghost function MatchValue(s: string, i: int, j: int): nat
    requires MatchAt(s, i, j)
  {
    DigitsValue(s[i + 6..j])
  }

  /** The end of the digit run that starts at k. */
  function DigitRunEnd(s: string, k: nat): (j: nat)
    requires k <= |s|
    ensures k <= j <= |s|
    ensures forall m :: k <= m < j ==> IsDigit(s[m])
    ensures j == |s| || !IsDigit(s[j])
    decreases |s| - k
  {
    if k < |s| && IsDigit(s[k]) then DigitRunEnd(s, k + 1) else k
  }

  predicate HasMatchAt(s: string, i: nat)
  {
    i + 6 <= |s| && s[i..i + 6] == "/Date(" &&
    var j := DigitRunEnd(s, i + 6);
    i + 6 < j && j + 2 <= |s| && s[j..j + 2] == ")/"
  }

  /** The characters a match pins down, by position in s. */
  lemma MatchChars(s: string, i: int, j: int)
    requires MatchAt(s, i, j)
    ensures s[i + 5] == '(' && s[j] == ')'
    ensures forall m :: i + 6 <= m < j ==> IsDigit(s[m])
  {
    assert s[i + 5] == s[i..i + 6][5];
    assert s[j] == s[j..j + 2][0];
    forall m | i + 6 <= m < j ensures IsDigit(s[m]) {
      assert s[m] == s[i + 6..j][m - (i + 6)];
    }
  }

  /** A match at i ends its digit run exactly where `DigitRunEnd` says, since ')' is not a digit. */
  lemma MatchEnd(s: string, i: nat, j: int)
    requires MatchAt(s, i, j)
    ensures j == DigitRunEnd(s, i + 6)
  {
    MatchChars(s, i, j);
  }

  lemma HasMatchAtIff(s: string, i: nat)
    ensures HasMatchAt(s, i) ==> MatchAt(s, i, DigitRunEnd(s, i + 6))
    ensures (exists j :: MatchAt(s, i, j)) ==> HasMatchAt(s, i)
  {
    if HasMatchAt(s, i) {
      var j := DigitRunEnd(s, i + 6);
      var run := s[i + 6..j];
      forall m | 0 <= m < |run| ensures IsDigit(run[m]) {
        assert run[m] == s[i + 6 + m];
      }
    }
    if j :| MatchAt(s, i, j) {
      MatchEnd(s, i, j);
    }
  }

  /** The search of `exec` from position i onwards. */
  function FindFrom(s: string, i: nat): Option<nat>
    requires i <= |s|
    decreases |s| - i
  {
    if i == |s| then None
    else if HasMatchAt(s, i) then Some(DigitsValue(s[i + 6..DigitRunEnd(s, i + 6)]))
    else FindFrom(s, i + 1)
  }

  /** Every match starts before i. */
  ghost predicate NoMatchFrom(s: string, i: int)
  {
    forall i', j :: MatchAt(s, i', j) ==> i' < i
  }

  /** The match at (i', j) is the leftmost one at or after i. */
  ghost predicate FirstMatchFrom(s: string, i: int, i': int, j: int)
  {
    i <= i' && MatchAt(s, i', j) && forall i'', j'' :: MatchAt(s, i'', j'') && i <= i'' ==> i' <= i''
  }

  /** The search from i finds nothing exactly when every match starts before i, and otherwise the
      value of the leftmost match at or after i. */
  lemma {:induction false} FindFromSpec(s: string, i: nat)
    requires i <= |s|
    ensures FindFrom(s, i).None? <==> NoMatchFrom(s, i)
    ensures FindFrom(s, i).Some? ==>
      exists i', j :: FirstMatchFrom(s, i, i', j) && FindFrom(s, i).value == MatchValue(s, i', j)
    decreases |s| - i
  {
    if i == |s| {
      forall i', j | MatchAt(s, i', j) ensures i' < i { }
    } else if HasMatchAt(s, i) {
      HasMatchAtIff(s, i);
      var j := DigitRunEnd(s, i + 6);
      assert FirstMatchFrom(s, i, i, j) && FindFrom(s, i).value == MatchValue(s, i, j);
    } else {
      HasMatchAtIff(s, i);
      FindFromSpec(s, i + 1);
      assert FindFrom(s, i) == FindFrom(s, i + 1);
      if FindFrom(s, i).Some? {
        var i', j :| FirstMatchFrom(s, i + 1, i', j) && FindFrom(s, i + 1).value == MatchValue(s, i', j);
        assert FirstMatchFrom(s, i, i', j);
      } else {
        assert NoMatchFrom(s, i);
      }
    }
  }

  /** `parseMSDate`: null for "" and for a string with no `/Date(<digits>)/`, otherwise the value of
      the digits of the leftmost occurrence. */
  function ParseMSDate(s: string): Option<nat>
  {
    if s == "" then None else FindFrom(s, 0)
  }

  lemma ParseMSDateSpec(s: string)
    ensures ParseMSDate(s).None? <==> forall i, j :: !MatchAt(s, i, j)
    ensures ParseMSDate(s).Some? ==> exists i, j :: FirstMatch(s, i, j) && ParseMSDate(s).value == MatchValue(s, i, j)
  {
    FindFromSpec(s, 0);
    if ParseMSDate(s).Some? {
      var i, j :| FirstMatchFrom(s, 0, i, j) && ParseMSDate(s).value == MatchValue(s, i, j);
      assert FirstMatch(s, i, j);
    }
  }

  /** The wire format of an instant reads back as that instant, whatever follows it. */
  lemma WireRoundTrip(n: nat, rest: string)
    ensures ParseMSDate("/Date(" + Decimal(n) + ")/" + rest) == Some(n)
  {
    var d := Decimal(n);
    var s := "/Date(" + d + ")/" + rest;
    var j := 6 + |d|;
    assert s[0..6] == "/Date(";
    assert s[6..j] == d;
    assert s[j..j + 2] == ")/";
    assert MatchAt(s, 0, j);
    ParseMSDateSpec(s);
    assert ParseMSDate(s).Some?;
    var i', j' :| FirstMatch(s, i', j') && ParseMSDate(s).value == MatchValue(s, i', j');
    assert i' == 0;
    MatchEnd(s, 0, j);
    MatchEnd(s, 0, j');
  }

  /** When the digits after "/Date(" stop at a character other than ')', and no '(' follows, the
      expression finds no match. */
  lemma StopsAtNonDigit(s: string, d: string, c: char, rest: string)
    requires s == "/Date(" + d + [c] + rest
    requires AllDigits(d) && !IsDigit(c) && c != ')' && c != '('
    requires forall k :: 0 <= k < |rest| ==> rest[k] != '('
    ensures ParseMSDate(s) == None
  {
    ParseMSDateSpec(s);
    var n := 6 + |d|;
    assert s[n] == c;
    forall m | 0 <= m < |s| && m != 5 ensures s[m] != '(' {
      if n < m {
        assert s[m] == rest[m - n - 1];
      } else if 6 <= m < n {
        assert s[m] == d[m - 6];
      }
    }
    forall m | 6 <= m < n ensures IsDigit(s[m]) {
      assert s[m] == d[m - 6];
    }
    forall i, j | MatchAt(s, i, j) ensures false {
      MatchChars(s, i, j);
    }
  }

  /** A sign inside the parentheses is not a digit, so a negative instant does not parse. */
  lemma NegativeDoesNotParse(n: nat)
    ensures ParseMSDate("/Date(-" + Decimal(n) + ")/") == None
  {
    var rest := Decimal(n) + ")/";
    assert "/Date(-" + Decimal(n) + ")/" == "/Date(" + "" + ['-'] + rest;
    forall k | 0 <= k < |rest| ensures rest[k] != '(' {
      if k < |Decimal(n)| { assert IsDigit(Decimal(n)[k]); }
    }
    StopsAtNonDigit("/Date(-" + Decimal(n) + ")/", "", '-', rest);
  }

  /** A time-zone offset such as "+0100" after the digits stops the match. */
  lemma OffsetDoesNotParse(n: nat, offset: nat)
    ensures ParseMSDate("/Date(" + Decimal(n) + "+" + Decimal(offset) + ")/") == None
  {
    var rest := Decimal(offset) + ")/";
    assert "/Date(" + Decimal(n) + "+" + Decimal(offset) + ")/" == "/Date(" + Decimal(n) + ['+'] + rest;
    forall k | 0 <= k < |rest| ensures rest[k] != '(' {
      if k < |Decimal(offset)| { assert IsDigit(Decimal(offset)[k]); }
    }
    StopsAtNonDigit("/Date(" + Decimal(n) + "+" + Decimal(offset) + ")/", Decimal(n), '+', rest);
  }

  /** The largest time value a JavaScript `Date` holds; `new Date(n)` of a larger value is invalid,
      and every integer up to it is exact in a double. */
  const MaxTime: nat := 8_640_000_000_000_000

  /** `parseMSDate` followed by the `!d || isNaN(d.getTime())` test: an instant, or nothing. */
  function ParseInstant(s: string): (r: Option<int>)
    ensures r.Some? <==> ParseMSDate(s).Some? && ParseMSDate(s).value <= MaxTime
    ensures r.Some? ==> r.value == ParseMSDate(s).value
  {
    var d := ParseMSDate(s);
    if d.Some? && d.value <= MaxTime then Some(d.value) else None
  }
}
