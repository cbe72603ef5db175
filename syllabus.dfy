/** The year-range resolver of main.py: reading the validity years out of a
    syllabus document URL (extract_years_from_url), deciding whether the
    document applies to an exam year (is_valid_syllabus_for_year), and the year
    label of the downloaded file (download_syllabus). */
module Syllabus {
  import opened Wrappers
  import opened Text

  /** The years a syllabus file name carries: the first year of validity and,
      for a closed range, its last year. Both are read from four digits. */
  datatype Years = Years(first: nat, second: Option<nat>)

  const SyllabusSuffix := "-syllabus.pdf"

  /** The pattern `(\d{6})-(\d{4})(-(\d{4}))?-syllabus\.pdf` tried at index i of
      url. The optional `-yyyy` group is tried first; when what follows it is not
      the suffix, the match falls back to the form without it. */
  function YearsAt(url: string, i: nat): Option<Years>
  {
    if i + 11 <= |url| && AllDigits(url[i..i + 6]) && url[i + 6] == '-'
       && AllDigits(url[i + 7..i + 11])
    then
      var year1 := DigitsValue(url[i + 7..i + 11]);
      if i + 16 <= |url| && url[i + 11] == '-' && AllDigits(url[i + 12..i + 16])
         && HasAt(url, i + 16, SyllabusSuffix)
      then Some(Years(year1, Some(DigitsValue(url[i + 12..i + 16]))))
      else if HasAt(url, i + 11, SyllabusSuffix) then Some(Years(year1, None))
      else None
    else None
  }

  /** The leftmost index, from i on, at which the pattern matches (re.search). */
  function FirstMatch(url: string, i: nat): (r: Option<nat>)
    decreases |url| + 1 - i
    ensures r.Some? ==> i <= r.value <= |url| && YearsAt(url, r.value).Some?
    ensures r.Some? ==> forall j :: i <= j < r.value ==> YearsAt(url, j).None?
    ensures r.None? ==> forall j :: i <= j <= |url| ==> YearsAt(url, j).None?
  {
    if i > |url| then None
    else if YearsAt(url, i).Some? then Some(i)
    else FirstMatch(url, i + 1)
  }

  /** extract_years_from_url: the years of the leftmost match, or None (Python's
      `(None, None)`) when the URL has no match at all. */
  function ExtractYears(url: string): (r: Option<Years>)
    ensures r.None? <==> forall i :: 0 <= i <= |url| ==> YearsAt(url, i).None?
    ensures r.Some? ==> exists i :: 0 <= i <= |url| && r == YearsAt(url, i)
                          && forall j :: 0 <= j < i ==> YearsAt(url, j).None?
  {
    match FirstMatch(url, 0)
    case Some(i) => YearsAt(url, i)
    case None => None
  }

  /** A match needs the literal suffix, so a URL without it has no years. */
  lemma NoSuffixNoYears(url: string)
    requires !Contains(url, SyllabusSuffix)
    ensures ExtractYears(url) == None
  {
    forall i | 0 <= i <= |url|
      ensures YearsAt(url, i).None?
    {
    }
  }

  /** The years found at the leftmost match are the years of the URL. */
  lemma LeftmostMatch(url: string, i: nat)
    requires i <= |url| && YearsAt(url, i).Some?
    requires forall j :: 0 <= j < i ==> YearsAt(url, j).None?
    ensures ExtractYears(url) == YearsAt(url, i)
  {
  }

  /** No match can start inside a prefix that holds no digit. */
  lemma NoMatchInDigitFreePrefix(p: string, rest: string, j: nat)
    requires forall k :: 0 <= k < |p| ==> !IsDigit(p[k])
    requires j < |p|
    ensures YearsAt(p + rest, j).None?
  {
    var s := p + rest;
    if j + 6 <= |s| {
      assert s[j..j + 6][0] == p[j];
    }
  }

  /** With p free of digits, the leftmost match of p + rest is that of rest. */
  lemma {:induction false} DigitFreePrefix(p: string, rest: string)
    requires forall k :: 0 <= k < |p| ==> !IsDigit(p[k])
    requires YearsAt(rest, 0).Some?
    ensures ExtractYears(p + rest) == YearsAt(rest, 0)
  {
    var s := p + rest;
    assert s[|p|..] == rest;
    assert YearsAt(s, |p|) == YearsAt(rest, 0) by {
      ShiftedMatch(p, rest);
    }
    forall j | 0 <= j < |p|
      ensures YearsAt(s, j).None?
    {
      NoMatchInDigitFreePrefix(p, rest, j);
    }
    LeftmostMatch(s, |p|);
  }

  /** Matching at index |p| of p + rest is matching at the start of rest. */
  lemma ShiftedMatch(p: string, rest: string)
    ensures YearsAt(p + rest, |p|) == YearsAt(rest, 0)
  {
    var s := p + rest;
    var i := |p|;
    if i + 11 <= |s| {
      assert s[i..i + 6] == rest[..6];
      assert s[i + 7..i + 11] == rest[7..11];
      if i + 16 <= |s| {
        assert s[i + 12..i + 16] == rest[12..16];
      }
      if i + 16 + |SyllabusSuffix| <= |s| {
        assert s[i + 16..i + 16 + |SyllabusSuffix|] == rest[16..16 + |SyllabusSuffix|];
      }
      if i + 11 + |SyllabusSuffix| <= |s| {
        assert s[i + 11..i + 11 + |SyllabusSuffix|] == rest[11..11 + |SyllabusSuffix|];
      }
    }
  }

  /** The open form matched at the start of a string. */
  lemma SingleYearAtStart(rest: string)
    requires |rest| >= 11 + |SyllabusSuffix|
    requires AllDigits(rest[..6]) && rest[6] == '-' && AllDigits(rest[7..11])
    requires rest[11..11 + |SyllabusSuffix|] == SyllabusSuffix
    ensures YearsAt(rest, 0) == Some(Years(DigitsValue(rest[7..11]), None))
  {
    assert !AllDigits(rest[12..16]) by {
      assert rest[12..16][0] == rest[11..11 + |SyllabusSuffix|][1] == 's';
    }
  }

  /** The range form matched at the start of a string. */
  lemma YearRangeAtStart(rest: string)
    requires |rest| >= 16 + |SyllabusSuffix|
    requires AllDigits(rest[..6]) && rest[6] == '-' && AllDigits(rest[7..11])
    requires rest[11] == '-' && AllDigits(rest[12..16])
    requires rest[16..16 + |SyllabusSuffix|] == SyllabusSuffix
    ensures YearsAt(rest, 0) == Some(Years(DigitsValue(rest[7..11]), Some(DigitsValue(rest[12..16]))))
  {
  }

  /** The open form `dddddd-YYYY-syllabus.pdf` followed by anything matches at
      its start. */
  lemma SingleYearShape(id: string, year1: string, q: string)
    requires |id| == 6 && AllDigits(id) && |year1| == 4 && AllDigits(year1)
    ensures YearsAt(id + "-" + year1 + SyllabusSuffix + q, 0) == Some(Years(DigitsValue(year1), None))
  {
    var head := id + "-" + year1;
    var rest := head + SyllabusSuffix + q;
    assert head[..6] == id && head[7..11] == year1;
    assert rest[..11] == head && rest[11..11 + |SyllabusSuffix|] == SyllabusSuffix;
    assert rest[..6] == id && rest[7..11] == year1;
    SingleYearAtStart(rest);
  }

  /** The range form `dddddd-YYYY-ZZZZ-syllabus.pdf` followed by anything matches
      at its start. */
  lemma YearRangeShape(id: string, year1: string, year2: string, q: string)
    requires |id| == 6 && AllDigits(id)
    requires |year1| == 4 && AllDigits(year1) && |year2| == 4 && AllDigits(year2)
    ensures YearsAt(id + "-" + year1 + "-" + year2 + SyllabusSuffix + q, 0)
            == Some(Years(DigitsValue(year1), Some(DigitsValue(year2))))
  {
    var head := id + "-" + year1 + "-" + year2;
    var rest := head + SyllabusSuffix + q;
    assert head[..6] == id && head[7..11] == year1 && head[12..16] == year2;
    assert head[6] == '-' && head[11] == '-';
    assert rest[..16] == head && rest[16..16 + |SyllabusSuffix|] == SyllabusSuffix;
    assert rest[..6] == id && rest[7..11] == year1 && rest[12..16] == year2;
    YearRangeAtStart(rest);
  }

  /** A URL `p + dddddd-YYYY-syllabus.pdf + q`, with no digit in p, carries the
      open year YYYY and no second year. */
  lemma ParseSingleYear(p: string, id: string, year1: string, q: string)
    requires forall k :: 0 <= k < |p| ==> !IsDigit(p[k])
    requires |id| == 6 && AllDigits(id) && |year1| == 4 && AllDigits(year1)
    ensures ExtractYears(p + (id + "-" + year1 + SyllabusSuffix + q))
            == Some(Years(DigitsValue(year1), None))
  {
    SingleYearShape(id, year1, q);
    DigitFreePrefix(p, id + "-" + year1 + SyllabusSuffix + q);
  }

  /** A URL `p + dddddd-YYYY-ZZZZ-syllabus.pdf + q`, with no digit in p, carries
      the closed range YYYY to ZZZZ. */
  lemma ParseYearRange(p: string, id: string, year1: string, year2: string, q: string)
    requires forall k :: 0 <= k < |p| ==> !IsDigit(p[k])
    requires |id| == 6 && AllDigits(id)
    requires |year1| == 4 && AllDigits(year1) && |year2| == 4 && AllDigits(year2)
    ensures ExtractYears(p + (id + "-" + year1 + "-" + year2 + SyllabusSuffix + q))
            == Some(Years(DigitsValue(year1), Some(DigitsValue(year2))))
  {
    YearRangeShape(id, year1, year2, q);
    DigitFreePrefix(p, id + "-" + year1 + "-" + year2 + SyllabusSuffix + q);
  }

  /** The decision of is_valid_syllabus_for_year, branch for branch. A year1 of 0
      is falsy in Python and counts as no year. Without a second year only the
      exact exam year is accepted; with one, the closed range is. */
  function IsValidForYear(years: Option<Years>, examYear: int): (valid: bool)
    ensures valid <==> (years.Some? && years.value.first != 0 &&
      match years.value.second
      case None => examYear == years.value.first
      case Some(year2) => years.value.first <= examYear <= year2)
  {
    if years.Some? && years.value.first != 0 then
      var year1 := years.value.first;
      var year2 := years.value.second;
      if year1 == examYear && year2.None? then true
      else if year1 < examYear && year2.None? then false
      else if year1 <= examYear && (year2.None? || year2.value >= examYear) then true
      else if year1 > examYear then false
      else false
    else false
  }

  /** is_valid_syllabus_for_year(url, exam_year) */
  function IsValidSyllabusForYear(url: string, examYear: int): bool
  {
    IsValidForYear(ExtractYears(url), examYear)
  }

  /** The `year_range` label of download_syllabus: "Y1-Y2" when the second year
      is present and non-zero, "Y1" otherwise, and Python's "None" for a URL with
      no years. */
  function YearLabel(years: Option<Years>): (yearRange: string)
    ensures years.None? ==> yearRange == "None"
    ensures years.Some? ==>
      (|yearRange| >= |NatToString(years.value.first)|
       && yearRange[..|NatToString(years.value.first)|] == NatToString(years.value.first))
  {
    match years
    case None => "None"
    case Some(Years(year1, year2)) =>
      if year2.Some? && year2.value != 0
      then NatToString(year1) + "-" + NatToString(year2.value)
      else NatToString(year1)
  }

  /** A range URL whose years are written without a leading zero gets the label
      "YYYY-ZZZZ", the very text of its file name. */
  lemma RangeLabel(p: string, id: string, year1: string, year2: string, q: string)
    requires forall k :: 0 <= k < |p| ==> !IsDigit(p[k])
    requires |id| == 6 && AllDigits(id)
    requires |year1| == 4 && AllDigits(year1) && year1[0] != '0'
    requires |year2| == 4 && AllDigits(year2) && year2[0] != '0'
    ensures YearLabel(ExtractYears(p + (id + "-" + year1 + "-" + year2 + SyllabusSuffix + q)))
            == year1 + "-" + year2
  {
    ParseYearRange(p, id, year1, year2, q);
    NatToStringOfDigits(year1);
    NatToStringOfDigits(year2);
  }

  /** A single-year URL whose year is written without a leading zero gets the
      label "YYYY", the very text of its file name. */
  lemma SingleLabel(p: string, id: string, year1: string, q: string)
    requires forall k :: 0 <= k < |p| ==> !IsDigit(p[k])
    requires |id| == 6 && AllDigits(id)
    requires |year1| == 4 && AllDigits(year1) && year1[0] != '0'
    ensures YearLabel(ExtractYears(p + (id + "-" + year1 + SyllabusSuffix + q))) == year1
  {
    ParseSingleYear(p, id, year1, q);
    NatToStringOfDigits(year1);
  }

  /** A second year of "0000" is falsy: the label is the first year alone. */
  lemma ZeroSecondYearLabel(p: string, id: string, year1: string, q: string)
    requires forall k :: 0 <= k < |p| ==> !IsDigit(p[k])
    requires |id| == 6 && AllDigits(id)
    requires |year1| == 4 && AllDigits(year1) && year1[0] != '0'
    ensures YearLabel(ExtractYears(p + (id + "-" + year1 + "-0000" + SyllabusSuffix + q))) == year1
  {
    var zeros := "0000";
    ParseYearRange(p, id, year1, zeros, q);
    assert id + "-" + year1 + "-" + zeros == id + "-" + year1 + "-0000";
    assert DigitsValue(zeros) == 0 by {
      assert zeros[..3] == "000" && "000"[..2] == "00" && "00"[..1] == "0" && "0"[..0] == [];
    }
    NatToStringOfDigits(year1);
  }
}
