/** The decisions main.py takes around its prompts and in main(): which typed
    exam year, start year and course code are accepted, which links of a subject
    page are downloaded as syllabi, and what one pass of the main loop fetches
    for an accepted code. The prompts, the page fetch and the clock are inputs:
    one typed line, the list of hrefs, and the current year. */
module Driver {
  import opened Wrappers
  import opened Text
  import opened Syllabus
  import opened Naming
  import opened Papers

  const CambridgeSite := "https://www.cambridgeinternational.org"
  const ExitCode := "0000"

  /* ---------- the prompts ---------- */

  /** The shared test of get_exam_year and get_past_paper_start_year: after
      strip(), the line must be four characters, all digits; its value is int(). */
  function FourDigitYear(raw: string): (r: Option<nat>)
    ensures r.Some? <==> |Strip(raw)| == 4 && AllDigits(Strip(raw))
    ensures r.Some? ==> r.value == DigitsValue(Strip(raw)) && r.value <= 9999
  {
    var s := Strip(raw);
    if IsDecimal(s) && |s| == 4 then Some(DigitsValue(s)) else None
  }

  /** get_exam_year, for one typed line and the current year `now`: a four-digit
      year in range(now, now + 8). */
  function ExamYearInput(raw: string, now: int): (r: Option<int>)
    ensures r.Some? <==> FourDigitYear(raw).Some? && now <= FourDigitYear(raw).value <= now + 7
    ensures r.Some? ==> r.value == FourDigitYear(raw).value
  {
    match FourDigitYear(raw)
    case Some(year) => if now <= year < now + 8 then Some(year) else None
    case None => None
  }

  /** get_past_paper_start_year, for one typed line and the current year `now`: a
      four-digit year in range(2000, now + 1). */
  function StartYearInput(raw: string, now: int): (r: Option<int>)
    ensures r.Some? <==> FourDigitYear(raw).Some? && 2000 <= FourDigitYear(raw).value <= now
    ensures r.Some? ==> r.value == FourDigitYear(raw).value
  {
    match FourDigitYear(raw)
    case Some(year) => if 2000 <= year < now + 1 then Some(year) else None
    case None => None
  }

  /** A year typed as str(year), possibly padded with blanks, is read back as
      itself exactly when it has four digits. */
  lemma FourDigitYearRoundTrip(year: nat, pad: string, tail: string)
    requires forall k :: 0 <= k < |pad| ==> IsSpace(pad[k])
    requires forall k :: 0 <= k < |tail| ==> IsSpace(tail[k])
    ensures FourDigitYear(pad + NatToString(year) + tail) == (if 1000 <= year <= 9999 then Some(year) else None)
  {
    var digits := NatToString(year);
    assert IsDigit(digits[0]) && IsDigit(digits[|digits| - 1]);
    StripPadded(pad, digits, tail);
    FourDigitString(year);
  }

  /** The years the two prompts accept when typed as str(year). */
  lemma YearPromptsAccept(year: nat, now: int)
    ensures ExamYearInput(NatToString(year), now) == Some(year)
            <==> 1000 <= year <= 9999 && now <= year <= now + 7
    ensures StartYearInput(NatToString(year), now) == Some(year)
            <==> 1000 <= year <= 9999 && 2000 <= year <= now
  {
    var typed := NatToString(year);
    assert [] + typed + [] == typed;
    FourDigitYearRoundTrip(year, [], []);
    assert FourDigitYear(typed) == (if 1000 <= year <= 9999 then Some(year) else None);
  }

  /** What one answer to take_code_input's prompt leads to. */
  datatype CodeAnswer =
    | Exit               // "0000": leave the main loop
    | Accepted(code: string)
    | NotNumeric         // the ValueError branch: not four digits
    | NotFound           // the KeyError branch: not a course code of the catalog

  /** take_code_input's tests on one typed line, in its order: "0000" first,
      then four digits, then membership of the catalog. */
  function TakeCode(raw: string, catalog: map<string, string>): (r: CodeAnswer)
    ensures r == Exit <==> Strip(raw) == ExitCode
    ensures r.Accepted? <==> Strip(raw) != ExitCode && |Strip(raw)| == 4 && AllDigits(Strip(raw))
                             && Strip(raw) in catalog
    ensures r.Accepted? ==> r.code == Strip(raw) && r.code in catalog
    ensures r == NotNumeric <==> Strip(raw) != ExitCode && !(|Strip(raw)| == 4 && AllDigits(Strip(raw)))
  {
    var code := Strip(raw);
    if code == ExitCode then Exit
    else if |code| != 4 || !IsDecimal(code) then NotNumeric
    else if code !in catalog then NotFound
    else Accepted(code)
  }

  /** "0000" ends the session even when the catalog lists it as a course. */
  lemma ExitBeforeLookup(catalog: map<string, string>, pad: string, tail: string)
    requires forall k :: 0 <= k < |pad| ==> IsSpace(pad[k])
    requires forall k :: 0 <= k < |tail| ==> IsSpace(tail[k])
    ensures TakeCode(pad + ExitCode + tail, catalog) == Exit
  {
    StripPadded(pad, ExitCode, tail);
  }

  /** Every four-digit catalog key other than "0000", typed as it is, is accepted. */
  lemma CatalogCodesAccepted(catalog: map<string, string>, code: string)
    requires code in catalog && code != ExitCode && |code| == 4 && AllDigits(code)
    ensures TakeCode(code, catalog) == Accepted(code)
  {
    assert IsDigit(code[0]) && IsDigit(code[3]);
    StripPadded([], code, []);
    assert [] + code + [] == code;
  }

  /* ---------- the syllabus loop of main() ---------- */

  /** A link of the subject page that main() downloads as a syllabus: present,
      mentioning "syllabus.pdf", and valid for the exam year once prefixed with
      the site address. */
  predicate Selected(link: Option<string>, examYear: int)
  {
    link.Some? && Contains(link.value, "syllabus.pdf")
    && IsValidSyllabusForYear(CambridgeSite + link.value, examYear)
  }

  /** What main() downloads for one link: its syllabus when the link is selected. */
  function LinkDownloads(link: Option<string>, examYear: int, code: string,
                         catalogPath: string): seq<Download>
  {
    if Selected(link, examYear)
    then [DownloadSyllabus(CambridgeSite + link.value, code, catalogPath)]
    else []
  }

  /** LinkDownloads as a value that Gather can be stated over. Pick and LinkDownloads
      define one concept twice: the function value keeps Gather's proofs from
      unfolding the syllabus file names of each link. */
  function Pick(examYear: int, code: string, catalogPath: string): Option<string> -> seq<Download>
  {
    link => LinkDownloads(link, examYear, code, catalogPath)
  }

  /** `pick` agrees with LinkDownloads wherever LinkDownloads is used. */
  ghost predicate IsPick(pick: Option<string> -> seq<Download>, examYear: int, code: string,
                         catalogPath: string)
  {
    forall link {:trigger LinkDownloads(link, examYear, code, catalogPath)}
      :: pick(link) == LinkDownloads(link, examYear, code, catalogPath)
  }

  lemma PickIsPick(examYear: int, code: string, catalogPath: string)
    ensures IsPick(Pick(examYear, code, catalogPath), examYear, code, catalogPath)
  {
  }

  /** The downloads of each link in turn, `pick` giving those of one link. */
  function Gather(links: seq<Option<string>>, pick: Option<string> -> seq<Download>): seq<Download>
  {
    if links == [] then [] else Gather(links[..|links| - 1], pick) + pick(links[|links| - 1])
  }

  /** The download_syllabus calls of main() for the links of a subject page, in
      page order. */
  function SyllabusDownloads(links: seq<Option<string>>, examYear: int, code: string,
                             catalogPath: string): seq<Download>
  {
    Gather(links, Pick(examYear, code, catalogPath))
  }

  /** The loop over the page's links in main(), with the downloads of one link
      given by `pick`. */
  method GatherSyllabi(links: seq<Option<string>>, examYear: int, code: string, catalogPath: string,
                       ghost pick: Option<string> -> seq<Download>)
    returns (downloads: seq<Download>, available: bool)
    requires IsPick(pick, examYear, code, catalogPath)
    ensures downloads == Gather(links, pick)
    ensures available <==> downloads != []
  {
    downloads, available := [], false;
    for i := 0 to |links|
      invariant downloads == Gather(links[..i], pick)
      invariant available <==> downloads != []
    {
      assert links[..i + 1][..i] == links[..i];
      assert pick(links[i]) == LinkDownloads(links[i], examYear, code, catalogPath);
      var val := links[i];
      if val.Some? && Contains(val.value, "syllabus.pdf") {
        var subjectUrl := CambridgeSite + val.value;
        if IsValidSyllabusForYear(subjectUrl, examYear) {
          downloads := downloads + [DownloadSyllabus(subjectUrl, code, catalogPath)];
          available := true;
        }
      }
    }
    assert links[..|links|] == links;
  }

  /** The syllabus loop of main(): every selected link is downloaded, and the
      flag tells whether any was. */
  method SelectSyllabi(links: seq<Option<string>>, examYear: int, code: string, catalogPath: string)
    returns (downloads: seq<Download>, available: bool)
    ensures downloads == SyllabusDownloads(links, examYear, code, catalogPath)
    ensures available <==> exists i :: 0 <= i < |links| && Selected(links[i], examYear)
  {
    PickIsPick(examYear, code, catalogPath);
    downloads, available := GatherSyllabi(links, examYear, code, catalogPath,
                                          Pick(examYear, code, catalogPath));
    SyllabusDownloadsSelected(links, examYear, code, catalogPath);
  }

  /** Gather is empty exactly when every link gives nothing. */
  lemma {:induction false} GatherEmpty(links: seq<Option<string>>, pick: Option<string> -> seq<Download>)
    ensures Gather(links, pick) == [] <==> forall i :: 0 <= i < |links| ==> pick(links[i]) == []
  {
    if links != [] {
      var init := links[..|links| - 1];
      GatherEmpty(init, pick);
      assert forall i :: 0 <= i < |init| ==> links[i] == init[i];
    }
  }

  /** Gather holds exactly what the links give. */
  lemma {:induction false} GatherMember(links: seq<Option<string>>, pick: Option<string> -> seq<Download>,
                                        d: Download)
    ensures d in Gather(links, pick) <==> exists i :: 0 <= i < |links| && d in pick(links[i])
  {
    if links != [] {
      var init := links[..|links| - 1];
      GatherMember(init, pick, d);
      assert forall i :: 0 <= i < |init| ==> links[i] == init[i];
    }
  }

  /** Only a selected link gives a download, and it gives its syllabus. */
  lemma PickedSyllabus(link: Option<string>, examYear: int, code: string, catalogPath: string)
    ensures var ds := Pick(examYear, code, catalogPath)(link);
      && (ds == [] <==> !Selected(link, examYear))
      && forall d :: d in ds <==>
           Selected(link, examYear) && d == DownloadSyllabus(CambridgeSite + link.value, code, catalogPath)
  {
  }

  /** Each syllabus download is the download_syllabus call of a selected link, and
      there is at least one exactly when some link is selected: "Syllabus
      Unavailable." is printed exactly when nothing is downloaded. */
  lemma SyllabusDownloadsSelected(links: seq<Option<string>>, examYear: int,
                                  code: string, catalogPath: string)
    ensures var ds := SyllabusDownloads(links, examYear, code, catalogPath);
      && (ds == [] <==> forall i :: 0 <= i < |links| ==> !Selected(links[i], examYear))
      && (forall d :: d in ds ==>
            exists i :: 0 <= i < |links| && Selected(links[i], examYear)
                        && d == DownloadSyllabus(CambridgeSite + links[i].value, code, catalogPath))
      && forall i :: 0 <= i < |links| && Selected(links[i], examYear) ==>
           DownloadSyllabus(CambridgeSite + links[i].value, code, catalogPath) in ds
  {
    var pick := Pick(examYear, code, catalogPath);
    GatherEmpty(links, pick);
    forall i | 0 <= i < |links|
      ensures pick(links[i]) == [] <==> !Selected(links[i], examYear)
    {
      PickedSyllabus(links[i], examYear, code, catalogPath);
    }
    forall d | d in Gather(links, pick)
      ensures exists i :: 0 <= i < |links| && Selected(links[i], examYear)
                          && d == DownloadSyllabus(CambridgeSite + links[i].value, code, catalogPath)
    {
      GatherMember(links, pick, d);
      var i :| 0 <= i < |links| && d in pick(links[i]);
      PickedSyllabus(links[i], examYear, code, catalogPath);
    }
    forall i | 0 <= i < |links| && Selected(links[i], examYear)
      ensures DownloadSyllabus(CambridgeSite + links[i].value, code, catalogPath) in Gather(links, pick)
    {
      var d := DownloadSyllabus(CambridgeSite + links[i].value, code, catalogPath);
      PickedSyllabus(links[i], examYear, code, catalogPath);
      GatherMember(links, pick, d);
    }
  }

  /** The number of selected links among the first |links|. */
  function SelectedCount(links: seq<Option<string>>, examYear: int): nat
  {
    if links == [] then 0
    else SelectedCount(links[..|links| - 1], examYear) + (if Selected(links[|links| - 1], examYear) then 1 else 0)
  }

  /** No tie-break: one download per selected link, however many there are. */
  lemma {:induction false} SyllabusDownloadCount(links: seq<Option<string>>, examYear: int,
                                                 code: string, catalogPath: string)
    ensures |SyllabusDownloads(links, examYear, code, catalogPath)| == SelectedCount(links, examYear)
  {
    if links != [] {
      var init := links[..|links| - 1];
      SyllabusDownloadCount(init, examYear, code, catalogPath);
      PickedSyllabus(links[|links| - 1], examYear, code, catalogPath);
    }
  }

  /** Each syllabus download is named after the subject, the code and the year
      label of its link, and stored in the subject's folder. */
  lemma SyllabusDownloadNames(links: seq<Option<string>>, examYear: int, code: string,
                              catalogPath: string)
    ensures forall d :: d in SyllabusDownloads(links, examYear, code, catalogPath) ==>
              && (exists link :: link in links && Selected(link, examYear)
                                 && d.url == CambridgeSite + link.value)
              && d.fileName == DisplayName(ExtractSubjectName(catalogPath)) + " " + code
                               + " (" + YearLabel(ExtractYears(d.url)) + ") Syllabus.pdf"
              && d.folder == ReplaceAll(SubjectFolder(ExtractSubjectName(catalogPath), code), "9 1 ", "")
  {
    SyllabusDownloadsSelected(links, examYear, code, catalogPath);
    forall d | d in SyllabusDownloads(links, examYear, code, catalogPath)
      ensures exists link :: link in links && Selected(link, examYear)
                             && d.url == CambridgeSite + link.value
    {
      var i :| 0 <= i < |links| && Selected(links[i], examYear)
               && d == DownloadSyllabus(CambridgeSite + links[i].value, code, catalogPath);
      assert links[i] in links;
    }
  }

  /* ---------- one pass of the main loop ---------- */

  /** What main() fetches for one accepted course code. */
  datatype Visit = Visit(syllabi: seq<Download>, syllabusAvailable: bool, papers: seq<Download>)

  /** The body of main()'s loop for an accepted code: the subject page's links
      (fetched from CambridgeSite + catalog[code]) are given as `links`, the HEAD
      probes as `answers`, the current year as `current`. */
  method VisitSubject(catalog: map<string, string>, code: string, links: seq<Option<string>>,
                      examYear: int, startYear: int, current: int, answers: string -> bool)
    returns (v: Visit)
    requires code in catalog
    ensures v.syllabi == SyllabusDownloads(links, examYear, code, catalog[code])
    ensures v.syllabusAvailable <==> v.syllabi != []
    ensures v.papers == PastPaperDownloads(answers, code, Lower(ExtractSubjectName(catalog[code])),
                                           startYear, current)
  {
    var syllabi, available := SelectSyllabi(links, examYear, code, catalog[code]);
    SyllabusDownloadsSelected(links, examYear, code, catalog[code]);
    var subjectName := Lower(ExtractSubjectName(catalog[code]));
    var papers := DownloadPastPapers(answers, code, subjectName, startYear, current);
    v := Visit(syllabi, available, papers);
  }
}
