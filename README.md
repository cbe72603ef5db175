# IGScrapper core, modelled in Dafny

IGScrapper is a command-line tool that fetches Cambridge IGCSE material for a subject.
It asks for the exam year, a start year for past papers and a four-digit course code.
It then downloads the syllabi that apply to the exam year from the subject's page on
cambridgeinternational.org. Finally, for every year and series since the start year, it
probes bestexamhelp.com for variant 2 of papers 1 to 6 of each type. For each probe that
answers, it downloads variants 1, 2 and 3 of that paper, two of which were never probed.

This project models the decision and naming logic of `main.py` and proves what it promises.
Network, filesystem and console effects are taken out: the model computes the download
targets instead of performing the downloads.

- `Text`: the parts of Python's `str` and `posixpath` that the program uses, on ASCII text.
  It covers `str(int)`, `isdigit`, `strip`, `lower`, `title`, `replace`, `s[-n:]` and `os.path.join`.
- `Syllabus`: the `(\d{6})-(\d{4})(-(\d{4}))?-syllabus\.pdf` search as a leftmost
  match, the applicability rule for an exam year, and the year label of a syllabus file.
- `Naming`: the subject name taken from a catalog path (a greedy `(.*)` group), the
  title-cased display name, the record `download_file` computes before it makes its request
  (URL, file name, cleaned folder, joined path, label), and the syllabus target.
- `Papers`: `get_series_suffix`, the component probe loop of `check_paper_availability`, and
  the year/series/component loops of `download_past_papers`.
  - The HEAD request is an oracle `answers: string -> bool` on the probed URL.
  - Both probe and download are written as methods with loops, proved equal to recursive
    specification functions. Lemmas about those functions give the order, the count and
    the shape of the results.
- `Driver`: the acceptance rules of the three prompts and the syllabus loop of `main`, which
  keeps the `syllabus_available` flag. It also covers one pass of `main`'s loop for an
  accepted code (`VisitSubject`).
  - The links of the subject page, the catalog `subject_dict` (a map from code to path
    fragment) and the current year are parameters.

Two behaviours of the code are easy to misread.
- A syllabus with no second year is valid only when the exam year equals its year
  (`main.py:45-48`), not for every later exam year.
- `subject_name` is reassigned inside the series loop (`main.py:124-126`).
  - Each series strips every "-9-1" from the name it was given.
  - So after the first series the `-9-1` base URL is used only when stripping left a new "-9-1", as "-9-9-1-1" does.
  - The model keeps this behaviour. `Papers.RunName` proves its consequence for names where stripping leaves no "-9-1".

## Model

| member | source | states |
|---|---|---|
| Text.NatToString | main.py:82-84 | `str(n)` is a non-empty digit string whose value is n, with a leading zero only for "0" |
| Text.NatToStringOfDigits | main.py:18-20 | `str(int(s))` gives s back for a digit string without a leading zero |
| Text.FourDigitString | main.py:18 | the decimal form of n has four characters exactly when 1000 <= n <= 9999 |
| Text.LastTwoDigits | main.py:105 | `str(year)[-2:]` is the tens digit followed by the units digit of year |
| Text.TakeLast | main.py:66 | `s[-n:]` is a suffix of s: all of s when n is 0 or at least len s, else its last n characters |
| Text.SpaceHyphens | main.py:87 | `replace("-", " ")` turns every hyphen into a space and keeps every other character |
| Text.NineOneReplacedAt | main.py:87 | `replace("9 1", "9-1")` keeps the length and changes exactly the middle character of each "9 1" to '-' |
| Text.TitleNineOne | main.py:87 | `title()` neither creates nor removes a "9 1" |
| Text.NineOneGone | main.py:60-61 | after `replace("9 1", "9-1")` no "9 1" is left |
| Text.ReplaceAbsent | main.py:60-61 | replacing a pattern that does not occur changes nothing |
| Text.TitleAt | main.py:87 | `title()` keeps the length; a letter is upper-cased after a non-letter and lower-cased after a letter; other characters are kept |
| Text.Strip | main.py:17 | `strip()` returns a slice of its input that neither starts nor ends with whitespace |
| Text.StripPadded | main.py:17 | stripping whitespace padding returns the word inside it |
| Text.PathJoin | main.py:71 | `os.path.join(a, b)` is b when b is absolute; otherwise a + b when a is empty or ends in "/", and a + "/" + b when not |
| Text.LastSegmentAfterSlash | main.py:130-131 | the last path segment of p + "/" + name is name when name has no "/" |
| Syllabus.ExtractYears | main.py:34-40 | the result is None exactly when the pattern matches nowhere; otherwise it is the match at the leftmost position that matches |
| Syllabus.NoSuffixNoYears | main.py:35-40 | a URL without "-syllabus.pdf" yields no years |
| Syllabus.ParseSingleYear | main.py:35-39 | a URL with `dddddd-Y1-syllabus.pdf` after a digit-free prefix yields (Y1, None) |
| Syllabus.ParseYearRange | main.py:35-39 | a URL with `dddddd-Y1-Y2-syllabus.pdf` after a digit-free prefix yields (Y1, Y2) |
| Syllabus.IsValidForYear | main.py:42-53 | valid iff years were found, year1 is not 0, and the exam year equals year1 when there is no year2, or lies in [year1, year2] when there is |
| Syllabus.YearLabel | main.py:80-84 | the label is "None" when nothing parsed and otherwise starts with year1 |
| Syllabus.RangeLabel | main.py:80-84 | for a `Y1-Y2` syllabus URL with non-zero years the label is "Y1-Y2" |
| Syllabus.SingleLabel | main.py:80-84 | for a `Y1` syllabus URL with a non-zero year the label is "Y1" |
| Syllabus.ZeroSecondYearLabel | main.py:80-84 | a second year of "0000" is falsy, so the label of `Y1-0000` is "Y1" |
| Naming.SubjectGroup | main.py:57 | the group is absent exactly when the pattern matches nowhere; a found group holds no newline |
| Naming.SubjectGroupValue | main.py:57-59 | the group runs from just after the leftmost marker from which a match exists to the last `-dddd/` on that line, and holds no newline |
| Naming.ExtractSubjectName | main.py:55-63 | "Unknown Subject" when the path does not match; otherwise the group with "9 1" rewritten to "9-1", leaving no "9 1" |
| Naming.SubjectOfCatalogPath | main.py:57-59 | for a path `p/cambridge-igcse-NAME-dddd/` whose prefix holds no marker, the group is NAME |
| Naming.DisplayName | main.py:87-88 | the title-cased name never contains "9 1" |
| Naming.DisplayNameChars | main.py:87-88 | the display name has the subject name's length; at each index it is the title-cased character of the name with hyphens as spaces, except that the separator of every "9-1" or "9 1" is '-' |
| Naming.DownloadFile | main.py:65-71 | keeps URL and file name, drops "9 1 " from the folder, labels by file name iff it contains "Syllabus" (else the URL's last 18 characters), and writes to `os.path.join` of the cleaned folder and the file name, whose last segment is the file name |
| Naming.JoinedLastSegment | main.py:71 | the last segment of `os.path.join(folder, name)` is name |
| Naming.NamesSyllabus | main.py:87 | every syllabus file name contains "Syllabus", so it is its own label |
| Naming.DownloadSyllabus | main.py:79-89 | the syllabus target is the URL itself, named `<Display> <code> (<label>) Syllabus.pdf`, in the cleaned subject folder |
| Papers.SeriesSuffix | main.py:91-92 | case-insensitively, "may june" gets s, "oct nov" w, "feb march" m, and any other series the empty suffix |
| Papers.SeriesNamesSuffixes | main.py:121-122 | May June, Oct Nov and Feb March map to s, w and m |
| Papers.AppendSiblings | main.py:108-109 | an answered probe appends its three sibling components in order |
| Papers.CheckPaperAvailability | main.py:94-114 | the probe loop returns exactly AvailablePapers for the resolved base and name |
| Papers.HitsMember | main.py:103-107 | a candidate is found iff it is a real (paper 1..6, type qp/ms/in) candidate probed so far that the oracle answers |
| Papers.HitsIncreasing | main.py:103-104 | found candidates come in probe order: paper number outer, qp, ms, in inner |
| Papers.ExpandAt | main.py:108-109 | the i-th found candidate gives components 3i..3i+2: its type with codes n1, n2, n3 |
| Papers.AvailablePapersShape | main.py:94-114 | the result has 3 entries per answered probe, at most 54, in probe order, and lists exactly the answered candidates |
| Papers.YearDigitsOf | main.py:105 | the two year characters in a URL are the tens and units digits of the year |
| Papers.FileNameNoSlash | main.py:131 | a paper file name has no "/" when its parts have none |
| Papers.HitsCandidates | main.py:103-104 | only the 18 probes (papers 1 to 6, types qp, ms, in) can be found |
| Papers.SiblingsNoSlash | main.py:108-109 | a found component's type and code contain no "/" |
| Papers.SeriesDownloadsNamed | main.py:129-133 | every file of one series is saved under the last segment of its URL, which is also the last segment of its path |
| Papers.PastPaperDownloadsNamed | main.py:116-133 | every past paper download_past_papers fetches is saved under the last segment of its URL, which is also the last segment of its path |
| Papers.PaperDownloadShape | main.py:129-133 | each paper target is named `code_{suffix}{yy}_{type}_{paper}.pdf`, the last segment of both its URL and its path, in the cleaned paper folder |
| Papers.DownloadSeries | main.py:122-133 | one series pass downloads what its probe found under the resolved source and reassigns the name |
| Papers.DownloadYear | main.py:120-133 | one year runs the three series passes in order |
| Papers.DownloadYears | main.py:120-133 | the year loop produces the Run of the series pass over all years |
| Papers.DownloadPastPapers | main.py:116-133 | the method returns exactly PastPaperDownloads for start year and current year |
| Papers.YearDownloads | main.py:120-126 | year start+n comes after the years before it, with series May June, Oct Nov, Feb March in order, each probing with the name the previous series left |
| Papers.SeriesDownloadsLength | main.py:103-109 | one series downloads at most 54 files |
| Papers.PassStep | main.py:124-133 | a series pass leaves the resolved name and adds at most 54 targets |
| Papers.RunLength | main.py:120-133 | n years and k series produce at most 54 targets per series |
| Papers.PastPaperDownloadsCount | main.py:116-133 | at most 162 targets per year in range(start, current + 1) |
| Papers.RunName | main.py:124-126 | after the first series the name is the resolved name and, when that holds no "-9-1", every later series uses the plain base URL |
| Driver.FourDigitYear | main.py:17-18 | a line passes the shared test iff, stripped, it is four digits; its value is then their decimal value |
| Driver.ExamYearInput | main.py:17-20 | the exam year is accepted iff it is four digits and now <= year <= now + 7 |
| Driver.StartYearInput | main.py:27-30 | the start year is accepted iff it is four digits and 2000 <= year <= now |
| Driver.FourDigitYearRoundTrip | main.py:17-20 | a year typed with whitespace around it reads back as itself exactly when it has four digits |
| Driver.YearPromptsAccept | main.py:18 | a typed year is accepted by each prompt exactly in that prompt's range of four-digit years |
| Driver.TakeCode | main.py:138-150 | "0000" means exit; otherwise a non-four-digit line is refused as not numeric and an unknown code as not found; a four-digit catalog code is accepted |
| Driver.ExitBeforeLookup | main.py:138-140 | "0000", with any whitespace around it, exits whatever the catalog holds |
| Driver.CatalogCodesAccepted | main.py:141-150 | every four-digit catalog code other than "0000" is accepted as typed |
| Driver.GatherSyllabi | main.py:164-170 | the link loop collects the selected links' downloads in link order, and the flag is set iff something was collected |
| Driver.SelectSyllabi | main.py:164-172 | "Syllabus Unavailable." is reported iff no link is a non-None syllabus.pdf link valid for the exam year |
| Driver.SyllabusDownloadsSelected | main.py:164-172 | nothing is downloaded iff no link is selected; every download comes from a selected link, and every selected link is downloaded |
| Driver.SyllabusDownloadCount | main.py:165-170 | there is no tie-break: exactly one download per selected link |
| Driver.SyllabusDownloadNames | main.py:166-169 | each syllabus download's URL is the site plus a selected link, named and filed as download_syllabus does |
| Driver.VisitSubject | main.py:162-175 | one pass of main's loop downloads the selected syllabi, reports their absence, then the past papers for the lower-cased subject name |
| Papers.ResolveSource | main.py:95-99 | a name containing "-9-1" is served from the cambridge-igcse-9-1 base with every "-9-1" removed; any other name from the cambridge-igcse base, unchanged (the same block recurs at 124-128) |
| Papers.YearDigits | main.py:105 | `str(year)[-2:]`: the last two characters of the year's decimal text, or all of it when shorter |
| Papers.PaperFileName | main.py:131 | `{code}_{suffix}{yy}_{type}_{paper}.pdf` |
| Papers.PaperUrl | main.py:130 | `{base}/{name}-{code}/{year}/` followed by the file name |
| Papers.ProbeUrl | main.py:103-105 | the URL probed for paper x and a type: the paper URL of code `x2` |
| Papers.PaperFolder | main.py:132 | `subject/Past Papers/{year}/{series}/Paper {code}`, joined as posixpath.join does |
| Papers.AvailablePapers | main.py:94-114 | the components found: each answering probe, in probing order, expanded to variants 1, 2 and 3 |
| Papers.SeriesDownloads | main.py:122-133 | one series downloads every found component, under the base and name the current subject name resolves to |
| Papers.SeriesPass | main.py:122-133 | one series pass adds its downloads and reassigns subject_name to the resolved name |
| Papers.Run | main.py:120-133 | the state after n whole years and k more series, the series taken in the order May June, Oct Nov, Feb March |
| Papers.PastPaperDownloads | main.py:116-133 | every download_file call of download_past_papers, from exam_year through the current year |
| Papers.PaperDownloadsAt | main.py:129-133 | the k-th download of a series is the download of its k-th found component |
| Papers.SiblingProbed | main.py:103-109 | the middle component emitted for a hit is the probed code `x2` itself |
| Papers.HitFetched | main.py:105-130 | the second download of hit i is fetched from exactly the URL probed for it |
| Papers.SeriesFetchesProbedUrl | main.py:103-133 | a series downloads three files per answering probe, and for every hit the variant-2 file comes from the very URL that answered |
| Syllabus.IsValidSyllabusForYear | main.py:42-43 | is_valid_syllabus_for_year: the validity rule applied to the years extracted from the URL |
| Naming.SubjectFolder | main.py:88 | `IGCSE Resources/<display name> <code>`, the same folder download_past_papers builds at line 118 |
| Naming.SyllabusFileName | main.py:87 | `<display name> <code> (<year range>) Syllabus.pdf` |
| Driver.Selected | main.py:166-168 | a link is downloaded iff it is present, contains "syllabus.pdf" and is valid for the exam year once prefixed with the site address |
| Driver.SyllabusDownloads | main.py:165-170 | the download_syllabus calls for the page's links, in page order |

## Left out

- Network I/O is not modelled.
  - The GET and HEAD requests and the streamed download (`main.py:9`, `68-77`, `106`) are left out.
  - The HEAD probe is the oracle `answers`.
  - A download is its target record. Whether it succeeded is not modelled.
- `extract_all_links` (`main.py:8-12`) is not modelled, because it relies on an HTML parser. The links are an input sequence, with `None` for an anchor without `href`.
- `os.makedirs`, file writes and every `print` are not modelled: they are side effects that compute nothing.
- The `input()` retry loops and `main`'s outer loop are not modelled. The model covers one typed line per prompt and one pass of the outer loop per accepted code.
- `datetime.now()` is the parameter `now` or `current`.
- `subjects.py` is not part of this model. `subject_dict` is a map parameter.
- Python's Unicode semantics are not modelled: `str.isdigit`, `\d`, `str.title` and `str.lower` are modelled on ASCII letters and digits.
- `os.path.join` is modelled as `posixpath.join`, so Windows separators are not modelled.
- Papers.RunName: does not cover a resolved name that itself still contains "-9-1".
  - Removing "-9-1" can create a new occurrence, as in "-9-9-1-1".
  - For such a name the loop keeps rewriting, and `Papers.YearDownloads` describes that case exactly as written.
