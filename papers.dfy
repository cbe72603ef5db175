/** Past-paper discovery and download targets of main.py: the series suffix
    (get_series_suffix), the probe loop over candidate papers
    (check_paper_availability) and the nested year/series/paper loops that
    produce the files to fetch (download_past_papers). The HEAD request is the
    oracle `answers`: true when the server answers 200 for the URL. */
module Papers {
  import opened Wrappers
  import opened Text
  import opened Naming

  const PlainBase := "https://bestexamhelp.com/exam/cambridge-igcse"
  const NineOneBase := "https://bestexamhelp.com/exam/cambridge-igcse-9-1"
  const NineOne := "-9-1"

  /** Paper numbers 1 to 6 are probed. */
  const PaperCount: nat := 6

  /** The paper types, in the order they are probed. */
  const Kinds: seq<string> := ["qp", "ms", "in"]

  /** The variant digits emitted for every paper number found. */
  const Extensions: seq<string> := ["1", "2", "3"]

  /** get_series_suffix: the one-letter code of a series, ignoring case; "" for
      a series it does not know. */
  function SeriesSuffix(series: string): (suffix: string)
    ensures suffix in {"s", "w", "m", ""}
    ensures Lower(series) == "may june" ==> suffix == "s"
    ensures Lower(series) == "oct nov" ==> suffix == "w"
    ensures Lower(series) == "feb march" ==> suffix == "m"
    ensures Lower(series) !in {"may june", "oct nov", "feb march"} ==> suffix == ""
  {
    var key := Lower(series);
    if key == "may june" then "s"
    else if key == "oct nov" then "w"
    else if key == "feb march" then "m"
    else ""
  }

  /** Where a subject's papers live: the base URL and the name in the path. */
  datatype Source = Source(base: string, name: string)

  /** The `if "-9-1" in subject_name` block shared by check_paper_availability and
      download_past_papers. */
  function ResolveSource(subjectName: string): Source
  {
    if Contains(subjectName, NineOne)
    then Source(NineOneBase, ReplaceAll(subjectName, NineOne, ""))
    else Source(PlainBase, subjectName)
  }

  /** str(year)[-2:] */
  function YearDigits(year: int): string
  {
    TakeLast(IntToString(year), 2)
  }

  /** `{code}_{suffix}{yy}_{type}_{paper}.pdf` */
  function PaperFileName(code: string, suffix: string, year: int, kind: string, paper: string): string
  {
    code + "_" + suffix + YearDigits(year) + "_" + kind + "_" + paper + ".pdf"
  }

  /** `{base}/{name}-{code}/{year}/` followed by the file name. */
  function PaperUrl(src: Source, code: string, year: int, fileName: string): string
  {
    src.base + "/" + src.name + "-" + code + "/" + IntToString(year) + "/" + fileName
  }

  /** A probe: paper number `paper` (1 to 6) of type `kind`. */
  datatype Candidate = Candidate(paper: nat, kind: string)

  /** f"{x}2": variant 2 of paper x, the code that is probed. */
  function ProbeCode(paper: nat): string
  {
    NatToString(paper) + "2"
  }

  /** The URL probed for a candidate. */
  function ProbeUrl(src: Source, code: string, suffix: string, year: int, c: Candidate): string
  {
    PaperUrl(src, code, year, PaperFileName(code, suffix, year, c.kind, ProbeCode(c.paper)))
  }

  /** The position of a paper type in the inner probing loop. */
  function KindIndex(kind: string): (k: nat)
    ensures k < 3
    ensures kind in Kinds ==> Kinds[k] == kind
  {
    if kind == "qp" then 0 else if kind == "ms" then 1 else 2
  }

  /** The place of a candidate in the probing order, from 0: paper number first,
      then qp, ms, in. */
  function Rank(c: Candidate): int
  {
    3 * (c.paper - 1) + KindIndex(c.kind)
  }

  /** One of the 18 probes: a paper number from 1 to 6 and one of the three types. */
  predicate IsCandidate(c: Candidate)
  {
    1 <= c.paper <= PaperCount && c.kind in Kinds
  }

  /** A found paper: its type and its code. */
  datatype Component = Component(kind: string, code: string)

  /** The three components emitted when a candidate answers: `paper_code[0]`
      followed by 1, 2 and 3. */
  function Siblings(c: Candidate): (cs: seq<Component>)
    ensures |cs| == 3
  {
    SiblingsUpTo(c, 3)
  }

  /** The first e of those three. */
  function SiblingsUpTo(c: Candidate, e: nat): (cs: seq<Component>)
    requires e <= 3
    ensures |cs| == e
  {
    if e == 0 then []
    else SiblingsUpTo(c, e - 1) + [Component(c.kind, [ProbeCode(c.paper)[0]] + Extensions[e - 1])]
  }

  /** Whether the probe for a candidate answers: the HEAD request on its URL. */
  function Answered(answers: string -> bool, src: Source, code: string, suffix: string,
                    year: int): Candidate -> bool
  {
    c => answers(ProbeUrl(src, code, suffix, year, c))
  }

  lemma AnsweredAt(answers: string -> bool, src: Source, code: string, suffix: string, year: int,
                   c: Candidate)
    ensures Answered(answers, src, code, suffix, year)(c) == answers(ProbeUrl(src, code, suffix, year, c))
  {
  }

  /** The hits among the probes made before paper x, type Kinds[j] (papers below x,
      then the first j types of paper x), in probing order. */
  function Hits(answered: Candidate -> bool, x: nat, j: nat): seq<Candidate>
    requires j <= 3
    decreases x, j
  {
    if j == 0 then
      (if x <= 1 then [] else Hits(answered, x - 1, 3))
    else
      var c := Candidate(x, Kinds[j - 1]);
      Hits(answered, x, j - 1) + (if answered(c) then [c] else [])
  }

  /** Each hit replaced by its three siblings. */
  function Expand(hits: seq<Candidate>): seq<Component>
  {
    if hits == [] then [] else Expand(hits[..|hits| - 1]) + Siblings(hits[|hits| - 1])
  }

  /** What check_paper_availability returns, for the oracle `answers`. */
  function AvailablePapers(answers: string -> bool, code: string, subjectName: string,
                           suffix: string, year: int): seq<Component>
  {
    Expand(Hits(Answered(answers, ResolveSource(subjectName), code, suffix, year), PaperCount + 1, 0))
  }

  /** Probing paper x, type Kinds[j] adds it to the hits exactly when it answers. */
  lemma HitsStep(answered: Candidate -> bool, x: nat, j: nat)
    requires j < 3
    ensures var c := Candidate(x, Kinds[j]);
      Hits(answered, x, j + 1) == Hits(answered, x, j) + (if answered(c) then [c] else [])
  {
  }

  /** One more hit adds its three siblings at the end. */
  lemma ExpandStep(hits: seq<Candidate>, c: Candidate)
    ensures Expand(hits + [c]) == Expand(hits) + Siblings(c)
  {
    assert (hits + [c])[..|hits|] == hits;
  }

  /** The inner loop of check_paper_availability: one answered probe adds the
      components of its three variants, in the order of Extensions. */
  method AppendSiblings(papers: seq<Component>, c: Candidate) returns (r: seq<Component>)
    ensures r == papers + Siblings(c)
  {
    var paperCode := ProbeCode(c.paper);
    r := papers;
    for e := 0 to 3
      invariant r == papers + SiblingsUpTo(c, e)
    {
      r := r + [Component(c.kind, [paperCode[0]] + Extensions[e])];
    }
  }

  /** check_paper_availability(subject_code, subject_name, series_suffix, year),
      with the HEAD request replaced by `answers`. */
  method CheckPaperAvailability(answers: string -> bool, code: string, subjectName: string,
                                suffix: string, year: int)
    returns (papers: seq<Component>)
    ensures papers == AvailablePapers(answers, code, subjectName, suffix, year)
  {
    var baseUrl, name := PlainBase, subjectName;
    if Contains(name, NineOne) {
      baseUrl := NineOneBase;
      name := ReplaceAll(name, NineOne, "");
    }
    ghost var answered := Answered(answers, Source(baseUrl, name), code, suffix, year);
    assert Source(baseUrl, name) == ResolveSource(subjectName);
    ghost var hits: seq<Candidate> := [];
    papers := [];
    for x := 1 to PaperCount + 1
      invariant hits == Hits(answered, x, 0)
      invariant papers == Expand(hits)
    {
      var paperCode := NatToString(x) + "2";
      for j := 0 to 3
        invariant hits == Hits(answered, x, j)
        invariant papers == Expand(hits)
      {
        var kind := Kinds[j];
        var url := PaperUrl(Source(baseUrl, name), code, year,
                            PaperFileName(code, suffix, year, kind, paperCode));
        var c := Candidate(x, kind);
        assert url == ProbeUrl(Source(baseUrl, name), code, suffix, year, c);
        AnsweredAt(answers, Source(baseUrl, name), code, suffix, year, c);
        HitsStep(answered, x, j);
        if answers(url) {
          papers := AppendSiblings(papers, c);
          ExpandStep(hits, c);
          hits := hits + [c];
        }
      }
    }
  }

  /* ---------- what the probe loop promises ---------- */

  lemma {:induction false} ExpandLength(hits: seq<Candidate>)
    ensures |Expand(hits)| == 3 * |hits|
  {
    if hits != [] {
      ExpandLength(hits[..|hits| - 1]);
    }
  }

  /** The components of the i-th hit sit, as its three siblings, at 3i to 3i + 2. */
  lemma {:induction false} ExpandAt(hits: seq<Candidate>, i: nat)
    requires i < |hits|
    ensures |Expand(hits)| == 3 * |hits|
    ensures Expand(hits)[3 * i..3 * i + 3] == Siblings(hits[i])
  {
    var init := hits[..|hits| - 1];
    var front := Expand(init);
    var e := front + Siblings(hits[|hits| - 1]);
    assert Expand(hits) == e;
    ExpandLength(init);
    if i < |init| {
      ExpandAt(init, i);
      assert e[3 * i..3 * i + 3] == front[3 * i..3 * i + 3];
    } else {
      assert e[3 * i..3 * i + 3] == Siblings(hits[i]);
    }
  }

  /** At most one hit per probe made. */
  lemma {:induction false} HitsLength(answered: Candidate -> bool, x: nat, j: nat)
    requires 1 <= x && j <= 3
    ensures |Hits(answered, x, j)| <= 3 * (x - 1) + j
    decreases x, j
  {
    if j > 0 {
      HitsLength(answered, x, j - 1);
    } else if x > 1 {
      HitsLength(answered, x - 1, 3);
    }
  }

  /** A candidate is among the hits before (x, j) exactly when it is one of the
      probes, comes before (x, j) and its probe answered. */
  lemma {:induction false} HitsMember(answered: Candidate -> bool, x: nat, j: nat, c: Candidate)
    requires 1 <= x <= PaperCount && j <= 3
    ensures c in Hits(answered, x, j) <==> IsCandidate(c) && Rank(c) < 3 * (x - 1) + j && answered(c)
    decreases x, j
  {
    if j > 0 {
      HitsMember(answered, x, j - 1, c);
      assert KindIndex(Kinds[j - 1]) == j - 1;
      if IsCandidate(c) && Rank(c) == 3 * (x - 1) + j - 1 {
        assert c.paper == x && KindIndex(c.kind) == j - 1;
      }
    } else if x > 1 {
      HitsMember(answered, x - 1, 3, c);
    }
  }

  predicate Increasing(cs: seq<Candidate>)
  {
    forall i, j :: 0 <= i < j < |cs| ==> Rank(cs[i]) < Rank(cs[j])
  }

  /** Appending a candidate ranked after everything keeps a list increasing. */
  lemma IncreasingAppend(cs: seq<Candidate>, c: Candidate)
    requires Increasing(cs)
    requires forall d :: d in cs ==> Rank(d) < Rank(c)
    ensures Increasing(cs + [c])
  {
    var h := cs + [c];
    forall a, b | 0 <= a < b < |h| ensures Rank(h[a]) < Rank(h[b]) {
      assert h[a] == cs[a] && cs[a] in cs;
      if b < |cs| {
        assert h[b] == cs[b];
      }
    }
  }

  /** The hits come in strictly increasing probing order. */
  lemma {:induction false} HitsIncreasing(answered: Candidate -> bool, x: nat, j: nat)
    requires 1 <= x <= PaperCount && j <= 3
    ensures Increasing(Hits(answered, x, j))
    decreases x, j
  {
    if j > 0 {
      HitsIncreasing(answered, x, j - 1);
      var prev := Hits(answered, x, j - 1);
      var c := Candidate(x, Kinds[j - 1]);
      if answered(c) {
        forall d | d in prev ensures Rank(d) < Rank(c) {
          HitsMember(answered, x, j - 1, d);
          assert KindIndex(Kinds[j - 1]) == j - 1;
        }
        IncreasingAppend(prev, c);
      }
    } else if x > 1 {
      HitsIncreasing(answered, x - 1, 3);
    }
  }

  /** check_paper_availability's result, for any oracle: the candidates whose
      probe answered are listed in probing order (paper number first, then qp, ms,
      in), each exactly as its three siblings n1, n2, n3; so the list has three
      entries per answered probe and at most 54. A candidate counts exactly when it
      is one of the 18 probes and the HEAD request on its URL answered. */
  lemma AvailablePapersShape(answers: string -> bool, code: string, subjectName: string,
                             suffix: string, year: int)
    ensures var src := ResolveSource(subjectName);
      var hits := Hits(Answered(answers, src, code, suffix, year), PaperCount + 1, 0);
      var papers := AvailablePapers(answers, code, subjectName, suffix, year);
      && Increasing(hits)
      && (forall c :: c in hits <==> IsCandidate(c) && answers(ProbeUrl(src, code, suffix, year, c)))
      && |papers| == 3 * |hits| <= 54
      && (forall i :: 0 <= i < |hits| ==> papers[3 * i..3 * i + 3] == Siblings(hits[i]))
  {
    var src := ResolveSource(subjectName);
    var answered := Answered(answers, src, code, suffix, year);
    var hits := Hits(answered, PaperCount + 1, 0);
    assert hits == Hits(answered, PaperCount, 3);
    HitsIncreasing(answered, PaperCount, 3);
    HitsLength(answered, PaperCount, 3);
    forall c ensures c in hits <==> IsCandidate(c) && answers(ProbeUrl(src, code, suffix, year, c)) {
      HitsMember(answered, PaperCount, 3, c);
    }
    ExpandLength(hits);
    forall i | 0 <= i < |hits|
      ensures Expand(hits)[3 * i..3 * i + 3] == Siblings(hits[i])
    {
      ExpandAt(hits, i);
    }
  }

  /* ---------- download_past_papers ---------- */

  /** The series downloaded every year, in this order. */
  const SeriesNames: seq<string> := ["May June", "Oct Nov", "Feb March"]

  /** os.path.join(subject_foldername, "Past Papers", str(year), series, f"Paper {code}") */
  function PaperFolder(subjectFolder: string, year: int, series: string, paperCode: string): string
  {
    PathJoin(PathJoin(PathJoin(PathJoin(subjectFolder, "Past Papers"), IntToString(year)), series),
             "Paper " + paperCode)
  }

  /** The download_file call made for one found component. */
  function PaperDownload(src: Source, code: string, subjectFolder: string, year: int,
                         series: string, suffix: string, p: Component): Download
  {
    var fileName := PaperFileName(code, suffix, year, p.kind, p.code);
    DownloadFile(PaperUrl(src, code, year, fileName), fileName,
                 PaperFolder(subjectFolder, year, series, p.code))
  }

  /** The download_file calls for a list of found components, in list order. */
  function PaperDownloads(src: Source, code: string, subjectFolder: string, year: int,
                          series: string, suffix: string, papers: seq<Component>): (ds: seq<Download>)
    ensures |ds| == |papers|
  {
    if papers == [] then []
    else PaperDownloads(src, code, subjectFolder, year, series, suffix, papers[..|papers| - 1])
         + [PaperDownload(src, code, subjectFolder, year, series, suffix, papers[|papers| - 1])]
  }

  lemma PaperDownloadsStep(src: Source, code: string, subjectFolder: string, year: int,
                            series: string, suffix: string, papers: seq<Component>, i: nat)
    requires i < |papers|
    ensures PaperDownloads(src, code, subjectFolder, year, series, suffix, papers[..i + 1])
         == PaperDownloads(src, code, subjectFolder, year, series, suffix, papers[..i])
            + [PaperDownload(src, code, subjectFolder, year, series, suffix, papers[i])]
  {
    assert papers[..i + 1][..i] == papers[..i];
  }

  /** What the loop has built so far: the current subject_name and the downloads. */
  datatype Progress = Progress(name: string, downloads: seq<Download>)

  /** The downloads of one pass of the series loop: probe with the current name,
      then download every component found under the base and name that the same
      name resolves to. */
  function SeriesDownloads(answers: string -> bool, code: string, subjectFolder: string, year: int,
                           series: string, name: string): seq<Download>
  {
    var suffix := SeriesSuffix(series);
    PaperDownloads(ResolveSource(name), code, subjectFolder, year, series, suffix,
                   AvailablePapers(answers, code, name, suffix, year))
  }

  /** One pass of the series loop; it also reassigns subject_name to the resolved name. */
  function SeriesPass(answers: string -> bool, code: string, subjectFolder: string, year: int,
                      series: string, st: Progress): Progress
  {
    Progress(ResolveSource(st.name).name,
             st.downloads + SeriesDownloads(answers, code, subjectFolder, year, series, st.name))
  }

  /** One pass of the series loop, as a value that Run can be stated over. Pass and
      SeriesPass define one concept twice: the function value keeps Run's proofs
      from unfolding the URL strings of each pass. */
  function Pass(answers: string -> bool, code: string, subjectFolder: string)
    : (int, string, Progress) -> Progress
  {
    (year, series, st) => SeriesPass(answers, code, subjectFolder, year, series, st)
  }

  /** `pass` agrees with SeriesPass wherever SeriesPass is used. */
  ghost predicate IsSeriesPass(pass: (int, string, Progress) -> Progress, answers: string -> bool,
                         code: string, subjectFolder: string)
  {
    forall year: int, series: string, st: Progress
      {:trigger SeriesPass(answers, code, subjectFolder, year, series, st)}
      :: pass(year, series, st) == SeriesPass(answers, code, subjectFolder, year, series, st)
  }

  lemma PassIsSeriesPass(answers: string -> bool, code: string, subjectFolder: string)
    ensures IsSeriesPass(Pass(answers, code, subjectFolder), answers, code, subjectFolder)
  {
  }

  /** The state of download_past_papers after n whole years and then the first k
      series of year start + n, each series pass being `pass`. */
  function Run(pass: (int, string, Progress) -> Progress, start: int, st: Progress, n: nat, k: nat)
    : Progress
    requires k <= 3
    decreases n, k
  {
    if k == 0 then
      (if n == 0 then st else Run(pass, start, st, n - 1, 3))
    else
      pass(start + n, SeriesNames[k - 1], Run(pass, start, st, n, k - 1))
  }

  /** The number of years in range(start, current + 1). */
  function YearCount(start: int, current: int): nat
  {
    if start <= current then current - start + 1 else 0
  }

  /** Every download_file call of download_past_papers(code, subjectName, start)
      when the current year is `current`. */
  function PastPaperDownloads(answers: string -> bool, code: string, subjectName: string,
                              start: int, current: int): seq<Download>
  {
    Run(Pass(answers, code, SubjectFolder(subjectName, code)), start,
        Progress(subjectName, []), YearCount(start, current), 0).downloads
  }

  /** The body of the series loop of download_past_papers: probe, download what
      was found, and reassign subject_name. */
  method DownloadSeries(answers: string -> bool, code: string, subjectFolder: string, year: int,
                        series: string, st: Progress)
    returns (next: Progress)
    ensures next == SeriesPass(answers, code, subjectFolder, year, series, st)
  {
    var suffix := SeriesSuffix(series);
    var papers := CheckPaperAvailability(answers, code, st.name, suffix, year);
    var baseUrl := PlainBase;
    var name := st.name;
    if Contains(name, NineOne) {
      baseUrl := NineOneBase;
      name := ReplaceAll(name, NineOne, "");
    }
    ghost var src := Source(baseUrl, name);
    assert src == ResolveSource(st.name);
    var downloads := [];
    for i := 0 to |papers|
      invariant downloads == PaperDownloads(src, code, subjectFolder, year, series, suffix, papers[..i])
    {
      var fileName := PaperFileName(code, suffix, year, papers[i].kind, papers[i].code);
      var url := baseUrl + "/" + name + "-" + code + "/" + IntToString(year) + "/" + fileName;
      var folder := PaperFolder(subjectFolder, year, series, papers[i].code);
      PaperDownloadsStep(src, code, subjectFolder, year, series, suffix, papers, i);
      downloads := downloads + [DownloadFile(url, fileName, folder)];
    }
    assert papers[..|papers|] == papers;
    next := Progress(name, st.downloads + downloads);
  }

  /** The series loop of download_past_papers for year start + n. */
  method DownloadYear(answers: string -> bool, code: string, subjectFolder: string,
                      ghost pass: (int, string, Progress) -> Progress, start: int,
                      ghost st0: Progress, n: nat, st: Progress)
    returns (next: Progress)
    requires IsSeriesPass(pass, answers, code, subjectFolder)
    requires st == Run(pass, start, st0, n, 0)
    ensures next == Run(pass, start, st0, n + 1, 0)
  {
    next := st;
    for k := 0 to 3
      invariant next == Run(pass, start, st0, n, k)
    {
      next := DownloadSeries(answers, code, subjectFolder, start + n, SeriesNames[k], next);
    }
  }

  /** The year loop of download_past_papers over `count` years from `start`. */
  method DownloadYears(answers: string -> bool, code: string, subjectFolder: string,
                       ghost pass: (int, string, Progress) -> Progress,
                       subjectName: string, start: int, count: nat)
    returns (downloads: seq<Download>)
    requires IsSeriesPass(pass, answers, code, subjectFolder)
    ensures downloads == Run(pass, start, Progress(subjectName, []), count, 0).downloads
  {
    var st := Progress(subjectName, []);
    for n := 0 to count
      invariant st == Run(pass, start, Progress(subjectName, []), n, 0)
    {
      st := DownloadYear(answers, code, subjectFolder, pass, start, Progress(subjectName, []), n, st);
    }
    downloads := st.downloads;
  }

  /** download_past_papers(subject_code, subject_name, exam_year), with the clock
      reading `current` and the HEAD requests replaced by `answers`: the files it
      fetches, in order. */
  method DownloadPastPapers(answers: string -> bool, code: string, subjectName: string,
                            start: int, current: int)
    returns (downloads: seq<Download>)
    ensures downloads == PastPaperDownloads(answers, code, subjectName, start, current)
  {
    var subjectFolder := SubjectFolder(subjectName, code);
    PassIsSeriesPass(answers, code, subjectFolder);
    downloads := DownloadYears(answers, code, subjectFolder, Pass(answers, code, subjectFolder),
                               subjectName, start, YearCount(start, current));
  }

  /* ---------- what download_past_papers promises ---------- */

  /** The three series are fetched under the suffixes s, w and m. */
  lemma SeriesNamesSuffixes()
    ensures SeriesSuffix(SeriesNames[0]) == "s"
    ensures SeriesSuffix(SeriesNames[1]) == "w"
    ensures SeriesSuffix(SeriesNames[2]) == "m"
  {
  }

  /** str(year)[-2:] is the tens digit then the units digit of a year from 10 on. */
  lemma YearDigitsOf(year: int)
    requires year >= 10
    ensures YearDigits(year) == [DigitChar((year / 10) % 10), DigitChar(year % 10)]
  {
    LastTwoDigits(year);
  }

  /** The file names built for a component contain no '/'. */
  lemma FileNameNoSlash(code: string, suffix: string, year: int, kind: string, paper: string)
    requires '/' !in code && '/' !in suffix && '/' !in kind && '/' !in paper
    ensures '/' !in PaperFileName(code, suffix, year, kind, paper)
  {
    var digits := IntToString(year);
    assert '/' !in digits by {
      var n := if year < 0 then -year else year;
      assert forall ch :: ch in NatToString(n) ==> IsDigit(ch);
    }
    var yy := YearDigits(year);
    assert digits == digits[..|digits| - |yy|] + yy;
    assert '/' !in yy;
  }

  /** A past-paper download is saved under the name its URL ends in, as the last
      segment of its path, in its paper folder with "9 1 " removed. */
  lemma PaperDownloadShape(src: Source, code: string, subjectFolder: string, year: int,
                           series: string, suffix: string, p: Component)
    requires '/' !in code && '/' !in suffix && '/' !in p.kind && '/' !in p.code
    ensures var d := PaperDownload(src, code, subjectFolder, year, series, suffix, p);
      && d.fileName == PaperFileName(code, suffix, year, p.kind, p.code)
      && LastSegment(d.url) == d.fileName
      && LastSegment(d.path) == d.fileName
      && d.folder == ReplaceAll(PaperFolder(subjectFolder, year, series, p.code), "9 1 ", "")
  {
    var fileName := PaperFileName(code, suffix, year, p.kind, p.code);
    FileNameNoSlash(code, suffix, year, p.kind, p.code);
    LastSegmentAfterSlash(src.base + "/" + src.name + "-" + code + "/" + IntToString(year), fileName);
  }

  /** PaperDownload as a function of the component alone. */
  function DownloadOf(src: Source, code: string, subjectFolder: string, year: int,
                      series: string, suffix: string): Component -> Download
  {
    p => PaperDownload(src, code, subjectFolder, year, series, suffix, p)
  }

  /** f applied to every element, built from the last element as PaperDownloads is.
      Being generic, it keeps the file-name strings out of index reasoning. */
  function MapLast<T, U>(f: T -> U, xs: seq<T>): (ys: seq<U>)
    ensures |ys| == |xs|
  {
    if xs == [] then [] else MapLast(f, xs[..|xs| - 1]) + [f(xs[|xs| - 1])]
  }

  lemma {:induction false} MapLastAt<T, U>(f: T -> U, xs: seq<T>, k: nat)
    requires k < |xs|
    ensures MapLast(f, xs)[k] == f(xs[k])
    decreases |xs|
  {
    var n := |xs|;
    if k < n - 1 {
      MapLastAt(f, xs[..n - 1], k);
      assert xs[..n - 1][k] == xs[k];
    }
  }

  lemma {:induction false} PaperDownloadsMap(src: Source, code: string, subjectFolder: string,
                                             year: int, series: string, suffix: string,
                                             papers: seq<Component>)
    ensures PaperDownloads(src, code, subjectFolder, year, series, suffix, papers)
         == MapLast(DownloadOf(src, code, subjectFolder, year, series, suffix), papers)
    decreases |papers|
  {
    if papers != [] {
      PaperDownloadsMap(src, code, subjectFolder, year, series, suffix, papers[..|papers| - 1]);
    }
  }

  /** The k-th download of a component list is the download of the k-th component. */
  lemma PaperDownloadsAt(src: Source, code: string, subjectFolder: string,
                         year: int, series: string, suffix: string,
                         papers: seq<Component>, k: nat)
    requires k < |papers|
    ensures PaperDownloads(src, code, subjectFolder, year, series, suffix, papers)[k]
         == PaperDownload(src, code, subjectFolder, year, series, suffix, papers[k])
  {
    PaperDownloadsMap(src, code, subjectFolder, year, series, suffix, papers);
    MapLastAt(DownloadOf(src, code, subjectFolder, year, series, suffix), papers, k);
  }

  /** The middle sibling of a probe is the probed component itself: paper_code[0]
      followed by "2" is paper_code. */
  lemma SiblingProbed(c: Candidate)
    requires IsCandidate(c)
    ensures Siblings(c)[1] == Component(c.kind, ProbeCode(c.paper))
  {
    assert NatToString(c.paper) == [DigitChar(c.paper)];
    assert SiblingsUpTo(c, 2) == SiblingsUpTo(c, 1) + [Component(c.kind, [ProbeCode(c.paper)[0]] + Extensions[1])];
    assert [ProbeCode(c.paper)[0]] + Extensions[1] == ProbeCode(c.paper);
  }

  /** Component 3i+1 of the expansion is the one probed for hit i. */
  lemma ExpandProbed(hits: seq<Candidate>, i: nat)
    requires i < |hits| && IsCandidate(hits[i])
    ensures |Expand(hits)| == 3 * |hits|
    ensures Expand(hits)[3 * i + 1] == Component(hits[i].kind, ProbeCode(hits[i].paper))
  {
    ExpandLength(hits);
    ExpandAt(hits, i);
    assert Expand(hits)[3 * i + 1] == Expand(hits)[3 * i..3 * i + 3][1];
    SiblingProbed(hits[i]);
  }

  /** The second download of hit i is fetched from the very URL that was probed for it. */
  lemma HitFetched(src: Source, code: string, subjectFolder: string, year: int, series: string,
                   suffix: string, hits: seq<Candidate>, i: nat)
    requires i < |hits| && IsCandidate(hits[i])
    ensures var ds := PaperDownloads(src, code, subjectFolder, year, series, suffix, Expand(hits));
      && |ds| == 3 * |hits|
      && ds[3 * i + 1].url == ProbeUrl(src, code, suffix, year, hits[i])
  {
    var papers := Expand(hits);
    ExpandProbed(hits, i);
    PaperDownloadsAt(src, code, subjectFolder, year, series, suffix, papers, 3 * i + 1);
  }

  /** The prober and the downloader build the same URL: for every answered probe,
      the variant-2 file is downloaded from the URL that answered. */
  lemma SeriesFetchesProbedUrl(answers: string -> bool, code: string, subjectFolder: string,
                               year: int, series: string, name: string)
    ensures var src := ResolveSource(name);
      var suffix := SeriesSuffix(series);
      var hits := Hits(Answered(answers, src, code, suffix, year), PaperCount + 1, 0);
      var ds := SeriesDownloads(answers, code, subjectFolder, year, series, name);
      && |ds| == 3 * |hits|
      && forall i :: 0 <= i < |hits| ==>
           ds[3 * i + 1].url == ProbeUrl(src, code, suffix, year, hits[i]) && answers(ds[3 * i + 1].url)
  {
    var src := ResolveSource(name);
    var suffix := SeriesSuffix(series);
    var answered := Answered(answers, src, code, suffix, year);
    var hits := Hits(answered, PaperCount + 1, 0);
    var ds := PaperDownloads(src, code, subjectFolder, year, series, suffix, Expand(hits));
    assert SeriesDownloads(answers, code, subjectFolder, year, series, name) == ds;
    assert hits == Hits(answered, PaperCount, 3);
    ExpandLength(hits);
    forall i | 0 <= i < |hits|
      ensures ds[3 * i + 1].url == ProbeUrl(src, code, suffix, year, hits[i]) && answers(ds[3 * i + 1].url)
    {
      HitsMember(answered, PaperCount, 3, hits[i]);
      AnsweredAt(answers, src, code, suffix, year, hits[i]);
      HitFetched(src, code, subjectFolder, year, series, suffix, hits, i);
    }
  }

  /** The file download_file writes is named as the last segment of its URL. */
  predicate SavedUnderUrlName(d: Download)
  {
    LastSegment(d.url) == d.fileName && LastSegment(d.path) == d.fileName
  }

  /** A found component's type and code have no '/': a type of Kinds, and a
      paper digit followed by 1, 2 or 3. */
  lemma SiblingsNoSlash(c: Candidate)
    requires IsCandidate(c)
    ensures forall p :: p in Siblings(c) ==> '/' !in p.kind && '/' !in p.code
  {
    var digit := ProbeCode(c.paper)[0];
    assert IsDigit(digit);
    assert SiblingsUpTo(c, 1) == [Component(c.kind, [digit] + Extensions[0])];
    assert SiblingsUpTo(c, 2) == SiblingsUpTo(c, 1) + [Component(c.kind, [digit] + Extensions[1])];
    assert Siblings(c) == SiblingsUpTo(c, 2) + [Component(c.kind, [digit] + Extensions[2])];
  }

  /** Only the 18 probes can be hits. */
  lemma {:induction false} HitsCandidates(answered: Candidate -> bool, x: nat, j: nat)
    requires x <= PaperCount + 1 && j <= 3
    requires x == PaperCount + 1 ==> j == 0
    requires j > 0 ==> 1 <= x
    ensures forall c :: c in Hits(answered, x, j) ==> IsCandidate(c)
    decreases x, j
  {
    if j > 0 {
      HitsCandidates(answered, x, j - 1);
    } else if x > 1 {
      HitsCandidates(answered, x - 1, 3);
    }
  }

  lemma {:induction false} ExpandNoSlash(hits: seq<Candidate>)
    requires forall c :: c in hits ==> IsCandidate(c)
    ensures forall p :: p in Expand(hits) ==> '/' !in p.kind && '/' !in p.code
  {
    if hits != [] {
      ExpandNoSlash(hits[..|hits| - 1]);
      SiblingsNoSlash(hits[|hits| - 1]);
    }
  }

  lemma {:induction false} PaperDownloadsNamed(src: Source, code: string, subjectFolder: string,
                                               year: int, series: string, suffix: string,
                                               papers: seq<Component>)
    requires '/' !in code && '/' !in suffix
    requires forall p :: p in papers ==> '/' !in p.kind && '/' !in p.code
    ensures forall d :: d in PaperDownloads(src, code, subjectFolder, year, series, suffix, papers)
                        ==> SavedUnderUrlName(d)
  {
    if papers != [] {
      PaperDownloadsNamed(src, code, subjectFolder, year, series, suffix, papers[..|papers| - 1]);
      PaperDownloadShape(src, code, subjectFolder, year, series, suffix, papers[|papers| - 1]);
    }
  }

  /** Every file of one series is saved under the name its URL ends in. */
  lemma SeriesDownloadsNamed(answers: string -> bool, code: string, subjectFolder: string,
                             year: int, series: string, name: string)
    requires '/' !in code
    ensures forall d :: d in SeriesDownloads(answers, code, subjectFolder, year, series, name)
                        ==> SavedUnderUrlName(d)
  {
    var suffix := SeriesSuffix(series);
    var src := ResolveSource(name);
    var hits := Hits(Answered(answers, src, code, suffix, year), PaperCount + 1, 0);
    HitsCandidates(Answered(answers, src, code, suffix, year), PaperCount + 1, 0);
    ExpandNoSlash(hits);
    PaperDownloadsNamed(src, code, subjectFolder, year, series, suffix, Expand(hits));
  }

  /** A series pass keeps every download saved under its URL's name. */
  lemma PassNamed(pass: (int, string, Progress) -> Progress, answers: string -> bool, code: string,
                  subjectFolder: string, year: int, series: string, st: Progress)
    requires IsSeriesPass(pass, answers, code, subjectFolder) && '/' !in code
    requires forall d :: d in st.downloads ==> SavedUnderUrlName(d)
    ensures forall d :: d in pass(year, series, st).downloads ==> SavedUnderUrlName(d)
  {
    var next := SeriesPass(answers, code, subjectFolder, year, series, st);
    SeriesDownloadsNamed(answers, code, subjectFolder, year, series, st.name);
  }

  lemma {:induction false} RunNamed(pass: (int, string, Progress) -> Progress,
                                    answers: string -> bool, code: string, subjectFolder: string,
                                    start: int, st: Progress, n: nat, k: nat)
    requires IsSeriesPass(pass, answers, code, subjectFolder)
    requires k <= 3 && '/' !in code
    requires forall d :: d in st.downloads ==> SavedUnderUrlName(d)
    ensures forall d :: d in Run(pass, start, st, n, k).downloads ==> SavedUnderUrlName(d)
    decreases n, k
  {
    if k > 0 {
      RunNamed(pass, answers, code, subjectFolder, start, st, n, k - 1);
      PassNamed(pass, answers, code, subjectFolder, start + n, SeriesNames[k - 1],
                Run(pass, start, st, n, k - 1));
    } else if n > 0 {
      RunNamed(pass, answers, code, subjectFolder, start, st, n - 1, 3);
    }
  }

  /** Every past paper is saved under the name its URL ends in, as the last
      segment of the path written. */
  lemma PastPaperDownloadsNamed(answers: string -> bool, code: string, subjectName: string,
                                start: int, current: int)
    requires '/' !in code
    ensures forall d :: d in PastPaperDownloads(answers, code, subjectName, start, current) ==>
              LastSegment(d.url) == d.fileName && LastSegment(d.path) == d.fileName
  {
    var subjectFolder := SubjectFolder(subjectName, code);
    PassIsSeriesPass(answers, code, subjectFolder);
    RunNamed(Pass(answers, code, subjectFolder), answers, code, subjectFolder, start,
             Progress(subjectName, []), YearCount(start, current), 0);
  }

  /** One series downloads at most 54 files: three per answered probe. */
  lemma SeriesDownloadsLength(answers: string -> bool, code: string, subjectFolder: string,
                              year: int, series: string, name: string)
    ensures |SeriesDownloads(answers, code, subjectFolder, year, series, name)| <= 54
  {
    AvailablePapersShape(answers, code, name, SeriesSuffix(series), year);
  }

  /** One series pass adds at most 54 downloads and reassigns the resolved name. */
  lemma PassStep(pass: (int, string, Progress) -> Progress, answers: string -> bool, code: string,
                 subjectFolder: string, year: int, series: string, st: Progress)
    requires IsSeriesPass(pass, answers, code, subjectFolder)
    ensures pass(year, series, st).name == ResolveSource(st.name).name
    ensures |pass(year, series, st).downloads| <= |st.downloads| + 54
  {
    var next := SeriesPass(answers, code, subjectFolder, year, series, st);
    SeriesDownloadsLength(answers, code, subjectFolder, year, series, st.name);
  }

  /** Year start + n is visited after the n years before it, its series in the order
      May June, Oct Nov, Feb March; each series probes with the name the series
      before it left behind. */
  lemma YearDownloads(pass: (int, string, Progress) -> Progress, answers: string -> bool,
                      code: string, subjectFolder: string, start: int, st: Progress, n: nat)
    requires IsSeriesPass(pass, answers, code, subjectFolder)
    ensures var before := Run(pass, start, st, n, 0);
      var year := start + n;
      var name1 := ResolveSource(before.name).name;
      var name2 := ResolveSource(name1).name;
      Run(pass, start, st, n + 1, 0).downloads
        == before.downloads
           + SeriesDownloads(answers, code, subjectFolder, year, "May June", before.name)
           + SeriesDownloads(answers, code, subjectFolder, year, "Oct Nov", name1)
           + SeriesDownloads(answers, code, subjectFolder, year, "Feb March", name2)
  {
    var before := Run(pass, start, st, n, 0);
    var year := start + n;
    var r1 := Run(pass, start, st, n, 1);
    assert r1 == SeriesPass(answers, code, subjectFolder, year, SeriesNames[0], before);
    var r2 := Run(pass, start, st, n, 2);
    assert r2 == SeriesPass(answers, code, subjectFolder, year, SeriesNames[1], r1);
    var r3 := Run(pass, start, st, n, 3);
    assert r3 == SeriesPass(answers, code, subjectFolder, year, SeriesNames[2], r2);
    assert Run(pass, start, st, n + 1, 0) == r3;
  }

  /** n whole years and k more series download at most 54 files per series. */
  lemma {:induction false} RunLength(pass: (int, string, Progress) -> Progress,
                                     answers: string -> bool, code: string, subjectFolder: string,
                                     start: int, st: Progress, n: nat, k: nat)
    requires IsSeriesPass(pass, answers, code, subjectFolder)
    requires k <= 3
    ensures |Run(pass, start, st, n, k).downloads| <= |st.downloads| + 54 * (3 * n + k)
    decreases n, k
  {
    if k > 0 {
      RunLength(pass, answers, code, subjectFolder, start, st, n, k - 1);
      PassStep(pass, answers, code, subjectFolder, start + n, SeriesNames[k - 1],
               Run(pass, start, st, n, k - 1));
    } else if n > 0 {
      RunLength(pass, answers, code, subjectFolder, start, st, n - 1, 3);
    }
  }

  /** download_past_papers fetches at most 162 files a year: 3 series of 18
      probes, each answered probe giving three files. */
  lemma PastPaperDownloadsCount(answers: string -> bool, code: string, subjectName: string,
                                start: int, current: int)
    ensures |PastPaperDownloads(answers, code, subjectName, start, current)|
         <= 162 * YearCount(start, current)
  {
    var subjectFolder := SubjectFolder(subjectName, code);
    PassIsSeriesPass(answers, code, subjectFolder);
    RunLength(Pass(answers, code, subjectFolder), answers, code, subjectFolder, start,
              Progress(subjectName, []), YearCount(start, current), 0);
  }

  /** subject_name is rewritten by the first series only: from then on it is the
      resolved name and, when that has no "-9-1" left, every later series probes
      and downloads under the plain base URL. */
  lemma {:induction false} RunName(pass: (int, string, Progress) -> Progress,
                                   answers: string -> bool, code: string, subjectFolder: string,
                                   start: int, name0: string, n: nat, k: nat)
    requires IsSeriesPass(pass, answers, code, subjectFolder)
    requires k <= 3
    requires !Contains(ResolveSource(name0).name, NineOne)
    ensures var st := Run(pass, start, Progress(name0, []), n, k);
      && st.name == (if n == 0 && k == 0 then name0 else ResolveSource(name0).name)
      && (n > 0 || k > 0 ==> ResolveSource(st.name) == Source(PlainBase, ResolveSource(name0).name))
    decreases n, k
  {
    if k > 0 {
      RunName(pass, answers, code, subjectFolder, start, name0, n, k - 1);
      PassStep(pass, answers, code, subjectFolder, start + n, SeriesNames[k - 1],
               Run(pass, start, Progress(name0, []), n, k - 1));
    } else if n > 0 {
      RunName(pass, answers, code, subjectFolder, start, name0, n - 1, 3);
    }
  }
}
