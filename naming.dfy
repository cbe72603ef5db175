/** How main.py names things: the subject name read from a catalog path
    (extract_subject_name), the title-cased display name, the syllabus file and
    folder names (download_syllabus), and the folder clean-up and display label
    of download_file. */
module Naming {
  import opened Wrappers
  import opened Text
  import opened Syllabus

  const SubjectMarker := "/cambridge-igcse-"
  const UnknownSubject := "Unknown Subject"
  const ResourceRoot := "IGCSE Resources"

  /** `-\d{4}/` starts at index j of s. */
  predicate CodeTailAt(s: string, j: int)
  {
    0 <= j && j + 6 <= |s| && s[j] == '-' && AllDigits(s[j + 1..j + 5]) && s[j + 5] == '/'
  }

  /** The first newline at or after g (or |s|): `.` matches up to there. */
  function LineEnd(s: string, g: nat): (e: nat)
    requires g <= |s|
    decreases |s| - g
    ensures g <= e <= |s| && (e < |s| ==> s[e] == '\n')
    ensures forall k :: g <= k < e ==> s[k] != '\n'
  {
    if g == |s| || s[g] == '\n' then g else LineEnd(s, g + 1)
  }

  /** The greedy `(.*)`: the last index in [g, top] at which the tail matches. */
  function LastTailAt(s: string, g: nat, top: nat): (r: Option<nat>)
    requires g <= top
    decreases top - g
    ensures r.Some? ==> g <= r.value <= top && CodeTailAt(s, r.value)
    ensures r.Some? ==> forall k :: r.value < k <= top ==> !CodeTailAt(s, k)
    ensures r.None? ==> forall k :: g <= k <= top ==> !CodeTailAt(s, k)
  {
    if CodeTailAt(s, top) then Some(top)
    else if top == g then None
    else LastTailAt(s, g, top - 1)
  }

  /** Where the group of `/cambridge-igcse-(.*)-\d{4}/` ends when the match
      starts at index i, if it can start there. */
  function GroupEndAt(s: string, i: nat): Option<nat>
  {
    if HasAt(s, i, SubjectMarker)
    then LastTailAt(s, i + |SubjectMarker|, LineEnd(s, i + |SubjectMarker|))
    else None
  }

  /** The leftmost index, from i on, at which the pattern matches. */
  function FirstGroupStart(s: string, i: nat): (r: Option<nat>)
    decreases |s| + 1 - i
    ensures r.Some? ==> i <= r.value <= |s| && GroupEndAt(s, r.value).Some?
    ensures r.Some? ==> forall j :: i <= j < r.value ==> GroupEndAt(s, j).None?
    ensures r.None? ==> forall j :: i <= j <= |s| ==> GroupEndAt(s, j).None?
  {
    if i > |s| then None
    else if GroupEndAt(s, i).Some? then Some(i)
    else FirstGroupStart(s, i + 1)
  }

  /** match.group(1) of re.search(r'/cambridge-igcse-(.*)-\d{4}/', path): the text
      after the leftmost marker up to the last `-dddd/` on the same line. */
  function SubjectGroup(path: string): (r: Option<string>)
    ensures r.None? <==> forall i :: 0 <= i <= |path| ==> GroupEndAt(path, i).None?
    ensures r.Some? ==> '\n' !in r.value
  {
    match FirstGroupStart(path, 0)
    case None => None
    case Some(i) =>
      var e := GroupEndAt(path, i).value;
      var g := i + |SubjectMarker|;
      assert forall k :: 0 <= k < e - g ==> path[g..e][k] == path[g + k];
      Some(path[g..e])
  }

  /** What the group is: the text after the leftmost marker from which the pattern
      can match, up to the last `-dddd/` on that line. */
  lemma SubjectGroupValue(path: string)
    ensures SubjectGroup(path).Some? ==>
      exists i, e ::
        && 0 <= i && i + |SubjectMarker| <= e <= |path|
        && HasAt(path, i, SubjectMarker)
        && (forall j :: 0 <= j < i ==> GroupEndAt(path, j).None?)
        && CodeTailAt(path, e)
        && SubjectGroup(path).value == path[i + |SubjectMarker|..e]
        && (forall k :: i + |SubjectMarker| <= k < e ==> path[k] != '\n')
        && (forall k :: e < k <= LineEnd(path, i + |SubjectMarker|) ==> !CodeTailAt(path, k))
  {
    if SubjectGroup(path).Some? {
      var i := FirstGroupStart(path, 0).value;
      var g := i + |SubjectMarker|;
      var e := GroupEndAt(path, i).value;
      assert HasAt(path, i, SubjectMarker);
      assert CodeTailAt(path, e) && e <= LineEnd(path, g);
    }
  }

  /** extract_subject_name, given the catalog path of the subject: the group,
      with "9 1" rewritten to "9-1", or "Unknown Subject" when nothing matches. */
  function ExtractSubjectName(path: string): (name: string)
    ensures SubjectGroup(path).None? ==> name == UnknownSubject
    ensures SubjectGroup(path).Some? ==>
      name == ReplaceAll(SubjectGroup(path).value, "9 1", "9-1") && !Contains(name, "9 1")
  {
    match SubjectGroup(path)
    case None => UnknownSubject
    case Some(group) =>
      NineOneGone(group);
      if Contains(group, "9 1") then ReplaceAll(group, "9 1", "9-1")
      else ReplaceAbsent(group, "9 1", "9-1"); group
  }

  /** Whether a pattern occurs at j depends only on the characters it covers. */
  lemma HasAtPrefix(t: string, rest: string, j: nat, m: string)
    requires j + |m| <= |t|
    ensures HasAt(t + rest, j, m) == HasAt(t, j, m)
  {
    assert (t + rest)[j..j + |m|] == t[j..j + |m|];
  }

  /** `NAME-dddd/` ends in the tail pattern, is NAME before it, and has no
      newline when NAME has none. */
  lemma NameTail(name: string, code: string)
    requires '\n' !in name && |code| == 4 && AllDigits(code)
    ensures var t := name + "-" + code + "/";
      |t| == |name| + 6 && CodeTailAt(t, |name|) && t[..|name|] == name
      && forall k :: 0 <= k < |t| ==> t[k] != '\n'
  {
    var t := name + "-" + code + "/";
    assert t[|name| + 1..|name| + 5] == code;
    forall k | 0 <= k < |t| ensures t[k] != '\n' {
      if k < |name| { assert t[k] == name[k]; }
      else if |name| < k < |name| + 5 { assert t[k] == code[k - |name| - 1]; }
    }
  }

  /** When everything from g on stays on one line and ends in `-dddd/`, the greedy
      group ends right before that final tail. */
  lemma GreedyToEnd(s: string, g: nat)
    requires g + 6 <= |s| && CodeTailAt(s, |s| - 6)
    requires forall k :: g <= k < |s| ==> s[k] != '\n'
    ensures LastTailAt(s, g, LineEnd(s, g)) == Some(|s| - 6)
  {
    LineEndNone(s, g);
  }

  /** The pieces of a catalog path `p/cambridge-igcse-NAME-dddd/`: the marker
      after p, the tail at the end, NAME in between, and no newline after p. */
  lemma CatalogPathParts(p: string, name: string, code: string)
    requires '\n' !in name && |code| == 4 && AllDigits(code)
    ensures var s := (p + SubjectMarker) + (name + "-" + code + "/");
      var g := |p| + |SubjectMarker|;
      && |s| == g + |name| + 6
      && HasAt(s, |p|, SubjectMarker)
      && CodeTailAt(s, |s| - 6)
      && s[g..|s| - 6] == name
      && forall k :: g <= k < |s| ==> s[k] != '\n'
  {
    var t := name + "-" + code + "/";
    var s := (p + SubjectMarker) + t;
    var g := |p| + |SubjectMarker|;
    NameTail(name, code);
    assert s[g..] == t;
    assert s[|p|..g] == SubjectMarker;
    assert s[|s| - 5..|s| - 1] == t[|t| - 5..|t| - 1];
    forall k | g <= k < |s| ensures s[k] != '\n' {
      assert s[k] == t[k - g];
    }
    assert s[g..|s| - 6] == t[..|name|];
  }

  /** A catalog path `p/cambridge-igcse-NAME-dddd/`, whose first marker is the one
      after p and whose NAME stays on one line, yields NAME: the greedy group runs
      to the final `-dddd/`. */
  lemma SubjectOfCatalogPath(p: string, name: string, code: string)
    requires forall j :: 0 <= j < |p| ==> !HasAt(p + SubjectMarker, j, SubjectMarker)
    requires '\n' !in name && |code| == 4 && AllDigits(code)
    ensures SubjectGroup((p + SubjectMarker) + (name + "-" + code + "/")) == Some(name)
  {
    var t := name + "-" + code + "/";
    var s := (p + SubjectMarker) + t;
    var g := |p| + |SubjectMarker|;
    CatalogPathParts(p, name, code);
    GreedyToEnd(s, g);
    assert GroupEndAt(s, |p|) == Some(|s| - 6);
    forall j | 0 <= j < |p|
      ensures GroupEndAt(s, j).None?
    {
      HasAtPrefix(p + SubjectMarker, t, j, SubjectMarker);
    }
    assert FirstGroupStart(s, 0) == Some(|p|);
  }

  /** With no newline from g on, `.` runs to the end of the string. */
  lemma {:induction false} LineEndNone(s: string, g: nat)
    requires g <= |s|
    requires forall k :: g <= k < |s| ==> s[k] != '\n'
    ensures LineEnd(s, g) == |s|
    decreases |s| - g
  {
    if g < |s| {
      LineEndNone(s, g + 1);
    }
  }

  /** The human-readable subject name of download_syllabus and
      download_past_papers: `name.replace("-", " ").title().replace("9 1", "9-1")`.
      It never keeps a "9 1". */
  function DisplayName(subjectName: string): (display: string)
    ensures !Contains(display, "9 1")
  {
    var titled := Title(ReplaceAll(subjectName, "-", " "));
    NineOneGone(titled);
    ReplaceAll(titled, "9 1", "9-1")
  }

  /** A "9 1" of the hyphen-spaced name starts at j: "9-1" or "9 1" in the name. */
  predicate NineOneSpan(s: string, j: int)
  {
    0 <= j && j + 3 <= |s| && s[j] == '9' && (s[j + 1] == '-' || s[j + 1] == ' ') && s[j + 2] == '1'
  }

  /** The display name character by character: hyphens become spaces, words are
      title-cased, and the separator of every "9-1" or "9 1" is written '-'. */
  lemma DisplayNameChars(subjectName: string)
    ensures var display := DisplayName(subjectName);
      && |display| == |subjectName|
      && forall k :: 0 <= k < |subjectName| ==>
           display[k] == if k > 0 && NineOneSpan(subjectName, k - 1) then '-'
                         else TitleCharAt(SpaceHyphens(subjectName), k)
  {
    var spaced := SpaceHyphens(subjectName);
    var t := Title(spaced);
    TitleAt(spaced);
    NineOneReplacedAt(t);
    forall j | 0 <= j
      ensures HasAt(t, j, "9 1") <==> NineOneSpan(subjectName, j)
    {
      TitleNineOne(spaced, j);
      if j + 3 <= |spaced| {
        NineOneAtChars(spaced, j);
      }
    }
  }

  /** `"<Display> <code>"`, the subject folder under "IGCSE Resources". */
  function SubjectFolder(subjectName: string, code: string): string
  {
    PathJoin(ResourceRoot, DisplayName(subjectName) + " " + code)
  }

  /** What download_file works with: the URL, the file name, the folder after the
      "9 1 " clean-up, the path written, and the label it reports. */
  datatype Download = Download(url: string, fileName: string, folder: string,
                               path: string, display: string)

  /** download_file, up to the request: the syllabus file name is its own label,
      any other file is labelled by the last 18 characters of its URL; the file is
      written as fileName inside the cleaned folder. */
  function DownloadFile(url: string, fileName: string, folder: string): (d: Download)
    ensures d.url == url && d.fileName == fileName
    ensures d.folder == ReplaceAll(folder, "9 1 ", "")
    ensures Contains(fileName, "Syllabus") ==> d.display == fileName
    ensures !Contains(fileName, "Syllabus") ==> d.display == TakeLast(url, 18)
    ensures d.path == PathJoin(d.folder, fileName)
    ensures '/' !in fileName && fileName != [] ==> LastSegment(d.path) == fileName
  {
    var cleaned := ReplaceAll(folder, "9 1 ", "");
    var path := PathJoin(cleaned, fileName);
    JoinedLastSegment(cleaned, fileName);
    Download(url, fileName, cleaned, path,
             if Contains(fileName, "Syllabus") then fileName else TakeLast(url, 18))
  }

  /** os.path.join(folder, name) ends in name when name has no '/'. */
  lemma JoinedLastSegment(folder: string, name: string)
    ensures '/' !in name && name != [] ==> LastSegment(PathJoin(folder, name)) == name
  {
    if '/' !in name && name != [] {
      assert name[0] != '/';
      if folder == [] {
        assert PathJoin(folder, name) == name;
        NoSlashLastSegment(name);
      } else if folder[|folder| - 1] == '/' {
        var init := folder[..|folder| - 1];
        assert PathJoin(folder, name) == init + "/" + name by {
          assert folder == init + "/";
        }
        LastSegmentAfterSlash(init, name);
      } else {
        LastSegmentAfterSlash(folder, name);
      }
    }
  }

  /** A string without '/' is its own last segment. */
  lemma {:induction false} NoSlashLastSegment(s: string)
    requires '/' !in s
    ensures LastSegment(s) == s
  {
    if s != [] {
      NoSlashLastSegment(s[..|s| - 1]);
      assert s == s[..|s| - 1] + [s[|s| - 1]];
    }
  }

  /** Every syllabus file name contains "Syllabus". */
  lemma NamesSyllabus(front: string)
    ensures Contains(front + ") Syllabus.pdf", "Syllabus")
  {
    var s := front + ") Syllabus.pdf";
    assert s[|front| + 2..|front| + 10] == "Syllabus";
    assert HasAt(s, |front| + 2, "Syllabus");
  }

  /** The syllabus file name of download_syllabus. */
  function SyllabusFileName(subjectName: string, code: string, yearRange: string): string
  {
    DisplayName(subjectName) + " " + code + " (" + yearRange + ") Syllabus.pdf"
  }

  /** download_syllabus(subject_url, subject_code, exam_year), with the catalog
      path of the subject passed in: the file is named after the subject, the code
      and the year label of the URL, and stored in the subject's folder. */
  function DownloadSyllabus(subjectUrl: string, code: string, catalogPath: string): (d: Download)
    ensures d.url == subjectUrl && d.display == d.fileName
    ensures d.fileName == DisplayName(ExtractSubjectName(catalogPath)) + " " + code
                          + " (" + YearLabel(ExtractYears(subjectUrl)) + ") Syllabus.pdf"
    ensures d.folder == ReplaceAll(SubjectFolder(ExtractSubjectName(catalogPath), code), "9 1 ", "")
  {
    var subjectName := ExtractSubjectName(catalogPath);
    var fileName := SyllabusFileName(subjectName, code, YearLabel(ExtractYears(subjectUrl)));
    NamesSyllabus(DisplayName(subjectName) + " " + code + " (" + YearLabel(ExtractYears(subjectUrl)));
    DownloadFile(subjectUrl, fileName, SubjectFolder(subjectName, code))
  }
}
