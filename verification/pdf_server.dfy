/*
 * The line-based résumé text extractor: section headers, the per-section
 * parsers and the keyword scan for skills.
 */
module PdfServer {
  import opened Wrappers
  import opened Strings
  import opened Seqs
  import opened Blocks
  import opened Resume

  /*
   * The partially filled résumé the extractor writes into.
   */

  /** The skills object the extractor starts from, with its six lists. */
  datatype ParsedSkills = ParsedSkills(
    technical: seq<string>,
    soft: seq<string>,
    languages: seq<string>,
    frameworks: seq<string>,
    tools: seq<string>,
    databases: seq<string>)

  datatype Extracted = Extracted(
    personalInfo: PersonalInfo,
    professionalSummary: string,
    skills: ParsedSkills,
    experience: seq<Experience>,
    projects: seq<Project>,
    education: seq<Education>,
    certifications: seq<Certification>)

  /*
   * Section headers.
   */

  datatype SectionKind = Summary | ExperienceSection | EducationSection | Projects | Certifications | SkillsSection

  /** Position in the header table; earlier entries win. */
  function Rank(kind: SectionKind): nat
  {
    match kind
    case Summary => 0
    case ExperienceSection => 1
    case EducationSection => 2
    case Projects => 3
    case Certifications => 4
    case SkillsSection => 5
  }

  /** Some word of `words` occurs in `s`. */
  predicate ContainsAny(s: string, words: seq<string>)
  {
    exists w :: w in words && Contains(s, w)
  }

  /**
   * The header pattern of each section, tested case-insensitively. Alternatives
   * such as `professional\s+experience` or `technical\s+skills` contain a
   * shorter alternative (`experience`, `skills`) and add nothing; `degrees?`,
   * `projects?` and the like reduce to their stem.
   */
  predicate Matches(kind: SectionKind, line: string)
  {
    var l := Lower(line);
    match kind
    case Summary => ContainsAny(l, ["summary", "objective", "profile", "about", "overview"])
    case ExperienceSection => ContainsAny(l, ["experience", "employment"]) || ContainsSpaced(l, "work", "history")
    case EducationSection => ContainsAny(l, ["education", "academic", "qualifications", "degree"])
    case Projects => ContainsAny(l, ["project", "portfolio"]) || ContainsSpaced(l, "work", "samples")
    case Certifications => ContainsAny(l, ["certification", "certificate", "license"])
    case SkillsSection => ContainsAny(l, ["skills", "technologies", "competencies", "tools"])
  }

  const MaxHeaderLength := 50

  /** The section a (trimmed) line opens, if it is a header. */
  function HeaderKind(line: string): Option<SectionKind>
  {
    if |line| >= MaxHeaderLength then None
    else if Matches(Summary, line) then Some(Summary)
    else if Matches(ExperienceSection, line) then Some(ExperienceSection)
    else if Matches(EducationSection, line) then Some(EducationSection)
    else if Matches(Projects, line) then Some(Projects)
    else if Matches(Certifications, line) then Some(Certifications)
    else if Matches(SkillsSection, line) then Some(SkillsSection)
    else None
  }

  /** A header is a short line; its section is the first in table order whose pattern matches. */
  lemma HeaderKindFirstMatch(line: string)
    ensures HeaderKind(line).Some? ==> |line| < MaxHeaderLength && Matches(HeaderKind(line).value, line)
    ensures HeaderKind(line).Some? ==> forall k :: Rank(k) < Rank(HeaderKind(line).value) ==> !Matches(k, line)
    ensures HeaderKind(line).None? <==> |line| >= MaxHeaderLength || forall k :: !Matches(k, line)
  {
  }

  predicate IsHeaderLine(line: string)
  {
    HeaderKind(Trim(line)).Some?
  }

  /** A line's trimmed text, when it is not blank. */
  function NonBlank(line: string): (r: Option<string>)
    ensures r.Some? ==> r.value == Trim(line) && r.value != []
    ensures r.None? <==> Trim(line) == []
  {
    var t := Trim(line);
    if t == [] then None else Some(t)
  }

  /** The trimmed non-blank lines, in order. */
  function Clean(lines: seq<string>): seq<string>
  {
    FilterMap(NonBlank, lines)
  }

  /*
   * Experience entries: a block starts at a line with a four-digit run and a
   * range marker.
   */

  /** `\d{4}` matches at position `i`. */
  predicate DigitRunAt(line: string, i: nat)
  {
    i + 4 <= |line| && IsDigit(line[i]) && IsDigit(line[i + 1]) && IsDigit(line[i + 2]) && IsDigit(line[i + 3])
  }

  predicate HasFourDigits(line: string)
  {
    exists i: nat :: i < |line| && DigitRunAt(line, i)
  }

  predicate IsExperienceTrigger(line: string)
  {
    HasFourDigits(line) && (Contains(line, "-") || Contains(line, "to") || Contains(line, "present"))
  }

  const DefaultTitle: string := "Software Developer"
  const DefaultCompany: string := "Company Name"

  function ExperienceEntry(b: Block): Experience
  {
    Experience(DefaultTitle, DefaultCompany, Trim(b.head), Clean(b.body), [], None)
  }

  function ParseExperienceEntries(content: seq<string>): (r: seq<Experience>)
    ensures forall i :: 0 <= i < |r| ==>
      r[i].title == DefaultTitle && r[i].company == DefaultCompany && r[i].technologies == []
  {
    MapBlocks(Split(content, IsExperienceTrigger), ExperienceEntry)
  }

  /** One entry per trigger line, in order, whose duration is that line trimmed. */
  lemma ExperiencePerTrigger(content: seq<string>)
    ensures |ParseExperienceEntries(content)| == |Filter(IsExperienceTrigger, content)|
    ensures forall i :: 0 <= i < |ParseExperienceEntries(content)| ==>
      ParseExperienceEntries(content)[i].duration == Trim(Filter(IsExperienceTrigger, content)[i])
  {
    SplitHeads(content, IsExperienceTrigger);
    var blocks := Split(content, IsExperienceTrigger);
    forall i | 0 <= i < |blocks|
      ensures ParseExperienceEntries(content)[i].duration == Trim(Filter(IsExperienceTrigger, content)[i])
    {
      assert Heads(blocks)[i] == blocks[i].head;
    }
  }

  /** Lines before the first trigger line are dropped. */
  lemma ExperiencePreambleDropped(pre: seq<string>, content: seq<string>)
    requires forall i :: 0 <= i < |pre| ==> !IsExperienceTrigger(pre[i])
    ensures ParseExperienceEntries(pre + content) == ParseExperienceEntries(content)
  {
    PreambleDropped(pre, content, IsExperienceTrigger);
  }

  /** An entry's description is exactly the non-blank lines up to the next trigger. */
  lemma ExperienceDescription(head: string, body: seq<string>, rest: seq<string>)
    requires IsExperienceTrigger(head)
    requires forall i :: 0 <= i < |body| ==> !IsExperienceTrigger(body[i])
    requires rest == [] || IsExperienceTrigger(rest[0])
    ensures ParseExperienceEntries([head] + body + rest)
      == [Experience(DefaultTitle, DefaultCompany, Trim(head), Clean(body), [], None)] + ParseExperienceEntries(rest)
  {
    SplitBlockMapped(head, body, rest, IsExperienceTrigger, ExperienceEntry);
  }

  /*
   * Education: always exactly one entry.
   */

  const DefaultDegree: string := "Bachelor's Degree"
  const DefaultInstitution: string := "University Name"
  const DefaultYear: string := "2020"

  /** The leftmost `\d{4}` match of a line at or after `from`. */
  function FirstDigitRun(line: string, from: nat): (r: Option<string>)
    requires from <= |line|
    ensures r.Some? ==> |r.value| == 4 && exists i: nat ::
      && from <= i < |line| && DigitRunAt(line, i) && r.value == line[i..i + 4]
      && forall j: nat :: from <= j < i ==> !DigitRunAt(line, j)
    ensures r.None? <==> forall i: nat :: from <= i < |line| ==> !DigitRunAt(line, i)
    decreases |line| - from
  {
    if from == |line| then None
    else if DigitRunAt(line, from) then Some(line[from..from + 4])
    else FirstDigitRun(line, from + 1)
  }

  /** `content[i]` is the first line holding a four-digit run. */
  predicate FirstLineWithRun(content: seq<string>, i: int)
  {
    0 <= i < |content| && HasFourDigits(content[i]) && forall j :: 0 <= j < i ==> !HasFourDigits(content[j])
  }

  lemma FirstLineShift(content: seq<string>, k: int)
    requires content != [] && !HasFourDigits(content[0]) && FirstLineWithRun(content[1..], k)
    ensures FirstLineWithRun(content, k + 1) && content[k + 1] == content[1..][k]
  {
    forall j | 0 <= j < k + 1
      ensures !HasFourDigits(content[j])
    {
      if j > 0 {
        assert content[j] == content[1..][j - 1];
      }
    }
  }

  /** `content.find(line => /\d{4}/.test(line))?.match(/\d{4}/)?.[0]` */
  function FirstYear(content: seq<string>): (r: Option<string>)
    ensures r.Some? ==> |r.value| == 4 && forall j :: 0 <= j < 4 ==> IsDigit(r.value[j])
    ensures r.None? <==> forall i :: 0 <= i < |content| ==> !HasFourDigits(content[i])
    ensures r.Some? ==> exists i :: FirstLineWithRun(content, i) && r == FirstDigitRun(content[i], 0)
  {
    if content == [] then None
    else match FirstDigitRun(content[0], 0)
      case Some(y) =>
        assert FirstLineWithRun(content, 0);
        Some(y)
      case None =>
        var r := FirstYear(content[1..]);
        assert r.Some? ==> exists i :: FirstLineWithRun(content, i) && r == FirstDigitRun(content[i], 0) by {
          if r.Some? {
            var k :| FirstLineWithRun(content[1..], k) && r == FirstDigitRun(content[1..][k], 0);
            FirstLineShift(content, k);
          }
        }
        r
  }

  /** `content[i] || fallback` */
  function LineOr(content: seq<string>, i: nat, fallback: string): (r: string)
    ensures i < |content| && content[i] != [] ==> r == content[i]
    ensures i >= |content| || content[i] == [] ==> r == fallback
  {
    if i < |content| && content[i] != [] then content[i] else fallback
  }

  function ParseEducationEntries(content: seq<string>): (r: seq<Education>)
    ensures |r| == 1
    ensures r[0].degree == LineOr(content, 0, DefaultDegree)
    ensures r[0].institution == LineOr(content, 1, DefaultInstitution)
    ensures |r[0].year| == 4 && forall j :: 0 <= j < 4 ==> IsDigit(r[0].year[j])
    ensures (forall i :: 0 <= i < |content| ==> !HasFourDigits(content[i])) ==> r[0].year == DefaultYear
  {
    [Education(LineOr(content, 0, DefaultDegree), LineOr(content, 1, DefaultInstitution),
               FirstYear(content).GetOr(DefaultYear), None, None)]
  }

  /** The year is the leftmost four-digit run of the first line that has one. */
  lemma EducationYear(content: seq<string>, i: nat)
    requires i < |content| && HasFourDigits(content[i])
    requires forall j :: 0 <= j < i ==> !HasFourDigits(content[j])
    ensures exists p: nat ::
      && p < |content[i]| && DigitRunAt(content[i], p)
      && (forall q: nat :: q < p ==> !DigitRunAt(content[i], q))
      && ParseEducationEntries(content)[0].year == content[i][p..p + 4]
  {
    var y := FirstYear(content);
    var k :| FirstLineWithRun(content, k) && y == FirstDigitRun(content[k], 0);
    assert k == i;
  }

  /*
   * Certifications: one per non-blank line.
   */

  const DefaultIssuer: string := "Certification Authority"

  function ParseCertificationEntries(content: seq<string>): (r: seq<Certification>)
    ensures |r| == |Clean(content)|
    ensures forall i :: 0 <= i < |r| ==>
      r[i] == Certification(Clean(content)[i], DefaultIssuer, "", None, Some(""))
  {
    var names := Clean(content);
    seq(|names|, i requires 0 <= i < |names| => Certification(names[i], DefaultIssuer, "", None, Some("")))
  }

  /** A certification's name is a trimmed non-blank line of the section, and every such line gives one. */
  lemma CertificationNames(content: seq<string>, name: string)
    ensures (exists i :: 0 <= i < |ParseCertificationEntries(content)| && ParseCertificationEntries(content)[i].name == name)
      <==> exists line :: line in content && Trim(line) != [] && Trim(line) == name
  {
    var names := Clean(content);
    FilterMapMembership(NonBlank, content, name);
    if name in names {
      var i :| 0 <= i < |names| && names[i] == name;
      assert ParseCertificationEntries(content)[i].name == name;
    }
  }

  /*
   * Projects: a block starts at a non-empty line that is not a bullet.
   */

  /** The bullet literal as it is written in the parser: the UTF-8 bytes of `•` read as Windows-1252. */
  const MisencodedBullet: string := "â€¢"
  /** The bullet character résumé text actually contains. */
  const Bullet: string := "•"

  predicate ProjectStart(bullet: string, line: string)
  {
    |line| > 0 && !StartsWith(line, "-") && !StartsWith(line, bullet)
  }

  function ProjectTest(bullet: string): string -> bool
  {
    line => ProjectStart(bullet, line)
  }

  function ProjectEntry(b: Block): Project
  {
    Project(Trim(b.head), Join(Clean(b.body), " "), [], [], None, None)
  }

  function ProjectsWith(content: seq<string>, bullet: string): (r: seq<Project>)
    ensures forall i :: 0 <= i < |r| ==> r[i].technologies == [] && r[i].achievements == []
  {
    MapBlocks(Split(content, ProjectTest(bullet)), ProjectEntry)
  }

  /** The parser as written: only `-` and the misencoded bullet continue a project. */
  function ParseProjectEntriesAsWritten(content: seq<string>): seq<Project>
  {
    ProjectsWith(content, MisencodedBullet)
  }

  /** The parser with the bullet it evidently means. */
  function ParseProjectEntries(content: seq<string>): seq<Project>
  {
    ProjectsWith(content, Bullet)
  }

  lemma ExampleLinesStartProjects(head: string, bullet: string)
    requires head == "Portfolio site" && bullet == "• Built with React"
    ensures ProjectStart(MisencodedBullet, head) && ProjectStart(MisencodedBullet, bullet)
  {
    assert head[..1] == "P" && head[..3] == "Por";
    assert bullet[..1] == "•" && bullet[..3] == "• B";
  }

  /** Two consecutive start lines become two projects, the first with no description. */
  lemma AdjacentStartsAreSeparate(bullet: string, head: string, next: string)
    requires ProjectStart(bullet, head) && ProjectStart(bullet, next)
    ensures var r := ProjectsWith([head, next], bullet);
      |r| == 2 && r[1].name == Trim(next) && r[0].description == ""
  {
    var start := ProjectTest(bullet);
    SplitBlock(next, [], [], start);
    assert [next] + [] + [] == [next];
    SplitBlock(head, [], [next], start);
    assert [head] + [] + [next] == [head, next];
    var blocks := Split([head, next], start);
    assert blocks == [Block(head, []), Block(next, [])];
    assert Clean([]) == [];
  }

  /** A `•` line under a project is taken for a new project by the parser as written. */
  lemma BulletStartsProjectAsWritten()
    ensures var r := ParseProjectEntriesAsWritten(["Portfolio site", "• Built with React"]);
      |r| == 2 && r[1].name == "• Built with React" && r[0].description == ""
  {
    ExampleLinesStartProjects("Portfolio site", "• Built with React");
    TrimNoop("• Built with React");
    AdjacentStartsAreSeparate(MisencodedBullet, "Portfolio site", "• Built with React");
  }

  /** Through `processSectionContent`, the example section yields two projects. */
  lemma ProjectsSectionSplitsBullets(data: Extracted)
    ensures var r := ApplySection(data, Projects, ["Portfolio site", "• Built with React"]);
      |r.projects| == 2 && r.projects[1].name == "• Built with React"
  {
    BulletStartsProjectAsWritten();
  }

  /** Continuation lines after a project head (blank, `-` or `bullet`) join its description with single spaces. */
  lemma ContinuationLinesJoinProject(bullet: string, head: string, body: seq<string>, rest: seq<string>)
    requires ProjectStart(bullet, head)
    requires forall i :: 0 <= i < |body| ==> !ProjectStart(bullet, body[i])
    requires rest == [] || ProjectStart(bullet, rest[0])
    ensures ProjectsWith([head] + body + rest, bullet)
      == [Project(Trim(head), Join(Clean(body), " "), [], [], None, None)] + ProjectsWith(rest, bullet)
  {
    SplitBlockMapped(head, body, rest, ProjectTest(bullet), ProjectEntry);
  }

  /** With the corrected bullet, `•` and `-` lines after a project head join its description. */
  lemma BulletLinesJoinProject(head: string, bullets: seq<string>, rest: seq<string>)
    requires ProjectStart(Bullet, head)
    requires forall i :: 0 <= i < |bullets| ==>
      bullets[i] == [] || StartsWith(bullets[i], "-") || StartsWith(bullets[i], Bullet)
    requires rest == [] || ProjectStart(Bullet, rest[0])
    ensures ParseProjectEntries([head] + bullets + rest)
      == [Project(Trim(head), Join(Clean(bullets), " "), [], [], None, None)] + ParseProjectEntries(rest)
  {
    ContinuationLinesJoinProject(Bullet, head, bullets, rest);
  }

  /**
   * One project per start line, named by that line trimmed; continuation lines
   * before the first are dropped. This holds for the parser as written and for
   * the corrected one alike.
   */
  lemma ProjectPerStartLine(bullet: string, pre: seq<string>, content: seq<string>)
    requires forall i :: 0 <= i < |pre| ==> !ProjectStart(bullet, pre[i])
    ensures ProjectsWith(pre + content, bullet) == ProjectsWith(content, bullet)
    ensures |ProjectsWith(content, bullet)| == |Filter(ProjectTest(bullet), content)|
    ensures forall i :: 0 <= i < |ProjectsWith(content, bullet)| ==>
      ProjectsWith(content, bullet)[i].name == Trim(Filter(ProjectTest(bullet), content)[i])
  {
    var start := ProjectTest(bullet);
    PreambleDropped(pre, content, start);
    SplitHeads(content, start);
    var blocks := Split(content, start);
    forall i | 0 <= i < |blocks|
      ensures ProjectsWith(content, bullet)[i].name == Trim(Filter(start, content)[i])
    {
      assert Heads(blocks)[i] == blocks[i].head;
    }
  }

  /*
   * Section dispatch.
   */

  /** `processSectionContent`: what one section's content does to the résumé. */
  function ApplySection(data: Extracted, kind: SectionKind, content: seq<string>): (r: Extracted)
    ensures r.personalInfo == data.personalInfo && r.skills == data.skills
    ensures kind != Summary ==> r.professionalSummary == data.professionalSummary
    ensures kind != ExperienceSection ==> r.experience == data.experience
    ensures kind != EducationSection ==> r.education == data.education
    ensures kind != Projects ==> r.projects == data.projects
    ensures kind != Certifications ==> r.certifications == data.certifications
    ensures kind == Summary ==> r.professionalSummary == Trim(Join(content, "\n"))
    ensures kind == ExperienceSection ==> r.experience == ParseExperienceEntries(content)
    ensures kind == EducationSection ==> r.education == ParseEducationEntries(content)
    ensures kind == Projects ==> r.projects == ParseProjectEntriesAsWritten(content)
    ensures kind == Certifications ==> r.certifications == ParseCertificationEntries(content)
    ensures kind == SkillsSection ==> r == data
  {
    match kind
    case Summary => data.(professionalSummary := Trim(Join(content, "\n")))
    case ExperienceSection => data.(experience := ParseExperienceEntries(content))
    case EducationSection => data.(education := ParseEducationEntries(content))
    case Projects => data.(projects := ParseProjectEntriesAsWritten(content))
    case Certifications => data.(certifications := ParseCertificationEntries(content))
    case SkillsSection => data
  }

  /** A later section of the same kind replaces an earlier one; a skills section changes nothing. */
  lemma LaterSectionOverwrites(data: Extracted, kind: SectionKind, first: seq<string>, second: seq<string>)
    ensures ApplySection(ApplySection(data, kind, first), kind, second) == ApplySection(data, kind, second)
    ensures ApplySection(data, SkillsSection, first) == data
  {
  }

  /** Hands the pending section's content over, if there is a section and it has content. */
  function Flush(data: Extracted, current: Option<SectionKind>, content: seq<string>): Extracted
  {
    if current.Some? && |content| > 0 then ApplySection(data, current.value, content) else data
  }

  /*
   * The scan is stated for any header classifier `classify` (applied to the
   * trimmed line); `extractSections` uses `HeaderKind`.
   */

  predicate IsHeaderWith(classify: string -> Option<SectionKind>, line: string)
  {
    classify(Trim(line)).Some?
  }

  function ApplyBlockWith(classify: string -> Option<SectionKind>, data: Extracted, b: Block): Extracted
  {
    Flush(data, classify(Trim(b.head)), Clean(b.body))
  }

  function HeaderTest(classify: string -> Option<SectionKind>): string -> bool
  {
    line => IsHeaderWith(classify, line)
  }

  function BlockStep(classify: string -> Option<SectionKind>): (Extracted, Block) -> Extracted
  {
    (d, b) => ApplyBlockWith(classify, d, b)
  }

  /** Each header block, in order, handed to `processSectionContent`. */
  function SectionsWith(lines: seq<string>, data: Extracted, classify: string -> Option<SectionKind>): Extracted
  {
    Fold(data, Split(lines, HeaderTest(classify)), BlockStep(classify))
  }

  /** Reference definition of `extractSections`. */
  function SectionsOf(lines: seq<string>, data: Extracted): Extracted
  {
    SectionsWith(lines, data, HeaderKind)
  }

  /** The section and content the loop holds for an open block. */
  predicate Tracks(classify: string -> Option<SectionKind>, open: Option<Block>, current: Option<SectionKind>,
                   content: seq<string>)
  {
    if open.Some? then
      && classify(Trim(open.value.head)).Some?
      && current == classify(Trim(open.value.head))
      && content == Clean(open.value.body)
    else current.None? && content == []
  }

  /** A header line hands the open section over and opens a new one. */
  lemma HeaderStep(classify: string -> Option<SectionKind>, r: Extracted, open: Option<Block>,
                   current: Option<SectionKind>, content: seq<string>, rest: seq<string>)
    requires rest != [] && classify(Trim(rest[0])).Some?
    requires Tracks(classify, open, current, content)
    ensures Tracks(classify, Some(Block(rest[0], [])), classify(Trim(rest[0])), [])
    ensures var isStart := HeaderTest(classify);
      var step := BlockStep(classify);
      Continue(r, open, rest, isStart, step)
        == Continue(Flush(r, current, content), Some(Block(rest[0], [])), rest[1..], isStart, step)
  {
    var isStart := HeaderTest(classify);
    var step := BlockStep(classify);
    ContinueStartLine(r, open, rest, isStart, step);
    assert Close(r, open, step) == Flush(r, current, content);
    assert Clean([]) == [];
  }

  /** Any other line joins the open section's content when it is not blank. */
  lemma BodyStep(classify: string -> Option<SectionKind>, r: Extracted, open: Option<Block>,
                 current: Option<SectionKind>, content: seq<string>, rest: seq<string>)
    requires rest != [] && classify(Trim(rest[0])).None?
    requires Tracks(classify, open, current, content)
    ensures var line := Trim(rest[0]);
      var content' := if current.Some? && |line| > 0 then content + [line] else content;
      var open' := if open.Some? then Some(Block(open.value.head, open.value.body + [rest[0]])) else None;
      var isStart := HeaderTest(classify);
      var step := BlockStep(classify);
      && Tracks(classify, open', current, content')
      && Continue(r, open, rest, isStart, step) == Continue(r, open', rest[1..], isStart, step)
  {
    var isStart := HeaderTest(classify);
    var step := BlockStep(classify);
    ContinueBodyLine(r, open, rest, isStart, step);
    if open.Some? {
      CleanAppend(open.value.body, rest[0]);
    }
  }

  /** The header state machine of `extractSections`, for a given classifier. */
  method ScanSections(lines: seq<string>, data: Extracted, classify: string -> Option<SectionKind>)
    returns (r: Extracted)
    ensures r == SectionsWith(lines, data, classify)
  {
    ghost var isStart := HeaderTest(classify);
    ghost var step := BlockStep(classify);
    var current: Option<SectionKind> := None;
    var content: seq<string> := [];
    ghost var open: Option<Block> := None;
    r := data;
    ContinueFromStart(data, lines, isStart, step);
    assert lines[0..] == lines;
    assert Continue(r, open, lines[0..], isStart, step) == SectionsWith(lines, data, classify);
    var i := 0;
    while i < |lines|
      invariant 0 <= i <= |lines|
      invariant Tracks(classify, open, current, content)
      invariant Continue(r, open, lines[i..], isStart, step) == SectionsWith(lines, data, classify)
    {
      var line := Trim(lines[i]);
      var found := classify(line);
      ghost var rest := lines[i..];
      assert rest[0] == lines[i] && rest[1..] == lines[i + 1..];
      if found.Some? {
        HeaderStep(classify, r, open, current, content, rest);
        r := Flush(r, current, content);
        current := found;
        content := [];
        open := Some(Block(lines[i], []));
      } else {
        BodyStep(classify, r, open, current, content, rest);
        if open.Some? {
          open := Some(Block(open.value.head, open.value.body + [lines[i]]));
        }
        if current.Some? && |line| > 0 {
          content := content + [line];
        }
      }
      i := i + 1;
      assert Continue(r, open, lines[i..], isStart, step) == SectionsWith(lines, data, classify);
    }
    ContinueAtEnd(r, open, isStart, step);
    r := Flush(r, current, content);
  }

  /** `extractSections`. */
  method ExtractSections(lines: seq<string>, data: Extracted) returns (r: Extracted)
    ensures r == SectionsOf(lines, data)
  {
    r := ScanSections(lines, data, HeaderKind);
  }

  lemma CleanAppend(lines: seq<string>, line: string)
    ensures Clean(lines + [line]) == Clean(lines) + (if Trim(line) != [] then [Trim(line)] else [])
  {
    FilterMapConcat(NonBlank, lines, [line]);
    var t := NonBlank(line);
    assert [line][1..] == [];
    assert FilterMap(NonBlank, [line]) == (if t.Some? then [t.value] else []) + FilterMap(NonBlank, []);
  }

  /** Lines before the first recognised header are discarded. */
  lemma SectionsPreambleDiscarded(pre: seq<string>, lines: seq<string>, data: Extracted)
    requires forall i :: 0 <= i < |pre| ==> !IsHeaderLine(pre[i])
    ensures SectionsOf(pre + lines, data) == SectionsOf(lines, data)
  {
    PreambleDropped(pre, lines, HeaderTest(HeaderKind));
  }

  /** A header's content is exactly the following non-header lines, trimmed and without blanks. */
  lemma SectionContent(header: string, body: seq<string>, rest: seq<string>, data: Extracted)
    requires IsHeaderLine(header)
    requires forall i :: 0 <= i < |body| ==> !IsHeaderLine(body[i])
    requires rest == [] || IsHeaderLine(rest[0])
    ensures SectionsOf([header] + body + rest, data)
      == SectionsOf(rest, Flush(data, HeaderKind(Trim(header)), Clean(body)))
  {
    FoldSplitBlock(data, header, body, rest, HeaderTest(HeaderKind), BlockStep(HeaderKind));
  }

  /** A header with no content lines leaves the résumé untouched. */
  lemma EmptySectionUntouched(header: string, rest: seq<string>, data: Extracted)
    requires IsHeaderLine(header)
    requires rest == [] || IsHeaderLine(rest[0])
    ensures SectionsOf([header] + rest, data) == SectionsOf(rest, data)
  {
    SectionContent(header, [], rest, data);
    assert [header] + [] == [header];
    assert |Clean([])| == 0;
  }

  /** Content under a skills header never changes the résumé. */
  lemma SkillsSectionIgnored(header: string, body: seq<string>, rest: seq<string>, data: Extracted)
    requires HeaderKind(Trim(header)) == Some(SkillsSection)
    requires forall i :: 0 <= i < |body| ==> !IsHeaderLine(body[i])
    requires rest == [] || IsHeaderLine(rest[0])
    ensures SectionsOf([header] + body + rest, data) == SectionsOf(rest, data)
  {
    SectionContent(header, body, rest, data);
  }

  /*
   * extractSkills: fixed keyword lists scanned case-insensitively.
   */

  const TechnicalKeywords: seq<string> := [
    "JavaScript", "TypeScript", "Python", "Java", "C++", "C#", "PHP", "Ruby", "Go", "Rust",
    "HTML", "CSS", "React", "Vue", "Angular", "Node.js", "Express", "Django", "Flask",
    "Spring", "Laravel", "jQuery", "Bootstrap", "Tailwind"]
  const DatabaseKeywords: seq<string> := [
    "MySQL", "PostgreSQL", "MongoDB", "Redis", "SQLite", "Oracle", "SQL Server", "DynamoDB"]
  const ToolKeywords: seq<string> := [
    "Git", "Docker", "Kubernetes", "Jenkins", "Jira", "Confluence", "Slack", "Figma",
    "Adobe", "Photoshop", "Illustrator", "Webpack", "Babel", "ESLint", "Prettier"]
  const FrameworkKeywords: seq<string> := [
    "React", "Angular", "Vue", "Django", "Flask", "Spring", "Laravel", "Express",
    "Next.js", "Nuxt.js", "Gatsby", "Svelte", "FastAPI"]

  /** The keywords of one list that occur in the text, ignoring case, in list order. */
  function FoundSkills(text: string, keywords: seq<string>): (r: seq<string>)
    ensures forall k :: k in r <==> k in keywords && Contains(Lower(text), Lower(k))
    ensures IsSubsequence(r, keywords)
  {
    Filter(k => Contains(Lower(text), Lower(k)), keywords)
  }

  function ExtractSkills(text: string, data: Extracted): (r: Extracted)
    ensures r.skills.soft == data.skills.soft && r.skills.languages == data.skills.languages
    ensures r == data.(skills := r.skills)
    ensures IsSubsequence(r.skills.technical, TechnicalKeywords)
    ensures IsSubsequence(r.skills.databases, DatabaseKeywords)
    ensures IsSubsequence(r.skills.tools, ToolKeywords)
    ensures IsSubsequence(r.skills.frameworks, FrameworkKeywords)
    ensures forall k :: k in r.skills.technical <==> k in TechnicalKeywords && Contains(Lower(text), Lower(k))
    ensures forall k :: k in r.skills.databases <==> k in DatabaseKeywords && Contains(Lower(text), Lower(k))
    ensures forall k :: k in r.skills.tools <==> k in ToolKeywords && Contains(Lower(text), Lower(k))
    ensures forall k :: k in r.skills.frameworks <==> k in FrameworkKeywords && Contains(Lower(text), Lower(k))
  {
    data.(skills := data.skills.(
      technical := FoundSkills(text, TechnicalKeywords),
      databases := FoundSkills(text, DatabaseKeywords),
      tools := FoundSkills(text, ToolKeywords),
      frameworks := FoundSkills(text, FrameworkKeywords)))
  }
}
