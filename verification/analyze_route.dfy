/*
 * The change summary the analyse route returns beside a tailored résumé:
 * a comparison of the original and tailored résumés field by field.
 *
 * Every change the comparison can report has a slot; the slots in reporting
 * order are summary, skills, experiences by index, projects by index. The
 * reference definition keeps the slots whose compared fields differ and
 * describes each; the loop-shaped method is proved to agree with it.
 */
module AnalyzeRoute {
  import opened Resume
  import Seqs
  import Numerals

  datatype ChangeType = Modified | Reordered

  /** One record of the summary: the résumé field, the kind of change and a sentence. */
  datatype Change = Change(section: string, kind: ChangeType, description: string)

  /** A change the comparison can report, before it is described. */
  datatype Slot = SummarySlot | SkillsSlot | ExperienceSlot(index: nat) | ProjectSlot(index: nat)

  function Min(a: nat, b: nat): nat
  {
    if a <= b then a else b
  }

  const ExperiencePrefix := "Experience entry "
  const ExperienceSuffix := " enhanced with relevant keywords and achievements"
  const ProjectPrefix := "Project "
  const ProjectSuffix := " description and achievements optimized for job relevance"

  /** The record for a slot; indices are reported counting from one. */
  function Describe(s: Slot): Change
  {
    match s
    case SummarySlot =>
      Change("professionalSummary", Modified, "Professional summary optimized for job requirements")
    case SkillsSlot =>
      Change("skills", Reordered, "Technical skills reordered to prioritize job-relevant technologies")
    case ExperienceSlot(i) =>
      Change("experience", Modified, ExperiencePrefix + Numerals.FromNat(i + 1) + ExperienceSuffix)
    case ProjectSlot(i) =>
      Change("projects", Modified, ProjectPrefix + Numerals.FromNat(i + 1) + ProjectSuffix)
  }

  /** Each record determines its slot: one lemma per kind of slot. */
  lemma SummaryRecordUnique(b: Slot)
    requires Describe(b) == Describe(SummarySlot)
    ensures b == SummarySlot
  {
  }

  lemma SkillsRecordUnique(b: Slot)
    requires Describe(b) == Describe(SkillsSlot)
    ensures b == SkillsSlot
  {
  }

  lemma ExperienceRecordUnique(i: nat, b: Slot)
    requires Describe(b) == Describe(ExperienceSlot(i))
    ensures b == ExperienceSlot(i)
  {
    assert b.ExperienceSlot?;
    var j := b.index;
    Seqs.InfixInjective(ExperiencePrefix, Numerals.FromNat(i + 1), Numerals.FromNat(j + 1), ExperienceSuffix);
    Numerals.FromNatInjective(i + 1, j + 1);
  }

  lemma ProjectRecordUnique(i: nat, b: Slot)
    requires Describe(b) == Describe(ProjectSlot(i))
    ensures b == ProjectSlot(i)
  {
    assert b.ProjectSlot?;
    var j := b.index;
    Seqs.InfixInjective(ProjectPrefix, Numerals.FromNat(i + 1), Numerals.FromNat(j + 1), ProjectSuffix);
    Numerals.FromNatInjective(i + 1, j + 1);
  }

  /** Distinct slots give distinct records, so a record names the change it reports. */
  lemma DescribeInjective(a: Slot, b: Slot)
    requires Describe(a) == Describe(b)
    ensures a == b
  {
    match a
    case SummarySlot => SummaryRecordUnique(b);
    case SkillsSlot => SkillsRecordUnique(b);
    case ExperienceSlot(i) => ExperienceRecordUnique(i, b);
    case ProjectSlot(i) => ProjectRecordUnique(i, b);
  }


  /** The record of the summary change, and so on for each slot. */
  function SummaryChange(): Change { Describe(SummarySlot) }
  function SkillsChange(): Change { Describe(SkillsSlot) }
  function ExperienceChange(i: nat): Change { Describe(ExperienceSlot(i)) }
  function ProjectChange(i: nat): Change { Describe(ProjectSlot(i)) }

  /**
   * Whether the two résumés differ where the slot looks. The `JSON.stringify`
   * comparisons of string lists are list (in)equality: the rendering of a list
   * of strings determines the list. Entries are compared only at indices both
   * lists have.
   */
  predicate Differs(original: ResumeContent, tailored: ResumeContent, s: Slot)
  {
    match s
    case SummarySlot => original.professionalSummary != tailored.professionalSummary
    case SkillsSlot => original.skills.technical != tailored.skills.technical
    case ExperienceSlot(i) =>
      i < |original.experience| && i < |tailored.experience| &&
      original.experience[i].description != tailored.experience[i].description
    case ProjectSlot(i) =>
      i < |original.projects| && i < |tailored.projects| &&
      (original.projects[i].description != tailored.projects[i].description ||
       original.projects[i].achievements != tailored.projects[i].achievements)
  }

  /** Position of a slot in reporting order: by section, then by index. */
  function SectionRank(s: Slot): nat
  {
    match s
    case SummarySlot => 0
    case SkillsSlot => 1
    case ExperienceSlot(_) => 2
    case ProjectSlot(_) => 3
  }

  function IndexOf(s: Slot): nat
  {
    match s
    case ExperienceSlot(i) => i
    case ProjectSlot(i) => i
    case _ => 0
  }

  predicate Before(a: Slot, b: Slot)
  {
    SectionRank(a) < SectionRank(b) || (SectionRank(a) == SectionRank(b) && IndexOf(a) < IndexOf(b))
  }

  function SlotAt(experiences: nat, k: nat): Slot
  {
    if k == 0 then SummarySlot
    else if k == 1 then SkillsSlot
    else if k < 2 + experiences then ExperienceSlot(k - 2)
    else ProjectSlot(k - 2 - experiences)
  }

  /** Every slot compared for `experiences` experience pairs and `projects` project pairs, in order. */
  function Slots(experiences: nat, projects: nat): (r: seq<Slot>)
    ensures |r| == 2 + experiences + projects
    ensures forall k :: 0 <= k < |r| ==> r[k] == SlotAt(experiences, k)
  {
    seq(2 + experiences + projects, k requires 0 <= k => SlotAt(experiences, k))
  }

  /** The slots compared are the summary, the skills and the pairs that exist. */
  lemma SlotsMembership(experiences: nat, projects: nat, s: Slot)
    ensures s in Slots(experiences, projects) <==>
      s == SummarySlot || s == SkillsSlot ||
      (s.ExperienceSlot? && s.index < experiences) || (s.ProjectSlot? && s.index < projects)
  {
    var r := Slots(experiences, projects);
    match s
    case SummarySlot => assert r[0] == s;
    case SkillsSlot => assert r[1] == s;
    case ExperienceSlot(i) =>
      if i < experiences {
        assert r[i + 2] == s;
      }
    case ProjectSlot(i) =>
      if i < projects {
        assert r[i + 2 + experiences] == s;
      }
  }

  lemma SlotsOrdered(experiences: nat, projects: nat)
    ensures forall i, j :: 0 <= i < j < |Slots(experiences, projects)| ==>
      Before(Slots(experiences, projects)[i], Slots(experiences, projects)[j])
  {
  }

  lemma SlotsGrowExperience(experiences: nat)
    ensures Slots(experiences + 1, 0) == Slots(experiences, 0) + [ExperienceSlot(experiences)]
  {
    var a, b := Slots(experiences + 1, 0), Slots(experiences, 0) + [ExperienceSlot(experiences)];
    assert forall k :: 0 <= k < |a| ==> a[k] == b[k];
  }

  lemma SlotsGrowProject(experiences: nat, projects: nat)
    ensures Slots(experiences, projects + 1) == Slots(experiences, projects) + [ProjectSlot(projects)]
  {
    var c, d := Slots(experiences, projects + 1), Slots(experiences, projects) + [ProjectSlot(projects)];
    assert forall k :: 0 <= k < |c| ==> c[k] == d[k];
  }

  function DescribeAll(slots: seq<Slot>): (r: seq<Change>)
    ensures |r| == |slots|
    ensures forall i :: 0 <= i < |slots| ==> r[i] == Describe(slots[i])
  {
    seq(|slots|, i requires 0 <= i < |slots| => Describe(slots[i]))
  }

  /** The slots whose compared fields differ among those inspected, in order. */
  function ReportedAmong(original: ResumeContent, tailored: ResumeContent, slots: seq<Slot>): (r: seq<Slot>)
    ensures |r| <= |slots|
    decreases |slots|
  {
    if slots == [] then []
    else
      var last := slots[|slots| - 1];
      ReportedAmong(original, tailored, slots[..|slots| - 1]) + (if Differs(original, tailored, last) then [last] else [])
  }

  /** A slot is reported exactly when it is inspected and its fields differ. */
  lemma {:induction false} ReportedMembership(original: ResumeContent, tailored: ResumeContent, slots: seq<Slot>, s: Slot)
    ensures s in ReportedAmong(original, tailored, slots) <==> s in slots && Differs(original, tailored, s)
    decreases |slots|
  {
    if slots != [] {
      var init, last := slots[..|slots| - 1], slots[|slots| - 1];
      ReportedMembership(original, tailored, init, s);
      assert slots == init + [last];
    }
  }

  /** The reported slots keep the inspection order. */
  lemma {:induction false} ReportedSubsequence(original: ResumeContent, tailored: ResumeContent, slots: seq<Slot>)
    ensures Seqs.IsSubsequence(ReportedAmong(original, tailored, slots), slots)
    decreases |slots|
  {
    if slots != [] {
      var init, last := slots[..|slots| - 1], slots[|slots| - 1];
      var prior := ReportedAmong(original, tailored, init);
      ReportedSubsequence(original, tailored, init);
      Seqs.SubsequenceExtend(prior, init, last, Differs(original, tailored, last));
      assert slots == init + [last];
      assert prior + [] == prior;
    }
  }

  /** The slots the comparison inspects: pairs exist only below the shorter list's length. */
  function Inspected(original: ResumeContent, tailored: ResumeContent): seq<Slot>
  {
    Slots(Min(|original.experience|, |tailored.experience|), Min(|original.projects|, |tailored.projects|))
  }

  function Reported(original: ResumeContent, tailored: ResumeContent): seq<Slot>
  {
    ReportedAmong(original, tailored, Inspected(original, tailored))
  }

  /** Reference definition of `generateChangesSummary`. */
  function ChangesSummary(original: ResumeContent, tailored: ResumeContent): seq<Change>
  {
    ChangesAmong(original, tailored, Inspected(original, tailored))
  }

  /** The records for the inspected `slots`, in order. */
  function ChangesAmong(original: ResumeContent, tailored: ResumeContent, slots: seq<Slot>): seq<Change>
  {
    DescribeAll(ReportedAmong(original, tailored, slots))
  }

  lemma ReportedAppend(original: ResumeContent, tailored: ResumeContent, slots: seq<Slot>, s: Slot)
    ensures ReportedAmong(original, tailored, slots + [s])
      == ReportedAmong(original, tailored, slots) + (if Differs(original, tailored, s) then [s] else [])
  {
    assert (slots + [s])[..|slots|] == slots;
  }

  lemma DescribeAllAppend(slots: seq<Slot>, extra: seq<Slot>)
    ensures DescribeAll(slots + extra) == DescribeAll(slots) + DescribeAll(extra)
  {
    var lhs, rhs := DescribeAll(slots + extra), DescribeAll(slots) + DescribeAll(extra);
    assert |lhs| == |rhs|;
    forall i | 0 <= i < |lhs| ensures lhs[i] == rhs[i] {
      if i >= |slots| {
        assert (slots + extra)[i] == extra[i - |slots|];
      }
    }
  }

  /** Inspecting one more slot appends its record, if its fields differ. */
  lemma ChangesAppend(original: ResumeContent, tailored: ResumeContent, slots: seq<Slot>, s: Slot)
    ensures ChangesAmong(original, tailored, slots + [s])
      == ChangesAmong(original, tailored, slots) + (if Differs(original, tailored, s) then [Describe(s)] else [])
  {
    var extra := if Differs(original, tailored, s) then [s] else [];
    ReportedAppend(original, tailored, slots, s);
    DescribeAllAppend(ReportedAmong(original, tailored, slots), extra);
    assert DescribeAll(extra) == if Differs(original, tailored, s) then [Describe(s)] else [];
  }

  /** One turn of the experience loop extends the records by entry `i`'s change, if any. */
  lemma ExperienceStep(original: ResumeContent, tailored: ResumeContent, i: nat)
    requires i < |original.experience| && i < |tailored.experience|
    ensures ChangesAmong(original, tailored, Slots(i + 1, 0))
      == ChangesAmong(original, tailored, Slots(i, 0))
         + (if original.experience[i].description != tailored.experience[i].description
            then [ExperienceChange(i)] else [])
  {
    assert Differs(original, tailored, ExperienceSlot(i)) <==>
      original.experience[i].description != tailored.experience[i].description;
    SlotsGrowExperience(i);
    ChangesAppend(original, tailored, Slots(i, 0), ExperienceSlot(i));
  }

  /** One turn of the project loop extends the records by pair `j`'s change, if any. */
  lemma ProjectStep(original: ResumeContent, tailored: ResumeContent, experiences: nat, j: nat)
    requires j < |original.projects| && j < |tailored.projects|
    ensures ChangesAmong(original, tailored, Slots(experiences, j + 1))
      == ChangesAmong(original, tailored, Slots(experiences, j))
         + (if original.projects[j].description != tailored.projects[j].description ||
               original.projects[j].achievements != tailored.projects[j].achievements
            then [ProjectChange(j)] else [])
  {
    assert Differs(original, tailored, ProjectSlot(j)) <==>
      original.projects[j].description != tailored.projects[j].description ||
      original.projects[j].achievements != tailored.projects[j].achievements;
    SlotsGrowProject(experiences, j);
    ChangesAppend(original, tailored, Slots(experiences, j), ProjectSlot(j));
  }

  /** The first record is the summary change, if the summaries differ. */
  lemma SummaryStep(original: ResumeContent, tailored: ResumeContent)
    ensures ChangesAmong(original, tailored, [SummarySlot])
      == if original.professionalSummary != tailored.professionalSummary then [SummaryChange()] else []
  {
    assert Differs(original, tailored, SummarySlot) <==>
      original.professionalSummary != tailored.professionalSummary;
    ChangesAppend(original, tailored, [], SummarySlot);
    assert [] + [SummarySlot] == [SummarySlot];
  }

  /** The skills record follows, if the technical skill lists differ. */
  lemma SkillsStep(original: ResumeContent, tailored: ResumeContent)
    ensures ChangesAmong(original, tailored, Slots(0, 0))
      == ChangesAmong(original, tailored, [SummarySlot])
         + (if original.skills.technical != tailored.skills.technical then [SkillsChange()] else [])
  {
    assert Differs(original, tailored, SkillsSlot) <==>
      original.skills.technical != tailored.skills.technical;
    assert Slots(0, 0) == [SummarySlot] + [SkillsSlot];
    ChangesAppend(original, tailored, [SummarySlot], SkillsSlot);
  }

  /** A slot's record is among the records of `slots` exactly when the slot is. */
  lemma DescribeAllMembership(slots: seq<Slot>, s: Slot)
    ensures Describe(s) in DescribeAll(slots) <==> s in slots
  {
    var r := DescribeAll(slots);
    if s in slots {
      var k :| 0 <= k < |slots| && slots[k] == s;
      assert r[k] == Describe(s);
    }
    if Describe(s) in r {
      var k :| 0 <= k < |r| && r[k] == Describe(s);
      DescribeInjective(slots[k], s);
      assert slots[k] in slots;
    }
  }

  /** A change is reported exactly when the résumés differ where it looks. */
  lemma ChangeReportedIff(original: ResumeContent, tailored: ResumeContent, s: Slot)
    ensures Describe(s) in ChangesSummary(original, tailored) <==> Differs(original, tailored, s)
  {
    var inspected := Inspected(original, tailored);
    assert s in Reported(original, tailored) <==> Differs(original, tailored, s) by {
      SlotsMembership(Min(|original.experience|, |tailored.experience|), Min(|original.projects|, |tailored.projects|), s);
      ReportedMembership(original, tailored, inspected, s);
    }
    DescribeAllMembership(Reported(original, tailored), s);
  }


  /** Nothing but slot records appear in the summary. */
  lemma OnlySlotRecords(original: ResumeContent, tailored: ResumeContent, c: Change)
    requires c in ChangesSummary(original, tailored)
    ensures exists s :: Differs(original, tailored, s) && c == Describe(s)
  {
    var reported := Reported(original, tailored);
    var r := ChangesSummary(original, tailored);
    var k :| 0 <= k < |r| && r[k] == c;
    assert reported[k] in reported;
    ReportedMembership(original, tailored, Inspected(original, tailored), reported[k]);
  }

  /**
   * Records come out in reporting order: the summary, the skills, experiences
   * by increasing index, then projects by increasing index.
   */
  lemma ChangesOrdered(original: ResumeContent, tailored: ResumeContent)
    ensures |ChangesSummary(original, tailored)| == |Reported(original, tailored)|
    ensures forall i :: 0 <= i < |Reported(original, tailored)| ==>
      ChangesSummary(original, tailored)[i] == Describe(Reported(original, tailored)[i])
    ensures forall i, j :: 0 <= i < j < |Reported(original, tailored)| ==>
      Before(Reported(original, tailored)[i], Reported(original, tailored)[j])
  {
    SlotsOrdered(Min(|original.experience|, |tailored.experience|), Min(|original.projects|, |tailored.projects|));
    ReportedSubsequence(original, tailored, Inspected(original, tailored));
    Seqs.SubsequenceKeepsOrder(Reported(original, tailored), Inspected(original, tailored), (a, b) => Before(a, b));
  }

  /**
   * What the summary says: one record per differing field or entry pair, and
   * only for pairs that exist.
   */
  lemma ChangesSummaryProperties(original: ResumeContent, tailored: ResumeContent)
    ensures SummaryChange() in ChangesSummary(original, tailored) <==>
      original.professionalSummary != tailored.professionalSummary
    ensures SkillsChange() in ChangesSummary(original, tailored) <==>
      original.skills.technical != tailored.skills.technical
    ensures forall i: nat :: ExperienceChange(i) in ChangesSummary(original, tailored) <==>
      i < |original.experience| && i < |tailored.experience| &&
      original.experience[i].description != tailored.experience[i].description
    ensures forall i: nat :: ProjectChange(i) in ChangesSummary(original, tailored) <==>
      i < |original.projects| && i < |tailored.projects| &&
      (original.projects[i].description != tailored.projects[i].description ||
       original.projects[i].achievements != tailored.projects[i].achievements)
  {
    var r := ChangesSummary(original, tailored);
    assert SummaryChange() in r <==> original.professionalSummary != tailored.professionalSummary by {
      ChangeReportedIff(original, tailored, SummarySlot);
    }
    assert SkillsChange() in r <==> original.skills.technical != tailored.skills.technical by {
      ChangeReportedIff(original, tailored, SkillsSlot);
    }
    forall k: nat
      ensures ExperienceChange(k) in r <==> Differs(original, tailored, ExperienceSlot(k))
      ensures ProjectChange(k) in r <==> Differs(original, tailored, ProjectSlot(k))
    {
      ChangeReportedIff(original, tailored, ExperienceSlot(k));
      ChangeReportedIff(original, tailored, ProjectSlot(k));
    }
  }

  /** At most one record per inspected slot, and none for identical résumés. */
  lemma ChangesSummaryBounds(original: ResumeContent, tailored: ResumeContent)
    ensures |ChangesSummary(original, tailored)| <= 2 + Min(|original.experience|, |tailored.experience|)
                                                      + Min(|original.projects|, |tailored.projects|)
    ensures original == tailored ==> ChangesSummary(original, tailored) == []
  {
    var reported := Reported(original, tailored);
    if original == tailored && reported != [] {
      assert reported[0] in reported;
      ReportedMembership(original, tailored, Inspected(original, tailored), reported[0]);
    }
  }



  /** `generateChangesSummary`, with the source's two loops. */
  method GenerateChangesSummary(original: ResumeContent, tailored: ResumeContent) returns (changes: seq<Change>)
    ensures changes == ChangesSummary(original, tailored)
  {
    var experiences := Min(|original.experience|, |tailored.experience|);
    var projects := Min(|original.projects|, |tailored.projects|);
    changes := [];
    if original.professionalSummary != tailored.professionalSummary {
      changes := changes + [SummaryChange()];
    }
    assert changes == ChangesAmong(original, tailored, [SummarySlot]) by {
      SummaryStep(original, tailored);
    }
    if original.skills.technical != tailored.skills.technical {
      changes := changes + [SkillsChange()];
    }
    assert changes == ChangesAmong(original, tailored, Slots(0, 0)) by {
      SkillsStep(original, tailored);
    }
    var i := 0;
    while i < experiences
      invariant 0 <= i <= experiences
      invariant changes == ChangesAmong(original, tailored, Slots(i, 0))
    {
      if original.experience[i].description != tailored.experience[i].description {
        changes := changes + [ExperienceChange(i)];
      }
      assert changes == ChangesAmong(original, tailored, Slots(i + 1, 0)) by {
        ExperienceStep(original, tailored, i);
      }
      i := i + 1;
    }
    var j := 0;
    while j < projects
      invariant 0 <= j <= projects
      invariant changes == ChangesAmong(original, tailored, Slots(experiences, j))
    {
      if original.projects[j].description != tailored.projects[j].description ||
         original.projects[j].achievements != tailored.projects[j].achievements {
        changes := changes + [ProjectChange(j)];
      }
      assert changes == ChangesAmong(original, tailored, Slots(experiences, j + 1)) by {
        ProjectStep(original, tailored, experiences, j);
      }
      j := j + 1;
    }
  }
}
