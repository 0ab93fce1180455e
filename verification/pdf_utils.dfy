/**
 * The pure helpers of the résumé HTML generator and the upload checks:
 * job-keyword clean-up, skill enhancement, project-description rewriting,
 * PDF file validation and stored-file naming.
 */
module PdfUtils {

  import opened Wrappers
  import opened Strings
  import opened Json
  import opened Seqs
  import Numerals

  /*
   * extractJobKeywords, after its regular-expression scan. The scan is not
   * modelled: its matches arrive as `candidates`, in the order it pushes them.
   */

  /** Characters `replace(/[^\w\s.-]/g, '')` leaves in place. */
  predicate KeptChar(c: char)
  {
    IsWordChar(c) || IsWhitespace(c) || c == '.' || c == '-'
  }

  function RemoveSpecialChars(s: string): (r: string)
    ensures |r| <= |s|
    ensures forall i :: 0 <= i < |r| ==> KeptChar(r[i])
    ensures forall i :: 0 <= i < |s| && KeptChar(s[i]) ==> s[i] in r
  {
    if s == [] then []
    else (if KeptChar(s[0]) then [s[0]] else []) + RemoveSpecialChars(s[1..])
  }

  /** Every kept character stays, as often as it occurs and in its original order. */
  lemma {:induction false} RemoveSpecialCharsKeepsOrder(s: string)
    ensures forall c :: multiset(RemoveSpecialChars(s))[c] == if KeptChar(c) then multiset(s)[c] else 0
    ensures IsSubsequence(RemoveSpecialChars(s), s)
  {
    if s != [] {
      var rest := RemoveSpecialChars(s[1..]);
      RemoveSpecialCharsKeepsOrder(s[1..]);
      MultisetCons(s);
      if KeptChar(s[0]) {
        assert RemoveSpecialChars(s) == [s[0]] + rest;
        assert ([s[0]] + rest)[1..] == rest;
      } else {
        assert RemoveSpecialChars(s) == rest;
        assert rest == [] || rest[0] != s[0];
      }
    }
  }

  /** The first clean-up step: special characters removed, then trimmed. */
  function CleanKeyword(k: string): string
  {
    Trim(RemoveSpecialChars(k))
  }

  /** The two filters: length strictly between 2 and 50, not a pure number. */
  predicate Survives(cleaned: string)
  {
    2 < |cleaned| < 50 && !AllDigits(cleaned)
  }

  /** First position at or after `from` holding white space. */
  function FirstWhitespace(s: string, from: nat): (r: Option<nat>)
    ensures r.Some? ==> from <= r.value < |s| && IsWhitespace(s[r.value])
    ensures r.Some? ==> forall k :: from <= k < r.value ==> !IsWhitespace(s[k])
    ensures r.None? ==> forall k :: from <= k < |s| ==> !IsWhitespace(s[k])
    decreases |s| - from
  {
    if from >= |s| then None
    else if IsWhitespace(s[from]) then Some(from)
    else FirstWhitespace(s, from + 1)
  }

  /** End of the white-space run starting at `i`. */
  function RunEnd(s: string, i: nat): (j: nat)
    requires i <= |s|
    ensures i <= j <= |s|
    ensures forall k :: i <= k < j ==> IsWhitespace(s[k])
    ensures j < |s| ==> !IsWhitespace(s[j])
    decreases |s| - i
  {
    if i < |s| && IsWhitespace(s[i]) then RunEnd(s, i + 1) else i
  }

  /** `s.split(/\s+/)`. */
  function SplitWhitespace(s: string): (words: seq<string>)
    ensures |words| >= 1
    decreases |s|
  {
    match FirstWhitespace(s, 0)
    case None => [s]
    case Some(i) =>
      var j := RunEnd(s, i);
      [s[..i]] + SplitWhitespace(s[j..])
  }

  /** `word.charAt(0).toUpperCase() + word.slice(1).toLowerCase()`. */
  function TitleWord(w: string): (r: string)
    ensures |r| == |w|
    ensures forall i :: 0 <= i < |w| ==> (IsDigit(r[i]) <==> IsDigit(w[i]))
  {
    if w == [] then [] else [UpperChar(w[0])] + Lower(w[1..])
  }

  function TitleWords(words: seq<string>): (r: seq<string>)
    ensures |r| == |words|
    ensures forall i :: 0 <= i < |words| ==> r[i] == TitleWord(words[i])
  {
    if words == [] then [] else [TitleWord(words[0])] + TitleWords(words[1..])
  }

  /** The title-casing step: words split on white-space runs, joined by single spaces. */
  function TitleCase(k: string): string
  {
    Join(TitleWords(SplitWhitespace(k)), " ")
  }

  /** A trimmed keyword keeps its length bounds and its non-numeric nature when title-cased. */
  lemma {:induction false} TitleCaseBounds(k: string)
    requires k != [] && !IsWhitespace(k[0]) && !IsWhitespace(k[|k| - 1])
    ensures 1 <= |TitleCase(k)| <= |k|
    ensures |k| >= 3 ==> |TitleCase(k)| >= 3
    ensures AllDigits(TitleCase(k)) ==> AllDigits(k)
    decreases |k|
  {
    match FirstWhitespace(k, 0)
    case None =>
      assert SplitWhitespace(k) == [k];
      assert TitleCase(k) == TitleWord(k);
    case Some(i) =>
      var j := RunEnd(k, i);
      var rest := k[j..];
      assert i > 0;
      assert j < |k|;
      assert rest[|rest| - 1] == k[|k| - 1];
      TitleCaseBounds(rest);
      var head := TitleWord(k[..i]);
      var tail := TitleWords(SplitWhitespace(rest));
      assert TitleWords(SplitWhitespace(k)) == [head] + tail;
      assert |tail| >= 1;
      assert TitleCase(k) == head + " " + Join(tail, " ");
      assert TitleCase(k)[|head|] == ' ';
  }

  /** What one candidate contributes: its cleaned, title-cased form if it survives the filters. */
  function Yield(k: string): (r: Option<string>)
    ensures r.Some? ==> 3 <= |r.value| < 50 && !AllDigits(r.value)
  {
    var c := CleanKeyword(k);
    if Survives(c) then
      TitleCaseBounds(c);
      Some(TitleCase(c))
    else None
  }

  /** Some candidate yields `x`. */
  predicate Yielded(candidates: seq<string>, x: string)
  {
    exists k :: k in candidates && Yield(k) == Some(x)
  }

  /** The clean-up chain up to de-duplication: clean, filter, filter, title-case. */
  function Survivors(candidates: seq<string>): (r: seq<string>)
    ensures forall x :: x in r <==> Yielded(candidates, x)
  {
    var r := FilterMap(Yield, candidates);
    assert forall x :: x in r <==> Yielded(candidates, x) by {
      forall x
        ensures x in r <==> Yielded(candidates, x)
      {
        FilterMapMembership(Yield, candidates, x);
      }
    }
    r
  }

  /** The clean-up handles each candidate on its own, keeping the candidates' order. */
  lemma SurvivorsConcat(a: seq<string>, b: seq<string>, k: string)
    ensures Survivors(a + b) == Survivors(a) + Survivors(b)
    ensures Survivors([k]) == if Yield(k).Some? then [Yield(k).value] else []
  {
    FilterMapConcat(Yield, a, b);
    assert [k][1..] == [];
  }

  const MaxKeywords: nat := 15

  /** The clean-up tail of `extractJobKeywords`. */
  function CleanKeywords(candidates: seq<string>): (r: seq<string>)
    ensures |r| <= MaxKeywords
    ensures Distinct(r)
    ensures forall i :: 0 <= i < |r| ==> 3 <= |r[i]| < 50 && !AllDigits(r[i])
    ensures forall i :: 0 <= i < |r| ==> Yielded(candidates, r[i])
    ensures |r| < MaxKeywords ==>
      forall k :: k in candidates && Yield(k).Some? ==> Yield(k).value in r
  {
    var survivors := Survivors(candidates);
    var unique := Dedup(survivors);
    var r := Take(unique, MaxKeywords);
    assert forall i :: 0 <= i < |r| ==> r[i] in survivors by {
      forall i | 0 <= i < |r| ensures r[i] in survivors {
        assert r[i] == unique[i];
      }
    }
    assert |r| < MaxKeywords ==> r == unique;
    r
  }

  /**
   * The kept keywords are the first distinct survivors, in the order they are
   * first produced: every survivor first produced before a kept keyword is kept.
   */
  lemma CleanKeywordsFirstSeen(candidates: seq<string>)
    ensures var r := CleanKeywords(candidates);
      forall p, q :: 0 <= p < q < |r| ==> FirstSeenBefore(Survivors(candidates), r[p], r[q])
    ensures var r := CleanKeywords(candidates);
      forall x, q :: 0 <= q < |r| && FirstSeenBefore(Survivors(candidates), x, r[q]) ==> x in r
  {
    assert CleanKeywords(candidates) == Take(Dedup(Survivors(candidates)), MaxKeywords);
    TakeDedupFirstSeen(Survivors(candidates), MaxKeywords);
  }

  /** `extractJobKeywords`, given the raw matches of its scan. */
  function ExtractJobKeywords(jobDescription: string, candidates: seq<string>): (r: seq<string>)
    ensures Trim(jobDescription) == [] ==> r == []
    ensures |r| <= MaxKeywords && Distinct(r)
    ensures forall i :: 0 <= i < |r| ==> 3 <= |r[i]| < 50 && !AllDigits(r[i]) && Yielded(candidates, r[i])
    ensures Trim(jobDescription) != [] && |r| < MaxKeywords ==>
      forall k :: k in candidates && Yield(k).Some? ==> Yield(k).value in r
  {
    if Trim(jobDescription) == [] then [] else CleanKeywords(candidates)
  }

  /*
   * enhanceSkillsWithJobRequirements: the skills object is copied, then the
   * keywords not yet related to any listed skill are appended to one target
   * category.
   */

  datatype EnhanceFailure = NonStringSkill  // `skill.toLowerCase` is not a function

  function Strs(ks: seq<string>): (r: seq<Value>)
    ensures |r| == |ks|
    ensures forall i :: 0 <= i < |ks| ==> r[i] == Str(ks[i])
  {
    seq(|ks|, i requires 0 <= i < |ks| => Str(ks[i]))
  }

  /** The property keys of an array's elements: "0", "1", ... */
  function IndexKeys(n: nat): (r: seq<string>)
    ensures |r| == n && Distinct(r)
    ensures forall j :: 0 <= j < n ==> r[j] == Numerals.FromNat(j)
  {
    var r := seq(n, j requires 0 <= j < n => Numerals.FromNat(j));
    assert Distinct(r) by {
      forall i, j | 0 <= i < j < n
        ensures r[i] != r[j]
      {
        if r[i] == r[j] {
          Numerals.FromNatInjective(i, j);
        }
      }
    }
    r
  }

  /** The object `{ ...items }` for an array: keys "0", "1", ... in index order. */
  function IndexedObject(items: seq<Value>): (o: Object)
    ensures o.Valid()
    ensures |o.keys| == |items|
    ensures forall j :: 0 <= j < |items| ==> o.keys[j] == Numerals.FromNat(j)
    ensures forall j :: 0 <= j < |items| ==> Numerals.FromNat(j) in o.fields && o.fields[Numerals.FromNat(j)] == items[j]
  {
    Zip(IndexKeys(|items|), items)
  }

  /** `{ ...v }` for a truthy value: arrays and strings spread by index, other primitives spread to `{}`. */
  function Spread(v: Value): (o: Object)
    ensures v.Obj? ==> o == v.obj
    ensures !v.Obj? ==> o.Valid()
  {
    match v
    case Obj(obj) => obj
    case Arr(items) => IndexedObject(items)
    case Str(s) => IndexedObject(seq(|s|, i requires 0 <= i < |s| => Str([s[i]])))
    case _ => EmptyObject
  }

  /** The lower-cased skills one category contributes to the duplicate check. */
  function LowerSkills(v: Option<Value>): (r: Result<seq<string>, EnhanceFailure>)
    ensures r.Err? <==> v.Some? && v.value.Arr? && exists x :: x in v.value.items && !x.Str?
  {
    match v
    case Some(Arr(items)) =>
      if forall x :: x in items ==> x.Str? then
        Ok(seq(|items|, i requires 0 <= i < |items| => Lower(items[i].s)))
      else Err(NonStringSkill)
    case Some(Str(s)) => Ok([Lower(s)])
    case _ => Ok([])
  }

  /** All existing skills, lower-cased, category by category (the `reduce` over the keys). */
  function ExistingSkills(o: Object, keys: seq<string>): (r: Result<seq<string>, EnhanceFailure>)
    ensures r.Ok? <==> forall k :: k in keys ==> LowerSkills(o.Get(k)).Ok?
  {
    if keys == [] then Ok([])
    else
      var first :- LowerSkills(o.Get(keys[0]));
      var rest :- ExistingSkills(o, keys[1..]);
      Ok(first + rest)
  }

  lemma {:induction false} ExistingSkillsMembership(o: Object, keys: seq<string>, e: string)
    requires ExistingSkills(o, keys).Ok?
    ensures e in ExistingSkills(o, keys).value <==>
      exists k :: k in keys && e in LowerSkills(o.Get(k)).value
  {
    if keys != [] {
      ExistingSkillsMembership(o, keys[1..], e);
      if exists k :: k in keys && e in LowerSkills(o.Get(k)).value {
        var k :| k in keys && e in LowerSkills(o.Get(k)).value;
        if k != keys[0] {
          assert k in keys[1..];
        }
      }
      if exists k :: k in keys[1..] && e in LowerSkills(o.Get(k)).value {
        var k :| k in keys[1..] && e in LowerSkills(o.Get(k)).value;
        assert k in keys;
      }
    }
  }

  /** `keyword` overlaps an existing skill: one contains the other, ignoring case. */
  predicate Related(existing: seq<string>, keyword: string)
  {
    exists e :: e in existing && (Contains(e, Lower(keyword)) || Contains(Lower(keyword), e))
  }

  /** The keywords that overlap no existing skill, in order. */
  function NewKeywords(existing: seq<string>, keywords: seq<string>): (r: seq<string>)
    ensures forall k :: k in r <==> k in keywords && !Related(existing, k)
    ensures r == [] <==> forall k :: k in keywords ==> Related(existing, k)
    ensures IsSubsequence(r, keywords)
  {
    Seqs.Filter(k => !Related(existing, k), keywords)
  }

  /** A category name that can receive new keywords. */
  predicate IsTargetName(category: string)
  {
    var l := Lower(category);
    Contains(l, "skill") || Contains(l, "technical") || Contains(l, "tool")
    || Contains(l, "software") || Contains(l, "relevant")
  }

  /** Position of the first category that can receive new keywords. */
  function TargetIndex(keys: seq<string>): (r: Option<nat>)
    ensures r.Some? ==> r.value < |keys| && IsTargetName(keys[r.value])
    ensures r.Some? ==> forall i :: 0 <= i < r.value ==> !IsTargetName(keys[i])
    ensures r.None? ==> forall i :: 0 <= i < |keys| ==> !IsTargetName(keys[i])
  {
    if keys == [] then None
    else if IsTargetName(keys[0]) then Some(0)
    else match TargetIndex(keys[1..])
      case Some(i) => Some(i + 1)
      case None => None
  }

  const DefaultCategory: string := "job_relevant"

  /** The category that receives new keywords: the first fitting one, else `job_relevant`. */
  function TargetCategory(keys: seq<string>): (t: string)
    ensures t == DefaultCategory || t in keys
    ensures t != DefaultCategory ==> IsTargetName(t)
    ensures (exists i :: 0 <= i < |keys| && IsTargetName(keys[i])) ==>
      TargetIndex(keys).Some? && t == keys[TargetIndex(keys).value]
  {
    match TargetIndex(keys)
    case Some(i) => keys[i]
    case None => DefaultCategory
  }

  /** The target category after the push: a falsy value becomes `[]` first, a non-array `[v]`. */
  function ExtendCategory(current: Option<Value>, added: seq<string>): (v: Value)
    ensures v.Arr?
    ensures EndsWithItems(v.items, Strs(added))
    ensures var kept := v.items[..|v.items| - |added|];
      && (!TruthyProperty(current) ==> kept == [])
      && (TruthyProperty(current) && current.value.Arr? ==> kept == current.value.items)
      && (TruthyProperty(current) && !current.value.Arr? ==> kept == [current.value])
  {
    if TruthyProperty(current) then
      if current.value.Arr? then Arr(current.value.items + Strs(added))
      else Arr([current.value] + Strs(added))
    else Arr(Strs(added))
  }

  predicate EndsWithItems(s: seq<Value>, t: seq<Value>)
  {
    |t| <= |s| && s[|s| - |t|..] == t
  }

  /** The category a call may change: the target, or `skills` for an empty object. */
  function ChangedCategory(o: Object): string
  {
    if |o.keys| > 0 then TargetCategory(o.keys) else "skills"
  }

  const RelevantCategory: string := "relevant"

  function EnhanceSkills(original: Option<Value>, keywords: seq<string>): (r: Result<Object, EnhanceFailure>)
    ensures !TruthyProperty(original) ==> r.Ok?
    ensures !TruthyProperty(original) && keywords == [] ==> r.value == EmptyObject
    ensures !TruthyProperty(original) && keywords != [] ==>
      r.value == Object([RelevantCategory], map[RelevantCategory := Arr(Strs(keywords))])
    ensures TruthyProperty(original) && keywords == [] ==> r == Ok(Spread(original.value))
    ensures TruthyProperty(original) ==>
      var o := Spread(original.value);
      && (r.Err? <==> keywords != [] && |o.keys| > 0 && ExistingSkills(o, o.keys).Err?)
      && (r.Err? ==> r.error == NonStringSkill)
      && (r.Ok? ==> o.fields.Keys <= r.value.fields.Keys)
      && (r.Ok? ==> r.value.fields.Keys <= o.fields.Keys + {ChangedCategory(o)})
      && (r.Ok? ==> forall k :: k in o.fields && k != ChangedCategory(o) ==> r.value.fields[k] == o.fields[k])
      && (r.Ok? && o.Valid() ==> r.value.Valid())
    ensures TruthyProperty(original) && keywords != [] && r.Ok? ==>
      var o := Spread(original.value);
      var t := ChangedCategory(o);
      && (|o.keys| == 0 ==> t in r.value.fields && r.value.fields[t] == Arr(Strs(keywords)))
      && (|o.keys| > 0 ==>
            var added := NewKeywords(ExistingSkills(o, o.keys).value, keywords);
            && (added == [] ==> r.value == o)
            && (added != [] ==> t in r.value.fields && r.value.fields[t] == ExtendCategory(o.Get(t), added)))
  {
    if !TruthyProperty(original) then
      Ok(if |keywords| > 0 then Object([RelevantCategory], map[RelevantCategory := Arr(Strs(keywords))])
         else EmptyObject)
    else
      var enhanced := Spread(original.value);
      if |keywords| == 0 then Ok(enhanced)
      else if |enhanced.keys| > 0 then
        var existing :- ExistingSkills(enhanced, enhanced.keys);
        var added := NewKeywords(existing, keywords);
        if |added| == 0 then Ok(enhanced)
        else
          var target := TargetCategory(enhanced.keys);
          Ok(enhanced.Set(target, ExtendCategory(enhanced.Get(target), added)))
      else
        Ok(enhanced.Set("skills", Arr(Strs(keywords))))
  }

  /** A category value the duplicate check can read: a string or an array of strings. */
  predicate SkillValue(v: Value)
  {
    v.Str? || (v.Arr? && forall x :: x in v.items ==> x.Str?)
  }

  predicate WellTypedSkills(o: Object)
  {
    forall k :: k in o.fields ==> SkillValue(o.fields[k])
  }

  lemma {:induction false} WellTypedExistingOk(o: Object, keys: seq<string>)
    requires WellTypedSkills(o)
    ensures ExistingSkills(o, keys).Ok?
  {
    forall k | k in keys ensures LowerSkills(o.Get(k)).Ok? {
      if k in o.fields {
        assert SkillValue(o.fields[k]);
      }
    }
  }

  /** A keyword listed in an array category is related to the object's existing skills. */
  lemma ItemRelated(o: Object, k: string, kw: string)
    requires WellTypedSkills(o) && k in o.keys
    requires o.Get(k).Some? && o.Get(k).value.Arr? && Str(kw) in o.Get(k).value.items
    ensures ExistingSkills(o, o.keys).Ok?
    ensures Related(ExistingSkills(o, o.keys).value, kw)
  {
    WellTypedExistingOk(o, o.keys);
    var items := o.Get(k).value.items;
    var i :| 0 <= i < |items| && items[i] == Str(kw);
    assert Lower(kw) == LowerSkills(o.Get(k)).value[i];
    ExistingSkillsMembership(o, o.keys, Lower(kw));
    ContainsSelf(Lower(kw));
  }

  lemma StrsMember(ks: seq<string>, kw: string)
    requires kw in ks
    ensures Str(kw) in Strs(ks)
  {
    var i :| 0 <= i < |ks| && ks[i] == kw;
    assert Strs(ks)[i] == Str(kw);
  }

  /** When every keyword is related to a skill already present, enhancing changes nothing. */
  lemma {:induction false} AllRelatedIsNoop(o: Object, keywords: seq<string>)
    requires WellTypedSkills(o) && |o.keys| > 0
    requires forall kw :: kw in keywords ==> ExistingSkills(o, o.keys).Ok? && Related(ExistingSkills(o, o.keys).value, kw)
    ensures EnhanceSkills(Some(Obj(o)), keywords) == Ok(o)
  {
    WellTypedExistingOk(o, o.keys);
  }

  /** Appending keywords to a well-typed category keeps it well typed and keeps its non-empty skills. */
  lemma ExtendKeepsSkills(v: Option<Value>, added: seq<string>, e: string)
    requires v.Some? ==> SkillValue(v.value)
    requires e != [] && e in LowerSkills(v).value
    ensures SkillValue(ExtendCategory(v, added))
    ensures e in LowerSkills(Some(ExtendCategory(v, added))).value
  {
    var w := ExtendCategory(v, added);
    match v.value
    case Str(s) =>
      assert e == Lower(s) && s != [];
      assert w.items[0] == Str(s);
      assert LowerSkills(Some(w)).value[0] == e;
    case Arr(items) =>
      var i :| 0 <= i < |items| && e == Lower(items[i].s);
      assert w.items[i] == items[i];
      assert LowerSkills(Some(w)).value[i] == e;
  }

  lemma ExtendWellTyped(v: Option<Value>, added: seq<string>)
    requires v.Some? ==> SkillValue(v.value)
    ensures SkillValue(ExtendCategory(v, added))
  {
  }

  lemma SetWellTyped(o: Object, t: string, w: Value)
    requires WellTypedSkills(o) && SkillValue(w)
    ensures WellTypedSkills(o.Set(t, w))
  {
  }

  lemma SetKeepsKey(o: Object, t: string, w: Value, k: string)
    requires k in o.keys
    ensures k in o.Set(t, w).keys
  {
  }

  lemma SetHasKey(o: Object, t: string, w: Value)
    requires o.Valid()
    ensures t in o.Set(t, w).keys
  {
    if t in o.fields {
      assert t in set k | k in o.keys;
    }
  }

  /** A keyword related to a skill before the push is still related to one after it. */
  lemma {:induction false} StillRelated(o: Object, t: string, added: seq<string>, kw: string)
    requires WellTypedSkills(o)
    requires ExistingSkills(o, o.keys).Ok? && Related(ExistingSkills(o, o.keys).value, kw)
    requires [] !in ExistingSkills(o, o.keys).value
    ensures var r := o.Set(t, ExtendCategory(o.Get(t), added));
      ExistingSkills(r, r.keys).Ok? && Related(ExistingSkills(r, r.keys).value, kw)
  {
    var w := ExtendCategory(o.Get(t), added);
    var r := o.Set(t, w);
    ExtendWellTyped(o.Get(t), added);
    SetWellTyped(o, t, w);
    WellTypedExistingOk(r, r.keys);
    var existing := ExistingSkills(o, o.keys).value;
    var e :| e in existing && (Contains(e, Lower(kw)) || Contains(Lower(kw), e));
    ExistingSkillsMembership(o, o.keys, e);
    var k :| k in o.keys && e in LowerSkills(o.Get(k)).value;
    if k == t {
      ExtendKeepsSkills(o.Get(t), added, e);
      assert r.Get(k) == Some(w);
    } else {
      assert r.Get(k) == o.Get(k);
    }
    SetKeepsKey(o, t, w, k);
    ExistingSkillsMembership(r, r.keys, e);
  }

  /** The case where new keywords were pushed onto the target category. */
  lemma {:induction false} PushedIsIdempotent(o: Object, keywords: seq<string>)
    requires o.Valid() && WellTypedSkills(o) && |o.keys| > 0
    requires ExistingSkills(o, o.keys).Ok?
    requires NewKeywords(ExistingSkills(o, o.keys).value, keywords) != []
    ensures var t := TargetCategory(o.keys);
      var r := o.Set(t, ExtendCategory(o.Get(t), NewKeywords(ExistingSkills(o, o.keys).value, keywords)));
      EnhanceSkills(Some(Obj(r)), keywords) == Ok(r)
  {
    var existing := ExistingSkills(o, o.keys).value;
    var added := NewKeywords(existing, keywords);
    var t := TargetCategory(o.keys);
    var w := ExtendCategory(o.Get(t), added);
    var r := o.Set(t, w);
    ExtendWellTyped(o.Get(t), added);
    SetWellTyped(o, t, w);
    WellTypedExistingOk(r, r.keys);
    var a := added[0];
    assert a in keywords && !Related(existing, a);
    assert [] !in existing by {
      if [] in existing {
        ContainsEmpty(Lower(a));
      }
    }
    forall kw | kw in keywords
      ensures ExistingSkills(r, r.keys).Ok? && Related(ExistingSkills(r, r.keys).value, kw)
    {
      if kw in added {
        StrsMember(added, kw);
        SetHasKey(o, t, w);
        assert r.Get(t) == Some(w);
        ItemRelated(r, t, kw);
      } else {
        StillRelated(o, t, added, kw);
      }
    }
    AllRelatedIsNoop(r, keywords);
  }

  /**
   * Enhancing twice with the same keywords changes nothing the second time,
   * for skills objects whose categories are strings or string arrays.
   */
  lemma {:induction false} EnhanceIsIdempotent(original: Option<Value>, keywords: seq<string>)
    requires TruthyProperty(original) ==>
      original.value.Obj? && original.value.obj.Valid() && WellTypedSkills(original.value.obj)
    ensures EnhanceSkills(original, keywords).Ok?
    ensures var r := EnhanceSkills(original, keywords).value;
      EnhanceSkills(Some(Obj(r)), keywords) == Ok(r)
  {
    if keywords == [] {
    } else if !TruthyProperty(original) {
      var r := EnhanceSkills(original, keywords).value;
      forall kw | kw in keywords
        ensures ExistingSkills(r, r.keys).Ok? && Related(ExistingSkills(r, r.keys).value, kw)
      {
        StrsMember(keywords, kw);
        ItemRelated(r, RelevantCategory, kw);
      }
      AllRelatedIsNoop(r, keywords);
    } else {
      var o := original.value.obj;
      WellTypedExistingOk(o, o.keys);
      if |o.keys| == 0 {
        var r := EnhanceSkills(original, keywords).value;
        assert r.keys == ["skills"];
        forall kw | kw in keywords
          ensures ExistingSkills(r, r.keys).Ok? && Related(ExistingSkills(r, r.keys).value, kw)
        {
          StrsMember(keywords, kw);
          ItemRelated(r, "skills", kw);
        }
        AllRelatedIsNoop(r, keywords);
      } else if NewKeywords(ExistingSkills(o, o.keys).value, keywords) == [] {
        AllRelatedIsNoop(o, keywords);
      } else {
        PushedIsIdempotent(o, keywords);
      }
    }
  }

  /*
   * enhanceProjectDescription: up to two keywords the description does not
   * mention yet are appended as "utilizing A and B.".
   */

  const MaxAddedKeywords := 2

  /** `replace(/\.$/, '')`: drops one final full stop. */
  function StripFinalPeriod(s: string): (r: string)
    ensures EndsWith(s, ".") ==> s == r + "."
    ensures !EndsWith(s, ".") ==> r == s
  {
    if |s| > 0 && s[|s| - 1] == '.' then s[..|s| - 1] else s
  }

  /** The keywords the description does not mention, ignoring case. */
  function MissingKeywords(description: string, keywords: seq<string>): (r: seq<string>)
    ensures IsSubsequence(r, keywords)
  {
    Seqs.Filter(k => !Mentions(description, k), keywords)
  }

  /** `description.toLowerCase().includes(keyword.toLowerCase())` */
  predicate Mentions(description: string, keyword: string)
  {
    Contains(Lower(description), Lower(keyword))
  }

  lemma MissingKeywordsMembership(description: string, keywords: seq<string>, k: string)
    ensures k in MissingKeywords(description, keywords) <==> k in keywords && !Mentions(description, k)
  {
  }

  lemma MissingKeywordsEmpty(description: string, keywords: seq<string>)
    ensures MissingKeywords(description, keywords) == [] <==>
      forall k :: k in keywords ==> Mentions(description, k)
  {
  }

  /** The keywords a call appends: the first two missing ones. */
  function AddedKeywords(description: string, keywords: seq<string>): (r: seq<string>)
    ensures |r| <= MaxAddedKeywords
    ensures r == [] <==> MissingKeywords(description, keywords) == []
    ensures |r| <= |MissingKeywords(description, keywords)|
    ensures |r| == if |MissingKeywords(description, keywords)| < MaxAddedKeywords
                   then |MissingKeywords(description, keywords)| else MaxAddedKeywords
    ensures r == MissingKeywords(description, keywords)[..|r|]
  {
    Take(MissingKeywords(description, keywords), MaxAddedKeywords)
  }

  lemma AddedIsMissing(description: string, keywords: seq<string>, k: string)
    requires k in AddedKeywords(description, keywords)
    ensures k in keywords && !Mentions(description, k)
  {
    TakeMember(MissingKeywords(description, keywords), MaxAddedKeywords, k);
    MissingKeywordsMembership(description, keywords, k);
  }

  const UtilizingPhrase: string := " utilizing "

  function EnhanceProjectDescription(description: string, keywords: seq<string>): (r: string)
    ensures r == description <==>
      description == [] || forall k :: k in keywords ==> Mentions(description, k)
    ensures r != description ==>
      var added := AddedKeywords(description, keywords);
      && StartsWith(r, StripFinalPeriod(description) + UtilizingPhrase)
      && EndsWith(r, ".")
      && r == StripFinalPeriod(description) + UtilizingPhrase + Join(added, " and ") + "."
  {
    if description == [] || keywords == [] then description
    else
      var added := AddedKeywords(description, keywords);
      MissingKeywordsEmpty(description, keywords);
      if |added| > 0 then
        var r := StripFinalPeriod(description) + UtilizingPhrase + Join(added, " and ") + ".";
        assert |r| > |description|;
        assert r[..|StripFinalPeriod(description) + UtilizingPhrase|] == StripFinalPeriod(description) + UtilizingPhrase;
        r
      else description
  }

  /** After enhancement every keyword the description was missing, up to two, is mentioned. */
  lemma AddedKeywordsMentioned(description: string, keywords: seq<string>, k: string)
    requires description != []
    requires k in AddedKeywords(description, keywords)
    ensures Mentions(EnhanceProjectDescription(description, keywords), k)
  {
    AddedIsMissing(description, keywords, k);
    var added := AddedKeywords(description, keywords);
    var i :| 0 <= i < |added| && added[i] == k;
    var prefix := StripFinalPeriod(description) + UtilizingPhrase;
    JoinContainsPart(added, " and ", i);
    ContainsWithin(prefix, Join(added, " and "), ".", k);
    LowerContains(prefix + Join(added, " and ") + ".", k);
  }

  /** A keyword the description already mentions is never appended again. */
  lemma MentionedNeverAdded(description: string, keywords: seq<string>, k: string)
    requires Mentions(description, k)
    ensures k !in AddedKeywords(description, keywords)
  {
    if k in AddedKeywords(description, keywords) {
      AddedIsMissing(description, keywords, k);
    }
  }

  /*
   * validatePdfFile
   */

  /** The parts of an uploaded `File` the check reads. */
  datatype File = File(mimeType: string, size: nat)

  datatype Validation = Validation(isValid: bool, error: Option<string>)

  const PdfMimeType: string := "application/pdf"
  const MaxUploadBytes: nat := 10 * 1024 * 1024
  const WrongTypeMessage: string := "Only PDF files are allowed"
  const TooLargeMessage: string := "File size must be less than 10MB"

  function ValidatePdfFile(file: File): (r: Validation)
    ensures r.isValid <==> file.mimeType == PdfMimeType && file.size <= MaxUploadBytes
    ensures r.isValid <==> r.error.None?
    ensures file.mimeType != PdfMimeType ==> r.error == Some(WrongTypeMessage)
    ensures file.mimeType == PdfMimeType && file.size > MaxUploadBytes ==> r.error == Some(TooLargeMessage)
  {
    if file.mimeType != PdfMimeType then Validation(false, Some(WrongTypeMessage))
    else if file.size > MaxUploadBytes then Validation(false, Some(TooLargeMessage))
    else Validation(true, None)
  }

  /** The limit is inclusive: a PDF of exactly 10 MiB passes, one byte more does not. */
  lemma SizeLimitBoundary()
    ensures MaxUploadBytes == 10485760
    ensures ValidatePdfFile(File(PdfMimeType, 10485760)).isValid
    ensures ValidatePdfFile(File(PdfMimeType, 10485761)).error == Some(TooLargeMessage)
  {
  }

  /*
   * generateResumeFilename
   */

  /** `[a-zA-Z0-9.-]`: the characters a stored file name keeps. */
  predicate SafeFileChar(c: char)
  {
    IsAsciiLetter(c) || IsDigit(c) || c == '.' || c == '-'
  }

  /** `replace(/[^a-zA-Z0-9.-]/g, '_')` */
  function SanitizeName(name: string): (r: string)
    ensures |r| == |name|
    ensures forall i :: 0 <= i < |r| ==> SafeFileChar(r[i]) || r[i] == '_'
    ensures forall i :: 0 <= i < |r| ==> SafeFileChar(name[i]) ==> r[i] == name[i]
    ensures forall i :: 0 <= i < |r| ==> !SafeFileChar(name[i]) ==> r[i] == '_'
  {
    seq(|name|, i requires 0 <= i < |name| => if SafeFileChar(name[i]) then name[i] else '_')
  }

  /** Sanitising leaves exactly the already-safe names unchanged, so it is idempotent. */
  lemma SanitizeFixedPoints(name: string)
    ensures SanitizeName(name) == name <==> forall i :: 0 <= i < |name| ==> SafeFileChar(name[i]) || name[i] == '_'
    ensures SanitizeName(SanitizeName(name)) == SanitizeName(name)
  {
    if SanitizeName(name) == name {
      forall i | 0 <= i < |name| ensures SafeFileChar(name[i]) || name[i] == '_' {
        assert SanitizeName(name)[i] == name[i];
      }
    }
  }

  /** `\.[^/.]+$` matches at `i`: a dot followed by a non-empty tail without dots or slashes. */
  predicate ExtensionAt(name: string, i: nat)
  {
    i + 1 < |name| && name[i] == '.' && forall j :: i < j < |name| ==> name[j] != '.' && name[j] != '/'
  }

  /** `replace(/\.[^/.]+$/, '')`: drops the final extension, if there is one. */
  function StripExtension(name: string): (r: string)
    ensures |r| <= |name| && r == name[..|r|]
    ensures r != name ==> ExtensionAt(name, |r|)
    ensures r == name ==> forall i :: 0 <= i < |name| ==> !ExtensionAt(name, i)
  {
    match LastIndexOf(name, '.')
    case None => name
    case Some(i) =>
      if i + 1 < |name| && forall j :: i < j < |name| ==> name[j] != '/' then name[..i] else name
  }

  /** The stem of a stored name keeps only `[A-Za-z0-9._-]`. */
  lemma StemIsSafe(originalName: string)
    ensures var stem := StripExtension(SanitizeName(originalName));
      forall i :: 0 <= i < |stem| ==> SafeFileChar(stem[i]) || stem[i] == '_'
  {
    var clean := SanitizeName(originalName);
    var stem := StripExtension(clean);
    forall i | 0 <= i < |stem|
      ensures SafeFileChar(stem[i]) || stem[i] == '_'
    {
      assert stem[i] == clean[i];
    }
  }

  /** The stored name: `<stem>_<userId>_<timestamp>.pdf`. */
  function GenerateResumeFilename(originalName: string, userId: string, timestamp: nat): (r: string)
    ensures EndsWith(r, ".pdf")
    ensures StartsWith(r, StripExtension(SanitizeName(originalName)) + "_" + userId + "_")
    ensures EndsWith(r, "_" + userId + "_" + Numerals.FromNat(timestamp) + ".pdf")
    ensures |r| == |StripExtension(SanitizeName(originalName))| + |userId| + |Numerals.FromNat(timestamp)| + 6
  {
    var stem := StripExtension(SanitizeName(originalName));
    var suffix := "_" + userId + "_" + Numerals.FromNat(timestamp) + ".pdf";
    var r := stem + suffix;
    assert r == stem + "_" + userId + "_" + Numerals.FromNat(timestamp) + ".pdf";
    assert r[..|stem + "_" + userId + "_"|] == stem + "_" + userId + "_";
    assert r[|r| - |suffix|..] == suffix;
    assert r[|r| - 4..] == ".pdf";
    r
  }

  /** The timestamp field of a stored name: the digits between the last `_` and `.pdf`. */
  function TimestampField(filename: string): (r: Option<nat>)
  {
    if !EndsWith(filename, ".pdf") then None
    else
      var body := filename[..|filename| - 4];
      match LastIndexOf(body, '_')
      case None => None
      case Some(i) =>
        var digits := body[i + 1..];
        if AllDigits(digits) then
          Numerals.DecimalDigitsAreRadixDigits(digits);
          Some(Numerals.Value(digits, 10))
        else None
  }

  /** The timestamp a name was generated with can be read back from it. */
  lemma {:induction false} TimestampRoundTrip(originalName: string, userId: string, timestamp: nat)
    ensures TimestampField(GenerateResumeFilename(originalName, userId, timestamp)) == Some(timestamp)
  {
    var stem := StripExtension(SanitizeName(originalName));
    var digits := Numerals.FromNat(timestamp);
    var r := GenerateResumeFilename(originalName, userId, timestamp);
    var body := stem + "_" + userId + "_" + digits;
    assert r == body + ".pdf";
    assert r[..|r| - 4] == body;
    var i := |body| - |digits| - 1;
    assert body[i] == '_';
    assert forall k :: i < k < |body| ==> body[k] == digits[k - i - 1];
    assert LastIndexOf(body, '_') == Some(i);
    assert body[i + 1..] == digits;
    Numerals.ValueOfFromNat(timestamp);
  }

  /** A name that is already a safe `<base>.pdf` keeps its base as the stem. */
  lemma SafePdfNameKeepsBase(base: string, userId: string, timestamp: nat)
    requires forall i :: 0 <= i < |base| ==> SafeFileChar(base[i])
    ensures StripExtension(SanitizeName(base + ".pdf")) == base
    ensures StartsWith(GenerateResumeFilename(base + ".pdf", userId, timestamp), base + "_" + userId + "_")
  {
    var name := base + ".pdf";
    assert SanitizeName(name) == name;
    assert name[|base|] == '.';
    assert LastIndexOf(name, '.') == Some(|base|);
    assert name[..|base|] == base;
  }
}
