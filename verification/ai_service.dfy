/**
 * The deterministic parts of the AI service: the JSON span taken from a model
 * reply, the section-fidelity filter applied to the tailored reply, the ATS
 * score clamp and the legacy skill reordering. Model replies are inputs and
 * `JSON.parse` is the parameter `parse`.
 */
module AiService {

  import opened Wrappers
  import opened Strings
  import opened Json
  import Seqs
  import Numerals

  /** Why `parseAndTailorResume` or `applyTailoringSuggestions` throws. */
  datatype Failure =
    | NoStructureJson            // 'Could not extract resume structure'
    | StructureNotParsed         // `JSON.parse` rejected the structure reply
    | SectionsNotIterable        // `sections` is truthy but has no `forEach`
    | NoTailoredJson             // 'No valid JSON found in AI response'
    | TailoredNotParsed          // 'JSON parsing failed: ...'
    | MissingPersonalInfoOrName  // 'Invalid resume structure returned by AI ...'
    | TechnicalNotAnArray        // `skills.technical.filter` is not a function

  /*
   * JSON extraction: the regular expression /\{[\s\S]*\}/ matches from the
   * first `{` to the last `}`, and fails when no `}` follows a `{`.
   */

  /** `text` holds a `{` with a `}` somewhere after it. */
  predicate HasBracedSpan(text: string)
  {
    exists i, j :: 0 <= i < j < |text| && text[i] == '{' && text[j] == '}'
  }

  function ExtractJson(text: string): (r: Option<string>)
    ensures r.None? <==> !HasBracedSpan(text)
    ensures r.Some? ==>
      exists i, j ::
        && 0 <= i < j < |text|
        && text[i] == '{' && text[j] == '}'
        && r.value == text[i..j + 1]
        && (forall k :: 0 <= k < i ==> text[k] != '{')
        && (forall k :: j < k < |text| ==> text[k] != '}')
  {
    match (IndexOf(text, '{', 0), LastIndexOf(text, '}'))
    case (Some(i), Some(j)) =>
      if i < j then Some(text[i..j + 1]) else None
    case _ => None
  }

  /*
   * Section discovery: `originalStructure.sections || []`, whose elements are
   * used as property keys, that is, converted with `String`.
   */

  function SectionList(structure: Object): (r: Result<seq<string>, Failure>)
    ensures !TruthyProperty(structure.Get("sections")) ==> r == Ok([])
    ensures r.Err? <==> TruthyProperty(structure.Get("sections")) && !structure.fields["sections"].Arr?
    ensures r.Err? ==> r.error == SectionsNotIterable
    ensures r.Ok? && TruthyProperty(structure.Get("sections")) ==>
      var items := structure.fields["sections"].items;
      && |r.value| == |items|
      && forall i :: 0 <= i < |items| ==> r.value[i] == ToJsString(items[i])
  {
    var sections := structure.Get("sections");
    if !TruthyProperty(sections) then Ok([])
    else
      match sections.value
      case Arr(items) => Ok(PropertyKeys(items))
      case _ => Err(SectionsNotIterable)
  }

  /** Each element converted to the property key it denotes. */
  function PropertyKeys(items: seq<Value>): (r: seq<string>)
    ensures |r| == |items|
    ensures forall i :: 0 <= i < |items| ==> r[i] == ToJsString(items[i])
  {
    if items == [] then [] else [ToJsString(items[0])] + PropertyKeys(items[1..])
  }

  /*
   * The fidelity filter: `originalSections.forEach` copies every listed
   * section whose candidate value is truthy; unlisted candidate keys are
   * only logged.
   */

  /** The candidate holds section `k` with a truthy value. */
  predicate Present(candidate: map<string, Value>, k: string)
  {
    k in candidate && Truthy(candidate[k])
  }

  /** The object built after visiting the first `n` listed sections. */
  function KeepSections(candidate: map<string, Value>, sections: seq<string>, n: nat): (r: Object)
    requires n <= |sections|
    ensures r.Valid()
    ensures forall k :: k in r.fields <==> k in sections[..n] && Present(candidate, k)
    ensures forall k :: k in r.fields ==> k in candidate && r.fields[k] == candidate[k]
  {
    if n == 0 then EmptyObject
    else
      var acc := KeepSections(candidate, sections, n - 1);
      var s := sections[n - 1];
      assert sections[..n] == sections[..n - 1] + [s];
      if Present(candidate, s) then acc.Set(s, candidate[s]) else acc
  }

  /** Kept sections appear in the order of their first listing. */
  lemma {:induction false} KeepSectionsOrder(candidate: map<string, Value>, sections: seq<string>, n: nat)
    requires n <= |sections|
    ensures var r := KeepSections(candidate, sections, n);
      && (forall k :: k in r.keys ==> k in sections[..n])
      && forall p, q :: 0 <= p < q < |r.keys| ==> Seqs.FirstSeenBefore(sections, r.keys[p], r.keys[q])
  {
    var r := KeepSections(candidate, sections, n);
    assert forall k :: k in r.keys ==> k in r.fields;
    if n > 0 {
      KeepSectionsOrder(candidate, sections, n - 1);
      var acc := KeepSections(candidate, sections, n - 1);
      var s := sections[n - 1];
      assert sections[..n] == sections[..n - 1] + [s];
      if Present(candidate, s) && s !in acc.fields {
        assert r.keys == acc.keys + [s];
        assert s !in sections[..n - 1];
        assert Seqs.FirstIndex(sections, s) == n - 1;
        forall k | k in acc.keys
          ensures Seqs.FirstSeenBefore(sections, k, s)
        {
          Seqs.FirstIndexOfPrefix(sections, n - 1, k);
        }
        Seqs.FirstSeenAppend(sections, acc.keys, s);
      } else {
        assert r.keys == acc.keys;
        forall k | k in acc.keys
          ensures k in sections
        {
          assert k in sections[..n - 1];
        }
      }
    }
  }

  /** `personalInfo` is an object whose `name` is truthy. */
  predicate NamedPersonalInfo(v: Value)
  {
    v.Obj? && TruthyProperty(v.obj.Get("name"))
  }

  /** The validation block of `parseAndTailorResume`. */
  function ValidateSections(candidate: map<string, Value>, sections: seq<string>): (r: Result<Object, Failure>)
    ensures r.Ok? <==>
      "personalInfo" in sections && "personalInfo" in candidate && NamedPersonalInfo(candidate["personalInfo"])
    ensures r.Err? ==> r.error == MissingPersonalInfoOrName
    ensures r.Ok? ==> r.value.Valid()
    ensures r.Ok? ==> forall k :: k in r.value.fields ==> k in sections
    ensures r.Ok? ==> forall k :: k in r.value.fields <==> k in sections && Present(candidate, k)
    ensures r.Ok? ==> forall k :: k in r.value.fields ==> k in candidate && r.value.fields[k] == candidate[k]
    ensures r.Ok? ==> forall p, q :: 0 <= p < q < |r.value.keys| ==>
      r.value.keys[p] in sections && r.value.keys[q] in sections &&
      Seqs.FirstIndex(sections, r.value.keys[p]) < Seqs.FirstIndex(sections, r.value.keys[q])
  {
    var kept := KeepSections(candidate, sections, |sections|);
    assert sections[..|sections|] == sections;
    KeepSectionsOrder(candidate, sections, |sections|);
    if "personalInfo" in kept.fields && NamedPersonalInfo(kept.fields["personalInfo"]) then Ok(kept)
    else Err(MissingPersonalInfoOrName)
  }

  lemma {:induction false} KeepSectionsIgnoresUnlisted(
    candidate: map<string, Value>, sections: seq<string>, n: nat, k: string, v: Value)
    requires n <= |sections| && k !in sections
    ensures KeepSections(candidate[k := v], sections, n) == KeepSections(candidate, sections, n)
  {
    if n > 0 {
      KeepSectionsIgnoresUnlisted(candidate, sections, n - 1, k, v);
      assert sections[n - 1] != k;
    }
  }

  /** A candidate key outside the section list never affects the outcome. */
  lemma ExtraSectionIgnored(candidate: map<string, Value>, sections: seq<string>, k: string, v: Value)
    requires k !in sections
    ensures ValidateSections(candidate[k := v], sections) == ValidateSections(candidate, sections)
  {
    KeepSectionsIgnoresUnlisted(candidate, sections, |sections|, k, v);
  }

  /** One step of `KeepSections` commutes with removing a key from the candidate. */
  lemma KeepStepWithout(candidate: map<string, Value>, acc: map<string, Value>, s: string, k: string)
    ensures var smaller := candidate - {k};
      (if Present(smaller, s) then (acc - {k})[s := smaller[s]] else acc - {k})
      == (if Present(candidate, s) then acc[s := candidate[s]] else acc) - {k}
  {
    if s != k && Present(candidate, s) {
      assert (candidate - {k})[s] == candidate[s];
      assert (acc - {k})[s := candidate[s]] == acc[s := candidate[s]] - {k};
    } else if s == k && Present(candidate, s) {
      assert acc[s := candidate[s]] - {k} == acc - {k};
    }
  }

  lemma {:induction false} KeepSectionsWithout(candidate: map<string, Value>, sections: seq<string>, n: nat, k: string)
    requires n <= |sections|
    ensures KeepSections(candidate - {k}, sections, n).fields == KeepSections(candidate, sections, n).fields - {k}
  {
    if n > 0 {
      var s := sections[n - 1];
      var smaller := candidate - {k};
      var acc := KeepSections(candidate, sections, n - 1).fields;
      assert KeepSections(smaller, sections, n - 1).fields == acc - {k} by {
        KeepSectionsWithout(candidate, sections, n - 1, k);
      }
      assert KeepSections(candidate, sections, n).fields
        == if Present(candidate, s) then acc[s := candidate[s]] else acc;
      KeepStepWithout(candidate, acc, s, k);
    }
  }

  /** A listed section missing from the candidate is dropped, never an error. */
  lemma MissingSectionTolerated(candidate: map<string, Value>, sections: seq<string>, k: string)
    requires ValidateSections(candidate, sections).Ok? && k != "personalInfo"
    ensures ValidateSections(candidate - {k}, sections).Ok?
    ensures ValidateSections(candidate - {k}, sections).value.fields
         == ValidateSections(candidate, sections).value.fields - {k}
  {
    assert (candidate - {k})["personalInfo"] == candidate["personalInfo"];
    KeepSectionsWithout(candidate, sections, |sections|, k);
  }

  /*
   * The whole validation path of `parseAndTailorResume`, given the two model
   * replies. A parse result that is not an object is reported as a parse
   * failure: the extracted text always starts with `{`.
   */

  /** The structure reply's JSON span, parsed. */
  function ParseStructure(structureReply: string, parse: string -> Option<Value>): (r: Result<Object, Failure>)
    ensures ExtractJson(structureReply).None? ==> r == Err(NoStructureJson)
    ensures ExtractJson(structureReply).Some? ==>
      var parsed := parse(ExtractJson(structureReply).value);
      && (parsed.Some? && parsed.value.Obj? ==> r == Ok(parsed.value.obj))
      && (parsed.None? || !parsed.value.Obj? ==> r == Err(StructureNotParsed))
  {
    match ExtractJson(structureReply)
    case None => Err(NoStructureJson)
    case Some(json) =>
      match parse(json)
      case Some(Obj(structure)) => Ok(structure)
      case _ => Err(StructureNotParsed)
  }

  function ParseCandidate(tailoredReply: string, parse: string -> Option<Value>): (r: Result<map<string, Value>, Failure>)
    ensures ExtractJson(tailoredReply).None? ==> r == Err(NoTailoredJson)
    ensures ExtractJson(tailoredReply).Some? ==>
      var parsed := parse(ExtractJson(tailoredReply).value);
      && (parsed.Some? && parsed.value.Obj? ==> r == Ok(parsed.value.obj.fields))
      && (parsed.None? || !parsed.value.Obj? ==> r == Err(TailoredNotParsed))
  {
    match ExtractJson(tailoredReply)
    case None => Err(NoTailoredJson)
    case Some(json) =>
      match parse(json)
      case Some(Obj(candidate)) => Ok(candidate.fields)
      case _ => Err(TailoredNotParsed)
  }

  /**
   * `parseAndTailorResume`: the structure reply is extracted and parsed, then
   * the tailored reply; only then does `forEach` meet the section list.
   */
  function ParseAndTailor(structureReply: string, tailoredReply: string, parse: string -> Option<Value>): (r: Result<Object, Failure>)
    ensures ParseStructure(structureReply, parse).Err? ==> r == Err(ParseStructure(structureReply, parse).error)
    ensures ParseStructure(structureReply, parse).Ok? && ParseCandidate(tailoredReply, parse).Err? ==>
      r == Err(ParseCandidate(tailoredReply, parse).error)
    ensures ParseStructure(structureReply, parse).Ok? && ParseCandidate(tailoredReply, parse).Ok? ==>
      var sections := SectionList(ParseStructure(structureReply, parse).value);
      && (sections.Err? ==> r == Err(SectionsNotIterable))
      && (sections.Ok? ==> r == ValidateSections(ParseCandidate(tailoredReply, parse).value, sections.value))
    ensures r.Ok? ==> HasBracedSpan(structureReply) && HasBracedSpan(tailoredReply)
    ensures r.Ok? ==> r.value.Valid() && "personalInfo" in r.value.fields
    ensures r.Ok? ==> NamedPersonalInfo(r.value.fields["personalInfo"])
    ensures r.Ok? ==> forall k :: k in r.value.fields ==> k in SectionList(ParseStructure(structureReply, parse).value).value
  {
    var structure :- ParseStructure(structureReply, parse);
    var candidate :- ParseCandidate(tailoredReply, parse);
    var sections :- SectionList(structure);
    ValidateSections(candidate, sections)
  }

  /** A section list that `forEach` cannot walk is reported only once both replies have parsed. */
  lemma NonArraySectionsReportedLast(structureReply: string, tailoredReply: string, parse: string -> Option<Value>)
    requires ParseStructure(structureReply, parse).Ok?
    requires SectionList(ParseStructure(structureReply, parse).value).Err?
    ensures var candidate := ParseCandidate(tailoredReply, parse);
      ParseAndTailor(structureReply, tailoredReply, parse) == Err(if candidate.Err? then candidate.error else SectionsNotIterable)
  {
  }

  /** A string `sections` with a tailored reply holding no JSON: the missing JSON is reported. */
  lemma NoTailoredJsonBeforeSections()
    ensures var parse := (json: string) => Some(Obj(EmptyObject.Set("sections", Str("x"))));
      ParseAndTailor("{}", "no json here", parse) == Err(NoTailoredJson)
  {
    var parse := (json: string) => Some(Obj(EmptyObject.Set("sections", Str("x"))));
    var structureReply := "{}";
    assert HasBracedSpan(structureReply) by {
      assert structureReply[0] == '{' && structureReply[1] == '}';
    }
    assert ExtractJson(structureReply) == Some(structureReply) by {
      assert structureReply[0..2] == structureReply;
    }
    assert !HasBracedSpan("no json here");
    NonArraySectionsReportedLast("{}", "no json here", parse);
  }

  /** A structure reply without a truthy `sections` always ends in failure. */
  lemma NoSectionsAlwaysFails(structureReply: string, tailoredReply: string, parse: string -> Option<Value>)
    requires ExtractJson(structureReply).Some?
    requires var p := parse(ExtractJson(structureReply).value);
      p.Some? && p.value.Obj? && !TruthyProperty(p.value.obj.Get("sections"))
    ensures ParseAndTailor(structureReply, tailoredReply, parse).Err?
  {
    assert SectionList(ParseStructure(structureReply, parse).value) == Ok([]);
  }

  /*
   * `calculateAtsScore`: `parseInt` on the trimmed reply, `NaN` and any
   * failed model call giving 0, everything else clamped to 0..100.
   */

  /** A leading `-` or `+` of `parseInt`'s input: whether it was `-`, and the rest. */
  function StripSign(t: string): (r: (bool, string))
    ensures r.1 == t || (t != [] && r.1 == t[1..] && (t[0] == '-' || t[0] == '+'))
  {
    if t != [] && t[0] == '-' then (true, t[1..])
    else if t != [] && t[0] == '+' then (false, t[1..])
    else (false, t)
  }

  /** A `0x` or `0X` prefix selects radix 16; otherwise the radix is 10. */
  function SelectRadix(u: string): (r: (nat, string))
    ensures r.0 == 10 || r.0 == 16
    ensures r.0 == 10 ==> r.1 == u
    ensures r.0 == 16 ==> StartsWith(u, "0x") || StartsWith(u, "0X")
  {
    if |u| >= 2 && u[0] == '0' && (u[1] == 'x' || u[1] == 'X') then (16, u[2..]) else (10, u)
  }

  /** `parseInt(s)` without a radix; `None` stands for `NaN`. */
  function ParseInt(s: string): (r: Option<int>)
    ensures r.None? <==>
      var body := SelectRadix(StripSign(TrimStart(s)).1);
      body.1 == [] || !Numerals.IsRadixDigit(body.1[0], body.0)
  {
    var (negative, u) := StripSign(TrimStart(s));
    var (radix, body) := SelectRadix(u);
    var digits := Numerals.DigitPrefix(body, radix);
    if digits == [] then None
    else
      var magnitude: int := Numerals.Value(digits, radix);
      Some(if negative then -magnitude else magnitude)
  }

  const MaxScore: int := 100

  function AtsScore(reply: Option<string>): (score: int)
    ensures 0 <= score <= MaxScore
    ensures reply.None? ==> score == 0
    ensures reply.Some? && ParseInt(Trim(reply.value)).None? ==> score == 0
    ensures reply.Some? && ParseInt(Trim(reply.value)).Some? ==>
      var n := ParseInt(Trim(reply.value)).value;
      && (0 <= n <= MaxScore ==> score == n)
      && (n < 0 ==> score == 0)
      && (n > MaxScore ==> score == MaxScore)
  {
    match reply
    case None => 0
    case Some(text) =>
      match ParseInt(Trim(text))
      case None => 0
      case Some(n) => if n < 0 then 0 else if n > MaxScore then MaxScore else n
  }

  /** Text starting with a decimal number, then no further digit or letter, parses as that number. */
  lemma ParseIntOfDecimal(n: nat, suffix: string)
    requires suffix == [] || (!IsDigit(suffix[0]) && !IsAsciiLetter(suffix[0]))
    ensures ParseInt(Numerals.FromNat(n) + suffix) == Some(n)
  {
    var digits := Numerals.FromNat(n);
    var text := digits + suffix;
    assert IsDigit(text[0]) by {
      assert text[0] == digits[0];
    }
    assert !IsWhitespace(text[0]) && text[0] != '-' && text[0] != '+';
    assert StripSign(TrimStart(text)) == (false, text) by {
      assert TrimStart(text) == text;
    }
    assert SelectRadix(text) == (10, text) by {
      if |text| >= 2 {
        if |digits| >= 2 {
          assert text[1] == digits[1];
        } else {
          assert text[1] == suffix[0];
        }
      }
    }
    assert Numerals.DigitPrefix(text, 10) == digits by {
      if suffix != [] {
        Numerals.DecimalDigitIsDigit(suffix[0]);
      }
      Numerals.DigitPrefixOfDigits(digits, suffix, 10);
    }
    Numerals.ValueOfFromNat(n);
  }

  /** Text starting with a sign or a digit has no leading white space to trim. */
  lemma StripSignUntrimmed(s: string)
    requires s != [] && (s[0] == '-' || s[0] == '+' || IsDigit(s[0]))
    ensures StripSign(TrimStart(s)) == (s[0] == '-', if IsDigit(s[0]) then s else s[1..])
  {
    assert !IsWhitespace(s[0]);
    assert TrimStart(s) == s;
  }

  /** Two texts whose signs differ but whose unsigned parts agree parse to opposite numbers. */
  lemma ParseIntOppositeSigns(s: string, t: string)
    requires StripSign(TrimStart(s)) == (true, StripSign(TrimStart(t)).1)
    requires !StripSign(TrimStart(t)).0
    ensures ParseInt(s).Some? == ParseInt(t).Some?
    ensures ParseInt(t).Some? ==> ParseInt(s).value == -ParseInt(t).value
  {
  }

  /** A leading `-` negates the number the rest reads as. */
  lemma ParseIntNegated(t: string)
    requires t != [] && IsDigit(t[0]) && ParseInt(t).Some?
    ensures ParseInt("-" + t) == Some(-ParseInt(t).value)
  {
    StripSignUntrimmed(t);
    Seqs.DropPrefix("-", t);
    StripSignUntrimmed("-" + t);
    ParseIntOppositeSigns("-" + t, t);
  }

  /** Unsigned text selecting radix 16 reads the hexadecimal digits after the prefix. */
  lemma ParseIntHexBody(s: string, rest: string)
    requires StripSign(TrimStart(s)) == (false, s)
    requires SelectRadix(s) == (16, rest)
    ensures var digits := Numerals.DigitPrefix(rest, 16);
      ParseInt(s) == if digits == [] then None else Some(Numerals.Value(digits, 16))
  {
  }

  /** A `0x` prefix reads the following hexadecimal digits in radix 16. */
  lemma ParseIntOfHex(digits: string, suffix: string)
    requires digits != [] && forall i :: 0 <= i < |digits| ==> Numerals.IsRadixDigit(digits[i], 16)
    requires suffix == [] || !Numerals.IsRadixDigit(suffix[0], 16)
    ensures ParseInt("0x" + digits + suffix) == Some(Numerals.Value(digits, 16))
  {
    var rest := digits + suffix;
    var s := "0x" + rest;
    assert s == "0x" + digits + suffix;
    Seqs.DropPrefix("0x", rest);
    StripSignUntrimmed(s);
    ParseIntHexBody(s, rest);
    Numerals.DigitPrefixOfDigits(digits, suffix, 16);
  }

  lemma ParseIntHexExample()
    ensures ParseInt("0x50") == Some(80)
  {
    var digits := "50";
    assert Numerals.Value("5", 16) == 5 by {
      assert "5"[..0] == [];
    }
    assert Numerals.Value(digits, 16) == 80 by {
      assert digits[..1] == "5";
    }
    ParseIntOfHex(digits, "");
    assert "0x" + digits + "" == "0x50";
  }


  /** A reply starting with a number reads back as that number, clamped. */
  lemma AtsScoreOfNumber(n: nat, suffix: string)
    requires suffix == [] || (!IsDigit(suffix[0]) && !IsAsciiLetter(suffix[0]) && !IsWhitespace(suffix[|suffix| - 1]))
    ensures AtsScore(Some(Numerals.FromNat(n) + suffix)) == if n <= MaxScore then n else MaxScore
  {
    var digits := Numerals.FromNat(n);
    var text := digits + suffix;
    assert text[0] == digits[0];
    assert text[|text| - 1] == if suffix == [] then digits[|digits| - 1] else suffix[|suffix| - 1];
    TrimNoop(text);
    ParseIntOfDecimal(n, suffix);
  }

  /*
   * `applyTailoringSuggestions`: the four fixed skills first, then the
   * remaining technical skills in their original order.
   */

  const PrioritySkills: seq<Value> := [Str("JavaScript"), Str("React"), Str("Node.js"), Str("TypeScript")]

  const SummarySuffix: string := " Experienced in full-stack development with React and Node.js."

  /** The technical skills other than the four fixed ones, in order. */
  function WithoutPriority(items: seq<Value>): (r: seq<Value>)
    ensures forall v :: v in r <==> v in items && v !in PrioritySkills
    ensures forall v :: multiset(r)[v] == if v in PrioritySkills then 0 else multiset(items)[v]
    ensures Seqs.IsSubsequence(r, items)
  {
    if items == [] then []
    else
      var rest := WithoutPriority(items[1..]);
      Seqs.MultisetCons(items);
      if items[0] in PrioritySkills then
        assert rest == [] || rest[0] != items[0];
        rest
      else
        assert ([items[0]] + rest)[1..] == rest;
        [items[0]] + rest
  }

  /** `master.skills` when it is an object. */
  function SkillsOf(master: Value): Option<Object>
  {
    if master.Obj? && master.obj.Get("skills").Some? && master.obj.fields["skills"].Obj? then
      Some(master.obj.fields["skills"].obj)
    else None
  }

  /** `master.skills.technical` when it is an array. */
  function TechnicalOf(master: Value): Option<seq<Value>>
  {
    match SkillsOf(master)
    case Some(skills) =>
      if skills.Get("technical").Some? && skills.fields["technical"].Arr? then
        Some(skills.fields["technical"].items)
      else None
    case None => None
  }

  function ApplyTailoringSuggestions(master: Value): (r: Result<Value, Failure>)
    ensures r.Ok? <==> TechnicalOf(master).Some?
    ensures r.Err? ==> r.error == TechnicalNotAnArray
    ensures r.Ok? ==>
      var technical := TechnicalOf(master).value;
      && TechnicalOf(r.value).Some?
      && var reordered := TechnicalOf(r.value).value;
      && |reordered| >= 4
      && reordered[..4] == PrioritySkills
      && Seqs.IsSubsequence(reordered[4..], technical)
      && (forall v :: v in reordered[4..] <==> v in technical && v !in PrioritySkills)
      && (forall v :: multiset(reordered[4..])[v] == if v in PrioritySkills then 0 else multiset(technical)[v])
    ensures r.Ok? ==>
      var before := SkillsOf(master).value;
      var after := SkillsOf(r.value).value;
      && after.fields.Keys == before.fields.Keys
      && forall k :: k in before.fields && k != "technical" ==> after.fields[k] == before.fields[k]
    ensures r.Ok? ==>
      && r.value.obj.fields.Keys == master.obj.fields.Keys + {"summary"}
      && (forall k :: k in master.obj.fields && k != "summary" && k != "skills" ==>
            r.value.obj.fields[k] == master.obj.fields[k])
      && r.value.obj.fields["summary"] == Str(PropertyToJsString(master.obj.Get("summary")) + SummarySuffix)
  {
    match TechnicalOf(master)
    case None => Err(TechnicalNotAnArray)
    case Some(technical) =>
      var skills := SkillsOf(master).value;
      var reordered := PrioritySkills + WithoutPriority(technical);
      assert reordered[4..] == WithoutPriority(technical);
      var newSkills := skills.Set("technical", Arr(reordered));
      var summary := Str(PropertyToJsString(master.obj.Get("summary")) + SummarySuffix);
      Ok(Obj(master.obj.Set("summary", summary).Set("skills", Obj(newSkills))))
  }

  /** The filter on a non-empty list: its first element, if kept, then the filtered rest. */
  lemma WithoutPriorityCons(items: seq<Value>)
    requires items != []
    ensures WithoutPriority(items)
         == (if items[0] in PrioritySkills then [] else [items[0]]) + WithoutPriority(items[1..])
  {
  }

  lemma {:induction false} WithoutPriorityConcat(a: seq<Value>, b: seq<Value>)
    ensures WithoutPriority(a + b) == WithoutPriority(a) + WithoutPriority(b)
  {
    if a != [] {
      var head := if a[0] in PrioritySkills then [] else [a[0]];
      var tail, rest := WithoutPriority(a[1..]), WithoutPriority(b);
      assert WithoutPriority(a + b) == head + WithoutPriority(a[1..] + b) by {
        Seqs.TailOfConcat(a, b);
        WithoutPriorityCons(a + b);
      }
      assert WithoutPriority(a[1..] + b) == tail + rest by {
        WithoutPriorityConcat(a[1..], b);
      }
      assert WithoutPriority(a) == head + tail by {
        WithoutPriorityCons(a);
      }
      Seqs.ConcatAssoc(head, tail, rest);
    } else {
      assert a + b == b;
    }
  }

  lemma {:induction false} WithoutPriorityIdempotent(items: seq<Value>)
    ensures WithoutPriority(WithoutPriority(items)) == WithoutPriority(items)
  {
    if items != [] {
      WithoutPriorityIdempotent(items[1..]);
      if items[0] !in PrioritySkills {
        WithoutPriorityConcat([items[0]], WithoutPriority(items[1..]));
        assert WithoutPriority([items[0]]) == [items[0]] by {
          assert [items[0]][1..] == [];
        }
      }
    }
  }

  lemma ReorderedTechnical(master: Value)
    requires TechnicalOf(master).Some?
    ensures ApplyTailoringSuggestions(master).Ok?
    ensures TechnicalOf(ApplyTailoringSuggestions(master).value)
         == Some(PrioritySkills + WithoutPriority(TechnicalOf(master).value))
  {
    var skills := SkillsOf(master).value;
    var reordered := PrioritySkills + WithoutPriority(TechnicalOf(master).value);
    var newSkills := skills.Set("technical", Arr(reordered));
    var summary := Str(PropertyToJsString(master.obj.Get("summary")) + SummarySuffix);
    var once := Obj(master.obj.Set("summary", summary).Set("skills", Obj(newSkills)));
    assert ApplyTailoringSuggestions(master) == Ok(once);
    assert once.obj.fields["skills"] == Obj(newSkills);
    assert SkillsOf(once) == Some(newSkills);
  }

  lemma PrioritySkillsRemoved()
    ensures WithoutPriority(PrioritySkills) == []
  {
    var p := PrioritySkills;
    assert p[1..][1..][1..][1..] == [];
    assert WithoutPriority(p[1..][1..][1..]) == [];
    assert WithoutPriority(p[1..][1..]) == [];
    assert WithoutPriority(p[1..]) == [];
  }

  /** Reordering an already reordered résumé leaves the technical skills as they are. */
  lemma ReorderingIsIdempotent(master: Value)
    requires ApplyTailoringSuggestions(master).Ok?
    ensures var once := ApplyTailoringSuggestions(master).value;
      && ApplyTailoringSuggestions(once).Ok?
      && TechnicalOf(ApplyTailoringSuggestions(once).value) == TechnicalOf(once)
  {
    var w := WithoutPriority(TechnicalOf(master).value);
    WithoutPriorityConcat(PrioritySkills, w);
    PrioritySkillsRemoved();
    WithoutPriorityIdempotent(TechnicalOf(master).value);
    assert WithoutPriority(PrioritySkills + w) == w;
    ReorderedTechnical(master);
    var once := ApplyTailoringSuggestions(master).value;
    assert TechnicalOf(once) == Some(PrioritySkills + w);
    ReorderedTechnical(once);
  }
}
