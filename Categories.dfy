/**
  `group_majors` and `group_military_branches`: free text to one label of a fixed set, by an
  ordered chain of case-insensitive substring tests in which the first matching rule wins.

  The text is lower-cased with `AsciiLower`. Python's `lower()` also maps non-ASCII
  capitals, but among them only the Kelvin sign (to 'k') and the dotted capital I (to 'i'
  followed by a combining dot) yield an ASCII letter; no rule term holds a 'k', and none
  ends in an 'i', so neither can complete a term and the rule chosen is the same.

  Each classifier is written twice: as the `if`/`elif` chain of the script, and as a list of
  rules read by `Classify`, whose contract says outright that the first matching rule
  wins. A lemma proves that the two agree on every text.
*/
module Categories {
  import opened Wrappers
  import opened PyStr
  import opened Frame

  // ---------------------------------------------------------------------------
  // Ordered rules
  // ---------------------------------------------------------------------------

  /** `any(term in text for term in terms)` */
  predicate ContainsAny(text: string, terms: seq<string>) {
    exists i :: 0 <= i < |terms| && Contains(text, terms[i])
  }

  /** A rule: the terms that select it and the label it gives. */
  datatype Rule = Rule(terms: seq<string>, gives: string)

  /** The index of the first rule, from `from` on, that `text` selects. */
  function FirstHit(rules: seq<Rule>, text: string, from: nat): (h: Option<nat>)
    requires from <= |rules|
    ensures h.Some? ==> from <= h.value < |rules|
    decreases |rules| - from
  {
    if from == |rules| then None
    else if ContainsAny(text, rules[from].terms) then Some(from)
    else FirstHit(rules, text, from + 1)
  }

  /** `FirstHit` finds a rule that `text` selects, and no rule between `from` and it (or
      after `from` at all, when it finds none) is selected. */
  lemma {:induction false} FirstHitIsFirst(rules: seq<Rule>, text: string, from: nat)
    requires from <= |rules|
    ensures var h := FirstHit(rules, text, from);
      && (h.Some? ==> ContainsAny(text, rules[h.value].terms))
      && forall j :: from <= j < |rules| && (h.None? || j < h.value) ==> !ContainsAny(text, rules[j].terms)
    decreases |rules| - from
  {
    if from < |rules| && !ContainsAny(text, rules[from].terms) {
      FirstHitIsFirst(rules, text, from + 1);
    }
  }

  /** The label of the first rule `text` selects, or `otherwise` when it selects none. */
  function Classify(rules: seq<Rule>, text: string, otherwise: string): (r: string)
    ensures r == otherwise || exists i :: 0 <= i < |rules| && r == rules[i].gives
  {
    match FirstHit(rules, text, 0)
    case Some(h) => rules[h].gives
    case None => otherwise
  }

  /** The first rule that `text` selects decides; with none, the result is `otherwise`. */
  lemma FirstRuleWins(rules: seq<Rule>, text: string, otherwise: string)
    ensures (forall j :: 0 <= j < |rules| ==> !ContainsAny(text, rules[j].terms)) ==>
      Classify(rules, text, otherwise) == otherwise
    ensures forall i :: (0 <= i < |rules| && ContainsAny(text, rules[i].terms) &&
                         forall j :: 0 <= j < i ==> !ContainsAny(text, rules[j].terms)) ==>
      Classify(rules, text, otherwise) == rules[i].gives
  {
    FirstHitIsFirst(rules, text, 0);
  }

  /** The labels a rule list can give. */
  function Labels(rules: seq<Rule>, otherwise: string): (s: set<string>)
    ensures otherwise in s
    ensures forall i :: 0 <= i < |rules| ==> rules[i].gives in s
  {
    if rules == [] then {otherwise} else {rules[0].gives} + Labels(rules[1..], otherwise)
  }

  /** `Classify` gives one of the labels of its rules or `otherwise`. */
  lemma ClassifyInLabels(rules: seq<Rule>, text: string, otherwise: string)
    ensures Classify(rules, text, otherwise) in Labels(rules, otherwise)
  {
  }

  /** Every term of every rule opens with a lower-case ASCII letter. */
  predicate LetterTerms(rules: seq<Rule>) {
    forall i, k :: 0 <= i < |rules| && 0 <= k < |rules[i].terms| ==>
      rules[i].terms[k] != [] && 'a' <= rules[i].terms[k][0] <= 'z'
  }

  /** Text without a lower-case letter selects no rule whose terms all open with one. */
  lemma NoLetterNoRule(rules: seq<Rule>, text: string, otherwise: string)
    requires LetterTerms(rules)
    requires forall i :: 0 <= i < |text| ==> !('a' <= text[i] <= 'z')
    ensures Classify(rules, text, otherwise) == otherwise
  {
    forall j | 0 <= j < |rules|
      ensures !ContainsAny(text, rules[j].terms)
    {
      forall k | 0 <= k < |rules[j].terms|
        ensures !Contains(text, rules[j].terms[k])
      {
        var term := rules[j].terms[k];
        MissingChar(text, term, term[0]);
      }
    }
    FirstRuleWins(rules, text, otherwise);
  }

  // ---------------------------------------------------------------------------
  // The input cell
  // ---------------------------------------------------------------------------

  /** `pd.isnull(x) or x == '0'`: a missing cell or exactly the text "0". The number 0 is
      not equal to the text "0" and is not caught here. */
  predicate NullOrZero(x: Cell) {
    x.Missing? || x == Str("0")
  }

  /** `str(x).lower()` for a present cell. */
  function LowerText(x: Cell): (r: string)
    requires !x.Missing?
    ensures x.Str? ==> r == AsciiLower(x.s)
    ensures x.Num? ==> r == AsciiLower(IntToString(x.n))
  {
    match x
    case Str(s) => AsciiLower(s)
    case Num(n) => AsciiLower(IntToString(n))
  }

  /** The text of a number holds no letter. */
  lemma NumberHasNoLetter(n: int)
    ensures forall i :: 0 <= i < |LowerText(Num(n))| ==> !('a' <= LowerText(Num(n))[i] <= 'z')
  {
    var s := IntToString(n);
    forall i | 0 <= i < |LowerText(Num(n))|
      ensures !('a' <= LowerText(Num(n))[i] <= 'z')
    {
      assert LowerText(Num(n))[i] == LowerChar(s[i]);
    }
  }

  // ---------------------------------------------------------------------------
  // group_majors
  // ---------------------------------------------------------------------------

  /** The 18 labels of the rule chain, and "Unknown". */
  const MajorLabels: set<string> := {
    "Aeronautics and Astronautics", "Mechanical Engineering", "Electrical Engineering",
    "Chemical Engineering", "Civil Engineering", "Industrial Engineering",
    "Computer Science/Engineering", "Other Engineering", "Physics", "Mathematics",
    "Biological Sciences", "Chemistry", "Earth Sciences", "Social Sciences",
    "Business/Management", "Medical Sciences", "Military Sciences", "Other", "Unknown"
  }

  /** The rule chain on lower-cased text, in the script's order. */
  function MajorOfText(m: string): (r: string)
    ensures r in MajorLabels - {"Unknown"}
  {
    if ContainsAny(m, ["aerospace", "aeronautical", "astronautical", "aeronautics"]) then "Aeronautics and Astronautics"
    else if Contains(m, "mechanical") then "Mechanical Engineering"
    else if Contains(m, "electrical") || Contains(m, "electronic") then "Electrical Engineering"
    else if Contains(m, "chemical") then "Chemical Engineering"
    else if Contains(m, "civil") then "Civil Engineering"
    else if Contains(m, "industrial") then "Industrial Engineering"
    else if ContainsAny(m, ["computer", "software"]) then "Computer Science/Engineering"
    else if Contains(m, "engineering") then "Other Engineering"
    else if Contains(m, "physics") then "Physics"
    else if ContainsAny(m, ["mathematics", "math"]) then "Mathematics"
    else if ContainsAny(m, ["biology", "biochemistry", "life science", "molecular"]) then "Biological Sciences"
    else if ContainsAny(m, ["chemistry", "chemical"]) then "Chemistry"
    else if ContainsAny(m, ["geology", "earth science", "geophysics"]) then "Earth Sciences"
    else if ContainsAny(m, ["psychology", "social"]) then "Social Sciences"
    else if ContainsAny(m, ["business", "management", "economics"]) then "Business/Management"
    else if ContainsAny(m, ["medicine", "medical"]) then "Medical Sciences"
    else if ContainsAny(m, ["military", "naval"]) then "Military Sciences"
    else "Other"
  }

  /** `group_majors`: "Unknown" for a missing cell or "0"; otherwise the rule chain on the
      lower-cased text, which never gives "Unknown". */
  function GroupMajors(major: Cell): (r: string)
    ensures r in MajorLabels
    ensures r == "Unknown" <==> NullOrZero(major)
    ensures !NullOrZero(major) ==> r == MajorOfText(LowerText(major))
  {
    if NullOrZero(major) then "Unknown" else MajorOfText(LowerText(major))
  }

  /** The same chain as a rule list. */
  const MajorRules: seq<Rule> := [
    Rule(["aerospace", "aeronautical", "astronautical", "aeronautics"], "Aeronautics and Astronautics"),
    Rule(["mechanical"], "Mechanical Engineering"),
    Rule(["electrical", "electronic"], "Electrical Engineering"),
    Rule(["chemical"], "Chemical Engineering"),
    Rule(["civil"], "Civil Engineering"),
    Rule(["industrial"], "Industrial Engineering"),
    Rule(["computer", "software"], "Computer Science/Engineering"),
    Rule(["engineering"], "Other Engineering"),
    Rule(["physics"], "Physics"),
    Rule(["mathematics", "math"], "Mathematics"),
    Rule(["biology", "biochemistry", "life science", "molecular"], "Biological Sciences"),
    Rule(["chemistry", "chemical"], "Chemistry"),
    Rule(["geology", "earth science", "geophysics"], "Earth Sciences"),
    Rule(["psychology", "social"], "Social Sciences"),
    Rule(["business", "management", "economics"], "Business/Management"),
    Rule(["medicine", "medical"], "Medical Sciences"),
    Rule(["military", "naval"], "Military Sciences")
  ]

  /** One term as a rule: `any` over a single term is the substring test itself. */
  lemma ContainsAnyOne(m: string, t: string)
    ensures ContainsAny(m, [t]) <==> Contains(m, t)
  {
    if Contains(m, t) {
      assert Contains(m, [t][0]);
    }
  }

  /** Two terms as a rule: `any` over two terms is the `or` of the two tests. */
  lemma ContainsAnyTwo(m: string, t: string, u: string)
    ensures ContainsAny(m, [t, u]) <==> Contains(m, t) || Contains(m, u)
  {
    if Contains(m, t) {
      assert Contains(m, [t, u][0]);
    }
    if Contains(m, u) {
      assert Contains(m, [t, u][1]);
    }
  }

  /** Three terms as a rule. */
  lemma ContainsAnyThree(m: string, t: string, u: string, v: string)
    ensures ContainsAny(m, [t, u, v]) <==> Contains(m, t) || Contains(m, u) || Contains(m, v)
  {
    if Contains(m, t) {
      assert Contains(m, [t, u, v][0]);
    }
    if Contains(m, u) {
      assert Contains(m, [t, u, v][1]);
    }
    if Contains(m, v) {
      assert Contains(m, [t, u, v][2]);
    }
  }

  /** Four terms as a rule. */
  lemma ContainsAnyFour(m: string, t: string, u: string, v: string, w: string)
    ensures ContainsAny(m, [t, u, v, w]) <==> Contains(m, t) || Contains(m, u) || Contains(m, v) || Contains(m, w)
  {
    if Contains(m, t) {
      assert Contains(m, [t, u, v, w][0]);
    }
    if Contains(m, u) {
      assert Contains(m, [t, u, v, w][1]);
    }
    if Contains(m, v) {
      assert Contains(m, [t, u, v, w][2]);
    }
    if Contains(m, w) {
      assert Contains(m, [t, u, v, w][3]);
    }
  }

  /** The chain and the rule list agree on every text. */
  lemma MajorChainIsRules(m: string)
    ensures MajorOfText(m) == Classify(MajorRules, m, "Other")
  {
    var R := MajorRules;
    ContainsAnyOne(m, "mechanical");
    ContainsAnyTwo(m, "electrical", "electronic");
    ContainsAnyOne(m, "chemical");
    ContainsAnyOne(m, "civil");
    ContainsAnyOne(m, "industrial");
    ContainsAnyOne(m, "engineering");
    ContainsAnyOne(m, "physics");
    if ContainsAny(m, R[0].terms) {
      assert FirstHit(R, m, 0) == Some(0);
    } else {
      assert FirstHit(R, m, 0) == FirstHit(R, m, 1);
      if ContainsAny(m, R[1].terms) {
        assert FirstHit(R, m, 1) == Some(1);
      } else {
        assert FirstHit(R, m, 1) == FirstHit(R, m, 2);
        if ContainsAny(m, R[2].terms) {
          assert FirstHit(R, m, 2) == Some(2);
        } else {
          assert FirstHit(R, m, 2) == FirstHit(R, m, 3);
          if ContainsAny(m, R[3].terms) {
            assert FirstHit(R, m, 3) == Some(3);
          } else {
            assert FirstHit(R, m, 3) == FirstHit(R, m, 4);
            if ContainsAny(m, R[4].terms) {
              assert FirstHit(R, m, 4) == Some(4);
            } else {
              assert FirstHit(R, m, 4) == FirstHit(R, m, 5);
              if ContainsAny(m, R[5].terms) {
                assert FirstHit(R, m, 5) == Some(5);
              } else {
                assert FirstHit(R, m, 5) == FirstHit(R, m, 6);
                if ContainsAny(m, R[6].terms) {
                  assert FirstHit(R, m, 6) == Some(6);
                } else {
                  assert FirstHit(R, m, 6) == FirstHit(R, m, 7);
                  if ContainsAny(m, R[7].terms) {
                    assert FirstHit(R, m, 7) == Some(7);
                  } else {
                    assert FirstHit(R, m, 7) == FirstHit(R, m, 8);
                    if ContainsAny(m, R[8].terms) {
                      assert FirstHit(R, m, 8) == Some(8);
                    } else {
                      assert FirstHit(R, m, 8) == FirstHit(R, m, 9);
                      if ContainsAny(m, R[9].terms) {
                        assert FirstHit(R, m, 9) == Some(9);
                      } else {
                        assert FirstHit(R, m, 9) == FirstHit(R, m, 10);
                        if ContainsAny(m, R[10].terms) {
                          assert FirstHit(R, m, 10) == Some(10);
                        } else {
                          assert FirstHit(R, m, 10) == FirstHit(R, m, 11);
                          if ContainsAny(m, R[11].terms) {
                            assert FirstHit(R, m, 11) == Some(11);
                          } else {
                            assert FirstHit(R, m, 11) == FirstHit(R, m, 12);
                            if ContainsAny(m, R[12].terms) {
                              assert FirstHit(R, m, 12) == Some(12);
                            } else {
                              assert FirstHit(R, m, 12) == FirstHit(R, m, 13);
                              if ContainsAny(m, R[13].terms) {
                                assert FirstHit(R, m, 13) == Some(13);
                              } else {
                                assert FirstHit(R, m, 13) == FirstHit(R, m, 14);
                                if ContainsAny(m, R[14].terms) {
                                  assert FirstHit(R, m, 14) == Some(14);
                                } else {
                                  assert FirstHit(R, m, 14) == FirstHit(R, m, 15);
                                  if ContainsAny(m, R[15].terms) {
                                    assert FirstHit(R, m, 15) == Some(15);
                                  } else {
                                    assert FirstHit(R, m, 15) == FirstHit(R, m, 16);
                                    if ContainsAny(m, R[16].terms) {
                                      assert FirstHit(R, m, 16) == Some(16);
                                    } else {
                                      assert FirstHit(R, m, 16) == FirstHit(R, m, 17);
                                      assert FirstHit(R, m, 17) == None;
                                    assert MajorOfText(m) == "Other";
                                    }
                                  }
                                }
                              }
                            }
                          }
                        }
                      }
                    }
                  }
                }
              }
            }
          }
        }
      }
    }
  }

  /** Every term of the major rules opens with a letter. */
  lemma MajorTermsAreWords()
    ensures LetterTerms(MajorRules)
  {
  }

  /** A number is no major: `str(n)` holds only digits and a sign, so it gives "Other". In
      particular the number 0 gives "Other", and only the text "0" gives "Unknown". */
  lemma NumberIsOtherMajor(n: int)
    ensures GroupMajors(Num(n)) == "Other"
  {
    NumberHasNoLetter(n);
    MajorTermsAreWords();
    NoLetterNoRule(MajorRules, LowerText(Num(n)), "Other");
    MajorChainIsRules(LowerText(Num(n)));
  }

  /** Any text naming "engineering" is put in an engineering group: the catch-all for it
      comes before every science rule. */
  lemma EngineeringBeforeSciences(m: string)
    requires Contains(m, "engineering")
    ensures MajorOfText(m) in {"Aeronautics and Astronautics", "Mechanical Engineering", "Electrical Engineering",
                               "Chemical Engineering", "Civil Engineering", "Industrial Engineering",
                               "Computer Science/Engineering", "Other Engineering"}
  {
  }

  /** Text with "chemical" never reaches the Chemistry rule: it is caught by the Chemical
      Engineering rule or one before it. */
  lemma ChemicalIsEngineering(m: string)
    requires Contains(m, "chemical")
    ensures MajorOfText(m) in {"Aeronautics and Astronautics", "Mechanical Engineering", "Electrical Engineering",
                               "Chemical Engineering"}
  {
  }

  /** So the Chemistry rule fires only on "chemistry", and never by its "chemical" term. */
  lemma ChemistryOnlyByName(m: string)
    ensures MajorOfText(m) == "Chemistry" ==> Contains(m, "chemistry") && !Contains(m, "chemical")
  {
    ContainsAnyTwo(m, "chemistry", "chemical");
  }

  /** Text with "biochemistry" is never Chemistry: the Biological Sciences rule, or one before
      it, comes first. */
  lemma BiochemistryNotChemistry(m: string)
    requires Contains(m, "biochemistry")
    ensures MajorOfText(m) != "Chemistry"
  {
    assert Contains(m, ["biology", "biochemistry", "life science", "molecular"][1]);
  }

  /** "Aerospace Engineering" in lower case. */
  lemma LowerAerospaceEngineering()
    ensures AsciiLower("Aerospace Engineering") == "aerospace engineering"
  {
  }

  /** "Aerospace Engineering" is Aeronautics and Astronautics, not Other Engineering. */
  lemma AerospaceEngineering()
    ensures GroupMajors(Str("Aerospace Engineering")) == "Aeronautics and Astronautics"
  {
    LowerAerospaceEngineering();
    var m := "aerospace engineering";
    assert StartsWith(m, "aerospace");
    ContainsAnyFour(m, "aerospace", "aeronautical", "astronautical", "aeronautics");
  }

  /** Text with "engineering" but without the letters 'a', 'v', 'l' and 'o' holds none of the
      engineering terms before the catch-all, so it is Other Engineering. */
  lemma EngineeringCatchAll(m: string)
    requires Contains(m, "engineering")
    requires 'a' !in m && 'v' !in m && 'l' !in m && 'o' !in m
    ensures MajorOfText(m) == "Other Engineering"
  {
    MissingChar(m, "aerospace", 'a');
    MissingChar(m, "aeronautical", 'a');
    MissingChar(m, "astronautical", 'a');
    MissingChar(m, "aeronautics", 'a');
    ContainsAnyFour(m, "aerospace", "aeronautical", "astronautical", "aeronautics");
    MissingChar(m, "mechanical", 'a');
    MissingChar(m, "electrical", 'a');
    MissingChar(m, "electronic", 'l');
    MissingChar(m, "chemical", 'a');
    MissingChar(m, "civil", 'v');
    MissingChar(m, "industrial", 'a');
    MissingChar(m, "computer", 'o');
    MissingChar(m, "software", 'o');
    ContainsAnyTwo(m, "computer", "software");
  }

  /** "Engineering Physics" in lower case. */
  lemma LowerEngineeringPhysics()
    ensures AsciiLower("Engineering Physics") == "engineering physics"
  {
  }

  /** "engineering physics" reaches the catch-all. */
  lemma EngineeringPhysicsLower()
    ensures MajorOfText("engineering physics") == "Other Engineering"
  {
    var m := "engineering physics";
    assert StartsWith(m, "engineering");
    assert 'a' !in m;
    assert 'v' !in m;
    assert 'l' !in m;
    assert 'o' !in m;
    EngineeringCatchAll(m);
  }

  /** "Engineering Physics" is Other Engineering, not Physics. */
  lemma EngineeringPhysics()
    ensures GroupMajors(Str("Engineering Physics")) == "Other Engineering"
  {
    LowerEngineeringPhysics();
    EngineeringPhysicsLower();
  }

  /** Text with "biochemistry" but without the letters 'a', 'v', 'l', 'p', 'f' and 'n' holds
      none of the terms before the Biological Sciences rule, so it is Biological Sciences. */
  lemma BiologicalByBiochemistry(m: string)
    requires Contains(m, "biochemistry")
    requires 'a' !in m && 'v' !in m && 'l' !in m && 'p' !in m && 'f' !in m && 'n' !in m
    ensures MajorOfText(m) == "Biological Sciences"
  {
    MissingChar(m, "aerospace", 'a');
    MissingChar(m, "aeronautical", 'a');
    MissingChar(m, "astronautical", 'a');
    MissingChar(m, "aeronautics", 'a');
    ContainsAnyFour(m, "aerospace", "aeronautical", "astronautical", "aeronautics");
    MissingChar(m, "mechanical", 'a');
    MissingChar(m, "electrical", 'a');
    MissingChar(m, "electronic", 'l');
    MissingChar(m, "chemical", 'a');
    MissingChar(m, "civil", 'v');
    MissingChar(m, "industrial", 'a');
    MissingChar(m, "computer", 'p');
    MissingChar(m, "software", 'f');
    ContainsAnyTwo(m, "computer", "software");
    MissingChar(m, "engineering", 'n');
    MissingChar(m, "physics", 'p');
    MissingChar(m, "mathematics", 'a');
    MissingChar(m, "math", 'a');
    ContainsAnyTwo(m, "mathematics", "math");
    ContainsAnyFour(m, "biology", "biochemistry", "life science", "molecular");
  }

  /** "Biochemistry" in lower case. */
  lemma LowerBiochemistry()
    ensures AsciiLower("Biochemistry") == "biochemistry"
  {
  }

  /** "biochemistry" reaches the Biological Sciences rule. */
  lemma BiochemistryLower()
    ensures MajorOfText("biochemistry") == "Biological Sciences"
  {
    var m := "biochemistry";
    assert StartsWith(m, "biochemistry");
    assert 'a' !in m;
    assert 'v' !in m;
    assert 'l' !in m;
    assert 'p' !in m;
    assert 'f' !in m;
    assert 'n' !in m;
    BiologicalByBiochemistry(m);
  }

  /** "Biochemistry" is Biological Sciences, not Chemistry. */
  lemma Biochemistry()
    ensures GroupMajors(Str("Biochemistry")) == "Biological Sciences"
  {
    LowerBiochemistry();
    BiochemistryLower();
  }

  // ---------------------------------------------------------------------------
  // group_military_branches
  // ---------------------------------------------------------------------------

  /** The six labels of the branch chain, and "Civilian". */
  const BranchLabels: set<string> := {
    "US Air Force", "US Navy", "US Army", "US Marine Corps", "US Coast Guard", "Other Military", "Civilian"
  }

  /** The branch chain on lower-cased text, in the script's order. */
  function BranchOfText(b: string): (r: string)
    ensures r in BranchLabels - {"Civilian"}
  {
    if Contains(b, "air force") then "US Air Force"
    else if Contains(b, "navy") || Contains(b, "naval") then "US Navy"
    else if Contains(b, "army") then "US Army"
    else if Contains(b, "marine") then "US Marine Corps"
    else if Contains(b, "coast guard") then "US Coast Guard"
    else "Other Military"
  }

  /** `group_military_branches`: "Civilian" for a missing cell or "0"; otherwise the branch
      chain on the lower-cased text, which never gives "Civilian". */
  function GroupMilitaryBranches(branch: Cell): (r: string)
    ensures r in BranchLabels
    ensures r == "Civilian" <==> NullOrZero(branch)
    ensures !NullOrZero(branch) ==> r == BranchOfText(LowerText(branch))
  {
    if NullOrZero(branch) then "Civilian" else BranchOfText(LowerText(branch))
  }

  /** The same chain as a rule list. */
  const BranchRules: seq<Rule> := [
    Rule(["air force"], "US Air Force"),
    Rule(["navy", "naval"], "US Navy"),
    Rule(["army"], "US Army"),
    Rule(["marine"], "US Marine Corps"),
    Rule(["coast guard"], "US Coast Guard")
  ]

  /** The chain and the rule list agree on every text. */
  lemma BranchChainIsRules(b: string)
    ensures BranchOfText(b) == Classify(BranchRules, b, "Other Military")
  {
    var R := BranchRules;
    ContainsAnyOne(b, "air force");
    ContainsAnyTwo(b, "navy", "naval");
    ContainsAnyOne(b, "army");
    ContainsAnyOne(b, "marine");
    ContainsAnyOne(b, "coast guard");
    if ContainsAny(b, R[0].terms) {
      assert FirstHit(R, b, 0) == Some(0);
    } else {
      assert FirstHit(R, b, 0) == FirstHit(R, b, 1);
      if ContainsAny(b, R[1].terms) {
        assert FirstHit(R, b, 1) == Some(1);
      } else {
        assert FirstHit(R, b, 1) == FirstHit(R, b, 2);
        if ContainsAny(b, R[2].terms) {
          assert FirstHit(R, b, 2) == Some(2);
        } else {
          assert FirstHit(R, b, 2) == FirstHit(R, b, 3);
          if ContainsAny(b, R[3].terms) {
            assert FirstHit(R, b, 3) == Some(3);
          } else {
            assert FirstHit(R, b, 3) == FirstHit(R, b, 4);
            if ContainsAny(b, R[4].terms) {
              assert FirstHit(R, b, 4) == Some(4);
            } else {
              assert FirstHit(R, b, 4) == FirstHit(R, b, 5);
              assert FirstHit(R, b, 5) == None;
            }
          }
        }
      }
    }
  }

  /** Every term of the branch rules opens with a letter. */
  lemma BranchTermsAreWords()
    ensures LetterTerms(BranchRules)
  {
  }

  /** A number is no branch: it gives "Other Military", and only the text "0" gives
      "Civilian". */
  lemma NumberIsOtherMilitary(n: int)
    ensures GroupMilitaryBranches(Num(n)) == "Other Military"
  {
    NumberHasNoLetter(n);
    BranchTermsAreWords();
    NoLetterNoRule(BranchRules, LowerText(Num(n)), "Other Military");
    BranchChainIsRules(LowerText(Num(n)));
  }

  /** Air force is tested first: any text naming it is US Air Force, whatever else it names. */
  lemma AirForceFirst(b: string)
    requires Contains(b, "air force")
    ensures BranchOfText(b) == "US Air Force"
  {
  }

  /** The navy comes before the army, the marines and the coast guard. */
  lemma NavyBeforeOthers(b: string)
    requires Contains(b, "navy") || Contains(b, "naval")
    ensures BranchOfText(b) in {"US Air Force", "US Navy"}
  {
  }

  /** The army comes before the marines and the coast guard. */
  lemma ArmyBeforeMarinesAndCoastGuard(b: string)
    requires Contains(b, "army")
    ensures BranchOfText(b) in {"US Air Force", "US Navy", "US Army"}
  {
  }

  /** Text naming the navy but without an 'f' (so without "air force") is US Navy. */
  lemma NavyWhen(b: string)
    requires Contains(b, "navy") || Contains(b, "naval")
    requires 'f' !in b
    ensures BranchOfText(b) == "US Navy"
  {
    MissingChar(b, "air force", 'f');
  }

  /** Text naming the army, without an 'f' or an 'n', is US Army. */
  lemma ArmyWhen(b: string)
    requires Contains(b, "army")
    requires 'f' !in b && 'n' !in b
    ensures BranchOfText(b) == "US Army"
  {
    MissingChar(b, "air force", 'f');
    MissingChar(b, "navy", 'n');
    MissingChar(b, "naval", 'n');
  }

  /** Text naming the marines, without an 'f', a 'v' or a 'y', is US Marine Corps. */
  lemma MarineWhen(b: string)
    requires Contains(b, "marine")
    requires 'f' !in b && 'v' !in b && 'y' !in b
    ensures BranchOfText(b) == "US Marine Corps"
  {
    MissingChar(b, "air force", 'f');
    MissingChar(b, "navy", 'v');
    MissingChar(b, "naval", 'v');
    MissingChar(b, "army", 'y');
  }

  /** Text naming the coast guard, without an 'f', an 'n', a 'y' or an 'm', is US Coast
      Guard. */
  lemma CoastGuardWhen(b: string)
    requires Contains(b, "coast guard")
    requires 'f' !in b && 'n' !in b && 'y' !in b && 'm' !in b
    ensures BranchOfText(b) == "US Coast Guard"
  {
    MissingChar(b, "air force", 'f');
    MissingChar(b, "navy", 'n');
    MissingChar(b, "naval", 'n');
    MissingChar(b, "army", 'y');
    MissingChar(b, "marine", 'm');
  }

  /** Every branch term holds an 'a', so text without one is Other Military. */
  lemma NoAIsOtherMilitary(b: string)
    requires 'a' !in b
    ensures BranchOfText(b) == "Other Military"
  {
    MissingChar(b, "air force", 'a');
    MissingChar(b, "navy", 'a');
    MissingChar(b, "naval", 'a');
    MissingChar(b, "army", 'a');
    MissingChar(b, "marine", 'a');
    MissingChar(b, "coast guard", 'a');
  }

  /** "Air Force" is US Air Force. */
  lemma AirForceReached()
    ensures GroupMilitaryBranches(Str("Air Force")) == "US Air Force"
  {
    assert AsciiLower("Air Force") == "air force";
    assert StartsWith("air force", "air force");
  }

  /** "Navy" is US Navy. */
  lemma NavyReached()
    ensures GroupMilitaryBranches(Str("Navy")) == "US Navy"
  {
    assert AsciiLower("Navy") == "navy";
    assert StartsWith("navy", "navy");
    assert 'f' !in "navy";
    NavyWhen("navy");
  }

  /** "Army" is US Army. */
  lemma ArmyReached()
    ensures GroupMilitaryBranches(Str("Army")) == "US Army"
  {
    assert AsciiLower("Army") == "army";
    assert StartsWith("army", "army");
    assert 'f' !in "army" && 'n' !in "army";
    ArmyWhen("army");
  }

  /** "Marine Corps" is US Marine Corps. */
  lemma MarineReached()
    ensures GroupMilitaryBranches(Str("Marine Corps")) == "US Marine Corps"
  {
    assert AsciiLower("Marine Corps") == "marine corps";
    assert StartsWith("marine corps", "marine");
    assert 'f' !in "marine corps" && 'v' !in "marine corps" && 'y' !in "marine corps";
    MarineWhen("marine corps");
  }

  /** "Coast Guard" is US Coast Guard. */
  lemma CoastGuardReached()
    ensures GroupMilitaryBranches(Str("Coast Guard")) == "US Coast Guard"
  {
    assert AsciiLower("Coast Guard") == "coast guard";
    assert StartsWith("coast guard", "coast guard");
    assert 'f' !in "coast guard" && 'n' !in "coast guard" && 'y' !in "coast guard" && 'm' !in "coast guard";
    CoastGuardWhen("coast guard");
  }

  /** "Reserve" names no branch and is Other Military. */
  lemma ReserveIsOther()
    ensures GroupMilitaryBranches(Str("Reserve")) == "Other Military"
  {
    assert AsciiLower("Reserve") == "reserve";
    assert 'a' !in "reserve";
    NoAIsOtherMilitary("reserve");
  }

  /** Each of the seven labels is the result for some cell; with the contract of
      `GroupMilitaryBranches`, the labels are exactly these seven. */
  lemma BranchLabelsReached(l: string)
    requires l in BranchLabels
    ensures exists c :: GroupMilitaryBranches(c) == l
  {
    var c: Cell;
    if l == "Other Military" {
      ReserveIsOther();
      c := Str("Reserve");
      assert GroupMilitaryBranches(c) == l;
    } else if l == "US Air Force" {
      AirForceReached();
      c := Str("Air Force");
      assert GroupMilitaryBranches(c) == l;
    } else if l == "US Navy" {
      NavyReached();
      c := Str("Navy");
      assert GroupMilitaryBranches(c) == l;
    } else if l == "US Army" {
      ArmyReached();
      c := Str("Army");
      assert GroupMilitaryBranches(c) == l;
    } else if l == "US Marine Corps" {
      MarineReached();
      c := Str("Marine Corps");
      assert GroupMilitaryBranches(c) == l;
    } else if l == "US Coast Guard" {
      CoastGuardReached();
      c := Str("Coast Guard");
      assert GroupMilitaryBranches(c) == l;
    } else {
      c := Missing;
      assert GroupMilitaryBranches(c) == l;
    }
  }
}
