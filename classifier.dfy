/** `determineCategory` (app/api/events/route.ts): an ordered list of keyword rules tested
    by substring against the lower-cased description, first match wins, with a century
    label computed from the year when no rule fires. */
module Classifier {

  import opened Wrappers
  import opened Text
  import Numbers

  const MilitaryLabel := "Military & War"
  const ScienceLabel := "Science & Technology"
  const PoliticsLabel := "Politics & Leadership"
  const ArtsLabel := "Arts & Culture"

  const MilitaryKeywords: seq<string> := ["war", "battle", "military"]
  const ScienceKeywords: seq<string> := ["invention", "discovery", "science"]
  const PoliticsKeywords: seq<string> := ["president", "king", "government"]
  const ArtsKeywords: seq<string> := ["art", "music", "literature"]

  const CenturySuffix := "th Century"

  /** Some keyword occurs in the (already lower-cased) text. */
  predicate MentionsAny(lowered: string, keywords: seq<string>)
  {
    exists k <- keywords :: Contains(lowered, k)
  }

  /** `Math.floor(year/100 + 1)`: the century counted so that years 0..99 are century 1. */
  function CenturyNumber(year: int): (c: int)
    ensures 100 * (c - 1) <= year < 100 * c
  {
    year / 100 + 1
  }

  /** The fallback label: the century number, then always the suffix "th Century". */
  function CenturyLabel(year: int): (r: string)
    ensures |r| > |CenturySuffix| && r[|r| - |CenturySuffix|..] == CenturySuffix
  {
    var digits := Numbers.IntToString(CenturyNumber(year));
    assert (digits + CenturySuffix)[|digits|..] == CenturySuffix;
    digits + CenturySuffix
  }

  /** parseInt reads the century number back from the label: the suffix starts with a
      letter, so it stops the digits. */
  lemma CenturyLabelReadsBack(year: int)
    ensures Numbers.ParseInt(CenturyLabel(year)) == Some(CenturyNumber(year))
  {
    Numbers.ParseIntAfterToString(CenturyNumber(year), CenturySuffix);
  }

  /** determineCategory(event, year). */
  function Classify(event: string, year: int): (r: string)
    ensures |r| > 0
  {
    var lowered := Lower(event);
    if MentionsAny(lowered, MilitaryKeywords) then MilitaryLabel
    else if MentionsAny(lowered, ScienceKeywords) then ScienceLabel
    else if MentionsAny(lowered, PoliticsKeywords) then PoliticsLabel
    else if MentionsAny(lowered, ArtsKeywords) then ArtsLabel
    else CenturyLabel(year)
  }

  // ---------------------------------------------------------------------------
  // A reference reading of the classifier: a table of rules and a first-match search.

  datatype Rule = Rule(keywords: seq<string>, category: string)

  const Rules: seq<Rule> := [
    Rule(MilitaryKeywords, MilitaryLabel),
    Rule(ScienceKeywords, ScienceLabel),
    Rule(PoliticsKeywords, PoliticsLabel),
    Rule(ArtsKeywords, ArtsLabel)
  ]

  predicate Fires(rule: Rule, lowered: string)
  {
    MentionsAny(lowered, rule.keywords)
  }

  /** The index of the first rule that fires, or |rules| when none does. */
  function FirstFiring(rules: seq<Rule>, lowered: string): (r: nat)
    ensures r <= |rules|
    ensures forall j :: 0 <= j < r ==> !Fires(rules[j], lowered)
    ensures r < |rules| ==> Fires(rules[r], lowered)
  {
    if rules == [] then 0
    else if Fires(rules[0], lowered) then 0
    else 1 + FirstFiring(rules[1..], lowered)
  }

  /** The classification the rule table gives: the first firing rule's category, or the
      century label when no rule fires. */
  function ByTable(lowered: string, year: int): string
  {
    var r := FirstFiring(Rules, lowered);
    if r < |Rules| then Rules[r].category else CenturyLabel(year)
  }

  /** No rule label ends in "th Century". */
  lemma SuffixedIsNoRuleLabel(r: string, i: int)
    requires |r| > |CenturySuffix| && r[|r| - |CenturySuffix|..] == CenturySuffix
    requires 0 <= i < |Rules|
    ensures r != Rules[i].category
  {
    var tail := r[|r| - |CenturySuffix|..];
    assert r[|r| - 2..] == tail[8..] == "ry";
    var l := Rules[i].category;
    assert l[|l| - 2..] != "ry";
  }

  /** The century label is never one of the rule labels. */
  lemma CenturyLabelIsNoRuleLabel(year: int, i: int)
    requires 0 <= i < |Rules|
    ensures CenturyLabel(year) != Rules[i].category
  {
    SuffixedIsNoRuleLabel(CenturyLabel(year), i);
  }

  /** The if-chain of determineCategory and the rule table agree on every text and year. */
  lemma ClassifyIsByTable(event: string, year: int)
    ensures Classify(event, year) == ByTable(Lower(event), year)
  {
    var lowered := Lower(event);
    var r := FirstFiring(Rules, lowered);
    assert Fires(Rules[0], lowered) == MentionsAny(lowered, MilitaryKeywords);
    assert Fires(Rules[1], lowered) == MentionsAny(lowered, ScienceKeywords);
    assert Fires(Rules[2], lowered) == MentionsAny(lowered, PoliticsKeywords);
    assert Fires(Rules[3], lowered) == MentionsAny(lowered, ArtsKeywords);
  }

  /** Rule i's category is the result exactly when rule i fires and no earlier rule does.
      Rule 0 ("war", "battle", "military") therefore wins whatever else the text mentions. */
  lemma ClassifiedAs(event: string, year: int, i: int)
    requires 0 <= i < |Rules|
    ensures Classify(event, year) == Rules[i].category
        <==> Fires(Rules[i], Lower(event)) && forall j :: 0 <= j < i ==> !Fires(Rules[j], Lower(event))
  {
    var lowered := Lower(event);
    var r := FirstFiring(Rules, lowered);
    ClassifyIsByTable(event, year);
    CenturyLabelIsNoRuleLabel(year, i);
    if Classify(event, year) == Rules[i].category {
      assert r < |Rules|;
      assert Rules[r].category == Rules[i].category;
      assert r == i;
    }
    if Fires(Rules[i], lowered) && forall j :: 0 <= j < i ==> !Fires(Rules[j], lowered) {
      assert r == i;
    }
  }

  /** A text that trips no rule gets the century label, and only such a text does. */
  lemma ClassifiedByCentury(event: string, year: int)
    ensures Classify(event, year) == CenturyLabel(year)
        <==> forall j :: 0 <= j < |Rules| ==> !Fires(Rules[j], Lower(event))
  {
    var r := FirstFiring(Rules, Lower(event));
    ClassifyIsByTable(event, year);
    if r < |Rules| {
      CenturyLabelIsNoRuleLabel(year, r);
    }
  }

  /** The result is one of the four labels or the century label of the year. */
  lemma ClassifyRange(event: string, year: int)
    ensures var r := Classify(event, year);
      r in [MilitaryLabel, ScienceLabel, PoliticsLabel, ArtsLabel] || r == CenturyLabel(year)
  {
  }

  /** Classification ignores case: a text and its lower-cased form get the same label. */
  lemma ClassifyIgnoresCase(event: string, year: int)
    ensures Classify(event, year) == Classify(Lower(event), year)
  {
    LowerIdempotent(event);
  }

  // ---------------------------------------------------------------------------
  // Worked examples. Matching is by substring, not by word, and the century label has no
  // ordinal other than "th".

  /** A capitalised word whose other letters are lower-case folds to lower case. */
  lemma LowerCapitalised(text: string, rest: string)
    requires |text| > 0 && IsUpper(text[0]) && text[1..] == rest
    requires forall i :: 0 <= i < |rest| ==> !IsUpper(rest[i])
    ensures Lower(text) == [LowerChar(text[0])] + rest
  {
    assert text == [text[0]] + rest;
    LowerConcat([text[0]], rest);
    LowerWithoutUpper(rest);
  }

  /** "War and art" mentions rules 0 and 3; rule 0 wins. */
  lemma WarBeforeArt(text: string, year: int)
    requires text == "War and art"
    ensures Classify(text, year) == MilitaryLabel
  {
    LowerCapitalised(text, "ar and art");
    ContainsAt(Lower(text), "war", 0);
  }

  /** "award" contains "war". */
  lemma AwardIsMilitary(text: string, year: int)
    requires text == "Award"
    ensures Classify(text, year) == MilitaryLabel
  {
    LowerCapitalised(text, "ward");
    ContainsAt(Lower(text), "war", 1);
  }

  lemma ShoemakingFacts(s: string)
    requires s == "shoemaking"
    ensures !MentionsAny(s, MilitaryKeywords) && !MentionsAny(s, ScienceKeywords)
    ensures MentionsAny(s, PoliticsKeywords)
  {
    MissingChar(s, "war", 0);
    MissingChar(s, "battle", 0);
    MissingChar(s, "military", 2);
    MissingChar(s, "invention", 2);
    MissingChar(s, "discovery", 0);
    MissingChar(s, "science", 1);
    ContainsAt(s, "king", 6);
  }

  /** "shoemaking" contains "king". */
  lemma ShoemakingIsPolitics(text: string, year: int)
    requires text == "Shoemaking"
    ensures Classify(text, year) == PoliticsLabel
  {
    LowerCapitalised(text, "hoemaking");
    ShoemakingFacts(Lower(text));
  }

  lemma TeaPartyFacts(s: string)
    requires s == "tea party"
    ensures !MentionsAny(s, MilitaryKeywords) && !MentionsAny(s, ScienceKeywords)
    ensures !MentionsAny(s, PoliticsKeywords) && MentionsAny(s, ArtsKeywords)
  {
    MissingChar(s, "war", 0);
    MissingChar(s, "battle", 0);
    MissingChar(s, "military", 0);
    MissingChar(s, "invention", 0);
    MissingChar(s, "discovery", 0);
    MissingChar(s, "science", 1);
    MissingChar(s, "president", 4);
    MissingChar(s, "king", 0);
    MissingChar(s, "government", 0);
    ContainsAt(s, "art", 5);
  }

  /** "party" contains "art". */
  lemma TeaPartyIsArts(text: string, year: int)
    requires text == "Tea party"
    ensures Classify(text, year) == ArtsLabel
  {
    LowerCapitalised(text, "ea party");
    TeaPartyFacts(Lower(text));
  }

  lemma RomeBurnsFacts(s: string)
    requires s == "rome burns"
    ensures forall j :: 0 <= j < |Rules| ==> !Fires(Rules[j], s)
  {
    MissingChar(s, "war", 0);
    MissingChar(s, "battle", 1);
    MissingChar(s, "military", 1);
    MissingChar(s, "invention", 0);
    MissingChar(s, "discovery", 0);
    MissingChar(s, "science", 1);
    MissingChar(s, "president", 0);
    MissingChar(s, "king", 0);
    MissingChar(s, "government", 0);
    MissingChar(s, "art", 0);
    MissingChar(s, "music", 3);
    MissingChar(s, "literature", 1);
  }

  /** No keyword: the century label, here of the year 64. */
  lemma RomeBurnsInFirstCentury(text: string)
    requires text == "Rome burns"
    ensures Classify(text, 64) == "1th Century"
  {
    LowerCapitalised(text, "ome burns");
    RomeBurnsFacts(Lower(text));
    ClassifiedByCentury(text, 64);
    assert Numbers.NatToString(1) == "1";
  }

  /** The label is the century number as `${n}` prints it with the suffix appended. */
  lemma CenturyLabelOf(year: int, digits: string)
    requires Numbers.IntToString(CenturyNumber(year)) == digits
    ensures CenturyLabel(year) == digits + CenturySuffix
  {
  }

  /** 1776 is in the "18th Century". */
  lemma CenturyLabelOf1776()
    ensures CenturyLabel(1776) == "18th Century"
  {
    assert Numbers.NatToString(1) == "1";
    assert Numbers.IntToString(18) == "18";
    CenturyLabelOf(1776, "18");
  }

  /** 1800 already counts as the 19th century. */
  lemma CenturyLabelOf1800()
    ensures CenturyLabel(1800) == "19th Century"
  {
    assert Numbers.NatToString(1) == "1";
    assert Numbers.IntToString(19) == "19";
    CenturyLabelOf(1800, "19");
  }

  /** The suffix is always "th": 2001 gives "21th Century". */
  lemma CenturyLabelOf2001()
    ensures CenturyLabel(2001) == "21th Century"
  {
    assert Numbers.NatToString(2) == "2";
    assert Numbers.IntToString(21) == "21";
    CenturyLabelOf(2001, "21");
  }

  /** Years -99..-1 fall in century 0. */
  lemma CenturyLabelOfMinus44()
    ensures CenturyLabel(-44) == "0th Century"
  {
    assert Numbers.IntToString(0) == "0";
    CenturyLabelOf(-44, "0");
  }

  /** Below year -99 the century number turns negative. */
  lemma CenturyLabelOfMinus150()
    ensures CenturyLabel(-150) == "-1th Century"
  {
    assert CenturyNumber(-150) == -1;
    assert Numbers.IntToString(-1) == "-1";
    CenturyLabelOf(-150, "-1");
  }

  // ---------------------------------------------------------------------------
  // A text that mentions no keyword at all.

  /** Every keyword of the four rules. */
  const Keywords: seq<string> := MilitaryKeywords + ScienceKeywords + PoliticsKeywords + ArtsKeywords

  /** No keyword occurs in the lower-cased text. */
  predicate Quiet(lowered: string)
  {
    forall k <- Keywords :: !Contains(lowered, k)
  }

  /** A text in which no keyword occurs gets the century label. */
  lemma QuietIsCentury(event: string, year: int)
    requires Quiet(Lower(event))
    ensures Classify(event, year) == CenturyLabel(year)
  {
  }

  lemma KeywordsHaveNoSpace()
    ensures forall k <- Keywords :: ' ' !in k
  {
  }

  /** Pieces without keywords, joined at spaces, make a text without keywords: no keyword
      holds a space, so none straddles a seam. */
  lemma {:induction false} QuietPieces(ws: seq<string>)
    requires forall i :: 0 <= i < |ws| ==> Quiet(ws[i])
    requires forall i :: 1 <= i < |ws| ==> |ws[i]| > 0 && ws[i][0] == ' '
    ensures Quiet(Concat(ws))
  {
    if |ws| == 1 {
      assert ws[1..] == [];
      assert Concat(ws) == ws[0] + Concat([]) == ws[0];
    } else if |ws| > 1 {
      QuietPieces(ws[1..]);
      KeywordsHaveNoSpace();
      var rest := Concat(ws[1..]);
      assert rest == ws[1] + Concat(ws[2..]);
      assert rest[0] == ' ';
      forall k <- Keywords
        ensures !Contains(Concat(ws), k)
      {
        NotAcrossSeam(ws[0], rest, k);
      }
    }
  }

  // ---------------------------------------------------------------------------
  // Scaffolding for the example DeclarationIsUnclassified below: one small lemma per word
  // of its sentence (the keywords the word lacks, then its lower-cased form), so that the
  // solver meets each short literal on its own instead of the whole sentence at once.

  /** Each word of the example, lower-cased, and the keywords it lacks. "declaration" has
      'a', 'r' and 't' but never "art" in a row. */
  lemma QuietDeclaration(p: string)
    requires p == "declaration"
    ensures Quiet(p)
  {
    MissingChar(p, "war", 0);
    MissingChar(p, "battle", 0);
    MissingChar(p, "military", 0);
    MissingChar(p, "invention", 2);
    MissingChar(p, "discovery", 5);
    MissingChar(p, "science", 0);
    MissingChar(p, "president", 0);
    MissingChar(p, "king", 0);
    MissingChar(p, "government", 0);
    MissingChar(p, "music", 0);
    MissingChar(p, "literature", 7);
    DeclarationLacksArt(p);
  }

  lemma DeclarationLacksArt(p: string)
    requires p == "declaration"
    ensures !Contains(p, "art")
  {
    forall i | 0 <= i <= |p| - 3
      ensures !OccursAt(p, "art", i)
    {
      if i == 4 {
        assert p[i..i + 3][2] != 't';
      } else if i == 6 {
        assert p[i..i + 3][1] != 'r';
      } else {
        assert p[i] != 'a';
        assert p[i..i + 3][0] == p[i];
      }
    }
  }

  /** " of", " is" and " by" lack both 'w' and 'a'; every other keyword is longer. */
  lemma QuietShortWord(p: string)
    requires p == " of" || p == " is" || p == " by"
    ensures Quiet(p)
  {
    MissingChar(p, "war", 0);
    MissingChar(p, "art", 0);
  }

  lemma QuietIndependence(p: string)
    requires p == " independence"
    ensures Quiet(p)
  {
    MissingChar(p, "war", 0);
    MissingChar(p, "battle", 0);
    MissingChar(p, "military", 0);
    MissingChar(p, "invention", 2);
    MissingChar(p, "discovery", 2);
    MissingChar(p, "science", 0);
    MissingChar(p, "president", 1);
    MissingChar(p, "king", 0);
    MissingChar(p, "government", 0);
    MissingChar(p, "art", 0);
    MissingChar(p, "music", 0);
    MissingChar(p, "literature", 0);
  }

  lemma QuietAdopted(p: string)
    requires p == " adopted"
    ensures Quiet(p)
  {
    MissingChar(p, "war", 0);
    MissingChar(p, "battle", 0);
    MissingChar(p, "military", 0);
    MissingChar(p, "science", 0);
    MissingChar(p, "king", 0);
    MissingChar(p, "art", 1);
    MissingChar(p, "music", 0);
  }

  lemma QuietThe(p: string)
    requires p == " the"
    ensures Quiet(p)
  {
    MissingChar(p, "war", 0);
    MissingChar(p, "king", 0);
    MissingChar(p, "art", 0);
  }

  lemma QuietUnited(p: string)
    requires p == " united"
    ensures Quiet(p)
  {
    MissingChar(p, "war", 0);
    MissingChar(p, "battle", 0);
    MissingChar(p, "science", 0);
    MissingChar(p, "king", 0);
    MissingChar(p, "art", 0);
    MissingChar(p, "music", 0);
  }

  lemma QuietStates(p: string)
    requires p == " states"
    ensures Quiet(p)
  {
    MissingChar(p, "war", 0);
    MissingChar(p, "battle", 0);
    MissingChar(p, "science", 1);
    MissingChar(p, "king", 0);
    MissingChar(p, "art", 1);
    MissingChar(p, "music", 0);
  }

  /** The example's words, lower-cased one by one. */
  lemma LowerDeclaration(w: string)
    requires w == "Declaration"
    ensures Lower(w) == "declaration"
  {
  }

  lemma LowerOf(w: string)
    requires w == " of"
    ensures Lower(w) == " of"
  {
  }

  lemma LowerIndependence(w: string)
    requires w == " Independence"
    ensures Lower(w) == " independence"
  {
  }

  lemma LowerIs(w: string)
    requires w == " is"
    ensures Lower(w) == " is"
  {
  }

  lemma LowerAdopted(w: string)
    requires w == " adopted"
    ensures Lower(w) == " adopted"
  {
  }

  lemma LowerBy(w: string)
    requires w == " by"
    ensures Lower(w) == " by"
  {
  }

  lemma LowerThe(w: string)
    requires w == " the"
    ensures Lower(w) == " the"
  {
  }

  lemma LowerUnited(w: string)
    requires w == " United"
    ensures Lower(w) == " united"
  {
  }

  lemma LowerStates(w: string)
    requires w == " States"
    ensures Lower(w) == " states"
  {
  }

  lemma DeclarationLowered(words: seq<string>, lowered: seq<string>)
    requires words == ["Declaration", " of", " Independence", " is", " adopted", " by", " the", " United", " States"]
    requires lowered == ["declaration", " of", " independence", " is", " adopted", " by", " the", " united", " states"]
    ensures Lower(Concat(words)) == Concat(lowered)
  {
    LowerConcatAll(words);
    LowerDeclaration(words[0]);
    LowerOf(words[1]);
    LowerIndependence(words[2]);
    LowerIs(words[3]);
    LowerAdopted(words[4]);
    LowerBy(words[5]);
    LowerThe(words[6]);
    LowerUnited(words[7]);
    LowerStates(words[8]);
    assert seq(|words|, i requires 0 <= i < |words| => Lower(words[i])) == lowered;
  }

  /** No keyword occurs in the lower-cased example. */
  lemma DeclarationQuiet(lowered: seq<string>)
    requires lowered == ["declaration", " of", " independence", " is", " adopted", " by", " the", " united", " states"]
    ensures Quiet(Concat(lowered))
  {
    QuietDeclaration(lowered[0]);
    QuietShortWord(lowered[1]);
    QuietIndependence(lowered[2]);
    QuietShortWord(lowered[3]);
    QuietAdopted(lowered[4]);
    QuietShortWord(lowered[5]);
    QuietThe(lowered[6]);
    QuietUnited(lowered[7]);
    QuietStates(lowered[8]);
    QuietPieces(lowered);
  }

  /** "Declaration of Independence is adopted by the United States" mentions no keyword,
      so the year 1776 gives it the label "18th Century", not "Politics & Leadership". */
  lemma DeclarationIsUnclassified(words: seq<string>)
    requires words == ["Declaration", " of", " Independence", " is", " adopted", " by", " the", " United", " States"]
    ensures Classify(Concat(words), 1776) == "18th Century"
  {
    var lowered := ["declaration", " of", " independence", " is", " adopted", " by", " the", " united", " states"];
    DeclarationLowered(words, lowered);
    DeclarationQuiet(lowered);
    QuietIsCentury(Concat(words), 1776);
    CenturyLabelOf1776();
  }
}
