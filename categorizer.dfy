/**
 The consumer's offense categoriser: an offense text is upper-cased and
 tested against a fixed, ordered table of keyword rules; the first rule
 one of whose keywords occurs in the text gives the category.
 */
module Categorizer {
  import opened Wrappers
  import opened PyStr

  /** The eleven categories: ten named ones and the catch-all `Other`. */
  datatype Category =
    | ViolentCrime | Theft | VehicleCrime | Burglary | Robbery | PropertyCrime
    | DrugOffense | Weapons | Fraud | DomesticViolence | Other

  /** The label under which the consumer counts and plots a category. */
  function Label(c: Category): string {
    match c
    case ViolentCrime => "Violent Crime"
    case Theft => "Theft"
    case VehicleCrime => "Vehicle Crime"
    case Burglary => "Burglary"
    case Robbery => "Robbery"
    case PropertyCrime => "Property Crime"
    case DrugOffense => "Drug Offense"
    case Weapons => "Weapons"
    case Fraud => "Fraud"
    case DomesticViolence => "Domestic Violence"
    case Other => "Other"
  }

  /** Distinct categories are shown under distinct labels. */
  lemma LabelInjective(c: Category, d: Category)
    requires Label(c) == Label(d)
    ensures c == d
  {
  }

  datatype Rule = Rule(keywords: seq<string>, category: Category)

  const ViolentRule := Rule(["ASSAULT", "MURDER", "HOMICIDE", "RAPE", "SODOMY", "KIDNAP"], ViolentCrime)
  const TheftRule := Rule(["STEALING", "THEFT", "LARCENY", "SHOPLIFT", "PURSE SNATCH"], Theft)
  const VehicleRule := Rule(["VEHICLE", "AUTO", "STOLEN AUTO", "RECOVERED STOLEN AUTO"], VehicleCrime)
  const BurglaryRule := Rule(["BURGLARY", "BREAKING"], Burglary)
  const RobberyRule := Rule(["ROBBERY"], Robbery)
  const PropertyRule := Rule(["PROPERTY DAMAGE", "VANDAL", "ARSON", "TAMPERING"], PropertyCrime)
  const DrugRule := Rule(["DRUG", "NARCOTIC", "CONTROLLED SUBSTANCE"], DrugOffense)
  const WeaponsRule := Rule(["WEAPON", "FIREARM", "GUN"], Weapons)
  const FraudRule := Rule(["FRAUD", "EMBEZZLE", "FORGERY", "IDENTITY THEFT", "CREDIT"], Fraud)
  const DomesticRule := Rule(["DOMESTIC VIOLENCE"], DomesticViolence)

  /** The table of rules, in the order in which they are tried. */
  const Rules: seq<Rule> := [
    ViolentRule, TheftRule, VehicleRule, BurglaryRule, RobberyRule,
    PropertyRule, DrugRule, WeaponsRule, FraudRule, DomesticRule
  ]

  /** `any(word in text for word in rule.keywords)`. */
  predicate Matches(text: string, rule: Rule) {
    exists k :: 0 <= k < |rule.keywords| && Contains(text, rule.keywords[k])
  }

  /** The position of the first rule that matches, or `|rules|` when none does. */
  function FirstMatchIndex(text: string, rules: seq<Rule>): (k: nat)
    ensures k <= |rules|
    ensures k < |rules| ==> Matches(text, rules[k])
    ensures forall j :: 0 <= j < k ==> !Matches(text, rules[j])
  {
    if rules == [] then 0
    else if Matches(text, rules[0]) then 0
    else 1 + FirstMatchIndex(text, rules[1..])
  }

  /** `categorize_crime(offense)`, with `None` for Python's `None`. */
  function Categorize(offense: Option<string>): (c: Category)
    ensures offense == None || offense == Some("") ==> c == Other
  {
    match offense
    case None => Other
    case Some(s) =>
      if s == "" then Other
      else
        var k := FirstMatchIndex(ToUpper(s), Rules);
        if k < |Rules| then Rules[k].category else Other
  }

  /* ---------- facts about the table ---------- */

  /** No rule is labelled `Other`, and each named category has exactly one rule. */
  lemma RuleLabels()
    ensures forall j :: 0 <= j < |Rules| ==> Rules[j].category != Other
    ensures forall i, j :: 0 <= i < j < |Rules| ==> Rules[i].category != Rules[j].category
  {
  }

  /** No keyword is empty, so only a non-empty text can match a rule. */
  lemma MatchedTextNonEmpty(text: string, j: nat)
    requires j < |Rules| && Matches(text, Rules[j])
    ensures text != ""
  {
    var k :| 0 <= k < |Rules[j].keywords| && Contains(text, Rules[j].keywords[k]);
    ContainsLength(text, Rules[j].keywords[k]);
  }

  /* ---------- first match wins ---------- */

  /**
   For a non-empty offense, the result is the label of rule `k` exactly when
   rule `k` matches the upper-cased text and no earlier rule does.
   */
  lemma FirstMatchWins(s: string, k: nat)
    requires k < |Rules|
    ensures Categorize(Some(s)) == Rules[k].category <==>
              Matches(ToUpper(s), Rules[k]) && forall j :: 0 <= j < k ==> !Matches(ToUpper(s), Rules[j])
  {
    RuleLabels();
    var u := ToUpper(s);
    if s == "" {
      if Matches(u, Rules[k]) {
        MatchedTextNonEmpty(u, k);
        assert false;
      }
    } else {
      var m := FirstMatchIndex(u, Rules);
      if Matches(u, Rules[k]) && forall j :: 0 <= j < k ==> !Matches(u, Rules[j]) {
        assert m == k;
      }
    }
  }

  /** An offense text is `Other` exactly when it contains no keyword of any rule. */
  lemma OtherIffNoKeyword(s: string)
    ensures Categorize(Some(s)) == Other <==>
              forall j, k :: 0 <= j < |Rules| && 0 <= k < |Rules[j].keywords| ==> !Contains(ToUpper(s), Rules[j].keywords[k])
  {
    RuleLabels();
    var u := ToUpper(s);
    if s == "" {
      forall j | 0 <= j < |Rules|
        ensures !Matches(u, Rules[j])
      {
        if Matches(u, Rules[j]) {
          MatchedTextNonEmpty(u, j);
          assert false;
        }
      }
    } else {
      var m := FirstMatchIndex(u, Rules);
      if m < |Rules| {
        var k :| 0 <= k < |Rules[m].keywords| && Contains(u, Rules[m].keywords[k]);
      }
    }
  }

  /** Matching is done on the upper-cased text, so case does not matter. */
  lemma CaseInsensitive(s: string)
    ensures Categorize(Some(s)) == Categorize(Some(ToUpper(s)))
  {
    ToUpperIdempotent(s);
  }

  /* ---------- consequences of the order ---------- */

  /** Any offense whose upper-cased text holds a violent keyword is a violent crime, whatever else it holds. */
  lemma ViolentKeywordWins(s: string, k: nat)
    requires k < |Rules[0].keywords| && Contains(ToUpper(s), Rules[0].keywords[k])
    ensures Categorize(Some(s)) == ViolentCrime
  {
    assert s != "";
  }

  /** In particular, an offense containing "ASSAULT" in any case is a violent crime. */
  lemma AssaultIsViolent(s: string)
    requires Contains(ToUpper(s), "ASSAULT")
    ensures Categorize(Some(s)) == ViolentCrime
  {
    ViolentKeywordWins(s, 0);
  }

  /** "THEFT" without a violent keyword is always a theft, so the theft rule shadows every later rule. */
  lemma TheftKeywordWins(s: string)
    requires Contains(ToUpper(s), "THEFT") && !Matches(ToUpper(s), Rules[0])
    ensures Categorize(Some(s)) == Theft
  {
    assert Matches(ToUpper(s), Rules[1]) by { assert Rules[1].keywords[1] == "THEFT"; }
    FirstMatchWins(s, 1);
  }

  /** "IDENTITY THEFT" never yields `Fraud`: the theft rule, or the violent one, is reached first. */
  lemma IdentityTheftNeverFraud(s: string)
    requires Contains(ToUpper(s), "IDENTITY THEFT")
    ensures Categorize(Some(s)) in {ViolentCrime, Theft}
  {
    ContainsAt("IDENTITY THEFT", "THEFT", 9);
    ContainsTransitive(ToUpper(s), "IDENTITY THEFT", "THEFT");
    if Matches(ToUpper(s), Rules[0]) {
      var k :| 0 <= k < |Rules[0].keywords| && Contains(ToUpper(s), Rules[0].keywords[k]);
      ViolentKeywordWins(s, k);
    } else {
      TheftKeywordWins(s);
    }
  }

  /** A text the theft rule matches, and no violent keyword, is a theft, whatever later rules match. */
  lemma TheftRuleWins(s: string)
    requires Matches(ToUpper(s), Rules[1]) && !Matches(ToUpper(s), Rules[0])
    ensures Categorize(Some(s)) == Theft
  {
    FirstMatchWins(s, 1);
  }

  /** A text that both the theft rule and the vehicle rule match, and no violent keyword, is a theft. */
  lemma TheftBeforeVehicle(s: string)
    requires Matches(ToUpper(s), Rules[1]) && Matches(ToUpper(s), Rules[2]) && !Matches(ToUpper(s), Rules[0])
    ensures Categorize(Some(s)) == Theft
  {
    TheftRuleWins(s);
  }

  /** A text containing the upper-case word "ASSAULT" is a violent crime; for other cases see `AssaultIsViolent`. */
  lemma AssaultAnyCase(s: string)
    requires Contains(s, "ASSAULT")
    ensures Categorize(Some(s)) == ViolentCrime
  {
    ContainsUpper(s, "ASSAULT");
    AssaultIsViolent(s);
  }

  /** "DOMESTIC VIOLENCE ASSAULT" is a violent crime, not domestic violence. */
  lemma DomesticViolenceAssault()
    ensures Categorize(Some("DOMESTIC VIOLENCE ASSAULT")) == ViolentCrime
  {
    assert "DOMESTIC VIOLENCE ASSAULT" == "DOMESTIC VIOLENCE " + "ASSAULT";
    ContainsSuffix("DOMESTIC VIOLENCE ", "ASSAULT");
    AssaultAnyCase("DOMESTIC VIOLENCE ASSAULT");
  }

  /** The letters of "UNKNOWN". */
  predicate InUnknown(c: char) {
    c == 'U' || c == 'N' || c == 'K' || c == 'O' || c == 'W'
  }

  /** A rule each of whose keywords has one of its first two letters outside "UNKNOWN" does not match it. */
  lemma MissesUnknown(r: Rule)
    requires forall k :: 0 <= k < |r.keywords| ==>
               2 <= |r.keywords[k]| && (!InUnknown(r.keywords[k][0]) || !InUnknown(r.keywords[k][1]))
    ensures !Matches("UNKNOWN", r)
  {
    var u := "UNKNOWN";
    assert forall i :: 0 <= i < |u| ==> InUnknown(u[i]);
    forall k | 0 <= k < |r.keywords|
      ensures !Contains(u, r.keywords[k])
    {
      var w := r.keywords[k];
      var c := if !InUnknown(w[0]) then w[0] else w[1];
      AbsentChar(u, w, c);
    }
  }

  /** No rule matches "UNKNOWN". */
  lemma UnknownMissesEveryRule()
    ensures && !Matches("UNKNOWN", ViolentRule) && !Matches("UNKNOWN", TheftRule)
            && !Matches("UNKNOWN", VehicleRule) && !Matches("UNKNOWN", BurglaryRule)
            && !Matches("UNKNOWN", RobberyRule) && !Matches("UNKNOWN", PropertyRule)
            && !Matches("UNKNOWN", DrugRule) && !Matches("UNKNOWN", WeaponsRule)
            && !Matches("UNKNOWN", FraudRule) && !Matches("UNKNOWN", DomesticRule)
  {
    MissesUnknown(ViolentRule);
    MissesUnknown(TheftRule);
    MissesUnknown(VehicleRule);
    MissesUnknown(BurglaryRule);
    MissesUnknown(RobberyRule);
    MissesUnknown(PropertyRule);
    MissesUnknown(DrugRule);
    MissesUnknown(WeaponsRule);
    MissesUnknown(FraudRule);
    MissesUnknown(DomesticRule);
  }

  /** "Unknown", the consumer's stand-in for a missing offense, matches no rule. */
  lemma UnknownIsOther()
    ensures Categorize(Some("Unknown")) == Other
  {
    assert ToUpper("Unknown") == "UNKNOWN";
    UnknownMissesEveryRule();
    assert forall j :: 0 <= j < |Rules| ==> !Matches("UNKNOWN", Rules[j]);
  }
}
