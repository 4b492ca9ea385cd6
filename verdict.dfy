/**
 * The decision block of `verify_ekyc` (app.py:92-118). The `if`/`elif`/`else`
 * chain is read as an ordered list of rules, the first rule that applies
 * deciding the verdict.
 */
module Verdict {
  import opened Wrappers
  import opened Text
  import opened Search
  import opened Matcher

  /** One branch of the chain: its guard, its pass test, and its reason when the test fails. */
  datatype Rule = Rule(applies: bool, passes: bool, failReason: string)

  predicate Applies(rule: Rule) {
    rule.applies
  }

  /** The locals `verified` and `reason` after the decision block. */
  datatype Decision = Decision(verified: bool, reason: string)

  /**
   * A decision list: the first rule that applies decides. Before any rule
   * applies, `verified` and `reason` hold their initial values False and "".
   */
  function RunRules(rules: seq<Rule>): (d: Decision)
    ensures d.verified ==> d.reason == ""
    ensures (forall k :: 0 <= k < |rules| ==> rules[k].passes || rules[k].failReason != "")
            ==> (d.reason == "" <==> d.verified || forall k :: 0 <= k < |rules| ==> !rules[k].applies)
  {
    match FirstIndex(rules, Applies)
    case None => Decision(false, "")
    case Some(i) => if rules[i].passes then Decision(true, "") else Decision(false, rules[i].failReason)
  }

  /** The first applicable rule decides, and the rules after it are never looked at. */
  lemma FirstApplicableRuleDecides(rules: seq<Rule>, i: nat, rest: seq<Rule>)
    requires i < |rules| && rules[i].applies
    requires forall j :: 0 <= j < i ==> !rules[j].applies
    ensures RunRules(rules) == if rules[i].passes then Decision(true, "")
                              else Decision(false, rules[i].failReason)
    ensures RunRules(rules[..i + 1] + rest) == RunRules(rules)
  {
    FirstIndexIs(rules, Applies, i);
    var t := rules[..i + 1] + rest;
    assert forall j :: 0 <= j <= i ==> t[j] == rules[j];
    FirstIndexIs(t, Applies, i);
  }

  /** `f"name_mismatch (score={name_score})"`; `showScore` stands for Python's float formatting. */
  function NameMismatchReason(score: real, showScore: real -> string): (reason: string)
    ensures reason != "" && reason != Last4MismatchReason
    ensures |reason| >= 22 && reason[..21] == "name_mismatch (score="
    ensures reason[21..|reason| - 1] == showScore(score) && reason[|reason| - 1] == ')'
  {
    "name_mismatch (score=" + showScore(score) + ")"
  }

  const Last4MismatchReason: string := "last4_mismatch"

  /** The three branches of app.py:104-116, in source order. */
  function EkycRules(expectedName: Option<string>, expectedLast4: Option<string>, nameScore: Score,
                     last4Ok: bool, threshold: real, showScore: real -> string): (rules: seq<Rule>)
    // the final `else` always applies, and every branch that can fail gives a reason
    ensures rules != [] && rules[|rules| - 1].applies && rules[|rules| - 1].passes
    ensures forall k :: 0 <= k < |rules| ==> rules[k].passes || rules[k].failReason != ""
  {
    [ Rule(Truthy(expectedName), nameScore >= threshold, NameMismatchReason(nameScore, showScore)),
      Rule(Truthy(expectedLast4), last4Ok, Last4MismatchReason),
      Rule(true, true, "") ]
  }

  /**
   * With an expected name, the name score alone decides: the last-digits
   * hint and its check are not consulted.
   */
  lemma NameRuleTakesPrecedence(expectedName: Option<string>, expectedLast4: Option<string>,
                                otherLast4: Option<string>, nameScore: Score, last4Ok: bool,
                                otherOk: bool, threshold: real, showScore: real -> string)
    requires Truthy(expectedName)
    ensures RunRules(EkycRules(expectedName, expectedLast4, nameScore, last4Ok, threshold, showScore))
            == if nameScore >= threshold then Decision(true, "")
               else Decision(false, NameMismatchReason(nameScore, showScore))
    ensures RunRules(EkycRules(expectedName, expectedLast4, nameScore, last4Ok, threshold, showScore))
            == RunRules(EkycRules(expectedName, otherLast4, nameScore, otherOk, threshold, showScore))
  {
    FirstApplicableRuleDecides(EkycRules(expectedName, expectedLast4, nameScore, last4Ok, threshold, showScore), 0, []);
    FirstApplicableRuleDecides(EkycRules(expectedName, otherLast4, nameScore, otherOk, threshold, showScore), 0, []);
  }

  /**
   * Without an expected name but with expected digits, the digit check alone
   * decides; the name score and the threshold are not consulted.
   */
  lemma Last4RuleWithoutName(expectedName: Option<string>, expectedLast4: Option<string>,
                             nameScore: Score, otherScore: Score, last4Ok: bool,
                             threshold: real, otherThreshold: real, showScore: real -> string)
    requires !Truthy(expectedName) && Truthy(expectedLast4)
    ensures RunRules(EkycRules(expectedName, expectedLast4, nameScore, last4Ok, threshold, showScore))
            == if last4Ok then Decision(true, "") else Decision(false, Last4MismatchReason)
    ensures RunRules(EkycRules(expectedName, expectedLast4, nameScore, last4Ok, threshold, showScore))
            == RunRules(EkycRules(expectedName, expectedLast4, otherScore, last4Ok, otherThreshold, showScore))
  {
    FirstApplicableRuleDecides(EkycRules(expectedName, expectedLast4, nameScore, last4Ok, threshold, showScore), 1, []);
    FirstApplicableRuleDecides(EkycRules(expectedName, expectedLast4, otherScore, last4Ok, otherThreshold, showScore), 1, []);
  }

  /** With neither hint, a successful decryption is accepted as verified with an empty reason. */
  lemma NoHintIsVerified(expectedName: Option<string>, expectedLast4: Option<string>, nameScore: Score,
                         last4Ok: bool, threshold: real, showScore: real -> string)
    requires !Truthy(expectedName) && !Truthy(expectedLast4)
    ensures RunRules(EkycRules(expectedName, expectedLast4, nameScore, last4Ok, threshold, showScore))
            == Decision(true, "")
  {
    FirstApplicableRuleDecides(EkycRules(expectedName, expectedLast4, nameScore, last4Ok, threshold, showScore), 2, []);
  }

  /** The reason is empty exactly when the verdict is verified. */
  lemma ReasonEmptyIffVerified(expectedName: Option<string>, expectedLast4: Option<string>, nameScore: Score,
                               last4Ok: bool, threshold: real, showScore: real -> string)
    ensures var d := RunRules(EkycRules(expectedName, expectedLast4, nameScore, last4Ok, threshold, showScore));
            d.reason == "" <==> d.verified
  {
    if Truthy(expectedName) {
      NameRuleTakesPrecedence(expectedName, expectedLast4, expectedLast4, nameScore, last4Ok, last4Ok, threshold, showScore);
    } else if Truthy(expectedLast4) {
      Last4RuleWithoutName(expectedName, expectedLast4, nameScore, nameScore, last4Ok, threshold, threshold, showScore);
    } else {
      NoHintIsVerified(expectedName, expectedLast4, nameScore, last4Ok, threshold, showScore);
    }
  }

  /**
   * An expected name with no extracted name still goes through the name
   * branch: the score stays 0.0 and, for a positive threshold, the verdict
   * is a name mismatch.
   */
  lemma MissingNameIsMismatch(expectedName: Option<string>, expectedLast4: Option<string>, name: Option<string>,
                              ratio: (string, string) -> Score, last4Ok: bool, threshold: real,
                              showScore: real -> string)
    requires Truthy(expectedName) && !Truthy(name) && threshold > 0.0
    ensures RunRules(EkycRules(expectedName, expectedLast4, NameScore(expectedName, name, ratio), last4Ok,
                               threshold, showScore))
            == Decision(false, NameMismatchReason(0.0, showScore))
  {
    NameRuleTakesPrecedence(expectedName, expectedLast4, expectedLast4, NameScore(expectedName, name, ratio),
                            last4Ok, last4Ok, threshold, showScore);
  }

  /**
   * The block of app.py:92-116, with the locals of the source: the name
   * score, the digit check, and the decision list run on them.
   */
  method MatchAndDecide(expectedName: Option<string>, expectedLast4: Option<string>,
                        name: Option<string>, masked: Option<string>,
                        ratio: (string, string) -> Score, threshold: real, showScore: real -> string)
    returns (nameScore: Score, last4Ok: bool, verified: bool, reason: string)
    ensures nameScore == NameScore(expectedName, name, ratio)
    ensures last4Ok == LastFourOk(expectedLast4, masked)
    ensures Decision(verified, reason)
            == RunRules(EkycRules(expectedName, expectedLast4, nameScore, last4Ok, threshold, showScore))
    ensures reason == "" <==> verified
  {
    nameScore := 0.0;
    if Truthy(expectedName) && Truthy(name) {
      nameScore := ratio(Lower(expectedName.value), Lower(name.value));
    }
    last4Ok := false;
    if Truthy(expectedLast4) && Truthy(masked) {
      var digits := Digits(masked.value);
      last4Ok := EndsWith(digits, expectedLast4.value);
    }
    verified := false;
    reason := "";
    if Truthy(expectedName) {
      if nameScore >= threshold {
        verified := true;
      } else {
        reason := NameMismatchReason(nameScore, showScore);
      }
    } else if Truthy(expectedLast4) {
      if last4Ok {
        verified := true;
      } else {
        reason := Last4MismatchReason;
      }
    } else {
      verified := true;
    }
    ReasonEmptyIffVerified(expectedName, expectedLast4, nameScore, last4Ok, threshold, showScore);
    if Truthy(expectedName) {
      NameRuleTakesPrecedence(expectedName, expectedLast4, expectedLast4, nameScore, last4Ok, last4Ok, threshold, showScore);
    } else if Truthy(expectedLast4) {
      Last4RuleWithoutName(expectedName, expectedLast4, nameScore, nameScore, last4Ok, threshold, threshold, showScore);
    } else {
      NoHintIsVerified(expectedName, expectedLast4, nameScore, last4Ok, threshold, showScore);
    }
  }
}
