/** Forwarding rules of the SMS forwarder: a sender pattern and the ordered
    list of numbers a matching message is forwarded to. */
module SmsRules {

  /** A phone number or sender identifier, as the device reports it. */
  type Number = string

  /** One forwarding rule. It is built once from configuration and never
      updated, so it is a value. `targets` is what `getTargets` hands back. */
  datatype Rule = Rule(pattern: string, targets: seq<Number>)

  /** The two wildcard patterns: the empty string and "*". */
  predicate IsWildcard(pattern: string) {
    pattern == "" || pattern == "*"
  }

  /** `SMSRules.match`: a wildcard rule matches every sender, any other rule
      only the sender equal to its pattern (plain string equality). */
  function Match(rule: Rule, sender: Number): (matched: bool)
    ensures matched ==> IsWildcard(rule.pattern) || sender == rule.pattern
    ensures sender == rule.pattern ==> matched
  {
    IsWildcard(rule.pattern) || sender == rule.pattern
  }

  /** `SMSRules.getTargets`: the target list the rule was built with. */
  function GetTargets(rule: Rule): (targets: seq<Number>)
    ensures Rule(rule.pattern, targets) == rule
  {
    rule.targets
  }

  /** What one rule contributes to the forwards of a message from `sender`. */
  function Contribution(rule: Rule, sender: Number): seq<Number> {
    if Match(rule, sender) then GetTargets(rule) else []
  }

  /** The destinations a message from `sender` is forwarded to: every rule is
      tried in order (not just the first match) and each matching rule adds
      its whole target list, duplicates included. */
  function ForwardTargets(rules: seq<Rule>, sender: Number): seq<Number>
    decreases |rules|
  {
    if rules == [] then []
    else ForwardTargets(rules[..|rules| - 1], sender) + Contribution(rules[|rules| - 1], sender)
  }

  lemma WildcardMatchesEverySender(rule: Rule, sender: Number)
    requires IsWildcard(rule.pattern)
    ensures Match(rule, sender)
  {
  }

  lemma ExactPatternMatchesOnlyItself(rule: Rule, sender: Number)
    requires !IsWildcard(rule.pattern)
    ensures Match(rule, sender) <==> sender == rule.pattern
  {
  }

  /** Matching is case-sensitive and does not normalise number formats. */
  lemma MatchIsNotNormalised()
    ensures !Match(Rule("ABC", []), "abc")
    ensures !Match(Rule("+41 79", []), "+4179")
  {
    assert "abc"[0] != "ABC"[0];
    assert |"+4179"| != |"+41 79"|;
  }

  /** Splitting the rule list splits the forwards: rules contribute in their
      configuration order and nothing is merged or removed across rules. */
  lemma {:induction false} ForwardTargetsAppend(a: seq<Rule>, b: seq<Rule>, sender: Number)
    ensures ForwardTargets(a + b, sender) == ForwardTargets(a, sender) + ForwardTargets(b, sender)
    decreases |b|
  {
    if b == [] {
      assert a + b == a;
    } else {
      var n := |b| - 1;
      assert (a + b)[..|a + b| - 1] == a + b[..n];
      assert (a + b)[|a + b| - 1] == b[n];
      ForwardTargetsAppend(a, b[..n], sender);
    }
  }

  /** Rule i contributes its full target list, in place, exactly when it
      matches, whatever the other rules do. */
  lemma ForwardTargetsAt(rules: seq<Rule>, sender: Number, i: nat)
    requires i < |rules|
    ensures ForwardTargets(rules, sender) ==
              ForwardTargets(rules[..i], sender)
              + (if Match(rules[i], sender) then rules[i].targets else [])
              + ForwardTargets(rules[i + 1..], sender)
  {
    assert rules == rules[..i] + [rules[i]] + rules[i + 1..];
    ForwardTargetsAppend(rules[..i] + [rules[i]], rules[i + 1..], sender);
    ForwardTargetsAppend(rules[..i], [rules[i]], sender);
    assert ForwardTargets([rules[i]], sender) == Contribution(rules[i], sender) by {
      assert [rules[i]][..0] == [];
    }
  }

  /** A number is forwarded to iff some matching rule lists it. */
  lemma {:induction false} ForwardTargetsMember(rules: seq<Rule>, sender: Number, dst: Number)
    ensures dst in ForwardTargets(rules, sender) <==>
              exists i :: 0 <= i < |rules| && Match(rules[i], sender) && dst in rules[i].targets
    decreases |rules|
  {
    if rules != [] {
      var n := |rules| - 1;
      ForwardTargetsMember(rules[..n], sender, dst);
      if dst in ForwardTargets(rules, sender) {
        if dst in ForwardTargets(rules[..n], sender) {
          var i :| 0 <= i < n && Match(rules[..n][i], sender) && dst in rules[..n][i].targets;
          assert rules[i] == rules[..n][i];
        } else {
          assert Match(rules[n], sender) && dst in rules[n].targets;
        }
      } else {
        forall i | 0 <= i < |rules| && Match(rules[i], sender)
          ensures dst !in rules[i].targets
        {
          if i < n {
            assert rules[..n][i] == rules[i];
          }
        }
      }
    }
  }

  /** When no rule matches, nothing is forwarded. */
  lemma {:induction false} NoMatchNoForward(rules: seq<Rule>, sender: Number)
    requires forall i :: 0 <= i < |rules| ==> !Match(rules[i], sender)
    ensures ForwardTargets(rules, sender) == []
    decreases |rules|
  {
    if rules != [] {
      NoMatchNoForward(rules[..|rules| - 1], sender);
    }
  }

  /** Two matching rules that both list `dst` both forward to it: targets
      are never merged across rules. */
  lemma DuplicatesAreKept(rules: seq<Rule>, sender: Number, dst: Number, i: nat, j: nat)
    requires i < j < |rules|
    requires Match(rules[i], sender) && dst in rules[i].targets
    requires Match(rules[j], sender) && dst in rules[j].targets
    ensures multiset(ForwardTargets(rules, sender))[dst] >= 2
  {
    var prefix := rules[..j];
    ForwardTargetsAt(rules, sender, j);
    ForwardTargetsAt(prefix, sender, i);
    assert prefix[i] == rules[i];
    var before := ForwardTargets(prefix, sender);
    assert multiset(before)[dst] >= 1 by {
      assert before == ForwardTargets(prefix[..i], sender) + rules[i].targets
                       + ForwardTargets(prefix[i + 1..], sender);
      assert dst in multiset(rules[i].targets);
    }
    assert multiset(rules[j].targets)[dst] >= 1;
  }
}
