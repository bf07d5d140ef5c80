/** Three end-to-end situations, stated as the exact effects of one cycle. */
module SmsScenarios {
  import opened SmsRules
  import opened SmsTrace
  import opened SmsForwarder

  lemma ForwardToOne(dst: Number, payload: seq<int>)
    ensures ForwardActions([dst], payload) == [Log(Forward(dst)), Send(dst, payload), Pause(PaceMs)]
  {
    assert [dst][..0] == [];
  }

  lemma OneRule(r0: Rule, msg: Message)
    ensures RulesActions([r0], msg) == RuleActions(r0, msg)
  {
    assert [r0][..0] == [];
  }

  lemma TwoRules(r0: Rule, r1: Rule, msg: Message)
    ensures RulesActions([r0, r1], msg) == RuleActions(r0, msg) + RuleActions(r1, msg)
  {
    assert [r0, r1][..1] == [r0];
    OneRule(r0, msg);
  }

  lemma OneMessage(rules: seq<Rule>, msg: Message)
    ensures CycleActions(rules, [msg]) == MessageActions(rules, msg) + [Pause(PaceMs)]
  {
    assert [msg][..0] == [];
    assert MessagesActions(rules, [msg]) == MessagesActions(rules, []) + MessageActions(rules, msg);
  }

  /** A wildcard rule forwards a message once, then the message is deleted. */
  lemma WildcardForwardsOnce(text: string, payload: seq<int>)
    ensures CycleActions([Rule("*", ["+100"])], [Message(7, "+555", text, payload)]) ==
      [Log(NewSms("+555")), Log(Text(text)),
       Log(Forward("+100")), Send("+100", payload), Pause(2000),
       Log(Clear("+555")), Delete(7), Pause(2000)]
  {
    var r0 := Rule("*", ["+100"]);
    var m := Message(7, "+555", text, payload);
    ForwardToOne("+100", payload);
    assert Match(r0, "+555");
    OneRule(r0, m);
    OneMessage([r0], m);
  }

  /** A message no rule matches is not forwarded but is still deleted. */
  lemma UnmatchedStillDeleted(text: string, payload: seq<int>)
    ensures CycleActions([Rule("+222", ["+100", "+200"])], [Message(3, "+999", text, payload)]) ==
      [Log(NewSms("+999")), Log(Text(text)), Log(Clear("+999")), Delete(3), Pause(2000)]
  {
    var r0 := Rule("+222", ["+100", "+200"]);
    var m := Message(3, "+999", text, payload);
    assert "+999"[1] != "+222"[1];
    assert !Match(r0, "+999");
    OneRule(r0, m);
    OneMessage([r0], m);
  }

  /** Both a wildcard rule and an exact rule fire, in rule order, each send
      paced, with one "clear" line per rule. */
  lemma AllMatchingRulesFire(text: string, payload: seq<int>)
    ensures CycleActions([Rule("*", ["+100"]), Rule("+300", ["+400"])],
                         [Message(1, "+300", text, payload)]) ==
      [Log(NewSms("+300")), Log(Text(text)),
       Log(Forward("+100")), Send("+100", payload), Pause(2000), Log(Clear("+300")),
       Log(Forward("+400")), Send("+400", payload), Pause(2000), Log(Clear("+300")),
       Delete(1), Pause(2000)]
  {
    var r0 := Rule("*", ["+100"]);
    var r1 := Rule("+300", ["+400"]);
    var m := Message(1, "+300", text, payload);
    ForwardToOne("+100", payload);
    ForwardToOne("+400", payload);
    var first := [Log(Forward("+100")), Send("+100", payload), Pause(2000), Log(Clear("+300"))];
    var second := [Log(Forward("+400")), Send("+400", payload), Pause(2000), Log(Clear("+300"))];
    assert RuleActions(r0, m) == first by {
      assert Match(r0, "+300");
    }
    assert RuleActions(r1, m) == second by {
      assert Match(r1, "+300");
    }
    TwoRules(r0, r1, m);
    OneMessage([r0, r1], m);
    assert CycleActions([r0, r1], [m]) ==
      [Log(NewSms("+300")), Log(Text(text))] + (first + second) + [Delete(1), Pause(2000)];
  }

  /** The unmatched-sender situation run through the engine itself: a
      forwarder built from one configuration entry, one cycle on a fresh
      environment. */
  method RunUnmatchedSender(text: string, payload: seq<int>) returns (trace: seq<Event>)
    ensures trace ==
      [Log(NewSms("+999")), Log(Text(text)), Log(Clear("+999")), Delete(3), Pause(2000)]
  {
    var forwarder := new Forwarder([RuleConfig("+222", ["+100", "+200"])]);
    assert forwarder.rules == [Rule("+222", ["+100", "+200"])] by {
      assert Rule(forwarder.rules[0].pattern, GetTargets(forwarder.rules[0])) == forwarder.rules[0];
    }
    var env := new Environment();
    forwarder.RunCycle(env, [Message(3, "+999", text, payload)]);
    UnmatchedStillDeleted(text, payload);
    trace := env.trace;
  }
}
