/** The forwarding engine: the rule list built from configuration and one
    iteration of the polling loop, run against an environment that records
    every effect (log line, outbound send, pause, deletion) in order. */
module SmsForwarder {
  import opened SmsRules
  import opened SmsTrace

  /** One entry of the configuration's "rules" list, already parsed. */
  datatype RuleConfig = RuleConfig(pattern: string, outNumbers: seq<Number>)

  /** The message box together with the log sink and the clock: each call
      appends the effect it has on the outside world to `trace`. */
  class Environment {
    var trace: seq<Event>

    constructor ()
      ensures trace == []
    {
      trace := [];
    }

    method Log(entry: LogEntry)
      modifies this
      ensures trace == old(trace) + [Event.Log(entry)]
    {
      trace := trace + [Event.Log(entry)];
    }

    /** Compose a new message to `dst`, add the payload, send it. */
    method Send(dst: Number, payload: seq<int>)
      modifies this
      ensures trace == old(trace) + [Event.Send(dst, payload)]
    {
      trace := trace + [Event.Send(dst, payload)];
    }

    method Sleep(ms: nat)
      modifies this
      ensures trace == old(trace) + [Pause(ms)]
    {
      trace := trace + [Pause(ms)];
    }

    /** Remove an inbound message from the SIM. */
    method Delete(msg: Message)
      modifies this
      ensures trace == old(trace) + [Event.Delete(msg.id)]
    {
      trace := trace + [Event.Delete(msg.id)];
    }
  }

  class Forwarder {
    var rules: seq<Rule>

    /** One rule per configuration entry, in configuration order, each with
        the entry's pattern and its target list unchanged. */
    constructor (config: seq<RuleConfig>)
      ensures |rules| == |config|
      ensures forall i :: 0 <= i < |config| ==>
                rules[i].pattern == config[i].pattern && GetTargets(rules[i]) == config[i].outNumbers
    {
      rules := [];
      new;
      for i := 0 to |config|
        invariant |rules| == i
        invariant forall k :: 0 <= k < i ==>
                    rules[k].pattern == config[k].pattern && GetTargets(rules[k]) == config[k].outNumbers
      {
        rules := rules + [Rule(config[i].pattern, config[i].outNumbers)];
      }
    }

    /** One iteration of the polling loop over the messages the poll
        returned: each message in turn, then the pause before the next poll. */
    method RunCycle(env: Environment, messages: seq<Message>)
      modifies env
      ensures env.trace == old(env.trace) + CycleActions(rules, messages)
    {
      for i := 0 to |messages|
        invariant env.trace == old(env.trace) + MessagesActions(rules, messages[..i])
      {
        ProcessMessage(env, messages[i]);
        assert messages[..i + 1][..i] == messages[..i];
      }
      env.Sleep(PaceMs);
      assert messages[..|messages|] == messages;
    }

    /** The body of the loop over messages: log the arrival, try every rule
        (forwarding for each matching one, then logging the clearing, once
        per rule), and finally delete the message. */
    method ProcessMessage(env: Environment, msg: Message)
      modifies env
      ensures env.trace == old(env.trace) + MessageActions(rules, msg)
    {
      var sender := msg.sender;
      env.Log(NewSms(sender));
      env.Log(Text(msg.text));
      ghost var arrived := env.trace;
      var unicodeData := msg.payload;
      for j := 0 to |rules|
        invariant env.trace == arrived + RulesActions(rules[..j], msg)
      {
        var rule := rules[j];
        ghost var before := env.trace;
        if Match(rule, sender) {
          ForwardTo(env, GetTargets(rule), unicodeData);
        }
        env.Log(Clear(sender));
        assert env.trace == before + RuleActions(rule, msg);
        assert rules[..j + 1][..j] == rules[..j];
        assert RulesActions(rules[..j + 1], msg) == RulesActions(rules[..j], msg) + RuleActions(rule, msg);
      }
      assert rules[..|rules|] == rules;
      env.Delete(msg);
    }

    /** The loop over a matching rule's targets: log, send the payload,
        pause 2000 ms, for each target in order. */
    method ForwardTo(env: Environment, targets: seq<Number>, unicodeData: seq<int>)
      modifies env
      ensures env.trace == old(env.trace) + ForwardActions(targets, unicodeData)
    {
      for k := 0 to |targets|
        invariant env.trace == old(env.trace) + ForwardActions(targets[..k], unicodeData)
      {
        var dst := targets[k];
        env.Log(Forward(dst));
        env.Send(dst, unicodeData);
        env.Sleep(PaceMs);
        assert targets[..k + 1][..k] == targets[..k];
      }
      assert targets[..|targets|] == targets;
    }
  }
}
