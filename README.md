# SMS forwarder: a verified model of the forwarding engine

The SMS forwarder polls a Yoctopuce message box (a GSM device with a SIM)
for inbound text messages. Each message is forwarded to destination numbers
chosen by a list of sender rules, and the original is then deleted from the
SIM. A rule is a sender pattern plus an ordered list of target numbers. The
pattern `""` or `"*"` matches every sender. Any other pattern matches only
the sender equal to it. Every matching rule fires, not just the first.

The model has four parts:

- `SmsRules` (`sms_rules.dfy`): the rule value, matching, and
  `ForwardTargets`. That function gives the numbers a sender's message goes
  to: the target lists of all matching rules, concatenated in rule order.
- `SmsTrace` (`sms_trace.dfy`): the effects of one poll cycle as a trace of
  events: log lines, sends, 2000 ms pauses and SIM deletions. It also holds
  the specification functions `MessageActions` and `CycleActions`, views of a
  trace (sends, pauses, deletions, "clear" lines), and the lemmas relating
  those views to the rules.
- `SmsForwarder` (`sms_forwarder.dfy`): the imperative engine. `Forwarder`
  holds the rule list built from the parsed configuration. `RunCycle` is one
  iteration of the polling loop; its nested loops run over messages, rules
  and targets. `Environment` stands for the message box, the log sink and the
  clock. Each of its methods appends one event to `trace`. The methods are
  proved to produce exactly `CycleActions(rules, messages)`, so every lemma
  about that function holds of the engine.
- `SmsScenarios` (`sms_scenarios.dfy`): the exact trace of three small
  configurations, one of them also run through `Forwarder.RunCycle`.

A message's text is only logged. Its unicode payload (a sequence of code
points) is what gets forwarded.

The "clear message" line (`sms_fwd.py:69`) sits inside the loop over rules,
so it is logged once per rule, whether the rule matched or not, and not once
per message; see `SmsTrace.MessageClearLoggedPerRule`.

## Model

| member | source | states |
|---|---|---|
| `SmsRules.Match` | sms_fwd.py:15-18 | a rule matches only when its pattern is a wildcard or equals the sender, and it always matches the sender its pattern names |
| `SmsRules.GetTargets` | sms_fwd.py:20-21 | the targets returned, together with the pattern, make up exactly the rule: the list it was built with, unchanged |
| `SmsRules.WildcardMatchesEverySender` | sms_fwd.py:15-17 | a rule whose pattern is `""` or `"*"` matches every sender |
| `SmsRules.ExactPatternMatchesOnlyItself` | sms_fwd.py:15-18 | a rule with any other pattern matches a sender iff the sender equals the pattern |
| `SmsRules.MatchIsNotNormalised` | sms_fwd.py:18 | matching is case-sensitive and does not normalise number formatting |
| `SmsRules.ForwardTargetsAppend` | sms_fwd.py:60-63 | the forwards of a split rule list are the forwards of the first part followed by those of the second: rule order is kept and nothing is merged across rules |
| `SmsRules.ForwardTargetsAt` | sms_fwd.py:60-63 | rule i contributes its whole target list, at its own position, iff it matches; otherwise it contributes nothing |
| `SmsRules.ForwardTargetsMember` | sms_fwd.py:60-63 | a number is forwarded to iff some matching rule lists it |
| `SmsRules.NoMatchNoForward` | sms_fwd.py:60-63 | when no rule matches, nothing is forwarded |
| `SmsRules.DuplicatesAreKept` | sms_fwd.py:60-63 | for any two distinct matching rules that both list a number, that number occurs at least twice among the forwards |
| `SmsTrace.ForwardActionsViews` | sms_fwd.py:63-68 | the target loop sends once per target, in order, each send carrying the payload and directly followed by a 2000 ms pause; it deletes nothing and logs no "clear" line |
| `SmsTrace.RuleActionsViews` | sms_fwd.py:60-69 | one pass of the rule loop sends to the rule's targets iff it matches, then logs exactly one "clear" line |
| `SmsTrace.RulesActionsViews` | sms_fwd.py:60-69 | the whole rule loop sends to exactly `ForwardTargets(rules, sender)`, with as many 2000 ms pauses as sends and one "clear" line per rule; it deletes nothing |
| `SmsTrace.MessageSendsFollowRules` | sms_fwd.py:55-70 | the send destinations for one message are the target lists of every matching rule, concatenated in rule order, duplicates kept |
| `SmsTrace.MessagePayloadForwardedUnchanged` | sms_fwd.py:59-66 | every send for a message carries that message's unicode payload unchanged |
| `SmsTrace.MessageSendsPaced` | sms_fwd.py:63-68 | for one message, every send is directly followed by a 2000 ms pause, and pauses and sends are equal in number |
| `SmsTrace.MessageDeletedOnceLast` | sms_fwd.py:55-70 | a message is deleted exactly once, as its last action and so after all of its sends, even when no rule matches |
| `SmsTrace.MessageClearLoggedPerRule` | sms_fwd.py:60-69 | a message gets one "clear message" line per rule, each naming its sender, independent of matching |
| `SmsTrace.MessagesActionsAppend` | sms_fwd.py:55-70 | processing a split message list is processing the first part and then the second |
| `SmsTrace.MessageBlocksContiguous` | sms_fwd.py:54-70 | messages are handled in poll order and each message's actions form one contiguous block of the trace |
| `SmsTrace.CycleSends` | sms_fwd.py:54-70 | the sends of a cycle are the forwards of each polled message, in poll order |
| `SmsTrace.CycleDeletes` | sms_fwd.py:54-70 | a cycle deletes each polled message once, in poll order, and nothing else |
| `SmsTrace.CycleEndsWithPause` | sms_fwd.py:54-71 | a cycle ends with the 2000 ms pause before the next poll; with no messages, that pause is all it does |
| `SmsForwarder.Forwarder.constructor` | sms_fwd.py:29-31 | one rule per configuration entry, in configuration order, with the entry's pattern and, as `getTargets` returns it, its target list unchanged |
| `SmsForwarder.Forwarder.RunCycle` | sms_fwd.py:54-71 | one iteration of the polling loop appends exactly `CycleActions(rules, messages)` to the trace |
| `SmsForwarder.Forwarder.ProcessMessage` | sms_fwd.py:56-70 | handling one message appends exactly `MessageActions(rules, msg)`: two arrival lines, the rule loop, the deletion |
| `SmsForwarder.Forwarder.ForwardTo` | sms_fwd.py:63-68 | the loop over a matching rule's targets appends a log line, a send and a 2000 ms pause per target, in order |
| `SmsForwarder.Environment.Log` | sms_fwd.py:36-42 | a log call records its entry and nothing else |
| `SmsForwarder.Environment.Send` | sms_fwd.py:65-67 | composing, filling and sending an outbound message records one send of the payload to that number |
| `SmsForwarder.Environment.Sleep` | sms_fwd.py:68 | a sleep records one pause of the given length |
| `SmsForwarder.Environment.Delete` | sms_fwd.py:70 | deleting an inbound message from the SIM records one deletion of its id |
| `SmsScenarios.WildcardForwardsOnce` | sms_fwd.py:54-71 | rules `[* -> +100]`, message from `+555`: one send to `+100` with the payload, one clear line, then deletion |
| `SmsScenarios.UnmatchedStillDeleted` | sms_fwd.py:54-71 | rules `[+222 -> +100, +200]`, message from `+999`: no send, one clear line, and the message is still deleted |
| `SmsScenarios.RunUnmatchedSender` | sms_fwd.py:29-71 | a forwarder built from `[+222 -> +100, +200]` and run for one cycle on a message from `+999` records no send, one clear line, the deletion and the poll pause |
| `SmsScenarios.AllMatchingRulesFire` | sms_fwd.py:54-71 | rules `[* -> +100, +300 -> +400]`, message from `+300`: sends to `+100` then `+400`, each paced, one clear line per rule, then deletion |

## Left out

- USB hub registration, device discovery and the two fatal exits (`sms_fwd.py:45-52`), including the "Use <product> <serial>" log line: these are library calls with no logic of their own.
- Reading and parsing the JSON configuration file (`sms_fwd.py:27-28`): the constructor takes the parsed list of rule entries.
- The `verbose` and `logfile` settings and the log sink itself (`sms_fwd.py:33-42`): console printing, appending to a file, timestamps, and the "Use Yoctopuce library" line. Every log call is recorded as an abstract `LogEntry`, whether or not a sink is enabled. Line formatting is not modelled.
- The unbounded `while True` loop and real sleeping (`sms_fwd.py:53`, `68`, `71`): one iteration is modelled, and a sleep is a `Pause` event.
- The device's message storage: the poll result is a parameter of `RunCycle`. A deletion is recorded as an event, but its effect on what later polls return is not modelled. So neither the at-least-once redelivery after a crash nor the idempotence of deleting twice is modelled.
- Failures of send or delete: the code does not handle them, and the model does not invent a policy.
- `Environment.Send`: composing the message, adding the unicode data and sending it (`sms_fwd.py:65-67`) are one event, because nothing happens between them.
- `main` and the command-line parsing (`sms_fwd.py:74-89`).
