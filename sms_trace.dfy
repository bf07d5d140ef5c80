/** The observable effects of one poll cycle of the forwarder, and the
    specification of the cycle as the sequence of effects it must produce. */
module SmsTrace {
  import opened SmsRules

  /** Pause after every outbound send and after every poll cycle, in ms. */
  const PaceMs: nat := 2000

  /** An inbound message as the message box reports it: where it is stored
      (`id`, used to delete it), who sent it, its readable text (only
      logged) and its unicode payload (what is forwarded). */
  datatype Message = Message(id: nat, sender: Number, text: string, payload: seq<int>)

  /** The four kinds of log line the forwarder writes while polling. */
  datatype LogEntry =
    | NewSms(sender: Number)      // "New SMS from <sender>:"
    | Text(text: string)          // "   <text>"
    | Forward(dst: Number)        // "forward it to <dst>"
    | Clear(sender: Number)       // "clear message from <sender>"

  /** One externally visible effect, in the order it happens. */
  datatype Event =
    | Log(entry: LogEntry)
    | Send(dst: Number, payload: seq<int>)   // new message to dst, payload added, sent
    | Pause(ms: nat)
    | Delete(id: nat)                        // inbound message removed from the SIM

  /** Forwarding one payload to each target in order, each send paced. */
  function ForwardActions(targets: seq<Number>, payload: seq<int>): seq<Event>
    decreases |targets|
  {
    if targets == [] then []
    else
      var dst := targets[|targets| - 1];
      ForwardActions(targets[..|targets| - 1], payload)
      + [Log(Forward(dst)), Send(dst, payload), Pause(PaceMs)]
  }

  /** One pass of the rule loop: the forwards of a matching rule, then the
      "clear" log line, which is written for every rule, matching or not. */
  function RuleActions(rule: Rule, msg: Message): seq<Event> {
    (if Match(rule, msg.sender) then ForwardActions(GetTargets(rule), msg.payload) else [])
    + [Log(Clear(msg.sender))]
  }

  function RulesActions(rules: seq<Rule>, msg: Message): seq<Event>
    decreases |rules|
  {
    if rules == [] then []
    else RulesActions(rules[..|rules| - 1], msg) + RuleActions(rules[|rules| - 1], msg)
  }

  /** Everything done for one message: log it, run every rule, delete it. */
  function MessageActions(rules: seq<Rule>, msg: Message): seq<Event> {
    [Log(NewSms(msg.sender)), Log(Text(msg.text))]
    + RulesActions(rules, msg)
    + [Delete(msg.id)]
  }

  function MessagesActions(rules: seq<Rule>, msgs: seq<Message>): seq<Event>
    decreases |msgs|
  {
    if msgs == [] then []
    else MessagesActions(rules, msgs[..|msgs| - 1]) + MessageActions(rules, msgs[|msgs| - 1])
  }

  /** One iteration of the polling loop over the messages the poll returned,
      ending with the pause before the next poll. */
  function CycleActions(rules: seq<Rule>, msgs: seq<Message>): seq<Event> {
    MessagesActions(rules, msgs) + [Pause(PaceMs)]
  }

  // ---------------------------------------------------------------------
  // Views of a trace

  /** The events of `t` mapped through `f`, concatenated in order. */
  function Project<T>(t: seq<Event>, f: Event -> seq<T>): seq<T>
    decreases |t|
  {
    if t == [] then [] else f(t[0]) + Project(t[1..], f)
  }

  function SendDst(e: Event): seq<Number> { if e.Send? then [e.dst] else [] }
  function PauseMs(e: Event): seq<nat> { if e.Pause? then [e.ms] else [] }
  function DeleteId(e: Event): seq<nat> { if e.Delete? then [e.id] else [] }
  function ClearSender(e: Event): seq<Number> {
    if e.Log? && e.entry.Clear? then [e.entry.sender] else []
  }

  /** Destinations of the sends in `t`, in order. */
  function SendsOf(t: seq<Event>): seq<Number> { Project(t, SendDst) }
  /** Durations of the pauses in `t`, in order. */
  function PausesOf(t: seq<Event>): seq<nat> { Project(t, PauseMs) }
  /** Ids of the deleted messages in `t`, in order. */
  function DeletesOf(t: seq<Event>): seq<nat> { Project(t, DeleteId) }
  /** Senders named by the "clear message" log lines in `t`, in order. */
  function ClearsOf(t: seq<Event>): seq<Number> { Project(t, ClearSender) }

  /** Every send in `t` carries `payload`. */
  predicate SendsCarry(t: seq<Event>, payload: seq<int>) {
    forall i :: 0 <= i < |t| && t[i].Send? ==> t[i].payload == payload
  }

  /** Every send in `t` is directly followed by the 2000 ms pause. */
  predicate SendsPaced(t: seq<Event>) {
    forall i :: 0 <= i < |t| && t[i].Send? ==> i + 1 < |t| && t[i + 1] == Pause(PaceMs)
  }

  /** Every value in `s` is `x`. */
  predicate AllAre<T(==)>(s: seq<T>, x: T) {
    forall i :: 0 <= i < |s| ==> s[i] == x
  }

  function Ids(msgs: seq<Message>): seq<nat>
    decreases |msgs|
  {
    if msgs == [] then [] else Ids(msgs[..|msgs| - 1]) + [msgs[|msgs| - 1].id]
  }

  /** The destinations of a whole cycle: each message's forwards, in poll order. */
  function CycleTargets(rules: seq<Rule>, msgs: seq<Message>): seq<Number>
    decreases |msgs|
  {
    if msgs == [] then []
    else CycleTargets(rules, msgs[..|msgs| - 1]) + ForwardTargets(rules, msgs[|msgs| - 1].sender)
  }

  // ---------------------------------------------------------------------
  // Lemmas about the views

  lemma {:induction false} ProjectAppend<T>(a: seq<Event>, b: seq<Event>, f: Event -> seq<T>)
    ensures Project(a + b, f) == Project(a, f) + Project(b, f)
    decreases |a|
  {
    if a == [] {
      assert a + b == b;
    } else {
      assert (a + b)[1..] == a[1..] + b;
      ProjectAppend(a[1..], b, f);
    }
  }

  lemma ProjectOne<T>(e: Event, f: Event -> seq<T>)
    ensures Project([e], f) == f(e)
  {
    assert [e][1..] == [];
  }

  lemma SendsCarryAppend(a: seq<Event>, b: seq<Event>, payload: seq<int>)
    requires SendsCarry(a, payload) && SendsCarry(b, payload)
    ensures SendsCarry(a + b, payload)
  {
    forall i | 0 <= i < |a + b| && (a + b)[i].Send?
      ensures (a + b)[i].payload == payload
    {
      if i >= |a| {
        assert (a + b)[i] == b[i - |a|];
      }
    }
  }

  lemma SendsPacedAppend(a: seq<Event>, b: seq<Event>)
    requires SendsPaced(a) && SendsPaced(b)
    ensures SendsPaced(a + b)
  {
    forall i | 0 <= i < |a + b| && (a + b)[i].Send?
      ensures i + 1 < |a + b| && (a + b)[i + 1] == Pause(PaceMs)
    {
      if i >= |a| {
        assert (a + b)[i] == b[i - |a|];
        assert (a + b)[i + 1] == b[i + 1 - |a|];
      }
    }
  }

  /** The views of a send-free, pause-free event block such as a log line. */
  lemma QuietViews(t: seq<Event>)
    requires forall i :: 0 <= i < |t| ==> t[i].Log? && !t[i].entry.Clear?
    ensures SendsOf(t) == [] && PausesOf(t) == [] && DeletesOf(t) == [] && ClearsOf(t) == []
    ensures SendsCarry(t, []) && SendsPaced(t)
    decreases |t|
  {
    if t != [] {
      QuietViews(t[1..]);
    }
  }

  /** Forwarding to `targets`: one paced send per target, in order, each
      carrying the payload; no deletion and no "clear" line. */
  lemma {:induction false} ForwardActionsViews(targets: seq<Number>, payload: seq<int>)
    ensures var t := ForwardActions(targets, payload);
      SendsOf(t) == targets && |PausesOf(t)| == |targets| && AllAre(PausesOf(t), PaceMs)
      && DeletesOf(t) == [] && ClearsOf(t) == []
      && SendsCarry(t, payload) && SendsPaced(t)
    decreases |targets|
  {
    if targets != [] {
      var n := |targets| - 1;
      var dst := targets[n];
      var block := [Log(Forward(dst)), Send(dst, payload), Pause(PaceMs)];
      var prev := ForwardActions(targets[..n], payload);
      ForwardActionsViews(targets[..n], payload);
      ProjectAppend(prev, block, SendDst);
      ProjectAppend(prev, block, PauseMs);
      ProjectAppend(prev, block, DeleteId);
      ProjectAppend(prev, block, ClearSender);
      assert block == [block[0]] + [block[1]] + [block[2]];
      ProjectAppend([block[0]] + [block[1]], [block[2]], SendDst);
      ProjectAppend([block[0]], [block[1]], SendDst);
      ProjectAppend([block[0]] + [block[1]], [block[2]], PauseMs);
      ProjectAppend([block[0]], [block[1]], PauseMs);
      ProjectAppend([block[0]] + [block[1]], [block[2]], DeleteId);
      ProjectAppend([block[0]], [block[1]], DeleteId);
      ProjectAppend([block[0]] + [block[1]], [block[2]], ClearSender);
      ProjectAppend([block[0]], [block[1]], ClearSender);
      ProjectOne(block[0], SendDst); ProjectOne(block[1], SendDst); ProjectOne(block[2], SendDst);
      ProjectOne(block[0], PauseMs); ProjectOne(block[1], PauseMs); ProjectOne(block[2], PauseMs);
      ProjectOne(block[0], DeleteId); ProjectOne(block[1], DeleteId); ProjectOne(block[2], DeleteId);
      ProjectOne(block[0], ClearSender); ProjectOne(block[1], ClearSender); ProjectOne(block[2], ClearSender);
      assert targets == targets[..n] + [dst];
      SendsCarryAppend(prev, block, payload);
      SendsPacedAppend(prev, block);
    }
  }

  /** How the views of a concatenation are made of the views of its parts. */
  lemma JoinViews(a: seq<Event>, b: seq<Event>)
    ensures SendsOf(a + b) == SendsOf(a) + SendsOf(b)
    ensures PausesOf(a + b) == PausesOf(a) + PausesOf(b)
    ensures DeletesOf(a + b) == DeletesOf(a) + DeletesOf(b)
    ensures ClearsOf(a + b) == ClearsOf(a) + ClearsOf(b)
    ensures forall p :: SendsCarry(a, p) && SendsCarry(b, p) ==> SendsCarry(a + b, p)
    ensures SendsPaced(a) && SendsPaced(b) ==> SendsPaced(a + b)
  {
    ProjectAppend(a, b, SendDst);
    ProjectAppend(a, b, PauseMs);
    ProjectAppend(a, b, DeleteId);
    ProjectAppend(a, b, ClearSender);
    forall p | SendsCarry(a, p) && SendsCarry(b, p) ensures SendsCarry(a + b, p) {
      SendsCarryAppend(a, b, p);
    }
    if SendsPaced(a) && SendsPaced(b) {
      SendsPacedAppend(a, b);
    }
  }

  lemma AllAreAppend<T>(a: seq<T>, b: seq<T>, x: T)
    requires AllAre(a, x) && AllAre(b, x)
    ensures AllAre(a + b, x)
  {
  }

  /** One pass of the rule loop: the forwards the rule selects, then one
      "clear" line. */
  lemma RuleActionsViews(rule: Rule, msg: Message)
    ensures var t := RuleActions(rule, msg);
      SendsOf(t) == Contribution(rule, msg.sender)
      && |PausesOf(t)| == |SendsOf(t)| && AllAre(PausesOf(t), PaceMs)
      && DeletesOf(t) == [] && ClearsOf(t) == [msg.sender]
      && SendsCarry(t, msg.payload) && SendsPaced(t)
  {
    var fwd := if Match(rule, msg.sender) then ForwardActions(GetTargets(rule), msg.payload) else [];
    var clear := [Log(Clear(msg.sender))];
    ForwardActionsViews(GetTargets(rule), msg.payload);
    QuietViews([]);
    ProjectOne(clear[0], SendDst); ProjectOne(clear[0], PauseMs);
    ProjectOne(clear[0], DeleteId); ProjectOne(clear[0], ClearSender);
    assert SendsCarry(clear, msg.payload) && SendsPaced(clear);
    JoinViews(fwd, clear);
  }

  /** The rule loop for one message: the sends are exactly the forwards the
      rules select, each paced and carrying the payload; one "clear" line per
      rule; no deletion. */
  lemma {:induction false} RulesActionsViews(rules: seq<Rule>, msg: Message)
    ensures var t := RulesActions(rules, msg);
      SendsOf(t) == ForwardTargets(rules, msg.sender)
      && |PausesOf(t)| == |SendsOf(t)| && AllAre(PausesOf(t), PaceMs)
      && DeletesOf(t) == []
      && |ClearsOf(t)| == |rules| && AllAre(ClearsOf(t), msg.sender)
      && SendsCarry(t, msg.payload) && SendsPaced(t)
    decreases |rules|
  {
    if rules == [] {
      QuietViews([]);
    } else {
      var n := |rules| - 1;
      var prev := RulesActions(rules[..n], msg);
      var last := RuleActions(rules[n], msg);
      RulesActionsViews(rules[..n], msg);
      RuleActionsViews(rules[n], msg);
      JoinViews(prev, last);
      AllAreAppend(PausesOf(prev), PausesOf(last), PaceMs);
      AllAreAppend(ClearsOf(prev), ClearsOf(last), msg.sender);
    }
  }

  /** The two arrival log lines and the deletion that frame a message. */
  lemma FrameViews(msg: Message, body: seq<Event>)
    ensures var t := [Log(NewSms(msg.sender)), Log(Text(msg.text))] + body + [Delete(msg.id)];
      SendsOf(t) == SendsOf(body) && PausesOf(t) == PausesOf(body)
      && DeletesOf(t) == DeletesOf(body) + [msg.id] && ClearsOf(t) == ClearsOf(body)
  {
    var head := [Log(NewSms(msg.sender)), Log(Text(msg.text))];
    var tail := [Delete(msg.id)];
    QuietViews(head);
    ProjectOne(tail[0], SendDst); ProjectOne(tail[0], PauseMs);
    ProjectOne(tail[0], DeleteId); ProjectOne(tail[0], ClearSender);
    ProjectAppend(head, body, SendDst); ProjectAppend(head + body, tail, SendDst);
    ProjectAppend(head, body, PauseMs); ProjectAppend(head + body, tail, PauseMs);
    ProjectAppend(head, body, DeleteId); ProjectAppend(head + body, tail, DeleteId);
    ProjectAppend(head, body, ClearSender); ProjectAppend(head + body, tail, ClearSender);
  }

  // ---------------------------------------------------------------------
  // One message

  /** The sends for a message go, in order, to the concatenated target lists
      of every matching rule; duplicates are kept. */
  lemma MessageSendsFollowRules(rules: seq<Rule>, msg: Message)
    ensures SendsOf(MessageActions(rules, msg)) == ForwardTargets(rules, msg.sender)
  {
    RulesActionsViews(rules, msg);
    FrameViews(msg, RulesActions(rules, msg));
  }

  /** Every send for a message carries that message's payload unchanged. */
  lemma MessagePayloadForwardedUnchanged(rules: seq<Rule>, msg: Message)
    ensures SendsCarry(MessageActions(rules, msg), msg.payload)
  {
    var head := [Log(NewSms(msg.sender)), Log(Text(msg.text))];
    var body := RulesActions(rules, msg);
    RulesActionsViews(rules, msg);
    QuietViews(head);
    assert SendsCarry(head, msg.payload);
    assert SendsCarry([Delete(msg.id)], msg.payload);
    SendsCarryAppend(head, body, msg.payload);
    SendsCarryAppend(head + body, [Delete(msg.id)], msg.payload);
  }

  /** Every send is directly followed by a 2000 ms pause, and there are as
      many pauses as sends. */
  lemma MessageSendsPaced(rules: seq<Rule>, msg: Message)
    ensures var t := MessageActions(rules, msg);
      SendsPaced(t) && |PausesOf(t)| == |SendsOf(t)| && AllAre(PausesOf(t), PaceMs)
  {
    var head := [Log(NewSms(msg.sender)), Log(Text(msg.text))];
    var body := RulesActions(rules, msg);
    RulesActionsViews(rules, msg);
    FrameViews(msg, body);
    QuietViews(head);
    assert SendsPaced([Delete(msg.id)]);
    SendsPacedAppend(head, body);
    SendsPacedAppend(head + body, [Delete(msg.id)]);
  }

  /** The message is deleted exactly once, as its last action, after all of
      its sends, whether or not any rule matched. */
  lemma MessageDeletedOnceLast(rules: seq<Rule>, msg: Message)
    ensures var t := MessageActions(rules, msg);
      DeletesOf(t) == [msg.id] && t[|t| - 1] == Delete(msg.id)
  {
    RulesActionsViews(rules, msg);
    FrameViews(msg, RulesActions(rules, msg));
  }

  /** One "clear message" line per rule, matching or not. */
  lemma MessageClearLoggedPerRule(rules: seq<Rule>, msg: Message)
    ensures var t := MessageActions(rules, msg);
      |ClearsOf(t)| == |rules| && AllAre(ClearsOf(t), msg.sender)
  {
    RulesActionsViews(rules, msg);
    FrameViews(msg, RulesActions(rules, msg));
  }

  // ---------------------------------------------------------------------
  // One poll cycle

  lemma {:induction false} MessagesActionsAppend(rules: seq<Rule>, a: seq<Message>, b: seq<Message>)
    ensures MessagesActions(rules, a + b) == MessagesActions(rules, a) + MessagesActions(rules, b)
    decreases |b|
  {
    if b == [] {
      assert a + b == a;
    } else {
      var n := |b| - 1;
      calc {
        MessagesActions(rules, a + b);
        { assert (a + b)[..|a + b| - 1] == a + b[..n]; assert (a + b)[|a + b| - 1] == b[n]; }
        MessagesActions(rules, a + b[..n]) + MessageActions(rules, b[n]);
        { MessagesActionsAppend(rules, a, b[..n]); }
        MessagesActions(rules, a) + MessagesActions(rules, b[..n]) + MessageActions(rules, b[n]);
      }
    }
  }

  /** Messages are handled in poll order and the actions of each form one
      contiguous block of the cycle. */
  lemma MessageBlocksContiguous(rules: seq<Rule>, msgs: seq<Message>, i: nat)
    requires i < |msgs|
    ensures MessagesActions(rules, msgs) ==
              MessagesActions(rules, msgs[..i])
              + MessageActions(rules, msgs[i])
              + MessagesActions(rules, msgs[i + 1..])
  {
    assert msgs == msgs[..i] + [msgs[i]] + msgs[i + 1..];
    MessagesActionsAppend(rules, msgs[..i] + [msgs[i]], msgs[i + 1..]);
    MessagesActionsAppend(rules, msgs[..i], [msgs[i]]);
    assert [msgs[i]][..0] == [];
  }

  /** The sends of a cycle are the forwards of each message, in poll order. */
  lemma {:induction false} CycleSends(rules: seq<Rule>, msgs: seq<Message>)
    ensures SendsOf(CycleActions(rules, msgs)) == CycleTargets(rules, msgs)
    decreases |msgs|
  {
    ProjectAppend(MessagesActions(rules, msgs), [Pause(PaceMs)], SendDst);
    ProjectOne(Pause(PaceMs), SendDst);
    if msgs != [] {
      var n := |msgs| - 1;
      CycleSends(rules, msgs[..n]);
      ProjectAppend(MessagesActions(rules, msgs[..n]), [Pause(PaceMs)], SendDst);
      ProjectAppend(MessagesActions(rules, msgs[..n]), MessageActions(rules, msgs[n]), SendDst);
      MessageSendsFollowRules(rules, msgs[n]);
    }
  }

  /** Each polled message is deleted once, in poll order, and nothing else is. */
  lemma {:induction false} CycleDeletes(rules: seq<Rule>, msgs: seq<Message>)
    ensures DeletesOf(CycleActions(rules, msgs)) == Ids(msgs)
    decreases |msgs|
  {
    ProjectAppend(MessagesActions(rules, msgs), [Pause(PaceMs)], DeleteId);
    ProjectOne(Pause(PaceMs), DeleteId);
    if msgs != [] {
      var n := |msgs| - 1;
      CycleDeletes(rules, msgs[..n]);
      ProjectAppend(MessagesActions(rules, msgs[..n]), [Pause(PaceMs)], DeleteId);
      ProjectAppend(MessagesActions(rules, msgs[..n]), MessageActions(rules, msgs[n]), DeleteId);
      MessageDeletedOnceLast(rules, msgs[n]);
    }
  }

  /** A cycle always ends with the 2000 ms pause before the next poll; with
      nothing polled, that pause is all it does. */
  lemma CycleEndsWithPause(rules: seq<Rule>, msgs: seq<Message>)
    ensures var t := CycleActions(rules, msgs); t[|t| - 1] == Pause(PaceMs)
    ensures CycleActions(rules, []) == [Pause(PaceMs)]
  {
  }
}
