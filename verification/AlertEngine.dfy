/**
 Alert rules: each rule fires and resolves as its metric crosses a threshold, and a silenced rule is
 still evaluated but not announced.
 */
module AlertEngine {
  import opened Text

  /** A collected value; a missing one skips the rule, one that is no number never meets it. */
  datatype Metric = Missing | Unparseable | Num(value: real)
  datatype Operator = Gt | Lt | Gte | Lte | Eq | Unknown
  datatype Rule = Rule(id: string, metric: string, operator: Operator, threshold: Metric)

  datatype Event = Fired(id: string) | Resolved(id: string)

  /** `firing` holds for each firing rule whether its alert was suppressed; `silenced` the expiry of each
      silence, None if it cannot be read. */
  datatype Engine = Engine(
    firing: map<string, bool>, silenced: map<string, Option<real>>,
    resolved: nat, suppressed: nat, evaluations: nat)

  function Init(): Engine {
    Engine(map[], map[], 0, 0, 0)
  }

  predicate Compare(value: Metric, op: Operator, threshold: Metric) {
    value.Num? && threshold.Num? &&
    match op
    case Gt => value.value > threshold.value
    case Lt => value.value < threshold.value
    case Gte => value.value >= threshold.value
    case Lte => value.value <= threshold.value
    case Eq => value.value == threshold.value
    case Unknown => false
  }

  /** A number meets a threshold by exactly one of the strict operators and equality, the others allow equality, and
      nothing else ever meets one. */
  lemma CompareIs(a: real, b: real, v: Metric, op: Operator, t: Metric)
    ensures Compare(Num(a), Gt, Num(b)) <==> a > b
    ensures Compare(Num(a), Lt, Num(b)) <==> a < b
    ensures Compare(Num(a), Eq, Num(b)) <==> a == b
    ensures Compare(Num(a), Gte, Num(b)) <==> !Compare(Num(a), Lt, Num(b))
    ensures Compare(Num(a), Lte, Num(b)) <==> !Compare(Num(a), Gt, Num(b))
    ensures v.Missing? || v.Unparseable? || t.Missing? || t.Unparseable? || op.Unknown? ==> !Compare(v, op, t)
  {
  }

  predicate InForce(s: Engine, id: string, now: real) {
    id in s.silenced && s.silenced[id].Some? && now < s.silenced[id].value
  }

  /** Asking drops a silence that has expired or cannot be read. */
  function Ask(s: Engine, id: string, now: real): Engine {
    if id in s.silenced && !InForce(s, id, now) then s.(silenced := s.silenced - {id}) else s
  }

  function MetricOf(metrics: map<string, Metric>, name: string): Metric {
    if name in metrics then metrics[name] else Missing
  }

  /** One rule of an evaluation: the state after it and the events it emits, one at most. */
  function EvalRule(s: Engine, r: Rule, value: Metric, now: real): (Engine, seq<Event>) {
    var isFiring := Compare(value, r.operator, r.threshold);
    var wasFiring := r.id in s.firing;
    if value.Missing? then (s, [])
    else if isFiring && !wasFiring then
      if InForce(s, r.id, now) then
        (s.(firing := s.firing[r.id := true], suppressed := s.suppressed + 1), [])
      else
        (Ask(s, r.id, now).(firing := s.firing[r.id := false]), [Fired(r.id)])
    else if !isFiring && wasFiring then
      (s.(firing := s.firing - {r.id}, resolved := s.resolved + 1), if s.firing[r.id] then [] else [Resolved(r.id)])
    else (s, [])
  }

  function EvalRules(s: Engine, rules: seq<Rule>, metrics: map<string, Metric>, now: real): (Engine, seq<Event>) {
    if rules == [] then (s, [])
    else
      var last := |rules| - 1;
      var (t, es) := EvalRules(s, rules[..last], metrics, now);
      var (u, more) := EvalRule(t, rules[last], MetricOf(metrics, rules[last].metric), now);
      (u, es + more)
  }

  datatype Op =
    | Evaluate(rules: seq<Rule>, metrics: map<string, Metric>, now: real)
    | Silence(id: string, minutes: real, now: real)
    | Unsilence(id: string)
    | Query(id: string, now: real)

  function Step(s: Engine, op: Op): (Engine, seq<Event>) {
    match op
    case Evaluate(rules, metrics, now) =>
      var (t, es) := EvalRules(s, rules, metrics, now);
      (t.(evaluations := t.evaluations + 1), es)
    case Silence(id, minutes, now) =>
      if id == "" then (s, [])
      else if minutes <= 0.0 then (s.(silenced := s.silenced - {id}), [])
      else (s.(silenced := s.silenced[id := Some(now + minutes * 60.0)]), [])
    case Unsilence(id) => (s.(silenced := s.silenced - {id}), [])
    case Query(id, now) => (Ask(s, id, now), [])
  }

  function Run(s: Engine, ops: seq<Op>): (Engine, seq<Event>)
    decreases |ops|
  {
    if ops == [] then (s, [])
    else
      var (t, es) := Step(s, ops[0]);
      var (u, more) := Run(t, ops[1..]);
      (u, es + more)
  }

  // ----- the stream of events -----

  /** The events of one rule. */
  function Stream(es: seq<Event>, id: string): seq<Event> {
    if es == [] then []
    else Stream(es[..|es| - 1], id) + (if es[|es| - 1].id == id then [es[|es| - 1]] else [])
  }

  /** Fired, resolved, fired, resolved, and so on. */
  predicate Alternates(es: seq<Event>) {
    forall i :: 0 <= i < |es| ==> (es[i].Fired? <==> i % 2 == 0)
  }

  function CountFired(es: seq<Event>): nat {
    if es == [] then 0 else CountFired(es[..|es| - 1]) + (if es[|es| - 1].Fired? then 1 else 0)
  }

  /** What was announced is what the state says: each rule's events alternate and are open exactly while
      it is firing unsuppressed, and every start that was announced or suppressed is either resolved or
      still firing. */
  ghost predicate Consistent(s: Engine, announced: seq<Event>) {
    && (forall id :: Alternates(Stream(announced, id)))
    && (forall id :: |Stream(announced, id)| % 2 == 1 <==> id in s.firing && !s.firing[id])
    && CountFired(announced) + s.suppressed == s.resolved + |s.firing|
  }

  lemma StreamAppend(es: seq<Event>, e: Event, id: string)
    ensures Stream(es + [e], id) == Stream(es, id) + (if e.id == id then [e] else [])
    ensures CountFired(es + [e]) == CountFired(es) + (if e.Fired? then 1 else 0)
  {
    assert (es + [e])[..|es|] == es;
  }

  lemma AnnounceOne(es: seq<Event>, e: Event)
    requires forall id :: Alternates(Stream(es, id))
    requires e.Fired? <==> |Stream(es, e.id)| % 2 == 0
    ensures forall id :: Alternates(Stream(es + [e], id))
    ensures forall id :: |Stream(es + [e], id)| == |Stream(es, id)| + (if id == e.id then 1 else 0)
    ensures CountFired(es + [e]) == CountFired(es) + (if e.Fired? then 1 else 0)
  {
    hide Stream, CountFired;
    forall id ensures Alternates(Stream(es + [e], id))
                   && |Stream(es + [e], id)| == |Stream(es, id)| + (if id == e.id then 1 else 0) {
      StreamAppend(es, e, id);
      assert Alternates(Stream(es, id));
    }
    StreamAppend(es, e, e.id);
  }

  /** How an announcement, if any, moves the lengths of the streams and the number of firings. */
  lemma AnnounceMaybe(announced: seq<Event>, es: seq<Event>)
    requires forall id :: Alternates(Stream(announced, id))
    requires |es| <= 1 && (es != [] ==> (es[0].Fired? <==> |Stream(announced, es[0].id)| % 2 == 0))
    ensures forall id :: Alternates(Stream(announced + es, id))
    ensures forall id :: (|Stream(announced + es, id)| ==
                          |Stream(announced, id)| + (if es != [] && es[0].id == id then 1 else 0))
    ensures CountFired(announced + es) == CountFired(announced) + (if es != [] && es[0].Fired? then 1 else 0)
  {
    hide Stream, CountFired, Alternates;
    if es == [] {
      assert announced + es == announced;
    } else {
      assert es == [es[0]];
      AnnounceOne(announced, es[0]);
    }
  }

  lemma FiringSize(firing: map<string, bool>, id: string, b: bool)
    ensures id !in firing ==> |firing[id := b]| == |firing| + 1
    ensures id in firing ==> |firing - {id}| == |firing| - 1
  {
    if id in firing {
      assert firing.Keys == (firing - {id}).Keys + {id};
      assert |firing.Keys| == |(firing - {id}).Keys| + 1;
    } else {
      assert firing[id := b].Keys == firing.Keys + {id};
    }
  }

  /** The announcement a rule makes is the one its stream is due. */
  lemma RuleIsDue(s: Engine, announced: seq<Event>, r: Rule, value: Metric, now: real)
    requires Consistent(s, announced)
    ensures var (t, es) := EvalRule(s, r, value, now);
      && |es| <= 1
      && (es != [] ==> es[0].id == r.id && (es[0].Fired? <==> |Stream(announced, r.id)| % 2 == 0))
      && (es != [] && es[0].Fired? <==> r.id !in s.firing && r.id in t.firing && !t.firing[r.id])
      && (es != [] && es[0].Resolved? <==> r.id in s.firing && !s.firing[r.id] && r.id !in t.firing)
  {
    hide Stream, CountFired, Compare, Alternates, InForce, Ask;
    assert |Stream(announced, r.id)| % 2 == 1 <==> r.id in s.firing && !s.firing[r.id];
  }

  lemma RuleCounts(s: Engine, r: Rule, value: Metric, now: real)
    ensures var (t, es) := EvalRule(s, r, value, now);
      && (if es != [] && es[0].Fired? then 1 else 0) + t.suppressed - s.suppressed
          == (t.resolved - s.resolved) + (|t.firing| - |s.firing|)
      && (forall id :: id != r.id ==> (id in t.firing <==> id in s.firing))
      && (forall id :: id != r.id && id in s.firing ==> t.firing[id] == s.firing[id])
      && (r.id in s.firing && r.id in t.firing ==> t.firing[r.id] == s.firing[r.id])
  {
    hide Compare, InForce;
    FiringSize(s.firing, r.id, true);
    FiringSize(s.firing, r.id, false);
  }

  lemma RuleKeepsConsistent(s: Engine, announced: seq<Event>, r: Rule, value: Metric, now: real)
    requires Consistent(s, announced)
    ensures var (t, es) := EvalRule(s, r, value, now); Consistent(t, announced + es)
  {
    hide Stream, CountFired, Alternates, EvalRule;
    var (t, es) := EvalRule(s, r, value, now);
    RuleIsDue(s, announced, r, value, now);
    RuleCounts(s, r, value, now);
    AnnounceMaybe(announced, es);
    forall id ensures |Stream(announced + es, id)| % 2 == 1 <==> id in t.firing && !t.firing[id] {
      assert |Stream(announced, id)| % 2 == 1 <==> id in s.firing && !s.firing[id];
    }
  }

  lemma {:induction false} RulesKeepConsistent(
      s: Engine, announced: seq<Event>, rules: seq<Rule>, metrics: map<string, Metric>, now: real)
    requires Consistent(s, announced)
    ensures var (t, es) := EvalRules(s, rules, metrics, now); Consistent(t, announced + es)
  {
    hide Consistent, EvalRule;
    if rules == [] {
      assert announced + [] == announced;
    } else {
      var last := |rules| - 1;
      RulesKeepConsistent(s, announced, rules[..last], metrics, now);
      var (t, es) := EvalRules(s, rules[..last], metrics, now);
      var value := MetricOf(metrics, rules[last].metric);
      RuleKeepsConsistent(t, announced + es, rules[last], value, now);
      assert announced + (es + EvalRule(t, rules[last], value, now).1)
          == (announced + es) + EvalRule(t, rules[last], value, now).1;
    }
  }

  /** Silences and the number of evaluations are no part of the account. */
  lemma SameAnnounced(s: Engine, t: Engine, announced: seq<Event>)
    requires t == s.(silenced := t.silenced, evaluations := t.evaluations)
    ensures Consistent(s, announced) <==> Consistent(t, announced)
  {
    hide Stream, CountFired, Alternates;
  }

  lemma StepKeepsConsistent(s: Engine, announced: seq<Event>, op: Op)
    requires Consistent(s, announced)
    ensures var (t, es) := Step(s, op); Consistent(t, announced + es)
  {
    hide Consistent, EvalRules, InForce;
    var (t, es) := Step(s, op);
    if op.Evaluate? {
      RulesKeepConsistent(s, announced, op.rules, op.metrics, op.now);
      SameAnnounced(EvalRules(s, op.rules, op.metrics, op.now).0, t, announced + es);
    } else {
      assert announced + [] == announced;
      SameAnnounced(s, t, announced);
    }
  }

  /** Over every run each rule's announcements strictly alternate, starting with a firing, and
      announced + suppressed - resolved is the number of rules firing. */
  lemma {:induction false} StreamsAreDisciplined(s: Engine, announced: seq<Event>, ops: seq<Op>)
    requires Consistent(s, announced)
    ensures var (t, es) := Run(s, ops); Consistent(t, announced + es)
    decreases |ops|
  {
    hide Consistent, Step;
    if ops == [] {
      assert announced + [] == announced;
    } else {
      var (t, es) := Step(s, ops[0]);
      StepKeepsConsistent(s, announced, ops[0]);
      StreamsAreDisciplined(t, announced + es, ops[1..]);
      assert announced + (es + Run(t, ops[1..]).1) == (announced + es) + Run(t, ops[1..]).1;
    }
  }

  // ----- a rule that starts under silence -----

  /** No evaluation finds the rule's condition over. */
  predicate NeverOver(ops: seq<Op>, id: string) {
    forall i, j :: 0 <= i < |ops| && ops[i].Evaluate? && 0 <= j < |ops[i].rules| && ops[i].rules[j].id == id ==>
      var r := ops[i].rules[j];
      var v := MetricOf(ops[i].metrics, r.metric);
      v.Missing? || Compare(v, r.operator, r.threshold)
  }

  lemma {:induction false} QuietRules(s: Engine, rules: seq<Rule>, metrics: map<string, Metric>, now: real, id: string)
    requires id in s.firing && s.firing[id]
    requires forall j :: 0 <= j < |rules| && rules[j].id == id ==>
      var v := MetricOf(metrics, rules[j].metric); v.Missing? || Compare(v, rules[j].operator, rules[j].threshold)
    ensures var (t, es) := EvalRules(s, rules, metrics, now);
      id in t.firing && t.firing[id] && forall e :: e in es ==> e.id != id
  {
    hide Compare;
    if rules != [] { QuietRules(s, rules[..|rules| - 1], metrics, now, id); }
  }

  /** An alert suppressed at its start stays unannounced, however long it lasts and also after the
      silence has expired or was lifted. */
  lemma {:induction false} SuppressedStaysQuiet(s: Engine, ops: seq<Op>, id: string)
    requires id in s.firing && s.firing[id] && NeverOver(ops, id)
    ensures var (t, es) := Run(s, ops);
      id in t.firing && t.firing[id] && forall e :: e in es ==> e.id != id
    decreases |ops|
  {
    if ops != [] {
      hide EvalRules, Compare;
      var (t, es) := Step(s, ops[0]);
      if ops[0].Evaluate? { QuietRules(s, ops[0].rules, ops[0].metrics, ops[0].now, id); }
      SuppressedStaysQuiet(t, ops[1..], id);
    }
  }

  /** And its end is not announced either; the next start is announced unless it is silenced again. */
  lemma SuppressedEndsQuietly(s: Engine, r: Rule, value: Metric, now: real, again: Metric, later: real)
    requires r.id in s.firing && s.firing[r.id] && !value.Missing? && !Compare(value, r.operator, r.threshold)
    requires !again.Missing? && Compare(again, r.operator, r.threshold)
    ensures var (t, es) := EvalRule(s, r, value, now);
      && es == [] && r.id !in t.firing
      && EvalRule(t, r, again, later).1 == if InForce(t, r.id, later) then [] else [Fired(r.id)]
  {
  }

  lemma {:induction false} StreamConcat(a: seq<Event>, b: seq<Event>, id: string)
    ensures Stream(a + b, id) == Stream(a, id) + Stream(b, id)
  {
    if b == [] {
      assert a + b == a && Stream(a, id) + [] == Stream(a, id);
    } else {
      var front := b[..|b| - 1];
      assert (a + b)[..|a + b| - 1] == a + front && (a + b)[|a + b| - 1] == b[|b| - 1];
      StreamConcat(a, front, id);
      var last := if b[|b| - 1].id == id then [b[|b| - 1]] else [];
      assert (Stream(a, id) + Stream(front, id)) + last == Stream(a, id) + (Stream(front, id) + last);
    }
  }

  /** Whatever is evaluated, silenced or lifted after a start under silence, and however the metrics move,
      the first thing announced of the rule is that it fires again: never the end of an alert nobody heard
      of.  The same holds of a rule that is not firing, and after an announced start the first thing is its
      end. */
  lemma FirstAnnouncement(s: Engine, announced: seq<Event>, ops: seq<Op>, id: string)
    requires Consistent(s, announced)
    ensures var heard := Stream(Run(s, ops).1, id);
      heard != [] ==> (heard[0].Fired? <==> id !in s.firing || s.firing[id])
  {
    var es := Run(s, ops).1;
    StreamsAreDisciplined(s, announced, ops);
    StreamConcat(announced, es, id);
    hide Stream, Run, CountFired;
    var before, heard := Stream(announced, id), Stream(es, id);
    assert Alternates(Stream(announced + es, id));
    if heard != [] { assert (before + heard)[|before|] == heard[0]; }
  }

  /** A firing is announced exactly when the rule was not firing, now meets its condition, and no silence
      is in force. */
  lemma FiredIff(s: Engine, r: Rule, value: Metric, now: real)
    ensures EvalRule(s, r, value, now).1 == [Fired(r.id)] <==>
      !value.Missing? && Compare(value, r.operator, r.threshold) && r.id !in s.firing && !InForce(s, r.id, now)
  {
  }

  /** In reals: a rule that watches for more than `t` fires when it is quiet and the value is above, and its end is
      announced when it was announced and the value is at most that; a metric that was not collected is skipped. */
  lemma CrossingFires(s: Engine, r: Rule, metrics: map<string, Metric>, v: real, t: real, now: real)
    ensures var (after, es) := Step(s, Evaluate([r], metrics, now));
      && (r.metric !in metrics ==> es == [] && after.firing == s.firing)
      && (r.metric in metrics && metrics[r.metric] == Num(v) && r.operator == Gt && r.threshold == Num(t) ==>
            && (es == [Fired(r.id)] <==> r.id !in s.firing && !InForce(s, r.id, now) && v > t)
            && (es == [Resolved(r.id)] <==> r.id in s.firing && !s.firing[r.id] && v <= t)
            && (r.id in after.firing <==> v > t))
  {
    assert [r][..0] == [];
    assert EvalRules(s, [], metrics, now) == (s, []);
    var (u, more) := EvalRule(s, r, MetricOf(metrics, r.metric), now);
    assert EvalRules(s, [r], metrics, now) == (u, [] + more) && [] + more == more;
  }

  // ----- silences -----

  /** A silence is in force for exactly its minutes, and one that is no time long lifts it; no other rule's silence
      changes. */
  lemma SilenceIs(s: Engine, id: string, minutes: real, now: real, other: string, at: real)
    ensures var (after, es) := Step(s, Silence(id, minutes, now));
      && es == [] && after.firing == s.firing
      && (id == "" ==> after == s)
      && (id != "" ==> (InForce(after, id, at) <==> minutes > 0.0 && at < now + 60.0 * minutes))
      && (other != id ==> (InForce(after, other, at) <==> InForce(s, other, at)))
    ensures var (after, es) := Step(s, Unsilence(id));
      && es == [] && after.firing == s.firing && !InForce(after, id, at)
      && (other != id ==> (InForce(after, other, at) <==> InForce(s, other, at)))
  {
  }

  /** Asking forgets a silence exactly when it is no longer in force, and changes no answer. */
  lemma AskingIs(s: Engine, id: string, now: real, other: string, at: real)
    requires at >= now
    ensures var after := Ask(s, id, now);
      && after == s.(silenced := after.silenced)
      && (id in after.silenced <==> InForce(s, id, now))
      && (InForce(after, other, at) <==> InForce(s, other, at))
      && (other != id ==> (other in after.silenced <==> other in s.silenced))
  {
  }

  /** An evaluation counts once, and leaves what is silenced so. */
  lemma EvaluationIs(s: Engine, rules: seq<Rule>, metrics: map<string, Metric>, now: real, id: string, at: real)
    requires at >= now
    ensures var after := Step(s, Evaluate(rules, metrics, now)).0;
      after.evaluations == s.evaluations + 1 && (InForce(after, id, at) <==> InForce(s, id, at))
  {
    RulesKeepSilences(s, rules, metrics, now, id, at);
  }

  lemma {:induction false} RulesKeepSilences(
      s: Engine, rules: seq<Rule>, metrics: map<string, Metric>, now: real, id: string, at: real)
    requires at >= now
    ensures var after := EvalRules(s, rules, metrics, now).0;
      after.evaluations == s.evaluations && (InForce(after, id, at) <==> InForce(s, id, at))
  {
    hide Compare;
    if rules != [] { RulesKeepSilences(s, rules[..|rules| - 1], metrics, now, id, at); }
  }

  // ----- the engine -----

  class AlertRules {
    var firing: map<string, bool>
    var silenced: map<string, Option<real>>
    var resolved: nat
    var suppressed: nat
    var evaluations: nat
    ghost var announced: seq<Event>

    ghost function Model(): Engine
      reads this
    {
      Engine(firing, silenced, resolved, suppressed, evaluations)
    }

    ghost predicate Valid()
      reads this
    {
      Consistent(Model(), announced)
    }

    constructor ()
      ensures Valid() && Model() == Init() && announced == []
    {
      firing, silenced, resolved, suppressed, evaluations, announced := map[], map[], 0, 0, 0, [];
    }

    method IsSilenced(id: string, now: real) returns (b: bool)
      requires Valid()
      modifies this`silenced
      ensures Valid() && Model() == Ask(old(Model()), id, now) && b == InForce(old(Model()), id, now)
    {
      StepKeepsConsistent(Model(), announced, Query(id, now));
      assert announced + [] == announced;
      if id !in silenced {
        return false;
      }
      var until := silenced[id];
      if until.None? || now >= until.value {
        silenced := silenced - {id};
        return false;
      }
      return true;
    }

    method EvaluateRules(rules: seq<Rule>, metrics: map<string, Metric>, now: real) returns (events: seq<Event>)
      requires Valid()
      modifies this
      ensures Valid() && (Model(), events) == Step(old(Model()), Evaluate(rules, metrics, now))
      ensures announced == old(announced) + events
    {
      hide Consistent, Compare;
      ghost var start := Model();
      events := [];
      assert rules[..0] == [] && announced + [] == announced;
      for i := 0 to |rules|
        invariant Valid() && (Model(), events) == EvalRules(start, rules[..i], metrics, now)
        invariant announced == old(announced) + events
      {
        assert rules[..i + 1][..i] == rules[..i];
        var r := rules[i];
        var value := MetricOf(metrics, r.metric);
        ghost var before, known := Model(), announced;
        RuleKeepsConsistent(before, known, r, value, now);
        var more: seq<Event> := [];
        if !value.Missing? {
          var isFiring := Compare(value, r.operator, r.threshold);
          var wasFiring := r.id in firing;
          if isFiring && !wasFiring {
            var silent := IsSilenced(r.id, now);
            firing := firing[r.id := silent];
            if silent {
              suppressed := suppressed + 1;
            } else {
              more := [Fired(r.id)];
            }
          } else if !isFiring && wasFiring {
            if !firing[r.id] {
              more := [Resolved(r.id)];
            }
            firing := firing - {r.id};
            resolved := resolved + 1;
          }
        }
        assert (Model(), more) == EvalRule(before, r, value, now);
        assert old(announced) + (events + more) == known + more;
        events := events + more;
        announced := known + more;
      }
      assert rules[..|rules|] == rules;
      SameAnnounced(Model(), Model().(evaluations := evaluations + 1), announced);
      evaluations := evaluations + 1;
    }

    method SilenceRule(id: string, minutes: real, now: real) returns (ok: bool)
      requires Valid()
      modifies this`silenced
      ensures Valid() && Model() == Step(old(Model()), Silence(id, minutes, now)).0
      ensures ok <==> id != "" && (minutes > 0.0 || id in old(silenced))
    {
      StepKeepsConsistent(Model(), announced, Silence(id, minutes, now));
      assert announced + [] == announced;
      if id == "" {
        return false;
      }
      if minutes <= 0.0 {
        ok := id in silenced;
        silenced := silenced - {id};
        return;
      }
      silenced := silenced[id := Some(now + minutes * 60.0)];
      return true;
    }

    method UnsilenceRule(id: string) returns (existed: bool)
      requires Valid()
      modifies this`silenced
      ensures Valid() && Model() == Step(old(Model()), Unsilence(id)).0 && existed == (id in old(silenced))
    {
      StepKeepsConsistent(Model(), announced, Unsilence(id));
      assert announced + [] == announced;
      existed := id in silenced;
      silenced := silenced - {id};
    }
  }
}
