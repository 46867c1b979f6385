/** The traffic-policy engine of the Edge Dataplane Agent.

    Per application it remembers the rules it has installed in the route table of the
    Network Transport Service (NTS). Every call to NTS may fail. */
module TrafficPolicy {
  import opened Wrappers

  /** A rule as it is kept in memory and installed in NTS. */
  datatype Rule = Rule(lookupKeys: string, mac: string)

  /** What the request says about the target's MAC address. */
  datatype MacField = NoMac | BadMac(text: string) | GoodMac(mac: string)

  /** A requested rule. `keys` is the result of rendering the rule to lookup keys. */
  datatype ProtoRule = ProtoRule(keys: Option<string>, mac: MacField)

  /** A request; `rules` distinguishes an absent list from an empty one. */
  datatype Policy = Policy(id: string, rules: Option<seq<ProtoRule>>)

  datatype AppTrafficPolicy = AppTrafficPolicy(policy: Policy, rules: seq<Rule>)

  datatype Error = EmptyId | NoConnection | NotConnected | BadKeys | BadTarget | AddFailed(rule: Rule)

  /** One call to NTS and whether it succeeded. */
  datatype Event = Add(rule: Rule, ok: bool) | Remove(lookupKeys: string, ok: bool)

  type Policies = map<string, AppTrafficPolicy>

  // ---------- Parsing ----------

  predicate Parsable(r: ProtoRule) {
    r.keys.Some? && r.mac.GoodMac?
  }

  /** Ranging over an absent list visits nothing. */
  function RulesOf(tp: Policy): seq<ProtoRule> {
    if tp.rules.Some? then tp.rules.value else []
  }

  predicate AllParsable(rules: seq<ProtoRule>) {
    forall i :: 0 <= i < |rules| ==> Parsable(rules[i])
  }

  /** The in-memory form of a well-formed rule list. */
  function Parse(rules: seq<ProtoRule>): (parsed: seq<Rule>)
    requires AllParsable(rules)
    ensures |parsed| == |rules|
    ensures forall i :: 0 <= i < |rules| ==> parsed[i] == Rule(rules[i].keys.value, rules[i].mac.mac)
  {
    seq(|rules|, i requires 0 <= i < |rules| => Rule(rules[i].keys.value, rules[i].mac.mac))
  }

  /** The first rule that does not parse. */
  function FirstBad(rules: seq<ProtoRule>): (i: nat)
    requires !AllParsable(rules)
    ensures i < |rules| && !Parsable(rules[i]) && forall j :: 0 <= j < i ==> Parsable(rules[j])
  {
    if Parsable(rules[0]) then 1 + FirstBad(rules[1..]) else 0
  }

  /** The first bad rule decides the error; of a rule with neither, the keys do. */
  function ParseError(rules: seq<ProtoRule>): Error
    requires !AllParsable(rules)
  {
    if rules[FirstBad(rules)].keys.None? then BadKeys else BadTarget
  }

  /** Accepts exactly the lists all of whose rules parse; otherwise the first bad rule decides the error. */
  method ValidateTrafficRules(rules: seq<ProtoRule>) returns (parsed: Result<seq<Rule>, Error>)
    ensures parsed.Success? <==> AllParsable(rules)
    ensures parsed.Success? ==> parsed.value == Parse(rules)
    ensures parsed.Failure? ==> parsed.error == ParseError(rules)
    ensures parsed.Failure? ==> exists i ::
      && 0 <= i < |rules| && (forall j :: 0 <= j < i ==> rules[j].keys.Some? && rules[j].mac.GoodMac?)
      && if rules[i].keys.None? then parsed.error == BadKeys else !rules[i].mac.GoodMac? && parsed.error == BadTarget
  {
    var acc: seq<Rule> := [];
    for i := 0 to |rules|
      invariant AllParsable(rules[..i])
      invariant acc == Parse(rules[..i])
    {
      var rule := rules[i];
      assert Parsable(rule) ==> rules[..i + 1] == rules[..i] + [rule];
      if rule.keys.None? {
        return Failure(BadKeys);
      }
      if !rule.mac.GoodMac? {
        return Failure(BadTarget);
      }
      acc := acc + [Rule(rule.keys.value, rule.mac.mac)];
    }
    assert rules[..|rules|] == rules;
    return Success(acc);
  }

  // ---------- The removal loop ----------

  /** "Take index 0, move the last element into its place, shrink by one." */
  function DropFirstBySwap(rules: seq<Rule>): (rest: seq<Rule>)
    requires rules != []
    ensures |rest| == |rules| - 1
  {
    rules[0 := rules[|rules| - 1]][..|rules| - 1]
  }

  /** The order in which the swap-with-last loop visits the rules. */
  function RemovalOrder(rules: seq<Rule>): (order: seq<Rule>)
    ensures |order| == |rules|
    decreases |rules|
  {
    if rules == [] then [] else [rules[0]] + RemovalOrder(DropFirstBySwap(rules))
  }

  /** The visit order in closed form: the first rule, then the others from the back. */
  lemma {:induction false} RemovalOrderIsFirstThenBackwards(rules: seq<Rule>)
    ensures forall k :: 0 <= k < |rules| ==>
      RemovalOrder(rules)[k] == if k == 0 then rules[0] else rules[|rules| - k]
    decreases |rules|
  {
    if rules == [] {
    } else {
      RemovalOrderIsFirstThenBackwards(DropFirstBySwap(rules));
    }
  }

  lemma DropFirstBySwapLosesOne(rules: seq<Rule>)
    requires rules != []
    ensures multiset{rules[0]} + multiset(DropFirstBySwap(rules)) == multiset(rules)
  {
    var n := |rules|;
    if n > 1 {
      assert DropFirstBySwap(rules) == [rules[n - 1]] + rules[1..n - 1];
      assert rules == [rules[0]] + (rules[1..n - 1] + [rules[n - 1]]);
    } else {
      assert rules == [rules[0]];
    }
  }

  /** Every stored rule is visited exactly once. */
  lemma {:induction false} RemovalOrderIsPermutation(rules: seq<Rule>)
    ensures multiset(RemovalOrder(rules)) == multiset(rules)
    decreases |rules|
  {
    if rules == [] {
    } else {
      var rest := DropFirstBySwap(rules);
      RemovalOrderIsPermutation(rest);
      DropFirstBySwapLosesOne(rules);
      var order := RemovalOrder(rest);
      assert multiset([rules[0]] + order) == multiset{rules[0]} + multiset(order);
    }
  }

  // ---------- Histories ----------

  /** Successful additions of `key` minus issued removals of `key`. */
  function Net(events: seq<Event>, key: string): int {
    if events == [] then 0 else
      var e := events[|events| - 1];
      Net(events[..|events| - 1], key) +
      match e
      case Add(rule, ok) => if ok && rule.lookupKeys == key then 1 else 0
      case Remove(k, _) => if k == key then -1 else 0
  }

  lemma {:induction false} NetAppend(a: seq<Event>, b: seq<Event>, key: string)
    ensures Net(a + b, key) == Net(a, key) + Net(b, key)
    decreases |b|
  {
    if b == [] {
      assert a + b == a;
    } else {
      NetAppend(a, b[..|b| - 1], key);
      assert (a + b)[..|a + b| - 1] == a + b[..|b| - 1];
    }
  }

  /** Occurrences of `key` in one application's rules. */
  function Occurrences(rules: seq<Rule>, key: string): nat {
    if rules == [] then 0 else
      Occurrences(rules[..|rules| - 1], key) + if rules[|rules| - 1].lookupKeys == key then 1 else 0
  }

  /** Occurrences of `key` in memory over all applications. */
  ghost function Stored(policies: Policies, key: string): nat
    decreases |policies|
  {
    if |policies| == 0 then 0 else
      var id :| id in policies;
      Occurrences(policies[id].rules, key) + Stored(policies - {id}, key)
  }

  lemma {:induction false} StoredSplit(policies: Policies, id: string, key: string)
    requires id in policies
    ensures Stored(policies, key) == Occurrences(policies[id].rules, key) + Stored(policies - {id}, key)
    decreases |policies|
  {
    var other :| other in policies &&
      Stored(policies, key) == Occurrences(policies[other].rules, key) + Stored(policies - {other}, key);
    if other != id {
      var without, withoutOther := policies - {id}, policies - {other};
      assert without - {other} == withoutOther - {id};
      StoredSplit(withoutOther, id, key);
      StoredSplit(without, other, key);
    }
  }

  /** The conservation law: memory holds exactly what was added and not yet asked to be removed. */
  ghost predicate Balanced(policies: Policies, events: seq<Event>) {
    forall key :: Net(events, key) == Stored(policies, key)
  }

  /** Successful additions of `rules`, in order. */
  function Additions(rules: seq<Rule>): (events: seq<Event>)
    ensures |events| == |rules|
  {
    seq(|rules|, i requires 0 <= i < |rules| => Add(rules[i], true))
  }

  /** One removal per stored rule, in visit order; `outcome` tells which of them succeed. */
  function Removals(rules: seq<Rule>, outcome: nat -> bool, from: nat): (events: seq<Event>)
    ensures |events| == |rules|
  {
    var order := RemovalOrder(rules);
    seq(|rules|, i requires 0 <= i < |rules| => Remove(order[i].lookupKeys, outcome(from + i)))
  }

  lemma {:induction false} AdditionsNet(rules: seq<Rule>, key: string)
    ensures Net(Additions(rules), key) == Occurrences(rules, key)
    decreases |rules|
  {
    if rules == [] {
    } else {
      AdditionsNet(rules[..|rules| - 1], key);
      assert Additions(rules)[..|rules| - 1] == Additions(rules[..|rules| - 1]);
    }
  }

  lemma {:induction false} OccurrencesConcat(a: seq<Rule>, b: seq<Rule>, key: string)
    ensures Occurrences(a + b, key) == Occurrences(a, key) + Occurrences(b, key)
    decreases |b|
  {
    if b == [] {
      assert a + b == a;
    } else {
      OccurrencesConcat(a, b[..|b| - 1], key);
      assert (a + b)[..|a + b| - 1] == a + b[..|b| - 1];
    }
  }

  /** The first removal is that of index 0; the others are those of the swapped and shrunk list. */
  lemma RemovalsStep(rules: seq<Rule>, outcome: nat -> bool, from: nat)
    requires rules != []
    ensures Removals(rules, outcome, from)
         == [Remove(rules[0].lookupKeys, outcome(from))] + Removals(DropFirstBySwap(rules), outcome, from + 1)
  {
    var order, rest := RemovalOrder(rules), RemovalOrder(DropFirstBySwap(rules));
    assert order == [rules[0]] + rest;
  }

  /** Call by call: the first removal is that of the first rule, the others are those of the other rules from the back. */
  lemma RemovalsExactly(rules: seq<Rule>, outcome: nat -> bool, from: nat)
    ensures forall k :: 0 <= k < |rules| ==>
      Removals(rules, outcome, from)[k] ==
      Remove((if k == 0 then rules[0] else rules[|rules| - k]).lookupKeys, outcome(from + k))
  {
    RemovalOrderIsFirstThenBackwards(rules);
  }

  /** The history once the removals of `rules` have been issued on top of `events`. */
  function Removed(events: seq<Event>, rules: seq<Rule>, outcome: nat -> bool): seq<Event> {
    events + Removals(rules, outcome, |events|)
  }

  lemma RemovedStep(events: seq<Event>, rules: seq<Rule>, outcome: nat -> bool)
    requires rules != []
    ensures Removed(events, rules, outcome) ==
            Removed(events + [Remove(rules[0].lookupKeys, outcome(|events|))], DropFirstBySwap(rules), outcome)
  {
    RemovalsStep(rules, outcome, |events|);
    var first, rest := [Remove(rules[0].lookupKeys, outcome(|events|))], DropFirstBySwap(rules);
    assert events + (first + Removals(rest, outcome, |events| + 1)) ==
           events + first + Removals(rest, outcome, |events| + 1);
  }

  /** Whatever the outcomes, removing a rule list takes back every occurrence of every key. */
  lemma {:induction false} RemovalsNet(rules: seq<Rule>, outcome: nat -> bool, from: nat, key: string)
    ensures Net(Removals(rules, outcome, from), key) == 0 - Occurrences(rules, key)
    decreases |rules|
  {
    if rules == [] {
    } else {
      var n := |rules|;
      var rest := DropFirstBySwap(rules);
      RemovalsNet(rest, outcome, from + 1, key);
      var first := Remove(rules[0].lookupKeys, outcome(from));
      RemovalsStep(rules, outcome, from);
      NetAppend([first], Removals(rest, outcome, from + 1), key);
      assert [first][..0] == [];
      assert [rules[0]][..0] == [];
      OccurrencesConcat([rules[0]], rules[1..], key);
      assert rules == [rules[0]] + rules[1..];
      if n > 1 {
        assert [rules[n - 1]][..0] == [];
        OccurrencesConcat([rules[n - 1]], rules[1..n - 1], key);
        OccurrencesConcat(rules[1..n - 1], [rules[n - 1]], key);
        assert rest == [rules[n - 1]] + rules[1..n - 1];
        assert rules[1..] == rules[1..n - 1] + [rules[n - 1]];
      }
    }
  }

  lemma BalancedAfterRemoval(policies: Policies, events: seq<Event>, id: string, outcome: nat -> bool)
    requires Balanced(policies, events) && id in policies
    ensures Balanced(policies - {id}, events + Removals(policies[id].rules, outcome, |events|))
  {
    var removed := Removals(policies[id].rules, outcome, |events|);
    forall key ensures Net(events + removed, key) == Stored(policies - {id}, key) {
      NetAppend(events, removed, key);
      RemovalsNet(policies[id].rules, outcome, |events|, key);
      StoredSplit(policies, id, key);
    }
  }

  lemma BalancedAfterAdditions(policies: Policies, events: seq<Event>, app: AppTrafficPolicy, id: string)
    requires Balanced(policies, events) && id !in policies
    ensures Balanced(policies[id := app], events + Additions(app.rules))
  {
    forall key ensures Net(events + Additions(app.rules), key) == Stored(policies[id := app], key) {
      NetAppend(events, Additions(app.rules), key);
      AdditionsNet(app.rules, key);
      StoredSplit(policies[id := app], id, key);
      assert policies[id := app] - {id} == policies;
    }
  }

  /** The history after `i` successful additions, one failing one and the removal of the `i` installed rules. */
  function RolledBack(events: seq<Event>, rules: seq<Rule>, i: nat, outcome: nat -> bool): seq<Event>
    requires i < |rules|
  {
    var failed := events + Additions(rules[..i]) + [Add(rules[i], false)];
    failed + Removals(rules[..i], outcome, |failed|)
  }

  /** A rolled-back request leaves no trace in the balance. */
  lemma BalancedAfterRollback(policies: Policies, events: seq<Event>, rules: seq<Rule>, i: nat, outcome: nat -> bool)
    requires Balanced(policies, events) && i < |rules|
    ensures Balanced(policies, RolledBack(events, rules, i, outcome))
  {
    var added, failure := Additions(rules[..i]), [Add(rules[i], false)];
    var failed := events + added + failure;
    var removed := Removals(rules[..i], outcome, |failed|);
    forall key ensures Net(failed + removed, key) == Stored(policies, key) {
      NetAppend(events, added, key);
      NetAppend(events + added, failure, key);
      NetAppend(failed, removed, key);
      AdditionsNet(rules[..i], key);
      RemovalsNet(rules[..i], outcome, |failed|, key);
      assert failure[..0] == [];
    }
  }

  // ---------- What a request should do ----------

  /** Calls number `from` to `from + count - 1` all succeed. */
  predicate AllSucceed(outcome: nat -> bool, from: nat, count: nat) {
    forall n | from <= n < from + count :: outcome(n)
  }

  /** The offset of the first failing call. */
  function FirstFailure(outcome: nat -> bool, from: nat, count: nat): (i: nat)
    requires !AllSucceed(outcome, from, count)
    ensures i < count && !outcome(from + i) && AllSucceed(outcome, from, i)
    decreases count
  {
    if outcome(from) then 1 + FirstFailure(outcome, from + 1, count - 1) else 0
  }

  /** Memory after a request that passed or failed: all of the new rules, or no entry at all. */
  function After(policies: Policies, tp: Policy, connects: bool, passed: bool): (after: Policies)
    ensures after - {tp.id} == policies - {tp.id}
  {
    if tp.id == "" || !connects then policies
    else if passed && tp.rules.Some? && AllParsable(tp.rules.value) then
      policies[tp.id := AppTrafficPolicy(tp, Parse(tp.rules.value))]
    else policies - {tp.id}
  }

  lemma BalancedAfterRequest(policies: Policies, events: seq<Event>, tp: Policy, outcome: nat -> bool)
    requires Balanced(policies, events) && tp.id !in policies && AllParsable(RulesOf(tp))
    ensures var rules := RulesOf(tp);
      if AllSucceed(outcome, |events|, |rules|) then
        Balanced(policies[tp.id := AppTrafficPolicy(tp, Parse(rules))], events + Additions(Parse(rules)))
      else
        Balanced(policies - {tp.id},
                 RolledBack(events, Parse(rules), FirstFailure(outcome, |events|, |rules|), outcome))
  {
    var rules := RulesOf(tp);
    if AllSucceed(outcome, |events|, |rules|) {
      BalancedAfterAdditions(policies, events, AppTrafficPolicy(tp, Parse(rules)), tp.id);
    } else {
      assert policies - {tp.id} == policies;
      BalancedAfterRollback(policies, events, Parse(rules), FirstFailure(outcome, |events|, |rules|), outcome);
    }
  }

  /** What the engine's behaviour depends on: its memory and the history of calls. */
  datatype Memory = Memory(policies: Policies, events: seq<Event>)

  /** The number of the first addition of a request, after the removal of what was stored. */
  function Start(m: Memory, id: string): nat {
    |m.events| + if id in m.policies then |m.policies[id].rules| else 0
  }

  /** The history once the stored rules of an application have been removed. */
  function Cleared(m: Memory, id: string, outcome: nat -> bool): (events: seq<Event>)
    ensures |events| == Start(m, id)
  {
    if id in m.policies then Removed(m.events, m.policies[id].rules, outcome) else m.events
  }

  /** The answer to a request. */
  function Answer(m: Memory, tp: Policy, connects: bool, outcome: nat -> bool): Outcome<Error> {
    if tp.id == "" then Fail(EmptyId)
    else if !connects then Fail(NoConnection)
    else if tp.rules.None? then Pass
    else
      var rules, start := tp.rules.value, Start(m, tp.id);
      if !AllParsable(rules) then Fail(ParseError(rules))
      else if AllSucceed(outcome, start, |rules|) then Pass
      else Fail(AddFailed(Parse(rules)[FirstFailure(outcome, start, |rules|)]))
  }

  /** The history once a request is answered. */
  function History(m: Memory, tp: Policy, connects: bool, outcome: nat -> bool): seq<Event> {
    if tp.id == "" || !connects then m.events
    else
      var cleared := Cleared(m, tp.id, outcome);
      if tp.rules.None? || !AllParsable(tp.rules.value) then cleared
      else
        var rules := Parse(tp.rules.value);
        if AllSucceed(outcome, |cleared|, |rules|) then cleared + Additions(rules)
        else RolledBack(cleared, rules, FirstFailure(outcome, |cleared|, |rules|), outcome)
  }

  function Served(m: Memory, tp: Policy, connects: bool, outcome: nat -> bool): Memory {
    Memory(After(m.policies, tp, connects, Answer(m, tp, connects, outcome).Pass?), History(m, tp, connects, outcome))
  }

  /** The answer, spelled out: without rules, a connected request passes; with rules, it passes iff each has readable keys
      and a usable MAC address and each addition succeeds. */
  lemma AnswerExactly(m: Memory, tp: Policy, connects: bool, outcome: nat -> bool)
    ensures var answer := Answer(m, tp, connects, outcome);
      && (tp.id == "" ==> answer == Fail(EmptyId))
      && (tp.id != "" && !connects ==> answer == Fail(NoConnection))
      && (tp.id != "" && connects && tp.rules.None? ==> answer == Pass)
      && (tp.id != "" && connects && tp.rules.Some? ==>
            var start := |m.events| + if tp.id in m.policies then |m.policies[tp.id].rules| else 0;
            (answer.Pass? <==> forall i :: 0 <= i < |tp.rules.value| ==>
               tp.rules.value[i].keys.Some? && tp.rules.value[i].mac.GoodMac? && outcome(start + i)))
  {
    if tp.id != "" && connects && tp.rules.Some? && AllParsable(tp.rules.value) {
      var rules, start := tp.rules.value, Start(m, tp.id);
      if AllSucceed(outcome, start, |rules|) {
      } else {
        var i := FirstFailure(outcome, start, |rules|);
        assert !outcome(start + i) && Parsable(rules[i]);
      }
    }
  }

  /** What a request with rules that passes leaves: the stored rules, and as the last calls one successful addition for
      each rule, index by index with that rule's keys and MAC address. */
  lemma PassedExactly(m: Memory, tp: Policy, outcome: nat -> bool)
    requires tp.id != "" && tp.rules.Some? && Answer(m, tp, true, outcome).Pass?
    ensures AllParsable(tp.rules.value)
    ensures var rules, after := tp.rules.value, Served(m, tp, true, outcome);
      && tp.id in after.policies && after.policies[tp.id].policy == tp && |after.policies[tp.id].rules| == |rules|
      && |rules| <= |after.events|
      && forall i :: 0 <= i < |rules| ==>
           var rule := Rule(rules[i].keys.value, rules[i].mac.mac);
           after.policies[tp.id].rules[i] == rule && after.events[|after.events| - |rules| + i] == Add(rule, true)
  {
  }

  /** A request that fails at an addition: the calls up to that addition are, index by index, additions of its rules with
      their keys and MAC addresses, all but the last successful; the error names the last of them; no rule is stored. */
  lemma FailedExactly(m: Memory, tp: Policy, outcome: nat -> bool)
    requires tp.id != "" && tp.rules.Some? && AllParsable(tp.rules.value) && Answer(m, tp, true, outcome).Fail?
    ensures var rules, after := tp.rules.value, Served(m, tp, true, outcome);
      var start := |m.events| + if tp.id in m.policies then |m.policies[tp.id].rules| else 0;
      && tp.id !in after.policies
      && exists f ::
           && 0 <= f < |rules| && start + f < |after.events|
           && Answer(m, tp, true, outcome) == Fail(AddFailed(Rule(rules[f].keys.value, rules[f].mac.mac)))
           && forall i :: 0 <= i <= f ==>
                after.events[start + i] == Add(Rule(rules[i].keys.value, rules[i].mac.mac), i < f)
  {
    var rules, start := Parse(tp.rules.value), Start(m, tp.id);
    var f := FirstFailure(outcome, start, |rules|);
    var after := Served(m, tp, true, outcome);
    assert after.events == RolledBack(Cleared(m, tp.id, outcome), rules, f, outcome);
    forall i | 0 <= i <= f
      ensures after.events[start + i] == Add(Rule(tp.rules.value[i].keys.value, tp.rules.value[i].mac.mac), i < f)
    {
    }
  }

  /** Every stored rule, keys and MAC address, was added successfully. */
  ghost predicate Installed(m: Memory) {
    forall id, i :: id in m.policies && 0 <= i < |m.policies[id].rules| ==>
      Add(m.policies[id].rules[i], true) in m.events
  }

  lemma HistoryGrows(m: Memory, tp: Policy, connects: bool, outcome: nat -> bool)
    ensures m.events <= History(m, tp, connects, outcome)
  {
  }

  lemma ServedKeepsInstalled(m: Memory, tp: Policy, connects: bool, outcome: nat -> bool)
    requires Installed(m)
    ensures Installed(Served(m, tp, connects, outcome))
  {
    var after := Served(m, tp, connects, outcome);
    HistoryGrows(m, tp, connects, outcome);
    forall id, i | id in after.policies && 0 <= i < |after.policies[id].rules|
      ensures Add(after.policies[id].rules[i], true) in after.events
    {
      if id == tp.id && tp.id != "" && connects {
        PassedExactly(m, tp, outcome);
        assert after.events[|after.events| - |tp.rules.value| + i] == Add(after.policies[id].rules[i], true);
      } else {
        assert m.policies[id] == after.policies[id];
        var k :| 0 <= k < |m.events| && m.events[k] == Add(m.policies[id].rules[i], true);
        assert after.events[k] == m.events[k];
      }
    }
  }

  /** A run: policies and whether NTS can be connected to. */
  function ServedAll(m: Memory, requests: seq<(Policy, bool)>, outcome: nat -> bool): Memory
    decreases |requests|
  {
    if requests == [] then m else
      var n := |requests| - 1;
      Served(ServedAll(m, requests[..n], outcome), requests[n].0, requests[n].1, outcome)
  }

  /** Over every run every stored rule, keys and MAC address, was added successfully. */
  lemma {:induction false} RunKeepsInstalled(m: Memory, requests: seq<(Policy, bool)>, outcome: nat -> bool)
    requires Installed(m)
    ensures Installed(ServedAll(m, requests, outcome))
    decreases |requests|
  {
    if requests == [] {
    } else {
      var n := |requests| - 1;
      RunKeepsInstalled(m, requests[..n], outcome);
      ServedKeepsInstalled(ServedAll(m, requests[..n], outcome), requests[n].0, requests[n].1, outcome);
    }
  }

  /** A request that gets as far as the application's rules. */
  predicate Concerns(request: (Policy, bool), id: string) {
    request.0.id == id && request.1
  }

  /** Request `i` is the last one for an application that could connect. */
  predicate LastFor(requests: seq<(Policy, bool)>, i: nat, id: string) {
    i < |requests| && Concerns(requests[i], id) && forall j :: i < j < |requests| ==> !Concerns(requests[j], id)
  }

  /** The last request decides an application's entry: it has one iff that request was answered with success and has
      rules, and then it is those rules, parsed, in order. */
  lemma {:induction false} LastRequestDecides(
      m: Memory, requests: seq<(Policy, bool)>, outcome: nat -> bool, i: nat, id: string)
    requires id != "" && LastFor(requests, i, id)
    ensures var after, tp := ServedAll(m, requests, outcome).policies, requests[i].0;
      && (id in after <==>
          Answer(ServedAll(m, requests[..i], outcome), tp, true, outcome).Pass? && tp.rules.Some?)
      && (id in after ==> AllParsable(RulesOf(tp)) && after[id] == AppTrafficPolicy(tp, Parse(RulesOf(tp))))
    decreases |requests|
  {
    var n := |requests| - 1;
    if i == n {
    } else {
      LastRequestDecides(m, requests[..n], outcome, i, id);
      assert requests[..n][..i] == requests[..i];
      OthersKept(ServedAll(m, requests[..n], outcome), requests[n], outcome, id);
    }
  }

  lemma OthersKept(m: Memory, request: (Policy, bool), outcome: nat -> bool, id: string)
    requires !Concerns(request, id)
    ensures var after := Served(m, request.0, request.1, outcome).policies;
      && (id in after <==> id in m.policies)
      && (id in after ==> after[id] == m.policies[id])
  {
  }

  /** An application no connected request is for keeps its entry. */
  lemma {:induction false} UntouchedStays(m: Memory, requests: seq<(Policy, bool)>, outcome: nat -> bool, id: string)
    requires forall j :: 0 <= j < |requests| ==> !Concerns(requests[j], id)
    ensures var after := ServedAll(m, requests, outcome).policies;
      && (id in after <==> id in m.policies)
      && (id in after ==> after[id] == m.policies[id])
    decreases |requests|
  {
    if requests == [] {
    } else {
      var n := |requests| - 1;
      UntouchedStays(m, requests[..n], outcome, id);
      OthersKept(ServedAll(m, requests[..n], outcome), requests[n], outcome, id);
    }
  }

  // ---------- The engine ----------

  /** The remote route table. Call number `n` succeeds iff `outcome(n)`; `events` is its history. */
  class RouteTable {
    const outcome: nat -> bool
    var events: seq<Event>

    constructor (outcome: nat -> bool)
      ensures this.outcome == outcome && events == []
    {
      this.outcome := outcome;
      events := [];
    }

    method RouteAdd(rule: Rule) returns (ok: bool)
      modifies this
      ensures ok == outcome(|old(events)|)
      ensures events == old(events) + [Add(rule, ok)]
    {
      ok := outcome(|events|);
      events := events + [Add(rule, ok)];
    }

    method RouteRemove(lookupKeys: string) returns (ok: bool)
      modifies this
      ensures ok == outcome(|old(events)|)
      ensures events == old(events) + [Remove(lookupKeys, ok)]
    {
      ok := outcome(|events|);
      events := events + [Remove(lookupKeys, ok)];
    }
  }

  class Server {
    const nts: RouteTable
    var policies: Policies

    constructor (outcome: nat -> bool)
      ensures policies == map[] && nts.events == [] && nts.outcome == outcome && fresh(nts)
      ensures Balanced(policies, nts.events)
    {
      nts := new RouteTable(outcome);
      policies := map[];
    }

    /** Removes all rules of an application. Failing removals are ignored; without a connection
        a known application is an error and nothing changes. */
    method RemoveRules(id: string, conn: RouteTable?) returns (result: Outcome<Error>)
      requires conn != null ==> conn == nts
      modifies this, nts
      ensures id !in old(policies) || conn == null ==>
        policies == old(policies) && nts.events == old(nts.events)
      ensures id !in old(policies) ==> result == Pass
      ensures id in old(policies) && conn == null ==> result == Fail(NotConnected)
      ensures id in old(policies) && conn != null ==>
        && result == Pass
        && policies == old(policies) - {id}
        && nts.events == old(nts.events) + Removals(old(policies[id].rules), nts.outcome, |old(nts.events)|)
    {
      if id !in policies {
        return Pass;
      }
      if conn == null {
        return Fail(NotConnected);
      }
      ghost var rules := policies[id].rules;
      ghost var all := Removed(nts.events, rules, nts.outcome);
      for i := 0 to |policies[id].rules|
        invariant id in policies && policies == old(policies)[id := policies[id]]
        invariant |policies[id].rules| == |rules| - i
        invariant Removed(conn.events, policies[id].rules, nts.outcome) == all
      {
        var stored := policies[id].rules;
        RemovedStep(conn.events, stored, nts.outcome);
        var ok := conn.RouteRemove(stored[0].lookupKeys);
        stored := stored[0 := stored[|stored| - 1]];
        stored := stored[..|stored| - 1];
        policies := policies[id := policies[id].(rules := stored)];
      }
      policies := policies - {id};
      return Pass;
    }

    /** Installs the rules of a policy one by one; the first failing addition takes back all of them. */
    method AddRequest(tp: Policy) returns (result: Outcome<Error>)
      modifies this, nts
      ensures var rules, from := RulesOf(tp), |old(nts.events)|;
        result ==
        if !AllParsable(rules) then Fail(ParseError(rules))
        else if AllSucceed(nts.outcome, from, |rules|) then Pass
        else Fail(AddFailed(Parse(rules)[FirstFailure(nts.outcome, from, |rules|)]))
      ensures var rules := RulesOf(tp);
        policies ==
        if !AllParsable(rules) then old(policies)
        else if result.Pass? then old(policies)[tp.id := AppTrafficPolicy(tp, Parse(rules))]
        else old(policies) - {tp.id}
      ensures var rules := RulesOf(tp);
        nts.events ==
        if !AllParsable(rules) then old(nts.events)
        else if result.Pass? then old(nts.events) + Additions(Parse(rules))
        else
          var failing := FirstFailure(nts.outcome, |old(nts.events)|, |rules|);
          RolledBack(old(nts.events), Parse(rules), failing, nts.outcome)
    {
      var parsed := ValidateTrafficRules(RulesOf(tp));
      if parsed.Failure? {
        return Fail(parsed.error);
      }
      result := Install(tp, parsed.value);
    }

    /** The addition loop of a request whose rules have been parsed to `todo`. */
    method Install(tp: Policy, todo: seq<Rule>) returns (result: Outcome<Error>)
      modifies this, nts
      ensures result.Pass? <==> AllSucceed(nts.outcome, |old(nts.events)|, |todo|)
      ensures result.Pass? ==>
        && policies == old(policies)[tp.id := AppTrafficPolicy(tp, todo)]
        && nts.events == old(nts.events) + Additions(todo)
      ensures result.Fail? ==>
        var failing := FirstFailure(nts.outcome, |old(nts.events)|, |todo|);
        && result.error == AddFailed(todo[failing])
        && policies == old(policies) - {tp.id}
        && nts.events == RolledBack(old(nts.events), todo, failing, nts.outcome)
    {
      policies := policies[tp.id := AppTrafficPolicy(tp, [])];
      ghost var from := |nts.events|;
      for i := 0 to |todo|
        invariant policies == old(policies)[tp.id := AppTrafficPolicy(tp, todo[..i])]
        invariant nts.events == old(nts.events) + Additions(todo[..i])
        invariant AllSucceed(nts.outcome, from, i)
      {
        var ok := nts.RouteAdd(todo[i]);
        if !ok {
          assert !nts.outcome(from + i);
          assert i == FirstFailure(nts.outcome, from, |todo|);
          var _ := RemoveRules(tp.id, nts);
          assert policies == old(policies) - {tp.id};
          return Fail(AddFailed(todo[i]));
        }
        var app := policies[tp.id];
        policies := policies[tp.id := app.(rules := app.rules + [todo[i]])];
        assert todo[..i + 1] == todo[..i] + [todo[i]];
        assert Additions(todo[..i + 1]) == Additions(todo[..i]) + [Add(todo[i], true)];
      }
      assert todo[..|todo|] == todo;
      return Pass;
    }

    /** AddRequest for an application that has no entry. */
    method AddFresh(tp: Policy) returns (result: Outcome<Error>)
      requires Balanced(policies, nts.events) && tp.id != "" && tp.id !in policies && tp.rules.Some?
      modifies this, nts
      ensures Balanced(policies, nts.events)
      ensures var m := Memory(old(policies), old(nts.events));
        && result == Answer(m, tp, true, nts.outcome)
        && policies == After(m.policies, tp, true, result.Pass?)
        && nts.events == History(m, tp, true, nts.outcome)
    {
      result := AddRequest(tp);
      assert old(policies) - {tp.id} == old(policies);
      if AllParsable(tp.rules.value) {
        BalancedAfterRequest(old(policies), old(nts.events), tp, nts.outcome);
      }
    }

    /** Replaces the policy of one application: afterwards it is installed entirely or not at all. */
    method Set(tp: Policy, connects: bool) returns (result: Outcome<Error>)
      requires Balanced(policies, nts.events)
      modifies this, nts
      ensures Balanced(policies, nts.events)
      ensures var m := Memory(old(policies), old(nts.events));
        && result == Answer(m, tp, connects, nts.outcome)
        && Memory(policies, nts.events) == Served(m, tp, connects, nts.outcome)
      ensures tp.id == "" || !connects ==> nts.events == old(nts.events)
    {
      if tp.id == "" {
        return Fail(EmptyId);
      }
      if !connects {
        return Fail(NoConnection);
      }
      result := RemoveRules(tp.id, nts);
      if tp.id in old(policies) {
        BalancedAfterRemoval(old(policies), old(nts.events), tp.id, nts.outcome);
      }
      assert policies == old(policies) - {tp.id};
      if tp.rules.Some? {
        result := AddFresh(tp);
      }
    }

    /** Every run: whatever the requests and whatever fails, the conservation law holds between requests, and memory and
        answers are those the requests and the outcomes of the calls determine. */
    method Serve(requests: seq<(Policy, bool)>) returns (results: seq<Outcome<Error>>)
      requires Balanced(policies, nts.events)
      modifies this, nts
      ensures Balanced(policies, nts.events)
      ensures |results| == |requests|
      ensures var m := Memory(old(policies), old(nts.events));
        && Memory(policies, nts.events) == ServedAll(m, requests, nts.outcome)
        && forall i :: 0 <= i < |requests| ==>
             results[i] == Answer(ServedAll(m, requests[..i], nts.outcome), requests[i].0, requests[i].1, nts.outcome)
    {
      results := [];
      ghost var m := Memory(policies, nts.events);
      for i := 0 to |requests|
        invariant Balanced(policies, nts.events) && |results| == i
        invariant Memory(policies, nts.events) == ServedAll(m, requests[..i], nts.outcome)
        invariant forall j :: 0 <= j < i ==>
          results[j] == Answer(ServedAll(m, requests[..j], nts.outcome), requests[j].0, requests[j].1, nts.outcome)
      {
        var (tp, connects) := requests[i];
        var result := Set(tp, connects);
        results := results + [result];
        assert requests[..i + 1][..i] == requests[..i];
      }
      assert requests[..|requests|] == requests;
    }
  }
}
