/** The test double for outbound requests: canned rules with uses, and a bounded record. */
module FetchMock {
  import opened Basics

  const MAX_RECORDED_CALLS: nat := 10_000

  type Headers = seq<(string, string)>

  datatype UrlMatch = Exact(url: string) | Prefix(prefix: string) {
    predicate Matches(target: string) {
      match this
      case Exact(url) => target == url
      case Prefix(prefix) => prefix <= target
    }
  }

  datatype Rule = Rule(verb: Option<string>, url: UrlMatch, status: nat, headers: Headers, body: Bytes,
                       times: Option<nat>, error: Option<string>)

  datatype Request = Request(verb: string, url: string, headers: Headers, body: Option<Bytes>)

  datatype Call = Call(verb: string, url: string, headers: Headers, body: Option<Bytes>, mocked: bool)

  datatype Answer = Canned(status: nat, headers: Headers, body: Bytes) | Error(message: string) | PassThrough | Refused

  function UpperChar(c: char): char { if 'a' <= c <= 'z' then c - 'a' + 'A' else c }

  function Upper(s: string): (u: string)
    ensures |u| == |s|
  {
    seq(|s|, i requires 0 <= i < |s| => UpperChar(s[i]))
  }

  predicate EqIgnoreCase(a: string, b: string) { Upper(a) == Upper(b) }

  /** The rule is for requests like this one, whether or not it has uses left. */
  predicate Covers(rule: Rule, req: Request) {
    && (rule.verb.None? || EqIgnoreCase(rule.verb.value, req.verb))
    && rule.url.Matches(req.url)
  }

  predicate HasUses(rule: Rule) { rule.times.None? || rule.times.value > 0 }

  predicate Answers(rule: Rule, req: Request) { Covers(rule, req) && HasUses(rule) }

  /** The first rule that answers, or the number of rules. */
  ghost predicate IsFirst(rules: seq<Rule>, req: Request, at: nat) {
    && at <= |rules|
    && (at < |rules| ==> Answers(rules[at], req))
    && forall i :: 0 <= i < at ==> !Answers(rules[i], req)
  }

  function Reply(rule: Rule): Answer {
    if rule.error.Some? then Error(rule.error.value) else Canned(rule.status, rule.headers, rule.body)
  }

  function Unmatched(strict: bool): Answer { if strict then Refused else PassThrough }

  function Recorded(req: Request, mocked: bool): Call {
    Call(Upper(req.verb), req.url, req.headers, req.body, mocked)
  }

  function Used(rule: Rule): Rule
    requires HasUses(rule)
  {
    if rule.times.Some? then rule.(times := Some(rule.times.value - 1)) else rule
  }

  class FetchMock {
    var rules: seq<Rule>
    var calls: seq<Call>
    var strict: bool
    var dropped: nat

    constructor ()
      ensures State() == EMPTY
    {
      rules, calls, strict, dropped := [], [], false, 0;
    }

    function State(): Mock
      reads this
    {
      Mock(rules, calls, strict, dropped)
    }

    method Add(rule: Rule)
      modifies this`rules
      ensures State() == Step(old(State()), AddRule(rule)).0
    {
      rules := rules + [rule];
    }

    method SetStrict(strict: bool)
      modifies this`strict
      ensures State() == Step(old(State()), BeStrict(strict)).0
    {
      this.strict := strict;
    }

    method Find(req: Request) returns (at: nat)
      ensures IsFirst(rules, req, at)
    {
      at := 0;
      while at < |rules| && !Answers(rules[at], req)
        invariant at <= |rules|
        invariant forall i :: 0 <= i < at ==> !Answers(rules[i], req)
      {
        at := at + 1;
      }
    }

    /** Records one request and decides its fate. */
    method Decide(req: Request) returns (answer: Answer)
      modifies this
      ensures Step(old(State()), Ask(req)) == (State(), Some(answer))
    {
      var at := Find(req);
      FirstIs(rules, req, at);
      if at < |rules| {
        answer := Reply(rules[at]);
        rules := rules[at := Used(rules[at])];
      } else if strict {
        answer := Refused;
      } else {
        answer := PassThrough;
      }
      if |calls| >= MAX_RECORDED_CALLS {
        calls := calls[1..];
        dropped := dropped + 1;
      }
      calls := calls + [Recorded(req, answer.Canned? || answer.Error?)];
    }
  }

  // --------------------------------------------------------------- machine

  datatype Mock = Mock(rules: seq<Rule>, calls: seq<Call>, strict: bool, dropped: nat)

  const EMPTY := Mock([], [], false, 0)

  datatype Op = AddRule(rule: Rule) | BeStrict(strict: bool) | Ask(req: Request)

  function First(rules: seq<Rule>, req: Request): (at: nat)
    ensures IsFirst(rules, req, at)
  {
    if rules == [] || Answers(rules[0], req) then 0
    else
      var next := First(rules[1..], req);
      assert forall i :: 1 <= i < |rules| ==> rules[i] == rules[1..][i - 1];
      1 + next
  }

  lemma FirstIs(rules: seq<Rule>, req: Request, at: nat)
    requires IsFirst(rules, req, at)
    ensures First(rules, req) == at
  {
  }

  lemma UpperIs(s: string)
    ensures forall i :: 0 <= i < |s| ==>
      if 97 <= s[i] as int <= 122 then Upper(s)[i] as int == s[i] as int - 32 else Upper(s)[i] == s[i]
  {
  }

  /** Two letters of one case and the other, 32 apart. */
  lemma EqIgnoreCaseIff(a: string, b: string)
    ensures EqIgnoreCase(a, b) <==>
      |a| == |b| && forall i :: 0 <= i < |a| ==>
        || a[i] == b[i]
        || (97 <= a[i] as int <= 122 && b[i] as int == a[i] as int - 32)
        || (97 <= b[i] as int <= 122 && a[i] as int == b[i] as int - 32)
  {
    UpperIs(a);
    UpperIs(b);
    if EqIgnoreCase(a, b) {
      assert forall i :: 0 <= i < |a| ==> Upper(a)[i] == Upper(b)[i];
    }
  }

  /** A rule answers a request with its method, case aside, or any; with its whole URL,
      or one that starts with its prefix; and only while it has uses left. */
  lemma AnswersIff(rule: Rule, req: Request)
    ensures Answers(rule, req) <==>
      && (rule.verb.Some? ==> EqIgnoreCase(rule.verb.value, req.verb))
      && (rule.url.Exact? ==> req.url == rule.url.url)
      && (rule.url.Prefix? ==> |req.url| >= |rule.url.prefix| && req.url[..|rule.url.prefix|] == rule.url.prefix)
      && (rule.times.Some? ==> rule.times.value >= 1)
  {
  }

  /** What one request gets and leaves: the reply of the first rule that answers, which
      has one use fewer; without one a refusal in strict mode and the real network in the
      other; and a record of it after the latest 9,999. */
  lemma AskIs(m: Mock, req: Request, at: nat)
    requires at <= |m.rules| && forall i :: 0 <= i < at ==> !Answers(m.rules[i], req)
    requires at < |m.rules| ==> Answers(m.rules[at], req)
    ensures var (m', answer) := Step(m, Ask(req));
      && answer == Some(
           if at == |m.rules| then (if m.strict then Refused else PassThrough)
           else if m.rules[at].error.Some? then Error(m.rules[at].error.value)
           else Canned(m.rules[at].status, m.rules[at].headers, m.rules[at].body))
      && m'.strict == m.strict
      && |m'.rules| == |m.rules| && (forall i :: 0 <= i < |m.rules| && i != at ==> m'.rules[i] == m.rules[i])
      && (at < |m.rules| ==>
           var left := m.rules[at].times;
           m'.rules[at] == m.rules[at].(times := if left.Some? then Some(left.value - 1) else None))
      && m'.calls == (if |m.calls| < 10_000 then m.calls else m.calls[1..])
                     + [Call(Upper(req.verb), req.url, req.headers, req.body, at < |m.rules|)]
      && m'.dropped == (if |m.calls| < 10_000 then m.dropped else m.dropped + 1)
  {
    FirstIs(m.rules, req, at);
  }

  function Step(m: Mock, op: Op): (Mock, Option<Answer>) {
    match op
    case AddRule(rule) => (m.(rules := m.rules + [rule]), None)
    case BeStrict(strict) => (m.(strict := strict), None)
    case Ask(req) =>
      var at := First(m.rules, req);
      var full := |m.calls| >= MAX_RECORDED_CALLS;
      (Mock(if at < |m.rules| then m.rules[at := Used(m.rules[at])] else m.rules,
            (if full then m.calls[1..] else m.calls) + [Recorded(req, at < |m.rules|)],
            m.strict,
            if full then m.dropped + 1 else m.dropped),
       Some(if at < |m.rules| then Reply(m.rules[at]) else Unmatched(m.strict)))
  }

  /** A run from the empty double: where it stands, and the answers given. */
  function Run(ops: seq<Op>): (Mock, seq<Answer>) {
    if ops == [] then (EMPTY, [])
    else
      var (m, answers) := Run(ops[..|ops| - 1]);
      var (m', answer) := Step(m, ops[|ops| - 1]);
      (m', answers + if answer.Some? then [answer.value] else [])
  }

  // ------------------------------------------------- the double as a ledger

  /** The rules in the order they were added, as they were added. */
  function Added(ops: seq<Op>): seq<Rule> {
    if ops == [] then []
    else
      var last := ops[|ops| - 1];
      Added(ops[..|ops| - 1]) + if last.AddRule? then [last.rule] else []
  }

  function Strict(ops: seq<Op>): bool {
    if ops == [] then false
    else
      var last := ops[|ops| - 1];
      if last.BeStrict? then last.strict else Strict(ops[..|ops| - 1])
  }

  function Count(fates: seq<Option<nat>>, rule: nat): nat {
    if fates == [] then 0
    else Count(fates[..|fates| - 1], rule) + if fates[|fates| - 1] == Some(rule) then 1 else 0
  }

  /** The rule may answer, judging by what it answered before. */
  predicate Available(rules: seq<Rule>, fates: seq<Option<nat>>, i: nat, req: Request)
    requires i < |rules|
  {
    Covers(rules[i], req) && (rules[i].times.None? || Count(fates, i) < rules[i].times.value)
  }

  function Earliest(rules: seq<Rule>, fates: seq<Option<nat>>, req: Request, from: nat): Option<nat>
    requires from <= |rules|
    decreases |rules| - from
  {
    if from == |rules| then None
    else if Available(rules, fates, from, req) then Some(from)
    else Earliest(rules, fates, req, from + 1)
  }

  /** For each request, the position of the rule that answered it: the earliest added one
      that covers it and has not answered as often as it may. Nothing is ever changed. */
  function Fates(ops: seq<Op>): seq<Option<nat>> {
    if ops == [] then []
    else
      var before, last := ops[..|ops| - 1], ops[|ops| - 1];
      Fates(before) + if last.Ask? then [Earliest(Added(before), Fates(before), last.req, 0)] else []
  }

  /** Every request ever made. */
  function Log(ops: seq<Op>): seq<Call> {
    if ops == [] then []
    else
      var before, last := ops[..|ops| - 1], ops[|ops| - 1];
      Log(before)
      + if last.Ask? then [Recorded(last.req, Earliest(Added(before), Fates(before), last.req, 0).Some?)] else []
  }

  /** The answers, from the ledger. */
  function Replies(ops: seq<Op>): seq<Answer> {
    if ops == [] then []
    else
      var before, last := ops[..|ops| - 1], ops[|ops| - 1];
      Replies(before) + if last.Ask? then [ReplyTo(before, last.req)] else []
  }

  function ReplyTo(before: seq<Op>, req: Request): Answer {
    EarliestIs(Added(before), Fates(before), req, 0);
    match Earliest(Added(before), Fates(before), req, 0)
    case Some(i) => Reply(Added(before)[i])
    case None => Unmatched(Strict(before))
  }

  lemma {:induction false} EarliestIs(rules: seq<Rule>, fates: seq<Option<nat>>, req: Request, from: nat)
    requires from <= |rules|
    ensures match Earliest(rules, fates, req, from)
      case None => forall i :: from <= i < |rules| ==> !Available(rules, fates, i, req)
      case Some(at) =>
        from <= at < |rules| && Available(rules, fates, at, req)
        && forall i :: from <= i < at ==> !Available(rules, fates, i, req)
    decreases |rules| - from
  {
    if from < |rules| && !Available(rules, fates, from, req) {
      EarliestIs(rules, fates, req, from + 1);
    }
  }

  /** What is left of a rule after `spent` answers. */
  ghost predicate Balanced(now: Rule, added: Rule, spent: nat) {
    && now == added.(times := now.times)
    && (added.times.None? ==> now.times.None?)
    && (added.times.Some? ==> now.times.Some? && now.times.value + spent == added.times.value)
  }

  /** The rules as they stand: each as it was added, less the answers it gave. */
  ghost predicate Balance(now: seq<Rule>, added: seq<Rule>, fates: seq<Option<nat>>) {
    |now| == |added| && forall i :: 0 <= i < |now| ==> Balanced(now[i], added[i], Count(fates, i))
  }

  lemma FirstIsEarliest(now: seq<Rule>, added: seq<Rule>, fates: seq<Option<nat>>, req: Request)
    requires Balance(now, added, fates)
    ensures First(now, req) == match Earliest(added, fates, req, 0) case None => |added| case Some(at) => at
  {
    EarliestIs(added, fates, req, 0);
    forall i | 0 <= i < |now| ensures Answers(now[i], req) <==> Available(added, fates, i, req) {
      assert Balanced(now[i], added[i], Count(fates, i));
    }
    var at := match Earliest(added, fates, req, 0) case None => |added| case Some(at) => at;
    FirstIs(now, req, at);
  }

  lemma CountStep(fates: seq<Option<nat>>, fate: Option<nat>, rule: nat)
    ensures Count(fates + [fate], rule) == Count(fates, rule) + if fate == Some(rule) then 1 else 0
  {
    assert (fates + [fate])[..|fates|] == fates;
  }

  lemma BalanceAsk(now: seq<Rule>, added: seq<Rule>, fates: seq<Option<nat>>, at: nat)
    requires Balance(now, added, fates) && (at < |now| ==> HasUses(now[at]))
    ensures Balance(if at < |now| then now[at := Used(now[at])] else now, added,
                    fates + [if at < |now| then Some(at) else None])
  {
    var fate := if at < |now| then Some(at) else None;
    var after := if at < |now| then now[at := Used(now[at])] else now;
    forall i | 0 <= i < |now| ensures Balanced(after[i], added[i], Count(fates + [fate], i)) {
      assert Balanced(now[i], added[i], Count(fates, i));
      CountStep(fates, fate, i);
    }
  }

  lemma {:induction false} NoFateBeyond(ops: seq<Op>, rule: nat)
    requires rule >= |Added(ops)|
    ensures Count(Fates(ops), rule) == 0
    decreases |ops|
  {
    if ops != [] {
      var before, last := ops[..|ops| - 1], ops[|ops| - 1];
      NoFateBeyond(before, rule);
      if !last.Ask? {
        NothingAsked(before, last, ops);
      } else {
        Asked(before, last, ops);
        EarliestIs(Added(before), Fates(before), last.req, 0);
        CountStep(Fates(before), Earliest(Added(before), Fates(before), last.req, 0), rule);
      }
    }
  }

  lemma BalanceAdd(now: seq<Rule>, added: seq<Rule>, fates: seq<Option<nat>>, rule: Rule)
    requires Balance(now, added, fates) && Count(fates, |added|) == 0
    ensures Balance(now + [rule], added + [rule], fates)
  {
    forall i | 0 <= i < |now| + 1 ensures Balanced((now + [rule])[i], (added + [rule])[i], Count(fates, i)) {
      assert i < |now| ==> Balanced(now[i], added[i], Count(fates, i));
    }
  }

  /** The last calls of a log that fit into the record. */
  function Latest(log: seq<Call>): seq<Call> {
    if |log| <= MAX_RECORDED_CALLS then log else log[|log| - MAX_RECORDED_CALLS..]
  }

  lemma LatestStep(log: seq<Call>, call: Call)
    ensures Latest(log + [call]) ==
      (if |Latest(log)| >= MAX_RECORDED_CALLS then Latest(log)[1..] else Latest(log)) + [call]
  {
  }

  /** What the double holds, read off the ledger. */
  ghost predicate Books(m: Mock, ops: seq<Op>) {
    && Balance(m.rules, Added(ops), Fates(ops))
    && m.calls == Latest(Log(ops)) && m.dropped + |m.calls| == |Log(ops)|
    && m.strict == Strict(ops)
  }

  /** Over every run, the double that spends uses in place agrees with the ledger that only
      counts: the same answers, every rule's answers and remaining uses adding up to what it
      was added with, and the record holding exactly the latest calls in order. */
  lemma {:induction false} LedgerAgrees(ops: seq<Op>)
    ensures Books(Run(ops).0, ops) && Run(ops).1 == Replies(ops)
    decreases |ops|
  {
    if ops != [] {
      var before, last := ops[..|ops| - 1], ops[|ops| - 1];
      var m := Run(before).0;
      LedgerAgrees(before);
      match last
      case AddRule(rule) =>
        NoFateBeyond(before, |Added(before)|);
        BalanceAdd(m.rules, Added(before), Fates(before), rule);
        NothingAsked(before, last, ops);
      case BeStrict(strict) =>
        NothingAsked(before, last, ops);
      case Ask(req) =>
        AskAgrees(m, before, req);
        Asked(before, last, ops);
    }
  }

  lemma NothingAsked(before: seq<Op>, last: Op, ops: seq<Op>)
    requires ops == before + [last] && !last.Ask?
    ensures Fates(ops) == Fates(before) && Log(ops) == Log(before) && Replies(ops) == Replies(before)
    ensures Added(ops) == Added(before) + if last.AddRule? then [last.rule] else []
    ensures Strict(ops) == if last.BeStrict? then last.strict else Strict(before)
  {
    assert ops[..|ops| - 1] == before;
  }

  lemma Asked(before: seq<Op>, last: Op, ops: seq<Op>)
    requires ops == before + [last] && last.Ask?
    ensures var fate := Earliest(Added(before), Fates(before), last.req, 0);
      && Fates(ops) == Fates(before) + [fate] && Log(ops) == Log(before) + [Recorded(last.req, fate.Some?)]
      && Replies(ops) == Replies(before) + [ReplyTo(before, last.req)]
    ensures Added(ops) == Added(before) && Strict(ops) == Strict(before)
  {
    assert ops[..|ops| - 1] == before;
  }

  lemma AskAgrees(m: Mock, before: seq<Op>, req: Request)
    requires Books(m, before)
    ensures var fate := Earliest(Added(before), Fates(before), req, 0);
      var (m', answer) := Step(m, Ask(req));
      && Balance(m'.rules, Added(before), Fates(before) + [fate])
      && m'.calls == Latest(Log(before) + [Recorded(req, fate.Some?)])
      && m'.dropped + |m'.calls| == |Log(before)| + 1
      && m'.strict == m.strict && answer == Some(ReplyTo(before, req))
  {
    var fate := Earliest(Added(before), Fates(before), req, 0);
    var at := First(m.rules, req);
    FirstIsEarliest(m.rules, Added(before), Fates(before), req);
    EarliestIs(Added(before), Fates(before), req, 0);
    BalanceAsk(m.rules, Added(before), Fates(before), at);
    LatestStep(Log(before), Recorded(req, fate.Some?));
    assert at < |m.rules| ==> Balanced(m.rules[at], Added(before)[at], Count(Fates(before), at));
  }

  /** A limited rule never answers more often than it may, and the record never outgrows
      its bound. */
  lemma NeverOverspent(ops: seq<Op>, rule: nat)
    requires rule < |Added(ops)| && Added(ops)[rule].times.Some?
    ensures Count(Fates(ops), rule) <= Added(ops)[rule].times.value
    ensures |Run(ops).0.calls| <= 10_000
  {
    LedgerAgrees(ops);
    assert Balanced(Run(ops).0.rules[rule], Added(ops)[rule], Count(Fates(ops), rule));
  }
}
