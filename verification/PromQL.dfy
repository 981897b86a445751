/** Scoping a PromQL query to a set of clusters and namespaces (backend/internal/tenancy/promql.go):
    matchers are appended in place to every selector of the parsed query, and evaluating the result
    is evaluating the original query on the permitted series only. */
module PromQL {
  import opened Wrappers
  import Regex
  import opened Alternation

  datatype MatchType = MatchEqual | MatchNotEqual | MatchRegexp | MatchNotRegexp

  datatype Matcher = Matcher(kind: MatchType, name: string, value: string)

  /** The parsed query. `S` is what a selector carries: a mutable parser node, or a plain matcher list. */
  datatype Ast<S> =
    | Number(n: real)
    | StringLiteral(text: string)
    | Vector(selector: S, offset: int)
    | Range(selector: S, offset: int, window: nat)
    | Subquery(expr: Ast<S>, offset: int, window: nat, step: nat)
    | Aggregate(op: string, operands: seq<Ast<S>>, grouping: seq<string>, without: bool)
    | Binary(op: string, left: Ast<S>, right: Ast<S>)
    | Call(fn: string, args: seq<Ast<S>>)
    | Unary(op: string, expr: Ast<S>)

  type Query = Ast<seq<Matcher>>

  /* The rewrite, on values. */

  function Scope(q: Query, extra: seq<Matcher>): Query
    decreases q, 1
  {
    match q
    case Vector(ms, offset) => Vector(ms + extra, offset)
    case Range(ms, offset, window) => Range(ms + extra, offset, window)
    case Subquery(e, offset, window, step) => Subquery(Scope(e, extra), offset, window, step)
    case Aggregate(op, es, grouping, without) => Aggregate(op, ScopeAll(es, extra), grouping, without)
    case Binary(op, l, r) => Binary(op, Scope(l, extra), Scope(r, extra))
    case Call(fn, es) => Call(fn, ScopeAll(es, extra))
    case Unary(op, e) => Unary(op, Scope(e, extra))
    case _ => q
  }

  function ScopeAll(qs: seq<Query>, extra: seq<Matcher>): seq<Query>
    decreases qs, 0
  {
    if qs == [] then [] else [Scope(qs[0], extra)] + ScopeAll(qs[1..], extra)
  }

  /** `cluster=~"..."`, and `namespace=~"..."` when there is a namespace restriction. */
  function Injected(clusters: seq<string>, namespaces: seq<string>): seq<Matcher> {
    [Matcher(MatchRegexp, "cluster", AlternationOf(clusters))] +
    if namespaces == [] then [] else [Matcher(MatchRegexp, "namespace", AlternationOf(namespaces))]
  }

  /* The rewrite, as the code does it: in place on the parser's nodes. */

  class VectorSelector {
    var LabelMatchers: seq<Matcher>

    constructor (matchers: seq<Matcher>)
      ensures LabelMatchers == matchers
    {
      LabelMatchers := matchers;
    }
  }

  function Selectors(n: Ast<VectorSelector>): set<VectorSelector>
    decreases n, 1
  {
    match n
    case Vector(vs, _) => {vs}
    case Range(vs, _, _) => {vs}
    case Subquery(e, _, _, _) => Selectors(e)
    case Aggregate(_, es, _, _) => SelectorsOfAll(es)
    case Binary(_, l, r) => Selectors(l) + Selectors(r)
    case Call(_, es) => SelectorsOfAll(es)
    case Unary(_, e) => Selectors(e)
    case _ => {}
  }

  function SelectorsOfAll(ns: seq<Ast<VectorSelector>>): set<VectorSelector>
    decreases ns, 0
  {
    if ns == [] then {} else Selectors(ns[0]) + SelectorsOfAll(ns[1..])
  }

  /** A parser builds a tree: no selector node is shared between two places. */
  ghost predicate IsTree(n: Ast<VectorSelector>)
    decreases n, 1
  {
    match n
    case Subquery(e, _, _, _) => IsTree(e)
    case Aggregate(_, es, _, _) => AllTrees(es)
    case Binary(_, l, r) => IsTree(l) && IsTree(r) && Selectors(l) !! Selectors(r)
    case Call(_, es) => AllTrees(es)
    case Unary(_, e) => IsTree(e)
    case _ => true
  }

  ghost predicate AllTrees(ns: seq<Ast<VectorSelector>>)
    decreases ns, 0
  {
    ns == [] || (IsTree(ns[0]) && AllTrees(ns[1..]) && Selectors(ns[0]) !! SelectorsOfAll(ns[1..]))
  }

  /** The query a parsed tree stands for in the current state of its nodes. */
  ghost function View(n: Ast<VectorSelector>): Query
    reads Selectors(n)
    decreases n, 1
  {
    match n
    case Number(x) => Number(x)
    case StringLiteral(s) => StringLiteral(s)
    case Vector(vs, offset) => Vector(vs.LabelMatchers, offset)
    case Range(vs, offset, window) => Range(vs.LabelMatchers, offset, window)
    case Subquery(e, offset, window, step) => Subquery(View(e), offset, window, step)
    case Aggregate(op, es, grouping, without) => Aggregate(op, ViewAll(es), grouping, without)
    case Binary(op, l, r) => Binary(op, View(l), View(r))
    case Call(fn, es) => Call(fn, ViewAll(es))
    case Unary(op, e) => Unary(op, View(e))
  }

  ghost function ViewAll(ns: seq<Ast<VectorSelector>>): seq<Query>
    reads SelectorsOfAll(ns)
    decreases ns, 0
  {
    if ns == [] then [] else [View(ns[0])] + ViewAll(ns[1..])
  }

  /** parser.Inspect with the appending callback; `nodes` is any set holding the tree's selectors. */
  method Inspect(n: Ast<VectorSelector>, extra: seq<Matcher>, ghost nodes: set<VectorSelector>)
    requires IsTree(n) && Selectors(n) <= nodes
    modifies Selectors(n)
    ensures View(n) == Scope(old(View(n)), extra)
    decreases n, 1
  {
    match n {
      case Vector(vs, _) => vs.LabelMatchers := vs.LabelMatchers + extra;
      case Range(vs, _, _) => vs.LabelMatchers := vs.LabelMatchers + extra;
      case Subquery(e, _, _, _) => Inspect(e, extra, nodes);
      case Aggregate(_, es, _, _) => InspectAll(es, extra, nodes);
      case Binary(_, l, r) =>
        Inspect(l, extra, nodes);
        assert View(r) == old(View(r));
        ghost var scopedLeft := View(l);
        Inspect(r, extra, nodes);
        assert View(l) == scopedLeft;
      case Call(_, es) => InspectAll(es, extra, nodes);
      case Unary(_, e) => Inspect(e, extra, nodes);
      case _ =>
    }
  }

  method InspectAll(ns: seq<Ast<VectorSelector>>, extra: seq<Matcher>, ghost nodes: set<VectorSelector>)
    requires AllTrees(ns) && SelectorsOfAll(ns) <= nodes
    modifies SelectorsOfAll(ns)
    ensures ViewAll(ns) == ScopeAll(old(ViewAll(ns)), extra)
    decreases ns, 0
  {
    if ns != [] {
      Inspect(ns[0], extra, nodes);
      assert ViewAll(ns[1..]) == old(ViewAll(ns[1..]));
      ghost var scopedFirst := View(ns[0]);
      InspectAll(ns[1..], extra, nodes);
      assert View(ns[0]) == scopedFirst;
      assert old(ViewAll(ns))[1..] == old(ViewAll(ns[1..]));
    }
  }

  /** mustRegexMatcher: the pattern always compiles, so its panic is never reached. */
  method MustRegexMatcher(name: string, values: seq<string>) returns (m: Matcher)
    ensures m == Matcher(MatchRegexp, name, AlternationOf(values))
    ensures Regex.Compile(m.value).Some?
  {
    var pattern := RegexAlternation(values);
    AlternationIsExact(values, "");
    m := Matcher(MatchRegexp, name, pattern);
  }

  /** ScopePromQL, given what the PromQL parser made of the query text. */
  method ScopePromQL(parsed: Result<Ast<VectorSelector>>, clusterIDs: seq<string>, namespaces: seq<string>,
                     ghost nodes: set<VectorSelector>)
      returns (r: Result<Ast<VectorSelector>>)
    requires parsed.Ok? ==> IsTree(parsed.value) && Selectors(parsed.value) <= nodes
    modifies if parsed.Ok? then Selectors(parsed.value) else {}
    ensures r.Ok? <==> clusterIDs != [] && parsed.Ok?
    ensures r.Ok? ==>
      r.value == parsed.value && View(r.value) == Scope(old(View(parsed.value)), Injected(clusterIDs, namespaces))
    ensures r.Err? && parsed.Ok? ==> View(parsed.value) == old(View(parsed.value))
  {
    if clusterIDs == [] {
      return Err("no accessible clusters for this user");
    }
    if parsed.Err? {
      return Err("parsing PromQL: " + parsed.message);
    }
    var clusterMatcher := MustRegexMatcher("cluster", clusterIDs);
    var extra := [clusterMatcher];
    if namespaces != [] {
      var namespaceMatcher := MustRegexMatcher("namespace", namespaces);
      extra := extra + [namespaceMatcher];
    }
    assert extra == Injected(clusterIDs, namespaces);
    assert View(parsed.value) == old(View(parsed.value));
    Inspect(parsed.value, extra, nodes);
    return parsed;
  }
}

/** What a query means: a compositional evaluator over a set of series, for every choice of
    operators, functions, aggregations, lookback rule and regular-expression engine. */
module PromQLMeaning {
  import Regex
  import opened Alternation
  import opened PromQL

  type Labels = map<string, string>

  datatype Sample = Sample(at: int, value: real)

  datatype Series = Series(labels: Labels, samples: seq<Sample>)

  datatype Value =
    | ScalarValue(x: real)
    | TextValue(text: string)
    | VectorValue(points: seq<(Labels, real)>)
    | MatrixValue(rows: seq<Series>)

  datatype Semantics = Semantics(
    regex: (string, string) -> bool,
    instant: (seq<Series>, int) -> seq<(Labels, real)>,
    window: (seq<Series>, int, nat) -> seq<Series>,
    steps: (int, nat, nat) -> seq<int>,
    subquery: seq<(int, Value)> -> Value,
    aggregate: (string, seq<Value>, seq<string>, bool) -> Value,
    binary: (string, Value, Value) -> Value,
    call: (string, seq<Value>, int) -> Value,
    unary: (string, Value) -> Value)

  /** An absent label reads as the empty string. */
  function Get(labels: Labels, name: string): string {
    if name in labels then labels[name] else ""
  }

  ghost predicate Holds(m: Matcher, labels: Labels, sem: Semantics) {
    var actual := Get(labels, m.name);
    match m.kind
    case MatchEqual => actual == m.value
    case MatchNotEqual => actual != m.value
    case MatchRegexp => sem.regex(m.value, actual)
    case MatchNotRegexp => !sem.regex(m.value, actual)
  }

  ghost predicate AllHold(ms: seq<Matcher>, labels: Labels, sem: Semantics) {
    forall m | m in ms :: Holds(m, labels, sem)
  }

  ghost function Restrict(data: seq<Series>, permitted: Labels -> bool): (r: seq<Series>)
    ensures forall s | s in r :: s in data && permitted(s.labels)
    ensures forall s | s in data && permitted(s.labels) :: s in r
  {
    if data == [] then []
    else if permitted(data[0].labels) then [data[0]] + Restrict(data[1..], permitted)
    else Restrict(data[1..], permitted)
  }

  ghost function Select(data: seq<Series>, ms: seq<Matcher>, sem: Semantics): seq<Series> {
    Restrict(data, labels => AllHold(ms, labels, sem))
  }

  ghost function Eval(q: Query, data: seq<Series>, at: int, sem: Semantics): Value
    decreases q, 1, 0
  {
    match q
    case Number(n) => ScalarValue(n)
    case StringLiteral(s) => TextValue(s)
    case Vector(ms, offset) => VectorValue(sem.instant(Select(data, ms, sem), at - offset))
    case Range(ms, offset, window) => MatrixValue(sem.window(Select(data, ms, sem), at - offset, window))
    case Subquery(e, offset, window, step) =>
      sem.subquery(EvalAtEach(e, data, sem.steps(at - offset, window, step), sem))
    case Aggregate(op, es, grouping, without) => sem.aggregate(op, EvalAll(es, data, at, sem), grouping, without)
    case Binary(op, l, r) => sem.binary(op, Eval(l, data, at, sem), Eval(r, data, at, sem))
    case Call(fn, es) => sem.call(fn, EvalAll(es, data, at, sem), at)
    case Unary(op, e) => sem.unary(op, Eval(e, data, at, sem))
  }

  ghost function EvalAll(qs: seq<Query>, data: seq<Series>, at: int, sem: Semantics): seq<Value>
    decreases qs, 0, 0
  {
    if qs == [] then [] else [Eval(qs[0], data, at, sem)] + EvalAll(qs[1..], data, at, sem)
  }

  ghost function EvalAtEach(q: Query, data: seq<Series>, times: seq<int>, sem: Semantics): seq<(int, Value)>
    decreases q, 2, |times|
  {
    if times == [] then [] else [(times[0], Eval(q, data, times[0], sem))] + EvalAtEach(q, data, times[1..], sem)
  }

  /** Which label sets a (clusters, namespaces) pair permits; no namespaces means no restriction. */
  predicate Permitted(labels: Labels, clusters: seq<string>, namespaces: seq<string>) {
    Get(labels, "cluster") in clusters && (namespaces == [] || Get(labels, "namespace") in namespaces)
  }

  ghost predicate Characterises(extra: seq<Matcher>, permitted: Labels -> bool, sem: Semantics) {
    forall labels :: AllHold(extra, labels, sem) <==> permitted(labels)
  }

  lemma InjectedCharacterises(clusters: seq<string>, namespaces: seq<string>, sem: Semantics)
    requires clusters != [] && Regex.Honours(sem.regex)
    ensures Characterises(Injected(clusters, namespaces), labels => Permitted(labels, clusters, namespaces), sem)
  {
    var extra := Injected(clusters, namespaces);
    forall labels: Labels
      ensures AllHold(extra, labels, sem) <==> Permitted(labels, clusters, namespaces)
    {
      AlternationIsExact(clusters, Get(labels, "cluster"));
      assert extra[0] in extra && (Holds(extra[0], labels, sem) <==> Get(labels, "cluster") in clusters);
      if namespaces != [] {
        AlternationIsExact(namespaces, Get(labels, "namespace"));
        assert extra[1] in extra && (Holds(extra[1], labels, sem) <==> Get(labels, "namespace") in namespaces);
      }
    }
  }

  /** The injected conditions, label by label: a series without one of the labels passes just when the empty name is
      listed. */
  lemma InjectedOnLabels(clusters: seq<string>, namespaces: seq<string>, labels: Labels, sem: Semantics)
    requires clusters != [] && Regex.Honours(sem.regex)
    ensures "cluster" in labels ==> (AllHold(Injected(clusters, []), labels, sem) <==> labels["cluster"] in clusters)
    ensures "cluster" !in labels ==> (AllHold(Injected(clusters, []), labels, sem) <==> "" in clusters)
    ensures namespaces != [] ==>
      (AllHold(Injected(clusters, namespaces), labels, sem) <==>
         AllHold(Injected(clusters, []), labels, sem) &&
         if "namespace" in labels then labels["namespace"] in namespaces else "" in namespaces)
  {
    hide AllHold, Injected;
    InjectedCharacterises(clusters, [], sem);
    InjectedCharacterises(clusters, namespaces, sem);
    var all: Labels -> bool := labels => Permitted(labels, clusters, []);
    var some: Labels -> bool := labels => Permitted(labels, clusters, namespaces);
    assert AllHold(Injected(clusters, []), labels, sem) <==> all(labels);
    assert AllHold(Injected(clusters, namespaces), labels, sem) <==> some(labels);
  }

  lemma {:induction false} RestrictTwice(data: seq<Series>, p: Labels -> bool, q: Labels -> bool, both: Labels -> bool)
    requires forall labels :: both(labels) <==> p(labels) && q(labels)
    ensures Restrict(Restrict(data, p), q) == Restrict(data, both)
  {
    if data != [] {
      RestrictTwice(data[1..], p, q, both);
      if p(data[0].labels) {
        var kept := Restrict(data[1..], p);
        assert Restrict(data, p) == [data[0]] + kept;
        assert ([data[0]] + kept)[1..] == kept;
      }
    }
  }

  lemma {:induction false} RestrictCongruent(data: seq<Series>, p: Labels -> bool, q: Labels -> bool)
    requires forall labels :: p(labels) <==> q(labels)
    ensures Restrict(data, p) == Restrict(data, q)
  {
    if data != [] {
      RestrictCongruent(data[1..], p, q);
    }
  }

  lemma SelectScoped(data: seq<Series>, ms: seq<Matcher>, extra: seq<Matcher>, permitted: Labels -> bool,
      sem: Semantics)
    requires Characterises(extra, permitted, sem)
    ensures Select(data, ms + extra, sem) == Select(Restrict(data, permitted), ms, sem)
  {
    var own: Labels -> bool := labels => AllHold(ms, labels, sem);
    var scoped: Labels -> bool := labels => AllHold(ms + extra, labels, sem);
    forall labels ensures scoped(labels) <==> permitted(labels) && own(labels) {
      assert AllHold(ms + extra, labels, sem) <==> AllHold(ms, labels, sem) && AllHold(extra, labels, sem);
    }
    RestrictTwice(data, permitted, own, scoped);
  }

  lemma {:induction false} EvalScoped(q: Query, extra: seq<Matcher>, permitted: Labels -> bool, data: seq<Series>,
      at: int, sem: Semantics)
    requires Characterises(extra, permitted, sem)
    ensures Eval(Scope(q, extra), data, at, sem) == Eval(q, Restrict(data, permitted), at, sem)
    decreases q, 1, 0
  {
    match q {
      case Vector(ms, _) => SelectScoped(data, ms, extra, permitted, sem);
      case Range(ms, _, _) => SelectScoped(data, ms, extra, permitted, sem);
      case Subquery(e, offset, window, step) =>
        EvalAtEachScoped(e, extra, permitted, data, sem.steps(at - offset, window, step), sem);
      case Aggregate(_, es, _, _) => EvalAllScoped(es, extra, permitted, data, at, sem);
      case Binary(_, l, r) =>
        EvalScoped(l, extra, permitted, data, at, sem);
        EvalScoped(r, extra, permitted, data, at, sem);
      case Call(_, es) => EvalAllScoped(es, extra, permitted, data, at, sem);
      case Unary(_, e) => EvalScoped(e, extra, permitted, data, at, sem);
      case _ =>
    }
  }

  lemma {:induction false} EvalAllScoped(qs: seq<Query>, extra: seq<Matcher>, permitted: Labels -> bool,
      data: seq<Series>, at: int, sem: Semantics)
    requires Characterises(extra, permitted, sem)
    ensures EvalAll(ScopeAll(qs, extra), data, at, sem) == EvalAll(qs, Restrict(data, permitted), at, sem)
    decreases qs, 0, 0
  {
    if qs != [] {
      EvalScoped(qs[0], extra, permitted, data, at, sem);
      EvalAllScoped(qs[1..], extra, permitted, data, at, sem);
      assert ScopeAll(qs, extra)[1..] == ScopeAll(qs[1..], extra);
    }
  }

  lemma {:induction false} EvalAtEachScoped(q: Query, extra: seq<Matcher>, permitted: Labels -> bool, data: seq<Series>,
      times: seq<int>, sem: Semantics)
    requires Characterises(extra, permitted, sem)
    ensures EvalAtEach(Scope(q, extra), data, times, sem) == EvalAtEach(q, Restrict(data, permitted), times, sem)
    decreases q, 2, |times|
  {
    if times != [] {
      EvalScoped(q, extra, permitted, data, times[0], sem);
      EvalAtEachScoped(q, extra, permitted, data, times[1..], sem);
    }
  }

  /** Main theorem: the rewritten query on all data means the original query on the permitted data. */
  lemma ScopedQueryMeansPermittedData(q: Query, clusters: seq<string>, namespaces: seq<string>, data: seq<Series>,
      at: int, sem: Semantics)
    requires clusters != [] && Regex.Honours(sem.regex)
    ensures Eval(Scope(q, Injected(clusters, namespaces)), data, at, sem)
         == Eval(q, Restrict(data, labels => Permitted(labels, clusters, namespaces)), at, sem)
  {
    InjectedCharacterises(clusters, namespaces, sem);
    EvalScoped(q, Injected(clusters, namespaces), labels => Permitted(labels, clusters, namespaces), data, at, sem);
  }

  /** Two scopes compose as the intersection of what they permit; scoping twice is scoping once. */
  lemma ScopesIntersect(q: Query, c1: seq<string>, n1: seq<string>, c2: seq<string>, n2: seq<string>,
                        data: seq<Series>, at: int, sem: Semantics)
    requires c1 != [] && c2 != [] && Regex.Honours(sem.regex)
    ensures Eval(Scope(Scope(q, Injected(c1, n1)), Injected(c2, n2)), data, at, sem)
         == Eval(q, Restrict(data, labels => Permitted(labels, c1, n1) && Permitted(labels, c2, n2)), at, sem)
    ensures c1 == c2 && n1 == n2 ==>
      Eval(Scope(Scope(q, Injected(c1, n1)), Injected(c2, n2)), data, at, sem) ==
        Eval(Scope(q, Injected(c1, n1)), data, at, sem)
  {
    var p1: Labels -> bool := labels => Permitted(labels, c1, n1);
    var p2: Labels -> bool := labels => Permitted(labels, c2, n2);
    var both: Labels -> bool := labels => Permitted(labels, c1, n1) && Permitted(labels, c2, n2);
    InjectedCharacterises(c1, n1, sem);
    InjectedCharacterises(c2, n2, sem);
    EvalScoped(Scope(q, Injected(c1, n1)), Injected(c2, n2), p2, data, at, sem);
    EvalScoped(q, Injected(c1, n1), p1, Restrict(data, p2), at, sem);
    RestrictTwice(data, p2, p1, both);
    if c1 == c2 && n1 == n2 {
      EvalScoped(q, Injected(c1, n1), p1, data, at, sem);
      RestrictCongruent(data, both, p1);
    }
  }

  /** The order in which a map hands out the allowed names makes no difference to any query. */
  lemma ScopeIgnoresOrder(q: Query, c1: seq<string>, n1: seq<string>, c2: seq<string>, n2: seq<string>,
                          data: seq<Series>, at: int, sem: Semantics)
    requires c1 != [] && c2 != [] && Regex.Honours(sem.regex)
    requires forall c :: c in c1 <==> c in c2
    requires forall n :: n in n1 <==> n in n2
    ensures Eval(Scope(q, Injected(c1, n1)), data, at, sem) == Eval(Scope(q, Injected(c2, n2)), data, at, sem)
  {
    var p1: Labels -> bool := labels => Permitted(labels, c1, n1);
    var p2: Labels -> bool := labels => Permitted(labels, c2, n2);
    assert n1 == [] <==> n2 == [] by {
      assert n1 != [] ==> n1[0] in n2;
      assert n2 != [] ==> n2[0] in n1;
    }
    ScopedQueryMeansPermittedData(q, c1, n1, data, at, sem);
    ScopedQueryMeansPermittedData(q, c2, n2, data, at, sem);
    RestrictCongruent(data, p1, p2);
  }
}
