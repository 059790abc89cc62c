/** The scope stack of a thread (scope.c, htracer.c) as a step system.

    `S` stands for the scope objects.  The spans are known by their ids, which the model
    takes to be fresh. */
module Scopes {
  import opened Wrappers

  /** A scope and the id of the span it holds, if it has not disowned it. */
  datatype Frame<S> = Frame(scope: S, span: Option<nat>)

  /** A span when it was created: its id and the parent recorded for it. */
  datatype Created = Created(id: nat, parent: Option<nat>)

  /** The chain of scopes with the top first, the ids of the spans that callers hold, those
      handed to the receiver in order, and all spans created so far. */
  datatype State<S> = State(
    stack: seq<Frame<S>>,
    detached: set<nat>,
    delivered: seq<nat>,
    created: seq<Created>)

  // ---------------------------------------------------------------- the parent search

  datatype Search = Parent(id: nat) | NoParent | NullDereference

  /** The search in htrace_start_span from the i-th enclosing scope on.  Its loop steps to the
      parent twice a round, so that it looks at every second scope only, and when the scope
      it has looked at last has no parent it follows a NULL pointer. */
  function ParentSearch<S>(stack: seq<Frame<S>>, i: nat): Search
    requires i <= |stack|
    decreases |stack| - i
  {
    if i == |stack| then NoParent
    else if stack[i].span.Some? then Parent(stack[i].span.value)
    else if i + 1 == |stack| then NullDereference
    else ParentSearch(stack, i + 2)
  }

  /** How many scopes at the top have disowned their span. */
  function Disowned<S>(stack: seq<Frame<S>>): (n: nat)
    ensures n <= |stack| && (n < |stack| ==> stack[n].span.Some?)
    ensures forall i :: 0 <= i < n ==> stack[i].span.None?
  {
    if stack == [] || stack[0].span.Some? then 0 else 1 + Disowned(stack[1..])
  }

  /** What the comment at the search promises: the first enclosing scope that has not
      disowned its span. */
  function NearestSpan<S>(stack: seq<Frame<S>>): Search {
    var n := Disowned(stack);
    if n < |stack| then Parent(stack[n].span.value) else NoParent
  }

  lemma {:induction false} SearchSkips<S>(stack: seq<Frame<S>>, i: nat)
    requires i <= |stack| && i % 2 == 0
    requires forall j :: 0 <= j < i && j % 2 == 0 ==> stack[j].span.None?
    ensures ParentSearch(stack, i) == ParentSearch(stack, 0)
    decreases i
  {
    if i > 0 {
      SearchSkips(stack, i - 2);
    }
  }

  lemma {:induction false} SearchResult<S>(stack: seq<Frame<S>>, i: nat)
    requires i <= |stack|
    ensures match ParentSearch(stack, i)
            case Parent(id) =>
              exists j :: i <= j < |stack| && j % 2 == i % 2 && stack[j].span == Some(id)
                          && forall k :: i <= k < j && k % 2 == i % 2 ==> stack[k].span.None?
            case NoParent =>
              |stack| % 2 == i % 2 && forall k :: i <= k < |stack| && k % 2 == i % 2 ==> stack[k].span.None?
            case NullDereference =>
              |stack| % 2 != i % 2 && forall k :: i <= k < |stack| && k % 2 == i % 2 ==> stack[k].span.None?
    decreases |stack| - i
  {
    if i < |stack| && stack[i].span.None? && i + 1 < |stack| {
      SearchResult(stack, i + 2);
    }
  }

  predicate DistinctSpans<S>(stack: seq<Frame<S>>) {
    forall i, j :: 0 <= i < j < |stack| && stack[i].span.Some? ==> stack[i].span != stack[j].span
  }

  /** The search keeps the promise exactly when an even number of scopes at the top have
      disowned their spans; in particular when there is none, or none has. */
  lemma SearchKeepsPromise<S>(stack: seq<Frame<S>>)
    requires DistinctSpans(stack)
    ensures ParentSearch(stack, 0) == NearestSpan(stack) <==> Disowned(stack) % 2 == 0
  {
    var n := Disowned(stack);
    SearchResult(stack, 0);
    if n % 2 == 0 {
      SearchSkips(stack, n);
    } else if n < |stack| {
      assert stack[n].span.Some?;
    }
  }

  /** It follows a NULL pointer exactly when the depth is odd and every second scope, from the
      top on, has disowned its span. */
  lemma SearchCrash<S>(stack: seq<Frame<S>>)
    ensures ParentSearch(stack, 0) == NullDereference
            <==> |stack| % 2 == 1 && forall k :: 0 <= k < |stack| && k % 2 == 0 ==> stack[k].span.None?
  {
    SearchResult(stack, 0);
  }

  // ---------------------------------------------------------------- steps

  /** Start: htrace_start_span with a scope object and an id for it, whether the description
      is valid and what the sampler would say.  Close: htrace_scope_close. */
  datatype Event<S> =
    | Start(scope: S, id: nat, valid: bool, sampled: bool)
    | Detach(scope: S)
    | Restart(scope: S, id: nat)
    | Close(scope: S)

  function Init<S>(): State<S> {
    State([], {}, [], [])
  }

  predicate OnStack<S(==)>(stack: seq<Frame<S>>, scope: S) {
    exists i :: 0 <= i < |stack| && stack[i].scope == scope
  }

  function Ids(created: seq<Created>): (ids: seq<nat>)
    ensures |ids| == |created|
  {
    seq(|created|, i requires 0 <= i < |created| => created[i].id)
  }

  /** Scopes that are used have not been closed; a span is restarted by the caller that holds
      it; no span is started where the search would follow a NULL pointer. */
  predicate Enabled<S(==)>(s: State<S>, e: Event<S>) {
    match e
    case Start(scope, id, valid, sampled) =>
      && !OnStack(s.stack, scope) && id != 0 && id !in Ids(s.created)
      && (Starts(s, valid, sampled) ==> ParentSearch(s.stack, 0) != NullDereference)
    case Detach(scope) => OnStack(s.stack, scope)
    case Restart(scope, id) => !OnStack(s.stack, scope) && id in s.detached
    case Close(scope) => OnStack(s.stack, scope)
  }

  /** A span is started for a valid description if there is one already or the sampler says so. */
  predicate Starts<S>(s: State<S>, valid: bool, sampled: bool) {
    valid && (s.stack != [] || sampled)
  }

  function ParentOf(r: Search): Option<nat> {
    match r
    case Parent(id) => Some(id)
    case _ => None
  }

  /** The stack after a scope has given up its span. */
  function Disown<S(==)>(stack: seq<Frame<S>>, scope: S): (r: seq<Frame<S>>)
    ensures |r| == |stack|
  {
    if stack == [] then []
    else if stack[0].scope == scope then [Frame(scope, None)] + stack[1..]
    else [stack[0]] + Disown(stack[1..], scope)
  }

  /** The span a scope holds. */
  function SpanOf<S(==)>(stack: seq<Frame<S>>, scope: S): Option<nat> {
    if stack == [] then None
    else if stack[0].scope == scope then stack[0].span
    else SpanOf(stack[1..], scope)
  }

  function Next<S(==)>(s: State<S>, e: Event<S>): State<S>
    requires Enabled(s, e)
  {
    match e
    case Start(scope, id, valid, sampled) =>
      if !Starts(s, valid, sampled) then s
      else s.(stack := [Frame(scope, Some(id))] + s.stack,
              created := s.created + [Created(id, ParentOf(ParentSearch(s.stack, 0)))])
    case Detach(scope) =>
      var span := SpanOf(s.stack, scope);
      if span.None? then s
      else s.(stack := Disown(s.stack, scope), detached := s.detached + {span.value})
    case Restart(scope, id) =>
      s.(stack := [Frame(scope, Some(id))] + s.stack, detached := s.detached - {id})
    case Close(scope) =>
      if s.stack[0].scope != scope then s
      else s.(stack := s.stack[1..],
              delivered := s.delivered + (if s.stack[0].span.Some? then [s.stack[0].span.value] else []))
  }

  /** Closing the top takes it away and delivers the span it holds, if it holds one; closing
      any other scope changes nothing. */
  lemma CloseEffect<S>(s: State<S>, scope: S)
    requires OnStack(s.stack, scope)
    ensures Enabled(s, Close(scope))
    ensures var s2 := Next(s, Close(scope)); var top := s.stack[0];
            if top.scope == scope then
              && s2.stack == s.stack[1..]
              && s2.delivered == s.delivered + (if top.span.Some? then [top.span.value] else [])
              && s2.detached == s.detached && s2.created == s.created
            else s2 == s
  {
  }

  // ---------------------------------------------------------------- the invariant

  /** The ids of the spans that scopes hold. */
  ghost function Held<S>(stack: seq<Frame<S>>): multiset<nat> {
    if stack == [] then multiset{}
    else (if stack[0].span.Some? then multiset{stack[0].span.value} else multiset{}) + Held(stack[1..])
  }

  /** Every span that was created is held by one scope, or by one caller, or was handed to the
      receiver once. */
  ghost predicate OneHolder<S>(s: State<S>) {
    Held(s.stack) + multiset(s.detached) + multiset(s.delivered) == multiset(Ids(s.created))
  }

  predicate FreshIds(created: seq<Created>) {
    forall i, j :: 0 <= i < j < |created| ==> created[i].id != created[j].id
  }

  predicate ParentsEarlier(created: seq<Created>) {
    forall j :: 0 <= j < |created| && created[j].parent.Some? ==>
                  exists i :: 0 <= i < j && created[i].id == created[j].parent.value
  }

  predicate DistinctScopes<S(==)>(stack: seq<Frame<S>>) {
    forall i, j :: 0 <= i < j < |stack| ==> stack[i].scope != stack[j].scope
  }

  ghost predicate Inv<S>(s: State<S>) {
    OneHolder(s) && FreshIds(s.created) && ParentsEarlier(s.created) && DistinctScopes(s.stack)
  }

  lemma {:induction false} HeldAt<S>(stack: seq<Frame<S>>, i: nat)
    requires i < |stack| && stack[i].span.Some?
    ensures stack[i].span.value in Held(stack)
  {
    if i > 0 {
      HeldAt(stack[1..], i - 1);
    }
  }

  lemma {:induction false} HeldTwice<S>(stack: seq<Frame<S>>, i: nat, j: nat)
    requires i < j < |stack| && stack[i].span.Some? && stack[i].span == stack[j].span
    ensures Held(stack)[stack[i].span.value] >= 2
  {
    if i == 0 {
      HeldAt(stack[1..], j - 1);
    } else {
      HeldTwice(stack[1..], i - 1, j - 1);
    }
  }

  lemma {:induction false} IdOnce(created: seq<Created>, id: nat)
    requires FreshIds(created)
    ensures multiset(Ids(created))[id] <= 1
    ensures multiset(Ids(created))[id] == 1 <==> id in Ids(created)
  {
    if created != [] {
      var last := |created| - 1;
      IdOnce(created[..last], id);
      assert Ids(created) == Ids(created[..last]) + [created[last].id];
    }
  }

  lemma InvDistinctSpans<S>(s: State<S>)
    requires OneHolder(s) && FreshIds(s.created)
    ensures DistinctSpans(s.stack)
  {
    forall i, j | 0 <= i < j < |s.stack| && s.stack[i].span.Some? && s.stack[i].span == s.stack[j].span
      ensures false
    {
      HeldTwice(s.stack, i, j);
      IdOnce(s.created, s.stack[i].span.value);
    }
  }

  lemma HeldIsCreated<S>(s: State<S>, i: nat)
    requires OneHolder(s) && i < |s.stack| && s.stack[i].span.Some?
    ensures s.stack[i].span.value in Ids(s.created)
  {
    HeldAt(s.stack, i);
    assert s.stack[i].span.value in multiset(Ids(s.created));
  }

  lemma {:induction false} DisownHeld<S>(stack: seq<Frame<S>>, scope: S)
    requires SpanOf(stack, scope).Some?
    ensures Held(Disown(stack, scope)) + multiset{SpanOf(stack, scope).value} == Held(stack)
  {
    if stack[0].scope != scope {
      DisownHeld(stack[1..], scope);
      assert Disown(stack, scope)[1..] == Disown(stack[1..], scope);
    } else {
      assert Disown(stack, scope)[1..] == stack[1..];
    }
  }

  lemma {:induction false} DisownScopes<S>(stack: seq<Frame<S>>, scope: S)
    ensures forall i :: 0 <= i < |stack| ==> Disown(stack, scope)[i].scope == stack[i].scope
  {
    if stack != [] && stack[0].scope != scope {
      DisownScopes(stack[1..], scope);
    }
  }

  lemma {:induction false} DisownAt<S>(stack: seq<Frame<S>>, i: nat)
    requires i < |stack| && DistinctScopes(stack)
    ensures Disown(stack, stack[i].scope) == stack[i := Frame(stack[i].scope, None)]
    ensures SpanOf(stack, stack[i].scope) == stack[i].span
  {
    if i > 0 {
      assert stack[0].scope != stack[i].scope;
      DisownAt(stack[1..], i - 1);
      assert stack[i := Frame(stack[i].scope, None)] == [stack[0]] + stack[1..][i - 1 := Frame(stack[i].scope, None)];
    } else {
      assert stack[0 := Frame(stack[0].scope, None)] == [Frame(stack[0].scope, None)] + stack[1..];
    }
  }

  lemma InitInv<S>()
    ensures Inv(Init<S>())
  {
  }

  /** The parent that the search finds has been created. */
  lemma ParentIsCreated<S>(s: State<S>)
    requires OneHolder(s) && ParentSearch(s.stack, 0).Parent?
    ensures exists i :: 0 <= i < |s.created| && s.created[i].id == ParentSearch(s.stack, 0).id
  {
    hide ParentSearch, OneHolder;
    SearchResult(s.stack, 0);
    var parent := ParentSearch(s.stack, 0).id;
    var j :| 0 <= j < |s.stack| && s.stack[j].span == Some(parent);
    HeldIsCreated(s, j);
    var i :| 0 <= i < |s.created| && Ids(s.created)[i] == parent;
    assert s.created[i].id == parent;
  }

  lemma OneMoreCreated(created: seq<Created>, c: Created)
    requires FreshIds(created) && ParentsEarlier(created) && c.id !in Ids(created)
    requires c.parent.Some? ==> exists i :: 0 <= i < |created| && created[i].id == c.parent.value
    ensures FreshIds(created + [c]) && ParentsEarlier(created + [c])
  {
    var more := created + [c];
    forall i | 0 <= i < |created|
      ensures more[i].id != c.id
    {
      assert Ids(created)[i] == created[i].id;
    }
    forall j | 0 <= j < |more| && more[j].parent.Some?
      ensures exists i :: 0 <= i < j && more[i].id == more[j].parent.value
    {
      if j < |created| {
        var i :| 0 <= i < j && created[i].id == created[j].parent.value;
        assert more[i].id == more[j].parent.value;
      } else {
        var i :| 0 <= i < |created| && created[i].id == c.parent.value;
        assert more[i].id == more[j].parent.value;
      }
    }
  }

  lemma StartKeepsInv<S>(s: State<S>, scope: S, id: nat)
    requires Inv(s) && !OnStack(s.stack, scope) && id !in Ids(s.created)
    requires ParentSearch(s.stack, 0) != NullDereference
    ensures Inv(s.(stack := [Frame(scope, Some(id))] + s.stack,
                   created := s.created + [Created(id, ParentOf(ParentSearch(s.stack, 0)))]))
  {
    hide ParentSearch, FreshIds, ParentsEarlier;
    var c := Created(id, ParentOf(ParentSearch(s.stack, 0)));
    if ParentSearch(s.stack, 0).Parent? {
      ParentIsCreated(s);
    }
    OneMoreCreated(s.created, c);
    assert Ids(s.created + [c]) == Ids(s.created) + [id];
    assert ([Frame(scope, Some(id))] + s.stack)[1..] == s.stack;
  }

  lemma StepKeepsInv<S>(s: State<S>, e: Event<S>)
    requires Inv(s) && Enabled(s, e)
    ensures Inv(Next(s, e))
  {
    hide ParentSearch, OneHolder, DistinctScopes;
    match e
    case Start(scope, id, valid, sampled) =>
      if Starts(s, valid, sampled) {
        StartKeepsInv(s, scope, id);
      }
    case Detach(scope) =>
      DetachKeepsHolders(s, scope);
    case Restart(scope, id) =>
      RestartKeepsHolders(s, scope, id);
    case Close(scope) =>
      CloseKeepsHolders(s, scope);
  }

  lemma DetachKeepsHolders<S>(s: State<S>, scope: S)
    requires Inv(s) && Enabled(s, Detach(scope))
    ensures OneHolder(Next(s, Detach(scope))) && DistinctScopes(Next(s, Detach(scope)).stack)
  {
    hide ParentsEarlier, FreshIds, SpanOf, Disown, Ids, Held;
    var span := SpanOf(s.stack, scope);
    DisownScopes(s.stack, scope);
    if span.Some? {
      DisownHeld(s.stack, scope);
      IdOnce(s.created, span.value);
      assert (Held(s.stack) + multiset(s.detached))[span.value] <= 1;
      assert multiset(s.detached + {span.value}) == multiset(s.detached) + multiset{span.value};
    }
  }

  lemma RestartKeepsHolders<S>(s: State<S>, scope: S, id: nat)
    requires Inv(s) && Enabled(s, Restart(scope, id))
    ensures OneHolder(Next(s, Restart(scope, id))) && DistinctScopes(Next(s, Restart(scope, id)).stack)
  {
    assert ([Frame(scope, Some(id))] + s.stack)[1..] == s.stack;
    assert multiset(s.detached) == multiset(s.detached - {id}) + multiset{id};
  }

  lemma CloseKeepsHolders<S>(s: State<S>, scope: S)
    requires Inv(s) && Enabled(s, Close(scope))
    ensures OneHolder(Next(s, Close(scope))) && DistinctScopes(Next(s, Close(scope)).stack)
  {
  }

  // ---------------------------------------------------------------- runs

  ghost predicate IsRun<S>(s: State<S>, es: seq<Event<S>>)
    decreases |es|
  {
    es != [] ==> Enabled(s, es[0]) && IsRun(Next(s, es[0]), es[1..])
  }

  ghost function After<S>(s: State<S>, es: seq<Event<S>>): State<S>
    requires IsRun(s, es)
    decreases |es|
  {
    if es == [] then s else After(Next(s, es[0]), es[1..])
  }

  lemma {:induction false} RunKeepsInv<S>(s: State<S>, es: seq<Event<S>>)
    requires Inv(s) && IsRun(s, es)
    ensures Inv(After(s, es))
    decreases |es|
  {
    hide Inv, Next, Enabled;
    if es != [] {
      StepKeepsInv(s, es[0]);
      RunKeepsInv(Next(s, es[0]), es[1..]);
    }
  }

  /** The number of scopes that hold a span. */
  function Holders<S>(stack: seq<Frame<S>>, id: nat): nat {
    if stack == [] then 0 else (if stack[0].span == Some(id) then 1 else 0) + Holders(stack[1..], id)
  }

  lemma {:induction false} HoldersAre<S>(stack: seq<Frame<S>>, id: nat)
    ensures Holders(stack, id) == Held(stack)[id]
  {
    if stack != [] {
      HoldersAre(stack[1..], id);
    }
  }

  /** After any run of a thread, every span it created has exactly one holder: one scope, one
      caller, or the receiver, which got it once.  No other id has any. */
  lemma EverySpanOnce<S>(es: seq<Event<S>>, id: nat)
    requires IsRun(Init<S>(), es)
    ensures var s := After(Init<S>(), es);
            Holders(s.stack, id) + (if id in s.detached then 1 else 0) + multiset(s.delivered)[id]
            == if id in Ids(s.created) then 1 else 0
  {
    hide IsRun, After;
    InitInv<S>();
    RunKeepsInv(Init<S>(), es);
    var s := After(Init<S>(), es);
    HoldersAre(s.stack, id);
    IdOnce(s.created, id);
    assert (Held(s.stack) + multiset(s.detached) + multiset(s.delivered))[id] == multiset(Ids(s.created))[id];
  }

  /** So after any run, the parent recorded for a new span is the one the comment promises
      exactly when an even number of scopes at the top have disowned their spans. */
  lemma ParentAfterRun<S>(es: seq<Event<S>>)
    requires IsRun(Init<S>(), es)
    ensures var stack := After(Init<S>(), es).stack;
            ParentSearch(stack, 0) == NearestSpan(stack) <==> Disowned(stack) % 2 == 0
  {
    hide IsRun, After, ParentSearch, NearestSpan, Disowned;
    InitInv<S>();
    RunKeepsInv(Init<S>(), es);
    InvDistinctSpans(After(Init<S>(), es));
    SearchKeepsPromise(After(Init<S>(), es).stack);
  }

  /** A line of descent: each span is recorded as the parent of the one before it. */
  predicate Descends(created: seq<Created>, path: seq<nat>) {
    forall i :: 0 <= i < |path| - 1 ==> Created(path[i], Some(path[i + 1])) in created
  }

  lemma DescentRest(created: seq<Created>, path: seq<nat>)
    requires |path| > 1 && Descends(created, path)
    ensures Descends(created, path[1..])
  {
    var rest := path[1..];
    forall i | 0 <= i < |rest| - 1
      ensures Created(rest[i], Some(rest[i + 1])) in created
    {
      assert Created(path[i + 1], Some(path[i + 1 + 1])) in created;
    }
  }

  lemma {:induction false} DescentGoesBack(created: seq<Created>, path: seq<nat>, from: nat, to: nat)
    requires FreshIds(created) && ParentsEarlier(created) && Descends(created, path)
    requires |path| > 1 && from < |created| && to < |created|
    requires created[from].id == path[0] && created[to].id == path[|path| - 1]
    ensures to < from
    decreases |path|
  {
    var c := Created(path[0], Some(path[1]));
    assert c in created;
    var j :| 0 <= j < |created| && created[j] == c;
    assert j == from;
    var i :| 0 <= i < j && created[i].id == path[1];
    if |path| > 2 {
      DescentRest(created, path);
      DescentGoesBack(created, path[1..], i, to);
    }
  }

  /** After any run, no span is its own ancestor. */
  lemma NoCycle<S>(es: seq<Event<S>>, path: seq<nat>)
    requires IsRun(Init<S>(), es) && |path| > 1
    requires Descends(After(Init<S>(), es).created, path)
    ensures path[0] != path[|path| - 1]
  {
    hide IsRun, After;
    InitInv<S>();
    RunKeepsInv(Init<S>(), es);
    var created := After(Init<S>(), es).created;
    assert Created(path[0], Some(path[1])) in created;
    var j :| 0 <= j < |created| && created[j] == Created(path[0], Some(path[1]));
    if path[0] == path[|path| - 1] {
      DescentGoesBack(created, path, j, j);
    }
  }

  // ---------------------------------------------------------------- what becomes of a span

  /** After any run, a start with a valid description puts a new span on top: under an open
      scope whatever the sampler says, and at the root exactly if it says yes.  Otherwise it
      changes nothing.  At the root the span has no parent; under open scopes of which an even
      number at the top have disowned their spans, its parent is the nearest span. */
  lemma StartAfterRun<S>(es: seq<Event<S>>, scope: S, id: nat, valid: bool, sampled: bool)
    requires IsRun(Init<S>(), es)
    requires Enabled(After(Init<S>(), es), Event.Start(scope, id, valid, sampled))
    ensures var s := After(Init<S>(), es); var s2 := Next(s, Event.Start(scope, id, valid, sampled));
            var n := Disowned(s.stack);
            && s2.detached == s.detached && s2.delivered == s.delivered
            && if valid && (s.stack != [] || sampled) then
                 && s2.stack == [Frame(scope, Some(id))] + s.stack
                 && |s2.created| == |s.created| + 1 && s2.created[..|s.created|] == s.created
                 && s2.created[|s.created|].id == id
                 && (n % 2 == 0 ==>
                       s2.created[|s.created|].parent == if n < |s.stack| then s.stack[n].span else None)
               else s2.stack == s.stack && s2.created == s.created
  {
    hide IsRun, After, ParentSearch, Disowned;
    ParentAfterRun(es);
  }

  /** The next span that is started is a child of the one on top. */
  lemma StartsChild<S>(s: State<S>, a: S, id: nat, b: S, id2: nat)
    requires Enabled(s, Event.Start(a, id, true, true))
    requires b != a && !OnStack(s.stack, b) && id2 != 0 && id2 != id && id2 !in Ids(s.created)
    ensures var s1 := Next(s, Event.Start(a, id, true, true)); var e := Event.Start(b, id2, true, false);
            && Enabled(s1, e)
            && Next(s1, e).stack == [Frame(b, Some(id2)), Frame(a, Some(id))] + s.stack
            && Next(s1, e).created[|s.created| + 1] == Created(id2, Some(id))
  {
    var s1 := Next(s, Event.Start(a, id, true, true));
    assert s1.stack[1..] == s.stack;
    assert ParentSearch(s1.stack, 0) == Parent(id);
    assert Ids(s1.created) == Ids(s.created) + [id];
    assert !OnStack(s1.stack, b) by { NotBelow(s1.stack, s.stack, b); }
  }

  lemma NotBelow<S>(stack: seq<Frame<S>>, below: seq<Frame<S>>, scope: S)
    requires stack != [] && stack[1..] == below && stack[0].scope != scope && !OnStack(below, scope)
    ensures !OnStack(stack, scope)
  {
    forall i | 0 <= i < |stack|
      ensures stack[i].scope != scope
    {
      if i > 0 {
        assert stack[i] == below[i - 1];
      }
    }
  }

  /** A scope that is opened and closed leaves the chain as it was, and its span delivered. */
  lemma StartThenClose<S>(s: State<S>, a: S, id: nat)
    requires Enabled(s, Event.Start(a, id, true, true))
    ensures var es := [Event.Start(a, id, true, true), Close(a)];
            && IsRun(s, es)
            && var s2 := After(s, es);
               && s2.stack == s.stack && s2.detached == s.detached && s2.delivered == s.delivered + [id]
               && Ids(s2.created) == Ids(s.created) + [id]
  {
    hide ParentSearch;
    var e1, e2 := Event.Start(a, id, true, true), Close(a);
    var s1 := Next(s, e1);
    assert s1.stack[0].scope == a && s1.stack[1..] == s.stack;
    assert Enabled(s1, e2);
    RunOne(s1, e2, []);
    RunOne(s, e1, [e2]);
    assert [e2] + [] == [e2] && [e1] + [e2] == [e1, e2];
  }

  /** The stages of a span that is handed from one scope to another: started in a, detached,
      a closed without it, restarted in b, and b closed. */
  lemma HandedOver<S>(s: State<S>, a: S, b: S, id: nat)
    requires Inv(s) && Enabled(s, Event.Start(a, id, true, true)) && !OnStack(s.stack, b)
    ensures var es := [Event.Start(a, id, true, true), Detach(a), Close(a), Restart(b, id), Close(b)];
            && IsRun(s, es)
            && var s2 := After(s, es);
               && s2.stack == s.stack && s2.detached == s.detached && s2.delivered == s.delivered + [id]
               && Ids(s2.created) == Ids(s.created) + [id]
  {
    hide ParentSearch, Inv, After, IsRun, Next;
    var e1, e2, e3 := Event.Start(a, id, true, true), Detach(a), Close(a);
    var e4, e5 := Restart(b, id), Close(b);
    var s1 := StartEffect(s, a, id);
    var s2 := DetachTopEffect(s1, s.stack, a, id);
    var s3 := CloseTopEffect(s2, s.stack, a, None);
    NotDetached(s, id);
    var s4 := RestartEffect(s3, b, id);
    var s5 := CloseTopEffect(s4, s.stack, b, Some(id));
    assert s.detached + {id} - {id} == s.detached;
    RunNone(s5);
    RunOne(s4, e5, []);
    assert [e5] + [] == [e5] && [e4] + [e5] == [e4, e5];
    RunOne(s3, e4, [e5]);
    assert [e3] + [e4, e5] == [e3, e4, e5];
    RunOne(s2, e3, [e4, e5]);
    assert [e2] + [e3, e4, e5] == [e2, e3, e4, e5];
    RunOne(s1, e2, [e3, e4, e5]);
    assert [e1] + [e2, e3, e4, e5] == [e1, e2, e3, e4, e5];
    RunOne(s, e1, [e2, e3, e4, e5]);
  }

  lemma StartEffect<S>(s: State<S>, a: S, id: nat) returns (s2: State<S>)
    requires Enabled(s, Event.Start(a, id, true, true))
    ensures s2 == Next(s, Event.Start(a, id, true, true))
    ensures s2 == s.(stack := [Frame(a, Some(id))] + s.stack, created := s2.created)
    ensures Ids(s2.created) == Ids(s.created) + [id]
  {
    s2 := Next(s, Event.Start(a, id, true, true));
  }

  lemma DetachTopEffect<S>(s: State<S>, below: seq<Frame<S>>, a: S, id: nat) returns (s2: State<S>)
    requires s.stack == [Frame(a, Some(id))] + below
    ensures Enabled(s, Detach(a)) && s2 == Next(s, Detach(a))
    ensures s2 == s.(stack := [Frame(a, None)] + below, detached := s.detached + {id})
  {
    assert s.stack[0].scope == a && s.stack[1..] == below;
    s2 := Next(s, Detach(a));
  }

  lemma CloseTopEffect<S>(s: State<S>, below: seq<Frame<S>>, a: S, span: Option<nat>) returns (s2: State<S>)
    requires s.stack == [Frame(a, span)] + below
    ensures Enabled(s, Close(a)) && s2 == Next(s, Close(a))
    ensures s2 == s.(stack := below, delivered := s.delivered + if span.Some? then [span.value] else [])
  {
    assert s.stack[0].scope == a && s.stack[1..] == below;
    s2 := Next(s, Close(a));
  }

  lemma RestartEffect<S>(s: State<S>, b: S, id: nat) returns (s2: State<S>)
    requires !OnStack(s.stack, b) && id in s.detached
    ensures Enabled(s, Restart(b, id)) && s2 == Next(s, Restart(b, id))
    ensures s2 == s.(stack := [Frame(b, Some(id))] + s.stack, detached := s.detached - {id})
  {
    s2 := Next(s, Restart(b, id));
  }

  lemma NotDetached<S>(s: State<S>, id: nat)
    requires Inv(s) && id !in Ids(s.created)
    ensures id !in s.detached
  {
    assert id in s.detached ==> id in multiset(Ids(s.created));
  }

  lemma RunNone<S>(s: State<S>)
    ensures IsRun(s, []) && After(s, []) == s
  {
  }

  // ---------------------------------------------------------------- where the search fails

  lemma RunOne<S>(s: State<S>, e: Event<S>, es: seq<Event<S>>)
    requires Enabled(s, e) && IsRun(Next(s, e), es)
    ensures IsRun(s, [e] + es) && After(s, [e] + es) == After(Next(s, e), es)
  {
    hide Next, Enabled;
    assert ([e] + es)[1..] == es;
  }

  /** A span is started and its scope, the only one, detached: starting another span follows
      a NULL pointer. */
  lemma CrashAfterDetach<S>(a: S)
    ensures var es := [Start(a, 1, true, true), Detach(a)];
            IsRun(Init<S>(), es) && ParentSearch(After(Init<S>(), es).stack, 0) == NullDereference
  {
    var s0 := Init<S>();
    var e1, e2 := Start(a, 1, true, true), Detach(a);
    var s1 := Next(s0, e1);
    assert s1.stack == [Frame(a, Some(1))] && s1.stack[0].scope == a;
    var s2 := Next(s1, e2);
    assert s2.stack == [Frame(a, None)];
    RunOne(s1, e2, []);
    RunOne(s0, e1, [e2]);
    assert [e2] + [] == [e2] && [e1] + [e2] == [e1, e2];
  }

  /** With a second, detached scope above the first, no parent is found though there is one. */
  lemma MissedParent<S>(a: S, b: S)
    requires a != b
    ensures var es := [Start(a, 1, true, true), Start(b, 2, true, true), Detach(b)];
            && IsRun(Init<S>(), es)
            && var stack := After(Init<S>(), es).stack;
               ParentSearch(stack, 0) == NoParent && NearestSpan(stack) == Parent(1)
  {
    var s0 := Init<S>();
    var e1, e2, e3 := Start(a, 1, true, true), Start(b, 2, true, true), Detach(b);
    var s1 := Next(s0, e1);
    var s2 := Next(s1, e2);
    assert s2.stack == [Frame(b, Some(2)), Frame(a, Some(1))] && s2.stack[0].scope == b;
    var s3 := Next(s2, e3);
    assert s3.stack == [Frame(b, None), Frame(a, Some(1))];
    assert s3.stack[1..] == [Frame(a, Some(1))];
    RunOne(s2, e3, []);
    RunOne(s1, e2, [e3]);
    RunOne(s0, e1, [e2, e3]);
    assert [e3] + [] == [e3] && [e2] + [e3] == [e2, e3] && [e1] + [e2, e3] == [e1, e2, e3];
  }

  /** With a third scope, detached, above two others, the grandparent is taken for the parent. */
  lemma WrongParent<S>(a: S, b: S, d: S)
    requires a != b && a != d && b != d
    ensures var es := [Start(a, 1, true, true), Start(b, 2, true, true), Start(d, 3, true, true), Detach(d)];
            && IsRun(Init<S>(), es)
            && var stack := After(Init<S>(), es).stack;
               ParentSearch(stack, 0) == Parent(1) && NearestSpan(stack) == Parent(2)
  {
    var s0 := Init<S>();
    var e1, e2, e3, e4 := Start(a, 1, true, true), Start(b, 2, true, true), Start(d, 3, true, true), Detach(d);
    var s1 := Next(s0, e1);
    var s2 := Next(s1, e2);
    var s3 := Next(s2, e3);
    assert s3.stack == [Frame(d, Some(3)), Frame(b, Some(2)), Frame(a, Some(1))] && s3.stack[0].scope == d;
    var s4 := Next(s3, e4);
    assert s4.stack == [Frame(d, None), Frame(b, Some(2)), Frame(a, Some(1))];
    assert s4.stack[1..][0] == Frame(b, Some(2));
    RunOne(s3, e4, []);
    RunOne(s2, e3, [e4]);
    RunOne(s1, e2, [e3, e4]);
    RunOne(s0, e1, [e2, e3, e4]);
    assert [e4] + [] == [e4] && [e3] + [e4] == [e3, e4] && [e2] + [e3, e4] == [e2, e3, e4];
    assert [e1] + [e2, e3, e4] == [e1, e2, e3, e4];
  }

  // ---------------------------------------------------------------- last in, first out

  function ScopesOf<S>(stack: seq<Frame<S>>): (r: seq<S>)
    ensures |r| == |stack|
  {
    seq(|stack|, i requires 0 <= i < |stack| => stack[i].scope)
  }

  /** What a step does to the chain of scopes: it pushes one, pops the top, or leaves it. */
  lemma StepOnScopes<S>(s: State<S>, e: Event<S>)
    requires Enabled(s, e)
    ensures var before, after := ScopesOf(s.stack), ScopesOf(Next(s, e).stack);
            || after == before
            || ((e.Start? || e.Restart?) && after == [e.scope] + before)
            || (e.Close? && before != [] && before[0] == e.scope && after == before[1..])
  {
    hide ParentSearch;
    if e.Detach? {
      DisownScopes(s.stack, e.scope);
    }
  }

  /** The scopes that were open when a scope was opened. */
  function Below<S(==)>(scopes: seq<S>, scope: S): seq<S> {
    if scopes == [] then [] else if scopes[0] == scope then scopes[1..] else Below(scopes[1..], scope)
  }

  ghost predicate StaysOpen<S>(s: State<S>, es: seq<Event<S>>, scope: S)
    requires IsRun(s, es)
    decreases |es|
  {
    OnStack(s.stack, scope) && (es != [] ==> StaysOpen(Next(s, es[0]), es[1..], scope))
  }

  lemma StepKeepsBelow<S>(s: State<S>, e: Event<S>, scope: S)
    requires Enabled(s, e) && DistinctScopes(s.stack)
    requires OnStack(s.stack, scope) && OnStack(Next(s, e).stack, scope)
    ensures Below(ScopesOf(Next(s, e).stack), scope) == Below(ScopesOf(s.stack), scope)
  {
    hide Next;
    StepOnScopes(s, e);
    var before, after := ScopesOf(s.stack), ScopesOf(Next(s, e).stack);
    var i :| 0 <= i < |s.stack| && s.stack[i].scope == scope;
    var j :| 0 <= j < |Next(s, e).stack| && Next(s, e).stack[j].scope == scope;
    assert before[i] == scope && after[j] == scope;
    if after != before {
      if e.Close? {
        assert before[j + 1] == scope && s.stack[0].scope == before[0] && s.stack[j + 1].scope == scope;
        assert before[0] != scope;
      } else {
        assert e.scope != scope;
        assert after[1..] == before;
      }
    }
  }

  /** As long as a scope stays open, exactly the scopes that were open below it stay open, in
      their order: scopes end in the reverse of the order in which they began. */
  lemma {:induction false} LastInFirstOut<S>(s: State<S>, es: seq<Event<S>>, scope: S)
    requires Inv(s) && IsRun(s, es) && StaysOpen(s, es, scope)
    ensures Below(ScopesOf(After(s, es).stack), scope) == Below(ScopesOf(s.stack), scope)
    decreases |es|
  {
    hide Next, Enabled, Below;
    if es != [] {
      var s1 := Next(s, es[0]);
      StepKeepsInv(s, es[0]);
      assert StaysOpen(s1, es[1..], scope);
      StepKeepsBelow(s, es[0], scope);
      LastInFirstOut(s1, es[1..], scope);
    }
  }
}
