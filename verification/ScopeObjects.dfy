/** The scope objects of scope.c, linked through their parent fields, and the thread-local
    top of htracer.c.  Each operation is proved to be its step in `Scopes`. */
module ScopeObjects {
  import opened Bytes
  import opened Scopes
  import opened Span
  import opened StringUtil
  import opened Wrappers

  class HtraceScope {
    var parent: HtraceScope?
    var span: HtraceSpan?

    constructor (span: HtraceSpan?)
      ensures this.span == span && parent == null
    {
      this.span, parent := span, null;
    }
  }

  function SpanIds(spans: seq<SpanData>): (ids: seq<nat>)
    ensures |ids| == |spans|
  {
    seq(|spans|, i requires 0 <= i < |spans| => spans[i].spanId)
  }

  function IdOf(span: HtraceSpan): nat
    reads span
  {
    span.spanId
  }

  /** The scope around the i-th of a chain, or NULL. */
  function Enclosing(chain: seq<HtraceScope>, i: nat): HtraceScope?
    requires i < |chain|
  {
    if i + 1 < |chain| then chain[i + 1] else null
  }

  lemma EnclosingPushed(chain: seq<HtraceScope>, next: HtraceScope, i: nat)
    requires i <= |chain|
    ensures Enclosing([next] + chain, i)
            == if i > 0 then Enclosing(chain, i - 1) else if chain == [] then null else chain[0]
  {
  }

  ghost function FrameOf(scope: HtraceScope): Frame<HtraceScope>
    reads scope`span, scope.span
  {
    if scope.span == null then Frame(scope, None)
    else
      var id: nat := scope.span.spanId;
      Frame(scope, Some(id))
  }

  /** The parent that is recorded in a span. */
  predicate HasParent(span: HtraceSpan, r: Search)
    reads span
  {
    match r
    case Parent(id) => span.numParents == 1 && span.single == id
    case _ => span.numParents == 0
  }

  /** A tracer as one thread sees it.  `top` is the thread-local pointer; `received` is what
      the receiver's add_span was called with.  The ghost fields are the chain of scopes from
      the top, the spans that callers hold, and the rest of the state of `Scopes`. */
  class Tracer {
    var top: HtraceScope?
    var received: seq<SpanData>
    ghost var chain: seq<HtraceScope>
    ghost var stack: seq<Frame<HtraceScope>>
    ghost var owned: set<HtraceSpan>
    ghost var detached: set<nat>
    ghost var created: seq<Created>

    ghost function View(): State<HtraceScope>
      reads `stack, `detached, `received, `created
    {
      State(stack, detached, SpanIds(received), created)
    }

    ghost function Attached(): set<HtraceSpan>
      reads `chain, chain
    {
      set sc | sc in chain && sc.span != null :: sc.span
    }

    /** The chain is linked from the top, and the stack tells what its scopes hold. */
    ghost predicate Linked()
      reads `top, `chain, `stack, chain, Attached()
    {
      && top == (if chain == [] then null else chain[0])
      && |stack| == |chain|
      && (forall i, j :: 0 <= i < j < |chain| ==> chain[i] != chain[j])
      && (forall i :: 0 <= i < |chain| ==> chain[i].parent == Enclosing(chain, i))
      && (forall i :: 0 <= i < |chain| ==> stack[i] == FrameOf(chain[i]))
      && (forall i :: 0 <= i < |chain| && chain[i].span != null ==> chain[i].span.Valid())
    }

    ghost predicate Owns()
      reads `owned, `detached, owned
    {
      && (forall span <- owned :: span.Valid() && IdOf(span) in detached)
      && (forall a, b :: a in owned && b in owned && a != b ==> IdOf(a) != IdOf(b))
    }

    ghost predicate Valid()
      reads this, chain, Attached(), owned
    {
      Linked() && Owns() && Inv(View())
    }

    constructor ()
      ensures Valid() && View() == Init()
    {
      top, received := null, [];
      chain, stack, owned, detached, created := [], [], {}, {}, [];
    }

    // -------------------------------------------------------------- facts

    lemma OpenScope(scope: HtraceScope)
      requires Linked()
      ensures scope in chain <==> OnStack(stack, scope)
      ensures forall i :: 0 <= i < |chain| ==> stack[i].scope == chain[i]
    {
      forall i | 0 <= i < |chain|
        ensures stack[i].scope == chain[i]
      {
        assert stack[i] == FrameOf(chain[i]);
      }
    }

    /** No span object has two holders. */
    lemma HeldApart(i: nat)
      requires Valid() && i < |chain| && chain[i].span != null
      ensures chain[i].span !in owned
      ensures IdOf(chain[i].span) !in detached
      ensures forall j :: 0 <= j < |chain| && j != i ==> chain[j].span != chain[i].span
    {
      var s, id := View(), IdOf(chain[i].span);
      InvDistinctSpans(s);
      assert s.stack[i] == FrameOf(chain[i]);
      HeldAt(s.stack, i);
      IdOnce(s.created, id);
      assert (Held(s.stack) + multiset(s.detached) + multiset(s.delivered))[id] <= 1;
      forall j | 0 <= j < |chain| && j != i
        ensures chain[j].span != chain[i].span
      {
        assert s.stack[j] == FrameOf(chain[j]);
      }
    }

    // -------------------------------------------------------------- htracer.c

    /** htracer_push_scope. */
    method PushScope(cur: HtraceScope?, next: HtraceScope)
      requires Linked() && cur == top && next !in chain
      requires next.span != null && next.span.Valid()
      modifies this`top, this`chain, this`stack, next`parent
      ensures Linked() && chain == [next] + old(chain) && stack == [FrameOf(next)] + old(stack)
    {
      hide Enclosing;
      ghost var before, frames := chain, stack;
      next.parent := cur;
      top := next;
      chain := [next] + chain;
      stack := [FrameOf(next)] + stack;
      EnclosingPushed(before, next, 0);
      forall i | 0 < i < |chain|
        ensures chain[i] != next && chain[i].parent == Enclosing(chain, i) && stack[i] == FrameOf(chain[i])
        ensures chain[i].span != null ==> chain[i].span.Valid()
      {
        EnclosingPushed(before, next, i);
        assert chain[i] == before[i - 1] && before[i - 1] in before && stack[i] == frames[i - 1];
        assert before[i - 1].parent == Enclosing(before, i - 1) && frames[i - 1] == FrameOf(before[i - 1]);
      }
    }

    /** htracer_pop_scope; false for EIO. */
    method PopScope(scope: HtraceScope) returns (ok: bool)
      requires Linked() && scope in chain
      modifies this`top, this`chain, this`stack
      ensures Linked() && ok == (old(top) == scope)
      ensures if ok then chain == old(chain)[1..] && stack == old(stack)[1..]
              else chain == old(chain) && stack == old(stack)
    {
      var curScope := top;
      if curScope != scope {
        return false;
      }
      ghost var before, frames := chain, stack;
      assert scope.parent == Enclosing(before, 0);
      top := scope.parent;
      chain, stack := chain[1..], stack[1..];
      forall i | 0 <= i < |chain|
        ensures chain[i].parent == Enclosing(chain, i) && stack[i] == FrameOf(chain[i])
        ensures chain[i].span != null ==> chain[i].span.Valid()
      {
        assert chain[i] == before[i + 1] && stack[i] == frames[i + 1] == FrameOf(before[i + 1]);
        assert before[i + 1].parent == Enclosing(before, i + 1);
      }
      return true;
    }

    // -------------------------------------------------------------- scope.c

    /** htrace_start_span.  `spanId` is the number from the random source that is not zero.
        NULL is returned, and nothing changed, for an invalid description or when the sampler
        is asked and declines.  Otherwise a scope with a new span is on top, and the span's
        parent is what the search found. */
    method StartSpan(desc: seq<byte>, sampled: bool, spanId: uint64, now: uint64) returns (scope: HtraceScope?)
      requires Valid()
      requires spanId != 0 && spanId !in Ids(created)
      requires Accepts(desc) && (top != null || sampled) ==> ParentSearch(stack, 0) != NullDereference
      modifies this`top, this`chain, this`stack, this`created
      ensures Valid()
      ensures scope != null <==> Accepts(desc) && (old(top) != null || sampled)
      ensures scope == null ==> View() == old(View())
      ensures scope != null ==>
                var sc: HtraceScope := scope; var e := Event.Start(sc, spanId, true, true);
                fresh(sc) && Enabled(old(View()), e) && View() == Next(old(View()), e)
      ensures scope != null ==>
                && scope.span != null && fresh(scope.span)
                && scope.span.desc == desc && scope.span.beginMs == now && scope.span.spanId == spanId
                && HasParent(scope.span, ParentSearch(old(stack), 0))
    {
      hide Inv, Accepts, ParentSearch, Owns;
      if !Accepts(desc) {
        return null;
      }
      var curScope := top;
      if curScope == null {
        if !sampled {
          return null;
        }
      }
      var span := new HtraceSpan(desc, now, spanId);
      FindParent(span);
      var next := new HtraceScope(span);
      PushNew(curScope, next);
      return next;
    }

    /** The push of a scope with a new span. */
    method PushNew(cur: HtraceScope?, next: HtraceScope)
      requires Valid() && cur == top && next !in chain && next.span != null && next.span.Valid()
      requires next.span.spanId != 0 && next.span.spanId !in Ids(created)
      requires ParentSearch(stack, 0) != NullDereference
      modifies this`top, this`chain, this`stack, this`created, next`parent
      ensures Valid() && next.span == old(next.span)
      ensures var e := Event.Start(next, next.span.spanId, true, true);
              Enabled(old(View()), e) && View() == Next(old(View()), e)
    {
      hide Inv, ParentSearch, Linked;
      ghost var before, e := View(), Event.Start(next, next.span.spanId, true, true);
      OpenScope(next);
      StepKeepsInv(before, e);
      PushScope(cur, next);
      Record(Created(next.span.spanId, ParentOf(ParentSearch(before.stack, 0))));
      assert View() == Next(before, e);
    }

    ghost method Record(c: Created)
      requires Linked() && Owns()
      modifies this`created
      ensures Linked() && Owns() && created == old(created) + [c]
    {
      created := created + [c];
    }

    /** Its search for the parent. */
    method FindParent(span: HtraceSpan)
      requires Linked() && span.numParents == 0 && span !in Attached()
      requires ParentSearch(stack, 0) != NullDereference
      modifies span`single, span`numParents
      ensures Linked() && HasParent(span, ParentSearch(stack, 0))
    {
      var pscope := top;
      ghost var i := 0;
      while pscope != null
        invariant 0 <= i <= |chain| && pscope == (if i < |chain| then chain[i] else null)
        invariant Linked() && span.numParents == 0
        invariant ParentSearch(stack, i) == ParentSearch(stack, 0)
        decreases |chain| - i
      {
        assert stack[i] == FrameOf(chain[i]);
        var pspan := pscope.span;
        if pspan != null {
          span.single := pspan.spanId;
          span.numParents := 1;
          break;
        }
        assert i + 1 < |chain|;
        pscope := pscope.parent;
        assert pscope == chain[i + 1];
        pscope := pscope.parent;
        i := i + 2;
      }
    }

    /** htrace_scope_detach; NULL for a scope that has disowned its span already. */
    method DetachSpan(scope: HtraceScope) returns (span: HtraceSpan?)
      requires Valid() && scope in chain
      modifies scope`span, this`owned, this`detached, this`stack
      ensures Valid() && span == old(scope.span) && scope.span == null
      ensures span != null ==> span in owned
      ensures Enabled(old(View()), Detach(scope)) && View() == Next(old(View()), Detach(scope))
    {
      hide Inv;
      ghost var before := View();
      ghost var i: nat :| i < |chain| && chain[i] == scope;
      OpenScope(scope);
      assert stack[i] == FrameOf(scope);
      InvScopes();
      DisownAt(stack, i);
      StepKeepsInv(before, Detach(scope));
      span := scope.span;
      if span == null {
        return null;
      }
      HeldApart(i);
      TakeSpan(scope, i);
      Own(span);
    }

    /** The span leaves the scope. */
    method TakeSpan(scope: HtraceScope, ghost i: nat)
      requires Linked() && i < |chain| && chain[i] == scope
      modifies scope`span, this`stack
      ensures Linked() && scope.span == null && stack == old(stack)[i := Frame(scope, None)]
    {
      scope.span := null;
      stack := stack[i := Frame(scope, None)];
    }

    /** The caller holds it now. */
    ghost method Own(span: HtraceSpan)
      requires Linked() && Owns() && span.Valid() && span !in owned && IdOf(span) !in detached
      modifies this`owned, this`detached
      ensures Linked() && Owns() && span in owned && detached == old(detached) + {IdOf(span)}
    {
      owned, detached := owned + {span}, detached + {IdOf(span)};
    }

    lemma InvScopes()
      requires Inv(View())
      ensures DistinctScopes(stack)
    {
    }

    /** htrace_restart_span, by the caller that holds the span. */
    method RestartSpan(span: HtraceSpan) returns (scope: HtraceScope)
      requires Valid() && span in owned
      modifies this`top, this`chain, this`stack, this`owned, this`detached
      ensures Valid() && fresh(scope) && scope.span == span
      ensures var e := Event.Restart(scope, IdOf(span));
              Enabled(old(View()), e) && View() == Next(old(View()), e)
    {
      hide Inv;
      scope := new HtraceScope(span);
      var curScope := top;
      PushOwned(curScope, scope, span);
    }

    /** The push of a scope with a span that a caller held. */
    method PushOwned(cur: HtraceScope?, next: HtraceScope, span: HtraceSpan)
      requires Valid() && cur == top && next !in chain && next.span == span && span in owned
      modifies this`top, this`chain, this`stack, this`owned, this`detached, next`parent
      ensures Valid() && next.span == span
      ensures var e := Event.Restart(next, IdOf(span));
              Enabled(old(View()), e) && View() == Next(old(View()), e)
    {
      hide Inv, Linked;
      ghost var before, e := View(), Event.Restart(next, IdOf(span));
      OpenScope(next);
      StepKeepsInv(before, e);
      PushScope(cur, next);
      GiveUp(span);
      assert View() == Next(before, e);
    }

    /** The caller no longer holds the span. */
    ghost method GiveUp(span: HtraceSpan)
      requires Linked() && Owns() && span in owned
      modifies this`owned, this`detached
      ensures Linked() && Owns() && detached == old(detached) - {IdOf(span)}
    {
      owned, detached := owned - {span}, detached - {IdOf(span)};
    }

    /** htrace_scope_close: only the top can be closed.  A span that it holds is given its end
        time and handed to the receiver. */
    method CloseScope(scope: HtraceScope, now: uint64)
      requires Valid() && scope in chain
      modifies this`top, this`chain, this`stack, this`received, if scope.span == null then {} else {scope.span}
      ensures Valid()
      ensures Enabled(old(View()), Close(scope)) && View() == Next(old(View()), Close(scope))
      ensures received == old(received) + (if old(top) != scope || old(scope.span) == null then []
                                           else [old(scope.span.View()).(endMs := now)])
    {
      hide Inv, Linked, Owns, Next, Enabled;
      CloseStep(scope);
      ghost var after, ids := Next(View(), Close(scope)), SpanIds(received);
      var ok := PopScope(scope);
      if ok {
        assert forall j :: 0 <= j < |chain| ==> chain[j] == old(chain)[j + 1];
        DeliverHeld(scope, now);
      }
      assert View() == after;
    }

    /** The end of the span of a scope that was taken off the chain. */
    method DeliverHeld(scope: HtraceScope, now: uint64)
      requires Linked() && Owns()
      requires scope.span != null ==>
                 && scope.span.Valid() && scope.span !in owned
                 && forall j :: 0 <= j < |chain| ==> chain[j].span != scope.span
      modifies this`received, if scope.span == null then {} else {scope.span}
      ensures Linked() && Owns()
      ensures received == old(received) + (if scope.span == null then [] else [old(scope.span.View()).(endMs := now)])
      ensures SpanIds(received) == SpanIds(old(received)) + (if scope.span == null then [] else [IdOf(scope.span)])
    {
      hide Linked, Owns;
      var span := scope.span;
      if span != null {
        Deliver(span, now);
      }
    }

    /** The step of `Scopes` that closing a scope is. */
    lemma CloseStep(scope: HtraceScope)
      requires Valid() && scope in chain
      ensures Enabled(View(), Close(scope)) && Inv(Next(View(), Close(scope)))
      ensures var s2 := Next(View(), Close(scope));
              if top == scope then
                && s2.stack == stack[1..] && s2.detached == detached && s2.created == created
                && s2.delivered == SpanIds(received) + (if scope.span == null then [] else [IdOf(scope.span)])
                && (scope.span != null ==>
                      && scope.span.Valid() && scope.span !in owned
                      && forall j :: 0 < j < |chain| ==> chain[j].span != scope.span)
              else s2 == View()
    {
      hide Inv, Owns, Next;
      OpenScope(scope);
      CloseEffect(View(), scope);
      StepKeepsInv(View(), Close(scope));
      assert stack[0] == FrameOf(chain[0]);
      if top == scope && scope.span != null {
        HeldApart(0);
      }
    }

    /** The end of a span that the tracer no longer refers to. */
    method Deliver(span: HtraceSpan, now: uint64)
      requires Linked() && Owns() && span.Valid() && span !in Attached() && span !in owned
      modifies span`endMs, this`received
      ensures Linked() && Owns() && received == old(received) + [old(span.View()).(endMs := now)]
    {
      span.endMs := now;
      AddSpan(span);
    }

    /** The receiver's add_span. */
    method AddSpan(span: HtraceSpan)
      requires span.Valid()
      modifies this`received
      ensures received == old(received) + [span.View()]
    {
      received := received + [SpanData(span.desc, span.beginMs, span.endMs, span.spanId, span.prid,
                                       if span.numParents == 0 then []
                                       else if span.numParents == 1 then [span.single]
                                       else span.list[..span.numParents])];
    }
  }
}
