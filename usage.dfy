/** `Usage<T, S>`: an adapter tagging a controlled value with a usage scope
    `S`, checked at compile time through the `Acceptable<S>` marker trait.
    The scope is `PhantomData`: it never affects a value. */
module UsageScopes {
  import opened Layers

  /** `Acceptable<S>`: a `Usage<_, S>` is acceptable in scope `S` only, and a
      plain `Protected` in `DefaultScope`. No other wrapper implements it. */
  predicate Acceptable<T>(c: Controlled<T>, s: Scope)
  {
    match c
    case Usage(_, scope) => scope == s
    case Protected(_) => s == DefaultScope
    case _ => false
  }

  /** `Usage::new(x)`: `init_from_inner` of the wrapped layer's type with the
      scope tag on top; the result is acceptable exactly in its own scope and
      its inner value is `x`. */
  lemma UsageNew<T>(shape: seq<Adapter>, s: Scope, x: T, t: Scope)
    ensures Inner(InitFromInner([UsageAdapter(s)] + shape, x)) == x
    ensures Acceptable(InitFromInner([UsageAdapter(s)] + shape, x), t) <==> s == t
  {
    assert ([UsageAdapter(s)] + shape)[1..] == shape;
  }

  /** The tests: a `DefaultScope` usage value is accepted where `DefaultScope`
      is required, and a `MyScope` one where `MyScope` is. */
  lemma UsageScopeExamples(x: seq<int>)
    ensures Acceptable(Usage(Protected(x), DefaultScope), DefaultScope)
    ensures Acceptable(Usage(Protected(x), Named("MyScope")), Named("MyScope"))
    ensures !Acceptable(Usage(Protected(x), Named("MyScope")), DefaultScope)
    ensures Acceptable(Protected(x), DefaultScope)
  {
  }

  /** The scope tag is phantom: retagging changes neither the inner value nor
      anything `risky_unwrap` or `inner_mut` do. */
  lemma ScopeIsPhantom<T>(w: Controlled<T>, s: Scope, t: Scope, x: T)
    ensures Inner(Usage(w, s)) == Inner(Usage(w, t))
    ensures IsControlled(Usage(w, s)) <==> IsControlled(Usage(w, t))
    ensures IsControlled(Usage(w, s)) ==> RiskyUnwrap(Usage(w, s)) == RiskyUnwrap(Usage(w, t))
    ensures Inner(SetInner(Usage(w, s), x)) == Inner(SetInner(Usage(w, t), x))
  {
  }
}
