/** The single-owner attachment discipline of `Component`: a component is either
    free-standing or attached to exactly one parent. */
module Components {
  import opened Errors

  /** The state of a component; `Attached(owner)` is a non-`None` `__parent__`. */
  datatype Component<P> = Unattached | Attached(owner: P)

  /** The `parent` property. */
  function Parent<P>(c: Component<P>): (r: Result<P>)
    ensures r.Ok? <==> c.Attached?
    ensures r.Ok? ==> r.value == c.owner
    ensures r.Err? ==> r.error == ValueError
  {
    match c
    case Unattached => Err(ValueError)
    case Attached(p) => Ok(p)
  }

  /** `attach(parent)`: the component after the call, or the exception. A failed
      call produces no new state, so the caller keeps its component unchanged. */
  function Attach<P(==)>(c: Component<P>, parent: P): (r: Result<Component<P>>)
    ensures r.Ok? <==> (c.Unattached? || c.owner == parent)
    ensures r.Ok? ==> Parent(r.value) == Ok(parent)
    ensures r.Err? ==> r.error == ValueError
  {
    match c
    case Attached(p) =>
      if parent == p then Ok(c) else Err(ValueError)
    case Unattached => Ok(Attached(parent))
  }

  /** `detach(parent=None)`: `__detach__` never looks at its argument, so it
      is accepted and ignored. */
  function Detach<P>(c: Component<P>, parent: Option<P>): (r: Result<Component<P>>)
    ensures r.Ok? <==> c.Attached?
    ensures r.Ok? ==> Parent(r.value).Err?
    ensures r.Err? ==> r.error == ValueError
  {
    match c
    case Unattached => Err(ValueError)
    case Attached(_) => Ok(Unattached)
  }

  /** Re-attaching to the parent a component already has changes nothing. */
  lemma AttachIdempotent<P>(c: Component<P>, p: P)
    requires Attach(c, p).Ok?
    ensures Attach(Attach(c, p).value, p) == Attach(c, p)
  {
  }

  /** Once attached, attaching elsewhere fails and the parent stays the old one. */
  lemma AttachedIsExclusive<P>(c: Component<P>, p: P, q: P)
    requires Attach(c, p).Ok? && q != p
    ensures Attach(Attach(c, p).value, q) == Err(ValueError)
    ensures Parent(Attach(c, p).value) == Ok(p)
  {
  }

  /** Detaching frees the component: a later attach to any parent succeeds. */
  lemma DetachFreesComponent<P>(c: Component<P>, hint: Option<P>, q: P)
    requires c.Attached?
    ensures Detach(c, hint).Ok?
    ensures Attach(Detach(c, hint).value, q) == Ok(Attached(q))
  {
  }
}
