/**
 * A task as the rest of the front end sees it: a callable with a name, a
 * description, a "new-style" marker and the optional host-selection
 * attributes that the `@hosts`/`@roles` declarations attach. An attribute
 * that was never set is `None`, which is not the same as an empty list.
 */
module Tasks {
  import opened Wrappers

  datatype Task = Task(
    name: string,
    doc: string,
    newStyle: bool,
    hosts: Option<seq<string>>,
    roles: Option<seq<string>>,
    excludeHosts: Option<seq<string>>)

  /** A plain function: a classic task with no attributes. */
  function Classic(name: string, doc: string): (r: Task)
  {
    Task(name, doc, false, None, None, None)
  }

  /** One argument given to `@hosts(...)` or `@roles(...)`: a name, or an iterable of names. */
  datatype DeclArg = Text(text: string) | Items(items: seq<string>)

  /**
   * The list a declaration stores: a single iterable argument stands for its
   * elements, so `@hosts(l)` and `@hosts(*l)` agree; otherwise every argument
   * contributes its names in order.
   */
  function DeclValues(args: seq<DeclArg>): (r: seq<string>)
    ensures |args| == 1 && args[0].Items? ==> r == args[0].items
    ensures (forall i :: 0 <= i < |args| ==> args[i].Text?) ==>
      |r| == |args| && forall i :: 0 <= i < |args| ==> r[i] == args[i].text
  {
    if |args| == 1 && args[0].Items? then args[0].items else Spread(args)
  }

  function Spread(args: seq<DeclArg>): (r: seq<string>)
    ensures (forall i :: 0 <= i < |args| ==> args[i].Text?) ==>
      |r| == |args| && forall i :: 0 <= i < |args| ==> r[i] == args[i].text
  {
    if args == [] then []
    else
      (match args[0] case Text(t) => [t] case Items(l) => l) + Spread(args[1..])
  }

  /** `@hosts(...)`: sets the task's host list, replacing any earlier one. */
  function DeclareHosts(t: Task, args: seq<DeclArg>): (r: Task)
    ensures r.hosts == Some(DeclValues(args))
    ensures r == t.(hosts := r.hosts)
  {
    t.(hosts := Some(DeclValues(args)))
  }

  /** `@roles(...)`: sets the task's role list, replacing any earlier one. */
  function DeclareRoles(t: Task, args: seq<DeclArg>): (r: Task)
    ensures r.roles == Some(DeclValues(args))
    ensures r == t.(roles := r.roles)
  {
    t.(roles := Some(DeclValues(args)))
  }

  /** `@task`: marks the task new-style and leaves its attributes alone. */
  function MarkTask(t: Task): (r: Task)
    ensures r.newStyle
    ensures r == t.(newStyle := true)
  {
    t.(newStyle := true)
  }

  /** Applying `@task` before or after `@hosts` gives the same task. */
  lemma MarkCommutesWithHosts(t: Task, args: seq<DeclArg>)
    ensures MarkTask(DeclareHosts(t, args)) == DeclareHosts(MarkTask(t), args)
    ensures MarkTask(DeclareHosts(t, args)).hosts == Some(DeclValues(args))
  {
  }

  /** `@hosts(l)` and `@hosts(*l)` store the same list, namely `l`. */
  lemma SingleIterableExpands(t: Task, l: seq<string>)
    ensures DeclareHosts(t, [Items(l)]).hosts == Some(l)
    ensures DeclareRoles(t, [Items(l)]).roles == Some(l)
    ensures DeclareHosts(t, [Items(l)]) == DeclareHosts(t, Texts(l))
    ensures DeclareRoles(t, [Items(l)]) == DeclareRoles(t, Texts(l))
  {
    assert DeclValues(Texts(l)) == l;
  }

  /** `@hosts(*l)` and `@roles(*l)` store `l`. */
  lemma DeclareSpread(t: Task, l: seq<string>)
    ensures DeclareHosts(t, Texts(l)).hosts == Some(l)
    ensures DeclareRoles(t, Texts(l)).roles == Some(l)
  {
    assert DeclValues(Texts(l)) == l;
  }

  /** The arguments `*l`: each name of `l` passed on its own. */
  function Texts(l: seq<string>): (r: seq<DeclArg>)
    ensures |r| == |l| && forall i :: 0 <= i < |l| ==> r[i] == Text(l[i])
  {
    if l == [] then [] else [Text(l[0])] + Texts(l[1..])
  }
}
