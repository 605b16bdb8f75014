/**
 * Task discovery: the walk over an imported fabfile module and the modules
 * it contains, producing the registry of tasks under dotted names.
 */
module Discovery {
  import opened Wrappers
  import opened Tasks

  /** What a module attribute is bound to. */
  datatype Value = TaskValue(task: Task) | Child(child: Node) | Other

  datatype Binding = Binding(name: string, value: Value)

  /** A module: its attributes in definition order and its explicit listing of exported names (`__all__`), if any. */
  datatype Node = Node(bindings: seq<Binding>, listing: Option<seq<string>>)

  /** Names starting with an underscore are private. */
  predicate IsPublic(name: string)
  {
    name == [] || name[0] != '_'
  }

  /** A binding the walk looks at: public, and listed when the module has a listing. */
  predicate IsCandidate(m: Node, b: Binding)
  {
    IsPublic(b.name) && (m.listing.None? || b.name in m.listing.value)
  }

  /** Some candidate binding from index `i` on, or in a candidate sub-module, is a new-style task. */
  predicate HasNewStyleFrom(m: Node, i: nat)
    decreases m, |m.bindings| - i
  {
    if i >= |m.bindings| then false
    else
      var b := m.bindings[i];
      (IsCandidate(m, b) && match b.value
        case TaskValue(t) => t.newStyle
        case Child(c) => HasNewStyle(c)
        case Other => false)
      || HasNewStyleFrom(m, i + 1)
  }

  predicate HasNewStyle(m: Node)
    decreases m, |m.bindings| + 1
  {
    HasNewStyleFrom(m, 0)
  }

  // ---------------------------------------------------------------------------
  // The walk

  const Dot: char := '.'

  /** One collected task under its dotted name. */
  datatype Entry = Entry(key: string, task: Task)

  /** Whether the walk keeps task `t`: once new-style tasks are in play, only those. */
  predicate Collected(t: Task, newStyleOnly: bool)
  {
    t.newStyle || !newStyleOnly
  }

  /** The key of a task bound to `name`: a new-style task keeps its declared name, a classic one its binding name. */
  function KeyOf(name: string, t: Task): (r: string)
  {
    if t.newStyle then t.name else name
  }

  /** The entries of a sub-module bound to `p`, under `p.`. */
  function Prefixed(p: string, es: seq<Entry>): (r: seq<Entry>)
    ensures |r| == |es| && forall i :: 0 <= i < |es| ==> r[i] == Entry(p + [Dot] + es[i].key, es[i].task)
  {
    if es == [] then [] else [Entry(p + [Dot] + es[0].key, es[0].task)] + Prefixed(p, es[1..])
  }

  /** What binding `i` of `m` contributes. */
  function Here(m: Node, i: nat, newStyleOnly: bool): (r: seq<Entry>)
    requires i < |m.bindings|
    decreases m, 0
  {
    var b := m.bindings[i];
    if !IsCandidate(m, b) then []
    else match b.value
      case TaskValue(t) => if Collected(t, newStyleOnly) then [Entry(KeyOf(b.name, t), t)] else []
      case Child(c) => Prefixed(b.name, Walk(c, newStyleOnly))
      case Other => []
  }

  /** What binding `i` of `m` and the bindings after it contribute, in order. */
  function WalkFrom(m: Node, i: nat, newStyleOnly: bool): (r: seq<Entry>)
    decreases m, |m.bindings| - i
  {
    if i >= |m.bindings| then [] else Here(m, i, newStyleOnly) + WalkFrom(m, i + 1, newStyleOnly)
  }

  /** Every task the depth-first walk of `m` collects, in walk order. */
  function Walk(m: Node, newStyleOnly: bool): (r: seq<Entry>)
    decreases m, |m.bindings| + 1
  {
    WalkFrom(m, 0, newStyleOnly)
  }

  // ---------------------------------------------------------------------------
  // Where a dotted name leads

  /** Binding `j` of `m` is a candidate that leads to task `t` under `key`. */
  ghost predicate ReachesAt(m: Node, j: nat, key: string, t: Task, newStyleOnly: bool)
    decreases m, 0
  {
    j < |m.bindings| && IsCandidate(m, m.bindings[j]) &&
    var b := m.bindings[j];
    match b.value
    case TaskValue(u) => u == t && Collected(t, newStyleOnly) && key == KeyOf(b.name, t)
    case Child(c) =>
      && |key| > |b.name| && key[..|b.name| + 1] == b.name + [Dot]
      && Reaches(c, key[|b.name| + 1..], t, newStyleOnly)
    case Other => false
  }

  /** Some binding of `m` leads to `t` under `key`. */
  ghost predicate Reaches(m: Node, key: string, t: Task, newStyleOnly: bool)
    decreases m, 1
  {
    exists j :: 0 <= j < |m.bindings| && ReachesAt(m, j, key, t, newStyleOnly)
  }

  /** A binding that leads to `t` makes its module lead there. */
  lemma ReachedAt(m: Node, j: nat, key: string, t: Task, newStyleOnly: bool)
    requires ReachesAt(m, j, key, t, newStyleOnly)
    ensures Reaches(m, key, t, newStyleOnly)
  {
  }

  /** A module leads to `t` only through one of its bindings. */
  lemma ReachedSomewhere(m: Node, key: string, t: Task, newStyleOnly: bool)
    requires Reaches(m, key, t, newStyleOnly)
    ensures exists j :: 0 <= j < |m.bindings| && ReachesAt(m, j, key, t, newStyleOnly)
  {
  }

  /** The entries under `p.` are those of the sub-module, with the prefix added. */
  lemma PrefixedMembers(p: string, es: seq<Entry>, key: string, t: Task)
    ensures Entry(key, t) in Prefixed(p, es)
        <==> |key| > |p| && key[..|p| + 1] == p + [Dot] && Entry(key[|p| + 1..], t) in es
  {
    if Entry(key, t) in Prefixed(p, es) {
      PrefixedEntry(p, es, key, t);
    }
    if |key| > |p| && key[..|p| + 1] == p + [Dot] && Entry(key[|p| + 1..], t) in es {
      EntryPrefixed(p, es, key, t);
    }
  }

  lemma PrefixedEntry(p: string, es: seq<Entry>, key: string, t: Task)
    requires Entry(key, t) in Prefixed(p, es)
    ensures |key| > |p| && key[..|p| + 1] == p + [Dot] && Entry(key[|p| + 1..], t) in es
  {
    var r := Prefixed(p, es);
    var i :| 0 <= i < |r| && r[i] == Entry(key, t);
    assert key == p + [Dot] + es[i].key;
    assert key[..|p| + 1] == p + [Dot] && key[|p| + 1..] == es[i].key;
  }

  lemma EntryPrefixed(p: string, es: seq<Entry>, key: string, t: Task)
    requires |key| > |p| && key[..|p| + 1] == p + [Dot] && Entry(key[|p| + 1..], t) in es
    ensures Entry(key, t) in Prefixed(p, es)
  {
    var i :| 0 <= i < |es| && es[i] == Entry(key[|p| + 1..], t);
    assert key == key[..|p| + 1] + key[|p| + 1..];
    assert Prefixed(p, es)[i] == Entry(key, t);
  }

  /** Binding `i` contributes exactly what it leads to. */
  lemma HereReaches(m: Node, i: nat, key: string, t: Task, newStyleOnly: bool)
    requires i < |m.bindings|
    ensures Entry(key, t) in Here(m, i, newStyleOnly) <==> ReachesAt(m, i, key, t, newStyleOnly)
    decreases m, 0
  {
    var b := m.bindings[i];
    if IsCandidate(m, b) && b.value.Child? {
      PrefixedMembers(b.name, Walk(b.value.child, newStyleOnly), key, t);
      if |key| > |b.name| {
        WalkReaches(b.value.child, key[|b.name| + 1..], t, newStyleOnly);
      }
    }
  }

  /** The entries from binding `i` on are exactly what the bindings from `i` on lead to. */
  lemma {:induction false} WalkFromReaches(m: Node, i: nat, key: string, t: Task, newStyleOnly: bool)
    ensures Entry(key, t) in WalkFrom(m, i, newStyleOnly)
        <==> exists j :: i <= j < |m.bindings| && ReachesAt(m, j, key, t, newStyleOnly)
    decreases m, |m.bindings| - i
  {
    if i < |m.bindings| {
      WalkFromReaches(m, i + 1, key, t, newStyleOnly);
      HereReaches(m, i, key, t, newStyleOnly);
      if exists j :: i <= j < |m.bindings| && ReachesAt(m, j, key, t, newStyleOnly) {
        var j :| i <= j < |m.bindings| && ReachesAt(m, j, key, t, newStyleOnly);
        assert j == i || (i + 1 <= j < |m.bindings| && ReachesAt(m, j, key, t, newStyleOnly));
      }
    }
  }

  /** The walk collects `t` under `key` exactly when some chain of candidate bindings leads there. */
  lemma WalkReaches(m: Node, key: string, t: Task, newStyleOnly: bool)
    ensures Entry(key, t) in Walk(m, newStyleOnly) <==> Reaches(m, key, t, newStyleOnly)
    decreases m, |m.bindings| + 1
  {
    WalkFromReaches(m, 0, key, t, newStyleOnly);
    if Entry(key, t) in Walk(m, newStyleOnly) {
      var j :| 0 <= j < |m.bindings| && ReachesAt(m, j, key, t, newStyleOnly);
      ReachedAt(m, j, key, t, newStyleOnly);
    }
    if Reaches(m, key, t, newStyleOnly) {
      ReachedSomewhere(m, key, t, newStyleOnly);
    }
  }

  // ---------------------------------------------------------------------------
  // The registry

  /** The two same-keyed mappings a load returns: dotted name to description, dotted name to task. */
  datatype Registry = Registry(docs: map<string, string>, tasks: map<string, Task>)

  /** The registry of a walk's entries; a later entry under the same key replaces an earlier one. */
  function Build(es: seq<Entry>): (r: Registry)
    ensures r.docs.Keys == r.tasks.Keys
    ensures forall k :: k in r.tasks ==> r.docs[k] == r.tasks[k].doc
    ensures forall k :: k in r.tasks <==> exists i :: 0 <= i < |es| && es[i].key == k
    ensures forall k :: k in r.tasks ==> Entry(k, r.tasks[k]) in es
  {
    if es == [] then Registry(map[], map[])
    else
      var r0 := Build(es[..|es| - 1]);
      var e := es[|es| - 1];
      Registry(r0.docs[e.key := e.task.doc], r0.tasks[e.key := e.task])
  }

  /** An entry whose key no later entry repeats is the one the registry keeps. */
  lemma {:induction false} BuildLastWins(es: seq<Entry>, i: nat)
    requires i < |es|
    requires forall j :: i < j < |es| ==> es[j].key != es[i].key
    ensures es[i].key in Build(es).tasks && Build(es).tasks[es[i].key] == es[i].task
    decreases |es|
  {
    if i < |es| - 1 {
      BuildLastWins(es[..|es| - 1], i);
    }
  }

  /** Loading a fabfile module: the walk with the toggle set by the whole tree, into a registry. */
  function Load(m: Node): (r: Registry)
    ensures r.docs.Keys == r.tasks.Keys
  {
    Build(Walk(m, HasNewStyle(m)))
  }

  /** Every registered task is one that a chain of candidate bindings leads to. */
  lemma LoadSound(m: Node, key: string)
    requires key in Load(m).tasks
    ensures Reaches(m, key, Load(m).tasks[key], HasNewStyle(m))
  {
    WalkReaches(m, key, Load(m).tasks[key], HasNewStyle(m));
  }

  /** Every dotted name that a chain of candidate bindings leads to is registered. */
  lemma LoadComplete(m: Node, key: string, t: Task)
    requires Reaches(m, key, t, HasNewStyle(m))
    ensures key in Load(m).tasks
  {
    WalkReaches(m, key, t, HasNewStyle(m));
    var es := Walk(m, HasNewStyle(m));
    var i :| 0 <= i < |es| && es[i] == Entry(key, t);
  }

  /** Whatever is reached passes the toggle. */
  lemma {:induction false} ReachesCollected(m: Node, key: string, t: Task, newStyleOnly: bool)
    requires Reaches(m, key, t, newStyleOnly)
    ensures Collected(t, newStyleOnly)
    decreases m
  {
    ReachedSomewhere(m, key, t, newStyleOnly);
    var j :| 0 <= j < |m.bindings| && ReachesAt(m, j, key, t, newStyleOnly);
    var b := m.bindings[j];
    if b.value.Child? {
      ReachesCollected(b.value.child, key[|b.name| + 1..], t, newStyleOnly);
    }
  }

  /** A candidate binding that is, or leads into, a new-style task makes every earlier start see one. */
  lemma {:induction false} NewStyleFromEarlier(m: Node, i: nat, j: nat)
    requires i <= j < |m.bindings| && IsCandidate(m, m.bindings[j])
    requires match m.bindings[j].value
      case TaskValue(u) => u.newStyle
      case Child(c) => HasNewStyle(c)
      case Other => false
    ensures HasNewStyleFrom(m, i)
    decreases j - i
  {
    if i < j {
      NewStyleFromEarlier(m, i + 1, j);
    }
  }

  /** Reaching a new-style task means the tree holds one, so the toggle is on. */
  lemma {:induction false} ReachesNewStyle(m: Node, key: string, t: Task, newStyleOnly: bool)
    requires Reaches(m, key, t, newStyleOnly) && t.newStyle
    ensures HasNewStyle(m)
    decreases m
  {
    ReachedSomewhere(m, key, t, newStyleOnly);
    var j :| 0 <= j < |m.bindings| && ReachesAt(m, j, key, t, newStyleOnly);
    var b := m.bindings[j];
    if b.value.Child? {
      ReachesNewStyle(b.value.child, key[|b.name| + 1..], t, newStyleOnly);
    }
    NewStyleFromEarlier(m, 0, j);
  }

  /** A tree whose switch is on holds a new-style task that the walk with the switch on reaches. */
  lemma {:induction false} NewStyleReached(m: Node, i: nat)
    requires HasNewStyleFrom(m, i)
    ensures exists j: nat, key: string, t: Task :: i <= j < |m.bindings| && t.newStyle && ReachesAt(m, j, key, t, true)
    decreases m, |m.bindings| - i
  {
    var b := m.bindings[i];
    if IsCandidate(m, b) && b.value.TaskValue? && b.value.task.newStyle {
      var t := b.value.task;
      assert ReachesAt(m, i, KeyOf(b.name, t), t, true);
    } else if IsCandidate(m, b) && b.value.Child? && HasNewStyle(b.value.child) {
      var c := b.value.child;
      NewStyleReached(c, 0);
      var j: nat, key: string, t: Task :| 0 <= j < |c.bindings| && t.newStyle && ReachesAt(c, j, key, t, true);
      ReachedAt(c, j, key, t, true);
      ChildKey(m, i, key, t);
    } else {
      NewStyleReached(m, i + 1);
    }
  }

  /** A task reached in the sub-module bound at `i` is reached from `m` under the prefixed key. */
  lemma ChildKey(m: Node, i: nat, key: string, t: Task)
    requires i < |m.bindings| && IsCandidate(m, m.bindings[i]) && m.bindings[i].value.Child?
    requires Reaches(m.bindings[i].value.child, key, t, true)
    ensures ReachesAt(m, i, m.bindings[i].name + [Dot] + key, t, true)
  {
    var p := m.bindings[i].name;
    var full := p + [Dot] + key;
    assert full[..|p| + 1] == p + [Dot];
    assert full[|p| + 1..] == key;
  }

  /** The switch is on exactly when the walk with the switch on reaches some new-style task. */
  lemma NewStyleSwitch(m: Node)
    ensures HasNewStyle(m) <==> exists key: string, t: Task :: t.newStyle && Reaches(m, key, t, true)
  {
    if HasNewStyle(m) {
      NewStyleReached(m, 0);
      var j: nat, key: string, t: Task :| 0 <= j < |m.bindings| && t.newStyle && ReachesAt(m, j, key, t, true);
      ReachedAt(m, j, key, t, true);
      assert t.newStyle && Reaches(m, key, t, true);
    }
    if exists key: string, t: Task :: t.newStyle && Reaches(m, key, t, true) {
      var key: string, t: Task :| t.newStyle && Reaches(m, key, t, true);
      ReachesNewStyle(m, key, t, true);
    }
  }

  /** In a tree where no new-style task can be reached, every reachable classic task is registered. */
  lemma AllClassicKept(m: Node, key: string, t: Task)
    requires forall k: string, u: Task :: u.newStyle ==> !Reaches(m, k, u, true)
    requires Reaches(m, key, t, false)
    ensures key in Load(m).tasks
  {
    NewStyleSwitch(m);
    LoadComplete(m, key, t);
  }

  /** The toggle: with a new-style task anywhere in the tree, only new-style tasks are registered; without one, only classic ones exist to register. */
  lemma NewStyleSuppressesClassic(m: Node, key: string)
    requires key in Load(m).tasks
    ensures Load(m).tasks[key].newStyle <==> HasNewStyle(m)
  {
    LoadSound(m, key);
    var t := Load(m).tasks[key];
    ReachesCollected(m, key, t, HasNewStyle(m));
    if t.newStyle {
      ReachesNewStyle(m, key, t, HasNewStyle(m));
    }
  }

  /** With an explicit listing, everything registered comes through a listed binding of the root module. */
  lemma ListingRestricts(m: Node, key: string)
    requires m.listing.Some? && key in Load(m).tasks
    ensures exists j :: (0 <= j < |m.bindings| && m.bindings[j].name in m.listing.value
      && ReachesAt(m, j, key, Load(m).tasks[key], HasNewStyle(m)))
  {
    LoadSound(m, key);
    ReachedSomewhere(m, key, Load(m).tasks[key], HasNewStyle(m));
  }
}
