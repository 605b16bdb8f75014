/**
 * The fabfile trees of the discovery cases, written out as module values
 * over arbitrary public names, and what loading each of them registers.
 */
module DiscoveryCases {
  import opened Wrappers
  import opened Tasks
  import opened Discovery

  /** A plain function `name` defined in a module. */
  function Def(name: string): (r: Binding)
  {
    Binding(name, TaskValue(Classic(name, "")))
  }

  /** The registry of one entry. */
  lemma OneEntry(e: Entry)
    ensures Build([e]).tasks.Keys == {e.key}
  {
    assert [e][0].key == e.key;
  }

  /** The registry of two entries. */
  lemma TwoEntries(e1: Entry, e2: Entry)
    ensures Build([e1, e2]).tasks.Keys == {e1.key, e2.key}
  {
    var es := [e1, e2];
    assert es[0].key == e1.key && es[1].key == e2.key;
  }

  /** A registry with the one key `k` has one entry and no other key. */
  lemma OnlyKey(tasks: map<string, Task>, k: string, other: string)
    requires tasks.Keys == {k} && other != k
    ensures |tasks| == 1 && other !in tasks
  {
    assert |tasks.Keys| == 1;
  }

  /** A registry with the two keys `k1` and `k2` has two entries. */
  lemma TwoKeys(tasks: map<string, Task>, k1: string, k2: string)
    requires tasks.Keys == {k1, k2} && k1 != k2
    ensures |tasks| == 2
  {
    assert |tasks.Keys| == 2;
  }

  // ---------------------------------------------------------------------------
  // Two plain functions, with and without `__all__`

  /** A module that defines two functions, with an explicit listing if `listing` is given. */
  function TwoDefs(foo: string, bar: string, listing: Option<seq<string>>): (r: Node)
  {
    Node([Def(foo), Def(bar)], listing)
  }

  lemma TwoDefsClassic(foo: string, bar: string, listing: Option<seq<string>>)
    ensures !HasNewStyle(TwoDefs(foo, bar, listing))
  {
    var m := TwoDefs(foo, bar, listing);
    assert !HasNewStyleFrom(m, 2);
    assert !HasNewStyleFrom(m, 1);
  }

  lemma TwoDefsWalk(foo: string, bar: string)
    requires IsPublic(foo) && IsPublic(bar)
    ensures Walk(TwoDefs(foo, bar, None), false) == [Entry(foo, Classic(foo, "")), Entry(bar, Classic(bar, ""))]
  {
    var m := TwoDefs(foo, bar, None);
    assert WalkFrom(m, 2, false) == [];
    assert WalkFrom(m, 1, false) == [Entry(bar, Classic(bar, ""))];
  }

  lemma ListedWalk(foo: string, bar: string)
    requires IsPublic(foo) && foo != bar
    ensures Walk(TwoDefs(foo, bar, Some([foo])), false) == [Entry(foo, Classic(foo, ""))]
  {
    var m := TwoDefs(foo, bar, Some([foo]));
    assert bar !in [foo] && foo in [foo];
    assert WalkFrom(m, 2, false) == [];
    assert WalkFrom(m, 1, false) == [];
    assert Here(m, 0, false) == [Entry(foo, Classic(foo, ""))];
  }

  lemma ImplicitKeys(foo: string, bar: string)
    requires IsPublic(foo) && IsPublic(bar)
    ensures Load(TwoDefs(foo, bar, None)).tasks.Keys == {foo, bar}
  {
    TwoDefsClassic(foo, bar, None);
    TwoDefsWalk(foo, bar);
    TwoEntries(Entry(foo, Classic(foo, "")), Entry(bar, Classic(bar, "")));
  }

  /** Without a listing every public function is collected: both of them. */
  lemma ImplicitDiscovery(foo: string, bar: string)
    requires IsPublic(foo) && IsPublic(bar) && foo != bar
    ensures Load(TwoDefs(foo, bar, None)).tasks.Keys == {foo, bar}
    ensures |Load(TwoDefs(foo, bar, None)).tasks| == 2
  {
    ImplicitKeys(foo, bar);
    TwoKeys(Load(TwoDefs(foo, bar, None)).tasks, foo, bar);
  }

  lemma ExplicitKeys(foo: string, bar: string)
    requires IsPublic(foo) && foo != bar
    ensures Load(TwoDefs(foo, bar, Some([foo]))).tasks.Keys == {foo}
  {
    TwoDefsClassic(foo, bar, Some([foo]));
    ListedWalk(foo, bar);
    OneEntry(Entry(foo, Classic(foo, "")));
  }

  /** With `__all__` naming one of the two, only that one is collected. */
  lemma ExplicitDiscovery(foo: string, bar: string)
    requires IsPublic(foo) && foo != bar
    ensures Load(TwoDefs(foo, bar, Some([foo]))).tasks.Keys == {foo}
    ensures |Load(TwoDefs(foo, bar, Some([foo]))).tasks| == 1
    ensures bar !in Load(TwoDefs(foo, bar, Some([foo]))).tasks
  {
    ExplicitKeys(foo, bar);
    OnlyKey(Load(TwoDefs(foo, bar, Some([foo]))).tasks, foo, bar);
  }

  /** A module binding the name `bar` to a plain function whose own name is `foo`. */
  function Alias(bar: string, foo: string): (r: Node)
  {
    Node([Binding(bar, TaskValue(Classic(foo, "")))], None)
  }

  lemma AliasWalk(bar: string, foo: string)
    requires IsPublic(bar)
    ensures !HasNewStyle(Alias(bar, foo))
    ensures Walk(Alias(bar, foo), false) == [Entry(bar, Classic(foo, ""))]
  {
    var m := Alias(bar, foo);
    assert !HasNewStyleFrom(m, 1);
    assert WalkFrom(m, 1, false) == [];
    assert KeyOf(bar, Classic(foo, "")) == bar;
    assert Here(m, 0, false) == [Entry(bar, Classic(foo, ""))];
  }

  /** A classic task is registered under the name it is bound to, not under its own name. */
  lemma AliasedClassicDiscovery(bar: string, foo: string)
    requires IsPublic(bar) && foo != bar
    ensures Load(Alias(bar, foo)).tasks.Keys == {bar}
    ensures foo !in Load(Alias(bar, foo)).tasks
  {
    AliasWalk(bar, foo);
    OneEntry(Entry(bar, Classic(foo, "")));
    OnlyKey(Load(Alias(bar, foo)).tasks, bar, foo);
  }

  // ---------------------------------------------------------------------------
  // One new-style task among classic ones

  /** A module binding `w` to the new-style task `t`, followed by two plain functions. */
  function Decorated(w: string, t: Task, bar: string, baz: string): (r: Node)
  {
    Node([Binding(w, TaskValue(t)), Def(bar), Def(baz)], None)
  }

  lemma DecoratedWalk(w: string, t: Task, bar: string, baz: string)
    requires IsPublic(w) && t.newStyle
    ensures HasNewStyle(Decorated(w, t, bar, baz))
    ensures Walk(Decorated(w, t, bar, baz), true) == [Entry(t.name, t)]
  {
    var m := Decorated(w, t, bar, baz);
    assert HasNewStyleFrom(m, 0);
    assert Here(m, 0, true) == [Entry(t.name, t)];
    assert WalkFrom(m, 3, true) == [];
    assert WalkFrom(m, 2, true) == [];
    assert WalkFrom(m, 1, true) == [];
  }

  /** The single new-style task is registered under its declared name; the plain functions are not. */
  lemma NewStyleAmongClassic(w: string, t: Task, bar: string, baz: string)
    requires IsPublic(w) && t.newStyle
    ensures Load(Decorated(w, t, bar, baz)).tasks.Keys == {t.name}
    ensures |Load(Decorated(w, t, bar, baz)).tasks| == 1
  {
    DecoratedWalk(w, t, bar, baz);
    OneEntry(Entry(t.name, t));
  }

  /** `@task def foo` next to two plain functions: only `foo` loads. */
  lemma DecoratedDiscovery(foo: string, bar: string, baz: string)
    requires IsPublic(foo)
    ensures Load(Decorated(foo, MarkTask(Classic(foo, "")), bar, baz)).tasks.Keys == {foo}
    ensures |Load(Decorated(foo, MarkTask(Classic(foo, "")), bar, baz)).tasks| == 1
  {
    NewStyleAmongClassic(foo, MarkTask(Classic(foo, "")), bar, baz);
  }

  /** A task object bound to `w` that declares the name `foo` loads as `foo`. */
  lemma ClassBasedDiscovery(w: string, foo: string, bar: string, baz: string)
    requires IsPublic(w)
    ensures Load(Decorated(w, Task(foo, "", true, None, None, None), bar, baz)).tasks.Keys == {foo}
    ensures |Load(Decorated(w, Task(foo, "", true, None, None, None), bar, baz)).tasks| == 1
  {
    NewStyleAmongClassic(w, Task(foo, "", true, None, None, None), bar, baz);
  }

  // ---------------------------------------------------------------------------
  // A new-style task three modules down

  /** The innermost module: one new-style task `d`. */
  function Leaf(d: string): (r: Node)
  {
    Node([Binding(d, TaskValue(MarkTask(Classic(d, ""))))], None)
  }

  /** The middle module: the sub-module `ss` and a plain function `c`. */
  function Middle(ss: string, d: string, c: string): (r: Node)
  {
    Node([Binding(ss, Child(Leaf(d))), Def(c)], None)
  }

  /** The package: nothing but the sub-module `s`. */
  function Deep(s: string, ss: string, d: string, c: string): (r: Node)
  {
    Node([Binding(s, Child(Middle(ss, d, c)))], None)
  }

  lemma LeafWalk(d: string)
    requires IsPublic(d)
    ensures HasNewStyle(Leaf(d))
    ensures Walk(Leaf(d), true) == [Entry(d, MarkTask(Classic(d, "")))]
  {
    assert WalkFrom(Leaf(d), 1, true) == [];
  }

  lemma MiddleWalk(ss: string, d: string, c: string)
    requires IsPublic(ss) && IsPublic(d)
    ensures HasNewStyle(Middle(ss, d, c))
    ensures Walk(Middle(ss, d, c), true) == [Entry(ss + [Dot] + d, MarkTask(Classic(d, "")))]
  {
    var m := Middle(ss, d, c);
    LeafWalk(d);
    assert WalkFrom(m, 2, true) == [];
    assert WalkFrom(m, 1, true) == [];
    assert Here(m, 0, true) == Prefixed(ss, [Entry(d, MarkTask(Classic(d, "")))]);
  }

  lemma DeepWalk(s: string, ss: string, d: string, c: string)
    requires IsPublic(s) && IsPublic(ss) && IsPublic(d)
    ensures HasNewStyle(Deep(s, ss, d, c))
    ensures Walk(Deep(s, ss, d, c), true) == [Entry(s + [Dot] + (ss + [Dot] + d), MarkTask(Classic(d, "")))]
  {
    var m := Deep(s, ss, d, c);
    MiddleWalk(ss, d, c);
    assert WalkFrom(m, 1, true) == [];
    assert Here(m, 0, true) == Prefixed(s, [Entry(ss + [Dot] + d, MarkTask(Classic(d, "")))]);
  }

  lemma DeepKeys(s: string, ss: string, d: string, c: string)
    requires IsPublic(s) && IsPublic(ss) && IsPublic(d)
    ensures Load(Deep(s, ss, d, c)).tasks.Keys == {s + [Dot] + (ss + [Dot] + d)}
  {
    DeepWalk(s, ss, d, c);
    OneEntry(Entry(s + [Dot] + (ss + [Dot] + d), MarkTask(Classic(d, ""))));
  }

  /**
   * The walk passes through the task-less package to `s.ss.d`, and the new-style
   * task there keeps the plain function `c` of the middle module out.
   */
  lemma DeepDiscovery(s: string, ss: string, d: string, c: string)
    requires IsPublic(s) && IsPublic(ss) && IsPublic(d) && Dot !in c
    ensures Load(Deep(s, ss, d, c)).tasks.Keys == {s + [Dot] + ss + [Dot] + d}
    ensures |Load(Deep(s, ss, d, c)).tasks| == 1
    ensures s + [Dot] + c !in Load(Deep(s, ss, d, c)).tasks
  {
    var key := s + [Dot] + (ss + [Dot] + d);
    DeepKeys(s, ss, d, c);
    assert key == s + [Dot] + ss + [Dot] + d;
    SiblingKeyDiffers(s, c, ss + [Dot] + d);
    OnlyKey(Load(Deep(s, ss, d, c)).tasks, key, s + [Dot] + c);
  }

  /** A dot-free name under `s` is not a name nested one level further under `s`. */
  lemma SiblingKeyDiffers(s: string, c: string, nested: string)
    requires Dot !in c && Dot in nested
    ensures s + [Dot] + c != s + [Dot] + nested
  {
    var p := s + [Dot];
    assert (p + c)[|p|..] == c;
    assert (p + nested)[|p|..] == nested;
  }
}
