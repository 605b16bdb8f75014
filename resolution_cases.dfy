/**
 * The host and role cases of tests/test_main.py:75-251. Each case is stated
 * for arbitrary host and role names with the properties the literal names of
 * the case have (no surrounding whitespace, pairwise distinct, non-empty).
 */
module ResolutionCases {
  import opened Wrappers
  import opened Tasks
  import opened Resolution

  /** The untouched defaults: no hosts, roles, role definitions or exclusions. */
  function Defaults(): (r: Env)
  {
    Env([], [], map[], [])
  }

  /** A plain function named `command`. */
  function Command(): (r: Task)
  {
    Classic("command", "")
  }

  /** The role table of the role cases: `r1` on a and b, `r2` on b and c. */
  function TwoRoles(r1: string, r2: string, a: string, b: string, c: string): (r: map<string, RoleValue>)
  {
    map[r1 := Fixed([a, b]), r2 := Fixed([b, c])]
  }

  /** Distinct names without surrounding whitespace. */
  predicate Names2(a: string, b: string)
  {
    Trimmed(a) && Trimmed(b) && a != b
  }

  predicate Names3(a: string, b: string, c: string)
  {
    Names2(a, b) && Names2(b, c) && Names2(a, c)
  }

  /** Without defaults, a task with only declared hosts merges exactly those. */
  lemma DeclaredHostsMerge(t: Task, hs: seq<string>)
    requires t.hosts == Some(hs) && t.roles == None && t.excludeHosts == None
    ensures GetHosts(t, [], [], [], Defaults()) == Merge(hs, [], [], map[])
  {
    NoOverrides(t, Defaults());
  }

  lemma TwoHostsMerge(a: string, b: string)
    requires Names2(a, b)
    ensures Merge([a, b], [], [], map[]) == Success([a, b])
  {
    MergeHostsOnly([a, b], [], map[]);
  }

  /** A command with only declared hosts resolves to them when there are no defaults. */
  lemma DeclaredHostsResolve(t: Task, a: string, b: string)
    requires Names2(a, b) && t.hosts == Some([a, b]) && t.roles == None && t.excludeHosts == None
    ensures GetHosts(t, [], [], [], Defaults()) == Success([a, b])
  {
    DeclaredHostsMerge(t, [a, b]);
    TwoHostsMerge(a, b);
  }

  /** `@hosts(*['a', 'b'])` alone. */
  lemma HostsDeclarationAlone(a: string, b: string)
    requires Names2(a, b)
    ensures GetHosts(DeclareHosts(Command(), Texts([a, b])), [], [], [], Defaults()) == Success([a, b])
  {
    DeclareSpread(Command(), [a, b]);
    DeclaredHostsResolve(DeclareHosts(Command(), Texts([a, b])), a, b);
  }

  /** Without defaults other than the role table, a task with only declared roles merges exactly those. */
  lemma DeclaredRolesMerge(t: Task, rs: seq<string>, defs: map<string, RoleValue>)
    requires t.hosts == None && t.roles == Some(rs) && t.excludeHosts == None
    ensures GetHosts(t, [], [], [], Defaults().(roledefs := defs)) == Merge([], rs, [], defs)
  {
    NoOverrides(t, Defaults().(roledefs := defs));
  }

  /** Defined roles whose hosts are trimmed and distinct merge to those hosts. */
  lemma RolesOnlyMerge(rs: seq<string>, defs: map<string, RoleValue>, hs: seq<string>)
    requires forall i :: 0 <= i < |rs| ==> rs[i] in defs
    requires RoleHosts(rs, defs) == hs && NoDup(hs) && forall i :: 0 <= i < |hs| ==> Trimmed(hs[i])
    ensures Merge([], rs, [], defs) == Success(hs)
  {
    MergePool([], rs, [], defs);
    assert [] + hs == hs;
    TrimAllTrimmed(hs);
    DistinctOfDistinct(hs, []);
  }

  lemma FirstRoleHosts(r1: string, r2: string, a: string, b: string, c: string)
    requires r1 != r2
    ensures RoleHosts([r1], TwoRoles(r1, r2, a, b, c)) == [a, b]
  {
    assert RoleHosts([r1], TwoRoles(r1, r2, a, b, c)) == [a, b] + RoleHosts([], TwoRoles(r1, r2, a, b, c));
  }

  /** `@roles(*['r1'])` alone, the role table given as lists or as tuples. */
  lemma RolesDeclarationAlone(r1: string, r2: string, a: string, b: string, c: string)
    requires Names3(a, b, c) && r1 != r2
    ensures GetHosts(DeclareRoles(Command(), Texts([r1])), [], [], [], Defaults().(roledefs := TwoRoles(r1, r2, a, b, c)))
         == Success([a, b])
  {
    DeclareSpread(Command(), [r1]);
    DeclaredRolesMerge(DeclareRoles(Command(), Texts([r1])), [r1], TwoRoles(r1, r2, a, b, c));
    FirstRoleMerge(r1, r2, a, b, c);
  }

  lemma FirstRoleMerge(r1: string, r2: string, a: string, b: string, c: string)
    requires Names3(a, b, c) && r1 != r2
    ensures Merge([], [r1], [], TwoRoles(r1, r2, a, b, c)) == Success([a, b])
  {
    FirstRoleHosts(r1, r2, a, b, c);
    RolesOnlyMerge([r1], TwoRoles(r1, r2, a, b, c), [a, b]);
  }

  lemma BothRoleHosts(r1: string, r2: string, a: string, b: string, c: string)
    requires r1 != r2
    ensures RoleHosts([r1, r2], TwoRoles(r1, r2, a, b, c)) == [a, b, b, c]
  {
    var defs := TwoRoles(r1, r2, a, b, c);
    assert RoleHosts([r2], defs) == [b, c] + RoleHosts([], defs);
    assert [r1, r2][1..] == [r2];
    assert RoleHosts([r1, r2], defs) == [a, b] + RoleHosts([r2], defs);
  }

  /** Deduplicating the pool of the union case keeps the first occurrence of each host. */
  lemma UnionPoolDistinct(a: string, b: string, c: string)
    requires a != b && b != c && a != c
    ensures Distinct([a, a, b, b, c], []) == [a, b, c]
  {
    assert [a, a, b, b, c][1..] == [a, b, b, c];
    assert [a, b, b, c][1..] == [b, b, c];
    UnionTailDistinct(a, b, c);
    assert Distinct([a, b, b, c], [a]) == [b, c];
    assert Distinct([a, a, b, b, c], []) == [a] + Distinct([a, b, b, c], [] + [a]);
    assert [] + [a] == [a];
  }

  lemma UnionTailDistinct(a: string, b: string, c: string)
    requires a != b && b != c && a != c
    ensures Distinct([b, b, c], [a]) == [b, c]
  {
    assert [b, b, c][1..] == [b, c];
    assert [b, c][1..] == [c];
    assert Distinct([c], [a, b]) == [c] by {
      assert [c][1..] == [];
    }
    assert Distinct([b, c], [a, b]) == [c];
    assert [a] + [b] == [a, b];
  }

  lemma UnionMerge(r1: string, r2: string, a: string, b: string, c: string)
    requires Names3(a, b, c) && r1 != r2
    ensures Merge([a], [r1, r2], [], TwoRoles(r1, r2, a, b, c)) == Success([a, b, c])
  {
    MergePool([a], [r1, r2], [], TwoRoles(r1, r2, a, b, c));
    UnionPool(r1, r2, a, b, c);
    UnionPoolDistinct(a, b, c);
  }

  lemma UnionPool(r1: string, r2: string, a: string, b: string, c: string)
    requires Names3(a, b, c) && r1 != r2
    ensures TrimAll([a] + RoleHosts([r1, r2], TwoRoles(r1, r2, a, b, c))) == [a, a, b, b, c]
  {
    BothRoleHosts(r1, r2, a, b, c);
    assert [a] + [a, b, b, c] == [a, a, b, b, c];
    TrimAllTrimmed([a, a, b, b, c]);
  }

  /** `@roles('r1', 'r2')` over `@hosts('a')`: the union of both, each host once. */
  lemma HostsAndRolesTogether(r1: string, r2: string, a: string, b: string, c: string)
    requires Names3(a, b, c) && r1 != r2
    ensures GetHosts(DeclareRoles(DeclareHosts(Command(), Texts([a])), Texts([r1, r2])), [], [], [],
                     Defaults().(roledefs := TwoRoles(r1, r2, a, b, c)))
         == Success([a, b, c])
  {
    var t := DeclareRoles(DeclareHosts(Command(), Texts([a])), Texts([r1, r2]));
    DeclareSpread(Command(), [a]);
    DeclareSpread(DeclareHosts(Command(), Texts([a])), [r1, r2]);
    NoOverrides(t, Defaults().(roledefs := TwoRoles(r1, r2, a, b, c)));
    UnionMerge(r1, r2, a, b, c);
  }

  /** Without declarations, a command resolves through the default hosts. */
  lemma DefaultHostsMerge(hs: seq<string>)
    ensures GetHosts(Command(), [], [], [], Defaults().(hosts := hs)) == Merge(hs, [], [], map[])
  {
    NoOverrides(Command(), Defaults().(hosts := hs));
  }

  /** No declarations: the default hosts (a tuple is a list here). */
  lemma DefaultHosts(foo: string, bar: string)
    requires Names2(foo, bar)
    ensures GetHosts(Command(), [], [], [], Defaults().(hosts := [foo, bar])) == Success([foo, bar])
  {
    DefaultHostsMerge([foo, bar]);
    TwoHostsMerge(foo, bar);
  }

  /** The declared host list `[bar]` replaces the defaults `[foo]`. */
  lemma OverrideMerge(t: Task, foo: string, bar: string)
    requires Trimmed(bar) && t.hosts == Some([bar]) && t.roles == None && t.excludeHosts == None
    ensures GetHosts(t, [], [], [], Defaults().(hosts := [foo])) == Success([bar])
  {
    OverrideArgs(t, foo, bar);
    MergeHostsOnly([bar], [], map[]);
  }

  lemma OverrideArgs(t: Task, foo: string, bar: string)
    requires t.hosts == Some([bar]) && t.roles == None && t.excludeHosts == None
    ensures GetHosts(t, [], [], [], Defaults().(hosts := [foo])) == Merge([bar], [], [], map[])
  {
    NoOverrides(t, Defaults().(hosts := [foo]));
  }

  /**
   * `@hosts('bar')` over default hosts `foo`: only `bar`, whether `@task` is
   * absent, applied first or applied last.
   */
  lemma DeclaredHostsOverrideDefault(foo: string, bar: string)
    requires Names2(foo, bar)
    ensures GetHosts(DeclareHosts(Command(), Texts([bar])), [], [], [], Defaults().(hosts := [foo])) == Success([bar])
    ensures GetHosts(MarkTask(DeclareHosts(Command(), Texts([bar]))), [], [], [], Defaults().(hosts := [foo])) == Success([bar])
    ensures GetHosts(DeclareHosts(MarkTask(Command()), Texts([bar])), [], [], [], Defaults().(hosts := [foo])) == Success([bar])
  {
    DeclareSpread(Command(), [bar]);
    OverrideMerge(DeclareHosts(Command(), Texts([bar])), foo, bar);
    MarkingIrrelevant(Command(), Texts([bar]), [], [], [], Defaults().(hosts := [foo]));
  }

  /** The default host `foo` is not among the resolved hosts, in each of the three decorator orders. */
  lemma DefaultHostAbsent(foo: string, bar: string)
    requires Names2(foo, bar)
    ensures foo !in GetHosts(DeclareHosts(Command(), Texts([bar])), [], [], [], Defaults().(hosts := [foo])).value
    ensures foo !in GetHosts(MarkTask(DeclareHosts(Command(), Texts([bar]))), [], [], [], Defaults().(hosts := [foo])).value
    ensures foo !in GetHosts(DeclareHosts(MarkTask(Command()), Texts([bar])), [], [], [], Defaults().(hosts := [foo])).value
  {
    DeclaredHostsOverrideDefault(foo, bar);
  }

  lemma TrimmedPair(pad: string, foo: string, bar: string)
    requires AllSpace(pad) && Names2(foo, bar) && foo != [] && bar != []
    ensures TrimAll([pad + foo + pad, bar + pad]) == [foo, bar]
  {
    TrimAllPair(pad + foo + pad, bar + pad);
    TrimPadded(pad, foo, pad);
    TrimPadded([], bar, pad);
    assert [] + bar + pad == bar + pad;
  }

  /** Default hosts surrounded by whitespace are trimmed. */
  lemma DefaultHostsTrimmed(pad: string, foo: string, bar: string)
    requires AllSpace(pad) && Names2(foo, bar) && foo != [] && bar != []
    ensures GetHosts(Command(), [], [], [], Defaults().(hosts := [pad + foo + pad, bar + pad])) == Success([foo, bar])
  {
    var hs := [pad + foo + pad, bar + pad];
    DefaultHostsMerge(hs);
    MergePool(hs, [], [], map[]);
    assert hs + RoleHosts([], map[]) == hs;
    TrimmedPair(pad, foo, bar);
    DistinctOfDistinct([foo, bar], []);
  }

  /** The role table of the trimming case: `r1` on padded a and b, `r2` on b and c. */
  function PaddedRoles(pad: string, r1: string, r2: string, a: string, b: string, c: string): (r: map<string, RoleValue>)
  {
    map[r1 := Fixed([pad + a + pad, pad + b + pad]), r2 := Fixed([b, c])]
  }

  lemma PaddedRoleMerge(pad: string, r1: string, r2: string, a: string, b: string, c: string)
    requires AllSpace(pad) && Names2(a, b) && a != [] && b != [] && r1 != r2
    ensures Merge([], [r1], [], PaddedRoles(pad, r1, r2, a, b, c)) == Success([a, b])
  {
    PaddedPool(pad, r1, r2, a, b, c);
    PoolMerge([], [r1], PaddedRoles(pad, r1, r2, a, b, c), [a, b]);
  }

  /** Roles that are all defined and a trimmed pool without repeats: the merge is the pool. */
  lemma PoolMerge(hosts: seq<string>, roles: seq<string>, defs: map<string, RoleValue>, pool: seq<string>)
    requires forall i :: 0 <= i < |roles| ==> roles[i] in defs
    requires TrimAll(hosts + RoleHosts(roles, defs)) == pool && NoDup(pool)
    ensures Merge(hosts, roles, [], defs) == Success(pool)
  {
    MergePool(hosts, roles, [], defs);
    DistinctOfDistinct(pool, []);
  }

  lemma PaddedPool(pad: string, r1: string, r2: string, a: string, b: string, c: string)
    requires AllSpace(pad) && Names2(a, b) && a != [] && b != [] && r1 != r2
    ensures TrimAll([] + RoleHosts([r1], PaddedRoles(pad, r1, r2, a, b, c))) == [a, b]
  {
    var defs := PaddedRoles(pad, r1, r2, a, b, c);
    PaddedRoleHosts(pad, r1, r2, a, b, c);
    assert [] + RoleHosts([r1], defs) == [pad + a + pad, pad + b + pad];
    PaddedPair(pad, a, b);
  }

  lemma PaddedRoleHosts(pad: string, r1: string, r2: string, a: string, b: string, c: string)
    requires r1 != r2
    ensures RoleHosts([r1], PaddedRoles(pad, r1, r2, a, b, c)) == [pad + a + pad, pad + b + pad]
  {
    var defs := PaddedRoles(pad, r1, r2, a, b, c);
    assert RoleHosts([r1], defs) == [pad + a + pad, pad + b + pad] + RoleHosts([], defs);
  }

  lemma PaddedPair(pad: string, a: string, b: string)
    requires AllSpace(pad) && Trimmed(a) && Trimmed(b) && a != [] && b != []
    ensures TrimAll([pad + a + pad, pad + b + pad]) == [a, b]
  {
    TrimAllPair(pad + a + pad, pad + b + pad);
    TrimPadded(pad, a, pad);
    TrimPadded(pad, b, pad);
  }

  /** The hosts of a role are trimmed. */
  lemma RoleHostsTrimmed(pad: string, r1: string, r2: string, a: string, b: string, c: string)
    requires AllSpace(pad) && Names2(a, b) && a != [] && b != [] && r1 != r2
    ensures GetHosts(DeclareRoles(Command(), Texts([r1])), [], [], [], Defaults().(roledefs := PaddedRoles(pad, r1, r2, a, b, c)))
         == Success([a, b])
  {
    DeclareSpread(Command(), [r1]);
    DeclaredRolesMerge(DeclareRoles(Command(), Texts([r1])), [r1], PaddedRoles(pad, r1, r2, a, b, c));
    PaddedRoleMerge(pad, r1, r2, a, b, c);
  }

  /** `_merge([], ['badrole'])` fails, naming the role. */
  lemma UnknownRoleAborts(bad: string, r1: string, r2: string, a: string, b: string, c: string)
    requires bad != r1 && bad != r2
    ensures Merge([], [bad], [], TwoRoles(r1, r2, a, b, c)) == Failure([bad])
  {
    var defs := TwoRoles(r1, r2, a, b, c);
    assert bad !in defs;
    assert [bad][1..] == [];
    assert Missing([bad], defs) == [bad] + Missing([], defs);
    assert Missing([bad], defs) == [bad];
  }

  /** A role defined by a callable resolves like the list it returns. */
  lemma LazyRole(r1: string, a: string, b: string)
    requires Names2(a, b)
    ensures GetHosts(DeclareRoles(Command(), Texts([r1])), [], [], [], Defaults().(roledefs := map[r1 := Lazy(() => [a, b])]))
         == Success([a, b])
  {
    var lazy := map[r1 := Lazy(() => [a, b])];
    DeclareSpread(Command(), [r1]);
    DeclaredRolesMerge(DeclareRoles(Command(), Texts([r1])), [r1], lazy);
    SingleRoleMerge(r1, lazy, a, b);
  }

  /** A single requested role that expands to two distinct trimmed hosts merges to them, however it is defined. */
  lemma SingleRoleMerge(r1: string, defs: map<string, RoleValue>, a: string, b: string)
    requires Names2(a, b) && r1 in defs && Expand(defs[r1]) == [a, b]
    ensures Merge([], [r1], [], defs) == Success([a, b])
  {
    assert RoleHosts([r1], defs) == [a, b] + RoleHosts([], defs);
    RolesOnlyMerge([r1], defs, [a, b]);
  }
}
