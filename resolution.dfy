/**
 * Host and role resolution: from a task's declared hosts and roles, the
 * process-wide defaults and the command-line overrides, the final list of
 * hosts to run on. Unknown roles are the one fatal condition.
 */
module Resolution {
  import opened Wrappers
  import opened Tasks

  /** A role definition: a fixed list of hosts, or a zero-argument callable that computes one. */
  datatype RoleValue = Fixed(list: seq<string>) | Lazy(compute: () -> seq<string>)

  /** The process-wide defaults the resolution reads. */
  datatype Env = Env(
    hosts: seq<string>,
    roles: seq<string>,
    roledefs: map<string, RoleValue>,
    excludeHosts: seq<string>)

  /** The hosts a role definition stands for; a callable is invoked. */
  function Expand(v: RoleValue): (r: seq<string>)
  {
    match v
    case Fixed(l) => l
    case Lazy(f) => f()
  }

  // ---------------------------------------------------------------------------
  // Whitespace trimming

  /** The characters Python's `str.strip()` removes from a byte string. */
  predicate IsSpace(c: char)
  {
    c == ' ' || c == '\t' || c == '\n' || c == '\r' || c == '\U{000B}' || c == '\U{000C}'
  }

  /** Neither end of `s` is whitespace. */
  predicate Trimmed(s: string)
  {
    s == [] || (!IsSpace(s[0]) && !IsSpace(s[|s| - 1]))
  }

  predicate AllSpace(s: string)
  {
    forall i :: 0 <= i < |s| ==> IsSpace(s[i])
  }

  /** `s` without its leading whitespace. */
  function TrimStart(s: string): (r: string)
    ensures |r| <= |s|
    ensures r == [] || !IsSpace(r[0])
  {
    if s != [] && IsSpace(s[0]) then TrimStart(s[1..]) else s
  }

  /** `s` without its trailing whitespace. */
  function TrimEnd(s: string): (r: string)
    ensures |r| <= |s| && r == s[..|r|]
    ensures r == [] || !IsSpace(r[|r| - 1])
  {
    if s != [] && IsSpace(s[|s| - 1]) then TrimEnd(s[..|s| - 1]) else s
  }

  /** `s` without the whitespace at either end. */
  function Trim(s: string): (r: string)
    ensures Trimmed(r) && |r| <= |s|
  {
    var t := TrimStart(s);
    var r := TrimEnd(t);
    assert r == [] || !IsSpace(r[0]) by {
      if r != [] {
        assert r[0] == t[0];
      }
    }
    r
  }

  /** Leading trimming drops a run of whitespace and keeps the rest. */
  lemma {:induction false} TrimStartSlice(s: string)
    ensures var r := TrimStart(s); r == s[|s| - |r|..] && AllSpace(s[..|s| - |r|])
    decreases |s|
  {
    if s != [] && IsSpace(s[0]) {
      TrimStartSlice(s[1..]);
      var r := TrimStart(s[1..]);
      assert s[1..][|s| - 1 - |r|..] == s[|s| - |r|..];
      assert forall i :: 1 <= i < |s| - |r| ==> s[i] == s[1..][..|s| - 1 - |r|][i - 1];
    }
  }

  /** Trailing trimming keeps a prefix and drops a run of whitespace. */
  lemma {:induction false} TrimEndSlice(s: string)
    ensures AllSpace(s[|TrimEnd(s)|..])
    decreases |s|
  {
    if s != [] && IsSpace(s[|s| - 1]) {
      TrimEndSlice(s[..|s| - 1]);
      var r := TrimEnd(s[..|s| - 1]);
      assert forall i :: |r| <= i < |s| - 1 ==> s[i] == s[..|s| - 1][|r|..][i - |r|];
    }
  }

  /** What trimming removes is whitespace at the two ends, and only that. */
  lemma TrimIsSlice(s: string)
    ensures var r := Trim(s);
      exists a :: 0 <= a <= a + |r| <= |s| && r == s[a..a + |r|] && AllSpace(s[..a]) && AllSpace(s[a + |r|..])
  {
    var t := TrimStart(s);
    var r := TrimEnd(t);
    TrimStartSlice(s);
    TrimEndSlice(t);
    var a := |s| - |t|;
    assert s[a..a + |r|] == r;
    assert s[a + |r|..] == t[|r|..];
  }

  /** Text already without surrounding whitespace is left as it is. */
  lemma TrimOfTrimmed(s: string)
    requires Trimmed(s)
    ensures Trim(s) == s
  {
  }

  /** Whitespace around trimmed text is exactly what trimming removes. */
  lemma TrimPadded(l: string, x: string, r: string)
    requires AllSpace(l) && Trimmed(x) && x != [] && AllSpace(r)
    ensures Trim(l + x + r) == x
  {
    assert x + r == [] || !IsSpace((x + r)[0]) by {
      assert (x + r)[0] == x[0];
    }
    TrimStartPadded(l, x + r);
    assert l + x + r == l + (x + r);
    TrimEndPadded(x, r);
  }

  lemma {:induction false} TrimStartPadded(l: string, s: string)
    requires AllSpace(l) && (s == [] || !IsSpace(s[0]))
    ensures TrimStart(l + s) == s
    decreases |l|
  {
    if l != [] {
      assert (l + s)[1..] == l[1..] + s;
      TrimStartPadded(l[1..], s);
    } else {
      assert l + s == s;
    }
  }

  lemma {:induction false} TrimEndPadded(s: string, r: string)
    requires AllSpace(r) && (s == [] || !IsSpace(s[|s| - 1]))
    ensures TrimEnd(s + r) == s
    decreases |r|
  {
    if r != [] {
      assert (s + r)[..|s + r| - 1] == s + r[..|r| - 1];
      TrimEndPadded(s, r[..|r| - 1]);
    } else {
      assert s + r == s;
    }
  }

  lemma TrimIdempotent(s: string)
    ensures Trim(Trim(s)) == Trim(s)
  {
    TrimOfTrimmed(Trim(s));
  }

  /** Every entry trimmed, in order. */
  function TrimAll(hs: seq<string>): (r: seq<string>)
    ensures |r| == |hs| && forall i :: 0 <= i < |hs| ==> r[i] == Trim(hs[i])
  {
    if hs == [] then [] else [Trim(hs[0])] + TrimAll(hs[1..])
  }

  /** A list of two trims entry by entry. */
  lemma TrimAllPair(x: string, y: string)
    ensures TrimAll([x, y]) == [Trim(x), Trim(y)]
  {
    assert [x, y][1..] == [y];
  }

  // ---------------------------------------------------------------------------
  // Deduplication

  predicate NoDup(s: seq<string>)
  {
    forall i, j :: 0 <= i < j < |s| ==> s[i] != s[j]
  }

  /**
   * The entries of `hs` that are not in `seen`, each once, in the order of
   * their first occurrence. Starting `seen` with the exclusion list removes
   * the excluded hosts in the same pass.
   */
  function Distinct(hs: seq<string>, seen: seq<string>): (r: seq<string>)
    ensures NoDup(r)
    ensures forall h :: h in r <==> h in hs && h !in seen
    decreases |hs|
  {
    if hs == [] then []
    else if hs[0] in seen then Distinct(hs[1..], seen)
    else
      var rest := Distinct(hs[1..], seen + [hs[0]]);
      assert forall h :: h in hs <==> h == hs[0] || h in hs[1..];
      assert hs[0] !in rest;
      [hs[0]] + rest
  }

  // ---------------------------------------------------------------------------
  // Roles

  /** The requested roles that have no definition, in request order. */
  function Missing(roles: seq<string>, defs: map<string, RoleValue>): (r: seq<string>)
    ensures forall x :: x in r <==> x in roles && x !in defs
    ensures r == [] <==> forall i :: 0 <= i < |roles| ==> roles[i] in defs
  {
    if roles == [] then []
    else (if roles[0] in defs then [] else [roles[0]]) + Missing(roles[1..], defs)
  }

  /** Role `role` is defined and `h` is one of the hosts it expands to. */
  predicate ProvidedBy(defs: map<string, RoleValue>, role: string, h: string)
  {
    role in defs && h in Expand(defs[role])
  }

  /** The hosts of every requested role, flattened in request order. */
  function RoleHosts(roles: seq<string>, defs: map<string, RoleValue>): (r: seq<string>)
    requires forall i :: 0 <= i < |roles| ==> roles[i] in defs
    ensures forall h :: h in r <==> exists i :: 0 <= i < |roles| && ProvidedBy(defs, roles[i], h)
  {
    if roles == [] then []
    else
      var rest := RoleHosts(roles[1..], defs);
      assert forall h :: ((exists i :: 0 <= i < |roles| && ProvidedBy(defs, roles[i], h))
        <==> ProvidedBy(defs, roles[0], h) || exists i :: 0 <= i < |roles[1..]| && ProvidedBy(defs, roles[1..][i], h))
      by {
        forall h | exists i :: 0 <= i < |roles| && ProvidedBy(defs, roles[i], h)
          ensures ProvidedBy(defs, roles[0], h) || exists i :: 0 <= i < |roles[1..]| && ProvidedBy(defs, roles[1..][i], h)
        {
          var i :| 0 <= i < |roles| && ProvidedBy(defs, roles[i], h);
          if i > 0 {
            assert roles[1..][i - 1] == roles[i];
          }
        }
      }
      Expand(defs[roles[0]]) + rest
  }

  // ---------------------------------------------------------------------------
  // Merging

  /** `h` is the trimmed form of one of the given hosts or of a host of one of the given roles. */
  ghost predicate Wanted(hosts: seq<string>, roles: seq<string>, defs: map<string, RoleValue>, h: string)
  {
    || (exists x :: x in hosts && Trim(x) == h)
    || (exists i, x :: 0 <= i < |roles| && ProvidedBy(defs, roles[i], x) && Trim(x) == h)
  }

  /**
   * Hosts plus the hosts of the roles, trimmed, deduplicated and without the
   * excluded ones; or, if some role is undefined, the list of undefined roles.
   */
  function Merge(hosts: seq<string>, roles: seq<string>, exclude: seq<string>, defs: map<string, RoleValue>)
    : (r: Result<seq<string>, seq<string>>)
    ensures r.Failure? <==> exists i :: 0 <= i < |roles| && roles[i] !in defs
    ensures r.Failure? ==> r.error == Missing(roles, defs)
    ensures r.Success? ==> NoDup(r.value)
  {
    var missing := Missing(roles, defs);
    if missing != [] then Failure(missing)
    else Success(Distinct(TrimAll(hosts + RoleHosts(roles, defs)), exclude))
  }

  lemma TrimAllMembers(xs: seq<string>, h: string)
    ensures h in TrimAll(xs) <==> exists x :: x in xs && Trim(x) == h
  {
    var t := TrimAll(xs);
    if h in t {
      var k :| 0 <= k < |t| && t[k] == h;
      assert xs[k] in xs;
    }
    if exists x :: x in xs && Trim(x) == h {
      var x :| x in xs && Trim(x) == h;
      var k :| 0 <= k < |xs| && xs[k] == x;
      assert t[k] == h;
    }
  }

  /** When every role is defined, a merge deduplicates the trimmed hosts followed by the trimmed role hosts. */
  lemma MergePool(hosts: seq<string>, roles: seq<string>, exclude: seq<string>, defs: map<string, RoleValue>)
    requires forall i :: 0 <= i < |roles| ==> roles[i] in defs
    ensures Merge(hosts, roles, exclude, defs) == Success(Distinct(TrimAll(hosts + RoleHosts(roles, defs)), exclude))
  {
  }

  /** A list of trimmed entries is its own trimming. */
  lemma TrimAllTrimmed(hs: seq<string>)
    requires forall i :: 0 <= i < |hs| ==> Trimmed(hs[i])
    ensures TrimAll(hs) == hs
  {
    forall i | 0 <= i < |hs| ensures TrimAll(hs)[i] == hs[i] {
      TrimOfTrimmed(hs[i]);
    }
  }

  /** Trimmed, distinct, non-excluded hosts and no roles merge to themselves. */
  lemma MergeHostsOnly(hosts: seq<string>, exclude: seq<string>, defs: map<string, RoleValue>)
    requires NoDup(hosts) && forall i :: 0 <= i < |hosts| ==> Trimmed(hosts[i]) && hosts[i] !in exclude
    ensures Merge(hosts, [], exclude, defs) == Success(hosts)
  {
    assert hosts + RoleHosts([], defs) == hosts;
    TrimAllTrimmed(hosts);
    DistinctOfDistinct(hosts, exclude);
  }

  lemma {:induction false} DistinctOfDistinct(hs: seq<string>, seen: seq<string>)
    requires NoDup(hs) && forall i :: 0 <= i < |hs| ==> hs[i] !in seen
    ensures Distinct(hs, seen) == hs
    decreases |hs|
  {
    if hs != [] {
      assert hs[0] !in hs[1..];
      assert NoDup(hs[1..]) by {
        forall i, j | 0 <= i < j < |hs[1..]| ensures hs[1..][i] != hs[1..][j] {
          assert hs[1..][i] == hs[i + 1] && hs[1..][j] == hs[j + 1];
        }
      }
      DistinctOfDistinct(hs[1..], seen + [hs[0]]);
      assert [hs[0]] + hs[1..] == hs;
    }
  }

  /** What a successful merge contains: exactly the wanted hosts that are not excluded. */
  lemma MergeMembers(hosts: seq<string>, roles: seq<string>, exclude: seq<string>, defs: map<string, RoleValue>, h: string)
    requires Merge(hosts, roles, exclude, defs).Success?
    ensures h in Merge(hosts, roles, exclude, defs).value <==> Wanted(hosts, roles, defs, h) && h !in exclude
  {
    var rh := RoleHosts(roles, defs);
    var all := hosts + rh;
    assert Merge(hosts, roles, exclude, defs).value == Distinct(TrimAll(all), exclude);
    assert h in TrimAll(all) <==> exists x :: x in all && Trim(x) == h by {
      TrimAllMembers(all, h);
    }
    assert (exists x :: x in all && Trim(x) == h) <==> Wanted(hosts, roles, defs, h) by {
      HostsOrRoleHosts(hosts, roles, defs, h);
    }
  }

  lemma HostsOrRoleHosts(hosts: seq<string>, roles: seq<string>, defs: map<string, RoleValue>, h: string)
    requires forall i :: 0 <= i < |roles| ==> roles[i] in defs
    ensures (exists x :: x in hosts + RoleHosts(roles, defs) && Trim(x) == h) <==> Wanted(hosts, roles, defs, h)
  {
    var rh := RoleHosts(roles, defs);
    if exists x :: x in hosts + rh && Trim(x) == h {
      var x :| x in hosts + rh && Trim(x) == h;
      assert x in hosts || x in rh;
    }
    if exists i, x :: 0 <= i < |roles| && ProvidedBy(defs, roles[i], x) && Trim(x) == h {
      var i, x :| 0 <= i < |roles| && ProvidedBy(defs, roles[i], x) && Trim(x) == h;
      assert x in rh && x in hosts + rh;
    }
  }

  // ---------------------------------------------------------------------------
  // Resolution for one task

  /** The task's own setting if it has one, the default otherwise. */
  function Either(own: Option<seq<string>>, default: seq<string>): (r: seq<string>)
  {
    match own
    case Some(l) => l
    case None => default
  }

  /**
   * The hosts a task runs on: its declared hosts (or the default hosts) plus
   * the command-line hosts, together with the hosts of its declared roles (or
   * the default roles) plus the command-line roles, less the default,
   * task-level and command-line exclusions.
   */
  function GetHosts(t: Task, cliHosts: seq<string>, cliRoles: seq<string>, cliExclude: seq<string>, env: Env)
    : (r: Result<seq<string>, seq<string>>)
    ensures r.Failure? <==> exists role :: role in Either(t.roles, env.roles) + cliRoles && role !in env.roledefs
    ensures r.Success? ==> NoDup(r.value)
  {
    var hosts := Either(t.hosts, env.hosts) + cliHosts;
    var roles := Either(t.roles, env.roles) + cliRoles;
    Merge(hosts, roles, env.excludeHosts + Either(t.excludeHosts, []) + cliExclude, env.roledefs)
  }

  /** What a successful resolution contains. */
  lemma GetHostsMembers(t: Task, cliHosts: seq<string>, cliRoles: seq<string>, cliExclude: seq<string>, env: Env, h: string)
    requires GetHosts(t, cliHosts, cliRoles, cliExclude, env).Success?
    ensures h in GetHosts(t, cliHosts, cliRoles, cliExclude, env).value
        <==> && Wanted(Either(t.hosts, env.hosts) + cliHosts, Either(t.roles, env.roles) + cliRoles, env.roledefs, h)
             && h !in env.excludeHosts + Either(t.excludeHosts, []) + cliExclude
  {
    MergeMembers(Either(t.hosts, env.hosts) + cliHosts, Either(t.roles, env.roles) + cliRoles,
                 env.excludeHosts + Either(t.excludeHosts, []) + cliExclude, env.roledefs, h);
  }

  /** Without command-line overrides, a task resolves through its own settings or the defaults. */
  lemma NoOverrides(t: Task, env: Env)
    ensures GetHosts(t, [], [], [], env)
         == Merge(Either(t.hosts, env.hosts), Either(t.roles, env.roles), env.excludeHosts + Either(t.excludeHosts, []), env.roledefs)
  {
    assert Either(t.hosts, env.hosts) + [] == Either(t.hosts, env.hosts);
    assert Either(t.roles, env.roles) + [] == Either(t.roles, env.roles);
    assert env.excludeHosts + Either(t.excludeHosts, []) + [] == env.excludeHosts + Either(t.excludeHosts, []);
  }

  /** Declared hosts replace the default hosts: the default list then has no influence at all. */
  lemma DeclaredHostsReplaceDefault(t: Task, cliHosts: seq<string>, cliRoles: seq<string>, cliExclude: seq<string>,
                                    env: Env, otherHosts: seq<string>)
    requires t.hosts.Some?
    ensures GetHosts(t, cliHosts, cliRoles, cliExclude, env)
         == GetHosts(t, cliHosts, cliRoles, cliExclude, env.(hosts := otherHosts))
  {
  }

  /**
   * With declared hosts and no roles or command-line hosts in play, the result
   * is exactly the trimmed declared hosts that are not excluded; a default
   * host that is not among them never appears.
   */
  lemma OnlyDeclaredHosts(t: Task, cliExclude: seq<string>, env: Env, h: string)
    requires t.hosts.Some? && Either(t.roles, env.roles) == []
    ensures GetHosts(t, [], [], cliExclude, env).Success?
    ensures h in GetHosts(t, [], [], cliExclude, env).value
        <==> (exists x :: x in t.hosts.value && Trim(x) == h) && h !in env.excludeHosts + Either(t.excludeHosts, []) + cliExclude
  {
    var roles := Either(t.roles, env.roles) + [];
    assert roles == [];
    GetHostsMembers(t, [], [], cliExclude, env, h);
    assert t.hosts.value + [] == t.hosts.value;
  }

  /** Role definitions with the same keys and the same expansions give the same role hosts. */
  lemma {:induction false} RoleHostsCongruent(roles: seq<string>, defs1: map<string, RoleValue>, defs2: map<string, RoleValue>)
    requires defs1.Keys == defs2.Keys && forall k :: k in defs1 ==> Expand(defs1[k]) == Expand(defs2[k])
    requires forall i :: 0 <= i < |roles| ==> roles[i] in defs1
    ensures RoleHosts(roles, defs1) == RoleHosts(roles, defs2)
  {
    if roles != [] {
      RoleHostsCongruent(roles[1..], defs1, defs2);
    }
  }

  /**
   * A callable role value resolves exactly like the fixed list it returns:
   * resolution only looks at what a role expands to.
   */
  lemma LazyRolesAgree(hosts: seq<string>, roles: seq<string>, exclude: seq<string>,
                       defs1: map<string, RoleValue>, defs2: map<string, RoleValue>)
    requires defs1.Keys == defs2.Keys && forall k :: k in defs1 ==> Expand(defs1[k]) == Expand(defs2[k])
    ensures Merge(hosts, roles, exclude, defs1) == Merge(hosts, roles, exclude, defs2)
  {
    assert Missing(roles, defs1) == Missing(roles, defs2) by {
      MissingCongruent(roles, defs1, defs2);
    }
    if Missing(roles, defs1) == [] {
      RoleHostsCongruent(roles, defs1, defs2);
    }
  }

  lemma {:induction false} MissingCongruent(roles: seq<string>, defs1: map<string, RoleValue>, defs2: map<string, RoleValue>)
    requires defs1.Keys == defs2.Keys
    ensures Missing(roles, defs1) == Missing(roles, defs2)
  {
    if roles != [] {
      MissingCongruent(roles[1..], defs1, defs2);
    }
  }

  /** `@task` only marks a task: resolution does not depend on it, on either side of `@hosts`. */
  lemma MarkingIrrelevant(t: Task, args: seq<DeclArg>, cliHosts: seq<string>, cliRoles: seq<string>, cliExclude: seq<string>, env: Env)
    ensures GetHosts(MarkTask(DeclareHosts(t, args)), cliHosts, cliRoles, cliExclude, env)
         == GetHosts(DeclareHosts(t, args), cliHosts, cliRoles, cliExclude, env)
    ensures GetHosts(DeclareHosts(MarkTask(t), args), cliHosts, cliRoles, cliExclude, env)
         == GetHosts(DeclareHosts(t, args), cliHosts, cliRoles, cliExclude, env)
  {
  }
}
