/**
 * The per-task argument grammar of the command line: a token
 * `name[:arg,key=value,...]` becomes one invocation record. Keyword parts
 * named `host`/`hosts`, `role`/`roles` and `exclude_hosts` steer host
 * selection instead of becoming keyword arguments.
 */
module Arguments {
  import opened Wrappers
  import opened Splitting

  const NameSep: char := ':'
  const ArgSep: char := ','
  const KeySep: char := '='
  const ListSep: char := ';'

  /** One parsed command-line task token. */
  datatype Invocation = Invocation(
    name: string,
    args: seq<string>,
    kwargs: map<string, string>,
    hosts: seq<string>,
    roles: seq<string>,
    excludeHosts: seq<string>)

  /** A task name with nothing attached to it. */
  function Bare(name: string): (r: Invocation)
  {
    Invocation(name, [], map[], [], [], [])
  }

  /** Python's `str.partition(c)`: the text before the first `c`, whether there was one, and the rest. */
  datatype Parted = Parted(before: string, found: bool, after: string)

  function Partition(c: char, s: string): (r: Parted)
    ensures r.found <==> c in s
    ensures c !in r.before
    ensures r.found ==> s == r.before + [c] + r.after
    ensures !r.found ==> r.before == s && r.after == ""
    decreases |s|
  {
    if |s| == 0 then Parted("", false, "")
    else if s[0] == c then Parted("", true, s[1..])
    else
      var r := Partition(c, s[1..]);
      assert s == [s[0]] + s[1..];
      Parted([s[0]] + r.before, r.found, r.after)
  }

  /** The three host-selection lists a reserved keyword can fill. */
  datatype Directive = HostList | RoleList | ExcludeList

  /** Which list, if any, a keyword steers. */
  function DirectiveOf(key: string): (r: Option<Directive>)
  {
    if key == "host" || key == "hosts" then Some(HostList)
    else if key == "role" || key == "roles" then Some(RoleList)
    else if key == "exclude_hosts" then Some(ExcludeList)
    else None
  }

  predicate IsReserved(key: string)
  {
    DirectiveOf(key).Some?
  }

  /** The list of `inv` that directive `d` fills. */
  function Directed(inv: Invocation, d: Directive): (r: seq<string>)
  {
    match d
    case HostList => inv.hosts
    case RoleList => inv.roles
    case ExcludeList => inv.excludeHosts
  }

  function WithDirected(inv: Invocation, d: Directive, list: seq<string>): (r: Invocation)
    ensures Directed(r, d) == list
    ensures forall e :: e != d ==> Directed(r, e) == Directed(inv, e)
    ensures r.name == inv.name && r.args == inv.args && r.kwargs == inv.kwargs
  {
    match d
    case HostList => inv.(hosts := list)
    case RoleList => inv.(roles := list)
    case ExcludeList => inv.(excludeHosts := list)
  }

  /** A part with an `=` is a keyword part; it splits at the first `=`. */
  predicate IsKeyword(part: string)
  {
    KeySep in part
  }

  function Key(part: string): (r: string)
    ensures KeySep !in r
  {
    Partition(KeySep, part).before
  }

  function Value(part: string): (r: string)
  {
    Partition(KeySep, part).after
  }

  /** True iff `part` is a keyword part that fills the list of `d`. */
  predicate Steers(part: string, d: Directive)
  {
    IsKeyword(part) && DirectiveOf(Key(part)) == Some(d)
  }

  /** Records one comma-separated part in the invocation built so far. */
  function ApplyPart(inv: Invocation, part: string): (r: Invocation)
    ensures r.name == inv.name
  {
    if !IsKeyword(part) then inv.(args := inv.args + [part])
    else match DirectiveOf(Key(part))
      case Some(d) => WithDirected(inv, d, Split(ListSep, Value(part)))
      case None => inv.(kwargs := inv.kwargs[Key(part) := Value(part)])
  }

  /** The invocation that the parts of an argument string produce, taken in order. */
  function ParseParts(name: string, parts: seq<string>): (r: Invocation)
    ensures r.name == name
    decreases |parts|
  {
    if parts == [] then Bare(name)
    else ApplyPart(ParseParts(name, parts[..|parts| - 1]), parts[|parts| - 1])
  }

  /** The invocation for `name` with the text after its colon; an empty text means no arguments. */
  function ParseArgString(name: string, argstr: string): (r: Invocation)
    ensures r.name == name
  {
    if argstr == "" then Bare(name)
    else ParseParts(name, EscapeSplit(ArgSep, argstr))
  }

  /** One command-line token: the name ends at the first colon; everything after it is the argument string. */
  function ParseToken(token: string): (r: Invocation)
    ensures NameSep !in r.name
    ensures NameSep !in token ==> r == Bare(token)
    ensures NameSep in token ==>
      && |r.name| < |token| && token[..|r.name|] == r.name && token[|r.name|] == NameSep
      && r == ParseArgString(r.name, token[|r.name| + 1..])
  {
    var p := Partition(NameSep, token);
    if !p.found then Bare(token)
    else
      assert token[..|p.before|] == p.before && token[|p.before| + 1..] == p.after;
      ParseArgString(p.before, p.after)
  }

  /** Every token of the command line, in order. */
  function ParseArguments(tokens: seq<string>): (r: seq<Invocation>)
    ensures |r| == |tokens|
    ensures forall i :: 0 <= i < |tokens| ==> r[i] == ParseToken(tokens[i])
  {
    if tokens == [] then []
    else [ParseToken(tokens[0])] + ParseArguments(tokens[1..])
  }

  // ---------------------------------------------------------------------------
  // The meaning of an argument string, field by field

  /** The positional parts, in their original order, empty ones included. */
  function Positionals(parts: seq<string>): (r: seq<string>)
  {
    if parts == [] then []
    else (if IsKeyword(parts[0]) then [] else [parts[0]]) + Positionals(parts[1..])
  }

  /** Part `i` is a keyword part for `key` and no later part is. */
  ghost predicate LastForKey(parts: seq<string>, i: int, key: string)
  {
    && 0 <= i < |parts| && IsKeyword(parts[i]) && Key(parts[i]) == key
    && forall j :: i < j < |parts| ==> !(IsKeyword(parts[j]) && Key(parts[j]) == key)
  }

  /** Part `i` fills the list of `d` and no later part does. */
  ghost predicate LastSteering(parts: seq<string>, i: int, d: Directive)
  {
    && 0 <= i < |parts| && Steers(parts[i], d)
    && forall j :: i < j < |parts| ==> !Steers(parts[j], d)
  }

  lemma PositionalsAppend(parts: seq<string>, p: string)
    ensures Positionals(parts + [p]) == Positionals(parts) + (if IsKeyword(p) then [] else [p])
    decreases |parts|
  {
    if parts == [] {
      assert [] + [p] == [p];
    } else {
      assert (parts + [p])[1..] == parts[1..] + [p];
      PositionalsAppend(parts[1..], p);
    }
  }

  lemma PrefixOfAppend(parts: seq<string>)
    requires parts != []
    ensures parts == parts[..|parts| - 1] + [parts[|parts| - 1]]
  {
  }

  /** Positional arguments are the non-keyword parts in order, empty strings kept. */
  lemma {:induction false} ParsePartsArgs(name: string, parts: seq<string>)
    ensures ParseParts(name, parts).args == Positionals(parts)
    decreases |parts|
  {
    if parts != [] {
      var init, p := parts[..|parts| - 1], parts[|parts| - 1];
      ParsePartsArgs(name, init);
      PrefixOfAppend(parts);
      PositionalsAppend(init, p);
    }
  }

  /** What one part does to the keyword arguments. */
  lemma ApplyPartKwargs(inv: Invocation, p: string)
    ensures ApplyPart(inv, p).kwargs
         == if IsKeyword(p) && !IsReserved(Key(p)) then inv.kwargs[Key(p) := Value(p)] else inv.kwargs
  {
  }

  /** What one part does to a host-selection list. */
  lemma ApplyPartDirected(inv: Invocation, p: string, d: Directive)
    ensures Directed(ApplyPart(inv, p), d) == if Steers(p, d) then Split(ListSep, Value(p)) else Directed(inv, d)
  {
  }

  /** The last part of a non-empty list of parts is applied to what the others built. */
  lemma ParsePartsLast(name: string, parts: seq<string>)
    requires parts != []
    ensures ParseParts(name, parts) == ApplyPart(ParseParts(name, parts[..|parts| - 1]), parts[|parts| - 1])
  {
  }

  /** Some part of `parts` is a keyword part for `key`. */
  ghost predicate NamesKey(parts: seq<string>, key: string)
  {
    exists i :: 0 <= i < |parts| && IsKeyword(parts[i]) && Key(parts[i]) == key
  }

  lemma NamesKeyLast(parts: seq<string>, key: string)
    requires parts != []
    ensures NamesKey(parts, key) <==>
      NamesKey(parts[..|parts| - 1], key) || (IsKeyword(parts[|parts| - 1]) && Key(parts[|parts| - 1]) == key)
  {
    var last := parts[|parts| - 1];
    if NamesKey(parts[..|parts| - 1], key) {
      NamesKeyInit(parts, key);
    }
    if IsKeyword(last) && Key(last) == key {
      assert parts[|parts| - 1] == last;
    }
    if NamesKey(parts, key) {
      NamesKeySplit(parts, key);
    }
  }

  lemma NamesKeyInit(parts: seq<string>, key: string)
    requires parts != [] && NamesKey(parts[..|parts| - 1], key)
    ensures NamesKey(parts, key)
  {
    var init := parts[..|parts| - 1];
    var i :| 0 <= i < |init| && IsKeyword(init[i]) && Key(init[i]) == key;
    assert parts[i] == init[i];
  }

  lemma NamesKeySplit(parts: seq<string>, key: string)
    requires parts != [] && NamesKey(parts, key)
    ensures NamesKey(parts[..|parts| - 1], key) || (IsKeyword(parts[|parts| - 1]) && Key(parts[|parts| - 1]) == key)
  {
    var init := parts[..|parts| - 1];
    var i :| 0 <= i < |parts| && IsKeyword(parts[i]) && Key(parts[i]) == key;
    if i < |init| {
      assert init[i] == parts[i];
    }
  }

  /** A keyword argument is present exactly for the non-reserved keys some part names. */
  lemma {:induction false} ParsePartsKwargKeys(name: string, parts: seq<string>)
    ensures forall k :: k in ParseParts(name, parts).kwargs <==> !IsReserved(k) && NamesKey(parts, k)
    decreases |parts|
  {
    if parts != [] {
      var init, p := parts[..|parts| - 1], parts[|parts| - 1];
      var kw0 := ParseParts(name, init).kwargs;
      var kw := ParseParts(name, parts).kwargs;
      assert kw == if IsKeyword(p) && !IsReserved(Key(p)) then kw0[Key(p) := Value(p)] else kw0 by {
        ParsePartsLast(name, parts);
        ApplyPartKwargs(ParseParts(name, init), p);
      }
      ParsePartsKwargKeys(name, init);
      forall k
        ensures k in kw <==> !IsReserved(k) && NamesKey(parts, k)
      {
        NamesKeyLast(parts, k);
      }
    }
  }

  /** A keyword argument holds the value of the last part that names its key. */
  lemma {:induction false} ParsePartsKwargValues(name: string, parts: seq<string>)
    ensures var kw := ParseParts(name, parts).kwargs;
      forall i, k :: LastForKey(parts, i, k) && !IsReserved(k) ==> k in kw && kw[k] == Value(parts[i])
    decreases |parts|
  {
    if parts != [] {
      var init, p := parts[..|parts| - 1], parts[|parts| - 1];
      var kw0 := ParseParts(name, init).kwargs;
      var kw := ParseParts(name, parts).kwargs;
      assert kw == if IsKeyword(p) && !IsReserved(Key(p)) then kw0[Key(p) := Value(p)] else kw0 by {
        ParsePartsLast(name, parts);
        ApplyPartKwargs(ParseParts(name, init), p);
      }
      ParsePartsKwargValues(name, init);
      forall i, k | LastForKey(parts, i, k) && !IsReserved(k)
        ensures k in kw && kw[k] == Value(parts[i])
      {
        if i < |init| {
          assert !(IsKeyword(p) && Key(p) == k) by {
            assert parts[|parts| - 1] == p;
          }
          assert LastForKey(init, i, k) by {
            forall j | i < j < |init| ensures !(IsKeyword(init[j]) && Key(init[j]) == k) {
              assert init[j] == parts[j];
            }
          }
        }
      }
    }
  }

  /** What the last part of a non-empty list of parts does to a host-selection list. */
  lemma DirectedLast(name: string, parts: seq<string>, d: Directive)
    requires parts != []
    ensures Directed(ParseParts(name, parts), d)
         == if Steers(parts[|parts| - 1], d) then Split(ListSep, Value(parts[|parts| - 1]))
            else Directed(ParseParts(name, parts[..|parts| - 1]), d)
  {
    ParsePartsLast(name, parts);
    ApplyPartDirected(ParseParts(name, parts[..|parts| - 1]), parts[|parts| - 1], d);
  }

  /** A host-selection list is empty when no part fills it. */
  lemma {:induction false} ParsePartsUndirected(name: string, parts: seq<string>, d: Directive)
    requires forall i :: 0 <= i < |parts| ==> !Steers(parts[i], d)
    ensures Directed(ParseParts(name, parts), d) == []
    decreases |parts|
  {
    if parts != [] {
      var init := parts[..|parts| - 1];
      forall i | 0 <= i < |init| ensures !Steers(init[i], d) {
        assert init[i] == parts[i];
      }
      ParsePartsUndirected(name, init, d);
      DirectedLast(name, parts, d);
    }
  }

  /** A host-selection list holds the `;`-separated value of the last part that fills it. */
  lemma {:induction false} ParsePartsDirected(name: string, parts: seq<string>, d: Directive, i: int)
    requires LastSteering(parts, i, d)
    ensures Directed(ParseParts(name, parts), d) == Split(ListSep, Value(parts[i]))
    decreases |parts|
  {
    var init, p := parts[..|parts| - 1], parts[|parts| - 1];
    DirectedLast(name, parts, d);
    if i < |init| {
      assert !Steers(p, d);
      forall j | i < j < |init| ensures !Steers(init[j], d) {
        assert init[j] == parts[j];
      }
      assert init[i] == parts[i];
      ParsePartsDirected(name, init, d, i);
    }
  }

  /** Reserved keywords never reach the keyword arguments. */
  lemma ReservedNeverKwargs(name: string, parts: seq<string>, k: string)
    requires IsReserved(k)
    ensures k !in ParseParts(name, parts).kwargs
  {
    ParsePartsKwargKeys(name, parts);
  }

  // ---------------------------------------------------------------------------
  // The argument-parsing table of tests/test_main.py:26-54

  /** Partitioning at the first occurrence of `c` when the text before it has none. */
  lemma {:induction false} PartitionAt(c: char, before: string, after: string)
    requires c !in before
    ensures Partition(c, before + [c] + after) == Parted(before, true, after)
    decreases |before|
  {
    var s := before + [c] + after;
    if before == [] {
      assert s == [c] + after;
    } else {
      assert s[1..] == before[1..] + [c] + after;
      PartitionAt(c, before[1..], after);
      assert [before[0]] + before[1..] == before;
    }
  }

  /** A token with a colon after a colon-free name. */
  lemma TokenWithArgs(name: string, argstr: string)
    requires NameSep !in name
    ensures ParseToken(name + [NameSep] + argstr) == ParseArgString(name, argstr)
  {
    PartitionAt(NameSep, name, argstr);
  }

  /** The command-line token that names `name` with the given comma-separated parts. */
  function Token(name: string, parts: seq<string>): (r: string)
  {
    name + [NameSep] + Join(ArgSep, parts)
  }

  /** The keyword part `key=value`. */
  function Keyword(key: string, value: string): (r: string)
  {
    key + [KeySep] + value
  }

  /** Text that needs no escaping inside an argument string. */
  predicate Plain(t: string)
  {
    ArgSep !in t && Backslash !in t
  }

  /** A keyword part splits back into its key and value when the key has no `=`. */
  lemma KeywordParts(key: string, value: string)
    requires KeySep !in key
    ensures IsKeyword(Keyword(key, value))
    ensures Key(Keyword(key, value)) == key && Value(Keyword(key, value)) == value
  {
    PartitionAt(KeySep, key, value);
  }

  /**
   * Parsing a token built from plain parts gives what those parts produce:
   * rendering and parsing agree.
   */
  lemma TokenRoundTrip(name: string, parts: seq<string>)
    requires NameSep !in name
    requires |parts| >= 1 && forall i :: 0 <= i < |parts| ==> Plain(parts[i])
    requires |parts| > 1 || parts[0] != ""
    ensures ParseToken(Token(name, parts)) == ParseParts(name, parts)
  {
    var s := Join(ArgSep, parts);
    assert s != "" by {
      if |parts| > 1 {
        assert s == parts[0] + [ArgSep] + Join(ArgSep, parts[1..]);
      }
    }
    TokenWithArgs(name, s);
    JoinAvoids(ArgSep, Backslash, parts);
    assert !HasEscapedSep(ArgSep, s);
    EscapeSplitIsSplit(ArgSep, s);
    SplitJoin(ArgSep, parts);
  }

  lemma {:induction false} JoinAvoids(sep: char, c: char, parts: seq<string>)
    requires c != sep && forall i :: 0 <= i < |parts| ==> c !in parts[i]
    ensures c !in Join(sep, parts)
    decreases |parts|
  {
    if |parts| > 1 {
      JoinAvoids(sep, c, parts[1..]);
    }
  }

  // ---------------------------------------------------------------------------
  // The shapes of the argument-parsing table of tests/test_main.py:26-54

  /** `ab:c`: one positional argument. */
  lemma PositionalRow(name: string, a: string)
    requires NameSep !in name && Plain(a) && KeySep !in a && a != ""
    ensures ParseToken(Token(name, [a])) == Invocation(name, [a], map[], [], [], [])
  {
    TokenRoundTrip(name, [a]);
  }

  /** `a:b=c`: one keyword argument. */
  lemma KeywordRow(name: string, k: string, v: string)
    requires NameSep !in name && Plain(k) && Plain(v) && KeySep !in k && !IsReserved(k)
    ensures ParseToken(Token(name, [Keyword(k, v)])) == Invocation(name, [], map[k := v], [], [], [])
  {
    TokenRoundTrip(name, [Keyword(k, v)]);
    KeywordParts(k, v);
  }

  /** `a:b=c,d`: a keyword argument, then a positional one. */
  lemma KeywordPositionalRow(name: string, k: string, v: string, a: string)
    requires NameSep !in name && Plain(k) && Plain(v) && KeySep !in k && !IsReserved(k)
    requires Plain(a) && KeySep !in a
    ensures ParseToken(Token(name, [Keyword(k, v), a])) == Invocation(name, [a], map[k := v], [], [], [])
  {
    var parts := [Keyword(k, v), a];
    TokenRoundTrip(name, parts);
    KeywordParts(k, v);
    ParsePartsLast(name, parts);
    ParsePartsLast(name, parts[..1]);
  }

  /** `a:b=c,d=e` and `task:x=y,z=`: two keyword arguments, an empty value kept. */
  lemma TwoKeywordsRow(name: string, k1: string, v1: string, k2: string, v2: string)
    requires NameSep !in name && Plain(k1) && Plain(v1) && KeySep !in k1 && !IsReserved(k1)
    requires Plain(k2) && Plain(v2) && KeySep !in k2 && !IsReserved(k2)
    ensures ParseToken(Token(name, [Keyword(k1, v1), Keyword(k2, v2)]))
         == Invocation(name, [], map[k1 := v1, k2 := v2], [], [], [])
  {
    var parts := [Keyword(k1, v1), Keyword(k2, v2)];
    TokenRoundTrip(name, parts);
    KeywordParts(k1, v1);
    KeywordParts(k2, v2);
    ParsePartsLast(name, parts);
    ParsePartsLast(name, parts[..1]);
  }

  /** `task:foo,,x=y`: two positional arguments, the second empty, then a keyword argument. */
  lemma PositionalsKeywordRow(name: string, a: string, b: string, k: string, v: string)
    requires NameSep !in name && Plain(a) && KeySep !in a && Plain(b) && KeySep !in b
    requires Plain(k) && Plain(v) && KeySep !in k && !IsReserved(k)
    ensures ParseToken(Token(name, [a, b, Keyword(k, v)])) == Invocation(name, [a, b], map[k := v], [], [], [])
  {
    var parts := [a, b, Keyword(k, v)];
    TokenRoundTrip(name, parts);
    KeywordParts(k, v);
    ParsePartsLast(name, parts);
    ParsePartsLast(name, parts[..2]);
    ParsePartsLast(name, parts[..1]);
  }

  /** Host names that can be listed in one `;`-separated value. */
  predicate PlainList(hs: seq<string>)
  {
    |hs| >= 1 && forall i :: 0 <= i < |hs| ==> Plain(hs[i]) && ListSep !in hs[i]
  }

  lemma ListValue(hs: seq<string>)
    requires PlainList(hs)
    ensures Plain(Join(ListSep, hs)) && Split(ListSep, Join(ListSep, hs)) == hs
  {
    JoinAvoids(ListSep, ArgSep, hs);
    JoinAvoids(ListSep, Backslash, hs);
    SplitJoin(ListSep, hs);
  }

  /** `abc:host=foo`, `abc:hosts=foo`, `abc:hosts=foo;bar`: the host list, split on `;`. */
  lemma HostsRow(name: string, key: string, hs: seq<string>)
    requires NameSep !in name && (key == "host" || key == "hosts") && PlainList(hs)
    ensures ParseToken(Token(name, [Keyword(key, Join(ListSep, hs))])) == Invocation(name, [], map[], hs, [], [])
  {
    HostKeys(key);
    OneSteeringPart(name, key, HostList, hs);
  }

  /** Both spellings of the host keyword contain no `=` and fill the host list. */
  lemma HostKeys(key: string)
    requires key == "host" || key == "hosts"
    ensures KeySep !in key && Plain(key) && DirectiveOf(key) == Some(HostList)
  {
  }

  /** One steering part fills its list and leaves everything else empty. */
  lemma OneSteeringPart(name: string, k: string, d: Directive, hs: seq<string>)
    requires NameSep !in name && PlainList(hs)
    requires KeySep !in k && DirectiveOf(k) == Some(d) && Plain(k)
    ensures ParseToken(Token(name, [Keyword(k, Join(ListSep, hs))])) == WithDirected(Bare(name), d, hs)
  {
    var p := Keyword(k, Join(ListSep, hs));
    assert ParseParts(name, [p]) == WithDirected(Bare(name), d, hs) by {
      ParsePartsLast(name, [p]);
      SteeringPart(Bare(name), k, d, hs);
    }
    assert Plain(p) by {
      ListValue(hs);
    }
    TokenRoundTrip(name, [p]);
  }

  /** The steering part `key=` followed by the `;`-joined list `hs`, applied to `inv`. */
  lemma SteeringPart(inv: Invocation, key: string, d: Directive, hs: seq<string>)
    requires PlainList(hs) && KeySep !in key && DirectiveOf(key) == Some(d)
    ensures ApplyPart(inv, Keyword(key, Join(ListSep, hs))) == WithDirected(inv, d, hs)
  {
    ListValue(hs);
    KeywordParts(key, Join(ListSep, hs));
  }

  /** The two keys of the exclusion rows contain no `=` and steer their lists. */
  lemma HostAndExcludeKeys()
    ensures KeySep !in "hosts" && Plain("hosts") && DirectiveOf("hosts") == Some(HostList)
    ensures KeySep !in "exclude_hosts" && Plain("exclude_hosts") && DirectiveOf("exclude_hosts") == Some(ExcludeList)
  {
  }

  /** Two parts are applied one after the other, the first to a bare invocation. */
  lemma TwoParts(name: string, p1: string, p2: string)
    ensures ParseParts(name, [p1, p2]) == ApplyPart(ApplyPart(Bare(name), p1), p2)
  {
    ParsePartsLast(name, [p1, p2]);
    assert [p1, p2][..1] == [p1];
    ParsePartsLast(name, [p1]);
  }

  /** Two steering parts, each filling its own list. */
  lemma TwoSteeringParts(name: string, k1: string, d1: Directive, hs: seq<string>, k2: string, d2: Directive, xs: seq<string>)
    requires NameSep !in name && PlainList(hs) && PlainList(xs)
    requires KeySep !in k1 && DirectiveOf(k1) == Some(d1) && Plain(k1)
    requires KeySep !in k2 && DirectiveOf(k2) == Some(d2) && Plain(k2)
    ensures ParseToken(Token(name, [Keyword(k1, Join(ListSep, hs)), Keyword(k2, Join(ListSep, xs))]))
         == WithDirected(WithDirected(Bare(name), d1, hs), d2, xs)
  {
    var p1, p2 := Keyword(k1, Join(ListSep, hs)), Keyword(k2, Join(ListSep, xs));
    TwoParts(name, p1, p2);
    SteeringPart(Bare(name), k1, d1, hs);
    SteeringPart(WithDirected(Bare(name), d1, hs), k2, d2, xs);
    ListValue(hs);
    ListValue(xs);
    TokenRoundTrip(name, [p1, p2]);
  }

  /** `abc:hosts=foo;bar,exclude_hosts=foo`: a host list and an exclusion list. */
  lemma HostsExcludesRow(name: string, hs: seq<string>, xs: seq<string>)
    requires NameSep !in name && PlainList(hs) && PlainList(xs)
    ensures ParseToken(Token(name, [Keyword("hosts", Join(ListSep, hs)), Keyword("exclude_hosts", Join(ListSep, xs))]))
         == Invocation(name, [], map[], hs, [], xs)
  {
    HostAndExcludeKeys();
    TwoSteeringParts(name, "hosts", HostList, hs, "exclude_hosts", ExcludeList, xs);
  }

  /** `abc`: a token without a colon is a bare task name. */
  lemma BareRow()
    ensures ParseArguments(["abc"]) == [Bare("abc")]
  {
  }
}
