# Fabric command-line front end, modelled in Dafny

This project models the part of Fabric's command-line front end that
`tests/test_main.py` pins down. It covers five pieces:

- **Splitting** (`splitting.dfy`): the escape-aware splitter behind task
  arguments. A backslash directly before the separator makes that separator
  literal: the backslash is dropped and there is no split at that point. The
  module also holds Python's plain `str.split`/`str.join` for one-character
  separators.
- **Arguments** (`arguments.dfy`): `parse_arguments`. A token
  `name[:part,part,...]` becomes an `Invocation` with a name, positional
  arguments, keyword arguments and three host-selection lists.
  - The name ends at the first `:`.
  - Parts are split by the escape-aware splitter on `,`.
  - A part containing `=` is a keyword part and splits at its first `=`.
  - The keywords `host`/`hosts`, `role`/`roles` and `exclude_hosts` fill their
    own lists. Their values are split on `;`.
- **Tasks** (`tasks.dfy`): a task as the front end sees it. Its host and role
  lists are `Option`s, so an attribute that was never set differs from an
  empty one. It also models the effect of `@hosts`, `@roles` and `@task` on a
  task.
- **Resolution** (`resolution.dfy`): `get_hosts` and `_merge`:
  - declared hosts replace the default hosts, and declared roles replace the
    default roles;
  - command-line hosts and roles are added;
  - roles expand through the role table, whose values are lists or
    zero-argument callables;
  - every host is whitespace-trimmed, the result is deduplicated in
    first-occurrence order, and excluded hosts are removed;
  - an undefined role makes the whole resolution fail, carrying the undefined
    role names.
- **Discovery** (`discovery.dfy`): the walk over an imported fabfile module
  tree:
  - private names and names missing from an explicit `__all__` are skipped;
  - sub-modules are walked depth-first under `name.` prefixes;
  - a new-style task anywhere in the tree switches classic tasks off
    everywhere;
  - new-style tasks keep their declared name;
  - the result is the pair of mappings `load_fabfile` returns: name to
    description and name to task.
- **Loading** (`loading.dfy`): the search-path discipline of `load_fabfile`,
  a `SearchPath` class whose `entries` field stands for `sys.path`.
  - The fabfile's directory goes in front only if it is absent.
  - The import runs against that path.
  - Exactly what was inserted is removed again, so the path ends as it began.
  - The import itself is a parameter: a function from the search path and the
    module name to a module tree, or `None` for a failed import.

Each concrete case of the test file is restated as a lemma about the model in
the `*_cases.dfy` modules and in the last sections of `splitting.dfy` and
`arguments.dfy`. Most of these lemmas are stated over symbolic names with the
side conditions the concrete names satisfy, such as "distinct" or "contains no
`=`". This makes each lemma cover the whole family of inputs the test stands
for.

The implementation module `fabric/main.py` is not part of this model, and
neither are the decorators in `fabric/decorators.py`. Their behaviour is taken
from the test file. Where the test file leaves a choice open, the model makes
its own choice and lists it under "## Left out".

## Model

| member | source | states |
|---|---|---|
| Splitting.EscapeSplitOfEscapeJoin | tests/test_main.py:57-65 | for any separator other than backslash and at least one piece, where no piece but the last ends in a backslash, splitting the escaped join of the pieces gives back exactly those pieces (escaping is undone, escaped separators never split) |
| Splitting.EscapeJoinOfEscapeSplit | tests/test_main.py:57-65 | for every string, escaping the pieces the splitter returns and joining them gives back the original string: the splitter loses nothing |
| Splitting.EscapeSplitOfEscaped | tests/test_main.py:57-65 | for a separator other than backslash, the escaped form of a piece followed by more text splits into that piece glued to the first piece of the text, the other pieces unchanged; this holds when the piece does not end in a backslash or the text does not start with the separator |
| Splitting.EscapeSplitIsSplit | tests/test_main.py:57-65 | without a backslash directly before a separator, the escape-aware splitter agrees with plain `str.split` |
| Splitting.JoinSplit | tests/test_main.py:45-49 | joining the pieces of a plain split restores the string |
| Splitting.SplitJoin | tests/test_main.py:45-49 | splitting the join of separator-free pieces gives the pieces back |
| Splitting.EscapeWithoutSep | tests/test_main.py:61-64 | a piece without the separator is its own escaped form |
| Splitting.EscapeThenSep | tests/test_main.py:61 | escaping text that ends in a separator and separator-free text escapes only that separator |
| Splitting.EscapedCommasJoinPieces | tests/test_main.py:61-64 | a comma-joined string of three pieces whose middle piece has two escaped commas splits into the three pieces with the commas restored |
| Splitting.EscapeSplit | tests/test_main.py:57-65 | `_escape_split`: never empty; characterised by EscapeJoinOfEscapeSplit (nothing is lost), EscapeSplitOfEscapeJoin (escaped joins split back into their pieces) and EscapeSplitIsSplit (plain `str.split` when nothing is escaped) |
| Splitting.Escape | tests/test_main.py:57-65 | the escaping the splitter undoes; characterised by EscapeWithoutSep and the two round trips |
| Splitting.EscapeJoin | tests/test_main.py:57-65 | the inverse of the splitter; characterised by EscapeJoinOfEscapeSplit and EscapeSplitOfEscapeJoin |
| Splitting.EscapedTaskArgSplit | tests/test_main.py:57-65 | the test's own argument string splits into `foo`, `bar,biz,baz` and `what comes after baz?` |
| Arguments.Partition | tests/test_main.py:29-37 | the split at the first occurrence of a character: found exactly when the character occurs, the text before it free of it, and the parts rebuild the input |
| Arguments.Key | tests/test_main.py:33-51 | the key of a keyword part contains no `=` |
| Arguments.Value | tests/test_main.py:33-51 | the value of a keyword part, the text after its first `=`; characterised by KeywordParts (`key=value` gives back `key` and `value`) |
| Arguments.ApplyPart | tests/test_main.py:29-52 | classifies one part as positional, reserved or keyword; keeps the name; characterised field by field by ParsePartsArgs, ParsePartsKwargKeys, ParsePartsKwargValues, ParsePartsUndirected and ParsePartsDirected |
| Arguments.ParseParts | tests/test_main.py:29-52 | the invocation the parts of an argument string build up, name kept; characterised by the same five lemmas |
| Arguments.ParseArgString | tests/test_main.py:29-52 | splits the argument string with EscapeSplit on `,` and parses the parts, name kept; an empty argument string gives a bare invocation |
| Arguments.ParseToken | tests/test_main.py:29-31 | a token without a colon is a bare name with nothing attached; otherwise the name is the text before the first colon and the rest is parsed as the argument string |
| Arguments.ParseArguments | tests/test_main.py:54 | one invocation per token, in order, each the parse of its token |
| Arguments.ParsePartsArgs | tests/test_main.py:31-52 | the positional arguments are exactly the parts without `=`, in order, empty parts included |
| Arguments.ParsePartsKwargKeys | tests/test_main.py:33-51 | a keyword argument exists exactly for the non-reserved keys that some part names |
| Arguments.ParsePartsKwargValues | tests/test_main.py:33-51 | each keyword argument holds the value of the last part naming its key, an empty value included |
| Arguments.ParsePartsUndirected | tests/test_main.py:29-37 | a host, role or exclusion list that no part fills is empty |
| Arguments.ParsePartsDirected | tests/test_main.py:39-49 | a host, role or exclusion list holds the `;`-split value of the last part that fills it |
| Arguments.ReservedNeverKwargs | tests/test_main.py:39-49 | `host`, `hosts`, `role`, `roles` and `exclude_hosts` never appear among the keyword arguments |
| Arguments.TokenRoundTrip | tests/test_main.py:26-54 | parsing a token rendered from a name and plain parts gives what those parts produce |
| Arguments.PositionalRow | tests/test_main.py:31 | `ab:c`: one positional argument and nothing else |
| Arguments.KeywordRow | tests/test_main.py:33 | `a:b=c`: one keyword argument and nothing else |
| Arguments.KeywordPositionalRow | tests/test_main.py:35 | `a:b=c,d`: a keyword argument and a positional one |
| Arguments.TwoKeywordsRow | tests/test_main.py:37-51 | `a:b=c,d=e` and `task:x=y,z=`: two keyword arguments, an empty value kept |
| Arguments.PositionalsKeywordRow | tests/test_main.py:52 | `task:foo,,x=y`: positional `foo` and an empty one, then a keyword argument |
| Arguments.HostsRow | tests/test_main.py:39-45 | `host=` and `hosts=` give the `;`-split host list and nothing else |
| Arguments.TwoSteeringParts | tests/test_main.py:48-49 | two reserved keyword parts each fill their own list |
| Arguments.HostsExcludesRow | tests/test_main.py:48-49 | `hosts=foo;bar,exclude_hosts=...`: the host list and the exclusion list, nothing else |
| Arguments.BareRow | tests/test_main.py:29 | `abc`: a bare task name |
| Tasks.DeclValues | tests/test_main.py:202-224 | a single iterable argument stands for its elements; separate names are stored one by one, in order |
| Tasks.DeclareHosts | tests/test_main.py:75-85 | `@hosts` sets the host list and changes nothing else |
| Tasks.DeclareRoles | tests/test_main.py:93-113 | `@roles` sets the role list and changes nothing else |
| Tasks.MarkTask | tests/test_main.py:153-172 | `@task` marks the task new-style and changes nothing else |
| Tasks.MarkCommutesWithHosts | tests/test_main.py:153-172 | `@task` before or after `@hosts` gives the same task |
| Tasks.SingleIterableExpands | tests/test_main.py:202-224 | `@hosts(l)` and `@roles(l)` store `l`, the same as `@hosts(*l)` and `@roles(*l)` |
| Resolution.Expand | tests/test_main.py:241-251 | a role value's hosts, a callable one invoked; characterised by LazyRolesAgree and ResolutionCases.LazyRole |
| Resolution.Trim | tests/test_main.py:175-199 | the trimmed text has no whitespace at either end and is no longer than the input |
| Resolution.TrimIsSlice | tests/test_main.py:175-199 | trimming removes whitespace at the two ends and nothing else |
| Resolution.TrimPadded | tests/test_main.py:175-199 | whitespace around trimmed, non-empty text is exactly what trimming removes |
| Resolution.TrimIdempotent | tests/test_main.py:175-199 | trimming twice is trimming once |
| Resolution.Distinct | tests/test_main.py:104-113 | the result has no repeats and holds exactly the hosts of the input not already seen or excluded |
| Resolution.DistinctOfDistinct | tests/test_main.py:104-113 | a repeat-free list free of excluded hosts is left as it is |
| Resolution.Missing | tests/test_main.py:231-238 | the undefined requested roles, and empty exactly when every role is defined |
| Resolution.RoleHosts | tests/test_main.py:93-129 | a host comes out of the roles exactly when some requested role expands to it |
| Resolution.Merge | tests/test_main.py:104-113 | the merge fails exactly when a requested role is undefined, carrying the undefined roles; a successful merge has no repeats |
| Resolution.MergeMembers | tests/test_main.py:93-199 | a successful merge holds exactly the trimmed given hosts and trimmed role hosts that are not excluded |
| Resolution.MergeHostsOnly | tests/test_main.py:75-90 | trimmed, distinct, non-excluded hosts without roles merge to themselves |
| Resolution.GetHosts | tests/test_main.py:72-73 | resolution fails exactly when a requested role (declared or default, plus command-line) is undefined; a success has no repeats |
| Resolution.GetHostsMembers | tests/test_main.py:72-199 | what a successful resolution holds: the wanted hosts of the task's own settings or the defaults, plus the command line, less all exclusions |
| Resolution.DeclaredHostsReplaceDefault | tests/test_main.py:142-172 | with declared hosts the default host list has no influence on the result |
| Resolution.OnlyDeclaredHosts | tests/test_main.py:142-172 | with declared hosts and no roles, the result is exactly the trimmed declared hosts that are not excluded |
| Resolution.LazyRolesAgree | tests/test_main.py:241-251 | role tables whose values expand to the same lists resolve identically, so a callable role equals the list it returns |
| Resolution.MarkingIrrelevant | tests/test_main.py:153-172 | `@task` on either side of `@hosts` does not change the resolved hosts |
| ResolutionCases.HostsDeclarationAlone | tests/test_main.py:75-85 | `@hosts(*['a', 'b'])` alone resolves to `a`, `b` |
| ResolutionCases.RolesDeclarationAlone | tests/test_main.py:93-129 | `@roles('r1')` resolves to the hosts of `r1`, its table given as lists or tuples |
| ResolutionCases.HostsAndRolesTogether | tests/test_main.py:104-113 | `@roles('r1', 'r2')` over `@hosts('a')` resolves to `a`, `b`, `c`, each once |
| ResolutionCases.DefaultHosts | tests/test_main.py:132-139 | an undecorated task resolves to the default hosts |
| ResolutionCases.DeclaredHostsOverrideDefault | tests/test_main.py:142-172 | `@hosts('bar')` gives `bar` only, with or without `@task` on either side |
| ResolutionCases.DefaultHostAbsent | tests/test_main.py:151-172 | the default host `foo` is not among the resolved hosts, in each of the three decorator orders |
| ResolutionCases.DefaultHostsTrimmed | tests/test_main.py:175-183 | padded default hosts resolve to their trimmed forms |
| ResolutionCases.RoleHostsTrimmed | tests/test_main.py:186-199 | padded role hosts resolve to their trimmed forms |
| ResolutionCases.UnknownRoleAborts | tests/test_main.py:231-238 | merging an undefined role fails, naming that role |
| ResolutionCases.LazyRole | tests/test_main.py:241-251 | a role defined by a callable resolves to the hosts the callable returns |
| Loading.LastIndexOf | tests/test_main.py:276-285 | the index of the last occurrence of a character, or -1 when there is none |
| Loading.StripTrailing | tests/test_main.py:276-285 | a prefix of the text without a trailing run of the character, and only such characters are dropped |
| Loading.Directory | tests/test_main.py:276-285 | the directory of a fabfile path, a prefix of the path; characterised by DirectoryOfJoin and DirectoryOfBareName |
| Loading.ModuleName | tests/test_main.py:276-285 | the module name, with no slash in it; characterised by ModuleNameOfSource |
| Loading.Acquired | tests/test_main.py:273-287 | the search path during the import always holds the fabfile's directory; characterised by AcquirePresentKeepsPath and AcquireAbsentPrepends |
| Loading.Released | tests/test_main.py:268-269 | the search path after the import; characterised by ReleaseUndoesAcquire |
| Loading.DirectoryOfJoin | tests/test_main.py:276-284 | `sub/fabfile.py` lies in `sub` and has base name `fabfile.py` |
| Loading.DirectoryOfBareName | tests/test_main.py:277-285 | `fabfile.py` lies in the current directory, spelled as the empty string |
| Loading.ModuleNameOfSource | tests/test_main.py:276-285 | `dir/name.py` is imported as `name` |
| Loading.ReleaseUndoesAcquire | tests/test_main.py:268-269 | releasing what was acquired gives back the original search path, element for element |
| Loading.AcquirePresentKeepsPath | tests/test_main.py:279-285 | a directory already on the path, in any position, is neither moved nor duplicated |
| Loading.AcquireAbsentPrepends | tests/test_main.py:276-277 | a missing directory goes in front, with the other entries kept in order |
| Loading.SearchPath.Acquire | tests/test_main.py:268 | reports whether it inserted; new path = the acquired path |
| Loading.SearchPath.Release | tests/test_main.py:268-269 | new path = the path with the inserted front entry dropped |
| Loading.SearchPath.LoadFabfile | tests/test_main.py:258-271 | the search path ends exactly as it began; the result is the registry of the module the import returns, or `None` for a failed import |
| Loading.RunLoadFabfile | tests/test_main.py:258-271 | after loading, the search path equals the one set before it |
| LoadingCases.SubdirNotInPath | tests/test_main.py:276 | `subdir/fabfile.py` with `['not_subdir']`: `subdir` is put in front during the import |
| LoadingCases.BareNotInPath | tests/test_main.py:277 | `fabfile.py` with `['nope']`: `''` is put in front during the import |
| LoadingCases.SubdirInPathNotFront | tests/test_main.py:279 | `subdir` already second: the path does not change |
| LoadingCases.BareInPathNotFront | tests/test_main.py:280 | `''` already second: the path does not change |
| LoadingCases.BareInPathMiddle | tests/test_main.py:281 | `''` in the middle: the path does not change |
| LoadingCases.SubdirIsPath | tests/test_main.py:283 | the path is just `subdir`: it does not change |
| LoadingCases.SubdirInPathFront | tests/test_main.py:284 | `subdir` in front: the path does not change |
| LoadingCases.BareInPathFront | tests/test_main.py:285 | `''` in front: the path does not change |
| Discovery.HasNewStyle | tests/test_main.py:329-370 | the tree-wide switch: some candidate binding anywhere in the tree is a new-style task; characterised in both directions by NewStyleSwitch |
| Discovery.KeyOf | tests/test_main.py:340-348 | a new-style task is keyed by its declared name, a classic one by its binding name; the new-style branch is pinned by DiscoveryCases.ClassBasedDiscovery, the classic branch by DiscoveryCases.AliasedClassicDiscovery |
| Discovery.Walk | tests/test_main.py:305-370 | the depth-first walk of a module tree; characterised by WalkReaches |
| Discovery.Load | tests/test_main.py:305-370 | the two mappings `load_fabfile` returns, with the same keys; characterised by LoadSound, LoadComplete, NewStyleSuppressesClassic and ListingRestricts |
| Discovery.Prefixed | tests/test_main.py:351-359 | each entry of a sub-module appears under `name.` followed by its key, with its task |
| Discovery.WalkReaches | tests/test_main.py:305-370 | the walk collects a task under a dotted name exactly when a chain of candidate bindings leads there |
| Discovery.Build | tests/test_main.py:311-312 | the two mappings share their keys, descriptions are the tasks' descriptions, the keys are exactly the walked keys, and every task was walked under its key |
| Discovery.BuildLastWins | tests/test_main.py:311-312 | an entry whose key no later entry repeats is the one that is kept |
| Discovery.LoadSound | tests/test_main.py:305-370 | every registered task is reached through candidate bindings under the tree-wide toggle |
| Discovery.LoadComplete | tests/test_main.py:305-370 | every dotted name reached through candidate bindings, with the switch set as the whole tree sets it, is registered |
| Discovery.NewStyleReached | tests/test_main.py:329-370 | a tree whose switch is on from some binding onward has a new-style task, at or after that binding, that the walk with the switch on reaches |
| Discovery.NewStyleSwitch | tests/test_main.py:329-370 | the switch is on exactly when the walk with the switch on reaches some new-style task |
| Discovery.AllClassicKept | tests/test_main.py:305-326 | in a tree where no new-style task is reachable, every classic task reached is registered |
| Discovery.NewStyleSuppressesClassic | tests/test_main.py:329-370 | a registered task is new-style exactly when the tree holds a new-style task |
| Discovery.ListingRestricts | tests/test_main.py:317-326 | with an explicit listing, everything registered comes through a listed binding of the root module |
| DiscoveryCases.ImplicitDiscovery | tests/test_main.py:305-314 | two public functions and no listing: both are registered, and nothing else |
| DiscoveryCases.ExplicitDiscovery | tests/test_main.py:317-326 | a listing naming one of two functions: only that one is registered, the other is absent |
| DiscoveryCases.NewStyleAmongClassic | tests/test_main.py:329-337 | one new-style task among plain functions: it alone is registered, under its declared name |
| DiscoveryCases.DecoratedDiscovery | tests/test_main.py:329-337 | `@task def foo` next to two plain functions: only `foo` is registered |
| DiscoveryCases.ClassBasedDiscovery | tests/test_main.py:340-348 | a task object bound to another name that declares `foo` is registered as `foo`, alone |
| DiscoveryCases.AliasedClassicDiscovery | tests/test_main.py:305-314 | a plain function `foo` bound to the public name `bar` is registered as `bar` alone, and `foo` is absent |
| DiscoveryCases.DeepDiscovery | tests/test_main.py:351-370 | a package holding only a sub-module yields `submodule.subsubmodule.deeptask` alone, and the classic `submodule.classic_task` is absent |

## Left out

- The real import and `fabric/main.py` are not part of this model. The import
  is a parameter of `Loading.SearchPath.LoadFabfile`: a function of the search
  path it runs under and the module name, returning a module tree or `None`. A
  module that changes `sys.path` itself during import is not modelled.
- `os.path.abspath` is not modelled. `Loading.Directory` is the head of
  `posixpath.split`, so a bare file name lies in `''`. The test
  configurations rely on this.
- `Loading.StripExtension` follows `os.path.splitext` for one path component:
  the cut is at the last dot, provided a non-dot character precedes it. It is
  not used beyond naming the module.
- Directory fabfiles (`tests/support/deep`, a package) are modelled only by
  their module tree. How a directory maps to its `__init__` module is not
  modelled, and neither are the fixture fabfiles under `tests/support/`, which
  are not part of this model. The discovery cases are built over symbolic
  names standing for their contents.
- `Loading.RunLoadFabfile` compares the path after loading with an immutable
  snapshot of the path before. In the test (tests/test_main.py:266-269),
  `sys.path = sys_path` makes both names refer to the same list. There,
  `eq_(sys.path, sys_path)` compares a list with itself and cannot fail while
  `load_fabfile` only edits the path in place. So the test is no evidence for
  restoration; the model states the property the test means.
- `Discovery.Build`: a module's bindings are an ordered sequence, and of two
  bindings that give the same key the later one wins
  (`Discovery.BuildLastWins`). A Python 2 module `__dict__` has no order, so
  which of two clashing bindings is kept is the model's own choice.
- A module bound inside itself, and import cycles, cannot be expressed. Module
  trees are finite values, and the walk needs no cycle guard.
- The search-path rule is the model's own choice, which the test file does
  not decide: the directory is inserted in front only if absent, and exactly
  what was inserted is removed afterwards. An implementation that temporarily
  moves a present entry to the front, and then puts it back, passes the same
  tests, because they only compare the final path.
- `Resolution.GetHosts` uses a per-field rule, the model's own choice:
  - an explicit task setting replaces the corresponding default;
  - command-line hosts and roles are added to the result;
  - the default, task-level and command-line exclusions all apply.

  A "command line, then decorator, then defaults" cascade would fit the test
  file equally well. No test passes command-line hosts or roles, so the tests
  do not decide between the two.
- `Resolution.GetHosts` and `Resolution.Merge` always take an exclusion list.
  In the test file it is optional: `get_hosts` is also called with three
  arguments (tests/test_main.py:163) and `_merge` with two (:238). The model
  passes `[]` where an argument is omitted.
- `Resolution.GetHosts`: the result is a repeat-free sequence in
  first-occurrence order rather than a set. The tests compare sets, so the
  order is additional information, not a different answer.
- `Resolution.IsSpace` covers ASCII whitespace only: space, tab, newline,
  carriage return, vertical tab and form feed. Unicode whitespace is not
  modelled.
- `Resolution.Expand` assumes a callable role value returns. A callable that
  raises is not modelled.
- Aborting is a `Failure` value carrying the undefined role names. The message
  printed to standard error and the `SystemExit` are not modelled.
- `Tasks.DeclValues` fixes only the two cases the tests show: one iterable
  argument, and separate names. When an iterable is mixed with other
  arguments, its elements are flattened in place. That case is a modelling
  choice the tests do not pin down.
- `Arguments.ParseArgString`: an empty argument string, as in `task:`, gives
  no arguments at all. This is the model's own choice, because the test file
  has no such token. Python's `''.split(',')` would give one empty positional
  argument. The implementation that would decide this is not part of this
  model.
- `Arguments.Partition`: a keyword part splits at its first `=`, and `=` has
  no escape. Keys and values are not stripped of whitespace.
- The decorators' internals (`functools.wraps`, the `WrappedCallableTask`
  object) are not modelled, only their effect on a task's fields. The
  test-only helpers are out of scope: `fudge.Fake`, `patched_env`,
  `mock_streams`, `path_prefix` and the nose yield-test machinery.
- The test cases are stated over symbolic names carrying the facts the
  concrete strings satisfy, for example that they are distinct, trimmed,
  public or free of `=`. These names cover task names, hosts, roles,
  directories and module attributes. Literal strings appear only where a fact is
  about the literal itself: the reserved keywords (`host`, `hosts`, `role`,
  `roles`, `exclude_hosts`), the empty string (empty descriptions, the
  directory `''` and empty split parts), the `.py` suffix in
  `Loading.ModuleNameOfSource`, the task name `command` in
  `ResolutionCases.Command`, the splitter case
  (`Splitting.EscapedTaskArgSplit`) and `Arguments.BareRow`.
