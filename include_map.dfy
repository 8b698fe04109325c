/**
 * The process-wide `include_map` (a `defaultdict(list)` keyed by file base
 * name, keys in insertion order) and `process_file`, which fills it.
 */
module IncludeMapping {
  import opened Wrappers
  import opened IncludeLine
  import opened SysHeaders

  /** A snapshot of the map: its keys in insertion order and the list under each key. */
  datatype MapState = MapState(order: seq<string>, lists: map<string, seq<Target>>)

  /** Keys listed once each. */
  ghost predicate Distinct(keys: seq<string>) {
    forall i, j :: 0 <= i < j < |keys| ==> keys[i] != keys[j]
  }

  /** Keys listed once each, and exactly the keys of the map. */
  ghost predicate WellFormed(st: MapState) {
    && Distinct(st.order)
    && (forall i :: 0 <= i < |st.order| ==> st.order[i] in st.lists)
    && |st.lists| == |st.order|
  }

  const EmptyState: MapState := MapState([], map[])

  /** The list `include_map[key]` holds, `[]` for a key not yet present. */
  function ListOf(st: MapState, key: string): seq<Target> {
    if key in st.lists then st.lists[key] else []
  }

  /** The command-line settings `process_file` reads through the global `args`. */
  datatype Args = Args(extension: seq<string>, exclude: seq<string>, nosysinc: bool)

  /** `os.path.join(root, file)` with POSIX separators. */
  function JoinPath(root: string, file: string): (path: string)
    ensures |path| >= |file| && path[|path| - |file|..] == file
  {
    if |file| > 0 && file[0] == '/' then file
    else if root == "" || root[|root| - 1] == '/' then root + file
    else root + "/" + file
  }

  /** Some exclude pattern of the list is found (`re.search`) somewhere in the path. */
  predicate Excluded(exclude: seq<string>, search: (string, string) -> bool, path: string)
    decreases |exclude|
  {
    exclude != [] && (Excluded(exclude[..|exclude| - 1], search, path) || search(exclude[|exclude| - 1], path))
  }

  /** A path is excluded exactly when one of the patterns is found in it. */
  lemma {:induction false} ExcludedMeans(exclude: seq<string>, search: (string, string) -> bool, path: string)
    ensures Excluded(exclude, search, path) <==> exists i :: 0 <= i < |exclude| && search(exclude[i], path)
    decreases |exclude|
  {
    if exclude != [] {
      var init := exclude[..|exclude| - 1];
      ExcludedMeans(init, search, path);
      if exists i :: 0 <= i < |exclude| && search(exclude[i], path) {
        var i :| 0 <= i < |exclude| && search(exclude[i], path);
        if i < |init| {
          assert init[i] == exclude[i];
        }
      }
    }
  }

  /** What one line adds to the list, given its extraction: the target when it matched and is kept. */
  function Kept(found: Option<Target>, nosysinc: bool): seq<Target> {
    match found
    case None => []
    case Some(t) => if Keeps(nosysinc, t) then [t] else []
  }

  /** The kept targets of a sequence of per-line extractions, in order. */
  function KeptTargets(found: seq<Option<Target>>, nosysinc: bool): (ts: seq<Target>)
    ensures |ts| <= |found|
    decreases |found|
  {
    if found == [] then []
    else KeptTargets(found[..|found| - 1], nosysinc) + Kept(found[|found| - 1], nosysinc)
  }

  /** The extraction of every line, in line order. */
  function Extractions(lines: seq<string>): seq<Option<Target>> {
    seq(|lines|, i requires 0 <= i < |lines| => Extract(lines[i]))
  }

  /** The targets `process_file` appends for the given lines, in line order. */
  function AcceptedTargets(lines: seq<string>, nosysinc: bool): seq<Target> {
    KeptTargets(Extractions(lines), nosysinc)
  }

  /** The map after the lines of a file that is not excluded are read into `include_map[file]`. */
  function Accumulated(st: MapState, file: string, lines: seq<string>, nosysinc: bool): MapState {
    MapState(if file in st.lists then st.order else st.order + [file],
             st.lists[file := ListOf(st, file) + AcceptedTargets(lines, nosysinc)])
  }

  /** The map after `process_file(root, file)` reads `lines`. */
  ghost function ProcessFileSpec(st: MapState, args: Args, search: (string, string) -> bool,
                                 root: string, file: string, lines: seq<string>): MapState
  {
    if Excluded(args.exclude, search, JoinPath(root, file)) then st
    else Accumulated(st, file, lines, args.nosysinc)
  }

  /** The `defaultdict(list)` itself, updated in place. */
  class IncludeMap {
    var order: seq<string>
    var lists: map<string, seq<Target>>

    ghost function State(): MapState
      reads this
    {
      MapState(order, lists)
    }

    ghost predicate Valid()
      reads this
    {
      WellFormed(State())
    }

    constructor ()
      ensures Valid() && State() == EmptyState
    {
      order := [];
      lists := map[];
    }

    /** `include_map[key]`: the list under `key`, created empty (and appended to the keys) when absent. */
    method Lookup(key: string) returns (list: seq<Target>)
      requires Valid()
      modifies this
      ensures Valid()
      ensures list == ListOf(old(State()), key)
      ensures order == if key in old(lists) then old(order) else old(order) + [key]
      ensures lists == old(lists)[key := list]
    {
      if key !in lists {
        order := order + [key];
        lists := lists[key := []];
      }
      list := lists[key];
    }

    /** `inc_list.append(t)` where `inc_list` is the list object stored under `key`. */
    method Append(key: string, t: Target)
      requires Valid() && key in lists
      modifies this
      ensures Valid()
      ensures order == old(order)
      ensures lists == old(lists)[key := old(lists)[key] + [t]]
    {
      lists := lists[key := lists[key] + [t]];
    }
  }

  /** A pattern found in the path among the first `n` excludes it. */
  lemma {:induction false} PrefixExcluded(exclude: seq<string>, search: (string, string) -> bool, path: string, n: nat)
    requires n <= |exclude| && Excluded(exclude[..n], search, path)
    ensures Excluded(exclude, search, path)
    decreases |exclude| - n
  {
    if n < |exclude| {
      assert exclude[..n + 1][..n] == exclude[..n];
      PrefixExcluded(exclude, search, path, n + 1);
    } else {
      assert exclude[..n] == exclude;
    }
  }

  /** The loop over `args.exclude`: whether some pattern is found in the path. */
  method AnyExcludeMatches(exclude: seq<string>, search: (string, string) -> bool, path: string)
    returns (excluded: bool)
    ensures excluded <==> Excluded(exclude, search, path)
  {
    for i := 0 to |exclude|
      invariant !Excluded(exclude[..i], search, path)
    {
      assert exclude[..i + 1][..i] == exclude[..i];
      if search(exclude[i], path) {
        PrefixExcluded(exclude, search, path, i + 1);
        return true;
      }
    }
    assert exclude[..|exclude|] == exclude;
    return false;
  }

  /**
   * `process_file(root, file)` with the file's contents given as its lines:
   * an excluded path leaves the map as it was; otherwise the entry for `file`
   * is created if absent and the accepted targets are appended in line order.
   */
  method ProcessFile(m: IncludeMap, args: Args, search: (string, string) -> bool,
                     root: string, file: string, lines: seq<string>)
    requires m.Valid()
    modifies m
    ensures m.Valid()
    ensures m.State() == ProcessFileSpec(old(m.State()), args, search, root, file, lines)
  {
    var filename := JoinPath(root, file);
    var excluded := AnyExcludeMatches(args.exclude, search, filename);
    if excluded {
      return;
    }
    AccumulateFile(m, file, lines, args.nosysinc);
  }

  /** The part of `process_file` after the exclusion test: `include_map[file]`, then the loop over the lines. */
  method AccumulateFile(m: IncludeMap, file: string, lines: seq<string>, nosysinc: bool)
    requires m.Valid()
    modifies m
    ensures m.Valid()
    ensures m.State() == Accumulated(old(m.State()), file, lines, nosysinc)
  {
    ghost var before := m.State();
    var incList := m.Lookup(file);
    ghost var order := m.order;
    ScanLines(m, file, lines, nosysinc);
    ghost var added := AcceptedTargets(lines, nosysinc);
    assert m.order == order;
    assert m.lists == before.lists[file := incList][file := incList + added];
    assert m.lists == before.lists[file := incList + added];
  }

  /** Appending the next extraction's kept targets to the entry extends it to the next prefix. */
  lemma AppendNextStep(start: map<string, seq<Target>>, file: string, found: seq<Option<Target>>, n: nat, nosysinc: bool)
    requires file in start && n < |found|
    ensures var cur := start[file := start[file] + KeptTargets(found[..n], nosysinc)];
            cur[file := cur[file] + Kept(found[n], nosysinc)]
            == start[file := start[file] + KeptTargets(found[..n + 1], nosysinc)]
  {
    assert found[..n + 1][..n] == found[..n];
    var before := KeptTargets(found[..n], nosysinc);
    var added := Kept(found[n], nosysinc);
    assert start[file] + before + added == start[file] + (before + added);
  }

  /**
   * One pass of the loop body of `process_file`: match the line, and append
   * the selected target to `include_map[file]` unless it is suppressed.
   */
  method ScanLine(m: IncludeMap, file: string, line: string, nosysinc: bool)
    requires m.Valid() && file in m.lists
    modifies m
    ensures m.Valid()
    ensures m.order == old(m.order)
    ensures m.lists == old(m.lists)[file := old(m.lists)[file] + Kept(Extract(line), nosysinc)]
  {
    var found := Extract(line);
    if found.Some? {
      var incFile := found.value;
      if !(nosysinc && IsLibcHeader(incFile)) {
        m.Append(file, incFile);
        return;
      }
    }
    assert old(m.lists)[file] + [] == old(m.lists)[file];
  }

  /** The loop of `process_file` over the lines of the file, appending each accepted target to `include_map[file]`. */
  method ScanLines(m: IncludeMap, file: string, lines: seq<string>, nosysinc: bool)
    requires m.Valid() && file in m.lists
    modifies m
    ensures m.Valid()
    ensures m.order == old(m.order)
    ensures m.lists == old(m.lists)[file := old(m.lists)[file] + AcceptedTargets(lines, nosysinc)]
  {
    ghost var start := old(m.lists);
    ghost var found := Extractions(lines);
    assert start[file] + KeptTargets(found[..0], nosysinc) == start[file];
    assert start[file := start[file]] == start;
    for n := 0 to |lines|
      invariant m.Valid() && file in m.lists
      invariant m.order == old(m.order)
      invariant m.lists == start[file := start[file] + KeptTargets(found[..n], nosysinc)]
    {
      ScanLine(m, file, lines[n], nosysinc);
      AppendNextStep(start, file, found, n, nosysinc);
    }
    assert found[..|lines|] == found;
  }

  /** The kept targets of two runs of extractions, one after the other. */
  lemma {:induction false} KeptTargetsAppend(a: seq<Option<Target>>, b: seq<Option<Target>>, nosysinc: bool)
    ensures KeptTargets(a + b, nosysinc) == KeptTargets(a, nosysinc) + KeptTargets(b, nosysinc)
    decreases |b|
  {
    if b == [] {
      assert a + b == a;
    } else {
      var b' := b[..|b| - 1];
      assert (a + b)[..|a + b| - 1] == a + b';
      KeptTargetsAppend(a, b', nosysinc);
    }
  }

  /** A target is kept exactly when some extraction found it and suppression does not drop it. */
  lemma {:induction false} KeptTargetsMember(found: seq<Option<Target>>, nosysinc: bool, t: Target)
    ensures t in KeptTargets(found, nosysinc)
            <==> Keeps(nosysinc, t) && exists i :: 0 <= i < |found| && found[i] == Some(t)
    decreases |found|
  {
    if found != [] {
      var init := found[..|found| - 1];
      KeptTargetsMember(init, nosysinc, t);
      if exists i :: 0 <= i < |init| && init[i] == Some(t) {
        var i :| 0 <= i < |init| && init[i] == Some(t);
        assert found[i] == Some(t);
      }
      if exists i :: 0 <= i < |found| && found[i] == Some(t) {
        var i :| 0 <= i < |found| && found[i] == Some(t);
        if i < |init| {
          assert init[i] == Some(t);
        }
      }
    }
  }

  /**
   * The lines of a file taken in two parts contribute the first part's
   * targets followed by the second part's: targets are appended in line order.
   */
  lemma AcceptedTargetsAppend(a: seq<string>, b: seq<string>, nosysinc: bool)
    ensures AcceptedTargets(a + b, nosysinc) == AcceptedTargets(a, nosysinc) + AcceptedTargets(b, nosysinc)
  {
    assert Extractions(a + b) == Extractions(a) + Extractions(b);
    KeptTargetsAppend(Extractions(a), Extractions(b), nosysinc);
  }

  /** A single line contributes its selected target, unless it does not match or is suppressed. */
  lemma AcceptedTargetsSingle(line: string, nosysinc: bool)
    ensures AcceptedTargets([line], nosysinc)
            == if Extract(line).Some? && Keeps(nosysinc, Extract(line).value) then [Extract(line).value] else []
  {
    assert Extractions([line])[..0] == [];
  }

  /** A target is appended exactly when some line selects it and suppression does not drop it. */
  lemma AcceptedTargetsMember(lines: seq<string>, nosysinc: bool, t: Target)
    ensures t in AcceptedTargets(lines, nosysinc)
            <==> Keeps(nosysinc, t) && exists i :: 0 <= i < |lines| && Extract(lines[i]) == Some(t)
  {
    var found := Extractions(lines);
    KeptTargetsMember(found, nosysinc, t);
    if exists i :: 0 <= i < |lines| && Extract(lines[i]) == Some(t) {
      var i :| 0 <= i < |lines| && Extract(lines[i]) == Some(t);
      assert found[i] == Some(t);
    }
  }

  /** With `--nosysinc`, no name of the libc list is ever appended. */
  lemma NoSysIncDropsLibcHeaders(lines: seq<string>, t: Target)
    requires t in AcceptedTargets(lines, true)
    ensures !IsLibcHeader(t)
  {
    AcceptedTargetsMember(lines, true, t);
  }

  /** Without `--nosysinc`, every selected target is appended, libc names included. */
  lemma WithoutNoSysIncKeepsAll(lines: seq<string>, i: nat)
    requires i < |lines| && Extract(lines[i]).Some?
    ensures Extract(lines[i]).value in AcceptedTargets(lines, false)
  {
    AcceptedTargetsMember(lines, false, Extract(lines[i]).value);
  }

  /**
   * The effect of `process_file` on the map: an excluded path changes nothing;
   * otherwise `file` has an entry afterwards, holding its previous list followed
   * by the accepted targets (a repeated base name extends its list), it is
   * added to the keys only if new, and every other key keeps its list.
   */
  lemma ProcessFileEffect(st: MapState, args: Args, search: (string, string) -> bool,
                          root: string, file: string, lines: seq<string>)
    requires WellFormed(st)
    ensures var r := ProcessFileSpec(st, args, search, root, file, lines);
            && WellFormed(r)
            && (Excluded(args.exclude, search, JoinPath(root, file)) ==> r == st)
            && (!Excluded(args.exclude, search, JoinPath(root, file)) ==>
                  && file in r.lists
                  && r.lists[file] == ListOf(st, file) + AcceptedTargets(lines, args.nosysinc)
                  && r.order == (if file in st.lists then st.order else st.order + [file]))
            && (forall k :: k != file ==> (k in r.lists <==> k in st.lists))
            && (forall k :: k != file && k in st.lists ==> r.lists[k] == st.lists[k])
  {
    var r := ProcessFileSpec(st, args, search, root, file, lines);
    if !Excluded(args.exclude, search, JoinPath(root, file)) && file !in st.lists {
      assert file !in st.order;
      assert forall i :: 0 <= i < |st.order| ==> st.order[i] in st.lists;
    }
  }
  /** Distinct keys: as many members as entries. */
  lemma {:induction false} DistinctCardinality(keys: seq<string>)
    requires Distinct(keys)
    ensures |set i | 0 <= i < |keys| :: keys[i]| == |keys|
    decreases |keys|
  {
    if keys != [] {
      var init := keys[..|keys| - 1];
      DistinctCardinality(init);
      var s := set i | 0 <= i < |keys| :: keys[i];
      var t := set i | 0 <= i < |init| :: init[i];
      assert s == t + {keys[|keys| - 1]};
      assert keys[|keys| - 1] !in t;
    }
  }

  /** In a well-formed map the keys listed in order are exactly the keys of the map. */
  lemma KeysInOrder(st: MapState)
    requires WellFormed(st)
    ensures forall k :: k in st.lists <==> k in st.order
  {
    var s := set i | 0 <= i < |st.order| :: st.order[i];
    DistinctCardinality(st.order);
    assert s <= st.lists.Keys;
    assert |st.lists.Keys - s| == |st.lists.Keys| - |s| == 0;
    assert st.lists.Keys == s;
    forall k | k in st.order
      ensures k in s
    {
      var i :| 0 <= i < |st.order| && st.order[i] == k;
    }
  }
}
