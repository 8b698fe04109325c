/**
 * The scan that feeds `process_file`: the extension test applied to each
 * file the directory walk yields, and `include_graph`, which runs the scan
 * and then assembles the graph. The walk itself is not modelled: its output,
 * the files in the order it yields them, is a parameter.
 */
module Scanner {
  import opened Wrappers
  import opened IncludeLine
  import opened SysHeaders
  import opened IncludeMapping
  import opened GraphBuild

  /** A file the walk yields: its directory, its base name and its text split into lines. */
  datatype SourceFile = SourceFile(root: string, name: string, lines: seq<string>)

  /** Where the part after the last dot among the first `i` characters begins: just past that dot, or 0. */
  function ExtStart(file: string, i: nat): (start: nat)
    requires i <= |file|
    ensures start <= i
    decreases i
  {
    if i == 0 then 0
    else if file[i - 1] == '.' then i
    else ExtStart(file, i - 1)
  }

  /**
   * `file.split('.')[-1]`: the part after the last dot, or the whole
   * name when it has no dot.
   */
  function Extension(file: string): string {
    file[ExtStart(file, |file|)..]
  }

  /** The characters from `ExtStart(file, i)` up to `i` are not dots, and a dot precedes them unless they start the name. */
  lemma {:induction false} ExtStartShape(file: string, i: nat)
    requires i <= |file|
    ensures forall k :: ExtStart(file, i) <= k < i ==> file[k] != '.'
    ensures ExtStart(file, i) > 0 ==> file[ExtStart(file, i) - 1] == '.'
    decreases i
  {
    if i > 0 && file[i - 1] != '.' {
      ExtStartShape(file, i - 1);
    }
  }

  /**
   * The extension is a dot-free suffix of the name, and it is either the
   * whole name or preceded by a dot.
   */
  lemma ExtensionShape(file: string)
    ensures var ext := Extension(file);
            && '.' !in ext
            && |ext| <= |file| && file[|file| - |ext|..] == ext
            && (|ext| < |file| ==> file[|file| - |ext| - 1] == '.')
  {
    ExtStartShape(file, |file|);
    var ext := Extension(file);
    forall k | 0 <= k < |ext|
      ensures ext[k] != '.'
    {
      assert ext[k] == file[ExtStart(file, |file|) + k];
    }
  }

  /** The test that sends a file to `process_file`. */
  predicate HasListedExtension(file: string, extension: seq<string>) {
    Extension(file) in extension
  }

  /** A file whose extension is listed and whose path no exclude pattern matches. */
  ghost predicate Processed(args: Args, search: (string, string) -> bool, f: SourceFile) {
    HasListedExtension(f.name, args.extension) && !Excluded(args.exclude, search, JoinPath(f.root, f.name))
  }

  /** The map after the scan has handled one more file. */
  ghost function ScanStep(st: MapState, args: Args, search: (string, string) -> bool, f: SourceFile): MapState {
    if HasListedExtension(f.name, args.extension) then ProcessFileSpec(st, args, search, f.root, f.name, f.lines)
    else st
  }

  /** The map after the scan has handled `files` in order. */
  ghost function ScanSpec(st: MapState, args: Args, search: (string, string) -> bool, files: seq<SourceFile>): MapState
    decreases |files|
  {
    if files == [] then st
    else ScanStep(ScanSpec(st, args, search, files[..|files| - 1]), args, search, files[|files| - 1])
  }

  /** The files `process_file` reads, in walk order: listed extension, path not excluded. */
  ghost function ProcessedFiles(args: Args, search: (string, string) -> bool, files: seq<SourceFile>): seq<SourceFile>
    decreases |files|
  {
    if files == [] then []
    else
      var f := files[|files| - 1];
      ProcessedFiles(args, search, files[..|files| - 1]) + (if Processed(args, search, f) then [f] else [])
  }

  /** Some file of `read` has base name `name`. */
  predicate Named(read: seq<SourceFile>, name: string) {
    exists i :: 0 <= i < |read| && read[i].name == name
  }

  /** The accepted targets of the files of `read` named `name`, file after file. */
  function NamedTargets(read: seq<SourceFile>, name: string, nosysinc: bool): seq<Target>
    decreases |read|
  {
    if read == [] then []
    else
      var f := read[|read| - 1];
      NamedTargets(read[..|read| - 1], name, nosysinc) + (if f.name == name then AcceptedTargets(f.lines, nosysinc) else [])
  }

  /** Handling one more file of the walk. */
  lemma ScanSpecStep(st: MapState, args: Args, search: (string, string) -> bool, files: seq<SourceFile>, n: nat)
    requires n < |files|
    ensures ScanSpec(st, args, search, files[..n + 1]) == ScanStep(ScanSpec(st, args, search, files[..n]), args, search, files[n])
  {
    assert files[..n + 1][..n] == files[..n];
  }

  /** The loop body of `walk_dir` over the files of the walk: extension test, then `process_file`. */
  method Scan(m: IncludeMap, args: Args, search: (string, string) -> bool, files: seq<SourceFile>)
    requires m.Valid()
    modifies m
    ensures m.Valid()
    ensures m.State() == ScanSpec(old(m.State()), args, search, files)
  {
    ghost var start := m.State();
    for n := 0 to |files|
      invariant m.Valid()
      invariant m.State() == ScanSpec(start, args, search, files[..n])
    {
      var f := files[n];
      var ext := Extension(f.name);
      if ext in args.extension {
        ProcessFile(m, args, search, f.root, f.name, f.lines);
      }
      ScanSpecStep(start, args, search, files, n);
    }
    assert files[..|files|] == files;
  }

  /** `include_graph`: scan the files, then build the graph from the map. */
  method IncludeGraph(m: IncludeMap, args: Args, search: (string, string) -> bool, files: seq<SourceFile>)
    returns (g: Graph)
    requires m.Valid()
    modifies m
    ensures m.Valid()
    ensures m.State() == ScanSpec(old(m.State()), args, search, files)
    ensures g == GraphOf(m.State())
  {
    Scan(m, args, search, files);
    g := BuildGraph(m);
  }

  /** One file keeps the map well formed and adds at most its own name to the keys. */
  lemma StepWellFormed(st: MapState, args: Args, search: (string, string) -> bool, f: SourceFile)
    requires WellFormed(st)
    ensures var r := ScanStep(st, args, search, f);
            WellFormed(r) && (r.order == st.order || r.order == st.order + [f.name])
  {
    ProcessFileEffect(st, args, search, f.root, f.name, f.lines);
  }

  /** One file extends the list of its own name, when processed, and no other. */
  lemma StepLists(st: MapState, args: Args, search: (string, string) -> bool, f: SourceFile, name: string)
    requires WellFormed(st)
    ensures var r := ScanStep(st, args, search, f);
            && (name in r.lists <==> name in st.lists || (Processed(args, search, f) && f.name == name))
            && ListOf(r, name) == ListOf(st, name) + (if Processed(args, search, f) && f.name == name then AcceptedTargets(f.lines, args.nosysinc) else [])
  {
    var r := ScanStep(st, args, search, f);
    if !Processed(args, search, f) {
      assert r == st;
      assert ListOf(st, name) + [] == ListOf(st, name);
    } else {
      ProcessFileEffect(st, args, search, f.root, f.name, f.lines);
      if f.name != name {
        assert ListOf(st, name) + [] == ListOf(st, name);
      }
    }
  }

  /** The scan keeps the map well formed and the keys it had first, in their order. */
  lemma {:induction false} ScanWellFormed(st: MapState, args: Args, search: (string, string) -> bool,
                                          files: seq<SourceFile>)
    requires WellFormed(st)
    ensures var r := ScanSpec(st, args, search, files);
            WellFormed(r) && |st.order| <= |r.order| && r.order[..|st.order|] == st.order
    decreases |files|
  {
    if files != [] {
      var init := files[..|files| - 1];
      ScanWellFormed(st, args, search, init);
      var prev := ScanSpec(st, args, search, init);
      StepWellFormed(prev, args, search, files[|files| - 1]);
      var r := ScanSpec(st, args, search, files);
      assert r.order[..|prev.order|] == prev.order;
      assert r.order[..|st.order|] == prev.order[..|st.order|];
    }
  }

  /**
   * After the scan a name has an entry exactly when it had one before or
   * some file of that name was read, and its list is the previous one
   * followed by the targets of the files of that name read, in walk order.
   */
  lemma {:induction false} ScanLists(st: MapState, args: Args, search: (string, string) -> bool,
                                     files: seq<SourceFile>, name: string)
    requires WellFormed(st)
    ensures var r := ScanSpec(st, args, search, files);
            var read := ProcessedFiles(args, search, files);
            && (name in r.lists <==> name in st.lists || Named(read, name))
            && ListOf(r, name) == ListOf(st, name) + NamedTargets(read, name, args.nosysinc)
    decreases |files|
  {
    if files != [] {
      var init := files[..|files| - 1];
      var f := files[|files| - 1];
      ScanLists(st, args, search, init, name);
      ScanWellFormed(st, args, search, init);
      var prev := ScanSpec(st, args, search, init);
      StepLists(prev, args, search, f, name);
      ReadStep(st, prev, ScanSpec(st, args, search, files),
               ProcessedFiles(args, search, init), Processed(args, search, f), f, name, args.nosysinc);
    }
  }

  /** The induction step of `ScanLists`: the states before the scan, before the last file and after it. */
  lemma ReadStep(start: MapState, prev: MapState, next: MapState,
                 before: seq<SourceFile>, read: bool, f: SourceFile, name: string, nosysinc: bool)
    requires name in prev.lists <==> name in start.lists || Named(before, name)
    requires ListOf(prev, name) == ListOf(start, name) + NamedTargets(before, name, nosysinc)
    requires name in next.lists <==> name in prev.lists || (read && f.name == name)
    requires ListOf(next, name)
             == ListOf(prev, name) + (if read && f.name == name then AcceptedTargets(f.lines, nosysinc) else [])
    ensures var after := before + (if read then [f] else []);
            && (name in next.lists <==> name in start.lists || Named(after, name))
            && ListOf(next, name) == ListOf(start, name) + NamedTargets(after, name, nosysinc)
  {
    var base := ListOf(start, name);
    var mid := NamedTargets(before, name, nosysinc);
    var after := before + (if read then [f] else []);
    if read {
      NamedAppend(before, f, name, nosysinc);
      var added := if f.name == name then AcceptedTargets(f.lines, nosysinc) else [];
      assert NamedTargets(after, name, nosysinc) == mid + added;
      AppendAssociates(base, mid, added);
    } else {
      assert after == before;
    }
  }

  /** Concatenation regroups; stated generically so that no target list is unfolded. */
  lemma AppendAssociates<T>(a: seq<T>, b: seq<T>, c: seq<T>)
    ensures (a + b) + c == a + (b + c)
  {
  }

  /** Reading one more file: its name is added to the names read, its targets to those of its name. */
  lemma NamedAppend(read: seq<SourceFile>, f: SourceFile, name: string, nosysinc: bool)
    ensures Named(read + [f], name) <==> Named(read, name) || f.name == name
    ensures NamedTargets(read + [f], name, nosysinc)
            == NamedTargets(read, name, nosysinc) + (if f.name == name then AcceptedTargets(f.lines, nosysinc) else [])
  {
    var more := read + [f];
    assert more[..|more| - 1] == read;
    assert more[|more| - 1] == f;
    if Named(more, name) && f.name != name {
      var i :| 0 <= i < |more| && more[i].name == name;
      assert read[i] == more[i];
    }
    if Named(read, name) {
      var i :| 0 <= i < |read| && read[i].name == name;
      assert read[i] == more[i];
    }
    if f.name == name {
      assert more[|read|].name == name;
    }
  }

  /** A file is read exactly when it is one of the walk's files and it is processed. */
  lemma {:induction false} ProcessedFilesMember(args: Args, search: (string, string) -> bool,
                                                files: seq<SourceFile>, f: SourceFile)
    ensures f in ProcessedFiles(args, search, files) <==> f in files && Processed(args, search, f)
    decreases |files|
  {
    if files != [] {
      var init := files[..|files| - 1];
      ProcessedFilesMember(args, search, init, f);
      assert files == init + [files[|files| - 1]];
    }
  }

  /** A target listed under `name` comes from some file of that name in `read`. */
  lemma {:induction false} NamedTargetsSource(read: seq<SourceFile>, name: string, nosysinc: bool, t: Target)
    requires t in NamedTargets(read, name, nosysinc)
    ensures exists i :: 0 <= i < |read| && read[i].name == name && t in AcceptedTargets(read[i].lines, nosysinc)
    decreases |read|
  {
    var init := read[..|read| - 1];
    if t in NamedTargets(init, name, nosysinc) {
      NamedTargetsSource(init, name, nosysinc, t);
      var i :| 0 <= i < |init| && init[i].name == name && t in AcceptedTargets(init[i].lines, nosysinc);
      assert init[i] == read[i];
    } else {
      assert read[|read| - 1].name == name && t in AcceptedTargets(read[|read| - 1].lines, nosysinc);
    }
  }

  /** Every accepted target of a file named `name` in `read` is listed under `name`. */
  lemma {:induction false} NamedTargetsComplete(read: seq<SourceFile>, name: string, nosysinc: bool, t: Target, i: nat)
    requires i < |read| && read[i].name == name && t in AcceptedTargets(read[i].lines, nosysinc)
    ensures t in NamedTargets(read, name, nosysinc)
    decreases |read|
  {
    var init := read[..|read| - 1];
    if i < |init| {
      assert init[i] == read[i];
      NamedTargetsComplete(init, name, nosysinc, t, i);
    }
  }

  /** A target is listed under `name` exactly when some file of that name in `read` yields it. */
  lemma NamedTargetsMember(read: seq<SourceFile>, name: string, nosysinc: bool, t: Target)
    ensures t in NamedTargets(read, name, nosysinc) <==>
              exists i :: 0 <= i < |read| && read[i].name == name && t in AcceptedTargets(read[i].lines, nosysinc)
  {
    if t in NamedTargets(read, name, nosysinc) {
      NamedTargetsSource(read, name, nosysinc, t);
    }
    forall i | 0 <= i < |read| && read[i].name == name && t in AcceptedTargets(read[i].lines, nosysinc)
      ensures t in NamedTargets(read, name, nosysinc)
    {
      NamedTargetsComplete(read, name, nosysinc, t, i);
    }
  }

  /**
   * The graph of a scan from an empty map: its nodes are the base names of
   * the files read, and `(k, t)` is an edge exactly when a file read under
   * the name `k` has an accepted include of `t`.
   */
  lemma GraphOfScan(args: Args, search: (string, string) -> bool, files: seq<SourceFile>, e: Edge)
    ensures WellFormed(ScanSpec(EmptyState, args, search, files))
    ensures var g := GraphOf(ScanSpec(EmptyState, args, search, files));
            var read := ProcessedFiles(args, search, files);
            && (e.from in g.nodes <==> Named(read, e.from))
            && (e in g.edges <==>
                  exists i :: 0 <= i < |read| && read[i].name == e.from && e.to in AcceptedTargets(read[i].lines, args.nosysinc))
  {
    var r := ScanSpec(EmptyState, args, search, files);
    ScanWellFormed(EmptyState, args, search, files);
    ScanLists(EmptyState, args, search, files, e.from);
    GraphOfShape(r, e);
    NamedTargetsMember(ProcessedFiles(args, search, files), e.from, args.nosysinc, e.to);
  }

  /** With `--nosysinc`, no edge of the graph points at a C standard library header. */
  lemma NoSysIncNoLibcEdges(args: Args, search: (string, string) -> bool, files: seq<SourceFile>, e: Edge)
    requires args.nosysinc
    requires WellFormed(ScanSpec(EmptyState, args, search, files))
    requires e in GraphOf(ScanSpec(EmptyState, args, search, files)).edges
    ensures !IsLibcHeader(e.to)
  {
    GraphOfScan(args, search, files, e);
    var read := ProcessedFiles(args, search, files);
    var i :| 0 <= i < |read| && read[i].name == e.from && e.to in AcceptedTargets(read[i].lines, args.nosysinc);
    NoSysIncDropsLibcHeaders(read[i].lines, e.to);
  }

  /** A name with no dot is its own extension; otherwise the extension is what follows the last dot. */
  lemma ExtensionAfterLastDot(base: string, ext: string)
    requires '.' !in ext
    ensures Extension(ext) == ext
    ensures Extension(base + "." + ext) == ext
  {
    var file := base + "." + ext;
    NoDotRun(ext, 0, |ext|);
    forall k | |base| + 1 <= k < |file|
      ensures file[k] != '.'
    {
      assert file[k] == ext[k - |base| - 1];
    }
    NoDotRun(file, |base| + 1, |file|);
  }

  /**
   * With no dot in `file[lo..i]` and either a dot just before `lo` or `lo`
   * at the start, the extension of the first `i` characters starts at `lo`.
   */
  lemma {:induction false} NoDotRun(file: string, lo: nat, i: nat)
    requires lo <= i <= |file| && (lo == 0 || file[lo - 1] == '.')
    requires forall k :: lo <= k < i ==> file[k] != '.'
    ensures ExtStart(file, i) == lo
    decreases i
  {
    if i > lo {
      NoDotRun(file, lo, i - 1);
    }
  }

  /** The include lines of the two-file example: `#include "b"` and `#include <sys>`, one space, line terminator kept. */
  function QuotedLine(name: string): string {
    DirectiveLine(" ", false, name, "\n")
  }

  function AngledLine(name: string): string {
    DirectiveLine(" ", true, name, "\n")
  }

  /** A quoted include of a non-library header is always kept. */
  lemma QuotedLineAccepted(b: string, nosysinc: bool)
    requires b != "" && '\n' !in b && !IsLibcHeader(Some(b))
    ensures AcceptedTargets([QuotedLine(b)], nosysinc) == [Some(b)]
  {
    DirectiveLineTarget(" ", false, b, "\n");
    AcceptedTargetsSingle(QuotedLine(b), nosysinc);
  }

  /** An angled include of a C library header is kept only without `--nosysinc`. */
  lemma AngledLineAccepted(sys: string, nosysinc: bool)
    requires '\n' !in sys && IsLibcHeader(Some(sys))
    ensures AcceptedTargets([AngledLine(sys)], nosysinc) == if nosysinc then [] else [Some(sys)]
  {
    DirectiveLineTarget(" ", true, sys, "\n");
    AcceptedTargetsSingle(AngledLine(sys), nosysinc);
  }

  /** What a file with a quoted include of `b` and an angled include of `sys` yields. */
  lemma TwoIncludesTargets(b: string, sys: string, nosysinc: bool)
    requires b != "" && '\n' !in b && '\n' !in sys
    requires IsLibcHeader(Some(sys)) && !IsLibcHeader(Some(b))
    ensures AcceptedTargets([QuotedLine(b), AngledLine(sys)], nosysinc)
            == [Some(b)] + (if nosysinc then [] else [Some(sys)])
  {
    QuotedLineAccepted(b, nosysinc);
    AngledLineAccepted(sys, nosysinc);
    AcceptedTargetsAppend([QuotedLine(b)], [AngledLine(sys)], nosysinc);
    assert [QuotedLine(b)] + [AngledLine(sys)] == [QuotedLine(b), AngledLine(sys)];
  }

  /**
   * Two files with listed extensions and nothing excluded: `a`, whose lines
   * yield the targets `ta`, then `b`, which has no lines. Both are nodes, in
   * that order, and the edges are those from `a` to each target of `ta`.
   */
  lemma TwoFileGraph(search: (string, string) -> bool, extension: seq<string>, nosysinc: bool,
                     root: string, a: string, b: string, linesA: seq<string>, ta: seq<Target>)
    requires HasListedExtension(a, extension) && HasListedExtension(b, extension) && a != b
    requires AcceptedTargets(linesA, nosysinc) == ta
    ensures var files := [SourceFile(root, a, linesA), SourceFile(root, b, [])];
            var st := ScanSpec(EmptyState, Args(extension, [], nosysinc), search, files);
            && WellFormed(st)
            && GraphOf(st) == Graph([a, b], EdgesFrom(a, ta))
  {
    TwoFileState(search, Args(extension, [], nosysinc), SourceFile(root, a, linesA), SourceFile(root, b, []), ta);
    TwoFileEdges(a, b, ta);
  }

  /** The map after the two files of `TwoFileGraph`. */
  lemma TwoFileState(search: (string, string) -> bool, args: Args, fa: SourceFile, fb: SourceFile, ta: seq<Target>)
    requires HasListedExtension(fa.name, args.extension) && HasListedExtension(fb.name, args.extension)
    requires fa.name != fb.name && args.exclude == [] && fb.lines == []
    requires AcceptedTargets(fa.lines, args.nosysinc) == ta
    ensures ScanSpec(EmptyState, args, search, [fa, fb]) == MapState([fa.name, fb.name], map[fa.name := ta, fb.name := []])
  {
    var st1 := FirstFileStep(search, args, fa, ta);
    EmptyFileStep(st1, args, search, fb);
    assert st1.order + [fb.name] == [fa.name, fb.name];
    ScanPair(EmptyState, args, search, fa, fb);
  }

  /** Scanning two files is handling one, then the other. */
  lemma ScanPair(st: MapState, args: Args, search: (string, string) -> bool, fa: SourceFile, fb: SourceFile)
    ensures ScanSpec(st, args, search, [fa, fb]) == ScanStep(ScanStep(st, args, search, fa), args, search, fb)
  {
    assert [fa, fb][..1] == [fa];
    assert [fa][..0] == [];
    assert ScanSpec(st, args, search, [fa]) == ScanStep(ScanSpec(st, args, search, []), args, search, fa);
    assert ScanSpec(st, args, search, [fa, fb]) == ScanStep(ScanSpec(st, args, search, [fa]), args, search, fb);
  }

  /** The first file, listed and not excluded, adds its name and its targets `ta`. */
  lemma FirstFileStep(search: (string, string) -> bool, args: Args, fa: SourceFile, ta: seq<Target>)
    returns (st1: MapState)
    requires HasListedExtension(fa.name, args.extension) && args.exclude == []
    requires AcceptedTargets(fa.lines, args.nosysinc) == ta
    ensures st1 == MapState([fa.name], map[fa.name := ta])
    ensures ScanStep(EmptyState, args, search, fa) == st1
  {
    st1 := MapState([fa.name], map[fa.name := ta]);
    assert !Excluded(args.exclude, search, JoinPath(fa.root, fa.name));
    assert ListOf(EmptyState, fa.name) + ta == ta;
    assert EmptyState.order + [fa.name] == [fa.name];
  }

  /** A file with no lines, listed and not excluded, adds its name with an empty list. */
  lemma EmptyFileStep(st: MapState, args: Args, search: (string, string) -> bool, f: SourceFile)
    requires HasListedExtension(f.name, args.extension) && args.exclude == [] && f.lines == [] && f.name !in st.lists
    ensures ScanStep(st, args, search, f) == MapState(st.order + [f.name], st.lists[f.name := []])
  {
    assert AcceptedTargets([], args.nosysinc) == [];
    assert !Excluded(args.exclude, search, JoinPath(f.root, f.name));
  }

  /** The graph of a two-key map whose second list is empty. */
  lemma TwoFileEdges(a: string, b: string, ta: seq<Target>)
    requires a != b
    ensures WellFormed(MapState([a, b], map[a := ta, b := []]))
    ensures GraphOf(MapState([a, b], map[a := ta, b := []])) == Graph([a, b], EdgesFrom(a, ta))
  {
    var lists := map[a := ta, b := []];
    assert lists.Keys == {a, b};
    assert [a, b][..1] == [a];
    assert [a][..0] == [];
    assert EdgesOf([a], lists) == [] + EdgesFrom(a, ta);
    assert EdgesOf([a, b], lists) == EdgesOf([a], lists) + EdgesFrom(b, []);
    assert EdgesFrom(b, []) == [];
  }

  /** `a.c` and `b.h`, the files of the two-file example, have default extensions. */
  lemma ExampleExtensions()
    ensures HasListedExtension("a.c", ["h", "c"]) && HasListedExtension("b.h", ["h", "c"])
  {
    assert ExtStart("a.c", 3) == 2;
    assert ExtStart("b.h", 3) == 2;
  }

  /** `stdio.h` is on the C library list; `b.h` is not, being shorter than every name on it. */
  lemma ExampleHeaders()
    ensures IsLibcHeader(Some("stdio.h")) && !IsLibcHeader(Some("b.h"))
  {
    assert LibcHeaders[19] == "stdio.h";
    forall i | 0 <= i < |LibcHeaders|
      ensures |LibcHeaders[i]| >= 6
    {
    }
  }

  /** The lines of `a.c` in the two-file example: `b.h` always, `stdio.h` unless `--nosysinc` drops it. */
  lemma ExampleTargets(nosysinc: bool)
    ensures AcceptedTargets([QuotedLine("b.h"), AngledLine("stdio.h")], nosysinc)
            == [Some("b.h")] + (if nosysinc then [] else [Some("stdio.h")])
  {
    ExampleHeaders();
    TwoIncludesTargets("b.h", "stdio.h", nosysinc);
  }
  /** The edges from `a` to the example's targets. */
  lemma ExampleEdges(a: string, b: string, sys: string, nosysinc: bool)
    ensures EdgesFrom(a, [Some(b)] + (if nosysinc then [] else [Some(sys)]))
            == [Edge(a, Some(b))] + (if nosysinc then [] else [Edge(a, Some(sys))])
  {
    EdgesFromAppend(a, [Some(b)], if nosysinc then [] else [Some(sys)]);
  }

  /**
   * The two-file example, for any names: file `a` includes `"b"` and
   * `<sys>`, file `b` includes nothing, both have listed extensions and
   * nothing is excluded. Both files are nodes; the edges are `a -> b` and,
   * unless `--nosysinc` is given, `a -> sys`.
   */
  lemma TwoFileTreeExample(search: (string, string) -> bool, extension: seq<string>, nosysinc: bool,
                      root: string, a: string, b: string, sys: string)
    requires HasListedExtension(a, extension) && HasListedExtension(b, extension) && a != b
    requires b != "" && '\n' !in b && '\n' !in sys
    requires IsLibcHeader(Some(sys)) && !IsLibcHeader(Some(b))
    ensures var files := [SourceFile(root, a, [QuotedLine(b), AngledLine(sys)]), SourceFile(root, b, [])];
            var st := ScanSpec(EmptyState, Args(extension, [], nosysinc), search, files);
            && WellFormed(st)
            && GraphOf(st) == Graph([a, b], [Edge(a, Some(b))] + (if nosysinc then [] else [Edge(a, Some(sys))]))
  {
    var ta := [Some(b)] + (if nosysinc then [] else [Some(sys)]);
    TwoIncludesTargets(b, sys, nosysinc);
    TwoFileGraph(search, extension, nosysinc, root, a, b, [QuotedLine(b), AngledLine(sys)], ta);
    ExampleEdges(a, b, sys, nosysinc);
  }
}
