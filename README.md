# IncludeGraph core, modelled in Dafny

`include_graph.py` scans a source tree and reads every file whose extension
is listed and whose joined path no exclude pattern matches. From each line that is an `#include` directive it takes the
included name and records it under the file's base name in a process-wide
`include_map`, a `defaultdict(list)`. With `--nosysinc`, names on a fixed
list of 29 C standard-library headers are dropped. Last, `include_graph`
declares one graph node per key of the map and, for each key, one edge per
listed target, duplicates included.

The model has six modules:

- `Wrappers` holds the `Option` type.
- `IncludeLine` is the directive recogniser.
  - It models the pattern `#include\s+(?:"(.*)"|<(.*)>)`, applied with `match`, i.e. anchored at the start of the line.
  - It models the selection `group(1) or group(2)`.
  - `IsMatch` states every match the pattern admits. `MatchInclude` is the greedy match the engine picks.
  - `Extract` gives `None` for a line that does not match. Otherwise it gives `Some(t)`, where `t` is the selected group. That group is itself `None` (Python `None`) for `#include ""`.
- `SysHeaders` holds the `libc_headers` list and the suppression test.
- `IncludeMapping` holds `include_map` and `process_file`.
  - `include_map` is the class `IncludeMap`: the keys in insertion order, and the list under each key.
  - `process_file` runs on that class. It is specified by `ProcessFileSpec` on a `MapState` snapshot.
- `GraphBuild` holds the two loops of `include_graph` that declare nodes and edges (`BuildGraph`). They are specified by `GraphOf`.
- `Scanner` models the extension test `file.split('.')[-1] in args.extension` and the call to `process_file` for each file the walk yields (`Scan`). It also holds `include_graph` as a whole (`IncludeGraph`).

Some inputs become parameters:

- The files the directory walk yields, in walk order. Each file has its directory, its base name and its lines.
- Lines keep their line terminators, as Python's line iteration yields them.
- `re.search` is the parameter `search(pattern, path)`.

Two consequences of the code that a reader might not expect:

- An indented directive is not recognised: the pattern starts with `#include` and is applied with `match` (`IncludeLine.ExtractNeedsDirectiveShape`).
- Edges are not deduplicated: every target is appended and gets its own edge (`GraphBuild.GraphOfShape` counts each edge's multiplicity).

## Model

| member | source | states |
|---|---|---|
| IncludeLine.SpaceRunEnd | include_graph.py:9 | The greedy `\s+` run stops at the first non-whitespace character, and every character it spans is whitespace. |
| IncludeLine.DotRunEnd | include_graph.py:9 | `.*` spans characters up to the first newline and never a newline. |
| IncludeLine.LastIndexIn | include_graph.py:9 | The backtracking point of greedy `.*`: the last occurrence of the closing delimiter in a range, or none. |
| IncludeLine.MatchIncludeSound | include_graph.py:30 | The match the engine returns is one the pattern admits. |
| IncludeLine.MatchIncludeBest | include_graph.py:30 | If the pattern admits any match, the engine finds one with the same opening delimiter and a closing delimiter at least as far (greedy). |
| IncludeLine.ExtractDefined | include_graph.py:30-32 | A line yields something exactly when the pattern admits a match of it. |
| IncludeLine.ExtractNeedsDirectiveShape | include_graph.py:9 | Only a line that starts with `#include`, then one or more whitespace characters, then `"` or `<` yields a target. No leading text or indentation is allowed. |
| IncludeLine.ExtractGreedy | include_graph.py:30-32 | The target is the text between the opening delimiter and the furthest admissible closing delimiter. An empty quoted name yields `None`. |
| IncludeLine.DirectiveLineLayout | include_graph.py:9 | Where the keyword, whitespace, delimiters, name and trailing text sit in a directive line. |
| IncludeLine.DirectiveLineMatch | include_graph.py:9 | A directive line is matched up to the closing delimiter after its name, and to none later when the trailing text holds no further delimiter. |
| IncludeLine.DirectiveLineTarget | include_graph.py:30-32 | A directive line yields its name whatever trailing text follows, provided that text holds no further closing delimiter (`IncludeLine.ExtractGreedy` covers the general case). The exception is an empty quoted name, which yields `None`. |
| IncludeLine.QuoteAndAngleAgree | include_graph.py:32 | `#include "n"` and `#include <n>` yield the same non-empty name, whatever trailing text follows that holds neither `"` nor `>` (a line terminator, for instance). |
| IncludeLine.EmptyNameQuirk | include_graph.py:32 | `#include ""` yields `None` (from `"" or None`), while `#include <>` yields the empty string. |
| IncludeMapping.JoinPath | include_graph.py:23 | The joined path ends with the file name. |
| IncludeMapping.ExcludedMeans | include_graph.py:24-26 | A path is excluded exactly when some exclude pattern is found in it. |
| IncludeMapping.PrefixExcluded | include_graph.py:24-26 | A pattern that matches among the first n patterns excludes the path. |
| IncludeMapping.AnyExcludeMatches | include_graph.py:24-26 | The loop over the patterns returns true exactly when the path is excluded. |
| IncludeMapping.KeptTargets | include_graph.py:29-35 | At most one target is kept per line. |
| IncludeMapping.IncludeMap.constructor | include_graph.py:17 | The map starts empty. |
| IncludeMapping.IncludeMap.Lookup | include_graph.py:28 | `include_map[file]` returns the stored list, or creates an empty one and appends the key to the insertion order. Nothing else changes. |
| IncludeMapping.IncludeMap.Append | include_graph.py:35 | `inc_list.append(t)` extends that key's list by `t`. Nothing else changes. |
| IncludeMapping.ProcessFile | include_graph.py:21-35 | The new map is `ProcessFileSpec`: unchanged for an excluded path. Otherwise the entry for `file` exists and its list grows by the accepted targets in line order. |
| IncludeMapping.AccumulateFile | include_graph.py:28-35 | After the lookup and the line loop, the map is the old map with the file's entry extended by the accepted targets. |
| IncludeMapping.AppendNextStep | include_graph.py:29-35 | One more line extends the entry from the kept targets of a prefix to those of the next prefix. |
| IncludeMapping.ScanLine | include_graph.py:30-35 | One line appends its target unless it has none or suppression drops it. No other entry or key changes. |
| IncludeMapping.ScanLines | include_graph.py:29-35 | The loop over the lines appends exactly the accepted targets, in order. The keys do not change. |
| IncludeMapping.KeptTargetsAppend | include_graph.py:29-35 | The kept targets of two runs of lines are the concatenation of those of each run. |
| IncludeMapping.KeptTargetsMember | include_graph.py:31-35 | A target is kept exactly when some line found it and suppression does not drop it. |
| IncludeMapping.AcceptedTargetsAppend | include_graph.py:29-35 | The accepted targets distribute over concatenation of line sequences. |
| IncludeMapping.AcceptedTargetsSingle | include_graph.py:30-35 | One line contributes its target when it matches and is kept, otherwise nothing. |
| IncludeMapping.AcceptedTargetsMember | include_graph.py:29-35 | A target is accepted exactly when some line yields it and it is kept. |
| IncludeMapping.NoSysIncDropsLibcHeaders | include_graph.py:33-34 | With `--nosysinc`, no accepted target is a libc header. |
| IncludeMapping.WithoutNoSysIncKeepsAll | include_graph.py:31-35 | Without `--nosysinc`, every matched line's target is accepted, library headers included. |
| IncludeMapping.ProcessFileEffect | include_graph.py:21-35 | `process_file` keeps the map well formed. An excluded file leaves it unchanged. Otherwise the entry for `file` exists and is the old list plus the accepted targets. No other key is added, removed or changed. |
| IncludeMapping.KeysInOrder | include_graph.py:42-43 | In a well-formed map the keys are exactly the names in the insertion order. |
| GraphBuild.EdgesFromAppend | include_graph.py:45-46 | The edges of a concatenated list are the concatenation of the edges. |
| GraphBuild.BuildGraph | include_graph.py:41-46 | The node loop declares the keys in insertion order. The edge loop emits, key by key, one edge per listed target; the result is `GraphOf` of the map. |
| GraphBuild.EdgeCount | include_graph.py:44-46 | The number of edges equals the total number of listed targets. |
| GraphBuild.EdgesFromMultiplicity | include_graph.py:45-46 | An edge from a key occurs as often as its target occurs in that key's list. |
| GraphBuild.EdgeMultiplicity | include_graph.py:44-46 | Across all keys, an edge occurs exactly as often as its target occurs in its source's list (duplicates kept), and edges from non-keys never occur. |
| GraphBuild.GraphOfShape | include_graph.py:42-46 | The nodes are the keys in insertion order. The edge count is the total list length. Multiplicities match the lists. `(k, t)` is an edge exactly when `t` is listed under `k`. |
| Scanner.ExtStart | include_graph.py:54 | The start of the last dot-separated component lies within the examined prefix. |
| Scanner.ExtStartShape | include_graph.py:54 | That component holds no dot and is preceded by a dot unless it starts the name. |
| Scanner.ExtensionShape | include_graph.py:54 | `file.split('.')[-1]` is a dot-free suffix of the name: either the whole name or the part after a dot. |
| Scanner.ExtensionAfterLastDot | include_graph.py:54 | A dot-free name is its own extension, and `base.ext` has extension `ext`. |
| Scanner.NoDotRun | include_graph.py:54 | A dot-free run after a dot (or at the start) is where the extension begins. |
| Scanner.ScanSpecStep | include_graph.py:53-56 | Handling one more file of the walk is one `ScanStep`. |
| Scanner.Scan | include_graph.py:53-56 | Each file whose extension is listed goes through `process_file`, in walk order. The new map is `ScanSpec` of the old one. |
| Scanner.IncludeGraph | include_graph.py:38-46 | The scan runs, then the graph is built from the resulting map. |
| Scanner.StepWellFormed | include_graph.py:53-56 | One file keeps the map well formed and adds at most its own name to the keys, at the end. |
| Scanner.StepLists | include_graph.py:53-56 | One file extends only its own name's list, and only when it is processed. |
| Scanner.ScanWellFormed | include_graph.py:53-56 | The scan keeps the map well formed and keeps the existing keys, in order, as a prefix. |
| Scanner.ScanLists | include_graph.py:53-56 | After the scan a name has an entry exactly when it had one or a file of that name was read. Its list is the old list followed by the targets of the files of that name, in walk order. |
| Scanner.ReadStep | include_graph.py:53-56 | The induction step of `ScanLists`. |
| Scanner.NamedAppend | include_graph.py:53-56 | Reading one more file adds its name and appends its targets to those of its name. |
| Scanner.ProcessedFilesMember | include_graph.py:53-56 | A file is read exactly when the walk yields it, its extension is listed and no pattern excludes it. |
| Scanner.NamedTargetsSource | include_graph.py:53-56 | Every target listed under a name comes from a read file of that name. |
| Scanner.NamedTargetsComplete | include_graph.py:53-56 | Every accepted target of a read file is listed under the file's name. |
| Scanner.NamedTargetsMember | include_graph.py:53-56 | A target is listed under a name exactly when some read file of that name yields it. |
| Scanner.GraphOfScan | include_graph.py:38-46 | From an empty map, the nodes are exactly the base names of the files read. `(k, t)` is an edge exactly when a file read under name `k` has `t` among its accepted targets. |
| Scanner.NoSysIncNoLibcEdges | include_graph.py:33-34 | With `--nosysinc`, no edge points at a C library header. |
| Scanner.QuotedLineAccepted | include_graph.py:30-35 | `#include "b"` contributes `b` for a non-library name. |
| Scanner.AngledLineAccepted | include_graph.py:30-35 | `#include <sys>` for a library header contributes `sys` only without `--nosysinc`. |
| Scanner.TwoIncludesTargets | include_graph.py:29-35 | A file with those two lines yields `b`, then `sys` unless suppressed. |
| Scanner.TwoFileGraph | include_graph.py:38-56 | Two listed files, the second one empty: the nodes are both names in walk order, and the edges go from the first to each of its targets. |
| Scanner.TwoFileState | include_graph.py:53-56 | The map after those two files. |
| Scanner.ScanPair | include_graph.py:53-56 | Scanning two files is handling one, then the other. |
| Scanner.FirstFileStep | include_graph.py:21-35 | The first listed, non-excluded file adds its name and its targets. |
| Scanner.EmptyFileStep | include_graph.py:28 | A file with no lines still gets an (empty) entry, and therefore a node. |
| Scanner.TwoFileEdges | include_graph.py:42-46 | The graph of a two-key map whose second list is empty. |
| Scanner.ExampleExtensions | include_graph.py:54-55 | `a.c` and `b.h` pass the default extension test `['h', 'c']`. |
| Scanner.ExampleHeaders | include_graph.py:10-13 | `stdio.h` is a libc header and `b.h` is not. |
| Scanner.ExampleTargets | include_graph.py:29-35 | The lines `#include "b.h"` and `#include <stdio.h>` yield `b.h`, then `stdio.h` unless `--nosysinc` is given. |
| Scanner.ExampleEdges | include_graph.py:45-46 | The edges from `a` to those targets. |
| Scanner.TwoFileTreeExample | include_graph.py:38-56 | For `a` including `"b"` and `<sys>` and an empty `b`: nodes `[a, b]`; edges `a -> b`, plus `a -> sys` unless `--nosysinc` is given. |

## Left out

- The directory traversal of `walk_dir` (`os.walk`) is left out; its output, the files in walk order, is a parameter of `Scan`. This includes the recursive call on line 58, which re-walks a bare subdirectory name relative to the working directory rather than to its parent. Which files it finds depends on the file system.
- Opening and reading files and the `iso8859-1` decoding are left out. A file's contents are given as its lines.
- `re.search` on the exclude patterns is not modelled. It is the parameter `search`; only the loop around it is modelled.
- Graphviz rendering (`graph.render`) is left out. A `None` target, which `#include ""` produces, would be handed to `graph.edge` as is; what the renderer does with it is not modelled.
- argparse, logging and `main` are left out. When no `--exclude` is given, `args.exclude` is `None` and the loop on line 24 raises; the model takes the patterns as a possibly empty sequence and does not model that crash.
- `IncludeMapping.JoinPath` models `os.path.join` with POSIX separators only.
- `Scanner.TwoFileTreeExample` states the two-file example for arbitrary names satisfying the stated conditions rather than for the literal names `a.c`, `b.h` and `stdio.h`. `Scanner.ExampleExtensions`, `Scanner.ExampleHeaders` and `Scanner.ExampleTargets` show that those literal names satisfy the conditions.
