# Commit dependency graph to Mermaid — a Dafny model

The program asks `git log --pretty=format:%H %ct %an %s` for a repository's history and
`git diff` for each commit's changed files. It builds an insertion-ordered dictionary from
commit hash to a record: changed files, author, formatted time and message. It then
serialises that dictionary as a Mermaid flowchart. This project models the pure parts of `main.py` and proves properties of them:

- **Log-line split** (`LogLine`). Each `git log` line is split with Python's
  `str.split(' ', 3)` and unpacked into four names. `Strings.SplitN` models the split, with
  leftmost-separator semantics and at most `maxsplit` cuts. Unpacking fewer than four pieces
  raises `ValueError`; here that is `None`. Only the subject may contain spaces. A multi-word
  author name therefore spills its later words into the message, as the code does
  (`AuthorSpill`).
- **Ordered dictionary** (`Dependencies`). A Python dict is a sequence of `Entry(hash, record)`.
  Assignment `dependencies[h] = {...}` is `Upsert`: a present hash keeps its first-insertion
  position and gets the new record; a new hash is appended. `Upsert` is proved to be map
  update, and the whole loop to be repeated map assignment.
- **Mermaid serialiser** (`MermaidGraph`). `RenderGraph` is the fold the Python loop performs.
  It starts from the header `graph TD\n` and appends, per commit, a six-line node block keyed
  by the first 7 characters of the hash. For every commit but the first it then appends an
  edge `    <prev[:7]> --> <cur[:7]>\n`. The edges form a chain in dictionary order; they do
  not follow real parent links. A structured view (`Stmt`, `Statements`) lists node
  declarations and edges. `GraphIsRendering` proves the text is that list rendered in order.
  The exact text of each statement is the definition of `Emit`, with `NodeLabel` and
  `CommitInfo` following the two f-strings of the loop. The files label is `" & ".join(files)`,
  or `"No changes"` for an empty list.

External effects are parameters. `filesOf` stands for the lines printed by
`git diff --name-only <hash>^!`. `formatTime` stands for
`datetime.fromtimestamp(int(t)).strftime(...)`, and returns `None` where that raises. The
`git log` output is the input list of lines.

## Model

| member | source | states |
|---|---|---|
| Strings.Take | main.py:48 | `commit[:7]`: the result is a prefix of the hash, of length min(7, length of hash) |
| Strings.Find | main.py:23 | the separator search of `split`: a found index is an occurrence with no occurrence before it; `None` means no occurrence at all |
| Strings.Join | main.py:49 | `sep.join(parts)`: empty for no pieces; otherwise as long as the pieces plus one separator per gap, and opening with the first piece; `JoinLayout` places every piece, and `SplitJoin` proves splitting inverts it for pieces that end at their first separator |
| Strings.JoinLayout | main.py:49 | in `sep.join(parts)`, piece i sits at the summed length of the pieces before it plus i separator lengths, and `sep` fills the gap after every piece but the last |
| Strings.SplitN | main.py:23 | `split(sep, maxsplit)` yields between 1 and maxsplit+1 pieces; joining them with `sep` gives back the input; every piece but the last ends at its first separator; with fewer than maxsplit+1 pieces the last holds no separator |
| Strings.SplitJoin | main.py:23 | split inverts join: pieces that end at their first separator come back unchanged from splitting their join one time fewer than there are pieces |
| Strings.SplitCountChar | main.py:23 | splitting on one character yields min(number of occurrences, maxsplit) + 1 pieces |
| LogLine.ParseLogLine | main.py:23 | the four-way unpack succeeds iff the line has at least three spaces; hash, time text and author hold no space; the four fields joined by single spaces equal the line |
| LogLine.FormatThenParse | main.py:14-23 | a line formatted as `%H %ct %an %s` from fields whose first three hold no space parses back to exactly those fields |
| LogLine.AuthorSpill | main.py:23 | with a multi-word author, the author field keeps only the first word and the remaining words are prefixed to the message |
| Dependencies.ParseEntry | main.py:22-37 | one loop iteration: fails iff the line has fewer than three spaces or its time field does not convert; otherwise the entry's hash and author hold no space, its files are the commit's `git diff` files, and hash, some space-free time text converting to the entry's time, author and message, joined by single spaces, give back the line |
| Dependencies.ParseFormattedLine | main.py:14-37 | a line in the `%H %ct %an %s` format with space-free hash, time text and author yields the entry with exactly those fields, the converted time and the commit's files |
| Dependencies.Lookup | main.py:47 | `dependencies[commit]`: absent iff the hash is not a key; when present, the dictionary holds that hash with the returned record |
| Dependencies.LookupAt | main.py:47 | in a dictionary (keys unique), reading the hash at position i gives the record at position i |
| Dependencies.IndexOf | main.py:32-37 | the position a present hash occupies: absent iff the hash is not a key; otherwise the first position holding that hash |
| Dependencies.Upsert | main.py:32-37 | assignment leaves the length unchanged for a present hash and appends exactly one entry `(hash, record)` for a new one; every position keeps its hash; entries with other hashes are unchanged |
| Dependencies.UpsertKeys | main.py:32-37 | assignment keeps the key order, a new hash going at the end, and keeps keys unique |
| Dependencies.UpsertInPlace | main.py:32-37 | assigning a hash already present puts the new record at that hash's existing position |
| Dependencies.UpsertLookup | main.py:32-37 | after assignment, reading the assigned hash gives the new record and reading any other hash gives what it gave before |
| Dependencies.UpsertIsMapUpdate | main.py:32-37 | as a map, the ordered dictionary after assignment is the map before it updated at that hash |
| Dependencies.Assemble | main.py:20-37 | assigning a sequence of entries into an empty dict gives unique keys, in order of first appearance |
| Dependencies.AssembleIsAssignAll | main.py:20-37 | the ordered dictionary holds exactly the key/value pairs of assigning every entry into a map in turn |
| Dependencies.LastWriteWins | main.py:32-37 | a hash that appears more than once ends up with the record of its last line |
| Dependencies.TryAll | main.py:22-23 | the loop over lines fails iff some line fails; otherwise it yields one result per line, in order |
| Dependencies.GetCommitDependencies | main.py:20-39 | `None` iff some line fails to unpack or convert its time; otherwise the dictionary built by assigning every line's entry in order, with unique keys in first-appearance order |
| MermaidGraph.FilesLabel | main.py:49 | "No changes" for an empty file list; otherwise a label as long as the names plus three characters per gap, opening with the first name |
| MermaidGraph.FilesLabelRule | main.py:49 | an empty file list gives the label "No changes"; a non-empty list gives a label that splitting on `" & "` turns back into the list whenever every name but the last ends at its first `" & "`, in particular when no name holds `&` |
| MermaidGraph.GenerateMermaidGraph | main.py:42-58 | for a dictionary (keys unique), the loop with its lookups and string concatenation computes the serialised graph |
| MermaidGraph.GraphIsRendering | main.py:42-58 | the text is the header followed by the node and edge statements, rendered in order |
| MermaidGraph.StatementLayout | main.py:46-56 | there are 2n-1 statements for n > 0 commits and none for 0; commit i's node sits at position 2i-1 (0 for i = 0); the edge from commit i-1 to commit i sits right after it, at 2i; edges occupy exactly the even positions after 0 |
| MermaidGraph.StatementCounts | main.py:46-56 | n commits give exactly n node declarations and max(n-1, 0) edges |
| MermaidGraph.GraphStartsWithHeader | main.py:43-58 | the text opens with `graph TD\n`, and is exactly that iff the dictionary is empty |
| MermaidGraph.ShortKeysAppear | main.py:48-52 | every commit's short key occurs in the text |
| MermaidGraph.ThreeCommitScenario | testsing.py:12-18 | three commits with hashes 092270d…, 406d18d…, 01f14b4… give a text that opens with the header and contains the three short keys |

## Left out

- Running `git log` and `git diff` (main.py:13-18, 26-30) is external process I/O. The log lines are an input, and each commit's changed files come from the parameter `filesOf`. Splitting process output with `splitlines()` is left to the caller.
- Time formatting with `datetime.fromtimestamp(...).strftime(...)` (main.py:24) depends on the local time zone and the library. It is the parameter `formatTime`, whose result is an opaque string, or `None` where `int()` or the conversion raises.
- Date validation with `datetime.strptime` (main.py:11) is library parsing, and its result is never used. The `--since` filter is applied by `git`, not by this code.
- Writing the graph to a file in `save_mermaid_graph`, and rendering PNG through the `mermaid` library in `convert_mermaid_to_png` (main.py:61-70), are I/O and foreign calls.
- The `argparse` command line and the `print` of the dictionary in `main` (main.py:73-89) are glue.
- The unit tests (testsing.py) need an on-disk repository. Only their assertions about the graph text appear, as `ThreeCommitScenario` and `GraphStartsWithHeader`.
- The node block shape has no lemma of its own. It is the definition of `Emit`, `NodeLabel` and `CommitInfo`, which follow the two f-strings of main.py:50-52. `GenerateMermaidGraph` is proved to produce exactly that text.
- Strings.Join: its own contract states the empty case, the length and the first piece; the rest of the content is the lemma `JoinLayout` (piece `i` at offset `PieceOffset`, a separator after every piece but the last).
- MermaidGraph.FilesLabel: its own contract states only "No changes", the length and the first name. Recovering the names is `FilesLabelRule`, and only when every name but the last ends at its first `" & "`, because otherwise a separator inside a name cannot be told apart from the one `join` added.
