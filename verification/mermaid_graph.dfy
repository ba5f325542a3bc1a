/**
 `generate_mermaid_graph`: Mermaid flowchart text for the commits of a dependencies
 dictionary. After the header there is one node block per commit, in dictionary order, and
 after every block but the first an edge from the previous commit: a linear chain in insertion
 order, not the commits' real parentage.
 */
module MermaidGraph {
  import opened Strings
  import opened Dependencies

  /** The diagram type marker the text opens with. */
  const Header: string := "graph TD\n"

  /** The first seven characters of the hash (all of it if shorter): the key naming a commit's node. */
  function ShortKey(hash: string): string {
    Take(hash, 7)
  }

  /**
   The files line of a node block: "No changes" for a commit without changed files, otherwise
   the file names in order with " & " between neighbours (so opening with the first name).
   */
  function FilesLabel(files: seq<string>): (r: string)
    ensures |files| == 0 ==> r == "No changes"
    ensures |files| > 0 ==> |r| == TotalLength(files) + 3 * (|files| - 1)
    ensures |files| > 0 ==> files[0] <= r
  {
    if |files| == 0 then "No changes" else Join(files, " & ")
  }

  /** A file name without `&` can never hide a `" & "` separator, even at its end. */
  lemma AmpersandFree(f: string)
    requires '&' !in f
    ensures FirstSepAtEnd(f, " & ")
  {
    var t := f + " & ";
    forall j | 0 <= j < |f|
      ensures !OccursAt(t, " & ", j)
    {
      assert t[j + 1] != '&' by {
        if j + 1 < |f| {
          assert t[j + 1] == f[j + 1];
        }
      }
    }
  }

  /**
   The files label: the literal "No changes" for a commit without changed files; otherwise the
   file names joined by " & ", which splitting on " & " gives back whenever every name but the
   last ends at its first " & " (in particular when no name holds an `&`).
   */
  lemma FilesLabelRule(files: seq<string>)
    ensures |files| == 0 ==> FilesLabel(files) == "No changes"
    ensures |files| > 0 && (forall i :: 0 <= i < |files| - 1 ==> FirstSepAtEnd(files[i], " & ")) ==>
      SplitN(FilesLabel(files), " & ", |files| - 1) == files
    ensures |files| > 0 && (forall i :: 0 <= i < |files| ==> '&' !in files[i]) ==>
      SplitN(FilesLabel(files), " & ", |files| - 1) == files
  {
    if |files| > 0 {
      if forall i :: 0 <= i < |files| ==> '&' !in files[i] {
        forall i | 0 <= i < |files| - 1
          ensures FirstSepAtEnd(files[i], " & ")
        {
          AmpersandFree(files[i]);
        }
      }
      if forall i :: 0 <= i < |files| - 1 ==> FirstSepAtEnd(files[i], " & ") {
        SplitJoin(files, " & ");
      }
    }
  }

  /** The lines of the diagram, as structure: a node declaration or a chain edge. */
  datatype Stmt =
    | NodeDecl(key: string, message: string, author: string, time: string, filesLabel: string)
    | Link(from: string, to: string)

  /** `commit_info`: the short key, then the message, then author and time, on indented lines. */
  function CommitInfo(key: string, message: string, author: string, time: string): string {
    key + ":\n    " + message + "\n    " + author + " " + time
  }

  /** The rounded label of a node, from its opening to the end of the block. */
  function NodeLabel(key: string, message: string, author: string, time: string, filesLabel: string): string {
    "([\"`\n    Commit " + CommitInfo(key, message, author, time) + ":\n    " + filesLabel + "\n    `\"])\n"
  }

  /**
   The exact text of one statement. A node declaration is a six-line block: the key with the
   opening of the label, "Commit" and the key, the message, author and time, the files label,
   and the closing of the label.
   */
  function Emit(s: Stmt): string {
    match s
    case NodeDecl(key, message, author, time, filesLabel) =>
      "    " + key + NodeLabel(key, message, author, time, filesLabel)
    case Link(from, to) => "    " + from + " --> " + to + "\n"
  }

  /** The node declaration of one commit. */
  function NodeOf(e: Entry): Stmt {
    NodeDecl(ShortKey(e.hash), e.record.message, e.record.author, e.record.time, FilesLabel(e.record.files))
  }

  /** The node block appended for one commit. */
  function NodeText(e: Entry): string {
    Emit(NodeOf(e))
  }

  /** The edge line from the previous commit to the current one. */
  function EdgeText(prev: string, cur: string): string {
    Emit(Link(ShortKey(prev), ShortKey(cur)))
  }

  /** The text after the first `k` iterations of the loop: node block, then edge when `k - 1 > 0`. */
  function GraphUpTo(d: Deps, k: nat): string
    requires k <= |d|
    decreases k
  {
    if k == 0 then Header
    else
      var withNode := GraphUpTo(d, k - 1) + NodeText(d[k - 1]);
      if k - 1 > 0 then withNode + EdgeText(d[k - 2].hash, d[k - 1].hash) else withNode
  }

  /** The text `generate_mermaid_graph` returns. */
  function RenderGraph(d: Deps): string {
    GraphUpTo(d, |d|)
  }

  /** The loop of `generate_mermaid_graph`. */
  method GenerateMermaidGraph(d: Deps) returns (graph: string)
    requires UniqueKeys(d)
    ensures graph == RenderGraph(d)
  {
    graph := Header;
    var keys := Keys(d);
    var idx := 0;
    while idx < |keys|
      invariant 0 <= idx <= |d|
      invariant graph == GraphUpTo(d, idx)
    {
      var commit := keys[idx];
      LookupAt(d, idx);
      var data := Lookup(d, commit).value;
      var commitShort := Take(commit, 7);
      var filesStr := if |data.files| > 0 then Join(data.files, " & ") else "No changes";
      var commitInfo := commitShort + ":\n    " + data.message + "\n    " + data.author + " " + data.time;
      graph := graph + ("    " + commitShort + ("([\"`\n    Commit " + commitInfo + ":\n    " + filesStr + "\n    `\"])\n"));
      if idx > 0 {
        var prevCommit := keys[idx - 1];
        graph := graph + ("    " + Take(prevCommit, 7) + " --> " + commitShort + "\n");
      }
      idx := idx + 1;
    }
  }

  /** The statements of the first `k` commits: each node, then the edge into it from its predecessor. */
  function StmtsUpTo(d: Deps, k: nat): (ss: seq<Stmt>)
    requires k <= |d|
    ensures |ss| == if k == 0 then 0 else 2 * k - 1
    decreases k
  {
    if k == 0 then []
    else if k == 1 then [NodeOf(d[0])]
    else StmtsUpTo(d, k - 1) + [NodeOf(d[k - 1])] + [Link(ShortKey(d[k - 2].hash), ShortKey(d[k - 1].hash))]
  }

  function Statements(d: Deps): seq<Stmt> {
    StmtsUpTo(d, |d|)
  }

  /** Where commit `i`'s node declaration sits among the statements. */
  function NodePos(i: nat): nat {
    if i == 0 then 0 else 2 * i - 1
  }

  /** The statements rendered in order. */
  function EmitAll(ss: seq<Stmt>): string
    decreases |ss|
  {
    if |ss| == 0 then "" else EmitAll(ss[..|ss| - 1]) + Emit(ss[|ss| - 1])
  }

  lemma EmitAllSnoc(ss: seq<Stmt>, s: Stmt)
    ensures EmitAll(ss + [s]) == EmitAll(ss) + Emit(s)
  {
    assert (ss + [s])[..|ss|] == ss;
  }

  lemma {:induction false} GraphUpToIsRendering(d: Deps, k: nat)
    requires k <= |d|
    ensures GraphUpTo(d, k) == Header + EmitAll(StmtsUpTo(d, k))
    decreases k
  {
    if k > 0 {
      var prev := StmtsUpTo(d, k - 1);
      var node := NodeOf(d[k - 1]);
      GraphUpToIsRendering(d, k - 1);
      SnocRendering(GraphUpTo(d, k - 1), prev, node);
      if k > 1 {
        var link := Link(ShortKey(d[k - 2].hash), ShortKey(d[k - 1].hash));
        assert StmtsUpTo(d, k) == prev + [node] + [link];
        SnocRendering(GraphUpTo(d, k - 1) + Emit(node), prev + [node], link);
      } else {
        assert StmtsUpTo(d, k) == prev + [node];
      }
    }
  }

  /** Appending one more statement's text extends the rendering by that statement. */
  lemma SnocRendering(g: string, prev: seq<Stmt>, s: Stmt)
    requires g == Header + EmitAll(prev)
    ensures g + Emit(s) == Header + EmitAll(prev + [s])
  {
    EmitAllSnoc(prev, s);
    ConcatAssoc(Header, EmitAll(prev), Emit(s));
  }

  /** The returned text is the header followed by the statements, rendered in order. */
  lemma GraphIsRendering(d: Deps)
    ensures RenderGraph(d) == Header + EmitAll(Statements(d))
  {
    GraphUpToIsRendering(d, |d|);
  }

  lemma {:induction false} StmtsUpToGrows(d: Deps, k: nat, m: nat)
    requires k <= m <= |d|
    ensures StmtsUpTo(d, k) <= StmtsUpTo(d, m)
    decreases m - k
  {
    if k < m {
      StmtsUpToGrows(d, k, m - 1);
      if m > 1 {
        var prev := StmtsUpTo(d, m - 1);
        assert prev <= prev + [NodeOf(d[m - 1])];
        assert prev + [NodeOf(d[m - 1])] <= StmtsUpTo(d, m);
      }
    }
  }

  /** Commit `i`'s node, and for `i > 0` the edge into it, close the statements of the first `i + 1` commits. */
  lemma BlockOf(d: Deps, i: nat)
    requires i < |d|
    ensures StmtsUpTo(d, i + 1)[NodePos(i)] == NodeOf(d[i])
    ensures i > 0 ==> StmtsUpTo(d, i + 1)[2 * i] == Link(ShortKey(d[i - 1].hash), ShortKey(d[i].hash))
  {
  }

  lemma {:induction false} KindsUpTo(d: Deps, k: nat)
    requires k <= |d|
    ensures forall p :: 0 <= p < |StmtsUpTo(d, k)| ==> (StmtsUpTo(d, k)[p].Link? <==> p > 0 && p % 2 == 0)
    decreases k
  {
    if k > 1 {
      KindsUpTo(d, k - 1);
      var prev := StmtsUpTo(d, k - 1);
      var ss := StmtsUpTo(d, k);
      assert ss == prev + [NodeOf(d[k - 1]), Link(ShortKey(d[k - 2].hash), ShortKey(d[k - 1].hash))];
      forall p | 0 <= p < |ss|
        ensures ss[p].Link? <==> p > 0 && p % 2 == 0
      {
        if p < |prev| {
          assert ss[p] == prev[p];
        }
      }
    }
  }

  /**
   The layout of the statements: node `i` at `NodePos(i)`, and for `i > 0` the edge from
   commit `i - 1` to commit `i` right after it; edges sit exactly at the even positions after 0.
   */
  lemma StatementLayout(d: Deps)
    ensures |Statements(d)| == if |d| == 0 then 0 else 2 * |d| - 1
    ensures forall i :: 0 <= i < |d| ==> Statements(d)[NodePos(i)] == NodeOf(d[i])
    ensures forall i :: 0 < i < |d| ==>
      Statements(d)[2 * i] == Link(ShortKey(d[i - 1].hash), ShortKey(d[i].hash))
    ensures forall p :: 0 <= p < |Statements(d)| ==> (Statements(d)[p].Link? <==> p > 0 && p % 2 == 0)
  {
    KindsUpTo(d, |d|);
    forall i | 0 <= i < |d|
      ensures Statements(d)[NodePos(i)] == NodeOf(d[i])
      ensures i > 0 ==> Statements(d)[2 * i] == Link(ShortKey(d[i - 1].hash), ShortKey(d[i].hash))
    {
      BlockOf(d, i);
      StmtsUpToGrows(d, i + 1, |d|);
    }
  }

  function CountNodes(ss: seq<Stmt>): nat
    decreases |ss|
  {
    if |ss| == 0 then 0 else CountNodes(ss[..|ss| - 1]) + (if ss[|ss| - 1].NodeDecl? then 1 else 0)
  }

  function CountLinks(ss: seq<Stmt>): nat
    decreases |ss|
  {
    if |ss| == 0 then 0 else CountLinks(ss[..|ss| - 1]) + (if ss[|ss| - 1].Link? then 1 else 0)
  }

  lemma {:induction false} CountsUpTo(d: Deps, k: nat)
    requires k <= |d|
    ensures CountNodes(StmtsUpTo(d, k)) == k
    ensures CountLinks(StmtsUpTo(d, k)) == if k == 0 then 0 else k - 1
    decreases k
  {
    if k == 1 {
      assert [NodeOf(d[0])][..0] == [];
    } else if k > 1 {
      CountsUpTo(d, k - 1);
      var prev := StmtsUpTo(d, k - 1);
      var withNode := prev + [NodeOf(d[k - 1])];
      var ss := StmtsUpTo(d, k);
      assert ss[..|ss| - 1] == withNode;
      assert withNode[..|withNode| - 1] == prev;
    }
  }

  /** `n` commits give exactly `n` node declarations and `max(n - 1, 0)` edges. */
  lemma StatementCounts(d: Deps)
    ensures CountNodes(Statements(d)) == |d|
    ensures CountLinks(Statements(d)) == if |d| == 0 then 0 else |d| - 1
  {
    CountsUpTo(d, |d|);
  }

  /** The text always opens with the header, and is the header alone exactly for an empty dictionary. */
  lemma GraphStartsWithHeader(d: Deps)
    ensures Header <= RenderGraph(d)
    ensures RenderGraph(d) == Header <==> |d| == 0
  {
    GraphIsRendering(d);
    var ss := Statements(d);
    if |d| > 0 {
      assert |Emit(ss[|ss| - 1])| > 0;
      assert |EmitAll(ss)| > 0;
    }
  }

  lemma {:induction false} GraphUpToGrows(d: Deps, k: nat, m: nat)
    requires k <= m <= |d|
    ensures GraphUpTo(d, k) <= GraphUpTo(d, m)
    decreases m - k
  {
    if k < m {
      GraphUpToGrows(d, k, m - 1);
      var g := GraphUpTo(d, m - 1);
      var withNode := g + NodeText(d[m - 1]);
      assert g <= withNode;
      if m - 1 > 0 {
        assert withNode <= withNode + EdgeText(d[m - 2].hash, d[m - 1].hash);
      }
    }
  }

  /** A node block opens with four spaces and the short key. */
  lemma NodeTextKey(e: Entry)
    ensures |NodeText(e)| >= 4 + |ShortKey(e.hash)|
    ensures NodeText(e)[4..4 + |ShortKey(e.hash)|] == ShortKey(e.hash)
  {
    var short := ShortKey(e.hash);
    var tail := NodeLabel(short, e.record.message, e.record.author, e.record.time, FilesLabel(e.record.files));
    assert NodeText(e) == "    " + short + tail;
  }

  /** The short key of commit `i` follows the four-space indent of its node block. */
  lemma ShortKeyAt(d: Deps, i: nat)
    requires i < |d|
    ensures OccursAt(RenderGraph(d), ShortKey(d[i].hash), |GraphUpTo(d, i)| + 4)
  {
    var before, node := GraphUpTo(d, i), NodeText(d[i]);
    assert before + node <= RenderGraph(d) by {
      NodeInGraph(d, i);
      GraphUpToGrows(d, i + 1, |d|);
      PrefixTrans(before + node, GraphUpTo(d, i + 1), RenderGraph(d));
    }
    NodeTextKey(d[i]);
    OccursAfter(before, node, ShortKey(d[i].hash));
    OccursInPrefix(RenderGraph(d), before + node, ShortKey(d[i].hash), |before| + 4);
  }

  /** What occurs at position `4` of `node` occurs at `|before| + 4` of `before + node`. */
  lemma OccursAfter(before: string, node: string, short: string)
    requires |node| >= 4 + |short| && node[4..4 + |short|] == short
    ensures OccursAt(before + node, short, |before| + 4)
  {
    var at := |before| + 4;
    assert (before + node)[at..at + |short|] == node[4..4 + |short|];
  }

  /** Commit `i`'s node block directly follows the text for the commits before it. */
  lemma NodeInGraph(d: Deps, i: nat)
    requires i < |d|
    ensures GraphUpTo(d, i) + NodeText(d[i]) <= GraphUpTo(d, i + 1)
  {
  }

  /** Every commit's short key occurs in the text. */
  lemma ShortKeysAppear(d: Deps)
    ensures forall i :: 0 <= i < |d| ==> Contains(RenderGraph(d), ShortKey(d[i].hash))
  {
    forall i | 0 <= i < |d|
      ensures Contains(RenderGraph(d), ShortKey(d[i].hash))
    {
      ShortKeyAt(d, i);
    }
  }

  /**
   The unit-test scenario: three commits whose hashes begin 092270d, 406d18d and 01f14b4 give
   a text that opens with the header and holds all three short keys.
   */
  lemma ThreeCommitScenario(r1: CommitRecord, r2: CommitRecord, r3: CommitRecord)
    ensures var d := [Entry("092270dd4feec0641fff990c991018e49662ce44", r1),
                      Entry("406d18d010dd618a3e32f4cf7ad2e8d8a4324a44", r2),
                      Entry("01f14b4159f512481c53a1ef8af143f3c293f45b", r3)];
      && Header <= RenderGraph(d)
      && Contains(RenderGraph(d), "092270d")
      && Contains(RenderGraph(d), "406d18d")
      && Contains(RenderGraph(d), "01f14b4")
  {
    var d := [Entry("092270dd4feec0641fff990c991018e49662ce44", r1),
              Entry("406d18d010dd618a3e32f4cf7ad2e8d8a4324a44", r2),
              Entry("01f14b4159f512481c53a1ef8af143f3c293f45b", r3)];
    GraphStartsWithHeader(d);
    ShortKeysAppear(d);
    assert d[0].hash[..7] == "092270d";
    assert ShortKey(d[0].hash) == "092270d";
    assert d[1].hash[..7] == "406d18d";
    assert ShortKey(d[1].hash) == "406d18d";
    assert d[2].hash[..7] == "01f14b4";
    assert ShortKey(d[2].hash) == "01f14b4";
  }
}
