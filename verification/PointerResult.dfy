/** What a finished pointer analysis says about the runs of the program. */
module PointerResults {
  import opened Digraphs
  import opened PointerStates
  import opened PointerRules
  import opened PointerSoundness
  import opened PointerAnalyses

  /** Every machine on every run of the original program is covered by the result. */
  lemma ResultCoversRuns(g: Graph, N: set<Node>, D: Digraph, globals: seq<Node>, root: Node, s0: PointsTo, s: PointsTo,
                         nodes: seq<Node>, run: seq<Machine>, i: nat)
    requires Initialized(g, s0) && Grows(s0, s) && ClosedAfter(BlurGeps(g, N), D, globals, root, true, s)
    requires Run(g, nodes, run) && i < |run| && forall n :: n in nodes ==> n in RunNodes(g, D, globals, root)
    ensures Covered(s, run[i])
  {
    hide Covers, Closed, Grows, Run, Covered, Digraph.Reaches;
    var h := BlurGeps(g, N);
    assert Preprocessed(g, h);
    PreprocessedRuns(g, h, nodes, run);
    InitializedBlurred(g, N, s0);
    InitializedGrows(h, s0, s);
    forall n | n in nodes ensures Closed(h, s, n) { assert n in RunNodes(g, D, globals, root); }
    hide BlurGeps, RunNodes, Initialized;
    RunsAreCovered(h, s, nodes, run, i);
  }

  lemma InitializedBlurred(g: Graph, N: set<Node>, s: PointsTo)
    requires Initialized(g, s)
    ensures Initialized(BlurGeps(g, N), s)
  {
    hide Covers;
  }
}
