/**
  The graph part of the closure-manifest check: a worklist walks dependency edges from the required
  roots. Acceptance is proved equivalent to a property of the graph alone, so the order in which
  paths are popped cannot matter.
 */
module ClosureManifest {
  import opened Outcomes

  datatype NodeKind = Executable | Interpreter | Module | Extension | NativeAddon | Data

  datatype DependencyKind = FiniteDynamic | Native | Static

  datatype Dependency = Dependency(path: string, kind: DependencyKind)

  /** The fields of a node the graph check reads. */
  datatype Node = Node(path: string, kind: NodeKind, mode: nat, dependencies: seq<Dependency>)

  /** A root the manifest names, `None` being an explicit null, with the kind its node must have. */
  datatype Root = Root(path: Option<string>, kind: NodeKind)

  datatype Rejection =
    | WrongMode
    | DuplicatePath
    | MissingRoot
    | WrongRootKind
    | RootNotExecutable
    | MissingTarget
    | NativeMismatch
    | Unreachable
    | NativeWithoutEdge
    | WrongRoots

  // ----- Node checks before the graph

  function ExpectedMode(kind: NodeKind): nat {
    if kind == Executable || kind == Interpreter then 0x1C0 else 0x180
  }

  /** `mode & 0o111`, tested bit by bit. */
  predicate HasExecutableBit(mode: nat) {
    mode / 64 % 2 == 1 || mode / 8 % 2 == 1 || mode % 2 == 1
  }

  type Graph = map<string, Node>

  /** Every path names the node that carries it. */
  ghost predicate Keyed(nodes: seq<Node>, graph: Graph) {
    && (forall k | 0 <= k < |nodes| :: nodes[k].path in graph && graph[nodes[k].path] == nodes[k])
    && (forall path | path in graph :: graph[path] in nodes && graph[path].path == path)
  }

  ghost predicate Distinct(nodes: seq<Node>) {
    forall i, j | 0 <= i < j < |nodes| :: nodes[i].path != nodes[j].path
  }

  /** Every node's mode is its owner's alone: read and write, and execute for the kinds that are executed. */
  ghost predicate ModesFit(nodes: seq<Node>) {
    forall k | 0 <= k < |nodes| ::
      nodes[k].mode == (if nodes[k].kind == Executable || nodes[k].kind == Interpreter then 4 + 2 + 1 else 4 + 2) * 64
  }

  method IndexNodes(nodes: seq<Node>) returns (r: Result<Graph, Rejection>)
    ensures r.Ok? <==> ModesFit(nodes) && Distinct(nodes)
    ensures r.Ok? ==> Keyed(nodes, r.value)
    ensures r.Err? ==>
              (r.error == WrongMode && !ModesFit(nodes)) || (r.error == DuplicatePath && !Distinct(nodes))
  {
    var graph: Graph := map[];
    for index := 0 to |nodes|
      invariant ModesFit(nodes[..index]) && Distinct(nodes[..index])
      invariant Keyed(nodes[..index], graph)
    {
      var node := nodes[index];
      if node.mode != ExpectedMode(node.kind) {
        return Err(WrongMode);
      }
      if node.path in graph {
        return Err(DuplicatePath);
      }
      assert nodes[..index + 1] == nodes[..index] + [node];
      graph := graph[node.path := node];
    }
    assert nodes[..|nodes|] == nodes;
    return Ok(graph);
  }

  // ----- The graph property

  ghost predicate RootExists(graph: Graph, root: Root) {
    root.path.Some? && root.path.value in graph && graph[root.path.value].kind == root.kind
  }

  /** The edge's target exists, and the edge is native exactly when its target is a native addon. */
  predicate EdgeFits(graph: Graph, edge: Dependency) {
    edge.path in graph && (edge.kind == Native <==> graph[edge.path].kind == NativeAddon)
  }

  predicate EdgesFit(graph: Graph, path: string)
    requires path in graph
  {
    forall edge | edge in graph[path].dependencies :: EdgeFits(graph, edge)
  }

  predicate HasEdge(graph: Graph, from: string, to: string) {
    from in graph && exists edge | edge in graph[from].dependencies :: edge.path == to
  }

  ghost predicate IsRoot(roots: seq<Root>, path: string) {
    exists k | 0 <= k < |roots| :: roots[k].path == Some(path)
  }

  /** A path of edges from a root: `walk` starts at a root and each step follows an edge. */
  ghost predicate Walk(graph: Graph, roots: seq<Root>, walk: seq<string>) {
    && |walk| > 0
    && IsRoot(roots, walk[0])
    && forall k | 0 <= k < |walk| - 1 :: HasEdge(graph, walk[k], walk[k + 1])
  }

  ghost predicate Reachable(graph: Graph, roots: seq<Root>, path: string) {
    exists walk :: Walk(graph, roots, walk) && walk[|walk| - 1] == path
  }

  /** What an accepted manifest guarantees, without reference to how it was checked. */
  ghost predicate WellFounded(graph: Graph, roots: seq<Root>) {
    && (forall k | 0 <= k < |roots| :: RootExists(graph, roots[k]))
    && (forall path | path in graph :: EdgesFit(graph, path))
    && (forall path | path in graph :: Reachable(graph, roots, path))
  }

  /** An edge of this node is what the rejection says. */
  ghost predicate EdgeFault(graph: Graph, path: string, e: Rejection)
    requires path in graph
  {
    match e
    case MissingTarget => exists edge | edge in graph[path].dependencies :: edge.path !in graph
    case NativeMismatch =>
      exists edge | edge in graph[path].dependencies && edge.path in graph ::
        (edge.kind == Native) != (graph[edge.path].kind == NativeAddon)
    case _ => false
  }

  /** Something in the graph is what the rejection says. */
  ghost predicate GraphFault(graph: Graph, roots: seq<Root>, e: Rejection) {
    match e
    case MissingRoot => exists k | 0 <= k < |roots| :: roots[k].path.None? || roots[k].path.value !in graph
    case WrongRootKind =>
      exists k | 0 <= k < |roots| ::
        roots[k].path.Some? && roots[k].path.value in graph && graph[roots[k].path.value].kind != roots[k].kind
    case Unreachable => exists path | path in graph :: !Reachable(graph, roots, path)
    case _ => exists path | path in graph :: EdgeFault(graph, path, e)
  }

  lemma RootIsReachable(graph: Graph, roots: seq<Root>, k: nat)
    requires k < |roots| && roots[k].path.Some?
    ensures Reachable(graph, roots, roots[k].path.value)
  {
    assert Walk(graph, roots, [roots[k].path.value]);
  }

  lemma EdgeExtendsReach(graph: Graph, roots: seq<Root>, from: string, to: string)
    requires Reachable(graph, roots, from) && HasEdge(graph, from, to)
    ensures Reachable(graph, roots, to)
  {
    var walk :| Walk(graph, roots, walk) && walk[|walk| - 1] == from;
    var longer := walk + [to];
    forall k | 0 <= k < |longer| - 1
      ensures HasEdge(graph, longer[k], longer[k + 1])
    {
    }
    assert Walk(graph, roots, longer);
  }

  /** A set that holds the roots and is closed under edges holds everything reachable. */
  lemma {:induction false} ClosedSetHoldsWalk(graph: Graph, roots: seq<Root>, closed: set<string>, walk: seq<string>)
    requires Walk(graph, roots, walk)
    requires forall path | IsRoot(roots, path) :: path in closed
    requires forall from, to | from in closed && HasEdge(graph, from, to) :: to in closed
    ensures walk[|walk| - 1] in closed
  {
    if |walk| > 1 {
      ClosedSetHoldsWalk(graph, roots, closed, walk[..|walk| - 1]);
      assert HasEdge(graph, walk[|walk| - 2], walk[|walk| - 1]);
    }
  }

  // ----- The worklist

  /** Every path in the list is reachable. */
  ghost predicate AllReachable(graph: Graph, roots: seq<Root>, paths: set<string>) {
    forall path | path in paths :: Reachable(graph, roots, path)
  }

  /** The visited paths have been checked, and whatever they lead to is visited or pending. */
  ghost predicate Explored(graph: Graph, roots: seq<Root>, reachable: set<string>, pending: seq<string>) {
    && (forall path | path in reachable :: path in graph && EdgesFit(graph, path))
    && (forall path | IsRoot(roots, path) :: path in reachable || path in pending)
    && (forall from, to | from in reachable && HasEdge(graph, from, to) :: to in reachable || to in pending)
  }

  /** The targets of the native edges of visited nodes. */
  ghost predicate NativeTargetsOf(graph: Graph, reachable: set<string>, nativeTargets: set<string>) {
    forall from, edge | from in reachable && from in graph && edge in graph[from].dependencies && edge.kind == Native ::
      edge.path in nativeTargets
  }

  method PushRoots(graph: Graph, roots: seq<Root>) returns (r: Result<seq<string>, Rejection>)
    requires forall path | path in graph :: graph[path].mode == ExpectedMode(graph[path].kind)
    ensures r.Ok? <==> forall k | 0 <= k < |roots| :: RootExists(graph, roots[k])
    ensures r.Ok? ==> forall path :: path in r.value <==> IsRoot(roots, path)
    ensures r.Err? ==> GraphFault(graph, roots, r.error) && (r.error == MissingRoot || r.error == WrongRootKind)
  {
    var pending: seq<string> := [];
    for index := 0 to |roots|
      invariant forall k | 0 <= k < index :: RootExists(graph, roots[k])
      invariant |pending| == index && forall k | 0 <= k < index :: roots[k].path == Some(pending[k])
    {
      var root := roots[index];
      if root.path.None? || root.path.value !in graph {
        return Err(MissingRoot);
      }
      var node := graph[root.path.value];
      if node.kind != root.kind {
        return Err(WrongRootKind);
      }
      // the kinds that need an executable mode were given one above
      if (root.kind == Executable || root.kind == Interpreter) && !HasExecutableBit(node.mode) {
        assert false;
        return Err(RootNotExecutable);
      }
      pending := pending + [root.path.value];
    }
    forall path
      ensures path in pending <==> IsRoot(roots, path)
    {
      if path in pending {
        var k :| 0 <= k < |pending| && pending[k] == path;
        assert roots[k].path == Some(path);
      }
      if IsRoot(roots, path) {
        var k :| 0 <= k < |roots| && roots[k].path == Some(path);
        assert pending[k] == path;
      }
    }
    return Ok(pending);
  }

  /** Checks the edges of one node, queueing their targets. */
  method CheckEdges(graph: Graph, path: string, pending0: seq<string>, nativeTargets0: set<string>)
    returns (ok: bool, error: Rejection, pending: seq<string>, nativeTargets: set<string>)
    requires path in graph
    ensures ok <==> EdgesFit(graph, path)
    ensures ok ==> pending0 <= pending
    ensures ok ==> forall to :: to in pending[|pending0|..] <==> HasEdge(graph, path, to)
    ensures ok ==> nativeTargets0 <= nativeTargets
    ensures ok ==> forall edge | edge in graph[path].dependencies && edge.kind == Native :: edge.path in nativeTargets
    ensures !ok ==> EdgeFault(graph, path, error)
    ensures error == MissingTarget || error == NativeMismatch
  {
    var edges := graph[path].dependencies;
    pending, nativeTargets, error := pending0, nativeTargets0, MissingTarget;
    for index := 0 to |edges|
      invariant forall k | 0 <= k < index :: EdgeFits(graph, edges[k])
      invariant |pending| == |pending0| + index && pending[..|pending0|] == pending0
      invariant forall k | 0 <= k < index :: pending[|pending0| + k] == edges[k].path
      invariant nativeTargets0 <= nativeTargets
      invariant forall k | 0 <= k < index && edges[k].kind == Native :: edges[k].path in nativeTargets
      invariant error == MissingTarget
    {
      var edge := edges[index];
      assert edge in graph[path].dependencies;
      if edge.path !in graph {
        return false, MissingTarget, pending, nativeTargets;
      }
      if (edge.kind == Native) != (graph[edge.path].kind == NativeAddon) {
        return false, NativeMismatch, pending, nativeTargets;
      }
      if edge.kind == Native {
        nativeTargets := nativeTargets + {edge.path};
      }
      pending := pending + [edge.path];
    }
    ok := true;
    var queued := pending[|pending0|..];
    forall to
      ensures to in queued <==> HasEdge(graph, path, to)
    {
      if to in queued {
        var k :| 0 <= k < |queued| && queued[k] == to;
        assert edges[k] in edges && edges[k].path == to;
      }
      if HasEdge(graph, path, to) {
        var k :| 0 <= k < |edges| && edges[k].path == to;
        assert queued[k] == to;
      }
    }
  }

  lemma GraphIsDetermined(nodes: seq<Node>, graph: Graph, graph': Graph)
    requires Keyed(nodes, graph) && Keyed(nodes, graph')
    ensures graph == graph'
  {
    forall path | path in graph
      ensures path in graph' && graph'[path] == graph[path]
    {
      var k :| 0 <= k < |nodes| && nodes[k] == graph[path];
    }
    forall path | path in graph'
      ensures path in graph
    {
      var k :| 0 <= k < |nodes| && nodes[k] == graph'[path];
    }
  }

  ghost predicate NoNativeRoots(roots: seq<Root>) {
    forall k | 0 <= k < |roots| :: roots[k].kind != NativeAddon
  }

  lemma RootsAreNotNative(graph: Graph, roots: seq<Root>, path: string)
    requires forall k | 0 <= k < |roots| :: RootExists(graph, roots[k])
    requires NoNativeRoots(roots) && IsRoot(roots, path)
    ensures path in graph && graph[path].kind != NativeAddon
  {
    var k :| 0 <= k < |roots| && roots[k].path == Some(path);
    assert RootExists(graph, roots[k]);
  }

  /** A reachable native addon is the target of a native edge of a visited node. */
  lemma NativeHasEdge(graph: Graph, roots: seq<Root>, reachable: set<string>, nativeTargets: set<string>, path: string)
    requires forall k | 0 <= k < |roots| :: RootExists(graph, roots[k])
    requires NoNativeRoots(roots)
    requires Explored(graph, roots, reachable, []) && NativeTargetsOf(graph, reachable, nativeTargets)
    requires path in graph && graph[path].kind == NativeAddon && Reachable(graph, roots, path)
    ensures path in nativeTargets
  {
    var walk :| Walk(graph, roots, walk) && walk[|walk| - 1] == path;
    RootsAreNotNative(graph, roots, walk[0]);
    var before := walk[..|walk| - 1];
    var from := before[|before| - 1];
    ClosedSetHoldsWalk(graph, roots, reachable, before);
    assert HasEdge(graph, from, path);
    var edge :| edge in graph[from].dependencies && edge.path == path;
    assert EdgesFit(graph, from) && EdgeFits(graph, edge);
  }

  /** The state of the walk between two pops. */
  ghost predicate Exploring(graph: Graph, roots: seq<Root>, reachable: set<string>, pending: seq<string>,
                            nativeTargets: set<string>)
  {
    && Explored(graph, roots, reachable, pending)
    && AllReachable(graph, roots, reachable)
    && (forall path | path in pending :: path in graph && Reachable(graph, roots, path))
    && NativeTargetsOf(graph, reachable, nativeTargets)
    && reachable <= graph.Keys
  }

  /** The worklist: pops paths from the end, and stops at the first edge that does not fit. */
  method Explore(graph: Graph, roots: seq<Root>, rootPaths: seq<string>)
    returns (r: Result<(), Rejection>, reachable: set<string>, nativeTargets: set<string>)
    requires forall path :: path in rootPaths <==> IsRoot(roots, path)
    requires forall k | 0 <= k < |roots| :: RootExists(graph, roots[k])
    ensures r.Ok? ==> Exploring(graph, roots, reachable, [], nativeTargets)
    ensures r.Err? ==> !WellFounded(graph, roots) && GraphFault(graph, roots, r.error)
  {
    RootsStart(graph, roots, rootPaths);
    r, reachable, nativeTargets := WalkEdges(graph, roots, rootPaths);
  }

  method WalkEdges(graph: Graph, ghost roots: seq<Root>, rootPaths: seq<string>)
    returns (r: Result<(), Rejection>, reachable: set<string>, nativeTargets: set<string>)
    requires Exploring(graph, roots, {}, rootPaths, {})
    ensures r.Ok? ==> Exploring(graph, roots, reachable, [], nativeTargets)
    ensures r.Err? ==> !WellFounded(graph, roots) && GraphFault(graph, roots, r.error)
  {
    reachable, nativeTargets := {}, {};
    var pending := rootPaths;
    while pending != []
      invariant Exploring(graph, roots, reachable, pending, nativeTargets)
      decreases graph.Keys - reachable, |pending|
    {
      var path := pending[|pending| - 1];
      if path in reachable {
        Skipped(graph, roots, reachable, pending, nativeTargets);
        pending := pending[..|pending| - 1];
        continue;
      }
      Head(graph, roots, reachable, pending, nativeTargets);
      var ok, error, pushed, targets := CheckEdges(graph, path, pending[..|pending| - 1], nativeTargets);
      if !ok {
        return Err(error), reachable, nativeTargets;
      }
      Visited(graph, roots, reachable, pending, nativeTargets, pushed, targets);
      reachable := reachable + {path};
      pending := pushed;
      nativeTargets := targets;
    }
    r := Ok(());
  }

  lemma Head(graph: Graph, roots: seq<Root>, reachable: set<string>, pending: seq<string>, nativeTargets: set<string>)
    requires Exploring(graph, roots, reachable, pending, nativeTargets) && pending != []
    ensures pending[|pending| - 1] in graph
    ensures !EdgesFit(graph, pending[|pending| - 1]) ==> !WellFounded(graph, roots)
  {
    assert pending[|pending| - 1] in pending;
  }

  lemma Skipped(graph: Graph, roots: seq<Root>, reachable: set<string>, pending: seq<string>,
                nativeTargets: set<string>)
    requires Exploring(graph, roots, reachable, pending, nativeTargets)
    requires pending != [] && pending[|pending| - 1] in reachable
    ensures Exploring(graph, roots, reachable, pending[..|pending| - 1], nativeTargets)
  {
    Popped(pending, pending[|pending| - 1]);
  }

  lemma Visited(graph: Graph, roots: seq<Root>, reachable: set<string>, pending: seq<string>,
                nativeTargets: set<string>,
                pushed: seq<string>, targets: set<string>)
    requires Exploring(graph, roots, reachable, pending, nativeTargets) && pending != []
    requires pending[|pending| - 1] in graph && EdgesFit(graph, pending[|pending| - 1])
    requires var path, rest := pending[|pending| - 1], pending[..|pending| - 1];
             && rest <= pushed
             && (forall to :: to in pushed[|rest|..] <==> HasEdge(graph, path, to))
             && nativeTargets <= targets
             && forall edge | edge in graph[path].dependencies && edge.kind == Native :: edge.path in targets
    ensures Exploring(graph, roots, reachable + {pending[|pending| - 1]}, pushed, targets)
  {
    var path, rest := pending[|pending| - 1], pending[..|pending| - 1];
    Popped(pending, path);
    NewlyReached(graph, roots, path, pushed[|rest|..]);
    Queued(graph, roots, reachable, pending, path, rest, pushed);
    assert NativeTargetsOf(graph, reachable + {path}, targets);
  }

  lemma Popped(before: seq<string>, path: string)
    requires before != [] && path == before[|before| - 1]
    ensures forall p :: p in before <==> p in before[..|before| - 1] || p == path
  {
    assert before == before[..|before| - 1] + [path];
  }

  lemma Queued(
    graph: Graph, roots: seq<Root>, reachable: set<string>, before: seq<string>, path: string,
    pending: seq<string>, pushed: seq<string>)
    requires Explored(graph, roots, reachable, before)
    requires forall p :: p in before <==> p in pending || p == path
    requires path in graph && EdgesFit(graph, path)
    requires pending <= pushed && forall to :: to in pushed[|pending|..] <==> HasEdge(graph, path, to)
    ensures Explored(graph, roots, reachable + {path}, pushed)
    ensures forall p :: p in pushed <==> p in pending || p in pushed[|pending|..]
  {
    assert pushed == pending + pushed[|pending|..];
    forall from, to | from in reachable + {path} && HasEdge(graph, from, to)
      ensures to in reachable + {path} || to in pushed
    {
      if from in reachable && to in before {
        assert to in pending || to == path;
      }
    }
  }

  lemma RootsStart(graph: Graph, roots: seq<Root>, pending: seq<string>)
    requires forall path :: path in pending <==> IsRoot(roots, path)
    requires forall k | 0 <= k < |roots| :: RootExists(graph, roots[k])
    ensures Exploring(graph, roots, {}, pending, {})
  {
    forall path | path in pending
      ensures path in graph && Reachable(graph, roots, path)
    {
      var k :| 0 <= k < |roots| && roots[k].path == Some(path);
      assert RootExists(graph, roots[k]);
      RootIsReachable(graph, roots, k);
    }
  }

  lemma NewlyReached(graph: Graph, roots: seq<Root>, from: string, queued: seq<string>)
    requires from in graph && EdgesFit(graph, from) && Reachable(graph, roots, from)
    requires forall to :: to in queued <==> HasEdge(graph, from, to)
    ensures forall to | to in queued :: to in graph && Reachable(graph, roots, to)
  {
    forall to | to in queued
      ensures to in graph && Reachable(graph, roots, to)
    {
      var edge :| edge in graph[from].dependencies && edge.path == to;
      assert EdgeFits(graph, edge);
      EdgeExtendsReach(graph, roots, from, to);
    }
  }

  // ----- The whole check

  /** The manifest's root fields; `openCode` is the harness. */
  datatype Manifest = Manifest(
    openCode: bool, executable: Option<string>, interpreter: Option<string>, entrypoint: Option<string>,
    extensions: seq<string>, nodes: seq<Node>)

  predicate RootsFit(m: Manifest) {
    if m.openCode then m.executable.Some? && m.interpreter.None? && m.entrypoint.None? && m.extensions == []
    else m.executable.None? && m.interpreter.Some? && m.entrypoint.Some?
  }

  function RequiredRoots(m: Manifest): (roots: seq<Root>)
    ensures NoNativeRoots(roots)
  {
    if m.openCode then [Root(m.executable, Executable)]
    else
      [Root(m.interpreter, Interpreter), Root(m.entrypoint, Module)]
      + seq(|m.extensions|, i requires 0 <= i < |m.extensions| => Root(Some(m.extensions[i]), Extension))
  }

  /** What acceptance means. */
  ghost predicate Acceptable(m: Manifest) {
    && ModesFit(m.nodes) && Distinct(m.nodes) && RootsFit(m)
    && exists graph :: Keyed(m.nodes, graph) && WellFounded(graph, RequiredRoots(m))
  }

  /** The rejection names something that is wrong with the manifest. */
  ghost predicate Faulty(m: Manifest, e: Rejection) {
    match e
    case WrongMode => !ModesFit(m.nodes)
    case DuplicatePath => !Distinct(m.nodes)
    case WrongRoots => !RootsFit(m)
    case _ => exists graph :: Keyed(m.nodes, graph) && GraphFault(graph, RequiredRoots(m), e)
  }

  /** The roots an accepted manifest is walked from are all that it names, and nothing else. */
  lemma RootsAreNamed(m: Manifest, root: Root)
    ensures root in RequiredRoots(m) <==>
              if m.openCode then root.kind == Executable && root.path == m.executable
              else
                match root.kind
                case Interpreter => root.path == m.interpreter
                case Module => root.path == m.entrypoint
                case Extension => root.path.Some? && root.path.value in m.extensions
                case _ => false
  {
    if !m.openCode {
      var roots := RequiredRoots(m);
      assert roots[0] == Root(m.interpreter, Interpreter) && roots[1] == Root(m.entrypoint, Module);
      assert forall i | 0 <= i < |m.extensions| :: roots[i + 2] == Root(Some(m.extensions[i]), Extension);
      if root.kind == Extension && root.path.Some? && root.path.value in m.extensions {
        var i :| 0 <= i < |m.extensions| && m.extensions[i] == root.path.value;
        assert roots[i + 2] == root;
      }
    }
  }

  /** Some node of the manifest has this path and kind. */
  ghost predicate HasNode(nodes: seq<Node>, path: Option<string>, kind: NodeKind) {
    path.Some? && exists k | 0 <= k < |nodes| :: nodes[k].path == path.value && nodes[k].kind == kind
  }

  lemma RootIsNode(m: Manifest, graph: Graph, root: Root)
    requires Keyed(m.nodes, graph) && WellFounded(graph, RequiredRoots(m)) && root in RequiredRoots(m)
    ensures HasNode(m.nodes, root.path, root.kind)
  {
    var k :| 0 <= k < |RequiredRoots(m)| && RequiredRoots(m)[k] == root;
    assert RootExists(graph, RequiredRoots(m)[k]);
    var j :| 0 <= j < |m.nodes| && m.nodes[j] == graph[root.path.value];
  }

  /** What an accepted manifest names is there, and of the kind it is named as. */
  lemma AcceptedRootsExist(m: Manifest)
    requires Acceptable(m)
    ensures
      if m.openCode then HasNode(m.nodes, m.executable, Executable) && m.extensions == []
      else
        && HasNode(m.nodes, m.interpreter, Interpreter)
        && HasNode(m.nodes, m.entrypoint, Module)
        && forall extension | extension in m.extensions :: HasNode(m.nodes, Some(extension), Extension)
  {
    var graph :| Keyed(m.nodes, graph) && WellFounded(graph, RequiredRoots(m));
    forall root: Root | root in RequiredRoots(m)
      ensures HasNode(m.nodes, root.path, root.kind)
    {
      RootIsNode(m, graph, root);
    }
    RootsAreNamed(m, Root(m.executable, Executable));
    RootsAreNamed(m, Root(m.interpreter, Interpreter));
    RootsAreNamed(m, Root(m.entrypoint, Module));
    if !m.openCode {
      forall extension | extension in m.extensions
        ensures HasNode(m.nodes, Some(extension), Extension)
      {
        RootsAreNamed(m, Root(Some(extension), Extension));
        assert Root(Some(extension), Extension) in RequiredRoots(m);
      }
    }
  }

  lemma NotWellFounded(m: Manifest, graph: Graph)
    requires Keyed(m.nodes, graph) && !WellFounded(graph, RequiredRoots(m))
    ensures !Acceptable(m)
  {
    if Acceptable(m) {
      var other :| Keyed(m.nodes, other) && WellFounded(other, RequiredRoots(m));
      GraphIsDetermined(m.nodes, graph, other);
    }
  }

  /**
    The graph part of `validateClosureManifest`. Acceptance is exactly `Acceptable`, and a rejection
    names something that is wrong; the native-addon check after the walk and the executable-bit check
    on the roots never reject.
   */
  method Validate(m: Manifest) returns (r: Result<(), Rejection>)
    ensures r.Ok? <==> Acceptable(m)
    ensures r.Err? ==> Faulty(m, r.error)
    ensures r != Err(NativeWithoutEdge) && r != Err(RootNotExecutable)
  {
    var indexed := IndexNodes(m.nodes);
    if indexed.Err? {
      return Err(indexed.error);
    }
    var graph := indexed.value;
    if !RootsFit(m) {
      return Err(WrongRoots);
    }
    var roots := RequiredRoots(m);
    KeyedModes(m.nodes, graph);
    var pushed := PushRoots(graph, roots);
    if pushed.Err? {
      NotWellFounded(m, graph);
      return Err(pushed.error);
    }
    var explored, reachable, nativeTargets := Explore(graph, roots, pushed.value);
    if explored.Err? {
      NotWellFounded(m, graph);
      return explored;
    }
    NativesHaveEdges(m, graph, roots, reachable, nativeTargets);
    r := CheckNodes(m.nodes, reachable, nativeTargets);
    if r.Ok? {
      AllReachedIsAcceptable(m, graph, roots, reachable);
    } else {
      SomeUnreached(m, graph, roots, reachable);
    }
  }

  lemma NativesHaveEdges(m: Manifest, graph: Graph, roots: seq<Root>, reachable: set<string>,
                         nativeTargets: set<string>)
    requires Keyed(m.nodes, graph) && roots == RequiredRoots(m)
    requires forall k | 0 <= k < |roots| :: RootExists(graph, roots[k])
    requires Exploring(graph, roots, reachable, [], nativeTargets)
    ensures forall k | 0 <= k < |m.nodes| && m.nodes[k].path in reachable && m.nodes[k].kind == NativeAddon ::
              m.nodes[k].path in nativeTargets
  {
    forall k | 0 <= k < |m.nodes| && m.nodes[k].path in reachable && m.nodes[k].kind == NativeAddon
      ensures m.nodes[k].path in nativeTargets
    {
      NativeHasEdge(graph, roots, reachable, nativeTargets, m.nodes[k].path);
    }
  }

  lemma SomeUnreached(m: Manifest, graph: Graph, roots: seq<Root>, reachable: set<string>)
    requires Keyed(m.nodes, graph) && roots == RequiredRoots(m) && Explored(graph, roots, reachable, [])
    requires exists k | 0 <= k < |m.nodes| :: m.nodes[k].path !in reachable
    ensures !Acceptable(m) && Faulty(m, Unreachable)
  {
    var k :| 0 <= k < |m.nodes| && m.nodes[k].path !in reachable;
    UnvisitedIsUnreachable(graph, roots, reachable, m.nodes[k].path);
    NotWellFounded(m, graph);
  }

  lemma KeyedModes(nodes: seq<Node>, graph: Graph)
    requires Keyed(nodes, graph) && ModesFit(nodes)
    ensures forall path | path in graph :: graph[path].mode == ExpectedMode(graph[path].kind)
  {
    forall path | path in graph
      ensures graph[path].mode == ExpectedMode(graph[path].kind)
    {
      var k :| 0 <= k < |nodes| && nodes[k] == graph[path];
    }
  }

  /** The loop over all nodes once the walk is done. */
  method CheckNodes(nodes: seq<Node>, reachable: set<string>, nativeTargets: set<string>)
    returns (r: Result<(), Rejection>)
    requires forall k | 0 <= k < |nodes| && nodes[k].path in reachable && nodes[k].kind == NativeAddon ::
               nodes[k].path in nativeTargets
    ensures r.Ok? <==> forall k | 0 <= k < |nodes| :: nodes[k].path in reachable
    ensures r.Err? ==> r.error == Unreachable
  {
    for index := 0 to |nodes|
      invariant forall k | 0 <= k < index :: nodes[k].path in reachable
    {
      var node := nodes[index];
      if node.path !in reachable {
        return Err(Unreachable);
      }
      if node.kind == NativeAddon && node.path !in nativeTargets {
        assert false;
        return Err(NativeWithoutEdge);
      }
    }
    r := Ok(());
  }

  lemma AllReachedIsAcceptable(m: Manifest, graph: Graph, roots: seq<Root>, reachable: set<string>)
    requires ModesFit(m.nodes) && Distinct(m.nodes) && RootsFit(m) && Keyed(m.nodes, graph)
    requires roots == RequiredRoots(m) && forall k | 0 <= k < |roots| :: RootExists(graph, roots[k])
    requires Explored(graph, roots, reachable, []) && AllReachable(graph, roots, reachable)
    requires forall k | 0 <= k < |m.nodes| :: m.nodes[k].path in reachable
    ensures Acceptable(m)
  {
    forall path | path in graph
      ensures path in reachable
    {
      var k :| 0 <= k < |m.nodes| && m.nodes[k] == graph[path];
    }
    assert WellFounded(graph, roots);
  }

  lemma UnvisitedIsUnreachable(graph: Graph, roots: seq<Root>, reachable: set<string>, path: string)
    requires Explored(graph, roots, reachable, []) && path !in reachable
    ensures !Reachable(graph, roots, path)
  {
    if Reachable(graph, roots, path) {
      var walk :| Walk(graph, roots, walk) && walk[|walk| - 1] == path;
      ClosedSetHoldsWalk(graph, roots, reachable, walk);
    }
  }
}
