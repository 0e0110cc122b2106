/** The path trie behind /proc and /dev: patterns with '*' wildcards, each with a file handler or a
    directory lister. Paths are the elements of a parsed Path. */
module StaticFilesystem {
  import opened Kernel
  import opened Paths

  /** A pattern, last element outermost: what stands above it is a pattern too. */
  datatype Pattern = Top | Under(up: Pattern, name: string)

  function PatternOf(es: Elements): Pattern
  {
    if es == [] then Top else Under(PatternOf(es[..|es| - 1]), es[|es| - 1])
  }

  lemma PatternNext(es: Elements, n: nat)
    requires n < |es|
    ensures PatternOf(es[..n + 1]) == Under(PatternOf(es[..n]), es[n])
  {
    var front := es[..n + 1];
    assert front[..n] == es[..n] && front[n] == es[n];
  }

  function Stars(p: Pattern): nat
  {
    match p
    case Top => 0
    case Under(up, name) => Stars(up) + if name == "*" then 1 else 0
  }

  function Depth(p: Pattern): nat
  {
    if p == Top then 0 else Depth(p.up) + 1
  }

  predicate Above(p: Pattern, r: Pattern)
  {
    p == r || (r.Under? && Above(p, r.up))
  }

  /** The pattern matches the path: each element is the name itself or a star. */
  predicate Fits(p: Pattern, path: Elements)
  {
    match p
    case Top => path == []
    case Under(up, name) =>
      path != [] && Fits(up, path[..|path| - 1]) && (name == path[|path| - 1] || name == "*")
  }

  /** The path elements that stand under the pattern's stars, in order. */
  function Captured(p: Pattern, path: Elements): seq<string>
    requires Fits(p, path)
  {
    match p
    case Top => []
    case Under(up, name) => Captured(up, path[..|path| - 1]) + if name == "*" then [path[|path| - 1]] else []
  }

  lemma {:induction false} CapturedCount(p: Pattern, path: Elements)
    requires Fits(p, path)
    ensures |Captured(p, path)| == Stars(p)
  {
    if p.Under? {
      CapturedCount(p.up, path[..|path| - 1]);
    }
  }

  // ---- What a lookup should find, in terms of the registrations only -----------------------

  /** What was registered for a pattern; 0 is the null pointer, and the last lister counts. */
  datatype Entry = Entry(handler: nat, lister: nat)
  type Registry = map<Pattern, Entry>

  function EntryOf(g: Registry, p: Pattern): Entry
  {
    if p in g then g[p] else Entry(0, 0)
  }

  /** The part of the tree that the registered patterns call for. */
  ghost predicate Called(g: Registry, p: Pattern)
  {
    p == Top || exists r :: r in g && Above(p, r)
  }

  /** One level: the exact name first, otherwise a wildcard, otherwise nothing. */
  ghost function Next(g: Registry, p: Pattern, want: string): Option<Pattern>
  {
    if Called(g, Under(p, want)) then Some(Under(p, want))
    else if Called(g, Under(p, "*")) then Some(Under(p, "*"))
    else None
  }

  /** All levels, without ever going back. */
  ghost function Route(g: Registry, path: Elements): Option<Pattern>
  {
    if path == [] then Some(Top)
    else
      match Route(g, path[..|path| - 1])
      case None => None
      case Some(p) => Next(g, p, path[|path| - 1])
  }

  lemma {:induction false} RouteFits(g: Registry, path: Elements)
    ensures var r := Route(g, path); r.Some? ==> Fits(r.value, path) && Called(g, r.value)
  {
    if path != [] {
      RouteFits(g, path[..|path| - 1]);
    }
  }

  /** The pattern a lookup should come to: at each level the name itself if it is called for, a star only if
      it is not. */
  ghost predicate Chosen(g: Registry, p: Pattern, path: Elements)
  {
    match p
    case Top => path == []
    case Under(up, name) =>
      && path != [] && Chosen(g, up, path[..|path| - 1]) && Called(g, p)
      && (name == path[|path| - 1] || (name == "*" && !Called(g, Under(up, path[|path| - 1]))))
  }

  /** The route is that pattern, and there is none exactly if there is no such pattern. */
  lemma {:induction false} RouteExactly(g: Registry, path: Elements, p: Pattern)
    ensures Route(g, path) == Some(p) <==> Chosen(g, p, path)
  {
    if path != [] && p.Under? {
      RouteExactly(g, path[..|path| - 1], p.up);
    }
  }

  /** The k-th captured element is the one under the k-th star. */
  lemma {:induction false} CapturedAt(p: Pattern, path: Elements, up: Pattern)
    requires Fits(p, path) && Above(Under(up, "*"), p)
    ensures Stars(up) < |Captured(p, path)| && Depth(up) < |path| && Captured(p, path)[Stars(up)] == path[Depth(up)]
  {
    FitsDepth(p, path);
    if p == Under(up, "*") {
      CapturedCount(up, path[..|path| - 1]);
    } else {
      CapturedAt(p.up, path[..|path| - 1], up);
    }
  }

  lemma {:induction false} FitsDepth(p: Pattern, path: Elements)
    requires Fits(p, path)
    ensures Depth(p) == |path|
  {
    if p.Under? {
      FitsDepth(p.up, path[..|path| - 1]);
    }
  }

  /** A walk over `path` has come to `p` with these elements captured. */
  ghost predicate OnRoute(g: Registry, path: Elements, p: Pattern, captured: seq<string>)
  {
    Route(g, path) == Some(p) && Fits(p, path) && captured == Captured(p, path)
  }

  /** One more element of the path. */
  lemma RouteNext(g: Registry, path: Elements, depth: nat, at: Pattern, captured: seq<string>, name: string)
    requires depth < |path| && OnRoute(g, path[..depth], at, captured)
    requires Next(g, at, path[depth]) == Some(Under(at, name))
    ensures OnRoute(g, path[..depth + 1], Under(at, name), captured + if name == "*" then [path[depth]] else [])
  {
    var front := path[..depth + 1];
    assert front[..depth] == path[..depth] && front[depth] == path[depth];
  }

  lemma RouteEnds(g: Registry, path: Elements, depth: nat, at: Pattern, captured: seq<string>)
    requires depth < |path| && OnRoute(g, path[..depth], at, captured) && Next(g, at, path[depth]) == None
    ensures Route(g, path[..depth + 1]) == None
  {
    var front := path[..depth + 1];
    assert front[..depth] == path[..depth] && front[depth] == path[depth];
  }

  lemma {:induction false} NoWayOn(g: Registry, path: Elements, n: nat)
    requires n <= |path| && Route(g, path[..n]) == None
    ensures Route(g, path) == None
  {
    if n == |path| {
      assert path[..n] == path;
    } else {
      var front := path[..|path| - 1];
      assert front[..n] == path[..n];
      NoWayOn(g, front, n);
    }
  }

  datatype Answer =
    | Missing
    | Unsupported   // more parameters than the call has a form for
    | File(handler: nat, args: seq<string>)
    | Directory(names: seq<string>, lister: nat, args: seq<string>)

  ghost predicate IsFile(g: Registry, p: Pattern)
  {
    EntryOf(g, p).lister == 0 && forall x: string :: !Called(g, Under(p, x))
  }

  /** The fixed names in a directory: what the patterns call for directly below, wildcards aside. */
  ghost predicate Names(g: Registry, p: Pattern, names: seq<string>)
  {
    && (forall x: string :: x in names <==> x != "*" && Called(g, Under(p, x)))
    && Distinct(names)
  }

  /** What CreateIOHandler has to do with a path. */
  ghost predicate Correct(g: Registry, path: Elements, a: Answer)
  {
    match Route(g, path)
    case None => a == Missing
    case Some(p) => Fits(p, path) && CorrectAt(g, p, Captured(p, path), a)
  }

  ghost predicate CorrectAt(g: Registry, p: Pattern, captured: seq<string>, a: Answer)
  {
    if IsFile(g, p) then a == if Stars(p) <= 2 then File(EntryOf(g, p).handler, captured) else Unsupported
    else if EntryOf(g, p).lister != 0 && Stars(p) > 1 then a == Unsupported
    else
      && a.Directory? && Names(g, p, a.names)
      && a.lister == EntryOf(g, p).lister && a.args == if EntryOf(g, p).lister == 0 then [] else captured
  }

  lemma {:induction false} AboveDepth(p: Pattern, r: Pattern)
    requires Above(p, r)
    ensures Depth(p) <= Depth(r)
  {
    if p != r {
      AboveDepth(p, r.up);
    }
  }

  lemma {:induction false} AboveProper(p: Pattern, r: Pattern)
    requires Above(p, r) && p != r
    ensures exists x :: Above(Under(p, x), r)
  {
    if r.up == p {
      assert Above(Under(p, r.name), r);
    } else {
      AboveProper(p, r.up);
    }
  }

  lemma FilesAreRegistered(g: Registry, p: Pattern)
    requires IsFile(g, p) && Called(g, p)
    ensures p == Top || p in g
  {
    if p != Top {
      var r :| r in g && Above(p, r);
      if p != r {
        AboveProper(p, r);
      }
    }
  }

  /** A file answer always has a registered handler: only the bare root has none to give. */
  lemma FilesHaveHandlers(g: Registry, path: Elements, a: Answer)
    requires forall p :: p in g ==> g[p] != Entry(0, 0)
    requires Correct(g, path, a) && a.File? && path != []
    ensures exists p :: p in g && Fits(p, path) && a.handler == g[p].handler != 0
                        && a.args == Captured(p, path) && |a.args| == Stars(p) <= 2
  {
    var p := Route(g, path).value;
    RouteFits(g, path);
    CapturedCount(p, path);
    FilesAreRegistered(g, p);
  }

  /** Which answer a path gets: none without a route, a handler's for a leaf without a lister, a directory's
      otherwise, as long as handlers take no more than two arguments and listers no more than one. */
  lemma AnswersExactly(g: Registry, path: Elements, a: Answer)
    requires Correct(g, path, a)
    ensures a.Missing? <==> !exists p :: Chosen(g, p, path)
    ensures forall p :: Chosen(g, p, path) ==>
      var leaf, lister := forall x: string :: !Called(g, Under(p, x)), if p in g then g[p].lister else 0;
      && (a.File? <==> leaf && lister == 0 && Stars(p) <= 2)
      && (a.File? ==> a.handler == (if p in g then g[p].handler else 0) && Fits(p, path) && a.args == Captured(p, path))
      && (a.Directory? <==> !(leaf && lister == 0) && (lister == 0 || Stars(p) <= 1))
      && (a.Directory? ==> a.lister == lister && Fits(p, path))
      && (a.Directory? ==> forall x: string :: x in a.names <==> x != "*" && Called(g, Under(p, x)))
      && (a.Directory? && lister != 0 ==> a.args == Captured(p, path))
  {
    forall p ensures Chosen(g, p, path) <==> Route(g, path) == Some(p) {
      RouteExactly(g, path, p);
    }
    match Route(g, path)
    case None =>
    case Some(q) =>
      assert exists p :: Chosen(g, p, path) by {
        assert Chosen(g, q, path);
      }
      assert CorrectAt(g, q, Captured(q, path), a);
      assert a.File? || a.Unsupported? || a.Directory?;
  }

  lemma CalledAfter(g: Registry, r: Pattern, e: Entry)
    ensures forall p :: Called(g[r := e], p) <==> Called(g, p) || Above(p, r)
  {
    forall p ensures Called(g[r := e], p) <==> Called(g, p) || Above(p, r) {
      if Called(g, p) && p != Top {
        var s :| s in g && Above(p, s);
        assert s in g[r := e];
      }
      if Above(p, r) {
        assert r in g[r := e];
      }
    }
  }

  class Node {
    const pattern: string
    var children: seq<Node>
    var numParams: nat
    var handler: nat        // 0 is the null pointer
    var lister: nat
    ghost const place: Pattern   // where in the tree it hangs

    constructor (pattern: string, ghost place: Pattern)
      ensures this.pattern == pattern && this.place == place && children == [] && numParams == 0 && handler == 0
      ensures lister == 0
    {
      this.pattern, children, numParams, handler, lister := pattern, [], 0, 0, 0;
      this.place := place;
    }
  }

  ghost predicate Label(node: Node, g: Registry, p: Pattern)
    reads node
  {
    && node.handler == EntryOf(g, p).handler && node.lister == EntryOf(g, p).lister
    && node.numParams == if p in g then Stars(p) else 0
  }

  predicate Distinct<T(==)>(s: seq<T>)
  {
    forall i, j :: 0 <= i < j < |s| ==> s[i] != s[j]
  }

  /** These children are the nodes directly below `p`, each once and with its name. */
  ghost predicate Below(nodes: map<Pattern, Node>, p: Pattern, children: seq<Node>)
  {
    && (forall x: string {:trigger Under(p, x)} :: Under(p, x) in nodes ==>
          nodes[Under(p, x)].pattern == x && nodes[Under(p, x)] in children)
    && (forall i {:trigger children[i]} :: 0 <= i < |children| ==>
          Under(p, children[i].pattern) in nodes && nodes[Under(p, children[i].pattern)] == children[i])
    && Distinct(children)
  }

  lemma BelowAfter(nodes: map<Pattern, Node>, p: Pattern, children: seq<Node>, want: string, child: Node)
    requires Below(nodes, p, children) && Under(p, want) !in nodes && child !in children && child.pattern == want
    ensures Below(nodes[Under(p, want) := child], p, children + [child])
  {
    var more := children + [child];
    assert more[|children|] == child;
    assert forall i :: 0 <= i < |children| ==> more[i] == children[i];
  }

  lemma BelowElsewhere(nodes: map<Pattern, Node>, q: Pattern, children: seq<Node>, p: Pattern, want: string,
                       child: Node)
    requires Below(nodes, q, children) && p != q && Under(p, want) !in nodes
    ensures Below(nodes[Under(p, want) := child], q, children)
  {
  }

  lemma BelowLeaf(nodes: map<Pattern, Node>, leaf: Pattern, child: Node)
    requires leaf !in nodes && forall p, x {:trigger Under(p, x)} :: Under(p, x) in nodes ==> p in nodes
    ensures Below(nodes[leaf := child], leaf, [])
  {
    forall x: string ensures Under(leaf, x) !in nodes[leaf := child] {
      assert Depth(Under(leaf, x)) != Depth(leaf);
    }
  }

  lemma DistinctSnoc<T>(s: seq<T>, x: T)
    requires Distinct(s) && x !in s
    ensures Distinct(s + [x])
  {
  }

  lemma DistinctNames(nodes: map<Pattern, Node>, p: Pattern, children: seq<Node>)
    requires Below(nodes, p, children)
    ensures forall i, j :: 0 <= i < j < |children| ==> children[i].pattern != children[j].pattern
  {
  }

  class Filesystem {
    const root: Node
    ghost var nodes: map<Pattern, Node>
    ghost var registry: Registry

    /** The heap tree, seen as a map from patterns to nodes. */
    ghost predicate Structure()
      reads this, nodes.Values
    {
      && Top in nodes && nodes[Top] == root
      && (forall p {:trigger nodes[p]} :: p in nodes ==> nodes[p].place == p)
      && (forall p, x {:trigger Under(p, x)} :: Under(p, x) in nodes ==> p in nodes)
      && (forall p {:trigger nodes[p].children} :: p in nodes ==> Below(nodes, p, nodes[p].children))
    }

    /** Every node carries what was registered for it. */
    ghost predicate Labels()
      reads this, nodes.Values
    {
      && (forall p :: p in registry ==> p in nodes)
      && (forall p {:trigger nodes[p]} :: p in nodes ==> Label(nodes[p], registry, p))
    }

    ghost predicate Valid()
      reads this, nodes.Values
    {
      && Structure() && Labels()
      && forall p :: p in nodes <==> Called(registry, p)
    }

    constructor ()
      ensures Valid() && registry == map[] && fresh(nodes.Values)
    {
      root := new Node("", Top);
      nodes := map[Top := root];
      registry := map[];
    }

    /** The child of the node at `p` with exactly this pattern, if any. */
    method FindChild(ghost p: Pattern, node: Node, want: string) returns (child: Node?)
      requires Structure() && p in nodes && nodes[p] == node
      ensures if Under(p, want) in nodes then child == nodes[Under(p, want)] else child == null
    {
      var i := 0;
      while i < |node.children|
        invariant 0 <= i <= |node.children|
        invariant forall j :: 0 <= j < i ==> node.children[j].pattern != want
      {
        if node.children[i].pattern == want {
          return node.children[i];
        }
        i := i + 1;
      }
      return null;
    }

    /** A new node below the one at `p`. */
    method AddChild(ghost p: Pattern, node: Node, want: string) returns (child: Node)
      requires Structure() && Labels() && p in nodes && nodes[p] == node && Under(p, want) !in nodes
      modifies this`nodes, node`children
      ensures Structure() && Labels() && nodes == old(nodes)[Under(p, want) := child]
      ensures fresh(child)
    {
      child := new Node(want, Under(p, want));
      node.children := node.children + [child];
      ghost var was := nodes;
      nodes := nodes[Under(p, want) := child];
      BelowAfter(was, p, old(node.children), want, child);
      BelowLeaf(was, Under(p, want), child);
      forall q | q in nodes ensures Below(nodes, q, nodes[q].children) && Label(nodes[q], registry, q) {
        if q == Under(p, want) {
          assert q !in registry;
        } else {
          assert old(Label(was[q], registry, q));
          if q != p {
            BelowElsewhere(was, q, old(was[q].children), p, want, child);
          }
        }
      }
    }

    /** The node for one more element, made if it is missing. */
    method EnsureChild(ghost p: Pattern, node: Node, want: string) returns (child: Node)
      requires Structure() && Labels() && p in nodes && nodes[p] == node
      modifies this`nodes, node`children
      ensures Structure() && Labels() && Under(p, want) in nodes && nodes[Under(p, want)] == child
      ensures nodes == old(nodes)[Under(p, want) := child] && (Under(p, want) in old(nodes) || fresh(child))
      ensures Under(p, want) in old(nodes) ==> nodes == old(nodes)
    {
      var found := FindChild(p, node, want);
      if found == null {
        child := AddChild(p, node, want);
      } else {
        child := found;
        assert nodes == nodes[Under(p, want) := child];
      }
    }

    /** Nodes stay in their places and new ones are new objects. */
    twostate predicate Extends()
      reads this
    {
      forall p :: p in nodes ==> (p in old(nodes) && nodes[p] == old(nodes)[p]) || fresh(nodes[p])
    }

    /** The walk of both registrations: the node for `elems`, with the missing ones made. */
    method EnsurePath(elems: Elements) returns (node: Node)
      requires Structure() && Labels()
      modifies this`nodes, nodes.Values`children
      ensures Structure() && Labels() && PatternOf(elems) in nodes && nodes[PatternOf(elems)] == node
      ensures forall p :: p in nodes <==> p in old(nodes) || Above(p, PatternOf(elems))
      ensures Extends()
    {
      node := root;
      var depth := 0;
      ghost var at := Top;
      while depth < |elems|
        invariant 0 <= depth <= |elems| && at == PatternOf(elems[..depth])
        invariant Structure() && Labels() && at in nodes && nodes[at] == node
        invariant forall p :: p in nodes <==> p in old(nodes) || Above(p, at)
        invariant Extends()
      {
        var want := elems[depth];
        PatternNext(elems, depth);
        assert forall p :: Above(p, Under(at, want)) <==> p == Under(at, want) || Above(p, at);
        node := EnsureChild(at, node, want);
        at := Under(at, want);
        depth := depth + 1;
      }
      assert elems[..depth] == elems;
    }

    /** The nodes above a new leaf, and the leaf. */
    method AddLeaf(upper: Elements, last: string) returns (child: Node)
      requires Structure() && Labels() && Under(PatternOf(upper), last) !in nodes
      modifies this`nodes, nodes.Values`children
      ensures var leaf := Under(PatternOf(upper), last);
        && Structure() && Labels() && leaf in nodes && nodes[leaf] == child && fresh(child)
        && forall p :: p in nodes <==> p in old(nodes) || Above(p, leaf)
      ensures Extends()
    {
      ghost var leaf := Under(PatternOf(upper), last);
      assert !Above(leaf, PatternOf(upper)) by {
        if Above(leaf, PatternOf(upper)) {
          AboveDepth(leaf, PatternOf(upper));
        }
      }
      assert forall p :: Above(p, leaf) <==> p == leaf || Above(p, PatternOf(upper));
      var node := EnsurePath(upper);
      child := AddChild(PatternOf(upper), node, last);
    }

    method SetEntry(ghost p: Pattern, node: Node, handler: nat, lister: nat, wildcards: nat)
      requires Structure() && Labels() && p in nodes && nodes[p] == node && wildcards == Stars(p)
      modifies this`registry, node`handler, node`lister, node`numParams
      ensures Structure() && Labels() && registry == old(registry)[p := Entry(handler, lister)]
    {
      node.handler, node.lister, node.numParams := handler, lister, wildcards;
      registry := registry[p := Entry(handler, lister)];
      forall q | q in nodes
        ensures nodes[q].children == old(nodes[q].children) && Label(nodes[q], registry, q)
      {
        assert old(Label(nodes[q], registry, q)) && nodes[q].place == q;
      }
    }

    /** The last element is always a new node; a pattern without elements names its node "". */
    method AddFileInternal(elems: Elements, wildcards: nat, handler: nat)
      requires Valid()
      requires var leaf := PatternOf(if elems == [] then [""] else elems);
        !Called(registry, leaf) && wildcards == Stars(leaf)
      modifies this`nodes, this`registry, nodes.Values`children
      ensures Valid() && Extends()
      ensures registry == old(registry)[PatternOf(if elems == [] then [""] else elems) := Entry(handler, 0)]
    {
      var last, upper := "", elems;
      if elems != [] {
        last, upper := elems[|elems| - 1], elems[..|elems| - 1];
      }
      ghost var leaf := Under(PatternOf(upper), last);
      assert elems == [] ==> [""][..0] == elems;
      CalledAfter(registry, leaf, Entry(handler, 0));
      var child := AddLeaf(upper, last);
      SetEntry(leaf, child, handler, 0, wildcards);
    }

    /** A pattern that is there already gets the lister, and keeps its handler. */
    method AddListerInternal(elems: Elements, wildcards: nat, lister: nat)
      requires Valid() && wildcards == Stars(PatternOf(elems))
      modifies this`nodes, this`registry
      modifies nodes.Values`children, nodes.Values`handler, nodes.Values`lister, nodes.Values`numParams
      ensures Valid() && Extends()
      ensures registry == old(registry)[PatternOf(elems) := EntryOf(old(registry), PatternOf(elems)).(lister := lister)]
    {
      ghost var leaf := PatternOf(elems);
      CalledAfter(registry, leaf, EntryOf(registry, leaf).(lister := lister));
      var node := EnsurePath(elems);
      SetEntry(leaf, node, node.handler, lister, wildcards);
    }

    /** One level of a lookup: a wildcard is remembered, the exact name ends the search. */
    method Descend(ghost p: Pattern, node: Node, want: string) returns (found: Node?)
      requires Structure() && p in nodes && nodes[p] == node
      ensures if Under(p, want) in nodes then found == nodes[Under(p, want)] && found.pattern == want
              else if Under(p, "*") in nodes then found == nodes[Under(p, "*")] && found.pattern == "*"
              else found == null
    {
      found := null;
      var i := 0;
      while i < |node.children|
        invariant 0 <= i <= |node.children|
        invariant forall j :: 0 <= j < i ==> node.children[j].pattern != want
        invariant if found == null then forall j :: 0 <= j < i ==> node.children[j].pattern != "*"
                  else Under(p, "*") in nodes && found == nodes[Under(p, "*")]
      {
        if node.children[i].pattern == "*" {
          found := node.children[i];
        }
        if node.children[i].pattern == want {
          return node.children[i];
        }
        i := i + 1;
      }
    }

    /** The names of a directory's own children. */
    method FixedNames(ghost p: Pattern, node: Node) returns (names: seq<string>)
      requires Structure() && p in nodes && nodes[p] == node
      ensures forall x: string :: x in names <==> x != "*" && Under(p, x) in nodes
      ensures Distinct(names)
    {
      names := [];
      var i := 0;
      ghost var children := node.children;
      DistinctNames(nodes, p, children);
      while i < |node.children|
        invariant 0 <= i <= |node.children|
        invariant forall x: string :: x in names ==> x != "*" && exists j :: 0 <= j < i && children[j].pattern == x
        invariant forall j :: 0 <= j < i && children[j].pattern != "*" ==> children[j].pattern in names
        invariant Distinct(names)
      {
        if node.children[i].pattern != "*" {
          DistinctSnoc(names, children[i].pattern);
          names := names + [node.children[i].pattern];
        }
        i := i + 1;
      }
    }

    /** The node that the per-level rule selects, and what its stars stand for. */
    method Lookup(path: Elements) returns (node: Node?, wildcards: seq<string>)
      requires Valid()
      ensures match Route(registry, path)
              case None => node == null
              case Some(p) => p in nodes && node == nodes[p] && Fits(p, path) && wildcards == Captured(p, path)
    {
      var cur := root;
      var depth := 0;
      wildcards := [];
      ghost var at := Top;
      while depth < |path|
        invariant 0 <= depth <= |path|
        invariant at in nodes && nodes[at] == cur && OnRoute(registry, path[..depth], at, wildcards)
      {
        var want := path[depth];
        var found := Descend(at, cur, want);
        if found == null {
          RouteEnds(registry, path, depth, at, wildcards);
          NoWayOn(registry, path, depth + 1);
          return null, [];
        }
        RouteNext(registry, path, depth, at, wildcards, found.pattern);
        if found.pattern == "*" {
          wildcards := wildcards + [want];
        }
        cur := found;
        at := Under(at, found.pattern);
        depth := depth + 1;
      }
      assert path[..depth] == path;
      node := cur;
    }

    method CreateIOHandler(path: Elements) returns (a: Answer)
      requires Valid()
      ensures Correct(registry, path, a)
    {
      var node, wildcards := Lookup(path);
      if node == null {
        return Missing;
      }
      ghost var p := Route(registry, path).value;
      CapturedCount(p, path);
      if node.children == [] && node.lister == 0 {
        a := ReplyFile(registry, p, node, wildcards);
      } else {
        assert node.children != [] ==> Called(registry, Under(p, node.children[0].pattern));
        var names := FixedNames(p, node);
        a := ReplyDirectory(registry, p, node, names, wildcards);
      }
    }
  }

  /** The handler is called with the path's captured elements. */
  method ReplyFile(ghost g: Registry, ghost p: Pattern, node: Node, wildcards: seq<string>) returns (a: Answer)
    requires Label(node, g, p) && Called(g, p) && IsFile(g, p) && |wildcards| == Stars(p)
    ensures CorrectAt(g, p, wildcards, a)
  {
    FilesAreRegistered(g, p);
    if node.numParams == 0 {
      assert wildcards == [];
      return File(node.handler, []);
    } else if node.numParams == 1 {
      assert wildcards == [wildcards[0]];
      return File(node.handler, [wildcards[0]]);
    } else if node.numParams == 2 {
      assert wildcards == [wildcards[0], wildcards[1]];
      return File(node.handler, [wildcards[0], wildcards[1]]);
    }
    return Unsupported;
  }

  /** The fixed names first, then whatever the lister gives for the captured elements. */
  method ReplyDirectory(ghost g: Registry, ghost p: Pattern, node: Node, names: seq<string>, wildcards: seq<string>)
      returns (a: Answer)
    requires Label(node, g, p) && !IsFile(g, p) && |wildcards| == Stars(p) && Names(g, p, names)
    ensures CorrectAt(g, p, wildcards, a)
  {
    if node.lister == 0 {
      return Directory(names, 0, []);
    } else if node.numParams == 0 {
      assert wildcards == [];
      return Directory(names, node.lister, []);
    } else if node.numParams == 1 {
      assert wildcards == [wildcards[0]];
      return Directory(names, node.lister, [wildcards[0]]);
    }
    return Unsupported;
  }
}
