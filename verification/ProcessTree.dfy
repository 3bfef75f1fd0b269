/** The search for the processes of one browser in a list of (pid, parent pid) pairs. */
module ProcessTree {
  import opened Sequences

  type Pid = nat

  datatype Process = Process(pid: Pid, parent: Pid)

  /** Pids from the first to the last, each one the parent of the next. */
  ghost predicate Descent(parents: seq<Process>, path: seq<Pid>) {
    path != [] && forall i :: 0 < i < |path| ==> Link(parents, path, i)
  }

  ghost predicate Link(parents: seq<Process>, path: seq<Pid>, i: int)
    requires 0 < i < |path|
  {
    Process(path[i], path[i - 1]) in parents
  }

  ghost predicate Reachable(parents: seq<Process>, root: Pid, pid: Pid) {
    exists path :: Descent(parents, path) && path[0] == root && path[|path| - 1] == pid
  }

  function Lookup(children: map<Pid, seq<Pid>>, pid: Pid): seq<Pid> {
    if pid in children then children[pid] else []
  }

  method ChildrenByParent(parents: seq<Process>) returns (children: map<Pid, seq<Pid>>)
    ensures forall pid, child :: child in Lookup(children, pid) <==> Process(child, pid) in parents
  {
    children := map[];
    for n := 0 to |parents|
      invariant forall pid, child :: child in Lookup(children, pid) <==> Process(child, pid) in parents[..n]
    {
      assert parents[..n + 1] == parents[..n] + [parents[n]];
      var p := parents[n];
      children := children[p.parent := Lookup(children, p.parent) + [p.pid]];
    }
    assert parents[..|parents|] == parents;
  }

  ghost function Pids(parents: seq<Process>): set<Pid> {
    set p | p in parents :: p.pid
  }

  /** What has been found is right. */
  ghost predicate Sound(parents: seq<Process>, root: Pid, seen: set<Pid>, found: seq<Pid>) {
    && Distinct(found)
    && root !in found
    && (forall pid :: pid in seen <==> pid == root || pid in found)
    && (forall pid :: pid in seen ==> Reachable(parents, root, pid))
  }

  /** Every process seen that is neither queued nor being expanded has all its children seen. */
  ghost predicate Explored(parents: seq<Process>, seen: set<Pid>, queue: seq<Pid>, busy: set<Pid>) {
    && busy <= seen
    && (forall pid :: pid in queue ==> pid in seen)
    && (forall p :: p in parents && p.parent in seen && p.parent !in queue && p.parent !in busy ==> p.pid in seen)
  }

  ghost function Work(parents: seq<Process>, seen: set<Pid>, queue: seq<Pid>): nat {
    |Pids(parents) - seen| + |queue|
  }

  /** Every process below `root`, each once, `root` left out; the list may hold cycles, several
      parents for one pid, and the same line twice. */
  method Descendants(root: Pid, parents: seq<Process>) returns (found: seq<Pid>)
    ensures Distinct(found)
    ensures forall pid :: pid in found <==> pid != root && Reachable(parents, root, pid)
  {
    var children := ChildrenByParent(parents);
    found := [];
    var seen := {root};
    var queue := [root];
    RootIsReachable(parents, root);
    while queue != []
      invariant Sound(parents, root, seen, found)
      invariant Explored(parents, seen, queue, {})
      decreases Work(parents, seen, queue)
    {
      TakeProcess(parents, seen, queue);
      var mine := Lookup(children, queue[0]);
      assert forall child :: child in mine <==> Process(child, queue[0]) in parents;
      seen, found, queue := Expand(root, parents, queue[0], mine, seen, found, queue[1..]);
    }
    SoundAndExploredIsExact(parents, root, seen, found);
  }

  lemma TakeProcess(parents: seq<Process>, seen: set<Pid>, queue: seq<Pid>)
    requires queue != [] && Explored(parents, seen, queue, {})
    ensures Explored(parents, seen, queue[1..], {queue[0]})
    ensures Work(parents, seen, queue[1..]) < Work(parents, seen, queue)
  {
    assert queue == [queue[0]] + queue[1..];
  }

  lemma FindChild(parents: seq<Process>, root: Pid, seen: set<Pid>, found: seq<Pid>, queue: seq<Pid>, pid: Pid, child: Pid)
    requires Sound(parents, root, seen, found) && Explored(parents, seen, queue, {pid})
    requires pid in seen && child !in seen && Process(child, pid) in parents
    ensures Sound(parents, root, seen + {child}, found + [child])
    ensures Explored(parents, seen + {child}, queue + [child], {pid})
    ensures Work(parents, seen + {child}, queue + [child]) == Work(parents, seen, queue)
  {
    ChildIsReachable(parents, root, pid, child);
    assert child in Pids(parents) - seen;
    assert Pids(parents) - (seen + {child}) == (Pids(parents) - seen) - {child};
  }

  lemma CloseProcess(parents: seq<Process>, seen: set<Pid>, queue: seq<Pid>, pid: Pid, mine: seq<Pid>)
    requires Explored(parents, seen, queue, {pid})
    requires forall child :: Process(child, pid) in parents ==> child in mine
    requires forall c :: c in mine ==> c in seen
    ensures Explored(parents, seen, queue, {})
  {
    forall p | p in parents && p.parent == pid ensures p.pid in seen {
      assert Process(p.pid, pid) == p;
    }
  }

  lemma SoundAndExploredIsExact(parents: seq<Process>, root: Pid, seen: set<Pid>, found: seq<Pid>)
    requires Sound(parents, root, seen, found) && Explored(parents, seen, [], {})
    ensures forall pid :: pid in found <==> pid != root && Reachable(parents, root, pid)
  {
    forall pid | Reachable(parents, root, pid) ensures pid in seen {
      var path :| Descent(parents, path) && path[0] == root && path[|path| - 1] == pid;
      ClosedUnderDescent(parents, path, seen);
    }
  }

  /** Queue the children of `pid` that have not been seen. */
  method Expand(root: Pid, ghost parents: seq<Process>, pid: Pid, mine: seq<Pid>, seen: set<Pid>, found: seq<Pid>, queue: seq<Pid>)
    returns (seen': set<Pid>, found': seq<Pid>, queue': seq<Pid>)
    requires Sound(parents, root, seen, found) && Explored(parents, seen, queue, {pid})
    requires forall child :: child in mine <==> Process(child, pid) in parents
    ensures Sound(parents, root, seen', found') && Explored(parents, seen', queue', {})
    ensures Work(parents, seen', queue') == Work(parents, seen, queue)
  {
    seen', found', queue' := seen, found, queue;
    for n := 0 to |mine|
      invariant Sound(parents, root, seen', found')
      invariant Explored(parents, seen', queue', {pid})
      invariant forall c :: c in mine[..n] ==> c in seen'
      invariant Work(parents, seen', queue') == Work(parents, seen, queue)
    {
      var child := mine[n];
      NextPrefix(mine, n);
      if child !in seen' {
        FindChild(parents, root, seen', found', queue', pid, child);
        seen' := seen' + {child};
        found' := found' + [child];
        queue' := queue' + [child];
      }
    }
    assert mine[..|mine|] == mine;
    CloseProcess(parents, seen', queue', pid, mine);
  }

  lemma NextPrefix(mine: seq<Pid>, n: nat)
    requires n < |mine|
    ensures mine[..n + 1] == mine[..n] + [mine[n]] && mine[n] in mine
  {
  }

  lemma RootIsReachable(parents: seq<Process>, root: Pid)
    ensures Reachable(parents, root, root)
  {
    assert Descent(parents, [root]);
  }

  lemma ChildIsReachable(parents: seq<Process>, root: Pid, pid: Pid, child: Pid)
    requires Reachable(parents, root, pid) && Process(child, pid) in parents
    ensures Reachable(parents, root, child)
  {
    var path :| Descent(parents, path) && path[0] == root && path[|path| - 1] == pid;
    var longer := path + [child];
    forall i | 0 < i < |longer| ensures Link(parents, longer, i) {
      assert i < |path| ==> Link(parents, path, i);
    }
    assert Descent(parents, longer) && longer[0] == root;
  }

  lemma {:induction false} ClosedUnderDescent(parents: seq<Process>, path: seq<Pid>, closed: set<Pid>)
    requires Descent(parents, path) && path[0] in closed && Explored(parents, closed, [], {})
    ensures path[|path| - 1] in closed
  {
    if |path| > 1 {
      var shorter := path[..|path| - 1];
      forall i | 0 < i < |shorter| ensures Link(parents, shorter, i) {
        assert Link(parents, path, i);
      }
      ClosedUnderDescent(parents, shorter, closed);
      assert Link(parents, path, |path| - 1);
    }
  }
}
