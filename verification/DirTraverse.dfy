/**
 * Traversal of a directory tree, depth first and breadth first. Both walk with one path buffer, to which the
 * name of an entry is appended and from which it is cut off again.
 */
module DirTraverse {
  const MAX_PATH_LENGTH := 256
  const DELIMITER := '/'

  // ----- The path buffer -----

  /** The buffer holds p as a C string. */
  ghost predicate Holds(s: seq<char>, p: string) {
    |p| < |s| && s[..|p|] == p && s[|p|] == '\0' && '\0' !in p
  }

  lemma HoldsAt(s: seq<char>, p: string)
    requires Holds(s, p)
    ensures s[|p|] == '\0' && forall j :: 0 <= j < |p| ==> s[j] == p[j] != '\0'
  {
    assert forall j :: 0 <= j < |p| ==> s[..|p|][j] == s[j];
  }

  function Join(p: string, name: string): string {
    p + [DELIMITER] + name
  }

  method StrLen(buf: array<char>, ghost p: string) returns (n: nat)
    requires Holds(buf[..], p)
    ensures n == |p|
  {
    HoldsAt(buf[..], p);
    n := 0;
    while buf[n] != '\0'
      invariant n <= |p|
      decreases |p| - n
    {
      n := n + 1;
    }
  }

  method AppendNewPath(buf: array<char>, name: string, ghost p: string)
    requires Holds(buf[..], p) && '\0' !in name && |p| + 1 + |name| < buf.Length
    modifies buf
    ensures Holds(buf[..], Join(p, name))
  {
    var destSize := StrLen(buf, p);
    buf[destSize] := DELIMITER;
    var i := 0;
    while i < |name|
      invariant 0 <= i <= |name|
      invariant buf[..destSize + 1 + i] == p + [DELIMITER] + name[..i]
    {
      buf[destSize + 1 + i] := name[i];
      i := i + 1;
    }
    buf[destSize + 1 + |name|] := '\0';
    assert name[..i] == name;
  }

  /** The path cut at its last delimiter; but a delimiter at the very start is not cut off. */
  function Cleared(p: string): string {
    CutAt(p, |p|)
  }

  function CutAt(p: string, n: nat): string
    requires n <= |p|
  {
    if n == 0 then p else if p[n - 1] == DELIMITER then (if n == 1 then p else p[..n - 1]) else CutAt(p, n - 1)
  }

  lemma {:induction false} CutAtLast(p: string, n: nat, k: nat)
    requires k < n <= |p| && p[k] == DELIMITER && forall j :: k < j < n ==> p[j] != DELIMITER
    ensures CutAt(p, n) == if k == 0 then p else p[..k]
  {
    if n - 1 != k {
      CutAtLast(p, n - 1, k);
    }
  }

  method ClearNewPath(buf: array<char>, ghost p: string)
    requires Holds(buf[..], p) && DELIMITER in p
    modifies buf
    ensures Holds(buf[..], Cleared(p))
  {
    var pathSize := StrLen(buf, p);
    var endPtr := pathSize - 1;
    assert forall j :: 0 <= j < |p| ==> buf[j] == buf[..][..|p|][j] == p[j];
    while buf[endPtr] != DELIMITER
      invariant 0 <= endPtr < |p| && forall j :: endPtr < j < |p| ==> p[j] != DELIMITER
      invariant exists j :: 0 <= j <= endPtr && p[j] == DELIMITER
      decreases endPtr
    {
      endPtr := endPtr - 1;
    }
    CutAtLast(p, |p|, endPtr);
    if endPtr != 0 {
      buf[endPtr] := '\0';
      assert buf[..][..endPtr] == p[..endPtr];
    } else {
      buf[endPtr] := DELIMITER;
      assert buf[..][..|p|] == p;
    }
  }

  /** Cutting undoes appending exactly for a path that is not empty and a name without a delimiter. */
  lemma ClearUndoesAppendIff(p: string, name: string)
    ensures Cleared(Join(p, name)) == p <==> p != "" && DELIMITER !in name
  {
    var q := Join(p, name);
    if DELIMITER in name {
      var k := LastDelimiter(q, |q|, |p|);
      CutAtLast(q, |q|, k);
      var i :| 0 <= i < |name| && name[i] == DELIMITER;
      assert q[|p| + 1 + i] == DELIMITER;
    } else {
      assert forall j :: |p| < j < |q| ==> q[j] == name[j - |p| - 1];
      CutAtLast(q, |q|, |p|);
      assert q[..|p|] == p;
    }
  }

  lemma {:induction false} LastDelimiter(q: string, n: nat, at: nat) returns (k: nat)
    requires at < n <= |q| && q[at] == DELIMITER
    ensures at <= k < n && q[k] == DELIMITER && forall j :: k < j < n ==> q[j] != DELIMITER
  {
    if q[n - 1] == DELIMITER {
      k := n - 1;
    } else {
      k := LastDelimiter(q, n - 1, at);
    }
  }

  // ----- The tree, and the calls of the two traversals -----

  datatype Node = Regular(name: string) | Other(name: string) | Directory(name: string, entries: Entries)

  /** The entries of a directory in the order in which readdir gives them. */
  datatype Entries = End | Entry(node: Node, rest: Entries)

  datatype Call = DealWithReg(path: string) | DealWithOth(path: string)

  /** A directory waiting in the queue: its path, and what opendir finds there. */
  datatype Waiting = Waiting(path: string, entries: Entries)

  predicate Skipped(n: Node) {
    n.name == "." || n.name == ".."
  }

  function DepthCalls(path: string, es: Entries): seq<Call>
    decreases es
  {
    match es
    case End => []
    case Entry(n, rest) => DeepCalls(path, n) + DepthCalls(path, rest)
  }

  /** The calls for one entry, and for everything below it. */
  function DeepCalls(path: string, n: Node): seq<Call>
    decreases n
  {
    if !Skipped(n) && n.Directory? then DepthCalls(Join(path, n.name), n.entries) else OwnCall(path, n)
  }

  function OwnCall(path: string, n: Node): seq<Call> {
    if Skipped(n) then []
    else match n
      case Regular(name) => [DealWithReg(Join(path, name))]
      case Other(name) => [DealWithOth(Join(path, name))]
      case Directory(_, _) => []
  }

  /** The calls for the files right in the directory. */
  function OwnCalls(path: string, es: Entries): seq<Call> {
    match es
    case End => []
    case Entry(n, rest) => OwnCall(path, n) + OwnCalls(path, rest)
  }

  function Subdir(path: string, n: Node): seq<Waiting> {
    if !Skipped(n) && n.Directory? then [Waiting(Join(path, n.name), n.entries)] else []
  }

  function Subdirs(path: string, es: Entries): seq<Waiting> {
    match es
    case End => []
    case Entry(n, rest) => Subdir(path, n) + Subdirs(path, rest)
  }

  function Size(es: Entries): nat
    decreases es
  {
    match es
    case End => 0
    case Entry(n, rest) => 1 + (if n.Directory? then Size(n.entries) else 0) + Size(rest)
  }

  function Weight(queue: seq<Waiting>): nat {
    if queue == [] then 0 else 1 + Size(queue[0].entries) + Weight(queue[1..])
  }

  lemma {:induction false} WeightSplit(q: seq<Waiting>, r: seq<Waiting>)
    ensures Weight(q + r) == Weight(q) + Weight(r)
  {
    if q == [] {
      assert q + r == r;
    } else {
      assert (q + r)[1..] == q[1..] + r;
      WeightSplit(q[1..], r);
    }
  }

  lemma {:induction false} SubdirsWeigh(path: string, es: Entries)
    ensures Weight(Subdirs(path, es)) <= Size(es)
  {
    if es.Entry? {
      SubdirsWeigh(path, es.rest);
      var n := es.node;
      if !Skipped(n) && n.Directory? {
        WeightSplit([Waiting(Join(path, n.name), n.entries)], Subdirs(path, es.rest));
      } else {
        assert [] + Subdirs(path, es.rest) == Subdirs(path, es.rest);
      }
    }
  }

  lemma WeightFalls(q: seq<Waiting>)
    requires q != []
    ensures Weight(q[1..] + Subdirs(q[0].path, q[0].entries)) < Weight(q)
  {
    SubdirsWeigh(q[0].path, q[0].entries);
    WeightSplit(q[1..], Subdirs(q[0].path, q[0].entries));
  }

  /** The calls made from a queue: one directory after the other, whose own subdirectories go to the end. */
  function WidthCalls(queue: seq<Waiting>): seq<Call>
    decreases Weight(queue)
  {
    if queue == [] then []
    else
      WeightFalls(queue);
      OwnCalls(queue[0].path, queue[0].entries) + WidthCalls(queue[1..] + Subdirs(queue[0].path, queue[0].entries))
  }

  /** The calls of depth-first traversals of all directories of the queue, in no particular order. */
  function Bag(queue: seq<Waiting>): multiset<Call> {
    if queue == [] then multiset{} else multiset(DepthCalls(queue[0].path, queue[0].entries)) + Bag(queue[1..])
  }

  lemma {:induction false} BagSplit(q: seq<Waiting>, r: seq<Waiting>)
    ensures Bag(q + r) == Bag(q) + Bag(r)
  {
    if q == [] {
      assert q + r == r;
    } else {
      assert (q + r)[1..] == q[1..] + r;
      BagSplit(q[1..], r);
    }
  }

  lemma DeepSplits(path: string, n: Node)
    ensures multiset(DeepCalls(path, n)) == multiset(OwnCall(path, n)) + Bag(Subdir(path, n))
  {
    if !Skipped(n) && n.Directory? {
      assert Subdir(path, n)[1..] == [];
    }
  }

  /** A depth-first traversal makes the directory's own calls and those of its subdirectories. */
  lemma {:induction false} DepthSplits(path: string, es: Entries)
    ensures multiset(DepthCalls(path, es)) == multiset(OwnCalls(path, es)) + Bag(Subdirs(path, es))
  {
    hide DeepCalls, OwnCall, Subdir;
    if es.Entry? {
      DepthSplits(path, es.rest);
      DeepSplits(path, es.node);
      hide Bag;
      BagSplit(Subdir(path, es.node), Subdirs(path, es.rest));
    }
  }

  lemma {:induction false} WidthIsBag(queue: seq<Waiting>)
    ensures multiset(WidthCalls(queue)) == Bag(queue)
    decreases Weight(queue)
  {
    if queue != [] {
      var w, sub := queue[0], Subdirs(queue[0].path, queue[0].entries);
      WeightFalls(queue);
      WidthIsBag(queue[1..] + sub);
      BagSplit(queue[1..], sub);
      DepthSplits(w.path, w.entries);
    }
  }

  /** Both traversals make the same calls, each as often. */
  lemma {:induction false} SameCalls(path: string, es: Entries)
    ensures multiset(DepthCalls(path, es)) == multiset(WidthCalls([Waiting(path, es)]))
  {
    var q := [Waiting(path, es)];
    WidthIsBag(q);
    assert q[1..] == [];
  }

  // ----- The traversals themselves -----

  predicate NameOk(name: string) {
    '\0' !in name && DELIMITER !in name
  }

  /** All names are names of files, and all paths below this one fit into the buffer. */
  predicate Fits(path: string, es: Entries)
    decreases es
  {
    es.Entry? ==>
      && (!Skipped(es.node) ==> NameOk(es.node.name) && |path| + 1 + |es.node.name| < MAX_PATH_LENGTH)
      && (!Skipped(es.node) && es.node.Directory? ==> Fits(Join(path, es.node.name), es.node.entries))
      && Fits(path, es.rest)
  }

  lemma FitsParts(path: string, es: Entries)
    requires Fits(path, es) && es.Entry?
    ensures Fits(path, Entry(es.node, End)) && Fits(path, es.rest)
  {
  }

  lemma Assoc<T>(a: seq<T>, b: seq<T>, c: seq<T>)
    ensures (a + b) + c == a + (b + c)
  {
  }

  lemma EntriesUnfold(path: string, es: Entries)
    requires es.Entry?
    ensures OwnCalls(path, es) == OwnCall(path, es.node) + OwnCalls(path, es.rest)
    ensures Subdirs(path, es) == Subdir(path, es.node) + Subdirs(path, es.rest)
  {
  }

  lemma EntriesEnd(path: string)
    ensures OwnCalls(path, End) == [] && Subdirs(path, End) == []
  {
  }

  lemma WidthUnfolds(q: seq<Waiting>)
    ensures q == [] ==> WidthCalls(q) == []
    ensures q != [] ==> WidthCalls(q) == OwnCalls(q[0].path, q[0].entries) + WidthCalls(q[1..] + Subdirs(q[0].path, q[0].entries))
  {
  }

  lemma AllFitParts(q: seq<Waiting>)
    requires AllFit(q) && q != []
    ensures AllFit(q[..1]) && AllFit(q[1..]) && q[..1] == [q[0]] && '\0' !in q[0].path && |q[0].path| < MAX_PATH_LENGTH
  {
  }

  method CopyPath(path: string) returns (buf: array<char>)
    requires '\0' !in path && |path| < MAX_PATH_LENGTH
    ensures fresh(buf) && buf.Length == MAX_PATH_LENGTH && Holds(buf[..], path)
  {
    buf := new char[MAX_PATH_LENGTH](_ => '\0');
    WritePath(buf, path);
  }

  method WritePath(buf: array<char>, path: string)
    requires '\0' !in path && |path| < buf.Length
    modifies buf
    ensures Holds(buf[..], path)
  {
    var i := 0;
    while i < |path|
      invariant 0 <= i <= |path| && buf[..i] == path[..i]
    {
      buf[i] := path[i];
      i := i + 1;
    }
    buf[|path|] := '\0';
    assert path[..i] == path;
  }

  method ReadPath(buf: array<char>, ghost p: string) returns (q: string)
    requires Holds(buf[..], p)
    ensures q == p
  {
    var n := StrLen(buf, p);
    q := buf[..n];
  }

  method Restore(buf: array<char>, ghost p: string, ghost name: string)
    requires p != "" && NameOk(name) && Holds(buf[..], Join(p, name))
    modifies buf
    ensures Holds(buf[..], p)
  {
    ClearUndoesAppendIff(p, name);
    assert Join(p, name)[|p|] == DELIMITER;
    ClearNewPath(buf, Join(p, name));
  }

  /** opendir finds nothing under the empty path, and the program ends; all other directories can be opened. */
  method DepthTraverseDir(path: string, es: Entries) returns (ok: bool, calls: seq<Call>)
    requires '\0' !in path && |path| < MAX_PATH_LENGTH && Fits(path, es)
    ensures ok <==> path != ""
    ensures calls == if ok then DepthCalls(path, es) else []
    decreases es
  {
    hide Holds, DeepCalls;
    calls := [];
    var allPath := CopyPath(path);
    if path == "" {
      return false, calls;
    }
    ok := true;
    var left := es;
    while left.Entry?
      invariant allPath.Length == MAX_PATH_LENGTH && Holds(allPath[..], path) && Fits(path, left)
      invariant calls + DepthCalls(path, left) == DepthCalls(path, es)
      invariant left == es || left < es
      decreases left
    {
      var more := VisitDeep(allPath, path, left.node);
      calls := calls + more;
      left := left.rest;
    }
  }

  method VisitDeep(buf: array<char>, path: string, n: Node) returns (calls: seq<Call>)
    requires buf.Length == MAX_PATH_LENGTH && Holds(buf[..], path) && path != "" && Fits(path, Entry(n, End))
    modifies buf
    ensures Holds(buf[..], path) && calls == DeepCalls(path, n)
    decreases n
  {
    if Skipped(n) {
      return [];
    }
    assert NameOk(n.name) && '\0' !in Join(path, n.name);
    hide Holds, NameOk;
    AppendNewPath(buf, n.name, path);
    var allPath := ReadPath(buf, Join(path, n.name));
    match n {
      case Regular(_) => calls := [DealWithReg(allPath)];
      case Other(_) => calls := [DealWithOth(allPath)];
      case Directory(_, sub) =>
        var ok;
        ok, calls := DepthTraverseDir(allPath, sub);
    }
    Restore(buf, path, n.name);
  }

  class PathItem {
    const waiting: Waiting
    var next: PathItem?

    constructor (w: Waiting)
      ensures waiting == w && next == null
    {
      waiting, next := w, null;
    }
  }

  /** The linked list of the directories that wait. */
  class PathQueue {
    var first: PathItem?
    var last: PathItem?
    var num: int
    /** The items of the list, what they hold, and all items the list has ever had. */
    ghost var nodes: seq<PathItem>
    ghost var items: seq<Waiting>
    ghost var owned: set<PathItem>

    ghost predicate Valid()
      reads this, owned
    {
      && num == |items| == |nodes| && AllIn(nodes, owned)
      && NoneTwice(nodes) && Hold(nodes, items) && Linked(nodes)
      && first == NodeAt(nodes, 0) && last == NodeAt(nodes, |nodes| - 1)
    }

    constructor ()
      ensures Valid() && items == [] && owned == {}
    {
      first, last, num, nodes, items, owned := null, null, 0, [], [], {};
    }

    predicate IsEmpty()
      reads this
    {
      first == null && last == null
    }

    lemma EmptyIff()
      requires Valid()
      ensures IsEmpty() <==> items == []
    {
    }

    method AddToCacheList(path: PathItem)
      requires Valid() && path.next == null && path !in owned
      modifies this, owned, path
      ensures Valid() && items == old(items) + [path.waiting] && owned == old(owned) + {path}
    {
      hide NoneTwice, Hold, Linked, NodeAt, AllIn;
      MoreOwned(path, nodes, owned);
      Link(path);
      num := num + 1;
      nodes, items, owned := nodes + [path], items + [path.waiting], owned + {path};
    }

    method Link(path: PathItem)
      requires Valid() && path.next == null && path !in owned
      modifies this`first, this`last, owned, path
      ensures first == NodeAt(nodes + [path], 0) && last == NodeAt(nodes + [path], |nodes|)
      ensures NoneTwice(nodes + [path]) && Hold(nodes + [path], items + [path.waiting]) && Linked(nodes + [path])
    {
      NotYetIn(path, nodes, owned);
      LastApart(nodes);
      hide NoneTwice, Hold;
      if first == null && last == null {
        first, last := path, path;
      } else {
        path.next := last.next;
        last.next := path;
        last := path;
      }
      hide Linked;
      WithLast(nodes, items, path);
    }

    method GetListHead() returns (head: PathItem?)
      requires Valid()
      modifies this
      ensures Valid() && owned == old(owned) && (head == null <==> old(items) == [])
      ensures head == null ==> items == old(items)
      ensures head != null ==> head.waiting == old(items)[0] && items == old(items)[1..]
    {
      if IsEmpty() {
        return null;
      }
      WithoutFirst(nodes, items);
      OwnedRest(nodes, owned);
      hide NoneTwice, Hold, Linked;
      head := first;
      first := first.next;
      if first == null {
        last := null;
      }
      num := num - 1;
      nodes, items := nodes[1..], items[1..];
    }
  }

  lemma NotYetIn(path: PathItem, nodes: seq<PathItem>, owned: set<PathItem>)
    requires path !in owned && AllIn(nodes, owned)
    ensures path !in nodes
  {
  }

  lemma MoreOwned(path: PathItem, nodes: seq<PathItem>, owned: set<PathItem>)
    requires AllIn(nodes, owned)
    ensures AllIn(nodes + [path], owned + {path}) && |nodes + [path]| == |nodes| + 1
  {
  }

  lemma LastApart(nodes: seq<PathItem>)
    requires NoneTwice(nodes)
    ensures forall i {:trigger nodes[i]} :: 0 <= i < |nodes| - 1 ==> nodes[i] != nodes[|nodes| - 1]
  {
  }

  lemma OwnedRest(nodes: seq<PathItem>, owned: set<PathItem>)
    requires nodes != [] && AllIn(nodes, owned)
    ensures AllIn(nodes[1..], owned)
  {
  }

  function NodeAt(nodes: seq<PathItem>, i: int): PathItem? {
    if 0 <= i < |nodes| then nodes[i] else null
  }

  ghost predicate AllIn(nodes: seq<PathItem>, owned: set<PathItem>) {
    forall i :: 0 <= i < |nodes| ==> nodes[i] in owned
  }

  ghost predicate NoneTwice(nodes: seq<PathItem>) {
    forall i, j :: 0 <= i < j < |nodes| ==> nodes[i] != nodes[j]
  }

  ghost predicate Hold(nodes: seq<PathItem>, items: seq<Waiting>) {
    |nodes| == |items| && forall i :: 0 <= i < |nodes| ==> nodes[i].waiting == items[i]
  }

  /** Each item links to the next one, and the last to none. */
  ghost predicate Linked(nodes: seq<PathItem>)
    reads nodes
  {
    forall i {:trigger nodes[i]} :: 0 <= i < |nodes| ==> nodes[i].next == NodeAt(nodes, i + 1)
  }

  lemma WithoutFirst(nodes: seq<PathItem>, items: seq<Waiting>)
    requires nodes != [] && NoneTwice(nodes) && Hold(nodes, items) && Linked(nodes)
    ensures NoneTwice(nodes[1..]) && Hold(nodes[1..], items[1..]) && Linked(nodes[1..])
    ensures nodes[0].next == NodeAt(nodes[1..], 0) && NodeAt(nodes, |nodes| - 1) == if |nodes| == 1 then nodes[0] else NodeAt(nodes[1..], |nodes| - 2)
  {
    forall i | 0 <= i < |nodes| - 1
      ensures nodes[1..][i].next == NodeAt(nodes[1..], i + 1)
    {
      assert nodes[i + 1].next == NodeAt(nodes, i + 2);
    }
  }

  /** Behind the last item, which links to it now, another one. */
  lemma WithLast(nodes: seq<PathItem>, items: seq<Waiting>, path: PathItem)
    requires NoneTwice(nodes) && Hold(nodes, items) && path !in nodes && path.next == null
    requires forall i {:trigger nodes[i]} :: 0 <= i < |nodes| ==> nodes[i].next == if i + 1 < |nodes| then nodes[i + 1] else path
    ensures NoneTwice(nodes + [path]) && Hold(nodes + [path], items + [path.waiting]) && Linked(nodes + [path])
    ensures NodeAt(nodes + [path], |nodes|) == path && (nodes != [] ==> NodeAt(nodes + [path], 0) == nodes[0])
  {
  }

  predicate AllFit(queue: seq<Waiting>) {
    forall i :: 0 <= i < |queue| ==>
      queue[i].path != "" && '\0' !in queue[i].path && |queue[i].path| < MAX_PATH_LENGTH && Fits(queue[i].path, queue[i].entries)
  }

  /** One turn of the loop: the first directory of the queue. */
  method VisitFirst(buf: array<char>, queue: PathQueue) returns (calls: seq<Call>)
    requires buf.Length == MAX_PATH_LENGTH && queue.Valid() && queue.items != [] && AllFit(queue.items)
    modifies buf, queue, queue.owned
    ensures var w := old(queue.items)[0];
      calls == OwnCalls(w.path, w.entries) && queue.items == old(queue.items)[1..] + Subdirs(w.path, w.entries)
    ensures AllFit(queue.items) && queue.Valid() && fresh(queue.owned - old(queue.owned))
  {
    hide *;
    AllFitParts(queue.items);
    var head := queue.GetListHead();
    var w := head.waiting;
    WritePath(buf, w.path);
    calls := VisitAll(buf, w, queue);
  }

  /** The loop: it ends with the queue empty. */
  method EmptyQueue(buf: array<char>, queue: PathQueue) returns (calls: seq<Call>)
    requires buf.Length == MAX_PATH_LENGTH && queue.Valid() && AllFit(queue.items)
    modifies buf, queue, queue.owned
    ensures calls == WidthCalls(old(queue.items)) && queue.items == []
  {
    hide *;
    calls := [];
    ghost var all := WidthCalls(queue.items);
    queue.EmptyIff();
    while !queue.IsEmpty()
      invariant queue.Valid() && fresh(queue.owned - old(queue.owned)) && AllFit(queue.items)
      invariant queue.IsEmpty() <==> queue.items == []
      invariant calls + WidthCalls(queue.items) == all
      decreases Weight(queue.items)
    {
      WeightFalls(queue.items);
      WidthUnfolds(queue.items);
      var more := VisitFirst(buf, queue);
      Assoc(calls, more, WidthCalls(queue.items));
      calls := calls + more;
      queue.EmptyIff();
    }
    WidthUnfolds([]);
  }

  method WidthTraverseDir(path: string, es: Entries) returns (ok: bool, calls: seq<Call>)
    requires '\0' !in path && |path| < MAX_PATH_LENGTH && Fits(path, es)
    ensures ok <==> path != ""
    ensures calls == if ok then WidthCalls([Waiting(path, es)]) else []
  {
    assert path != "" ==> AllFit([Waiting(path, es)]);
    assert AllFit([]);
    hide *;
    var allPath := CopyPath(path);
    if path == "" {
      return false, [];
    }
    ok := true;
    var queue := new PathQueue();
    Enqueue(queue, Waiting(path, es));
    calls := EmptyQueue(allPath, queue);
  }

  /** packageOnePath and addToCacheList. */
  method Enqueue(queue: PathQueue, w: Waiting)
    requires AllFit(queue.items) && AllFit([w]) && queue.Valid()
    modifies queue, queue.owned
    ensures queue.items == old(queue.items) + [w] && AllFit(queue.items)
    ensures queue.Valid() && fresh(queue.owned - old(queue.owned))
  {
    hide PathQueue.Valid, Fits;
    assert [w][0] == w;
    var item := new PathItem(w);
    queue.AddToCacheList(item);
  }

  /** One directory of the breadth-first traversal. */
  method VisitAll(buf: array<char>, w: Waiting, queue: PathQueue) returns (calls: seq<Call>)
    requires buf.Length == MAX_PATH_LENGTH && Holds(buf[..], w.path) && AllFit([w]) && AllFit(queue.items) && queue.Valid()
    modifies buf, queue, queue.owned
    ensures calls == OwnCalls(w.path, w.entries) && queue.items == old(queue.items) + Subdirs(w.path, w.entries)
    ensures AllFit(queue.items) && queue.Valid() && fresh(queue.owned - old(queue.owned))
  {
    assert w.path != "" && Fits(w.path, w.entries) && '\0' !in w.path by {
      assert [w][0] == w;
    }
    hide *;
    calls := [];
    var left := w.entries;
    ghost var found: seq<Waiting>, before := [], queue.items;
    while left.Entry?
      invariant Holds(buf[..], w.path) && AllFit(queue.items) && queue.Valid() && Fits(w.path, left)
      invariant fresh(queue.owned - old(queue.owned))
      invariant calls + OwnCalls(w.path, left) == OwnCalls(w.path, w.entries)
      invariant queue.items == before + found && found + Subdirs(w.path, left) == Subdirs(w.path, w.entries)
      decreases left
    {
      FitsParts(w.path, left);
      EntriesUnfold(w.path, left);
      var more := VisitWide(buf, w.path, left.node, queue);
      Assoc(calls, more, OwnCalls(w.path, left.rest));
      Assoc(found, Subdir(w.path, left.node), Subdirs(w.path, left.rest));
      Assoc(before, found, Subdir(w.path, left.node));
      calls, found := calls + more, found + Subdir(w.path, left.node);
      left := left.rest;
    }
    EntriesEnd(w.path);
  }

  /** What is queued for a directory fits. */
  lemma SubdirFits(path: string, n: Node)
    requires path != "" && '\0' !in path && Fits(path, Entry(n, End)) && !Skipped(n)
    ensures n.Directory? ==> AllFit([Waiting(Join(path, n.name), n.entries)])
  {
  }

  method VisitWide(buf: array<char>, path: string, n: Node, queue: PathQueue) returns (calls: seq<Call>)
    requires buf.Length == MAX_PATH_LENGTH && Holds(buf[..], path) && path != "" && Fits(path, Entry(n, End)) && '\0' !in path
    requires AllFit(queue.items) && queue.Valid()
    modifies buf, queue, queue.owned
    ensures Holds(buf[..], path) && calls == OwnCall(path, n) && queue.items == old(queue.items) + Subdir(path, n)
    ensures AllFit(queue.items) && queue.Valid() && fresh(queue.owned - old(queue.owned))
  {
    calls := [];
    if Skipped(n) {
      return;
    }
    assert NameOk(n.name) && '\0' !in Join(path, n.name);
    SubdirFits(path, n);
    hide Holds, NameOk, PathQueue.Valid, AllFit, Fits;
    AppendNewPath(buf, n.name, path);
    var allPath := ReadPath(buf, Join(path, n.name));
    match n {
      case Regular(_) => calls := [DealWithReg(allPath)];
      case Other(_) => calls := [DealWithOth(allPath)];
      case Directory(_, sub) =>
        Enqueue(queue, Waiting(allPath, sub));
    }
    Restore(buf, path, n.name);
  }
}
