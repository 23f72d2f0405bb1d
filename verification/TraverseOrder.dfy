/**
 * What the two traversals do, told by the tree alone: every file is met once, with the callback for its kind and
 * its own path; depth first in the order of the positions, breadth first level by level.
 */
module TraverseOrder {
  import opened Options
  import opened DirTraverse

  /** The way to an entry: its position in directory after directory. */
  type Route = seq<nat>

  /** The entry at position i, when the first one has the position k. */
  function Nth(es: Entries, k: nat, i: nat): Option<Node>
    decreases es
  {
    match es
    case End => None
    case Entry(n, rest) => if i == k then Some(n) else Nth(rest, k + 1, i)
  }

  /** The entry that the route leads to, when it passes through directories only, and not through "." or "..". */
  function At(es: Entries, k: nat, r: Route): Option<Node>
    decreases |r|
  {
    if r == [] then None
    else match Nth(es, k, r[0])
      case None => None
      case Some(n) =>
        if n.name == "." || n.name == ".." then None
        else if |r| == 1 then Some(n)
        else if n.Directory? then At(n.entries, 0, r[1..])
        else None
  }

  predicate IsFile(es: Entries, k: nat, r: Route) {
    At(es, k, r).Some? && !At(es, k, r).value.Directory?
  }

  /** The names on the route, each behind a slash. */
  function PathAt(path: string, es: Entries, k: nat, r: Route): string
    decreases |r|
  {
    if r == [] then path
    else match Nth(es, k, r[0])
      case None => path
      case Some(n) =>
        var p := path + "/" + n.name;
        if n.Directory? then PathAt(p, n.entries, 0, r[1..]) else p
  }

  function CallAt(path: string, es: Entries, k: nat, r: Route): Call
    requires IsFile(es, k, r)
  {
    var p := PathAt(path, es, k, r);
    if At(es, k, r).value.Regular? then DealWithReg(p) else DealWithOth(p)
  }

  predicate Less(a: Route, b: Route) {
    a != [] && b != [] && (a[0] < b[0] || (a[0] == b[0] && Less(a[1..], b[1..])))
  }

  lemma {:induction false} NotLess(a: Route)
    ensures !Less(a, a)
  {
    if a != [] {
      NotLess(a[1..]);
    }
  }

  ghost predicate Ascending(rs: seq<Route>) {
    forall i, j :: 0 <= i < j < |rs| ==> Less(rs[i], rs[j])
  }

  /** The calls are those for the files at the routes, one after the other. */
  ghost predicate CallsOf(path: string, es: Entries, k: nat, calls: seq<Call>, rs: seq<Route>) {
    |calls| == |rs| && forall i :: 0 <= i < |rs| ==> IsFile(es, k, rs[i]) && calls[i] == CallAt(path, es, k, rs[i])
  }

  // ----- Depth first -----

  function Prefixed(k: nat, rs: seq<Route>): (ps: seq<Route>)
    ensures |ps| == |rs| && forall i :: 0 <= i < |rs| ==> ps[i] == [k] + rs[i]
  {
    seq(|rs|, i requires 0 <= i < |rs| => [k] + rs[i])
  }

  function NodeRoutes(n: Node, k: nat): seq<Route>
    decreases n
  {
    if Skipped(n) then [] else if n.Directory? then Prefixed(k, Routes(n.entries, 0)) else [[k]]
  }

  function Routes(es: Entries, k: nat): seq<Route>
    decreases es
  {
    match es
    case End => []
    case Entry(n, rest) => NodeRoutes(n, k) + Routes(rest, k + 1)
  }

  lemma {:induction false} BehindStart(es: Entries, k: nat, r: Route)
    requires r in Routes(es, k)
    ensures r != [] && r[0] >= k
    decreases es
  {
    if r !in NodeRoutes(es.node, k) {
      BehindStart(es.rest, k + 1, r);
    }
  }

  lemma {:induction false} NthBehind(es: Entries, k: nat, i: nat)
    ensures Nth(es, k, i).Some? ==> i >= k
    decreases es
  {
    if es.Entry? && i != k {
      NthBehind(es.rest, k + 1, i);
    }
  }

  /** The list has all files and nothing else. */
  lemma {:induction false} RoutesComplete(es: Entries, k: nat, r: Route)
    ensures r in Routes(es, k) <==> IsFile(es, k, r)
    decreases es
  {
    if es.Entry? {
      RoutesComplete(es.rest, k + 1, r);
      NodeRoutesComplete(es.node, k, r);
      if r != [] && r[0] == k {
        NthBehind(es.rest, k + 1, k);
      }
    }
  }

  lemma {:induction false} NodeRoutesComplete(n: Node, k: nat, r: Route)
    ensures r in NodeRoutes(n, k) <==> r != [] && r[0] == k && IsFile(Entry(n, End), k, r)
    decreases n
  {
    if r != [] {
      assert r == [r[0]] + r[1..];
      assert r == [k] <==> |r| == 1 && r[0] == k;
      if n.Directory? && !Skipped(n) {
        RoutesComplete(n.entries, 0, r[1..]);
        var rs := Routes(n.entries, 0);
        if r in Prefixed(k, rs) {
          var i :| 0 <= i < |rs| && Prefixed(k, rs)[i] == r;
          assert r[1..] == rs[i];
        }
        if r[0] == k && r[1..] in rs {
          var i :| 0 <= i < |rs| && rs[i] == r[1..];
          assert Prefixed(k, rs)[i] == r;
        }
      }
    }
  }

  lemma Prefixes(k: nat, rs: seq<Route>)
    requires Ascending(rs)
    ensures Ascending(Prefixed(k, rs))
  {
    var ps := Prefixed(k, rs);
    forall i, j | 0 <= i < j < |ps|
      ensures Less(ps[i], ps[j])
    {
      assert ps[i][1..] == rs[i] && ps[j][1..] == rs[j];
    }
  }

  lemma {:induction false} RoutesAscend(es: Entries, k: nat)
    ensures Ascending(Routes(es, k))
    decreases es
  {
    if es.Entry? {
      var a, b := NodeRoutes(es.node, k), Routes(es.rest, k + 1);
      RoutesAscend(es.rest, k + 1);
      if es.node.Directory? {
        RoutesAscend(es.node.entries, 0);
        Prefixes(k, Routes(es.node.entries, 0));
      }
      forall i, j | 0 <= i < j < |a + b|
        ensures Less((a + b)[i], (a + b)[j])
      {
        if i < |a| <= j {
          assert b[j - |a|] in b;
          BehindStart(es.rest, k + 1, b[j - |a|]);
        }
      }
    }
  }

  lemma RestOfRoute(path: string, n: Node, rest: Entries, k: nat, r: Route)
    requires IsFile(rest, k + 1, r)
    ensures IsFile(Entry(n, rest), k, r) && CallAt(path, Entry(n, rest), k, r) == CallAt(path, rest, k + 1, r)
  {
    NthBehind(rest, k + 1, r[0]);
  }

  lemma IntoDirectory(path: string, n: Node, rest: Entries, k: nat, r: Route)
    requires n.Directory? && !Skipped(n) && IsFile(n.entries, 0, r)
    ensures var all := Entry(n, rest);
      IsFile(all, k, [k] + r) && CallAt(path, all, k, [k] + r) == CallAt(Join(path, n.name), n.entries, 0, r)
  {
    assert ([k] + r)[1..] == r;
  }

  /** Depth first: the i-th call is the one for the file at the i-th route. */
  lemma {:induction false} DepthCallsOf(path: string, es: Entries, k: nat)
    ensures CallsOf(path, es, k, DepthCalls(path, es), Routes(es, k))
    decreases es
  {
    if es.Entry? {
      var n, rest := es.node, es.rest;
      var a, b := NodeRoutes(n, k), Routes(rest, k + 1);
      DepthCallsOf(path, rest, k + 1);
      DeepCallsOf(path, n, rest, k);
      hide CallAt, IsFile, DeepCalls, NodeRoutes;
      forall i | 0 <= i < |b|
        ensures IsFile(es, k, b[i]) && CallAt(path, es, k, b[i]) == CallAt(path, rest, k + 1, b[i])
      {
        RestOfRoute(path, n, rest, k, b[i]);
      }
    }
  }

  lemma {:induction false} DeepCallsOf(path: string, n: Node, rest: Entries, k: nat)
    ensures CallsOf(path, Entry(n, rest), k, DeepCalls(path, n), NodeRoutes(n, k))
    decreases n
  {
    if n.Directory? && !Skipped(n) {
      DepthCallsOf(Join(path, n.name), n.entries, 0);
      var rs := Routes(n.entries, 0);
      forall i | 0 <= i < |rs|
        ensures var r := [k] + rs[i]; IsFile(Entry(n, rest), k, r) && CallAt(path, Entry(n, rest), k, r) == CallAt(Join(path, n.name), n.entries, 0, rs[i])
      {
        IntoDirectory(path, n, rest, k, rs[i]);
      }
    }
  }

  /**
   * The calls of a depth-first traversal: one for every file of the tree and no other, in the order of the positions.
   */
  lemma DepthFirst(path: string, es: Entries) returns (rs: seq<Route>)
    ensures (forall r :: r in rs <==> IsFile(es, 0, r)) && (forall i, j :: 0 <= i < j < |rs| ==> rs[i] != rs[j])
    ensures Ascending(rs)
    ensures CallsOf(path, es, 0, DepthCalls(path, es), rs)
  {
    rs := Routes(es, 0);
    forall r
      ensures r in rs <==> IsFile(es, 0, r)
    {
      RoutesComplete(es, 0, r);
    }
    RoutesAscend(es, 0);
    forall i, j | 0 <= i < j < |rs|
      ensures rs[i] != rs[j]
    {
      NotLess(rs[i]);
    }
    DepthCallsOf(path, es, 0);
  }

  // ----- Breadth first -----

  function Under(d: Route, rs: seq<Route>): (us: seq<Route>)
    ensures |us| == |rs| && forall i :: 0 <= i < |rs| ==> us[i] == d + rs[i]
  {
    seq(|rs|, i requires 0 <= i < |rs| => d + rs[i])
  }

  function OwnOf(n: Node, k: nat): seq<Route> {
    if Skipped(n) || n.Directory? then [] else [[k]]
  }

  /** The files right in a directory. */
  function Own(es: Entries, k: nat): seq<Route> {
    match es
    case End => []
    case Entry(n, rest) => OwnOf(n, k) + Own(rest, k + 1)
  }

  function SubOf(path: string, n: Node, k: nat): (rs: seq<Route>)
    ensures |rs| == |Subdir(path, n)|
  {
    if !Skipped(n) && n.Directory? then [[k]] else []
  }

  /** Its subdirectories. */
  function Subs(path: string, es: Entries, k: nat): (rs: seq<Route>)
    ensures |rs| == |Subdirs(path, es)|
  {
    match es
    case End => []
    case Entry(n, rest) => SubOf(path, n, k) + Subs(path, rest, k + 1)
  }

  /** The directories to go on with after the first one, and the routes to them. */
  function Next(queue: seq<Waiting>): seq<Waiting>
    requires queue != []
  {
    queue[1..] + Subdirs(queue[0].path, queue[0].entries)
  }

  function NextDirs(queue: seq<Waiting>, dirs: seq<Route>): (next: seq<Route>)
    requires |queue| == |dirs| && queue != []
    ensures |next| == |Next(queue)|
  {
    dirs[1..] + Under(dirs[0], Subs(queue[0].path, queue[0].entries, 0))
  }

  /** The files in the order of the queue, whose directories are at dirs. */
  function WidthRoutes(queue: seq<Waiting>, dirs: seq<Route>): seq<Route>
    requires |queue| == |dirs|
    decreases Weight(queue)
  {
    if queue == [] then []
    else
      WeightFalls(queue);
      Under(dirs[0], Own(queue[0].entries, 0)) + WidthRoutes(Next(queue), NextDirs(queue, dirs))
  }

  /** Files of the waiting directory are files of the tree, met with the same calls. */
  ghost predicate Leads(path: string, es: Entries, k: nat, w: Waiting, d: Route) {
    forall r {:trigger IsFile(w.entries, 0, r)} :: IsFile(w.entries, 0, r) ==>
      IsFile(es, k, d + r) && CallAt(path, es, k, d + r) == CallAt(w.path, w.entries, 0, r)
  }

  ghost predicate AllLead(path: string, es: Entries, k: nat, queue: seq<Waiting>, dirs: seq<Route>) {
    |queue| == |dirs| && forall i :: 0 <= i < |queue| ==> Leads(path, es, k, queue[i], dirs[i])
  }

  lemma {:induction false} OwnCallsOf(path: string, es: Entries, k: nat)
    ensures CallsOf(path, es, k, OwnCalls(path, es), Own(es, k))
    decreases es
  {
    if es.Entry? {
      var n, rest := es.node, es.rest;
      var b := Own(rest, k + 1);
      OwnCallsOf(path, rest, k + 1);
      var own := OwnOf(n, k);
      assert CallsOf(path, es, k, OwnCall(path, n), own);
      hide CallAt, IsFile, OwnCall;
      assert CallsOf(path, es, k, OwnCalls(path, rest), b) by {
        forall i | 0 <= i < |b|
          ensures IsFile(es, k, b[i]) && CallAt(path, es, k, b[i]) == CallAt(path, rest, k + 1, b[i])
        {
          RestOfRoute(path, n, rest, k, b[i]);
        }
      }
      hide CallsOf;
      CallsJoin(path, es, k, OwnCall(path, n), own, OwnCalls(path, rest), b);
    }
  }

  lemma {:induction false} SubsLead(path: string, es: Entries, k: nat)
    ensures AllLead(path, es, k, Subdirs(path, es), Subs(path, es, k))
    decreases es
  {
    if es.Entry? {
      var n, rest := es.node, es.rest;
      SubsLead(path, rest, k + 1);
      hide CallAt, IsFile;
      var ws, ds := Subdirs(path, rest), Subs(path, rest, k + 1);
      forall i, r | 0 <= i < |ws| && IsFile(ws[i].entries, 0, r)
        ensures IsFile(es, k, ds[i] + r) && CallAt(path, es, k, ds[i] + r) == CallAt(ws[i].path, ws[i].entries, 0, r)
      {
        assert Leads(path, rest, k + 1, ws[i], ds[i]);
        RestOfRoute(path, n, rest, k, ds[i] + r);
      }
      if !Skipped(n) && n.Directory? {
        forall r | IsFile(n.entries, 0, r)
          ensures IsFile(es, k, [k] + r) && CallAt(path, es, k, [k] + r) == CallAt(Join(path, n.name), n.entries, 0, r)
        {
          IntoDirectory(path, n, rest, k, r);
        }
      }
    }
  }

  lemma LeadsOn(path: string, es: Entries, w: Waiting, d: Route, v: Waiting, e: Route)
    requires Leads(path, es, 0, w, d) && Leads(w.path, w.entries, 0, v, e)
    ensures Leads(path, es, 0, v, d + e)
  {
    hide CallAt, IsFile;
    forall r | IsFile(v.entries, 0, r)
      ensures IsFile(es, 0, (d + e) + r) && CallAt(path, es, 0, (d + e) + r) == CallAt(v.path, v.entries, 0, r)
    {
      assert (d + e) + r == d + (e + r);
    }
  }

  lemma NextLead(path: string, es: Entries, queue: seq<Waiting>, dirs: seq<Route>)
    requires AllLead(path, es, 0, queue, dirs) && queue != []
    ensures AllLead(path, es, 0, Next(queue), NextDirs(queue, dirs))
  {
    hide Leads;
    var w, d := queue[0], dirs[0];
    var ws, ds := Subdirs(w.path, w.entries), Subs(w.path, w.entries, 0);
    SubsLead(w.path, w.entries, 0);
    forall i | 0 <= i < |ws|
      ensures Leads(path, es, 0, ws[i], Under(d, ds)[i])
    {
      LeadsOn(path, es, w, d, ws[i], ds[i]);
    }
  }

  lemma CallsJoin(path: string, es: Entries, k: nat, a: seq<Call>, rs: seq<Route>, b: seq<Call>, ss: seq<Route>)
    requires CallsOf(path, es, k, a, rs) && CallsOf(path, es, k, b, ss)
    ensures CallsOf(path, es, k, a + b, rs + ss)
  {
    hide CallAt, IsFile;
  }

  lemma CallsLed(path: string, es: Entries, w: Waiting, d: Route, calls: seq<Call>, rs: seq<Route>)
    requires Leads(path, es, 0, w, d) && CallsOf(w.path, w.entries, 0, calls, rs)
    ensures CallsOf(path, es, 0, calls, Under(d, rs))
  {
    hide CallAt, IsFile;
  }

  lemma {:induction false} WidthCallsOf(path: string, es: Entries, queue: seq<Waiting>, dirs: seq<Route>)
    requires AllLead(path, es, 0, queue, dirs)
    ensures CallsOf(path, es, 0, WidthCalls(queue), WidthRoutes(queue, dirs))
    decreases Weight(queue)
  {
    hide CallAt, IsFile;
    if queue != [] {
      var w, d := queue[0], dirs[0];
      WeightFalls(queue);
      NextLead(path, es, queue, dirs);
      WidthCallsOf(path, es, Next(queue), NextDirs(queue, dirs));
      OwnCallsOf(w.path, w.entries, 0);
      assert Leads(path, es, 0, w, d);
      hide WidthCalls, WidthRoutes, Leads, CallsOf, Own, OwnCalls, Subdirs, Subs, AllLead;
      CallsLed(path, es, w, d, OwnCalls(w.path, w.entries), Own(w.entries, 0));
      WidthUnfolds(queue);
      RoutesUnfold(queue, dirs);
      CallsJoin(path, es, 0, OwnCalls(w.path, w.entries), Under(d, Own(w.entries, 0)), WidthCalls(Next(queue)), WidthRoutes(Next(queue), NextDirs(queue, dirs)));
    }
  }

  lemma RoutesUnfold(queue: seq<Waiting>, dirs: seq<Route>)
    requires |queue| == |dirs| && queue != []
    ensures WidthRoutes(queue, dirs) == Under(dirs[0], Own(queue[0].entries, 0)) + WidthRoutes(Next(queue), NextDirs(queue, dirs))
  {
  }

  // ----- Every file once -----

  /** The files below all directories of the queue. */
  function RouteBag(queue: seq<Waiting>, dirs: seq<Route>): multiset<Route>
    requires |queue| == |dirs|
  {
    if queue == [] then multiset{}
    else multiset(Under(dirs[0], Routes(queue[0].entries, 0))) + RouteBag(queue[1..], dirs[1..])
  }

  lemma {:induction false} RouteBagSplit(q: seq<Waiting>, a: seq<Route>, r: seq<Waiting>, b: seq<Route>)
    requires |q| == |a| && |r| == |b|
    ensures RouteBag(q + r, a + b) == RouteBag(q, a) + RouteBag(r, b)
  {
    if q == [] {
      assert q + r == r && a + b == b;
    } else {
      assert (q + r)[1..] == q[1..] + r && (a + b)[1..] == a[1..] + b;
      RouteBagSplit(q[1..], a[1..], r, b);
    }
  }

  lemma UnderSplits(d: Route, a: seq<Route>, b: seq<Route>)
    ensures Under(d, a + b) == Under(d, a) + Under(d, b) && multiset(Under(d, a + b)) == multiset(Under(d, a)) + multiset(Under(d, b))
  {
    assert Under(d, a + b) == Under(d, a) + Under(d, b);
  }

  lemma UnderPrefixed(d: Route, k: nat, rs: seq<Route>)
    ensures Under(d, Prefixed(k, rs)) == Under(d + [k], rs)
  {
    forall i | 0 <= i < |rs|
      ensures d + ([k] + rs[i]) == (d + [k]) + rs[i]
    {
    }
  }

  /** The files below a directory are those right in it and those below its subdirectories. */
  lemma {:induction false} RoutesSplit(path: string, es: Entries, k: nat, d: Route)
    ensures multiset(Under(d, Routes(es, k))) == multiset(Under(d, Own(es, k))) + RouteBag(Subdirs(path, es), Under(d, Subs(path, es, k)))
    decreases es
  {
    if es.Entry? {
      var n, rest := es.node, es.rest;
      var own, sub := OwnOf(n, k), SubOf(path, n, k);
      RoutesSplit(path, rest, k + 1, d);
      NodeSplits(path, n, k, d);
      ListsUnfold(path, es, k);
      hide *;
      UnderSplits(d, NodeRoutes(n, k), Routes(rest, k + 1));
      UnderSplits(d, own, Own(rest, k + 1));
      UnderSplits(d, sub, Subs(path, rest, k + 1));
      RouteBagSplit(Subdir(path, n), Under(d, sub), Subdirs(path, rest), Under(d, Subs(path, rest, k + 1)));
    }
  }

  lemma ListsUnfold(path: string, es: Entries, k: nat)
    requires es.Entry?
    ensures Routes(es, k) == NodeRoutes(es.node, k) + Routes(es.rest, k + 1) && Own(es, k) == OwnOf(es.node, k) + Own(es.rest, k + 1)
    ensures Subs(path, es, k) == SubOf(path, es.node, k) + Subs(path, es.rest, k + 1)
    ensures Subdirs(path, es) == Subdir(path, es.node) + Subdirs(path, es.rest)
  {
  }

  lemma NodeSplits(path: string, n: Node, k: nat, d: Route)
    ensures multiset(Under(d, NodeRoutes(n, k))) == multiset(Under(d, OwnOf(n, k))) + RouteBag(Subdir(path, n), Under(d, SubOf(path, n, k)))
  {
    if !Skipped(n) && n.Directory? {
      UnderPrefixed(d, k, Routes(n.entries, 0));
      assert Subdir(path, n)[1..] == [];
    }
  }

  lemma {:induction false} WidthIsRouteBag(queue: seq<Waiting>, dirs: seq<Route>)
    requires |queue| == |dirs|
    ensures multiset(WidthRoutes(queue, dirs)) == RouteBag(queue, dirs)
    decreases Weight(queue)
  {
    if queue != [] {
      var w, d := queue[0], dirs[0];
      WeightFalls(queue);
      WidthIsRouteBag(Next(queue), NextDirs(queue, dirs));
      RouteBagSplit(queue[1..], dirs[1..], Subdirs(w.path, w.entries), Under(d, Subs(w.path, w.entries, 0)));
      RoutesSplit(w.path, w.entries, 0, d);
      hide WidthRoutes, Routes, Own, Subs, Subdirs;
      RoutesUnfold(queue, dirs);
    }
  }

  // ----- Level by level -----

  /** By length, and at the same length by position. */
  predicate Before(a: Route, b: Route) {
    |a| < |b| || (|a| == |b| && Less(a, b))
  }

  ghost predicate InLevels(rs: seq<Route>) {
    forall i, j :: 0 <= i < j < |rs| ==> Before(rs[i], rs[j])
  }

  /** The directories waiting are in order, on at most two levels; the parents of the deeper ones come before the first. */
  ghost predicate Frontier(dirs: seq<Route>) {
    && InLevels(dirs)
    && forall i :: 0 <= i < |dirs| && |dirs[i]| != |dirs[0]| ==>
         |dirs[i]| == |dirs[0]| + 1 && Less(dirs[i][..|dirs[0]|], dirs[0])
  }

  lemma {:induction false} LessOn(a: Route, b: Route, c: Route, d: Route)
    requires |a| == |b| && Less(a, b)
    ensures Less(a + c, b + d)
  {
    assert (a + c)[1..] == a[1..] + c && (b + d)[1..] == b[1..] + d;
    if a[0] == b[0] {
      LessOn(a[1..], b[1..], c, d);
    }
  }

  lemma {:induction false} LessBehind(d: Route, a: Route, b: Route)
    ensures Less(d + a, d + b) <==> Less(a, b)
  {
    if d == [] {
      assert d + a == a && d + b == b;
    } else {
      assert (d + a)[1..] == d[1..] + a && (d + b)[1..] == d[1..] + b;
      LessBehind(d[1..], a, b);
    }
  }

  lemma {:induction false} LessTransitive(a: Route, b: Route, c: Route)
    requires Less(a, b) && Less(b, c)
    ensures Less(a, c)
  {
    if a[0] == b[0] == c[0] {
      LessTransitive(a[1..], b[1..], c[1..]);
    }
  }

  /** Single positions from k on, in ascending order. */
  ghost predicate Singles(rs: seq<Route>, k: nat) {
    && (forall i :: 0 <= i < |rs| ==> |rs[i]| == 1 && rs[i][0] >= k)
    && (forall i, j :: 0 <= i < j < |rs| ==> rs[i][0] < rs[j][0])
  }

  lemma {:induction false} OwnSingles(es: Entries, k: nat)
    ensures Singles(Own(es, k), k)
    decreases es
  {
    if es.Entry? {
      OwnSingles(es.rest, k + 1);
    }
  }

  lemma {:induction false} SubsSingles(path: string, es: Entries, k: nat)
    ensures Singles(Subs(path, es, k), k)
    decreases es
  {
    if es.Entry? {
      SubsSingles(path, es.rest, k + 1);
    }
  }

  lemma SinglesInLevels(d: Route, rs: seq<Route>, k: nat)
    requires Singles(rs, k)
    ensures InLevels(Under(d, rs)) && forall i :: 0 <= i < |rs| ==> |Under(d, rs)[i]| == |d| + 1
  {
    forall i, j | 0 <= i < j < |rs|
      ensures Less(d + rs[i], d + rs[j])
    {
      LessBehind(d, rs[i], rs[j]);
    }
  }

  lemma NextFrontier(queue: seq<Waiting>, dirs: seq<Route>)
    requires |queue| == |dirs| && queue != [] && Frontier(dirs)
    ensures Frontier(NextDirs(queue, dirs))
    ensures NextDirs(queue, dirs) != [] ==> Before(dirs[0], NextDirs(queue, dirs)[0]) && |NextDirs(queue, dirs)[0]| <= |dirs[0]| + 1
  {
    var d, tail, subs := dirs[0], dirs[1..], Subs(queue[0].path, queue[0].entries, 0);
    SubsSingles(queue[0].path, queue[0].entries, 0);
    SinglesInLevels(d, subs, 0);
    hide Less, Subs;
    forall i, j | 0 <= i < |tail| && 0 <= j < |subs|
      ensures Before(tail[i], d + subs[j])
    {
      ParentsFirst(d, tail[i], subs[j]);
    }
    var next := NextDirs(queue, dirs);
    forall i | 0 <= i < |next| && |next[i]| != |next[0]|
      ensures |next[i]| == |next[0]| + 1 && Less(next[i][..|next[0]|], next[0])
    {
      if i < |tail| {
        LessTransitive(tail[i][..|d|], d, tail[0]);
      } else {
        assert next[i][..|d|] == d;
      }
    }
  }

  lemma ParentsFirst(d: Route, e: Route, sub: Route)
    requires Before(d, e) && |sub| == 1 && (|e| != |d| ==> |e| == |d| + 1 && Less(e[..|d|], d))
    ensures Before(e, d + sub)
  {
    if |e| != |d| {
      LessOn(e[..|d|], d, e[|d|..], sub);
      assert e[..|d|] + e[|d|..] == e;
    }
  }

  /** r is a file in d or in a directory that comes later. */
  predicate Later(d: Route, r: Route) {
    |r| > |d| + 1 || (|r| == |d| + 1 && (r[..|d|] == d || Less(d, r[..|d|])))
  }

  lemma OwnIsLater(d: Route, own: Route)
    requires |own| == 1
    ensures Later(d, d + own)
  {
    assert (d + own)[..|d|] == d;
  }

  lemma StillLater(d: Route, next: Route, r: Route)
    requires Before(d, next) && Later(next, r)
    ensures Later(d, r) && (|r| == |d| + 1 ==> Less(d, r[..|d|]))
  {
    if |next| == |d| && |r| == |d| + 1 && r[..|d|] != next {
      LessTransitive(d, next, r[..|d|]);
    }
  }

  lemma OwnBefore(d: Route, own: Route, next: Route, r: Route)
    requires |own| == 1 && Before(d, next) && Later(next, r)
    ensures Before(d + own, r)
  {
    StillLater(d, next, r);
    if |r| == |d| + 1 {
      LessOn(d, r[..|d|], own, r[|d|..]);
      assert r[..|d|] + r[|d|..] == r;
    }
  }

  lemma LevelsJoin(a: seq<Route>, b: seq<Route>)
    requires InLevels(a) && InLevels(b) && forall i, j :: 0 <= i < |a| && 0 <= j < |b| ==> Before(a[i], b[j])
    ensures InLevels(a + b)
  {
    hide Before;
  }

  lemma {:induction false} WidthInLevels(queue: seq<Waiting>, dirs: seq<Route>)
    requires |queue| == |dirs| && Frontier(dirs)
    ensures InLevels(WidthRoutes(queue, dirs))
    ensures forall i :: 0 <= i < |WidthRoutes(queue, dirs)| ==> queue != [] && Later(dirs[0], WidthRoutes(queue, dirs)[i])
    decreases Weight(queue)
  {
    if queue != [] {
      var d, own, next := dirs[0], Own(queue[0].entries, 0), NextDirs(queue, dirs);
      WeightFalls(queue);
      NextFrontier(queue, dirs);
      WidthInLevels(Next(queue), next);
      OwnSingles(queue[0].entries, 0);
      SinglesInLevels(d, own, 0);
      var us, rest := Under(d, own), WidthRoutes(Next(queue), next);
      RoutesUnfold(queue, dirs);
      hide WidthRoutes, Own, Before, Later, Less, InLevels, Frontier;
      forall j | 0 <= j < |rest|
        ensures Later(d, rest[j]) && forall i :: 0 <= i < |us| ==> Before(us[i], rest[j])
      {
        StillLater(d, next[0], rest[j]);
        forall i | 0 <= i < |us|
          ensures Before(us[i], rest[j])
        {
          OwnBefore(d, own[i], next[0], rest[j]);
        }
      }
      forall i | 0 <= i < |us|
        ensures Later(d, us[i])
      {
        OwnIsLater(d, own[i]);
      }
      LevelsJoin(us, rest);
    }
  }

  /**
   * The calls of a breadth-first traversal: one for every file of the tree and no other, level by level, and on each
   * level in the order of the positions.
   */
  lemma BreadthFirst(path: string, es: Entries) returns (rs: seq<Route>)
    ensures (forall r :: r in rs <==> IsFile(es, 0, r)) && (forall i, j :: 0 <= i < j < |rs| ==> rs[i] != rs[j])
    ensures InLevels(rs)
    ensures CallsOf(path, es, 0, WidthCalls([Waiting(path, es)]), rs)
  {
    var queue, dirs: seq<Route> := [Waiting(path, es)], [[]];
    rs := WidthRoutes(queue, dirs);
    forall r
      ensures r in rs <==> IsFile(es, 0, r)
    {
      FilesOfWidth(path, es, r);
    }
    WidthInLevels(queue, dirs);
    forall i, j | 0 <= i < j < |rs|
      ensures rs[i] != rs[j]
    {
      NotLess(rs[i]);
    }
    AtRoot(path, es);
    WidthCallsOf(path, es, queue, dirs);
  }

  lemma AtRoot(path: string, es: Entries)
    ensures AllLead(path, es, 0, [Waiting(path, es)], [[]])
  {
    hide CallAt, IsFile;
    forall r | IsFile(es, 0, r)
      ensures IsFile(es, 0, [] + r) && CallAt(path, es, 0, [] + r) == CallAt(path, es, 0, r)
    {
      assert [] + r == r;
    }
  }

  lemma UnderRoot(rs: seq<Route>)
    ensures Under([], rs) == rs
  {
    forall i | 0 <= i < |rs|
      ensures [] + rs[i] == rs[i]
    {
    }
  }

  lemma FilesOfWidth(path: string, es: Entries, r: Route)
    ensures r in WidthRoutes([Waiting(path, es)], [[]]) <==> IsFile(es, 0, r)
  {
    hide WidthRoutes, Routes, IsFile;
    var queue, dirs: seq<Route> := [Waiting(path, es)], [[]];
    WidthIsRouteBag(queue, dirs);
    RoutesComplete(es, 0, r);
    var rs := Routes(es, 0);
    UnderRoot(rs);
    assert queue[1..] == [] && dirs[1..] == [];
    assert RouteBag(queue, dirs) == multiset(rs);
    assert r in WidthRoutes(queue, dirs) <==> r in multiset(WidthRoutes(queue, dirs));
  }
}
