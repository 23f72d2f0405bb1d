/**
 * The bucket-extension task: it sends one request to every node, retries the nodes that fail, and
 * answers when the first round is over. Agents stand for requests; creating one is an oracle.
 */
module ExtentTasks {
  import opened Options
  import opened DistinctLists

  datatype State = FREE | EXTENTING | RETRY

  /** What the callback finds out: the node did it, it failed, or the node closed the connection. */
  datatype Outcome = Done | Failed | Closed

  /**
   * `created` is the new agent's index, or None when creating or starting it fails.
   * RuleModified lists the nodes with a live heartbeat, each with the outcome of creating its agent.
   */
  datatype Event =
    | RuleModified(ok: bool, nodes: seq<(nat, Option<nat>)>)
    | Ack(agent: nat, outcome: Outcome, created: Option<nat>)

  /**
   * `launches` are the results with which the final work item has been sent off, `deleted` says that the task has
   * deleted itself. The last three record history: all agents ever created, those of the first round, and those of
   * the first round that have answered.
   */
  datatype Task = Task(
    state: State, asked: bool, extentList: seq<nat>, retryList: seq<nat>, ipOf: map<nat, nat>,
    launches: seq<bool>, deleted: bool,
    used: set<nat>, firstRound: set<nat>, answered: set<nat>)

  const Fresh := Task(FREE, false, [], [], map[], [], false, {}, {}, {})

  // ----- The handlers as state changes -----

  function Started(t: Task): Task {
    t.(state := EXTENTING)
  }

  /** One agent of the first round. */
  function AddNode(t: Task, node: (nat, Option<nat>)): Task {
    if node.1.None? then t
    else t.(extentList := t.extentList + [node.1.value], ipOf := t.ipOf[node.1.value := node.0],
            used := t.used + {node.1.value}, firstRound := t.firstRound + {node.1.value})
  }

  function AddNodes(t: Task, nodes: seq<(nat, Option<nat>)>): Task {
    if nodes == [] then t else AddNode(AddNodes(t, nodes[..|nodes| - 1]), nodes[|nodes| - 1])
  }

  function ExecBack(t: Task, agent: nat): Task {
    if agent in t.extentList then
      var t' := t.(extentList := Without(t.extentList, agent), answered := t.answered + {agent});
      if t'.extentList == [] then t'.(state := RETRY, launches := t.launches + [true]) else t'
    else if agent in t.retryList then
      var t' := t.(retryList := Without(t.retryList, agent));
      if t'.retryList == [] then t'.(deleted := true) else t'
    else t
  }

  function RetryExtent(t: Task, agent: nat, created: Option<nat>): Task {
    var t' := t.(extentList := Without(t.extentList, agent), retryList := Without(t.retryList, agent),
                 answered := if agent in t.extentList then t.answered + {agent} else t.answered);
    if agent !in t.ipOf then t'
    else
      var erased := t'.(ipOf := t.ipOf - {agent});
      if created.None? then erased
      else erased.(retryList := erased.retryList + [created.value], ipOf := erased.ipOf[created.value := t.ipOf[agent]],
                   used := t.used + {created.value})
  }

  function Step(t: Task, e: Event): Task {
    match e
    case RuleModified(ok, nodes) =>
      if !ok then t.(asked := true, launches := t.launches + [false]) else AddNodes(t.(asked := true), nodes)
    case Ack(agent, outcome, created) =>
      if agent == 0 then t
      else if outcome == Failed then RetryExtent(t, agent, created)
      else ExecBack(t, agent)
  }

  /** Migration is possible when the first round is over and neither node is being retried. */
  predicate CanExecMigration(t: Task, src: nat, dest: nat) {
    t.state != EXTENTING && forall a :: a in t.retryList && a in t.ipOf ==> t.ipOf[a] != src && t.ipOf[a] != dest
  }

  // ----- Runs -----

  ghost predicate FreshIndices(t: Task, nodes: seq<(nat, Option<nat>)>) {
    && (forall i {:trigger nodes[i]} :: 0 <= i < |nodes| && nodes[i].1.Some? ==> nodes[i].1.value !in t.used)
    && (forall i, j {:trigger nodes[i], nodes[j]} :: 0 <= i < j < |nodes| && nodes[i].1.Some? && nodes[j].1.Some? ==>
          nodes[i].1.value != nodes[j].1.value)
  }

  /** The rule is modified once, after the task has been started; a created agent has a new index. */
  ghost predicate Legal(t: Task, e: Event) {
    match e
    case RuleModified(ok, nodes) => t.state == EXTENTING && !t.asked && FreshIndices(t, nodes)
    case Ack(agent, outcome, created) => t.asked && (created.Some? ==> created.value !in t.used)
  }

  /** The events of a run, while the task lives. */
  ghost predicate LegalRun(t: Task, es: seq<Event>)
    decreases |es|
  {
    es == [] || (!t.deleted && Legal(t, es[0]) && LegalRun(Step(t, es[0]), es[1..]))
  }

  function Run(t: Task, es: seq<Event>): Task
    decreases |es|
  {
    if es == [] then t else Run(Step(t, es[0]), es[1..])
  }

  // ----- What every step keeps -----

  ghost predicate Lists(t: Task) {
    && Distinct(t.extentList) && Distinct(t.retryList)
    && (forall a {:trigger a in t.extentList} :: a in t.extentList ==> a !in t.retryList && a in t.ipOf && a in t.used)
    && (forall a {:trigger a in t.retryList} :: a in t.retryList ==> a in t.ipOf && a in t.used)
    && (forall a {:trigger a in t.ipOf} :: a in t.ipOf ==> a in t.used)
    && t.firstRound <= t.used && t.answered <= t.used
    && (forall a {:trigger a in t.firstRound} :: a in t.firstRound ==> (a in t.extentList <==> a !in t.answered))
    && (forall a {:trigger a in t.extentList} :: a in t.extentList ==> a in t.firstRound)
  }

  ghost predicate Phases(t: Task) {
    && (t.state == FREE ==> !t.asked)
    && (!t.asked ==> t.extentList == [] && t.retryList == [] && t.launches == [] && !t.deleted)
    && (t.state == RETRY ==> t.extentList == [] && t.launches == [true])
    && (t.state == EXTENTING ==> t.launches == [] || (t.launches == [false] && t.extentList == [] && t.retryList == [] && t.ipOf == map[]))
    && (!t.asked ==> t.ipOf == map[] && t.firstRound == {})
  }

  ghost predicate Inv(t: Task) {
    Lists(t) && Phases(t)
  }

  lemma StartedInv(t: Task)
    requires Inv(t) && t.state == FREE
    ensures Inv(Started(t))
  {
  }

  lemma {:induction false} AddNodesInv(t: Task, nodes: seq<(nat, Option<nat>)>)
    requires Lists(t) && FreshIndices(t, nodes) && t.retryList == []
    ensures var u := AddNodes(t, nodes);
      && Lists(u) && u.retryList == [] && u.state == t.state && u.asked == t.asked && u.launches == t.launches && u.deleted == t.deleted
      && forall a {:trigger a in u.used} :: a in u.used ==> a in t.used || exists i :: 0 <= i < |nodes| && nodes[i].1 == Some(a)
  {
    if nodes != [] {
      var k := |nodes| - 1;
      AddNodesInv(t, nodes[..k]);
      var m := AddNodes(t, nodes[..k]);
      if nodes[k].1.Some? {
        AddNodeLists(m, nodes[k]);
      }
    }
  }

  lemma AddNodeLists(t: Task, node: (nat, Option<nat>))
    requires Lists(t) && t.retryList == [] && node.1.Some? && node.1.value !in t.used
    ensures Lists(AddNode(t, node))
  {
    DistinctSnoc(t.extentList, node.1.value);
  }

  lemma ExecBackInv(t: Task, agent: nat)
    requires Inv(t) && !t.deleted && t.asked
    ensures Inv(ExecBack(t, agent))
  {
    WithoutDistinct(t.extentList, agent);
    WithoutDistinct(t.retryList, agent);
    forall a
      ensures a in Without(t.extentList, agent) <==> a in t.extentList && a != agent
      ensures a in Without(t.retryList, agent) <==> a in t.retryList && a != agent
    {
      WithoutMembers(t.extentList, agent);
      WithoutMembers(t.retryList, agent);
    }
  }

  lemma RetryExtentInv(t: Task, agent: nat, created: Option<nat>)
    requires Inv(t) && !t.deleted && t.asked && (created.Some? ==> created.value !in t.used)
    ensures Inv(RetryExtent(t, agent, created))
  {
    WithoutDistinct(t.extentList, agent);
    WithoutDistinct(t.retryList, agent);
    forall a
      ensures a in Without(t.extentList, agent) <==> a in t.extentList && a != agent
      ensures a in Without(t.retryList, agent) <==> a in t.retryList && a != agent
    {
      WithoutMembers(t.extentList, agent);
      WithoutMembers(t.retryList, agent);
    }
    if created.Some? {
      DistinctSnoc(Without(t.retryList, agent), created.value);
    }
  }

  lemma StepInv(t: Task, e: Event)
    requires Inv(t) && !t.deleted && Legal(t, e)
    ensures Inv(Step(t, e))
  {
    match e
    case RuleModified(ok, nodes) =>
      if ok {
        AddNodesInv(t.(asked := true), nodes);
      }
    case Ack(agent, outcome, created) =>
      if agent != 0 && outcome == Failed {
        RetryExtentInv(t, agent, created);
      } else if agent != 0 {
        ExecBackInv(t, agent);
      }
  }

  /** Every run keeps the lists duplicate-free and disjoint, their members mapped, and launches the final work at most once. */
  lemma {:induction false} RunInv(t: Task, es: seq<Event>)
    requires Inv(t) && LegalRun(t, es)
    ensures Inv(Run(t, es)) && |Run(t, es).launches| <= 1
    decreases |es|
  {
    if es != [] {
      StepInv(t, es[0]);
      RunInv(Step(t, es[0]), es[1..]);
    }
  }

  /** A request to the node at `ip` is outstanding. */
  ghost predicate Outstanding(t: Task, ip: nat) {
    exists a :: a in t.ipOf && t.ipOf[a] == ip && (a in t.extentList || a in t.retryList)
  }

  /** In every reachable state migration is allowed exactly when the first round is over and neither node has an outstanding request. */
  lemma MigrationGate(t: Task, src: nat, dest: nat)
    requires Inv(t)
    ensures CanExecMigration(t, src, dest) <==> t.state != EXTENTING && !Outstanding(t, src) && !Outstanding(t, dest)
  {
    if t.state != EXTENTING {
      assert t.extentList == [];
    }
  }

  /** A success is announced only after every request of the first round has been answered. */
  lemma SuccessMeansAllAnswered(t: Task, es: seq<Event>)
    requires Inv(t) && LegalRun(t, es) && true in Run(t, es).launches
    ensures Run(t, es).firstRound <= Run(t, es).answered && Run(t, es).extentList == []
  {
    RunInv(t, es);
    var u := Run(t, es);
    forall a | a in u.firstRound
      ensures a in u.answered
    {
    }
  }

  /** A modified rule among the events has had the agent created. */
  ghost predicate AskedBy(es: seq<Event>, agent: nat) {
    exists i {:trigger es[i]} :: 0 <= i < |es| && es[i].RuleModified? && es[i].ok && CreatedIn(es[i].nodes, agent)
  }

  ghost predicate CreatedIn(nodes: seq<(nat, Option<nat>)>, agent: nat) {
    exists j {:trigger nodes[j]} :: 0 <= j < |nodes| && nodes[j].1 == Some(agent)
  }

  ghost predicate AnsweredBy(es: seq<Event>, agent: nat) {
    exists i {:trigger es[i]} :: 0 <= i < |es| && es[i].Ack? && es[i].agent == agent
  }

  lemma {:induction false} FirstRoundOfNodes(t: Task, nodes: seq<(nat, Option<nat>)>, agent: nat)
    ensures agent in AddNodes(t, nodes).firstRound <==> agent in t.firstRound || CreatedIn(nodes, agent)
    ensures AddNodes(t, nodes).answered == t.answered
  {
    if nodes != [] {
      var k := |nodes| - 1;
      FirstRoundOfNodes(t, nodes[..k], agent);
      assert nodes == nodes[..k] + [nodes[k]];
    }
  }

  /** The two records are told by the events: who was asked by the modified rule, and who has answered. */
  lemma {:induction false} RecordsAreTold(t: Task, es: seq<Event>, agent: nat)
    ensures agent in Run(t, es).firstRound <==> agent in t.firstRound || AskedBy(es, agent)
    ensures agent in Run(t, es).answered ==> agent in t.answered || AnsweredBy(es, agent)
    decreases |es|
  {
    if es != [] {
      var rest := es[1..];
      assert es == [es[0]] + rest;
      RecordsAreTold(Step(t, es[0]), rest, agent);
      FirstEvent(es, agent);
      if es[0].RuleModified? && es[0].ok {
        FirstRoundOfNodes(t.(asked := true), es[0].nodes, agent);
      }
    }
  }

  lemma FirstEvent(es: seq<Event>, agent: nat)
    requires es != []
    ensures AskedBy(es, agent) <==> (es[0].RuleModified? && es[0].ok && CreatedIn(es[0].nodes, agent)) || AskedBy(es[1..], agent)
    ensures AnsweredBy(es, agent) <==> (es[0].Ack? && es[0].agent == agent) || AnsweredBy(es[1..], agent)
  {
    hide CreatedIn;
    var rest := es[1..];
    assert es == [es[0]] + rest;
  }

  /**
   * So all this holds of every run of a new task: the final work is sent off at most once, and with success only
   * after every agent created for the modified rule has answered.
   */
  lemma RunFromStart(es: seq<Event>)
    requires LegalRun(Started(Fresh), es)
    ensures Inv(Fresh) && Inv(Run(Started(Fresh), es))
    ensures |Run(Started(Fresh), es).launches| <= 1
    ensures true in Run(Started(Fresh), es).launches ==> forall a :: AskedBy(es, a) ==> AnsweredBy(es, a)
  {
    hide AskedBy, AnsweredBy;
    StartedInv(Fresh);
    RunInv(Started(Fresh), es);
    if true in Run(Started(Fresh), es).launches {
      SuccessMeansAllAnswered(Started(Fresh), es);
      forall a | AskedBy(es, a)
        ensures AnsweredBy(es, a)
      {
        RecordsAreTold(Started(Fresh), es, a);
      }
    }
  }

  // ----- A history of the requests, told from the events alone -----

  /**
   * The node every agent has been created for, the agents that have reported a failure, and those whose answer is
   * still to come. A retry is a request to the node of the agent it replaces.
   */
  datatype History = History(nodeOf: map<nat, nat>, failed: set<nat>, waiting: set<nat>)

  const Untold := History(map[], {}, {})

  function Asked(h: History, nodes: seq<(nat, Option<nat>)>): History {
    if nodes == [] then h
    else
      var h', node := Asked(h, nodes[..|nodes| - 1]), nodes[|nodes| - 1];
      match node.1
      case None => h'
      case Some(agent) => h'.(nodeOf := h'.nodeOf[agent := node.0], waiting := h'.waiting + {agent})
  }

  function Record(h: History, e: Event): History {
    match e
    case RuleModified(ok, nodes) => if ok then Asked(h, nodes) else h
    case Ack(agent, outcome, created) =>
      if agent == 0 || agent !in h.nodeOf then h
      else if outcome != Failed then h.(waiting := h.waiting - {agent})
      else if agent in h.failed || created.None? then h.(failed := h.failed + {agent}, waiting := h.waiting - {agent})
      else History(h.nodeOf[created.value := h.nodeOf[agent]], h.failed + {agent}, h.waiting - {agent} + {created.value})
  }

  function Told(h: History, es: seq<Event>): History
    decreases |es|
  {
    if es == [] then h else Told(Record(h, es[0]), es[1..])
  }

  /** What the task knows: the node of every agent without a failure, and on its lists just the agents waited for. */
  ghost predicate Agrees(t: Task, h: History) {
    && t.used == h.nodeOf.Keys
    && (forall a {:trigger a in t.ipOf} :: a in t.ipOf <==> a in h.nodeOf && a !in h.failed)
    && (forall a {:trigger a in t.ipOf} :: a in t.ipOf ==> t.ipOf[a] == h.nodeOf[a])
    && (forall a {:trigger a in h.waiting} :: a in h.waiting <==> a in t.extentList || a in t.retryList)
    && h.failed <= h.nodeOf.Keys
  }

  lemma {:induction false} AddNodesAgrees(t: Task, h: History, nodes: seq<(nat, Option<nat>)>)
    requires Agrees(t, h) && FreshIndices(t, nodes) && Lists(t) && t.retryList == []
    ensures Agrees(AddNodes(t, nodes), Asked(h, nodes))
  {
    if nodes != [] {
      var k := |nodes| - 1;
      AddNodesAgrees(t, h, nodes[..k]);
      AddNodesInv(t, nodes[..k]);
    }
  }

  lemma BackAgrees(t: Task, h: History, agent: nat, outcome: Outcome, created: Option<nat>)
    requires Lists(t) && Agrees(t, h) && agent != 0 && outcome != Failed
    ensures Agrees(ExecBack(t, agent), Record(h, Ack(agent, outcome, created)))
  {
    WithoutMembers(t.extentList, agent);
    WithoutMembers(t.retryList, agent);
  }

  lemma FailureAgrees(t: Task, h: History, agent: nat, created: Option<nat>)
    requires Lists(t) && Agrees(t, h) && agent != 0 && (created.Some? ==> created.value !in t.used)
    ensures Agrees(RetryExtent(t, agent, created), Record(h, Ack(agent, Failed, created)))
  {
    WithoutMembers(t.extentList, agent);
    WithoutMembers(t.retryList, agent);
    hide Distinct, Without;
  }

  lemma StepAgrees(t: Task, h: History, e: Event)
    requires Inv(t) && Agrees(t, h) && Legal(t, e)
    ensures Agrees(Step(t, e), Record(h, e))
  {
    match e
    case RuleModified(ok, nodes) =>
      if ok {
        AddNodesAgrees(t.(asked := true), h, nodes);
      }
    case Ack(agent, outcome, created) =>
      if agent != 0 && outcome == Failed {
        FailureAgrees(t, h, agent, created);
      } else if agent != 0 {
        BackAgrees(t, h, agent, outcome, created);
      }
  }

  /** So in every reachable state the task knows of each request whose it is, and waits for just the requests unanswered. */
  lemma {:induction false} RunAgrees(t: Task, h: History, es: seq<Event>)
    requires Inv(t) && Agrees(t, h) && LegalRun(t, es)
    ensures Agrees(Run(t, es), Told(h, es))
    decreases |es|
  {
    if es != [] {
      StepInv(t, es[0]);
      StepAgrees(t, h, es[0]);
      RunAgrees(Step(t, es[0]), Record(h, es[0]), es[1..]);
    }
  }

  /** A request to the node is waiting for its answer. */
  ghost predicate AnswerDue(h: History, node: nat) {
    exists a {:trigger a in h.waiting} :: a in h.waiting && a in h.nodeOf && h.nodeOf[a] == node
  }

  /** The gate of every run in terms of its events: the first round is over, and no answer of either node is due. */
  lemma GateOfRun(es: seq<Event>, src: nat, dest: nat)
    requires LegalRun(Started(Fresh), es)
    ensures var u, h := Run(Started(Fresh), es), Told(Untold, es);
      CanExecMigration(u, src, dest) <==> u.state != EXTENTING && !AnswerDue(h, src) && !AnswerDue(h, dest)
  {
    var t, u, h := Started(Fresh), Run(Started(Fresh), es), Told(Untold, es);
    StartedInv(Fresh);
    RunInv(t, es);
    RunAgrees(t, Untold, es);
    MigrationGate(u, src, dest);
    DueIffOutstanding(u, h, src);
    DueIffOutstanding(u, h, dest);
  }

  lemma DueIffOutstanding(t: Task, h: History, node: nat)
    requires Inv(t) && Agrees(t, h)
    ensures AnswerDue(h, node) <==> Outstanding(t, node)
  {
    if AnswerDue(h, node) {
      var a :| a in h.waiting && a in h.nodeOf && h.nodeOf[a] == node;
      assert a in t.ipOf;
    }
    if Outstanding(t, node) {
      var a :| a in t.ipOf && t.ipOf[a] == node && (a in t.extentList || a in t.retryList);
      assert a in h.waiting;
    }
  }

  /** A node whose failed request is retried takes no part in a migration until the retry is answered, whatever happens meanwhile. */
  lemma RetriedNodeIsGuarded(t: Task, h: History, agent: nat, retry: nat, es: seq<Event>, other: nat)
    requires Inv(t) && Agrees(t, h) && agent in h.waiting && agent != 0
    requires LegalRun(t, [Ack(agent, Failed, Some(retry))] + es)
    requires forall i :: 0 <= i < |es| ==> !(es[i].Ack? && es[i].agent == retry)
    ensures var u := Run(t, [Ack(agent, Failed, Some(retry))] + es);
      !CanExecMigration(u, h.nodeOf[agent], other) && !CanExecMigration(u, other, h.nodeOf[agent])
  {
    var e := Ack(agent, Failed, Some(retry));
    assert ([e] + es)[1..] == es;
    var t', h' := Step(t, e), Record(h, e);
    StepInv(t, e);
    StepAgrees(t, h, e);
    assert retry in h'.waiting && h'.nodeOf[retry] == h.nodeOf[agent];
    StaysDue(t', h', es, retry);
    var u, g := Run(t', es), Told(h', es);
    RunInv(t', es);
    RunAgrees(t', h', es);
    DueIffOutstanding(u, g, h.nodeOf[agent]);
    MigrationGate(u, h.nodeOf[agent], other);
    MigrationGate(u, other, h.nodeOf[agent]);
  }

  lemma {:induction false} StaysDue(t: Task, h: History, es: seq<Event>, agent: nat)
    requires Inv(t) && Agrees(t, h) && LegalRun(t, es) && agent in h.waiting
    requires forall i :: 0 <= i < |es| ==> !(es[i].Ack? && es[i].agent == agent)
    ensures var g := Told(h, es); agent in g.waiting && agent in g.nodeOf && g.nodeOf[agent] == h.nodeOf[agent]
    decreases |es|
  {
    assert agent in t.used;
    if es != [] {
      StepInv(t, es[0]);
      StepAgrees(t, h, es[0]);
      StaysDue(Step(t, es[0]), Record(h, es[0]), es[1..], agent);
    }
  }

  /** Every announcement there is: a failure when the rule could not be modified, a success by the last answer of the first round. */
  lemma AnnouncesIff(t: Task, e: Event)
    requires Inv(t) && !t.deleted && Legal(t, e)
    ensures Step(t, e).launches ==
      if e.RuleModified? && !e.ok then [false]
      else if e.Ack? && e.agent != 0 && e.outcome != Failed && t.extentList == [e.agent] then t.launches + [true]
      else t.launches
  {
    match e
    case RuleModified(ok, nodes) =>
      if ok {
        AddNodesInv(t.(asked := true), nodes);
      }
    case Ack(agent, outcome, created) =>
      WithoutDistinct(t.extentList, agent);
      if |t.extentList| == 1 {
        assert t.extentList == [t.extentList[0]];
      }
  }

  // ----- Where the protocol does not do what its comments say -----

  /** All requests of the first round are answered, nothing has been announced, and nothing will be. */
  predicate Stuck(t: Task) {
    t.state == EXTENTING && t.asked && t.extentList == []
  }

  /**
   * The answer that ends the first round announces the success exactly when it is not a failure: a failure is moved
   * to the retry list without looking whether the first round has become empty.
   */
  lemma LastAnswerAnnouncesIff(t: Task, agent: nat, outcome: Outcome, created: Option<nat>)
    requires Inv(t) && t.asked && !t.deleted && agent != 0 && agent in t.extentList
    ensures var u := Step(t, Ack(agent, outcome, created));
      && (u.extentList == [] <==> t.extentList == [agent])
      && (u.extentList == [] ==> (u.launches == [true] <==> outcome != Failed) && (Stuck(u) <==> outcome == Failed))
  {
    WithoutDistinct(t.extentList, agent);
    assert t.extentList != [];
    if |t.extentList| == 1 {
      assert t.extentList == [t.extentList[0]];
    }
  }

  /** Once stuck, no answer ever leads to an announcement, and migration stays refused. */
  lemma {:induction false} StuckForever(t: Task, es: seq<Event>)
    requires Inv(t) && Stuck(t) && LegalRun(t, es)
    ensures Run(t, es).launches == t.launches && Run(t, es).state == EXTENTING
    ensures forall src, dest :: !CanExecMigration(Run(t, es), src, dest)
    decreases |es|
  {
    if es != [] {
      StepInv(t, es[0]);
      assert Without([], es[0].agent) == [];
      StuckForever(Step(t, es[0]), es[1..]);
    }
  }

  /** A task is stuck as soon as the rule is modified exactly when no node could be asked at all. */
  lemma NobodyAskedIsStuck(t: Task, nodes: seq<(nat, Option<nat>)>)
    requires Inv(t) && t.state == EXTENTING && !t.asked
    ensures Stuck(Step(t, RuleModified(true, nodes))) <==> forall i :: 0 <= i < |nodes| ==> nodes[i].1.None?
  {
    if forall i :: 0 <= i < |nodes| ==> nodes[i].1.None? {
      NoneAdded(t.(asked := true), nodes);
    } else {
      SomeAdded(t.(asked := true), nodes);
    }
  }

  lemma {:induction false} SomeAdded(t: Task, nodes: seq<(nat, Option<nat>)>)
    requires t.extentList != [] || exists i :: 0 <= i < |nodes| && nodes[i].1.Some?
    ensures AddNodes(t, nodes).extentList != []
  {
    if nodes != [] && nodes[|nodes| - 1].1.None? {
      SomeAdded(t, nodes[..|nodes| - 1]);
    }
  }

  lemma {:induction false} NoneAdded(t: Task, nodes: seq<(nat, Option<nat>)>)
    requires forall i :: 0 <= i < |nodes| ==> nodes[i].1.None?
    ensures AddNodes(t, nodes) == t
  {
    if nodes != [] {
      NoneAdded(t, nodes[..|nodes| - 1]);
    }
  }

  /**
   * The task deletes itself exactly when the last retried request succeeds; requests of the first round may then
   * still be waiting for their answers.
   */
  lemma DeletesItselfIff(t: Task, e: Event)
    requires Inv(t) && !t.deleted && Legal(t, e)
    ensures Step(t, e).deleted <==> e.Ack? && e.agent != 0 && e.outcome != Failed && t.retryList == [e.agent]
    ensures Step(t, e).deleted ==> Step(t, e).extentList == t.extentList
  {
    match e
    case RuleModified(ok, nodes) =>
      if ok {
        AddNodesInv(t.(asked := true), nodes);
      }
    case Ack(agent, outcome, created) =>
      WithoutDistinct(t.retryList, agent);
      if |t.retryList| == 1 {
        assert t.retryList == [t.retryList[0]];
      }
  }

  /** Two nodes: the first fails and succeeds on retry before the second has answered. */
  lemma DeletedWhileWaiting()
    ensures var es := [RuleModified(true, [(10, Some(1)), (11, Some(2))]), Ack(1, Failed, Some(3)), Ack(3, Done, None)];
      var t := Started(Fresh);
      Inv(t) && LegalRun(t, es) && Run(t, es).deleted && Run(t, es).extentList == [2]
  {
    var t := Started(Fresh);
    var nodes: seq<(nat, Option<nat>)> := [(10, Some(1)), (11, Some(2))];
    var e1, e2 := Ack(1, Failed, Some(3)), Ack(3, Done, None);
    TwoNodesAsked(t, nodes);
    var t1 := Step(t, RuleModified(true, nodes));
    WithoutFew();
    var t2 := Step(t1, e1);
    assert t2.extentList == [2] && t2.retryList == [3] && t2.used == {1, 2, 3};
    var t3 := Step(t2, e2);
    assert Run(t2, [e2]) == t3 && LegalRun(t2, [e2]) by { assert [e2][1..] == []; }
    assert Run(t1, [e1, e2]) == t3 && LegalRun(t1, [e1, e2]) by { assert [e1, e2][1..] == [e2]; }
    assert [RuleModified(true, nodes), e1, e2][1..] == [e1, e2];
  }

  /**
   * With the first round over and one request being retried, its answer ends the retrying unless it fails and can be
   * retried once more; the task deletes itself then exactly when the answer is no failure.
   */
  lemma LastRetryDeletesIff(t: Task, agent: nat, outcome: Outcome, created: Option<nat>)
    requires Inv(t) && t.asked && !t.deleted && agent != 0 && t.extentList == [] && t.retryList == [agent]
    ensures var u := Step(t, Ack(agent, outcome, created));
      && (u.retryList == [] <==> outcome != Failed || created.None?)
      && (u.retryList == [] ==> (u.deleted <==> outcome != Failed) && (Forgotten(u) <==> outcome == Failed))
  {
    assert agent in t.retryList && agent in t.ipOf;
    WithoutDistinct(t.retryList, agent);
    assert Without([agent], agent) == [];
  }

  /** No request is outstanding, and the task is still there. */
  predicate Forgotten(t: Task) {
    t.asked && !t.deleted && t.extentList == [] && t.retryList == []
  }

  /** The answer comes from an agent whose request is outstanding, or at least is no failure of one answered before. */
  predicate Expected(t: Task, e: Event) {
    e.Ack? && (e.agent in t.extentList || e.agent in t.retryList || e.outcome != Failed || e.agent !in t.ipOf)
  }

  predicate ExpectedAlong(t: Task, es: seq<Event>)
    decreases |es|
  {
    es == [] || (Expected(t, es[0]) && ExpectedAlong(Step(t, es[0]), es[1..]))
  }

  /** A forgotten task stays for ever: no such answer deletes it, and no final work is sent off any more. */
  lemma {:induction false} ForgottenForever(t: Task, es: seq<Event>)
    requires Inv(t) && Forgotten(t) && LegalRun(t, es) && ExpectedAlong(t, es)
    ensures Forgotten(Run(t, es)) && Run(t, es).launches == t.launches
    decreases |es|
  {
    if es != [] {
      StepInv(t, es[0]);
      assert Without([], es[0].agent) == [];
      ForgottenForever(Step(t, es[0]), es[1..]);
    }
  }

  /** Two nodes: the first fails, the second succeeds, the retry fails, and no further agent can be created. */
  lemma GivenUpIsForgotten()
    ensures var es := [RuleModified(true, [(10, Some(1)), (11, Some(2))]), Ack(1, Failed, Some(3)), Ack(2, Done, None), Ack(3, Failed, None)];
      var t := Started(Fresh);
      Inv(t) && LegalRun(t, es) && Forgotten(Run(t, es)) && Run(t, es).launches == [true]
  {
    var t := Started(Fresh);
    var nodes: seq<(nat, Option<nat>)> := [(10, Some(1)), (11, Some(2))];
    var e1, e2, e3 := Ack(1, Failed, Some(3)), Ack(2, Done, None), Ack(3, Failed, None);
    TwoNodesAsked(t, nodes);
    var t1 := Step(t, RuleModified(true, nodes));
    WithoutFew();
    var t2 := Step(t1, e1);
    assert t2.extentList == [2] && t2.retryList == [3] && t2.used == {1, 2, 3} && 3 in t2.ipOf;
    var t3 := Step(t2, e2);
    assert t3.extentList == [] && t3.retryList == [3] && t3.launches == [true] && t3.ipOf == t2.ipOf;
    var t4 := Step(t3, e3);
    assert Run(t3, [e3]) == t4 && LegalRun(t3, [e3]) by { assert [e3][1..] == []; }
    assert Run(t2, [e2, e3]) == t4 && LegalRun(t2, [e2, e3]) by { assert [e2, e3][1..] == [e3]; }
    assert Run(t1, [e1, e2, e3]) == t4 && LegalRun(t1, [e1, e2, e3]) by { assert [e1, e2, e3][1..] == [e2, e3]; }
    assert [RuleModified(true, nodes), e1, e2, e3][1..] == [e1, e2, e3];
  }

  lemma WithoutFew()
    ensures Without([1, 2], 1) == [2] && Without([], 1) == [] && Without([3], 3) == []
    ensures Without([2], 2) == [] && Without([], 3) == [] && Without([3], 2) == [3]
  {
  }

  lemma TwoNodesAsked(t: Task, nodes: seq<(nat, Option<nat>)>)
    requires t == Started(Fresh) && nodes == [(10, Some(1)), (11, Some(2))]
    ensures Inv(t) && Legal(t, RuleModified(true, nodes))
    ensures var u := Step(t, RuleModified(true, nodes));
      u == t.(asked := true, extentList := [1, 2], ipOf := map[1 := 10, 2 := 11], used := {1, 2}, firstRound := {1, 2})
  {
    var m := t.(asked := true);
    assert nodes[..1] == [nodes[0]];
    assert AddNodes(m, nodes[..1]) == AddNode(m, nodes[0]);
  }

  // ----- The task object -----

  class ExtentTask {
    var extentAgentList: seq<nat>
    var retryAgentList: seq<nat>
    var indexIpMap: map<nat, nat>
    var state: State
    /** The results with which the final work item has been sent to the thread pool. */
    var lastWork: seq<bool>
    var deletedSelf: bool
    ghost var asked: bool
    ghost var used: set<nat>
    ghost var firstRound: set<nat>
    ghost var answered: set<nat>

    ghost function Abs(): Task
      reads this
    {
      Task(state, asked, extentAgentList, retryAgentList, indexIpMap, lastWork, deletedSelf, used, firstRound, answered)
    }

    constructor ()
      ensures Abs() == Fresh
    {
      extentAgentList, retryAgentList, indexIpMap, state, lastWork, deletedSelf := [], [], map[], FREE, [], false;
      asked, used, firstRound, answered := false, {}, {}, {};
    }

    method Init()
      modifies this`state
      ensures Abs() == Started(old(Abs()))
    {
      state := EXTENTING;
    }

    method CanMigrate(src: nat, dest: nat) returns (r: bool)
      ensures r == CanExecMigration(Abs(), src, dest)
    {
      if state == EXTENTING {
        return false;
      }
      var i := 0;
      while i < |retryAgentList|
        invariant 0 <= i <= |retryAgentList|
        invariant forall k {:trigger retryAgentList[k]} :: 0 <= k < i && retryAgentList[k] in indexIpMap ==>
          indexIpMap[retryAgentList[k]] != src && indexIpMap[retryAgentList[k]] != dest
      {
        var agent := retryAgentList[i];
        if agent in indexIpMap {
          var ip := indexIpMap[agent];
          if src == ip || dest == ip {
            return false;
          }
        }
        i := i + 1;
      }
      return true;
    }

    /** Looks the index up in a list and erases it there. */
    static method Remove(list: seq<nat>, agent: nat) returns (removed: bool, rest: seq<nat>)
      ensures removed == (agent in list) && rest == Without(list, agent)
    {
      var i := 0;
      while i < |list| && list[i] != agent
        invariant 0 <= i <= |list| && agent !in list[..i]
        invariant Without(list, agent) == list[..i] + Without(list[i..], agent)
      {
        assert list[i..][0] == list[i] && list[i..][1..] == list[i + 1..];
        i := i + 1;
      }
      if i == |list| {
        assert list[..i] == list && list[i..] == [];
        return false, list;
      }
      assert list[i..][1..] == list[i + 1..];
      return true, list[..i] + list[i + 1..];
    }

    method DoneModifyRule(ret: bool, nodes: seq<(nat, Option<nat>)>)
      modifies this
      ensures Abs() == Step(old(Abs()), RuleModified(ret, nodes))
    {
      asked := true;
      if !ret {
        lastWork := lastWork + [false];
        return;
      }
      ghost var t := Abs();
      var i := 0;
      assert nodes[..0] == [];
      while i < |nodes|
        invariant 0 <= i <= |nodes| && Abs() == AddNodes(t, nodes[..i])
      {
        assert nodes[..i + 1][..i] == nodes[..i];
        var node := nodes[i];
        if node.1.Some? {
          var agent := node.1.value;
          indexIpMap := indexIpMap[agent := node.0];
          extentAgentList := extentAgentList + [agent];
          used, firstRound := used + {agent}, firstRound + {agent};
        }
        i := i + 1;
      }
      assert nodes[..i] == nodes;
    }

    method DoneExtentAck(agent: nat, outcome: Outcome, created: Option<nat>)
      modifies this
      ensures Abs() == Step(old(Abs()), Ack(agent, outcome, created))
    {
      if agent == 0 {
        return;
      }
      if outcome == Failed {
        RetryDoExtent(agent, created);
      } else {
        AgentExecExtentBack(agent);
      }
    }

    method AgentExecExtentBack(agent: nat)
      modifies this
      ensures Abs() == ExecBack(old(Abs()), agent)
    {
      var first, rest := Remove(extentAgentList, agent);
      if first {
        extentAgentList := rest;
        answered := answered + {agent};
      } else {
        var found, others := Remove(retryAgentList, agent);
        if !found {
          return;
        }
        retryAgentList := others;
      }
      if first {
        if |extentAgentList| == 0 {
          state := RETRY;
          lastWork := lastWork + [true];
        }
      } else {
        if |retryAgentList| == 0 {
          deletedSelf := true;
        }
      }
    }

    method RetryDoExtent(agent: nat, created: Option<nat>)
      modifies this
      ensures Abs() == RetryExtent(old(Abs()), agent, created)
    {
      var first, rest := Remove(extentAgentList, agent);
      if first {
        answered := answered + {agent};
      }
      extentAgentList := rest;
      var found, others := Remove(retryAgentList, agent);
      retryAgentList := others;
      if agent in indexIpMap {
        var ip := indexIpMap[agent];
        indexIpMap := indexIpMap - {agent};
        if created.Some? {
          indexIpMap := indexIpMap[created.value := ip];
          used := used + {created.value};
          retryAgentList := retryAgentList + [created.value];
        }
      }
    }
  }
}
