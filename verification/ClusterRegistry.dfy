/** The cluster's node map, kept under one key of a replicated store and changed by many clients: each reads
    the map, computes the next one and commits it only if the key still holds what was read. */
module ClusterRegistry {
  import opened Wrappers

  type NodeId = string

  datatype Config = Config(id: NodeId, address: string, distances: Option<map<NodeId, nat>>)
  datatype State = Offline | Online
  datatype Status = Status(config: Config, state: State)

  type NodeMap = map<NodeId, Status>
  /** What the key holds; nothing before the cluster is registered. */
  type Stored = Option<NodeMap>

  datatype Error = ClusterNotRegistered | NodeNotRegistered | EmptyConfiguration | DuplicateNode | UnknownNeighbour
  datatype Result<+T> = Ok(value: T) | Err(error: Error)

  // ---------- node maps ----------

  /** Every node that a distance map names is in the map. */
  predicate Closed(m: NodeMap)
  {
    forall n <- m :: m[n].config.distances.Some? ==> m[n].config.distances.value.Keys <= m.Keys
  }

  ghost predicate Keyed(m: NodeMap)
  {
    forall n <- m :: m[n].config.id == n
  }

  ghost predicate WellFormed(m: NodeMap)
  {
    m != map[] && Keyed(m) && Closed(m)
  }

  /** The check made before a map is stored: every neighbour is a member. */
  method CheckNodeMap(m: NodeMap) returns (ok: bool)
    ensures ok <==> Closed(m)
  {
    var nodes := m.Keys;
    while nodes != {}
      invariant nodes <= m.Keys
      invariant forall n <- m.Keys - nodes ::
                  m[n].config.distances.Some? ==> m[n].config.distances.value.Keys <= m.Keys
      decreases nodes
    {
      var n :| n in nodes;
      if m[n].config.distances.Some? {
        var neighbours := m[n].config.distances.value.Keys;
        while neighbours != {}
          invariant neighbours <= m[n].config.distances.value.Keys
          invariant m[n].config.distances.value.Keys - neighbours <= m.Keys
          decreases neighbours
        {
          var q :| q in neighbours;
          if q !in m {
            return false;
          }
          neighbours := neighbours - {q};
        }
      }
      nodes := nodes - {n};
    }
    return true;
  }

  predicate DistinctIds(configs: seq<Config>)
  {
    forall i, j :: 0 <= i < j < |configs| ==> configs[i].id != configs[j].id
  }

  function StateIn(m: NodeMap, n: NodeId): State
  {
    if n in m then m[n].state else Online
  }

  /** The map that set_node_configs builds: the configured nodes with the states they had. */
  function MapOf(configs: seq<Config>, previous: NodeMap): NodeMap
  {
    if configs == [] then map[]
    else
      var c := configs[|configs| - 1];
      MapOf(configs[..|configs| - 1], previous)[c.id := Status(c, StateIn(previous, c.id))]
  }

  ghost function IdsOf(configs: seq<Config>): set<NodeId>
  {
    set c <- configs :: c.id
  }

  lemma MoreIds(configs: seq<Config>)
    requires configs != []
    ensures IdsOf(configs) == IdsOf(configs[..|configs| - 1]) + {configs[|configs| - 1].id}
  {
    assert configs == configs[..|configs| - 1] + [configs[|configs| - 1]];
  }

  /** The map holds exactly the configured nodes; a surviving node keeps its state and a new one is online. */
  ghost predicate IsMapOf(configs: seq<Config>, previous: NodeMap, m: NodeMap)
  {
    && Keyed(m) && m.Keys == IdsOf(configs)
    && forall i :: 0 <= i < |configs| ==>
         var c := configs[i];
         c.id in m && m[c.id] == Status(c, StateIn(previous, c.id))
  }

  lemma OneMoreNode(configs: seq<Config>, previous: NodeMap, m: NodeMap)
    requires configs != [] && DistinctIds(configs) && IsMapOf(configs[..|configs| - 1], previous, m)
    ensures var c := configs[|configs| - 1];
            IsMapOf(configs, previous, m[c.id := Status(c, StateIn(previous, c.id))])
  {
    var before := configs[..|configs| - 1];
    MoreIds(configs);
    hide IdsOf, StateIn;
    assert forall i :: 0 <= i < |before| ==> before[i] == configs[i];
  }

  lemma {:induction false} MapOfConfigs(configs: seq<Config>, previous: NodeMap)
    requires DistinctIds(configs)
    ensures IsMapOf(configs, previous, MapOf(configs, previous))
  {
    if configs != [] {
      MapOfConfigs(configs[..|configs| - 1], previous);
      OneMoreNode(configs, previous, MapOf(configs[..|configs| - 1], previous));
      hide IsMapOf;
    }
  }

  lemma KnownId(configs: seq<Config>, previous: NodeMap, id: NodeId)
    requires DistinctIds(configs)
    ensures id in MapOf(configs, previous) <==> exists j :: 0 <= j < |configs| && configs[j].id == id
  {
  }

  lemma OneMoreConfig(configs: seq<Config>, previous: NodeMap, k: nat)
    requires k < |configs| && DistinctIds(configs[..k])
    ensures var c, m := configs[k], MapOf(configs[..k], previous);
            && MapOf(configs[..k + 1], previous) == m[c.id := Status(c, StateIn(previous, c.id))]
            && if c.id in m then !DistinctIds(configs) else DistinctIds(configs[..k + 1])
  {
    var before := configs[..k];
    KnownId(before, previous, configs[k].id);
    assert configs[..k + 1][..k] == before && configs[..k + 1][k] == configs[k];
    assert MapOf(configs[..k + 1], previous)
        == MapOf(before, previous)[configs[k].id := Status(configs[k], StateIn(previous, configs[k].id))];
    hide MapOf;
    if configs[k].id in MapOf(before, previous) {
      var j :| 0 <= j < k && before[j].id == configs[k].id;
      assert configs[j].id == configs[k].id;
    } else {
      assert forall j :: 0 <= j < k ==> before[j] == configs[j];
    }
  }

  /** The loop of set_node_configs. */
  method BuildNodeMap(configs: seq<Config>, previous: NodeMap) returns (r: Result<NodeMap>)
    ensures r == if configs == [] then Err(EmptyConfiguration)
                 else if !DistinctIds(configs) then Err(DuplicateNode)
                 else Ok(MapOf(configs, previous))
  {
    if configs == [] {
      return Err(EmptyConfiguration);
    }
    var m: NodeMap := map[];
    for k := 0 to |configs|
      invariant DistinctIds(configs[..k])
      invariant m == MapOf(configs[..k], previous)
    {
      var c := configs[k];
      OneMoreConfig(configs, previous, k);
      hide DistinctIds, MapOf;
      if c.id in m {
        return Err(DuplicateNode);
      }
      m := m[c.id := Status(c, StateIn(previous, c.id))];
    }
    assert configs[..|configs|] == configs;
    return Ok(m);
  }

  // ---------- what the operations compute from a map ----------

  datatype Op = SetConfigs(configs: seq<Config>) | SetState(node: NodeId, state: State)

  function Checked(m: NodeMap): Result<NodeMap>
  {
    if Closed(m) then Ok(m) else Err(UnknownNeighbour)
  }

  /** The map that an operation commits over what it has read, or the exception it throws instead. */
  function Apply(op: Op, read: Stored): Result<NodeMap>
  {
    match op
    case SetConfigs(configs) =>
      if configs == [] then Err(EmptyConfiguration)
      else if !DistinctIds(configs) then Err(DuplicateNode)
      else Checked(MapOf(configs, if read.Some? then read.value else map[]))
    case SetState(node, state) =>
      if read.None? then Err(ClusterNotRegistered)
      else if node !in read.value then Err(NodeNotRegistered)
      else Checked(read.value[node := Status(read.value[node].config, state)])
  }

  ghost predicate WellFormedStored(v: Stored)
  {
    v.Some? ==> WellFormed(v.value)
  }

  lemma ApplyKeepsWellFormed(op: Op, read: Stored)
    requires WellFormedStored(read) && Apply(op, read).Ok?
    ensures WellFormed(Apply(op, read).value)
  {
    if op.SetConfigs? {
      MapOfConfigs(op.configs, if read.Some? then read.value else map[]);
      assert op.configs[0].id in Apply(op, read).value;
    }
  }

  predicate HasNode(configs: seq<Config>, n: NodeId)
  {
    exists i :: 0 <= i < |configs| && configs[i].id == n
  }

  /** Every node that a distance map names is configured. */
  predicate NeighboursKnown(configs: seq<Config>)
  {
    forall i :: 0 <= i < |configs| && configs[i].distances.Some? ==>
      forall q <- configs[i].distances.value :: HasNode(configs, q)
  }

  /** Configurations are refused exactly if there are none, an id occurs twice or a neighbour is not among them.
      Otherwise the map has exactly these nodes, the known ones in the state they were in and the new ones online. */
  lemma ConfigsApplied(configs: seq<Config>, read: Stored)
    ensures var r := Apply(SetConfigs(configs), read);
            && (r == Err(EmptyConfiguration) <==> configs == [])
            && (r == Err(DuplicateNode) <==> configs != [] && !DistinctIds(configs))
            && (r == Err(UnknownNeighbour) <==> configs != [] && DistinctIds(configs) && !NeighboursKnown(configs))
            && (r.Ok? <==> configs != [] && DistinctIds(configs) && NeighboursKnown(configs))
            && (r.Ok? ==> forall n :: n in r.value <==> HasNode(configs, n))
            && (r.Ok? ==> forall i :: 0 <= i < |configs| ==>
                  var n := configs[i].id;
                  && n in r.value && r.value[n].config == configs[i]
                  && r.value[n].state == if read.Some? && n in read.value then read.value[n].state else Online)
  {
    if configs != [] && DistinctIds(configs) {
      var m := MapOf(configs, if read.Some? then read.value else map[]);
      MapOfConfigs(configs, if read.Some? then read.value else map[]);
      ClosedIfKnown(configs, if read.Some? then read.value else map[], m);
    }
  }

  lemma ClosedIfKnown(configs: seq<Config>, previous: NodeMap, m: NodeMap)
    requires IsMapOf(configs, previous, m)
    ensures Closed(m) <==> NeighboursKnown(configs)
    ensures forall n :: n in m <==> HasNode(configs, n)
  {
    forall n
      ensures n in m <==> HasNode(configs, n)
    {
      assert n in m <==> n in IdsOf(configs);
    }
    hide IdsOf, StateIn;
    if NeighboursKnown(configs) {
      forall n <- m | m[n].config.distances.Some?
        ensures m[n].config.distances.value.Keys <= m.Keys
      {
        assert HasNode(configs, n);
        var i :| 0 <= i < |configs| && configs[i].id == n;
        assert m[n].config == configs[i];
      }
    }
    if Closed(m) {
      forall i | 0 <= i < |configs| && configs[i].distances.Some?
        ensures forall q <- configs[i].distances.value :: HasNode(configs, q)
      {
        assert m[configs[i].id].config == configs[i];
      }
    }
  }

  /** A change of state is refused exactly if the cluster or the node is not registered, or the map is not closed. */
  lemma StateApplied(node: NodeId, state: State, read: Stored)
    ensures var r := Apply(SetState(node, state), read);
            && (r == Err(ClusterNotRegistered) <==> read.None?)
            && (r == Err(NodeNotRegistered) <==> read.Some? && node !in read.value)
            && (r.Ok? <==> read.Some? && node in read.value && Closed(read.value))
            && (r.Ok? ==> r.value.Keys == read.value.Keys && r.value[node] == Status(read.value[node].config, state))
            && (r.Ok? ==> forall n <- r.value :: n != node ==> r.value[n] == read.value[n])
  {
    if read.Some? && node in read.value {
      var m := read.value[node := Status(read.value[node].config, state)];
      assert m.Keys == read.value.Keys;
      assert forall n <- m :: m[n].config == read.value[n].config;
    }
  }

  /** On a well-formed map a change of state can fail only because the node is not there. */
  lemma SetStateSucceeds(node: NodeId, state: State, m: NodeMap)
    requires WellFormed(m) && node in m
    ensures Apply(SetState(node, state), Some(m)) == Ok(m[node := m[node].(state := state)])
  {
  }

  /** Where a node stands after an operation: set_node_state changes one node only, and set_node_configs keeps
      the state of every node that survives it. */
  lemma StateAfter(op: Op, read: Stored, n: NodeId)
    requires Apply(op, read).Ok? && n in Apply(op, read).value
    ensures var m := Apply(op, read).value;
            var previous := if read.Some? then read.value else map[];
            m[n].state == if op.SetState? && op.node == n then op.state else StateIn(previous, n)
    ensures op.SetState? ==> Apply(op, read).value.Keys == read.value.Keys
    ensures op.SetState? ==> Apply(op, read).value[n].config == read.value[n].config
  {
    if op.SetConfigs? {
      MapOfConfigs(op.configs, if read.Some? then read.value else map[]);
    }
  }

  // ---------- neighbours ----------

  /** The neighbours of a node with their distances; `skipped` are those that the map does not know. */
  method GetNeighbourMap(m: NodeMap, node: NodeId) returns (r: Result<map<NodeId, (nat, Config)>>, skipped: set<NodeId>)
    ensures r.Ok? <==> node in m
    ensures r.Err? ==> r.error == NodeNotRegistered
    ensures node in m && m[node].config.distances.Some? ==>
              var d := m[node].config.distances.value;
              && r.value == (map q | q in d && q in m :: (d[q], m[q].config))
              && skipped == d.Keys - m.Keys
    ensures node in m && m[node].config.distances.None? ==>
              r.value == (map q | q in m :: (0, m[q].config)) && skipped == {}
    ensures node in m && Closed(m) ==> skipped == {}
  {
    skipped := {};
    if node !in m {
      return Err(NodeNotRegistered), skipped;
    }
    var out: map<NodeId, (nat, Config)> := map[];
    if m[node].config.distances.Some? {
      var d := m[node].config.distances.value;
      var left := d.Keys;
      while left != {}
        invariant left <= d.Keys
        invariant out == map q | q in d.Keys - left && q in m :: (d[q], m[q].config)
        invariant skipped == d.Keys - left - m.Keys
        decreases left
      {
        var q :| q in left;
        left := left - {q};
        if q !in m {
          skipped := skipped + {q};
        } else {
          out := out[q := (d[q], m[q].config)];
        }
      }
    } else {
      var left := m.Keys;
      while left != {}
        invariant left <= m.Keys
        invariant out == map q | q in m.Keys - left :: (0, m[q].config)
        decreases left
      {
        var q :| q in left;
        left, out := left - {q}, out[q := (0, m[q].config)];
      }
    }
    return Ok(out), skipped;
  }

  // ---------- the protocol ----------

  /** How often run_sequence prepares and sends a sequence that is retried on conflict. */
  const MAX_TRIES: nat := 10000

  /** A client between the calls that the store sees. */
  datatype Client =
    | Idle
    | Ready(op: Op, snapshot: Stored, next: NodeMap, tries: nat)
    | Conflicted(op: Op, tries: nat)
    | Guarding(node: NodeId, read: NodeMap)

  datatype Event =
    | Committed(op: Op, before: Stored, after: NodeMap)
    | Erased
    | Guarded(node: NodeId)

  datatype System = System(value: Stored, clients: map<nat, Client>, log: seq<Event>)

  /** One atomic action of one client. A step that is not enabled changes nothing. */
  datatype Step =
    | Prepare(c: nat, op: Op)
    | Commit(c: nat)
    | Retry(c: nat)
    | PrepareOffline(c: nat, node: NodeId)
    | CommitOffline(c: nat)
    | Erase

  function ClientOf(s: System, c: nat): Client
  {
    if c in s.clients then s.clients[c] else Idle
  }

  /** Reading the map and computing the next one; an exception ends the operation. */
  function Prepared(op: Op, value: Stored, tries: nat): Client
  {
    var r := Apply(op, value);
    if r.Ok? then Ready(op, value, r.value, tries) else Idle
  }

  function Next(s: System, e: Step): System
  {
    match e
    case Prepare(c, op) =>
      if ClientOf(s, c).Idle? then s.(clients := s.clients[c := Prepared(op, s.value, 0)]) else s
    case Commit(c) =>
      var p := ClientOf(s, c);
      if !p.Ready? then s
      else if s.value == p.snapshot then
        System(Some(p.next), s.clients[c := Idle], s.log + [Committed(p.op, p.snapshot, p.next)])
      else if p.op.SetState? && p.tries + 1 < MAX_TRIES then
        s.(clients := s.clients[c := Conflicted(p.op, p.tries + 1)])
      else s.(clients := s.clients[c := Idle])
    case Retry(c) =>
      var p := ClientOf(s, c);
      if p.Conflicted? then s.(clients := s.clients[c := Prepared(p.op, s.value, p.tries)]) else s
    case PrepareOffline(c, node) =>
      if ClientOf(s, c).Idle? && s.value.Some? && node in s.value.value && s.value.value[node].state == Offline
      then s.(clients := s.clients[c := Guarding(node, s.value.value)]) else s
    case CommitOffline(c) =>
      var p := ClientOf(s, c);
      if !p.Guarding? then s
      else if s.value == Some(p.read) then System(s.value, s.clients[c := Idle], s.log + [Guarded(p.node)])
      else s.(clients := s.clients[c := Idle])
    case Erase =>
      if s.value.Some? then System(None, s.clients, s.log + [Erased]) else s
  }

  function Run(steps: seq<Step>): System
  {
    if steps == [] then System(None, map[], [])
    else Next(Run(steps[..|steps| - 1]), steps[|steps| - 1])
  }

  // ---------- what holds in every interleaving ----------

  /** What the key holds after the logged events. */
  function ValueAfter(log: seq<Event>): Stored
  {
    if log == [] then None
    else match log[|log| - 1]
      case Committed(_, _, after) => Some(after)
      case Erased => None
      case Guarded(_) => ValueAfter(log[..|log| - 1])
  }

  /** Event `e` was right to happen when the key held `v`. */
  ghost predicate Justified(v: Stored, e: Event)
  {
    match e
    case Committed(op, before, after) => before == v && Apply(op, v) == Ok(after)
    case Erased => v.Some?
    case Guarded(node) => v.Some? && node in v.value && v.value[node].state == Offline
  }

  /** Every event was justified by the events before it, and every stored map is well-formed. */
  ghost predicate Chained(log: seq<Event>)
  {
    log == [] ||
    (var before := log[..|log| - 1];
     Chained(before) && Justified(ValueAfter(before), log[|log| - 1]) && WellFormedStored(ValueAfter(log)))
  }

  lemma {:induction false} ChainedAt(log: seq<Event>, k: nat)
    requires Chained(log) && k < |log|
    ensures Chained(log[..k])
    ensures Justified(ValueAfter(log[..k]), log[k]) && WellFormedStored(ValueAfter(log[..k + 1]))
  {
    if k == |log| - 1 {
      assert log[..k + 1] == log;
    } else {
      var before := log[..|log| - 1];
      ChainedAt(before, k);
      assert before[..k] == log[..k] && before[..k + 1] == log[..k + 1];
    }
  }

  lemma Logged(log: seq<Event>, e: Event)
    requires Chained(log) && Justified(ValueAfter(log), e) && WellFormedStored(ValueAfter(log + [e]))
    ensures Chained(log + [e])
  {
  }

  ghost predicate InProgress(p: Client)
  {
    match p
    case Idle => true
    case Ready(op, snapshot, next, tries) =>
      WellFormedStored(snapshot) && Apply(op, snapshot) == Ok(next) && tries < MAX_TRIES
    case Conflicted(op, tries) => op.SetState? && tries < MAX_TRIES
    case Guarding(node, read) => node in read && read[node].state == Offline
  }

  ghost predicate Consistent(s: System)
  {
    && s.value == ValueAfter(s.log) && Chained(s.log) && WellFormedStored(s.value)
    && forall c <- s.clients :: InProgress(s.clients[c])
  }

  lemma NextConsistent(s: System, e: Step)
    requires Consistent(s)
    ensures Consistent(Next(s, e))
  {
    hide Apply, WellFormedStored, Chained;
    var t := Next(s, e);
    match e {
      case Commit(c) =>
        var p := ClientOf(s, c);
        if p.Ready? && s.value == p.snapshot {
          ApplyKeepsWellFormed(p.op, s.value);
          WellFormedIsStored(p.next);
          Logged(s.log, Committed(p.op, p.snapshot, p.next));
        }
      case CommitOffline(c) =>
        var p := ClientOf(s, c);
        if p.Guarding? && s.value == Some(p.read) {
          assert (s.log + [Guarded(p.node)])[..|s.log|] == s.log;
          Logged(s.log, Guarded(p.node));
        }
      case Erase =>
        if s.value.Some? {
          NothingIsWellFormed();
          Logged(s.log, Erased);
        }
      case _ =>
    }
  }

  lemma WellFormedIsStored(m: NodeMap)
    ensures WellFormedStored(Some(m)) <==> WellFormed(m)
  {
  }

  lemma NothingIsWellFormed()
    ensures WellFormedStored(None)
  {
  }

  lemma {:induction false} EveryRunConsistent(steps: seq<Step>)
    ensures Consistent(Run(steps))
  {
    if steps != [] {
      EveryRunConsistent(steps[..|steps| - 1]);
      NextConsistent(Run(steps[..|steps| - 1]), steps[|steps| - 1]);
    }
  }

  /** In every interleaving of clients the log is a chain: each committed map is exactly one operation applied
      to the map committed just before it, each guarded sequence went through while its node was offline, and
      every stored map is non-empty, keyed by its configs' ids and closed under its distance maps. */
  lemma EveryCommitFollowsTheLast(steps: seq<Step>, k: nat)
    requires k < |Run(steps).log|
    ensures var log := Run(steps).log;
            && Justified(ValueAfter(log[..k]), log[k])
            && WellFormedStored(ValueAfter(log[..k + 1]))
            && Run(steps).value == ValueAfter(log)
  {
    EveryRunConsistent(steps);
    ChainedAt(Run(steps).log, k);
  }

  /** An event that leaves the state of node `n` to what was committed before. */
  predicate KeepsState(n: NodeId, e: Event)
  {
    match e
    case Committed(op, _, after) => n in after && !(op.SetState? && op.node == n)
    case Erased => false
    case Guarded(_) => true
  }

  lemma StateKept(v: Stored, e: Event, n: NodeId, w: Stored)
    requires Justified(v, e) && v.Some? && n in v.value && KeepsState(n, e)
    requires w == if e.Committed? then Some(e.after) else v
    ensures w.Some? && n in w.value && w.value[n].state == v.value[n].state
  {
    if e.Committed? {
      StateAfter(e.op, v, n);
    }
  }

  /** No update is lost: a committed state stays until the node is set again or dropped, or the map erased. */
  lemma {:induction false} StateSticks(log: seq<Event>, k: nat)
    requires Chained(log) && k < |log|
    requires log[k].Committed? && log[k].op.SetState?
    requires forall j :: k < j < |log| ==> KeepsState(log[k].op.node, log[j])
    ensures var v := ValueAfter(log);
            var n := log[k].op.node;
            v.Some? && n in v.value && v.value[n].state == log[k].op.state
  {
    var last := |log| - 1;
    var before := log[..last];
    if last > k {
      StateSticks(before, k);
      StateKept(ValueAfter(before), log[last], log[k].op.node, ValueAfter(log));
    } else {
      StateAfter(log[k].op, ValueAfter(before), log[k].op.node);
    }
  }

  /** Whoever reads the map in any run finds every neighbour it names, so none is ever skipped. */
  lemma StoredMapsAreClosed(steps: seq<Step>)
    ensures Run(steps).value.Some? ==> WellFormed(Run(steps).value.value)
  {
    EveryRunConsistent(steps);
  }

  /** A sequence that carries the offline assertion goes through only while the node is offline, whatever
      happened since the check. */
  lemma GuardHoldsAtCommit(steps: seq<Step>, c: nat)
    requires Next(Run(steps), CommitOffline(c)).log != Run(steps).log
    ensures var s := Run(steps);
            var node := ClientOf(s, c).node;
            s.value.Some? && node in s.value.value && s.value.value[node].state == Offline
  {
    EveryRunConsistent(steps);
  }

  // ---------- what goes through ----------

  /** Steps of other clients; anyone may erase the map. */
  ghost predicate Others(c: nat, steps: seq<Step>)
  {
    forall k :: 0 <= k < |steps| && !steps[k].Erase? ==> steps[k].c != c
  }

  lemma RunOn(a: seq<Step>, e: Step)
    ensures Run(a + [e]) == Next(Run(a), e)
  {
    assert (a + [e])[..|a|] == a;
  }

  lemma StepOfAnother(s: System, e: Step, c: nat)
    requires e.Erase? || e.c != c
    ensures ClientOf(Next(s, e), c) == ClientOf(s, c)
  {
    hide Prepared;
  }

  lemma {:induction false} OthersKeepClient(a: seq<Step>, c: nat, others: seq<Step>)
    requires Others(c, others)
    ensures ClientOf(Run(a + others), c) == ClientOf(Run(a), c)
  {
    if others == [] {
      assert a + others == a;
    } else {
      var n := |others| - 1;
      OthersKeepClient(a, c, others[..n]);
      RunOn(a + others[..n], others[n]);
      assert a + others[..n] + [others[n]] == a + others;
      hide Run, Next, ClientOf;
      StepOfAnother(Run(a + others[..n]), others[n], c);
    }
  }

  /** An operation commits its result exactly when the key holds at the commit what it held at the read, whatever the
      other clients did in between. Otherwise the key keeps what they committed; a change of state will be tried again
      and a configuration is given up. */
  lemma CommitsUnlessChanged(steps: seq<Step>, c: nat, op: Op, others: seq<Step>)
    requires ClientOf(Run(steps), c).Idle? && Apply(op, Run(steps).value).Ok? && Others(c, others)
    ensures var read := Run(steps).value;
            var s := Run(steps + [Prepare(c, op)] + others);
            var t := Run(steps + [Prepare(c, op)] + others + [Commit(c)]);
            var next := Apply(op, read).value;
            if s.value == read
            then t.value == Some(next) && t.log == s.log + [Committed(op, read, next)] && ClientOf(t, c) == Idle
            else t.value == s.value && t.log == s.log &&
                 ClientOf(t, c) == if op.SetState? then Conflicted(op, 1) else Idle
  {
    var started := steps + [Prepare(c, op)];
    RunOn(steps, Prepare(c, op));
    OthersKeepClient(started, c, others);
    RunOn(started + others, Commit(c));
    hide *;
    CommitStep(Run(steps), Run(started), Run(started + others), Run(started + others + [Commit(c)]), c, op);
  }

  lemma CommitStep(r: System, ready: System, s: System, t: System, c: nat, op: Op)
    requires ClientOf(r, c).Idle? && Apply(op, r.value).Ok? && ready == Next(r, Prepare(c, op))
    requires ClientOf(s, c) == ClientOf(ready, c) && t == Next(s, Commit(c))
    ensures var next := Apply(op, r.value).value;
            if s.value == r.value
            then t.value == Some(next) && t.log == s.log + [Committed(op, r.value, next)] && ClientOf(t, c) == Idle
            else t.value == s.value && t.log == s.log &&
                 ClientOf(t, c) == if op.SetState? then Conflicted(op, 1) else Idle
  {
    hide Apply;
  }

  /** Alone, an operation takes effect. */
  lemma CommitsAlone(steps: seq<Step>, c: nat, op: Op)
    requires ClientOf(Run(steps), c).Idle? && Apply(op, Run(steps).value).Ok?
    ensures Run(steps + [Prepare(c, op)] + [Commit(c)]).value == Some(Apply(op, Run(steps).value).value)
  {
    assert steps + [Prepare(c, op)] + [] == steps + [Prepare(c, op)];
    RunOn(steps, Prepare(c, op));
    CommitsUnlessChanged(steps, c, op, []);
  }

  /** An operation that cannot be computed from the map ends without a trace. */
  lemma RefusedAtOnce(s: System, c: nat, op: Op)
    requires ClientOf(s, c).Idle? && Apply(op, s.value).Err?
    ensures var t := Next(s, Prepare(c, op)); t.value == s.value && t.log == s.log && ClientOf(t, c) == Idle
  {
  }

  /** A change of state that met a conflict is computed again from the map as it is then, and so takes effect on top of
      the conflicting change. */
  lemma RetryTakesEffect(s: System, c: nat)
    requires ClientOf(s, c).Conflicted? && Apply(ClientOf(s, c).op, s.value).Ok?
    ensures var op := ClientOf(s, c).op;
            && ClientOf(Next(s, Retry(c)), c) == Ready(op, s.value, Apply(op, s.value).value, ClientOf(s, c).tries)
            && Next(Next(s, Retry(c)), Commit(c)).value == Some(Apply(op, s.value).value)
  {
    hide Apply;
  }

  /** Every conflict counts, and the last one that is allowed ends the operation without a trace. */
  lemma ConflictCounts(s: System, c: nat)
    requires ClientOf(s, c).Ready? && s.value != ClientOf(s, c).snapshot
    ensures var p, t := ClientOf(s, c), Next(s, Commit(c));
            && t.value == s.value && t.log == s.log
            && ClientOf(t, c) == if p.op.SetState? && p.tries < 9999 then Conflicted(p.op, p.tries + 1) else Idle
  {
  }

  /** A sequence with the offline assertion goes through exactly when the node was offline at the check and the key
      holds at the commit what it held then. */
  lemma GuardedUnlessChanged(steps: seq<Step>, c: nat, node: NodeId, others: seq<Step>)
    requires ClientOf(Run(steps), c).Idle? && Others(c, others)
    ensures var read := Run(steps).value;
            var s := Run(steps + [PrepareOffline(c, node)] + others);
            var t := Run(steps + [PrepareOffline(c, node)] + others + [CommitOffline(c)]);
            && t.value == s.value && ClientOf(t, c) == Idle
            && t.log == if read.Some? && node in read.value && read.value[node].state == Offline && s.value == read
                        then s.log + [Guarded(node)] else s.log
  {
    var started := steps + [PrepareOffline(c, node)];
    RunOn(steps, PrepareOffline(c, node));
    OthersKeepClient(started, c, others);
    RunOn(started + others, CommitOffline(c));
    hide *;
    GuardStep(Run(steps), Run(started), Run(started + others), Run(started + others + [CommitOffline(c)]), c, node);
  }

  lemma GuardStep(r: System, ready: System, s: System, t: System, c: nat, node: NodeId)
    requires ClientOf(r, c).Idle? && ready == Next(r, PrepareOffline(c, node))
    requires ClientOf(s, c) == ClientOf(ready, c) && t == Next(s, CommitOffline(c))
    ensures t.value == s.value && ClientOf(t, c) == Idle
    ensures t.log == if && r.value.Some? && node in r.value.value && r.value.value[node].state == Offline
                        && s.value == r.value
                     then s.log + [Guarded(node)] else s.log
  {
  }

  /** After an erasure the cluster is not registered, and a client that was at work is left alone. */
  lemma ErasedIsGone(s: System, c: nat)
    ensures Next(s, Erase).value == None && ClientOf(Next(s, Erase), c) == ClientOf(s, c)
  {
  }
}
