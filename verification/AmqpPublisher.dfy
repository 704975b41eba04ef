/** Publishing events to the first of several message brokers that works, while the list of brokers may change. */
module AmqpPublisher {
  import opened Rotation
  import opened Wrappers

  type Uri = string

  /** A connection to the broker at `uri`. */
  datatype Channel = Channel(id: int, uri: Uri)

  // ---------- one event ----------

  /** What the brokers do with one attempt: give a channel if asked for one, and accept the message or not. */
  datatype Attempt = Attempt(connects: Option<int>, accepts: bool)

  datatype Outcome = Outcome(index: nat, channel: Option<Channel>, tried: seq<nat>, sent: bool)

  /** Attempt `k` gets the event out; only the first one can use the channel that is there already. */
  predicate Works(given: bool, env: seq<Attempt>, k: nat)
    requires k < |env|
  {
    ((k == 0 && given) || env[k].connects.Some?) && env[k].accepts
  }

  /** The first attempt that works, and |env| if none does. */
  function FirstThatWorks(given: bool, env: seq<Attempt>, from: nat): (k: nat)
    requires from <= |env|
    ensures from <= k <= |env| && (k < |env| ==> Works(given, env, k))
    ensures forall j :: from <= j < k ==> !Works(given, env, j)
    decreases |env| - from
  {
    if from == |env| || Works(given, env, from) then from else FirstThatWorks(given, env, from + 1)
  }

  /** The URIs that `m` attempts from `start` on go to. */
  function Route(n: nat, start: nat, m: nat): seq<nat>
    requires start < n && m <= n
  {
    seq(m, j requires 0 <= j < m => Around(n, start, j))
  }

  /** What an event does to the place in the list and the channel: it goes to the first URI, from the current one on
      and around the list, where an attempt works, and is dropped after a whole round. */
  function Published(uris: seq<Uri>, index: nat, channel: Option<Channel>, env: seq<Attempt>): Outcome
    requires index < |uris| == |env|
  {
    var n := |uris|;
    var k := FirstThatWorks(channel.Some?, env, 0);
    if k == n then Outcome(index, None, Route(n, index, n), false)
    else
      var i := Around(n, index, k);
      Outcome(i, if k == 0 && channel.Some? then channel else Some(Channel(env[k].connects.value, uris[i])),
              Route(n, index, k + 1), true)
  }

  lemma RouteNext(n: nat, start: nat, m: nat, i: nat)
    requires start < n && m < n && i == Around(n, start, m)
    ensures Route(n, start, m) + [i] == Route(n, start, m + 1)
  {
  }

  /** publish_: the loop. */
  method Publish(uris: seq<Uri>, index: nat, channel: Option<Channel>, env: seq<Attempt>) returns (o: Outcome)
    requires index < |uris| == |env|
    ensures o == Published(uris, index, channel, env)
  {
    var idx, chan, attempts := index, channel, |uris|;
    var tried := [];
    for i := 0 to attempts
      invariant idx == (if i == attempts then index else Around(attempts, index, i))
      invariant chan == (if i == 0 then channel else None)
      invariant tried == Route(attempts, index, i)
      invariant FirstThatWorks(channel.Some?, env, 0) >= i
    {
      RouteNext(attempts, index, i, idx);
      tried := tried + [idx];
      if chan == None && env[i].connects.Some? {
        chan := Some(Channel(env[i].connects.value, uris[idx]));
      }
      if chan != None && env[i].accepts {
        assert Works(channel.Some?, env, i);
        return Outcome(idx, chan, tried, true);
      }
      chan := None;
      AfterIs(attempts, idx);
      idx := (idx + 1) % attempts;
    }
    return Outcome(idx, chan, tried, false);
  }

  /** Attempt `k` is the first one that gets the event out: with the channel that is there already if it is the very
      first, or with a new one. */
  ghost predicate GetsOutAt(channel: Option<Channel>, env: seq<Attempt>, k: nat)
  {
    && k < |env| && env[k].accepts && (env[k].connects.Some? || (k == 0 && channel.Some?))
    && (forall j :: 0 < j < k ==> !env[j].accepts || env[j].connects.None?)
    && (k > 0 ==> !env[0].accepts || (channel.None? && env[0].connects.None?))
  }

  /** An event goes out with the first attempt that works. That attempt is made at the URI as many places after the
      current one, which becomes the current one; the channel is the old one if that did, and else a new one to that
      URI. */
  lemma SentWhere(uris: seq<Uri>, index: nat, channel: Option<Channel>, env: seq<Attempt>, k: nat)
    requires index < |uris| == |env| && GetsOutAt(channel, env, k)
    ensures var o := Published(uris, index, channel, env);
            && o.sent && |o.tried| == k + 1
            && o.index == (if index + k < |uris| then index + k else index + k - |uris|)
            && (k == 0 && channel.Some? ==> o.channel == channel)
            && (k > 0 || channel.None? ==> o.channel == Some(Channel(env[k].connects.value, uris[o.index])))
  {
    assert Works(channel.Some?, env, k);
    assert forall j :: 0 <= j < k ==> !Works(channel.Some?, env, j);
  }

  /** It is dropped, and the channel with it, exactly if there is no such attempt. */
  lemma DroppedExactly(uris: seq<Uri>, index: nat, channel: Option<Channel>, env: seq<Attempt>)
    requires index < |uris| == |env|
    ensures var o := Published(uris, index, channel, env);
            && (o.sent <==> exists k :: GetsOutAt(channel, env, k))
            && (!o.sent ==> o.channel == None && |o.tried| == |uris|)
  {
    var k := FirstThatWorks(channel.Some?, env, 0);
    if k < |env| {
      forall j | 0 < j < k
        ensures !env[j].accepts || env[j].connects.None?
      {
        assert !Works(channel.Some?, env, j);
      }
      assert k > 0 ==> !Works(channel.Some?, env, 0);
      assert GetsOutAt(channel, env, k);
    }
    if j :| GetsOutAt(channel, env, j) {
      assert Works(channel.Some?, env, j);
    }
  }

  /** The channel leads to the URI at the index. */
  ghost predicate Matching(uris: seq<Uri>, index: nat, channel: Option<Channel>)
  {
    && (uris != [] ==> index < |uris|)
    && (channel.Some? ==> index < |uris| && channel.value.uri == uris[index])
  }

  lemma PublishedMatches(uris: seq<Uri>, index: nat, channel: Option<Channel>, env: seq<Attempt>)
    requires index < |uris| == |env| && Matching(uris, index, channel)
    ensures var o := Published(uris, index, channel, env);
            Matching(uris, o.index, o.channel) && o.index < |uris| && (o.sent <==> o.channel.Some?)
  {
  }

  /** No URI is tried twice, and an event that is dropped was tried with every one. */
  lemma DroppedAfterAll(uris: seq<Uri>, index: nat, channel: Option<Channel>, env: seq<Attempt>)
    requires index < |uris| == |env|
    ensures var o := Published(uris, index, channel, env);
            && o.tried != [] && o.tried[0] == index
            && (forall a, b :: 0 <= a < b < |o.tried| ==> o.tried[a] != o.tried[b])
            && (o.sent ==> o.tried[|o.tried| - 1] == o.index)
            && (!o.sent ==> o.index == index && forall i :: 0 <= i < |uris| ==> i in o.tried)
  {
    var n, o := |uris|, Published(uris, index, channel, env);
    if !o.sent {
      forall i | 0 <= i < n
        ensures i in o.tried
      {
        var j := if i >= index then i - index else i + n - index;
        assert o.tried[j] == i;
      }
    }
  }

  // ---------- publishers and updates ----------

  /** A parameter object: `version` is its identity. */
  datatype Cell<T> = Cell(version: nat, value: T)

  datatype Config = Config(uris: Cell<seq<Uri>>, exchange: Cell<string>, key: Cell<string>)

  /** What the management lock protects. */
  datatype Shared = Shared(config: Config, index: nat, channel: Option<Channel>)

  /** A publisher inside publish: its copy of the shared state, as changed by its event once that is `sent` off. */
  datatype Task = Task(copy: Shared, sent: bool)

  /** `next` is the identity of the next parameter object. */
  datatype State = State(shared: Shared, tasks: map<int, Task>, next: nat)

  datatype Event =
    | Begin(publisher: int)
    | Send(publisher: int, env: seq<Attempt>)
    | Finish(publisher: int)
    | Abandon(publisher: int)
    | Update(uris: seq<Uri>, exchange: string, key: string)

  /** do_update: a new object only if the value differs. */
  function Updated<T(==)>(cell: Cell<T>, value: T, version: nat): Cell<T>
  {
    if cell.value == value then cell else Cell(version, value)
  }

  function UpdatedConfig(c: Config, uris: seq<Uri>, exchange: string, key: string, next: nat): Config
  {
    Config(Updated(c.uris, uris, next), Updated(c.exchange, exchange, next + 1), Updated(c.key, key, next + 2))
  }

  function UpdatedShared(s: Shared, uris: seq<Uri>, exchange: string, key: string, next: nat): Shared
  {
    var c := UpdatedConfig(s.config, uris, exchange, key, next);
    if c == s.config then s else Shared(c, 0, None)
  }

  predicate SameObjects(a: Config, b: Config)
  {
    a.uris.version == b.uris.version && a.exchange.version == b.exchange.version && a.key.version == b.key.version
  }

  /** The end of publish: the copy is put back unless the configuration was replaced. */
  function PutBack(s: Shared, copy: Shared): Shared
  {
    if SameObjects(copy.config, s.config) then Shared(s.config, copy.index, copy.channel) else s
  }

  function Sent(copy: Shared, env: seq<Attempt>): Shared
    requires copy.index < |copy.config.uris.value| == |env|
  {
    var o := Published(copy.config.uris.value, copy.index, copy.channel, env);
    Shared(copy.config, o.index, o.channel)
  }

  function Next(s: State, e: Event): State
  {
    match e
    case Begin(p) =>
      if p in s.tasks || s.shared.config.uris.value == [] then s else s.(tasks := s.tasks[p := Task(s.shared, false)])
    case Send(p, env) =>
      if p !in s.tasks || s.tasks[p].sent || !(s.tasks[p].copy.index < |s.tasks[p].copy.config.uris.value| == |env|)
      then s
      else s.(tasks := s.tasks[p := Task(Sent(s.tasks[p].copy, env), true)])
    case Finish(p) =>
      if p !in s.tasks || !s.tasks[p].sent then s
      else s.(shared := PutBack(s.shared, s.tasks[p].copy), tasks := s.tasks - {p})
    case Abandon(p) => s.(tasks := s.tasks - {p})
    case Update(uris, exchange, key) =>
      s.(shared := UpdatedShared(s.shared, uris, exchange, key, s.next), next := s.next + 3)
  }

  // ---------- what every step keeps ----------

  predicate Known(c: Config, next: nat)
  {
    c.uris.version < next && c.exchange.version < next && c.key.version < next
  }

  ghost predicate Fits(s: Shared)
  {
    Matching(s.config.uris.value, s.index, s.channel)
  }

  /** A copy fits, was taken while events were enabled, and has the URIs of the shared state if it has its objects. */
  ghost predicate GoodTask(s: State, p: int)
    requires p in s.tasks
  {
    var c := s.tasks[p].copy;
    && Fits(c) && c.config.uris.value != [] && Known(c.config, s.next)
    && (c.config.uris.version == s.shared.config.uris.version ==> c.config.uris == s.shared.config.uris)
  }

  ghost predicate Consistent(s: State)
  {
    && Fits(s.shared) && Known(s.shared.config, s.next)
    && forall p :: p in s.tasks ==> GoodTask(s, p)
  }

  lemma NextConsistent(s: State, e: Event)
    requires Consistent(s)
    ensures Consistent(Next(s, e))
  {
    hide Published;
    var t := Next(s, e);
    match e
    case Begin(p) => assert forall q :: q in s.tasks ==> GoodTask(s, q);
    case Send(p, env) =>
      if t != s {
        assert GoodTask(s, p);
        var c := s.tasks[p].copy;
        PublishedMatches(c.config.uris.value, c.index, c.channel, env);
      }
    case Finish(p) =>
      if t != s {
        assert GoodTask(s, p);
      }
    case Abandon(p) => assert forall q :: q in t.tasks ==> GoodTask(s, q);
    case Update(_, _, _) => assert forall q :: q in s.tasks ==> GoodTask(s, q);
  }

  function Start(uris: seq<Uri>, exchange: string, key: string): State
  {
    State(Shared(Config(Cell(0, uris), Cell(1, exchange), Cell(2, key)), 0, None), map[], 3)
  }

  /** Any interleaving of publishers and updates. */
  function Run(first: State, events: seq<Event>): State
  {
    if events == [] then first else Next(Run(first, events[..|events| - 1]), events[|events| - 1])
  }

  ghost predicate Starts(s: State)
  {
    s == Start(s.shared.config.uris.value, s.shared.config.exchange.value, s.shared.config.key.value)
  }

  /** While events are enabled the index is inside the list, a channel always leads to the URI at the index, and the
      same holds for what each publisher will put back. */
  lemma {:induction false} EveryRunConsistent(first: State, events: seq<Event>)
    requires Starts(first)
    ensures Consistent(Run(first, events))
  {
    if events != [] {
      hide Consistent, Next;
      EveryRunConsistent(first, events[..|events| - 1]);
      NextConsistent(Run(first, events[..|events| - 1]), events[|events| - 1]);
    }
  }

  // ---------- no stale state ----------

  predicate NewerCell<T(==)>(a: Cell<T>, b: Cell<T>)
  {
    a == b || a.version < b.version
  }

  predicate Newer(a: Config, b: Config)
  {
    NewerCell(a.uris, b.uris) && NewerCell(a.exchange, b.exchange) && NewerCell(a.key, b.key)
  }

  lemma NextNewer(s: State, e: Event)
    requires Consistent(s)
    ensures Newer(s.shared.config, Next(s, e).shared.config)
  {
  }

  lemma RunOn(first: State, a: seq<Event>, b: seq<Event>)
    requires b != []
    ensures Run(first, a + b) == Next(Run(first, a + b[..|b| - 1]), b[|b| - 1])
  {
    assert (a + b)[..|a + b| - 1] == a + b[..|b| - 1];
  }

  lemma {:induction false} RunNewer(first: State, a: seq<Event>, b: seq<Event>)
    requires Starts(first)
    ensures Newer(Run(first, a).shared.config, Run(first, a + b).shared.config)
  {
    hide Consistent, Next, Starts;
    if b == [] {
      assert a + b == a;
    } else {
      RunOn(first, a, b);
      RunNewer(first, a, b[..|b| - 1]);
      EveryRunConsistent(first, a + b[..|b| - 1]);
      NextNewer(Run(first, a + b[..|b| - 1]), b[|b| - 1]);
    }
  }

  /** A configuration that was replaced never comes back. */
  lemma NoReturn(first: State, a: seq<Event>, b: seq<Event>, c: seq<Event>)
    requires Starts(first) && SameObjects(Run(first, a).shared.config, Run(first, a + b + c).shared.config)
    ensures Run(first, a + b).shared.config == Run(first, a).shared.config
  {
    RunNewer(first, a, b);
    RunNewer(first, a + b, c);
    hide Run, Starts;
  }

  /** Events in which `p` does not leave or enter publish. */
  ghost predicate StaysIn(p: int, events: seq<Event>)
  {
    forall k :: 0 <= k < |events| ==>
      events[k] != Begin(p) && events[k] != Finish(p) && events[k] != Abandon(p)
  }

  lemma {:induction false} CopyKeepsConfig(first: State, a: seq<Event>, b: seq<Event>, p: int)
    requires p in Run(first, a).tasks && StaysIn(p, b)
    ensures p in Run(first, a + b).tasks
    ensures Run(first, a + b).tasks[p].copy.config == Run(first, a).tasks[p].copy.config
  {
    if b == [] {
      assert a + b == a;
    } else {
      RunOn(first, a, b);
      CopyKeepsConfig(first, a, b[..|b| - 1], p);
      hide Run, Published;
    }
  }

  lemma CopyTaken(first: State, a: seq<Event>, b: seq<Event>, p: int)
    requires p !in Run(first, a).tasks && Run(first, a).shared.config.uris.value != [] && StaysIn(p, b)
    ensures var t := Run(first, a + [Begin(p)] + b);
            p in t.tasks && t.tasks[p].copy.config == Run(first, a).shared.config
    ensures Run(first, a + [Begin(p)]).shared.config == Run(first, a).shared.config
  {
    RunOn(first, a, [Begin(p)]);
    assert a + [] == a;
    CopyKeepsConfig(first, a + [Begin(p)], b, p);
  }

  /** The configuration did not change at any time during `b`. */
  ghost predicate Unchanged(first: State, a: seq<Event>, b: seq<Event>)
  {
    forall j :: 0 <= j <= |b| ==> Run(first, a + b[..j]).shared.config == Run(first, a).shared.config
  }

  lemma UnchangedExactly(first: State, a: seq<Event>, b: seq<Event>)
    requires Starts(first)
    ensures SameObjects(Run(first, a).shared.config, Run(first, a + b).shared.config) <==> Unchanged(first, a, b)
  {
    hide Run, Starts, SameObjects;
    assert b[..|b|] == b;
    if SameObjects(Run(first, a).shared.config, Run(first, a + b).shared.config) {
      forall j | 0 <= j <= |b|
        ensures Run(first, a + b[..j]).shared.config == Run(first, a).shared.config
      {
        assert a + b == a + b[..j] + b[j..];
        NoReturn(first, a, b[..j], b[j..]);
      }
    }
    if Unchanged(first, a, b) {
      SameIsSame(Run(first, a + b).shared.config);
    }
  }

  lemma SameIsSame(c: Config)
    ensures SameObjects(c, c)
  {
  }

  /** A publisher that takes its copy after `a` and finishes after `b` puts it back exactly when the configuration did
      not change at any time in between; otherwise it changes nothing. */
  lemma StaleCopiesDropped(first: State, a: seq<Event>, b: seq<Event>, p: int)
    requires Starts(first) && p !in Run(first, a).tasks && Run(first, a).shared.config.uris.value != []
    requires StaysIn(p, b)
    ensures var t := Run(first, a + [Begin(p)] + b);
            && p in t.tasks
            && (SameObjects(t.tasks[p].copy.config, t.shared.config) <==> Unchanged(first, a + [Begin(p)], b))
            && (var copy := t.tasks[p].copy;
                Next(t, Finish(p)).shared
                == if Unchanged(first, a + [Begin(p)], b) && t.tasks[p].sent
                   then Shared(t.shared.config, copy.index, copy.channel) else t.shared)
  {
    hide Run, Starts, Unchanged, SameObjects, StaysIn;
    CopyTaken(first, a, b, p);
    UnchangedExactly(first, a + [Begin(p)], b);
  }

  // ---------- what each step does ----------

  /** Undisturbed, a publisher moves the shared index and channel to where its event went. */
  lemma PublishesAlone(s: State, p: int, env: seq<Attempt>)
    requires Consistent(s) && p !in s.tasks && s.shared.config.uris.value != [] && |env| == |s.shared.config.uris.value|
    ensures var t := Next(Next(Next(s, Begin(p)), Send(p, env)), Finish(p));
            var o := Published(s.shared.config.uris.value, s.shared.index, s.shared.channel, env);
            t.shared == Shared(s.shared.config, o.index, o.channel) && t.tasks == s.tasks
  {
    hide Published;
    var t := Next(Next(Next(s, Begin(p)), Send(p, env)), Finish(p));
    assert t.tasks == s.tasks;
  }

  /** While there is no URI nothing is published, and an abandoned event leaves the shared state alone. */
  lemma NothingPublished(s: State, p: int)
    ensures s.shared.config.uris.value == [] ==> Next(s, Begin(p)) == s
    ensures Next(s, Abandon(p)).shared == s.shared && p !in Next(s, Abandon(p)).tasks
  {
  }

  /** An update puts the new values in place. If one of them differs, publishing starts over at the first URI without a
      channel, and a publisher at work notices; if none does, nothing happens. No publisher loses its copy. */
  lemma UpdateTaken(s: State, uris: seq<Uri>, exchange: string, key: string)
    requires Known(s.shared.config, s.next)
    ensures var t := Next(s, Update(uris, exchange, key));
            var c, d := s.shared.config, t.shared.config;
            && d.uris.value == uris && d.exchange.value == exchange && d.key.value == key && t.tasks == s.tasks
            && (SameObjects(c, d) <==> c.uris.value == uris && c.exchange.value == exchange && c.key.value == key)
            && (if SameObjects(c, d) then t.shared == s.shared else t.shared.index == 0 && t.shared.channel == None)
            && (c.uris.value == uris ==> d.uris == c.uris)
            && (c.exchange.value == exchange ==> d.exchange == c.exchange)
            && (c.key.value == key ==> d.key == c.key)
  {
  }

  // ---------- the publisher itself ----------

  class Publisher {
    var config: Config
    var index: nat
    var channel: Option<Channel>
    /** The identity of the next parameter object. */
    var next: nat

    ghost function Snap(): Shared
      reads this
    {
      Shared(config, index, channel)
    }

    constructor (uris: seq<Uri>, exchange: string, key: string)
      ensures Snap() == Start(uris, exchange, key).shared && next == Start(uris, exchange, key).next
    {
      config, index, channel := Config(Cell(0, uris), Cell(1, exchange), Cell(2, key)), 0, None;
      next := 3;
    }

    /** The locked section that publish begins with. */
    method Begin() returns (copy: Option<Shared>)
      requires Fits(Snap())
      ensures copy == if config.uris.value == [] then None else Some(Snap())
      ensures copy.Some? ==> copy.value.index < |copy.value.config.uris.value|
    {
      copy := None;
      if config.uris.value != [] {
        copy := Some(Shared(config, index, channel));
      }
    }

    /** The locked section that it ends with. */
    method Finish(copy: Shared)
      requires Fits(copy) && copy.config.uris.value != []
      requires copy.config.uris.version == config.uris.version ==> copy.config.uris == config.uris
      modifies this
      ensures Snap() == PutBack(old(Snap()), copy) && next == old(next)
    {
      if SameObjects(copy.config, config) {
        assert copy.index < |config.uris.value|;
        index := copy.index;
        channel := copy.channel;
      }
    }

    method Update(uris: seq<Uri>, exchange: string, key: string)
      requires Known(config, next)
      modifies this
      ensures Snap() == UpdatedShared(old(Snap()), uris, exchange, key, old(next)) && next == old(next) + 3
      ensures Known(config, next)
    {
      var updated := false;
      if config.uris.value != uris {
        config := config.(uris := Cell(next, uris));
        updated := true;
      }
      if config.exchange.value != exchange {
        config := config.(exchange := Cell(next + 1, exchange));
        updated := true;
      }
      if config.key.value != key {
        config := config.(key := Cell(next + 2, key));
        updated := true;
      }
      next := next + 3;
      if updated {
        index := 0;
        channel := None;
      }
    }
  }
}
