/** The running tasks of each job, and how they are brought in line with a target group. */
module Collector {
  import opened Base
  import opened TargetPb
  import opened TaskKey

  /** A pinger; its goroutine is not modelled, only that it was started and stopped, and how often. */
  class Task {
    const address: bytes
    const labels: map<bytes, bytes>
    var stopped: bool
    ghost var starts: nat
    ghost var stops: nat

    constructor (addr: bytes, lbs: map<bytes, bytes>)
      ensures address == addr && labels == lbs && !stopped && starts == 0 && stops == 0
    {
      address, labels, stopped, starts, stops := addr, lbs, false, 0, 0;
    }

    method Start()
      modifies this
      ensures starts == old(starts) + 1 && stops == old(stops) && stopped == old(stopped)
    {
      starts := starts + 1;
    }

    method Stop()
      modifies this
      ensures stopped && stops == old(stops) + 1 && starts == old(starts)
    {
      stopped, stops := true, stops + 1;
    }
  }

  /** The inner search through the ids of the wanted targets. */
  method Search(idCache: seq<uint64>, taskID: uint64) returns (found: bool)
    ensures found <==> taskID in idCache
  {
    found := false;
    for i := 0 to |idCache|
      invariant !found && taskID !in idCache[..i]
    {
      if idCache[i] == taskID { return true; }
    }
  }

  /** The two copying loops: external labels override. */
  method CopyLabels(from: map<bytes, bytes>, into: map<bytes, bytes>) returns (m: map<bytes, bytes>)
    ensures m == into + from
  {
    m := into;
    var remaining := from.Keys;
    while remaining != {}
      invariant remaining <= from.Keys
      invariant m == into + (map k | k in from && k !in remaining :: from[k])
      decreases |remaining|
    {
      var k :| k in remaining;
      m := m[k := from[k]];
      remaining := remaining - {k};
    }
  }

  method MergedLabels(labels: map<bytes, bytes>, externalLabels: map<bytes, bytes>) returns (m: map<bytes, bytes>)
    ensures m == labels + externalLabels
  {
    m := CopyLabels(labels, map[]);
    m := CopyLabels(externalLabels, m);
  }

  /** The keys a target group asks for. */
  ghost function Wanted(tg: Targetgroup, externalLabels: map<bytes, bytes>): set<uint64> {
    set a | a in tg.targets :: TaskIDOf(a, tg.labels + externalLabels)
  }

  /** Each target has its key among the keys, or it failed; and each key is that of some target. */
  ghost predicate OnePerTarget(keys: set<uint64>, failed: set<uint64>, tg: Targetgroup,
                               externalLabels: map<bytes, bytes>) {
    && (forall a :: a in tg.targets ==>
          TaskIDOf(a, tg.labels + externalLabels) in keys || TaskIDOf(a, tg.labels + externalLabels) in failed)
    && (forall id :: id in keys ==> exists a :: a in tg.targets && id == TaskIDOf(a, tg.labels + externalLabels))
  }

  /** Each target has its key among them, and each of them is the key of a target. */
  lemma WantedTold(tg: Targetgroup, externalLabels: map<bytes, bytes>)
    ensures forall a :: a in tg.targets ==> TaskIDOf(a, tg.labels + externalLabels) in Wanted(tg, externalLabels)
    ensures forall id :: id in Wanted(tg, externalLabels) ==>
              exists a :: a in tg.targets && id == TaskIDOf(a, tg.labels + externalLabels)
  {
    hide TaskIDOf;
  }

  lemma TargetsSeenTo(keys: set<uint64>, before: set<uint64>, created: set<uint64>, failed: set<uint64>,
                      tg: Targetgroup, externalLabels: map<bytes, bytes>)
    requires var wanted := Wanted(tg, externalLabels);
             keys == before * wanted + created && created <= wanted && wanted - before <= created + failed
    ensures OnePerTarget(keys, failed, tg, externalLabels)
  {
    hide TaskIDOf, Wanted;
    WantedTold(tg, externalLabels);
    var wanted := Wanted(tg, externalLabels);
    forall a | a in tg.targets
      ensures TaskIDOf(a, tg.labels + externalLabels) in keys || TaskIDOf(a, tg.labels + externalLabels) in failed
    {
      var id := TaskIDOf(a, tg.labels + externalLabels);
      assert id in wanted && (id in before || id in wanted - before);
    }
    forall id | id in keys
      ensures id in wanted
    {
      assert id in before * wanted || id in created;
    }
  }

  function With(group: map<uint64, Task>, id: uint64, t: Task): map<uint64, Task> {
    group[id := t]
  }

  /** Without any label a job asks for one key at most, however many targets it has: only one of them is run. */
  lemma WantedWithoutLabels(tg: Targetgroup, externalLabels: map<bytes, bytes>)
    requires tg.labels + externalLabels == map[]
    ensures |Wanted(tg, externalLabels)| == (if tg.targets == [] then 0 else 1)
  {
    if tg.targets != [] {
      forall a | a in tg.targets
        ensures TaskIDOf(a, map[]) == TaskIDOf(tg.targets[0], map[])
      {
        NoLabelsNoAddress(a, tg.targets[0]);
      }
      assert tg.targets[0] in tg.targets;
      assert Wanted(tg, externalLabels) == {TaskIDOf(tg.targets[0], map[])};
    }
  }

  type Groups = map<bytes, map<uint64, Task>>
  type Homes = map<Task, (bytes, uint64)>

  /** `home` is the inverse of the nested maps of tasks: no task stands in two places. */
  ghost predicate Placed(tasks: Groups, home: Homes) {
    && (forall t :: t in home ==> RunsAt(tasks, t, home[t].0, home[t].1))
    && (forall j, id :: j in tasks && id in tasks[j] ==> tasks[j][id] in home && home[tasks[j][id]] == (j, id))
  }

  ghost predicate RunsAt(tasks: Groups, t: Task, j: bytes, id: uint64) {
    j in tasks && id in tasks[j] && tasks[j][id] == t
  }

  /** A task stands under the key of what it probes. */
  ghost predicate Identified(home: Homes) {
    forall t :: t in home ==> home[t].1 == TaskIDOf(t.address, t.labels)
  }

  /** The task probes a target of the group, and carries the group's labels and the external ones, which override. */
  ghost predicate Probes(t: Task, tg: Targetgroup, externalLabels: map<bytes, bytes>) {
    && t.address in tg.targets
    && (forall k :: k in t.labels <==> k in tg.labels || k in externalLabels)
    && (forall k :: k in externalLabels ==> t.labels[k] == externalLabels[k])
    && (forall k :: k in tg.labels && k !in externalLabels ==> t.labels[k] == tg.labels[k])
  }

  ghost predicate StartedOnce(t: Task, running: bool)
    reads t
  {
    t.starts == 1 && t.stops == (if running then 0 else 1) && t.stopped == !running
  }

  lemma Overwrites(g0: Groups, g1: Groups, g2: Groups, g3: Groups, name: bytes)
    requires name in g1 && g1 == g0[name := g1[name]]
    requires name in g2 && g2 == g1[name := g2[name]] && name in g3 && g3 == g2[name := g3[name]]
    ensures g3 == g0[name := g3[name]]
  {
  }

  lemma PlaceTask(tasks: Groups, home: Homes, j: bytes, id: uint64, t: Task)
    requires Placed(tasks, home) && j in tasks && id !in tasks[j] && t !in home
    ensures Placed(tasks[j := With(tasks[j], id, t)], home[t := (j, id)])
  {
    var tasks', home' := tasks[j := With(tasks[j], id, t)], home[t := (j, id)];
    forall u | u in home'
      ensures RunsAt(tasks', u, home'[u].0, home'[u].1)
    {
      assert u != t ==> RunsAt(tasks, u, home[u].0, home[u].1);
    }
  }

  lemma IdentifyTask(home: Homes, t: Task, j: bytes, id: uint64)
    requires Identified(home) && id == TaskIDOf(t.address, t.labels)
    ensures Identified(home[t := (j, id)])
  {
    hide TaskIDOf;
  }

  lemma DisplaceTask(tasks: Groups, home: Homes, j: bytes, id: uint64)
    requires Placed(tasks, home) && j in tasks && id in tasks[j]
    ensures tasks[j][id] in home && home[tasks[j][id]] == (j, id)
    ensures Placed(tasks[j := tasks[j] - {id}], home - {tasks[j][id]})
  {
    var tasks', home' := tasks[j := tasks[j] - {id}], home - {tasks[j][id]};
    forall u | u in home'
      ensures RunsAt(tasks', u, home'[u].0, home'[u].1)
    {
      assert RunsAt(tasks, u, home[u].0, home[u].1);
    }
  }

  /** The same tasks as before and new ones under the keys `created`. */
  ghost predicate Grown(before: map<uint64, Task>, after: map<uint64, Task>, created: set<uint64>) {
    && after.Keys == before.Keys + created && created !! before.Keys
    && (forall id :: id in before ==> after[id] == before[id])
  }

  /** The tasks under these keys are the same. */
  ghost predicate Kept(before: map<uint64, Task>, after: map<uint64, Task>, ids: set<uint64>) {
    forall id :: id in ids ==> id in before && id in after && after[id] == before[id]
  }

  lemma KeptAll(before: map<uint64, Task>, after: map<uint64, Task>, created: set<uint64>)
    requires Grown(before, after, created)
    ensures Kept(after, after, created)
  {
  }

  lemma GrownKept(before: map<uint64, Task>, after: map<uint64, Task>, created: set<uint64>, id: uint64, t: Task)
    requires Grown(before, after, created) && id !in after
    ensures Kept(after, With(after, id, t), created)
  {
  }

  ghost function TasksAt(group: map<uint64, Task>, ids: set<uint64>): set<Task> {
    set id | id in ids && id in group :: group[id]
  }

  lemma GrownNone(group: map<uint64, Task>)
    ensures Grown(group, group, {}) && TasksAt(group, {}) == {}
  {
  }

  lemma GrownKeys(before: map<uint64, Task>, after: map<uint64, Task>, created: set<uint64>)
    requires Grown(before, after, created)
    ensures after.Keys == before.Keys + created
  {
  }

  lemma GrownOne(before: map<uint64, Task>, after: map<uint64, Task>, created: set<uint64>, id: uint64, t: Task)
    requires Grown(before, after, created) && id !in after
    ensures Grown(before, With(after, id, t), created + {id})
    ensures TasksAt(With(after, id, t), created + {id}) == TasksAt(after, created) + {t}
  {
    var g := With(after, id, t);
    assert forall k :: k in created ==> k != id && g[k] == after[k];
    forall u | u in TasksAt(after, created) + {t}
      ensures u in TasksAt(g, created + {id})
    {
      if u == t {
        assert g[id] == t;
      } else {
        var k :| k in created && k in after && after[k] == u;
        assert k in created + {id} && g[k] == u;
      }
    }
  }

  function KeySet(ids: seq<uint64>): set<uint64> {
    set id | id in ids
  }

  lemma KeySetMore(ids: seq<uint64>, id: uint64)
    ensures KeySet(ids + [id]) == KeySet(ids) + {id}
  {
  }

  ghost function Others(group: map<uint64, Task>, ids: set<uint64>): set<Task> {
    set id | id in group && id !in ids :: group[id]
  }

  function Only(group: map<uint64, Task>, ids: set<uint64>): map<uint64, Task> {
    map id | id in group && id in ids :: group[id]
  }

  lemma OnlyEnds(group: map<uint64, Task>, keep: set<uint64>)
    ensures Only(group, keep + group.Keys) == group && keep + {} == keep
  {
  }

  lemma OnlyLess(group: map<uint64, Task>, keep: set<uint64>, remaining: set<uint64>, id: uint64)
    requires id in remaining && id in group
    ensures id in keep ==> keep + (remaining - {id}) == keep + remaining
    ensures id !in keep ==> Only(group, keep + remaining) - {id} == Only(group, keep + (remaining - {id}))
    ensures id !in keep ==> group[id] in Others(group, keep)
    ensures id in Only(group, keep + remaining) && Only(group, keep + remaining)[id] == group[id]
  {
  }

  /** Of the group, the tasks that are neither to keep nor still to be looked at have left their homes, and no
      others have. */
  ghost predicate Shrunk(group: map<uint64, Task>, keep: set<uint64>, remaining: set<uint64>, home0: Homes,
                         home: Homes) {
    && (forall t :: t in home ==> t in home0)
    && (forall t :: t in home0 && t !in home ==> t in Others(group, keep))
    && (forall id :: id in group && id !in keep && id !in remaining ==> group[id] !in home)
  }

  lemma ShrunkOne(group: map<uint64, Task>, keep: set<uint64>, remaining: set<uint64>, home0: Homes, home1: Homes,
                  home2: Homes, id: uint64)
    requires Shrunk(group, keep, remaining, home0, home1) && id in group
    requires home2 == if id in keep then home1 else home1 - {group[id]}
    ensures Shrunk(group, keep, remaining - {id}, home0, home2)
  {
    assert id !in keep ==> group[id] in Others(group, keep);
  }

  /** What both loops together do to the group of a job. */
  lemma Coordinated(before: map<uint64, Task>, grown: map<uint64, Task>, created: set<uint64>, wanted: set<uint64>)
    requires Grown(before, grown, created) && created <= wanted
    ensures Only(grown, wanted).Keys == before.Keys * wanted + created
    ensures forall id :: id in before && id in wanted ==> Only(grown, wanted)[id] == before[id]
    ensures forall id :: id in created ==> Only(grown, wanted)[id] == grown[id]
    ensures created !! before.Keys && grown.Keys == before.Keys + created
    ensures forall id :: id in before ==> grown[id] == before[id]
    ensures Others(grown, wanted) == Others(before, wanted)
    ensures TasksAt(Only(grown, wanted), created) == TasksAt(grown, created)
  {
    assert forall id :: id in before && id !in wanted <==> id in grown && id !in wanted;
    assert forall id :: id in created ==> id in grown && id in Only(grown, wanted);
  }

  /** A job that runs just the wanted keys is left alone. */
  lemma NothingToDo(before: map<uint64, Task>, after: map<uint64, Task>, created: set<uint64>, failed: set<uint64>,
                    wanted: set<uint64>)
    requires before.Keys == wanted && after.Keys == before.Keys * wanted + created
    requires created <= wanted - before.Keys && failed <= wanted - before.Keys
    requires forall id :: id in after && id in before ==> after[id] == before[id]
    ensures after == before && created == {} && failed == {} && TasksAt(after, created) == {}
  {
  }

  lemma WantedNone(tg: Targetgroup, externalLabels: map<bytes, bytes>)
    ensures Wanted(tg.(targets := tg.targets[..0]), externalLabels) == {}
  {
  }

  lemma WantedOne(tg: Targetgroup, externalLabels: map<bytes, bytes>, i: nat)
    requires i < |tg.targets|
    ensures Wanted(tg.(targets := tg.targets[..i + 1]), externalLabels)
         == Wanted(tg.(targets := tg.targets[..i]), externalLabels)
          + {TaskIDOf(tg.targets[i], tg.labels + externalLabels)}
  {
    hide TaskIDOf;
    assert forall a :: a in tg.targets[..i + 1] <==> a in tg.targets[..i] || a == tg.targets[i];
  }

  class Collector {
    const externalLabels: map<bytes, bytes>

    /** Whether the k-th task that is asked for can be created: whether its address resolves then. That is not for the
        model to say, and not for the program either. */
    const answers: nat -> bool
    var asked: nat

    var tasks: Groups

    /** Every task ever started, and the place of those that are running. */
    ghost var started: set<Task>
    ghost var home: Homes

    function Group(name: bytes): map<uint64, Task>
      reads this
    {
      if name in tasks then tasks[name] else map[]
    }

    /** Each running task stands in one place, under its own key; each task ever started was started once, and
        either runs, never stopped, or has been stopped exactly once. */
    ghost predicate Valid()
      reads this, started
    {
      && home.Keys <= started && Placed(tasks, home) && Identified(home)
      && (forall t :: t in started ==> StartedOnce(t, t in home))
    }

    constructor (externalLabels: map<bytes, bytes>, answers: nat -> bool)
      ensures Valid() && tasks == map[] && started == {} && home == map[] && asked == 0
      ensures this.externalLabels == externalLabels && this.answers == answers
    {
      this.externalLabels, tasks, started, home := externalLabels, map[], {}, map[];
      this.answers, asked := answers, 0;
    }

    /** Some task asked for between two counts could not be created. */
    predicate Refused(from: nat, to: nat) {
      exists k :: from <= k < to && !answers(k)
    }

    lemma RefusedMore(from: nat, mid: nat, to: nat)
      requires from <= mid <= to
      ensures Refused(from, to) <==> Refused(from, mid) || Refused(mid, to)
    {
    }

    /** `newTask`. */
    method NewTask(addr: bytes, lbs: map<bytes, bytes>) returns (task: Task?)
      modifies this`asked
      ensures asked == old(asked) + 1 && (task != null <==> answers(old(asked)))
      ensures task != null ==> fresh(task) && task.address == addr && task.labels == lbs && !task.stopped
      ensures task != null ==> task.starts == 0 && task.stops == 0
    {
      task := null;
      if answers(asked) {
        task := new Task(addr, lbs);
      }
      asked := asked + 1;
    }

    /** Since the state given, the one task under this key was added to the job. */
    ghost predicate AddedSince(name: bytes, taskID: uint64, tasks0: Groups, started0: set<Task>, home0: Homes)
      reads this
    {
      && name in tasks && name in tasks0 && taskID in tasks[name]
      && tasks == tasks0[name := With(tasks0[name], taskID, tasks[name][taskID])]
      && started == started0 + {tasks[name][taskID]}
      && home == home0[tasks[name][taskID] := (name, taskID)]
    }

    /** A task that was just started is entered under its key. */
    method Enter(name: bytes, taskID: uint64, task: Task)
      requires Valid() && name in tasks && taskID !in tasks[name] && task !in started
      requires StartedOnce(task, true) && taskID == TaskIDOf(task.address, task.labels)
      modifies this
      ensures Valid() && AddedSince(name, taskID, old(tasks), old(started), old(home)) && tasks[name][taskID] == task
      ensures asked == old(asked)
    {
      hide Placed, Identified, StartedOnce, TaskIDOf;
      PlaceTask(tasks, home, name, taskID, task);
      IdentifyTask(home, task, name, taskID);
      tasks := tasks[name := With(tasks[name], taskID, task)];
      started := started + {task};
      home := home[task := (name, taskID)];
    }

    /** One target: its task is asked for, and started if it can be created, unless one is running under its key. */
    method AddTarget(name: bytes, addr: bytes, m: map<bytes, bytes>)
        returns (taskID: uint64, ghost created: bool, ghost failed: bool)
      requires Valid() && name in tasks
      modifies this
      ensures Valid() && taskID == TaskIDOf(addr, m)
      ensures !created ==> tasks == old(tasks) && started == old(started) && home == old(home)
      ensures created ==> taskID !in old(tasks[name]) && AddedSince(name, taskID, old(tasks), old(started), old(home))
      ensures created ==> fresh(tasks[name][taskID])
      ensures created ==> tasks[name][taskID].address == addr && tasks[name][taskID].labels == m
      ensures created || failed <==> taskID !in old(tasks[name])
      ensures asked == old(asked) + (if taskID in old(tasks[name]) then 0 else 1)
      ensures created || failed ==> created == answers(old(asked)) && failed == !created
    {
      hide TaskIDOf, Placed, Identified;
      taskID := TaskID(addr, m);
      created, failed := false, false;
      if taskID in tasks[name] { return; }
      var task := NewTask(addr, m);
      if task == null { failed := true; return; }
      task.Start();
      Enter(name, taskID, task);
      created := true;
    }

    /** A task that is no longer wanted is stopped and forgotten. */
    method RemoveTask(name: bytes, taskID: uint64)
      requires Valid() && name in tasks && taskID in tasks[name]
      modifies this, tasks[name][taskID]
      ensures Valid() && started == old(started) && asked == old(asked)
      ensures tasks == old(tasks)[name := old(tasks[name]) - {taskID}]
      ensures home == old(home) - {old(tasks[name][taskID])}
    {
      hide Placed, TaskIDOf;
      DisplaceTask(tasks, home, name, taskID);
      var task := tasks[name][taskID];
      task.Stop();
      tasks := tasks[name := tasks[name] - {taskID}];
      home := home - {task};
    }

    /** Since the job had the tasks `group0`, and `asked0` tasks had been asked for, the targets with the keys `wanted`
        have been seen to: some tasks were created, for some keys one was refused. */
    ghost predicate SeenTo(name: bytes, wanted: set<uint64>, created: set<uint64>, failed: set<uint64>,
                           group0: map<uint64, Task>, started0: set<Task>, asked0: nat)
      reads this
    {
      && name in tasks && Grown(group0, tasks[name], created)
      && started == started0 + TasksAt(tasks[name], created)
      && created <= wanted <= tasks[name].Keys + failed
      && failed <= wanted && failed !! group0.Keys
      && asked0 <= asked && (failed != {} <==> Refused(asked0, asked))
    }

    lemma NothingSeen(name: bytes)
      requires name in tasks
      ensures SeenTo(name, {}, {}, {}, tasks[name], started, asked)
    {
      GrownNone(tasks[name]);
    }

    /** One turn of the loop over the targets. */
    method SeeTo(name: bytes, addr: bytes, m: map<bytes, bytes>, ghost wanted: set<uint64>, ghost created0: set<uint64>,
                 ghost failed0: set<uint64>, ghost group0: map<uint64, Task>, ghost started0: set<Task>,
                 ghost asked0: nat)
        returns (taskID: uint64, ghost created: set<uint64>, ghost failed: set<uint64>)
      requires Valid() && SeenTo(name, wanted, created0, failed0, group0, started0, asked0)
      modifies this
      ensures Valid() && taskID == TaskIDOf(addr, m)
      ensures name in tasks && tasks == old(tasks)[name := tasks[name]]
      ensures SeenTo(name, wanted + {taskID}, created, failed, group0, started0, asked0)
      ensures Kept(old(Group(name)), Group(name), created0)
      ensures forall id :: id in created && id !in created0 ==>
                id in tasks[name] && fresh(tasks[name][id])
                && tasks[name][id].address == addr && tasks[name][id].labels == m
    {
      hide TaskIDOf, Valid, Refused, TasksAt, Kept, Grown;
      ghost var group, count := tasks[name], asked;
      GrownKeys(group0, group, created0);
      KeptAll(group0, group, created0);
      ghost var c, f;
      taskID, c, f := AddTarget(name, addr, m);
      RefusedMore(asked0, count, asked);
      OneAsked(count, asked);
      created := if c then created0 + {taskID} else created0;
      failed := if f then failed0 + {taskID} else failed0;
      if c {
        GrownOne(group0, group, created0, taskID, tasks[name][taskID]);
        GrownKept(group0, group, created0, taskID, tasks[name][taskID]);
      }
    }

    lemma OneAsked(from: nat, to: nat)
      ensures to == from ==> !Refused(from, to)
      ensures to == from + 1 ==> Refused(from, to) == !answers(from)
    {
    }

    /** The first loop of Coordinate: every target in turn. */
    method AddTargets(name: bytes, tg: Targetgroup)
        returns (idCache: seq<uint64>, ghost created: set<uint64>, ghost failed: set<uint64>)
      requires Valid() && name in tasks
      modifies this
      ensures Valid() && KeySet(idCache) == Wanted(tg, externalLabels)
      ensures SeenTo(name, Wanted(tg, externalLabels), created, failed, old(tasks[name]), old(started), old(asked))
      ensures name in tasks && tasks == old(tasks)[name := tasks[name]]
      ensures forall id :: id in created ==>
                id in tasks[name] && fresh(tasks[name][id]) && Probes(tasks[name][id], tg, externalLabels)
    {
      hide TaskIDOf, Valid, SeenTo, Wanted;
      idCache, created, failed := [], {}, {};
      NothingSeen(name);
      WantedNone(tg, externalLabels);
      for i := 0 to |tg.targets|
        invariant Valid() && KeySet(idCache) == Wanted(tg.(targets := tg.targets[..i]), externalLabels)
        invariant SeenTo(name, KeySet(idCache), created, failed, old(tasks[name]), old(started), old(asked))
        invariant name in tasks && tasks == old(tasks)[name := tasks[name]]
        invariant forall id :: id in created ==>
                    id in tasks[name] && fresh(tasks[name][id]) && Probes(tasks[name][id], tg, externalLabels)
      {
        var m := MergedLabels(tg.labels, externalLabels);
        var taskID;
        taskID, created, failed :=
          SeeTo(name, tg.targets[i], m, KeySet(idCache), created, failed, old(tasks[name]), old(started), old(asked));
        WantedOne(tg, externalLabels, i);
        KeySetMore(idCache, taskID);
        idCache := idCache + [taskID];
      }
      assert tg.targets[..|tg.targets|] == tg.targets;
    }

    /** The second loop of Coordinate: what is not among the wanted keys is stopped. */
    method RemoveOthers(name: bytes, idCache: seq<uint64>)
      requires Valid() && name in tasks
      modifies this, Others(tasks[name], KeySet(idCache))
      ensures Valid() && started == old(started) && asked == old(asked)
      ensures tasks == old(tasks)[name := Only(old(tasks[name]), KeySet(idCache))]
      ensures Shrunk(old(tasks[name]), KeySet(idCache), {}, old(home), home)
    {
      hide Valid, StartedOnce, Only, Others;
      ghost var group: map<uint64, Task>, keep: set<uint64> := tasks[name], KeySet(idCache);
      var remaining: set<uint64> := tasks[name].Keys;
      OnlyEnds(group, keep);
      while remaining != {}
        invariant Valid() && started == old(started) && asked == old(asked) && remaining <= group.Keys
        invariant tasks == old(tasks)[name := Only(group, keep + remaining)]
        invariant Shrunk(group, keep, remaining, old(home), home)
        decreases |remaining|
      {
        var taskID: uint64 :| taskID in remaining;
        var found := Search(idCache, taskID);
        OnlyLess(group, keep, remaining, taskID);
        ghost var before := home;
        if !found {
          RemoveTask(name, taskID);
        }
        ShrunkOne(group, keep, remaining, old(home), before, home, taskID);
        remaining := remaining - {taskID};
      }
    }

    /** After Coordinate the job runs exactly the wanted keys that were running already or whose task could be
        created. Survivors are the same tasks, untouched; created ones are new; the others of this job, and no
        other task at all, are stopped, once. `failed` are keys for which a task was asked for and refused: there are
        such exactly if some task asked for meanwhile was. */
    method Coordinate(me: MeshEntry) returns (ghost created: set<uint64>, ghost failed: set<uint64>)
      requires Valid() && me.targetgroup.Some?
      modifies this, Others(Group(me.name), Wanted(me.targetgroup.value, externalLabels))
      ensures Valid() && me.name in tasks
      ensures tasks == old(tasks)[me.name := tasks[me.name]]
      ensures var wanted := Wanted(me.targetgroup.value, externalLabels);
              && tasks[me.name].Keys == old(Group(me.name)).Keys * wanted + created
              && created <= wanted - old(Group(me.name)).Keys <= created + failed
      ensures OnePerTarget(tasks[me.name].Keys, failed, me.targetgroup.value, externalLabels)
      ensures forall id :: id in tasks[me.name] && id in old(Group(me.name)) ==>
                tasks[me.name][id] == old(Group(me.name))[id]
      ensures forall id :: id in created ==>
                fresh(tasks[me.name][id]) && Probes(tasks[me.name][id], me.targetgroup.value, externalLabels)
      ensures started == old(started) + TasksAt(tasks[me.name], created)
      ensures forall t :: t in Others(old(Group(me.name)), Wanted(me.targetgroup.value, externalLabels)) ==>
                t in old(home) && t !in home && t in started && t.stops == 1
      ensures failed <= Wanted(me.targetgroup.value, externalLabels) - old(Group(me.name)).Keys
      ensures old(asked) <= asked && (failed != {} <==> Refused(old(asked), asked))
    {
      hide Valid, Only, Others, TasksAt, Grown;
      var name, tg := me.name, me.targetgroup.value;
      ghost var before, wanted := Group(name), Wanted(me.targetgroup.value, externalLabels);
      hide Wanted, TaskIDOf, OnePerTarget;
      AtHome(name, wanted);
      EnterJob(name);
      ghost var entered := tasks;
      var idCache;
      idCache, created, failed := AddTargets(name, tg);
      ghost var added := tasks;
      assert KeySet(idCache) == wanted;
      Coordinated(before, tasks[name], created, wanted);
      RemoveOthers(name, idCache);
      Overwrites(old(tasks), entered, added, tasks, name);
      StoppedOnce(before, wanted);
      TargetsSeenTo(tasks[name].Keys, before.Keys, created, failed, tg, externalLabels);
    }

    lemma AtHome(name: bytes, wanted: set<uint64>)
      requires Valid()
      ensures forall id :: id in Group(name) ==> Group(name)[id] in home
      ensures forall t :: t in Others(Group(name), wanted) ==> t in home
      ensures home.Keys <= started
    {
    }

    lemma StoppedOnce(before: map<uint64, Task>, wanted: set<uint64>)
      requires Valid() && forall id :: id in before && id !in wanted ==> before[id] in started && before[id] !in home
      ensures forall t :: t in Others(before, wanted) ==> t !in home && t in started && t.stops == 1
    {
    }

    /** A job not yet in the map is entered without tasks. */
    method EnterJob(name: bytes)
      requires Valid()
      modifies this
      ensures Valid() && tasks == old(tasks)[name := old(Group(name))] && started == old(started) && home == old(home)
      ensures asked == old(asked)
    {
      hide Identified, StartedOnce, TaskIDOf;
      if name !in tasks {
        tasks := tasks[name := map[]];
        assert forall t :: t in home ==> RunsAt(old(tasks), t, home[t].0, home[t].1);
      }
    }
  }
}
