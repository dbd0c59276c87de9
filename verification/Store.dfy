/** The replicated store of mesh entries, with the collector among its callbacks. */
module Store {
  import opened Base
  import opened Varint
  import opened TargetPb
  import opened Lww
  import opened Framing
  import opened Collector

  /** What a merge sets out from and where it is going: the entries in the end, those that are to be taken, and the
      state of the collector before; and whether all that is to be merged is stored already. */
  datatype Course = Course(goal: Entries, all: seq<MeshEntry>, tasks: Groups, started: set<Task>,
                                 incomplete: set<bytes>, again: bool)

  class Store {
    var entries: Entries
    /** The callback "collector"; null in a dry run. */
    const collector: Collector?

    /** What every callback has been called with, in turn; and the jobs at whose last coordination some task could
        not be created. */
    ghost var told: seq<MeshEntry>
    ghost var incomplete: set<bytes>

    ghost predicate Valid()
      reads this, collector, if collector == null then {} else collector.started
    {
      && (forall n :: n in entries ==> entries[n].name == n && InRange(entries[n]))
      && (collector != null ==>
            && collector.Valid() && InSync(entries, collector.tasks, collector.externalLabels, incomplete)
            && (!collector.Refused(0, collector.asked) ==> incomplete == {}))
    }

    ghost function Footprint(): set<object>
      reads this, collector
    {
      {this} + (if collector == null then {} else {collector} + collector.started)
    }

    constructor (collector: Collector?)
      requires collector != null ==> collector.Valid() && collector.tasks == map[]
      ensures Valid() && entries == map[] && this.collector == collector && told == [] && incomplete == {}
    {
      this.collector := collector;
      entries, told, incomplete := map[], [], {};
    }

    /** `merge`. */
    method MergeEntry(me: MeshEntry) returns (taken: bool)
      modifies this`entries
      ensures entries == MergeOne(old(entries), me) && taken == Accepts(old(entries), me)
      ensures entries == if taken then old(entries)[me.name := me] else old(entries)
      ensures me.name !in old(entries) ==> taken
      ensures me.name in old(entries) && Normal(old(entries)[me.name].updated) && Normal(me.updated) ==>
                (taken <==> Instant(old(entries)[me.name].updated) <= Instant(me.updated))
    {
      if me.name in entries && Normal(entries[me.name].updated) && Normal(me.updated) {
        AfterIsLater(entries[me.name].updated, me.updated);
      }
      if me.name !in entries {
        entries := entries[me.name := me];
        return true;
      }
      if After(entries[me.name].updated, me.updated) { return false; }
      entries := entries[me.name := me];
      return true;
    }

    /** The callback "collector", after the entry was taken by the store that held `entries0`. Its job is incomplete
        from then on exactly if some task that was asked for meanwhile was refused. */
    method Inform(collector: Collector, ent: MeshEntry, ghost entries0: Entries)
      requires collector.Valid() && ent.targetgroup.Some?
      requires InSync(entries0, collector.tasks, collector.externalLabels, incomplete)
      requires Accepts(entries0, ent) && forall n :: n in entries0 ==> entries0[n].name == n
      modifies this`incomplete, collector, collector.started
      ensures collector.Valid() && fresh(collector.started - old(collector.started))
      ensures InSync(entries0[ent.name := ent], collector.tasks, collector.externalLabels, incomplete)
      ensures Informed(collector, ent.name, old(collector.tasks), old(collector.asked), old(incomplete))
      ensures ent.name !in old(incomplete) && ent.name in entries0 && entries0[ent.name] == ent ==>
                collector.tasks == old(collector.tasks) && collector.started == old(collector.started)
                && incomplete == old(incomplete)
    {
      hide Wanted, InSync, Collector.Valid, Others, TasksAt, Collector.Refused, OnePerTarget, Probes;
      ghost var jobs, before := collector.tasks, collector.Group(ent.name);
      ghost var wanted := Wanted(ent.targetgroup.value, collector.externalLabels);
      SyncJob(entries0, jobs, ent, collector.externalLabels, incomplete);
      OthersStarted(collector, ent.name, wanted);
      ghost var created, failed := collector.Coordinate(ent);
      FreshOnly(collector.tasks[ent.name], created);
      if before.Keys == wanted {
        NothingToDo(before, collector.tasks[ent.name], created, failed, wanted);
      }
      ghost var incomplete0 := incomplete;
      incomplete := if failed == {} then incomplete - {ent.name} else incomplete + {ent.name};
      SyncOne(entries0, jobs, ent, collector.tasks, collector.externalLabels, incomplete0, created, failed);
    }

    /** Since the collector had the tasks given, only the job of this name was coordinated, and it is incomplete
        exactly if some task asked for since was refused. */
    ghost predicate Informed(collector: Collector, name: bytes, tasks0: Groups, asked0: nat, incomplete0: set<bytes>)
      reads this, collector
    {
      && asked0 <= collector.asked
      && (name in incomplete <==> collector.Refused(asked0, collector.asked))
      && JobsKept(tasks0, incomplete0, collector.tasks, incomplete, {name})
    }

    /** The loop over the callbacks. */
    method Call(ent: MeshEntry, ghost entries0: Entries)
      requires collector != null ==> collector.Valid() && ent.targetgroup.Some?
      requires collector != null ==> InSync(entries0, collector.tasks, collector.externalLabels, incomplete)
      requires Accepts(entries0, ent) && forall n :: n in entries0 ==> entries0[n].name == n
      modifies this`told, this`incomplete, collector, if collector == null then {} else collector.started
      ensures told == old(told) + [ent] && (collector == null ==> incomplete == old(incomplete))
      ensures collector != null ==>
                && collector.Valid() && fresh(collector.started - old(collector.started))
                && InSync(entries0[ent.name := ent], collector.tasks, collector.externalLabels, incomplete)
                && Informed(collector, ent.name, old(collector.tasks), old(collector.asked), old(incomplete))
      ensures collector != null && ent.name !in old(incomplete) && ent.name in entries0 && entries0[ent.name] == ent ==>
                Idle(old(collector.tasks), old(collector.started), old(incomplete))
    {
      hide InSync, Collector.Valid, Informed;
      told := told + [ent];
      if collector != null {
        Inform(collector, ent, entries0);
      }
    }

    /** One entry of the loop in `Merge`: it is merged and, if it was taken, every callback is called with it. A
        collector needs a target group in it; the source dereferences it unasked. */
    method Accept(ent: MeshEntry)
      requires Valid() && InRange(ent)
      requires collector != null && Accepts(entries, ent) ==> ent.targetgroup.Some?
      modifies Footprint()
      ensures Valid() && fresh(Footprint() - old(Footprint()))
      ensures entries == MergeOne(old(entries), ent)
      ensures told == old(told) + (if Accepts(old(entries), ent) then [ent] else [])
      ensures collector != null && Accepts(old(entries), ent) ==>
                Informed(collector, ent.name, old(collector.tasks), old(collector.asked), old(incomplete))
      ensures collector != null ==>
                JobsKept(old(collector.tasks), old(incomplete), collector.tasks, incomplete,
                         NamesOf(if Accepts(old(entries), ent) then [ent] else []))
      ensures collector != null && !Accepts(old(entries), ent) ==>
                Idle(old(collector.tasks), old(collector.started), old(incomplete))
      ensures collector != null && ent.name !in old(incomplete) && Stored(old(entries), ent) ==>
                Idle(old(collector.tasks), old(collector.started), old(incomplete))
    {
      hide InSync, Collector.Refused;
      var taken := MergeEntry(ent);
      if taken {
        Call(ent, old(entries));
        if collector != null {
          collector.RefusedMore(0, old(collector.asked), collector.asked);
        }
      }
    }

    /** `Merge`: every entry of the stream is merged, in turn, until the stream ends or an entry cannot be read.
        What stands behind a bad entry is not merged; what stood before it is, also when reading it panics.
        If no task was ever refused, every job runs all the keys of its stored entry. Jobs that took nothing keep
        their very tasks; and entries that are stored already fire the callbacks, but start and stop nothing. */
    method Merge(b: bytes) returns (out: Outcome)
      requires Valid()
      requires collector != null ==> AllRunnable(Taken(entries, Parse(b).entries))
      modifies Footprint()
      ensures Valid() && fresh(Footprint() - old(Footprint()))
      ensures entries == MergeAll(old(entries), Parse(b).entries)
      ensures told == old(told) + Taken(old(entries), Parse(b).entries)
      ensures forall n :: n in old(entries) ==>
                n in entries && Instant(old(entries)[n].updated) <= Instant(entries[n].updated)
      ensures forall e :: e in Parse(b).entries ==>
                e.name in entries && Instant(e.updated) <= Instant(entries[e.name].updated)
      ensures forall n :: n in entries ==>
                (n in old(entries) && entries[n] == old(entries)[n])
                || (entries[n] in Parse(b).entries && entries[n].name == n)
      ensures Parse(b).ending.Clean? ==> out == Returned(None)
      ensures Parse(b).ending.BadMessage? ==> out == Returned(Some(Parse(b).ending.err))
      ensures Parse(b).ending.Crashed? ==> out == Panicked
      ensures collector != null && !collector.Refused(0, collector.asked) ==> RunsAll()
      ensures collector != null ==>
                JobsKept(old(collector.tasks), old(incomplete), collector.tasks, incomplete,
                         NamesOf(Taken(old(entries), Parse(b).entries)))
      ensures collector != null && AllStored(old(entries), Parse(b).entries, old(incomplete)) ==>
                && Idle(old(collector.tasks), old(collector.started), old(incomplete))
                && entries == old(entries) && told == old(told) + Parse(b).entries
    {
      hide ReadFrame, Parse, Valid, InRange, OnCourse, RunsAll, Collector.Refused, AllStored, Taken, MergeAll, Idle;
      hide JobsKept, NamesOf, AllRunnable, Instant;
      MergeLater(b);
      var buf := b;
      ghost var s, done: seq<MeshEntry> := Parse(b).entries, [];
      ghost var c := Course(MergeAll(entries, s), Taken(entries, s),
                            if collector == null then map[] else collector.tasks,
                            if collector == null then {} else collector.started,
                            incomplete, AllStored(entries, s, incomplete));
      if c.again { StoredTaken(entries, s, incomplete); }
      SetOut(c, s);
      while true
        invariant Valid() && fresh(Footprint() - old(Footprint()))
        invariant told == old(told) + done && OnCourse(c, done, Parse(buf).entries)
        invariant Parse(buf).ending == Parse(b).ending
        decreases |buf|
      {
        ParseOne(buf);
        AllRun();
        if Parse(buf).entries == [] { Arrived(c, done); }
        var frame := ReadDelimited(buf);
        match frame {
          case NoMore => return Returned(None);
          case Refused(e) => return Returned(Some(e));
          case Crashes => return Panicked;
          case CutShort =>
            out := Unclaimed();
            return;
          case Framed(ent, n) =>
            ParseInRange(buf);
            done := MergeNext(ent, Parse(buf[n..]).entries, c, done);
            buf := buf[n..];
        }
      }
    }

    lemma MergeLater(b: bytes)
      requires Valid()
      ensures var m := MergeAll(entries, Parse(b).entries);
              && (forall n :: n in entries ==> n in m && Instant(entries[n].updated) <= Instant(m[n].updated))
              && (forall e :: e in Parse(b).entries ==> e.name in m && Instant(e.updated) <= Instant(m[e.name].updated))
              && (forall n :: n in m ==>
                    (n in entries && m[n] == entries[n]) || (m[n] in Parse(b).entries && m[n].name == n))
    {
      hide Parse, MergeAll, Instant;
      ParseInRange(b);
      MergeKeepsLatest(entries, Parse(b).entries);
    }

    /** On the way to the end of a merge: `done` of the entries to take have been taken, and `rest` is still ahead. */
    ghost predicate OnCourse(c: Course, done: seq<MeshEntry>, rest: seq<MeshEntry>)
      reads this, collector
    {
      && MergeAll(entries, rest) == c.goal && done + Taken(entries, rest) == c.all
      && (collector != null ==>
            && AllRunnable(Taken(entries, rest))
            && JobsKept(c.tasks, c.incomplete, collector.tasks, incomplete, NamesOf(done))
            && (c.again ==> Idle(c.tasks, c.started, c.incomplete) && AllStored(entries, rest, incomplete)))
    }

    lemma SetOut(c: Course, s: seq<MeshEntry>)
      requires c.goal == MergeAll(entries, s) && c.all == Taken(entries, s)
      requires c.again == AllStored(entries, s, incomplete)
      requires collector != null ==>
                 && c.tasks == collector.tasks && c.started == collector.started && c.incomplete == incomplete
                 && AllRunnable(Taken(entries, s))
      ensures OnCourse(c, [], s)
    {
      hide MergeAll, Taken, AllRunnable, AllStored, NamesOf;
      assert [] + Taken(entries, s) == Taken(entries, s);
    }

    lemma Arrived(c: Course, done: seq<MeshEntry>)
      requires OnCourse(c, done, [])
      ensures entries == c.goal && done == c.all
      ensures collector != null ==> JobsKept(c.tasks, c.incomplete, collector.tasks, incomplete, NamesOf(c.all))
      ensures collector != null && c.again ==> Idle(c.tasks, c.started, c.incomplete)
    {
      hide JobsKept, NamesOf;
      NothingTaken(entries);
      assert done + [] == done;
    }

    /** One turn of the loop in `Merge`, at an entry that was read. */
    method MergeNext(ent: MeshEntry, ghost rest: seq<MeshEntry>, ghost c: Course, ghost done: seq<MeshEntry>)
        returns (ghost done': seq<MeshEntry>)
      requires Valid() && InRange(ent) && OnCourse(c, done, [ent] + rest)
      modifies Footprint()
      ensures Valid() && fresh(Footprint() - old(Footprint()))
      ensures OnCourse(c, done', rest)
      ensures done <= done' && told == old(told) + done'[|done|..]
    {
      hide Valid, InRange, MergeAll, MergeOne, Taken, Accepts, AllStored, JobsKept, NamesOf, Stored, AllRunnable;
      hide Informed;
      TakenFirst(entries, ent, rest);
      StoredFirst(entries, ent, rest, incomplete);
      ghost var one := if Accepts(entries, ent) then [ent] else [];
      ghost var tasks1, incomplete1 := if collector == null then map[] else collector.tasks, incomplete;
      Accept(ent);
      done' := done + one;
      if collector != null {
        KeptFurther(c.tasks, c.incomplete, tasks1, incomplete1, collector.tasks, incomplete, done, one);
      }
      assert done + (one + Taken(entries, rest)) == done' + Taken(entries, rest);
    }

    /** Every job runs all the keys of its stored entry. */
    ghost predicate RunsAll()
      requires collector != null
      reads this, collector
    {
      forall n :: n in entries ==>
        && n in collector.tasks && entries[n].targetgroup.Some?
        && collector.tasks[n].Keys == Wanted(entries[n].targetgroup.value, collector.externalLabels)
    }

    lemma AllRun()
      requires Valid()
      ensures collector != null && !collector.Refused(0, collector.asked) ==> RunsAll()
    {
      hide Wanted;
      if collector != null && incomplete == {} {
        forall n | n in entries
          ensures JobInSync(entries[n], collector.tasks, collector.externalLabels, false)
        {
          assert JobInSync(entries[n], collector.tasks, collector.externalLabels, n in incomplete);
        }
      }
    }

    lemma EntryInRange(name: bytes)
      requires Valid() && name in entries
      ensures InRange(entries[name])
    {
    }

    /** `MarshalBinary`: the entries in some order of the map, each in its frame; read back, they are the entries of
        the store in that order. What a store took from a stream has a valid time, so there is no error. */
    method MarshalBinary() returns (buf: bytes, ghost order: seq<bytes>)
      requires Valid() && forall n :: n in entries ==> Writable(entries[n])
      ensures Distinct(order) && forall n :: n in order <==> n in entries
      ensures Parse(buf) == Stream(Listing(entries, order), Clean)
    {
      hide Valid, Writable, Parse, Listing;
      buf, order := [], [];
      ParseNothing();
      ListingNone(entries);
      var remaining: set<bytes> := entries.Keys;
      while remaining != {}
        invariant remaining <= entries.Keys && Distinct(order)
        invariant forall n :: n in order <==> n in entries && n !in remaining
        invariant Parse(buf) == Stream(Listing(entries, order), Clean)
        decreases |remaining|
      {
        var name :| name in remaining;
        var f, err;
        ghost var message;
        EntryInRange(name);
        f, err, message := WriteDelimited(entries[name]);
        assert err == None;
        AppendFrame(buf, f, Listing(entries, order), entries[name]);
        ListingMore(entries, order, name);
        buf, order, remaining := buf + f, order + [name], remaining - {name};
      }
    }

    /** How the framing library ends on a frame that is cut short. */
    method Unclaimed() returns (out: Outcome)
    {
      if {
        case true => out := Returned(None);
        case true => out := Returned(Some(UnexpectedEOF));
        case true => out := Panicked;
      }
    }

    /** The collector runs the tasks it ran, and has started no other. */
    ghost predicate Idle(tasks: Groups, started: set<Task>, incomplete0: set<bytes>)
      requires collector != null
      reads this, collector
    {
      collector.tasks == tasks && collector.started == started && incomplete == incomplete0
    }
  }

  lemma ParseNothing()
    ensures Parse([]) == Stream([], Clean)
  {
  }

  lemma {:induction false} AppendFrame(buf: bytes, f: bytes, es: seq<MeshEntry>, e: MeshEntry)
    requires Parse(buf) == Stream(es, Clean)
    requires forall t :: Parse(f + t) == Stream([e] + Parse(t).entries, Parse(t).ending)
    ensures Parse(buf + f) == Stream(es + [e], Clean)
  {
    hide Parse;
    ParseAppend(buf, f);
    ParseNothing();
    assert f + [] == f;
    assert Parse(f) == Stream([e] + [], Clean);
  }

  lemma ListingNone(es: Entries)
    ensures Listing(es, []) == []
  {
  }

  lemma ListingMore(es: Entries, order: seq<bytes>, name: bytes)
    requires name in es && forall n :: n in order ==> n in es
    ensures Listing(es, order + [name]) == Listing(es, order) + [es[name]]
  {
  }

  lemma ParseOne(s: bytes)
    ensures var f := ReadFrame(s);
            && (f.NoMore? ==> Parse(s) == Stream([], Clean))
            && (f.Refused? ==> Parse(s) == Stream([], BadMessage(f.err)))
            && (f.CutShort? ==> Parse(s) == Stream([], BadFraming))
            && (f.Crashes? ==> Parse(s) == Stream([], Crashed))
            && (f.Framed? ==> Parse(s) == Stream([f.ent] + Parse(s[f.n..]).entries, Parse(s[f.n..]).ending))
  {
  }

  lemma NothingTaken(es: Entries)
    ensures MergeAll(es, []) == es && Taken(es, []) == []
  {
  }

  /** Two stores that hold the same entry of a job, with the same external labels and nothing refused at the last
      coordination of it, run the same keys for it. */
  lemma SameKeys(a: Store, b: Store, n: bytes)
    requires a.Valid() && b.Valid() && a.collector != null && b.collector != null
    requires a.collector.externalLabels == b.collector.externalLabels
    requires n in a.entries && n in b.entries && a.entries[n] == b.entries[n]
    requires n !in a.incomplete && n !in b.incomplete
    ensures n in a.collector.tasks && n in b.collector.tasks
    ensures a.collector.tasks[n].Keys == b.collector.tasks[n].Keys
  {
    hide Wanted, Collector.Valid;
    assert JobInSync(a.entries[n], a.collector.tasks, a.collector.externalLabels, false);
    assert JobInSync(b.entries[n], b.collector.tasks, b.collector.externalLabels, false);
  }

  /** And if the stores are the same and nothing was ever refused, they run the same jobs with the same keys. */
  lemma SameJobs(a: Store, b: Store)
    requires a.Valid() && b.Valid() && a.collector != null && b.collector != null
    requires a.collector.externalLabels == b.collector.externalLabels && a.entries == b.entries
    requires !a.collector.Refused(0, a.collector.asked) && !b.collector.Refused(0, b.collector.asked)
    ensures a.collector.tasks.Keys == b.collector.tasks.Keys == a.entries.Keys
    ensures forall n :: n in a.entries ==> a.collector.tasks[n].Keys == b.collector.tasks[n].Keys
  {
    hide Wanted, Collector.Valid, Collector.Refused;
    forall n | n in a.entries
      ensures n in a.collector.tasks && n in b.collector.tasks
      ensures a.collector.tasks[n].Keys == b.collector.tasks[n].Keys
    {
      SameKeys(a, b, n);
    }
  }

  lemma FreshOnly(group: map<uint64, Task>, created: set<uint64>)
    ensures forall t :: t in TasksAt(group, created) ==> exists id :: id in created && id in group && group[id] == t
  {
  }

  lemma {:induction false} TakenFirst(es: Entries, e: MeshEntry, rest: seq<MeshEntry>)
    ensures AllRunnable(Taken(es, [e] + rest)) ==>
              AllRunnable(Taken(MergeOne(es, e), rest)) && (Accepts(es, e) ==> e.targetgroup.Some?)
    ensures MergeAll(es, [e] + rest) == MergeAll(MergeOne(es, e), rest)
    ensures Taken(es, [e] + rest) == (if Accepts(es, e) then [e] else []) + Taken(MergeOne(es, e), rest)
  {
    hide AllRunnable, MergeOne, Accepts;
    assert ([e] + rest)[1..] == rest && ([e] + rest)[0] == e;
    RunnableParts(if Accepts(es, e) then [e] else [], Taken(MergeOne(es, e), rest));
    RunnableOne(e);
  }

  lemma RunnableParts(s: seq<MeshEntry>, t: seq<MeshEntry>)
    ensures AllRunnable(s + t) <==> AllRunnable(s) && AllRunnable(t)
  {
    assert forall e :: e in s + t <==> e in s || e in t;
  }

  lemma RunnableOne(e: MeshEntry)
    ensures AllRunnable([e]) <==> e.targetgroup.Some?
  {
    assert e in [e];
  }

  lemma SyncJob(entries: Entries, jobs: Groups, ent: MeshEntry, labels: map<bytes, bytes>, incomplete: set<bytes>)
    requires InSync(entries, jobs, labels, incomplete) && ent.targetgroup.Some?
    ensures ent.name !in incomplete && ent.name in entries && entries[ent.name] == ent ==>
              ent.name in jobs && jobs[ent.name].Keys == Wanted(ent.targetgroup.value, labels)
  {
    hide Wanted;
    assert ent.name in entries ==> JobInSync(entries[ent.name], jobs, labels, ent.name in incomplete);
  }

  lemma OthersStarted(c: Collector, name: bytes, ids: set<uint64>)
    requires c.Valid()
    ensures Others(c.Group(name), ids) <= c.started
  {
    c.AtHome(name, ids);
  }

  /** Coordinating a taken entry brings its job in step, but for what could not be created; other jobs stay. */
  lemma SyncOne(entries: Entries, jobs: Groups, ent: MeshEntry, jobs': Groups, labels: map<bytes, bytes>,
                incomplete: set<bytes>, created: set<uint64>, failed: set<uint64>)
    requires InSync(entries, jobs, labels, incomplete) && ent.targetgroup.Some? && Accepts(entries, ent)
    requires forall n :: n in entries ==> entries[n].name == n
    requires ent.name in jobs' && jobs' == jobs[ent.name := jobs'[ent.name]]
    requires var before := if ent.name in jobs then jobs[ent.name].Keys else {};
             var wanted := Wanted(ent.targetgroup.value, labels);
             jobs'[ent.name].Keys == before * wanted + created && created <= wanted - before <= created + failed
    ensures InSync(entries[ent.name := ent], jobs', labels,
                   if failed == {} then incomplete - {ent.name} else incomplete + {ent.name})
  {
    hide Wanted;
    var es := entries[ent.name := ent];
    var inc := if failed == {} then incomplete - {ent.name} else incomplete + {ent.name};
    forall n | n in es
      ensures JobInSync(es[n], jobs', labels, n in inc)
    {
      if n != ent.name {
        assert JobInSync(entries[n], jobs, labels, n in incomplete);
      }
    }
  }

  /** What a collector can be called with. */
  ghost predicate AllRunnable(s: seq<MeshEntry>) {
    forall e :: e in s ==> e.targetgroup.Some?
  }

  function NamesOf(s: seq<MeshEntry>): set<bytes> {
    set e | e in s :: e.name
  }

  /** Other jobs than these have the very tasks they had, and are as complete as they were. */
  ghost predicate JobsKept(tasks0: Groups, incomplete0: set<bytes>, tasks1: Groups, incomplete1: set<bytes>,
                           names: set<bytes>) {
    forall n :: n !in names ==>
      && (n in incomplete1 <==> n in incomplete0) && (n in tasks1 <==> n in tasks0)
      && (n in tasks0 ==> tasks1[n] == tasks0[n])
  }

  lemma KeptFurther(tasks0: Groups, incomplete0: set<bytes>, tasks1: Groups, incomplete1: set<bytes>, tasks2: Groups,
                    incomplete2: set<bytes>, s: seq<MeshEntry>, t: seq<MeshEntry>)
    requires JobsKept(tasks0, incomplete0, tasks1, incomplete1, NamesOf(s))
    requires JobsKept(tasks1, incomplete1, tasks2, incomplete2, NamesOf(t))
    ensures JobsKept(tasks0, incomplete0, tasks2, incomplete2, NamesOf(s + t))
  {
    assert NamesOf(s + t) == NamesOf(s) + NamesOf(t);
  }

  /** The store holds this very entry. */
  predicate Stored(es: Entries, e: MeshEntry) {
    e.name in es && es[e.name] == e
  }

  /** All are stored already, of jobs for which nothing was refused. */
  ghost predicate AllStored(es: Entries, s: seq<MeshEntry>, incomplete: set<bytes>) {
    forall e :: e in s ==> Stored(es, e) && e.name !in incomplete
  }

  lemma StoredFirst(es: Entries, e: MeshEntry, rest: seq<MeshEntry>, incomplete: set<bytes>)
    ensures AllStored(es, [e] + rest, incomplete) ==>
              Stored(es, e) && e.name !in incomplete && MergeOne(es, e) == es && AllStored(es, rest, incomplete)
  {
    assert e in [e] + rest && forall f :: f in rest ==> f in [e] + rest;
  }

  lemma {:induction false} StoredTaken(es: Entries, s: seq<MeshEntry>, incomplete: set<bytes>)
    requires AllStored(es, s, incomplete)
    ensures Taken(es, s) == s && MergeAll(es, s) == es
    decreases |s|
  {
    if s != [] {
      assert [s[0]] + s[1..] == s;
      StoredFirst(es, s[0], s[1..], incomplete);
      StoredTaken(es, s[1..], incomplete);
    }
  }

  /** Each job of the collector has an entry and runs keys of that entry's target group; and all of them, unless
      some task could not be created when the job was last coordinated. */
  ghost predicate InSync(entries: Entries, tasks: Groups, externalLabels: map<bytes, bytes>, incomplete: set<bytes>) {
    && (forall n :: n in tasks ==> n in entries)
    && (forall n :: n in entries ==> JobInSync(entries[n], tasks, externalLabels, n in incomplete))
  }

  ghost predicate JobInSync(e: MeshEntry, tasks: Groups, externalLabels: map<bytes, bytes>, incomplete: bool) {
    && e.targetgroup.Some? && e.name in tasks
    && var wanted := Wanted(e.targetgroup.value, externalLabels);
       tasks[e.name].Keys <= wanted && (!incomplete ==> tasks[e.name].Keys == wanted)
  }
}
