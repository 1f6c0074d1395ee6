/** The reloader object: each method is one atomic section, or a loop over them, and leaves the fields as the
    state machine says. */
module ConfigHotReloading {
  import opened Common
  import opened ConfigTree
  import opened HotReload

  /** What an uninterrupted round finds at a path: what reading it gives, and what reloading from it would. */
  datatype Site = Site(read: Read, reload: Option<Failure>)

  /** The text and value that a round puts in effect for `path`. */
  function Taken(o: Oracle, path: string, h: int, site: Site): Option<(string, Value)> {
    if site.read.Content? && o.hash(site.read.text) != h && site.reload.None?
    then
      match o.parse(path, site.read.text)
      case Ok(v) => Some((site.read.text, v))
      case Error(_) => None
    else None
  }

  /** The two entries of a path before and after a round that saw `site` there. */
  predicate Settled(o: Oracle, before: map<string, Cell>, after: map<string, Cell>, path: string, site: Site)
    requires path in before && before[path].Hash?
  {
    path in after && OldKey(path) in after &&
    match Taken(o, path, before[path].h, site)
    case Some((text, v)) => after[path] == Hash(o.hash(text)) && after[OldKey(path)] == Old(v)
    case None => after[path] == before[path] && OldKey(path) in before && after[OldKey(path)] == before[OldKey(path)]
  }

  predicate SameCells(before: map<string, Cell>, after: map<string, Cell>, path: string) {
    && path in before && OldKey(path) in before && path in after && OldKey(path) in after
    && after[path] == before[path] && after[OldKey(path)] == before[OldKey(path)]
  }

  /** The watched files after a round has visited `path`. */
  function Visited(o: Oracle, watched: map<string, Cell>, path: string, h: int, site: Site): map<string, Cell> {
    match Taken(o, path, h, site)
    case Some((text, v)) => watched[path := Hash(o.hash(text))][OldKey(path) := Old(v)]
    case None => watched
  }

  /** What a scan does to the state and to the loud log, read off its outcome. */
  lemma ScanDoes(o: Oracle, maxHistory: int, st: State, path: string, read: Read, reload: Option<Failure>,
                 logged: seq<Failure>)
    ensures var e, visited := Scan(path, read, reload), Visit(st, path);
            && Step(o, maxHistory, st, e) == (
                 match ScanOutcome(o, st, path, read, reload)
                 case Nothing => visited
                 case Fails(failure) => Fail(visited, failure)
                 case Applies(text, change) => visited.(pending := Loaded(path, text, change)))
            && NextLogged(o, st, e, logged) == (
                 match ScanOutcome(o, st, path, read, reload)
                 case Fails(failure) => if st.lastSignature == Some(failure) then logged else logged + [failure]
                 case _ => logged)
  {
    hide ScanOutcome, Visit, Append, FindRollback;
  }

  /** A scan makes up a change exactly when the round puts something in effect. */
  lemma ScanFinds(o: Oracle, maxHistory: int, st: State, path: string, site: Site)
    requires st.pending == Idle && path in st.snapshot && !IsOldKey(path)
    ensures var now := Step(o, maxHistory, st, Scan(path, site.read, site.reload));
            && now.watched == st.watched && now.snapshot == st.snapshot - {path}
            && match Taken(o, path, st.snapshot[path], site)
               case Some((text, v)) =>
                 now.pending.Loaded? && now.pending.path == path && now.pending.text == text
                 && now.pending.change.newValue == v
               case None => now.pending == Idle
  {
    hide OldValue, Append, FindRollback, IsOldKey;
  }

  lemma VisitSettles(o: Oracle, before: map<string, Cell>, mid: map<string, Cell>, path: string, site: Site)
    requires SameCells(before, mid, path) && before[path].Hash? && !IsOldKey(path)
    ensures Settled(o, before, Visited(o, mid, path, before[path].h, site), path, site)
    ensures Visited(o, mid, path, before[path].h, site).Keys == mid.Keys
  {
    hide Taken;
    OldKeyInjective(path, path);
    assert path != OldKey(path);
  }

  lemma VisitKeeps(o: Oracle, mid: map<string, Cell>, path: string, h: int, site: Site, other: string)
    requires !IsOldKey(path) && !IsOldKey(other) && other != path
    ensures var after := Visited(o, mid, path, h, site);
            && (other in after <==> other in mid) && (OldKey(other) in after <==> OldKey(other) in mid)
            && (other in mid ==> after[other] == mid[other])
            && (OldKey(other) in mid ==> after[OldKey(other)] == mid[OldKey(other)])
  {
    hide Taken, OldKey;
    OldKeyInjective(path, other);
    OldKeyInjective(other, path);
  }

  lemma VisitKeepsOthers(o: Oracle, before: map<string, Cell>, mid: map<string, Cell>, path: string, h: int, site: Site,
                         other: string, there: Site)
    requires !IsOldKey(path) && !IsOldKey(other) && other != path
    ensures var after := Visited(o, mid, path, h, site);
            && (SameCells(before, mid, other) ==> SameCells(before, after, other))
            && (other in before && before[other].Hash? && Settled(o, before, mid, other, there) ==>
                  Settled(o, before, after, other, there))
  {
    VisitKeeps(o, mid, path, h, site, other);
    hide Visited, Taken, OldKey, IsOldKey;
  }

  lemma AllInPlace(o: Oracle, st: State)
    requires Consistent(o, st)
    ensures forall p :: p in HashesOf(st.watched) && !IsOldKey(p) ==> SameCells(st.watched, st.watched, p)
  {
    hide IsOldKey, OldKey, PendingOk;
    forall p | p in HashesOf(st.watched) && !IsOldKey(p) ensures SameCells(st.watched, st.watched, p) {
      assert InStep(o, st.watched, p);
    }
  }

  /** Hashes are stored at paths that are no internal keys. */
  predicate Keyed(st: State) {
    && (forall p :: p in HashesOf(st.watched) ==> !IsOldKey(p))
    && (st.pending != Idle ==> !IsOldKey(st.pending.path))
  }

  lemma StepKeyed(o: Oracle, maxHistory: int, st: State, e: Event)
    requires Keyed(st) && EventOk(e)
    ensures Keyed(Step(o, maxHistory, st, e))
  {
    hide Append, FindRollback, IsOldKey, OldValue;
  }

  lemma {:induction false} RunKeyed(o: Oracle, maxHistory: int, events: seq<Event>)
    requires AllOk(events)
    ensures Keyed(Run(o, maxHistory, events))
    decreases |events|
  {
    if events != [] {
      var n := |events| - 1;
      RunKeyed(o, maxHistory, events[..n]);
      StepKeyed(o, maxHistory, Run(o, maxHistory, events[..n]), events[n]);
    }
  }

  /** A file that the scan at start-up comes upon; there is no text when it cannot be read. */
  datatype Found = Found(path: string, text: Option<string>)

  function Watches(files: seq<Found>): seq<Event> {
    if files == [] then []
    else
      var last := files[|files| - 1];
      Watches(files[..|files| - 1]) + if last.text.Some? then [WatchAtStart(last.path, last.text.value)] else []
  }

  function StartUp(files: seq<Found>): seq<Event> {
    Watches(files) + [Event.Start]
  }

  class ConfigHotReloader {
    const o: Oracle
    const maxHistory: int
    const watchInterval: real

    var watched: map<string, Cell>
    var history: seq<Change>
    var failures: nat
    var lastSignature: Option<Failure>
    var running: bool

    /** The paths whose watch task has been created and has not run yet. */
    var queued: multiset<string>

    /** What a round in progress keeps between its atomic sections. */
    var snapshot: map<string, int>
    var pending: Pending

    ghost var events: seq<Event>

    /** The failures logged above debug level since the last applied change. */
    ghost var logged: seq<Failure>

    function View(): State
      reads this
    {
      State(watched, snapshot, pending, history, failures, lastSignature, running, queued)
    }

    ghost predicate Valid()
      reads this
    {
      AllOk(events) && View() == Run(o, maxHistory, events) && logged == LoggedSince(o, maxHistory, events)
    }

    /** One event has happened, and the fields are what the state machine makes of it. */
    twostate predicate Does(e: Event)
      reads this
    {
      && Valid()
      && events == old(events) + [e]
      && View() == Step(o, maxHistory, old(View()), e)
    }

    constructor (o: Oracle, maxHistory: int, watchInterval: real)
      ensures Valid() && events == [] && logged == [] && View() == INITIAL
      ensures this.o == o && this.maxHistory == maxHistory && this.watchInterval == watchInterval
    {
      this.o, this.maxHistory, this.watchInterval := o, maxHistory, watchInterval;
      watched, history, failures, lastSignature := map[], [], 0, None;
      running, queued := false, multiset{};
      snapshot, pending, events, logged := map[], Idle, [], [];
    }

    ghost method Happens(e: Event)
      requires AllOk(events) && EventOk(e)
      requires View() == Step(o, maxHistory, Run(o, maxHistory, events), e)
      requires logged == NextLogged(o, Run(o, maxHistory, events), e, LoggedSince(o, maxHistory, events))
      modifies this`events
      ensures Valid() && events == old(events) + [e]
    {
      hide Run, Step, LoggedSince, NextLogged, AllOk, EventOk;
      RunAppend(o, maxHistory, events, e);
      LoggedAppend(o, maxHistory, events, e);
      OkExtends(events, e);
      events := events + [e];
    }

    /** Stores the hash of a file and, for rollback, what it parses to, or its text when that fails. */
    method StoreFile(path: string, text: string)
      modifies this`watched
      ensures watched == Put(o, old(watched), path, text)
    {
      watched := watched[path := Hash(o.hash(text))];
      match o.parse(path, text) {
        case Ok(v) => watched := watched[OldKey(path) := Old(v)];
        case Error(_) => watched := watched[OldKey(path) := Old(Str(text))];
      }
    }

    /** Watches the files found and starts the rounds, unless that was done before. Nothing else runs meanwhile. */
    method Start(files: seq<Found>)
      requires Valid() && forall k :: 0 <= k < |files| ==> !IsOldKey(files[k].path)
      modifies this
      ensures Valid() && events == old(events) + if old(running) then [] else StartUp(files)
      ensures running
    {
      hide Run, Step, LoggedSince, IsOldKey, Put;
      if running {
        assert events + [] == events;
        return;
      }
      for k := 0 to |files|
        invariant Valid() && !running && events == old(events) + Watches(files[..k])
      {
        assert files[..k + 1][..k] == files[..k];
        if files[k].text.Some? {
          WatchAtStartUp(files[k].path, files[k].text.value);
        }
      }
      assert files[..|files|] == files;
      BeginRunning();
    }

    method WatchAtStartUp(path: string, text: string)
      requires Valid() && !running && !IsOldKey(path)
      modifies this
      ensures Does(WatchAtStart(path, text)) && !running
    {
      StoreFile(path, text);
      Happens(WatchAtStart(path, text));
    }

    method BeginRunning()
      requires Valid()
      modifies this
      ensures Does(Event.Start) && running
    {
      running := true;
      Happens(Event.Start);
    }

    /** Asks for a file to be watched: a task is created, which runs later. */
    method WatchFile(path: string)
      requires Valid() && !IsOldKey(path)
      modifies this
      ensures Does(Request(path))
    {
      if running {
        queued := queued + multiset{path};
      }
      Happens(Request(path));
    }

    /** The task itself. `None` stands for a file that does not exist or cannot be read. */
    method WatchTask(path: string, text: Option<string>)
      requires Valid() && path in queued && !IsOldKey(path)
      modifies this
      ensures Does(match text case Some(t) => Watch(path, t) case None => Drop(path))
    {
      hide Run, LoggedSince, AllOk, Put, IsOldKey, OldKey, Append, FindRollback;
      queued := queued - multiset{path};
      match text {
        case Some(t) =>
          StoreFile(path, t);
          Happens(Watch(path, t));
        case None =>
          Happens(Drop(path));
      }
    }

    method UnwatchFile(path: string)
      requires Valid() && !IsOldKey(path)
      modifies this
      ensures Does(Unwatch(path))
    {
      watched := watched - {path};
      watched := watched - {OldKey(path)};
      assert watched == old(watched) - {path, OldKey(path)};
      Happens(Unwatch(path));
    }

    method Stop()
      requires Valid()
      modifies this
      ensures Does(Event.Stop)
    {
      hide Run, LoggedSince, AllOk, Append, FindRollback;
      pending, snapshot, running, queued := Idle, map[], false, multiset{};
      Happens(Event.Stop);
    }

    method ComputeBackoffInterval() returns (seconds: real)
      ensures seconds == Backoff(watchInterval, failures)
    {
      if failures == 0 {
        return watchInterval;
      }
      var power, k := 1.0, 0;
      while k < failures
        invariant 0 <= k <= failures && power == Pow2(k)
      {
        power, k := 2.0 * power, k + 1;
      }
      var backoff := watchInterval * power;
      return if backoff < MAX_BACKOFF then backoff else MAX_BACKOFF;
    }

    /** Counts a failure; it is logged loudly unless it repeats the one before. */
    method RecordParseFailure(failure: Failure) returns (loud: bool)
      modifies this`failures, this`lastSignature, this`logged
      ensures View() == Fail(old(View()), failure)
      ensures loud <==> old(lastSignature) != Some(failure)
      ensures logged == if loud then old(logged) + [failure] else old(logged)
    {
      failures := failures + 1;
      loud := Some(failure) != lastSignature;
      if loud {
        lastSignature := Some(failure);
        logged := logged + [failure];
      }
    }

    method RecordChange(change: Change)
      modifies this`history
      ensures history == Append(old(history), change, maxHistory)
    {
      history := history + [change];
      if |history| > maxHistory {
        history := SliceFrom(history, -maxHistory);
      }
    }

    method BeginRound()
      requires Valid()
      modifies this
      ensures Does(Event.BeginRound)
    {
      if running && pending == Idle && snapshot == map[] {
        snapshot := HashesOf(watched);
      }
      Happens(Event.BeginRound);
    }

    /** Gives the round up, when asking whether a file exists raises. */
    method EndRound()
      requires Valid() && pending == Idle
      modifies this
      ensures Does(Event.EndRound)
    {
      snapshot := map[];
      Happens(Event.EndRound);
    }

    /** Reads one file of the round's snapshot, up to the change that it calls for. */
    method ScanFile(path: string, read: Read, reload: Option<Failure>)
      requires Valid() && pending == Idle && path in snapshot && !IsOldKey(path)
      modifies this
      ensures Does(Scan(path, read, reload))
    {
      hide OldValue, Run, Step, LoggedSince, NextLogged, AllOk, IsOldKey;
      ScanDoes(o, maxHistory, View(), path, read, reload, logged);
      var oldHash := snapshot[path];
      snapshot := snapshot - {path};
      match read {
        case Missing =>
        case Unreadable(failure) =>
          var _ := RecordParseFailure(failure);
        case Content(text) =>
          if o.hash(text) != oldHash {
            match o.parse(path, text) {
              case Error(failure) =>
                var _ := RecordParseFailure(failure);
              case Ok(value) =>
                if reload.Some? {
                  var _ := RecordParseFailure(reload.value);
                } else {
                  pending := Loaded(path, text, Change(o.kind(path), path, OldValue(watched, path), value, "system"));
                }
            }
          }
      }
      Happens(Scan(path, read, reload));
    }

    method RecordLoaded()
      requires Valid() && pending.Loaded?
      modifies this
      ensures Does(Record)
    {
      RecordChange(pending.change);
      pending := Recorded(pending.path, pending.text, pending.change.newValue);
      Happens(Record);
    }

    method CommitRecorded()
      requires Valid() && pending.Recorded?
      modifies this
      ensures Does(Commit)
    {
      hide Run, LoggedSince, AllOk, OldKey, IsOldKey, Append, FindRollback;
      watched := watched[pending.path := Hash(o.hash(pending.text))];
      watched := watched[OldKey(pending.path) := Old(pending.value)];
      failures, lastSignature, pending, logged := 0, None, Idle, [];
      Happens(Commit);
    }

    method ReloadConfig(configType: string, configId: string, value: Value)
      requires Valid()
      modifies this
      ensures Does(Manual(configType, configId, value))
    {
      RecordChange(Change(configType, configId, Null, value, "manual"));
      Happens(Manual(configType, configId, value));
    }

    /** Searches the history backwards for something to go back to. */
    method Rollback(configType: string, configId: string) returns (ok: bool)
      requires Valid()
      modifies this
      ensures Does(Event.Rollback(configType, configId))
      ensures ok <==> FindRollback(old(history), configType, configId).Some?
    {
      hide Append, SliceFrom;
      var i := |history|;
      assert history[..i] == history;
      while i > 0
        invariant 0 <= i <= |history|
        invariant FindRollback(history, configType, configId) == FindRollback(history[..i], configType, configId)
      {
        i := i - 1;
        assert history[..i + 1][..i] == history[..i];
        var change := history[i];
        if change.configType == configType && change.configId == configId && change.oldValue != Null {
          RecordChange(Change(configType, configId, change.newValue, change.oldValue, "rollback"));
          Happens(Event.Rollback(configType, configId));
          return true;
        }
      }
      Happens(Event.Rollback(configType, configId));
      return false;
    }

    /** The change found is recorded and committed, with nothing else happening in between. */
    method ApplyLoaded()
      requires Valid() && pending.Loaded?
      modifies this
      ensures Valid() && pending == Idle && snapshot == old(snapshot)
      ensures watched == old(watched[pending.path := Hash(o.hash(pending.text))]
                                    [OldKey(pending.path) := Old(pending.change.newValue)])
    {
      hide Run, LoggedSince, AllOk, Append, FindRollback, IsOldKey, OldKey;
      RecordLoaded();
      CommitRecorded();
    }

    /** One file of a round, with nothing else happening in between. */
    method CheckFile(path: string, site: Site)
      requires Valid() && pending == Idle && path in snapshot && !IsOldKey(path)
      modifies this
      ensures Valid() && pending == Idle && snapshot == old(snapshot) - {path}
      ensures watched == Visited(o, old(watched), path, old(snapshot)[path], site)
    {
      hide Run, Step, LoggedSince, AllOk, IsOldKey, OldKey, Taken;
      ScanFinds(o, maxHistory, View(), path, site);
      ScanFile(path, site.read, site.reload);
      if pending.Loaded? {
        ApplyLoaded();
      }
    }

    method StartRound()
      requires Valid() && running && pending == Idle && snapshot == map[]
      modifies this
      ensures Valid() && pending == Idle && watched == old(watched) && snapshot == HashesOf(watched)
      ensures forall p :: p in snapshot ==> !IsOldKey(p) && SameCells(watched, watched, p)
    {
      hide Run, LoggedSince;
      RunConsistent(o, maxHistory, events);
      RunKeyed(o, maxHistory, events);
      AllInPlace(o, View());
      BeginRound();
    }

    /** A whole round: every watched file ends with the hash and value of its new content, or as it was. */
    method CheckChanges(sites: string -> Site)
      requires Valid() && running && pending == Idle && snapshot == map[]
      modifies this
      ensures Valid() && pending == Idle && snapshot == map[] && watched.Keys == old(watched.Keys)
      ensures forall p :: p in old(watched) && old(watched)[p].Hash? ==>
                Settled(o, old(watched), watched, p, sites(p))
    {
      hide Run, Step, LoggedSince, Taken, IsOldKey, OldKey, Visited, Settled, SameCells;
      ghost var before := watched;
      StartRound();
      while snapshot != map[]
        invariant Valid() && pending == Idle && watched.Keys == before.Keys
        invariant forall p :: p in snapshot ==> p in HashesOf(before) && snapshot[p] == HashesOf(before)[p]
        invariant forall p :: p in snapshot ==> SameCells(before, watched, p)
        invariant forall p :: p in HashesOf(before) ==> !IsOldKey(p)
        invariant forall p :: p in HashesOf(before) && p !in snapshot ==> Settled(o, before, watched, p, sites(p))
        decreases |snapshot|
      {
        var path :| path in snapshot;
        VisitSettles(o, before, watched, path, sites(path));
        forall p | p in HashesOf(before) && p != path {
          VisitKeepsOthers(o, before, watched, path, snapshot[path], sites(path), p, sites(p));
        }
        CheckFile(path, sites(path));
      }
    }
  }
}
