/** The configuration hot-reloader: watched files, change history, failure back-off, as a state machine
    over the sections that its locks make atomic. */
module HotReload {
  import opened Common
  import opened ConfigTree

  // ---- What lies outside ----

  /** An exception as it enters the error signature. */
  datatype Failure = Failure(path: string, exc: string, message: string)

  datatype Parsed = Ok(value: Value) | Error(failure: Failure)

  /** Content hashing, parsing by file type, and the configuration type of a path. */
  datatype Oracle = Oracle(
    hash: string -> int,
    parse: (string, string) -> Parsed,
    kind: string -> string
  )

  /** Reading a file gives its text or raises, or there is no such file. */
  datatype Read = Content(text: string) | Unreadable(failure: Failure) | Missing

  // ---- State ----

  datatype Change = Change(configType: string, configId: string, oldValue: Value, newValue: Value, changedBy: string)

  /** A watched path maps to a content hash; its key with `_old_` in front to the value last in effect. */
  datatype Cell = Hash(h: int) | Old(v: Value)

  /** A scan that found a changed file: the change is made up, then recorded, then committed. */
  datatype Pending =
    | Idle
    | Loaded(path: string, text: string, change: Change)
    | Recorded(path: string, text: string, value: Value)

  /** `snapshot` holds the files that the round in progress has still to visit, with their hashes at its start;
      `queued` the files whose watch task has been created and has not run yet. */
  datatype State = State(
    watched: map<string, Cell>,
    snapshot: map<string, int>,
    pending: Pending,
    history: seq<Change>,
    failures: nat,
    lastSignature: Option<Failure>,
    running: bool,
    queued: multiset<string>
  )

  const INITIAL := State(map[], map[], Idle, [], 0, None, false, multiset{})

  const OLD := "_old_"

  function OldKey(path: string): string {
    OLD + path
  }

  predicate IsOldKey(key: string) {
    OLD <= key
  }

  lemma OldKeyInjective(p: string, q: string)
    ensures OldKey(p) == OldKey(q) <==> p == q
    ensures IsOldKey(OldKey(p))
  {
    assert OldKey(p)[|OLD|..] == p && OldKey(q)[|OLD|..] == q;
  }

  // ---- The atomic sections ----

  /** Files are watched by the scan at start-up, or on request: the request creates a task, which later reads the file
      and watches it, or drops it when there is nothing to read. */
  datatype Event =
    | WatchAtStart(path: string, text: string)
    | Start
    | Request(path: string)
    | Watch(path: string, text: string)
    | Drop(path: string)
    | Unwatch(path: string)
    | BeginRound
    | EndRound
    | Scan(path: string, read: Read, reload: Option<Failure>)
    | Record
    | Commit
    | Rollback(configType: string, configId: string)
    | Manual(configType: string, configId: string, value: Value)
    | Stop

  /** No watched path begins with `_old_`. */
  predicate EventOk(e: Event) {
    match e
    case WatchAtStart(path, _) => !IsOldKey(path)
    case Request(path) => !IsOldKey(path)
    case Watch(path, _) => !IsOldKey(path)
    case Unwatch(path) => !IsOldKey(path)
    case _ => true
  }

  /** The value kept for rollback when a file comes under watch: what it parses to, else its text. */
  function Baseline(o: Oracle, path: string, text: string): Value {
    match o.parse(path, text)
    case Ok(v) => v
    case Error(_) => Str(text)
  }

  function HashesOf(watched: map<string, Cell>): map<string, int> {
    map key | key in watched && watched[key].Hash? :: watched[key].h
  }

  function OldValue(watched: map<string, Cell>, path: string): Value {
    if OldKey(path) in watched && watched[OldKey(path)].Old? then watched[OldKey(path)].v else Null
  }

  /** `xs[k:]` with Python's reading of a negative index. */
  function SliceFrom(xs: seq<Change>, k: int): seq<Change> {
    if k >= |xs| then [] else if k >= 0 then xs[k..] else if -k >= |xs| then xs else xs[|xs| + k..]
  }

  function Append(history: seq<Change>, change: Change, maxHistory: int): seq<Change> {
    var longer := history + [change];
    if |longer| > maxHistory then SliceFrom(longer, -maxHistory) else longer
  }

  /** A change of that id with something to go back to. */
  predicate Restorable(c: Change, configType: string, configId: string) {
    c.configType == configType && c.configId == configId && c.oldValue != Null
  }

  /** The newest such change. */
  function FindRollback(history: seq<Change>, configType: string, configId: string): Option<Change> {
    if history == [] then None
    else
      var last := history[|history| - 1];
      if Restorable(last, configType, configId) then Some(last)
      else FindRollback(history[..|history| - 1], configType, configId)
  }

  function Swapped(c: Change): Change {
    Change(c.configType, c.configId, c.newValue, c.oldValue, "rollback")
  }

  /** What a scan of `path` comes to in a state: nothing, a failure, or a change to apply. */
  datatype Outcome = Nothing | Fails(failure: Failure) | Applies(text: string, change: Change)

  function ScanOutcome(o: Oracle, st: State, path: string, read: Read, reload: Option<Failure>): Outcome {
    if st.pending != Idle || path !in st.snapshot || IsOldKey(path) then Nothing
    else
      match read
      case Missing => Nothing
      case Unreadable(failure) => Fails(failure)
      case Content(text) =>
        if o.hash(text) == st.snapshot[path] then Nothing
        else
          match o.parse(path, text)
          case Error(failure) => Fails(failure)
          case Ok(value) =>
            if reload.Some? then Fails(reload.value)
            else Applies(text, Change(o.kind(path), path, OldValue(st.watched, path), value, "system"))
  }

  /** The change that an event appends to the history. */
  function Appends(st: State, e: Event): Option<Change> {
    match e
    case Record => if st.pending.Loaded? then Some(st.pending.change) else None
    case Rollback(configType, configId) =>
      (match FindRollback(st.history, configType, configId)
       case None => None
       case Some(c) => Some(Swapped(c)))
    case Manual(configType, configId, value) => Some(Change(configType, configId, Null, value, "manual"))
    case _ => None
  }

  /** A file is visited once in a round. */
  function Visit(st: State, path: string): State {
    if st.pending == Idle then st.(snapshot := st.snapshot - {path}) else st
  }

  function Fail(st: State, failure: Failure): State {
    st.(failures := st.failures + 1, lastSignature := Some(failure))
  }

  /** The event brings a file under watch: the scan runs only at start-up, a task only if it is queued. */
  predicate TakesWatch(st: State, e: Event) {
    (e.WatchAtStart? && !st.running) || (e.Watch? && e.path in st.queued)
  }

  function Put(o: Oracle, watched: map<string, Cell>, path: string, text: string): map<string, Cell> {
    watched[path := Hash(o.hash(text))][OldKey(path) := Old(Baseline(o, path, text))]
  }

  function Step(o: Oracle, maxHistory: int, st: State, e: Event): State {
    var history := match Appends(st, e) case None => st.history case Some(c) => Append(st.history, c, maxHistory);
    match e
    case WatchAtStart(path, text) => if st.running then st else st.(watched := Put(o, st.watched, path, text))
    case Start => st.(running := true)
    case Request(path) => if st.running then st.(queued := st.queued + multiset{path}) else st
    case Watch(path, text) =>
      if path in st.queued then
        st.(watched := Put(o, st.watched, path, text), queued := st.queued - multiset{path})
      else st
    case Drop(path) => st.(queued := st.queued - multiset{path})
    case Unwatch(path) => st.(watched := st.watched - {path, OldKey(path)})
    case BeginRound =>
      if st.running && st.pending == Idle && st.snapshot == map[] then st.(snapshot := HashesOf(st.watched)) else st
    case EndRound => if st.pending == Idle then st.(snapshot := map[]) else st
    case Scan(path, read, reload) =>
      var visited := Visit(st, path);
      (match ScanOutcome(o, st, path, read, reload)
       case Nothing => visited
       case Fails(failure) => Fail(visited, failure)
       case Applies(text, change) => visited.(pending := Loaded(path, text, change)))
    case Record =>
      if st.pending.Loaded? then
        st.(pending := Recorded(st.pending.path, st.pending.text, st.pending.change.newValue), history := history)
      else st
    case Commit =>
      if st.pending.Recorded? then
        var p := st.pending;
        st.(watched := st.watched[p.path := Hash(o.hash(p.text))][OldKey(p.path) := Old(p.value)],
            pending := Idle, failures := 0, lastSignature := None)
      else st
    case Rollback(_, _) => st.(history := history)
    case Manual(_, _, _) => st.(history := history)
    case Stop => st.(pending := Idle, snapshot := map[], running := false, queued := multiset{})
  }

  function Run(o: Oracle, maxHistory: int, events: seq<Event>): State {
    if events == [] then INITIAL
    else Step(o, maxHistory, Run(o, maxHistory, events[..|events| - 1]), events[|events| - 1])
  }

  predicate AllOk(events: seq<Event>) {
    forall k :: 0 <= k < |events| ==> EventOk(events[k])
  }

  lemma OkSplits(events: seq<Event>, e: Event)
    requires AllOk(events + [e])
    ensures AllOk(events) && EventOk(e)
  {
    assert (events + [e])[|events|] == e;
    forall k | 0 <= k < |events| ensures EventOk(events[k]) {
      assert (events + [e])[k] == events[k];
    }
  }

  lemma RunAppend(o: Oracle, maxHistory: int, events: seq<Event>, e: Event)
    ensures Run(o, maxHistory, events + [e]) == Step(o, maxHistory, Run(o, maxHistory, events), e)
  {
    assert (events + [e])[..|events|] == events;
  }

  // ---- A hash and the value kept with it always come from one content ----

  /** The two entries of `path` were made from `text`. */
  predicate MadeFrom(o: Oracle, watched: map<string, Cell>, path: string, text: string)
    requires path in watched && OldKey(path) in watched
  {
    watched[path] == Hash(o.hash(text)) && watched[OldKey(path)] == Old(Baseline(o, path, text))
  }

  ghost predicate InStep(o: Oracle, watched: map<string, Cell>, path: string) {
    && (path in watched <==> OldKey(path) in watched)
    && (path in watched ==> exists text :: MadeFrom(o, watched, path, text))
  }

  /** What is about to be committed is the parse of what was read, for a path that is no internal key. */
  predicate PendingOk(o: Oracle, p: Pending) {
    match p
    case Idle => true
    case Loaded(path, text, change) => !IsOldKey(path) && o.parse(path, text) == Ok(change.newValue)
    case Recorded(path, text, value) => !IsOldKey(path) && o.parse(path, text) == Ok(value)
  }

  ghost predicate Consistent(o: Oracle, st: State) {
    PendingOk(o, st.pending) && forall path :: !IsOldKey(path) ==> InStep(o, st.watched, path)
  }

  lemma PutInStep(o: Oracle, watched: map<string, Cell>, p: string, text: string, path: string)
    requires !IsOldKey(p) && !IsOldKey(path) && InStep(o, watched, path)
    ensures InStep(o, Put(o, watched, p, text), path)
  {
    var now := Put(o, watched, p, text);
    OldKeyInjective(p, path);
    OldKeyInjective(path, p);
    if path == p {
      assert MadeFrom(o, now, path, text);
    } else if path in watched {
      var text' :| MadeFrom(o, watched, path, text');
      assert MadeFrom(o, now, path, text');
    }
  }

  lemma DropInStep(o: Oracle, watched: map<string, Cell>, p: string, path: string)
    requires !IsOldKey(p) && !IsOldKey(path) && InStep(o, watched, path)
    ensures InStep(o, watched - {p, OldKey(p)}, path)
  {
    var now := watched - {p, OldKey(p)};
    OldKeyInjective(p, path);
    OldKeyInjective(path, p);
    if path in now {
      var text :| MadeFrom(o, watched, path, text);
      assert MadeFrom(o, now, path, text);
    }
  }

  lemma StepConsistent(o: Oracle, maxHistory: int, st: State, e: Event)
    requires Consistent(o, st) && EventOk(e)
    ensures Consistent(o, Step(o, maxHistory, st, e))
  {
    hide InStep, IsOldKey, OldKey, Append, FindRollback;
    forall path | !IsOldKey(path)
      ensures InStep(o, Step(o, maxHistory, st, e).watched, path)
    {
      match e
      case WatchAtStart(p, text) => PutInStep(o, st.watched, p, text, path);
      case Watch(p, text) => PutInStep(o, st.watched, p, text, path);
      case Unwatch(p) => DropInStep(o, st.watched, p, path);
      case Commit =>
        if st.pending.Recorded? {
          PutInStep(o, st.watched, st.pending.path, st.pending.text, path);
        }
      case _ =>
    }
  }

  /** Over every interleaving, a path has a hash exactly when it has a value, and both are of one content. */
  lemma {:induction false} RunConsistent(o: Oracle, maxHistory: int, events: seq<Event>)
    requires AllOk(events)
    ensures Consistent(o, Run(o, maxHistory, events))
    decreases |events|
  {
    if events != [] {
      var n := |events| - 1;
      RunConsistent(o, maxHistory, events[..n]);
      StepConsistent(o, maxHistory, Run(o, maxHistory, events[..n]), events[n]);
    }
  }

  // ---- Scan records of one path form a chain ----

  function PendingPath(p: Pending): Option<string> {
    if p.Idle? then None else Some(p.path)
  }

  /** The value in effect for `path` as far as watches and applied scans tell; a watch or stop amid a scan of it leaves
      it open. */
  function InEffect(o: Oracle, maxHistory: int, events: seq<Event>, path: string): Option<Value> {
    if events == [] then None
    else
      var st := Run(o, maxHistory, events[..|events| - 1]);
      var before := InEffect(o, maxHistory, events[..|events| - 1], path);
      var e := events[|events| - 1];
      if TakesWatch(st, e) && e.path == path then
        if PendingPath(st.pending) == Some(path) then None else Some(Baseline(o, path, e.text))
      else
        match e
        case Unwatch(p) => if p == path then None else before
        case Scan(p, read, reload) =>
          (match ScanOutcome(o, st, p, read, reload)
           case Applies(_, change) => if p == path then Some(change.newValue) else before
           case _ => before)
        case Stop => if PendingPath(st.pending) == Some(path) then None else before
        case _ => before
  }

  /** The value in effect is known from the first watch or applied scan on: it is what that content parses to. Only
      unwatching the file, or a watch or stop amid a scan of it, makes it unknown again. */
  lemma InEffectNext(o: Oracle, maxHistory: int, events: seq<Event>, e: Event, path: string)
    ensures var st, now := Run(o, maxHistory, events), InEffect(o, maxHistory, events + [e], path);
            && (TakesWatch(st, e) && e.path == path && PendingPath(st.pending) != Some(path) ==>
                  now == Some(if o.parse(path, e.text).Ok? then o.parse(path, e.text).value else Str(e.text)))
            && (e.Scan? && e.path == path && ScanOutcome(o, st, path, e.read, e.reload).Applies? ==>
                  e.read.Content? && o.parse(path, e.read.text).Ok? && now == Some(o.parse(path, e.read.text).value))
            && (now == None ==> InEffect(o, maxHistory, events, path) == None || e == Unwatch(path)
                                || ((e.Stop? || TakesWatch(st, e)) && PendingPath(st.pending) == Some(path)))
  {
    hide Run;
    assert (events + [e])[..|events|] == events;
  }

  function PendingValue(p: Pending): Value
    requires !p.Idle?
  {
    if p.Loaded? then p.change.newValue else p.value
  }

  /** The value in effect is the one stored, or the one about to be. */
  predicate Stored(st: State, path: string, v: Value) {
    if PendingPath(st.pending) == Some(path) then PendingValue(st.pending) == v
    else OldValue(st.watched, path) == v
  }

  lemma PutOldValue(watched: map<string, Cell>, p: string, h: Cell, v: Value, path: string)
    requires !IsOldKey(p) && !IsOldKey(path)
    ensures OldValue(watched[p := h][OldKey(p) := Old(v)], path) == if p == path then v else OldValue(watched, path)
    ensures OldValue(watched - {p, OldKey(p)}, path) == if p == path then Null else OldValue(watched, path)
  {
    OldKeyInjective(p, path);
    OldKeyInjective(path, p);
  }

  lemma StepStored(o: Oracle, maxHistory: int, st: State, e: Event, path: string, v: Value)
    requires !IsOldKey(path) && EventOk(e) && PendingOk(o, st.pending) && Stored(st, path, v)
    requires TakesWatch(st, e) ==> e.path != path
    requires e.Unwatch? ==> e.path != path
    requires e.Stop? ==> PendingPath(st.pending) != Some(path)
    requires e.Scan? && e.path == path ==> !ScanOutcome(o, st, path, e.read, e.reload).Applies?
    ensures Stored(Step(o, maxHistory, st, e), path, v)
  {
    hide OldValue, IsOldKey, OldKey, Append, FindRollback;
    match e
    case WatchAtStart(p, text) => PutOldValue(st.watched, p, Hash(o.hash(text)), Baseline(o, p, text), path);
    case Watch(p, text) => PutOldValue(st.watched, p, Hash(o.hash(text)), Baseline(o, p, text), path);
    case Unwatch(p) => PutOldValue(st.watched, p, Hash(0), Null, path);
    case Commit =>
      if st.pending.Recorded? {
        var q := st.pending;
        PutOldValue(st.watched, q.path, Hash(o.hash(q.text)), q.value, path);
      }
    case _ =>
  }

  lemma {:induction false} InEffectIsStored(o: Oracle, maxHistory: int, events: seq<Event>, path: string)
    requires AllOk(events) && !IsOldKey(path)
    ensures InEffect(o, maxHistory, events, path).Some? ==>
              Stored(Run(o, maxHistory, events), path, InEffect(o, maxHistory, events, path).value)
    decreases |events|
  {
    hide Stored, Run, Step, ScanOutcome, InEffect;
    if events == [] {
      NothingInEffect(o, maxHistory, path);
    } else {
      var init, e := events[..|events| - 1], events[|events| - 1];
      var st := Run(o, maxHistory, init);
      InEffectIsStored(o, maxHistory, init, path);
      RunConsistent(o, maxHistory, init);
      InEffectStep(o, maxHistory, init, e, path);
      assert events == init + [e];
    }
  }

  lemma NothingInEffect(o: Oracle, maxHistory: int, path: string)
    ensures InEffect(o, maxHistory, [], path) == None
  {
  }

  lemma InEffectStep(o: Oracle, maxHistory: int, init: seq<Event>, e: Event, path: string)
    requires !IsOldKey(path) && EventOk(e)
    requires PendingOk(o, Run(o, maxHistory, init).pending)
    requires var v := InEffect(o, maxHistory, init, path); v.Some? ==> Stored(Run(o, maxHistory, init), path, v.value)
    ensures var v := InEffect(o, maxHistory, init + [e], path);
            v.Some? ==> Stored(Run(o, maxHistory, init + [e]), path, v.value)
  {
    hide Stored, Run, Step, ScanOutcome;
    var st := Run(o, maxHistory, init);
    var before := InEffect(o, maxHistory, init, path);
    assert (init + [e])[..|init|] == init;
    RunAppend(o, maxHistory, init, e);
    var sets := (TakesWatch(st, e) && e.path == path) || (e.Unwatch? && e.path == path)
      || (e.Stop? && PendingPath(st.pending) == Some(path))
      || (e.Scan? && e.path == path && ScanOutcome(o, st, path, e.read, e.reload).Applies?);
    if sets {
      StepSets(o, maxHistory, st, e, path);
    } else if before.Some? {
      StepStored(o, maxHistory, st, e, path, before.value);
    }
  }

  lemma StepSets(o: Oracle, maxHistory: int, st: State, e: Event, path: string)
    requires !IsOldKey(path)
    ensures TakesWatch(st, e) && e.path == path && PendingPath(st.pending) != Some(path) ==>
              Stored(Step(o, maxHistory, st, e), path, Baseline(o, path, e.text))
    ensures e.Scan? && e.path == path && ScanOutcome(o, st, path, e.read, e.reload).Applies? ==>
              Stored(Step(o, maxHistory, st, e), path, ScanOutcome(o, st, path, e.read, e.reload).change.newValue)
  {
    hide OldValue, IsOldKey, OldKey;
    if TakesWatch(st, e) {
      PutOldValue(st.watched, path, Hash(o.hash(e.text)), Baseline(o, path, e.text), path);
    }
  }

  /** The old value of a scan record is the value of the watch, or the new value of the record, before it. */
  lemma ScanRecordsChain(o: Oracle, maxHistory: int, events: seq<Event>, path: string, read: Read,
                         reload: Option<Failure>)
    requires AllOk(events) && InEffect(o, maxHistory, events, path).Some?
    requires ScanOutcome(o, Run(o, maxHistory, events), path, read, reload).Applies?
    ensures ScanOutcome(o, Run(o, maxHistory, events), path, read, reload).change.oldValue
         == InEffect(o, maxHistory, events, path).value
  {
    InEffectIsStored(o, maxHistory, events, path);
  }

  // ---- A failing content is left alone and tried again ----

  /** The event neither watches nor unwatches the file, nor finds a content of it to apply. */
  predicate LeavesAlone(o: Oracle, st: State, e: Event, path: string) {
    && !(TakesWatch(st, e) && e.path == path)
    && !(e.Unwatch? && e.path == path)
    && !(e.Scan? && e.path == path && ScanOutcome(o, st, path, e.read, e.reload).Applies?)
  }

  predicate LeftAlone(o: Oracle, maxHistory: int, before: seq<Event>, later: seq<Event>, path: string) {
    later != [] ==>
      var init := later[..|later| - 1];
      && LeftAlone(o, maxHistory, before, init, path)
      && LeavesAlone(o, Run(o, maxHistory, before + init), later[|later| - 1], path)
  }

  /** The file has that hash and value, and the round in progress compares it with that hash. */
  predicate Keeps(st: State, path: string, h: int, v: Value) {
    && path in st.watched && st.watched[path] == Hash(h) && OldValue(st.watched, path) == v
    && (path in st.snapshot ==> st.snapshot[path] == h)
    && PendingPath(st.pending) != Some(path)
  }

  lemma PutKeeps(o: Oracle, watched: map<string, Cell>, p: string, c: Cell, v: Value, path: string)
    requires !IsOldKey(p) && !IsOldKey(path) && p != path
    ensures var now := watched[p := c][OldKey(p) := Old(v)];
            && (path in now <==> path in watched) && (path in watched ==> now[path] == watched[path])
            && OldValue(now, path) == OldValue(watched, path)
    ensures var now := watched - {p, OldKey(p)};
            && (path in now <==> path in watched) && (path in watched ==> now[path] == watched[path])
            && OldValue(now, path) == OldValue(watched, path)
  {
    OldKeyInjective(p, path);
    OldKeyInjective(path, p);
  }

  lemma StepKeeps(o: Oracle, maxHistory: int, st: State, e: Event, path: string, h: int, v: Value)
    requires !IsOldKey(path) && EventOk(e) && PendingOk(o, st.pending)
    requires Keeps(st, path, h, v) && LeavesAlone(o, st, e, path)
    ensures Keeps(Step(o, maxHistory, st, e), path, h, v)
  {
    hide OldValue, IsOldKey, OldKey, Append, FindRollback;
    match e
    case WatchAtStart(p, text) =>
      if p != path {
        PutKeeps(o, st.watched, p, Hash(o.hash(text)), Baseline(o, p, text), path);
      }
    case Watch(p, text) =>
      if p != path {
        PutKeeps(o, st.watched, p, Hash(o.hash(text)), Baseline(o, p, text), path);
      }
    case Unwatch(p) => PutKeeps(o, st.watched, p, Hash(0), Null, path);
    case Commit =>
      if st.pending.Recorded? {
        PutKeeps(o, st.watched, st.pending.path, Hash(o.hash(st.pending.text)), st.pending.value, path);
      }
    case _ =>
  }

  lemma {:induction false} RunKeeps(o: Oracle, maxHistory: int, before: seq<Event>, later: seq<Event>,
                                    path: string, h: int, v: Value)
    requires AllOk(before + later) && !IsOldKey(path)
    requires Keeps(Run(o, maxHistory, before), path, h, v) && LeftAlone(o, maxHistory, before, later, path)
    ensures Keeps(Run(o, maxHistory, before + later), path, h, v)
    decreases |later|
  {
    hide Keeps, LeavesAlone, Step, Run;
    if later == [] {
      assert before + later == before;
    } else {
      var n := |later| - 1;
      var mid := before + later[..n];
      assert before + later == mid + [later[n]];
      OkSplits(mid, later[n]);
      RunKeeps(o, maxHistory, before, later[..n], path, h, v);
      RunConsistent(o, maxHistory, mid);
      RunAppend(o, maxHistory, mid, later[n]);
      StepKeeps(o, maxHistory, Run(o, maxHistory, mid), later[n], path, h, v);
    }
  }

  lemma FailureKeeps(o: Oracle, maxHistory: int, st: State, path: string, text: string, reload: Option<Failure>)
    requires ScanOutcome(o, st, path, Content(text), reload).Fails?
    requires path in st.watched && st.watched[path] == Hash(st.snapshot[path])
    ensures var now := Step(o, maxHistory, st, Scan(path, Content(text), reload));
            Keeps(now, path, st.snapshot[path], OldValue(st.watched, path))
    ensures o.hash(text) != st.snapshot[path]
  {
    hide OldValue;
  }

  /** A content that failed leaves hash and value alone, and every later round that comes to the file and finds it again
      tries it again, until the file is watched or unwatched or another content of it is applied. */
  lemma FailureIsRetried(o: Oracle, maxHistory: int, before: seq<Event>, path: string, text: string,
                         reload: Option<Failure>, later: seq<Event>, reload': Option<Failure>)
    requires var st := Run(o, maxHistory, before);
             && ScanOutcome(o, st, path, Content(text), reload).Fails?
             && path in st.watched && st.watched[path] == Hash(st.snapshot[path])
    requires var failed := before + [Scan(path, Content(text), reload)];
             AllOk(failed + later) && LeftAlone(o, maxHistory, failed, later, path)
    ensures var st := Run(o, maxHistory, before);
            var now := Run(o, maxHistory, before + [Scan(path, Content(text), reload)] + later);
            && path in now.watched && now.watched[path] == st.watched[path]
            && OldValue(now.watched, path) == OldValue(st.watched, path)
            && (now.pending == Idle && path in now.snapshot ==>
                  ScanOutcome(o, now, path, Content(text), reload') != Nothing)
  {
    hide Run, Step, OldValue, LeftAlone;
    var st, scan := Run(o, maxHistory, before), Scan(path, Content(text), reload);
    RunAppend(o, maxHistory, before, scan);
    FailureKeeps(o, maxHistory, st, path, text, reload);
    RunKeeps(o, maxHistory, before + [scan], later, path, st.snapshot[path], OldValue(st.watched, path));
  }

  // ---- Unwatching ----

  /** A content that a round would take over for a file with that hash. */
  predicate Takes(o: Oracle, path: string, h: int, text: string) {
    o.parse(path, text).Ok? && o.hash(text) != h
  }

  /** A task that watches the file is queued, a change of the file is being applied, or the round in progress has still
      to visit it and some content would be taken over. */
  ghost predicate MayReturn(o: Oracle, st: State, path: string) {
    || path in st.queued
    || PendingPath(st.pending) == Some(path)
    || (path in st.snapshot && exists text :: Takes(o, path, st.snapshot[path], text))
  }

  /** A caller asks for the file to be watched. */
  predicate AsksFor(e: Event, path: string) {
    (e.Request? || e.WatchAtStart?) && e.path == path
  }

  lemma StaysOut(o: Oracle, maxHistory: int, st: State, e: Event, path: string)
    requires !IsOldKey(path) && EventOk(e) && PendingOk(o, st.pending) && path !in st.watched
    requires path !in st.queued && PendingPath(st.pending) != Some(path) && !AsksFor(e, path)
    ensures path !in Step(o, maxHistory, st, e).watched && path !in Step(o, maxHistory, st, e).queued
  {
    hide IsOldKey, OldKey, OldValue, Append, FindRollback, ScanOutcome, Put;
    match e
    case WatchAtStart(p, text) => PutElsewhere(o, st.watched, p, text, path);
    case Watch(p, text) =>
      if p != path {
        PutElsewhere(o, st.watched, p, text, path);
      }
    case Commit =>
      if st.pending.Recorded? {
        PutKeeps(o, st.watched, st.pending.path, Hash(o.hash(st.pending.text)), st.pending.value, path);
      }
    case _ =>
  }

  lemma PutElsewhere(o: Oracle, watched: map<string, Cell>, p: string, text: string, path: string)
    requires !IsOldKey(p) && !IsOldKey(path) && p != path
    ensures path in Put(o, watched, p, text) <==> path in watched
  {
    hide IsOldKey, OldKey;
    PutKeeps(o, watched, p, Hash(o.hash(text)), Baseline(o, p, text), path);
  }

  lemma StaysUnwatched(o: Oracle, maxHistory: int, st: State, e: Event, path: string)
    requires !IsOldKey(path) && EventOk(e) && PendingOk(o, st.pending)
    requires path !in st.watched && !MayReturn(o, st, path) && !AsksFor(e, path)
    ensures var now := Step(o, maxHistory, st, e); path !in now.watched && !MayReturn(o, now, path)
  {
    hide IsOldKey, OldKey, OldValue, Append, FindRollback, Put, Takes;
    StaysOut(o, maxHistory, st, e, path);
    if e.Scan? && e.path == path {
      NothingToTake(o, st, path, e.read, e.reload);
    }
  }

  lemma NothingToTake(o: Oracle, st: State, path: string, read: Read, reload: Option<Failure>)
    requires !MayReturn(o, st, path)
    ensures !ScanOutcome(o, st, path, read, reload).Applies?
  {
    if path in st.snapshot && read.Content? {
      assert !Takes(o, path, st.snapshot[path], read.text);
    }
  }

  predicate NeverAskedFor(events: seq<Event>, path: string) {
    forall k :: 0 <= k < |events| ==> !AsksFor(events[k], path)
  }

  /** A file that is out and cannot return stays out until a caller asks for it. */
  lemma {:induction false} UnwatchedUntilWatched(o: Oracle, maxHistory: int, before: seq<Event>, later: seq<Event>,
                                                 path: string)
    requires AllOk(before + later) && !IsOldKey(path) && NeverAskedFor(later, path)
    requires var st := Run(o, maxHistory, before); path !in st.watched && !MayReturn(o, st, path)
    ensures var now := Run(o, maxHistory, before + later); path !in now.watched && !MayReturn(o, now, path)
    decreases |later|
  {
    hide MayReturn, Step;
    if later == [] {
      assert before + later == before;
    } else {
      var n := |later| - 1;
      var mid := before + later[..n];
      assert before + later == mid + [later[n]];
      OkSplits(mid, later[n]);
      UnwatchedUntilWatched(o, maxHistory, before, later[..n], path);
      RunConsistent(o, maxHistory, mid);
      RunAppend(o, maxHistory, mid, later[n]);
      StaysUnwatched(o, maxHistory, Run(o, maxHistory, mid), later[n], path);
    }
  }

  lemma RunFinished(o: Oracle, maxHistory: int, events: seq<Event>)
    ensures Run(o, maxHistory, events + [Record, Commit])
         == Step(o, maxHistory, Step(o, maxHistory, Run(o, maxHistory, events), Record), Commit)
  {
    hide Step;
    assert events + [Record, Commit] == events + [Record] + [Commit];
    RunAppend(o, maxHistory, events, Record);
    RunAppend(o, maxHistory, events + [Record], Commit);
  }

  /** Recording and committing finishes whatever is pending, with its path watched. */
  lemma FinishDoes(o: Oracle, maxHistory: int, st: State)
    ensures var now := Step(o, maxHistory, Step(o, maxHistory, st, Record), Commit);
            && now.pending == Idle && now.snapshot == st.snapshot
            && (st.pending != Idle ==> st.pending.path in now.watched)
  {
    hide Append, FindRollback;
  }

  /** What can return does, without being asked for. */
  lemma ComesBack(o: Oracle, maxHistory: int, before: seq<Event>, path: string) returns (later: seq<Event>)
    requires !IsOldKey(path) && MayReturn(o, Run(o, maxHistory, before), path)
    ensures AllOk(later) && NeverAskedFor(later, path) && path in Run(o, maxHistory, before + later).watched
  {
    hide Run, Step, IsOldKey;
    var st := Run(o, maxHistory, before);
    var finished := before + [Record, Commit];
    RunFinished(o, maxHistory, before);
    FinishDoes(o, maxHistory, st);
    if path in st.queued {
      later := [Watch(path, "")];
      RunAppend(o, maxHistory, before, Watch(path, ""));
      TaskWatches(o, maxHistory, st, path);
    } else if PendingPath(st.pending) == Some(path) {
      later := [Record, Commit];
    } else {
      var text :| Takes(o, path, st.snapshot[path], text);
      var scan := Scan(path, Content(text), None);
      var scanned := finished + [scan];
      RunAppend(o, maxHistory, finished, scan);
      ScanTakes(o, maxHistory, Run(o, maxHistory, finished), path, text);
      RunFinished(o, maxHistory, scanned);
      FinishDoes(o, maxHistory, Run(o, maxHistory, scanned));
      later := [Record, Commit, scan, Record, Commit];
      assert before + later == scanned + [Record, Commit];
    }
  }

  lemma TaskWatches(o: Oracle, maxHistory: int, st: State, path: string)
    requires path in st.queued
    ensures path in Step(o, maxHistory, st, Watch(path, "")).watched
  {
  }

  lemma ScanTakes(o: Oracle, maxHistory: int, st: State, path: string, text: string)
    requires st.pending == Idle && path in st.snapshot && !IsOldKey(path) && Takes(o, path, st.snapshot[path], text)
    ensures PendingPath(Step(o, maxHistory, st, Scan(path, Content(text), None)).pending) == Some(path)
  {
    hide IsOldKey, OldValue, Append, FindRollback;
  }

  /** Unwatching lasts through every continuation in which no caller asks for the file. */
  ghost predicate UnwatchLasts(o: Oracle, maxHistory: int, before: seq<Event>, path: string) {
    forall later :: AllOk(later) && NeverAskedFor(later, path) ==>
      path !in Run(o, maxHistory, before + [Unwatch(path)] + later).watched
  }

  /** Unwatching a file lasts exactly when no task that watches it is queued, no change of it is being applied, and the
      round in progress, if any, has visited it or could take over no content for it. */
  lemma UnwatchLastsIff(o: Oracle, maxHistory: int, before: seq<Event>, path: string)
    requires AllOk(before) && !IsOldKey(path)
    ensures UnwatchLasts(o, maxHistory, before, path) <==> !MayReturn(o, Run(o, maxHistory, before), path)
  {
    hide Run, MayReturn, IsOldKey;
    var out := before + [Unwatch(path)];
    RunAppend(o, maxHistory, before, Unwatch(path));
    UnwatchTakesOut(o, maxHistory, Run(o, maxHistory, before), path);
    if MayReturn(o, Run(o, maxHistory, before), path) {
      var later := ComesBack(o, maxHistory, out, path);
      assert !UnwatchLasts(o, maxHistory, before, path);
    } else {
      forall later | AllOk(later) && NeverAskedFor(later, path)
        ensures path !in Run(o, maxHistory, out + later).watched
      {
        UnwatchedUntilWatched(o, maxHistory, out, later, path);
      }
    }
  }

  lemma UnwatchTakesOut(o: Oracle, maxHistory: int, st: State, path: string)
    ensures var now := Step(o, maxHistory, st, Unwatch(path));
            path !in now.watched && (MayReturn(o, now, path) <==> MayReturn(o, st, path))
  {
  }

  /** All three ways of failing are reached: unwatching a file before its turn in a round, while its change is applied,
      and right after asking for it. */
  lemma UnwatchUndone(o: Oracle, maxHistory: int, path: string, old_: string, new_: string)
    requires !IsOldKey(path) && o.parse(path, new_).Ok? && o.hash(new_) != o.hash(old_)
    ensures !UnwatchLasts(o, maxHistory, InRound(path, old_), path)
    ensures !UnwatchLasts(o, maxHistory, InRound(path, old_) + [Scan(path, Content(new_), None)], path)
    ensures !UnwatchLasts(o, maxHistory, [Start, Request(path)], path)
  {
    hide UnwatchLasts, MayReturn, IsOldKey, Run;
    var inRound := InRound(path, old_);
    var scan := Scan(path, Content(new_), None);
    RoundBegun(o, maxHistory, path, old_);
    TakesNext(o, Run(o, maxHistory, inRound), path, new_);
    UnwatchLastsIff(o, maxHistory, inRound, path);
    RunAppend(o, maxHistory, inRound, scan);
    ScanTakes(o, maxHistory, Run(o, maxHistory, inRound), path, new_);
    ReturnsPending(o, Run(o, maxHistory, inRound + [scan]), path);
    UnwatchLastsIff(o, maxHistory, inRound + [scan], path);
    JustAsked(o, maxHistory, path);
    UnwatchLastsIff(o, maxHistory, [Start, Request(path)], path);
  }

  /** A round has begun with the file watched. */
  function InRound(path: string, text: string): seq<Event> {
    [WatchAtStart(path, text)] + [Start] + [BeginRound]
  }

  lemma RunFirst(o: Oracle, maxHistory: int, e: Event)
    ensures Run(o, maxHistory, [e]) == Step(o, maxHistory, INITIAL, e)
  {
    hide Step;
    assert [] + [e] == [e];
    RunAppend(o, maxHistory, [], e);
  }

  lemma RoundBegun(o: Oracle, maxHistory: int, path: string, text: string)
    requires !IsOldKey(path)
    ensures var st := Run(o, maxHistory, InRound(path, text));
            st.pending == Idle && path in st.snapshot && st.snapshot[path] == o.hash(text)
  {
    hide Step, IsOldKey, Run;
    var first := [WatchAtStart(path, text)];
    RunFirst(o, maxHistory, WatchAtStart(path, text));
    RunAppend(o, maxHistory, first, Start);
    RunAppend(o, maxHistory, first + [Start], BeginRound);
    BeginsWith(o, maxHistory, path, text);
  }

  lemma BeginsWith(o: Oracle, maxHistory: int, path: string, text: string)
    requires !IsOldKey(path)
    ensures var st := Step(o, maxHistory, Step(o, maxHistory,
                        Step(o, maxHistory, INITIAL, WatchAtStart(path, text)), Start), BeginRound);
            st.pending == Idle && path in st.snapshot && st.snapshot[path] == o.hash(text)
  {
    hide IsOldKey, OldKey, Append, FindRollback, Baseline;
    OldKeyInjective(path, path);
    assert path != OldKey(path);
  }

  lemma JustAsked(o: Oracle, maxHistory: int, path: string)
    ensures MayReturn(o, Run(o, maxHistory, [Start, Request(path)]), path)
  {
    hide Run;
    assert [Start] + [Request(path)] == [Start, Request(path)];
    RunFirst(o, maxHistory, Start);
    RunAppend(o, maxHistory, [Start], Request(path));
  }

  lemma TakesNext(o: Oracle, st: State, path: string, text: string)
    requires path in st.snapshot && Takes(o, path, st.snapshot[path], text)
    ensures MayReturn(o, st, path)
  {
  }

  lemma ReturnsPending(o: Oracle, st: State, path: string)
    requires PendingPath(st.pending) == Some(path)
    ensures MayReturn(o, st, path)
  {
  }

  // ---- Rounds, stopping and watch tasks ----

  /** A round that is given up is made up for: the next one has every watched file before it again. */
  lemma NextRoundVisitsAll(o: Oracle, maxHistory: int, st: State, path: string)
    requires st.running && st.pending == Idle
    ensures var now := Step(o, maxHistory, Step(o, maxHistory, st, EndRound), BeginRound);
            && now.watched == st.watched
            && (path in now.snapshot <==> path in st.watched && st.watched[path].Hash?)
            && (path in now.snapshot ==> Hash(now.snapshot[path]) == st.watched[path])
  {
    hide Append, FindRollback;
  }

  /** Nothing is being watched, scanned or applied. */
  predicate AtRest(st: State) {
    !st.running && st.pending == Idle && st.snapshot == map[] && st.queued == multiset{}
  }

  /** Files may have been unwatched, and nothing else has happened to them. */
  predicate OnlyLost(before: map<string, Cell>, now: map<string, Cell>) {
    forall key :: key in now ==> key in before && now[key] == before[key]
  }

  lemma RestsOn(o: Oracle, maxHistory: int, st: State, e: Event)
    requires AtRest(st) && !e.Start? && !e.WatchAtStart?
    ensures var now := Step(o, maxHistory, st, e);
            AtRest(now) && OnlyLost(st.watched, now.watched) && now.failures == st.failures
  {
    hide Append, FindRollback, OldKey;
  }

  lemma Rests(o: Oracle, maxHistory: int, st: State)
    ensures var now := Step(o, maxHistory, st, Event.Stop);
            AtRest(now) && now.watched == st.watched && now.failures == st.failures
  {
    hide Append, FindRollback;
  }

  /** After a stop, and until the next start, no file is watched, scanned or applied, whatever had been under way. */
  lemma {:induction false} NothingAfterStop(o: Oracle, maxHistory: int, before: seq<Event>, later: seq<Event>)
    requires forall k :: 0 <= k < |later| ==> !later[k].Start? && !later[k].WatchAtStart?
    ensures var st, now := Run(o, maxHistory, before), Run(o, maxHistory, before + [Event.Stop] + later);
            AtRest(now) && OnlyLost(st.watched, now.watched) && now.failures == st.failures
    decreases |later|
  {
    hide Run, Step, AtRest;
    var stopped := before + [Event.Stop];
    if later == [] {
      assert stopped + later == stopped;
      RunAppend(o, maxHistory, before, Event.Stop);
      Rests(o, maxHistory, Run(o, maxHistory, before));
    } else {
      var n := |later| - 1;
      NothingAfterStop(o, maxHistory, before, later[..n]);
      assert stopped + later == stopped + later[..n] + [later[n]];
      RunAppend(o, maxHistory, stopped + later[..n], later[n]);
      RestsOn(o, maxHistory, Run(o, maxHistory, stopped + later[..n]), later[n]);
    }
  }

  /** A queued task for the file runs. */
  predicate Answers(st: State, e: Event, path: string) {
    (e.Watch? || e.Drop?) && e.path == path && path in st.queued
  }

  /** The places at which a task for the file ran, and those at which it was asked for. */
  ghost function Answered(o: Oracle, maxHistory: int, events: seq<Event>, path: string): set<nat> {
    set k | 0 <= k < |events| && Answers(Run(o, maxHistory, events[..k]), events[k], path)
  }

  function Asked(events: seq<Event>, path: string): set<nat> {
    set k | 0 <= k < |events| && events[k] == Request(path)
  }

  lemma StepQueued(o: Oracle, maxHistory: int, st: State, e: Event, path: string)
    ensures Step(o, maxHistory, st, e).queued[path] + (if Answers(st, e, path) then 1 else 0)
         <= st.queued[path] + if e == Request(path) then 1 else 0
  {
    hide Append, FindRollback, ScanOutcome, Put;
  }

  /** A file is asked for at least as often as its tasks have run and are still queued: no request is answered twice. */
  lemma {:induction false} AnsweredOnce(o: Oracle, maxHistory: int, events: seq<Event>, path: string)
    ensures |Answered(o, maxHistory, events, path)| + Run(o, maxHistory, events).queued[path] <= |Asked(events, path)|
    decreases |events|
  {
    hide Step, Answers;
    if events == [] {
      assert Answered(o, maxHistory, events, path) == {};
    } else {
      var n := |events| - 1;
      var init, e := events[..n], events[n];
      var st := Run(o, maxHistory, init);
      AnsweredOnce(o, maxHistory, init, path);
      StepQueued(o, maxHistory, st, e, path);
      NextAnswered(o, maxHistory, init, e, path);
      assert events == init + [e];
    }
  }

  lemma NextAnswered(o: Oracle, maxHistory: int, init: seq<Event>, e: Event, path: string)
    ensures var st, n := Run(o, maxHistory, init), |init|;
            && Answered(o, maxHistory, init + [e], path)
            == Answered(o, maxHistory, init, path) + (if Answers(st, e, path) then {n} else {})
            && Asked(init + [e], path) == Asked(init, path) + (if e == Request(path) then {n} else {})
            && n !in Answered(o, maxHistory, init, path) && n !in Asked(init, path)
  {
    hide Run, Answers;
    var events := init + [e];
    assert events[..|init|] == init;
    assert forall k :: 0 <= k < |init| ==> events[..k] == init[..k] && events[k] == init[k];
  }

  // ---- What a visit comes to ----

  /** The content of the file has changed since the round began, and does not parse or cannot be taken over. */
  predicate ContentFails(o: Oracle, path: string, h: int, text: string, reload: Option<Failure>, f: Failure) {
    o.hash(text) != h && if o.parse(path, text).Ok? then reload == Some(f) else o.parse(path, text) == Error(f)
  }

  /** A visit counts a failure exactly when the file cannot be read or its new content fails, makes up a change exactly
      for a new content that does not, and otherwise leaves all but the round as it was. */
  lemma VisitCounts(o: Oracle, maxHistory: int, st: State, path: string, read: Read, reload: Option<Failure>,
                    f: Failure)
    requires st.pending == Idle && path in st.snapshot && !IsOldKey(path)
    ensures var h, now := st.snapshot[path], Step(o, maxHistory, st, Scan(path, read, reload));
            var visited := st.(snapshot := st.snapshot - {path});
            && (now == Fail(visited, f) <==>
                  read == Unreadable(f) || (read.Content? && ContentFails(o, path, h, read.text, reload, f)))
            && (now.pending.Loaded? <==>
                  read.Content? && o.hash(read.text) != h && o.parse(path, read.text).Ok? && reload == None)
            && (read.Missing? || (read.Content? && o.hash(read.text) == h) ==> now == visited)
  {
    hide OldValue, Append, FindRollback, IsOldKey;
  }

  // ---- Bounded history ----

  /** All changes ever appended. */
  function Log(o: Oracle, maxHistory: int, events: seq<Event>): seq<Change> {
    if events == [] then []
    else
      var init, e := events[..|events| - 1], events[|events| - 1];
      Log(o, maxHistory, init) + match Appends(Run(o, maxHistory, init), e) case None => [] case Some(c) => [c]
  }

  lemma AppendIsLast(log: seq<Change>, c: Change, n: nat)
    requires n > 0
    ensures Append(Last(log, n), c, n) == Last(log + [c], n)
  {
  }

  lemma HistoryGrows(o: Oracle, maxHistory: int, st: State, e: Event)
    ensures Step(o, maxHistory, st, e).history
         == match Appends(st, e) case None => st.history case Some(c) => Append(st.history, c, maxHistory)
  {
  }

  /** With a positive limit the history is the recent end of the log. */
  lemma {:induction false} HistoryIsRecent(o: Oracle, maxHistory: int, events: seq<Event>)
    requires maxHistory >= 1
    ensures Run(o, maxHistory, events).history == Last(Log(o, maxHistory, events), maxHistory)
    decreases |events|
  {
    hide Append, Last, Step;
    if events == [] {
      NothingLogged(maxHistory);
    } else {
      var init, e := events[..|events| - 1], events[|events| - 1];
      var st := Run(o, maxHistory, init);
      var log := Log(o, maxHistory, init);
      HistoryIsRecent(o, maxHistory, init);
      HistoryGrows(o, maxHistory, st, e);
      match Appends(st, e)
      case None => assert log + [] == log;
      case Some(c) => AppendIsLast(log, c, maxHistory);
    }
  }

  lemma NothingLogged(n: nat)
    ensures Last<Change>([], n) == []
  {
  }

  /** With a limit of zero nothing is ever dropped. */
  lemma {:induction false} ZeroLimitKeepsAll(o: Oracle, events: seq<Event>)
    ensures Run(o, 0, events).history == Log(o, 0, events)
    decreases |events|
  {
    if events != [] {
      var init, e := events[..|events| - 1], events[|events| - 1];
      ZeroLimitKeepsAll(o, init);
      HistoryGrows(o, 0, Run(o, 0, init), e);
    }
  }

  /** The history stays within its limit on every run exactly when the limit is positive. */
  lemma HistoryBoundedIff(o: Oracle, maxHistory: int)
    ensures (forall events :: |Run(o, maxHistory, events).history| <= maxHistory) <==> maxHistory >= 1
  {
    if maxHistory >= 1 {
      forall events ensures |Run(o, maxHistory, events).history| <= maxHistory {
        HistoryIsRecent(o, maxHistory, events);
      }
    } else if maxHistory == 0 {
      var once := [Manual("", "", Null)];
      ZeroLimitKeepsAll(o, once);
      assert once[..0] == [];
      assert Log(o, 0, once) == [] + [Change("", "", Null, Null, "manual")];
      assert |Run(o, 0, once).history| > 0;
    } else {
      assert |Run(o, maxHistory, []).history| > maxHistory;
    }
  }

  // ---- Rollback ----

  /** Rollback finds the newest entry of that id that has an old value, and fails only when there is none. */
  lemma {:induction false} FindsNewest(history: seq<Change>, configType: string, configId: string)
    ensures match FindRollback(history, configType, configId)
            case None => forall k :: 0 <= k < |history| ==> !Restorable(history[k], configType, configId)
            case Some(c) => exists k :: NewestAt(history, k, configType, configId) && history[k] == c
    decreases |history|
  {
    hide Restorable;
    if history != [] {
      var n := |history| - 1;
      var found := FindRollback(history[..n], configType, configId);
      FindsNewest(history[..n], configType, configId);
      if Restorable(history[n], configType, configId) {
        assert NewestAt(history, n, configType, configId);
      } else if found.Some? {
        var k :| NewestAt(history[..n], k, configType, configId) && history[..n][k] == found.value;
        assert NewestAt(history, k, configType, configId);
      }
    }
  }

  /** The `k`-th change is restorable and none after it is. */
  predicate NewestAt(history: seq<Change>, k: int, configType: string, configId: string) {
    && 0 <= k < |history| && Restorable(history[k], configType, configId)
    && forall j :: k < j < |history| ==> !Restorable(history[j], configType, configId)
  }

  lemma AppendKeepsLast(history: seq<Change>, c: Change, maxHistory: nat)
    ensures var h := Append(history, c, maxHistory); h != [] && h[|h| - 1] == c
  {
  }

  /** Rolling back twice brings the newest value back exactly when there was one, trimmed history or not. */
  lemma RollbackTwiceIff(o: Oracle, maxHistory: nat, st: State, configType: string, configId: string)
    requires FindRollback(st.history, configType, configId).Some?
    ensures var c := FindRollback(st.history, configType, configId).value;
            var once := Step(o, maxHistory, st, Rollback(configType, configId));
            && Appends(st, Rollback(configType, configId)) == Some(Swapped(c))
            && (c.newValue != Null <==>
                  var again := Appends(once, Rollback(configType, configId));
                  again.Some? && again.value.newValue == c.newValue)
  {
    var c := FindRollback(st.history, configType, configId).value;
    var once := Step(o, maxHistory, st, Rollback(configType, configId));
    FindsNewest(st.history, configType, configId);
    FindsNewest(once.history, configType, configId);
    AppendKeepsLast(st.history, Swapped(c), maxHistory);
  }

  /** With `history[k]` the newest change of its id, rollback undoes that change exactly when it has an old value; a
      manual reload has none. */
  lemma RollbackIsOneStepIff(history: seq<Change>, k: nat)
    requires k < |history|
    requires forall j :: k < j < |history| ==>
      history[j].configType != history[k].configType || history[j].configId != history[k].configId
    ensures FindRollback(history, history[k].configType, history[k].configId) == Some(history[k])
       <==> history[k].oldValue != Null
  {
    FindsNewest(history, history[k].configType, history[k].configId);
  }

  // ---- Rolling back a scanned change ----

  /** The event leaves a change that was made up, and is still to be recorded, alone. */
  predicate LeavesLoaded(e: Event) {
    !e.Record? && !e.Stop?
  }

  lemma {:induction false} StaysLoaded(o: Oracle, maxHistory: int, before: seq<Event>, mid: seq<Event>)
    requires Run(o, maxHistory, before).pending.Loaded?
    requires forall k :: 0 <= k < |mid| ==> LeavesLoaded(mid[k])
    ensures Run(o, maxHistory, before + mid).pending == Run(o, maxHistory, before).pending
    decreases |mid|
  {
    hide Run;
    if mid == [] {
      assert before + mid == before;
    } else {
      var n := |mid| - 1;
      StaysLoaded(o, maxHistory, before, mid[..n]);
      assert before + mid == before + mid[..n] + [mid[n]];
      RunAppend(o, maxHistory, before + mid[..n], mid[n]);
      StepKeepsLoaded(o, maxHistory, Run(o, maxHistory, before + mid[..n]), mid[n]);
    }
  }

  lemma StepKeepsLoaded(o: Oracle, maxHistory: int, st: State, e: Event)
    requires st.pending.Loaded? && LeavesLoaded(e)
    ensures Step(o, maxHistory, st, e).pending == st.pending
  {
    hide Append, FindRollback, OldValue;
  }

  /** The change that a run appends at its last event. */
  lemma LogAppend(o: Oracle, maxHistory: int, events: seq<Event>, e: Event)
    ensures Log(o, maxHistory, events + [e]) == Log(o, maxHistory, events)
         + match Appends(Run(o, maxHistory, events), e) case None => [] case Some(c) => [c]
  {
    hide Run, Appends;
    assert (events + [e])[..|events|] == events;
  }

  predicate SameId(c: Change, configType: string, configId: string) {
    c.configType == configType && c.configId == configId
  }

  predicate NoneOfId(cs: seq<Change>, configType: string, configId: string) {
    forall k :: 0 <= k < |cs| ==> !SameId(cs[k], configType, configId)
  }

  /** Changes of other ids do not matter to a rollback. */
  lemma {:induction false} OthersSkipped(h: seq<Change>, others: seq<Change>, configType: string, configId: string)
    requires NoneOfId(others, configType, configId)
    ensures FindRollback(h + others, configType, configId) == FindRollback(h, configType, configId)
    decreases |others|
  {
    if others == [] {
      assert h + others == h;
    } else {
      var n := |others| - 1;
      assert (h + others)[..|h| + n] == h + others[..n];
      OthersSkipped(h, others[..n], configType, configId);
    }
  }

  lemma LastSplits(log: seq<Change>, c: Change, others: seq<Change>, n: nat)
    requires |others| < n
    ensures Last(log + [c] + others, n) == Last(log, n - 1 - |others|) + [c] + others
  {
  }

  /** Behind others, the newest change of an id is the one found, unless it has no old value. */
  lemma NewestOfId(h: seq<Change>, c: Change, others: seq<Change>)
    requires NoneOfId(others, c.configType, c.configId)
    ensures FindRollback(h + [c] + others, c.configType, c.configId)
         == if c.oldValue != Null then Some(c) else FindRollback(h, c.configType, c.configId)
  {
    OthersSkipped(h + [c], others, c.configType, c.configId);
    assert (h + [c])[..|h|] == h;
  }

  /** Scanned, left pending through `mid`, then recorded. */
  function Recording(before: seq<Event>, path: string, text: string, mid: seq<Event>): seq<Event> {
    before + [Scan(path, Content(text), None)] + mid + [Record]
  }

  lemma RecordingLogs(o: Oracle, maxHistory: int, before: seq<Event>, path: string, text: string, mid: seq<Event>)
    requires ScanOutcome(o, Run(o, maxHistory, before), path, Content(text), None).Applies?
    requires forall k :: 0 <= k < |mid| ==> LeavesLoaded(mid[k])
    ensures Log(o, maxHistory, Recording(before, path, text, mid))
         == Log(o, maxHistory, before + [Scan(path, Content(text), None)] + mid)
          + [ScanOutcome(o, Run(o, maxHistory, before), path, Content(text), None).change]
  {
    hide Run, Step, ScanOutcome, Log;
    var scan := Scan(path, Content(text), None);
    RunAppend(o, maxHistory, before, scan);
    ScanLoads(o, maxHistory, Run(o, maxHistory, before), path, text);
    StaysLoaded(o, maxHistory, before + [scan], mid);
    LogAppend(o, maxHistory, before + [scan] + mid, Record);
  }

  lemma ScanLoads(o: Oracle, maxHistory: int, st: State, path: string, text: string)
    requires ScanOutcome(o, st, path, Content(text), None).Applies?
    ensures var now := Step(o, maxHistory, st, Scan(path, Content(text), None)).pending;
            now.Loaded? && now.change == ScanOutcome(o, st, path, Content(text), None).change
  {
    hide OldValue, Append, FindRollback;
  }

  /** What the scan of a content makes up for a file whose value in effect is `v`. */
  lemma ScanMakesUp(o: Oracle, maxHistory: int, before: seq<Event>, path: string, text: string, v: Value)
    requires AllOk(before) && InEffect(o, maxHistory, before, path) == Some(v)
    requires ScanOutcome(o, Run(o, maxHistory, before), path, Content(text), None).Applies?
    ensures o.parse(path, text).Ok?
    ensures var c := ScanOutcome(o, Run(o, maxHistory, before), path, Content(text), None).change;
            && SameId(c, o.kind(path), path)
            && c.oldValue == v && c.newValue == o.parse(path, text).value && c.changedBy == "system"
  {
    hide Run, InEffect;
    ScanRecordsChain(o, maxHistory, before, path, Content(text), None);
  }

  /** A scanned change is recorded under the type and path of its file, and while no other change of the file comes and
      the limit is not reached, rollback appends its inverse exactly when there was a value in effect before the scan;
      otherwise it goes on to the changes before it. */
  lemma RollbackUndoesScan(o: Oracle, maxHistory: int, before: seq<Event>, path: string, text: string, mid: seq<Event>,
                           later: seq<Event>, v: Value, others: seq<Change>)
    requires maxHistory >= 1 && AllOk(before) && InEffect(o, maxHistory, before, path) == Some(v)
    requires ScanOutcome(o, Run(o, maxHistory, before), path, Content(text), None).Applies?
    requires forall k :: 0 <= k < |mid| ==> LeavesLoaded(mid[k])
    requires var recorded := Recording(before, path, text, mid);
             Log(o, maxHistory, recorded + later) == Log(o, maxHistory, recorded) + others
    requires |others| < maxHistory && NoneOfId(others, o.kind(path), path)
    ensures var rollback := Event.Rollback(o.kind(path), path);
            var now := Appends(Run(o, maxHistory, Recording(before, path, text, mid) + later), rollback);
            && o.parse(path, text).Ok?
            && var undo := Change(o.kind(path), path, o.parse(path, text).value, v, "rollback");
            if v != Null then now == Some(undo)
            else
              var older := Log(o, maxHistory, before + [Scan(path, Content(text), None)] + mid);
              var found := FindRollback(Last(older, maxHistory - 1 - |others|), o.kind(path), path);
              now == if found.None? then None else Some(Swapped(found.value))
  {
    hide Run, Step, ScanOutcome, Log, InEffect, FindRollback, Last, Recording;
    var c := ScanOutcome(o, Run(o, maxHistory, before), path, Content(text), None).change;
    var older := Log(o, maxHistory, before + [Scan(path, Content(text), None)] + mid);
    var events := Recording(before, path, text, mid) + later;
    ScanMakesUp(o, maxHistory, before, path, text, v);
    RecordingLogs(o, maxHistory, before, path, text, mid);
    HistoryIsRecent(o, maxHistory, events);
    LastSplits(older, c, others, maxHistory);
    NewestOfId(Last(older, maxHistory - 1 - |others|), c, others);
  }

  /** A manual reload enters the history as a change without old value, and rollback goes past it to the changes of
      that id before it. */
  lemma ManualIsSkipped(o: Oracle, maxHistory: int, events: seq<Event>, configType: string, configId: string,
                        value: Value)
    requires maxHistory >= 1
    ensures var h := Run(o, maxHistory, events + [Manual(configType, configId, value)]).history;
            var older := Last(Log(o, maxHistory, events), maxHistory - 1);
            && h == older + [Change(configType, configId, Null, value, "manual")]
            && FindRollback(h, configType, configId) == FindRollback(older, configType, configId)
  {
    hide Run, Log, FindRollback, Last;
    var c := Change(configType, configId, Null, value, "manual");
    var older := Last(Log(o, maxHistory, events), maxHistory - 1);
    HistoryIsRecent(o, maxHistory, events + [Manual(configType, configId, value)]);
    LogAppend(o, maxHistory, events, Manual(configType, configId, value));
    LastSplits(Log(o, maxHistory, events), c, [], maxHistory);
    assert Log(o, maxHistory, events) + [c] + [] == Log(o, maxHistory, events) + [c];
    assert older + [c] + [] == older + [c];
    NewestOfId(older, c, []);
  }

  // ---- Failure counting, log de-duplication and back-off ----

  function FailureOf(o: Oracle, st: State, e: Event): Option<Failure> {
    if e.Scan? then
      match ScanOutcome(o, st, e.path, e.read, e.reload)
      case Fails(failure) => Some(failure)
      case _ => None
    else None
  }

  predicate AppliesChange(st: State, e: Event) {
    e.Commit? && st.pending.Recorded?
  }

  /** The failures since the last change was applied. */
  function FailuresSince(o: Oracle, maxHistory: int, events: seq<Event>): seq<Failure> {
    if events == [] then []
    else
      var st, e := Run(o, maxHistory, events[..|events| - 1]), events[|events| - 1];
      var before := FailuresSince(o, maxHistory, events[..|events| - 1]);
      if AppliesChange(st, e) then []
      else match FailureOf(o, st, e) case None => before case Some(f) => before + [f]
  }

  /** What an event makes of the loud log since the last applied change: a failure is loud unless it repeats the one
      before. */
  function NextLogged(o: Oracle, st: State, e: Event, before: seq<Failure>): seq<Failure> {
    if AppliesChange(st, e) then []
    else
      match FailureOf(o, st, e)
      case None => before
      case Some(f) => if st.lastSignature == Some(f) then before else before + [f]
  }

  /** The failures since the last applied change that went to the log above debug level. */
  function LoggedSince(o: Oracle, maxHistory: int, events: seq<Event>): seq<Failure> {
    if events == [] then []
    else
      var init, e := events[..|events| - 1], events[|events| - 1];
      NextLogged(o, Run(o, maxHistory, init), e, LoggedSince(o, maxHistory, init))
  }

  lemma LoggedAppend(o: Oracle, maxHistory: int, events: seq<Event>, e: Event)
    ensures LoggedSince(o, maxHistory, events + [e])
         == NextLogged(o, Run(o, maxHistory, events), e, LoggedSince(o, maxHistory, events))
  {
    hide NextLogged, Run;
    assert (events + [e])[..|events|] == events;
  }

  lemma OkExtends(events: seq<Event>, e: Event)
    requires AllOk(events) && EventOk(e)
    ensures AllOk(events + [e])
  {
  }

  /** A sequence with adjacent repeats removed. */
  function Squeezed(fs: seq<Failure>): seq<Failure> {
    if fs == [] then []
    else
      var n := |fs| - 1;
      if n > 0 && fs[n - 1] == fs[n] then Squeezed(fs[..n]) else Squeezed(fs[..n]) + [fs[n]]
  }

  lemma StepFailures(o: Oracle, maxHistory: int, st: State, e: Event)
    ensures var now := Step(o, maxHistory, st, e);
            if AppliesChange(st, e) then now.failures == 0 && now.lastSignature == None
            else match FailureOf(o, st, e)
                 case None => now.failures == st.failures && now.lastSignature == st.lastSignature
                 case Some(f) => now.failures == st.failures + 1 && now.lastSignature == Some(f)
  {
  }

  /** The counter counts the failures since the last applied change, and the signature is that of the last. */
  lemma {:induction false} CountsFailures(o: Oracle, maxHistory: int, events: seq<Event>)
    ensures var st, fs := Run(o, maxHistory, events), FailuresSince(o, maxHistory, events);
            st.failures == |fs| && st.lastSignature == if fs == [] then None else Some(fs[|fs| - 1])
    decreases |events|
  {
    hide Step;
    if events == [] {
    } else {
      var init, e := events[..|events| - 1], events[|events| - 1];
      CountsFailures(o, maxHistory, init);
      StepFailures(o, maxHistory, Run(o, maxHistory, init), e);
    }
  }

  lemma SqueezeMore(fs: seq<Failure>, f: Failure)
    ensures Squeezed(fs + [f]) == if fs != [] && fs[|fs| - 1] == f then Squeezed(fs) else Squeezed(fs) + [f]
  {
    assert (fs + [f])[..|fs|] == fs;
  }

  /** Between two applied changes the high-level log is the failure sequence with adjacent repeats removed. */
  lemma {:induction false} LogIsSqueezed(o: Oracle, maxHistory: int, events: seq<Event>)
    ensures LoggedSince(o, maxHistory, events) == Squeezed(FailuresSince(o, maxHistory, events))
    decreases |events|
  {
    hide Step, Run, FailureOf;
    if events != [] {
      var init, e := events[..|events| - 1], events[|events| - 1];
      LogIsSqueezed(o, maxHistory, init);
      CountsFailures(o, maxHistory, init);
      var f := FailureOf(o, Run(o, maxHistory, init), e);
      if f.Some? {
        SqueezeMore(FailuresSince(o, maxHistory, init), f.value);
      }
    }
  }

  const MAX_BACKOFF := 60.0

  function Pow2(n: nat): (r: real)
    ensures r >= 1.0
  {
    if n == 0 then 1.0 else 2.0 * Pow2(n - 1)
  }

  /** Seconds until the next round. */
  function Backoff(interval: real, failures: nat): real {
    if failures == 0 then interval
    else if interval * Pow2(failures) < MAX_BACKOFF then interval * Pow2(failures)
    else MAX_BACKOFF
  }

  /** The waiting time starts at the interval and doubles with each further failure, up to a minute. */
  lemma BackoffDoubles(interval: real, failures: nat)
    ensures Backoff(interval, 0) == interval
    ensures var next := 2.0 * Backoff(interval, failures);
            Backoff(interval, failures + 1) == if next < 60.0 then next else 60.0
  {
    hide Pow2;
    PowNext(failures);
    var p := interval * Pow2(failures);
    assert interval * Pow2(failures + 1) == 2.0 * p;
    assert failures == 0 ==> p == interval;
  }

  lemma PowNext(n: nat)
    ensures Pow2(n + 1) == 2.0 * Pow2(n) && Pow2(0) == 1.0
  {
  }

  lemma {:induction false} ScaledGrows(interval: real, m: nat, n: nat)
    requires interval >= 0.0 && m <= n
    ensures interval * Pow2(m) <= interval * Pow2(n)
    decreases n
  {
    if m < n {
      ScaledGrows(interval, m, n - 1);
      assert interval * Pow2(n) == 2.0 * (interval * Pow2(n - 1));
      ScaledPositive(interval, n - 1);
    }
  }

  lemma ScaledPositive(interval: real, n: nat)
    requires interval >= 0.0
    ensures interval * Pow2(n) >= interval
  {
    ProductAtLeast(interval, Pow2(n));
  }

  lemma ProductAtLeast(a: real, b: real)
    requires a >= 0.0 && b >= 1.0
    ensures a * b >= a
  {
  }

  lemma BackoffGrows(interval: real, m: nat, n: nat)
    requires 0.0 <= interval <= MAX_BACKOFF && m <= n
    ensures Backoff(interval, m) <= Backoff(interval, n)
  {
    hide Pow2;
    ScaledGrows(interval, m, n);
    ScaledPositive(interval, n);
    CappedGrows(interval, m, interval * Pow2(m), n, interval * Pow2(n));
  }

  lemma CappedGrows(interval: real, m: nat, a: real, n: nat, b: real)
    requires interval <= MAX_BACKOFF && m <= n && interval <= b && a <= b
    requires a == interval * Pow2(m) && b == interval * Pow2(n)
    ensures Backoff(interval, m) <= Backoff(interval, n)
  {
    hide Pow2;
  }

  /** The waiting time never falls as failures mount exactly when the interval is between nothing and the cap. */
  lemma BackoffMonotoneIff(interval: real)
    ensures (forall m, n :: 0 <= m <= n ==> Backoff(interval, m) <= Backoff(interval, n))
       <==> 0.0 <= interval <= MAX_BACKOFF
  {
    if 0.0 <= interval <= MAX_BACKOFF {
      forall m: nat, n: nat | m <= n ensures Backoff(interval, m) <= Backoff(interval, n) {
        BackoffGrows(interval, m, n);
      }
    } else {
      assert Pow2(1) == 2.0 * Pow2(0);
      assert Backoff(interval, 1) < Backoff(interval, 0);
    }
  }

  /** It then stays between the interval and the cap. */
  lemma BackoffWithin(interval: real, failures: nat)
    requires 0.0 <= interval <= MAX_BACKOFF
    ensures interval <= Backoff(interval, failures) <= MAX_BACKOFF
  {
    hide Pow2;
    BackoffGrows(interval, 0, failures);
  }
}
