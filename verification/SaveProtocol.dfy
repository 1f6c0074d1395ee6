/** Persisting the configuration: snapshot, temporary file, atomic replacement, publication, in any number of
    saves at once, with a failure or a crash between any two steps. */
module SaveProtocol {
  import opened Common
  import opened ConfigTree

  /** Reading a file gives a value, raises an exception that loading catches (of the system or of YAML), or raises
      another that escapes, such as that of text that is no UTF-8. */
  datatype Reading = Parsed(value: Value) | Caught | Escapes

  /** Writing a configuration as text, and reading it back. */
  datatype Format = Format(dump: Value -> string, parse: string -> Reading)

  /** Text that was written whole reads back as what was written. */
  ghost predicate Faithful(f: Format) {
    forall v :: f.parse(f.dump(v)) == Parsed(v)
  }

  /** How far a save has come; `version` is the position of its snapshot. */
  datatype Phase =
    | Begun(content: Value)
    | Recorded(version: nat)
    | Writing(version: nat, temp: string)
    | Replaced(version: nat)
    | Returned(version: nat)
    | Raised
    | Lost

  /** The disk, and all saves ever started. `saved` is the snapshot that the file was replaced from; `None` as long as
      it never was. */
  datatype State = State(file: Option<string>, saved: Option<nat>, versions: seq<Value>, saves: map<nat, Phase>)

  datatype Event =
    | Begin(id: nat, content: Value)
    | Snapshot(id: nat)
    | SnapshotRaises(id: nat, recorded: bool)
    | OpenTemp(id: nat)
    | Write(id: nat, length: nat)
    | Replace(id: nat)
    | Raise(id: nat)
    | Publish(id: nat)
    | Crash

  function PhaseOf(st: State, id: nat): Option<Phase> {
    if id in st.saves then Some(st.saves[id]) else None
  }

  predicate InProgress(p: Phase) {
    p.Begun? || p.Recorded? || p.Writing? || p.Replaced?
  }

  /** A crash ends every save in progress. */
  function AfterCrash(saves: map<nat, Phase>): map<nat, Phase> {
    map id | id in saves :: if InProgress(saves[id]) then Lost else saves[id]
  }

  function To(st: State, id: nat, p: Phase): State {
    st.(saves := st.saves[id := p])
  }

  function Step(f: Format, st: State, e: Event): State {
    match e
    case Begin(id, content) => if id in st.saves then st else To(st, id, Begun(content))
    case Snapshot(id) =>
      (match PhaseOf(st, id)
       case Some(Begun(content)) => To(st, id, Recorded(|st.versions|)).(versions := st.versions + [content])
       case _ => st)
    case SnapshotRaises(id, recorded) =>
      (match PhaseOf(st, id)
       case Some(Begun(content)) =>
         To(st, id, Raised).(versions := if recorded then st.versions + [content] else st.versions)
       case _ => st)
    case OpenTemp(id) =>
      (match PhaseOf(st, id)
       case Some(Recorded(k)) => To(st, id, Writing(k, ""))
       case _ => st)
    case Write(id, length) =>
      (match PhaseOf(st, id)
       case Some(Writing(k, temp)) =>
         if k < |st.versions| && |temp| <= length <= |f.dump(st.versions[k])|
         then To(st, id, Writing(k, f.dump(st.versions[k])[..length]))
         else st
       case _ => st)
    case Replace(id) =>
      (match PhaseOf(st, id)
       case Some(Writing(k, temp)) =>
         if k < |st.versions| && |temp| == |f.dump(st.versions[k])|
         then To(st, id, Replaced(k)).(file := Some(temp), saved := Some(k))
         else st
       case _ => st)
    case Raise(id) =>
      (match PhaseOf(st, id)
       case Some(Recorded(_)) => To(st, id, Raised)
       case Some(Writing(_, _)) => To(st, id, Raised)
       case _ => st)
    case Publish(id) =>
      (match PhaseOf(st, id)
       case Some(Replaced(k)) => To(st, id, Returned(k))
       case _ => st)
    case Crash => st.(saves := AfterCrash(st.saves))
  }

  function Run(f: Format, start: State, events: seq<Event>): State {
    if events == [] then start
    else Step(f, Run(f, start, events[..|events| - 1]), events[|events| - 1])
  }

  // ---- A crash ends what was under way ----

  /** Every save has come to its end. */
  predicate AllOver(st: State) {
    forall id :: id in st.saves ==> st.saves[id].Returned? || st.saves[id].Raised? || st.saves[id].Lost?
  }

  lemma OverStays(f: Format, st: State, e: Event)
    requires AllOver(st) && !e.Begin?
    ensures Step(f, st, e) == st
  {
    if e == Crash {
      assert AfterCrash(st.saves) == st.saves;
    }
  }

  /** After a crash, and until a save is begun, file, snapshots and saves stay as the crash left them: file and
      snapshots as they were, saves that had returned or raised too, and all others lost. */
  lemma {:induction false} CrashEnds(f: Format, start: State, before: seq<Event>, later: seq<Event>)
    requires forall k :: 0 <= k < |later| ==> !later[k].Begin?
    ensures var st, now := Run(f, start, before), Run(f, start, before + [Crash] + later);
            && AllOver(now) && now.file == st.file && now.versions == st.versions && now.saves.Keys == st.saves.Keys
            && forall id :: id in st.saves ==>
                 now.saves[id] == if st.saves[id].Returned? || st.saves[id].Raised? then st.saves[id] else Lost
    decreases |later|
  {
    var crashed := before + [Crash];
    assert crashed[..|before|] == before;
    if later == [] {
      assert crashed + later == crashed;
    } else {
      hide Step;
      var n := |later| - 1;
      CrashEnds(f, start, before, later[..n]);
      assert (crashed + later)[..|crashed| + n] == crashed + later[..n];
      OverStays(f, Run(f, start, crashed + later[..n]), later[n]);
    }
  }

  // ---- The file is always one complete content ----

  predicate PhaseOk(f: Format, versions: seq<Value>, p: Phase) {
    match p
    case Recorded(k) => k < |versions|
    case Writing(k, temp) => k < |versions| && temp <= f.dump(versions[k])
    case Replaced(k) => k < |versions|
    case Returned(k) => k < |versions|
    case _ => true
  }

  predicate FileOk(f: Format, start: State, st: State) {
    match st.saved
    case Some(k) => k < |st.versions| && st.file == Some(f.dump(st.versions[k]))
    case None => st.file == start.file
  }

  predicate Whole(f: Format, start: State, st: State) {
    && start.versions <= st.versions
    && FileOk(f, start, st)
    && forall id :: id in st.saves ==> PhaseOk(f, st.versions, st.saves[id])
  }

  lemma StepWhole(f: Format, start: State, st: State, e: Event)
    requires Whole(f, start, st)
    ensures Whole(f, start, Step(f, st, e)) && st.versions <= Step(f, st, e).versions
    ensures st.saved.Some? ==> Step(f, st, e).saved.Some?
  {
    if e.Replace? && PhaseOf(st, e.id).Some? && PhaseOf(st, e.id).value.Writing? {
      var p := PhaseOf(st, e.id).value;
      PrefixInFull(p.temp, f.dump(st.versions[p.version]));
    }
  }

  lemma PrefixInFull(s: string, t: string)
    requires s <= t
    ensures |s| == |t| ==> s == t
  {
  }

  /** Through every interleaving, failure and crash the file is what it was at the start, or one recorded snapshot in
      full. */
  lemma {:induction false} AlwaysWhole(f: Format, start: State, events: seq<Event>)
    requires start.saved.None? && start.saves == map[]
    ensures Whole(f, start, Run(f, start, events))
    decreases |events|
  {
    if events != [] {
      var n := |events| - 1;
      AlwaysWhole(f, start, events[..n]);
      StepWhole(f, start, Run(f, start, events[..n]), events[n]);
    }
  }

  /** Once a save went through, the file never leaves the recorded snapshots, and no snapshot is lost. */
  lemma {:induction false} StaysSaved(f: Format, start: State, before: seq<Event>, later: seq<Event>)
    requires start.saved.None? && start.saves == map[]
    ensures var st, now := Run(f, start, before), Run(f, start, before + later);
            && st.versions <= now.versions
            && (st.saved.Some? ==> now.saved.Some? && FileOk(f, start, now))
    decreases |later|
  {
    hide Step;
    AlwaysWhole(f, start, before + later);
    if later == [] {
      assert before + later == before;
    } else {
      var n := |later| - 1;
      assert (before + later)[..|before| + n] == before + later[..n];
      StaysSaved(f, start, before, later[..n]);
      AlwaysWhole(f, start, before + later[..n]);
      StepWhole(f, start, Run(f, start, before + later[..n]), later[n]);
    }
  }

  // ---- What one save comes to ----

  /** Events that neither record a snapshot nor replace the file, unless they belong to `id`. */
  predicate Quiet(e: Event, id: nat) {
    (e.Snapshot? || e.SnapshotRaises? || e.Replace?) ==> e.id == id
  }

  /** The disk while save `id` of `content` goes on, compared with the disk at its start. */
  predicate SoFar(f: Format, st: State, now: State, content: Value, p: Option<Phase>) {
    var recorded := st.versions + [content];
    match p
    case Some(Begun(c)) => c == content && now.file == st.file && now.versions == st.versions
    case Some(Recorded(k)) => k == |st.versions| && now.file == st.file && now.versions == recorded
    case Some(Writing(k, temp)) =>
      k == |st.versions| && now.file == st.file && now.versions == recorded && temp <= f.dump(content)
    case Some(Replaced(k)) => k == |st.versions| && now.file == Some(f.dump(content)) && now.versions == recorded
    case Some(Returned(k)) => k == |st.versions| && now.file == Some(f.dump(content)) && now.versions == recorded
    case Some(Raised) => now.file == st.file && (now.versions == st.versions || now.versions == recorded)
    case Some(Lost) =>
      || (now.file == st.file && (now.versions == st.versions || now.versions == recorded))
      || (now.file == Some(f.dump(content)) && now.versions == recorded)
    case None => false
  }

  lemma SoFarStep(f: Format, st: State, now: State, content: Value, id: nat, e: Event)
    requires SoFar(f, st, now, content, PhaseOf(now, id)) && Quiet(e, id)
    ensures SoFar(f, st, Step(f, now, e), content, PhaseOf(Step(f, now, e), id))
  {
    if e.Replace? && PhaseOf(now, id).Some? && PhaseOf(now, id).value.Writing? {
      PrefixInFull(PhaseOf(now, id).value.temp, f.dump(content));
    }
  }

  /** A save that no other save crosses: returning, it leaves its content as file and latest snapshot; raising, it
      leaves the file alone and at most its own snapshot more; and a crash leaves one of both. */
  lemma {:induction false} SaveOutcome(f: Format, st: State, id: nat, content: Value, events: seq<Event>)
    requires id in st.saves && st.saves[id] == Begun(content)
    requires forall k :: 0 <= k < |events| ==> Quiet(events[k], id)
    ensures var now := Run(f, st, events); SoFar(f, st, now, content, PhaseOf(now, id))
    decreases |events|
  {
    hide Step, SoFar;
    if events == [] {
      BegunSoFar(f, st, id, content);
    } else {
      var n := |events| - 1;
      SaveOutcome(f, st, id, content, events[..n]);
      SoFarStep(f, st, Run(f, st, events[..n]), content, id, events[n]);
    }
  }

  lemma BegunSoFar(f: Format, st: State, id: nat, content: Value)
    requires id in st.saves && st.saves[id] == Begun(content)
    ensures SoFar(f, st, st, content, PhaseOf(st, id))
  {
  }

  // ---- When the file is the latest snapshot ----

  /** What a schedule amounts to: the content of every save, the saves that recorded a snapshot, in order, and the one
      that replaced the file last. */
  datatype Book = Book(contents: map<nat, Value>, recorders: seq<nat>, replacer: Option<nat>)

  function NextBook(f: Format, st: State, b: Book, e: Event): Book {
    match e
    case Begin(id, content) => if id in st.saves then b else b.(contents := b.contents[id := content])
    case Snapshot(id) => if Step(f, st, e) == st then b else b.(recorders := b.recorders + [id])
    case SnapshotRaises(id, recorded) =>
      if Step(f, st, e) == st || !recorded then b else b.(recorders := b.recorders + [id])
    case Replace(id) => if Step(f, st, e) == st then b else b.(replacer := Some(id))
    case _ => b
  }

  function BookOf(f: Format, start: State, events: seq<Event>): Book {
    if events == [] then Book(map[], [], None)
    else
      var init := events[..|events| - 1];
      NextBook(f, Run(f, start, init), BookOf(f, start, init), events[|events| - 1])
  }

  /** The snapshot at that position was recorded by that save. */
  predicate RecordedBy(n: nat, b: Book, version: nat, id: nat) {
    n <= version < n + |b.recorders| && b.recorders[version - n] == id
  }

  predicate PhaseBooked(n: nat, b: Book, id: nat, p: Phase) {
    id in b.contents &&
    match p
    case Begun(content) => b.contents[id] == content
    case Recorded(k) => RecordedBy(n, b, k, id)
    case Writing(k, _) => RecordedBy(n, b, k, id)
    case Replaced(k) => RecordedBy(n, b, k, id)
    case Returned(k) => RecordedBy(n, b, k, id)
    case _ => true
  }

  predicate SnapshotBooked(n: nat, st: State, b: Book, k: nat)
    requires k < |b.recorders| && |st.versions| == n + |b.recorders|
  {
    var id := b.recorders[k];
    id in b.contents && b.contents[id] == st.versions[n + k] && id in st.saves && !st.saves[id].Begun?
  }

  predicate FileBooked(n: nat, st: State, b: Book) {
    if b.replacer.None? then st.saved.None?
    else st.saved.Some? && RecordedBy(n, b, st.saved.value, b.replacer.value)
  }

  /** The book tells whose every snapshot and the file are; `n` snapshots were there at the start. */
  predicate Booked(n: nat, st: State, b: Book) {
    && |st.versions| == n + |b.recorders|
    && (forall id :: id in st.saves ==> PhaseBooked(n, b, id, st.saves[id]))
    && (forall id :: id in b.contents ==> id in st.saves)
    && (forall k :: 0 <= k < |b.recorders| ==> SnapshotBooked(n, st, b, k))
    && NoRepeats(b.recorders)
    && FileBooked(n, st, b)
  }

  lemma SnapshotTaken(f: Format, n: nat, st: State, b: Book, id: nat, content: Value, p: Phase)
    requires Booked(n, st, b) && id in st.saves && st.saves[id] == Begun(content)
    requires p == Raised || p == Recorded(|st.versions|)
    ensures Booked(n, To(st, id, p).(versions := st.versions + [content]), b.(recorders := b.recorders + [id]))
  {
    var b' := b.(recorders := b.recorders + [id]);
    var st' := To(st, id, p).(versions := st.versions + [content]);
    forall k | 0 <= k < |b.recorders| ensures b.recorders[k] != id {
      assert SnapshotBooked(n, st, b, k);
    }
    AppendNoRepeats(b.recorders, id);
    forall k | 0 <= k < |b'.recorders| ensures SnapshotBooked(n, st', b', k) {
      assert k < |b.recorders| ==> SnapshotBooked(n, st, b, k);
    }
    forall i | i in st'.saves ensures PhaseBooked(n, b', i, st'.saves[i]) {
      assert i != id ==> PhaseBooked(n, b, i, st.saves[i]);
    }
  }

  lemma CrashBooked(n: nat, st: State, b: Book)
    requires Booked(n, st, b)
    ensures Booked(n, st.(saves := AfterCrash(st.saves)), b)
  {
    forall k | 0 <= k < |b.recorders| ensures SnapshotBooked(n, st.(saves := AfterCrash(st.saves)), b, k) {
      assert SnapshotBooked(n, st, b, k);
    }
  }

  lemma BeginBooked(n: nat, st: State, b: Book, id: nat, content: Value)
    requires Booked(n, st, b) && id !in st.saves
    ensures Booked(n, To(st, id, Begun(content)), b.(contents := b.contents[id := content]))
  {
    var b' := b.(contents := b.contents[id := content]);
    var st' := To(st, id, Begun(content));
    forall k | 0 <= k < |b'.recorders| ensures SnapshotBooked(n, st', b', k) {
      assert SnapshotBooked(n, st, b, k);
    }
    forall i | i in st'.saves ensures PhaseBooked(n, b', i, st'.saves[i]) {
      assert i != id ==> PhaseBooked(n, b, i, st.saves[i]);
    }
  }

  lemma StepBooked(f: Format, n: nat, st: State, b: Book, e: Event)
    requires Booked(n, st, b)
    ensures Booked(n, Step(f, st, e), NextBook(f, st, b, e))
  {
    hide Booked, PhaseBooked;
    if Step(f, st, e) != st {
      match e
      case Begin(id, content) => BeginBooked(n, st, b, id, content);
      case Crash => CrashBooked(n, st, b);
      case Snapshot(id) => SnapshotTaken(f, n, st, b, id, st.saves[id].content, Recorded(|st.versions|));
      case SnapshotRaises(id, recorded) =>
        if recorded {
          SnapshotTaken(f, n, st, b, id, st.saves[id].content, Raised);
        } else {
          PhaseMoved(n, st, b, id, Raised);
        }
      case OpenTemp(id) => PhaseMoved(n, st, b, id, Step(f, st, e).saves[id]);
      case Write(id, _) => PhaseMoved(n, st, b, id, Step(f, st, e).saves[id]);
      case Raise(id) => PhaseMoved(n, st, b, id, Raised);
      case Publish(id) => PhaseMoved(n, st, b, id, Step(f, st, e).saves[id]);
      case Replace(id) => FileMoved(n, st, b, id, Step(f, st, e).file.value);
    }
  }

  /** A save keeps its snapshot as it goes on, or raises. */
  predicate GoesOn(p: Phase, q: Phase) {
    match q
    case Raised => true
    case Writing(k, _) => (p.Recorded? || p.Writing?) && p.version == k
    case Returned(k) => p.Replaced? && p.version == k
    case _ => false
  }

  lemma PhaseMoved(n: nat, st: State, b: Book, id: nat, p: Phase)
    requires Booked(n, st, b) && id in st.saves && GoesOn(st.saves[id], p)
    ensures Booked(n, To(st, id, p), b)
  {
    assert PhaseBooked(n, b, id, st.saves[id]);
    forall k | 0 <= k < |b.recorders| ensures SnapshotBooked(n, To(st, id, p), b, k) {
      assert SnapshotBooked(n, st, b, k);
    }
  }

  lemma FileMoved(n: nat, st: State, b: Book, id: nat, file: string)
    requires Booked(n, st, b) && id in st.saves && st.saves[id].Writing?
    ensures var k := st.saves[id].version;
            Booked(n, To(st, id, Replaced(k)).(file := Some(file), saved := Some(k)), b.(replacer := Some(id)))
  {
    var k := st.saves[id].version;
    var b' := b.(replacer := Some(id));
    var st' := To(st, id, Replaced(k)).(file := Some(file), saved := Some(k));
    assert PhaseBooked(n, b, id, st.saves[id]);
    forall i | 0 <= i < |b'.recorders| ensures SnapshotBooked(n, st', b', i) {
      assert SnapshotBooked(n, st, b, i);
    }
    forall i | i in st'.saves ensures PhaseBooked(n, b', i, st'.saves[i]) {
      assert i != id ==> PhaseBooked(n, b, i, st.saves[i]);
    }
  }

  lemma {:induction false} RunBooked(f: Format, start: State, events: seq<Event>)
    requires start.saved.None? && start.saves == map[]
    ensures Booked(|start.versions|, Run(f, start, events), BookOf(f, start, events))
    decreases |events|
  {
    hide Step, NextBook;
    if events != [] {
      var n := |events| - 1;
      RunBooked(f, start, events[..n]);
      StepBooked(f, |start.versions|, Run(f, start, events[..n]), BookOf(f, start, events[..n]), events[n]);
    }
  }

  /** What the save stored; `initially` if there was none. */
  function StoredBy(b: Book, id: Option<nat>, initially: Value): Value {
    if id.Some? && id.value in b.contents then b.contents[id.value] else initially
  }

  function Recorder(b: Book): Option<nat> {
    if b.recorders == [] then None else Some(b.recorders[|b.recorders| - 1])
  }

  /** `initially` is the latest snapshot at the start, if there is one. */
  predicate StartsWith(start: State, initially: Value) {
    && start.saved.None? && start.saves == map[]
    && (start.versions != [] ==> start.versions[|start.versions| - 1] == initially)
  }

  /** The file holds what the last replacer stored, and the latest snapshot what the last recorder stored. */
  lemma BookedContents(f: Format, start: State, events: seq<Event>, initially: Value)
    requires StartsWith(start, initially)
    ensures var st, b := Run(f, start, events), BookOf(f, start, events);
            && (b.replacer.None? ==> st.file == start.file)
            && (b.replacer.Some? ==> b.replacer.value in b.contents && Recorder(b).Some?
                                     && st.file == Some(f.dump(StoredBy(b, b.replacer, initially))))
            && (start.versions != [] || Recorder(b).Some? ==>
                  st.versions != [] && st.versions[|st.versions| - 1] == StoredBy(b, Recorder(b), initially))
  {
    hide Run, BookOf;
    var st, b := Run(f, start, events), BookOf(f, start, events);
    var n := |start.versions|;
    AlwaysWhole(f, start, events);
    RunBooked(f, start, events);
    if b.replacer.Some? {
      assert SnapshotBooked(n, st, b, st.saved.value - n);
    }
    if b.recorders != [] {
      assert SnapshotBooked(n, st, b, |b.recorders| - 1);
    }
  }

  /** On any schedule of saves, failures and crashes, the file is the latest snapshot exactly when the save that
      replaced the file last stored the same as the one that recorded a snapshot last. */
  lemma FileIsLatestIff(f: Format, start: State, events: seq<Event>, initially: Value)
    requires Faithful(f) && StartsWith(start, initially) && BookOf(f, start, events).replacer.Some?
    ensures var st, b := Run(f, start, events), BookOf(f, start, events);
            && st.versions != []
            && (st.file == Some(f.dump(st.versions[|st.versions| - 1]))
                <==> StoredBy(b, b.replacer, initially) == StoredBy(b, Recorder(b), initially))
  {
    hide Run, BookOf;
    BookedContents(f, start, events, initially);
  }

  /** In particular it is when the same save did both last. */
  lemma SameSaveIsLatest(f: Format, start: State, events: seq<Event>)
    requires start.saved.None? && start.saves == map[]
    requires var b := BookOf(f, start, events); b.replacer.Some? && b.replacer == Recorder(b)
    ensures var st, b := Run(f, start, events), BookOf(f, start, events);
            && st.versions != [] && b.replacer.value in b.contents
            && st.versions[|st.versions| - 1] == b.contents[b.replacer.value]
            && st.file == Some(f.dump(st.versions[|st.versions| - 1]))
  {
    hide Run, BookOf;
    BookedContents(f, start, events, if start.versions == [] then Null else start.versions[|start.versions| - 1]);
  }

  // ---- Saves that do not overlap ----

  predicate NoneInProgress(st: State) {
    forall id :: id in st.saves ==> !InProgress(st.saves[id])
  }

  /** No save begins while another is in progress. */
  predicate Sequential(f: Format, start: State, events: seq<Event>) {
    events != [] ==>
      && Sequential(f, start, events[..|events| - 1])
      && (events[|events| - 1].Begin? ==> NoneInProgress(Run(f, start, events[..|events| - 1])))
  }

  /** A save past its snapshot recorded the latest one; past the replacement it replaced the file last as well. */
  predicate LeadsBook(b: Book, id: nat, p: Phase) {
    && (p.Recorded? || p.Writing? || p.Replaced? ==> b.recorders != [] && b.recorders[|b.recorders| - 1] == id)
    && (p.Replaced? ==> b.replacer == Some(id))
  }

  predicate OneAtATime(st: State, b: Book) {
    && (forall i, j :: i in st.saves && j in st.saves && InProgress(st.saves[i]) && InProgress(st.saves[j]) ==> i == j)
    && (forall id :: id in st.saves ==> LeadsBook(b, id, st.saves[id]))
  }

  lemma StepOneAtATime(f: Format, st: State, b: Book, e: Event)
    requires OneAtATime(st, b) && (e.Begin? ==> NoneInProgress(st))
    ensures OneAtATime(Step(f, st, e), NextBook(f, st, b, e))
  {
  }

  lemma {:induction false} RunOneAtATime(f: Format, start: State, events: seq<Event>)
    requires start.saves == map[] && Sequential(f, start, events)
    ensures OneAtATime(Run(f, start, events), BookOf(f, start, events))
    decreases |events|
  {
    hide Step, NextBook, OneAtATime;
    if events == [] {
      StartsAlone(start);
    } else {
      var n := |events| - 1;
      RunOneAtATime(f, start, events[..n]);
      StepOneAtATime(f, Run(f, start, events[..n]), BookOf(f, start, events[..n]), events[n]);
    }
  }

  lemma StartsAlone(start: State)
    requires start.saves == map[]
    ensures OneAtATime(start, Book(map[], [], None))
  {
  }

  /** If saves do not overlap, one that is about to return has left its content as file and latest snapshot. */
  lemma SequentialReturn(f: Format, start: State, events: seq<Event>, id: nat)
    requires start.saved.None? && start.saves == map[] && Sequential(f, start, events)
    requires PhaseOf(Run(f, start, events), id).Some? && PhaseOf(Run(f, start, events), id).value.Replaced?
    ensures var st := Run(f, start, events);
            && st.versions != [] && id in BookOf(f, start, events).contents
            && st.versions[|st.versions| - 1] == BookOf(f, start, events).contents[id]
            && st.file == Some(f.dump(st.versions[|st.versions| - 1]))
            && PhaseOf(Run(f, start, events + [Publish(id)]), id) == Some(Returned(|st.versions| - 1))
  {
    hide Run, BookOf, Sequential;
    var st, b := Run(f, start, events), BookOf(f, start, events);
    RunOneAtATime(f, start, events);
    assert LeadsBook(b, id, st.saves[id]);
    SameSaveIsLatest(f, start, events);
    RunBooked(f, start, events);
    assert PhaseBooked(|start.versions|, b, id, st.saves[id]);
    RunConcat(f, start, events, [Publish(id)]);
    RunOne(f, st, Publish(id));
  }

  // ---- A single save ----

  /** Only the save `id` is started. */
  predicate OnlySave(events: seq<Event>, id: nat) {
    forall k :: 0 <= k < |events| && events[k].Begin? ==> events[k].id == id
  }

  lemma {:induction false} OneSaveBooked(f: Format, start: State, events: seq<Event>, id: nat)
    requires OnlySave(events, id)
    ensures BookOf(f, start, events).contents.Keys <= {id}
    decreases |events|
  {
    hide Step, Run;
    if events != [] {
      OneSaveBooked(f, start, events[..|events| - 1], id);
    }
  }

  /** Whoever recorded or replaced was that save. */
  lemma OnlyOne(f: Format, start: State, events: seq<Event>, id: nat, initially: Value)
    requires StartsWith(start, initially) && OnlySave(events, id)
    ensures var b := BookOf(f, start, events);
            && (Recorder(b).Some? ==> Recorder(b) == Some(id) && id in b.contents)
            && (b.replacer.Some? ==> b.replacer == Some(id) && Recorder(b) == Some(id))
  {
    hide Run, BookOf;
    var st, b := Run(f, start, events), BookOf(f, start, events);
    OneSaveBooked(f, start, events, id);
    RunBooked(f, start, events);
    BookedContents(f, start, events, initially);
    if b.recorders != [] {
      assert SnapshotBooked(|start.versions|, st, b, |b.recorders| - 1);
    }
  }

  // ---- Saves that cross ----

  lemma {:induction false} RunConcat(f: Format, st: State, xs: seq<Event>, ys: seq<Event>)
    ensures Run(f, st, xs + ys) == Run(f, Run(f, st, xs), ys)
    decreases |ys|
  {
    hide Step;
    if ys == [] {
      assert xs + ys == xs;
    } else {
      var n := |ys| - 1;
      assert (xs + ys)[..|xs| + n] == xs + ys[..n];
      RunConcat(f, st, xs, ys[..n]);
    }
  }

  lemma RunOne(f: Format, st: State, e: Event)
    ensures Run(f, st, [e]) == Step(f, st, e)
  {
    assert [e][..0] == [];
  }

  /** A save up to its complete temporary file, and from there on. */
  function Opening(f: Format, id: nat, content: Value): seq<Event> {
    [Begin(id, content)] + ([Snapshot(id)] + ([OpenTemp(id)] + [Write(id, |f.dump(content)|)]))
  }

  function Closing(id: nat): seq<Event> {
    [Replace(id)] + [Publish(id)]
  }

  lemma OpeningDoes(f: Format, st: State, id: nat, content: Value)
    requires id !in st.saves
    ensures Run(f, st, Opening(f, id, content))
         == To(st, id, Writing(|st.versions|, f.dump(content))).(versions := st.versions + [content])
  {
    hide Run;
    var begun := Step(f, st, Begin(id, content));
    var recorded := Step(f, begun, Snapshot(id));
    var writing := Step(f, recorded, OpenTemp(id));
    RunConcat(f, st, [Begin(id, content)], [Snapshot(id)] + ([OpenTemp(id)] + [Write(id, |f.dump(content)|)]));
    RunConcat(f, begun, [Snapshot(id)], [OpenTemp(id)] + [Write(id, |f.dump(content)|)]);
    RunConcat(f, recorded, [OpenTemp(id)], [Write(id, |f.dump(content)|)]);
    RunOne(f, st, Begin(id, content));
    RunOne(f, begun, Snapshot(id));
    RunOne(f, recorded, OpenTemp(id));
    RunOne(f, writing, Write(id, |f.dump(content)|));
    assert f.dump(content)[..|f.dump(content)|] == f.dump(content);
    var written := Step(f, writing, Write(id, |f.dump(content)|));
    assert written.saves == st.saves[id := Writing(|st.versions|, f.dump(content))];
  }

  lemma ClosingDoes(f: Format, st: State, id: nat, k: nat)
    requires k < |st.versions| && PhaseOf(st, id) == Some(Writing(k, f.dump(st.versions[k])))
    ensures Run(f, st, Closing(id))
         == To(st, id, Returned(k)).(file := Some(f.dump(st.versions[k])), saved := Some(k))
  {
    hide Run;
    var replaced := Step(f, st, Replace(id));
    RunConcat(f, st, [Replace(id)], [Publish(id)]);
    RunOne(f, st, Replace(id));
    RunOne(f, replaced, Publish(id));
  }

  /** Two saves that cross may both return and leave the file behind the latest snapshot. */
  lemma CrossingSavesDisagree(f: Format, start: State, a: Value, b: Value)
    requires start.saves == map[]
    ensures var st := Run(f, start, (Opening(f, 0, a) + Opening(f, 1, b)) + (Closing(1) + Closing(0)));
            && st.versions == start.versions + [a, b] && st.file == Some(f.dump(a))
            && PhaseOf(st, 0) == Some(Returned(|start.versions|))
            && PhaseOf(st, 1) == Some(Returned(|start.versions| + 1))
  {
    hide Run, Opening, Closing;
    var first := Run(f, start, Opening(f, 0, a));
    var both := Run(f, first, Opening(f, 1, b));
    var second := Run(f, both, Closing(1));
    RunConcat(f, start, Opening(f, 0, a) + Opening(f, 1, b), Closing(1) + Closing(0));
    RunConcat(f, start, Opening(f, 0, a), Opening(f, 1, b));
    RunConcat(f, both, Closing(1), Closing(0));
    OpeningDoes(f, start, 0, a);
    OpeningDoes(f, first, 1, b);
    assert both.versions == start.versions + [a, b];
    ClosingDoes(f, both, 1, |start.versions| + 1);
    ClosingDoes(f, second, 0, |start.versions|);
  }
}
