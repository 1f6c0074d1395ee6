/** The packet rings: one bounded buffer per protocol beside a global one. */
module PacketRecorder {
  import opened Common

  const MAX_PACKET_BUFFER := 1000
  const ALL := "__all__"

  /** A packet: its number, its protocol, and whatever else was recorded with it. */
  datatype Packet = Packet(seqNo: nat, protocol: string, payload: string)

  /** The buffer key for a protocol argument; nothing and the empty string stand for the global buffer. */
  function Key(protocol: string): string {
    if protocol == "" then ALL else protocol
  }

  /** Appending to a bounded deque. */
  function Push<T>(xs: seq<T>, x: T): seq<T> {
    Last(xs + [x], MAX_PACKET_BUFFER)
  }

  // ---- The recorder as it runs, with the history of its calls ----

  datatype Event = Record(protocol: string, payload: string) | Clear(protocol: string)

  datatype State = State(buffers: map<string, seq<Packet>>, nextSeq: nat)

  const INITIAL := State(map[], 1)

  function Buffer(st: State, key: string): seq<Packet> {
    if key in st.buffers then st.buffers[key] else []
  }

  function Step(st: State, e: Event): State {
    match e
    case Record(protocol, payload) =>
      var packet := Packet(st.nextSeq, protocol, payload);
      var own := st.buffers[Key(protocol) := Push(Buffer(st, Key(protocol)), packet)];
      var st1 := State(own, st.nextSeq + 1);
      State(own[ALL := Push(Buffer(st1, ALL), packet)], st.nextSeq + 1)
    case Clear(protocol) =>
      if Key(protocol) in st.buffers then st.(buffers := st.buffers[Key(protocol) := []]) else st
  }

  function Run(events: seq<Event>): State {
    if events == [] then INITIAL else Step(Run(events[..|events| - 1]), events[|events| - 1])
  }

  lemma UpdateTwice<K, V>(m: map<K, V>, k: K, x: V, y: V)
    ensures m[k := x][k := y] == m[k := y]
  {
  }

  class Recorder {
    var buffers: map<string, seq<Packet>>
    var nextSeq: nat

    constructor ()
      ensures View() == INITIAL
    {
      buffers, nextSeq := map[], 1;
    }

    function View(): State
      reads this
    {
      State(buffers, nextSeq)
    }

    /** The buffer of a protocol, created when missing. */
    method GetBuffer(protocol: string) returns (buffer: seq<Packet>)
      modifies this`buffers
      ensures buffer == Buffer(old(View()), Key(protocol))
      ensures buffers == old(buffers)[Key(protocol) := buffer]
    {
      var key := if protocol == "" then ALL else protocol;
      if key !in buffers {
        buffers := buffers[key := []];
      }
      buffer := buffers[key];
    }

    /** Appends to the buffer of a protocol. */
    method Append(protocol: string, packet: Packet)
      modifies this`buffers
      ensures buffers == old(buffers)[Key(protocol) := Push(Buffer(old(View()), Key(protocol)), packet)]
    {
      var own := GetBuffer(protocol);
      UpdateTwice(old(buffers), Key(protocol), own, Push(own, packet));
      buffers := buffers[Key(protocol) := Push(own, packet)];
    }

    method RecordPacket(protocol: string, payload: string)
      modifies this
      ensures View() == Step(old(View()), Record(protocol, payload))
    {
      hide Push, Last;
      var packet := Packet(nextSeq, protocol, payload);
      nextSeq := nextSeq + 1;
      Append(protocol, packet);
      Append(ALL, packet);
    }

    method ClearBuffer(protocol: string) returns (count: nat)
      modifies this`buffers
      ensures View() == Step(old(View()), Clear(protocol))
      ensures count == |Buffer(old(View()), Key(protocol))|
    {
      var key := if protocol == "" then ALL else protocol;
      if key in buffers {
        count := |buffers[key]|;
        buffers := buffers[key := []];
        return;
      }
      return 0;
    }
  }

  // ---- What every buffer holds ----

  /** A packet of that protocol is appended to the buffer `key`. */
  predicate Feeds(protocol: string, key: string) {
    key == "__all__" || (protocol != "" && protocol == key)
  }

  /** A packet whose protocol names the global buffer is appended to it twice. */
  predicate NamesGlobal(protocol: string) {
    protocol == "" || protocol == "__all__"
  }

  /** Clearing for that protocol empties the buffer `key`. */
  predicate Clears(protocol: string, key: string) {
    if protocol == "" then key == "__all__" else key == protocol
  }

  /** All that was appended to the buffer `key` since it was last cleared. */
  function Appended(events: seq<Event>, key: string): seq<Packet> {
    if events == [] then []
    else
      var n := |events| - 1;
      var before := Appended(events[..n], key);
      match events[n]
      case Record(protocol, payload) =>
        var packet := Packet(Run(events[..n]).nextSeq, protocol, payload);
        if !Feeds(protocol, key) then before
        else if NamesGlobal(protocol) then before + [packet] + [packet]
        else before + [packet]
      case Clear(protocol) => if Clears(protocol, key) then [] else before
  }

  lemma PushLast<T>(xs: seq<T>, x: T, n: nat)
    ensures Last(Last(xs, n) + [x], n) == Last(xs + [x], n)
  {
  }

  lemma StepBuffer(st: State, e: Event, key: string)
    ensures e.Record? && !Feeds(e.protocol, key) ==> Buffer(Step(st, e), key) == Buffer(st, key)
    ensures e.Record? && Feeds(e.protocol, key) && !NamesGlobal(e.protocol) ==>
              Buffer(Step(st, e), key) == Push(Buffer(st, key), Packet(st.nextSeq, e.protocol, e.payload))
    ensures e.Record? && Feeds(e.protocol, key) && NamesGlobal(e.protocol) ==>
              var packet := Packet(st.nextSeq, e.protocol, e.payload);
              Buffer(Step(st, e), key) == Push(Push(Buffer(st, key), packet), packet)
    ensures e.Clear? ==> Buffer(Step(st, e), key) == if Clears(e.protocol, key) then [] else Buffer(st, key)
  {
  }

  /** Each buffer holds the last thousand of what was appended to it since its last clearing. */
  lemma {:induction false} BufferIsLast(events: seq<Event>, key: string)
    ensures Buffer(Run(events), key) == Last(Appended(events, key), 1000)
    decreases |events|
  {
    if events != [] {
      var n := |events| - 1;
      var before, e := Run(events[..n]), events[n];
      var xs := Appended(events[..n], key);
      BufferIsLast(events[..n], key);
      StepBuffer(before, e, key);
      if e.Record? {
        var packet := Packet(before.nextSeq, e.protocol, e.payload);
        PushLast(xs, packet, MAX_PACKET_BUFFER);
        PushLast(xs + [packet], packet, MAX_PACKET_BUFFER);
      }
    }
  }

  lemma LastIsEnd<T>(xs: seq<T>, n: nat) returns (before: seq<T>)
    ensures xs == before + Last(xs, n) && |Last(xs, n)| <= n && (|Last(xs, n)| < n ==> before == [])
  {
    before := xs[..|xs| - |Last(xs, n)|];
  }

  /** What was appended since the last clearing is what was evicted and then what the buffer holds; nothing is evicted
      from a buffer that is not full. */
  lemma BufferIsEnd(events: seq<Event>, key: string) returns (evicted: seq<Packet>)
    ensures var held := Buffer(Run(events), key);
            && Appended(events, key) == evicted + held
            && |held| <= 1000 && (|held| < 1000 ==> evicted == [])
  {
    hide Run, Appended, Buffer, Last;
    BufferIsLast(events, key);
    evicted := LastIsEnd(Appended(events, key), 1000);
  }

  // ---- Packets stand in the order of their numbers ----

  /** The places at which packets were recorded. */
  function Recordings(events: seq<Event>): set<nat> {
    set i | 0 <= i < |events| && events[i].Record?
  }

  /** Packets are numbered from one on, whatever is cleared in between. */
  lemma {:induction false} NumbersCount(events: seq<Event>)
    ensures Run(events).nextSeq == |Recordings(events)| + 1
    decreases |events|
  {
    if events == [] {
      assert Recordings(events) == {};
    } else {
      var n := |events| - 1;
      NumbersCount(events[..n]);
      assert Recordings(events) == Recordings(events[..n]) + if events[n].Record? then {n} else {};
    }
  }

  predicate Ascending(xs: seq<Packet>) {
    forall i, j :: 0 <= i < j < |xs| ==> xs[i].seqNo <= xs[j].seqNo
  }

  predicate StrictlyAscending(xs: seq<Packet>) {
    forall i, j :: 0 <= i < j < |xs| ==> xs[i].seqNo < xs[j].seqNo
  }

  predicate Below(xs: seq<Packet>, n: nat) {
    forall i :: 0 <= i < |xs| ==> xs[i].seqNo < n
  }

  lemma AppendAscends(xs: seq<Packet>, p: Packet)
    requires Ascending(xs) && Below(xs, p.seqNo)
    ensures Ascending(xs + [p]) && Below(xs + [p], p.seqNo + 1)
    ensures Ascending(xs + [p] + [p]) && Below(xs + [p] + [p], p.seqNo + 1)
    ensures StrictlyAscending(xs) ==> StrictlyAscending(xs + [p])
  {
  }

  lemma BelowMore(xs: seq<Packet>, n: nat, m: nat)
    requires Below(xs, n) && n <= m
    ensures Below(xs, m)
  {
  }

  lemma NumberGrows(st: State, e: Event)
    ensures Step(st, e).nextSeq == st.nextSeq + if e.Record? then 1 else 0
  {
  }

  lemma {:induction false} AppendedAscends(events: seq<Event>, key: string)
    ensures Ascending(Appended(events, key)) && Below(Appended(events, key), Run(events).nextSeq)
    ensures key != ALL ==> StrictlyAscending(Appended(events, key))
    decreases |events|
  {
    hide Ascending, StrictlyAscending, Below, Step;
    if events == [] {
      NoneAscend();
    } else {
      var n := |events| - 1;
      var before, next := Appended(events[..n], key), Run(events[..n]).nextSeq;
      AppendedAscends(events[..n], key);
      NumberGrows(Run(events[..n]), events[n]);
      NoneAscend();
      BelowMore(before, next, next + 1);
      if events[n].Record? {
        AppendAscends(before, Packet(next, events[n].protocol, events[n].payload));
      }
    }
  }

  lemma NoneAscend()
    ensures Ascending([]) && StrictlyAscending([]) && forall n :: Below([], n)
  {
  }

  /** The buffer of a protocol never holds two packets with one number, whatever was recorded and cleared. */
  lemma OwnBufferStrict(events: seq<Event>, key: string)
    requires key != ALL
    ensures StrictlyAscending(Buffer(Run(events), key))
  {
    BufferIsLast(events, key);
    AppendedAscends(events, key);
  }

  /** Packet `i` stands next to its double. */
  predicate HasTwin(xs: seq<Packet>, i: int)
    requires 0 <= i < |xs|
  {
    (i > 0 && xs[i - 1] == xs[i]) || (i + 1 < |xs| && xs[i + 1] == xs[i])
  }

  /** Packets whose protocol names the global buffer are doubled there, and only they. */
  predicate Doubled(xs: seq<Packet>) {
    && (forall i :: 0 <= i < |xs| && NamesGlobal(xs[i].protocol) ==> HasTwin(xs, i))
    && forall i, j :: 0 <= i < j < |xs| && xs[i].seqNo == xs[j].seqNo ==> NamesGlobal(xs[j].protocol)
  }

  lemma {:induction false} GlobalDoubled(events: seq<Event>)
    ensures Doubled(Appended(events, ALL))
    decreases |events|
  {
    if events != [] {
      var n := |events| - 1;
      var xs := Appended(events[..n], ALL);
      GlobalDoubled(events[..n]);
      AppendedAscends(events[..n], ALL);
      if events[n].Record? {
        DoubledMore(xs, Packet(Run(events[..n]).nextSeq, events[n].protocol, events[n].payload));
      }
    }
  }

  lemma DoubledMore(xs: seq<Packet>, p: Packet)
    requires Doubled(xs) && Below(xs, p.seqNo)
    ensures NamesGlobal(p.protocol) ==> Doubled(xs + [p] + [p])
    ensures !NamesGlobal(p.protocol) ==> Doubled(xs + [p])
  {
    hide NamesGlobal;
    var ys := xs + if NamesGlobal(p.protocol) then [p, p] else [p];
    forall i | 0 <= i < |ys| && NamesGlobal(ys[i].protocol) ensures HasTwin(ys, i) {
      if i < |xs| {
        assert HasTwin(xs, i);
      }
    }
    assert xs + [p] + [p] == xs + [p, p];
  }

  /** The global buffer is strictly ascending exactly when no packet behind its first names the global buffer as its
      protocol. */
  lemma GlobalBufferStrictIff(events: seq<Event>)
    ensures var xs := Buffer(Run(events), ALL);
            StrictlyAscending(xs) <==> forall i :: 0 < i < |xs| ==> !NamesGlobal(xs[i].protocol)
  {
    var all := Appended(events, ALL);
    BufferIsLast(events, ALL);
    AppendedAscends(events, ALL);
    GlobalDoubled(events);
    LastStrictIff(all, MAX_PACKET_BUFFER);
  }

  lemma LastStrictIff(all: seq<Packet>, n: nat)
    requires Ascending(all) && Doubled(all)
    ensures var xs := Last(all, n);
            StrictlyAscending(xs) <==> forall i :: 0 < i < |xs| ==> !NamesGlobal(xs[i].protocol)
  {
    hide Last;
    var xs := Last(all, n);
    LastAt(all, n);
    if i :| 0 < i < |xs| && NamesGlobal(xs[i].protocol) {
      TwinInside(all, n, i);
    } else {
      forall i, j | 0 <= i < j < |xs| ensures xs[i].seqNo < xs[j].seqNo {
        assert all[|all| - |xs| + i].seqNo <= all[|all| - |xs| + j].seqNo;
      }
    }
  }

  lemma LastAt(all: seq<Packet>, n: nat)
    ensures var xs := Last(all, n); forall i :: 0 <= i < |xs| ==> xs[i] == all[|all| - |xs| + i]
  {
  }

  lemma TwinInside(all: seq<Packet>, n: nat, i: nat)
    requires Doubled(all) && 0 < i < |Last(all, n)| && NamesGlobal(Last(all, n)[i].protocol)
    ensures !StrictlyAscending(Last(all, n))
  {
    hide Last;
    LastAt(all, n);
    var xs := Last(all, n);
    assert HasTwin(all, |all| - |xs| + i);
    assert xs[i - 1] == xs[i] || (i + 1 < |xs| && xs[i + 1] == xs[i]);
  }

  // ---- The global buffer holds the recent end of every protocol's own ----

  function OfProtocol(xs: seq<Packet>, protocol: string): seq<Packet> {
    if xs == [] then []
    else OfProtocol(xs[..|xs| - 1], protocol) + if xs[|xs| - 1].protocol == protocol then [xs[|xs| - 1]] else []
  }

  lemma {:induction false} OfProtocolConcat(xs: seq<Packet>, ys: seq<Packet>, protocol: string)
    ensures OfProtocol(xs + ys, protocol) == OfProtocol(xs, protocol) + OfProtocol(ys, protocol)
    ensures |OfProtocol(ys, protocol)| <= |ys|
    decreases |ys|
  {
    if ys == [] {
      assert xs + ys == xs;
    } else {
      var n := |ys| - 1;
      OfProtocolConcat(xs, ys[..n], protocol);
      assert (xs + ys)[..|xs| + n] == xs + ys[..n];
    }
  }

  predicate NoClears(events: seq<Event>) {
    forall i :: 0 <= i < |events| ==> events[i].Record?
  }

  lemma {:induction false} GlobalHasAll(events: seq<Event>, protocol: string)
    requires NoClears(events) && !NamesGlobal(protocol)
    ensures OfProtocol(Appended(events, ALL), protocol) == Appended(events, protocol)
    decreases |events|
  {
    if events != [] {
      var n := |events| - 1;
      var xs := Appended(events[..n], ALL);
      GlobalHasAll(events[..n], protocol);
      var e := events[n];
      var p := Packet(Run(events[..n]).nextSeq, e.protocol, e.payload);
      AppendOf(xs, p, protocol);
      AppendOf(xs + [p], p, protocol);
    }
  }

  lemma AppendOf(xs: seq<Packet>, p: Packet, protocol: string)
    ensures OfProtocol(xs + [p], protocol) == OfProtocol(xs, protocol) + if p.protocol == protocol then [p] else []
  {
    assert (xs + [p])[..|xs|] == xs;
  }

  predicate IsSuffix(xs: seq<Packet>, ys: seq<Packet>) {
    |xs| <= |ys| && ys[|ys| - |xs|..] == xs
  }

  /** Without clearings, the packets of a protocol in the global buffer are a suffix of the protocol's own buffer. */
  lemma GlobalIsSuffix(events: seq<Event>, protocol: string)
    requires NoClears(events) && !NamesGlobal(protocol)
    ensures IsSuffix(OfProtocol(Buffer(Run(events), ALL), protocol), Buffer(Run(events), protocol))
  {
    hide OfProtocol, Appended;
    var all := Appended(events, ALL);
    var own := Appended(events, protocol);
    var recent := Last(all, MAX_PACKET_BUFFER);
    var cut := all[..|all| - |recent|];
    BufferIsLast(events, ALL);
    BufferIsLast(events, protocol);
    GlobalHasAll(events, protocol);
    assert all == cut + recent;
    OfProtocolConcat(cut, recent, protocol);
    SuffixOfLast(OfProtocol(cut, protocol), OfProtocol(recent, protocol), own, MAX_PACKET_BUFFER);
  }

  lemma SuffixOfLast(pre: seq<Packet>, xs: seq<Packet>, all: seq<Packet>, n: nat)
    requires all == pre + xs && |xs| <= n
    ensures IsSuffix(xs, Last(all, n))
  {
  }

  // ---- A reader that remembers the last number it has sent ----

  /** The packets of a buffer numbered above `last`. */
  function Unsent(buffer: seq<Packet>, last: nat): (r: seq<Packet>)
    ensures forall p :: p in r <==> p in buffer && p.seqNo > last
  {
    if buffer == [] then []
    else
      var n := |buffer| - 1;
      assert buffer == buffer[..n] + [buffer[n]];
      Unsent(buffer[..n], last) + if buffer[n].seqNo > last then [buffer[n]] else []
  }

  /** Each poll sends what is unsent and remembers the number of the last packet sent. */
  datatype Reader = Reader(last: nat, sent: seq<Packet>)

  function Poll(r: Reader, buffer: seq<Packet>): Reader {
    var items := Unsent(buffer, r.last);
    if items == [] then r else Reader(items[|items| - 1].seqNo, r.sent + items)
  }

  function Flat(segments: seq<seq<Event>>): seq<Event> {
    if segments == [] then [] else Flat(segments[..|segments| - 1]) + segments[|segments| - 1]
  }

  /** The reader of the buffer `key` that polls after each segment of the history. */
  function Session(segments: seq<seq<Event>>, key: string): Reader {
    if segments == [] then Reader(0, [])
    else Poll(Session(segments[..|segments| - 1], key), Buffer(Run(Flat(segments)), key))
  }

  lemma {:induction false} UnsentAscends(buffer: seq<Packet>, last: nat)
    requires StrictlyAscending(buffer)
    ensures StrictlyAscending(Unsent(buffer, last))
    decreases |buffer|
  {
    if buffer != [] {
      var n := |buffer| - 1;
      UnsentAscends(buffer[..n], last);
      forall p | p in Unsent(buffer[..n], last) ensures p.seqNo < buffer[n].seqNo {
        assert p in buffer[..n];
      }
    }
  }

  lemma PushHolds(xs: seq<Packet>, x: Packet, p: Packet)
    requires p in Push(xs, x)
    ensures p in xs || p == x
  {
  }

  /** One event leaves what a buffer held, or adds the packet that it records there. */
  lemma StepAdds(st: State, e: Event, key: string, p: Packet)
    requires p in Buffer(Step(st, e), key)
    ensures p in Buffer(st, key)
         || (e.Record? && Feeds(e.protocol, key) && p == Packet(st.nextSeq, e.protocol, e.payload))
  {
    hide Push, Step, Buffer;
    StepBuffer(st, e, key);
    if e.Record? && Feeds(e.protocol, key) {
      var packet := Packet(st.nextSeq, e.protocol, e.payload);
      var once := Push(Buffer(st, key), packet);
      if NamesGlobal(e.protocol) {
        PushHolds(once, packet, p);
      }
      if p != packet {
        PushHolds(Buffer(st, key), packet, p);
      }
    }
  }

  lemma StepHeld(st: State, e: Event, key: string, p: Packet)
    requires p in Buffer(Step(st, e), key) && p.seqNo < st.nextSeq
    ensures p in Buffer(st, key)
  {
    hide Step, Buffer, Feeds;
    StepAdds(st, e, key, p);
  }

  lemma RunAppend(events: seq<Event>, e: Event)
    ensures Run(events + [e]) == Step(Run(events), e)
  {
    assert (events + [e])[..|events|] == events;
  }

  /** A packet from before `later` that a buffer still holds after it was held before. */
  lemma {:induction false} StillHeld(before: seq<Event>, later: seq<Event>, key: string, p: Packet)
    requires p in Buffer(Run(before + later), key) && p.seqNo < Run(before).nextSeq
    ensures p in Buffer(Run(before), key)
    decreases |later|
  {
    hide Run, Step, Buffer;
    if later == [] {
      assert before + later == before;
    } else {
      var n := |later| - 1;
      var mid := before + later[..n];
      assert before + later == mid + [later[n]];
      RunAppend(mid, later[n]);
      NumbersGrow(before, later[..n]);
      StepHeld(Run(mid), later[n], key, p);
      StillHeld(before, later[..n], key, p);
    }
  }

  lemma {:induction false} NumbersGrow(before: seq<Event>, later: seq<Event>)
    ensures Run(before).nextSeq <= Run(before + later).nextSeq
    decreases |later|
  {
    if later == [] {
      assert before + later == before;
    } else {
      var n := |later| - 1;
      assert (before + later)[..|before| + n] == before + later[..n];
      NumbersGrow(before, later[..n]);
    }
  }

  /** The reader has sent packets once and in order, none numbered ahead, and all that the buffer holds. */
  ghost predicate UpToDate(r: Reader, events: seq<Event>, key: string) {
    && r.last < Run(events).nextSeq
    && StrictlyAscending(r.sent)
    && Below(r.sent, r.last + 1)
    && forall p :: p in Buffer(Run(events), key) ==> p in r.sent
  }

  lemma PollUpToDate(r: Reader, before: seq<Event>, later: seq<Event>, key: string)
    requires key != ALL && UpToDate(r, before, key)
    ensures UpToDate(Poll(r, Buffer(Run(before + later), key)), before + later, key)
  {
    var buffer := Buffer(Run(before + later), key);
    var items := Unsent(buffer, r.last);
    NumbersGrow(before, later);
    OwnBufferStrict(before + later, key);
    UnsentAscends(buffer, r.last);
    BufferIsLast(before + later, key);
    AppendedAscends(before + later, key);
    forall p | p in buffer && p.seqNo <= r.last ensures p in r.sent {
      StillHeld(before, later, key, p);
    }
    PollExtends(r, buffer, Run(before + later).nextSeq);
  }

  lemma JoinAscends(xs: seq<Packet>, ys: seq<Packet>, last: nat, n: nat)
    requires StrictlyAscending(xs) && Below(xs, last + 1) && StrictlyAscending(ys) && ys != []
    requires forall i :: 0 <= i < |ys| ==> last < ys[i].seqNo < n
    ensures var top := ys[|ys| - 1].seqNo;
            StrictlyAscending(xs + ys) && Below(xs + ys, top + 1) && last < top < n
  {
  }

  lemma PollAscends(r: Reader, buffer: seq<Packet>, n: nat)
    requires r.last < n && StrictlyAscending(r.sent) && Below(r.sent, r.last + 1)
    requires Below(buffer, n) && StrictlyAscending(Unsent(buffer, r.last))
    ensures var r' := Poll(r, buffer);
            r'.last < n && StrictlyAscending(r'.sent) && Below(r'.sent, r'.last + 1)
  {
    hide StrictlyAscending, Unsent;
    var items := Unsent(buffer, r.last);
    forall i | 0 <= i < |items| ensures r.last < items[i].seqNo < n {
      assert items[i] in items;
    }
    if items != [] {
      JoinAscends(r.sent, items, r.last, n);
    }
  }

  lemma PollExtends(r: Reader, buffer: seq<Packet>, n: nat)
    requires r.last < n && StrictlyAscending(r.sent) && Below(r.sent, r.last + 1)
    requires Below(buffer, n) && StrictlyAscending(Unsent(buffer, r.last))
    requires forall p :: p in buffer && p.seqNo <= r.last ==> p in r.sent
    ensures var r' := Poll(r, buffer);
            && r'.last < n && StrictlyAscending(r'.sent) && Below(r'.sent, r'.last + 1)
            && forall p :: p in buffer ==> p in r'.sent
  {
    hide StrictlyAscending, Below, Unsent;
    PollAscends(r, buffer, n);
    forall p | p in buffer ensures p in Poll(r, buffer).sent {
      assert p.seqNo > r.last ==> p in Unsent(buffer, r.last);
    }
  }

  /** However often it polls, whatever is recorded and cleared in between: no packet is sent twice,
      and every packet held at a poll has been sent. */
  lemma {:induction false} SessionUpToDate(segments: seq<seq<Event>>, key: string)
    requires key != ALL
    ensures UpToDate(Session(segments, key), Flat(segments), key)
    decreases |segments|
  {
    if segments != [] {
      var n := |segments| - 1;
      SessionUpToDate(segments[..n], key);
      PollUpToDate(Session(segments[..n], key), Flat(segments[..n]), segments[n], key);
    }
  }

  // ---- What the reader sends and what it misses ----

  /** All packets ever recorded into the buffer `key`, cleared away or not. */
  function Ever(events: seq<Event>, key: string): seq<Packet> {
    if events == [] then []
    else
      var n := |events| - 1;
      Ever(events[..n], key) + match events[n]
        case Record(protocol, payload) =>
          if Feeds(protocol, key) then [Packet(Run(events[..n]).nextSeq, protocol, payload)] else []
        case Clear(_) => []
  }

  /** A buffer holds nothing but what was recorded into it, under numbers given out. */
  lemma {:induction false} HeldWasRecorded(events: seq<Event>, key: string)
    ensures forall p :: p in Buffer(Run(events), key) ==> p in Ever(events, key)
    ensures forall p :: p in Ever(events, key) ==> p.seqNo < Run(events).nextSeq
    decreases |events|
  {
    hide Buffer, Push, Feeds;
    if events == [] {
      NothingHeld(key);
    } else {
      var n := |events| - 1;
      var st, e := Run(events[..n]), events[n];
      HeldWasRecorded(events[..n], key);
      NumberGrows(st, e);
      forall p | p in Buffer(Step(st, e), key) ensures p in Ever(events, key) {
        StepAdds(st, e, key, p);
      }
    }
  }

  lemma NothingHeld(key: string)
    ensures Buffer(Run([]), key) == []
  {
  }

  lemma {:induction false} EverGrows(before: seq<Event>, later: seq<Event>, key: string)
    ensures forall p :: p in Ever(before, key) ==> p in Ever(before + later, key)
    decreases |later|
  {
    if later == [] {
      assert before + later == before;
    } else {
      var n := |later| - 1;
      assert (before + later)[..|before| + n] == before + later[..n];
      EverGrows(before, later[..n], key);
    }
  }

  /** The history up to a poll is a first part of the history. */
  lemma {:induction false} FlatPrefix(segments: seq<seq<Event>>, j: nat)
    requires j <= |segments|
    ensures Flat(segments[..j]) <= Flat(segments)
    decreases |segments|
  {
    if j == |segments| {
      assert segments[..j] == segments;
    } else {
      var n := |segments| - 1;
      FlatPrefix(segments[..n], j);
      assert segments[..n][..j] == segments[..j];
    }
  }

  lemma FlatSplit(segments: seq<seq<Event>>, i: nat, j: nat) returns (later: seq<Event>)
    requires i <= j <= |segments|
    ensures Flat(segments[..j]) == Flat(segments[..i]) + later
  {
    FlatPrefix(segments[..j], i);
    assert segments[..j][..i] == segments[..i];
    later := Flat(segments[..j])[|Flat(segments[..i])|..];
  }

  /** What is sent stays sent. */
  lemma {:induction false} SentGrows(segments: seq<seq<Event>>, j: nat, key: string)
    requires j <= |segments|
    ensures Session(segments[..j], key).sent <= Session(segments, key).sent
    decreases |segments|
  {
    hide Run, Buffer, Unsent;
    if j == |segments| {
      assert segments[..j] == segments;
    } else {
      var n := |segments| - 1;
      SentGrows(segments[..n], j, key);
      assert segments[..n][..j] == segments[..j];
    }
  }

  /** A packet is sent only at a poll at which the buffer holds it. */
  lemma {:induction false} SentWasHeld(segments: seq<seq<Event>>, key: string, p: Packet) returns (i: nat)
    requires p in Session(segments, key).sent
    ensures 0 < i <= |segments| && p in Buffer(Run(Flat(segments[..i])), key)
    decreases |segments|
  {
    hide Run, Buffer;
    var n := |segments| - 1;
    if p in Session(segments[..n], key).sent {
      i := SentWasHeld(segments[..n], key, p);
      assert segments[..n][..i] == segments[..i];
    } else {
      i := |segments|;
      assert segments[..i] == segments;
    }
  }

  /** Everything sent was recorded into that buffer. */
  lemma SentWasRecorded(segments: seq<seq<Event>>, key: string, p: Packet)
    requires p in Session(segments, key).sent
    ensures p in Ever(Flat(segments), key)
  {
    hide Run, Buffer, Session;
    var i := SentWasHeld(segments, key, p);
    HeldWasRecorded(Flat(segments[..i]), key);
    var later := FlatSplit(segments, i, |segments|);
    assert segments[..|segments|] == segments;
    EverGrows(Flat(segments[..i]), later, key);
  }

  /** A packet recorded between two polls is sent exactly when the buffer still holds it at the second one: what is
      missed was evicted or cleared before it. */
  lemma SentIff(segments: seq<seq<Event>>, key: string, j: nat, p: Packet)
    requires key != ALL && 0 < j <= |segments|
    requires p in Ever(Flat(segments[..j]), key) && p !in Ever(Flat(segments[..j - 1]), key)
    ensures p in Session(segments, key).sent <==> p in Buffer(Run(Flat(segments[..j])), key)
  {
    hide Run, Buffer, Session, Flat, Ever;
    HeldWasRecorded(Flat(segments[..j]), key);
    if p in Buffer(Run(Flat(segments[..j])), key) {
      SessionUpToDate(segments[..j], key);
      SentGrows(segments, j, key);
    }
    if p in Session(segments, key).sent {
      var i := SentWasHeld(segments, key, p);
      if i < j {
        HeldWasRecorded(Flat(segments[..i]), key);
        var later := FlatSplit(segments, i, j - 1);
        EverGrows(Flat(segments[..i]), later, key);
        assert false;
      } else {
        var later := FlatSplit(segments, j, i);
        StillHeld(Flat(segments[..j]), later, key, p);
      }
    }
  }
}
