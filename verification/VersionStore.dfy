/** The OPC UA configuration version store: ids stay fresh, and a version restores what was saved. */
module VersionStore {
  import opened Common

  datatype Version = Version(deviceId: string, config: string, summary: string, operator: string, version: nat)

  // ---- Version ids ----

  function VersionId(deviceId: string, n: nat): string {
    deviceId + "_v" + Decimal(n)
  }

  lemma {:induction false} DecimalLacksV(n: nat)
    ensures Lacks(Decimal(n), 'v')
    decreases n
  {
    if n >= 10 {
      DecimalLacksV(n / 10);
    }
  }

  lemma {:induction false} DecimalInjective(m: nat, n: nat)
    requires Decimal(m) == Decimal(n)
    ensures m == n
    decreases m
  {
    var s := Decimal(m);
    assert s[|s| - 1] == Digit(m % 10) && s[|s| - 1] == Digit(n % 10);
    if m >= 10 && n >= 10 {
      assert Decimal(m / 10) == s[..|s| - 1] && Decimal(n / 10) == s[..|s| - 1];
      DecimalInjective(m / 10, n / 10);
    }
  }

  /** What follows the last `v` is determined, even when a device id holds a `_v` of its own. */
  lemma LastCutUnique(x: string, a: string, y: string, b: string)
    requires x + "_v" + a == y + "_v" + b && Lacks(a, 'v') && Lacks(b, 'v')
    ensures x == y && a == b
  {
    var z := x + "_v" + a;
    assert z[|z| - |a| - 1] == 'v' && z[|z| - |b| - 1] == 'v';
    assert forall k :: 0 <= k < |a| ==> z[|z| - |a| + k] == a[k];
    assert forall k :: 0 <= k < |b| ==> z[|z| - |b| + k] == b[k];
    assert |a| == |b|;
    assert z[..|x|] == x && z[..|y|] == y && z[|z| - |a|..] == a && z[|z| - |b|..] == b;
  }

  /** An id determines the device and the number it was made from. */
  lemma VersionIdInjective(d: string, m: nat, e: string, n: nat)
    requires VersionId(d, m) == VersionId(e, n)
    ensures d == e && m == n
  {
    DecimalLacksV(m);
    DecimalLacksV(n);
    LastCutUnique(d, Decimal(m), e, Decimal(n));
    DecimalInjective(m, n);
  }

  // ---- The store ----

  /** The versions by id, and the ids in the order of their insertion. */
  datatype Store = Store(ids: seq<string>, table: map<string, Version>)

  const EMPTY_STORE := Store([], map[])

  /** Dictionary assignment: a new id goes last, a known one keeps its place. */
  function Put(st: Store, id: string, v: Version): Store {
    Store(if id in st.table then st.ids else st.ids + [id], st.table[id := v])
  }

  function Saved(st: Store, deviceId: string, config: string, summary: string, operator: string): Version {
    Version(deviceId, config, summary, operator, |st.table| + 1)
  }

  function Save(st: Store, deviceId: string, config: string, summary: string, operator: string): Store {
    var v := Saved(st, deviceId, config, summary, operator);
    Put(st, VersionId(deviceId, v.version), v)
  }

  /** The store holds exactly the versions `vs`, numbered from one on in the order they were saved. */
  ghost predicate Holds(st: Store, vs: seq<Version>) {
    && |st.ids| == |vs| == |st.table|
    && (forall id :: id in st.table <==> id in st.ids)
    && forall i :: 0 <= i < |vs| ==>
         && vs[i].version == i + 1
         && st.ids[i] == VersionId(vs[i].deviceId, i + 1)
         && st.ids[i] in st.table && st.table[st.ids[i]] == vs[i]
  }

  /** The id of the next version is not in use. */
  lemma NextIdFresh(st: Store, vs: seq<Version>, deviceId: string)
    requires Holds(st, vs)
    ensures VersionId(deviceId, |vs| + 1) !in st.table
  {
    var id := VersionId(deviceId, |vs| + 1);
    if id in st.table {
      var i :| 0 <= i < |st.ids| && st.ids[i] == id;
      VersionIdInjective(deviceId, |vs| + 1, vs[i].deviceId, i + 1);
      assert false;
    }
  }

  /** Saving adds one version and disturbs none. */
  lemma SaveHolds(st: Store, vs: seq<Version>, deviceId: string, config: string, summary: string, operator: string)
    requires Holds(st, vs)
    ensures Holds(Save(st, deviceId, config, summary, operator), vs + [Saved(st, deviceId, config, summary, operator)])
    ensures forall id :: id in st.table ==>
              id in Save(st, deviceId, config, summary, operator).table &&
              Save(st, deviceId, config, summary, operator).table[id] == st.table[id]
  {
    hide VersionId;
    NextIdFresh(st, vs, deviceId);
  }

  // ---- Whole histories ----

  datatype Event = SaveVersion(deviceId: string, config: string, summary: string, operator: string) | Stop

  function Step(st: Store, e: Event): Store {
    match e
    case SaveVersion(deviceId, config, summary, operator) => Save(st, deviceId, config, summary, operator)
    case Stop => EMPTY_STORE
  }

  function Run(events: seq<Event>): Store {
    if events == [] then EMPTY_STORE else Step(Run(events[..|events| - 1]), events[|events| - 1])
  }

  /** The versions saved since the last stop, numbered from one on. */
  function SinceStop(events: seq<Event>): seq<Version> {
    if events == [] then []
    else
      var before := SinceStop(events[..|events| - 1]);
      match events[|events| - 1]
      case SaveVersion(deviceId, config, summary, operator) =>
        before + [Version(deviceId, config, summary, operator, |before| + 1)]
      case Stop => []
  }

  /** Between two stops the store holds exactly the versions saved, whatever the device ids. */
  lemma {:induction false} RunHolds(events: seq<Event>)
    ensures Holds(Run(events), SinceStop(events))
    decreases |events|
  {
    if events != [] {
      var init, e := events[..|events| - 1], events[|events| - 1];
      RunHolds(init);
      if e.SaveVersion? {
        SaveHolds(Run(init), SinceStop(init), e.deviceId, e.config, e.summary, e.operator);
      }
    }
  }

  /** Every version saved since the last stop is restored with the configuration it was saved with. */
  lemma Restores(events: seq<Event>, i: nat)
    requires i < |SinceStop(events)|
    ensures var v := SinceStop(events)[i];
            && v.version == i + 1
            && VersionId(v.deviceId, i + 1) in Run(events).table
            && Run(events).table[VersionId(v.deviceId, i + 1)].config == v.config
  {
    RunHolds(events);
  }

  // ---- The manager as it runs ----

  class OpcUaConfigVersionManager {
    var ids: seq<string>
    var versions: map<string, Version>
    ghost var saved: seq<Version>  // what was saved since the last stop

    constructor ()
      ensures Valid() && saved == []
    {
      ids, versions, saved := [], map[], [];
    }

    function View(): Store
      reads this
    {
      Store(ids, versions)
    }

    ghost predicate Valid()
      reads this
    {
      Holds(View(), saved)
    }

    method SaveVersion(deviceId: string, config: string, summary: string, operator: string) returns (versionNo: nat)
      requires Valid()
      modifies this
      ensures Valid() && View() == Save(old(View()), deviceId, config, summary, operator)
      ensures versionNo == |old(saved)| + 1
      ensures saved == old(saved) + [Version(deviceId, config, summary, operator, versionNo)]
      ensures forall id :: id in old(versions) ==> id in versions && versions[id] == old(versions)[id]
    {
      SaveHolds(View(), saved, deviceId, config, summary, operator);
      versionNo := |versions| + 1;
      var id := VersionId(deviceId, versionNo);
      if id !in versions {
        ids := ids + [id];
      }
      versions := versions[id := Version(deviceId, config, summary, operator, versionNo)];
      saved := saved + [Version(deviceId, config, summary, operator, versionNo)];
    }

    method GetVersion(id: string) returns (v: Option<Version>)
      requires Valid()
      ensures forall i :: 0 <= i < |saved| && id == VersionId(saved[i].deviceId, i + 1) ==> v == Some(saved[i])
      ensures v.Some? ==> v.value in saved && id == VersionId(v.value.deviceId, v.value.version)
    {
      v := if id in versions then Some(versions[id]) else None;
    }

    method RestoreVersion(id: string) returns (config: Option<string>)
      requires Valid()
      ensures forall i :: 0 <= i < |saved| && id == VersionId(saved[i].deviceId, i + 1) ==>
                config == Some(saved[i].config)
      ensures config == None <==> id !in versions
    {
      var v := if id in versions then Some(versions[id]) else None;
      config := if v.Some? then Some(v.value.config) else None;
    }

    /** All versions in the order saved, or those of one device. */
    method ListVersions(deviceId: string) returns (r: seq<Version>)
      requires Valid()
      ensures exists at :: Lists(at, OfDevice(saved, deviceId)) && Reads(saved, at, r)
    {
      hide Lists, OfDevice;
      r := [];
      ghost var at: seq<nat> := [];
      NoneOfDevice(deviceId);
      for i := 0 to |ids|
        invariant Lists(at, OfDevice(saved[..i], deviceId))
        invariant Reads(saved, at, r)
      {
        var v := versions[ids[i]];
        NextOfDevice(saved, deviceId, i);
        if deviceId == "" || v.deviceId == deviceId {
          ListsNext(at, OfDevice(saved[..i], deviceId), i);
          r := r + [v];
          at := at + [i];
        } else {
          assert OfDevice(saved[..i], deviceId) + {} == OfDevice(saved[..i], deviceId);
        }
      }
      assert saved[..|saved|] == saved;
    }

    method Stop()
      modifies this
      ensures Valid() && saved == []
    {
      ids, versions, saved := [], map[], [];
    }
  }

  /** The places of the versions of a device; of all versions when none is given. */
  function OfDevice(vs: seq<Version>, deviceId: string): set<nat> {
    set k | 0 <= k < |vs| && (deviceId == "" || vs[k].deviceId == deviceId)
  }

  /** `r` are the versions at the places `at`. */
  predicate Reads(vs: seq<Version>, at: seq<nat>, r: seq<Version>) {
    |r| == |at| && forall k :: 0 <= k < |at| ==> at[k] < |vs| && r[k] == vs[at[k]]
  }

  lemma NoneOfDevice(deviceId: string)
    ensures Lists([], OfDevice([], deviceId))
  {
  }

  lemma NextOfDevice(vs: seq<Version>, deviceId: string, i: nat)
    requires i < |vs|
    ensures OfDevice(vs[..i + 1], deviceId)
         == OfDevice(vs[..i], deviceId) + if deviceId == "" || vs[i].deviceId == deviceId then {i} else {}
    ensures forall k :: k in OfDevice(vs[..i], deviceId) ==> k < i
  {
  }
}
