/** The process side of the save protocol: one save, section updates and loading, over the running configuration. */
module ConfigStoring {
  import opened Common
  import opened ConfigTree
  import opened SaveProtocol
  import opened ConfigPersistence
  import opened EnvOverrides
  import Secrets

  /** Where a save raises, if it does. */
  datatype Fault = Nowhere | InSnapshot(recorded: bool) | InOpen | InWrite(length: nat) | InReplace

  /** The section with those of the new values whose key it has. */
  function KnownKeys(section: map<string, Value>, values: map<string, Value>): map<string, Value> {
    map k | k in section :: if k in values then values[k] else section[k]
  }

  function Updated(config: Value, section: string, values: map<string, Value>,
                   validate: (string, Value) -> Option<Value>)
    : Option<Value>
    requires config.Map?
  {
    if section in config.m && config.m[section].Map? then
      match validate(section, Map(KnownKeys(config.m[section].m, values)))
      case Some(v) => Some(Map(config.m[section := v]))
      case None => None
    else None
  }

  /** `now` has the keys of the section, with the new value where there is one. */
  predicate Refreshed(section: map<string, Value>, values: map<string, Value>, now: map<string, Value>) {
    && now.Keys == section.Keys
    && forall k :: k in now ==> now[k] == if k in values then values[k] else section[k]
  }

  lemma OthersStay(config: Value, section: string, v: Value, p: Path)
    requires config.Map? && p != [] && p[0] != section
    ensures Get(Map(config.m[section := v]), p) == Get(config, p)
  {
  }

  /** An update validates the refreshed section, puts it in place of the old one and leaves the rest alone; it fails
      exactly when there is no such section or validation refuses. */
  lemma UpdateRefreshes(config: Value, section: string, values: map<string, Value>,
                        validate: (string, Value) -> Option<Value>, data: map<string, Value>)
    requires config.Map?
    requires section in config.m && config.m[section].Map? ==> Refreshed(config.m[section].m, values, data)
    ensures match Updated(config, section, values, validate)
            case Some(now) =>
              && section in config.m && config.m[section].Map?
              && Some(Get(now, [section])) == validate(section, Map(data))
              && forall p: Path :: p != [] && p[0] != section ==> Get(now, p) == Get(config, p)
            case None => section !in config.m || !config.m[section].Map? || validate(section, Map(data)) == None
  {
    hide Get, KnownKeys;
    if section in config.m && config.m[section].Map? {
      KnownRefresh(config.m[section].m, values, data);
      if v :| validate(section, Map(data)) == Some(v) {
        forall p: Path | p != [] && p[0] != section
          ensures Get(Map(config.m[section := v]), p) == Get(config, p)
        {
          OthersStay(config, section, v, p);
        }
        ReadsSection(config, section, v);
      }
    }
  }

  lemma KnownRefresh(section: map<string, Value>, values: map<string, Value>, data: map<string, Value>)
    requires Refreshed(section, values, data)
    ensures KnownKeys(section, values) == data
  {
  }

  lemma ReadsSection(config: Value, section: string, v: Value)
    requires config.Map?
    ensures Get(Map(config.m[section := v]), [section]) == v
  {
  }

  class ConfigStore {
    const f: Format
    const sm: Secrets.SecretManager

    /** The environment of the process, and the overrides that it loads to in its own order. */
    const env: Environment
    const over: Value

    var config: Value
    var file: Option<string>
    var versions: seq<Value>
    /** Counts the encryptions made so far. */
    var calls: nat

    /** The same disk as the protocol sees it, and what has happened to it. */
    ghost const start: State
    ghost var events: seq<Event>

    ghost predicate Valid()
      reads this
    {
      && LoadedFrom(env, over) && over.Map? && config.Map?
      && OnDisk(Run(f, start, events))
      && forall id :: id in Run(f, start, events).saves ==> id < |events|
    }

    predicate OnDisk(st: State)
      reads this
    {
      file == st.file && versions == st.versions
    }

    constructor (f: Format, sm: Secrets.SecretManager, env: Environment, over: Value, config: Value,
                 file: Option<string>, versions: seq<Value>)
      requires LoadedFrom(env, over) && config.Map?
      ensures Valid() && this.f == f && this.sm == sm && this.env == env && this.over == over && this.config == config
      ensures events == [] && start == State(file, None, versions, map[])
    {
      LoadedIsMap(env, over);
      this.f, this.sm, this.env, this.over := f, sm, env, over;
      this.config, this.file, this.versions := config, file, versions;
      calls, start, events := 0, State(file, None, versions, map[]), [];
    }

    ghost method Happens(e: Event)
      modifies this`events
      ensures events == old(events) + [e] && Run(f, start, events) == Step(f, old(Run(f, start, events)), e)
    {
      assert (events + [e])[..|events|] == events;
      events := events + [e];
    }

    /** Writes a temporary file and puts it in place of the configuration file. */
    method WriteFile(text: string, fault: Fault, ghost id: nat, ghost version: nat) returns (ok: bool)
      requires OnDisk(Run(f, start, events))
      requires PhaseOf(Run(f, start, events), id) == Some(Recorded(version))
      requires version < |versions| && text == f.dump(versions[version])
      modifies this`file, this`events
      ensures OnDisk(Run(f, start, events)) && old(events) < events
      ensures Run(f, start, events).saves
           == old(Run(f, start, events).saves)[id := if ok then Replaced(version) else Raised]
      ensures ok <==> fault != InOpen && fault != InReplace && !(fault.InWrite? && fault.length < |text|)
      ensures file == if ok then Some(text) else old(file)
    {
      hide Run;
      if fault == InOpen {
        Happens(Raise(id));
        return false;
      }
      Happens(OpenTemp(id));
      var temp := "";
      while |temp| < |text|
        invariant temp <= text && OnDisk(Run(f, start, events)) && file == old(file) && old(events) < events
        invariant Run(f, start, events).saves == old(Run(f, start, events).saves)[id := Writing(version, temp)]
        invariant fault.InWrite? ==> |temp| <= fault.length
      {
        if fault == InWrite(|temp|) {
          Happens(Raise(id));
          return false;
        }
        temp := text[..|temp| + 1];
        Happens(Write(id, |temp|));
      }
      if fault == InReplace {
        Happens(Raise(id));
        return false;
      }
      PrefixInFull(temp, text);
      file := Some(temp);
      Happens(Replace(id));
      return true;
    }

    /** Snapshot first, then the file, then the running configuration; raising leaves file and configuration alone. */
    method SaveConfig(fault: Fault) returns (ok: bool)
      requires Valid()
      modifies this
      ensures Valid() && config == old(config)
      ensures var content := Persisted(sm, old(calls), over, config);
              if ok then file == Some(f.dump(content)) && versions == old(versions) + [content]
              else file == old(file) && (versions == old(versions) || versions == old(versions) + [content])
      ensures ok <==> fault == Nowhere
                      || (fault.InWrite? && fault.length >= |f.dump(Persisted(sm, old(calls), over, config))|)
    {
      hide Run, Persisted, SecretPaths, LoadedFrom;
      var content := Content();
      calls := calls + |SecretPaths()|;
      ghost var id := |events|;
      ghost var version := |versions|;
      Happens(Begin(id, content));
      if fault.InSnapshot? {
        if fault.recorded {
          versions := versions + [content];
        }
        Happens(SnapshotRaises(id, fault.recorded));
        return false;
      }
      versions := versions + [content];
      Happens(Snapshot(id));
      ok := WriteFile(f.dump(content), fault, id, version);
      if ok {
        Happens(Publish(id));
      }
    }

    /** The running configuration with the overrides laid over it and its secrets encrypted. */
    method Content() returns (content: Value)
      requires over.Map? && config.Map?
      ensures content == Persisted(sm, calls, over, config)
    {
      hide SecretPaths;
      var merged := DeepMerge(config, over);
      var sensitive := new Secrets.SensitiveConfig(merged);
      sensitive.EncryptSensitive(sm, calls, SecretPaths());
      return sensitive.tree;
    }

    /** Replaces one section by its validated update, and takes it back when the save raises. A section that is
        unknown, or an update that validation refuses, raises before anything is done. */
    method UpdateConfigSection(section: string, values: map<string, Value>, validate: (string, Value) -> Option<Value>,
                               fault: Fault)
      returns (ok: bool)
      requires Valid()
      modifies this
      ensures Valid()
      ensures var updated := Updated(old(config), section, values, validate);
              if ok then
                && updated == Some(config)
                && versions == old(versions) + [Persisted(sm, old(calls), over, config)]
                && file == Some(f.dump(versions[|versions| - 1]))
              else
                && config == old(config) && file == old(file)
                && (versions == old(versions)
                    || (updated.Some? && versions == old(versions) + [Persisted(sm, old(calls), over, updated.value)]))
      ensures fault == Nowhere ==> (ok <==> Updated(old(config), section, values, validate).Some?)
    {
      hide Run, Persisted, SecretPaths, LoadedFrom;
      if section !in config.m || !config.m[section].Map? {
        return false;
      }
      var current := config.m[section];
      var data := current.m;
      var todo := values.Keys;
      while todo != {}
        invariant todo <= values.Keys
        invariant data == map k | k in current.m :: if k in values && k !in todo then values[k] else current.m[k]
        decreases |todo|
      {
        var key :| key in todo;
        if key in data {
          data := data[key := values[key]];
        }
        todo := todo - {key};
      }
      assert data == KnownKeys(current.m, values);
      var validated := validate(section, Map(data));
      if validated.None? {
        return false;
      }
      config := Map(config.m[section := validated.value]);
      ok := SaveConfig(fault);
      if !ok {
        config := Map(config.m[section := current]);
        assert config.m == old(config).m;
      }
    }

    /** The configuration as a fresh process would find it; `None` stands for an exception: one that escapes the
        reading, or data that is no map. */
    method LoadConfig() returns (loaded: Option<Value>)
      requires Valid()
      ensures loaded == match ReadData(f, file, versions)
                        case None => None
                        case Some(data) => Loaded(sm, env, over, data)
    {
      hide Run, LoadedFrom, SecretPaths, Resolve;
      var data := Map(map[]);
      if file.Some? {
        match f.parse(file.value) {
          case Parsed(value) =>
            if !Falsy(value) {
              data := value;
            }
          case Caught =>
            if versions != [] {
              var row := versions[|versions| - 1];
              if row.Map? && row.m != map[] {
                data := row;
              }
            }
          case Escapes =>
            return None;
        }
      }
      var sensitive := new Secrets.SensitiveConfig(data);
      sensitive.DecryptSensitive(sm, SecretPaths());
      var clear := Resolve(env, sensitive.tree);
      if !clear.Map? {
        return None;
      }
      if over.m == map[] {
        NothingOver(env, clear);
        return Some(clear);
      }
      var merged := DeepMerge(clear, over);
      return Some(merged);
    }
  }
}
