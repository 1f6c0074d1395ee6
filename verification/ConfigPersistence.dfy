/** Saving and loading the configuration as a whole: overrides, encryption, the save protocol, recovery from a
    snapshot, decryption and placeholders. */
module ConfigPersistence {
  import opened Common
  import opened ConfigTree
  import opened SaveProtocol
  import opened EnvOverrides
  import Secrets
  import TemplateSubst

  // ---- Placeholders ----

  predicate Contains(s: string, x: string) {
    exists i | 0 <= i <= |s| :: At(s, i, x)
  }

  const SECRET_WORDS := ["password", "secret", "token", "key"]

  /** The name holds a word that stands for a secret. */
  predicate NamesSecret(lower: string -> string, name: string) {
    exists k | 0 <= k < |SECRET_WORDS| :: Contains(lower(name), SECRET_WORDS[k])
  }

  /** The end of the name in `expr`; a default follows unless that is the end of all. */
  function NameEnd(expr: string): (c: nat)
    ensures c <= |expr|
  {
    TemplateSubst.IndexOf(expr, 0, ':')
  }

  /** What `${expr}` stands for: the variable, the default after a colon, nothing for a secret; else it stays. */
  function Expansion(env: Environment, expr: string): string {
    var c := NameEnd(expr);
    var name := expr[..c];
    if name in env.vars then env.vars[name]
    else if c < |expr| then expr[c + 1..]
    else if NamesSecret(env.lower, name) then ""
    else "${" + expr + "}"
  }

  function Expanded(env: Environment, s: string, i: nat): string
    requires i <= |s|
    decreases |s| - i
  {
    if i == |s| then ""
    else
      match TemplateSubst.MatchTemplate(s, i)
      case Some(e) => Expansion(env, s[i + 2..e - 1]) + Expanded(env, s, e)
      case None => [s[i]] + Expanded(env, s, i + 1)
  }

  predicate HasPlaceholder(s: string) {
    exists i | 0 <= i < |s| :: TemplateSubst.MatchTemplate(s, i).Some?
  }

  /** The items of a list, without the texts in which a placeholder is left. */
  function Resolved(env: Environment, items: seq<Value>): (r: seq<Value>)
    ensures |r| <= |items|
  {
    if items == [] then []
    else
      var x := Resolve(env, items[0]);
      (if x.Str? && HasPlaceholder(x.s) then [] else [x]) + Resolved(env, items[1..])
  }

  function Resolve(env: Environment, v: Value): (r: Value)
    ensures v.Map? <==> r.Map?
  {
    match v
    case Str(s) => Str(Expanded(env, s, 0))
    case List(items) => List(Resolved(env, items))
    case Map(m) => Map(map k | k in m :: Resolve(env, m[k]))
    case _ => v
  }

  // ---- What an environment leaves alone ----

  /** A list keeps the item: it holds no placeholder. */
  predicate KeptInList(v: Value) {
    v.Str? ==> !HasPlaceholder(v.s)
  }

  /** Every text is its own expansion, and no text in a list holds a placeholder. */
  predicate Steady(env: Environment, v: Value) {
    match v
    case Str(s) => Expanded(env, s, 0) == s
    case List(items) => forall k :: 0 <= k < |items| ==> Steady(env, items[k]) && KeptInList(items[k])
    case Map(m) => forall k :: k in m ==> Steady(env, m[k])
    case _ => true
  }

  lemma {:induction false} ItemsSteadyIff(env: Environment, items: seq<Value>)
    ensures Resolved(env, items) == items
       <==> forall k :: 0 <= k < |items| ==> Steady(env, items[k]) && KeptInList(items[k])
  {
    hide HasPlaceholder, Expanded;
    if items != [] {
      var x, rest := Resolve(env, items[0]), Resolved(env, items[1..]);
      SteadyIff(env, items[0]);
      ItemsSteadyIff(env, items[1..]);
      assert forall k :: 1 <= k < |items| ==> items[k] == items[1..][k - 1];
      if x.Str? && HasPlaceholder(x.s) {
        assert Resolved(env, items) == [] + rest;
      } else {
        assert Resolved(env, items) == [x] + rest;
        assert items == [items[0]] + items[1..];
      }
    }
  }

  /** Resolving leaves a tree alone exactly when it is steady. */
  lemma {:induction false} SteadyIff(env: Environment, v: Value)
    ensures Resolve(env, v) == v <==> Steady(env, v)
  {
    hide HasPlaceholder, Expanded;
    match v
    case List(items) => ItemsSteadyIff(env, items);
    case Map(m) =>
      forall k | k in m ensures Resolve(env, m[k]) == m[k] <==> Steady(env, m[k]) {
        SteadyIff(env, m[k]);
      }
      assert Resolve(env, v) == v <==> forall k :: k in m ==> Resolve(env, m[k]) == m[k] by {
        if forall k :: k in m ==> Resolve(env, m[k]) == m[k] {
          assert Resolve(env, v).m == m;
        }
      }
    case _ =>
  }

  /** Whatever is not overridden is steady. */
  predicate SteadyOutside(env: Environment, v: Value, over: Value)
    requires v.Map? && over.Map?
    decreases v
  {
    forall k :: k in v.m ==>
      if k !in over.m then Steady(env, v.m[k])
      else v.m[k].Map? && over.m[k].Map? ==> SteadyOutside(env, v.m[k], over.m[k])
  }

  /** Where overrides are in effect already, laying them over what resolving leaves gives the tree back exactly when
      it is steady outside them. */
  lemma {:induction false} SteadyOutsideIff(env: Environment, v: Value, over: Value)
    requires v.Map? && over.Map? && Merge(v, over) == v
    ensures Merge(Resolve(env, v), over) == v <==> SteadyOutside(env, v, over)
    decreases v
  {
    hide HasPlaceholder, Expanded, Resolved, Steady;
    var r := Merge(Resolve(env, v), over);
    assert Merge(v, over).m.Keys == v.m.Keys + over.m.Keys && r.m.Keys == v.m.Keys;
    forall k | k in v.m
      ensures r.m[k] == v.m[k]
         <==> if k !in over.m then Steady(env, v.m[k])
              else v.m[k].Map? && over.m[k].Map? ==> SteadyOutside(env, v.m[k], over.m[k])
    {
      assert Merge(v, over).m[k] == v.m[k] && Resolve(env, v).m[k] == Resolve(env, v.m[k]);
      SteadyIff(env, v.m[k]);
      if k in over.m && v.m[k].Map? && over.m[k].Map? {
        SteadyOutsideIff(env, v.m[k], over.m[k]);
      }
    }
    assert r == v <==> forall k :: k in v.m ==> r.m[k] == v.m[k];
  }

  // ---- What every environment leaves alone ----

  /** A name that the environment of a process may hold; no name has an equals sign, and nothing there a null
      character. */
  predicate NameOk(name: string) {
    '=' !in name && '\0' !in name
  }

  predicate EnvironmentOk(env: Environment) {
    forall name :: name in env.vars ==> NameOk(name) && '\0' !in env.vars[name]
  }

  /** No override comes from the environment. */
  predicate WithoutOverrides(env: Environment) {
    forall name :: name in env.vars ==> !(PREFIX <= name)
  }

  /** `${expr}` stays in every environment without overrides: it has no default, names no secret, and its variable is
      one that cannot be set there. */
  predicate Stays(lower: string -> string, expr: string) {
    NameEnd(expr) == |expr| && !NamesSecret(lower, expr) && (!NameOk(expr) || PREFIX <= expr)
  }

  /** All placeholders from `i` on stay. */
  predicate AllStay(lower: string -> string, s: string, i: nat)
    requires i <= |s|
    decreases |s| - i
  {
    i == |s| ||
    match TemplateSubst.MatchTemplate(s, i)
    case Some(e) => Stays(lower, s[i + 2..e - 1]) && AllStay(lower, s, e)
    case None => AllStay(lower, s, i + 1)
  }

  /** All placeholders in the tree stay, and none stands in an item of a list. */
  predicate Harmless(lower: string -> string, v: Value) {
    match v
    case Str(s) => AllStay(lower, s, 0)
    case List(items) => forall k :: 0 <= k < |items| ==> Harmless(lower, items[k]) && KeptInList(items[k])
    case Map(m) => forall k :: k in m ==> Harmless(lower, m[k])
    case _ => true
  }

  lemma TemplateAt(s: string, i: nat, e: nat)
    requires TemplateSubst.MatchTemplate(s, i) == Some(e)
    ensures i + 4 <= e <= |s| && s[i..e] == "${" + s[i + 2..e - 1] + "}"
  {
    assert s[i] == '$' && s[i + 1] == '{' && s[e - 1] == '}';
  }

  /** An expansion without default, secret or variable leaves the placeholder. */
  lemma NoExpansion(env: Environment, expr: string)
    requires NameEnd(expr) == |expr| && !NamesSecret(env.lower, expr) && expr !in env.vars
    ensures Expansion(env, expr) == "${" + expr + "}"
  {
    assert expr[..|expr|] == expr;
  }

  lemma StayingExpansion(env: Environment, expr: string)
    requires EnvironmentOk(env) && WithoutOverrides(env) && Stays(env.lower, expr)
    ensures Expansion(env, expr) == "${" + expr + "}"
  {
    NoExpansion(env, expr);
  }

  lemma {:induction false} StayingText(env: Environment, s: string, i: nat)
    requires EnvironmentOk(env) && WithoutOverrides(env) && i <= |s| && AllStay(env.lower, s, i)
    ensures Expanded(env, s, i) == s[i..]
    decreases |s| - i
  {
    hide Stays, Expansion, EnvironmentOk, WithoutOverrides;
    if i < |s| {
      match TemplateSubst.MatchTemplate(s, i)
      case Some(e) =>
        TemplateAt(s, i, e);
        StayingExpansion(env, s[i + 2..e - 1]);
        StayingText(env, s, e);
        assert s[i..] == s[i..e] + s[e..];
      case None =>
        StayingText(env, s, i + 1);
    }
  }

  lemma {:induction false} HarmlessIsSteady(env: Environment, v: Value)
    requires EnvironmentOk(env) && WithoutOverrides(env) && Harmless(env.lower, v)
    ensures Steady(env, v)
  {
    hide HasPlaceholder, Expanded, AllStay, EnvironmentOk, WithoutOverrides;
    match v
    case Str(s) => StayingText(env, s, 0);
    case List(items) =>
      forall k | 0 <= k < |items| ensures Steady(env, items[k]) {
        HarmlessIsSteady(env, items[k]);
      }
    case Map(m) =>
      forall k | k in m ensures Steady(env, m[k]) {
        HarmlessIsSteady(env, m[k]);
      }
    case _ =>
  }

  /** A placeholder with a default, or for a secret, expands to something shorter where no variable is set. */
  predicate Shrinks(lower: string -> string, expr: string) {
    NameEnd(expr) < |expr| || NamesSecret(lower, expr)
  }

  predicate SomeShrinks(lower: string -> string, s: string, i: nat)
    requires i <= |s|
    decreases |s| - i
  {
    i < |s| &&
    match TemplateSubst.MatchTemplate(s, i)
    case Some(e) => Shrinks(lower, s[i + 2..e - 1]) || SomeShrinks(lower, s, e)
    case None => SomeShrinks(lower, s, i + 1)
  }

  lemma ExpansionShrinks(lower: string -> string, expr: string)
    ensures |Expansion(Environment(map[], lower), expr)| <= |expr| + 3
    ensures Shrinks(lower, expr) ==> |Expansion(Environment(map[], lower), expr)| < |expr| + 3
  {
    assert expr[..|expr|] == expr;
  }

  lemma ExpansionLengthens(lower: string -> string, expr: string, name: string, value: string)
    requires !Shrinks(lower, expr)
    ensures Expansion(Environment(map[name := value], lower), expr) == if expr == name then value else "${" + expr + "}"
  {
    assert expr[..|expr|] == expr;
  }

  lemma {:induction false} EmptyShrinks(lower: string -> string, s: string, i: nat)
    requires i <= |s|
    ensures |Expanded(Environment(map[], lower), s, i)| <= |s| - i
    ensures SomeShrinks(lower, s, i) ==> |Expanded(Environment(map[], lower), s, i)| < |s| - i
    decreases |s| - i
  {
    hide Shrinks, Expansion, TemplateSubst.MatchTemplate;
    if i < |s| {
      match TemplateSubst.MatchTemplate(s, i)
      case Some(e) =>
        ExpansionShrinks(lower, s[i + 2..e - 1]);
        EmptyShrinks(lower, s, e);
      case None => EmptyShrinks(lower, s, i + 1);
    }
  }

  /** A text in which every placeholder that is left can be set, and one at least: setting its variable lengthens it. */
  lemma {:induction false} LongValueLengthens(lower: string -> string, s: string, i: nat, name: string, value: string)
    requires i <= |s| && !SomeShrinks(lower, s, i) && |value| >= |s|
    ensures |Expanded(Environment(map[name := value], lower), s, i)| >= |s| - i
    ensures Mentions(s, i, name) ==> |Expanded(Environment(map[name := value], lower), s, i)| >= |value|
    decreases |s| - i
  {
    hide Shrinks, Expansion;
    if i < |s| {
      match TemplateSubst.MatchTemplate(s, i)
      case Some(e) =>
        ExpansionLengthens(lower, s[i + 2..e - 1], name, value);
        LongValueLengthens(lower, s, e, name, value);
      case None => LongValueLengthens(lower, s, i + 1, name, value);
    }
  }

  /** `${name}` is one of the placeholders from `i` on. */
  predicate Mentions(s: string, i: nat, name: string)
    requires i <= |s|
    decreases |s| - i
  {
    i < |s| &&
    match TemplateSubst.MatchTemplate(s, i)
    case Some(e) => s[i + 2..e - 1] == name || Mentions(s, e, name)
    case None => Mentions(s, i + 1, name)
  }

  /** Where not all placeholders stay and none shrinks, some variable can be set. */
  lemma {:induction false} SettableName(lower: string -> string, s: string, i: nat) returns (name: string)
    requires i <= |s| && !AllStay(lower, s, i) && !SomeShrinks(lower, s, i)
    ensures Mentions(s, i, name) && NameOk(name) && !(PREFIX <= name)
    decreases |s| - i
  {
    hide NamesSecret, NameOk;
    match TemplateSubst.MatchTemplate(s, i)
    case Some(e) =>
      name := s[i + 2..e - 1];
      if Stays(lower, name) {
        name := SettableName(lower, s, e);
      }
    case None => name := SettableName(lower, s, i + 1);
  }

  function Xs(n: nat): (s: string)
    ensures |s| == n && '\0' !in s
  {
    if n == 0 then "" else Xs(n - 1) + "x"
  }

  lemma SomeEnvironmentChangesText(lower: string -> string, s: string) returns (env: Environment)
    requires !AllStay(lower, s, 0)
    ensures env.lower == lower && EnvironmentOk(env) && LoadedFrom(env, Map(map[])) && Expanded(env, s, 0) != s
  {
    hide NameOk, AllStay, SomeShrinks, Expanded, Mentions;
    if SomeShrinks(lower, s, 0) {
      env := Environment(map[], lower);
      EmptyShrinks(lower, s, 0);
      NothingOverridden(env, []);
    } else {
      var name := SettableName(lower, s, 0);
      env := Environment(map[name := Xs(|s| + 1)], lower);
      LongValueLengthens(lower, s, 0, name, Xs(|s| + 1));
      NothingOverridden(env, [name]);
    }
  }

  lemma NothingOverridden(env: Environment, order: seq<string>)
    requires Enumerates(order, env) && |order| <= 1 && WithoutOverrides(env)
    ensures LoadedFrom(env, Map(map[]))
  {
    EmptyBuild(env);
    if |order| == 1 {
      assert [] + [order[0]] == order;
      NextOverride(env, [], order[0]);
    }
  }

  /** A list item with a placeholder never comes back. */
  lemma ItemLost(env: Environment, items: seq<Value>, k: nat)
    requires k < |items| && !KeptInList(items[k])
    ensures !Steady(env, List(items))
  {
  }

  /** Any other placeholder changes the tree in some environment that brings no override. */
  lemma {:induction false} SomeEnvironmentChanges(lower: string -> string, v: Value) returns (env: Environment)
    requires !Harmless(lower, v)
    ensures env.lower == lower && EnvironmentOk(env) && LoadedFrom(env, Map(map[])) && !Steady(env, v)
  {
    hide KeptInList, AllStay, EnvironmentOk, LoadedFrom, Expanded;
    match v
    case Str(s) => env := SomeEnvironmentChangesText(lower, s);
    case List(items) =>
      var k :| 0 <= k < |items| && !(Harmless(lower, items[k]) && KeptInList(items[k]));
      if KeptInList(items[k]) {
        env := SomeEnvironmentChanges(lower, items[k]);
      } else {
        env := EmptyEnvironment(lower);
        ItemLost(env, items, k);
      }
    case Map(m) =>
      var k :| k in m && !Harmless(lower, m[k]);
      env := SomeEnvironmentChanges(lower, m[k]);
  }

  lemma EmptyEnvironment(lower: string -> string) returns (env: Environment)
    ensures env.lower == lower && EnvironmentOk(env) && LoadedFrom(env, Map(map[]))
  {
    env := Environment(map[], lower);
    NothingOverridden(env, []);
  }

  lemma SetNotEmpty(v: Value, p: Path, x: Value)
    requires p != []
    ensures Set(v, p, x) != Map(map[])
  {
    assert p[0] in Set(v, p, x).m;
  }

  /** A variable with the prefix brings an override. */
  lemma {:induction false} NoneLoaded(env: Environment, order: seq<string>)
    requires Known(env, order) && Build(Overrides(env, order)) == Map(map[])
    ensures forall k :: 0 <= k < |order| ==> !(PREFIX <= order[k])
    decreases |order|
  {
    hide Build, Overrides, ToOverride, Set;
    if order != [] {
      var n := |order| - 1;
      var init, last := order[..n], order[n];
      assert order == init + [last] && Known(env, init);
      NextOverride(env, init, last);
      if PREFIX <= last {
        SetNotEmpty(Build(Overrides(env, init)), ToOverride(env, last).path, ToOverride(env, last).value);
      } else {
        NoneLoaded(env, init);
      }
    }
  }

  lemma LoadedNothing(env: Environment)
    requires LoadedFrom(env, Map(map[]))
    ensures WithoutOverrides(env)
  {
    hide Build, Overrides;
    var order :| Enumerates(order, env) && Map(map[]) == Build(Overrides(env, order));
    NoneLoaded(env, order);
    forall name | name in env.vars ensures !(PREFIX <= name) {
      assert name in order;
    }
  }

  // ---- Loading ----

  /** Values that Python takes for false. */
  predicate Falsy(v: Value) {
    v == Null || v == Scalar(0) || v == Str("") || v == List([]) || v == Map(map[])
  }

  /** The latest snapshot, if it is a map that is not empty. */
  function Recovered(versions: seq<Value>): Value {
    if versions != [] && versions[|versions| - 1].Map? && versions[|versions| - 1] != Map(map[])
    then versions[|versions| - 1]
    else Map(map[])
  }

  /** What loading starts from: the file, nothing for a file that is missing or empty, and the latest snapshot when
      reading raises an exception that is caught; `None` when one escapes. */
  function ReadData(f: Format, file: Option<string>, versions: seq<Value>): Option<Value> {
    match file
    case None => Some(Map(map[]))
    case Some(text) =>
      match f.parse(text)
      case Caught => Some(Recovered(versions))
      case Escapes => None
      case Parsed(v) => Some(if Falsy(v) then Map(map[]) else v)
  }

  function SecretPaths(): (paths: seq<Path>)
    ensures Secrets.PathsOk(paths)
  {
    Secrets.ListedPathsOk();
    Secrets.ENCRYPTED_SECRET_PATHS
  }

  /** Decryption, placeholders, overrides; data that is no map raises. */
  function Loaded(sm: Secrets.SecretManager, env: Environment, over: Value, data: Value): Option<Value>
    requires over.Map?
  {
    var clear := Resolve(env, Secrets.DecryptAll(sm, data, SecretPaths()));
    if clear.Map? then Some(Merge(clear, over)) else None
  }

  /** What a save writes. */
  function Persisted(sm: Secrets.SecretManager, base: nat, over: Value, config: Value): Value
    requires config.Map? && over.Map?
  {
    Secrets.EncryptAll(sm, base, Merge(config, over), SecretPaths())
  }

  /** The snapshots are consulted exactly when there is a file and reading it raises an exception that is caught. */
  lemma SnapshotUsedIff(f: Format, file: Option<string>)
    ensures (exists vs, ws :: ReadData(f, file, vs) != ReadData(f, file, ws))
       <==> file.Some? && f.parse(file.value).Caught?
  {
    var v := [Map(map["k" := Null])];
    assert "k" in v[0].m;
    if file.Some? && f.parse(file.value).Caught? {
      assert ReadData(f, file, []) == Some(Map(map[])) && ReadData(f, file, v) == Some(v[0]);
    }
  }

  /** No sensitive text of the tree looks encrypted unless decryption would leave it so. */
  predicate ClearText(sm: Secrets.SecretManager, v: Value) {
    !sm.initialized || forall k :: 0 <= k < |SecretPaths()| ==> Secrets.Survives(sm, Get(v, SecretPaths()[k]))
  }

  lemma LoadedIsMap(env: Environment, over: Value)
    requires LoadedFrom(env, over)
    ensures over.Map?
  {
    var order :| Enumerates(order, env) && over == Build(Overrides(env, order));
  }

  /** Loading what a save wrote in the same environment gives the configuration in effect, exactly when whatever the
      environment does not override is steady in it. */
  lemma LoadAfterSave(sm: Secrets.SecretManager, base: nat, env: Environment, over: Value, config: Value)
    requires Secrets.Lawful(sm) && config.Map? && over.Map? && LoadedFrom(env, over)
    requires ClearText(sm, Merge(config, over))
    ensures Loaded(sm, env, over, Persisted(sm, base, over, config)) == Some(Merge(config, over))
       <==> SteadyOutside(env, Merge(config, over), over)
  {
    hide SecretPaths, LoadedFrom, Resolve, Merge, SteadyOutside;
    hide Secrets.Lawful, Secrets.DecryptAll, Secrets.EncryptAll;
    var v := Merge(config, over);
    Secrets.RoundTripIff(sm, base, v, SecretPaths());
    MergeAbsorbs(config, over);
    SteadyOutsideIff(env, v, over);
  }

  lemma NothingOver(env: Environment, v: Value)
    requires v.Map?
    ensures Merge(v, Map(map[])) == v && (SteadyOutside(env, v, Map(map[])) <==> Steady(env, v))
  {
    assert Merge(v, Map(map[])).m == v.m;
  }

  /** A save comes back in every environment that brings no override, exactly when all its placeholders are harmless. */
  lemma LoadAfterSaveIff(sm: Secrets.SecretManager, base: nat, lower: string -> string, config: Value)
    requires Secrets.Lawful(sm) && config.Map? && ClearText(sm, config)
    ensures var none := Map(map[]);
            (forall env: Environment | env.lower == lower && EnvironmentOk(env) && LoadedFrom(env, none) ::
               Loaded(sm, env, none, Persisted(sm, base, none, config)) == Some(config))
            <==> Harmless(lower, config)
  {
    hide SecretPaths, Secrets.Lawful, Harmless, Steady, LoadedFrom, Loaded, Persisted, EnvironmentOk, Merge, ClearText;
    var none := Map(map[]);
    forall env: Environment | env.lower == lower && EnvironmentOk(env) && LoadedFrom(env, none)
      ensures Loaded(sm, env, none, Persisted(sm, base, none, config)) == Some(config) <==> Steady(env, config)
    {
      NothingOver(env, config);
      LoadAfterSave(sm, base, env, none, config);
    }
    if Harmless(lower, config) {
      forall env: Environment | env.lower == lower && EnvironmentOk(env) && LoadedFrom(env, none)
        ensures Steady(env, config)
      {
        LoadedNothing(env);
        HarmlessIsSteady(env, config);
      }
    } else {
      var env := SomeEnvironmentChanges(lower, config);
      assert Loaded(sm, env, none, Persisted(sm, base, none, config)) != Some(config);
    }
  }

  // ---- Recovery of a damaged file ----

  predicate NonEmptyMap(v: Value) {
    v.Map? && v != Map(map[])
  }

  /** Whatever saves, failures and crashes there were since the file was the latest snapshot: recovery gives what an
      intact file would, exactly when the save that replaced it last stored the same as the one that recorded last. */
  lemma RecoveryIff(f: Format, start: State, events: seq<Event>, initially: Value)
    requires Faithful(f) && StartsWith(start, initially)
    requires start.versions != [] && start.file == Some(f.dump(initially)) && NonEmptyMap(initially)
    requires forall id :: id in BookOf(f, start, events).contents ==> NonEmptyMap(BookOf(f, start, events).contents[id])
    ensures var st, b := Run(f, start, events), BookOf(f, start, events);
            Some(Recovered(st.versions)) == ReadData(f, st.file, [])
            <==> StoredBy(b, b.replacer, initially) == StoredBy(b, Recorder(b), initially)
  {
    hide Run, BookOf;
    BookedContents(f, start, events, initially);
  }

  /** With a single save, recovery differs exactly when that save recorded something else and did not replace the
      file. */
  lemma RecoveryAfterOneSave(f: Format, start: State, events: seq<Event>, id: nat, initially: Value)
    requires Faithful(f) && StartsWith(start, initially) && OnlySave(events, id)
    requires start.versions != [] && start.file == Some(f.dump(initially)) && NonEmptyMap(initially)
    requires forall id :: id in BookOf(f, start, events).contents ==> NonEmptyMap(BookOf(f, start, events).contents[id])
    ensures var st, b := Run(f, start, events), BookOf(f, start, events);
            Some(Recovered(st.versions)) == ReadData(f, st.file, [])
            <==> Recorder(b).None? || b.replacer.Some? || StoredBy(b, Some(id), initially) == initially
  {
    hide Run, BookOf, Recovered, ReadData;
    RecoveryIff(f, start, events, initially);
    OnlyOne(f, start, events, id, initially);
  }
}
