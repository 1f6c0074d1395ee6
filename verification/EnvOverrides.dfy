/** Configuration overrides from environment variables, and the configuration they take effect in. */
module EnvOverrides {
  import opened Common
  import opened ConfigTree
  import opened TextSplit

  // ---- From a variable to a path and a value ----

  const PREFIX := "EDGELITE_"

  /** The variables of a process, and lower-casing. */
  datatype Environment = Environment(vars: map<string, string>, lower: string -> string)

  function StrippedItems(pieces: seq<string>): seq<Value> {
    if pieces == [] then []
    else (if Strip(pieces[0]) == "" then [] else [Str(Strip(pieces[0]))]) + StrippedItems(pieces[1..])
  }

  /** A value with semicolons is a list of its non-blank pieces. Never a map. */
  function ParseValue(value: string): (r: Value)
    ensures r.Str? || r.List?
  {
    if ';' in value then List(StrippedItems(Split(value, ";"))) else Str(value)
  }

  /** The path that a variable behind the prefix names. */
  function ParsePath(lower: string -> string, raw: string): (r: Path)
    ensures r != []
  {
    Split(lower(raw), "__")
  }

  // ---- What a variable says ----

  /** The variable is called by the prefix and, in whatever case, the keys of the path with `__` between them, none of
      which holds a `__` or runs into one. */
  predicate Names(env: Environment, key: string, path: Path) {
    && "EDGELITE_" <= key && path != []
    && env.lower(key[|"EDGELITE_"|..]) == Join("__", path) && CleanCuts("__", path)
  }

  lemma NamesIff(env: Environment, key: string, path: Path)
    ensures Names(env, key, path) <==> PREFIX <= key && ParsePath(env.lower, key[|PREFIX|..]) == path
  {
    hide Split, Join, CleanCuts;
    if PREFIX <= key {
      SplitIff(env.lower(key[|PREFIX|..]), "__", path);
    }
  }

  predicate ItemsOk(ps: seq<Padded>) {
    forall k :: 0 <= k < |ps| ==> PadOk(ps[k]) && Lacks(PadText(ps[k]), ';')
  }

  function Texts(ps: seq<Padded>): (r: seq<string>)
    ensures |r| == |ps| && forall k :: 0 <= k < |ps| ==> r[k] == PadText(ps[k])
  {
    seq(|ps|, k requires 0 <= k < |ps| => PadText(ps[k]))
  }

  /** The positions of the items that are not blank. */
  function Filled(ps: seq<Padded>): set<nat> {
    set k | 0 <= k < |ps| && ps[k].core != ""
  }

  /** `items` are the items that are not blank, in order and without the white space around them. */
  ghost predicate Cores(ps: seq<Padded>, items: seq<Value>) {
    exists at :: Lists(at, Filled(ps)) && |items| == |at|
      && forall k :: 0 <= k < |at| ==> at[k] < |ps| && items[k] == Str(ps[at[k]].core)
  }

  /** A text without semicolon stands for itself, and one that joins items by semicolons for the list of them. */
  ghost predicate Means(value: string, v: Value) {
    if ';' in value then
      v.List? && exists ps :: ps != [] && ItemsOk(ps) && value == Join(";", Texts(ps)) && Cores(ps, v.items)
    else v == Str(value)
  }

  function CoreItem(p: Padded): seq<Value> {
    if p.core == "" then [] else [Str(p.core)]
  }

  /** The items that stripping leaves, the last of them taken apart. */
  lemma {:induction false} StrippedAppend(pieces: seq<string>, piece: string)
    ensures StrippedItems(pieces + [piece]) == StrippedItems(pieces) + StrippedItems([piece])
    decreases |pieces|
  {
    if pieces == [] {
      assert [] + [piece] == [piece];
    } else {
      assert (pieces + [piece])[1..] == pieces[1..] + [piece];
      StrippedAppend(pieces[1..], piece);
    }
  }

  lemma StrippedOne(p: Padded)
    requires PadOk(p)
    ensures StrippedItems([PadText(p)]) == CoreItem(p)
  {
    hide Strip, PadText, PadOk;
    StripsPadded(p);
  }

  lemma FilledNext(ps: seq<Padded>)
    requires ps != []
    ensures var n := |ps| - 1;
            && Filled(ps) == Filled(ps[..n]) + (if ps[n].core == "" then {} else {n})
            && forall k :: k in Filled(ps[..n]) ==> k < n
  {
  }

  lemma {:induction false} StrippedAre(ps: seq<Padded>) returns (at: seq<nat>)
    requires ItemsOk(ps)
    ensures Lists(at, Filled(ps))
    ensures var items := StrippedItems(Texts(ps));
            |items| == |at| && forall k :: 0 <= k < |at| ==> at[k] < |ps| && items[k] == Str(ps[at[k]].core)
    decreases |ps|
  {
    hide Lists, Filled, StrippedItems, PadText, PadOk;
    if ps == [] {
      at := [];
      assert Texts(ps) == [];
      NothingFilled();
    } else {
      var n := |ps| - 1;
      var init := ps[..n];
      at := StrippedAre(init);
      assert Texts(ps) == Texts(init) + [PadText(ps[n])];
      StrippedAppend(Texts(init), PadText(ps[n]));
      StrippedOne(ps[n]);
      FilledNext(ps);
      if ps[n].core != "" {
        ListsNext(at, Filled(init), n);
        at := at + [n];
      } else {
        assert Filled(init) + {} == Filled(init);
      }
    }
  }

  lemma NothingFilled()
    ensures Lists([], Filled([])) && StrippedItems([]) == []
  {
    assert Filled([]) == {};
  }

  lemma OnlyCores(ps: seq<Padded>, xs: seq<Value>, ys: seq<Value>)
    requires Cores(ps, xs) && Cores(ps, ys)
    ensures xs == ys
  {
    hide Lists, Filled;
    var at :| Lists(at, Filled(ps)) && |xs| == |at|
              && forall k :: 0 <= k < |at| ==> at[k] < |ps| && xs[k] == Str(ps[at[k]].core);
    var bt :| Lists(bt, Filled(ps)) && |ys| == |bt|
              && forall k :: 0 <= k < |bt| ==> bt[k] < |ps| && ys[k] == Str(ps[bt[k]].core);
    ListsUnique(at, bt, Filled(ps));
  }

  lemma SemicolonFree(x: string)
    ensures NoneBegins(x, "", ";") <==> Lacks(x, ';')
    ensures NoneBegins(x, ";", ";") <==> Lacks(x, ';')
  {
    assert x + "" == x;
    forall j | 0 <= j < |x|
      ensures At(x, j, ";") <==> x[j] == ';'
      ensures At(x + ";", j, ";") <==> x[j] == ';'
    {
    }
  }

  lemma SemicolonCuts(pieces: seq<string>)
    ensures CleanCuts(";", pieces) <==> forall k :: 0 <= k < |pieces| ==> Lacks(pieces[k], ';')
  {
    hide NoneBegins;
    forall k | 0 <= k < |pieces|
      ensures NoneBegins(pieces[k], if k < |pieces| - 1 then ";" else "", ";") <==> Lacks(pieces[k], ';')
    {
      SemicolonFree(pieces[k]);
    }
  }

  lemma {:induction false} PiecesPadded(pieces: seq<string>) returns (ps: seq<Padded>)
    requires forall k :: 0 <= k < |pieces| ==> Lacks(pieces[k], ';')
    ensures ItemsOk(ps) && Texts(ps) == pieces
    decreases |pieces|
  {
    if pieces == [] {
      ps := [];
    } else {
      var n := |pieces| - 1;
      var init := PiecesPadded(pieces[..n]);
      var p := IsPadded(pieces[n]);
      ps := init + [p];
    }
  }

  lemma JoinMeans(value: string, ps: seq<Padded>)
    requires ps != [] && ItemsOk(ps) && value == Join(";", Texts(ps))
    ensures Cores(ps, StrippedItems(Split(value, ";")))
  {
    hide Split, Join, CleanCuts, StrippedItems, Filled, Lists, PadText, PadOk;
    SemicolonCuts(Texts(ps));
    SplitIff(value, ";", Texts(ps));
    var at := StrippedAre(ps);
  }

  /** A text is read as what it means, and means only that. */
  lemma MeansIff(value: string, v: Value)
    ensures Means(value, v) <==> v == ParseValue(value)
  {
    hide Split, Join, CleanCuts, StrippedItems, Cores, ItemsOk;
    if ';' in value {
      var pieces := Split(value, ";");
      SplitIff(value, ";", pieces);
      SemicolonCuts(pieces);
      var qs := PiecesPadded(pieces);
      JoinMeans(value, qs);
      if Means(value, v) {
        var ps :| ps != [] && ItemsOk(ps) && value == Join(";", Texts(ps)) && Cores(ps, v.items);
        JoinMeans(value, ps);
        OnlyCores(ps, v.items, StrippedItems(pieces));
      }
    }
  }

  // ---- Overrides as a fold of writes ----

  /** One override: where it goes, and a value that is neither missing nor a map. */
  datatype Override = Override(path: Path, value: Value)

  predicate OverrideOk(o: Override) {
    o.path != [] && (o.value.Str? || o.value.List?)
  }

  predicate AllOk(os: seq<Override>) {
    forall k :: 0 <= k < |os| ==> OverrideOk(os[k])
  }

  function Build(os: seq<Override>): (r: Value)
    requires AllOk(os)
    ensures r.Map?
  {
    if os == [] then Map(map[])
    else
      var last := os[|os| - 1];
      Set(Build(os[..|os| - 1]), last.path, last.value)
  }

  function ToOverride(env: Environment, key: string): (o: Override)
    requires key in env.vars && PREFIX <= key
    ensures OverrideOk(o)
  {
    Override(ParsePath(env.lower, key[|PREFIX|..]), ParseValue(env.vars[key]))
  }

  /** The override of one variable; none unless its name has the prefix. */
  function OneOverride(env: Environment, key: string): (os: seq<Override>)
    requires key in env.vars
    ensures AllOk(os)
  {
    if PREFIX <= key then [ToOverride(env, key)] else []
  }

  /** The overrides of the variables `keys`, in that order. */
  function Overrides(env: Environment, keys: seq<string>): (os: seq<Override>)
    requires forall k :: k in keys ==> k in env.vars
    ensures AllOk(os)
  {
    if keys == [] then []
    else
      var last := keys[|keys| - 1];
      Overrides(env, keys[..|keys| - 1]) + OneOverride(env, last)
  }

  /** `keys` lists every variable of `env` once. */
  ghost predicate Enumerates(keys: seq<string>, env: Environment) {
    && (forall k :: k in keys <==> k in env.vars)
    && NoRepeats(keys)
  }

  lemma BuildAppend(os: seq<Override>, o: Override)
    requires AllOk(os) && OverrideOk(o)
    ensures Build(os + [o]) == Set(Build(os), o.path, o.value)
  {
    assert (os + [o])[..|os|] == os;
  }

  lemma OverridesAppend(env: Environment, keys: seq<string>, key: string)
    requires key in env.vars && forall k :: k in keys ==> k in env.vars
    ensures Overrides(env, keys + [key]) == Overrides(env, keys) + OneOverride(env, key)
  {
    assert (keys + [key])[..|keys|] == keys;
  }

  lemma EmptyBuild(env: Environment)
    ensures Build(Overrides(env, [])) == Map(map[])
  {
  }

  lemma NextOverride(env: Environment, keys: seq<string>, key: string)
    requires key in env.vars && forall k :: k in keys ==> k in env.vars
    ensures Build(Overrides(env, keys + [key]))
         == var v := Build(Overrides(env, keys));
            if PREFIX <= key then Set(v, ToOverride(env, key).path, ToOverride(env, key).value) else v
  {
    OverridesAppend(env, keys, key);
    if PREFIX <= key {
      BuildAppend(Overrides(env, keys), ToOverride(env, key));
    } else {
      assert Overrides(env, keys) + [] == Overrides(env, keys);
    }
  }

  /** `v` is built from the variables of `env` in some order. */
  ghost predicate LoadedFrom(env: Environment, v: Value) {
    exists order :: Enumerates(order, env) && v == Build(Overrides(env, order))
  }

  /** The loop over the environment, in whatever order it is iterated. */
  method LoadEnvOverrides(env: Environment) returns (overrides: Value)
    ensures LoadedFrom(env, overrides)
  {
    hide Build, ToOverride;
    EmptyBuild(env);
    overrides := Map(map[]);
    ghost var order := [];
    var todo := env.vars.Keys;
    while todo != {}
      invariant todo <= env.vars.Keys
      invariant forall k :: k in order <==> k in env.vars && k !in todo
      invariant NoRepeats(order)
      invariant overrides == Build(Overrides(env, order))
      decreases |todo|
    {
      var key :| key in todo;
      NextOverride(env, order, key);
      if PREFIX <= key {
        var o := ToOverride(env, key);
        overrides := Set(overrides, o.path, o.value);
      }
      order := order + [key];
      todo := todo - {key};
    }
  }

  // ---- Order ----

  /** Two overrides get along when neither path runs through the other, or both say the same. */
  predicate GetAlong(o: Override, p: Override) {
    !Comparable(o.path, p.path) || o == p
  }

  predicate Compatible(os: seq<Override>) {
    forall i, j :: 0 <= i < j < |os| ==> GetAlong(os[i], os[j])
  }

  lemma WritesCommute(v: Value, o: Override, p: Override)
    requires OverrideOk(o) && OverrideOk(p) && GetAlong(o, p)
    ensures Set(Set(v, o.path, o.value), p.path, p.value) == Set(Set(v, p.path, p.value), o.path, o.value)
  {
    if o != p {
      SetSetOther(v, o.path, o.value, p.path, p.value);
    }
  }

  lemma WithoutOk(os: seq<Override>, i: nat)
    requires AllOk(os) && Compatible(os) && i < |os|
    ensures AllOk(Without(os, i)) && Compatible(Without(os, i))
  {
    forall a, b | 0 <= a < b < |Without(os, i)|
      ensures GetAlong(Without(os, i)[a], Without(os, i)[b])
    {
      assert GetAlong(os[if a < i then a else a + 1], os[if b < i then b else b + 1]);
    }
  }

  /** Any override may as well be written last. */
  lemma {:induction false} WriteLast(os: seq<Override>, i: nat)
    requires AllOk(os) && Compatible(os) && i < |os|
    ensures AllOk(Without(os, i)) && Compatible(Without(os, i))
    ensures Build(os) == Set(Build(Without(os, i)), os[i].path, os[i].value)
    decreases |os|
  {
    hide Set, GetAlong, OverrideOk;
    var n := |os| - 1;
    var init := os[..n];
    WithoutOk(os, i);
    if i == n {
      assert Without(os, i) == init;
    } else {
      var rest := Without(init, i);
      WriteLast(init, i);
      assert Without(os, i) == rest + [os[n]];
      BuildAppend(rest, os[n]);
      WritesCommute(Build(rest), os[i], os[n]);
    }
  }

  /** Compatible overrides give one tree, whatever their order. */
  lemma {:induction false} OrderIrrelevant(os: seq<Override>, ps: seq<Override>)
    requires AllOk(os) && AllOk(ps) && Compatible(os) && multiset(os) == multiset(ps)
    ensures Build(os) == Build(ps)
    decreases |ps|
  {
    if ps == [] {
      assert |multiset(os)| == |os|;
    } else {
      var n: nat := |ps| - 1;
      var i := FindIn(os, ps, n);
      WriteLast(os, i);
      SameWithout(os, i, ps, n);
      assert Without(ps, n) == ps[..n];
      OrderIrrelevant(Without(os, i), ps[..n]);
    }
  }

  ghost predicate OrderFree(os: seq<Override>)
    requires AllOk(os)
  {
    forall ps :: multiset(ps) == multiset(os) && AllOk(ps) ==> Build(ps) == Build(os)
  }

  /** Written in both orders, overrides that do not get along leave different values. */
  lemma OrderMatters(v: Value, o: Override, p: Override)
    requires OverrideOk(o) && OverrideOk(p) && !GetAlong(o, p)
    ensures Set(Set(v, o.path, o.value), p.path, p.value) != Set(Set(v, p.path, p.value), o.path, o.value)
  {
    var op := Set(Set(v, o.path, o.value), p.path, p.value);
    var po := Set(Set(v, p.path, p.value), o.path, o.value);
    GetSetSame(Set(v, o.path, o.value), p.path, p.value);
    GetSetSame(Set(v, p.path, p.value), o.path, o.value);
    if o.path == p.path {
      assert Get(op, p.path) != Get(po, p.path);
    } else if o.path <= p.path {
      GetSetAbove(Set(v, o.path, o.value), p.path, p.value, o.path);
      assert Get(op, o.path) != Get(po, o.path);
    } else {
      GetSetAbove(Set(v, p.path, p.value), o.path, o.value, p.path);
      assert Get(op, p.path) != Get(po, p.path);
    }
  }

  lemma BuildTwo(rest: seq<Override>, o: Override, p: Override)
    requires AllOk(rest) && OverrideOk(o) && OverrideOk(p)
    ensures Build(rest + [o] + [p]) == Set(Set(Build(rest), o.path, o.value), p.path, p.value)
    ensures multiset(rest + [o] + [p]) == multiset(rest) + multiset{o} + multiset{p}
  {
    BuildAppend(rest, o);
    BuildAppend(rest + [o], p);
  }

  lemma ClashFound(os: seq<Override>, i: nat, j: nat)
    requires AllOk(os) && i < j < |os| && !GetAlong(os[i], os[j])
    ensures !OrderFree(os)
  {
    var o, p := os[i], os[j];
    var rest := Without(Without(os, j), i);
    ContentsWithout(os, j);
    ContentsWithout(Without(os, j), i);
    ClashReordered(os, rest, o, p);
  }

  lemma ClashReordered(os: seq<Override>, rest: seq<Override>, o: Override, p: Override)
    requires AllOk(os) && AllOk(rest) && OverrideOk(o) && OverrideOk(p) && !GetAlong(o, p)
    requires multiset(os) == multiset(rest) + multiset{o} + multiset{p}
    ensures !OrderFree(os)
  {
    hide Build, GetAlong, OverrideOk;
    var op, po := rest + [o] + [p], rest + [p] + [o];
    BuildTwo(rest, o, p);
    BuildTwo(rest, p, o);
    OrderMatters(Build(rest), o, p);
    assert multiset(op) == multiset(os) && multiset(po) == multiset(os);
    assert Build(op) != Build(os) || Build(po) != Build(os);
  }

  /** The order of iteration is immaterial exactly when every two overrides get along. */
  lemma OrderFreeIffCompatible(os: seq<Override>)
    requires AllOk(os)
    ensures OrderFree(os) <==> Compatible(os)
  {
    if Compatible(os) {
      forall ps | multiset(ps) == multiset(os) && AllOk(ps) ensures Build(ps) == Build(os) {
        OrderIrrelevant(os, ps);
      }
    }
    if i: nat, j: nat :| i < j < |os| && !GetAlong(os[i], os[j]) {
      ClashFound(os, i, j);
    }
  }

  // ---- All iteration orders of one environment ----

  lemma SameKeys(env: Environment, ks: seq<string>, js: seq<string>)
    requires Enumerates(ks, env) && Enumerates(js, env)
    ensures multiset(ks) == multiset(js)
  {
    forall key: string
      ensures multiset(ks)[key] == multiset(js)[key]
    {
      OccursOnce(ks, key);
      OccursOnce(js, key);
    }
  }

  predicate Known(env: Environment, keys: seq<string>) {
    forall k :: 0 <= k < |keys| ==> keys[k] in env.vars
  }

  lemma {:induction false} OverridesConcat(env: Environment, ks: seq<string>, js: seq<string>)
    requires Known(env, ks) && Known(env, js)
    ensures Overrides(env, ks + js) == Overrides(env, ks) + Overrides(env, js)
    decreases |js|
  {
    hide OneOverride, Overrides;
    if js == [] {
      assert ks + js == ks;
      NoOverrides(env);
    } else {
      var n := |js| - 1;
      var init := js[..n];
      assert ks + js == ks + init + [js[n]] && js == init + [js[n]];
      assert Known(env, ks + init);
      OverridesConcat(env, ks, init);
      OverridesAppend(env, ks + init, js[n]);
      OverridesAppend(env, init, js[n]);
    }
  }

  lemma NoOverrides(env: Environment)
    ensures Overrides(env, []) == []
  {
  }

  /** Taking a variable out takes out its override. */
  lemma OverridesWithout(env: Environment, ks: seq<string>, i: nat)
    requires Known(env, ks) && i < |ks|
    ensures Known(env, Without(ks, i))
    ensures multiset(Overrides(env, ks)) == multiset(Overrides(env, Without(ks, i))) + multiset(Overrides(env, [ks[i]]))
  {
    hide Overrides;
    var pre, post := ks[..i], ks[i + 1..];
    assert ks == pre + ([ks[i]] + post);
    OverridesConcat(env, pre, [ks[i]] + post);
    OverridesConcat(env, [ks[i]], post);
    OverridesConcat(env, pre, post);
  }

  lemma {:induction false} SameOverrides(env: Environment, ks: seq<string>, js: seq<string>)
    requires Known(env, ks) && Known(env, js) && multiset(ks) == multiset(js)
    ensures multiset(Overrides(env, ks)) == multiset(Overrides(env, js))
    decreases |js|
  {
    hide Overrides, Without;
    if js == [] {
      assert |multiset(ks)| == |ks|;
    } else {
      var i := FindIn(ks, js, 0);
      OverridesWithout(env, ks, i);
      OverridesWithout(env, js, 0);
      SameWithout(ks, i, js, 0);
      SameOverrides(env, Without(ks, i), Without(js, 0));
    }
  }

  /** Whatever the order of iteration, compatible variables load to one tree. */
  lemma LoadDeterministic(env: Environment, ks: seq<string>, v: Value)
    requires Enumerates(ks, env) && Compatible(Overrides(env, ks)) && LoadedFrom(env, v)
    ensures v == Build(Overrides(env, ks))
  {
    hide Build, Overrides, Compatible;
    var js :| Enumerates(js, env) && v == Build(Overrides(env, js));
    SameKeys(env, ks, js);
    SameOverrides(env, ks, js);
    OrderIrrelevant(Overrides(env, ks), Overrides(env, js));
  }

  // ---- The effective configuration ----

  /** Nothing stands at `q`, and no value that is no map stands above it. */
  predicate Absent(v: Value, q: Path)
    decreases |q|
  {
    && q != []
    && (q[0] in Entries(v) ==> |q| > 1 && v.m[q[0]].Map? && Absent(v.m[q[0]], q[1..]))
  }

  lemma {:induction false} SetKeepsAbsent(v: Value, p: Path, x: Value, q: Path)
    requires p != [] && !Comparable(p, q) && Absent(v, q)
    ensures Absent(Set(v, p, x), q)
    decreases |p|
  {
    if p[0] == q[0] {
      ComparableTail(p, q);
      if p[0] in Entries(v) {
        SetKeepsAbsent(v.m[p[0]], p[1..], x, q[1..]);
      } else {
        NullAbsent(q[1..]);
        SetKeepsAbsent(Null, p[1..], x, q[1..]);
      }
    }
  }

  lemma NullAbsent(q: Path)
    requires q != []
    ensures Absent(Null, q)
  {
  }

  lemma {:induction false} BuildAbsent(os: seq<Override>, q: Path)
    requires AllOk(os) && q != [] && forall k :: 0 <= k < |os| ==> !Comparable(os[k].path, q)
    ensures Absent(Build(os), q)
    decreases |os|
  {
    if os != [] {
      var n := |os| - 1;
      BuildAbsent(os[..n], q);
      SetKeepsAbsent(Build(os[..n]), os[n].path, os[n].value, q);
    }
  }

  lemma {:induction false} AbsentReadsNull(v: Value, q: Path)
    requires Absent(v, q)
    ensures Get(v, q) == Null
    decreases |q|
  {
    if q[0] in Entries(v) {
      AbsentReadsNull(v.m[q[0]], q[1..]);
    }
  }

  /** An override wins in the merge. */
  lemma {:induction false} MergeOverrides(a: Value, b: Value, p: Path)
    requires a.Map? && b.Map? && (Get(b, p).Str? || Get(b, p).List?)
    ensures Get(Merge(a, b), p) == Get(b, p)
    decreases |p|
  {
    var key := p[0];
    if key in a.m && a.m[key].Map? && b.m[key].Map? {
      MergeOverrides(a.m[key], b.m[key], p[1..]);
    }
  }

  /** Where nothing is overridden the file's value stays. */
  lemma {:induction false} MergeElsewhere(a: Value, b: Value, q: Path)
    requires a.Map? && b.Map? && Absent(b, q)
    ensures Get(Merge(a, b), q) == Get(a, q)
    decreases |q|
  {
    var key := q[0];
    if key in b.m {
      if key in a.m && a.m[key].Map? {
        MergeElsewhere(a.m[key], b.m[key], q[1..]);
      } else {
        AbsentReadsNull(b.m[key], q[1..]);
      }
    }
  }

  /** Overridden paths read as the overrides say, paths clear of all overrides as the file says. */
  lemma MergedOverrides(file: Value, os: seq<Override>)
    requires file.Map? && AllOk(os) && Compatible(os)
    ensures forall k :: 0 <= k < |os| ==> Get(Merge(file, Build(os)), os[k].path) == os[k].value
    ensures forall q :: q != [] && (forall k :: 0 <= k < |os| ==> !Comparable(os[k].path, q)) ==>
              Get(Merge(file, Build(os)), q) == Get(file, q)
  {
    forall k | 0 <= k < |os|
      ensures Get(Merge(file, Build(os)), os[k].path) == os[k].value
    {
      WriteLast(os, k);
      GetSetSame(Build(Without(os, k)), os[k].path, os[k].value);
      MergeOverrides(file, Build(os), os[k].path);
    }
    forall q | q != [] && (forall k :: 0 <= k < |os| ==> !Comparable(os[k].path, q))
      ensures Get(Merge(file, Build(os)), q) == Get(file, q)
    {
      BuildAbsent(os, q);
      MergeElsewhere(file, Build(os), q);
    }
  }

  /** Two variables name incomparable paths, or one path and one value. */
  ghost predicate VariablesGetAlong(env: Environment) {
    forall j, k, p, q :: j in env.vars && k in env.vars && Names(env, j, p) && Names(env, k, q) && j != k ==>
      !Comparable(p, q) || (p == q && exists v :: Means(env.vars[j], v) && Means(env.vars[k], v))
  }

  /** The override of a variable is what its name and text mean. */
  lemma OverrideMeans(env: Environment, key: string)
    requires key in env.vars && PREFIX <= key
    ensures var o := ToOverride(env, key); Names(env, key, o.path) && Means(env.vars[key], o.value)
  {
    hide Names, Means, ParsePath, ParseValue;
    NamesIff(env, key, ToOverride(env, key).path);
    MeansIff(env.vars[key], ToOverride(env, key).value);
  }

  lemma OverridesGetAlong(env: Environment, j: string, k: string)
    requires VariablesGetAlong(env) && j in env.vars && k in env.vars && j != k && PREFIX <= j && PREFIX <= k
    ensures GetAlong(ToOverride(env, j), ToOverride(env, k))
  {
    hide Names, Means, ToOverride;
    var o, p := ToOverride(env, j), ToOverride(env, k);
    OverrideMeans(env, j);
    OverrideMeans(env, k);
    if Comparable(o.path, p.path) {
      var v :| Means(env.vars[j], v) && Means(env.vars[k], v);
      OneMeaning(env.vars[j], v, o.value);
      OneMeaning(env.vars[k], v, p.value);
    }
  }

  lemma OneMeaning(value: string, v: Value, w: Value)
    requires Means(value, v) && Means(value, w)
    ensures v == w
  {
    hide Means, ParseValue;
    MeansIff(value, v);
    MeansIff(value, w);
  }

  /** Each override comes from one of the variables, and each variable with the prefix has one. */
  lemma {:induction false} OverrideOfKey(env: Environment, keys: seq<string>)
    requires Known(env, keys) && NoRepeats(keys) && VariablesGetAlong(env)
    ensures var os := Overrides(env, keys);
            && Compatible(os)
            && (forall o :: o in os ==> exists key :: key in keys && PREFIX <= key && o == ToOverride(env, key))
            && (forall key :: key in keys && PREFIX <= key ==> ToOverride(env, key) in os)
    decreases |keys|
  {
    hide ToOverride, VariablesGetAlong, GetAlong;
    if keys != [] {
      var n := |keys| - 1;
      var init, last := keys[..n], keys[n];
      assert keys == init + [last];
      AppendNoRepeats(init, last);
      OverrideOfKey(env, init);
      OverridesAppend(env, init, last);
      forall o | o in Overrides(env, init) && PREFIX <= last ensures GetAlong(o, ToOverride(env, last)) {
        var key :| key in init && PREFIX <= key && o == ToOverride(env, key);
        OverridesGetAlong(env, key, last);
      }
    }
  }

  /** No variable names a path that the path `q` runs through or that runs through it. */
  ghost predicate ClearOf(env: Environment, q: Path) {
    forall key, path :: key in env.vars && Names(env, key, path) ==> !Comparable(path, q)
  }

  /** In the configuration in effect, the path that a variable names holds what its text means, and a path clear of
      all variables what the file says. */
  lemma EffectiveConfiguration(env: Environment, file: Value, over: Value)
    requires file.Map? && LoadedFrom(env, over) && VariablesGetAlong(env)
    ensures over.Map?
    ensures forall key, path, v :: key in env.vars && Names(env, key, path) && Means(env.vars[key], v) ==>
              Get(Merge(file, over), path) == v
    ensures forall q :: q != [] && ClearOf(env, q) ==> Get(Merge(file, over), q) == Get(file, q)
  {
    hide Build, Overrides, Names, Means, ToOverride, VariablesGetAlong, Compatible, Merge, Get;
    var keys :| Enumerates(keys, env) && over == Build(Overrides(env, keys));
    OverrideOfKey(env, keys);
    MergedOverrides(file, Overrides(env, keys));
    forall key, path, v | key in env.vars && Names(env, key, path) && Means(env.vars[key], v)
      ensures Get(Merge(file, over), path) == v
    {
      VariableOverrides(env, key, path, v);
      assert ToOverride(env, key) in Overrides(env, keys);
    }
    forall q | q != [] && ClearOf(env, q)
      ensures Get(Merge(file, over), q) == Get(file, q)
    {
      forall o | o in Overrides(env, keys) ensures !Comparable(o.path, q) {
        var key :| key in keys && PREFIX <= key && o == ToOverride(env, key);
        OverrideMeans(env, key);
      }
    }
  }

  lemma VariableOverrides(env: Environment, key: string, path: Path, v: Value)
    requires key in env.vars && Names(env, key, path) && Means(env.vars[key], v)
    ensures PREFIX <= key && ToOverride(env, key) == Override(path, v)
  {
    hide Names, Means, ParsePath, ParseValue;
    NamesIff(env, key, path);
    MeansIff(env.vars[key], v);
  }
}
