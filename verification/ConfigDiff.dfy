/** The structural diff of two configuration snapshots, and the patch that inverts it. */
module ConfigDiff {
  import opened Common
  import opened ConfigTree

  // ---- What differs where ----

  datatype Op = Added(value: Value) | Removed(value: Value) | Changed(old_: Value, new_: Value)

  function OpOf(x: Value, y: Value): Op {
    if x == Null then Added(y) else if y == Null then Removed(x) else Changed(x, y)
  }

  /** The difference reported at `path`, if any. */
  function DiffAt(x: Value, y: Value, path: Path): Option<Op>
    decreases |path|
  {
    if x == y then None
    else if x.Map? && y.Map? then
      if path == [] then None else DiffAt(Child(x, path[0]), Child(y, path[0]), path[1..])
    else if path == [] then Some(OpOf(x, y))
    else None
  }

  // ---- The recursive walk that collects the differences ----

  datatype Entry = Entry(path: string, op: Op)

  function DotStep(path: string, key: string): string {
    if path != "" then path + "." + key else key
  }

  function DotPath(keys: Path): string {
    if keys == [] then "" else DotStep(DotPath(keys[..|keys| - 1]), keys[|keys| - 1])
  }

  /** A difference with the keys that lead to it. */
  datatype Found = Found(keys: Path, op: Op)

  /** The entries that report `fs` below `prefix`. */
  function Dotted(prefix: Path, fs: seq<Found>): (es: seq<Entry>)
    ensures |es| == |fs|
    ensures forall i :: 0 <= i < |fs| ==> es[i] == Entry(DotPath(prefix + fs[i].keys), fs[i].op)
  {
    seq(|fs|, i requires 0 <= i < |fs| => Entry(DotPath(prefix + fs[i].keys), fs[i].op))
  }

  predicate Genuine(fs: seq<Found>, x: Value, y: Value) {
    forall i :: 0 <= i < |fs| ==> DiffAt(x, y, fs[i].keys) == Some(fs[i].op)
  }

  predicate Distinct(fs: seq<Found>) {
    forall i, j :: 0 <= i < j < |fs| ==> fs[i].keys != fs[j].keys
  }

  /** Nothing is missing at paths that begin outside `todo`. */
  ghost predicate Complete(fs: seq<Found>, x: Value, y: Value, todo: set<string>) {
    forall p :: DiffAt(x, y, p).Some? && (p != [] ==> p[0] !in todo) ==>
      exists i :: 0 <= i < |fs| && fs[i].keys == p
  }

  /** `fs` lists exactly the differences of `x` and `y`, each once. */
  ghost predicate Collects(fs: seq<Found>, x: Value, y: Value) {
    Genuine(fs, x, y) && Distinct(fs) && Complete(fs, x, y, {})
  }

  /** Every key list of `fs` begins outside `todo`. */
  predicate Clear(fs: seq<Found>, todo: set<string>) {
    forall i :: 0 <= i < |fs| ==> fs[i].keys != [] && fs[i].keys[0] !in todo
  }

  function Under(k: string, fs: seq<Found>): (r: seq<Found>)
    ensures |r| == |fs|
    ensures forall i :: 0 <= i < |fs| ==> r[i] == Found([k] + fs[i].keys, fs[i].op)
  {
    seq(|fs|, i requires 0 <= i < |fs| => Found([k] + fs[i].keys, fs[i].op))
  }

  lemma DottedUnder(prefix: Path, k: string, fs: seq<Found>)
    ensures Dotted(prefix + [k], fs) == Dotted(prefix, Under(k, fs))
  {
    forall i | 0 <= i < |fs| ensures prefix + [k] + fs[i].keys == prefix + ([k] + fs[i].keys) {
    }
  }

  lemma DottedAppend(prefix: Path, fs: seq<Found>, gs: seq<Found>)
    ensures Dotted(prefix, fs + gs) == Dotted(prefix, fs) + Dotted(prefix, gs)
  {
  }

  /** The differences of the children under `k` are differences of the maps. */
  lemma UnderGenuine(fs: seq<Found>, x: Value, y: Value, k: string)
    requires x.Map? && y.Map? && x != y && Genuine(fs, Child(x, k), Child(y, k)) && Distinct(fs)
    ensures Genuine(Under(k, fs), x, y) && Distinct(Under(k, fs))
    ensures forall i :: 0 <= i < |fs| ==> Under(k, fs)[i].keys != [] && Under(k, fs)[i].keys[0] == k
  {
    var gs := Under(k, fs);
    forall i | 0 <= i < |gs| ensures DiffAt(x, y, gs[i].keys) == Some(gs[i].op) {
      assert gs[i].keys[1..] == fs[i].keys;
    }
    forall i, j | 0 <= i < j < |gs| ensures gs[i].keys != gs[j].keys {
      assert gs[i].keys[1..] == fs[i].keys && gs[j].keys[1..] == fs[j].keys;
    }
  }

  lemma MoreComplete(fs: seq<Found>, gs: seq<Found>, x: Value, y: Value, todo: set<string>, k: string)
    requires x.Map? && y.Map? && x != y
    requires Complete(fs, x, y, todo) && Complete(gs, Child(x, k), Child(y, k), {})
    ensures Complete(fs + Under(k, gs), x, y, todo - {k})
  {
    var all := fs + Under(k, gs);
    forall p | DiffAt(x, y, p).Some? && (p != [] ==> p[0] !in todo - {k})
      ensures exists i :: 0 <= i < |all| && all[i].keys == p
    {
      if p != [] && p[0] == k {
        assert DiffAt(Child(x, k), Child(y, k), p[1..]).Some?;
        var j :| 0 <= j < |gs| && gs[j].keys == p[1..];
        assert all[|fs| + j].keys == [k] + p[1..] == p;
      } else {
        var i :| 0 <= i < |fs| && fs[i].keys == p;
        assert all[i].keys == p;
      }
    }
  }

  lemma MoreDistinct(fs: seq<Found>, gs: seq<Found>, todo: set<string>, k: string)
    requires k in todo && Distinct(fs) && Distinct(gs) && Clear(fs, todo)
    requires forall i :: 0 <= i < |gs| ==> gs[i].keys != [] && gs[i].keys[0] == k
    ensures Distinct(fs + gs) && Clear(fs + gs, todo - {k})
  {
  }

  /** What has been collected once the keys outside `todo` are walked. */
  ghost predicate Collecting(fs: seq<Found>, x: Value, y: Value, todo: set<string>) {
    Genuine(fs, x, y) && Distinct(fs) && Clear(fs, todo) && Complete(fs, x, y, todo)
  }

  lemma MoreCollected(fs: seq<Found>, gs: seq<Found>, x: Value, y: Value, todo: set<string>, k: string)
    requires x.Map? && y.Map? && x != y && k in todo
    requires Collecting(fs, x, y, todo) && Collects(gs, Child(x, k), Child(y, k))
    ensures Collecting(fs + Under(k, gs), x, y, todo - {k})
  {
    MoreComplete(fs, gs, x, y, todo, k);
    UnderGenuine(gs, x, y, k);
    MoreDistinct(fs, Under(k, gs), todo, k);
  }

  lemma LeafCollected(x: Value, y: Value)
    requires x != y && !(x.Map? && y.Map?)
    ensures Collects([Found([], OpOf(x, y))], x, y)
  {
    var fs := [Found([], OpOf(x, y))];
    assert fs[0].keys == [];
  }

  lemma DottedNothing(prefix: Path)
    ensures Dotted(prefix, []) == []
  {
  }

  lemma DottedLeaf(prefix: Path, op: Op)
    ensures Dotted(prefix, [Found([], op)]) == [Entry(DotPath(prefix), op)]
  {
    assert prefix + [] == prefix;
  }

  lemma NothingDiffers(x: Value)
    ensures Collects([], x, x)
  {
  }

  lemma AllCollected(fs: seq<Found>, x: Value, y: Value)
    requires Collecting(fs, x, y, {})
    ensures Collects(fs, x, y)
  {
  }

  class DiffWalker {
    var diffs: seq<Entry>

    constructor ()
      ensures diffs == []
    {
      diffs := [];
    }

    /** Appends the differences of `x` and `y`; the keys come in any order. */
    method Walk(path: string, ghost prefix: Path, x: Value, y: Value) returns (ghost fs: seq<Found>)
      requires path == DotPath(prefix)
      modifies this
      ensures diffs == old(diffs) + Dotted(prefix, fs) && Collects(fs, x, y)
      decreases if x.Map? then 1 else 0, x
    {
      hide DiffAt, DotPath, Collects, Dotted, OpOf;
      fs := [];
      DottedNothing(prefix);
      DottedLeaf(prefix, OpOf(x, y));
      if x == y {
        NothingDiffers(x);
        return;
      }
      if x.Map? && y.Map? {
        fs := WalkKeys(path, prefix, x, y);
      } else {
        fs := [Found([], OpOf(x, y))];
        LeafCollected(x, y);
        diffs := diffs + [Entry(path, OpOf(x, y))];
      }
    }

    /** The loop over the keys of two maps. */
    method WalkKeys(path: string, ghost prefix: Path, x: Value, y: Value) returns (ghost fs: seq<Found>)
      requires path == DotPath(prefix) && x.Map? && y.Map? && x != y
      modifies this
      ensures diffs == old(diffs) + Dotted(prefix, fs) && Collects(fs, x, y)
      decreases 1, x, 1
    {
      hide DiffAt, DotPath, Collecting, Collects, Dotted, Under, Child, Entries;
      fs := [];
      DottedNothing(prefix);
      var todo := x.m.Keys + y.m.Keys;
      NothingElse(x, y);
      while todo != {}
        invariant todo <= x.m.Keys + y.m.Keys
        invariant diffs == old(diffs) + Dotted(prefix, fs)
        invariant Collecting(fs, x, y, todo)
        decreases |todo|
      {
        var k :| k in todo;
        ghost var gs := WalkKey(path, prefix, x, y, k);
        MoreCollected(fs, gs, x, y, todo, k);
        DottedAppend(prefix, fs, Under(k, gs));
        fs := fs + Under(k, gs);
        todo := todo - {k};
      }
      AllCollected(fs, x, y);
    }

    /** One round of the loop: the walk of the children under `k`. */
    method WalkKey(path: string, ghost prefix: Path, x: Value, y: Value, k: string) returns (ghost fs: seq<Found>)
      requires path == DotPath(prefix) && x.Map? && y.Map? && k in x.m.Keys + y.m.Keys
      modifies this
      ensures diffs == old(diffs) + Dotted(prefix, Under(k, fs)) && Collects(fs, Child(x, k), Child(y, k))
      decreases 1, x, 0
    {
      assert (prefix + [k])[..|prefix|] == prefix;
      fs := Walk(DotStep(path, k), prefix + [k], Child(x, k), Child(y, k));
      DottedUnder(prefix, k, fs);
    }
  }

  lemma NothingElse(x: Value, y: Value)
    requires x.Map? && y.Map?
    ensures Collecting([], x, y, x.m.Keys + y.m.Keys)
  {
    forall p | p != [] && p[0] !in x.m.Keys + y.m.Keys ensures DiffAt(x, y, p) == None {
      assert Child(x, p[0]) == Child(y, p[0]) == Null;
    }
  }

  /** The entries list every difference of the two trees once, by its dotted path. */
  ghost predicate Lists(es: seq<Entry>, a: Value, b: Value) {
    exists fs :: es == Dotted([], fs) && Collects(fs, a, b)
  }

  method ComputeDiff(a: Value, b: Value) returns (diffs: seq<Entry>)
    ensures Lists(diffs, a, b)
  {
    var walker := new DiffWalker();
    ghost var fs := walker.Walk("", [], a, b);
    diffs := walker.diffs;
  }

  // ---- When the diff is empty ----

  /** `v` without the entries of its maps that are null. */
  function Strip(v: Value): Value {
    if v.Map? then Map(map k | k in v.m && v.m[k] != Null :: Strip(v.m[k])) else v
  }

  predicate NullFree(v: Value) {
    v.Map? ==> forall k :: k in v.m ==> v.m[k] != Null && NullFree(v.m[k])
  }

  lemma {:induction false} NullFreeStripped(v: Value)
    requires NullFree(v)
    ensures Strip(v) == v
    decreases v
  {
    if v.Map? {
      forall k | k in v.m ensures Strip(v.m[k]) == v.m[k] {
        NullFreeStripped(v.m[k]);
      }
    }
  }

  lemma StripNull(v: Value)
    ensures Strip(v) == Null <==> v == Null
  {
  }

  lemma ChildStripped(v: Value, k: string)
    requires v.Map?
    ensures Child(Strip(v), k) == Strip(Child(v, k))
  {
  }

  lemma StrippedEntry(v: Value, k: string)
    requires v.Map?
    ensures k in Strip(v).m <==> Strip(Child(v, k)) != Null
    ensures k in Strip(v).m ==> Strip(v).m[k] == Strip(Child(v, k))
  {
    StripNull(Child(v, k));
  }

  lemma SameChildren(x: Value, y: Value)
    requires x.Map? && y.Map? && forall k :: Strip(Child(x, k)) == Strip(Child(y, k))
    ensures Strip(x) == Strip(y)
  {
    forall k: string
      ensures k in Strip(x).m <==> k in Strip(y).m
      ensures k in Strip(x).m ==> Strip(x).m[k] == Strip(y).m[k]
    {
      StrippedEntry(x, k);
      StrippedEntry(y, k);
      assert Strip(Child(x, k)) == Strip(Child(y, k));
    }
    MapsEqual(Strip(x).m, Strip(y).m);
  }

  lemma MapsEqual(a: map<string, Value>, b: map<string, Value>)
    requires forall k :: k in a <==> k in b
    requires forall k :: k in a ==> a[k] == b[k]
    ensures a == b
  {
  }

  /** A difference that null entries do not explain is reported somewhere. */
  lemma {:induction false} DifferenceIsReported(x: Value, y: Value) returns (p: Path)
    requires Strip(x) != Strip(y)
    ensures DiffAt(x, y, p).Some?
    decreases if x.Map? then 1 else 0, x
  {
    if x.Map? && y.Map? {
      if forall k :: Strip(Child(x, k)) == Strip(Child(y, k)) {
        SameChildren(x, y);
        assert false;
      }
      var k :| Strip(Child(x, k)) != Strip(Child(y, k));
      var rest := DifferenceIsReported(Child(x, k), Child(y, k));
      p := [k] + rest;
      assert p[1..] == rest;
    } else {
      p := [];
    }
  }

  lemma {:induction false} ReportedIsDifference(x: Value, y: Value, p: Path)
    requires DiffAt(x, y, p).Some?
    ensures Strip(x) != Strip(y)
    decreases |p|
  {
    if x.Map? && y.Map? {
      ReportedIsDifference(Child(x, p[0]), Child(y, p[0]), p[1..]);
      ChildStripped(x, p[0]);
      ChildStripped(y, p[0]);
    }
  }

  /** Nothing is reported exactly when the two agree up to null map entries. */
  lemma DiffEmptyIff(x: Value, y: Value)
    ensures (forall p :: DiffAt(x, y, p).None?) <==> Strip(x) == Strip(y)
  {
    if Strip(x) != Strip(y) {
      var p := DifferenceIsReported(x, y);
    }
    forall p | DiffAt(x, y, p).Some? ensures Strip(x) != Strip(y) {
      ReportedIsDifference(x, y, p);
    }
  }

  /** A null entry is not told from a missing one, so unequal snapshots can have an empty diff. */
  lemma NullEntryNotReported()
    ensures var a := Map(map["k" := Null]); var b := Map(map[]);
            a != b && forall p :: DiffAt(a, b, p).None?
  {
    var a := Map(map["k" := Null]);
    var b := Map(map[]);
    assert "k" in a.m;
    assert Strip(a).m == map[] && Strip(b).m == map[];
    DiffEmptyIff(a, b);
  }

  // ---- Reported paths do not contain one another; the converse diff is the inverse ----

  lemma {:induction false} NoPrefixReported(x: Value, y: Value, p: Path, q: Path)
    requires DiffAt(x, y, p).Some? && DiffAt(x, y, q).Some? && p <= q
    ensures p == q
    decreases |p|
  {
    if p != [] {
      assert p == [p[0]] + p[1..] && q == [q[0]] + q[1..];
      NoPrefixReported(Child(x, p[0]), Child(y, p[0]), p[1..], q[1..]);
    }
  }

  function Invert(op: Op): Op {
    match op
    case Added(v) => Removed(v)
    case Removed(v) => Added(v)
    case Changed(o, n) => Changed(n, o)
  }

  lemma {:induction false} ConverseInverts(x: Value, y: Value, p: Path)
    ensures DiffAt(y, x, p) == match DiffAt(x, y, p)
                               case None => None
                               case Some(op) => Some(Invert(op))
    decreases |p|
  {
    if x.Map? && y.Map? && p != [] {
      ConverseInverts(Child(x, p[0]), Child(y, p[0]), p[1..]);
    }
  }

  // ---- Patching ----

  function Delete(v: Value, p: Path): (r: Value)
    requires p != []
    ensures r.Map?
    decreases |p|
  {
    if |p| == 1 then Map(Entries(v) - {p[0]})
    else Map(Entries(v)[p[0] := Delete(Child(v, p[0]), p[1..])])
  }

  function PatchOne(v: Value, p: Path, op: Op): (r: Value)
    requires p != []
    ensures r.Map?
  {
    match op
    case Added(x) => Set(v, p, x)
    case Removed(_) => Delete(v, p)
    case Changed(_, x) => Set(v, p, x)
  }

  /** Patching replaces the child that the path goes through, and leaves the others. */
  lemma PatchChild(v: Value, p: Path, op: Op, k: string)
    requires p != []
    ensures Child(PatchOne(v, p, op), k)
         == if k != p[0] then Child(v, k)
            else if |p| > 1 then PatchOne(Child(v, k), p[1..], op)
            else if op.Removed? then Null else if op.Added? then op.value else op.new_
  {
  }

  /** After one patch that entry is gone from the diff, and every other is as before. */
  lemma {:induction false} PatchStep(a: Value, b: Value, p: Path, op: Op, q: Path)
    requires p != [] && DiffAt(a, b, p) == Some(op)
    ensures DiffAt(PatchOne(a, p, op), b, q) == if q == p then None else DiffAt(a, b, q)
    decreases |p|
  {
    var a' := PatchOne(a, p, op);
    if q == [] {
    } else {
      PatchChild(a, p, op, q[0]);
      ChildDiff(a, b, q);
      ChildDiff(a', b, q);
      if q[0] == p[0] {
        assert p == [p[0]] + p[1..] && q == [q[0]] + q[1..];
        if |p| > 1 {
          PatchStep(Child(a, p[0]), Child(b, p[0]), p[1..], op, q[1..]);
        }
      }
    }
  }

  /** Below the top, the diff of two maps is the diff of their children, whether or not they are equal. */
  lemma ChildDiff(x: Value, y: Value, q: Path)
    requires x.Map? && y.Map? && q != []
    ensures DiffAt(x, y, q) == DiffAt(Child(x, q[0]), Child(y, q[0]), q[1..])
  {
  }

  lemma {:induction false} PatchKeepsNullFree(a: Value, b: Value, p: Path, op: Op)
    requires p != [] && DiffAt(a, b, p) == Some(op) && NullFree(a) && NullFree(b)
    ensures NullFree(PatchOne(a, p, op))
    decreases |p|
  {
    var k := p[0];
    if |p| > 1 {
      PatchKeepsNullFree(a.m[k], b.m[k], p[1..], op);
    }
  }

  function PatchAll(v: Value, fs: seq<Found>): Value
    requires forall i :: 0 <= i < |fs| ==> fs[i].keys != []
    decreases |fs|
  {
    if fs == [] then v else PatchAll(PatchOne(v, fs[0].keys, fs[0].op), fs[1..])
  }

  lemma CollectedKeys(fs: seq<Found>, a: Value, b: Value)
    requires a.Map? && b.Map? && Genuine(fs, a, b)
    ensures forall i :: 0 <= i < |fs| ==> fs[i].keys != []
  {
    forall i | 0 <= i < |fs| ensures fs[i].keys != [] {
      assert DiffAt(a, b, fs[i].keys).Some?;
    }
  }

  /** With the first difference patched, the others are what remains. */
  lemma RestCollected(fs: seq<Found>, a: Value, b: Value)
    requires fs != [] && a.Map? && b.Map? && fs[0].keys != [] && Collects(fs, a, b)
    ensures Collects(fs[1..], PatchOne(a, fs[0].keys, fs[0].op), b)
  {
    var p, op, rest := fs[0].keys, fs[0].op, fs[1..];
    var a' := PatchOne(a, p, op);
    forall q ensures DiffAt(a', b, q) == if q == p then None else DiffAt(a, b, q) {
      PatchStep(a, b, p, op, q);
    }
    forall q | DiffAt(a', b, q).Some?
      ensures exists i :: 0 <= i < |rest| && rest[i].keys == q
    {
      assert DiffAt(a, b, q).Some?;
      var i :| 0 <= i < |fs| && fs[i].keys == q;
      assert rest[i - 1].keys == q;
    }
  }

  /** Patching with the differences, in whatever order they are listed, turns `a` into `b`, up to null entries. */
  lemma {:induction false} PatchGivesNew(fs: seq<Found>, a: Value, b: Value)
    requires a.Map? && b.Map? && Collects(fs, a, b)
    ensures forall i :: 0 <= i < |fs| ==> fs[i].keys != []
    ensures Strip(PatchAll(a, fs)) == Strip(b)
    ensures NullFree(a) && NullFree(b) ==> PatchAll(a, fs) == b
    decreases |fs|
  {
    CollectedKeys(fs, a, b);
    if fs == [] {
      DiffEmptyIff(a, b);
      if NullFree(a) && NullFree(b) {
        NullFreeStripped(a);
        NullFreeStripped(b);
      }
    } else {
      RestCollected(fs, a, b);
      PatchGivesNew(fs[1..], PatchOne(a, fs[0].keys, fs[0].op), b);
      if NullFree(a) && NullFree(b) {
        PatchKeepsNullFree(a, b, fs[0].keys, fs[0].op);
      }
    }
  }

  function InvertAll(fs: seq<Found>): (r: seq<Found>)
    ensures |r| == |fs|
    ensures forall i :: 0 <= i < |fs| ==> r[i] == Found(fs[i].keys, Invert(fs[i].op))
  {
    seq(|fs|, i requires 0 <= i < |fs| => Found(fs[i].keys, Invert(fs[i].op)))
  }

  lemma InverseCollects(fs: seq<Found>, a: Value, b: Value)
    requires Collects(fs, a, b)
    ensures Collects(InvertAll(fs), b, a)
  {
    var gs := InvertAll(fs);
    forall p ensures DiffAt(b, a, p).Some? <==> DiffAt(a, b, p).Some? {
      ConverseInverts(a, b, p);
    }
    forall i | 0 <= i < |gs| ensures DiffAt(b, a, gs[i].keys) == Some(gs[i].op) {
      ConverseInverts(a, b, fs[i].keys);
    }
    forall p | DiffAt(b, a, p).Some?
      ensures exists i :: 0 <= i < |gs| && gs[i].keys == p
    {
      var i :| 0 <= i < |fs| && fs[i].keys == p;
      assert gs[i].keys == p;
    }
  }

  /** Patching `b` with the inverted differences gives `a` back, up to null entries. */
  lemma InverseGivesOld(fs: seq<Found>, a: Value, b: Value)
    requires a.Map? && b.Map? && Collects(fs, a, b)
    ensures forall i :: 0 <= i < |fs| ==> fs[i].keys != []
    ensures Strip(PatchAll(b, InvertAll(fs))) == Strip(a)
    ensures NullFree(a) && NullFree(b) ==> PatchAll(b, InvertAll(fs)) == a
  {
    InverseCollects(fs, a, b);
    PatchGivesNew(InvertAll(fs), b, a);
  }

  // ---- The same for the entries as reported, with dotted paths ----

  function LastDot(s: string): (r: Option<nat>)
    ensures r.Some? ==> r.value < |s| && s[r.value] == '.'
  {
    if s == "" then None
    else if s[|s| - 1] == '.' then Some(|s| - 1)
    else LastDot(s[..|s| - 1])
  }

  /** The keys of a dotted path. */
  function ParsePath(s: string): (r: Path)
    ensures r != []
  {
    match LastDot(s)
    case None => [s]
    case Some(j) => ParsePath(s[..j]) + [s[j + 1..]]
  }

  predicate KeyOk(k: string) {
    k != "" && Lacks(k, '.')
  }

  /** Every key of a map of `v` is non-empty and without dot. */
  predicate KeysOk(v: Value) {
    v.Map? ==> forall k :: k in v.m ==> KeyOk(k) && KeysOk(v.m[k])
  }

  lemma {:induction false} LastDotOf(s: string, k: string)
    requires Lacks(k, '.')
    ensures LastDot(s + "." + k) == Some(|s|)
    decreases |k|
  {
    var x := s + "." + k;
    if k == "" {
      assert x[|x| - 1] == '.';
    } else {
      assert x[..|x| - 1] == s + "." + k[..|k| - 1];
      LastDotOf(s, k[..|k| - 1]);
    }
  }

  lemma {:induction false} NoLastDot(k: string)
    requires Lacks(k, '.')
    ensures LastDot(k) == None
    decreases |k|
  {
    if k != "" {
      NoLastDot(k[..|k| - 1]);
    }
  }

  lemma {:induction false} ParseDotPath(keys: Path)
    requires keys != [] && forall i :: 0 <= i < |keys| ==> KeyOk(keys[i])
    ensures DotPath(keys) != "" && ParsePath(DotPath(keys)) == keys
    decreases |keys|
  {
    var n := |keys| - 1;
    var init, k := keys[..n], keys[n];
    assert keys == init + [k];
    if n == 0 {
      NoLastDot(k);
    } else {
      ParseDotPath(init);
      var s := DotPath(init);
      LastDotOf(s, k);
      assert DotPath(keys) == s + "." + k;
      assert (s + "." + k)[..|s|] == s && (s + "." + k)[|s| + 1..] == k;
    }
  }

  lemma {:induction false} ReportedKeysOk(a: Value, b: Value, p: Path)
    requires KeysOk(a) && KeysOk(b) && DiffAt(a, b, p).Some?
    ensures forall i :: 0 <= i < |p| ==> KeyOk(p[i])
    decreases |p|
  {
    if p != [] {
      ReportedKeysOk(Child(a, p[0]), Child(b, p[0]), p[1..]);
      assert p == [p[0]] + p[1..];
    }
  }

  function Parsed(es: seq<Entry>): (fs: seq<Found>)
    ensures |fs| == |es|
    ensures forall i :: 0 <= i < |es| ==> fs[i] == Found(ParsePath(es[i].path), es[i].op)
  {
    seq(|es|, i requires 0 <= i < |es| => Found(ParsePath(es[i].path), es[i].op))
  }

  /** Reading the dotted paths back recovers the key paths of the walk. */
  lemma ParsedDotted(fs: seq<Found>, a: Value, b: Value)
    requires a.Map? && b.Map? && KeysOk(a) && KeysOk(b) && Genuine(fs, a, b)
    ensures Parsed(Dotted([], fs)) == fs
  {
    CollectedKeys(fs, a, b);
    forall i | 0 <= i < |fs| ensures ParsePath(DotPath([] + fs[i].keys)) == fs[i].keys {
      ReportedKeysOk(a, b, fs[i].keys);
      ParseDotPath(fs[i].keys);
      assert [] + fs[i].keys == fs[i].keys;
    }
  }

  /** Rearranged entries are rearranged differences. */
  lemma {:induction false} ParsedPermuted(es: seq<Entry>, order: seq<Entry>)
    requires multiset(es) == multiset(order)
    ensures multiset(Parsed(es)) == multiset(Parsed(order))
    decreases |order|
  {
    if order == [] {
      assert |multiset(es)| == |es|;
    } else {
      var n := |order| - 1;
      var i := FindIn(es, order, n);
      SameWithout(es, i, order, n);
      ParsedPermuted(Without(es, i), Without(order, n));
      ParsedWithout(es, i);
      ParsedWithout(order, n);
    }
  }

  lemma ParsedWithout(es: seq<Entry>, i: nat)
    requires i < |es|
    ensures multiset(Parsed(es)) == multiset(Parsed(Without(es, i))) + multiset{Parsed(es)[i]}
    ensures Parsed(es)[i] == Found(ParsePath(es[i].path), es[i].op)
  {
    hide ParsePath;
    assert Parsed(Without(es, i)) == Without(Parsed(es), i);
    ContentsWithout(Parsed(es), i);
  }

  /** A rearrangement of the differences lists them as well. */
  lemma CollectsPermuted(fs: seq<Found>, gs: seq<Found>, a: Value, b: Value)
    requires Collects(fs, a, b) && multiset(fs) == multiset(gs)
    ensures Collects(gs, a, b)
  {
    hide DiffAt;
    forall i: nat | i < |gs| ensures DiffAt(a, b, gs[i].keys) == Some(gs[i].op) {
      var j := FindIn(fs, gs, i);
    }
    PermutedNoRepeats(fs, gs);
    forall i, j | 0 <= i < j < |gs| ensures gs[i].keys != gs[j].keys {
      assert gs[i] != gs[j];
    }
    forall p | DiffAt(a, b, p).Some?
      ensures exists i :: 0 <= i < |gs| && gs[i].keys == p
    {
      var j: nat :| j < |fs| && fs[j].keys == p;
      var i := FindIn(gs, fs, j);
    }
  }

  /** The reported entries, rearranged at will, patch `a` into `b`, and inverted `b` into `a`, up to null entries. */
  lemma DiffPatches(es: seq<Entry>, order: seq<Entry>, a: Value, b: Value)
    requires a.Map? && b.Map? && KeysOk(a) && KeysOk(b)
    requires Lists(es, a, b) && multiset(order) == multiset(es)
    ensures forall i :: 0 <= i < |order| ==> Parsed(order)[i].keys != []
    ensures Strip(PatchAll(a, Parsed(order))) == Strip(b) && Strip(PatchAll(b, InvertAll(Parsed(order)))) == Strip(a)
    ensures NullFree(a) && NullFree(b) ==> PatchAll(a, Parsed(order)) == b && PatchAll(b, InvertAll(Parsed(order))) == a
  {
    hide Genuine, Distinct, Complete, ParsePath, DotPath, DiffAt, KeysOk, NullFree, PatchAll, InvertAll;
    var fs :| es == Dotted([], fs) && Collects(fs, a, b);
    ParsedDotted(fs, a, b);
    ParsedPermuted(es, order);
    CollectsPermuted(fs, Parsed(order), a, b);
    PatchGivesNew(Parsed(order), a, b);
    InverseGivesOld(Parsed(order), a, b);
  }
}
