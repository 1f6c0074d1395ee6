/** Configuration trees, reading and writing along key paths, and the deep merge. */
module ConfigTree {

  datatype Value =
    | Null
    | Scalar(n: int)
    | Str(s: string)
    | List(items: seq<Value>)
    | Map(m: map<string, Value>)

  type Path = seq<string>

  // ---- Reading and writing along a path ----

  /** The value at `path`; `Null` when a key is missing or an intermediate value is no map. */
  function Get(v: Value, path: Path): Value
    decreases |path|
  {
    if path == [] then v
    else if v.Map? && path[0] in v.m then Get(v.m[path[0]], path[1..])
    else Null
  }

  function Entries(v: Value): map<string, Value> {
    if v.Map? then v.m else map[]
  }

  function Child(v: Value, key: string): Value {
    if key in Entries(v) then Entries(v)[key] else Null
  }

  /** `v` with `x` at `path`; missing or non-map intermediate values become maps. */
  function Set(v: Value, path: Path, x: Value): (r: Value)
    requires path != []
    ensures r.Map?
    decreases |path|
  {
    Map(Entries(v)[path[0] := if |path| == 1 then x else Set(Child(v, path[0]), path[1..], x)])
  }

  /** The loop of the reader, key by key. */
  method GetNestedValue(d: Value, keys: Path) returns (r: Value)
    ensures r == Get(d, keys)
  {
    r := d;
    for i := 0 to |keys|
      invariant Get(d, keys) == Get(r, keys[i..])
    {
      if !r.Map? || keys[i] !in r.m {
        return Null;
      }
      r := r.m[keys[i]];
    }
  }

  predicate Comparable(p: Path, q: Path) {
    p <= q || q <= p
  }

  lemma ComparableTail(p: Path, q: Path)
    requires p != [] && q != [] && p[0] == q[0]
    ensures Comparable(p, q) <==> Comparable(p[1..], q[1..])
  {
    assert p == [p[0]] + p[1..] && q == [q[0]] + q[1..];
  }

  lemma {:induction false} GetSetSame(v: Value, p: Path, x: Value)
    requires p != []
    ensures Get(Set(v, p, x), p) == x
    decreases |p|
  {
    if |p| > 1 {
      GetSetSame(Child(v, p[0]), p[1..], x);
    }
  }

  /** Below the path just written there is what was written. */
  lemma {:induction false} GetSetBelow(v: Value, p: Path, x: Value, q: Path)
    requires p != []
    ensures Get(Set(v, p, x), p + q) == Get(x, q)
    decreases |p|
  {
    assert (p + q)[1..] == p[1..] + q;
    if |p| > 1 {
      GetSetBelow(Child(v, p[0]), p[1..], x, q);
    }
  }

  /** Above it there is a map. */
  lemma {:induction false} GetSetAbove(v: Value, p: Path, x: Value, q: Path)
    requires q < p
    ensures Get(Set(v, p, x), q).Map?
    decreases |p|
  {
    if q != [] {
      GetSetAbove(Child(v, p[0]), p[1..], x, q[1..]);
    }
  }

  lemma GetChild(v: Value, q: Path)
    requires q != []
    ensures Get(v, q) == Get(Child(v, q[0]), q[1..])
  {
  }

  /** Every path incomparable with the written one reads as before. */
  lemma {:induction false} GetSetOther(v: Value, p: Path, x: Value, q: Path)
    requires p != [] && !Comparable(p, q)
    ensures Get(Set(v, p, x), q) == Get(v, q)
    decreases |p|
  {
    GetChild(v, q);
    GetChild(Set(v, p, x), q);
    if p[0] == q[0] {
      ComparableTail(p, q);
      GetSetOther(Child(v, p[0]), p[1..], x, q[1..]);
    }
  }

  lemma {:induction false} SetSetSame(v: Value, p: Path, x: Value, y: Value)
    requires p != []
    ensures Set(Set(v, p, x), p, y) == Set(v, p, y)
    decreases |p|
  {
    if |p| > 1 {
      SetSetSame(Child(v, p[0]), p[1..], x, y);
    }
  }

  lemma UpdatesCommute<K, V>(m: map<K, V>, j: K, x: V, k: K, y: V)
    requires j != k
    ensures m[j := x][k := y] == m[k := y][j := x]
  {
  }

  /** A write replaces one child of the top map. */
  lemma SetIsUpdate(v: Value, p: Path, x: Value) returns (child: Value)
    requires p != []
    ensures child == if |p| == 1 then x else Set(Child(v, p[0]), p[1..], x)
    ensures Set(v, p, x) == Map(Entries(v)[p[0] := child])
  {
    child := if |p| == 1 then x else Set(Child(v, p[0]), p[1..], x);
  }

  lemma SetTwiceApart(v: Value, p: Path, x: Value, q: Path, y: Value)
    requires p != [] && q != [] && p[0] != q[0]
    ensures Set(Set(v, p, x), q, y) == Set(Set(v, q, y), p, x)
  {
    hide Set;
    var px := SetIsUpdate(v, p, x);
    var qy := SetIsUpdate(v, q, y);
    var qy' := SetIsUpdate(Set(v, p, x), q, y);
    var px' := SetIsUpdate(Set(v, q, y), p, x);
    UpdatesCommute(Entries(v), p[0], px, q[0], qy);
  }

  lemma SetTwiceUnder(v: Value, p: Path, x: Value, q: Path, y: Value)
    requires |p| > 1 && |q| > 1 && p[0] == q[0]
    ensures Set(Set(v, p, x), q, y) == Map(Entries(v)[p[0] := Set(Set(Child(v, p[0]), p[1..], x), q[1..], y)])
  {
  }

  /** Writes to incomparable paths commute. */
  lemma {:induction false} SetSetOther(v: Value, p: Path, x: Value, q: Path, y: Value)
    requires p != [] && q != [] && !Comparable(p, q)
    ensures Set(Set(v, p, x), q, y) == Set(Set(v, q, y), p, x)
    decreases |p|
  {
    hide Set;
    if p[0] != q[0] {
      SetTwiceApart(v, p, x, q, y);
    } else {
      ComparableTail(p, q);
      SetSetOther(Child(v, p[0]), p[1..], x, q[1..], y);
      SetTwiceUnder(v, p, x, q, y);
      SetTwiceUnder(v, q, y, p, x);
    }
  }

  /** Writing back what a path holds changes nothing. */
  lemma {:induction false} SetGet(v: Value, p: Path)
    requires p != [] && Get(v, p) != Null
    ensures Set(v, p, Get(v, p)) == v
    decreases |p|
  {
    if |p| > 1 {
      SetGet(v.m[p[0]], p[1..]);
    }
  }

  // ---- Deep merge ----

  /** `b` laid over `a`: maps are merged key by key, anything else in `b` replaces what `a` holds. */
  function Merge(a: Value, b: Value): (r: Value)
    requires a.Map? && b.Map?
    ensures r.Map? && r.m.Keys == a.m.Keys + b.m.Keys
    decreases b
  {
    Map(map k | k in a.m.Keys + b.m.Keys ::
      if k !in b.m then a.m[k]
      else if k in a.m && a.m[k].Map? && b.m[k].Map? then Merge(a.m[k], b.m[k])
      else b.m[k])
  }

  /** The loop over the overriding entries, in whatever order they come. */
  method DeepMerge(base: Value, over: Value) returns (result: Value)
    requires base.Map? && over.Map?
    ensures result == Merge(base, over)
    decreases over
  {
    var m := base.m;
    var todo := over.m.Keys;
    ghost var goal := Merge(base, over).m;
    while todo != {}
      invariant todo <= over.m.Keys
      invariant forall k :: k in m <==> k in base.m || (k in over.m && k !in todo)
      invariant forall k :: k in m ==> m[k] == if k in todo then base.m[k] else goal[k]
      decreases |todo|
    {
      var key :| key in todo;
      var value := over.m[key];
      if key in m && m[key].Map? && value.Map? {
        value := DeepMerge(m[key], value);
      }
      assert value == goal[key];
      m := m[key := value];
      todo := todo - {key};
    }
    assert m == goal;
    result := Map(m);
  }

  lemma {:induction false} MergeSelf(a: Value)
    requires a.Map?
    ensures Merge(a, a) == a
    decreases a
  {
    forall k | k in a.m
      ensures Merge(a, a).m[k] == a.m[k]
    {
      if a.m[k].Map? {
        MergeSelf(a.m[k]);
      }
    }
    assert Merge(a, a).m == a.m;
  }

  /** Laying the same override over a merge again changes nothing. */
  lemma {:induction false} MergeAbsorbs(a: Value, b: Value)
    requires a.Map? && b.Map?
    ensures Merge(Merge(a, b), b) == Merge(a, b)
    decreases b
  {
    var once := Merge(a, b);
    forall k | k in once.m
      ensures Merge(once, b).m[k] == once.m[k]
    {
      if k in b.m && b.m[k].Map? {
        if k in a.m && a.m[k].Map? {
          MergeAbsorbs(a.m[k], b.m[k]);
        } else {
          MergeSelf(b.m[k]);
        }
      }
    }
    assert Merge(once, b).m == once.m;
  }

  /** Every leaf of `a` is overridden by `b`. */
  predicate Covers(b: Value, a: Value)
    requires a.Map? && b.Map?
    decreases a
  {
    forall k :: k in a.m ==> k in b.m && (a.m[k].Map? && b.m[k].Map? ==> Covers(b.m[k], a.m[k]))
  }

  lemma {:induction false} MergeCoveredIff(a: Value, b: Value)
    requires a.Map? && b.Map?
    ensures Merge(a, b) == b <==> Covers(b, a)
    decreases a
  {
    var r := Merge(a, b);
    forall k | k in a.m && k in b.m
      ensures r.m[k] == b.m[k] <==> (a.m[k].Map? && b.m[k].Map? ==> Covers(b.m[k], a.m[k]))
    {
      if a.m[k].Map? && b.m[k].Map? {
        MergeCoveredIff(a.m[k], b.m[k]);
      }
    }
    if Covers(b, a) {
      assert r.m == b.m;
    }
  }

  /** Wherever `b` cuts off a map of `a` by a value that is none and `c` brings a map again, `c` covers what was cut. */
  predicate Associable(a: Value, b: Value, c: Value)
    requires a.Map? && b.Map? && c.Map?
    decreases c
  {
    forall k :: k in a.m && k in b.m && k in c.m && a.m[k].Map? && c.m[k].Map? ==>
      if b.m[k].Map? then Associable(a.m[k], b.m[k], c.m[k]) else Covers(c.m[k], a.m[k])
  }

  /** Merge is associative exactly on associable trees. */
  lemma {:induction false} MergeAssociativeIff(a: Value, b: Value, c: Value)
    requires a.Map? && b.Map? && c.Map?
    ensures Merge(Merge(a, b), c) == Merge(a, Merge(b, c)) <==> Associable(a, b, c)
    decreases c
  {
    var l := Merge(Merge(a, b), c);
    var r := Merge(a, Merge(b, c));
    forall k | k in l.m
      ensures l.m[k] == r.m[k]
         <==> (k in a.m && k in b.m && k in c.m && a.m[k].Map? && c.m[k].Map? ==>
                 if b.m[k].Map? then Associable(a.m[k], b.m[k], c.m[k]) else Covers(c.m[k], a.m[k]))
    {
      AssociativeAt(a, b, c, k);
    }
    assert l.m.Keys == r.m.Keys;
    assert l == r <==> forall k :: k in l.m ==> l.m[k] == r.m[k];
  }

  lemma {:induction false} AssociativeAt(a: Value, b: Value, c: Value, k: string)
    requires a.Map? && b.Map? && c.Map? && k in a.m.Keys + b.m.Keys + c.m.Keys
    ensures Merge(Merge(a, b), c).m[k] == Merge(a, Merge(b, c)).m[k]
       <==> (k in a.m && k in b.m && k in c.m && a.m[k].Map? && c.m[k].Map? ==>
               if b.m[k].Map? then Associable(a.m[k], b.m[k], c.m[k]) else Covers(c.m[k], a.m[k]))
    decreases c, 0
  {
    if k in a.m && k in b.m && k in c.m && a.m[k].Map? && c.m[k].Map? {
      if b.m[k].Map? {
        MergeAssociativeIff(a.m[k], b.m[k], c.m[k]);
      } else {
        MergeCoveredIff(a.m[k], c.m[k]);
      }
    }
  }

  /** The case that breaks associativity: a map, cut off by a scalar, and a map again. */
  lemma MergeNotAssociative()
    ensures var a := Map(map["k" := Map(map["x" := Scalar(1)])]);
            var b := Map(map["k" := Scalar(0)]);
            var c := Map(map["k" := Map(map["y" := Scalar(2)])]);
            Merge(Merge(a, b), c) != Merge(a, Merge(b, c))
  {
    var a := Map(map["k" := Map(map["x" := Scalar(1)])]);
    var b := Map(map["k" := Scalar(0)]);
    var c := Map(map["k" := Map(map["y" := Scalar(2)])]);
    assert !Covers(c.m["k"], a.m["k"]) by {
      assert "x" in a.m["k"].m && "x" !in c.m["k"].m;
    }
    MergeAssociativeIff(a, b, c);
  }
}
