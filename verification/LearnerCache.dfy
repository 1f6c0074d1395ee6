/** The LRU cache of anomaly learners, against the recency order of its whole access history. */
module LearnerCache {
  import opened Common

  const LEARNER_CACHE_MAX := 100

  /** The learners by id, oldest access first; a learner is known by the number of its construction. */
  datatype Cache = Cache(order: seq<string>, learners: map<string, nat>, made: nat)

  const EMPTY_CACHE := Cache([], map[], 0)

  function Remove(xs: seq<string>, x: string): (r: seq<string>)
    ensures |r| <= |xs|
  {
    if xs == [] then []
    else if xs[|xs| - 1] == x then Remove(xs[..|xs| - 1], x)
    else Remove(xs[..|xs| - 1], x) + [xs[|xs| - 1]]
  }

  ghost predicate Valid(c: Cache) {
    && NoRepeats(c.order)
    && (forall id :: id in c.order <==> id in c.learners)
    && |c.order| <= LEARNER_CACHE_MAX
    && forall id :: id in c.learners ==> c.learners[id] < c.made
  }

  /** One access: the learner found or made is put last; a full cache loses its first. */
  function Access(c: Cache, id: string): Cache {
    if id in c.learners then c.(order := Remove(c.order, id) + [id])
    else
      var order, learners := c.order + [id], c.learners[id := c.made];
      if |order| > LEARNER_CACHE_MAX then Cache(order[1..], learners - {order[0]}, c.made + 1)
      else Cache(order, learners, c.made + 1)
  }

  /** The learner an access returns. */
  function Returned(c: Cache, id: string): nat {
    if id in c.learners then c.learners[id] else c.made
  }

  function Run(trace: seq<string>): Cache {
    if trace == [] then EMPTY_CACHE else Access(Run(trace[..|trace| - 1]), trace[|trace| - 1])
  }

  /** The distinct ids of a history in the order of their last access. */
  function Recency(trace: seq<string>): seq<string> {
    if trace == [] then []
    else Remove(Recency(trace[..|trace| - 1]), trace[|trace| - 1]) + [trace[|trace| - 1]]
  }

  // ---- Removal ----

  lemma {:induction false} RemoveElements(xs: seq<string>, x: string)
    ensures forall y :: y in Remove(xs, x) <==> y in xs && y != x
    ensures x !in xs ==> Remove(xs, x) == xs
    decreases |xs|
  {
    if xs != [] {
      RemoveElements(xs[..|xs| - 1], x);
      assert xs == xs[..|xs| - 1] + [xs[|xs| - 1]];
    }
  }

  lemma {:induction false} RemoveOnce(xs: seq<string>, x: string)
    requires NoRepeats(xs)
    ensures NoRepeats(Remove(xs, x)) && |Remove(xs, x)| == if x in xs then |xs| - 1 else |xs|
    decreases |xs|
  {
    hide NoRepeats;
    if xs != [] {
      var init, y := xs[..|xs| - 1], xs[|xs| - 1];
      assert xs == init + [y];
      AppendNoRepeats(init, y);
      RemoveElements(init, x);
      RemoveOnce(init, x);
      AppendNoRepeats(Remove(init, x), y);
    }
  }

  lemma {:induction false} RemoveConcat(xs: seq<string>, ys: seq<string>, x: string)
    ensures Remove(xs + ys, x) == Remove(xs, x) + Remove(ys, x)
    decreases |ys|
  {
    if ys == [] {
      assert xs + ys == xs;
    } else {
      var n := |ys| - 1;
      assert (xs + ys)[..|xs| + n] == xs + ys[..n];
      RemoveConcat(xs, ys[..n], x);
    }
  }

  // ---- The cache as it runs ----

  class LearnerStore {
    var order: seq<string>
    var learners: map<string, nat>
    var made: nat

    constructor ()
      ensures State() == EMPTY_CACHE && Valid(State())
    {
      order, learners, made := [], map[], 0;
    }

    function State(): Cache
      reads this
    {
      Cache(order, learners, made)
    }

    method GetOrCreateLearner(modelId: string) returns (learner: nat)
      requires Valid(State())
      modifies this
      ensures Valid(State())
      ensures State() == Access(old(State()), modelId) && learner == Returned(old(State()), modelId)
      ensures learners[modelId] == learner && order[|order| - 1] == modelId
      ensures forall id :: id in old(learners) && id !in learners ==>
                id == old(order)[0] && |old(order)| == LEARNER_CACHE_MAX
    {
      AccessValid(State(), modelId);
      if modelId in learners {
        order := Remove(order, modelId) + [modelId];
        return learners[modelId];
      }
      learner := made;
      made := made + 1;
      learners := learners[modelId := learner];
      order := order + [modelId];
      while |order| > LEARNER_CACHE_MAX
        invariant 0 < |order| <= LEARNER_CACHE_MAX + 1
        invariant if |order| > LEARNER_CACHE_MAX || |old(order)| < LEARNER_CACHE_MAX
                  then order == old(order) + [modelId] && learners == old(learners)[modelId := learner]
                  else State() == Access(old(State()), modelId)
        invariant made == old(made) + 1
        decreases |order|
      {
        var oldest := order[0];
        order := order[1..];
        learners := learners - {oldest};
      }
    }
  }

  lemma AccessHitValid(c: Cache, id: string)
    requires Valid(c) && id in c.learners
    ensures Valid(Access(c, id))
  {
    hide NoRepeats;
    RemoveElements(c.order, id);
    RemoveOnce(c.order, id);
    AppendNoRepeats(Remove(c.order, id), id);
  }

  lemma AccessMissValid(c: Cache, id: string)
    requires Valid(c) && id !in c.learners
    ensures Valid(Access(c, id))
  {
    hide NoRepeats;
    AppendNoRepeats(c.order, id);
    if |c.order| == LEARNER_CACHE_MAX {
      var y, rest := c.order[0], c.order[1..] + [id];
      assert c.order + [id] == [y] + rest;
      FirstOnce(y, rest);
    }
  }

  lemma FirstOnce(y: string, rest: seq<string>)
    requires NoRepeats([y] + rest)
    ensures NoRepeats(rest) && y !in rest && ([y] + rest)[1..] == rest
  {
    var all := [y] + rest;
    assert forall k :: 0 <= k < |rest| ==> rest[k] == all[k + 1] && all[0] != all[k + 1];
  }

  lemma AccessValid(c: Cache, id: string)
    requires Valid(c)
    ensures Valid(Access(c, id)) && id in Access(c, id).learners
    ensures Access(c, id).learners[id] == Returned(c, id)
    ensures |Access(c, id).order| > 0 && Access(c, id).order[|Access(c, id).order| - 1] == id
  {
    hide NoRepeats;
    if id in c.learners {
      AccessHitValid(c, id);
    } else {
      AccessMissValid(c, id);
    }
  }

  lemma {:induction false} RunValid(trace: seq<string>)
    ensures Valid(Run(trace))
    decreases |trace|
  {
    if trace != [] {
      RunValid(trace[..|trace| - 1]);
      AccessValid(Run(trace[..|trace| - 1]), trace[|trace| - 1]);
    }
  }

  // ---- The order of the cache is the recent end of the recency order ----

  lemma {:induction false} RecencyMembers(trace: seq<string>)
    ensures NoRepeats(Recency(trace))
    ensures forall x :: x in Recency(trace) <==> x in trace
    decreases |trace|
  {
    if trace != [] {
      var n := |trace| - 1;
      RecencyMembers(trace[..n]);
      RemoveElements(Recency(trace[..n]), trace[n]);
      RemoveOnce(Recency(trace[..n]), trace[n]);
      assert trace == trace[..n] + [trace[n]];
    }
  }

  lemma LastOf(pre: seq<string>, xs: seq<string>, n: nat)
    requires |xs| == n || (pre == [] && |xs| <= n)
    ensures Last(pre + xs, n) == xs
  {
    if pre == [] {
      assert pre + xs == xs;
    }
  }

  lemma Assoc(a: seq<string>, b: seq<string>, c: seq<string>)
    ensures a + b + c == a + (b + c)
  {
  }

  lemma RecentHit(pre: seq<string>, order: seq<string>, x: string, n: nat)
    requires NoRepeats(pre + order) && x in order && (|order| == n || (pre == [] && |order| <= n))
    ensures Last(Remove(pre + order, x) + [x], n) == Remove(order, x) + [x]
  {
    hide Last;
    var i :| 0 <= i < |order| && order[i] == x;
    assert x !in pre by {
      assert (pre + order)[|pre| + i] == x;
      assert forall k :: 0 <= k < |pre| ==> (pre + order)[k] == pre[k];
    }
    assert NoRepeats(order) by {
      assert forall k :: 0 <= k < |order| ==> order[k] == (pre + order)[|pre| + k];
    }
    RemoveConcat(pre, order, x);
    RemoveElements(pre, x);
    RemoveOnce(order, x);
    Assoc(pre, Remove(order, x), [x]);
    LastOf(pre, Remove(order, x) + [x], n);
  }

  lemma RecentMiss(pre: seq<string>, order: seq<string>, x: string, n: nat)
    requires x !in order && n > 0 && (|order| == n || (pre == [] && |order| <= n))
    ensures Last(Remove(pre + order, x) + [x], n) == if |order| == n then order[1..] + [x] else order + [x]
  {
    hide Last;
    RemoveConcat(pre, order, x);
    RemoveElements(pre, x);
    RemoveElements(order, x);
    var pre' := Remove(pre, x);
    Assoc(pre', order, [x]);
    if |order| == n {
      assert order == [order[0]] + order[1..];
      assert pre' + (order + [x]) == (pre' + [order[0]]) + (order[1..] + [x]);
      LastOf(pre' + [order[0]], order[1..] + [x], n);
    } else {
      LastOf(pre', order + [x], n);
    }
  }

  /** A sequence is its recent end behind the rest; there is a rest only if the end is full. */
  lemma LastCut(xs: seq<string>, n: nat) returns (pre: seq<string>)
    ensures xs == pre + Last(xs, n) && |Last(xs, n)| <= n && (|Last(xs, n)| == n || pre == [])
  {
    pre := xs[..|xs| - |Last(xs, n)|];
  }

  lemma NextRecent(recent: seq<string>, c: Cache, x: string)
    requires NoRepeats(recent) && Valid(c) && c.order == Last(recent, LEARNER_CACHE_MAX)
    ensures Access(c, x).order == Last(Remove(recent, x) + [x], LEARNER_CACHE_MAX)
  {
    hide Remove, NoRepeats, Last;
    var pre := LastCut(recent, LEARNER_CACHE_MAX);
    if x in c.order {
      RecentHit(pre, c.order, x, LEARNER_CACHE_MAX);
    } else {
      RecentMiss(pre, c.order, x, LEARNER_CACHE_MAX);
      assert c.order != [] ==> (c.order + [x])[1..] == c.order[1..] + [x];
    }
  }

  /** After any history the cache holds the hundred most recently accessed ids, by last access. */
  lemma {:induction false} OrderIsRecency(trace: seq<string>)
    ensures Run(trace).order == Last(Recency(trace), LEARNER_CACHE_MAX)
    decreases |trace|
  {
    if trace != [] {
      var init := trace[..|trace| - 1];
      OrderIsRecency(init);
      RecencyMembers(init);
      RunValid(init);
      NextRecent(Recency(init), Run(init), trace[|trace| - 1]);
    }
  }

  // ---- When an access finds the learner of the access before ----

  lemma RemoveBehind(b: seq<string>, x: string, r: seq<string>, y: string)
    requires x != y
    ensures Remove(b + ([x] + r), y) == Remove(b, y) + ([x] + Remove(r, y))
  {
    RemoveConcat(b, [x] + r, y);
    RemoveConcat([x], r, y);
    RemoveElements([x], y);
  }

  lemma RecencyAppend(t: seq<string>, y: string)
    ensures Recency(t + [y]) == Remove(Recency(t), y) + [y]
  {
    assert (t + [y])[..|t|] == t;
  }

  /** Behind the last access to `x`, the recency order continues with that of what came after. */
  lemma {:induction false} RecencyAfter(u: seq<string>, x: string, v: seq<string>) returns (a: seq<string>)
    requires x !in v
    ensures Recency(u + [x] + v) == a + ([x] + Recency(v))
    decreases |v|
  {
    hide Recency, Remove;
    if v == [] {
      a := Remove(Recency(u), x);
      RecencyAppend(u, x);
      RecencyNothing();
      assert u + [x] + v == u + [x];
      assert a + ([x] + []) == a + [x];
    } else {
      var n := |v| - 1;
      var w, y := v[..n], v[n];
      var b := RecencyAfter(u, x, w);
      a := Remove(b, y);
      assert v == w + [y] && u + [x] + v == (u + [x] + w) + [y];
      RecencyAppend(u + [x] + w, y);
      RecencyAppend(w, y);
      RemoveBehind(b, x, Recency(w), y);
      assert a + ([x] + Remove(Recency(w), y)) + [y] == a + ([x] + (Remove(Recency(w), y) + [y]));
    }
  }

  lemma RecencyNothing()
    ensures Recency([]) == []
  {
  }

  function Ids(v: seq<string>): set<string> {
    set x | x in v
  }

  lemma {:induction false} RecencyCounts(v: seq<string>)
    ensures |Recency(v)| == |Ids(v)|
    decreases |v|
  {
    if v != [] {
      var n := |v| - 1;
      RecencyCounts(v[..n]);
      RecencyMembers(v[..n]);
      RemoveOnce(Recency(v[..n]), v[n]);
      assert v == v[..n] + [v[n]];
      assert Ids(v) == Ids(v[..n]) + {v[n]};
    }
  }

  lemma AccessKeeps(c: Cache, id: string, x: string)
    requires x != id
    ensures var now := Access(c, id).learners; x in now ==> x in c.learners && now[x] == c.learners[x]
    ensures c.made <= Access(c, id).made
  {
  }

  /** An id that is in the cache keeps its learner through accesses to others, and one that is out stays out. */
  lemma {:induction false} LearnerKept(t: seq<string>, x: string, v: seq<string>)
    requires x !in v
    ensures x in Run(t + v).learners ==> x in Run(t).learners && Run(t + v).learners[x] == Run(t).learners[x]
    ensures Run(t).made <= Run(t + v).made
    decreases |v|
  {
    hide Access;
    if v == [] {
      assert t + v == t;
    } else {
      var n := |v| - 1;
      LearnerKept(t, x, v[..n]);
      AccessKeeps(Run(t + v[..n]), v[n], x);
      assert (t + v)[..|t| + n] == t + v[..n];
    }
  }

  /** An access returns the same learner as the access before to that id exactly when fewer than a hundred others came
      in between. */
  lemma SameLearnerIff(u: seq<string>, x: string, v: seq<string>)
    requires x !in v
    ensures Returned(Run(u + [x] + v), x) == Returned(Run(u), x) <==> |Ids(v)| < 100
  {
    var t := u + [x];
    var now := Run(t + v);
    assert t[..|u|] == u;
    RunValid(u);
    AccessValid(Run(u), x);
    LearnerKept(t, x, v);
    RunValid(t + v);
    OrderIsRecency(t + v);
    var a := RecencyAfter(u, x, v);
    var r := Recency(v);
    RecencyCounts(v);
    RecencyMembers(t + v);
    InLast(a, x, r, LEARNER_CACHE_MAX);
  }

  lemma InLast(a: seq<string>, x: string, r: seq<string>, n: nat)
    requires NoRepeats(a + ([x] + r))
    ensures x in Last(a + ([x] + r), n) <==> |r| < n
  {
    var all := a + ([x] + r);
    assert all[|a|] == x;
    if |r| < n {
      var last := Last(all, n);
      assert last[|a| - (|all| - |last|)] == x;
    }
  }
}
