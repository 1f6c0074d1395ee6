/** Small shared vocabulary: options and the substring relation used by the scanners. */
module Common {

  datatype Option<+T> = None | Some(value: T)

  /** The white space of `\s` and of stripping. */
  predicate IsSpace(c: char) {
    '\t' <= c <= '\r' || '\U{1C}' <= c <= ' ' || c == '\U{85}' || c == '\U{A0}' || c == '\U{1680}'
    || '\U{2000}' <= c <= '\U{200A}' || c == '\U{2028}' || c == '\U{2029}' || c == '\U{202F}'
    || c == '\U{205F}' || c == '\U{3000}'
  }

  const WHITE_SPACE := "\t\n\U{B}\U{C}\r\U{1C}\U{1D}\U{1E}\U{1F} \U{85}\U{A0}\U{1680}\U{2000}\U{2001}\U{2002}"
    + "\U{2003}\U{2004}\U{2005}\U{2006}\U{2007}\U{2008}\U{2009}\U{200A}\U{2028}\U{2029}\U{202F}\U{205F}\U{3000}"

  const DIGITS := "0123456789"

  predicate IsWhite(c: char) {
    c in WHITE_SPACE
  }

  /** White space, written out. */
  lemma SpaceIff(c: char)
    ensures IsSpace(c) <==> IsWhite(c)
  {
    if '\t' <= c <= '\r' {
      assert WHITE_SPACE[c as int - 9] == c;
    } else if '\U{1C}' <= c <= ' ' {
      assert WHITE_SPACE[c as int - 23] == c;
    } else if '\U{2000}' <= c <= '\U{200A}' {
      assert WHITE_SPACE[c as int - 0x2000 + 13] == c;
    } else if IsSpace(c) {
      assert c in [WHITE_SPACE[10], WHITE_SPACE[11], WHITE_SPACE[12], WHITE_SPACE[24], WHITE_SPACE[25], WHITE_SPACE[26],
                   WHITE_SPACE[27], WHITE_SPACE[28]];
    }
  }

  lemma DigitIff(c: char)
    ensures '0' <= c <= '9' <==> c in DIGITS
  {
    if '0' <= c <= '9' {
      assert DIGITS[c as int - '0' as int] == c;
    }
  }

  /** The last `n` elements. */
  function Last<T>(xs: seq<T>, n: nat): (r: seq<T>)
    ensures |r| <= n && |r| <= |xs|
  {
    if |xs| <= n then xs else xs[|xs| - n..]
  }

  /** `x` occurs in `s` at position `i`. */
  predicate At(s: string, i: nat, x: string)
    decreases |x|
  {
    if x == "" then i <= |s| else i < |s| && s[i] == x[0] && At(s, i + 1, x[1..])
  }

  lemma {:induction false} AtSlice(s: string, i: nat, x: string)
    ensures At(s, i, x) <==> i + |x| <= |s| && s[i..i + |x|] == x
    decreases |x|
  {
    if x != "" {
      AtSlice(s, i + 1, x[1..]);
      if i + |x| <= |s| {
        assert s[i..i + |x|] == [s[i]] + s[i + 1..i + 1 + |x[1..]|];
      }
    }
  }

  lemma {:induction false} AtSplit(s: string, i: nat, x: string, y: string)
    ensures At(s, i, x + y) <==> At(s, i, x) && At(s, i + |x|, y)
    decreases |x|
  {
    if x == "" {
      assert x + y == y;
    } else {
      assert (x + y)[1..] == x[1..] + y;
      AtSplit(s, i + 1, x[1..], y);
    }
  }

  lemma AtHead(s: string, i: nat, x: string)
    requires At(s, i, x) && x != ""
    ensures i < |s| && s[i] == x[0] && At(s, i + 1, x[1..])
  {
  }

  lemma Reattach(x: string, rest: string)
    requires x != ""
    ensures [x[0]] + (x[1..] + rest) == x + rest
  {
    assert x == [x[0]] + x[1..];
  }

  lemma AtChars(s: string, i: nat, x: string)
    requires At(s, i, x)
    ensures i + |x| <= |s| && forall k :: i <= k < i + |x| ==> s[k] == x[k - i]
  {
    AtSlice(s, i, x);
    forall k | i <= k < i + |x| ensures s[k] == x[k - i] {
      assert s[k] == s[i..i + |x|][k - i];
    }
  }

  /** In a text put together from pieces, the middle one stands behind the first. */
  lemma AtMiddle(x: string, y: string, z: string)
    ensures At(x + (y + z), |x|, y)
    ensures z != "" ==> (x + (y + z))[|x| + |y|] == z[0]
  {
    var s := x + (y + z);
    assert s[|x|..|x| + |y|] == y;
    AtSlice(s, |x|, y);
  }

  predicate Lacks(x: string, c: char) {
    forall k :: 0 <= k < |x| ==> x[k] != c
  }

  predicate StartsWithOrEmpty(x: string, c: char) {
    x != "" ==> x[0] == c
  }

  function Digit(n: nat): char
    requires n < 10
  {
    ('0' as int + n) as char
  }

  /** Decimal notation. */
  function Decimal(n: nat): (s: string)
    ensures s != ""
  {
    if n < 10 then [Digit(n)] else Decimal(n / 10) + [Digit(n % 10)]
  }

  /** A text is cut in only one way before its first `c`. */
  lemma CutUnique(c: char, x: string, xs: string, y: string, ys: string)
    requires x + xs == y + ys && Lacks(x, c) && Lacks(y, c) && StartsWithOrEmpty(xs, c) && StartsWithOrEmpty(ys, c)
    ensures x == y && xs == ys
  {
    var z := x + xs;
    assert |x| == |y| by {
      assert |x| < |z| && xs != [] ==> z[|x|] == c;
      assert |y| < |z| && ys != [] ==> z[|y|] == c;
    }
    assert z[..|x|] == x && z[|x|..] == xs && z[..|y|] == y && z[|y|..] == ys;
  }

  predicate Ascending(at: seq<nat>) {
    forall i, j :: 0 <= i < j < |at| ==> at[i] < at[j]
  }

  /** `at` lists the members of `s` in ascending order. */
  predicate Lists(at: seq<nat>, s: set<nat>) {
    Ascending(at) && (forall i :: i in at ==> i in s) && (forall i :: i in s ==> i in at)
  }

  lemma ListsNext(at: seq<nat>, s: set<nat>, n: nat)
    requires Lists(at, s) && forall i :: i in s ==> i < n
    ensures Lists(at + [n], s + {n})
  {
    forall k | 0 <= k < |at| ensures at[k] < n {
      assert at[k] in s;
    }
  }

  lemma ListsAllButLast(at: seq<nat>, s: set<nat>)
    requires Lists(at, s) && at != []
    ensures Lists(at[..|at| - 1], s - {at[|at| - 1]})
  {
    var n := |at| - 1;
    assert at == at[..n] + [at[n]];
    forall k | 0 <= k < n ensures at[k] != at[n] {
    }
  }

  lemma LastIsLargest(at: seq<nat>, x: nat)
    requires Ascending(at) && x in at
    ensures x <= at[|at| - 1]
  {
    var k :| 0 <= k < |at| && at[k] == x;
  }

  lemma FirstListed(at: seq<nat>, s: set<nat>)
    requires Lists(at, s) && at != []
    ensures at[0] in s
  {
  }

  lemma SameLast(at: seq<nat>, bt: seq<nat>, s: set<nat>)
    requires Lists(at, s) && Lists(bt, s) && at != [] && bt != []
    ensures at[|at| - 1] == bt[|bt| - 1]
  {
    assert at[|at| - 1] in s && bt[|bt| - 1] in s;
    LastIsLargest(bt, at[|at| - 1]);
    LastIsLargest(at, bt[|bt| - 1]);
  }

  /** A set has only one such list. */
  lemma {:induction false} ListsUnique(at: seq<nat>, bt: seq<nat>, s: set<nat>)
    requires Lists(at, s) && Lists(bt, s)
    ensures at == bt
    decreases |at|
  {
    if at != [] {
      FirstListed(at, s);
    }
    if bt != [] {
      FirstListed(bt, s);
    }
    if at != [] && bt != [] {
      hide Lists;
      var m, n := |at| - 1, |bt| - 1;
      SameLast(at, bt, s);
      ListsAllButLast(at, s);
      ListsAllButLast(bt, s);
      ListsUnique(at[..m], bt[..n], s - {at[m]});
      assert at == at[..m] + [at[m]] && bt == bt[..n] + [bt[n]];
    }
  }

  predicate NoRepeats<T(==)>(xs: seq<T>) {
    forall i, j :: 0 <= i < j < |xs| ==> xs[i] != xs[j]
  }

  lemma AppendNoRepeats<T>(xs: seq<T>, x: T)
    ensures NoRepeats(xs + [x]) <==> NoRepeats(xs) && x !in xs
  {
    var ys := xs + [x];
    if NoRepeats(ys) {
      forall i, j | 0 <= i < j < |xs| ensures xs[i] != xs[j] {
        assert ys[i] != ys[j];
      }
      forall k | 0 <= k < |xs| ensures xs[k] != x {
        assert ys[k] != ys[|xs|];
      }
    }
    if NoRepeats(xs) && x !in xs {
      forall i, j | 0 <= i < j < |ys| ensures ys[i] != ys[j] {
        assert ys[i] == xs[i] && (j < |xs| ==> ys[j] == xs[j]);
      }
    }
  }

  lemma {:induction false} OccursOnce<T>(xs: seq<T>, x: T)
    requires NoRepeats(xs)
    ensures multiset(xs)[x] == if x in xs then 1 else 0
    decreases |xs|
  {
    if xs != [] {
      var n := |xs| - 1;
      OccursOnce(xs[..n], x);
      assert xs == xs[..n] + [xs[n]];
    }
  }

  lemma OccursTwice<T>(xs: seq<T>, i: nat, j: nat)
    requires i < j < |xs| && xs[i] == xs[j]
    ensures multiset(xs)[xs[i]] >= 2
  {
    assert xs == xs[..j] + [xs[j]] + xs[j + 1..];
    assert xs[..j][i] == xs[i];
    assert xs[i] in multiset(xs[..j]);
  }

  /** A rearrangement of a list without repeats has none either. */
  lemma PermutedNoRepeats<T>(xs: seq<T>, ys: seq<T>)
    requires NoRepeats(xs) && multiset(xs) == multiset(ys)
    ensures NoRepeats(ys)
  {
    forall i, j | 0 <= i < j < |ys| ensures ys[i] != ys[j] {
      if ys[i] == ys[j] {
        OccursTwice(ys, i, j);
        OccursOnce(xs, ys[i]);
        assert false;
      }
    }
  }

  function Without<T>(xs: seq<T>, i: nat): (r: seq<T>)
    requires i < |xs|
    ensures |r| == |xs| - 1
  {
    xs[..i] + xs[i + 1..]
  }

  lemma ContentsWithout<T>(xs: seq<T>, i: nat)
    requires i < |xs|
    ensures multiset(xs) == multiset(Without(xs, i)) + multiset{xs[i]}
  {
    assert xs == xs[..i] + [xs[i]] + xs[i + 1..];
  }

  lemma Cancel<T>(a: multiset<T>, b: multiset<T>, x: T)
    requires a + multiset{x} == b + multiset{x}
    ensures a == b
  {
    assert a == a + multiset{x} - multiset{x};
    assert b == b + multiset{x} - multiset{x};
  }

  /** Taking equal elements out of two rearrangements leaves rearrangements. */
  lemma SameWithout<T>(xs: seq<T>, i: nat, ys: seq<T>, j: nat)
    requires multiset(xs) == multiset(ys) && i < |xs| && j < |ys| && xs[i] == ys[j]
    ensures multiset(Without(xs, i)) == multiset(Without(ys, j))
  {
    ContentsWithout(xs, i);
    ContentsWithout(ys, j);
    Cancel(multiset(Without(xs, i)), multiset(Without(ys, j)), xs[i]);
  }

  /** The place in `xs` of an element of a rearrangement. */
  lemma FindIn<T>(xs: seq<T>, ys: seq<T>, j: nat) returns (i: nat)
    requires multiset(xs) == multiset(ys) && j < |ys|
    ensures i < |xs| && xs[i] == ys[j]
  {
    assert ys[j] in multiset(xs);
    i :| 0 <= i < |xs| && xs[i] == ys[j];
  }
}
