/** Packing device points into Modbus coils and holding registers (big-endian words,
    section 4.2 of the MODBUS Application Protocol Specification V1.1b3). */
module ModbusMapper {

  type Bits32 = n: int | 0 <= n < 0x1_0000_0000

  /** A point value; a float is given by its 32-bit pattern. */
  datatype Point = Bool(b: bool) | Float(bits: Bits32) | Int(n: int) | Other

  predicate FitsWord(n: int) {
    -32768 <= n <= 65535
  }

  predicate FitsTwoWords(n: int) {
    -2147483648 <= n <= 4294967295
  }

  /** Registers or coils a point takes up. An integer wider than 32 bits takes up none. */
  function Width(p: Point): nat {
    match p
    case Bool(_) => 1
    case Float(_) => 2
    case Int(n) => if FitsWord(n) then 1 else if FitsTwoWords(n) then 2 else 0
    case Other => 1
  }

  /** Where point `i` is placed. */
  function Offset(ps: seq<Point>, base: nat, i: nat): nat
    requires i <= |ps|
  {
    if i == 0 then base else Offset(ps, base, i - 1) + Width(ps[i - 1])
  }

  /** Two's complement in `modulus` values. */
  function Unsigned(n: int, modulus: int): int
    requires modulus > 0
  {
    if n < 0 then n % modulus else n
  }

  /** The words of a point that goes into holding registers. */
  function Words(p: Point): (ws: seq<int>)
    ensures |ws| == if p.Float? || p.Int? then Width(p) else 0
  {
    match p
    case Float(bits) => [bits / 0x1_0000, bits % 0x1_0000]
    case Int(n) =>
      if FitsWord(n) then [Unsigned(n, 0x1_0000)]
      else if FitsTwoWords(n) then
        var u := Unsigned(n, 0x1_0000_0000);
        [(u / 0x1_0000) % 0x1_0000, u % 0x1_0000]
      else []
    case _ => []
  }

  /** `xs` with `ws` at `i` when all of it fits; unchanged otherwise. */
  function Placed(xs: seq<int>, i: nat, ws: seq<int>): (r: seq<int>)
    ensures |r| == |xs|
  {
    if i + |ws| <= |xs| then xs[..i] + ws + xs[i + |ws|..] else xs
  }

  function CoilBits(p: Point): (bs: seq<int>)
    ensures |bs| <= 1
  {
    if p.Bool? then [if p.b then 1 else 0] else []
  }

  /** Holding registers after mapping `ps` from `base`. */
  function Regs(ps: seq<Point>, base: nat, regs: seq<int>): (r: seq<int>)
    ensures |r| == |regs|
  {
    if ps == [] then regs
    else
      var n := |ps| - 1;
      Placed(Regs(ps[..n], base, regs), Offset(ps, base, n), Words(ps[n]))
  }

  function Coils(ps: seq<Point>, base: nat, coils: seq<int>): (r: seq<int>)
    ensures |r| == |coils|
  {
    if ps == [] then coils
    else
      var n := |ps| - 1;
      Placed(Coils(ps[..n], base, coils), Offset(ps, base, n), CoilBits(ps[n]))
  }

  lemma {:induction false} OffsetPrefix(ps: seq<Point>, base: nat, n: nat, i: nat)
    requires i <= n <= |ps|
    ensures Offset(ps[..n], base, i) == Offset(ps, base, i)
    decreases i
  {
    if i > 0 {
      OffsetPrefix(ps, base, n, i - 1);
    }
  }

  lemma NextPrefix(ps: seq<Point>, base: nat, i: nat, regs: seq<int>, coils: seq<int>)
    requires i < |ps|
    ensures Regs(ps[..i + 1], base, regs) == Placed(Regs(ps[..i], base, regs), Offset(ps, base, i), Words(ps[i]))
    ensures Coils(ps[..i + 1], base, coils) == Placed(Coils(ps[..i], base, coils), Offset(ps, base, i), CoilBits(ps[i]))
  {
    assert ps[..i + 1][..i] == ps[..i];
    OffsetPrefix(ps, base, i + 1, i);
  }

  method WriteOne(a: array<int>, i: nat, w: int)
    modifies a
    ensures a[..] == Placed(old(a[..]), i, [w])
  {
    if i < a.Length {
      a[i] := w;
    }
  }

  /** Both words are written, or neither. */
  method WriteTwo(a: array<int>, i: nat, hi: int, lo: int)
    modifies a
    ensures a[..] == Placed(old(a[..]), i, [hi, lo])
  {
    if i + 1 < a.Length {
      a[i] := hi;
      a[i + 1] := lo;
    }
  }

  lemma PlacedNothing(xs: seq<int>, i: nat)
    ensures Placed(xs, i, []) == xs
  {
  }

  /** One round of the loop. */
  method MapPoint(p: Point, offset: nat, holdingRegs: array<int>, coils: array<int>) returns (next: nat)
    requires holdingRegs != coils
    modifies holdingRegs, coils
    ensures next == offset + Width(p)
    ensures holdingRegs[..] == Placed(old(holdingRegs[..]), offset, Words(p))
    ensures coils[..] == Placed(old(coils[..]), offset, CoilBits(p))
  {
    hide Placed;
    PlacedNothing(holdingRegs[..], offset);
    PlacedNothing(coils[..], offset);
    next := offset;
    match p
    case Bool(b) =>
      WriteOne(coils, offset, if b then 1 else 0);
      next := next + 1;
    case Float(bits) =>
      WriteTwo(holdingRegs, offset, bits / 0x1_0000, bits % 0x1_0000);
      next := next + 2;
    case Int(n) =>
      if FitsWord(n) {
        WriteOne(holdingRegs, offset, Unsigned(n, 0x1_0000));
        next := next + 1;
      } else if FitsTwoWords(n) {
        var u := Unsigned(n, 0x1_0000_0000);
        WriteTwo(holdingRegs, offset, (u / 0x1_0000) % 0x1_0000, u % 0x1_0000);
        next := next + 2;
      }
    case Other =>
      next := next + 1;
  }

  /** The mapping loop, writing both arrays in place. */
  method MapDeviceData(points: seq<Point>, holdingRegs: array<int>, inputRegs: array<int>, coils: array<int>,
                       baseAddress: nat)
    returns (offset: nat)
    requires holdingRegs != inputRegs && holdingRegs != coils && inputRegs != coils
    modifies holdingRegs, coils
    ensures offset == Offset(points, baseAddress, |points|)
    ensures holdingRegs[..] == Regs(points, baseAddress, old(holdingRegs[..]))
    ensures coils[..] == Coils(points, baseAddress, old(coils[..]))
    ensures inputRegs[..] == old(inputRegs[..])
  {
    hide Placed, Words, CoilBits, Width;
    offset := baseAddress;
    ghost var regs0, coils0 := holdingRegs[..], coils[..];
    for i := 0 to |points|
      invariant offset == Offset(points, baseAddress, i)
      invariant holdingRegs[..] == Regs(points[..i], baseAddress, regs0)
      invariant coils[..] == Coils(points[..i], baseAddress, coils0)
      invariant inputRegs[..] == old(inputRegs[..])
    {
      NextPrefix(points, baseAddress, i, regs0, coils0);
      offset := MapPoint(points[i], offset, holdingRegs, coils);
    }
    assert points[..|points|] == points;
  }

  // ---- The layout ----

  lemma {:induction false} OffsetGrows(ps: seq<Point>, base: nat, i: nat, j: nat)
    requires i < j <= |ps|
    ensures Offset(ps, base, i) + Width(ps[i]) <= Offset(ps, base, j)
    decreases j
  {
    if i < j - 1 {
      OffsetGrows(ps, base, i, j - 1);
    }
  }

  /** Some pattern of a register of `modulus` values stands for `n`, read unsigned or in two's complement. */
  ghost predicate Pattern(n: int, modulus: int) {
    exists w: int :: 0 <= w < modulus && (n == w || (2 * w >= modulus && n == w - modulus))
  }

  lemma PatternIff(n: int, modulus: int)
    requires modulus % 2 == 0
    ensures Pattern(n, modulus) <==> -modulus <= 2 * n && n < modulus
  {
    if -modulus <= 2 * n < 0 {
      var w := n + modulus;
      assert 0 <= w < modulus && 2 * w >= modulus && n == w - modulus;
    }
  }

  /** A boolean, an integer that has a 16-bit pattern, or a point of another kind. */
  ghost predicate TakesOne(p: Point) {
    match p
    case Bool(_) => true
    case Float(_) => false
    case Int(n) => Pattern(n, 0x1_0000)
    case Other => true
  }

  /** A float, or an integer that has a 32-bit pattern and no shorter one. */
  ghost predicate TakesTwo(p: Point) {
    p.Float? || (p.Int? && Pattern(p.n, 0x1_0000_0000) && !Pattern(p.n, 0x1_0000))
  }

  lemma WidthIs(p: Point)
    ensures Width(p) == if TakesOne(p) then 1 else if TakesTwo(p) then 2 else 0
  {
    if p.Int? {
      PatternIff(p.n, 0x1_0000);
      PatternIff(p.n, 0x1_0000_0000);
    }
  }

  ghost function Ones(ps: seq<Point>): set<nat> {
    set i | 0 <= i < |ps| && TakesOne(ps[i])
  }

  ghost function Twos(ps: seq<Point>): set<nat> {
    set i | 0 <= i < |ps| && TakesTwo(ps[i])
  }

  lemma NextTaken(ps: seq<Point>)
    requires ps != []
    ensures var n := |ps| - 1;
            && |Ones(ps)| == |Ones(ps[..n])| + (if TakesOne(ps[n]) then 1 else 0)
            && |Twos(ps)| == |Twos(ps[..n])| + (if TakesTwo(ps[n]) then 1 else 0)
  {
    hide TakesOne, TakesTwo;
    var n := |ps| - 1;
    assert Ones(ps) == Ones(ps[..n]) + if TakesOne(ps[n]) then {n} else {};
    assert Twos(ps) == Twos(ps[..n]) + if TakesTwo(ps[n]) then {n} else {};
  }

  /** The offset returned counts one for each point that takes one place and two for each that takes two. */
  lemma {:induction false} ReturnsTotal(ps: seq<Point>, base: nat)
    ensures Offset(ps, base, |ps|) == base + |Ones(ps)| + 2 * |Twos(ps)|
    decreases |ps|
  {
    hide Width, TakesOne, TakesTwo;
    if ps == [] {
      assert Ones(ps) == {} && Twos(ps) == {};
    } else {
      var n := |ps| - 1;
      ReturnsTotal(ps[..n], base);
      OffsetPrefix(ps, base, n, n);
      NextTaken(ps);
      WidthIs(ps[n]);
      NotBoth(ps[n]);
    }
  }

  lemma NotBoth(p: Point)
    ensures !(TakesOne(p) && TakesTwo(p))
  {
  }

  /** Register `a` belongs to point `i`. */
  predicate Owns(ps: seq<Point>, base: nat, i: nat, a: nat)
    requires i < |ps|
  {
    Offset(ps, base, i) <= a < Offset(ps, base, i) + |Words(ps[i])|
  }

  /** All the words of point `i` fit into `size` registers. */
  predicate Fits(ps: seq<Point>, base: nat, i: nat, size: nat)
    requires i < |ps|
  {
    Offset(ps, base, i) + |Words(ps[i])| <= size
  }

  lemma PlacedAt(xs: seq<int>, i: nat, ws: seq<int>, a: nat)
    requires a < |xs|
    ensures Placed(xs, i, ws)[a] == if i + |ws| <= |xs| && i <= a < i + |ws| then ws[a - i] else xs[a]
  {
  }

  /** A register belongs to at most one point. */
  lemma OneOwner(ps: seq<Point>, base: nat, i: nat, j: nat, a: nat)
    requires i < |ps| && j < |ps| && Owns(ps, base, i, a) && Owns(ps, base, j, a)
    ensures i == j
  {
    if i < j {
      OffsetGrows(ps, base, i, j);
    } else if j < i {
      OffsetGrows(ps, base, j, i);
    }
  }

  /** Appending a point changes register `a` only if the point owns it and fits. */
  lemma LastRegister(ps: seq<Point>, base: nat, regs: seq<int>, a: nat)
    requires ps != [] && a < |regs|
    ensures var n := |ps| - 1;
            Regs(ps, base, regs)[a] == if Owns(ps, base, n, a) && Fits(ps, base, n, |regs|)
                                       then Words(ps[n])[a - Offset(ps, base, n)] else Regs(ps[..n], base, regs)[a]
  {
    hide Words, Placed;
    var n := |ps| - 1;
    PlacedAt(Regs(ps[..n], base, regs), Offset(ps, base, n), Words(ps[n]), a);
  }

  /** A register that no point owns keeps what it held. */
  lemma {:induction false} RegisterFree(ps: seq<Point>, base: nat, regs: seq<int>, a: nat)
    requires a < |regs| && forall i :: 0 <= i < |ps| ==> !Owns(ps, base, i, a)
    ensures Regs(ps, base, regs)[a] == regs[a]
    decreases |ps|
  {
    if ps != [] {
      var n := |ps| - 1;
      LastRegister(ps, base, regs, a);
      forall i | 0 <= i < n ensures !Owns(ps[..n], base, i, a) {
        OffsetPrefix(ps, base, n, i);
        assert !Owns(ps, base, i, a);
      }
      RegisterFree(ps[..n], base, regs, a);
    }
  }

  /** A register owned by a point holds its word of that point if all of the point fits, and what it held otherwise. */
  lemma {:induction false} RegisterHolds(ps: seq<Point>, base: nat, regs: seq<int>, a: nat, i: nat)
    requires a < |regs| && i < |ps| && Owns(ps, base, i, a)
    ensures Regs(ps, base, regs)[a]
         == if Fits(ps, base, i, |regs|) then Words(ps[i])[a - Offset(ps, base, i)] else regs[a]
    decreases |ps|
  {
    hide Words, Width;
    var n := |ps| - 1;
    LastRegister(ps, base, regs, a);
    if i == n {
      forall j | 0 <= j < n ensures !Owns(ps[..n], base, j, a) {
        OffsetPrefix(ps, base, n, j);
        if Owns(ps, base, j, a) {
          OneOwner(ps, base, j, n, a);
        }
      }
      RegisterFree(ps[..n], base, regs, a);
    } else {
      OffsetPrefix(ps, base, n, i);
      RegisterHolds(ps[..n], base, regs, a, i);
      if Owns(ps, base, n, a) {
        OneOwner(ps, base, i, n, a);
      }
    }
  }

  /** Point `i` is a boolean placed on coil `a`. */
  predicate OnCoil(ps: seq<Point>, base: nat, i: nat, a: nat)
    requires i < |ps|
  {
    ps[i].Bool? && Offset(ps, base, i) == a
  }

  lemma LastCoil(ps: seq<Point>, base: nat, coils: seq<int>, a: nat)
    requires ps != [] && a < |coils|
    ensures var n := |ps| - 1;
            Coils(ps, base, coils)[a] == if OnCoil(ps, base, n, a) then (if ps[n].b then 1 else 0)
                                         else Coils(ps[..n], base, coils)[a]
  {
    hide Placed;
    var n := |ps| - 1;
    PlacedAt(Coils(ps[..n], base, coils), Offset(ps, base, n), CoilBits(ps[n]), a);
  }

  /** A coil without a boolean point keeps what it held. */
  lemma {:induction false} CoilFree(ps: seq<Point>, base: nat, coils: seq<int>, a: nat)
    requires a < |coils| && forall i :: 0 <= i < |ps| ==> !OnCoil(ps, base, i, a)
    ensures Coils(ps, base, coils)[a] == coils[a]
    decreases |ps|
  {
    if ps != [] {
      var n := |ps| - 1;
      LastCoil(ps, base, coils, a);
      forall i | 0 <= i < n ensures !OnCoil(ps[..n], base, i, a) {
        OffsetPrefix(ps, base, n, i);
        assert !OnCoil(ps, base, i, a);
      }
      CoilFree(ps[..n], base, coils, a);
    }
  }

  /** The coil of a boolean point holds its bit. */
  lemma {:induction false} CoilHolds(ps: seq<Point>, base: nat, coils: seq<int>, a: nat, i: nat)
    requires a < |coils| && i < |ps| && OnCoil(ps, base, i, a)
    ensures Coils(ps, base, coils)[a] == if ps[i].b then 1 else 0
    decreases |ps|
  {
    var n := |ps| - 1;
    LastCoil(ps, base, coils, a);
    if i < n {
      OffsetPrefix(ps, base, n, i);
      OffsetGrows(ps, base, i, n);
      CoilHolds(ps[..n], base, coils, a, i);
    }
  }

  // ---- Words and what they decode to ----

  lemma UnsignedWord(n: int)
    requires FitsWord(n)
    ensures Unsigned(n, 0x1_0000) == (if n < 0 then n + 0x1_0000 else n) && 0 <= Unsigned(n, 0x1_0000) < 0x1_0000
  {
  }

  lemma UnsignedDouble(n: int)
    requires FitsTwoWords(n)
    ensures Unsigned(n, 0x1_0000_0000) == if n < 0 then n + 0x1_0000_0000 else n
    ensures 0 <= Unsigned(n, 0x1_0000_0000) < 0x1_0000_0000
  {
  }

  /** Every word written is a 16-bit register value. */
  lemma WordsInRange(p: Point)
    ensures forall k :: 0 <= k < |Words(p)| ==> 0 <= Words(p)[k] < 0x1_0000
  {
    if p.Int? && FitsWord(p.n) {
      UnsignedWord(p.n);
    }
  }

  /** A word, or two words with the high one first, as an unsigned number. */
  function DecodeUnsigned(ws: seq<int>): int {
    if |ws| == 1 then ws[0] else if |ws| == 2 then ws[0] * 0x1_0000 + ws[1] else 0
  }

  /** The same as a two's complement number. */
  function DecodeSigned(ws: seq<int>): int {
    var u := DecodeUnsigned(ws);
    if |ws| == 1 && u >= 0x8000 then u - 0x1_0000
    else if |ws| == 2 && u >= 0x8000_0000 then u - 0x1_0000_0000
    else u
  }

  /** The bit pattern of a float is recovered from its two words. */
  lemma FloatDecodes(bits: Bits32)
    ensures DecodeUnsigned(Words(Float(bits))) == bits
  {
  }

  /** An integer is written as its shortest pattern, or not at all when it has none. */
  lemma IntWords(n: int)
    ensures |Words(Int(n))| == if Pattern(n, 0x1_0000) then 1 else if Pattern(n, 0x1_0000_0000) then 2 else 0
    ensures Pattern(n, 0x1_0000_0000) ==> DecodeUnsigned(Words(Int(n))) == if n >= 0 then n else n + Modulus(n)
  {
    PatternIff(n, 0x1_0000);
    PatternIff(n, 0x1_0000_0000);
    if FitsWord(n) {
      UnsignedWord(n);
    } else if FitsTwoWords(n) {
      UnsignedDouble(n);
      var u := Unsigned(n, 0x1_0000_0000);
      assert u / 0x1_0000 < 0x1_0000;
    }
  }

  /** Unsigned decoding recovers exactly the numbers that are not negative. */
  lemma UnsignedDecodesIff(n: int)
    requires Pattern(n, 0x1_0000_0000)
    ensures DecodeUnsigned(Words(Int(n))) == n <==> n >= 0
  {
    hide Words, DecodeUnsigned;
    IntWords(n);
  }

  /** Signed decoding recovers exactly the numbers below the sign bit of the width that they are written in. */
  lemma SignedDecodesIff(n: int)
    requires Pattern(n, 0x1_0000_0000)
    ensures DecodeSigned(Words(Int(n))) == n <==> n < 0x8000 || 65535 < n < 0x8000_0000
  {
    hide Words, DecodeUnsigned;
    IntWords(n);
    PatternIff(n, 0x1_0000);
    PatternIff(n, 0x1_0000_0000);
  }

  /** Two integers of equal width share their words exactly when they differ by the modulus of that width. */
  lemma SameWordsIff(m: int, n: int)
    requires Pattern(m, 0x1_0000_0000) && Pattern(n, 0x1_0000_0000)
    requires Pattern(m, 0x1_0000) <==> Pattern(n, 0x1_0000)
    ensures Words(Int(m)) == Words(Int(n))
       <==> m == n || m - n == Modulus(m) || n - m == Modulus(m)
  {
    hide Words;
    IntWords(m);
    IntWords(n);
    PatternIff(m, 0x1_0000);
    PatternIff(n, 0x1_0000);
    PatternIff(m, 0x1_0000_0000);
    PatternIff(n, 0x1_0000_0000);
    WordsInRange(Int(m));
    WordsInRange(Int(n));
    SameDecoded(Words(Int(m)), Words(Int(n)));
  }

  lemma SameDecoded(ms: seq<int>, ns: seq<int>)
    requires 1 <= |ms| == |ns| <= 2
    requires forall k :: 0 <= k < |ms| ==> 0 <= ms[k] < 0x1_0000 && 0 <= ns[k] < 0x1_0000
    ensures ms == ns <==> DecodeUnsigned(ms) == DecodeUnsigned(ns)
  {
  }

  /** How far two readings of the pattern of `n` lie apart. */
  ghost function Modulus(n: int): int {
    if Pattern(n, 0x1_0000) then 0x1_0000 else 0x1_0000_0000
  }

  // ---- Composition ----

  lemma {:induction false} OffsetConcat(ps: seq<Point>, qs: seq<Point>, base: nat, j: nat)
    requires j <= |qs|
    ensures Offset(ps + qs, base, |ps| + j) == Offset(qs, Offset(ps, base, |ps|), j)
    decreases j
  {
    if j == 0 {
      OffsetPrefix(ps + qs, base, |ps|, |ps|);
      assert (ps + qs)[..|ps|] == ps;
    } else {
      OffsetConcat(ps, qs, base, j - 1);
    }
  }

  /** Mapping `ps + qs` is mapping `ps` and then `qs` from the offset returned. */
  lemma {:induction false} MapsInTurn(ps: seq<Point>, qs: seq<Point>, base: nat, regs: seq<int>, coils: seq<int>)
    ensures var next := Offset(ps, base, |ps|);
            && Offset(ps + qs, base, |ps + qs|) == Offset(qs, next, |qs|)
            && Regs(ps + qs, base, regs) == Regs(qs, next, Regs(ps, base, regs))
            && Coils(ps + qs, base, coils) == Coils(qs, next, Coils(ps, base, coils))
    decreases |qs|
  {
    hide Width, Words, CoilBits, Placed;
    OffsetConcat(ps, qs, base, |qs|);
    if qs == [] {
      assert ps + qs == ps;
    } else {
      var n := |qs| - 1;
      MapsInTurn(ps, qs[..n], base, regs, coils);
      OffsetConcat(ps, qs, base, n);
      assert (ps + qs)[..|ps| + n] == ps + qs[..n];
      assert (ps + qs)[|ps| + n] == qs[n];
    }
  }
}
