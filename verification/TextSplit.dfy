/** Cutting a text at a separator, and stripping white space, with what both mean. */
module TextSplit {
  import opened Common

  /** The pieces of `s[start..]` between separators, of which none begins before `i`. */
  function SplitFrom(s: string, sep: string, start: nat, i: nat): (r: seq<string>)
    requires sep != "" && start <= i <= |s|
    ensures r != []
    decreases |s| - i
  {
    if At(s, i, sep) then [s[start..i]] + NextPieces(s, sep, i)
    else if i < |s| then SplitFrom(s, sep, start, i + 1)
    else [s[start..]]
  }

  function NextPieces(s: string, sep: string, i: nat): (r: seq<string>)
    requires sep != "" && At(s, i, sep)
    ensures r != []
    decreases |s| - i, 0
  {
    AtChars(s, i, sep);
    SplitFrom(s, sep, i + |sep|, i + |sep|)
  }

  /** `s.split(sep)`. */
  function Split(s: string, sep: string): (r: seq<string>)
    requires sep != ""
    ensures r != []
  {
    SplitFrom(s, sep, 0, 0)
  }

  // ---- The pieces are those that a join puts together ----

  function Join(sep: string, pieces: seq<string>): string {
    if pieces == [] then ""
    else if |pieces| == 1 then pieces[0]
    else pieces[0] + (sep + Join(sep, pieces[1..]))
  }

  /** No separator begins in `x` before the end of what stands behind it. */
  predicate NoneBegins(x: string, behind: string, sep: string) {
    forall j :: 0 <= j < |x| ==> !At(x + behind, j, sep)
  }

  /** Each piece is cut at the first separator that begins in it. */
  predicate CleanCuts(sep: string, pieces: seq<string>) {
    forall k :: 0 <= k < |pieces| ==> NoneBegins(pieces[k], if k < |pieces| - 1 then sep else "", sep)
  }

  lemma CleanRest(sep: string, pieces: seq<string>)
    requires |pieces| > 1
    ensures CleanCuts(sep, pieces)
       <==> NoneBegins(pieces[0], sep, sep) && CleanCuts(sep, pieces[1..])
  {
    hide NoneBegins;
    var rest := pieces[1..];
    assert forall k :: 0 <= k < |rest| ==> rest[k] == pieces[k + 1];
    if CleanCuts(sep, pieces) {
      forall k | 0 <= k < |rest| ensures NoneBegins(rest[k], if k < |rest| - 1 then sep else "", sep) {
        assert NoneBegins(pieces[k + 1], if k + 1 < |pieces| - 1 then sep else "", sep);
      }
      assert NoneBegins(pieces[0], if 0 < |pieces| - 1 then sep else "", sep);
    }
    if NoneBegins(pieces[0], sep, sep) && CleanCuts(sep, rest) {
      forall k | 0 <= k < |pieces| ensures NoneBegins(pieces[k], if k < |pieces| - 1 then sep else "", sep) {
        assert k > 0 ==> NoneBegins(rest[k - 1], if k - 1 < |rest| - 1 then sep else "", sep);
      }
    }
  }

  /** An occurrence in a part is one in the whole. */
  lemma AtPart(s: string, i: nat, x: string, j: nat, sep: string)
    requires At(s, i, x) && j + |sep| <= |x|
    ensures At(s, i + j, sep) <==> At(x, j, sep)
  {
    hide At;
    AtChars(s, i, x);
    AtSlice(s, i + j, sep);
    AtSlice(x, j, sep);
    var y, z := s[i + j..i + j + |sep|], x[j..j + |sep|];
    forall k | 0 <= k < |sep| ensures y[k] == z[k] {
      assert s[i + j + k] == x[j + k];
    }
    assert y == z;
  }

  /** Scanning goes on to the end of a piece in which no separator begins. */
  lemma {:induction false} ScansPiece(s: string, sep: string, start: nat, i: nat, e: nat)
    requires sep != "" && start <= i <= e <= |s| && forall j :: i <= j < e ==> !At(s, j, sep)
    ensures SplitFrom(s, sep, start, i) == SplitFrom(s, sep, start, e)
    decreases e - i
  {
    hide At;
    if i < e {
      ScansPiece(s, sep, start, i + 1, e);
    }
  }

  lemma NoneInside(s: string, i: nat, x: string, behind: string, sep: string)
    requires sep != "" && At(s, i, x + behind) && NoneBegins(x, behind, sep)
    requires behind == sep || (behind == "" && i + |x| == |s|)
    ensures forall j :: i <= j < i + |x| ==> !At(s, j, sep)
  {
    hide At;
    forall j | i <= j < i + |x| ensures !At(s, j, sep) {
      assert !At(x + behind, j - i, sep);
      if j - i + |sep| <= |x + behind| {
        AtPart(s, i, x + behind, j - i, sep);
      } else {
        AtSlice(s, j, sep);
      }
    }
  }

  /** Splitting a join at the same separator gives the pieces. */
  lemma {:induction false} SplitsJoin(s: string, sep: string, i: nat, pieces: seq<string>)
    requires sep != "" && pieces != [] && CleanCuts(sep, pieces)
    requires At(s, i, Join(sep, pieces)) && i + |Join(sep, pieces)| == |s|
    ensures SplitFrom(s, sep, i, i) == pieces
    decreases |pieces|
  {
    hide At, NoneBegins;
    var x := pieces[0];
    if |pieces| == 1 {
      assert x + "" == x;
      assert NoneBegins(pieces[0], "", sep);
      NoneInside(s, i, x, "", sep);
      ScansPiece(s, sep, i, i, |s|);
      EndsPieces(s, sep, i);
      AtSlice(s, i, x);
      assert s[i..] == x && pieces == [x];
    } else {
      var e := i + |x|;
      AtSplit(s, i, x, sep + Join(sep, pieces[1..]));
      AtSplit(s, e, sep, Join(sep, pieces[1..]));
      AtSplit(s, i, x, sep);
      CleanRest(sep, pieces);
      NoneInside(s, i, x, sep, sep);
      AtSlice(s, e, sep);
      AtSlice(s, i, x);
      ScansPiece(s, sep, i, i, e);
      SplitsJoin(s, sep, e + |sep|, pieces[1..]);
      CutsHere(s, sep, i, e);
    }
  }

  lemma EndsPieces(s: string, sep: string, start: nat)
    requires sep != "" && start <= |s|
    ensures SplitFrom(s, sep, start, |s|) == [s[start..]]
  {
  }

  lemma CutsHere(s: string, sep: string, start: nat, e: nat)
    requires sep != "" && start <= e <= |s| && At(s, e, sep)
    ensures e + |sep| <= |s|
    ensures SplitFrom(s, sep, start, e) == [s[start..e]] + SplitFrom(s, sep, e + |sep|, e + |sep|)
  {
    AtSlice(s, e, sep);
  }

  /** The pieces join to the text, and no separator begins in them. */
  lemma {:induction false} PiecesJoin(s: string, sep: string, start: nat, i: nat)
    requires sep != "" && start <= i <= |s| && forall j :: start <= j < i ==> !At(s, j, sep)
    ensures var pieces := SplitFrom(s, sep, start, i); Join(sep, pieces) == s[start..] && CleanCuts(sep, pieces)
    decreases |s| - i
  {
    hide At, SplitFrom, CleanCuts;
    if At(s, i, sep) {
      var n := i + |sep|;
      CutsHere(s, sep, start, i);
      PiecesJoin(s, sep, n, n);
      CutJoins(s, sep, start, i);
    } else if i < |s| {
      PiecesJoin(s, sep, start, i + 1);
      ScansPiece(s, sep, start, i, i + 1);
    } else {
      EndsPieces(s, sep, start);
      LastClean(s, sep, start);
    }
  }

  lemma LastClean(s: string, sep: string, start: nat)
    requires sep != "" && start <= |s| && forall j :: start <= j < |s| ==> !At(s, j, sep)
    ensures CleanCuts(sep, [s[start..]])
  {
    hide At;
    var x := s[start..];
    assert x + "" == x;
    AtSlice(s, start, x);
    forall j | 0 <= j < |x| ensures !At(x, j, sep) {
      if j + |sep| <= |x| {
        AtPart(s, start, x, j, sep);
        assert !At(s, start + j, sep);
      } else {
        AtSlice(x, j, sep);
      }
    }
  }

  lemma CutJoins(s: string, sep: string, start: nat, i: nat)
    requires sep != "" && start <= i <= |s| && At(s, i, sep) && i + |sep| <= |s|
    requires forall j :: start <= j < i ==> !At(s, j, sep)
    requires var rest := SplitFrom(s, sep, i + |sep|, i + |sep|);
             Join(sep, rest) == s[i + |sep|..] && CleanCuts(sep, rest)
    ensures var pieces := [s[start..i]] + SplitFrom(s, sep, i + |sep|, i + |sep|);
            Join(sep, pieces) == s[start..] && CleanCuts(sep, pieces)
  {
    hide At, SplitFrom, CleanCuts, NoneBegins, Join;
    var x, rest := s[start..i], SplitFrom(s, sep, i + |sep|, i + |sep|);
    var pieces := [x] + rest;
    assert pieces[0] == x && pieces[1..] == rest;
    AtSlice(s, i, sep);
    ThreeParts(s, start, i, i + |sep|);
    JoinFirst(sep, pieces);
    CutClean(s, sep, start, i);
    CleanRest(sep, pieces);
  }

  lemma ThreeParts(s: string, i: nat, j: nat, k: nat)
    requires i <= j <= k <= |s|
    ensures s[i..] == s[i..j] + (s[j..k] + s[k..])
  {
  }

  lemma JoinFirst(sep: string, pieces: seq<string>)
    requires |pieces| > 1
    ensures Join(sep, pieces) == pieces[0] + (sep + Join(sep, pieces[1..]))
  {
  }

  lemma CutClean(s: string, sep: string, start: nat, i: nat)
    requires sep != "" && start <= i <= |s| && At(s, i, sep) && forall j :: start <= j < i ==> !At(s, j, sep)
    ensures NoneBegins(s[start..i], sep, sep)
  {
    hide At;
    var x := s[start..i];
    AtSlice(s, i, sep);
    assert x + sep == s[start..i + |sep|];
    AtSlice(s, start, x + sep);
    forall j | 0 <= j < |x| ensures !At(x + sep, j, sep) {
      AtPart(s, start, x + sep, j, sep);
      assert !At(s, start + j, sep);
    }
  }

  /** Splitting gives the one list of pieces that joins to the text and has no separator beginning in a piece. */
  lemma SplitIff(s: string, sep: string, pieces: seq<string>)
    requires sep != ""
    ensures Split(s, sep) == pieces <==> pieces != [] && Join(sep, pieces) == s && CleanCuts(sep, pieces)
  {
    hide At, SplitFrom, CleanCuts, Join;
    PiecesJoin(s, sep, 0, 0);
    assert s[0..] == s;
    if pieces != [] && Join(sep, pieces) == s && CleanCuts(sep, pieces) {
      assert s[0..0 + |s|] == s;
      AtSlice(s, 0, s);
      SplitsJoin(s, sep, 0, pieces);
    }
  }

  // ---- Stripping ----

  function Strip(s: string): string {
    if s == "" then ""
    else if IsSpace(s[0]) then Strip(s[1..])
    else if IsSpace(s[|s| - 1]) then Strip(s[..|s| - 1])
    else s
  }

  predicate Blank(x: string) {
    forall k :: 0 <= k < |x| ==> IsWhite(x[k])
  }

  /** No white space at either end. */
  predicate Bare(x: string) {
    x != "" ==> !IsWhite(x[0]) && !IsWhite(x[|x| - 1])
  }

  /** `core` with white space around it. */
  datatype Padded = Padded(lead: string, core: string, trail: string)

  predicate PadOk(p: Padded) {
    Blank(p.lead) && Bare(p.core) && Blank(p.trail)
  }

  function PadText(p: Padded): string {
    p.lead + (p.core + p.trail)
  }

  lemma {:induction false} StripsTrail(core: string, trail: string)
    requires Bare(core) && Blank(trail)
    ensures Strip(core + trail) == core
    decreases |trail|
  {
    hide IsSpace, IsWhite;
    var s := core + trail;
    if trail == "" {
      assert s == core;
      if core != "" {
        SpaceIff(core[0]);
        SpaceIff(core[|core| - 1]);
      }
    } else if core == "" {
      SpaceIff(s[0]);
      assert s[1..] == core + trail[1..];
      StripsTrail(core, trail[1..]);
    } else {
      SpaceIff(s[0]);
      SpaceIff(s[|s| - 1]);
      assert s[..|s| - 1] == core + trail[..|trail| - 1];
      StripsTrail(core, trail[..|trail| - 1]);
    }
  }

  /** Stripping takes the white space off both ends. */
  lemma {:induction false} StripsPadded(p: Padded)
    requires PadOk(p)
    ensures Strip(PadText(p)) == p.core
    decreases |p.lead|
  {
    hide IsSpace, IsWhite;
    if p.lead == "" {
      assert PadText(p) == p.core + p.trail;
      StripsTrail(p.core, p.trail);
    } else {
      var q := Padded(p.lead[1..], p.core, p.trail);
      SpaceIff(p.lead[0]);
      assert PadText(p)[1..] == PadText(q) && PadText(p)[0] == p.lead[0];
      StripsPadded(q);
    }
  }

  /** Every text is such a padded one. */
  lemma {:induction false} IsPadded(s: string) returns (p: Padded)
    ensures PadOk(p) && PadText(p) == s
    decreases |s|
  {
    hide IsSpace, IsWhite;
    if s == "" {
      p := Padded("", "", "");
    } else {
      SpaceIff(s[0]);
      SpaceIff(s[|s| - 1]);
      if IsWhite(s[0]) {
        var q := IsPadded(s[1..]);
        p := Padded([s[0]] + q.lead, q.core, q.trail);
        assert PadText(p) == [s[0]] + PadText(q);
      } else if IsWhite(s[|s| - 1]) {
        var q := IsPadded(s[..|s| - 1]);
        p := Padded(q.lead, q.core, q.trail + [s[|s| - 1]]);
        assert PadText(p) == PadText(q) + [s[|s| - 1]];
      } else {
        p := Padded("", s, "");
      }
    }
  }
}
