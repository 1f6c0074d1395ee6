/** What the placeholders of a configuration text stand for, and how a loaded configuration reads. */
module PlaceholderReading {
  import opened Common
  import opened ConfigTree
  import opened EnvOverrides
  import opened ConfigPersistence
  import SaveProtocol
  import Secrets
  import TemplateSubst

  // ---- Texts as their author sees them ----

  /** A character, `${name}`, or `${name:default}`. */
  datatype Piece = Chr(c: char) | Var(name: string) | VarOr(name: string, default: string)

  function Inner(p: Piece): string
    requires !p.Chr?
  {
    if p.Var? then p.name else p.name + (":" + p.default)
  }

  function PrintPiece(p: Piece): string {
    if p.Chr? then [p.c] else "${" + (Inner(p) + "}")
  }

  function Print(ps: seq<Piece>): string {
    if ps == [] then "" else PrintPiece(ps[0]) + Print(ps[1..])
  }

  predicate PieceOk(p: Piece) {
    match p
    case Chr(_) => true
    case Var(name) => name != "" && Lacks(name, ':') && Lacks(name, '}')
    case VarOr(name, default) => Lacks(name, ':') && Lacks(name, '}') && Lacks(default, '}')
  }

  /** A `${` in front of `rest` is empty or never closed. */
  predicate OpensNothing(rest: string) {
    rest == "" || rest[0] == '}' || Lacks(rest, '}')
  }

  predicate PiecesOk(ps: seq<Piece>) {
    ps != [] ==>
      && PieceOk(ps[0]) && PiecesOk(ps[1..])
      && (|ps| > 1 && ps[0] == Chr('$') && ps[1] == Chr('{') ==> OpensNothing(Print(ps[2..])))
  }

  /** The name holds one of four words, in lower case. */
  ghost predicate NamesSecretWord(lower: string -> string, name: string) {
    exists a, w, b :: w in {"password", "secret", "token", "key"} && lower(name) == a + (w + b)
  }

  /** A variable that is set wins; one that is not gives way to its default, or to nothing when its name is that of a
      secret, and stays otherwise. */
  ghost function Reads(env: Environment, p: Piece): string {
    if p.Chr? then [p.c]
    else if p.name in env.vars then env.vars[p.name]
    else if p.VarOr? then p.default
    else if NamesSecretWord(env.lower, p.name) then ""
    else PrintPiece(p)
  }

  ghost function AllRead(env: Environment, ps: seq<Piece>): string {
    if ps == [] then "" else Reads(env, ps[0]) + AllRead(env, ps[1..])
  }

  // ---- One piece ----

  lemma ContainsIff(s: string, x: string)
    ensures Contains(s, x) <==> exists a, b :: s == a + (x + b)
  {
    if i :| 0 <= i <= |s| && At(s, i, x) {
      AtSlice(s, i, x);
      assert s == s[..i] + (x + s[i + |x|..]);
    }
    if a, b :| s == a + (x + b) {
      AtMiddle(a, x, b);
    }
  }

  lemma NamesSecretIff(lower: string -> string, name: string)
    ensures NamesSecret(lower, name) <==> NamesSecretWord(lower, name)
  {
    hide Contains;
    if k :| 0 <= k < |SECRET_WORDS| && Contains(lower(name), SECRET_WORDS[k]) {
      ContainsIff(lower(name), SECRET_WORDS[k]);
      var a, b :| lower(name) == a + (SECRET_WORDS[k] + b);
      assert SECRET_WORDS[k] in {"password", "secret", "token", "key"};
    }
    if a, w, b :| w in {"password", "secret", "token", "key"} && lower(name) == a + (w + b) {
      ContainsIff(lower(name), w);
      var k := if w == "password" then 0 else if w == "secret" then 1 else if w == "token" then 2 else 3;
      assert SECRET_WORDS[k] == w;
    }
  }

  lemma NameEnds(p: Piece)
    requires !p.Chr? && PieceOk(p)
    ensures NameEnd(Inner(p)) == |p.name| && Inner(p)[..|p.name|] == p.name
    ensures p.VarOr? ==> |p.name| < |Inner(p)| && Inner(p)[|p.name| + 1..] == p.default
  {
    var x := Inner(p);
    assert forall k :: 0 <= k < |p.name| ==> x[k] == p.name[k];
    if p.VarOr? {
      TemplateSubst.IndexOfFirst(x, 0, ':', |p.name|);
    } else {
      NoneIndexed(x, 0, ':');
    }
  }

  lemma {:induction false} NoneIndexed(s: string, i: nat, c: char)
    requires i <= |s| && forall k :: i <= k < |s| ==> s[k] != c
    ensures TemplateSubst.IndexOf(s, i, c) == |s|
    decreases |s| - i
  {
    if i < |s| {
      NoneIndexed(s, i + 1, c);
    }
  }

  lemma ExpandsPiece(env: Environment, p: Piece)
    requires !p.Chr? && PieceOk(p)
    ensures Expansion(env, Inner(p)) == Reads(env, p)
  {
    hide NameEnd, NamesSecret, NamesSecretWord;
    NameEnds(p);
    NamesSecretIff(env.lower, p.name);
    assert p.Var? ==> Inner(p) == p.name;
    assert "${" + Inner(p) + "}" == "${" + (Inner(p) + "}");
  }

  lemma InnerOk(p: Piece)
    requires !p.Chr? && PieceOk(p)
    ensures Inner(p) != "" && Lacks(Inner(p), '}')
  {
  }

  /** `${inner}` standing at `i` is matched as a whole. */
  lemma MatchedPiece(s: string, i: nat, x: string)
    requires x != "" && Lacks(x, '}') && At(s, i, "${" + (x + "}"))
    ensures i + |x| + 3 <= |s| && TemplateSubst.MatchTemplate(s, i) == Some(i + |x| + 3)
    ensures s[i + 2..i + |x| + 2] == x
  {
    hide At;
    AtSplit(s, i, "${", x + "}");
    AtSplit(s, i + 2, x, "}");
    AtChars(s, i, "${");
    AtChars(s, i + 2, x);
    AtChars(s, i + 2 + |x|, "}");
    AtSlice(s, i + 2, x);
    TemplateSubst.IndexOfFirst(s, i + 2, '}', i + |x| + 2);
  }

  // ---- Whole texts ----

  lemma NoTemplateHere(s: string, i: nat)
    requires i < |s| && (s[i] == '$' && i + 1 < |s| && s[i + 1] == '{' ==> OpensNothing(s[i + 2..]))
    ensures TemplateSubst.MatchTemplate(s, i) == None
  {
    if s[i] == '$' && i + 1 < |s| && s[i + 1] == '{' {
      var rest := s[i + 2..];
      if Lacks(rest, '}') {
        assert forall k :: i + 2 <= k < |s| ==> s[k] == rest[k - i - 2];
        NoneIndexed(s, i + 2, '}');
      } else {
        assert s[i + 2] == '}';
      }
    }
  }

  lemma ExpandedChr(env: Environment, s: string, i: nat)
    requires i < |s| && TemplateSubst.MatchTemplate(s, i) == None
    ensures Expanded(env, s, i) == [s[i]] + Expanded(env, s, i + 1)
  {
  }

  lemma ExpandedMatch(env: Environment, s: string, i: nat, e: nat)
    requires i < |s| && TemplateSubst.MatchTemplate(s, i) == Some(e)
    ensures Expanded(env, s, i) == Expansion(env, s[i + 2..e - 1]) + Expanded(env, s, e)
  {
    hide Expansion, TemplateSubst.MatchTemplate;
  }

  lemma ExpandedEnd(env: Environment, s: string)
    ensures Expanded(env, s, |s|) == ""
  {
  }

  lemma PrintFirst(p: Piece, ps: seq<Piece>)
    ensures Print([p] + ps) == PrintPiece(p) + Print(ps) && PrintPiece(p) != ""
    ensures PrintPiece(p)[0] == '{' <==> p == Chr('{')
  {
    assert ([p] + ps)[1..] == ps;
  }

  /** A `{` at the front of a printed text is a character of its own. */
  lemma BraceFirst(s: string, i: nat, ps: seq<Piece>)
    requires ps != [] && At(s, i, Print(ps)) && i + |Print(ps)| == |s|
    ensures i < |s| && (s[i] == '{' ==> ps[0] == Chr('{') && s[i + 1..] == Print(ps[1..]))
  {
    hide At, Print, PrintPiece;
    assert ps == [ps[0]] + ps[1..];
    PrintFirst(ps[0], ps[1..]);
    AtSplit(s, i, PrintPiece(ps[0]), Print(ps[1..]));
    AtChars(s, i, PrintPiece(ps[0]));
    AtSlice(s, i + |PrintPiece(ps[0])|, Print(ps[1..]));
    if ps[0] == Chr('{') {
      ChrPrinted('{');
    }
  }

  lemma ChrPrinted(c: char)
    ensures PrintPiece(Chr(c)) == [c]
  {
  }

  /** At a printed character no placeholder begins. */
  lemma DollarOk(s: string, i: nat, ps: seq<Piece>)
    requires ps != [] && ps[0].Chr? && PiecesOk(ps) && At(s, i, Print(ps)) && i + |Print(ps)| == |s|
    ensures i < |s| && s[i] == ps[0].c && TemplateSubst.MatchTemplate(s, i) == None
  {
    hide At, OpensNothing, PieceOk, TemplateSubst.MatchTemplate;
    AtSplit(s, i, [ps[0].c], Print(ps[1..]));
    AtChars(s, i, [ps[0].c]);
    if |ps| > 1 {
      BraceFirst(s, i + 1, ps[1..]);
      assert ps[1..][1..] == ps[2..];
    }
    NoTemplateHere(s, i);
  }

  lemma PieceExpanded(env: Environment, s: string, i: nat, p: Piece)
    requires !p.Chr? && PieceOk(p) && At(s, i, PrintPiece(p))
    ensures i + |PrintPiece(p)| <= |s|
    ensures Expanded(env, s, i) == Reads(env, p) + Expanded(env, s, i + |PrintPiece(p)|)
  {
    hide At, Expanded, Expansion, Reads, Inner, PieceOk;
    InnerOk(p);
    MatchedPiece(s, i, Inner(p));
    ExpandsPiece(env, p);
    ExpandedMatch(env, s, i, i + |Inner(p)| + 3);
  }

  /** A text expands piece by piece. */
  lemma {:induction false} ExpandsPieces(env: Environment, s: string, i: nat, ps: seq<Piece>)
    requires PiecesOk(ps) && At(s, i, Print(ps)) && i + |Print(ps)| == |s|
    ensures Expanded(env, s, i) == AllRead(env, ps)
    decreases |ps|
  {
    hide At, Expanded, PieceOk, OpensNothing, Inner;
    if ps == [] {
      ExpandedEnd(env, s);
    } else {
      var p := ps[0];
      AtSplit(s, i, PrintPiece(p), Print(ps[1..]));
      ExpandsPieces(env, s, i + |PrintPiece(p)|, ps[1..]);
      if p.Chr? {
        DollarOk(s, i, ps);
        ExpandedChr(env, s, i);
      } else {
        PieceExpanded(env, s, i, p);
      }
    }
  }

  lemma TextExpands(env: Environment, ps: seq<Piece>)
    requires PiecesOk(ps)
    ensures Expanded(env, Print(ps), 0) == AllRead(env, ps)
  {
    hide At, PiecesOk, Expanded, AllRead;
    var s := Print(ps);
    assert s[0..0 + |s|] == s;
    AtSlice(s, 0, s);
    ExpandsPieces(env, s, 0, ps);
  }

  /** The piece that a match is. */
  function PieceOf(expr: string): Piece {
    var c := NameEnd(expr);
    if c < |expr| then VarOr(expr[..c], expr[c + 1..]) else Var(expr)
  }

  lemma {:induction false} Unindexed(s: string, i: nat, c: char)
    requires i <= |s|
    ensures forall k :: i <= k < TemplateSubst.IndexOf(s, i, c) ==> s[k] != c
    decreases |s| - i
  {
    if i < |s| {
      Unindexed(s, i + 1, c);
    }
  }

  lemma PieceOfOk(expr: string)
    requires expr != "" && Lacks(expr, '}')
    ensures var p := PieceOf(expr); !p.Chr? && PieceOk(p) && PrintPiece(p) == "${" + (expr + "}")
  {
    var c := NameEnd(expr);
    Unindexed(expr, 0, ':');
    if c < |expr| {
      assert expr == expr[..c] + (":" + expr[c + 1..]);
    }
  }

  lemma MatchIs(s: string, i: nat, e: nat)
    requires TemplateSubst.MatchTemplate(s, i) == Some(e)
    ensures i + 4 <= e <= |s|
    ensures var expr := s[i + 2..e - 1]; expr != "" && Lacks(expr, '}') && s[i..] == "${" + (expr + "}") + s[e..]
  {
    Unindexed(s, i + 2, '}');
    var expr := s[i + 2..e - 1];
    assert s[i] == '$' && s[i + 1] == '{' && s[e - 1] == '}';
    assert s[i..] == s[i..i + 2] + s[i + 2..e - 1] + s[e - 1..e] + s[e..];
    assert s[i..i + 2] == "${" && s[e - 1..e] == "}";
  }

  lemma NoMatchOpens(s: string, i: nat)
    requires i + 1 < |s| && s[i] == '$' && s[i + 1] == '{' && TemplateSubst.MatchTemplate(s, i) == None
    ensures OpensNothing(s[i + 2..])
  {
    var rest := s[i + 2..];
    Unindexed(s, i + 2, '}');
    var e := TemplateSubst.IndexOf(s, i + 2, '}');
    if e == |s| {
      forall k | 0 <= k < |rest| ensures rest[k] != '}' {
        assert rest[k] == s[i + 2 + k];
      }
    } else {
      assert rest[0] == s[i + 2];
    }
  }

  lemma BraceBehind(s: string, i: nat, ps: seq<Piece>)
    requires i < |s| && s[i] == '$' && TemplateSubst.MatchTemplate(s, i) == None
    requires ps != [] && ps[0] == Chr('{') && Print(ps) == s[i + 1..]
    ensures OpensNothing(Print(ps[1..]))
  {
    hide OpensNothing, TemplateSubst.MatchTemplate, Print;
    assert ps == [ps[0]] + ps[1..];
    PrintFirst(ps[0], ps[1..]);
    ChrPrinted('{');
    assert s[i + 1..][0] == '{' && s[i + 1..][1..] == Print(ps[1..]) == s[i + 2..];
    NoMatchOpens(s, i);
  }

  lemma ChrOk(s: string, i: nat, ps: seq<Piece>)
    requires i < |s| && TemplateSubst.MatchTemplate(s, i) == None && PiecesOk(ps) && Print(ps) == s[i + 1..]
    ensures PiecesOk([Chr(s[i])] + ps) && Print([Chr(s[i])] + ps) == s[i..]
  {
    hide OpensNothing, PieceOk, Print, TemplateSubst.MatchTemplate;
    var all := [Chr(s[i])] + ps;
    assert all[1..] == ps;
    AnyChr(s[i]);
    PrintFirst(Chr(s[i]), ps);
    ChrPrinted(s[i]);
    if ps != [] && s[i] == '$' && ps[0] == Chr('{') {
      BraceBehind(s, i, ps);
      assert all[2..] == ps[1..];
    }
  }

  lemma AnyChr(c: char)
    ensures PieceOk(Chr(c))
  {
  }

  lemma MatchOk(s: string, i: nat, e: nat, ps: seq<Piece>)
    requires TemplateSubst.MatchTemplate(s, i) == Some(e) && PiecesOk(ps) && Print(ps) == s[e..]
    ensures var all := [PieceOf(s[i + 2..e - 1])] + ps; PiecesOk(all) && Print(all) == s[i..]
  {
    hide OpensNothing, PieceOk, PieceOf, PrintPiece;
    MatchIs(s, i, e);
    var p := PieceOf(s[i + 2..e - 1]);
    PieceOfOk(s[i + 2..e - 1]);
    assert ([p] + ps)[1..] == ps;
  }

  /** Every text is made of such pieces. */
  lemma {:induction false} EveryText(s: string, i: nat) returns (ps: seq<Piece>)
    requires i <= |s|
    ensures PiecesOk(ps) && Print(ps) == s[i..]
    decreases |s| - i
  {
    hide PieceOk, OpensNothing, PiecesOk, Print;
    if i == |s| {
      ps := [];
      NoPieces();
    } else {
      match TemplateSubst.MatchTemplate(s, i)
      case Some(e) =>
        var rest := EveryText(s, e);
        MatchOk(s, i, e, rest);
        ps := [PieceOf(s[i + 2..e - 1])] + rest;
      case None =>
        var rest := EveryText(s, i + 1);
        ChrOk(s, i, rest);
        ps := [Chr(s[i])] + rest;
    }
  }

  lemma NoPieces()
    ensures PiecesOk([]) && Print([]) == ""
  {
  }

  // ---- Lists ----

  /** A text holds a placeholder exactly when some `${...}` with anything but `}` in it stands in it. */
  lemma HasPlaceholderIff(s: string)
    ensures HasPlaceholder(s)
       <==> exists a, x, b :: x != "" && Lacks(x, '}') && s == a + (("${" + (x + "}")) + b)
  {
    hide TemplateSubst.MatchTemplate;
    if i :| 0 <= i < |s| && TemplateSubst.MatchTemplate(s, i).Some? {
      var e := TemplateSubst.MatchTemplate(s, i).value;
      MatchIs(s, i, e);
      assert s == s[..i] + (("${" + (s[i + 2..e - 1] + "}")) + s[e..]);
    }
    if a, x, b :| x != "" && Lacks(x, '}') && s == a + (("${" + (x + "}")) + b) {
      AtMiddle(a, "${" + (x + "}"), b);
      MatchedPiece(s, |a|, x);
    }
  }

  /** The positions of the items that a list keeps: all but the texts in which a placeholder is left. */
  function Kept(env: Environment, items: seq<Value>): set<nat> {
    set k | 0 <= k < |items| && KeptInList(Resolve(env, items[k]))
  }

  lemma {:induction false} ResolvedAppend(env: Environment, items: seq<Value>, x: Value)
    ensures Resolved(env, items + [x])
         == Resolved(env, items) + if KeptInList(Resolve(env, x)) then [Resolve(env, x)] else []
    decreases |items|
  {
    hide HasPlaceholder, Resolve;
    if items == [] {
      assert [] + [x] == [x] && [x][1..] == [];
    } else {
      assert (items + [x])[1..] == items[1..] + [x];
      ResolvedAppend(env, items[1..], x);
    }
  }

  /** Resolving a list resolves its items and keeps, in order, those in which no placeholder is left. */
  lemma {:induction false} ListResolved(env: Environment, items: seq<Value>) returns (at: seq<nat>)
    ensures Lists(at, Kept(env, items)) && Resolve(env, List(items)) == List(Resolved(env, items))
    ensures var r := Resolved(env, items);
            |r| == |at| && forall k :: 0 <= k < |at| ==> at[k] < |items| && r[k] == Resolve(env, items[at[k]])
    decreases |items|
  {
    hide Lists, Kept, Resolved, KeptInList;
    if items == [] {
      at := [];
      NothingKept(env);
    } else {
      var n := |items| - 1;
      var init := items[..n];
      at := ListResolved(env, init);
      assert items == init + [items[n]];
      ResolvedAppend(env, init, items[n]);
      KeptNext(env, items);
      if KeptInList(Resolve(env, items[n])) {
        ListsNext(at, Kept(env, init), n);
        at := at + [n];
      } else {
        assert Kept(env, init) + {} == Kept(env, init);
      }
    }
  }

  lemma NothingKept(env: Environment)
    ensures Lists([], Kept(env, [])) && Resolved(env, []) == []
  {
    assert Kept(env, []) == {};
  }

  lemma KeptNext(env: Environment, items: seq<Value>)
    requires items != []
    ensures var n := |items| - 1;
            && Kept(env, items) == Kept(env, items[..n]) + (if KeptInList(Resolve(env, items[n])) then {n} else {})
            && forall k :: k in Kept(env, items[..n]) ==> k < n
  {
    hide KeptInList, Resolve;
  }

  // ---- How the loaded configuration reads ----

  /** Resolving acts on each value where it stands. */
  lemma {:induction false} GetResolved(env: Environment, v: Value, q: Path)
    ensures Get(Resolve(env, v), q) == Resolve(env, Get(v, q))
    decreases |q|
  {
    hide Expanded, Resolved;
    if q != [] && v.Map? && q[0] in v.m {
      GetResolved(env, v.m[q[0]], q[1..]);
    }
  }

  /** Decryption leaves the value at `q`: its path is clear of the secrets, or it is a secret that does not look
      encrypted. */
  predicate PlainAt(data: Value, q: Path) {
    || (forall k :: 0 <= k < |SecretPaths()| ==> !Comparable(SecretPaths()[k], q))
    || (q in SecretPaths() && Get(data, q).Str? && !("{\"algorithm\":" <= Get(data, q).s))
  }

  lemma PlainStays(sm: Secrets.SecretManager, data: Value, q: Path)
    requires q != [] && PlainAt(data, q)
    ensures Get(Secrets.DecryptAll(sm, data, SecretPaths()), q) == Get(data, q)
  {
    hide SecretPaths, Get, Secrets.Run;
    var paths := SecretPaths();
    if forall k :: 0 <= k < |paths| ==> !Comparable(paths[k], q) {
      Secrets.OffPathUntouched(sm, 0, data, paths, q);
    } else {
      var k :| 0 <= k < |paths| && paths[k] == q;
      Secrets.RunReadsListed(sm, None, data, paths, |paths|, k);
    }
  }

  /** A value clear of the overrides reads in the loaded configuration as its placeholders resolve. */
  lemma ReadsResolved(sm: Secrets.SecretManager, env: Environment, over: Value, data: Value, q: Path)
    requires data.Map? && LoadedFrom(env, over) && VariablesGetAlong(env)
    requires q != [] && ClearOf(env, q) && PlainAt(data, q)
    ensures over.Map? && Loaded(sm, env, over, data).Some?
    ensures Get(Loaded(sm, env, over, data).value, q) == Resolve(env, Get(data, q))
  {
    hide LoadedFrom, VariablesGetAlong, ClearOf, PlainAt, Merge, Get, Resolve, SecretPaths, Secrets.Run;
    var clear := Secrets.DecryptAll(sm, data, SecretPaths());
    StaysMap(sm, data);
    EffectiveConfiguration(env, Resolve(env, clear), over);
    GetResolved(env, clear, q);
    PlainStays(sm, data, q);
  }

  lemma StaysMap(sm: Secrets.SecretManager, data: Value)
    requires data.Map?
    ensures Secrets.DecryptAll(sm, data, SecretPaths()).Map?
  {
    hide SecretPaths;
    RunStaysMap(sm, data, SecretPaths(), |SecretPaths()|);
  }

  lemma {:induction false} RunStaysMap(sm: Secrets.SecretManager, data: Value, paths: seq<Path>, n: nat)
    requires data.Map? && Secrets.PathsOk(paths) && n <= |paths|
    ensures Secrets.Run(sm, None, data, paths, n).Map?
    decreases n
  {
    if n > 0 {
      RunStaysMap(sm, data, paths, n - 1);
    }
  }

  /** A text clear of the overrides reads as its pieces do: set variables, defaults, nothing for unset secrets. */
  lemma TextLoaded(sm: Secrets.SecretManager, env: Environment, over: Value, data: Value, q: Path, ps: seq<Piece>)
    requires data.Map? && LoadedFrom(env, over) && VariablesGetAlong(env)
    requires q != [] && ClearOf(env, q) && PlainAt(data, q)
    requires PiecesOk(ps) && Get(data, q) == Str(Print(ps))
    ensures over.Map? && Loaded(sm, env, over, data).Some?
    ensures Get(Loaded(sm, env, over, data).value, q) == Str(AllRead(env, ps))
  {
    hide LoadedFrom, VariablesGetAlong, ClearOf, PlainAt, Loaded, Get, PiecesOk, Print, AllRead, Expanded;
    ReadsResolved(sm, env, over, data, q);
    TextExpands(env, ps);
  }

  /** A path that a variable names reads as the variable means, whatever the file holds there. */
  lemma VariableLoaded(sm: Secrets.SecretManager, env: Environment, over: Value, data: Value, key: string, path: Path,
                       v: Value)
    requires data.Map? && LoadedFrom(env, over) && VariablesGetAlong(env)
    requires key in env.vars && Names(env, key, path) && Means(env.vars[key], v)
    ensures over.Map? && Loaded(sm, env, over, data).Some?
    ensures Get(Loaded(sm, env, over, data).value, path) == v
  {
    hide LoadedFrom, VariablesGetAlong, Names, Means, Merge, Get, Resolve, SecretPaths, Secrets.Run;
    StaysMap(sm, data);
    EffectiveConfiguration(env, Resolve(env, Secrets.DecryptAll(sm, data, SecretPaths())), over);
  }

  lemma {:induction false} RunOffMap(sm: Secrets.SecretManager, data: Value, paths: seq<Path>, n: nat)
    requires !data.Map? && Secrets.PathsOk(paths) && n <= |paths|
    ensures Secrets.Run(sm, None, data, paths, n) == data
    decreases n
  {
    if n > 0 {
      RunOffMap(sm, data, paths, n - 1);
    }
  }

  /** Data is loaded exactly when it is a map; anything else raises. */
  lemma LoadedIff(sm: Secrets.SecretManager, env: Environment, over: Value, data: Value)
    requires over.Map?
    ensures Loaded(sm, env, over, data).Some? <==> data.Map?
  {
    hide SecretPaths, Resolve, Merge, Secrets.Run;
    if data.Map? {
      StaysMap(sm, data);
    } else {
      RunOffMap(sm, data, SecretPaths(), |SecretPaths()|);
    }
  }

  /** What a load starts from: the map in the file; nothing when there is no file or it holds something that is empty
      or zero; the latest snapshot, when it is a map with entries, in place of a file whose reading raises an exception
      that is caught. Other content, and other exceptions, make the load raise. */
  lemma LoadStartsFrom(sm: Secrets.SecretManager, env: Environment, over: Value, f: SaveProtocol.Format,
                       file: Option<string>, versions: seq<Value>)
    requires over.Map?
    ensures var data, nothing := ReadData(f, file, versions), Map(map[]);
            match file
            case None => data == Some(nothing)
            case Some(text) =>
              match f.parse(text)
              case Escapes => data == None
              case Caught =>
                data == Some(if exists m, init :: versions == init + [Map(m)] && m != map[]
                             then versions[|versions| - 1] else nothing)
              case Parsed(v) =>
                if v.Map? then data == Some(v)
                else if v in {Null, Scalar(0), Str(""), List([])} then data == Some(nothing)
                else data.Some? && Loaded(sm, env, over, data.value) == None
  {
    hide Loaded;
    if file.Some? && f.parse(file.value).Parsed? {
      LoadedIff(sm, env, over, f.parse(file.value).value);
    }
    if versions != [] && versions[|versions| - 1].Map? {
      assert versions == versions[..|versions| - 1] + [Map(versions[|versions| - 1].m)];
    }
  }
}
