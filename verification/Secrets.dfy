/** Encryption and decryption of the sensitive values of a configuration tree. */
module Secrets {
  import opened Common
  import opened ConfigTree

  const CIPHER_PREFIX := "{\"algorithm\":"

  /** The secret manager. Encryption and decryption may raise, and the `n`-th call of `encrypt` may answer
      differently from the others, since a fresh salt goes into every ciphertext. */
  datatype SecretManager = SecretManager(
    initialized: bool,
    encrypt: (nat, string) -> Option<string>,
    decrypt: string -> Option<string>
  )

  predicate IsCipher(s: string) {
    CIPHER_PREFIX <= s
  }

  /** Every ciphertext is marked as one, and decrypts to what was encrypted. */
  ghost predicate Lawful(sm: SecretManager) {
    forall n, s :: sm.encrypt(n, s).Some? ==>
      IsCipher(sm.encrypt(n, s).value) && sm.decrypt(sm.encrypt(n, s).value) == Some(s)
  }

  /** Text that does not look encrypted is returned as it is. */
  function DecryptOrPlain(sm: SecretManager, s: string): Option<string> {
    if s == "" || !IsCipher(s) then Some(s) else sm.decrypt(s)
  }

  // ---- What happens to the text at one path ----

  datatype Op = Encrypt(n: nat) | Decrypt

  /** A failed operation leaves the text as it is. */
  function Apply(sm: SecretManager, op: Op, s: string): string {
    match op
    case Encrypt(n) =>
      if s == "" || IsCipher(s) || sm.encrypt(n, s).None? then s else sm.encrypt(n, s).value
    case Decrypt =>
      if s == "" || DecryptOrPlain(sm, s).None? then s else DecryptOrPlain(sm, s).value
  }

  function ApplyTo(sm: SecretManager, op: Op, v: Value): Value {
    if v.Str? then Str(Apply(sm, op, v.s)) else v
  }

  function Rewrite(sm: SecretManager, op: Op, v: Value, p: Path): Value
    requires p != []
  {
    if Get(v, p).Str? then Set(v, p, ApplyTo(sm, op, Get(v, p))) else v
  }

  predicate PathsOk(paths: seq<Path>) {
    && (forall k :: 0 <= k < |paths| ==> paths[k] != [])
    && (forall i, j :: 0 <= i < j < |paths| ==> !Comparable(paths[i], paths[j]))
  }

  /** The operation on the `k`-th path: the `base + k`-th call of `encrypt`, or a decryption. */
  function OpAt(base: Option<nat>, k: nat): Op {
    match base
    case Some(b) => Encrypt(b + k)
    case None => Decrypt
  }

  /** One run over the first `n` paths. */
  function Run(sm: SecretManager, base: Option<nat>, v: Value, paths: seq<Path>, n: nat): Value
    requires PathsOk(paths) && n <= |paths|
  {
    if n == 0 then v else Rewrite(sm, OpAt(base, n - 1), Run(sm, base, v, paths, n - 1), paths[n - 1])
  }

  /** A secret manager without master key leaves everything as it is. */
  function EncryptAll(sm: SecretManager, base: nat, v: Value, paths: seq<Path>): Value
    requires PathsOk(paths)
  {
    if sm.initialized then Run(sm, Some(base), v, paths, |paths|) else v
  }

  function DecryptAll(sm: SecretManager, v: Value, paths: seq<Path>): Value
    requires PathsOk(paths)
  {
    if sm.initialized then Run(sm, None, v, paths, |paths|) else v
  }

  // ---- The loops ----

  class SensitiveConfig {
    var tree: Value

    constructor (v: Value)
      ensures tree == v
    {
      tree := v;
    }

    method EncryptSensitive(sm: SecretManager, base: nat, paths: seq<Path>)
      requires PathsOk(paths)
      modifies this
      ensures tree == EncryptAll(sm, base, old(tree), paths)
    {
      if !sm.initialized {
        return;
      }
      for k := 0 to |paths|
        invariant tree == Run(sm, Some(base), old(tree), paths, k)
      {
        var val := GetNestedValue(tree, paths[k]);
        if val.Str? && val.s != "" && !(CIPHER_PREFIX <= val.s) {
          var cipher := sm.encrypt(base + k, val.s);
          if cipher.Some? {
            tree := Set(tree, paths[k], Str(cipher.value));
            continue;
          }
        }
        Unchanged(sm, Encrypt(base + k), tree, paths[k]);
      }
    }

    method DecryptSensitive(sm: SecretManager, paths: seq<Path>)
      requires PathsOk(paths)
      modifies this
      ensures tree == DecryptAll(sm, old(tree), paths)
    {
      if !sm.initialized {
        return;
      }
      for k := 0 to |paths|
        invariant tree == Run(sm, None, old(tree), paths, k)
      {
        var val := GetNestedValue(tree, paths[k]);
        if val.Str? && val.s != "" {
          var plain := DecryptOrPlain(sm, val.s);
          if plain.Some? && plain.value != val.s {
            tree := Set(tree, paths[k], Str(plain.value));
            continue;
          }
        }
        Unchanged(sm, Decrypt, tree, paths[k]);
      }
    }
  }

  lemma Unchanged(sm: SecretManager, op: Op, v: Value, p: Path)
    requires p != [] && ApplyTo(sm, op, Get(v, p)) == Get(v, p)
    ensures Rewrite(sm, op, v, p) == v
  {
    if Get(v, p).Str? {
      SetGet(v, p);
    }
  }

  // ---- Rewritings of incomparable paths do not meet ----

  lemma RewriteReads(sm: SecretManager, op: Op, v: Value, p: Path, q: Path)
    requires p != [] && (p == q || !Comparable(p, q))
    ensures Get(Rewrite(sm, op, v, p), q) == if p == q then ApplyTo(sm, op, Get(v, q)) else Get(v, q)
  {
    if Get(v, p).Str? {
      var x := ApplyTo(sm, op, Get(v, p));
      if p == q {
        GetSetSame(v, p, x);
      } else {
        GetSetOther(v, p, x, q);
      }
    }
  }

  lemma RewritesCommute(sm: SecretManager, op: Op, v: Value, p: Path, op': Op, q: Path)
    requires p != [] && q != [] && !Comparable(p, q)
    ensures Rewrite(sm, op', Rewrite(sm, op, v, p), q) == Rewrite(sm, op, Rewrite(sm, op', v, q), p)
  {
    RewriteReads(sm, op, v, p, q);
    RewriteReads(sm, op', v, q, p);
    SetSetOther(v, p, ApplyTo(sm, op, Get(v, p)), q, ApplyTo(sm, op', Get(v, q)));
  }

  lemma RewriteTwice(sm: SecretManager, op: Op, op': Op, v: Value, p: Path)
    requires p != [] && ApplyTo(sm, op', ApplyTo(sm, op, Get(v, p))) == Get(v, p)
    ensures Rewrite(sm, op', Rewrite(sm, op, v, p), p) == v
  {
    if Get(v, p).Str? {
      var x := ApplyTo(sm, op, Get(v, p));
      GetSetSame(v, p, x);
      SetSetSame(v, p, x, Get(v, p));
      SetGet(v, p);
    }
  }

  /** Values clear of the listed paths are untouched; a listed one has its operation applied once the run has passed
      it. */
  lemma {:induction false} RunReads(sm: SecretManager, base: Option<nat>, v: Value, paths: seq<Path>, n: nat, q: Path)
    requires PathsOk(paths) && n <= |paths|
    requires forall k :: 0 <= k < |paths| ==> paths[k] == q || !Comparable(paths[k], q)
    ensures (forall k :: 0 <= k < n ==> paths[k] != q) ==> Get(Run(sm, base, v, paths, n), q) == Get(v, q)
    ensures forall k :: 0 <= k < n && paths[k] == q ==>
              Get(Run(sm, base, v, paths, n), q) == ApplyTo(sm, OpAt(base, k), Get(v, q))
    decreases n
  {
    if n > 0 {
      RunReads(sm, base, v, paths, n - 1, q);
      RewriteReads(sm, OpAt(base, n - 1), Run(sm, base, v, paths, n - 1), paths[n - 1], q);
      assert forall k :: 0 <= k < n - 1 ==> !Comparable(paths[k], paths[n - 1]);
    }
  }

  lemma ListedClear(paths: seq<Path>, i: nat)
    requires PathsOk(paths) && i < |paths|
    ensures forall k :: 0 <= k < |paths| ==> paths[k] == paths[i] || !Comparable(paths[k], paths[i])
    ensures forall k :: 0 <= k < |paths| && paths[k] == paths[i] ==> k == i
  {
    forall k | 0 <= k < |paths| && k != i
      ensures !Comparable(paths[k], paths[i])
    {
      assert if k < i then !Comparable(paths[k], paths[i]) else !Comparable(paths[i], paths[k]);
    }
  }

  /** What a run leaves at the `i`-th path. */
  lemma RunReadsListed(sm: SecretManager, base: Option<nat>, v: Value, paths: seq<Path>, n: nat, i: nat)
    requires PathsOk(paths) && i < |paths| && n <= |paths|
    ensures Get(Run(sm, base, v, paths, n), paths[i])
         == if i < n then ApplyTo(sm, OpAt(base, i), Get(v, paths[i])) else Get(v, paths[i])
  {
    ListedClear(paths, i);
    RunReads(sm, base, v, paths, n, paths[i]);
  }

  /** A run changes nothing exactly when no operation changes its text. */
  lemma RunFixedIff(sm: SecretManager, base: Option<nat>, v: Value, paths: seq<Path>)
    requires PathsOk(paths)
    ensures Run(sm, base, v, paths, |paths|) == v
       <==> forall k :: 0 <= k < |paths| ==> ApplyTo(sm, OpAt(base, k), Get(v, paths[k])) == Get(v, paths[k])
  {
    if Run(sm, base, v, paths, |paths|) == v {
      forall k | 0 <= k < |paths|
        ensures ApplyTo(sm, OpAt(base, k), Get(v, paths[k])) == Get(v, paths[k])
      {
        RunReadsListed(sm, base, v, paths, |paths|, k);
      }
    }
    if forall k :: 0 <= k < |paths| ==> ApplyTo(sm, OpAt(base, k), Get(v, paths[k])) == Get(v, paths[k]) {
      RunFixed(sm, base, v, paths, |paths|);
    }
  }

  lemma {:induction false} RunFixed(sm: SecretManager, base: Option<nat>, v: Value, paths: seq<Path>, n: nat)
    requires PathsOk(paths) && n <= |paths|
    requires forall k :: 0 <= k < n ==> ApplyTo(sm, OpAt(base, k), Get(v, paths[k])) == Get(v, paths[k])
    ensures Run(sm, base, v, paths, n) == v
    decreases n
  {
    if n > 0 {
      RunFixed(sm, base, v, paths, n - 1);
      Unchanged(sm, OpAt(base, n - 1), v, paths[n - 1]);
    }
  }

  /** A rewriting of a later path can be moved in front of a run over the earlier ones. */
  lemma {:induction false} RunCommutes(sm: SecretManager, base: Option<nat>, v: Value, paths: seq<Path>, n: nat,
                                       op: Op, i: nat)
    requires PathsOk(paths) && n <= i < |paths|
    ensures Run(sm, base, Rewrite(sm, op, v, paths[i]), paths, n)
         == Rewrite(sm, op, Run(sm, base, v, paths, n), paths[i])
    decreases n
  {
    if n > 0 {
      RunCommutes(sm, base, v, paths, n - 1, op, i);
      assert !Comparable(paths[n - 1], paths[i]);
      RewritesCommute(sm, op, Run(sm, base, v, paths, n - 1), paths[i], OpAt(base, n - 1), paths[n - 1]);
    }
  }

  // ---- Round trip and idempotence ----

  /** Text that looks encrypted without having been encrypted here survives decryption. */
  predicate Survives(sm: SecretManager, v: Value) {
    v.Str? && IsCipher(v.s) ==> Apply(sm, Decrypt, v.s) == v.s
  }

  lemma PointRoundTrip(sm: SecretManager, n: nat, v: Value)
    requires Lawful(sm)
    ensures ApplyTo(sm, Decrypt, ApplyTo(sm, Encrypt(n), v)) == v <==> Survives(sm, v)
  {
  }

  lemma {:induction false} RunRestores(sm: SecretManager, base: nat, v: Value, paths: seq<Path>, n: nat)
    requires Lawful(sm) && PathsOk(paths) && n <= |paths|
    requires forall k :: 0 <= k < n ==> Survives(sm, Get(v, paths[k]))
    ensures Run(sm, None, Run(sm, Some(base), v, paths, n), paths, n) == v
    decreases n
  {
    hide Lawful, Rewrite, Survives;
    if n > 0 {
      var i: nat := n - 1;
      var w := Run(sm, Some(base), v, paths, i);
      RunRestores(sm, base, v, paths, i);
      RunCommutes(sm, None, w, paths, i, Encrypt(base + i), i);
      PointRoundTrip(sm, base + i, Get(v, paths[i]));
      RewriteTwice(sm, Encrypt(base + i), Decrypt, v, paths[i]);
    }
  }

  /** Whatever encryptions fail, decryption restores the tree exactly when all that looked encrypted survives it. */
  lemma RoundTripIff(sm: SecretManager, base: nat, v: Value, paths: seq<Path>)
    requires Lawful(sm) && PathsOk(paths)
    ensures DecryptAll(sm, EncryptAll(sm, base, v, paths), paths) == v
       <==> !sm.initialized || forall k :: 0 <= k < |paths| ==> Survives(sm, Get(v, paths[k]))
  {
    var n := |paths|;
    var w := Run(sm, Some(base), v, paths, n);
    if sm.initialized && Run(sm, None, w, paths, n) == v {
      forall k | 0 <= k < n
        ensures Survives(sm, Get(v, paths[k]))
      {
        RunReadsListed(sm, Some(base), v, paths, n, k);
        RunReadsListed(sm, None, w, paths, n, k);
        PointRoundTrip(sm, base + k, Get(v, paths[k]));
      }
    }
    if forall k :: 0 <= k < n ==> Survives(sm, Get(v, paths[k])) {
      RunRestores(sm, base, v, paths, n);
    }
  }

  /** A second attempt is made on text that the first one failed on. */
  predicate Settled(sm: SecretManager, n: nat, n': nat, v: Value) {
    v.Str? && v.s != "" && !IsCipher(v.s) && sm.encrypt(n, v.s).None? ==> sm.encrypt(n', v.s).None?
  }

  lemma PointIdempotent(sm: SecretManager, n: nat, n': nat, v: Value)
    requires Lawful(sm)
    ensures ApplyTo(sm, Encrypt(n'), ApplyTo(sm, Encrypt(n), v)) == ApplyTo(sm, Encrypt(n), v)
       <==> Settled(sm, n, n', v)
  {
  }

  lemma IdempotentAt(sm: SecretManager, base: nat, base': nat, v: Value, paths: seq<Path>, k: nat)
    requires Lawful(sm) && PathsOk(paths) && k < |paths|
    ensures var w := Run(sm, Some(base), v, paths, |paths|);
            ApplyTo(sm, OpAt(Some(base'), k), Get(w, paths[k])) == Get(w, paths[k])
            <==> Settled(sm, base + k, base' + k, Get(v, paths[k]))
  {
    hide Lawful, Run, ApplyTo, Settled;
    RunReadsListed(sm, Some(base), v, paths, |paths|, k);
    PointIdempotent(sm, base + k, base' + k, Get(v, paths[k]));
  }

  /** Encrypting a second time changes nothing exactly when it succeeds nowhere that the first time failed. */
  lemma EncryptIdempotentIff(sm: SecretManager, base: nat, base': nat, v: Value, paths: seq<Path>)
    requires Lawful(sm) && PathsOk(paths)
    ensures EncryptAll(sm, base', EncryptAll(sm, base, v, paths), paths) == EncryptAll(sm, base, v, paths)
       <==> !sm.initialized || forall k :: 0 <= k < |paths| ==> Settled(sm, base + k, base' + k, Get(v, paths[k]))
  {
    hide Lawful, Run, ApplyTo, Settled, PathsOk, OpAt, Get;
    var w := Run(sm, Some(base), v, paths, |paths|);
    RunFixedIff(sm, Some(base'), w, paths);
    forall k | 0 <= k < |paths|
      ensures ApplyTo(sm, OpAt(Some(base'), k), Get(w, paths[k])) == Get(w, paths[k])
         <==> Settled(sm, base + k, base' + k, Get(v, paths[k]))
    {
      IdempotentAt(sm, base, base', v, paths, k);
    }
  }

  /** Both directions leave every value that is clear of the listed paths as it was. */
  lemma OffPathUntouched(sm: SecretManager, base: nat, v: Value, paths: seq<Path>, q: Path)
    requires PathsOk(paths) && forall k :: 0 <= k < |paths| ==> !Comparable(paths[k], q)
    ensures Get(EncryptAll(sm, base, v, paths), q) == Get(v, q)
    ensures Get(DecryptAll(sm, v, paths), q) == Get(v, q)
  {
    RunReads(sm, Some(base), v, paths, |paths|, q);
    RunReads(sm, None, v, paths, |paths|, q);
  }

  /** A listed text is saved encrypted, unless it is empty, marked as encrypted already, or its encryption raises. */
  lemma SecretSaved(sm: SecretManager, base: nat, v: Value, paths: seq<Path>, k: nat, s: string)
    requires PathsOk(paths) && k < |paths| && sm.initialized && Get(v, paths[k]) == Str(s)
    ensures Get(EncryptAll(sm, base, v, paths), paths[k])
         == if s != "" && !("{\"algorithm\":" <= s) && sm.encrypt(base + k, s).Some?
            then Str(sm.encrypt(base + k, s).value) else Str(s)
  {
    hide Run, Get;
    RunReadsListed(sm, Some(base), v, paths, |paths|, k);
  }

  /** A listed text is loaded decrypted when it is marked as encrypted and decryption does not raise. */
  lemma SecretLoaded(sm: SecretManager, v: Value, paths: seq<Path>, k: nat, s: string)
    requires PathsOk(paths) && k < |paths| && sm.initialized && Get(v, paths[k]) == Str(s)
    ensures Get(DecryptAll(sm, v, paths), paths[k])
         == if "{\"algorithm\":" <= s && sm.decrypt(s).Some? then Str(sm.decrypt(s).value) else Str(s)
  {
    hide Run, Get;
    RunReadsListed(sm, None, v, paths, |paths|, k);
  }

  // ---- The list that is used ----

  const ENCRYPTED_SECRET_PATHS: seq<Path> := [
    ["mqtt", "password"],
    ["influxdb", "token"],
    ["security", "secret_key"],
    ["database", "password"],
    ["notify", "dingtalk", "secret"],
    ["notify", "email", "smtp_password"],
    ["server", "webhook_api_key"],
    ["video", "pygbsentry", "api_key"],
    ["mqtt_server", "password"],
    ["webhook_auth", "token"],
    ["webhook_auth", "password"],
    ["grafana", "api_key"]
  ]

  /** Separates paths by the shape of their first two keys. */
  function Shape(p: Path): (int, char, int)
    requires |p| >= 2 && p[0] != ""
  {
    (|p[0]|, p[0][0], |p[1]|)
  }

  lemma ShapesDiffer(p: Path, q: Path)
    requires |p| >= 2 && |q| >= 2 && p[0] != "" && q[0] != "" && Shape(p) != Shape(q)
    ensures !Comparable(p, q)
  {
  }

  /** No listed path runs through another, so the theorems above apply to the list in use. */
  lemma ListedPathsOk()
    ensures PathsOk(ENCRYPTED_SECRET_PATHS)
  {
    var ps := ENCRYPTED_SECRET_PATHS;
    var shapes := [(4, 'm', 8), (8, 'i', 5), (8, 's', 10), (8, 'd', 8), (6, 'n', 8), (6, 'n', 5),
                   (6, 's', 15), (5, 'v', 10), (11, 'm', 8), (12, 'w', 5), (12, 'w', 8), (7, 'g', 7)];
    assert forall k :: 0 <= k < 12 ==> |ps[k]| >= 2 && ps[k][0] != "" && Shape(ps[k]) == shapes[k];
    forall i, j | 0 <= i < j < |ps|
      ensures !Comparable(ps[i], ps[j])
    {
      assert shapes[i] != shapes[j];
      ShapesDiffer(ps[i], ps[j]);
    }
  }
}
