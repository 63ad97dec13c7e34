/**
 * The registry manager: the only component that touches the registry. It
 * maps each scope to a root under HKEY_CLASSES_ROOT, fans an entry out over
 * its scopes and extensions, writes or deletes `root\key` and
 * `root\key\command`, honours dry-run mode, and sets, clears and probes the
 * Windows 11 classic-menu marker under HKEY_CURRENT_USER.
 */
module RegistryManager {
  import opened Results
  import opened Config
  import opened WinReg
  import opened Seqs

  // ---------------------------------------------------------------------------
  // Scope mapping
  // ---------------------------------------------------------------------------

  /** `_SCOPE_ROOTS`; EXTENSION has no static root. */
  function StaticRoot(scope: TargetScope): Option<Path> {
    match scope
    case AllFiles => Some([ClassesRoot, "*", "shell"])
    case Directory => Some([ClassesRoot, "Directory", "shell"])
    case DirBackground => Some([ClassesRoot, "Directory", "Background", "shell"])
    case Extension => None
  }

  /** `_SCOPE_PLACEHOLDER`: `%1` is the selected file, `%V` the directory. */
  function Placeholder(scope: TargetScope): string {
    match scope
    case AllFiles => "%1"
    case Directory => "%V"
    case DirBackground => "%V"
    case Extension => "%1"
  }

  /** The root `<ext>\shell` used for one extension. */
  function ExtensionRoot(ext: string): Path {
    [ClassesRoot, ext, "shell"]
  }

  /** `a` is `b` plus one more segment. */
  predicate IsChildPath(a: Path, b: Path) {
    |a| == |b| + 1 && a[..|b|] == b
  }

  /**
   * Different scopes have different roots; a dotted extension's root is none
   * of them; no root lies directly under another.
   */
  lemma RootsDistinct(s1: TargetScope, s2: TargetScope, ext: string)
    requires s1 != Extension && s2 != Extension && StartsWithDot(ext)
    ensures s1 != s2 ==> StaticRoot(s1) != StaticRoot(s2)
    ensures StaticRoot(s1).value != ExtensionRoot(ext)
    ensures !IsChildPath(StaticRoot(s1).value, StaticRoot(s2).value)
    ensures !IsChildPath(StaticRoot(s1).value, ExtensionRoot(ext))
    ensures !IsChildPath(ExtensionRoot(ext), StaticRoot(s1).value)
  {
    var r1, r2, x := StaticRoot(s1).value, StaticRoot(s2).value, ExtensionRoot(ext);
    assert r1[1] == "*" || r1[1] == "Directory";
    assert r1[1][0] != '.';
    assert x[1] == ext;
    if |r1| == 4 {
      assert r1[..3][2] == "Background";
      assert |r2| == 3 ==> r2[2] == "shell";
    }
  }

  // ---------------------------------------------------------------------------
  // Fan-out
  // ---------------------------------------------------------------------------

  /** One registry location an entry is written to, with its placeholder. */
  datatype Target = Target(root: Path, placeholder: string)

  function ExtensionTargets(exts: seq<string>): seq<Target> {
    seq(|exts|, i requires 0 <= i < |exts| => Target(ExtensionRoot(exts[i]), Placeholder(Extension)))
  }

  lemma ExtensionTargetsSnoc(exts: seq<string>, j: nat)
    requires j < |exts|
    ensures ExtensionTargets(exts[..j + 1]) == ExtensionTargets(exts[..j]) + [Target(ExtensionRoot(exts[j]), Placeholder(Extension))]
    ensures ExtensionTargets(exts[..j + 1]) <= ExtensionTargets(exts)
  {
    var l, r := ExtensionTargets(exts[..j + 1]), ExtensionTargets(exts[..j]) + [Target(ExtensionRoot(exts[j]), Placeholder(Extension))];
    assert |l| == |r|;
    forall k | 0 <= k < |l|
      ensures l[k] == r[k] && l[k] == ExtensionTargets(exts)[k]
    {
    }
  }

  function ScopeTargets(scope: TargetScope, exts: seq<string>): seq<Target> {
    if scope == Extension then ExtensionTargets(exts)
    else [Target(StaticRoot(scope).value, Placeholder(scope))]
  }

  /** The locations `add_entry`/`remove_entry` visit, in their loop order. */
  function Targets(scopes: seq<TargetScope>, exts: seq<string>): seq<Target>
    decreases |scopes|
  {
    if scopes == [] then []
    else Targets(scopes[..|scopes| - 1], exts) + ScopeTargets(scopes[|scopes| - 1], exts)
  }

  /** A location belongs to the fan-out exactly when one of the scopes (or extensions) names it. */
  lemma {:induction false} TargetsMembers(scopes: seq<TargetScope>, exts: seq<string>, t: Target)
    ensures t in Targets(scopes, exts) <==>
      || (exists s :: s in scopes && s != Extension && t == Target(StaticRoot(s).value, Placeholder(s)))
      || (Extension in scopes && exists x :: x in exts && t == Target(ExtensionRoot(x), "%1"))
    decreases |scopes|
  {
    if scopes != [] {
      var init, last := scopes[..|scopes| - 1], scopes[|scopes| - 1];
      TargetsMembers(init, exts, t);
      assert scopes == init + [last];
      assert forall s :: s in scopes <==> s in init || s == last;
      if last == Extension {
        if x :| x in exts && t == Target(ExtensionRoot(x), "%1") {
          var i :| 0 <= i < |exts| && exts[i] == x;
          assert ExtensionTargets(exts)[i] == t;
        }
      }
    }
  }

  /** The fan-out of the first `k` scopes is a prefix of the whole fan-out. */
  lemma {:induction false} TargetsPrefix(scopes: seq<TargetScope>, exts: seq<string>, k: nat)
    requires k <= |scopes|
    ensures Targets(scopes[..k], exts) <= Targets(scopes, exts)
    decreases |scopes|
  {
    if k < |scopes| {
      var init := scopes[..|scopes| - 1];
      assert init[..k] == scopes[..k];
      TargetsPrefix(init, exts, k);
    } else {
      assert scopes[..k] == scopes;
    }
  }

  /** The fan-out of one more scope adds that scope's locations at the end. */
  lemma TargetsSnoc(scopes: seq<TargetScope>, exts: seq<string>, i: nat)
    requires i < |scopes|
    ensures Targets(scopes[..i + 1], exts) == Targets(scopes[..i], exts) + ScopeTargets(scopes[i], exts)
    ensures Targets(scopes[..i + 1], exts) <= Targets(scopes, exts)
  {
    assert scopes[..i + 1][..i] == scopes[..i];
    TargetsPrefix(scopes, exts, i + 1);
  }

  /** A scope with locations makes the whole fan-out non-empty. */
  lemma TargetsOfScope(scopes: seq<TargetScope>, exts: seq<string>, i: nat)
    requires i < |scopes| && ScopeTargets(scopes[i], exts) != []
    ensures Targets(scopes, exts) != []
  {
    TargetsSnoc(scopes, exts, i);
    assert Targets(scopes[..i + 1], exts) != [];
  }

  /** Locations sharing a root share a placeholder, and no root lies directly under another. */
  predicate Coherent(ts: seq<Target>) {
    forall i, j :: 0 <= i < |ts| && 0 <= j < |ts| ==>
      && (ts[i].root == ts[j].root ==> ts[i].placeholder == ts[j].placeholder)
      && !IsChildPath(ts[i].root, ts[j].root)
  }

  lemma TargetForm(scopes: seq<TargetScope>, exts: seq<string>, t: Target)
    requires t in Targets(scopes, exts)
    requires forall x :: x in exts ==> StartsWithDot(x)
    ensures || (exists s :: s != Extension && t == Target(StaticRoot(s).value, Placeholder(s)))
            || (exists x :: StartsWithDot(x) && t == Target(ExtensionRoot(x), "%1"))
  {
    TargetsMembers(scopes, exts, t);
  }

  /** The fan-out of a constructed entry is coherent: every extension has its leading dot. */
  lemma TargetsCoherent(scopes: seq<TargetScope>, exts: seq<string>)
    requires forall x :: x in exts ==> StartsWithDot(x)
    ensures Coherent(Targets(scopes, exts))
  {
    var ts := Targets(scopes, exts);
    forall i, j | 0 <= i < |ts| && 0 <= j < |ts|
      ensures ts[i].root == ts[j].root ==> ts[i].placeholder == ts[j].placeholder
      ensures !IsChildPath(ts[i].root, ts[j].root)
    {
      TargetForm(scopes, exts, ts[i]);
      TargetForm(scopes, exts, ts[j]);
      if s1 :| s1 != Extension && ts[i] == Target(StaticRoot(s1).value, Placeholder(s1)) {
        if s2 :| s2 != Extension && ts[j] == Target(StaticRoot(s2).value, Placeholder(s2)) {
          RootsDistinct(s1, s2, ".");
        } else {
          var x2 :| StartsWithDot(x2) && ts[j] == Target(ExtensionRoot(x2), "%1");
          RootsDistinct(s1, s1, x2);
        }
      } else {
        var x1 :| StartsWithDot(x1) && ts[i] == Target(ExtensionRoot(x1), "%1");
        if s2 :| s2 != Extension && ts[j] == Target(StaticRoot(s2).value, Placeholder(s2)) {
          RootsDistinct(s2, s2, x1);
        }
      }
    }
  }

  // ---------------------------------------------------------------------------
  // What a write does (`_write_entry`) and what the fan-out of writes does
  // ---------------------------------------------------------------------------

  function KeyPath(root: Path, key: string): Path {
    root + [key]
  }

  function CommandPath(root: Path, key: string): Path {
    root + [key, "command"]
  }

  /** The rendered command, or "" when the template does not render (never used then). */
  function CommandFor(e: MenuEntry, placeholder: string): string {
    match BuildCommand(e, placeholder)
    case Success(c) => c
    case Failure(_) => ""
  }

  /** `root\key` with its default value and optional Icon, then `root\key\command` with the command. */
  function WriteOne(st: Store, t: Target, e: MenuEntry, icon: Option<string>): Store {
    var kp := KeyPath(t.root, e.keyName);
    var cp := CommandPath(t.root, e.keyName);
    var s1 := WithValue(WithKey(st, kp), kp, "", e.displayName);
    var s2 := if Truthy(icon) then WithValue(s1, kp, "Icon", icon.value) else s1;
    WithValue(WithKey(s2, cp), cp, "", CommandFor(e, t.placeholder))
  }

  /** The store after writing every location of `ts`, in order. */
  function Written(st: Store, ts: seq<Target>, e: MenuEntry, icon: Option<string>): Store
    decreases |ts|
  {
    if ts == [] then st
    else WriteOne(Written(st, ts[..|ts| - 1], e, icon), ts[|ts| - 1], e, icon)
  }

  /** The keys a fan-out of writes creates (with their ancestors). */
  function AddedKeys(ts: seq<Target>, key: string): set<Path>
    decreases |ts|
  {
    if ts == [] then {}
    else AddedKeys(ts[..|ts| - 1], key) + Prefixes(KeyPath(ts[|ts| - 1].root, key)) + Prefixes(CommandPath(ts[|ts| - 1].root, key))
  }

  /** The (key, value name) pairs a fan-out of writes sets. */
  function WrittenSlots(ts: seq<Target>, key: string, icon: Option<string>): set<(Path, string)>
    decreases |ts|
  {
    if ts == [] then {}
    else
      var t := ts[|ts| - 1];
      WrittenSlots(ts[..|ts| - 1], key, icon)
        + {(KeyPath(t.root, key), ""), (CommandPath(t.root, key), "")}
        + (if Truthy(icon) then {(KeyPath(t.root, key), "Icon")} else {})
  }

  lemma WrittenSnoc(st: Store, ts: seq<Target>, t: Target, e: MenuEntry, icon: Option<string>)
    ensures Written(st, ts + [t], e, icon) == WriteOne(Written(st, ts, e, icon), t, e, icon)
  {
    assert (ts + [t])[..|ts|] == ts;
  }

  /** Writing adds exactly the targeted keys and their ancestors. */
  lemma {:induction false} WrittenKeys(st: Store, ts: seq<Target>, e: MenuEntry, icon: Option<string>)
    ensures Written(st, ts, e, icon).keys == st.keys + AddedKeys(ts, e.keyName)
    decreases |ts|
  {
    if ts != [] {
      WrittenKeys(st, ts[..|ts| - 1], e, icon);
    }
  }

  /** Values outside the written slots keep their presence and content. */
  lemma {:induction false} WrittenUntouched(st: Store, ts: seq<Target>, e: MenuEntry, icon: Option<string>, v: (Path, string))
    requires v !in WrittenSlots(ts, e.keyName, icon)
    ensures v in Written(st, ts, e, icon).values <==> v in st.values
    ensures v in st.values ==> Written(st, ts, e, icon).values[v] == st.values[v]
    decreases |ts|
  {
    if ts != [] {
      WrittenUntouched(st, ts[..|ts| - 1], e, icon, v);
    }
  }

  lemma CoherentPrefix(ts: seq<Target>, n: nat)
    requires Coherent(ts) && n <= |ts|
    ensures Coherent(ts[..n])
  {
    forall i, j | 0 <= i < n && 0 <= j < n
      ensures ts[..n][i] == ts[i] && ts[..n][j] == ts[j]
    {
    }
  }

  lemma KeyPathsApart(a: Path, b: Path, key: string)
    requires a != b && !IsChildPath(a, b) && !IsChildPath(b, a)
    ensures KeyPath(a, key) != KeyPath(b, key)
    ensures KeyPath(a, key) != CommandPath(b, key)
    ensures CommandPath(a, key) != KeyPath(b, key)
    ensures CommandPath(a, key) != CommandPath(b, key)
  {
    assert KeyPath(a, key)[..|a|] == a && KeyPath(b, key)[..|b|] == b;
    assert CommandPath(a, key)[..|a|] == a && CommandPath(b, key)[..|b|] == b;
    assert CommandPath(a, key)[..|a| + 1] == KeyPath(a, key);
    assert CommandPath(b, key)[..|b| + 1] == KeyPath(b, key);
  }

  /** One write sets the three slots of its location. */
  lemma WriteOneHits(st: Store, t: Target, e: MenuEntry, icon: Option<string>)
    ensures var w := WriteOne(st, t, e, icon);
      && QueryValue(w, KeyPath(t.root, e.keyName), "") == Some(e.displayName)
      && (Truthy(icon) ==> QueryValue(w, KeyPath(t.root, e.keyName), "Icon") == Some(icon.value))
      && QueryValue(w, CommandPath(t.root, e.keyName), "") == Some(CommandFor(e, t.placeholder))
  {
    var kp, cp := KeyPath(t.root, e.keyName), CommandPath(t.root, e.keyName);
    assert kp[..|kp|] == kp && cp[..|kp|] == kp && kp != cp;
  }

  /** One write leaves every value that is not one of its slots as it was. */
  lemma WriteOneFrame(st: Store, t: Target, e: MenuEntry, icon: Option<string>, p: Path, name: string)
    requires (p, name) != (KeyPath(t.root, e.keyName), "") && (p, name) != (CommandPath(t.root, e.keyName), "")
    requires (p, name) != (KeyPath(t.root, e.keyName), "Icon")
    requires QueryValue(st, p, name).Some?
    ensures QueryValue(WriteOne(st, t, e, icon), p, name) == QueryValue(st, p, name)
  {
  }

  /**
   * After a coherent fan-out of writes, every targeted location holds the
   * entry: the key with its display name, the icon when it is truthy, and the
   * command subkey with the command for that location's placeholder.
   */
  lemma {:induction false} WrittenAt(st: Store, ts: seq<Target>, e: MenuEntry, icon: Option<string>, t: Target)
    requires Coherent(ts) && t in ts
    ensures var w := Written(st, ts, e, icon);
      && QueryValue(w, KeyPath(t.root, e.keyName), "") == Some(e.displayName)
      && (Truthy(icon) ==> QueryValue(w, KeyPath(t.root, e.keyName), "Icon") == Some(icon.value))
      && QueryValue(w, CommandPath(t.root, e.keyName), "") == Some(CommandFor(e, t.placeholder))
    decreases |ts|
  {
    var last := ts[|ts| - 1];
    var init := ts[..|ts| - 1];
    var prev := Written(st, init, e, icon);
    assert Written(st, ts, e, icon) == WriteOne(prev, last, e, icon);
    var i :| 0 <= i < |ts| && ts[i] == t;
    assert Coherent(ts);
    assert t.root == last.root ==> t.placeholder == last.placeholder by {
      assert ts[i] == t && ts[|ts| - 1] == last;
    }
    assert !IsChildPath(t.root, last.root) && !IsChildPath(last.root, t.root) by {
      assert ts[i] == t && ts[|ts| - 1] == last;
    }
    if t.root == last.root {
      WriteOneHits(prev, last, e, icon);
    } else {
      assert i < |ts| - 1 && init[i] == t;
      CoherentPrefix(ts, |ts| - 1);
      WrittenAt(st, init, e, icon, t);
      KeyPathsApart(t.root, last.root, e.keyName);
      var kp, cp := KeyPath(t.root, e.keyName), CommandPath(t.root, e.keyName);
      WriteOneFrame(prev, last, e, icon, kp, "");
      WriteOneFrame(prev, last, e, icon, cp, "");
      if Truthy(icon) {
        WriteOneFrame(prev, last, e, icon, kp, "Icon");
      }
    }
  }

  lemma {:induction false} AddedKeysHas(ts: seq<Target>, key: string, p: Path)
    ensures p in AddedKeys(ts, key) <==>
      exists t :: t in ts && p in Prefixes(KeyPath(t.root, key)) + Prefixes(CommandPath(t.root, key))
    decreases |ts|
  {
    if ts != [] {
      var init, last := ts[..|ts| - 1], ts[|ts| - 1];
      AddedKeysHas(init, key, p);
      assert ts == init + [last];
      assert forall t :: t in ts <==> t in init || t == last;
    }
  }

  /**
   * For roots three or four segments long, neither directly under the
   * other, `rs\key` is created by a write at `r` exactly when `r` is `rs`.
   */
  lemma RootChildCreated(rs: Path, r: Path, key: string)
    requires 3 <= |rs| <= 4 && 3 <= |r| <= 4
    requires !IsChildPath(r, rs) && !IsChildPath(rs, r)
    ensures rs + [key] in Prefixes(KeyPath(r, key)) + Prefixes(CommandPath(r, key)) <==> r == rs
  {
    var kp, cp, q := KeyPath(r, key), CommandPath(r, key), rs + [key];
    assert kp[..|r| + 1] == kp && cp[..|r| + 1] == kp && kp[..|r|] == r && cp[..|r| + 2] == cp;
    assert q[..|rs|] == rs && q[|rs|] == key;
    if q in Prefixes(kp) + Prefixes(cp) {
      var i :| 1 <= i <= |cp| && q == cp[..i];
      assert i == |rs| + 1;
      assert cp[..i][..|rs|] == cp[..|rs|];
    }
  }

  /**
   * After writing an entry's fan-out, its key sits under a static scope's
   * root exactly when it did before or the scope is one of the entry's.
   */
  lemma WrittenListed(st: Store, e: MenuEntry, icon: Option<string>, s: TargetScope)
    requires s != Extension && forall x :: x in e.extensions ==> StartsWithDot(x)
    ensures StaticRoot(s).value + [e.keyName] in Written(st, Targets(e.scopes, e.extensions), e, icon).keys
        <==> StaticRoot(s).value + [e.keyName] in st.keys || s in e.scopes
  {
    var ts := Targets(e.scopes, e.extensions);
    var rs := StaticRoot(s).value;
    var q := rs + [e.keyName];
    WrittenKeys(st, ts, e, icon);
    AddedKeysHas(ts, e.keyName, q);
    forall x | StartsWithDot(x)
      ensures rs != ExtensionRoot(x) && !IsChildPath(rs, ExtensionRoot(x)) && !IsChildPath(ExtensionRoot(x), rs)
    {
      RootsDistinct(s, s, x);
    }
    forall s2 | s2 != Extension
      ensures (rs == StaticRoot(s2).value ==> s2 == s)
      ensures !IsChildPath(rs, StaticRoot(s2).value) && !IsChildPath(StaticRoot(s2).value, rs)
    {
      RootsDistinct(s, s2, ".");
      RootsDistinct(s2, s, ".");
    }
    forall t | t in ts && q in Prefixes(KeyPath(t.root, e.keyName)) + Prefixes(CommandPath(t.root, e.keyName))
      ensures s in e.scopes
    {
      TargetForm(e.scopes, e.extensions, t);
      RootChildCreated(rs, t.root, e.keyName);
      TargetsMembers(e.scopes, e.extensions, t);
    }
    if s in e.scopes {
      var t := Target(rs, Placeholder(s));
      TargetsMembers(e.scopes, e.extensions, t);
      RootChildCreated(rs, rs, e.keyName);
    }
  }

  /** Writing keeps the registry a tree. */
  lemma {:induction false} WrittenValid(st: Store, ts: seq<Target>, e: MenuEntry, icon: Option<string>)
    requires Valid(st)
    ensures Valid(Written(st, ts, e, icon))
    decreases |ts|
  {
    if ts != [] {
      WrittenValid(st, ts[..|ts| - 1], e, icon);
      var s0 := Written(st, ts[..|ts| - 1], e, icon);
      var t := ts[|ts| - 1];
      var kp, cp := KeyPath(t.root, e.keyName), CommandPath(t.root, e.keyName);
      WithKeyValid(s0, kp);
      var s1 := WithValue(WithKey(s0, kp), kp, "", e.displayName);
      var s2 := if Truthy(icon) then WithValue(s1, kp, "Icon", icon.value) else s1;
      assert Valid(s2);
      WithKeyValid(s2, cp);
    }
  }

  // ---------------------------------------------------------------------------
  // What a delete does (`_delete_entry`) and what the fan-out of deletes does
  // ---------------------------------------------------------------------------

  datatype Error =
    | PermissionDenied            // require_admin: not elevated
    | ExeNotFound(path: string)   // validate_exe_path
    | IconNotFound(path: string)  // validate_icon_path
    | BadTemplate(reason: FormatError)
    | DeleteRefused(key: Path)    // DeleteKey on a key that still has subkeys
    | ExtensionRequired           // list_entries(EXTENSION) without an extension

  datatype Status = Done | Failed(error: Error)

  /** The status of a (partial) fan-out together with the store it left. */
  datatype Step = Step(status: Status, store: Store)

  /** Delete `root\key\command`, then `root\key`; a missing key is skipped, one with subkeys raises. */
  function EraseOne(st: Store, root: Path, key: string): Step {
    var kp, cp := KeyPath(root, key), CommandPath(root, key);
    if DeleteOutcomeOf(st, cp) == HasSubkeys then Step(Failed(DeleteRefused(cp)), st)
    else
      var st1 := AfterDelete(st, cp);
      if DeleteOutcomeOf(st1, kp) == HasSubkeys then Step(Failed(DeleteRefused(kp)), st1)
      else Step(Done, AfterDelete(st1, kp))
  }

  /** The fan-out of deletes, stopping at the first exception. */
  function EraseAll(st: Store, ts: seq<Target>, key: string): Step
    decreases |ts|
  {
    if ts == [] then Step(Done, st)
    else
      var prev := EraseAll(st, ts[..|ts| - 1], key);
      if prev.status.Failed? then prev else EraseOne(prev.store, ts[|ts| - 1].root, key)
  }

  /** The key paths a fan-out of deletes aims at. */
  function ErasedPaths(ts: seq<Target>, key: string): set<Path>
    decreases |ts|
  {
    if ts == [] then {}
    else ErasedPaths(ts[..|ts| - 1], key) + {KeyPath(ts[|ts| - 1].root, key), CommandPath(ts[|ts| - 1].root, key)}
  }

  lemma EraseAllSnoc(st: Store, ts: seq<Target>, t: Target, key: string)
    ensures EraseAll(st, ts + [t], key) ==
      var prev := EraseAll(st, ts, key);
      if prev.status.Failed? then prev else EraseOne(prev.store, t.root, key)
  {
    assert (ts + [t])[..|ts|] == ts;
  }

  /** A failure ends the fan-out: later locations are not visited. */
  lemma {:induction false} EraseAllStops(st: Store, pre: seq<Target>, ts: seq<Target>, key: string)
    requires pre <= ts && EraseAll(st, pre, key).status.Failed?
    ensures EraseAll(st, ts, key) == EraseAll(st, pre, key)
    decreases |ts|
  {
    if ts != pre {
      assert pre <= ts[..|ts| - 1];
      EraseAllStops(st, pre, ts[..|ts| - 1], key);
    }
  }

  /**
   * Deleting removes only targeted keys (and their values), and when it
   * succeeds it removes every one of them.
   */
  lemma {:induction false} EraseAllFrame(st: Store, ts: seq<Target>, key: string)
    ensures var r := EraseAll(st, ts, key);
      && st.keys - ErasedPaths(ts, key) <= r.store.keys <= st.keys
      && (r.status == Done ==> r.store.keys == st.keys - ErasedPaths(ts, key))
      && (forall v: (Path, string) :: v.0 in r.store.keys ==> (v in r.store.values <==> v in st.values))
      && (forall v: (Path, string) :: v in r.store.values ==> v in st.values && r.store.values[v] == st.values[v])
    decreases |ts|
  {
    if ts != [] {
      var init, t := ts[..|ts| - 1], ts[|ts| - 1];
      EraseAllFrame(st, init, key);
    }
  }

  /** After a successful delete nothing aimed at is left, so a second delete finds nothing. */
  lemma {:induction false} EraseAllAbsent(st: Store, ts: seq<Target>, key: string)
    requires forall p :: p in ErasedPaths(ts, key) ==> p !in st.keys
    ensures EraseAll(st, ts, key) == Step(Done, st)
    decreases |ts|
  {
    if ts != [] {
      EraseAllAbsent(st, ts[..|ts| - 1], key);
    }
  }

  /** `remove_entry` is idempotent: once it succeeded, running it again succeeds and changes nothing. */
  lemma EraseAllIdempotent(st: Store, ts: seq<Target>, key: string)
    requires EraseAll(st, ts, key).status == Done
    ensures EraseAll(EraseAll(st, ts, key).store, ts, key) == EraseAll(st, ts, key)
  {
    EraseAllFrame(st, ts, key);
    EraseAllAbsent(EraseAll(st, ts, key).store, ts, key);
  }

  lemma {:induction false} EraseAllValid(st: Store, ts: seq<Target>, key: string)
    requires Valid(st)
    ensures Valid(EraseAll(st, ts, key).store)
    decreases |ts|
  {
    if ts != [] {
      var init, t := ts[..|ts| - 1], ts[|ts| - 1];
      EraseAllValid(st, init, key);
      var prev := EraseAll(st, init, key);
      if prev.status.Done? {
        AfterDeleteValid(prev.store, CommandPath(t.root, key));
        AfterDeleteValid(AfterDelete(prev.store, CommandPath(t.root, key)), KeyPath(t.root, key));
      }
    }
  }

  // ---------------------------------------------------------------------------
  // Reads
  // ---------------------------------------------------------------------------

  /** The `display_name`/`icon`/`command` record that `read_entry_details` returns. */
  datatype Details = Details(displayName: string, icon: Option<string>, command: Option<string>)

  /**
   * `read_entry_details`: None for EXTENSION, for a missing key, or for a key
   * without a default value; the icon and the command are None when absent.
   */
  function ReadEntryDetails(st: Store, scope: TargetScope, key: string): (r: Option<Details>)
    ensures r.Some? <==>
      StaticRoot(scope).Some? && QueryValue(st, KeyPath(StaticRoot(scope).value, key), "").Some?
    ensures r.Some? ==>
      && r.value.displayName == QueryValue(st, KeyPath(StaticRoot(scope).value, key), "").value
      && r.value.icon == QueryValue(st, KeyPath(StaticRoot(scope).value, key), "Icon")
      && r.value.command == QueryValue(st, CommandPath(StaticRoot(scope).value, key), "")
  {
    match StaticRoot(scope)
    case None => None
    case Some(root) =>
      var kp := KeyPath(root, key);
      if kp !in st.keys then None
      else
        match QueryValue(st, kp, "")
        case None => None
        case Some(display) =>
          Some(Details(display, QueryValue(st, kp, "Icon"), QueryValue(st, CommandPath(root, key), "")))
  }

  /** Reading back a written static scope returns what was written. */
  lemma ReadAfterWrite(st: Store, e: MenuEntry, icon: Option<string>, scope: TargetScope)
    requires scope in e.scopes && scope != Extension
    requires forall x :: x in e.extensions ==> StartsWithDot(x)
    ensures var r := ReadEntryDetails(Written(st, Targets(e.scopes, e.extensions), e, icon), scope, e.keyName);
      && r.Some?
      && r.value.displayName == e.displayName
      && (Truthy(icon) ==> r.value.icon == Some(icon.value))
      && r.value.command == Some(CommandFor(e, Placeholder(scope)))
  {
    var ts := Targets(e.scopes, e.extensions);
    var t := Target(StaticRoot(scope).value, Placeholder(scope));
    TargetsMembers(e.scopes, e.extensions, t);
    TargetsCoherent(e.scopes, e.extensions);
    WrittenAt(st, ts, e, icon, t);
    assert KeyPath(t.root, e.keyName) + ["command"] == CommandPath(t.root, e.keyName);
  }

  // ---------------------------------------------------------------------------
  // The Windows 11 classic-menu marker
  // ---------------------------------------------------------------------------

  const MarkerParent: Path := [CurrentUser, "Software", "Classes", "CLSID", "{86ca1aa0-34aa-4e8b-a509-50c905bae2a2}"]
  const MarkerPath: Path := MarkerParent + ["InprocServer32"]

  /**
   * `is_classic_menu_forced`: the marker's default value exists and is empty.
   * The ensures only spells out `QueryValue`; what the toggle promises about
   * this reading is proved by `ForcedClassic` and `RestoreModernMenu`.
   */
  function IsClassicMenuForced(st: Store): (forced: bool)
    ensures forced <==> MarkerPath in st.keys && (MarkerPath, "") in st.values && st.values[(MarkerPath, "")] == ""
  {
    QueryValue(st, MarkerPath, "") == Some("")
  }

  /** The store after a live `force_classic_menu`. */
  function ForcedClassic(st: Store): (r: Store)
    ensures IsClassicMenuForced(r)
  {
    WithValue(WithKey(st, MarkerPath), MarkerPath, "", "")
  }

  /** The store after a live `restore_modern_menu`. */
  function RestoredModern(st: Store): Store {
    if DeleteOutcomeOf(st, MarkerPath) == Deleted then AfterDelete(AfterDelete(st, MarkerPath), MarkerParent)
    else st
  }

  /** Forcing the classic menu keeps the registry a tree. */
  lemma ForcedClassicValid(st: Store)
    requires Valid(st)
    ensures Valid(ForcedClassic(st))
  {
    WithKeyValid(st, MarkerPath);
    WithValueValid(WithKey(st, MarkerPath), MarkerPath, "", "");
  }

  /** Restoring the modern menu keeps the registry a tree. */
  lemma RestoredModernValid(st: Store)
    requires Valid(st)
    ensures Valid(RestoredModern(st))
  {
    AfterDeleteValid(st, MarkerPath);
    AfterDeleteValid(AfterDelete(st, MarkerPath), MarkerParent);
  }

  // ---------------------------------------------------------------------------
  // The host: elevation and the files the validators find
  // ---------------------------------------------------------------------------

  /**
   * What the operating system answers: whether the process is elevated, and
   * the path strings that resolve to an existing regular file.
   */
  datatype Host = Host(admin: bool, files: set<string>)

  /** The text of `s` before the first `c` (all of `s` when there is none): `s.split(c)[0]`. */
  function Before(s: string, c: char): (r: string)
    ensures |r| <= |s| && r == s[..|r|]
    ensures |r| < |s| ==> s[|r|] == c
    ensures forall i :: 0 <= i < |r| ==> r[i] != c
  {
    if s == [] || s[0] == c then [] else [s[0]] + Before(s[1..], c)
  }

  /** Splitting at the first `c` of `a + b`, where `b` starts with `c` and `a` has none, gives `a`. */
  lemma {:induction false} BeforeConcat(a: string, b: string, c: char)
    requires forall i :: 0 <= i < |a| ==> a[i] != c
    requires b != [] && b[0] == c
    ensures Before(a + b, c) == a
  {
    if a != [] {
      assert (a + b)[1..] == a[1..] + b;
      BeforeConcat(a[1..], b, c);
    }
  }

  /** The icon source: the text before the first ',' (the icon index suffix is dropped). */
  function IconSource(icon: string): string {
    Before(icon, ',')
  }

  predicate IconAccepted(host: Host, icon: Option<string>) {
    icon.None? || IconSource(icon.value) in host.files
  }

  /** How `add_entry` ends: the checks in their order, then the first render of the template. */
  function AddVerdict(e: MenuEntry, host: Host): Status {
    if !host.admin then Failed(PermissionDenied)
    else if e.exePath !in host.files then Failed(ExeNotFound(e.exePath))
    else if !IconAccepted(host, e.icon) then Failed(IconNotFound(IconSource(e.icon.value)))
    else if Targets(e.scopes, e.extensions) != [] && BuildCommand(e, "%1").Failure? then
      Failed(BadTemplate(BuildCommand(e, "%1").error))
    else Done
  }

  // ---------------------------------------------------------------------------
  // Whole-call outcomes of `add_entry` and `remove_entry`
  // ---------------------------------------------------------------------------

  /** The status and the registry after `add_entry`. */
  function AddStep(st: Store, e: MenuEntry, host: Host, dryRun: bool): Step {
    var verdict := AddVerdict(e, host);
    Step(verdict, if verdict.Done? && !dryRun then Written(st, Targets(e.scopes, e.extensions), e, e.icon) else st)
  }

  /** The status and the registry after `remove_entry`. */
  function RemoveStep(st: Store, e: MenuEntry, host: Host, dryRun: bool): Step {
    if !host.admin then Step(Failed(PermissionDenied), st)
    else if dryRun then Step(Done, st)
    else EraseAll(st, Targets(e.scopes, e.extensions), e.keyName)
  }

  /** A whole `add_entry` keeps the registry a tree. */
  lemma AddStepValid(st: Store, e: MenuEntry, host: Host, dryRun: bool)
    requires Valid(st)
    ensures Valid(AddStep(st, e, host, dryRun).store)
  {
    WrittenValid(st, Targets(e.scopes, e.extensions), e, e.icon);
  }

  /** A whole `remove_entry` keeps the registry a tree. */
  lemma RemoveStepValid(st: Store, e: MenuEntry, host: Host, dryRun: bool)
    requires Valid(st)
    ensures Valid(RemoveStep(st, e, host, dryRun).store)
  {
    EraseAllValid(st, Targets(e.scopes, e.extensions), e.keyName);
  }

  // ---------------------------------------------------------------------------
  // Dry-run log lines
  // ---------------------------------------------------------------------------

  /** A key path as the log prints it after `HKCR\`: the segments below the hive, joined by '\'. */
  function KeyText(segments: seq<string>): string
    decreases |segments|
  {
    if segments == [] then ""
    else if |segments| == 1 then segments[0]
    else segments[0] + "\\" + KeyText(segments[1..])
  }

  /** One `[DRY-RUN]` line the manager logs instead of changing the registry. */
  datatype Planned =
    | WouldCreate(key: Path)
    | DefaultValue(text: string)
    | IconValue(text: string)
    | CommandValue(text: string)
    | WouldDelete(key: Path)
    | WouldForceClassic
    | WouldRestoreModern

  /** The text of a planned line, as logged; registry paths print below `HKCR\`. */
  function Line(p: Planned): string {
    match p
    case WouldCreate(key) => "[DRY-RUN] Would create: HKCR\\" + KeyText(if key == [] then [] else key[1..])
    case DefaultValue(text) => "[DRY-RUN]   (Default) = " + text
    case IconValue(text) => "[DRY-RUN]   Icon     = " + text
    case CommandValue(text) => "[DRY-RUN]   command  = " + text
    case WouldDelete(key) => "[DRY-RUN] Would delete: HKCR\\" + KeyText(if key == [] then [] else key[1..])
    case WouldForceClassic => "[DRY-RUN] Would force classic menu (disable Win11 compact menu)"
    case WouldRestoreModern => "[DRY-RUN] Would restore modern Win11 menu"
  }

  /** What `_write_entry` logs in dry-run mode: the key, its default value, the icon when there is one, and the command. */
  function PlannedWrite(t: Target, e: MenuEntry, icon: Option<string>): seq<Planned> {
    [WouldCreate(KeyPath(t.root, e.keyName)), DefaultValue(e.displayName)]
    + (if Truthy(icon) then [IconValue(icon.value)] else [])
    + [CommandValue(CommandFor(e, t.placeholder))]
  }

  function PlannedWrites(ts: seq<Target>, e: MenuEntry, icon: Option<string>): seq<Planned>
    decreases |ts|
  {
    if ts == [] then [] else PlannedWrites(ts[..|ts| - 1], e, icon) + PlannedWrite(ts[|ts| - 1], e, icon)
  }

  /** What `_delete_entry` logs in dry-run mode. */
  function PlannedDelete(t: Target, key: string): Planned {
    WouldDelete(KeyPath(t.root, key))
  }

  function PlannedDeletes(ts: seq<Target>, key: string): seq<Planned>
    decreases |ts|
  {
    if ts == [] then [] else PlannedDeletes(ts[..|ts| - 1], key) + [PlannedDelete(ts[|ts| - 1], key)]
  }

  /** The dry-run lines `add_entry` logs. */
  function AddLog(e: MenuEntry, host: Host, dryRun: bool): seq<Planned> {
    if AddVerdict(e, host).Done? && dryRun then PlannedWrites(Targets(e.scopes, e.extensions), e, e.icon) else []
  }

  /** The dry-run lines `remove_entry` logs. */
  function RemoveLog(e: MenuEntry, host: Host, dryRun: bool): seq<Planned> {
    if host.admin && dryRun then PlannedDeletes(Targets(e.scopes, e.extensions), e.keyName) else []
  }

  // ---------------------------------------------------------------------------
  // The manager
  // ---------------------------------------------------------------------------

  predicate Distinct(s: seq<string>) {
    forall i, j :: 0 <= i < j < |s| ==> s[i] != s[j]
  }

  /** The root `list_entries` opens; absent for EXTENSION without an extension. */
  function ListRoot(scope: TargetScope, extension: Option<string>): Option<Path> {
    if scope == Extension then
      if extension.None? then None else Some(ExtensionRoot(extension.value))
    else StaticRoot(scope)
  }

  class Manager {
    /** Dry-run mode: log every planned operation and write nothing. */
    const dryRun: bool
    const reg: Registry
    /** The `[DRY-RUN]` lines logged so far. */
    var planned: seq<Planned>

    constructor (dryRun: bool, reg: Registry)
      ensures this.dryRun == dryRun && this.reg == reg && planned == []
    {
      this.dryRun := dryRun;
      this.reg := reg;
      planned := [];
    }

    /** `_write_entry` */
    method WriteEntry(t: Target, e: MenuEntry, icon: Option<string>) returns (r: Status)
      modifies reg, this`planned
      ensures r == if BuildCommand(e, t.placeholder).Failure? then Failed(BadTemplate(BuildCommand(e, t.placeholder).error)) else Done
      ensures r.Failed? ==> reg.State() == old(reg.State()) && planned == old(planned)
      ensures r.Done? && dryRun ==> reg.State() == old(reg.State()) && planned == old(planned) + PlannedWrite(t, e, icon)
      ensures r.Done? && !dryRun ==> reg.State() == WriteOne(old(reg.State()), t, e, icon) && planned == old(planned)
    {
      var kp := KeyPath(t.root, e.keyName);
      var cp := CommandPath(t.root, e.keyName);
      var built := BuildCommand(e, t.placeholder);
      if built.Failure? {
        return Failed(BadTemplate(built.error));
      }
      if dryRun {
        planned := planned + PlannedWrite(t, e, icon);
        return Done;
      }
      reg.CreateKeyEx(kp);
      reg.SetValueEx(kp, "", e.displayName);
      if Truthy(icon) {
        reg.SetValueEx(kp, "Icon", icon.value);
      }
      reg.CreateKeyEx(cp);
      reg.SetValueEx(cp, "", built.value);
      r := Done;
    }

    /** `_delete_entry` */
    method DeleteEntry(root: Path, key: string) returns (r: Status)
      modifies reg, this`planned
      ensures dryRun ==> r == Done && reg.State() == old(reg.State())
                         && planned == old(planned) + [PlannedDelete(Target(root, ""), key)]
      ensures !dryRun ==> Step(r, reg.State()) == EraseOne(old(reg.State()), root, key) && planned == old(planned)
    {
      var kp := KeyPath(root, key);
      var cp := CommandPath(root, key);
      if dryRun {
        planned := planned + [PlannedDelete(Target(root, ""), key)];
        return Done;
      }
      var gone := reg.DeleteKey(cp);
      if gone == HasSubkeys {
        return Failed(DeleteRefused(cp));
      }
      gone := reg.DeleteKey(kp);
      if gone == HasSubkeys {
        return Failed(DeleteRefused(kp));
      }
      r := Done;
    }

    /**
     * One step of the write fan-out: `_write_entry` at the next location,
     * with what has been written so far summarised by `done`.
     */
    method WriteNext(t: Target, e: MenuEntry, ghost st0: Store, ghost log0: seq<Planned>, ghost done: seq<Target>) returns (r: Status)
      requires done != [] ==> BuildCommand(e, "%1").Success?
      requires dryRun ==> reg.State() == st0 && planned == log0 + PlannedWrites(done, e, e.icon)
      requires !dryRun ==> reg.State() == Written(st0, done, e, e.icon) && planned == log0
      modifies reg, this`planned
      ensures r.Failed? ==> done == [] && BuildCommand(e, "%1").Failure?
                            && r == Failed(BadTemplate(BuildCommand(e, "%1").error))
                            && reg.State() == st0 && planned == log0
      ensures r.Done? ==> BuildCommand(e, "%1").Success?
      ensures r.Done? && dryRun ==> reg.State() == st0 && planned == log0 + PlannedWrites(done + [t], e, e.icon)
      ensures r.Done? && !dryRun ==> reg.State() == Written(st0, done + [t], e, e.icon) && planned == log0
    {
      WrittenSnoc(st0, done, t, e, e.icon);
      assert PlannedWrites(done + [t], e, e.icon) == PlannedWrites(done, e, e.icon) + PlannedWrite(t, e, e.icon) by {
        assert (done + [t])[..|done|] == done;
      }
      FormatOutcomeIndependent(e.commandTemplate, ToBackslashes(e.exePath), "%1", ToBackslashes(e.exePath), t.placeholder);
      r := WriteEntry(t, e, e.icon);
    }

    /** The EXTENSION scope of `add_entry`: one write per extension. */
    method WriteExtensions(e: MenuEntry, ghost st0: Store, ghost log0: seq<Planned>, ghost done: seq<Target>) returns (r: Status)
      requires done != [] ==> BuildCommand(e, "%1").Success?
      requires dryRun ==> reg.State() == st0 && planned == log0 + PlannedWrites(done, e, e.icon)
      requires !dryRun ==> reg.State() == Written(st0, done, e, e.icon) && planned == log0
      modifies reg, this`planned
      ensures r.Failed? ==> done == [] && e.extensions != [] && BuildCommand(e, "%1").Failure?
                            && r == Failed(BadTemplate(BuildCommand(e, "%1").error))
                            && reg.State() == st0 && planned == log0
      ensures r.Done? ==> (done + ExtensionTargets(e.extensions) != [] ==> BuildCommand(e, "%1").Success?)
      ensures r.Done? && dryRun ==> reg.State() == st0 && planned == log0 + PlannedWrites(done + ExtensionTargets(e.extensions), e, e.icon)
      ensures r.Done? && !dryRun ==> reg.State() == Written(st0, done + ExtensionTargets(e.extensions), e, e.icon) && planned == log0
    {
      ghost var cur := done;
      var j := 0;
      while j < |e.extensions|
        invariant 0 <= j <= |e.extensions|
        invariant cur == done + ExtensionTargets(e.extensions[..j])
        invariant cur == [] ==> done == [] && j == 0
        invariant cur != [] ==> BuildCommand(e, "%1").Success?
        invariant dryRun ==> reg.State() == st0 && planned == log0 + PlannedWrites(cur, e, e.icon)
        invariant !dryRun ==> reg.State() == Written(st0, cur, e, e.icon) && planned == log0
      {
        var t := Target(ExtensionRoot(e.extensions[j]), Placeholder(Extension));
        ExtensionTargetsSnoc(e.extensions, j);
        AppendAssoc(done, ExtensionTargets(e.extensions[..j]), [t]);
        r := WriteNext(t, e, st0, log0, cur);
        if r.Failed? {
          return;
        }
        cur := cur + [t];
        j := j + 1;
      }
      assert e.extensions[..|e.extensions|] == e.extensions;
      r := Done;
    }

    /** One scope of the `add_entry` loop. */
    method WriteScope(scope: TargetScope, e: MenuEntry, ghost st0: Store, ghost log0: seq<Planned>, ghost done: seq<Target>) returns (r: Status)
      requires done != [] ==> BuildCommand(e, "%1").Success?
      requires dryRun ==> reg.State() == st0 && planned == log0 + PlannedWrites(done, e, e.icon)
      requires !dryRun ==> reg.State() == Written(st0, done, e, e.icon) && planned == log0
      modifies reg, this`planned
      ensures r.Failed? ==> done == [] && ScopeTargets(scope, e.extensions) != [] && BuildCommand(e, "%1").Failure?
                            && r == Failed(BadTemplate(BuildCommand(e, "%1").error))
                            && reg.State() == st0 && planned == log0
      ensures r.Done? ==> (done + ScopeTargets(scope, e.extensions) != [] ==> BuildCommand(e, "%1").Success?)
      ensures r.Done? && dryRun ==> reg.State() == st0 && planned == log0 + PlannedWrites(done + ScopeTargets(scope, e.extensions), e, e.icon)
      ensures r.Done? && !dryRun ==> reg.State() == Written(st0, done + ScopeTargets(scope, e.extensions), e, e.icon) && planned == log0
    {
      if scope == Extension {
        r := WriteExtensions(e, st0, log0, done);
      } else {
        r := WriteNext(Target(StaticRoot(scope).value, Placeholder(scope)), e, st0, log0, done);
      }
    }

    /**
     * `add_entry`: checks elevation, the executable and the icon before any
     * write (also in dry-run mode), then writes every location of the fan-out.
     */
    method AddEntry(e: MenuEntry, host: Host) returns (r: Status)
      modifies reg, this`planned
      ensures Step(r, reg.State()) == AddStep(old(reg.State()), e, host, dryRun)
      ensures planned == old(planned) + AddLog(e, host, dryRun)
      ensures Valid(old(reg.State())) ==> Valid(reg.State())
    {
      if Valid(reg.State()) {
        AddStepValid(reg.State(), e, host, dryRun);
      }
      if !host.admin {
        return Failed(PermissionDenied);
      }
      if e.exePath !in host.files {
        return Failed(ExeNotFound(e.exePath));
      }
      if !IconAccepted(host, e.icon) {
        return Failed(IconNotFound(IconSource(e.icon.value)));
      }
      r := WriteAll(e, reg.State(), planned);
    }

    /** The loop of `add_entry`: every scope, and every extension for EXTENSION. */
    method WriteAll(e: MenuEntry, ghost st0: Store, ghost log0: seq<Planned>) returns (r: Status)
      requires reg.State() == st0 && planned == log0
      modifies reg, this`planned
      ensures r.Failed? ==> Targets(e.scopes, e.extensions) != [] && BuildCommand(e, "%1").Failure?
      ensures r.Failed? ==> r == Failed(BadTemplate(BuildCommand(e, "%1").error)) && reg.State() == st0 && planned == log0
      ensures r.Done? ==> Targets(e.scopes, e.extensions) == [] || BuildCommand(e, "%1").Success?
      ensures r.Done? && dryRun ==> reg.State() == st0 && planned == log0 + PlannedWrites(Targets(e.scopes, e.extensions), e, e.icon)
      ensures r.Done? && !dryRun ==> reg.State() == Written(st0, Targets(e.scopes, e.extensions), e, e.icon) && planned == log0
    {
      ghost var done: seq<Target> := [];
      var i := 0;
      while i < |e.scopes|
        invariant 0 <= i <= |e.scopes|
        invariant done == Targets(e.scopes[..i], e.extensions)
        invariant done != [] ==> BuildCommand(e, "%1").Success?
        invariant dryRun ==> reg.State() == st0 && planned == log0 + PlannedWrites(done, e, e.icon)
        invariant !dryRun ==> reg.State() == Written(st0, done, e, e.icon) && planned == log0
      {
        TargetsSnoc(e.scopes, e.extensions, i);
        r := WriteScope(e.scopes[i], e, st0, log0, done);
        if r.Failed? {
          TargetsOfScope(e.scopes, e.extensions, i);
          return;
        }
        done := done + ScopeTargets(e.scopes[i], e.extensions);
        i := i + 1;
      }
      assert e.scopes[..|e.scopes|] == e.scopes;
      r := Done;
    }

    /** One step of the delete fan-out: `_delete_entry` at the next location. */
    method DeleteNext(t: Target, key: string, ghost st0: Store, ghost log0: seq<Planned>, ghost done: seq<Target>) returns (r: Status)
      requires dryRun ==> reg.State() == st0 && planned == log0 + PlannedDeletes(done, key)
      requires !dryRun ==> EraseAll(st0, done, key) == Step(Done, reg.State()) && planned == log0
      modifies reg, this`planned
      ensures dryRun ==> r == Done && reg.State() == st0 && planned == log0 + PlannedDeletes(done + [t], key)
      ensures !dryRun ==> planned == log0
      ensures !dryRun ==> EraseAll(st0, done + [t], key) == Step(r, reg.State())
    {
      EraseAllSnoc(st0, done, t, key);
      assert PlannedDeletes(done + [t], key) == PlannedDeletes(done, key) + [PlannedDelete(t, key)] by {
        assert (done + [t])[..|done|] == done;
      }
      r := DeleteEntry(t.root, key);
    }

    /** The EXTENSION scope of `remove_entry`: one delete per extension. */
    method DeleteExtensions(key: string, exts: seq<string>, ghost st0: Store, ghost log0: seq<Planned>, ghost done: seq<Target>) returns (r: Status, ghost reached: seq<Target>)
      requires dryRun ==> reg.State() == st0 && planned == log0 + PlannedDeletes(done, key)
      requires !dryRun ==> EraseAll(st0, done, key) == Step(Done, reg.State()) && planned == log0
      modifies reg, this`planned
      ensures reached <= done + ExtensionTargets(exts)
      ensures r.Done? ==> reached == done + ExtensionTargets(exts)
      ensures dryRun ==> r == Done && reg.State() == st0 && planned == log0 + PlannedDeletes(reached, key)
      ensures !dryRun ==> planned == log0 && EraseAll(st0, reached, key) == Step(r, reg.State())
    {
      reached := done;
      var j := 0;
      while j < |exts|
        invariant 0 <= j <= |exts|
        invariant reached == done + ExtensionTargets(exts[..j])
        invariant dryRun ==> reg.State() == st0 && planned == log0 + PlannedDeletes(reached, key)
        invariant !dryRun ==> EraseAll(st0, reached, key) == Step(Done, reg.State()) && planned == log0
      {
        var t := Target(ExtensionRoot(exts[j]), Placeholder(Extension));
        ExtensionTargetsSnoc(exts, j);
        AppendAssoc(done, ExtensionTargets(exts[..j]), [t]);
        r := DeleteNext(t, key, st0, log0, reached);
        reached := reached + [t];
        if r.Failed? {
          return;
        }
        j := j + 1;
      }
      assert exts[..|exts|] == exts;
      r := Done;
    }

    /** Deletes the key of one scope, or of each extension for the per-extension scope, stopping at the first failure. */
    method DeleteScope(scope: TargetScope, key: string, exts: seq<string>, ghost st0: Store, ghost log0: seq<Planned>, ghost done: seq<Target>)
      returns (r: Status, ghost reached: seq<Target>)
      requires dryRun ==> reg.State() == st0 && planned == log0 + PlannedDeletes(done, key)
      requires !dryRun ==> EraseAll(st0, done, key) == Step(Done, reg.State()) && planned == log0
      modifies reg, this`planned
      ensures reached <= done + ScopeTargets(scope, exts)
      ensures r.Done? ==> reached == done + ScopeTargets(scope, exts)
      ensures dryRun ==> r == Done && reg.State() == st0 && planned == log0 + PlannedDeletes(reached, key)
      ensures !dryRun ==> planned == log0 && EraseAll(st0, reached, key) == Step(r, reg.State())
    {
      if scope == Extension {
        r, reached := DeleteExtensions(key, exts, st0, log0, done);
      } else {
        var t := Target(StaticRoot(scope).value, Placeholder(scope));
        r := DeleteNext(t, key, st0, log0, done);
        reached := done + [t];
      }
    }

    /** `remove_entry`: checks elevation, then deletes every location of the fan-out. */
    method RemoveEntry(e: MenuEntry, host: Host) returns (r: Status)
      modifies reg, this`planned
      ensures Step(r, reg.State()) == RemoveStep(old(reg.State()), e, host, dryRun)
      ensures planned == old(planned) + RemoveLog(e, host, dryRun)
      ensures Valid(old(reg.State())) ==> Valid(reg.State())
    {
      if Valid(reg.State()) {
        RemoveStepValid(reg.State(), e, host, dryRun);
      }
      if !host.admin {
        return Failed(PermissionDenied);
      }
      r := DeleteAll(e.keyName, e.scopes, e.extensions, reg.State(), planned);
    }

    /** The loop of `remove_entry`: every scope, and every extension for EXTENSION, up to the first failure. */
    method DeleteAll(key: string, scopes: seq<TargetScope>, exts: seq<string>, ghost st0: Store, ghost log0: seq<Planned>) returns (r: Status)
      requires reg.State() == st0 && planned == log0
      modifies reg, this`planned
      ensures dryRun ==> r == Done && reg.State() == st0 && planned == log0 + PlannedDeletes(Targets(scopes, exts), key)
      ensures !dryRun ==> planned == log0 && Step(r, reg.State()) == EraseAll(st0, Targets(scopes, exts), key)
    {
      ghost var done: seq<Target> := [];
      var i := 0;
      while i < |scopes|
        invariant 0 <= i <= |scopes|
        invariant done == Targets(scopes[..i], exts)
        invariant dryRun ==> reg.State() == st0 && planned == log0 + PlannedDeletes(done, key)
        invariant !dryRun ==> EraseAll(st0, done, key) == Step(Done, reg.State()) && planned == log0
      {
        TargetsSnoc(scopes, exts, i);
        ghost var reached;
        r, reached := DeleteScope(scopes[i], key, exts, st0, log0, done);
        if r.Failed? {
          EraseAllStops(st0, reached, Targets(scopes, exts), key);
          return;
        }
        done := reached;
        i := i + 1;
      }
      assert scopes[..|scopes|] == scopes;
      r := Done;
    }

    /**
     * `list_entries`: the subkey names under the scope's root, each once;
     * EXTENSION without an extension is a ValueError.
     */
    method ListEntries(scope: TargetScope, extension: Option<string>) returns (r: Result<seq<string>, Error>)
      ensures r.Failure? <==> ListRoot(scope, extension).None?
      ensures r.Failure? ==> r.error == ExtensionRequired
      ensures r.Success? ==> ListRoot(scope, extension).Some? && Distinct(r.value)
      ensures r.Success? ==> forall n :: n in r.value <==> n in Children(reg.State(), ListRoot(scope, extension).value)
      ensures r.Success? && Valid(reg.State()) && ListRoot(scope, extension).value !in reg.State().keys ==> r.value == []
    {
      var root := ListRoot(scope, extension);
      if root.None? {
        return Failure(ExtensionRequired);
      }
      if Valid(reg.State()) && root.value !in reg.State().keys {
        ChildrenOfMissing(reg.State(), root.value);
      }
      var all := Children(reg.State(), root.value);
      var remaining := all;
      var names: seq<string> := [];
      while remaining != {}
        invariant forall n :: n in all <==> n in names || n in remaining
        invariant forall n :: n in remaining ==> n !in names
        invariant Distinct(names)
        invariant all == {} ==> names == []
        decreases remaining
      {
        var n :| n in remaining;
        names := names + [n];
        remaining := remaining - {n};
      }
      r := Success(names);
    }

    /** `force_classic_menu`: set the marker's default value to "". */
    method ForceClassicMenu()
      modifies reg, this`planned
      ensures dryRun ==> reg.State() == old(reg.State()) && planned == old(planned) + [WouldForceClassic]
      ensures !dryRun ==> reg.State() == ForcedClassic(old(reg.State())) && planned == old(planned)
      ensures Valid(old(reg.State())) ==> Valid(reg.State())
    {
      if Valid(reg.State()) {
        ForcedClassicValid(reg.State());
      }
      if dryRun {
        planned := planned + [WouldForceClassic];
        return;
      }
      reg.CreateKeyEx(MarkerPath);
      reg.SetValueEx(MarkerPath, "", "");
    }

    /**
     * `restore_modern_menu`: delete the marker key and then, if it has become
     * empty, its CLSID parent; an absent marker is not an error.
     */
    method RestoreModernMenu() returns (r: Status)
      modifies reg, this`planned
      ensures dryRun ==> r == Done && reg.State() == old(reg.State()) && planned == old(planned) + [WouldRestoreModern]
      ensures !dryRun ==> planned == old(planned)
      ensures !dryRun ==> r == if DeleteOutcomeOf(old(reg.State()), MarkerPath) == HasSubkeys then Failed(DeleteRefused(MarkerPath)) else Done
      ensures !dryRun ==> reg.State() == RestoredModern(old(reg.State()))
      ensures !dryRun && r.Done? ==> !IsClassicMenuForced(reg.State())
      ensures Valid(old(reg.State())) ==> Valid(reg.State())
    {
      if Valid(reg.State()) {
        RestoredModernValid(reg.State());
      }
      if dryRun {
        planned := planned + [WouldRestoreModern];
        return Done;
      }
      var gone := reg.DeleteKey(MarkerPath);
      if gone == HasSubkeys {
        return Failed(DeleteRefused(MarkerPath));
      }
      if gone == Deleted {
        var _ := reg.DeleteKey(MarkerParent);
      }
      r := Done;
    }
  }
}
