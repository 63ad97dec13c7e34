/**
 * The part of the Windows registry that the manager touches, as an abstract
 * tree: a set of key paths (the hive name is the first segment) and the
 * string values stored under (key path, value name). `""` names the default
 * value of a key.
 */
module WinReg {
  import opened Results

  type Path = seq<string>

  const ClassesRoot: string := "HKEY_CLASSES_ROOT"
  const CurrentUser: string := "HKEY_CURRENT_USER"

  datatype Store = Store(keys: set<Path>, values: map<(Path, string), string>)

  /** The key one level up. */
  function Parent(p: Path): Path
    requires p != []
  {
    p[..|p| - 1]
  }

  /**
   * The registry is a tree: every key's parent is a key, and values live on
   * keys. The parent clause fires on `Parent(p)` so that it does not feed
   * itself one level up at a time.
   */
  ghost predicate Valid(st: Store) {
    && (forall p :: p in st.keys ==> p != [])
    && (forall p {:trigger Parent(p)} :: p in st.keys && |p| > 1 ==> Parent(p) in st.keys)
    && (forall v :: v in st.values ==> v.0 in st.keys)
  }

  /** The key and all its ancestors (CreateKeyEx creates missing intermediate keys). */
  function Prefixes(p: Path): set<Path> {
    set i | 1 <= i <= |p| :: p[..i]
  }

  /** The effect of `CreateKeyEx`: the key and its ancestors exist afterwards. */
  function WithKey(st: Store, p: Path): (r: Store)
    ensures p != [] ==> p in r.keys
    ensures r.values == st.values
  {
    assert p != [] ==> p[..|p|] == p;
    st.(keys := st.keys + Prefixes(p))
  }

  /** The effect of `SetValueEx` on an open key. */
  function WithValue(st: Store, p: Path, name: string, data: string): Store {
    st.(values := st.values[(p, name) := data])
  }

  /** The names of the direct subkeys of `p` (what EnumKey enumerates). */
  function Children(st: Store, p: Path): set<string> {
    set k | k in st.keys && |k| == |p| + 1 && k[..|p|] == p :: k[|p|]
  }

  /** `QueryValueEx`: absent when the key or the value does not exist. */
  function QueryValue(st: Store, p: Path, name: string): Option<string> {
    if p in st.keys && (p, name) in st.values then Some(st.values[(p, name)]) else None
  }

  /** What `DeleteKey` does: FileNotFoundError, the OSError for a key that still has subkeys, or success. */
  datatype DeleteOutcome = Deleted | Missing | HasSubkeys

  function DeleteOutcomeOf(st: Store, p: Path): DeleteOutcome {
    if p !in st.keys then Missing
    else if Children(st, p) != {} then HasSubkeys
    else Deleted
  }

  /** The store after `DeleteKey(p)`: the key and its values go when it is deleted, nothing changes otherwise. */
  function AfterDelete(st: Store, p: Path): (r: Store)
    ensures DeleteOutcomeOf(st, p) != HasSubkeys ==> p !in r.keys
    ensures r.keys <= st.keys
  {
    if DeleteOutcomeOf(st, p) == Deleted then
      Store(st.keys - {p}, map v | v in st.values && v.0 != p :: st.values[v])
    else st
  }

  lemma ChildIff(st: Store, p: Path, n: string)
    ensures n in Children(st, p) <==> p + [n] in st.keys
  {
    var k := p + [n];
    assert k[..|p|] == p && k[|p|] == n;
    if n in Children(st, p) {
      var k' :| k' in st.keys && |k'| == |p| + 1 && k'[..|p|] == p && k'[|p|] == n;
      assert k' == k;
    }
  }

  /** Listing a key that does not exist yields nothing. */
  lemma ChildrenOfMissing(st: Store, p: Path)
    requires Valid(st) && p != [] && p !in st.keys
    ensures Children(st, p) == {}
  {
    forall n
      ensures n !in Children(st, p)
    {
      assert Parent(p + [n]) == p;
      ChildIff(st, p, n);
    }
  }

  lemma WithKeyValid(st: Store, p: Path)
    requires Valid(st) && p != []
    ensures Valid(WithKey(st, p))
  {
    var r := WithKey(st, p);
    forall k | k in r.keys && |k| > 1
      ensures Parent(k) in r.keys
    {
      if k !in st.keys {
        var i :| 1 <= i <= |p| && k == p[..i];
        assert Parent(k) == p[..i - 1];
      }
    }
  }

  lemma WithValueValid(st: Store, p: Path, name: string, data: string)
    requires Valid(st) && p in st.keys
    ensures Valid(WithValue(st, p, name, data))
  {
  }

  lemma AfterDeleteValid(st: Store, p: Path)
    requires Valid(st)
    ensures Valid(AfterDelete(st, p))
  {
    if DeleteOutcomeOf(st, p) == Deleted {
      var r := AfterDelete(st, p);
      forall k | k in r.keys && |k| > 1
        ensures Parent(k) in r.keys
      {
        var parent := Parent(k);
        assert k == parent + [k[|k| - 1]];
        if parent == p {
          ChildIff(st, p, k[|k| - 1]);
          assert false;
        }
      }
    }
  }

  /**
   * The registry as the process sees it: each winreg call the manager
   * makes is a method here, specified by the functions above. It starts as
   * a tree, and no call breaks that.
   */
  class Registry {
    var keys: set<Path>
    var values: map<(Path, string), string>

    function State(): Store
      reads this
    {
      Store(keys, values)
    }

    constructor (initial: Store)
      requires Valid(initial)
      ensures State() == initial
    {
      keys := initial.keys;
      values := initial.values;
    }

    method CreateKeyEx(p: Path)
      requires p != []
      modifies this
      ensures State() == WithKey(old(State()), p)
      ensures Valid(old(State())) ==> Valid(State())
    {
      if Valid(State()) {
        WithKeyValid(State(), p);
      }
      keys := keys + Prefixes(p);
    }

    method SetValueEx(p: Path, name: string, data: string)
      requires p in keys
      modifies this
      ensures State() == WithValue(old(State()), p, name, data)
      ensures Valid(old(State())) ==> Valid(State())
    {
      if Valid(State()) {
        WithValueValid(State(), p, name, data);
      }
      values := values[(p, name) := data];
    }

    method DeleteKey(p: Path) returns (outcome: DeleteOutcome)
      modifies this
      ensures outcome == DeleteOutcomeOf(old(State()), p)
      ensures State() == AfterDelete(old(State()), p)
      ensures Valid(old(State())) ==> Valid(State())
    {
      if Valid(State()) {
        AfterDeleteValid(State(), p);
      }
      outcome := DeleteOutcomeOf(State(), p);
      if outcome == Deleted {
        keys := keys - {p};
        values := map v | v in values && v.0 != p :: values[v];
      }
    }
  }
}
