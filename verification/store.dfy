/** The registry as the winreg calls of regpath.py see it: a map from key
    identities to their values and ordered subkey lists, kept in a class
    Registry whose methods stand for ConnectRegistry, OpenKeyEx, CreateKeyEx,
    QueryInfoKey, EnumKey, DeleteKey, QueryValueEx, SetValueEx and DeleteValue.
    The pure functions below are the specifications of those methods; the
    lemmas show that every change keeps the tree shape ValidKeys. */
module Store {
  import opened Flavour
  import opened Values

  /** The deepest key the registry accepts (512 levels). */
  const MaxDepth: nat := 512

  datatype Machine = Local | Remote(computer: string)

  /** A predefined root on the local machine or on a connected computer. */
  datatype Hive = Hive(machine: Machine, root: RootKey)

  /** A key: its hive and the names leading to it from the root. */
  datatype KeyId = KeyId(hive: Hive, path: seq<string>)

  /** A key's named values and its subkey names in enumeration order. */
  datatype KeyData = KeyData(values: map<string, Stored>, subkeys: seq<string>)

  type Keys = map<KeyId, KeyData>

  /** An open key handle: a serial number, the key it refers to and the
      access it was opened with. */
  datatype Handle = Handle(serial: nat, key: KeyId, access: bv32)

  /** The outcome of an operation that may fail after changing the store. */
  datatype Outcome = Done(keys: Keys) | Failed(keys: Keys, error: Error)

  function Up(k: KeyId): KeyId
    requires k.path != []
  {
    KeyId(k.hive, k.path[..|k.path| - 1])
  }

  function Last(k: KeyId): string
    requires k.path != []
  {
    k.path[|k.path| - 1]
  }

  function Down(k: KeyId, name: string): KeyId {
    KeyId(k.hive, k.path + [name])
  }

  predicate NoDups(ss: seq<string>) {
    forall i, j :: 0 <= i < j < |ss| ==> ss[i] != ss[j]
  }

  /** The registry's tree shape: bounded depth, every key listed by its
      parent, every listed subkey present, no name listed twice. */
  ghost predicate ValidKeys(keys: Keys) {
    Shallow(keys) && ParentsList(keys) && ChildrenPresent(keys) && Distinct(keys)
  }

  ghost predicate Shallow(keys: Keys) {
    forall k :: k in keys ==> |k.path| <= MaxDepth
  }

  ghost predicate ParentsList(keys: Keys) {
    forall k {:trigger Up(k)} :: k in keys && k.path != [] ==> Up(k) in keys && Last(k) in keys[Up(k)].subkeys
  }

  ghost predicate ChildrenPresent(keys: Keys) {
    forall k, n :: k in keys && n in keys[k].subkeys ==> Down(k, n) in keys
  }

  ghost predicate Distinct(keys: Keys) {
    forall k :: k in keys ==> NoDups(keys[k].subkeys)
  }

  /** The local roots are always there. */
  ghost predicate HasLocalRoots(keys: Keys) {
    forall r: RootKey :: KeyId(Hive(Local, r), []) in keys
  }

  /** Two stores with the same roots (so the same reachable computers). */
  ghost predicate SameRoots(a: Keys, b: Keys) {
    forall k: KeyId :: k.path == [] ==> (k in a <==> k in b)
  }

  /** x lies in the subtree of k (k included). */
  ghost predicate Below(k: KeyId, x: KeyId) {
    x.hive == k.hive && |k.path| <= |x.path| && x.path[..|k.path|] == k.path
  }

  ghost function Subtree(keys: Keys, k: KeyId): set<KeyId> {
    set x | x in keys && Below(k, x)
  }

  // ---------------------------------------------------------------------
  // Key identities
  // ---------------------------------------------------------------------

  lemma DownUp(k: KeyId)
    requires k.path != []
    ensures Down(Up(k), Last(k)) == k
  {
    assert k.path[..|k.path| - 1] + [Last(k)] == k.path;
  }

  lemma UpDown(k: KeyId, name: string)
    ensures Up(Down(k, name)) == k && Last(Down(k, name)) == name
  {
    assert (k.path + [name])[..|k.path|] == k.path;
  }

  /** One step down: x is below the child named n of k iff x is strictly
      below k and its next name is n. */
  lemma BelowDown(k: KeyId, n: string, x: KeyId)
    ensures Below(Down(k, n), x) <==>
      (Below(k, x) && |x.path| > |k.path| && x.path[|k.path|] == n)
  {
    var c := Down(k, n);
    if Below(c, x) {
      assert x.path[..|k.path|] == c.path[..|k.path|];
      assert c.path[..|k.path|] == k.path;
    }
    if Below(k, x) && |x.path| > |k.path| && x.path[|k.path|] == n {
      assert x.path[..|c.path|] == x.path[..|k.path|] + [n];
    }
  }

  /** A key strictly below k descends through one of k's listed subkeys. */
  lemma {:induction false} DescendsThroughSubkey(keys: Keys, k: KeyId, x: KeyId)
    requires ValidKeys(keys) && k in keys && x in keys && Below(k, x) && x != k
    ensures |x.path| > |k.path| && x.path[|k.path|] in keys[k].subkeys
    decreases |x.path|
  {
    if |x.path| == |k.path| + 1 {
      assert Up(x).path == k.path;
    } else {
      var u := Up(x);
      assert u.path[..|k.path|] == k.path;
      assert u != k;
      DescendsThroughSubkey(keys, k, u);
    }
  }

  // ---------------------------------------------------------------------
  // Subkey lists
  // ---------------------------------------------------------------------

  /** The list with n removed, order kept. */
  function Without(ss: seq<string>, n: string): (r: seq<string>)
    ensures forall x :: x in r <==> x in ss && x != n
    ensures NoDups(ss) ==> NoDups(r)
    ensures n !in ss ==> r == ss
    ensures NoDups(ss) && ss != [] && ss[0] == n ==> r == ss[1..]
  {
    if ss == [] then []
    else
      var rest := Without(ss[1..], n);
      if ss[0] == n then
        assert NoDups(ss) ==> n !in ss[1..];
        rest
      else
        assert NoDups(ss) ==> ss[0] !in ss[1..];
        [ss[0]] + rest
  }

  // ---------------------------------------------------------------------
  // Pure specifications of the registry calls
  // ---------------------------------------------------------------------

  /** ConnectRegistry: a computer is reachable iff its roots are there. */
  function Reach(keys: Keys, h: Hive): (r: Result<Hive>)
    ensures r.Ok? <==> KeyId(h, []) in keys
    ensures r.Ok? ==> r.value == h
    ensures r.Err? ==> r.error == NetworkPath
  {
    if KeyId(h, []) in keys then Ok(h) else Err(NetworkPath)
  }

  /** One new key under an existing parent, listed last. */
  function AddKey(keys: Keys, k: KeyId): Keys
    requires k.path != [] && Up(k) in keys
  {
    var p := Up(k);
    keys[p := keys[p].(subkeys := keys[p].subkeys + [Last(k)])][k := KeyData(map[], [])]
  }

  lemma AddKeyValid(keys: Keys, k: KeyId)
    requires ValidKeys(keys) && k.path != [] && Up(k) in keys && k !in keys
    requires |k.path| <= MaxDepth
    ensures ValidKeys(AddKey(keys, k))
  {
    DownUp(k);
    AddKeyParents(keys, k);
    AddKeyChildren(keys, k);
    AddKeyDistinct(keys, k);
  }

  lemma AddKeyParents(keys: Keys, k: KeyId)
    requires ValidKeys(keys) && k.path != [] && Up(k) in keys && k !in keys
    ensures ParentsList(AddKey(keys, k))
  {
    var m := AddKey(keys, k);
    forall x | x in m && x.path != []
      ensures Up(x) in m && Last(x) in m[Up(x)].subkeys
    {
      if x != k {
        assert x in keys;
      }
    }
  }

  lemma AddKeyChildren(keys: Keys, k: KeyId)
    requires ValidKeys(keys) && k.path != [] && Up(k) in keys && k !in keys
    ensures ChildrenPresent(AddKey(keys, k))
  {
    var p := Up(k);
    var m := AddKey(keys, k);
    DownUp(k);
    forall x, n | x in m && n in m[x].subkeys
      ensures Down(x, n) in m
    {
      if x == p && n == Last(k) {
      } else if x != k {
        assert n in keys[x].subkeys;
      }
    }
  }

  lemma AddKeyDistinct(keys: Keys, k: KeyId)
    requires ValidKeys(keys) && k.path != [] && Up(k) in keys && k !in keys
    ensures Distinct(AddKey(keys, k))
  {
    var p := Up(k);
    var m := AddKey(keys, k);
    DownUp(k);
    assert Last(k) !in keys[p].subkeys;
    forall x | x in m
      ensures NoDups(m[x].subkeys)
    {
      if x == p {
        var ss := keys[p].subkeys + [Last(k)];
        forall i, j | 0 <= i < j < |ss|
          ensures ss[i] != ss[j]
        {
          if j == |ss| - 1 {
            assert ss[i] in keys[p].subkeys;
          }
        }
      }
    }
  }

  /** CreateKeyEx: the key and every missing ancestor are created, each
      listed last by its parent; nothing is created in a hive whose root is
      absent. */
  function CreateKeys(keys: Keys, k: KeyId): (m: Keys)
    requires ValidKeys(keys) && |k.path| <= MaxDepth
    ensures ValidKeys(m)
    ensures k in keys ==> m == keys
    decreases |k.path|
  {
    if k in keys || k.path == [] then keys
    else
      var m0 := CreateKeys(keys, Up(k));
      if Up(k) in m0 && k !in m0 then
        AddKeyValid(m0, k);
        AddKey(m0, k)
      else m0
  }

  /** What CreateKeyEx changes: existing keys keep their values, every new
      key is an ancestor of k (or k) without values, and k exists afterwards
      whenever its hive does. */
  lemma CreateKeysEffect(keys: Keys, k: KeyId)
    requires ValidKeys(keys) && |k.path| <= MaxDepth
    ensures forall x :: x in keys ==> x in CreateKeys(keys, k) && CreateKeys(keys, k)[x].values == keys[x].values
    ensures forall x :: x in CreateKeys(keys, k) && x !in keys ==>
      x.hive == k.hive && x.path != [] && |x.path| <= |k.path| && x.path == k.path[..|x.path|]
    ensures forall x :: x in CreateKeys(keys, k) && x !in keys ==> CreateKeys(keys, k)[x].values == map[]
    ensures KeyId(k.hive, []) in keys ==> k in CreateKeys(keys, k)
    ensures SameRoots(keys, CreateKeys(keys, k))
  {
    CreateKeysKeeps(keys, k);
    CreateKeysNew(keys, k);
    CreateKeysReaches(keys, k);
  }

  /** x is k or one of its ancestors, in the same hive. */
  predicate Above(x: KeyId, k: KeyId) {
    x.hive == k.hive && x.path <= k.path
  }

  /** The store after the missing keys up to k were created: every key that
      existed is still there with its values and with its subkey list
      extended at the end only, and every new key is k or a named ancestor
      of k, without values. */
  ghost predicate Grew(before: Keys, after: Keys, k: KeyId) {
    && (forall x :: x in before ==> x in after && after[x].values == before[x].values)
    && (forall x :: x in before ==> before[x].subkeys <= after[x].subkeys)
    && (forall x :: x in after && x !in before ==>
          x.path != [] && Above(x, k) && after[x].values == map[])
  }

  /** CreateKeyEx on k grows the store towards k. */
  lemma CreateKeysGrew(keys: Keys, k: KeyId)
    requires ValidKeys(keys) && |k.path| <= MaxDepth
    ensures Grew(keys, CreateKeys(keys, k), k)
  {
    var m := CreateKeys(keys, k);
    CreateKeysKeeps(keys, k);
    CreateKeysNew(keys, k);
    forall x | x in m && x !in keys
      ensures Above(x, k)
    {
      assert x.path == k.path[..|x.path|];
    }
  }

  /** Growing towards an ancestor and then towards k is growing towards k. */
  lemma GrewTrans(a: Keys, b: Keys, c: Keys, k1: KeyId, k2: KeyId)
    requires Grew(a, b, k1) && Grew(b, c, k2) && Above(k1, k2)
    ensures Grew(a, c, k2)
  {
    forall x | x in c && x !in a
      ensures x.path != [] && Above(x, k2) && c[x].values == map[]
    {
      if x in b {
        AboveTrans(x, k1, k2);
      }
    }
    forall x | x in a
      ensures a[x].subkeys <= c[x].subkeys
    {
      PrefixTrans(a[x].subkeys, b[x].subkeys, c[x].subkeys);
    }
  }

  /** Growing towards an ancestor of k is growing towards k. */
  lemma GrewWiden(a: Keys, b: Keys, k1: KeyId, k2: KeyId)
    requires Grew(a, b, k1) && Above(k1, k2)
    ensures Grew(a, b, k2)
  {
    forall x | x in b && x !in a
      ensures Above(x, k2)
    {
      AboveTrans(x, k1, k2);
    }
  }

  lemma AboveTrans(x: KeyId, y: KeyId, z: KeyId)
    requires Above(x, y) && Above(y, z)
    ensures Above(x, z)
  {
    assert x.path == y.path[..|x.path|] == z.path[..|y.path|][..|x.path|];
  }

  lemma {:induction false} CreateKeysKeeps(keys: Keys, k: KeyId)
    requires ValidKeys(keys) && |k.path| <= MaxDepth
    ensures forall x :: x in keys ==> x in CreateKeys(keys, k) && CreateKeys(keys, k)[x].values == keys[x].values
    ensures forall x :: x in keys ==> keys[x].subkeys <= CreateKeys(keys, k)[x].subkeys
    decreases |k.path|
  {
    if k !in keys && k.path != [] {
      var m0 := CreateKeys(keys, Up(k));
      CreateKeysKeeps(keys, Up(k));
      var m := CreateKeys(keys, k);
      forall x | x in keys
        ensures keys[x].subkeys <= m[x].subkeys
      {
        PrefixTrans(keys[x].subkeys, m0[x].subkeys, m[x].subkeys);
      }
    }
  }

  lemma PrefixTrans(a: seq<string>, b: seq<string>, c: seq<string>)
    requires a <= b && b <= c
    ensures a <= c
  {
    assert a == b[..|a|] == c[..|b|][..|a|];
  }

  lemma {:induction false} CreateKeysNew(keys: Keys, k: KeyId)
    requires ValidKeys(keys) && |k.path| <= MaxDepth
    ensures forall x :: x in CreateKeys(keys, k) && x !in keys ==>
      x.hive == k.hive && x.path != [] && |x.path| <= |k.path| && x.path == k.path[..|x.path|]
      && CreateKeys(keys, k)[x].values == map[]
    decreases |k.path|
  {
    if k !in keys && k.path != [] {
      var u := Up(k);
      var m0 := CreateKeys(keys, u);
      CreateKeysNew(keys, u);
      var m := CreateKeys(keys, k);
      forall x | x in m && x !in keys
        ensures x.hive == k.hive && x.path != [] && |x.path| <= |k.path| && x.path == k.path[..|x.path|]
        ensures m[x].values == map[]
      {
        if x != k {
          assert x in m0 && m[x].values == m0[x].values;
          assert k.path[..|k.path| - 1][..|x.path|] == k.path[..|x.path|];
        }
      }
    }
  }

  lemma {:induction false} CreateKeysReaches(keys: Keys, k: KeyId)
    requires ValidKeys(keys) && |k.path| <= MaxDepth
    ensures KeyId(k.hive, []) in keys ==> k in CreateKeys(keys, k)
    decreases |k.path|
  {
    if k !in keys && k.path != [] && KeyId(k.hive, []) in keys {
      var u := Up(k);
      CreateKeysReaches(keys, u);
      CreateKeysNew(keys, u);
      assert k !in CreateKeys(keys, u);
    }
  }

  /** DeleteKey on a key without subkeys: it goes, and its parent stops
      listing it. */
  function RemoveKey(keys: Keys, k: KeyId): Keys
    requires k.path != [] && Up(k) in keys
  {
    var p := Up(k);
    (keys - {k})[p := keys[p].(subkeys := Without(keys[p].subkeys, Last(k)))]
  }

  lemma RemoveKeyValid(keys: Keys, k: KeyId)
    requires ValidKeys(keys) && k in keys && k.path != [] && keys[k].subkeys == []
    ensures ValidKeys(RemoveKey(keys, k))
    ensures SameRoots(keys, RemoveKey(keys, k))
  {
    RemoveKeyParents(keys, k);
    RemoveKeyChildren(keys, k);
  }

  lemma RemoveKeyParents(keys: Keys, k: KeyId)
    requires ValidKeys(keys) && k in keys && k.path != [] && keys[k].subkeys == []
    ensures ParentsList(RemoveKey(keys, k))
  {
    var p := Up(k);
    var m := RemoveKey(keys, k);
    forall x | x in m && x.path != []
      ensures Up(x) in m && Last(x) in m[Up(x)].subkeys
    {
      assert x != k && x in keys;
      if Up(x) == p && Last(x) == Last(k) {
        DownUp(x);
        DownUp(k);
      }
    }
  }

  lemma RemoveKeyChildren(keys: Keys, k: KeyId)
    requires ValidKeys(keys) && k in keys && k.path != [] && keys[k].subkeys == []
    ensures ChildrenPresent(RemoveKey(keys, k))
  {
    var m := RemoveKey(keys, k);
    forall x, n | x in m && n in m[x].subkeys
      ensures Down(x, n) in m
    {
      assert x in keys && n in keys[x].subkeys;
      UpDown(x, n);
    }
  }

  /** DeleteKey through a handle: a deleted key reports KeyDeleted; a root
      key and a key with subkeys cannot be deleted. */
  function DeleteKeyOp(keys: Keys, k: KeyId): (r: Result<Keys>)
    requires ValidKeys(keys)
    ensures r.Ok? <==> k in keys && k.path != [] && keys[k].subkeys == []
    ensures r.Ok? ==> ValidKeys(r.value) && r.value.Keys == keys.Keys - {k}
    ensures r.Ok? ==> SameRoots(keys, r.value)
    ensures r.Ok? ==>
      && k.path != [] && Up(k) in r.value
      && r.value[Up(k)].subkeys == Without(keys[Up(k)].subkeys, Last(k))
      && r.value[Up(k)].values == keys[Up(k)].values
    ensures r.Ok? ==> forall x :: x in r.value && x != Up(k) ==> r.value[x] == keys[x]
    ensures r.Err? ==> r.error == (if k in keys then AccessDenied else KeyDeleted)
  {
    if k !in keys then Err(KeyDeleted)
    else if k.path == [] || keys[k].subkeys != [] then Err(AccessDenied)
    else
      RemoveKeyValid(keys, k);
      Ok(RemoveKey(keys, k))
  }

  /** QueryValueEx through a handle. */
  function QueryValueOp(keys: Keys, k: KeyId, name: string): (r: Result<Stored>)
    ensures r.Ok? <==> k in keys && name in keys[k].values
    ensures r.Ok? ==> r.value == keys[k].values[name]
    ensures r.Err? ==> r.error == (if k in keys then FileNotFound else KeyDeleted)
  {
    if k !in keys then Err(KeyDeleted)
    else if name !in keys[k].values then Err(FileNotFound)
    else Ok(keys[k].values[name])
  }

  /** SetValueEx through a handle: the value is added or replaced. */
  function SetValueOp(keys: Keys, k: KeyId, name: string, st: Stored): (r: Result<Keys>)
    requires ValidKeys(keys)
    ensures r.Ok? <==> k in keys
    ensures r.Ok? ==> ValidKeys(r.value) && r.value.Keys == keys.Keys && SameRoots(keys, r.value)
    ensures r.Ok? ==> r.value[k].values == keys[k].values[name := st]
    ensures r.Ok? ==> r.value[k].subkeys == keys[k].subkeys
    ensures r.Ok? ==> forall x :: x in keys && x != k ==> r.value[x] == keys[x]
    ensures r.Err? ==> r.error == KeyDeleted
  {
    if k !in keys then Err(KeyDeleted)
    else Ok(keys[k := keys[k].(values := keys[k].values[name := st])])
  }

  /** DeleteValue through a handle. */
  function DeleteValueOp(keys: Keys, k: KeyId, name: string): (r: Result<Keys>)
    requires ValidKeys(keys)
    ensures r.Ok? <==> k in keys && name in keys[k].values
    ensures r.Ok? ==> ValidKeys(r.value) && r.value.Keys == keys.Keys && SameRoots(keys, r.value)
    ensures r.Ok? ==> r.value[k].values == keys[k].values - {name} && name !in r.value[k].values
    ensures r.Ok? ==> r.value[k].subkeys == keys[k].subkeys
    ensures r.Ok? ==> forall x :: x in keys && x != k ==> r.value[x] == keys[x]
    ensures r.Err? ==> r.error == (if k in keys then FileNotFound else KeyDeleted)
  {
    if k !in keys then Err(KeyDeleted)
    else if name !in keys[k].values then Err(FileNotFound)
    else Ok(keys[k := keys[k].(values := keys[k].values - {name})])
  }

  // ---------------------------------------------------------------------
  // rmtree as written: enumeration by increasing index while deleting
  // ---------------------------------------------------------------------

  /** rmtree as written: iterdir asks QueryInfoKey for the count n once,
      then EnumKey(i) for i = 0 .. n-1 while each child is deleted, so the
      indices shift under it; then rmdir deletes the key. */
  function RmtreeAsWritten(keys: Keys, k: KeyId): (r: Outcome)
    requires ValidKeys(keys)
    ensures ValidKeys(r.keys)
    decreases MaxDepth - |k.path|, 1
  {
    if k !in keys then Failed(keys, FileNotFound)
    else
      match EnumDeleteAsWritten(keys, k, 0, |keys[k].subkeys|)
      case Failed(m, e) => Failed(m, e)
      case Done(m) =>
        match DeleteKeyOp(m, k)
        case Ok(m2) => Done(m2)
        case Err(e) => Failed(m, e)
  }

  /** The loop of rmtree as written, from index i to the count n. */
  function EnumDeleteAsWritten(keys: Keys, k: KeyId, i: nat, n: nat): (r: Outcome)
    requires ValidKeys(keys)
    ensures ValidKeys(r.keys)
    decreases MaxDepth - |k.path|, 0, n - i
  {
    if i >= n then Done(keys)
    else if k !in keys then Failed(keys, KeyDeleted)
    else if i >= |keys[k].subkeys| then Failed(keys, NoMoreItems)
    else
      var c := Down(k, keys[k].subkeys[i]);
      assert c in keys;
      match RmtreeAsWritten(keys, c)
      case Failed(m, e) => Failed(m, e)
      case Done(m) => EnumDeleteAsWritten(m, k, i + 1, n)
  }

  /** The counterexample: a key with two subkeys that have none of their
      own. Deleting the first shifts the second to index 0, the loop asks
      for index 1 and EnumKey fails with NoMoreItems, leaving the second
      subkey and the key itself in place. */
  lemma RmtreeAsWrittenStopsEarly(keys: Keys, k: KeyId, a: string, b: string)
    requires ValidKeys(keys) && k in keys && keys[k].subkeys == [a, b]
    requires Down(k, a) in keys && keys[Down(k, a)].subkeys == []
    requires Down(k, b) in keys && keys[Down(k, b)].subkeys == []
    ensures RmtreeAsWritten(keys, k) == Failed(RemoveKey(keys, Down(k, a)), NoMoreItems)
    ensures Down(k, a) !in RmtreeAsWritten(keys, k).keys
    ensures Down(k, b) in RmtreeAsWritten(keys, k).keys && k in RmtreeAsWritten(keys, k).keys
  {
    var ca := Down(k, a);
    UpDown(k, a);
    assert a != b by {
      assert keys[k].subkeys[0] == a && keys[k].subkeys[1] == b;
    }
    assert RmtreeAsWritten(keys, ca) == Done(RemoveKey(keys, ca)) by {
      assert EnumDeleteAsWritten(keys, ca, 0, 0) == Done(keys);
    }
    var m := RemoveKey(keys, ca);
    assert m[k].subkeys == [b];
    assert EnumDeleteAsWritten(m, k, 1, 2) == Failed(m, NoMoreItems);
    assert EnumDeleteAsWritten(keys, k, 0, 2) == Failed(m, NoMoreItems);
  }

  // ---------------------------------------------------------------------
  // rmtree as intended
  // ---------------------------------------------------------------------

  /** The keys strictly below k whose first name below k is in done. */
  ghost function Removed(keys: Keys, k: KeyId, done: seq<string>): set<KeyId> {
    set x | x in keys && Below(k, x) && |x.path| > |k.path| && x.path[|k.path|] in done
  }

  /** The whole subtree of k goes, and k's parent stops listing k. */
  ghost function Prune(keys: Keys, k: KeyId): Keys
    requires k.path != [] && Up(k) in keys
  {
    var p := Up(k);
    (keys - Subtree(keys, k))[p := keys[p].(subkeys := Without(keys[p].subkeys, Last(k)))]
  }

  lemma BelowUp(k: KeyId, c: KeyId)
    requires Below(k, c) && c != k
    ensures c.path != [] && Below(k, Up(c))
  {
    assert |c.path| > |k.path|;
    assert Up(c).path[..|k.path|] == c.path[..|k.path|];
  }

  lemma UpNotBelow(k: KeyId)
    requires k.path != []
    ensures !Below(k, Up(k))
  {
  }

  /** Pruning keeps the tree shape and the roots, removes exactly the
      subtree and changes no other key except the parent's list. */
  lemma PruneValid(keys: Keys, k: KeyId)
    requires ValidKeys(keys) && k in keys && k.path != []
    ensures Up(k) in Prune(keys, k)
    ensures ValidKeys(Prune(keys, k)) && SameRoots(keys, Prune(keys, k))
    ensures Prune(keys, k).Keys == keys.Keys - Subtree(keys, k)
    ensures forall x :: x in Prune(keys, k) && x != Up(k) ==> Prune(keys, k)[x] == keys[x]
  {
    UpNotBelow(k);
    PruneParents(keys, k);
    PruneChildren(keys, k);
  }

  lemma PruneParents(keys: Keys, k: KeyId)
    requires ValidKeys(keys) && k in keys && k.path != []
    ensures ParentsList(Prune(keys, k))
  {
    var p := Up(k);
    var m := Prune(keys, k);
    UpNotBelow(k);
    forall x | x in m && x.path != []
      ensures Up(x) in m && Last(x) in m[Up(x)].subkeys
    {
      assert x in keys && !Below(k, x);
      assert Up(x) in keys;
      if Up(x) == p && Last(x) == Last(k) {
        DownUp(x);
        DownUp(k);
      }
    }
  }

  lemma PruneChildren(keys: Keys, k: KeyId)
    requires ValidKeys(keys) && k in keys && k.path != []
    ensures ChildrenPresent(Prune(keys, k))
  {
    var p := Up(k);
    var m := Prune(keys, k);
    UpNotBelow(k);
    DownUp(k);
    forall x, n | x in m && n in m[x].subkeys
      ensures Down(x, n) in m
    {
      assert x in keys && n in keys[x].subkeys;
      var c := Down(x, n);
      UpDown(x, n);
      if Below(k, c) && c != k {
        BelowUp(k, c);
      }
    }
  }

  /** Removing the subtree of one more child adds that child's subtree to
      the removed set. */
  lemma RemovedStep(keys: Keys, k: KeyId, names: seq<string>, j: nat)
    requires j < |names|
    ensures Removed(keys, k, names[..j + 1]) ==
      Removed(keys, k, names[..j]) + Subtree(keys, Down(k, names[j]))
  {
    assert names[..j + 1] == names[..j] + [names[j]];
    forall x | x in keys
      ensures Below(Down(k, names[j]), x) <==>
        (Below(k, x) && |x.path| > |k.path| && x.path[|k.path|] == names[j])
    {
      BelowDown(k, names[j], x);
    }
  }

  /** Every key strictly below k is removed once all of k's subkeys are done. */
  lemma RemovedAll(keys: Keys, k: KeyId)
    requires ValidKeys(keys) && k in keys
    ensures Removed(keys, k, keys[k].subkeys) == Subtree(keys, k) - {k}
  {
    forall x | x in Subtree(keys, k) - {k}
      ensures x in Removed(keys, k, keys[k].subkeys)
    {
      DescendsThroughSubkey(keys, k, x);
    }
  }

  /** The subtree of one subkey avoids the subtrees of the others. */
  lemma SubtreesApart(keys: Keys, k: KeyId, names: seq<string>, j: nat)
    requires NoDups(names) && j < |names|
    ensures Subtree(keys, Down(k, names[j])) !! Removed(keys, k, names[..j])
  {
    forall x | x in Subtree(keys, Down(k, names[j]))
      ensures x !in Removed(keys, k, names[..j])
    {
      BelowDown(k, names[j], x);
    }
  }

  /** The store while the corrected rmtree works through k's subkeys
      names: the subtrees of the first j are gone and k lists the rest. */
  ghost function Stage(keys: Keys, k: KeyId, j: nat): Keys
    requires k in keys && j <= |keys[k].subkeys|
  {
    var names := keys[k].subkeys;
    (keys - Removed(keys, k, names[..j]))[k := keys[k].(subkeys := names[j..])]
  }

  lemma StageStart(keys: Keys, k: KeyId)
    requires k in keys
    ensures Stage(keys, k, 0) == keys
  {
    assert Removed(keys, k, keys[k].subkeys[..0]) == {};
    assert keys[k].subkeys[0..] == keys[k].subkeys;
  }

  /** One step of the corrected rmtree: the next subkey is still there, its
      parent is k, and pruning it gives the next stage. */
  lemma StageStep(keys: Keys, k: KeyId, j: nat)
    requires ValidKeys(keys) && k in keys && j < |keys[k].subkeys|
    ensures var c := Down(k, keys[k].subkeys[j]);
      && c in Stage(keys, k, j) && c.path != [] && Up(c) == k
      && Prune(Stage(keys, k, j), c) == Stage(keys, k, j + 1)
  {
    var names := keys[k].subkeys;
    var n := names[j];
    var c := Down(k, n);
    var m := Stage(keys, k, j);
    UpDown(k, n);
    BelowDown(k, n, c);
    SubtreesApart(keys, k, names, j);
    RemovedStep(keys, k, names, j);
    assert c in keys;
    assert Subtree(m, c) == Subtree(keys, c);
    assert NoDups(names[j..]);
    assert Without(names[j..], n) == names[j + 1..];
    var a := Prune(m, c);
    var b := Stage(keys, k, j + 1);
    assert a.Keys == b.Keys;
    forall x | x in a
      ensures a[x] == b[x]
    {
      if x != k {
        assert a[x] == keys[x];
      }
    }
  }

  /** After the last subkey: everything strictly below k is gone, k is
      kept with no subkeys and its values. */
  lemma StageEnd(keys: Keys, k: KeyId)
    requires ValidKeys(keys) && k in keys
    ensures var m := Stage(keys, k, |keys[k].subkeys|);
      && m.Keys == keys.Keys - (Subtree(keys, k) - {k})
      && k in m && m[k].subkeys == [] && m[k].values == keys[k].values
      && forall x :: x in m && x != k ==> m[x] == keys[x]
  {
    RemovedAll(keys, k);
    assert keys[k].subkeys[..|keys[k].subkeys|] == keys[k].subkeys;
  }

  /** Deleting k at the end of the corrected rmtree prunes k's subtree. */
  lemma StageFinish(keys: Keys, k: KeyId)
    requires ValidKeys(keys) && k in keys && k.path != []
    ensures var m := Stage(keys, k, |keys[k].subkeys|);
      && Up(k) in m && RemoveKey(m, k) == Prune(keys, k)
  {
    var m := Stage(keys, k, |keys[k].subkeys|);
    StageEnd(keys, k);
    UpNotBelow(k);
    assert Up(k) in keys;
    var a := RemoveKey(m, k);
    var b := Prune(keys, k);
    assert a.Keys == b.Keys;
  }

  // ---------------------------------------------------------------------
  // The registry as an object
  // ---------------------------------------------------------------------

  /** The registry seen through winreg: the key tree, the number of handles
      handed out and the number of remote connections made. */
  class Registry {
    var keys: Keys
    var issued: nat
    var connects: nat

    ghost predicate Valid()
      reads this
    {
      ValidKeys(keys) && HasLocalRoots(keys)
    }

    constructor (initial: Keys)
      requires ValidKeys(initial) && HasLocalRoots(initial)
      ensures Valid() && keys == initial && issued == 0 && connects == 0
    {
      keys := initial;
      issued := 0;
      connects := 0;
    }

    /** ConnectRegistry(computer, root). */
    method Connect(computer: string, root: RootKey) returns (r: Result<Hive>)
      modifies this`connects
      ensures connects == old(connects) + 1
      ensures r == Reach(keys, Hive(Remote(computer), root))
    {
      connects := connects + 1;
      r := Reach(keys, Hive(Remote(computer), root));
    }

    /** OpenKeyEx(root, path, 0, access): fails with FileNotFound when the
        key is absent. */
    method OpenKeyEx(k: KeyId, access: bv32) returns (r: Result<Handle>)
      modifies this`issued
      ensures r.Ok? <==> k in keys
      ensures r.Ok? ==> r.value == Handle(old(issued), k, access) && issued == old(issued) + 1
      ensures r.Err? ==> r.error == FileNotFound && issued == old(issued)
    {
      if k in keys {
        r := Ok(Handle(issued, k, access));
        issued := issued + 1;
      } else {
        r := Err(FileNotFound);
      }
    }

    /** CreateKeyEx(root, path, 0, access): opens the key, creating it and
        its missing ancestors. */
    method CreateKeyEx(k: KeyId, access: bv32) returns (r: Result<Handle>)
      requires Valid() && KeyId(k.hive, []) in keys
      modifies this`keys, this`issued
      ensures Valid() && SameRoots(old(keys), keys) && old(keys).Keys <= keys.Keys
      ensures r.Ok? <==> |k.path| <= MaxDepth
      ensures r.Ok? ==> keys == CreateKeys(old(keys), k) && k in keys
      ensures r.Ok? ==> r.value == Handle(old(issued), k, access) && issued == old(issued) + 1
      ensures r.Err? ==> r.error == BadKey && keys == old(keys) && issued == old(issued)
    {
      if |k.path| <= MaxDepth {
        CreateKeysEffect(keys, k);
        keys := CreateKeys(keys, k);
        r := Ok(Handle(issued, k, access));
        issued := issued + 1;
      } else {
        r := Err(BadKey);
      }
    }

    /** QueryInfoKey(handle): the numbers of subkeys and of values. */
    method QueryInfoKey(h: Handle) returns (r: Result<(nat, nat)>)
      ensures r.Ok? <==> h.key in keys
      ensures r.Ok? ==> r.value == (|keys[h.key].subkeys|, |keys[h.key].values|)
      ensures r.Err? ==> r.error == KeyDeleted
    {
      if h.key in keys {
        r := Ok((|keys[h.key].subkeys|, |keys[h.key].values|));
      } else {
        r := Err(KeyDeleted);
      }
    }

    /** EnumKey(handle, i): the i-th subkey name. */
    method EnumKey(h: Handle, i: nat) returns (r: Result<string>)
      ensures r.Ok? <==> h.key in keys && i < |keys[h.key].subkeys|
      ensures r.Ok? ==> r.value == keys[h.key].subkeys[i]
      ensures r.Err? ==> r.error == (if h.key in keys then NoMoreItems else KeyDeleted)
    {
      if h.key !in keys {
        r := Err(KeyDeleted);
      } else if i < |keys[h.key].subkeys| {
        r := Ok(keys[h.key].subkeys[i]);
      } else {
        r := Err(NoMoreItems);
      }
    }

    /** DeleteKey(handle, ''). */
    method DeleteKey(h: Handle) returns (r: Result<()>)
      requires Valid()
      modifies this`keys
      ensures Valid() && SameRoots(old(keys), keys)
      ensures r.Ok? <==> DeleteKeyOp(old(keys), h.key).Ok?
      ensures r.Ok? ==> keys == DeleteKeyOp(old(keys), h.key).value
      ensures r.Err? ==> r.error == DeleteKeyOp(old(keys), h.key).error && keys == old(keys)
    {
      var d := DeleteKeyOp(keys, h.key);
      if d.Ok? {
        keys := d.value;
        r := Ok(());
      } else {
        r := Err(d.error);
      }
    }

    /** QueryValueEx(handle, name). */
    method QueryValueEx(h: Handle, name: string) returns (r: Result<Stored>)
      ensures r == QueryValueOp(keys, h.key, name)
    {
      r := QueryValueOp(keys, h.key, name);
    }

    /** SetValueEx(handle, name, 0, type, value) after conversion. */
    method SetValueEx(h: Handle, name: string, st: Stored) returns (r: Result<()>)
      requires Valid()
      modifies this`keys
      ensures Valid() && SameRoots(old(keys), keys)
      ensures r.Ok? <==> h.key in old(keys)
      ensures r.Ok? ==> keys == SetValueOp(old(keys), h.key, name, st).value
      ensures r.Err? ==> r.error == KeyDeleted && keys == old(keys)
    {
      var s := SetValueOp(keys, h.key, name, st);
      if s.Ok? {
        keys := s.value;
        r := Ok(());
      } else {
        r := Err(s.error);
      }
    }

    /** DeleteValue(handle, name). */
    method DeleteValue(h: Handle, name: string) returns (r: Result<()>)
      requires Valid()
      modifies this`keys
      ensures Valid() && SameRoots(old(keys), keys)
      ensures r.Ok? <==> DeleteValueOp(old(keys), h.key, name).Ok?
      ensures r.Ok? ==> keys == DeleteValueOp(old(keys), h.key, name).value
      ensures r.Err? ==> r.error == DeleteValueOp(old(keys), h.key, name).error && keys == old(keys)
    {
      var d := DeleteValueOp(keys, h.key, name);
      if d.Ok? {
        keys := d.value;
        r := Ok(());
      } else {
        r := Err(d.error);
      }
    }
  }
}
