/** class RegistryPath (regpath.py): a parsed registry path with a lazily
    resolved root, a cached key handle and the access it was opened with,
    and the path and mapping operations built on them. The registry itself
    is the Registry object of module Store. */
module RegPath {
  import opened Flavour
  import opened Values
  import opened Store

  datatype Option<T> = None | Some(value: T)

  /** winreg's access masks. */
  const KeySetValue: bv32 := 0x2
  const KeyCreateSubKey: bv32 := 0x4
  const StandardRightsRead: bv32 := 0x2_0000
  const KeyRead: bv32 := 0x2_0019
  const KeyWrite: bv32 := 0x2_0006
  const KeyAllAccess: bv32 := 0xF_003F

  /** open's reuse test: every requested access bit is already held. */
  predicate Covers(held: bv32, access: bv32) {
    access & held == access
  }

  /** open's choice of CreateKeyEx over OpenKeyEx. */
  predicate WriteClass(access: bv32) {
    access & (KeySetValue | KeyCreateSubKey) != 0
  }

  /** The key path handed to winreg: every part after the anchor. */
  function KeyPath(p: Parsed): seq<string> {
    Tail(p.parts)
  }

  /** The root a drive names, before any connection is made. */
  datatype Target = LocalRoot(root: RootKey) | RemoteRoot(computer: string, root: RootKey) | UnknownRoot

  /** The lookup of root_key: a remote drive \\computer\KEY is split at its
      last separator and KEY is looked up in rootkey_map; any other drive is
      looked up in rootkey_map itself. */
  function Resolve(drv: string): (t: Target)
    ensures t.LocalRoot? <==> !StartsUnc(drv) && IsRootName(drv)
    ensures t.LocalRoot? ==> t.root == RootKeyMap[Upper(drv)]
    ensures !t.UnknownRoot? ==> drv != ""
  {
    if StartsUnc(drv) then
      var i := LastIndexOf(drv, Sep);
      var name := drv[i + 1..];
      if IsRootName(name) then RemoteRoot(drv[..i], RootKeyMap[Upper(name)]) else UnknownRoot
    else if IsRootName(drv) then LocalRoot(RootKeyMap[Upper(drv)])
    else UnknownRoot
  }

  /** root_key: an unknown root name is a KeyError, a remote root needs its
      computer to be reachable. */
  function RootKeyOf(drv: string, keys: Keys): (r: Result<Hive>)
    ensures r.Ok? ==> drv != ""
    ensures r.Err? ==> r.error == KeyError || r.error == NetworkPath
    ensures r == Err(KeyError) <==> Resolve(drv).UnknownRoot?
  {
    match Resolve(drv)
    case UnknownRoot => Err(KeyError)
    case LocalRoot(root) => Ok(Hive(Local, root))
    case RemoteRoot(computer, root) => Reach(keys, Hive(Remote(computer), root))
  }

  lemma LastIndexOfSplit(a: string, c: char, b: string)
    requires c !in b
    ensures LastIndexOf(a + [c] + b, c) == |a|
  {
    assert (a + [c] + b)[|a|] == c;
  }

  /** A remote drive resolves on the computer before its last separator
      (backslashes included) to the root its last name denotes, provided
      the computer is reachable; an unknown name is a KeyError. */
  lemma RootKeyOfRemote(computer: string, key: string, keys: Keys)
    requires Sep !in key
    ensures var drv := [Sep, Sep] + computer + [Sep] + key;
      && Resolve(drv) == (if IsRootName(key) then RemoteRoot([Sep, Sep] + computer, RootKeyMap[Upper(key)])
                          else UnknownRoot)
      && RootKeyOf(drv, keys) ==
           if IsRootName(key)
           then Reach(keys, Hive(Remote([Sep, Sep] + computer), RootKeyMap[Upper(key)]))
           else Err(KeyError)
  {
    var drv := [Sep, Sep] + computer + [Sep] + key;
    LastIndexOfSplit([Sep, Sep] + computer, Sep, key);
    assert drv[..|computer| + 2] == [Sep, Sep] + computer;
    assert drv[|computer| + 3..] == key;
  }

  /** A drive that is a root name, in any letter case, resolves to the
      local root rootkey_map gives for it, with no connection. */
  lemma RootKeyOfLocal(r: string, keys: Keys)
    requires IsRootName(r)
    ensures Resolve(r) == LocalRoot(RootKeyMap[Upper(r)])
    ensures RootKeyOf(r, keys) == Ok(Hive(Local, RootKeyMap[Upper(r)]))
  {
    RootNameShape(r);
    assert !StartsUnc(r);
  }

  /** The resolution depends on the store only through its roots. */
  lemma RootKeyOfSameRoots(drv: string, a: Keys, b: Keys)
    requires SameRoots(a, b)
    ensures RootKeyOf(drv, a) == RootKeyOf(drv, b)
  {
    var t := Resolve(drv);
    if t.RemoteRoot? {
      assert KeyId(Hive(Remote(t.computer), t.root), []) in a
        <==> KeyId(Hive(Remote(t.computer), t.root), []) in b;
    }
  }

  /** A resolvable root is present in the store. */
  lemma RootKeyPresent(drv: string, keys: Keys)
    requires HasLocalRoots(keys) && RootKeyOf(drv, keys).Ok?
    ensures KeyId(RootKeyOf(drv, keys).value, []) in keys
  {
  }

  /** The key a reopening open reaches, or the error it raises: the root
      first, then CreateKeyEx for write-class access (which fails only on a
      key too deep) or OpenKeyEx otherwise (which fails on an absent key). */
  function OpenTarget(drv: string, path: seq<string>, keys: Keys, access: bv32): (r: Result<KeyId>)
    ensures r.Ok? ==> RootKeyOf(drv, keys).Ok? && r.value == KeyId(RootKeyOf(drv, keys).value, path)
    ensures r.Ok? && !WriteClass(access) ==> r.value in keys
    ensures WriteClass(access) && RootKeyOf(drv, keys).Ok? && |path| <= MaxDepth ==> r.Ok?
    ensures r.Ok? && WriteClass(access) ==> |path| <= MaxDepth
    ensures RootKeyOf(drv, keys).Err? ==> r == Err(RootKeyOf(drv, keys).error)
  {
    match RootKeyOf(drv, keys)
    case Err(e) => Err(e)
    case Ok(h) =>
      var k := KeyId(h, path);
      if WriteClass(access) then
        if |path| <= MaxDepth then Ok(k) else Err(BadKey)
      else if k in keys then Ok(k) else Err(FileNotFound)
  }

  /** The parent of a path with a drive keeps the drive, and its key path
      is a prefix of the path's own: mkdir's parent key is an ancestor of
      its key, or the key itself for a bare root. */
  lemma KeyPathOfParent(p: Parsed)
    requires WellFormed(p) && p.drv != ""
    ensures Parent(p).drv == p.drv
    ensures KeyPath(Parent(p)) <= KeyPath(p)
  {
    if Names(p) != [] {
      ParentDropsLastName(p);
    }
  }

  /** The masks open is called with: KEY_READ is not write-class and
      KEY_WRITE is, neither covers the other, KEY_ALL_ACCESS covers both. */
  lemma AccessMasks()
    ensures !WriteClass(KeyRead) && !WriteClass(StandardRightsRead) && WriteClass(KeyWrite)
    ensures !Covers(KeyWrite, KeyRead) && !Covers(KeyRead, KeyWrite)
    ensures Covers(KeyAllAccess, KeyRead) && Covers(KeyAllAccess, KeyWrite)
  {
  }

  /** What a reopening open leaves behind, from the store and the handle
      count before it: it succeeds exactly when OpenTarget does, with a new
      handle on that key carrying exactly the access; the key then exists,
      its missing ancestors created by CreateKeyEx for write-class access.
      A failure changes nothing. */
  ghost predicate Reopened(drv: string, path: seq<string>, keys0: Keys, issued0: nat,
                           access: bv32, r: Result<Handle>, keys: Keys)
  {
    var t := OpenTarget(drv, path, keys0, access);
    && ValidKeys(keys0)
    && (r.Ok? <==> t.Ok?)
    && (r.Ok? ==>
          && r.value == Handle(issued0, t.value, access)
          && r.value.key in keys
          && keys == (if WriteClass(access) then CreateKeys(keys0, t.value) else keys0))
    && (r.Err? ==> r.error == t.error && keys == keys0)
  }

  /** The store after an operation that creates keys towards the key at
      path under drv: unchanged when the root does not resolve, otherwise
      grown towards that key. */
  ghost predicate GrewTowards(drv: string, keys0: Keys, keys: Keys, path: seq<string>) {
    var rk := RootKeyOf(drv, keys0);
    && (rk.Err? ==> keys == keys0)
    && (rk.Ok? ==> Grew(keys0, keys, KeyId(rk.value, path)))
  }

  /** A reopening open grows the store towards the path's key, and leaves
      it alone when the root does not resolve. */
  lemma ReopenedGrew(drv: string, path: seq<string>, keys0: Keys, issued0: nat,
                     access: bv32, r: Result<Handle>, keys: Keys)
    requires Reopened(drv, path, keys0, issued0, access, r, keys)
    ensures GrewTowards(drv, keys0, keys, path)
  {
    var t := OpenTarget(drv, path, keys0, access);
    if r.Ok? && WriteClass(access) {
      CreateKeysGrew(keys0, t.value);
    }
  }

  /** Growing towards the parent's key is growing towards the key. */
  lemma ParentGrewTowards(p: Parsed, keys0: Keys, keys1: Keys)
    requires WellFormed(p)
    requires GrewTowards(p.drv, keys0, keys1, KeyPath(Parent(p)))
    ensures GrewTowards(p.drv, keys0, keys1, KeyPath(p))
  {
    var rk := RootKeyOf(p.drv, keys0);
    if rk.Ok? {
      KeyPathOfParent(p);
      GrewWiden(keys0, keys1, KeyId(rk.value, KeyPath(Parent(p))), KeyId(rk.value, KeyPath(p)));
    }
  }

  /** mkdir with parents grows the store towards the parent's key and then
      towards the key itself; together that is growing towards the key. */
  lemma MkdirGrew(p: Parsed, keys0: Keys, keys1: Keys, keys2: Keys)
    requires WellFormed(p) && SameRoots(keys0, keys1)
    requires GrewTowards(p.drv, keys0, keys1, KeyPath(Parent(p)))
    requires GrewTowards(p.drv, keys1, keys2, KeyPath(p))
    ensures GrewTowards(p.drv, keys0, keys2, KeyPath(p))
  {
    ParentGrewTowards(p, keys0, keys1);
    RootKeyOfSameRoots(p.drv, keys0, keys1);
    var rk := RootKeyOf(p.drv, keys0);
    if rk.Ok? {
      var k := KeyId(rk.value, KeyPath(p));
      GrewTrans(keys0, keys1, keys2, k, k);
    }
  }

  /** The store after open(KEY_WRITE) on key k: as it was (the key existed,
      or a cached handle was reused, or the open failed), or with k and its
      missing ancestors created. */
  ghost predicate OpenedForWrite(keys0: Keys, keys: Keys, k: KeyId) {
    || keys == keys0
    || (ValidKeys(keys0) && |k.path| <= MaxDepth && keys == CreateKeys(keys0, k))
  }

  /** Writing through a handle on k after open(KEY_WRITE) succeeds only on a
      store where k exists, so the store written to is CreateKeys of the old
      one: the old store itself when k existed. */
  lemma WriteFromCreate(keys0: Keys, keys1: Keys, k: KeyId, name: string, st: Stored)
    requires ValidKeys(keys0) && ValidKeys(keys1)
    requires keys1 == keys0 || (|k.path| <= MaxDepth && keys1 == CreateKeys(keys0, k))
    requires SetValueOp(keys1, k, name, st).Ok?
    ensures |k.path| <= MaxDepth && CreateKeys(keys0, k) == keys1
  {
  }

  /** The store after a value was written under key k: k exists, its
      values are the old ones (none for a key just created) with name set to
      st, and every other key that existed keeps its values. */
  ghost predicate Wrote(before: Keys, after: Keys, k: KeyId, name: string, st: Stored) {
    && before.Keys <= after.Keys
    && k in after
    && after[k].values == (if k in before then before[k].values else map[])[name := st]
    && forall x :: x in before && x != k ==> after[x].values == before[x].values
  }

  /** Creating the missing keys up to k and then setting a value under k
      writes that value and nothing else. */
  lemma WroteAfterCreate(keys0: Keys, keys1: Keys, keys2: Keys, k: KeyId, name: string, st: Stored)
    requires ValidKeys(keys0)
    requires keys1 == keys0 || (|k.path| <= MaxDepth && keys1 == CreateKeys(keys0, k))
    requires ValidKeys(keys1) && SetValueOp(keys1, k, name, st).Ok?
    requires keys2 == SetValueOp(keys1, k, name, st).value
    ensures Wrote(keys0, keys2, k, name, st)
  {
    if keys1 != keys0 {
      CreateKeysEffect(keys0, k);
    }
  }

  class RegistryPath {
    const path: Parsed
    const store: Registry
    var rootKey: Option<Hive>
    var handle: Option<Handle>
    var handleAccess: bv32

    /** The cache invariant: a cached root is what the drive resolves to; no
        handle means no access; a handle was opened on this path's key with
        exactly handleAccess. */
    ghost predicate Valid()
      reads this, store
    {
      && store.Valid()
      && WellFormed(path)
      && (rootKey.Some? ==> RootKeyOf(path.drv, store.keys) == Ok(rootKey.value))
      && (handle.None? ==> handleAccess == 0)
      && (handle.Some? ==> rootKey.Some? && handle.value.access == handleAccess
                           && handle.value.key == KeyId(rootKey.value, KeyPath(path)))
    }

    /** RegistryPath(text): nothing resolved, nothing open. */
    constructor (text: string, registry: Registry)
      requires registry.Valid()
      ensures Valid() && path == Parse(text) && store == registry
      ensures rootKey.None? && handle.None? && handleAccess == 0
    {
      path := Parse(text);
      store := registry;
      rootKey := None;
      handle := None;
      handleAccess := 0;
    }

    /** A path built from parsed parts (parent, child). */
    constructor Derived(p: Parsed, registry: Registry)
      requires registry.Valid() && WellFormed(p)
      ensures Valid() && path == p && store == registry
      ensures rootKey.None? && handle.None? && handleAccess == 0
    {
      path := p;
      store := registry;
      rootKey := None;
      handle := None;
      handleAccess := 0;
    }

    /** root_key: resolved once and cached; a cached root is returned
        without connecting again. */
    method RootKey() returns (r: Result<Hive>)
      requires Valid()
      modifies this`rootKey, store`connects
      ensures Valid()
      ensures r == RootKeyOf(path.drv, store.keys)
      ensures rootKey == (if r.Ok? then Some(r.value) else None)
      ensures old(rootKey).Some? ==> store.connects == old(store.connects)
    {
      if rootKey.Some? {
        return Ok(rootKey.value);
      }
      match Resolve(path.drv)
      case UnknownRoot =>
        r := Err(KeyError);
      case LocalRoot(root) =>
        r := Ok(Hive(Local, root));
        rootKey := Some(r.value);
      case RemoteRoot(computer, root) =>
        r := store.Connect(computer, root);
        if r.Ok? {
          rootKey := Some(r.value);
        }
    }

    /** open(access): the cached handle is kept when it covers the access;
        otherwise the key is reopened and the handle and its access replaced. */
    method Open(access: bv32) returns (r: Result<Handle>)
      requires Valid()
      modifies this`rootKey, this`handle, this`handleAccess, store`keys, store`issued, store`connects
      ensures Valid() && SameRoots(old(store.keys), store.keys)
      ensures old(store.keys).Keys <= store.keys.Keys
      ensures old(handle).Some? && Covers(old(handleAccess), access) ==>
        && r == Ok(old(handle).value) && handle == old(handle) && handleAccess == old(handleAccess)
        && store.keys == old(store.keys) && store.issued == old(store.issued)
      ensures !(old(handle).Some? && Covers(old(handleAccess), access)) ==>
        Reopened(path.drv, KeyPath(path), old(store.keys), old(store.issued), access, r, store.keys)
      ensures !(old(handle).Some? && Covers(old(handleAccess), access)) && r.Err? ==>
        handle == old(handle) && handleAccess == old(handleAccess)
      ensures r.Ok? ==> handle == Some(r.value) && Covers(handleAccess, access)
    {
      if handle.Some? && Covers(handleAccess, access) {
        return Ok(handle.value);
      }
      r := Reopen(access);
    }

    /** The reopening branch of open: the root is resolved, then the key is
        opened by CreateKeyEx for write-class access and by OpenKeyEx
        otherwise; on success the handle and its access are replaced. */
    method Reopen(access: bv32) returns (r: Result<Handle>)
      requires Valid()
      modifies this`rootKey, this`handle, this`handleAccess, store`keys, store`issued, store`connects
      ensures Valid() && SameRoots(old(store.keys), store.keys)
      ensures old(store.keys).Keys <= store.keys.Keys
      ensures Reopened(path.drv, KeyPath(path), old(store.keys), old(store.issued), access, r, store.keys)
      ensures r.Ok? ==> handle == Some(r.value) && handleAccess == access
      ensures r.Err? ==> handle == old(handle) && handleAccess == old(handleAccess)
    {
      ghost var keys0 := store.keys;
      var hive := RootKey();
      if hive.Err? {
        return Err(hive.error);
      }
      var k := KeyId(hive.value, KeyPath(path));
      if WriteClass(access) {
        RootKeyPresent(path.drv, store.keys);
        r := store.CreateKeyEx(k, access);
      } else {
        r := store.OpenKeyEx(k, access);
      }
      RootKeyOfSameRoots(path.drv, keys0, store.keys);
      if r.Ok? {
        handle := Some(r.value);
        handleAccess := access;
      }
    }

    /** close: always leaves no handle and no access, whatever came before,
        so closing twice is closing once. */
    method Close()
      requires Valid()
      modifies this`handle, this`handleAccess
      ensures Valid() && handle.None? && handleAccess == 0
    {
      handle := None;
      handleAccess := 0;
    }

    /** exists: OpenKeyEx with STANDARD_RIGHTS_READ; an OSError (absent key,
        unreachable computer) means false, a KeyError propagates. */
    method Exists() returns (r: Result<bool>)
      requires Valid()
      modifies this`rootKey, store`issued, store`connects
      ensures Valid()
      ensures var rk := RootKeyOf(path.drv, store.keys);
        && (r.Err? <==> rk.Err? && rk.error == KeyError)
        && (r.Err? ==> r.error == KeyError)
        && (r.Ok? ==> (r.value <==> rk.Ok? && KeyId(rk.value, KeyPath(path)) in store.keys))
    {
      var hive := RootKey();
      if hive.Err? {
        if hive.error == KeyError {
          return Err(KeyError);
        }
        return Ok(false);
      }
      var h := store.OpenKeyEx(KeyId(hive.value, KeyPath(path)), StandardRightsRead);
      return Ok(h.Ok?);
    }

    /** The first step of mkdir with parents: when the parent does not
        exist it is made, with KEY_WRITE and parents. A bare root that does
        not exist is its own parent, and recursing on it never ends. */
    method MakeParent() returns (r: Result<()>)
      requires Valid()
      modifies this`rootKey, store`keys, store`issued, store`connects
      ensures Valid() && SameRoots(old(store.keys), store.keys)
      ensures old(store.keys).Keys <= store.keys.Keys
      ensures RootKeyOf(path.drv, old(store.keys)).Err? ==> r.Err?
      ensures (RootKeyOf(path.drv, old(store.keys)).Ok? && |KeyPath(path)| <= MaxDepth) ==> r.Ok?
      ensures GrewTowards(path.drv, old(store.keys), store.keys, KeyPath(Parent(path)))
      ensures var rk := RootKeyOf(path.drv, old(store.keys));
        r.Ok? ==> rk.Ok? && KeyId(rk.value, KeyPath(Parent(path))) in store.keys
      decreases |path.parts|, 0
    {
      ghost var keys0 := store.keys;
      var up := Parent(path);
      ParentShrinks(path);
      if up == path {
        var e := Exists();
        if e.Err? {
          return Err(e.error);
        }
        if !e.value {
          return Err(RecursionError);
        }
        return Ok(());
      }
      var probe := new RegistryPath.Derived(up, store);
      var e := probe.Exists();
      if e.Err? {
        return Err(e.error);
      }
      if !e.value {
        var maker := new RegistryPath.Derived(up, store);
        r := maker.Mkdir(KeyWrite, true);
        RootKeyOfSameRoots(path.drv, keys0, store.keys);
        if r.Err? {
          return r;
        }
      }
      return Ok(());
    }

    /** mkdir(access, parents): the parent first when asked, then the key is
        opened with the access, which creates it for write-class access. */
    method Mkdir(access: bv32, parents: bool) returns (r: Result<()>)
      requires Valid()
      modifies this`rootKey, this`handle, this`handleAccess, store`keys, store`issued, store`connects
      ensures Valid() && SameRoots(old(store.keys), store.keys)
      ensures old(store.keys).Keys <= store.keys.Keys
      ensures RootKeyOf(path.drv, old(store.keys)).Err? ==> r.Err?
      ensures r.Ok? ==> handle.Some? && Covers(handleAccess, access)
      ensures r.Ok? && !(old(handle).Some? && Covers(old(handleAccess), access)) ==>
        handle.value.key in store.keys
      ensures (WriteClass(access) && RootKeyOf(path.drv, old(store.keys)).Ok?
               && |KeyPath(path)| <= MaxDepth) ==> r.Ok?
      ensures GrewTowards(path.drv, old(store.keys), store.keys, KeyPath(path))
      decreases |path.parts|, 1
    {
      ghost var keys0 := store.keys;
      if parents {
        r := MakeParent();
        if r.Err? {
          ParentGrewTowards(path, keys0, store.keys);
          return r;
        }
      }
      ghost var keys1 := store.keys;
      RootKeyOfSameRoots(path.drv, keys0, keys1);
      r := OpenKey(access);
      RootKeyOfSameRoots(path.drv, keys0, store.keys);
      RootKeyOfSameRoots(path.drv, keys1, store.keys);
      if parents {
        MkdirGrew(path, keys0, keys1, store.keys);
      }
    }

    /** The last step of mkdir: the key is opened with the access; a
        write-class access creates it. */
    method OpenKey(access: bv32) returns (r: Result<()>)
      requires Valid()
      modifies this`rootKey, this`handle, this`handleAccess, store`keys, store`issued, store`connects
      ensures Valid() && SameRoots(old(store.keys), store.keys)
      ensures old(store.keys).Keys <= store.keys.Keys
      ensures RootKeyOf(path.drv, old(store.keys)).Err? ==> r.Err?
      ensures r.Ok? ==> handle.Some? && Covers(handleAccess, access)
      ensures r.Ok? && !(old(handle).Some? && Covers(old(handleAccess), access)) ==>
        handle.value.key in store.keys
      ensures (WriteClass(access) && RootKeyOf(path.drv, old(store.keys)).Ok?
               && |KeyPath(path)| <= MaxDepth) ==> r.Ok?
      ensures GrewTowards(path.drv, old(store.keys), store.keys, KeyPath(path))
    {
      ghost var cached := handle.Some? && Covers(handleAccess, access);
      ghost var t := OpenTarget(path.drv, KeyPath(path), store.keys, access);
      ghost var keys0, issued0 := store.keys, store.issued;
      var h := Open(access);
      if !cached {
        ReopenedGrew(path.drv, KeyPath(path), keys0, issued0, access, h, store.keys);
      }
      if h.Err? {
        assert !cached && t.Err?;
        return Err(h.error);
      }
      assert !cached ==> h.value.key in store.keys;
      return Ok(());
    }

    /** EnumKey: the key is opened (KEY_READ), QueryInfoKey gives the number
        of subkeys and EnumKey(handle, i) names each in turn. The names are
        the key's subkeys in enumeration order. */
    method SubkeyNames() returns (r: Result<seq<string>>)
      requires Valid()
      modifies this`rootKey, this`handle, this`handleAccess, store`keys, store`issued, store`connects
      ensures Valid() && store.keys == old(store.keys)
      ensures var rk := RootKeyOf(path.drv, store.keys);
        r.Ok? <==> rk.Ok? && KeyId(rk.value, KeyPath(path)) in store.keys
      ensures var rk := RootKeyOf(path.drv, store.keys);
        r.Ok? ==> rootKey == Some(rk.value) && r.value == store.keys[KeyId(rk.value, KeyPath(path))].subkeys
      ensures var rk := RootKeyOf(path.drv, store.keys);
        rk.Err? ==> r == Err(rk.error)
      ensures var rk := RootKeyOf(path.drv, store.keys);
        rk.Ok? && r.Err? ==> r.error == FileNotFound || r.error == KeyDeleted
    {
      var h := OpenForRead();
      if h.Err? {
        return Err(h.error);
      }
      var info := store.QueryInfoKey(h.value);
      if info.Err? {
        return Err(info.error);
      }
      var count := info.value.0;
      var names: seq<string> := [];
      var i := 0;
      label Enumerating:
      while i < count
        invariant 0 <= i <= count
        invariant unchanged@Enumerating(this, store)
        invariant names == store.keys[h.value.key].subkeys[..i]
      {
        var e := store.EnumKey(h.value, i);
        names := names + [e.value];
        i := i + 1;
      }
      assert names == store.keys[h.value.key].subkeys;
      return Ok(names);
    }

    /** iterdir: self / name for every subkey name, in enumeration order.
        A child whose name is plain and not a root name is the key one level
        down; the others are re-parsed by the division operator. */
    method Iterdir() returns (r: Result<seq<Parsed>>)
      requires Valid()
      modifies this`rootKey, this`handle, this`handleAccess, store`keys, store`issued, store`connects
      ensures Valid() && store.keys == old(store.keys)
      ensures var rk := RootKeyOf(path.drv, store.keys);
        r.Ok? <==> rk.Ok? && KeyId(rk.value, KeyPath(path)) in store.keys
      ensures var rk := RootKeyOf(path.drv, store.keys);
        r.Ok? ==> var names := store.keys[KeyId(rk.value, KeyPath(path))].subkeys;
          && |r.value| == |names|
          && forall i :: 0 <= i < |names| ==> r.value[i] == Child(path, names[i])
      ensures var rk := RootKeyOf(path.drv, store.keys);
        r.Ok? ==> var names := store.keys[KeyId(rk.value, KeyPath(path))].subkeys;
          forall i :: 0 <= i < |names| && PlainName(names[i]) && !IsRootName(names[i]) ==>
            r.value[i].drv == path.drv && Names(r.value[i]) == Names(path) + [names[i]]
      ensures var rk := RootKeyOf(path.drv, store.keys);
        rk.Err? ==> r == Err(rk.error)
    {
      var names := SubkeyNames();
      if names.Err? {
        return Err(names.error);
      }
      var children := seq(|names.value|, i requires 0 <= i < |names.value| => Child(path, names.value[i]));
      forall i | 0 <= i < |names.value| && PlainName(names.value[i]) && !IsRootName(names.value[i])
        ensures children[i].drv == path.drv && Names(children[i]) == Names(path) + [names.value[i]]
      {
        PlainChildAppends(path, names.value[i]);
      }
      return Ok(children);
    }

    /** rmdir: DeleteKey opens the key with KEY_WRITE (which creates it when
        it is missing) and deletes it; only a deletion that succeeds is
        followed by close. A root key or a key with subkeys is refused. */
    method Rmdir() returns (r: Result<()>)
      requires Valid()
      modifies this`rootKey, this`handle, this`handleAccess, store`keys, store`issued, store`connects
      ensures Valid() && SameRoots(old(store.keys), store.keys)
      ensures var rk := RootKeyOf(path.drv, old(store.keys));
        rk.Err? ==> r == Err(rk.error) && store.keys == old(store.keys)
      ensures var rk := RootKeyOf(path.drv, old(store.keys));
        rk.Ok? ==> var k := KeyId(rk.value, KeyPath(path));
          k in old(store.keys) && k.path != [] && old(store.keys)[k].subkeys == [] ==>
            r.Ok? && store.keys == RemoveKey(old(store.keys), k)
      ensures var rk := RootKeyOf(path.drv, old(store.keys));
        rk.Ok? ==> var k := KeyId(rk.value, KeyPath(path));
          k in old(store.keys) && (k.path == [] || old(store.keys)[k].subkeys != []) ==>
            r == Err(AccessDenied) && store.keys == old(store.keys)
      ensures r.Ok? ==> handle.None? && handleAccess == 0
      ensures var rk := RootKeyOf(path.drv, old(store.keys));
        r.Ok? ==> (rk.Ok? && KeyId(rk.value, KeyPath(path)) !in store.keys
                   && old(store.keys).Keys - {KeyId(rk.value, KeyPath(path))} <= store.keys.Keys)
    {
      var h := OpenForWrite();
      if h.Err? {
        return Err(h.error);
      }
      r := store.DeleteKey(h.value);
      if r.Ok? {
        Close();
      }
    }

    /** rmtree as evidently intended: the subkey names are read first, the
        subtree of each is removed through its child path, then the key
        itself goes by rmdir. A non-root key that exists is pruned with its
        whole subtree; a bare root loses everything below it and is then
        refused; an unknown or unreachable root, or an absent key, changes
        nothing. */
    method Rmtree() returns (r: Result<()>)
      requires Valid()
      modifies this`rootKey, this`handle, this`handleAccess, store`keys, store`issued, store`connects
      ensures Valid() && SameRoots(old(store.keys), store.keys)
      ensures var rk := RootKeyOf(path.drv, old(store.keys));
        rk.Err? ==> r == Err(rk.error) && store.keys == old(store.keys)
      ensures var rk := RootKeyOf(path.drv, old(store.keys));
        rk.Ok? && KeyId(rk.value, KeyPath(path)) !in old(store.keys) ==>
          r.Err? && store.keys == old(store.keys)
      ensures var rk := RootKeyOf(path.drv, old(store.keys));
        rk.Ok? ==> var k := KeyId(rk.value, KeyPath(path));
          k in old(store.keys) && k.path != [] ==> r.Ok? && store.keys == Prune(old(store.keys), k)
      ensures var rk := RootKeyOf(path.drv, old(store.keys));
        rk.Ok? ==> var k := KeyId(rk.value, KeyPath(path));
          k in old(store.keys) && k.path == [] ==>
            && r == Err(AccessDenied)
            && store.keys.Keys == old(store.keys).Keys - (Subtree(old(store.keys), k) - {k})
            && k in store.keys && store.keys[k].subkeys == []
      decreases MaxDepth - |KeyPath(path)|, 2
    {
      ghost var s0 := store.keys;
      ghost var rk := RootKeyOf(path.drv, s0);
      var names := SubkeyNames();
      if names.Err? {
        return Err(names.error);
      }
      ghost var k := KeyId(rk.value, KeyPath(path));
      RemoveSubtrees(names.value, s0, k);
      StageEnd(s0, k);
      if k.path != [] {
        StageFinish(s0, k);
      }
      RootKeyOfSameRoots(path.drv, s0, store.keys);
      r := Rmdir();
    }

    /** The loop of rmtree: the subtree of each listed subkey is removed
        through the child path self / name, one after the other. */
    method RemoveSubtrees(names: seq<string>, ghost s0: Keys, ghost k: KeyId)
      requires Valid() && rootKey.Some? && k == KeyId(rootKey.value, KeyPath(path))
      requires store.keys == s0 && k in s0 && names == s0[k].subkeys
      modifies store`keys, store`issued, store`connects
      ensures Valid() && SameRoots(s0, store.keys)
      ensures store.keys == Stage(s0, k, |names|)
      decreases MaxDepth - |KeyPath(path)|, 1
    {
      StageStart(s0, k);
      var j := 0;
      while j < |names|
        invariant 0 <= j <= |names|
        invariant Valid() && SameRoots(s0, store.keys)
        invariant store.keys == Stage(s0, k, j)
      {
        RemoveChild(names[j], s0, k, j);
        j := j + 1;
      }
    }

    /** One turn of the loop: child.rmtree() for the j-th subkey name. */
    method RemoveChild(name: string, ghost s0: Keys, ghost k: KeyId, ghost j: nat)
      requires Valid() && rootKey.Some? && k == KeyId(rootKey.value, KeyPath(path))
      requires ValidKeys(s0) && k in s0 && j < |s0[k].subkeys| && name == s0[k].subkeys[j]
      requires SameRoots(s0, store.keys) && store.keys == Stage(s0, k, j)
      modifies store`keys, store`issued, store`connects
      ensures Valid() && SameRoots(s0, store.keys)
      ensures store.keys == Stage(s0, k, j + 1)
      decreases MaxDepth - |KeyPath(path)|, 0
    {
      ghost var m := store.keys;
      ghost var c := Down(k, name);
      StageStep(s0, k, j);
      ChildNamedAppends(path, name);
      RootKeyOfSameRoots(path.drv, s0, m);
      assert KeyPath(ChildNamed(path, name)) == KeyPath(path) + [name];
      assert |c.path| <= MaxDepth;
      var child := new RegistryPath.Derived(ChildNamed(path, name), store);
      assert RootKeyOf(child.path.drv, m) == Ok(k.hive);
      assert KeyId(k.hive, KeyPath(child.path)) == c;
      var done := child.Rmtree();
      assert store.keys == Prune(m, c);
      RootKeyOfSameRoots(path.drv, s0, store.keys);
    }

    /** name in path: QueryValueEx after opening with KEY_READ; a
        FileNotFoundError (absent key or absent value) means false, any other
        failure propagates. */
    method Contains(name: string) returns (r: Result<bool>)
      requires Valid()
      modifies this`rootKey, this`handle, this`handleAccess, store`keys, store`issued, store`connects
      ensures Valid() && store.keys == old(store.keys)
      ensures var rk := RootKeyOf(path.drv, store.keys);
        rk.Err? ==> r == Err(rk.error)
      ensures var rk := RootKeyOf(path.drv, store.keys);
        rk.Ok? && KeyId(rk.value, KeyPath(path)) in store.keys ==>
          r == Ok(name in store.keys[KeyId(rk.value, KeyPath(path))].values)
      ensures var rk := RootKeyOf(path.drv, store.keys);
        rk.Ok? && KeyId(rk.value, KeyPath(path)) !in store.keys ==>
          r == Ok(false) || r == Err(KeyDeleted)
    {
      var h := OpenForRead();
      if h.Err? {
        if h.error == FileNotFound {
          return Ok(false);
        }
        return Err(h.error);
      }
      var q := store.QueryValueEx(h.value, name);
      if q.Err? {
        if q.error == FileNotFound {
          return Ok(false);
        }
        return Err(q.error);
      }
      return Ok(true);
    }

    /** path[name]: QueryValueEx after opening with KEY_READ; a REG_EXPAND_SZ
        string comes back as RegExpandSz. An absent value raises
        FileNotFoundError. */
    method GetItem(name: string) returns (r: Result<PyValue>)
      requires Valid()
      modifies this`rootKey, this`handle, this`handleAccess, store`keys, store`issued, store`connects
      ensures Valid() && store.keys == old(store.keys)
      ensures var rk := RootKeyOf(path.drv, store.keys);
        rk.Err? ==> r == Err(rk.error)
      ensures var rk := RootKeyOf(path.drv, store.keys);
        rk.Ok? && KeyId(rk.value, KeyPath(path)) in store.keys ==>
          var values := store.keys[KeyId(rk.value, KeyPath(path))].values;
          && (r.Ok? <==> name in values)
          && (r.Ok? ==> r.value == GetOutcome(values[name]))
          && (r.Err? ==> r.error == FileNotFound)
      ensures var rk := RootKeyOf(path.drv, store.keys);
        rk.Ok? && KeyId(rk.value, KeyPath(path)) !in store.keys ==>
          r == Err(FileNotFound) || r == Err(KeyDeleted)
    {
      var h := OpenForRead();
      if h.Err? {
        return Err(h.error);
      }
      var q := store.QueryValueEx(h.value, name);
      if q.Err? {
        return Err(q.error);
      }
      return Ok(Wrap(FromData(q.value.data), q.value.tag));
    }

    /** path[name] = value: the type is chosen before anything is opened, so
        a value of no supported type changes nothing; then SetValueEx stores
        the value under that type. */
    method SetItem(name: string, v: PyValue) returns (r: Result<()>)
      requires Valid()
      modifies this`rootKey, this`handle, this`handleAccess, store`keys, store`issued, store`connects
      ensures Valid() && SameRoots(old(store.keys), store.keys)
      ensures old(store.keys).Keys <= store.keys.Keys
      ensures InferType(v).Err? ==> r == Err(InferType(v).error) && store.keys == old(store.keys)
      ensures var rk := RootKeyOf(path.drv, old(store.keys));
        rk.Err? ==> r.Err? && store.keys == old(store.keys)
      ensures SetOutcome(v).Err? ==> r.Err?
      ensures var rk := RootKeyOf(path.drv, old(store.keys));
        rk.Ok? && KeyId(rk.value, KeyPath(path)) in old(store.keys) ==>
          && (r.Ok? <==> SetOutcome(v).Ok?)
          && (r.Err? ==> r == Err(SetOutcome(v).error) && store.keys == old(store.keys))
      ensures var rk := RootKeyOf(path.drv, old(store.keys));
        r.Ok? ==> rk.Ok? && SetOutcome(v).Ok? && Wrote(old(store.keys), store.keys, KeyId(rk.value, KeyPath(path)), name, SetOutcome(v).value)
      ensures var rk := RootKeyOf(path.drv, old(store.keys));
        r.Ok? ==> var k := KeyId(rk.value, KeyPath(path));
          && |k.path| <= MaxDepth
          && SetValueOp(CreateKeys(old(store.keys), k), k, name, SetOutcome(v).value) == Ok(store.keys)
      ensures var rk := RootKeyOf(path.drv, old(store.keys));
        rk.Ok? && r.Err? ==> OpenedForWrite(old(store.keys), store.keys, KeyId(rk.value, KeyPath(path)))
    {
      var typed := InferType(v);
      if typed.Err? {
        return Err(typed.error);
      }
      r := SetValueEx(name, typed.value.0, typed.value.1);
    }

    /** del path[name]: DeleteValue after opening with KEY_WRITE. An absent
        key is created by the open, with its missing ancestors, and then has
        no value to delete: FileNotFound, with the new keys left behind. */
    method DelItem(name: string) returns (r: Result<()>)
      requires Valid()
      modifies this`rootKey, this`handle, this`handleAccess, store`keys, store`issued, store`connects
      ensures Valid() && SameRoots(old(store.keys), store.keys)
      ensures old(store.keys).Keys <= store.keys.Keys
      ensures var rk := RootKeyOf(path.drv, old(store.keys));
        rk.Err? ==> r == Err(rk.error) && store.keys == old(store.keys)
      ensures var rk := RootKeyOf(path.drv, old(store.keys));
        rk.Ok? ==> var k := KeyId(rk.value, KeyPath(path));
          k in old(store.keys) ==>
            && (r.Ok? <==> name in old(store.keys)[k].values)
            && (r.Ok? ==> store.keys == DeleteValueOp(old(store.keys), k, name).value)
            && (r.Err? ==> r == Err(FileNotFound) && store.keys == old(store.keys))
      ensures var rk := RootKeyOf(path.drv, old(store.keys));
        rk.Ok? && KeyId(rk.value, KeyPath(path)) !in old(store.keys) ==>
          var k := KeyId(rk.value, KeyPath(path));
          || (store.keys == old(store.keys) && r.Err?)
          || (|k.path| <= MaxDepth && store.keys == CreateKeys(old(store.keys), k) && r == Err(FileNotFound))
    {
      ghost var keys0 := store.keys;
      var h := OpenForWrite();
      if h.Err? {
        return Err(h.error);
      }
      if store.keys != keys0 {
        CreateKeysEffect(keys0, h.value.key);
      }
      r := store.DeleteValue(h.value, name);
    }

    /** SetValueEx(name, type, value): the key is opened with KEY_WRITE
        (created when missing), then winreg converts the value for the type
        and stores it; a failed conversion comes after the key exists. */
    method SetValueEx(name: string, v: PyValue, tag: RegType) returns (r: Result<()>)
      requires Valid()
      modifies this`rootKey, this`handle, this`handleAccess, store`keys, store`issued, store`connects
      ensures Valid() && SameRoots(old(store.keys), store.keys)
      ensures old(store.keys).Keys <= store.keys.Keys
      ensures var rk := RootKeyOf(path.drv, old(store.keys));
        rk.Err? ==> r.Err? && store.keys == old(store.keys)
      ensures ToStored(v, tag).Err? ==> r.Err?
      ensures var rk := RootKeyOf(path.drv, old(store.keys));
        rk.Ok? && KeyId(rk.value, KeyPath(path)) in old(store.keys) ==>
          && (r.Ok? <==> ToStored(v, tag).Ok?)
          && (r.Err? ==> r == Err(ToStored(v, tag).error) && store.keys == old(store.keys))
      ensures var rk := RootKeyOf(path.drv, old(store.keys));
        r.Ok? ==> rk.Ok? && ToStored(v, tag).Ok? && Wrote(old(store.keys), store.keys, KeyId(rk.value, KeyPath(path)), name, ToStored(v, tag).value)
      ensures var rk := RootKeyOf(path.drv, old(store.keys));
        r.Ok? ==> var k := KeyId(rk.value, KeyPath(path));
          && |k.path| <= MaxDepth
          && SetValueOp(CreateKeys(old(store.keys), k), k, name, ToStored(v, tag).value) == Ok(store.keys)
      ensures var rk := RootKeyOf(path.drv, old(store.keys));
        rk.Ok? && r.Err? ==> OpenedForWrite(old(store.keys), store.keys, KeyId(rk.value, KeyPath(path)))
    {
      ghost var keys0 := store.keys;
      var h := OpenForWrite();
      if h.Err? {
        return Err(h.error);
      }
      ghost var keys1 := store.keys;
      var st := ToStored(v, tag);
      if st.Err? {
        return Err(st.error);
      }
      r := store.SetValueEx(h.value, name, st.value);
      if r.Ok? {
        WroteAfterCreate(keys0, keys1, store.keys, h.value.key, name, st.value);
        WriteFromCreate(keys0, keys1, h.value.key, name, st.value);
      }
    }

    /** open(KEY_WRITE), as DeleteKey and SetValueEx call it: the key is
        reached, created with its missing ancestors when absent, or the
        cached handle is reused; a key that already exists always opens and
        leaves the store as it was. */
    method OpenForWrite() returns (h: Result<Handle>)
      requires Valid()
      modifies this`rootKey, this`handle, this`handleAccess, store`keys, store`issued, store`connects
      ensures Valid() && SameRoots(old(store.keys), store.keys)
      ensures old(store.keys).Keys <= store.keys.Keys
      ensures h.Ok? ==> handle == Some(h.value)
      ensures h.Err? ==> store.keys == old(store.keys)
      ensures var rk := RootKeyOf(path.drv, old(store.keys));
        rk.Err? ==> h == Err(rk.error)
      ensures var rk := RootKeyOf(path.drv, old(store.keys));
        h.Ok? ==> (rk.Ok? && h.value.key == KeyId(rk.value, KeyPath(path))
                   && (store.keys == old(store.keys)
                       || (|KeyPath(path)| <= MaxDepth && store.keys == CreateKeys(old(store.keys), h.value.key))))
      ensures var rk := RootKeyOf(path.drv, old(store.keys));
        rk.Ok? && KeyId(rk.value, KeyPath(path)) in old(store.keys) ==> h.Ok? && store.keys == old(store.keys)
    {
      AccessMasks();
      ghost var rk := RootKeyOf(path.drv, store.keys);
      assert rk.Ok? && KeyId(rk.value, KeyPath(path)) in store.keys ==> |KeyPath(path)| <= MaxDepth;
      h := Open(KeyWrite);
    }

    /** open() with KEY_READ, as EnumKey, QueryValueEx and QueryInfoKey call
        it: nothing is created; an existing key always opens, an absent one
        raises FileNotFoundError unless a handle was cached. */
    method OpenForRead() returns (h: Result<Handle>)
      requires Valid()
      modifies this`rootKey, this`handle, this`handleAccess, store`keys, store`issued, store`connects
      ensures Valid() && store.keys == old(store.keys)
      ensures var rk := RootKeyOf(path.drv, store.keys);
        rk.Err? ==> h == Err(rk.error)
      ensures var rk := RootKeyOf(path.drv, store.keys);
        h.Ok? ==> rk.Ok? && rootKey == Some(rk.value) && h.value.key == KeyId(rk.value, KeyPath(path))
      ensures var rk := RootKeyOf(path.drv, store.keys);
        rk.Ok? && KeyId(rk.value, KeyPath(path)) in store.keys ==> h.Ok?
      ensures var rk := RootKeyOf(path.drv, store.keys);
        rk.Ok? && h.Err? ==> h.error == FileNotFound
    {
      AccessMasks();
      h := Open(KeyRead);
    }
  }
}
