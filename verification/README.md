# regpath in Dafny

regpath (`regpath.py`) treats Windows registry locations as paths.
`RegistryPath` is a `pathlib.PureWindowsPath` whose drive is a registry root (`HKEY_CURRENT_USER`, `HKLM`, `\\computer\HKLM`, ...).
It is also a mutable mapping from value names to values.
This project models the core of that class and proves properties of the model:

- **Path algebra** (`flavour.dfy`, module `Flavour`).
  - How `_RegistryFlavour.splitroot` promotes a leading root name to the drive.
  - How `join_parsed_parts` joins two parsed paths.
  - How `RegistryPath._from_parsed_parts` stores a bare root name as a single part.
  - The parts of pathlib that these rely on (the Windows splitter, parsing of one text, `str()`, `parent`) are written as stand-ins after pathlib's behaviour.
- **Values** (`values.dfy`, module `Values`).
  - The type `__setitem__` infers for a Python value, including `RegExpandSz._get_regvalue`.
  - The wrapping `__getitem__` applies to the value it reads back.
  - The conversion winreg applies in between: an idealised `SetValueEx`, and the reading back of `QueryValueEx` (text up to its first NUL, a multi-string list up to its first empty string, empty binary data as None).
- **The registry** (`store.dfy`, module `Store`).
  - The winreg calls the class makes are an abstract registry: a map from key identities to their values and ordered subkey lists.
  - It is held in a class `Registry` whose methods are ConnectRegistry, OpenKeyEx, CreateKeyEx, QueryInfoKey, EnumKey, DeleteKey, QueryValueEx, SetValueEx and DeleteValue.
  - Each method is specified by a pure function, and lemmas show that every change keeps the tree shape (`ValidKeys`).
- **The path object** (`regpath.dfy`, module `RegPath`).
  - A class `RegistryPath` with the lazily cached `root_key`, the cached handle and its access.
  - `open`/`close`, `exists`, `mkdir`, `iterdir`, `rmdir`, `rmtree`.
  - The mapping operations `__contains__`, `__getitem__`, `__setitem__` and `__delitem__`.

Points where the model follows the code rather than what one might expect of it:

- **Empty and unrooted text.** The code does not refuse such text when the path is built (pathlib accepts it). The failure comes later, as a `KeyError` from `root_key`: `RootKeyOf` gives `Err(KeyError)`.
- **The parent of a bare root.** pathlib returns the bare root itself (`ParentShrinks`), not an empty path. So `mkdir(parents=True)` on a missing bare root recurses without end (`MakeParent` reports `RecursionError`).
- **Enumeration.** `EnumKey` asks `QueryInfoKey` for the subkey count once, before enumerating, not on every step.
- **`rmtree`.** As written, it does not always remove the top key: see Findings.

## Model

| member | source | states |
|---|---|---|
| Flavour.RootKeysShape | regpath.py:47-60 | every name in rootkey_map is a non-empty word of capitals and underscores |
| Flavour.RootNameShape | regpath.py:47-60 | a text that names a root in any letter case is non-empty and holds no separator |
| Flavour.SplitRootPromotesRoot | regpath.py:62-75 | a text whose first segment is a root name gets that segment as drive; root `\` exactly when a separator follows, otherwise the whole text is the drive; drive, root and rest glue back to the text |
| Flavour.SplitRootOfRootedText | regpath.py:68-71 | `ROOT\rest` splits into drive ROOT, root `\` and rest |
| Flavour.SplitRootOfBareRoot | regpath.py:72-73 | a bare root name splits into itself as drive with empty root and rest |
| Flavour.SplitRootKeepsRemote | regpath.py:65-66 | a remote text `\\computer\KEY\rest` keeps `\\computer\KEY` as drive even when the rest starts with a root name |
| Flavour.ParseRemoteText | regpath.py:65-66 | a remote text with plain names parses to the remote drive, root `\` and those names |
| Flavour.ParseRootedText | regpath.py:68-71 | `ROOT\n1\...\nk` parses to drive ROOT, root `\` and parts [ROOT\, n1, ..., nk] |
| Flavour.ParseFormatRoundTrip | regpath.py:62-75 | parsing a canonical text gives its root and names, and str() gives the text back |
| Flavour.ParseRemote | regpath.py:62-75 | the same round trip for remote texts |
| Flavour.ParseBareRoot | regpath.py:72-73 | a bare root name parses to drive=name, no root, parts [name], no key names, and prints as itself |
| Flavour.JoinRerootsOnRootedText | regpath.py:77-79 | a right operand that names a root replaces the left operand in the join as written and as intended |
| Flavour.JoinAsWrittenAppendsIff | regpath.py:80-83 | join as written appends the right names exactly when the left operand is anchored or nothing is appended |
| Flavour.JoinAsWrittenDropsRelativeName | regpath.py:81-82 | RegistryPath('A') / 'B' prints as `\B` as written and `A\B` as intended |
| Flavour.JoinAppendsNames | regpath.py:80-83 | the corrected join keeps drive and anchoring and appends the right names to the left names |
| Flavour.JoinAgreesWhenAnchored | regpath.py:77-83 | both joins agree when the left operand is anchored |
| Flavour.CollapseAsWrittenLosesRelativeName | regpath.py:106-108 | _from_parsed_parts as written turns the relative path B into the empty path ".", and the parent of `A\B` prints as "." |
| Flavour.ParseRelativePair | regpath.py:62-75 | `A\B` has no drive and no root and parses to the names A and B |
| Flavour.CollapseKeepsNames | regpath.py:104-109 | the corrected collapse keeps drive, anchoring and key names |
| Flavour.CollapseAgreesWithDrive | regpath.py:104-109 | both collapses agree on every path with a drive |
| Flavour.CollapseBareRoot | regpath.py:104-109 | `ROOT\` with no names is stored as drive ROOT, empty root, parts [ROOT], and prints as ROOT |
| Flavour.ParentDropsLastName | regpath.py:104-109 | parent, rebuilt by _from_parsed_parts as written, keeps the drive; unless the path is a two-part path without a drive it keeps the anchoring and drops exactly the last name; a two-part path without a drive has the empty path "." as parent |
| Flavour.ParentShrinks | regpath.py:104-109 | parent is the path itself exactly for a bare anchor or the empty path, and is one part shorter otherwise |
| Flavour.ParentOfTopKey | regpath.py:104-109 | the parent of `ROOT\name` prints as the bare ROOT |
| Flavour.ChildNamedAppends | regpath.py:275-276 | the corrected child appends exactly the enumerated name, whatever it is |
| Flavour.ChildOfPlainName | regpath.py:275-276 | for a plain name that is not a root name, self / name (join and _from_parsed_parts as written) equals the corrected child exactly when self is anchored |
| Flavour.PlainChildAppends | regpath.py:275-276 | self / name for a plain non-root name keeps the drive, and its names are self's names followed by the name exactly when self is anchored |
| Flavour.ChildOfRootNamedKey | regpath.py:275-276 | self / 'HKLM' is the bare root HKLM, not a child of self |
| Values.InferType | regpath.py:321-342 | the value is handed on unchanged; RegExpandSz gives REG_EXPAND_SZ, str REG_SZ, bytes REG_BINARY, an int from 0 to 0xFFFFFFFF or a bool REG_DWORD, a list REG_MULTI_SZ, None REG_NONE; ValueError iff a negative int, NotImplementedError iff an int above 0xFFFFFFFF, TypeError iff an unsupported object |
| Values.Wrap | regpath.py:313-319 | a string read back is wrapped as RegExpandSz iff its type is REG_EXPAND_SZ; everything else is returned as read |
| Values.UpToNul | regpath.py:314 | a string read back is the longest prefix of the stored text without NUL: it holds no NUL and is the whole text or stops at a NUL |
| Values.UpToEmpty | regpath.py:314 | a multi-string list read back is the longest prefix of the stored list without an empty string |
| Values.SetThenGet | regpath.py:313-343 | storing None, str or RegExpandSz without NUL, non-empty bytes, a 32-bit non-negative int or a list of non-empty str without NUL and reading it back gives the same value |
| Values.ReadSideLosses | regpath.py:313-343 | empty bytes read back as None, the list ['a', '', 'b'] as ['a'], and the text 'a\0b' as 'a' |
| Values.BoolStoredAsDword | regpath.py:328-332 | a bool is stored as the DWORD 0 or 1 and read back as that int |
| Values.SetOutcomeErrors | regpath.py:321-343 | a set fails exactly for out-of-range ints, unsupported objects and lists with a non-string item; otherwise the type stored is the inferred one |
| Store.Reach | regpath.py:114-116 | ConnectRegistry succeeds exactly when the computer's root is there, with that hive; else NetworkPath |
| Store.CreateKeys | regpath.py:151-152 | creating a key keeps the tree valid and changes nothing when the key exists |
| Store.CreateKeysEffect | regpath.py:151-152 | creating a key keeps every existing key's values, adds only value-less ancestors of the key, and the key exists afterwards when its hive does |
| Store.CreateKeysGrew | regpath.py:151-152 | creating a key grows the store towards it: old keys keep their values and their subkey lists, extended at the end only; new keys are the key or its named ancestors, without values |
| Store.GrewTrans | regpath.py:267-270 | growing towards an ancestor of a key and then towards the key is growing towards the key |
| Store.GrewWiden | regpath.py:267-268 | growing towards an ancestor of a key is growing towards the key |
| Store.DeleteKeyOp | regpath.py:154-156 | deletion succeeds iff the key exists, is not a root and has no subkeys; exactly that key goes, its name leaves its parent's subkey list, the parent keeps its values and every other key is unchanged; otherwise AccessDenied, or KeyDeleted for a missing key |
| Store.QueryValueOp | regpath.py:205-207 | the value is returned iff key and name exist; else FileNotFound, or KeyDeleted for a missing key |
| Store.SetValueOp | regpath.py:217-219 | the value under the name is set and nothing else changes; KeyDeleted for a missing key |
| Store.DeleteValueOp | regpath.py:162-164 | the name is removed iff it is there; the key keeps its other values and its subkeys, and every other key is unchanged; else FileNotFound or KeyDeleted |
| Store.PruneValid | regpath.py:290-293 | removing a key's whole subtree keeps the tree valid and the roots, removes exactly the subtree and changes only the parent's list |
| Store.RmtreeAsWrittenStopsEarly | regpath.py:290-293 | rmtree as written on a key with two leaf subkeys deletes only the first, then fails with NoMoreItems, leaving the second and the key |
| Store.Registry.Connect | regpath.py:114-116 | counts the connection and returns what Reach gives |
| Store.Registry.OpenKeyEx | regpath.py:194-195 | a new handle on the key iff it exists, else FileNotFound |
| Store.Registry.CreateKeyEx | regpath.py:151-152 | the key and its missing ancestors are created and a new handle returned; BadKey beyond the depth limit |
| Store.Registry.QueryInfoKey | regpath.py:197-199 | the numbers of subkeys and values of an existing key, else KeyDeleted |
| Store.Registry.EnumKey | regpath.py:166-172 | the i-th subkey name iff i is below the count, else NoMoreItems or KeyDeleted |
| Store.Registry.DeleteKey | regpath.py:154-156 | the store becomes what DeleteKeyOp gives, or stays as it was with its error |
| Store.Registry.QueryValueEx | regpath.py:205-207 | returns what QueryValueOp gives |
| Store.Registry.SetValueEx | regpath.py:217-219 | the store becomes what SetValueOp gives; KeyDeleted otherwise |
| Store.Registry.DeleteValue | regpath.py:162-164 | the store becomes what DeleteValueOp gives, or stays as it was with its error |
| RegPath.Resolve | regpath.py:111-119 | a drive resolves to a local root exactly when it is a root name not starting with `\\`, to the root rootkey_map gives |
| RegPath.RootKeyOf | regpath.py:111-119 | root_key fails only with KeyError (exactly for an unknown name) or NetworkPath; success needs a drive |
| RegPath.RootKeyOfRemote | regpath.py:114-116 | `\\computer\KEY` is split at its last separator; KEY is looked up and the computer connected, or KeyError |
| RegPath.RootKeyOfLocal | regpath.py:117-118 | a root name in any letter case resolves to its local root without a connection |
| RegPath.OpenTarget | regpath.py:125-134 | a reopening open fails with root_key's error first; write-class access always reaches the key (depth permitting); otherwise the key must exist |
| RegPath.AccessMasks | regpath.py:125-130 | KEY_READ is not write-class and KEY_WRITE is; neither covers the other; KEY_ALL_ACCESS covers both |
| RegPath.KeyPathOfParent | regpath.py:267-268 | the parent of a path with a drive keeps the drive, and its key path is a prefix of the path's |
| RegPath.ReopenedGrew | regpath.py:125-134 | a reopening open leaves the store unchanged when the root does not resolve and otherwise grows it towards the path's key |
| RegPath.ParentGrewTowards | regpath.py:267-268 | growing towards the parent's key is growing towards the path's key |
| RegPath.MkdirGrew | regpath.py:267-270 | making the parent and then opening the key grows the store towards the key |
| RegPath.WroteAfterCreate | regpath.py:217-219 | creating missing keys and then setting a value writes that value and changes no other key's values |
| RegPath.RegistryPath.constructor | regpath.py:94-98 | a new path holds the parse of its text, with no root, handle or access cached |
| RegPath.RegistryPath.Derived | regpath.py:104-109 | a path built from parsed parts holds them, with nothing cached |
| RegPath.RegistryPath.RootKey | regpath.py:111-119 | returns what the drive resolves to and caches a success; a cached root makes no new connection |
| RegPath.RegistryPath.Open | regpath.py:125-134 | a handle whose access covers the request is returned unchanged; otherwise the key is reopened as Reopened states; afterwards the handle covers the request |
| RegPath.RegistryPath.Reopen | regpath.py:126-132 | success exactly when OpenTarget succeeds, with a new handle on that key with exactly the access; write-class access creates the key; a failure changes nothing |
| RegPath.RegistryPath.Close | regpath.py:136-140 | leaves no handle and no access |
| RegPath.RegistryPath.Exists | regpath.py:251-259 | true iff the root resolves and the key exists; an unreachable computer is false; only KeyError propagates |
| RegPath.RegistryPath.MakeParent | regpath.py:267-268 | when the parent is missing it is made first; a resolvable root within the depth limit always succeeds; an unresolved root fails and changes nothing; otherwise the store only grows towards the parent's key, which exists after a success |
| RegPath.RegistryPath.Mkdir | regpath.py:261-270 | with write-class access a resolvable path within the depth limit succeeds and leaves a handle covering the access; unless a cached handle already covered the access (it is reused unchecked), that handle is on a key that exists; an unresolved root fails and changes nothing; otherwise the store only grows towards the key |
| RegPath.RegistryPath.OpenKey | regpath.py:270 | the last step of mkdir, with the same guarantees: the handle covers the access; unless a cached handle already covered it, the key exists; the store grows only towards the key |
| RegPath.RegistryPath.SubkeyNames | regpath.py:166-172 | enumeration succeeds iff the key exists and yields exactly its subkeys in order; the store is unchanged |
| RegPath.RegistryPath.Iterdir | regpath.py:272-276 | one child per subkey, in order, each self / name; a plain non-root name gives the key one level down |
| RegPath.RegistryPath.Rmdir | regpath.py:278-282 | an existing non-root leaf key is removed and the handle closed; a root or a key with subkeys is refused with AccessDenied and nothing changes; root errors propagate |
| RegPath.RegistryPath.Rmtree | regpath.py:290-293 | corrected rmtree: an existing non-root key is removed with its whole subtree and nothing else; a bare root loses everything below it and is then refused; errors change nothing |
| RegPath.RegistryPath.RemoveSubtrees | regpath.py:291-292 | after the loop every listed subkey's subtree is gone and the key lists none |
| RegPath.RegistryPath.RemoveChild | regpath.py:292 | one turn: the next subkey's subtree is removed through the child path |
| RegPath.RegistryPath.Contains | regpath.py:298-304 | for an existing key, true iff the value name is there; an absent key is false; other errors propagate; the store is unchanged |
| RegPath.RegistryPath.GetItem | regpath.py:313-319 | for an existing key, succeeds iff the name is there and returns the stored value as read back (RegExpandSz kept), else FileNotFound |
| RegPath.RegistryPath.SetItem | regpath.py:321-343 | a value of no supported type changes nothing; for an existing key, success iff the value converts, a failed conversion changes nothing; a success leaves exactly the store SetValueOp gives on the old store with the key and its missing ancestors created; any other failure leaves the store as it was or with only those keys created |
| RegPath.RegistryPath.SetValueEx | regpath.py:217-219 | opens for writing, converts, and on success leaves exactly the store SetValueOp gives for the converted value on the old store with the key and its missing ancestors created; for an existing key a failed conversion changes nothing; any failure leaves the store as it was or with only those keys created |
| RegPath.RegistryPath.DelItem | regpath.py:345-346 | for an existing key, succeeds iff the name is there and removes exactly that value, else FileNotFound with nothing changed; an absent key fails, either with the store as it was or, after the KEY_WRITE open created the key and its missing ancestors, with FileNotFound and exactly those keys added |
| RegPath.RegistryPath.OpenForWrite | regpath.py:155 | open with KEY_WRITE reaches this path's key, creating it and its ancestors when absent; an existing key opens without change |
| RegPath.RegistryPath.OpenForRead | regpath.py:206 | open with KEY_READ never changes the store; an existing key always opens; a failure past the root is FileNotFound |

## Left out

- Drive letters, `\\?\` prefixes and multi-argument construction: pathlib's Windows splitter and `parse_parts` are library code, stood in by `WindowsSplitRoot` and `Parse` for one text.
- Case-insensitive comparison of key names and paths: the store matches names exactly, and `Upper` folds ASCII letters only.
- Equality, hashing, `name`, `anchor`, `parents` and the other derived accessors pathlib provides: they are library code.
- Values.ToStored: an idealised version of CPython's winreg conversion. It refuses every mismatched pair with ValueError, as CPython does for the pair `__setitem__` can reach (a list with a non-str item). It does not model what CPython accepts beyond that: None for text, DWORD and MULTI_SZ types, and bytes for other type codes.
- Access control: the store grants every access, so AccessDenied arises only from deleting a root or a key with subkeys.
- `__iter__`, `__len__` and `EnumValue`: the model stops at value names one at a time.
- `CopyTree` and `DeleteTree`: they call advapi32 through ctypes.
- `make_uri` and `gethomedir`: they only raise or return a constant.
- `FlushKey`, `LoadKey`, `SaveKey`, `QueryValue`, `SetValue` and `DeleteKeyEx`: they pass straight through to winreg.
- Handle closing by the garbage collector, and errno values of connection failures: a failed connection is the single error NetworkPath.
- Values.FromData: a REG_MULTI_SZ item that holds a NUL is read back whole. CPython's winreg splits it into two items there. Values.RoundTrips excludes such items, so SetThenGet is unaffected.
- Concurrent changes to the registry during enumeration: the store changes only through the modelled calls.
- Subkey order: the store lists a new subkey after its siblings, so `EnumKey` and `iterdir` follow creation order. The registry fixes no enumeration order; in practice it enumerates subkeys sorted by name. The model fixes one order and does not model the registry's own.
- Handles identify their key by identity: a handle whose key has been deleted reports KeyDeleted. A key created again under the same name is not told apart.
- RegPath.RegistryPath.Rmdir: no success guarantee is stated for a key that does not exist. The open with KEY_WRITE creates it first, and the contract gives only the bounds on the resulting store.
- RegPath.RegistryPath.Contains: for an absent key the result is false or KeyDeleted, depending on whether a stale handle was cached. The model does not say which.

## Findings

| source | as written | input that shows it | evidently intended | confidence | as-written member | corrected member |
|---|---|---|---|---|---|---|
| regpath.py:106-108 | any one-part path is collapsed to root '' and parts [drv] | RegistryPath('A\\B').parent is rebuilt from the one part ['A'] as parts [''] and prints as '.' | only a bare root name (a path with a drive and one part) is collapsed | not executed | Flavour.CollapseAsWrittenLosesRelativeName | Flavour.CollapseKeepsNames |
| regpath.py:81-82 | a root is added to every root-less left operand | RegistryPath('A') / 'B' prints as '\B' and loses A | add the root only where a drive stands without one | not executed | Flavour.JoinAsWrittenDropsRelativeName | Flavour.JoinAppendsNames |
| regpath.py:275-276 | iterdir builds each child as self / name, which re-parses the name | a subkey named HKLM under HKCU\T yields the root HKLM, so rmtree would recurse into the whole HKLM hive | the enumerated name is appended as one literal name | not executed | Flavour.ChildOfRootNamedKey | Flavour.ChildNamedAppends |
| regpath.py:290-293 | rmtree enumerates subkeys by increasing index while deleting them | a key with two leaf subkeys: the second moves to index 0, EnumKey(1) fails with NoMoreItems, and the second subkey and the key stay | read the subkey names first, then remove each subtree, then the key | not executed | Store.RmtreeAsWrittenStopsEarly | RegPath.RegistryPath.Rmtree |
