/** Path algebra of registry paths (regpath.py, class _RegistryFlavour and
    RegistryPath._from_parsed_parts): how a text is split into drive, root and
    parts, how two parsed paths are joined, and how a bare root name is stored.

    The generic Windows splitter and the parts/format conventions of Python's
    pathlib are library code; they are stood in here by WindowsSplitRoot,
    Parse, Parent and Format, written after pathlib's behaviour. */
module Flavour {

  /** The path separator and the alternative separator that pathlib rewrites to it. */
  const Sep: char := '\\'
  const AltSep: char := '/'

  /** The predefined registry roots. */
  datatype RootKey =
    | ClassesRoot | CurrentUser | LocalMachine | Users
    | PerformanceData | CurrentConfig | DynData

  /** rootkey_map: canonical names and their short aliases, upper case. */
  const RootKeyMap: map<string, RootKey> := map[
    "HKEY_CLASSES_ROOT" := ClassesRoot,
    "HKCR" := ClassesRoot,
    "HKEY_CURRENT_USER" := CurrentUser,
    "HKCU" := CurrentUser,
    "HKEY_LOCAL_MACHINE" := LocalMachine,
    "HKLM" := LocalMachine,
    "HKEY_USERS" := Users,
    "HKU" := Users,
    "HKEY_PERFORMANCE_DATA" := PerformanceData,
    "HKEY_CURRENT_CONFIG" := CurrentConfig,
    "HKCC" := CurrentConfig,
    "HKEY_DYN_DATA" := DynData
  ]

  /** The result of a splitroot call: drive, root and the unparsed remainder. */
  datatype Split3 = Split3(drv: string, root: string, rest: string)

  /** A parsed path as pathlib keeps it: drive, root and parts, where an
      anchored path (drive or root present) carries its anchor as parts[0]. */
  datatype Parsed = Parsed(drv: string, root: string, parts: seq<string>)

  // ---------------------------------------------------------------------
  // Characters and strings
  // ---------------------------------------------------------------------

  function UpperChar(c: char): char {
    if 'a' <= c <= 'z' then ((c as int) - 32) as char else c
  }

  /** str.upper restricted to ASCII letters. */
  function Upper(s: string): string {
    seq(|s|, i requires 0 <= i < |s| => UpperChar(s[i]))
  }

  /** Whether a segment names a registry root, matched case-insensitively. */
  predicate IsRootName(s: string) {
    Upper(s) in RootKeyMap
  }

  /** str.find: the first index at or after `from` holding `c`, or -1. */
  function IndexOf(s: string, c: char, from: nat): (r: int)
    ensures r == -1 ==> forall i :: from <= i < |s| ==> s[i] != c
    ensures r != -1 ==> from <= r < |s| && s[r] == c
    ensures r != -1 ==> forall i :: from <= i < r ==> s[i] != c
    decreases |s| - from
  {
    if from >= |s| then -1
    else if s[from] == c then from
    else IndexOf(s, c, from + 1)
  }

  /** str.rfind: the last index holding `c`, or -1. */
  function LastIndexOf(s: string, c: char): (r: int)
    ensures r == -1 ==> c !in s
    ensures r != -1 ==> 0 <= r < |s| && s[r] == c && c !in s[r + 1..]
  {
    if |s| == 0 then -1
    else if s[|s| - 1] == c then |s| - 1
    else
      var r := LastIndexOf(s[..|s| - 1], c);
      assert s[..|s| - 1] + [s[|s| - 1]] == s;
      r
  }

  /** str.lstrip(sep). */
  function LStrip(s: string): (r: string)
    ensures |r| <= |s| && r == s[|s| - |r|..]
    ensures r == "" || r[0] != Sep
  {
    if |s| > 0 && s[0] == Sep then LStrip(s[1..]) else s
  }

  /** str.replace(altsep, sep). */
  function Normalize(s: string): string {
    seq(|s|, i requires 0 <= i < |s| => if s[i] == AltSep then Sep else s[i])
  }

  /** str.split(sep) with no limit. */
  function Split(s: string): (r: seq<string>)
    ensures |r| >= 1
    ensures forall k :: 0 <= k < |r| ==> Sep !in r[k]
    decreases |s|
  {
    var i := IndexOf(s, Sep, 0);
    if i < 0 then [s] else [s[..i]] + Split(s[i + 1..])
  }

  /** The names pathlib keeps from a remainder: empty and "." pieces are dropped. */
  function Keep(pieces: seq<string>): seq<string> {
    if pieces == [] then []
    else if pieces[0] == "" || pieces[0] == "." then Keep(pieces[1..])
    else [pieces[0]] + Keep(pieces[1..])
  }

  function Segments(rest: string): seq<string> {
    Keep(Split(rest))
  }

  /** sep.join(names). */
  function JoinSep(names: seq<string>): string {
    if names == [] then ""
    else if |names| == 1 then names[0]
    else names[0] + [Sep] + JoinSep(names[1..])
  }

  function Tail(parts: seq<string>): seq<string> {
    if parts == [] then [] else parts[1..]
  }

  // ---------------------------------------------------------------------
  // Splitting a text
  // ---------------------------------------------------------------------

  predicate StartsUnc(s: string) {
    |s| >= 2 && s[0] == Sep && s[1] == Sep
  }

  /** Stand-in for pathlib's Windows splitroot: a \\server\share prefix is a
      remote drive with root "\"; otherwise the drive is empty and a leading
      separator is the root. Drive letters and the \\?\ prefix are not modelled. */
  function WindowsSplitRoot(part: string): Split3 {
    var index := if StartsUnc(part) && !(|part| >= 3 && part[2] == Sep)
                 then IndexOf(part, Sep, 2) else -1;
    var index2 := if index >= 0 then IndexOf(part, Sep, index + 1) else -1;
    if index >= 0 && index2 != index + 1 then
      var end := if index2 == -1 then |part| else index2;
      Split3(part[..end], [Sep], if end < |part| then part[end + 1..] else "")
    else if |part| > 0 && part[0] == Sep then
      Split3("", [Sep], LStrip(part))
    else
      Split3("", "", part)
  }

  /** _RegistryFlavour.splitroot: a leading root name is promoted to the drive. */
  function SplitRoot(part: string): Split3 {
    var g := WindowsSplitRoot(part);
    if StartsUnc(g.drv) then g
    else
      var i := IndexOf(g.rest, Sep, 0);
      var head := if i < 0 then g.rest else g.rest[..i];
      if IsRootName(head) then
        if i >= 0 then Split3(head, [Sep], g.rest[i + 1..])
        else Split3(g.rest, g.root, "")
      else g
  }

  predicate Anchored(p: Parsed) {
    p.drv != "" || p.root != ""
  }

  /** Stand-in for pathlib's parse_parts applied to one text. */
  function Parse(text: string): Parsed {
    var s := SplitRoot(Normalize(text));
    var anchor := if s.drv != "" || s.root != "" then [s.drv + s.root] else [];
    Parsed(s.drv, s.root, anchor + Segments(s.rest))
  }

  /** The key names below the anchor: RegistryPath.path is sep.join of these. */
  function Names(p: Parsed): seq<string> {
    if Anchored(p) then Tail(p.parts) else p.parts
  }

  /** pathlib's convention: an anchored path carries its anchor as first part. */
  predicate WellFormed(p: Parsed) {
    Anchored(p) ==> |p.parts| >= 1
  }

  /** Stand-in for pathlib's str(): the anchor followed by the names, or ".". */
  function Format(p: Parsed): string {
    var s := if Anchored(p) then p.drv + p.root + JoinSep(Tail(p.parts)) else JoinSep(p.parts);
    if s == "" then "." else s
  }

  // ---------------------------------------------------------------------
  // Join and the single-part collapse
  // ---------------------------------------------------------------------

  /** join_parsed_parts as written: a right operand with a drive replaces the
      left one; otherwise the parts are concatenated and a root is added to
      a root-less left operand. */
  function JoinParsedParts(a: Parsed, b: Parsed): Parsed {
    if b.drv != "" then b
    else
      var root := if a.root == "" && b.parts != [] then [Sep] else a.root;
      Parsed(a.drv, root, a.parts + b.parts)
  }

  /** join_parsed_parts as evidently intended: the root is added only where a
      drive stands without one (the collapsed bare root). */
  function Join(a: Parsed, b: Parsed): Parsed {
    if b.drv != "" then b
    else
      var root := if a.drv != "" && a.root == "" && b.parts != [] then [Sep] else a.root;
      Parsed(a.drv, root, a.parts + b.parts)
  }

  /** RegistryPath._from_parsed_parts as written: any one-part path becomes
      root "" and parts [drv]. */
  function CollapseAsWritten(p: Parsed): Parsed {
    if |p.parts| == 1 then Parsed(p.drv, "", [p.drv]) else p
  }

  /** _from_parsed_parts as evidently intended: only a bare root name (a path
      with a drive and nothing below it) is collapsed. */
  function Collapse(p: Parsed): Parsed {
    if |p.parts| == 1 && p.drv != "" then Parsed(p.drv, "", [p.drv]) else p
  }

  /** Stand-in for pathlib's parent, which rebuilds the shorter path
      through _from_parsed_parts as written. */
  function Parent(p: Parsed): Parsed {
    if |p.parts| == 1 && Anchored(p) then p
    else if p.parts == [] then p
    else CollapseAsWritten(Parsed(p.drv, p.root, p.parts[..|p.parts| - 1]))
  }

  /** p / text: join_parsed_parts and _from_parsed_parts as written. */
  function Child(p: Parsed, text: string): Parsed {
    CollapseAsWritten(JoinParsedParts(p, Parse(text)))
  }

  /** iterdir's child as evidently intended: the enumerated subkey name is
      appended as one literal name, never re-parsed. */
  function ChildNamed(p: Parsed, name: string): Parsed {
    Collapse(Join(p, Parsed("", "", [name])))
  }

  // ---------------------------------------------------------------------
  // Facts about the string helpers
  // ---------------------------------------------------------------------

  predicate NameChar(c: char) {
    'A' <= c <= 'Z' || c == '_'
  }

  /** Every key of rootkey_map is a non-empty word of capitals and underscores. */
  lemma RootKeysShape(k: string)
    requires k in RootKeyMap
    ensures k != "" && forall i :: 0 <= i < |k| ==> NameChar(k[i])
  {
    assert k == "HKEY_CLASSES_ROOT" || k == "HKCR" || k == "HKEY_CURRENT_USER" || k == "HKCU"
      || k == "HKEY_LOCAL_MACHINE" || k == "HKLM" || k == "HKEY_USERS" || k == "HKU"
      || k == "HKEY_PERFORMANCE_DATA" || k == "HKEY_CURRENT_CONFIG" || k == "HKCC" || k == "HKEY_DYN_DATA";
  }

  lemma RootNameShape(s: string)
    requires IsRootName(s)
    ensures s != "" && Sep !in s && AltSep !in s
  {
    var u := Upper(s);
    RootKeysShape(u);
    forall i | 0 <= i < |s| ensures s[i] != Sep && s[i] != AltSep {
      assert NameChar(u[i]);
    }
  }

  lemma IndexOfAt(s: string, c: char, from: nat, j: nat)
    requires from <= j < |s| && s[j] == c
    requires forall i :: from <= i < j ==> s[i] != c
    ensures IndexOf(s, c, from) == j
  {
  }

  lemma NormalizeNoAltSep(s: string)
    requires AltSep !in s
    ensures Normalize(s) == s
  {
  }

  lemma {:induction false} SplitJoin(names: seq<string>)
    requires names != []
    requires forall k :: 0 <= k < |names| ==> Sep !in names[k]
    ensures Split(JoinSep(names)) == names
  {
    if |names| == 1 {
      assert IndexOf(names[0], Sep, 0) == -1;
    } else {
      SplitCons(names[0], JoinSep(names[1..]));
      SplitJoin(names[1..]);
      assert names == [names[0]] + names[1..];
    }
  }

  /** Splitting stops at the first separator. */
  lemma SplitCons(a: string, rest: string)
    requires Sep !in a
    ensures Split(a + [Sep] + rest) == [a] + Split(rest)
  {
    var s := a + [Sep] + rest;
    var n := |a|;
    assert s[n] == Sep;
    assert forall i :: 0 <= i < n ==> s[i] == a[i];
    IndexOfAt(s, Sep, 0, n);
    assert s[..n] == a;
    assert s[n + 1..] == rest;
  }

  /** A name pathlib keeps as it is. */
  predicate PlainName(n: string) {
    n != "" && n != "." && Sep !in n && AltSep !in n
  }

  lemma {:induction false} KeepPlain(names: seq<string>)
    requires forall k :: 0 <= k < |names| ==> PlainName(names[k])
    ensures Keep(names) == names
  {
    if names != [] {
      KeepPlain(names[1..]);
      assert names == [names[0]] + names[1..];
    }
  }

  lemma {:induction false} JoinSepNoAltSep(names: seq<string>)
    requires forall k :: 0 <= k < |names| ==> PlainName(names[k])
    ensures AltSep !in JoinSep(names)
  {
    if |names| > 1 {
      JoinSepNoAltSep(names[1..]);
    }
  }

  lemma PlainParse(name: string)
    requires PlainName(name) && !IsRootName(name)
    ensures Parse(name) == Parsed("", "", [name])
  {
    NormalizeNoAltSep(name);
    assert name[0] != Sep;
    assert WindowsSplitRoot(name) == Split3("", "", name);
    assert IndexOf(name, Sep, 0) == -1;
    assert Split(name) == [name];
    assert Keep([name]) == [name];
  }

  // ---------------------------------------------------------------------
  // Root recognition (splitroot)
  // ---------------------------------------------------------------------

  /** A leading root name becomes the drive: with a separator after it the
      root is "\" and the rest follows; without one the whole text is the
      drive with nothing after it. The split loses no character. */
  lemma SplitRootPromotesRoot(t: string)
    requires IsRootName(Split(t)[0])
    ensures var r := SplitRoot(t);
      && r.drv + r.root + r.rest == t
      && r.drv == Split(t)[0]
      && (Sep in t ==> r.root == [Sep])
      && (Sep !in t ==> r.root == "" && r.rest == "" && r.drv == t)
  {
    var i := IndexOf(t, Sep, 0);
    if i < 0 {
      assert Split(t)[0] == t;
      SplitRootOfBareRoot(t);
    } else {
      SplitAtFirst(t, i);
      SplitRootOfRootedText(t[..i], t[i + 1..]);
    }
  }

  lemma SplitAtFirst(t: string, i: int)
    requires i == IndexOf(t, Sep, 0) && i >= 0
    ensures Split(t)[0] == t[..i] && t[..i] + [Sep] + t[i + 1..] == t && Sep in t
  {
    var rest := Split(t[i + 1..]);
    assert Split(t) == [t[..i]] + rest;
    assert Split(t)[0] == t[..i];
    assert t[i] == Sep;
    Rejoin(t, i);
  }

  /** Cutting a text at one of its separators and gluing it back is the text. */
  lemma Rejoin(t: string, i: nat)
    requires i < |t| && t[i] == Sep
    ensures t[..i] + [Sep] + t[i + 1..] == t
  {
    assert t[..i] + [Sep] + t[i + 1..] == t[..i] + t[i..];
    assert t[..i] + t[i..] == t;
  }

  lemma SplitRootOfBareRoot(r: string)
    requires IsRootName(r)
    ensures SplitRoot(r) == Split3(r, "", "")
  {
    RootNameShape(r);
    assert r[0] != Sep;
    assert WindowsSplitRoot(r) == Split3("", "", r);
    assert IndexOf(r, Sep, 0) == -1;
  }

  /** A remote text \\computer\KEY\rest keeps \\computer\KEY as its drive,
      whatever the rest holds, even a root name. */
  lemma SplitRootKeepsRemote(computer: string, key: string, rest: string)
    requires computer != "" && Sep !in computer
    requires key != "" && Sep !in key
    ensures SplitRoot([Sep, Sep] + computer + [Sep] + key + [Sep] + rest)
         == Split3([Sep, Sep] + computer + [Sep] + key, [Sep], rest)
  {
    WindowsSplitRemote(computer, key, rest);
    assert StartsUnc([Sep, Sep] + computer + [Sep] + key);
  }

  lemma WindowsSplitRemote(computer: string, key: string, rest: string)
    requires computer != "" && Sep !in computer
    requires key != "" && Sep !in key
    ensures WindowsSplitRoot([Sep, Sep] + computer + [Sep] + key + [Sep] + rest)
         == Split3([Sep, Sep] + computer + [Sep] + key, [Sep], rest)
  {
    var t := [Sep, Sep] + computer + [Sep] + key + [Sep] + rest;
    var index := 2 + |computer|;
    var index2 := index + 1 + |key|;
    assert forall i :: 2 <= i < index ==> t[i] == computer[i - 2];
    IndexOfAt(t, Sep, 2, index);
    assert forall i :: index + 1 <= i < index2 ==> t[i] == key[i - index - 1];
    IndexOfAt(t, Sep, index + 1, index2);
    assert t[..index2] == [Sep, Sep] + computer + [Sep] + key;
    assert t[index2 + 1..] == rest;
  }

  lemma SegmentsOfJoined(names: seq<string>)
    requires forall k :: 0 <= k < |names| ==> PlainName(names[k])
    ensures Segments(JoinSep(names)) == names
  {
    if names == [] {
      assert Split("") == [""];
      assert Keep([""]) == [];
    } else {
      SplitJoin(names);
      KeepPlain(names);
    }
  }

  lemma ParseFromSplit(t: string, s: Split3)
    requires SplitRoot(Normalize(t)) == s
    ensures Parse(t) == Parsed(s.drv, s.root,
      (if s.drv != "" || s.root != "" then [s.drv + s.root] else []) + Segments(s.rest))
  {
  }

  lemma ParseRemoteText(computer: string, key: string, names: seq<string>)
    requires computer != "" && Sep !in computer && AltSep !in computer
    requires key != "" && Sep !in key && AltSep !in key
    requires forall k :: 0 <= k < |names| ==> PlainName(names[k])
    ensures var drv := [Sep, Sep] + computer + [Sep] + key;
      Parse(drv + [Sep] + JoinSep(names)) == Parsed(drv, [Sep], [drv + [Sep]] + names)
  {
    var drv := [Sep, Sep] + computer + [Sep] + key;
    var t := drv + [Sep] + JoinSep(names);
    RemoteTextNoAltSep(computer, key, names);
    SplitRootKeepsRemote(computer, key, JoinSep(names));
    SegmentsOfJoined(names);
    ParseAnchored(t, drv, JoinSep(names), names);
  }

  lemma RemoteTextNoAltSep(computer: string, key: string, names: seq<string>)
    requires AltSep !in computer && AltSep !in key
    requires forall k :: 0 <= k < |names| ==> PlainName(names[k])
    ensures AltSep !in [Sep, Sep] + computer + [Sep] + key + [Sep] + JoinSep(names)
  {
    JoinSepNoAltSep(names);
    assert AltSep !in [Sep, Sep] + computer;
    assert AltSep !in [Sep, Sep] + computer + [Sep];
    assert AltSep !in [Sep, Sep] + computer + [Sep] + key + [Sep];
  }

  lemma RootedTextNoAltSep(r: string, names: seq<string>)
    requires AltSep !in r
    requires forall k :: 0 <= k < |names| ==> PlainName(names[k])
    ensures AltSep !in r + [Sep] + JoinSep(names)
  {
    JoinSepNoAltSep(names);
    assert AltSep !in r + [Sep];
  }

  /** A text without "/" that splits into a drive, "\" and a remainder
      whose segments are names parses to that drive, root and names. */
  lemma ParseAnchored(t: string, drv: string, rest: string, names: seq<string>)
    requires AltSep !in t && SplitRoot(t) == Split3(drv, [Sep], rest) && Segments(rest) == names
    ensures Parse(t) == Parsed(drv, [Sep], [drv + [Sep]] + names)
  {
    NormalizeNoAltSep(t);
  }

  /** Parsing a remote text keeps the remote drive and the names after it,
      and prints back to the same text. */
  lemma ParseRemote(computer: string, key: string, names: seq<string>)
    requires computer != "" && Sep !in computer && AltSep !in computer
    requires key != "" && Sep !in key && AltSep !in key
    requires forall k :: 0 <= k < |names| ==> PlainName(names[k])
    ensures var drv := [Sep, Sep] + computer + [Sep] + key;
      var t := drv + [Sep] + JoinSep(names);
      && Parse(t) == Parsed(drv, [Sep], [drv + [Sep]] + names)
      && Names(Parse(t)) == names
      && Format(Parse(t)) == t
  {
    ParseRemoteText(computer, key, names);
    FormatAnchored([Sep, Sep] + computer + [Sep] + key, names);
  }

  lemma SplitRootOfRootedText(r: string, rest: string)
    requires IsRootName(r)
    ensures SplitRoot(r + [Sep] + rest) == Split3(r, [Sep], rest)
  {
    RootNameShape(r);
    var t := r + [Sep] + rest;
    assert t[0] != Sep;
    assert WindowsSplitRoot(t) == Split3("", "", t);
    assert forall i :: 0 <= i < |r| ==> t[i] == r[i];
    IndexOfAt(t, Sep, 0, |r|);
    assert t[..|r|] == r;
    assert t[|r| + 1..] == rest;
  }

  lemma ParseRootedText(r: string, names: seq<string>)
    requires IsRootName(r)
    requires forall k :: 0 <= k < |names| ==> PlainName(names[k])
    ensures Parse(r + [Sep] + JoinSep(names)) == Parsed(r, [Sep], [r + [Sep]] + names)
  {
    var j := JoinSep(names);
    var t := r + [Sep] + j;
    RootNameShape(r);
    RootedTextNoAltSep(r, names);
    SplitRootOfRootedText(r, j);
    SegmentsOfJoined(names);
    ParseAnchored(t, r, j, names);
  }

  lemma FormatAnchored(drv: string, names: seq<string>)
    requires drv != ""
    ensures var p := Parsed(drv, [Sep], [drv + [Sep]] + names);
      Names(p) == names && Format(p) == drv + [Sep] + JoinSep(names)
  {
    var p := Parsed(drv, [Sep], [drv + [Sep]] + names);
    assert Tail(p.parts) == names;
  }

  /** The inverse of Format on canonical texts: ROOT\name\...\name parses to
      the root as drive, "\" as root and the names in order, and prints back
      to the same text. */
  lemma ParseFormatRoundTrip(r: string, names: seq<string>)
    requires IsRootName(r)
    requires forall k :: 0 <= k < |names| ==> PlainName(names[k])
    ensures var t := r + [Sep] + JoinSep(names);
      && Parse(t) == Parsed(r, [Sep], [r + [Sep]] + names)
      && Names(Parse(t)) == names
      && Format(Parse(t)) == t
  {
    RootNameShape(r);
    ParseRootedText(r, names);
    FormatAnchored(r, names);
  }

  /** A bare root name parses to itself as drive, with no root and no names. */
  lemma ParseBareRoot(r: string)
    requires IsRootName(r)
    ensures Parse(r) == Parsed(r, "", [r]) && Names(Parse(r)) == [] && Format(Parse(r)) == r
  {
    RootNameShape(r);
    NormalizeNoAltSep(r);
    SplitRootOfBareRoot(r);
    ParseFromSplit(r, Split3(r, "", ""));
    SegmentsOfJoined([]);
    assert r + "" == r;
  }

  // ---------------------------------------------------------------------
  // Join
  // ---------------------------------------------------------------------

  /** A right operand that names a root re-roots the join: the left operand
      is discarded and the result is the right operand's parse, unchanged. */
  lemma JoinRerootsOnRootedText(a: Parsed, t: string)
    requires IsRootName(Split(Normalize(t))[0])
    ensures JoinParsedParts(a, Parse(t)) == Parse(t)
    ensures Join(a, Parse(t)) == Parse(t)
  {
    SplitRootPromotesRoot(Normalize(t));
    RootNameShape(Split(Normalize(t))[0]);
  }

  /** The intended join appends the right operand's names to the left's. */
  lemma JoinAppendsNames(a: Parsed, b: Parsed)
    requires WellFormed(a)
    requires b.drv == "" && b.root == ""
    ensures WellFormed(Join(a, b)) && Join(a, b).drv == a.drv
    ensures Anchored(Join(a, b)) == Anchored(a)
    ensures Names(Join(a, b)) == Names(a) + Names(b)
  {
    if Anchored(a) {
      assert Tail(a.parts + b.parts) == Tail(a.parts) + b.parts;
    }
  }

  /** The join as written appends the names exactly when the left operand is
      anchored or nothing is appended: onto a relative left operand it adds
      a root, and the left operand's first name is then taken for the anchor. */
  lemma JoinAsWrittenAppendsIff(a: Parsed, b: Parsed)
    requires WellFormed(a)
    requires b.drv == "" && b.root == ""
    ensures Names(JoinParsedParts(a, b)) == Names(a) + Names(b) <==> (Anchored(a) || b.parts == [])
  {
    var j := JoinParsedParts(a, b);
    if Anchored(a) {
      assert Tail(a.parts + b.parts) == Tail(a.parts) + b.parts;
    } else if b.parts != [] {
      assert Anchored(j);
      assert |Names(j)| == |a.parts| + |b.parts| - 1;
    }
  }

  /** Both joins agree whenever the left operand is anchored. */
  lemma JoinAgreesWhenAnchored(a: Parsed, b: Parsed)
    requires Anchored(a)
    ensures Join(a, b) == JoinParsedParts(a, b)
  {
  }

  /** str(RegistryPath('A') / 'B') is '\B': the relative name A is lost. */
  lemma JoinAsWrittenDropsRelativeName()
    ensures JoinParsedParts(Parsed("", "", ["A"]), Parsed("", "", ["B"])) == Parsed("", [Sep], ["A", "B"])
    ensures Format(JoinParsedParts(Parsed("", "", ["A"]), Parsed("", "", ["B"]))) == [Sep] + "B"
    ensures Format(Join(Parsed("", "", ["A"]), Parsed("", "", ["B"]))) == "A" + [Sep] + "B"
  {
    assert JoinSep(["A", "B"]) == "A" + [Sep] + JoinSep(["B"]);
  }

  // ---------------------------------------------------------------------
  // Collapse, parent, children
  // ---------------------------------------------------------------------

  /** The intended collapse never changes which names a path denotes. */
  lemma CollapseKeepsNames(p: Parsed)
    requires WellFormed(p)
    ensures WellFormed(Collapse(p)) && Collapse(p).drv == p.drv
    ensures Anchored(Collapse(p)) == Anchored(p)
    ensures Names(Collapse(p)) == Names(p)
  {
  }

  /** A bare root name is stored as the single part drv with an empty root,
      and prints as the name alone. */
  lemma CollapseBareRoot(r: string)
    requires IsRootName(r)
    ensures Collapse(Parsed(r, [Sep], [r + [Sep]])) == Parsed(r, "", [r])
    ensures Format(Collapse(Parsed(r, [Sep], [r + [Sep]]))) == r
  {
    RootNameShape(r);
  }

  /** The collapse as written turns the relative one-part path B into the
      empty path "." : the name B is lost. pathlib reaches it through
      parent, so RegistryPath('A\\B').parent prints as ".". */
  lemma CollapseAsWrittenLosesRelativeName()
    ensures CollapseAsWritten(Parsed("", "", ["B"])) == Parsed("", "", [""])
    ensures Names(CollapseAsWritten(Parsed("", "", ["B"]))) != Names(Parsed("", "", ["B"]))
    ensures Format(CollapseAsWritten(Parsed("", "", ["B"]))) == "."
    ensures Format(Collapse(Parsed("", "", ["B"]))) == "B"
    ensures Parse("A" + [Sep] + "B") == Parsed("", "", ["A", "B"])
    ensures Format(Parent(Parse("A" + [Sep] + "B"))) == "."
  {
    ParseRelativePair();
  }

  /** A\B has no drive and no root: it parses to the two names. */
  lemma ParseRelativePair()
    ensures Parse("A" + [Sep] + "B") == Parsed("", "", ["A", "B"])
  {
    var t := "A" + [Sep] + "B";
    NormalizeNoAltSep(t);
    SplitRootOfRelativePair();
    SplitOfPair();
    KeepPlain(["A", "B"]);
    ParseFromSplit(t, Split3("", "", t));
  }

  lemma SplitRootOfRelativePair()
    ensures WindowsSplitRoot("A" + [Sep] + "B") == Split3("", "", "A" + [Sep] + "B")
    ensures SplitRoot("A" + [Sep] + "B") == Split3("", "", "A" + [Sep] + "B")
  {
    var t := "A" + [Sep] + "B";
    assert WindowsSplitRoot(t) == Split3("", "", t);
    IndexOfAt(t, Sep, 0, 1);
    assert t[..1] == "A";
    NotRootName();
  }

  lemma NotRootName()
    ensures !IsRootName("A")
  {
    assert Upper("A") == "A";
  }

  lemma SplitOfPair()
    ensures Split("A" + [Sep] + "B") == ["A", "B"]
  {
    SplitCons("A", "B");
    assert IndexOf("B", Sep, 0) == -1;
  }

  /** Both collapses agree on paths with a drive. */
  lemma CollapseAgreesWithDrive(p: Parsed)
    requires p.drv != ""
    ensures Collapse(p) == CollapseAsWritten(p)
  {
  }

  /** parent drops the last name and keeps the drive and the anchoring,
      except where the shorter path has one part and no drive: then the
      collapse as written empties it (the parent of A\B and of \A is "."). */
  lemma ParentDropsLastName(p: Parsed)
    requires WellFormed(p) && Names(p) != []
    ensures WellFormed(Parent(p)) && Parent(p).drv == p.drv
    ensures p.drv != "" || |p.parts| != 2 ==>
      && Anchored(Parent(p)) == Anchored(p)
      && Names(Parent(p)) == Names(p)[..|Names(p)| - 1]
    ensures p.drv == "" && |p.parts| == 2 ==>
      && Parent(p) == Parsed("", "", [""])
      && Format(Parent(p)) == "."
  {
    var q := Parsed(p.drv, p.root, p.parts[..|p.parts| - 1]);
    CollapseKeepsNames(q);
    if p.drv != "" {
      CollapseAgreesWithDrive(q);
    }
    if Anchored(p) {
      assert Tail(q.parts) == Tail(p.parts)[..|Tail(p.parts)| - 1];
    }
  }

  /** parent returns the path itself exactly for a bare anchor and for the
      empty path; otherwise it drops one part. The drive is kept. */
  lemma ParentShrinks(p: Parsed)
    requires WellFormed(p)
    ensures WellFormed(Parent(p)) && Parent(p).drv == p.drv
    ensures Parent(p) == p <==> (|p.parts| == 1 && Anchored(p)) || p.parts == []
    ensures Parent(p) != p ==> |Parent(p).parts| == |p.parts| - 1
  {
  }

  /** The parent of a top-level key is the bare root, printed without "\". */
  lemma ParentOfTopKey(r: string, name: string)
    requires IsRootName(r) && PlainName(name)
    ensures Format(Parent(Parse(r + [Sep] + name))) == r
  {
    ParseRootedText(r, [name]);
    assert JoinSep([name]) == name;
    assert [r + [Sep]] + [name] == [r + [Sep], name];
    var p := Parsed(r, [Sep], [r + [Sep], name]);
    assert p.parts[..1] == [r + [Sep]];
    RootNameShape(r);
    assert Parent(p) == Parsed(r, "", [r]);
  }

  /** The intended child appends exactly the given name, whatever it is. */
  lemma ChildNamedAppends(p: Parsed, name: string)
    requires WellFormed(p)
    ensures WellFormed(ChildNamed(p, name)) && ChildNamed(p, name).drv == p.drv
    ensures Anchored(ChildNamed(p, name)) == Anchored(p)
    ensures Names(ChildNamed(p, name)) == Names(p) + [name]
  {
    JoinAppendsNames(p, Parsed("", "", [name]));
    CollapseKeepsNames(Join(p, Parsed("", "", [name])));
  }

  /** self / name for a plain name that is not a root name agrees with the
      intended child exactly when self is anchored: onto a relative path
      the join as written puts a root. */
  lemma ChildOfPlainName(p: Parsed, name: string)
    requires WellFormed(p) && PlainName(name) && !IsRootName(name)
    ensures Child(p, name) == ChildNamed(p, name) <==> Anchored(p)
  {
    PlainParse(name);
    if Anchored(p) {
      assert |p.parts + [name]| >= 2;
    } else if p.parts == [] {
      assert Child(p, name) == Parsed("", "", [""]);
      assert ChildNamed(p, name) == Parsed("", "", [name]);
    } else {
      assert Child(p, name).root == [Sep];
    }
  }

  /** self / name for a plain name that is not a root name keeps the drive,
      and is the key one level down exactly when self is anchored. */
  lemma PlainChildAppends(p: Parsed, name: string)
    requires WellFormed(p) && PlainName(name) && !IsRootName(name)
    ensures Child(p, name).drv == p.drv
    ensures Names(Child(p, name)) == Names(p) + [name] <==> Anchored(p)
  {
    ChildOfPlainName(p, name);
    ChildNamedAppends(p, name);
    if !Anchored(p) {
      PlainParse(name);
      var j := JoinParsedParts(p, Parsed("", "", [name]));
      if p.parts == [] {
        assert Child(p, name) == Parsed("", "", [""]);
      } else {
        assert j.root == [Sep] && |j.parts| >= 2;
        assert |Names(Child(p, name))| == |p.parts|;
      }
    }
  }

  /** self / name re-roots when a subkey is named like a root: the child of
      HKCU\T named HKLM is the root HKLM itself, not HKCU\T\HKLM. */
  lemma ChildOfRootNamedKey(p: Parsed)
    requires WellFormed(p)
    ensures Child(p, "HKLM") == Parsed("HKLM", "", ["HKLM"])
    ensures Names(Child(p, "HKLM")) != Names(p) + ["HKLM"]
  {
    assert Upper("HKLM") == "HKLM";
    ParseBareRoot("HKLM");
  }
}
