/** Value-type inference of the mapping interface (regpath.py, __setitem__,
    __getitem__ and RegExpandSz): which registry type a Python value is
    stored under, and how a stored value is handed back. */
module Values {

  /** Registry value types; RegOther carries winreg's numeric code of any
      other type. */
  datatype RegType =
    | RegNone | RegSz | RegExpandSz | RegBinary | RegDword | RegMultiSz
    | RegOther(code: int)

  type Byte = b: int | 0 <= b < 256

  /** The Python values the mapping interface can be handed. PyExpandSz is a
      RegExpandSz: a str subclass that carries its own type through
      _get_regvalue. PyBool is kept apart because bool is a subclass of int.
      PyOther stands for every other object (float, tuple, dict, ...). */
  datatype PyValue =
    | PyNone
    | PyStr(s: string)
    | PyExpandSz(s: string)
    | PyBytes(b: seq<Byte>)
    | PyInt(i: int)
    | PyBool(flag: bool)
    | PyList(items: seq<PyValue>)
    | PyOther

  /** The failures of the mapping interface and of the registry. */
  datatype Error =
    | ValueError        // negative integer, or data winreg cannot convert
    | NotImplemented    // integer above 32 bits (REG_QWORD not implemented)
    | TypeError         // value of no supported type
    | KeyError          // a drive that rootkey_map does not know
    | FileNotFound      // key or value absent
    | AccessDenied      // deleting a key that has subkeys, or a root key
    | NoMoreItems       // enumeration index past the end
    | KeyDeleted        // handle to a key that no longer exists
    | NetworkPath       // remote registry not reachable
    | BadKey            // key deeper than the registry allows
    | RecursionError    // mkdir recursing on an unreachable bare root

  datatype Result<T> = Ok(value: T) | Err(error: Error)

  const DwordMax: int := 0xFFFF_FFFF

  /** Data as the registry holds it. */
  datatype RegData =
    | Text(s: string)
    | Bytes(b: seq<Byte>)
    | Number(n: nat)
    | Texts(ss: seq<string>)
    | Empty

  /** A stored value: data and its type. */
  datatype Stored = Stored(data: RegData, tag: RegType)

  predicate IsText(v: PyValue) {
    v.PyStr? || v.PyExpandSz?
  }

  predicate AllText(items: seq<PyValue>) {
    forall k :: 0 <= k < |items| ==> IsText(items[k])
  }

  function TextOf(v: PyValue): string
    requires IsText(v)
  {
    v.s
  }

  function TextsOf(items: seq<PyValue>): (r: seq<string>)
    requires AllText(items)
    ensures |r| == |items|
    ensures forall k :: 0 <= k < |items| ==> r[k] == TextOf(items[k])
  {
    if items == [] then [] else [TextOf(items[0])] + TextsOf(items[1..])
  }

  /** __setitem__'s choice of type: the value's own _get_regvalue first, then
      str, bytes, int (0 to 0xFFFFFFFF; negative raises ValueError, larger
      raises NotImplementedError), list, None; anything else raises TypeError.
      The value handed on is the value itself. */
  function InferType(v: PyValue): (r: Result<(PyValue, RegType)>)
    ensures r.Ok? ==> r.value.0 == v
    ensures r == Err(ValueError) <==> ((v.PyInt? && v.i < 0))
    ensures r == Err(NotImplemented) <==> (v.PyInt? && v.i > DwordMax)
    ensures r == Err(TypeError) <==> v.PyOther?
    ensures r.Ok? && r.value.1 == RegExpandSz <==> v.PyExpandSz?
    ensures v.PyExpandSz? ==> r == Ok((v, RegExpandSz))
    ensures v.PyStr? ==> r == Ok((v, RegSz))
    ensures v.PyBytes? ==> r == Ok((v, RegBinary))
    ensures v.PyInt? && 0 <= v.i <= DwordMax ==> r == Ok((v, RegDword))
    ensures v.PyBool? ==> r == Ok((v, RegDword))
    ensures v.PyList? ==> r == Ok((v, RegMultiSz))
    ensures v.PyNone? ==> r == Ok((v, RegNone))
  {
    match v
    case PyExpandSz(_) => Ok((v, RegExpandSz))
    case PyStr(_) => Ok((v, RegSz))
    case PyBytes(_) => Ok((v, RegBinary))
    case PyInt(i) =>
      if i < 0 then Err(ValueError)
      else if i <= DwordMax then Ok((v, RegDword))
      else Err(NotImplemented)
    case PyBool(_) => Ok((v, RegDword))
    case PyList(_) => Ok((v, RegMultiSz))
    case PyNone => Ok((v, RegNone))
    case PyOther => Err(TypeError)
  }

  /** The idealised conversion winreg.SetValueEx applies: text types take
      strings, binary and none take bytes or None, DWORD takes integers,
      MULTI_SZ takes a list of strings; any other pairing raises ValueError
      ("Could not convert the data to the specified type"). */
  function ToStored(v: PyValue, tag: RegType): Result<Stored> {
    match tag
    case RegSz | RegExpandSz =>
      if IsText(v) then Ok(Stored(Text(TextOf(v)), tag)) else Err(ValueError)
    case RegBinary | RegNone =>
      if v.PyBytes? then Ok(Stored(Bytes(v.b), tag))
      else if v.PyNone? then Ok(Stored(Empty, tag))
      else Err(ValueError)
    case RegDword =>
      if v.PyInt? && 0 <= v.i <= DwordMax then Ok(Stored(Number(v.i), tag))
      else if v.PyBool? then Ok(Stored(Number(if v.flag then 1 else 0), tag))
      else Err(ValueError)
    case RegMultiSz =>
      if v.PyList? && AllText(v.items) then Ok(Stored(Texts(TextsOf(v.items)), tag))
      else Err(ValueError)
    case RegOther(_) => Err(ValueError)
  }

  /** A REG_SZ or REG_EXPAND_SZ string as winreg reads it back: the text
      up to the first NUL character. */
  function UpToNul(s: string): (r: string)
    ensures r <= s && '\0' !in r
    ensures r == s || s[|r|] == '\0'
  {
    if s == [] then []
    else if s[0] == '\0' then []
    else [s[0]] + UpToNul(s[1..])
  }

  /** The strings of REG_MULTI_SZ data as winreg reads them back: the list
      ends at the first empty string, which reads as the terminator. */
  function UpToEmpty(ss: seq<string>): (r: seq<string>)
    ensures r <= ss && "" !in r
    ensures r == ss || ss[|r|] == ""
  {
    if ss == [] then []
    else if ss[0] == "" then []
    else [ss[0]] + UpToEmpty(ss[1..])
  }

  /** The value winreg.QueryValueEx returns for stored data: text up to its
      first NUL, a multi-string list up to its first empty string, and
      binary data of length zero as None. */
  function FromData(d: RegData): PyValue {
    match d
    case Text(s) => PyStr(UpToNul(s))
    case Bytes(b) => if b == [] then PyNone else PyBytes(b)
    case Number(n) => PyInt(n)
    case Texts(ss) =>
      var kept := UpToEmpty(ss);
      PyList(seq(|kept|, k requires 0 <= k < |kept| => PyStr(kept[k])))
    case Empty => PyNone
  }

  /** __getitem__'s wrapping: a string of type REG_EXPAND_SZ is handed back
      as RegExpandSz, everything else unwrapped. */
  function Wrap(v: PyValue, tag: RegType): (r: PyValue)
    requires !v.PyExpandSz?
    ensures r.PyExpandSz? <==> (tag == RegExpandSz && v.PyStr?)
    ensures r.PyExpandSz? ==> r.s == v.s
    ensures !r.PyExpandSz? ==> r == v
  {
    if tag == RegExpandSz && v.PyStr? then PyExpandSz(v.s) else v
  }

  /** What __setitem__ hands to SetValueEx, as the registry will store it. */
  function SetOutcome(v: PyValue): Result<Stored> {
    match InferType(v)
    case Err(e) => Err(e)
    case Ok(p) => ToStored(p.0, p.1)
  }

  /** What __getitem__ returns for a stored value. */
  function GetOutcome(st: Stored): PyValue {
    Wrap(FromData(st.data), st.tag)
  }

  /** The values that survive a store and a load unchanged. */
  predicate RoundTrips(v: PyValue) {
    match v
    case PyNone => true
    case PyStr(s) => '\0' !in s
    case PyExpandSz(s) => '\0' !in s
    case PyBytes(b) => b != []
    case PyInt(i) => 0 <= i <= DwordMax
    case PyList(items) =>
      forall k :: 0 <= k < |items| ==>
        items[k].PyStr? && items[k].s != "" && '\0' !in items[k].s
    case PyBool(_) => false
    case PyOther => false
  }

  /** Setting a value and reading it back gives the same value, with the
      RegExpandSz marker kept: None, str and RegExpandSz without NUL,
      non-empty bytes, 32-bit non-negative int, and a list of non-empty str
      without NUL. */
  lemma SetThenGet(v: PyValue)
    requires RoundTrips(v)
    ensures SetOutcome(v).Ok?
    ensures GetOutcome(SetOutcome(v).value) == v
  {
    match v
    case PyStr(s) => NoNulKept(s);
    case PyExpandSz(s) => NoNulKept(s);
    case PyList(items) =>
      var ss := TextsOf(items);
      NoEmptyKept(ss);
      var back := seq(|ss|, k requires 0 <= k < |ss| => PyStr(ss[k]));
      assert forall k :: 0 <= k < |items| ==> back[k] == items[k];
      assert back == items;
    case _ =>
  }

  lemma NoNulKept(s: string)
    requires '\0' !in s
    ensures UpToNul(s) == s
  {
  }

  lemma NoEmptyKept(ss: seq<string>)
    requires "" !in ss
    ensures UpToEmpty(ss) == ss
  {
  }

  /** What does not come back: empty bytes read as None, a list stops at its
      first empty string, and a string stops at its first NUL. */
  lemma ReadSideLosses()
    ensures SetOutcome(PyBytes([])).Ok?
    ensures GetOutcome(SetOutcome(PyBytes([])).value) == PyNone
    ensures SetOutcome(PyList([PyStr("a"), PyStr(""), PyStr("b")])).Ok?
    ensures GetOutcome(SetOutcome(PyList([PyStr("a"), PyStr(""), PyStr("b")])).value)
      == PyList([PyStr("a")])
    ensures SetOutcome(PyStr("a\0b")).Ok?
    ensures GetOutcome(SetOutcome(PyStr("a\0b")).value) == PyStr("a")
  {
    var items := [PyStr("a"), PyStr(""), PyStr("b")];
    assert TextsOf(items) == ["a", "", "b"];
    assert UpToEmpty(["a", "", "b"]) == ["a"];
    assert UpToNul("a\0b") == "a";
  }

  /** bool is an int: True is stored as the DWORD 1 and read back as 1. */
  lemma BoolStoredAsDword(flag: bool)
    ensures SetOutcome(PyBool(flag)) == Ok(Stored(Number(if flag then 1 else 0), RegDword))
    ensures GetOutcome(SetOutcome(PyBool(flag)).value) == PyInt(if flag then 1 else 0)
  {
  }

  /** Every setting either fails with the error __setitem__ names or stores a
      value of the type InferType chose; a list with a non-string item is
      refused by the conversion with ValueError. */
  lemma SetOutcomeErrors(v: PyValue)
    ensures SetOutcome(v).Err? <==>
      (v.PyInt? && (v.i < 0 || v.i > DwordMax)) || v.PyOther? || (v.PyList? && !AllText(v.items))
    ensures SetOutcome(v).Ok? ==> SetOutcome(v).value.tag == InferType(v).value.1
    ensures v.PyList? && !AllText(v.items) ==> SetOutcome(v) == Err(ValueError)
  {
  }
}
