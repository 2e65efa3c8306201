/** The registry store (`src/prefix/regeditor/registry.rs`): an in-memory
    registry of keys, each holding typed values, with exact-path lookups,
    slot-merging writes, `Delete` tombstones and the three-file precedence rule
    used when a prefix is opened. */
module Store {
  import opened Common
  import opened Strings

  /** How the default (unnamed) slot of a key is spelled at the API. */
  const DefaultSlotName: string := "(default)"

  /** A value name other than the default slot's spelling. */
  type PlainName = s: string | s != "(default)" witness ""

  datatype ValueName = Default | Named(name: PlainName)

  /** Typed registry values; `Delete` is the tombstone that removes the slot
      when the registry is written out. */
  datatype Value =
    | Sz(text: string)
    | ExpandSz(text: string)
    | Dword(number: u32)
    | Binary(bytes: seq<u8>)
    | MultiSz(strings: seq<string>)
    | Delete

  /** A key's values, and whether the whole key is marked deleted. */
  datatype Key = Key(values: map<ValueName, Value>, deleted: bool)

  datatype Entry = Entry(path: string, key: Key)

  /** The keys in the registry's iteration order. */
  datatype Registry = Registry(entries: seq<Entry>)

  /** The string a slot is compared against and reported as. */
  function Render(n: ValueName): string {
    match n
    case Default => DefaultSlotName
    case Named(s) => s
  }

  /** The slot a value-name string addresses: `"(default)"` is the default
      slot, every other string (including `""`) a named slot. */
  function SlotOf(name: string): (n: ValueName)
    ensures Render(n) == name
    ensures forall m :: Render(m) == name ==> m == n
  {
    if name == DefaultSlotName then Default else Named(name)
  }

  /** `""` and `"(default)"` address different slots. */
  lemma EmptyNameIsNotDefaultSlot()
    ensures SlotOf("") == Named("") && SlotOf(DefaultSlotName) == Default
    ensures SlotOf("") != SlotOf(DefaultSlotName)
  {
  }

  // ---------------------------------------------------------------------------
  // Lookup by exact key path
  // ---------------------------------------------------------------------------

  /** Index of the first entry at `path`, scanning from `from`. */
  function IndexFrom(entries: seq<Entry>, path: string, from: nat): (r: Option<nat>)
    requires from <= |entries|
    ensures r.Some? ==> from <= r.value < |entries| && entries[r.value].path == path
    ensures r.Some? ==> forall j :: from <= j < r.value ==> entries[j].path != path
    ensures r.None? ==> forall j :: from <= j < |entries| ==> entries[j].path != path
    decreases |entries| - from
  {
    if from == |entries| then None
    else if entries[from].path == path then Some(from)
    else IndexFrom(entries, path, from + 1)
  }

  function IndexOf(entries: seq<Entry>, path: string): Option<nat> {
    IndexFrom(entries, path, 0)
  }

  /** `key_exists`: some key path equals `path` exactly. */
  predicate KeyExists(reg: Registry, path: string)
    ensures KeyExists(reg, path) <==> exists i :: 0 <= i < |reg.entries| && reg.entries[i].path == path
  {
    IndexOf(reg.entries, path).Some?
  }

  function FindKey(reg: Registry, path: string): (r: Option<Key>)
    ensures r.Some? <==> KeyExists(reg, path)
  {
    match IndexOf(reg.entries, path)
    case None => None
    case Some(i) => Some(reg.entries[i].key)
  }

  /** `WineRegistry::new()`: a registry with no keys. */
  function New(): (r: Registry)
    ensures forall p :: !KeyExists(r, p)
  {
    Registry([])
  }

  /** All key paths in iteration order. */
  function Paths(reg: Registry): (r: seq<string>)
    ensures |r| == |reg.entries|
    ensures forall i :: 0 <= i < |r| ==> r[i] == reg.entries[i].path
  {
    seq(|reg.entries|, i requires 0 <= i < |reg.entries| => reg.entries[i].path)
  }

  /** No path occurs twice (true of every registry the store builds from an
      empty or parsed one). */
  ghost predicate UniquePaths(reg: Registry) {
    forall i, j :: 0 <= i < j < |reg.entries| ==> reg.entries[i].path != reg.entries[j].path
  }

  // ---------------------------------------------------------------------------
  // get_value / get_key_values
  // ---------------------------------------------------------------------------

  /** `get_value`: the value under the key whose path equals `path` and the
      slot whose rendering equals `name`; `None` if either is absent. */
  function GetValue(reg: Registry, path: string, name: string): (r: Option<Value>)
    ensures !KeyExists(reg, path) ==> r.None?
    ensures KeyExists(reg, path) ==>
      (r.Some? <==> exists vn :: vn in FindKey(reg, path).value.values && Render(vn) == name)
    ensures r.Some? ==>
      exists vn :: vn in FindKey(reg, path).value.values && Render(vn) == name
        && FindKey(reg, path).value.values[vn] == r.value
  {
    match FindKey(reg, path)
    case None => None
    case Some(k) =>
      var slot := SlotOf(name);
      if slot in k.values then Some(k.values[slot]) else None
  }

  /** `get_key_values`: every value of the key, by rendered name; empty when
      the key is absent.  It agrees with `get_value` name by name. */
  function GetKeyValues(reg: Registry, path: string): (r: map<string, Value>)
    ensures !KeyExists(reg, path) ==> r == map[]
    ensures forall n :: n in r <==> GetValue(reg, path, n).Some?
    ensures forall n :: n in r ==> GetValue(reg, path, n) == Some(r[n])
  {
    match FindKey(reg, path)
    case None => map[]
    case Some(k) =>
      var names := set vn | vn in k.values :: Render(vn);
      map n | n in names :: k.values[SlotOf(n)]
  }

  // ---------------------------------------------------------------------------
  // Writes
  // ---------------------------------------------------------------------------

  lemma {:induction false} IndexAfterReplace(entries: seq<Entry>, i: nat, e: Entry, p: string, from: nat)
    requires i < |entries| && e.path == entries[i].path && from <= |entries|
    ensures IndexFrom(entries[i := e], p, from) == IndexFrom(entries, p, from)
    decreases |entries| - from
  {
    if from < |entries| {
      IndexAfterReplace(entries, i, e, p, from + 1);
    }
  }

  lemma {:induction false} IndexAfterAppend(entries: seq<Entry>, e: Entry, p: string, from: nat)
    requires e.path != p && from <= |entries|
    ensures IndexFrom(entries + [e], p, from) == IndexFrom(entries, p, from)
    decreases |entries| - from
  {
    if from < |entries| {
      assert (entries + [e])[from] == entries[from];
      IndexAfterAppend(entries, e, p, from + 1);
    } else {
      assert (entries + [e])[from] == e;
    }
  }

  /** The key that results from storing `e` at `path`: an existing key is
      replaced in place, a new one goes at the end. */
  function PutKey(reg: Registry, path: string, k: Key): (r: Registry)
    ensures FindKey(r, path) == Some(k)
    ensures forall p :: p != path ==> FindKey(r, p) == FindKey(reg, p)
    ensures forall p :: KeyExists(r, p) <==> KeyExists(reg, p) || p == path
    ensures |r.entries| == |reg.entries| + (if KeyExists(reg, path) then 0 else 1)
    ensures UniquePaths(reg) ==> UniquePaths(r)
  {
    var e := Entry(path, k);
    match IndexOf(reg.entries, path)
    case Some(i) =>
      var r := Registry(reg.entries[i := e]);
      forall p ensures IndexOf(r.entries, p) == IndexOf(reg.entries, p) {
        IndexAfterReplace(reg.entries, i, e, p, 0);
      }
      r
    case None =>
      var r := Registry(reg.entries + [e]);
      forall p | p != path ensures IndexOf(r.entries, p) == IndexOf(reg.entries, p) {
        IndexAfterAppend(reg.entries, e, p, 0);
      }
      assert r.entries[|reg.entries|] == e;
      r
  }

  /** `set_value`: merges one value into the key at `path` (creating the key,
      and lifting a deletion mark), leaving every other slot alone. */
  function SetValue(reg: Registry, path: string, name: string, v: Value): (r: Registry)
    ensures GetValue(r, path, name) == Some(v)
    ensures forall p, n :: p != path || n != name ==> GetValue(r, p, n) == GetValue(reg, p, n)
    ensures forall p :: KeyExists(r, p) <==> KeyExists(reg, p) || p == path
    ensures |r.entries| == |reg.entries| + (if KeyExists(reg, path) then 0 else 1)
    ensures UniquePaths(reg) ==> UniquePaths(r)
  {
    var old_values := match FindKey(reg, path) case Some(k) => k.values case None => map[];
    var r := PutKey(reg, path, Key(old_values[SlotOf(name) := v], false));
    assert forall n :: n != name ==> SlotOf(n) != SlotOf(name) by {
      forall n | n != name ensures SlotOf(n) != SlotOf(name) {
        assert Render(SlotOf(n)) == n;
      }
    }
    r
  }

  /** `delete_value`: writes the `Delete` tombstone into the slot; the slot
      itself stays present. */
  function DeleteValue(reg: Registry, path: string, name: string): (r: Registry)
    ensures GetValue(r, path, name) == Some(Delete)
    ensures forall p, n :: p != path || n != name ==> GetValue(r, p, n) == GetValue(reg, p, n)
    ensures forall p :: KeyExists(r, p) <==> KeyExists(reg, p) || p == path
  {
    SetValue(reg, path, name, Delete)
  }

  /** `delete_key`: the key at `path` becomes a deleted key without values;
      it is still listed among the registry's keys. */
  function DeleteKey(reg: Registry, path: string): (r: Registry)
    ensures FindKey(r, path) == Some(Key(map[], true))
    ensures forall n :: GetValue(r, path, n).None?
    ensures forall p, n :: p != path ==> GetValue(r, p, n) == GetValue(reg, p, n)
    ensures forall p :: KeyExists(r, p) <==> KeyExists(reg, p) || p == path
  {
    PutKey(reg, path, Key(map[], true))
  }

  /** Every value outside the slot `name` of key `path` reads the same in
      `after` as in `before`. */
  ghost predicate Untouched(before: Registry, after: Registry, path: string, name: string) {
    forall p, n :: p != path || n != name ==> GetValue(after, p, n) == GetValue(before, p, n)
  }

  // ---------------------------------------------------------------------------
  // find_keys
  // ---------------------------------------------------------------------------

  function FindKeysIn(entries: seq<Entry>, pattern: string): (r: seq<string>)
    ensures |r| <= |entries|
    ensures forall p :: p in r <==>
      (exists i :: 0 <= i < |entries| && entries[i].path == p) && Contains(p, pattern)
    decreases |entries|
  {
    if |entries| == 0 then []
    else
      var rest := FindKeysIn(entries[1..], pattern);
      assert forall i :: 1 <= i < |entries| ==> entries[i] == entries[1..][i - 1];
      if Contains(entries[0].path, pattern) then [entries[0].path] + rest else rest
  }

  /** `find_keys`: the key paths containing `pattern`, in iteration order. */
  function FindKeys(reg: Registry, pattern: string): (r: seq<string>)
    ensures forall p :: p in r <==> KeyExists(reg, p) && Contains(p, pattern)
  {
    FindKeysIn(reg.entries, pattern)
  }

  lemma {:induction false} FindAllKeysIn(entries: seq<Entry>)
    ensures FindKeysIn(entries, "") == seq(|entries|, i requires 0 <= i < |entries| => entries[i].path)
    decreases |entries|
  {
    if |entries| > 0 {
      FindAllKeysIn(entries[1..]);
      EmptyContained(entries[0].path);
    }
  }

  /** The empty pattern lists every key, in order. */
  lemma FindAllKeys(reg: Registry)
    ensures FindKeys(reg, "") == Paths(reg)
  {
    FindAllKeysIn(reg.entries);
  }

  // ---------------------------------------------------------------------------
  // load_from_prefix: choosing among system.reg, user.reg and userdef.reg
  // ---------------------------------------------------------------------------

  /** What reading one `.reg` file of the prefix produced. */
  datatype RegFile = Absent | Unparsable | Parsed(registry: Registry)

  const NoRegistryFiles: string := "No valid registry files found in Wine prefix"

  /** `load_from_prefix`: the whole content of exactly one file wins.
      `user.reg` if it parsed; otherwise `userdef.reg` if it parsed and
      `system.reg` gave no keys; otherwise `system.reg`.  Missing and
      unparsable files are treated alike, and the call fails only when no
      file parsed. */
  function LoadFromPrefix(system: RegFile, user: RegFile, userdef: RegFile): (r: Result<Registry>)
    ensures r.Err? <==> !system.Parsed? && !user.Parsed? && !userdef.Parsed?
    ensures r.Err? ==> r.error == RegistryError(NoRegistryFiles)
    ensures user.Parsed? ==> r == Ok(user.registry)
    ensures !user.Parsed? && userdef.Parsed? && (!system.Parsed? || |system.registry.entries| == 0) ==>
      r == Ok(userdef.registry)
    ensures !user.Parsed? && system.Parsed? && (!userdef.Parsed? || |system.registry.entries| > 0) ==>
      r == Ok(system.registry)
  {
    var merged := if system.Parsed? then system.registry else New();
    var merged := if userdef.Parsed? && |merged.entries| == 0 then userdef.registry else merged;
    var merged := if user.Parsed? then user.registry else merged;
    if system.Parsed? || userdef.Parsed? || user.Parsed? then Ok(merged)
    else Err(RegistryError(NoRegistryFiles))
  }

  /** Precedence is wholesale: the result is one file's registry, never a
      union of keys from several files. */
  lemma LoadIsWholesale(system: RegFile, user: RegFile, userdef: RegFile)
    requires LoadFromPrefix(system, user, userdef).Ok?
    ensures var reg := LoadFromPrefix(system, user, userdef).value;
      (system.Parsed? && reg == system.registry)
      || (user.Parsed? && reg == user.registry)
      || (userdef.Parsed? && reg == userdef.registry)
  {
  }
}
