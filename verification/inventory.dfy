/** Inventory extraction (`_extract_hosts_from_inventory_json`) and the
    result shaping of the `ansible-inventory` tool (`ansible_inventory`),
    src/ansible_mcp/server.py. */
module Inventory {
  import opened Results
  import opened Dicts
  import opened PyJson
  import opened Ordering
  import opened Seqs

  /** The reserved top-level key holding `hostvars`; it is never a group. */
  const MetaKey := "_meta"

  /** Where the extraction raises `AttributeError`: the decoded document is not
      a dict, or a truthy `_meta` / `hostvars` is not a dict. */
  datatype ExtractError = DataNotObject | MetaNotObject | HostvarsNotObject

  /** `hostvars.keys()` after `meta = data.get("_meta") or {}` and
      `hostvars = meta.get("hostvars") or {}`. */
  function HostvarKeys(data: Dict<Json>): (r: Result<seq<string>, ExtractError>)
    ensures !Truthy(GetOrNull(data, MetaKey)) ==> r == Ok([])
    ensures Truthy(GetOrNull(data, MetaKey)) && !GetOrNull(data, MetaKey).JObj? ==> r == Err(MetaNotObject)
    // a dict `_meta`: its `hostvars` decides
    ensures GetOrNull(data, MetaKey).JObj? ==>
      var hv := GetOrNull(GetOrNull(data, MetaKey).fields, "hostvars");
      && (!Truthy(hv) ==> r == Ok([]))
      && (Truthy(hv) && hv.JObj? ==> r == Ok(Keys(hv.fields)))
      && (Truthy(hv) && !hv.JObj? ==> r == Err(HostvarsNotObject))
    ensures r.Ok? && |r.value| > 0 ==>
      var meta := GetOrNull(data, MetaKey);
      meta.JObj? && GetOrNull(meta.fields, "hostvars").JObj?
      && r.value == Keys(GetOrNull(meta.fields, "hostvars").fields)
  {
    var meta := Or(GetOrNull(data, MetaKey), JObj([]));
    if !meta.JObj? then Err(MetaNotObject)
    else
      var hostvars := Or(GetOrNull(meta.fields, "hostvars"), JObj([]));
      if !hostvars.JObj? then Err(HostvarsNotObject)
      else Ok(Keys(hostvars.fields))
  }

  /** The list the loop walks for one group: `group_def.get("hosts") or []`,
      provided `group_def` is a dict and that value is a list. `None` when the
      entry is skipped without error. */
  function HostsList(def: Json): (r: Option<seq<Json>>)
    ensures !def.JObj? ==> r.None?
    ensures def.JObj? && !Truthy(GetOrNull(def.fields, "hosts")) ==> r == Some([])
    ensures def.JObj? && Truthy(GetOrNull(def.fields, "hosts")) ==>
      var hosts := GetOrNull(def.fields, "hosts");
      && (hosts.JArr? ==> r == Some(hosts.items))
      && (!hosts.JArr? ==> r.None?)
    ensures r.Some? && |r.value| > 0 ==> def.JObj? && GetOrNull(def.fields, "hosts") == JArr(r.value)
  {
    if !def.JObj? then None
    else
      match Or(GetOrNull(def.fields, "hosts"), JArr([]))
      case JArr(items) => Some(items)
      case _ => None
  }

  /** The string elements of a hosts list, in order (`if isinstance(h, str)`). */
  function StringHosts(items: seq<Json>): (r: seq<string>)
    ensures forall h :: h in r <==> JStr(h) in items
  {
    if |items| == 0 then []
    else
      assert items == [items[0]] + items[1..];
      (if items[0].JStr? then [items[0].s] else []) + StringHosts(items[1..])
  }

  /** `[str(h) for h in group_hosts]`. */
  function Members(items: seq<Json>, lib: Lib): seq<string>
  {
    seq(|items|, i requires 0 <= i < |items| => Str(items[i], lib))
  }

  /** The top-level entry is a group that gets an entry in `groups`. */
  predicate IsGroup(entry: (string, Json))
  {
    entry.0 != MetaKey && HostsList(entry.1).Some? && |HostsList(entry.1).value| > 0
  }

  /** The top-level entry adds host `h` to `hosts`. */
  predicate AddsHost(entry: (string, Json), h: string)
  {
    entry.0 != MetaKey && HostsList(entry.1).Some? && JStr(h) in HostsList(entry.1).value
  }

  /** One iteration of the group loop: what the entry `(name, def)` adds to
      the hosts found so far and to the `groups` dict. */
  function ScanEntry(acc: (seq<string>, Dict<seq<string>>), entry: (string, Json), lib: Lib)
    : (r: (seq<string>, Dict<seq<string>>))
  {
    if entry.0 == MetaKey || HostsList(entry.1).None? then acc
    else
      var hs := HostsList(entry.1).value;
      (acc.0 + StringHosts(hs), if |hs| > 0 then Put(acc.1, entry.0, Members(hs, lib)) else acc.1)
  }

  /** The group loop over `data.items()`: the hosts it adds, in the order it
      meets them, and the `groups` dict it builds. */
  function ScanGroups(items: Dict<Json>, lib: Lib): (r: (seq<string>, Dict<seq<string>>))
    decreases |items|
  {
    if |items| == 0 then ([], [])
    else ScanEntry(ScanGroups(items[..|items| - 1], lib), items[|items| - 1], lib)
  }

  /** The loop over one more entry is one more step. */
  lemma ScanSnoc(init: Dict<Json>, e: (string, Json), lib: Lib)
    ensures ScanGroups(init + [e], lib) == ScanEntry(ScanGroups(init, lib), e, lib)
  {
    assert (init + [e])[..|init|] == init;
  }

  /** One entry adds to `hosts` exactly the hosts `AddsHost` names. */
  lemma EntryHosts(acc: (seq<string>, Dict<seq<string>>), e: (string, Json), lib: Lib)
    ensures forall h :: h in ScanEntry(acc, e, lib).0 <==> h in acc.0 || AddsHost(e, h)
  {
  }

  /** One entry adds a `groups` key exactly when it is a group. */
  lemma EntryKeys(acc: (seq<string>, Dict<seq<string>>), e: (string, Json), lib: Lib)
    ensures KeySet(ScanEntry(acc, e, lib).1) == KeySet(acc.1) + (if IsGroup(e) then {e.0} else {})
  {
  }

  /** The loop's hosts are exactly those some entry adds. */
  lemma {:induction false} ScanHosts(items: Dict<Json>, lib: Lib)
    ensures forall h :: h in ScanGroups(items, lib).0 <==> exists i :: 0 <= i < |items| && AddsHost(items[i], h)
    decreases |items|
  {
    if |items| > 0 {
      var n := |items| - 1;
      var init := items[..n];
      var acc := ScanGroups(init, lib);
      ScanHosts(init, lib);
      EntryHosts(acc, items[n], lib);
      TakeLast(items);
      ScanSnoc(init, items[n], lib);
      forall h | h in ScanGroups(items, lib).0
        ensures exists i :: 0 <= i < |items| && AddsHost(items[i], h)
      {
        if h in acc.0 {
          var i :| 0 <= i < n && AddsHost(init[i], h);
          assert init[i] == items[i];
        } else {
          assert AddsHost(items[n], h);
        }
      }
      forall h | exists i :: 0 <= i < |items| && AddsHost(items[i], h)
        ensures h in ScanGroups(items, lib).0
      {
        var i :| 0 <= i < |items| && AddsHost(items[i], h);
        if i < n {
          assert init[i] == items[i];
          assert AddsHost(init[i], h);
        }
      }
    }
  }

  /** The loop's group names are exactly the names of the group entries. */
  lemma {:induction false} ScanKeys(items: Dict<Json>, lib: Lib)
    ensures forall g :: g in KeySet(ScanGroups(items, lib).1) <==>
      exists i :: 0 <= i < |items| && IsGroup(items[i]) && items[i].0 == g
    decreases |items|
  {
    if |items| > 0 {
      var n := |items| - 1;
      var init := items[..n];
      var acc := ScanGroups(init, lib);
      ScanKeys(init, lib);
      EntryKeys(acc, items[n], lib);
      TakeLast(items);
      ScanSnoc(init, items[n], lib);
      forall g | g in KeySet(ScanGroups(items, lib).1)
        ensures exists i :: 0 <= i < |items| && IsGroup(items[i]) && items[i].0 == g
      {
        if g in KeySet(acc.1) {
          var i :| 0 <= i < n && IsGroup(init[i]) && init[i].0 == g;
          assert init[i] == items[i];
        } else {
          assert IsGroup(items[n]) && items[n].0 == g;
        }
      }
      forall g | exists i :: 0 <= i < |items| && IsGroup(items[i]) && items[i].0 == g
        ensures g in KeySet(ScanGroups(items, lib).1)
      {
        var i :| 0 <= i < |items| && IsGroup(items[i]) && items[i].0 == g;
        if i < n {
          assert init[i] == items[i];
          assert IsGroup(init[i]);
        }
      }
    }
  }

  /** With distinct top-level keys, each group maps to its stringified hosts
      list, and the `groups` dict has distinct keys. */
  lemma {:induction false} ScanValues(items: Dict<Json>, lib: Lib)
    requires Distinct(items)
    ensures Distinct(ScanGroups(items, lib).1)
    ensures forall i :: 0 <= i < |items| && IsGroup(items[i]) ==>
      Get(ScanGroups(items, lib).1, items[i].0) == Some(Members(HostsList(items[i].1).value, lib))
    decreases |items|
  {
    if |items| > 0 {
      var n := |items| - 1;
      var init, e := items[..n], items[n];
      DistinctPrefix(items, n);
      ScanValues(init, lib);
      LastKeyFresh(items, lib);
      TakeLast(items);
      ScanSnoc(init, e, lib);
      forall i | 0 <= i < |items| && IsGroup(items[i])
        ensures Get(ScanGroups(items, lib).1, items[i].0) == Some(Members(HostsList(items[i].1).value, lib))
      {
        if i < n {
          assert init[i] == items[i];
          DistinctIndex(items);
          EarlierGroupValue(init, e, lib, items[i].0);
        } else {
          LastGroupValue(init, e, lib);
        }
      }
    }
  }

  /** The last entry, when it is a group, stores its own list. */
  lemma LastGroupValue(init: Dict<Json>, e: (string, Json), lib: Lib)
    requires IsGroup(e)
    ensures Get(ScanGroups(init + [e], lib).1, e.0) == Some(Members(HostsList(e.1).value, lib))
  {
    ScanSnoc(init, e, lib);
  }

  /** The last entry leaves every other name's list alone. */
  lemma EarlierGroupValue(init: Dict<Json>, e: (string, Json), lib: Lib, k: string)
    requires k != e.0
    ensures Get(ScanGroups(init + [e], lib).1, k) == Get(ScanGroups(init, lib).1, k)
  {
    ScanSnoc(init, e, lib);
  }

  /** With distinct top-level keys, the last entry's key is not yet a group
      when the loop reaches it. */
  lemma LastKeyFresh(items: Dict<Json>, lib: Lib)
    requires |items| > 0 && Distinct(items)
    ensures items[|items| - 1].0 !in KeySet(ScanGroups(items[..|items| - 1], lib).1)
  {
    var n := |items| - 1;
    ScanKeys(items[..n], lib);
    DistinctIndex(items);
    assert forall i :: 0 <= i < n ==> items[..n][i] == items[i];
  }

  /** What the extraction returns: the hosts in discovery order (the Python
      `set` is the set of these) and the `groups` dict. */
  datatype Extraction = Extraction(discovered: seq<string>, groups: Dict<seq<string>>)

  /** `_extract_hosts_from_inventory_json(data)`. */
  function Extract(data: Json, lib: Lib): (r: Result<Extraction, ExtractError>)
    ensures !data.JObj? ==> r == Err(DataNotObject)
    ensures data.JObj? ==> (r.Ok? <==> HostvarKeys(data.fields).Ok?)
    ensures data.JObj? && r.Err? ==> r.error == HostvarKeys(data.fields).error
    // hosts: the hostvars keys and the string members of every group, nothing else
    ensures r.Ok? ==> forall h :: h in r.value.discovered <==>
      h in HostvarKeys(data.fields).value || exists i :: 0 <= i < |data.fields| && AddsHost(data.fields[i], h)
    // groups: exactly the non-meta entries whose hosts list is a non-empty list
    ensures r.Ok? ==> MetaKey !in KeySet(r.value.groups)
    ensures r.Ok? ==> forall g :: g in KeySet(r.value.groups) <==>
      exists i :: 0 <= i < |data.fields| && IsGroup(data.fields[i]) && data.fields[i].0 == g
    // each group's list, for a document with distinct keys: ExtractGroupMembers
  {
    if !data.JObj? then Err(DataNotObject)
    else match HostvarKeys(data.fields)
      case Err(e) => Err(e)
      case Ok(keys) =>
        ScanHosts(data.fields, lib);
        ScanKeys(data.fields, lib);
        var (found, groups) := ScanGroups(data.fields, lib);
        Ok(Extraction(keys + found, groups))
  }

  /** A JSON object from `json.loads` has distinct keys; then every group's
      list is its hosts list in order, duplicates kept, each element passed
      through `str`, and `groups` has distinct keys. */
  lemma ExtractGroupMembers(data: Json, lib: Lib)
    requires data.JObj? && Distinct(data.fields)
    requires Extract(data, lib).Ok?
    ensures Distinct(Extract(data, lib).value.groups)
    ensures forall i :: 0 <= i < |data.fields| && IsGroup(data.fields[i]) ==>
      Get(Extract(data, lib).value.groups, data.fields[i].0) == Some(Members(HostsList(data.fields[i].1).value, lib))
  {
    ScanValues(data.fields, lib);
  }

  /** A group whose hosts are all strings has every member in `hosts`. */
  lemma StringGroupMembersAreHosts(data: Json, lib: Lib, i: nat)
    requires data.JObj? && Distinct(data.fields)
    requires Extract(data, lib).Ok?
    requires i < |data.fields| && IsGroup(data.fields[i])
    requires forall h :: h in HostsList(data.fields[i].1).value ==> h.JStr?
    ensures var ex := Extract(data, lib).value;
      forall m :: m in Get(ex.groups, data.fields[i].0).value ==> m in ex.discovered
  {
    var ex := Extract(data, lib).value;
    var hs := HostsList(data.fields[i].1).value;
    ExtractGroupMembers(data, lib);
    forall m | m in Get(ex.groups, data.fields[i].0).value ensures m in ex.discovered {
      var k :| 0 <= k < |hs| && Members(hs, lib)[k] == m;
      assert hs[k] in hs;
      assert AddsHost(data.fields[i], m);
    }
  }

  /** A top-level entry that is not a group with string members (`_meta`
      aside) changes nothing: dropping it gives the same extraction. */
  lemma {:induction false} InertEntryIgnored(a: Dict<Json>, x: (string, Json), b: Dict<Json>, lib: Lib)
    requires x.0 != MetaKey
    requires HostsList(x.1).None? || |HostsList(x.1).value| == 0
    ensures Extract(JObj(a + [x] + b), lib) == Extract(JObj(a + b), lib)
  {
    GetSkip(a, x, b, MetaKey);
    HostvarKeysFromMeta(a + [x] + b, a + b);
    ScanSkip(a, x, b, lib);
    ExtractFromParts(a + [x] + b, a + b, lib);
  }

  /** `HostvarKeys` reads only the `_meta` entry. */
  lemma HostvarKeysFromMeta(d1: Dict<Json>, d2: Dict<Json>)
    requires Get(d1, MetaKey) == Get(d2, MetaKey)
    ensures HostvarKeys(d1) == HostvarKeys(d2)
  {
    assert GetOrNull(d1, MetaKey) == GetOrNull(d2, MetaKey);
  }

  /** The extraction is determined by the hostvars keys and the group loop. */
  lemma ExtractFromParts(d1: Dict<Json>, d2: Dict<Json>, lib: Lib)
    requires HostvarKeys(d1) == HostvarKeys(d2)
    requires ScanGroups(d1, lib) == ScanGroups(d2, lib)
    ensures Extract(JObj(d1), lib) == Extract(JObj(d2), lib)
  {
  }

  lemma EntryInert(acc: (seq<string>, Dict<seq<string>>), x: (string, Json), lib: Lib)
    requires x.0 != MetaKey
    requires HostsList(x.1).None? || |HostsList(x.1).value| == 0
    ensures ScanEntry(acc, x, lib) == acc
  {
    if HostsList(x.1).Some? {
      assert StringHosts([]) == [];
      assert acc.0 + [] == acc.0;
    }
  }

  lemma {:induction false} ScanSkip(a: Dict<Json>, x: (string, Json), b: Dict<Json>, lib: Lib)
    requires x.0 != MetaKey
    requires HostsList(x.1).None? || |HostsList(x.1).value| == 0
    ensures ScanGroups(a + [x] + b, lib) == ScanGroups(a + b, lib)
    decreases |b|
  {
    if |b| == 0 {
      AppendEmpty(a + [x]);
      AppendEmpty(a);
      TakeConcat(a, [x]);
      assert ScanGroups(a + [x], lib) == ScanEntry(ScanGroups(a, lib), x, lib);
      EntryInert(ScanGroups(a, lib), x, lib);
    } else {
      var init, e := b[..|b| - 1], b[|b| - 1];
      SplitLast(a + [x], b);
      SplitLast(a, b);
      ScanSkip(a, x, init, lib);
      ScanSnoc(a + [x] + init, e, lib);
      ScanSnoc(a + init, e, lib);
    }
  }

  /** A worked document: `_meta.hostvars` has `a` and `b`, group `web` lists
      `b`, `c` and the number 7. */
  lemma ExampleExtraction(lib: Lib)
    ensures var hv := JObj([("a", JObj([])), ("b", JObj([]))]);
      var web := JObj([("hosts", JArr([JStr("b"), JStr("c"), JInt(7)]))]);
      var r := Extract(JObj([("_meta", JObj([("hostvars", hv)])), ("web", web)]), lib);
      r.Ok? && (set h | h in r.value.discovered) == {"a", "b", "c"}
      && r.value.groups == [("web", ["b", "c", "7"])]
  {
    var hv := JObj([("a", JObj([])), ("b", JObj([]))]);
    var web := JObj([("hosts", JArr([JStr("b"), JStr("c"), JInt(7)]))]);
    var meta := ("_meta", JObj([("hostvars", hv)]));
    var data := [meta, ("web", web)];
    ExampleHostvars(hv, data);
    ExampleScan(lib, meta, web, data);
    var r := Extract(JObj(data), lib);
    assert r == Ok(Extraction(["a", "b"] + ["b", "c"], [("web", ["b", "c", "7"])]));
    ExampleHostSet(r.value.discovered);
  }

  /* The helpers below take their literals as parameters pinned by a
     `requires` rather than writing them in the body: with a literal in
     scope the verifier unfolds `Extract`, `Keys` and the set comprehension
     on it eagerly, and the proof runs out of resource on some solver seeds. */
  lemma ExampleHostSet(s: seq<string>)
    requires s == ["a", "b"] + ["b", "c"]
    ensures (set h | h in s) == {"a", "b", "c"}
  {
    assert s == ["a", "b", "b", "c"];
  }

  lemma ExampleHostvars(hv: Json, data: Dict<Json>)
    requires hv == JObj([("a", JObj([])), ("b", JObj([]))])
    requires data == [("_meta", JObj([("hostvars", hv)])), ("web", JObj([("hosts", JArr([JStr("b"), JStr("c"), JInt(7)]))]))]
    ensures HostvarKeys(data) == Ok(["a", "b"])
  {
    assert GetOrNull(data, MetaKey) == JObj([("hostvars", hv)]);
    assert GetOrNull(JObj([("hostvars", hv)]).fields, "hostvars") == hv;
    assert Keys(hv.fields) == ["a", "b"];
  }

  lemma ExampleScan(lib: Lib, meta: (string, Json), web: Json, data: Dict<Json>)
    requires meta.0 == MetaKey
    requires web == JObj([("hosts", JArr([JStr("b"), JStr("c"), JInt(7)]))])
    requires data == [meta, ("web", web)]
    ensures ScanGroups(data, lib) == (["b", "c"], [("web", ["b", "c", "7"])])
  {
    var hs := [JStr("b"), JStr("c"), JInt(7)];
    assert GetOrNull(web.fields, "hosts") == JArr(hs);
    assert HostsList(web) == Some(hs);
    assert StringHosts(hs) == ["b", "c"] by {
      assert hs[1..] == [JStr("c"), JInt(7)];
      assert hs[1..][1..] == [JInt(7)];
      assert StringHosts([JInt(7)]) == [];
    }
    assert Str(JInt(7), lib) == "7" by {
      assert Text.NatToString(7) == [Text.DigitChar(7)];
    }
    assert Members(hs, lib) == ["b", "c", "7"];
    assert ScanGroups([meta], lib) == ([], []) by {
      assert [meta][..0] == [];
    }
    assert data[..1] == [meta];
    assert ScanGroups(data, lib) == ScanEntry(ScanGroups([meta], lib), ("web", web), lib);
    assert Put([], "web", ["b", "c", "7"]) == [("web", ["b", "c", "7"])];
    assert [] + ["b", "c"] == ["b", "c"];
  }

  /** The argument vector of the `ansible-inventory` tool. */
  function InventoryArgv(inventory: Option<string>): (argv: seq<string>)
    ensures |argv| >= 2 && argv[..2] == ["ansible-inventory", "--list"]
    ensures Given(inventory) ==> argv[2..] == ["-i", inventory.value]
    ensures !Given(inventory) ==> |argv| == 2
  {
    ["ansible-inventory", "--list"] + (if Given(inventory) then ["-i", inventory.value] else [])
  }

  /** The dict `ansible_inventory` returns; `None` marks an absent key. */
  datatype InventoryReport = InventoryReport(
    ok: bool,
    rc: int,
    command: string,
    stderr: string,
    stdout: Option<string>,
    hosts: Option<seq<string>>,
    groups: Option<Dict<seq<string>>>,
    hostvarsKeys: Option<seq<string>>)

  /** `ansible_inventory` after the subprocess: `rc`, `out` and `err` are its
      exit code and streams, `parsed` is `json.loads(out)` (`None` when it
      raises). The extraction's own exceptions propagate. */
  function AnsibleInventory(inventory: Option<string>, includeHostvars: Option<bool>,
                            rc: int, out: string, err: string, parsed: Option<Json>, lib: Lib)
    : (r: Result<InventoryReport, ExtractError>)
    ensures r.Ok? ==> r.value.ok == (rc == 0) && r.value.rc == rc && r.value.stderr == err
    ensures r.Ok? ==> r.value.command == lib.shellJoin(InventoryArgv(inventory))
    // failed command or undecodable output: raw stdout back, no hosts or groups
    ensures rc != 0 || parsed.None? ==>
      r.Ok? && r.value.stdout == Some(out)
      && r.value.hosts.None? && r.value.groups.None? && r.value.hostvarsKeys.None?
    ensures rc == 0 && parsed.Some? ==> (r.Ok? <==> Extract(parsed.value, lib).Ok?)
    ensures rc == 0 && parsed.Some? && r.Ok? ==>
      var ex := Extract(parsed.value, lib).value;
      && r.value.stdout.None?
      && r.value.hosts.Some? && StrictlySorted(r.value.hosts.value)
      && (forall h :: h in r.value.hosts.value <==> h in ex.discovered)
      && r.value.groups.Some? && |r.value.groups.value| == |ex.groups|
      && (forall i :: 0 <= i < |ex.groups| ==>
            r.value.groups.value[i].0 == ex.groups[i].0
            && Sorted(r.value.groups.value[i].1)
            && multiset(r.value.groups.value[i].1) == multiset(ex.groups[i].1))
      && (r.value.hostvarsKeys.Some? <==> includeHostvars == Some(true))
      && (r.value.hostvarsKeys.Some? ==>
            Sorted(r.value.hostvarsKeys.value)
            && multiset(r.value.hostvarsKeys.value) == multiset(HostvarKeys(parsed.value.fields).value))
  {
    var base := InventoryReport(rc == 0, rc, lib.shellJoin(InventoryArgv(inventory)), err, None, None, None, None);
    if rc != 0 || parsed.None? then Ok(base.(stdout := Some(out)))
    else
      match Extract(parsed.value, lib)
      case Err(e) => Err(e)
      case Ok(ex) =>
        var keys := if includeHostvars == Some(true)
          then Some(SortStrings(HostvarKeys(parsed.value.fields).value)) else None;
        Ok(base.(hosts := Some(SortUnique(ex.discovered)),
                 groups := Some(MapValues(ex.groups, SortStrings)),
                 hostvarsKeys := keys))
  }

  /** `sorted(hosts)` depends only on which hosts were found: it is the one
      increasing list of them, whatever order the document listed them in. */
  lemma InventoryHostsCanonical(inventory: Option<string>, includeHostvars: Option<bool>,
                                rc: int, out: string, err: string, data: Json, lib: Lib, s: seq<string>)
    requires Extract(data, lib).Ok?
    requires StrictlySorted(s) && forall h :: h in s <==> h in Extract(data, lib).value.discovered
    ensures AnsibleInventory(inventory, includeHostvars, 0, out, err, Some(data), lib).value.hosts == Some(s)
  {
    var r := AnsibleInventory(inventory, includeHostvars, 0, out, err, Some(data), lib);
    StrictlySortedUnique(r.value.hosts.value, s);
  }
}
