/** The project layer of src/ansible_mcp/server.py: loading the saved
    configuration (`_load_config`) and its save payload (`_save_config`), the
    environment a project hands to Ansible (`_project_env`), the project
    described by environment variables (`_split_paths`, `_project_from_env`)
    and the choice among them (`_resolve_project`). The process environment
    is an explicit parameter, and path resolution is the `resolve` library
    call. */
module Projects {
  import opened Results
  import opened Dicts
  import opened PyJson
  import Text
  import opened Seqs

  /** `os.pathsep` on POSIX systems. */
  const PathSep := ':'

  /** Variables a project exports to Ansible. */
  const RolesPathVar := "ANSIBLE_ROLES_PATH"
  const CollectionsPathVar := "ANSIBLE_COLLECTIONS_PATHS"

  /** Variables that describe a project without a configuration file. */
  const RootVar := "MCP_ANSIBLE_PROJECT_ROOT"
  const NameVar := "MCP_ANSIBLE_PROJECT_NAME"
  const InventoryVar := "MCP_ANSIBLE_INVENTORY"
  const RolesVar := "MCP_ANSIBLE_ROLES_PATH"
  const CollectionsVar := "MCP_ANSIBLE_COLLECTIONS_PATHS"
  const ExtraEnvPrefix := "MCP_ANSIBLE_ENV_"

  /** The name given to the environment project when none is set. */
  const DefaultEnvName := "env"

  /** The key of `defaults` naming the default project. */
  const DefaultProjectKey := "project"

  datatype ProjectDefinition = ProjectDefinition(
    name: string,
    root: string,
    inventory: Option<string>,
    rolesPaths: Option<seq<string>>,
    collectionsPaths: Option<seq<string>>,
    env: Option<Dict<string>>)

  datatype ServerConfiguration = ServerConfiguration(
    projects: Dict<ProjectDefinition>,
    defaults: Dict<Json>)

  /** A list that Python treats as true: present and non-empty. */
  predicate Listed<T>(o: Option<seq<T>>)
  {
    o.Some? && |o.value| > 0
  }

  /** The shape loading gives a project: an optional list or mapping is
      either absent or non-empty, never present and empty. */
  predicate Normal(d: ProjectDefinition)
  {
    && (d.rolesPaths.Some? ==> |d.rolesPaths.value| > 0)
    && (d.collectionsPaths.Some? ==> |d.collectionsPaths.value| > 0)
    && (d.env.Some? ==> |d.env.value| > 0)
  }

  /** Every project is stored under its own name and is normal. */
  predicate Consistent(ps: Dict<ProjectDefinition>)
  {
    forall i :: 0 <= i < |ps| ==> ps[i].1.name == ps[i].0 && Normal(ps[i].1)
  }

  // ---------------------------------------------------------------------------
  // Loading the saved configuration
  // ---------------------------------------------------------------------------

  /** Why loading fails, with the field concerned: `.get`/`.items` on a value
      that is not a dict (`AttributeError`), `list()`/`dict()` of a number or
      `True` (`TypeError`), `dict()` of a non-empty string (`ValueError`), or a
      value of a type the dataclass does not declare, which Python would keep
      and fail on later (this model refuses it at once). */
  datatype LoadError =
    | NotAMapping(at: string)
    | NotIterable(at: string)
    | BadDictSequence(at: string)
    | Unmodelled(at: string)

  /** The strings of a JSON list, when every item is a string. */
  function Strings(items: seq<Json>): (r: Option<seq<string>>)
    ensures r.Some? <==> forall i :: 0 <= i < |items| ==> items[i].JStr?
    ensures r.Some? ==>
      |r.value| == |items| && forall i :: 0 <= i < |items| ==> r.value[i] == items[i].s
  {
    if |items| == 0 then Some([])
    else if !items[0].JStr? then None
    else
      match Strings(items[1..])
      case None => None
      case Some(rest) => Some([items[0].s] + rest)
  }

  /** The string values of a JSON object, when every value is a string. */
  function StringValues(fields: Dict<Json>): (r: Option<Dict<string>>)
    ensures r.Some? <==> forall i :: 0 <= i < |fields| ==> fields[i].1.JStr?
    ensures r.Some? ==>
      |r.value| == |fields| && forall i :: 0 <= i < |fields| ==> r.value[i] == (fields[i].0, fields[i].1.s)
  {
    if |fields| == 0 then Some([])
    else if !fields[0].1.JStr? then None
    else
      match StringValues(fields[1..])
      case None => None
      case Some(rest) => Some([(fields[0].0, fields[0].1.s)] + rest)
  }

  /** `list(s)` of a string: its characters, each a one-character string. */
  function Chars(s: string): (r: seq<string>)
    ensures |r| == |s|
    ensures forall i :: 0 <= i < |s| ==> r[i] == [s[i]]
  {
    if |s| == 0 then [] else [[s[0]]] + Chars(s[1..])
  }

  /** `list(x or []) or None` for `roles_paths` and `collections_paths`: a
      list of strings is copied, a string gives its characters, a dict its
      keys. */
  function PathList(x: Json, at: string): (r: Result<Option<seq<string>>, LoadError>)
    ensures !Truthy(x) <==> r == Ok(None)
    ensures r.Ok? && r.value.Some? ==> |r.value.value| > 0
    ensures x.JArr? && Truthy(x) ==>
      (r.Ok? <==> forall i :: 0 <= i < |x.items| ==> x.items[i].JStr?)
    ensures x.JArr? && r.Ok? && r.value.Some? ==>
      |r.value.value| == |x.items| && forall i :: 0 <= i < |x.items| ==> r.value.value[i] == x.items[i].s
    ensures (x.JInt? || x.JBool?) && Truthy(x) ==> r == Err(NotIterable(at))
  {
    if !Truthy(x) then Ok(None)
    else
      match x
      case JArr(items) =>
        (match Strings(items)
         case Some(ss) => Ok(Some(ss))
         case None => Err(Unmodelled(at)))
      case JStr(s) => Ok(Some(Chars(s)))
      case JObj(fields) => Ok(Some(Keys(fields)))
      case _ => Err(NotIterable(at))
  }

  /** `dict(x or {}) or None` for `env`. */
  function EnvDict(x: Json, at: string): (r: Result<Option<Dict<string>>, LoadError>)
    ensures !Truthy(x) <==> r == Ok(None)
    ensures r.Ok? && r.value.Some? ==>
      x.JObj? && |r.value.value| == |x.fields| > 0 && forall i :: 0 <= i < |x.fields| ==> x.fields[i].1.JStr? && r.value.value[i] == (x.fields[i].0, x.fields[i].1.s)
    ensures x.JObj? && Truthy(x) ==>
      (r.Ok? <==> forall i :: 0 <= i < |x.fields| ==> x.fields[i].1.JStr?)
    ensures x.JStr? && Truthy(x) ==> r == Err(BadDictSequence(at))
    ensures (x.JInt? || x.JBool?) && Truthy(x) ==> r == Err(NotIterable(at))
  {
    if !Truthy(x) then Ok(None)
    else
      match x
      case JObj(fields) =>
        (match StringValues(fields)
         case Some(e) => Ok(Some(e))
         case None => Err(Unmodelled(at)))
      case JStr(_) => Err(BadDictSequence(at))
      case JArr(_) => Err(Unmodelled(at))
      case _ => Err(NotIterable(at))
  }

  /** `dict(raw.get("defaults") or {})`. */
  function Defaults(x: Json): (r: Result<Dict<Json>, LoadError>)
    ensures !Truthy(x) ==> r == Ok([])
    ensures x.JObj? ==> r == Ok(x.fields)
    ensures r.Ok? ==> x.JObj? || !Truthy(x)
  {
    if !Truthy(x) then Ok([])
    else
      match x
      case JObj(fields) => Ok(fields)
      case JStr(_) => Err(BadDictSequence("defaults"))
      case JArr(_) => Err(Unmodelled("defaults"))
      case _ => Err(NotIterable("defaults"))
  }

  /** `cfg.get("root", "")`. */
  function RootField(cfg: Dict<Json>): (r: Result<string, LoadError>)
    ensures "root" !in KeySet(cfg) ==> r == Ok("")
    ensures Get(cfg, "root") == Some(JStr("")) ==> r == Ok("")
    ensures r.Ok? && "root" in KeySet(cfg) ==> Get(cfg, "root") == Some(JStr(r.value))
    ensures Get(cfg, "root").Some? && Get(cfg, "root").value.JStr? ==> r == Ok(Get(cfg, "root").value.s)
  {
    match Get(cfg, "root")
    case None => Ok("")
    case Some(v) => if v.JStr? then Ok(v.s) else Err(Unmodelled("root"))
  }

  /** `cfg.get("inventory")`: an empty string is kept as given. */
  function InventoryField(cfg: Dict<Json>): (r: Result<Option<string>, LoadError>)
    ensures Get(cfg, "inventory") in {None, Some(JNull)} <==> r == Ok(None)
    ensures r.Ok? && r.value.Some? ==> Get(cfg, "inventory") == Some(JStr(r.value.value))
    ensures Get(cfg, "inventory").Some? && Get(cfg, "inventory").value.JStr? ==>
      r == Ok(Some(Get(cfg, "inventory").value.s))
  {
    match Get(cfg, "inventory")
    case None => Ok(None)
    case Some(v) =>
      if v.JNull? then Ok(None)
      else if v.JStr? then Ok(Some(v.s))
      else Err(Unmodelled("inventory"))
  }

  /** One entry of the `projects` loop: the definition takes its name from the
      key, whatever `name` the entry itself holds. */
  function LoadProject(name: string, cfg: Json): (r: Result<ProjectDefinition, LoadError>)
    ensures !cfg.JObj? ==> r == Err(NotAMapping(name))
    ensures r.Ok? ==> r.value.name == name && Normal(r.value)
    ensures r.Ok? ==> cfg.JObj? && RootField(cfg.fields) == Ok(r.value.root)
    ensures r.Ok? ==> InventoryField(cfg.fields) == Ok(r.value.inventory)
    ensures r.Ok? ==> PathList(GetOrNull(cfg.fields, "roles_paths"), "roles_paths") == Ok(r.value.rolesPaths)
    ensures r.Ok? ==>
      PathList(GetOrNull(cfg.fields, "collections_paths"), "collections_paths") == Ok(r.value.collectionsPaths)
    ensures r.Ok? ==> EnvDict(GetOrNull(cfg.fields, "env"), "env") == Ok(r.value.env)
  {
    if !cfg.JObj? then Err(NotAMapping(name))
    else
      var root :- RootField(cfg.fields);
      var inventory :- InventoryField(cfg.fields);
      var roles :- PathList(GetOrNull(cfg.fields, "roles_paths"), "roles_paths");
      var collections :- PathList(GetOrNull(cfg.fields, "collections_paths"), "collections_paths");
      var env :- EnvDict(GetOrNull(cfg.fields, "env"), "env");
      Ok(ProjectDefinition(name, root, inventory, roles, collections, env))
  }

  /** The `projects` loop, entry by entry, each stored with `projects[name] = ...`;
      the first entry that fails stops the load. */
  function LoadProjects(items: Dict<Json>, acc: Dict<ProjectDefinition>): (r: Result<Dict<ProjectDefinition>, LoadError>)
    ensures r.Ok? ==> KeySet(r.value) == KeySet(acc) + KeySet(items)
    ensures r.Ok? && Distinct(acc) ==> Distinct(r.value)
    decreases |items|
  {
    if |items| == 0 then Ok(acc)
    else
      var p :- LoadProject(items[0].0, items[0].1);
      LoadProjects(items[1..], Put(acc, items[0].0, p))
  }

  /** Every project the loop stores sits under its own name and is normal. */
  lemma {:induction false} LoadProjectsConsistent(items: Dict<Json>, acc: Dict<ProjectDefinition>)
    requires ConsistentByKey(acc)
    ensures LoadProjects(items, acc).Ok? ==> ConsistentByKey(LoadProjects(items, acc).value)
    decreases |items|
  {
    if |items| > 0 {
      var p := LoadProject(items[0].0, items[0].1);
      if p.Ok? {
        var next := Put(acc, items[0].0, p.value);
        forall k | k in KeySet(next)
          ensures Get(next, k).value.name == k && Normal(Get(next, k).value)
        {
          if k != items[0].0 {
            assert Get(next, k) == Get(acc, k);
          }
        }
        LoadProjectsConsistent(items[1..], next);
      }
    }
  }

  /** `Consistent`, stated through lookups, which `Put` keeps. */
  predicate ConsistentByKey(ps: Dict<ProjectDefinition>)
  {
    forall k :: k in KeySet(ps) ==> Get(ps, k).value.name == k && Normal(Get(ps, k).value)
  }

  lemma ConsistentLookup(ps: Dict<ProjectDefinition>)
    requires Distinct(ps)
    ensures ConsistentByKey(ps) <==> Consistent(ps)
  {
    forall i | 0 <= i < |ps|
      ensures Get(ps, ps[i].0) == Some(ps[i].1)
    {
      GetEntry(ps, i);
    }
    forall k | k in KeySet(ps)
      ensures exists i :: 0 <= i < |ps| && ps[i].0 == k
    {
      KeySetIndex(ps, k);
    }
  }

  /** Every entry of the `projects` section loads on its own. */
  predicate AllLoad(items: Dict<Json>)
  {
    forall i :: 0 <= i < |items| ==> LoadProject(items[i].0, items[i].1).Ok?
  }

  /** The loop succeeds exactly when every entry loads. */
  lemma {:induction false} LoadProjectsOk(items: Dict<Json>, acc: Dict<ProjectDefinition>)
    ensures LoadProjects(items, acc).Ok? <==> AllLoad(items)
    decreases |items|
  {
    if |items| > 0 {
      var p := LoadProject(items[0].0, items[0].1);
      if p.Ok? {
        LoadProjectsOk(items[1..], Put(acc, items[0].0, p.value));
        assert forall i :: 0 < i < |items| ==> items[i] == items[1..][i - 1];
      }
    }
  }

  /** Every entry loads, and the table holds the loaded project under the
      entry's key. */
  predicate StoresLoaded(items: Dict<Json>, ps: Dict<ProjectDefinition>)
  {
    forall i :: 0 <= i < |items| ==>
      LoadProject(items[i].0, items[i].1).Ok?
      && Get(ps, items[i].0) == Some(LoadProject(items[i].0, items[i].1).value)
  }

  /** The loop never touches a key that none of its entries carries. */
  lemma {:induction false} LoadProjectsKeeps(items: Dict<Json>, acc: Dict<ProjectDefinition>, k: string)
    requires k !in KeySet(items)
    ensures LoadProjects(items, acc).Ok? ==> Get(LoadProjects(items, acc).value, k) == Get(acc, k)
    decreases |items|
  {
    if |items| > 0 {
      var p := LoadProject(items[0].0, items[0].1);
      if p.Ok? {
        LoadProjectsKeeps(items[1..], Put(acc, items[0].0, p.value), k);
      }
    }
  }

  /** With distinct keys, the loop stores each entry's loaded project under
      its key (`projects[name] = ProjectDefinition(...)`). */
  lemma {:induction false} LoadProjectsValues(items: Dict<Json>, acc: Dict<ProjectDefinition>)
    ensures Distinct(items) && LoadProjects(items, acc).Ok? ==> StoresLoaded(items, LoadProjects(items, acc).value)
    decreases |items|
  {
    if |items| > 0 && Distinct(items) {
      var p := LoadProject(items[0].0, items[0].1);
      if p.Ok? {
        var next := Put(acc, items[0].0, p.value);
        LoadProjectsValues(items[1..], next);
        LoadProjectsKeeps(items[1..], next, items[0].0);
        if LoadProjects(items, acc).Ok? {
          var ps := LoadProjects(items, acc).value;
          assert StoresLoaded(items[1..], ps);
          forall i | 0 <= i < |items|
            ensures LoadProject(items[i].0, items[i].1).Ok?
            ensures Get(ps, items[i].0) == Some(LoadProject(items[i].0, items[i].1).value)
          {
            if i > 0 { assert items[i] == items[1..][i - 1]; }
          }
        }
      }
    }
  }

  /** `raw.get("projects") or {}` and the loop over its items. */
  function ProjectsSection(raw: Dict<Json>): (r: Result<Dict<ProjectDefinition>, LoadError>)
    ensures r.Ok? ==> Distinct(r.value) && Consistent(r.value)
    ensures r.Ok? ==>
      Or(GetOrNull(raw, "projects"), JObj([])).JObj?
      && KeySet(r.value) == KeySet(Or(GetOrNull(raw, "projects"), JObj([])).fields)
    ensures r.Ok? && Distinct(Or(GetOrNull(raw, "projects"), JObj([])).fields) ==>
      StoresLoaded(Or(GetOrNull(raw, "projects"), JObj([])).fields, r.value)
    ensures !Truthy(GetOrNull(raw, "projects")) ==> r == Ok([])
    ensures r.Ok? <==>
      Or(GetOrNull(raw, "projects"), JObj([])).JObj? && AllLoad(Or(GetOrNull(raw, "projects"), JObj([])).fields)
  {
    var projectsRaw := Or(GetOrNull(raw, "projects"), JObj([]));
    if !projectsRaw.JObj? then Err(NotAMapping("projects"))
    else
      LoadProjectsOk(projectsRaw.fields, []);
      LoadProjectsConsistent(projectsRaw.fields, []);
      LoadProjectsValues(projectsRaw.fields, []);
      var projects :- LoadProjects(projectsRaw.fields, []);
      ConsistentLookup(projects);
      Ok(projects)
  }

  /** `_load_config` after `_read_json`: the projects, then the defaults. */
  function LoadConfig(raw: Json): (r: Result<ServerConfiguration, LoadError>)
    ensures !raw.JObj? ==> r == Err(NotAMapping("config"))
    ensures r.Ok? ==> Distinct(r.value.projects) && Consistent(r.value.projects)
    ensures r.Ok? ==>
      raw.JObj? && Or(GetOrNull(raw.fields, "projects"), JObj([])).JObj?
      && KeySet(r.value.projects) == KeySet(Or(GetOrNull(raw.fields, "projects"), JObj([])).fields)
    ensures r.Ok? && Distinct(Or(GetOrNull(raw.fields, "projects"), JObj([])).fields) ==>
      StoresLoaded(Or(GetOrNull(raw.fields, "projects"), JObj([])).fields, r.value.projects)
    ensures r.Ok? ==> Defaults(GetOrNull(raw.fields, "defaults")) == Ok(r.value.defaults)
    ensures raw.JObj? && !Truthy(GetOrNull(raw.fields, "projects")) && !Truthy(GetOrNull(raw.fields, "defaults"))
      ==> r == Ok(ServerConfiguration([], []))
    ensures r.Ok? <==>
      raw.JObj? && Or(GetOrNull(raw.fields, "projects"), JObj([])).JObj?
      && AllLoad(Or(GetOrNull(raw.fields, "projects"), JObj([])).fields)
      && Defaults(GetOrNull(raw.fields, "defaults")).Ok?
  {
    if !raw.JObj? then Err(NotAMapping("config"))
    else
      var projects :- ProjectsSection(raw.fields);
      var defaults :- Defaults(GetOrNull(raw.fields, "defaults"));
      Ok(ServerConfiguration(projects, defaults))
  }

  // ---------------------------------------------------------------------------
  // The save payload
  // ---------------------------------------------------------------------------

  function OptionalString(o: Option<string>): Json
  {
    match o
    case Some(s) => JStr(s)
    case None => JNull
  }

  function JStrs(ss: seq<string>): (r: seq<Json>)
    ensures |r| == |ss|
    ensures forall i :: 0 <= i < |ss| ==> r[i] == JStr(ss[i])
  {
    if |ss| == 0 then [] else [JStr(ss[0])] + JStrs(ss[1..])
  }

  function OptionalList(o: Option<seq<string>>): Json
  {
    match o
    case Some(ss) => JArr(JStrs(ss))
    case None => JNull
  }

  function OptionalEnv(o: Option<Dict<string>>): Json
  {
    match o
    case Some(e) => JObj(MapValues(e, (v: string) => JStr(v)))
    case None => JNull
  }

  /** `asdict(defn)`: the dataclass fields in declaration order. */
  function ProjectPayload(d: ProjectDefinition): Json
  {
    JObj([
      ("name", JStr(d.name)),
      ("root", JStr(d.root)),
      ("inventory", OptionalString(d.inventory)),
      ("roles_paths", OptionalList(d.rolesPaths)),
      ("collections_paths", OptionalList(d.collectionsPaths)),
      ("env", OptionalEnv(d.env))])
  }

  /** The payload `_save_config` writes. */
  function ConfigPayload(c: ServerConfiguration): Json
  {
    JObj([
      ("projects", JObj(MapValues(c.projects, ProjectPayload))),
      ("defaults", JObj(c.defaults))])
  }

  /** A normal project survives being saved and loaded under its own name. */
  lemma LoadProjectPayload(d: ProjectDefinition)
    requires Normal(d)
    ensures LoadProject(d.name, ProjectPayload(d)) == Ok(d)
  {
    var f := ProjectPayload(d).fields;
    PayloadLookups(d);
    RootFieldPayload(f, d.root);
    InventoryFieldPayload(f, d.inventory);
    PathListPayload(d.rolesPaths, "roles_paths");
    PathListPayload(d.collectionsPaths, "collections_paths");
    EnvDictPayload(d.env);
    LoadProjectFields(d.name, f, d);
  }

  /** A project loads from any entry whose fields each load. */
  lemma LoadProjectFields(name: string, cfg: Dict<Json>, d: ProjectDefinition)
    requires d.name == name
    requires RootField(cfg) == Ok(d.root)
    requires InventoryField(cfg) == Ok(d.inventory)
    requires PathList(GetOrNull(cfg, "roles_paths"), "roles_paths") == Ok(d.rolesPaths)
    requires PathList(GetOrNull(cfg, "collections_paths"), "collections_paths") == Ok(d.collectionsPaths)
    requires EnvDict(GetOrNull(cfg, "env"), "env") == Ok(d.env)
    ensures LoadProject(name, JObj(cfg)) == Ok(d)
  {
  }

  lemma RootFieldPayload(cfg: Dict<Json>, root: string)
    requires Get(cfg, "root") == Some(JStr(root))
    ensures RootField(cfg) == Ok(root)
  {
  }

  lemma InventoryFieldPayload(cfg: Dict<Json>, o: Option<string>)
    requires Get(cfg, "inventory") == Some(OptionalString(o))
    ensures InventoryField(cfg) == Ok(o)
  {
  }

  /** Each field of the payload is found under its key. */
  lemma PayloadLookups(d: ProjectDefinition)
    ensures Get(ProjectPayload(d).fields, "root") == Some(JStr(d.root))
    ensures Get(ProjectPayload(d).fields, "inventory") == Some(OptionalString(d.inventory))
    ensures GetOrNull(ProjectPayload(d).fields, "roles_paths") == OptionalList(d.rolesPaths)
    ensures GetOrNull(ProjectPayload(d).fields, "collections_paths") == OptionalList(d.collectionsPaths)
    ensures GetOrNull(ProjectPayload(d).fields, "env") == OptionalEnv(d.env)
  {
    var f := ProjectPayload(d).fields;
    DistinctIndex(f);
    GetEntry(f, 1);
    GetEntry(f, 2);
    GetEntry(f, 3);
    GetEntry(f, 4);
    GetEntry(f, 5);
  }

  lemma PathListPayload(o: Option<seq<string>>, at: string)
    requires o.Some? ==> |o.value| > 0
    ensures PathList(OptionalList(o), at) == Ok(o)
  {
    if o.Some? {
      var r := PathList(OptionalList(o), at);
      assert r.Ok? && r.value.Some?;
      assert r.value.value == o.value;
    }
  }

  lemma EnvDictPayload(o: Option<Dict<string>>)
    requires o.Some? ==> |o.value| > 0
    ensures EnvDict(OptionalEnv(o), "env") == Ok(o)
  {
    if o.Some? {
      var r := EnvDict(OptionalEnv(o), "env");
      assert r.Ok? && r.value.Some?;
      assert r.value.value == o.value;
    }
  }

  /** Entry by entry, `items` loads as the projects `ps`, under the same keys. */
  predicate LoadsAs(items: Dict<Json>, ps: Dict<ProjectDefinition>)
    decreases |items|
  {
    && |items| == |ps|
    && (|items| > 0 ==>
          items[0].0 == ps[0].0
          && LoadProject(items[0].0, items[0].1) == Ok(ps[0].1)
          && LoadsAs(items[1..], ps[1..]))
  }

  /** The projects loop over entries that all load, under fresh distinct
      keys, appends the loaded projects in order. */
  lemma {:induction false} LoadProjectsAll(items: Dict<Json>, ps: Dict<ProjectDefinition>, acc: Dict<ProjectDefinition>)
    requires LoadsAs(items, ps) && Distinct(ps)
    requires KeySet(ps) !! KeySet(acc)
    ensures LoadProjects(items, acc) == Ok(acc + ps)
    decreases |items|
  {
    if |items| == 0 {
      assert acc + ps == acc;
    } else {
      FreshTail(ps, acc);
      LoadProjectsStep(items, acc, ps[0]);
      LoadProjectsAll(items[1..], ps[1..], acc + [ps[0]]);
      AppendHead(acc, ps);
    }
  }

  /** One step of the projects loop, on an entry that loads. */
  lemma LoadProjectsStep(items: Dict<Json>, acc: Dict<ProjectDefinition>, entry: (string, ProjectDefinition))
    requires |items| > 0 && items[0].0 == entry.0 && entry.0 !in KeySet(acc)
    requires LoadProject(items[0].0, items[0].1) == Ok(entry.1)
    ensures LoadProjects(items, acc) == LoadProjects(items[1..], acc + [entry])
  {
    assert Put(acc, entry.0, entry.1) == acc + [entry];
  }

  /** After storing the first project under a fresh key, the remaining keys
      are still fresh. */
  lemma FreshTail(ps: Dict<ProjectDefinition>, acc: Dict<ProjectDefinition>)
    requires |ps| > 0 && Distinct(ps) && KeySet(ps) !! KeySet(acc)
    ensures ps[0].0 !in KeySet(acc)
    ensures KeySet(ps[1..]) !! KeySet(acc + [ps[0]])
  {
    KeySetConcat(acc, [ps[0]]);
    assert KeySet([ps[0]]) == {ps[0].0};
  }

  /** Each entry of a saved payload loads back as the project it came from. */
  lemma {:induction false} PayloadLoadsAs(ps: Dict<ProjectDefinition>)
    requires Consistent(ps)
    ensures LoadsAs(MapValues(ps, ProjectPayload), ps)
    decreases |ps|
  {
    if |ps| > 0 {
      LoadProjectPayload(ps[0].1);
      ConsistentTail(ps);
      PayloadLoadsAs(ps[1..]);
      assert MapValues(ps, ProjectPayload)[1..] == MapValues(ps[1..], ProjectPayload);
    }
  }

  lemma ConsistentTail(ps: Dict<ProjectDefinition>)
    requires |ps| > 0 && Consistent(ps)
    ensures Consistent(ps[1..])
  {
    assert forall i :: 0 <= i < |ps[1..]| ==> ps[1..][i] == ps[i + 1];
  }

  /** `_save_config` then `_load_config` gives back a configuration whose
      projects are stored under their own names and are normal. */
  lemma SaveLoadRoundTrip(c: ServerConfiguration)
    requires Distinct(c.projects) && Consistent(c.projects)
    ensures LoadConfig(ConfigPayload(c)) == Ok(c)
  {
    PayloadProjectsSection(c);
    ConfigPayloadLookups(c);
  }

  lemma PayloadProjectsSection(c: ServerConfiguration)
    requires Distinct(c.projects) && Consistent(c.projects)
    ensures ProjectsSection(ConfigPayload(c).fields) == Ok(c.projects)
  {
    ConfigPayloadLookups(c);
    LoadPayloadProjects(c.projects);
  }

  /** The saved projects load back as they were. */
  lemma LoadPayloadProjects(ps: Dict<ProjectDefinition>)
    requires Distinct(ps) && Consistent(ps)
    ensures LoadProjects(MapValues(ps, ProjectPayload), []) == Ok(ps)
  {
    PayloadLoadsAs(ps);
    LoadProjectsAll(MapValues(ps, ProjectPayload), ps, []);
    EmptyPrefix(ps);
  }

  lemma ConfigPayloadLookups(c: ServerConfiguration)
    ensures GetOrNull(ConfigPayload(c).fields, "projects") == JObj(MapValues(c.projects, ProjectPayload))
    ensures GetOrNull(ConfigPayload(c).fields, "defaults") == JObj(c.defaults)
  {
  }

  // ---------------------------------------------------------------------------
  // The environment of a project
  // ---------------------------------------------------------------------------

  /** Does the project's own `env` set `key`. */
  predicate Overrides(d: ProjectDefinition, key: string)
  {
    d.env.Some? && key in KeySet(d.env.value)
  }

  /** `_project_env`: the search paths joined with `os.pathsep`, then the
      project's own variables on top. */
  function ProjectEnv(d: ProjectDefinition): (r: Dict<string>)
    ensures forall k :: k in KeySet(r) <==>
      || (k == RolesPathVar && Listed(d.rolesPaths))
      || (k == CollectionsPathVar && Listed(d.collectionsPaths))
      || Overrides(d, k)
    ensures Distinct(r)
  {
    var paths := SearchPathVars(d);
    if d.env.Some? && |d.env.value| > 0 then Update(paths, d.env.value)
    else
      assert d.env.Some? ==> d.env.value == [];
      paths
  }

  /** In the project environment the project's own variables win, and each
      search path list it does not override is there, joined with
      `os.pathsep`. */
  lemma ProjectEnvValues(d: ProjectDefinition)
    ensures d.env.Some? && Distinct(d.env.value) ==>
      forall k :: k in KeySet(d.env.value) ==> Get(ProjectEnv(d), k) == Get(d.env.value, k)
    ensures Listed(d.rolesPaths) && !Overrides(d, RolesPathVar) ==>
      Get(ProjectEnv(d), RolesPathVar) == Some(Text.Join(d.rolesPaths.value, [PathSep]))
    ensures Listed(d.collectionsPaths) && !Overrides(d, CollectionsPathVar) ==>
      Get(ProjectEnv(d), CollectionsPathVar) == Some(Text.Join(d.collectionsPaths.value, [PathSep]))
  {
    var paths := SearchPathVars(d);
    if d.env.Some? && |d.env.value| > 0 {
      assert ProjectEnv(d) == Update(paths, d.env.value);
    } else {
      assert ProjectEnv(d) == paths;
    }
  }

  /** The first two steps of `_project_env`: each non-empty search path list,
      joined with `os.pathsep`. */
  function SearchPathVars(d: ProjectDefinition): (r: Dict<string>)
    ensures KeySet(r) ==
      (if Listed(d.rolesPaths) then {RolesPathVar} else {})
      + (if Listed(d.collectionsPaths) then {CollectionsPathVar} else {})
    ensures Distinct(r)
    ensures Listed(d.rolesPaths) ==> Get(r, RolesPathVar) == Some(Text.Join(d.rolesPaths.value, [PathSep]))
    ensures Listed(d.collectionsPaths) ==>
      Get(r, CollectionsPathVar) == Some(Text.Join(d.collectionsPaths.value, [PathSep]))
  {
    var e0: Dict<string> := [];
    var e1 := if Listed(d.rolesPaths) then Put(e0, RolesPathVar, Text.Join(d.rolesPaths.value, [PathSep])) else e0;
    if Listed(d.collectionsPaths) then Put(e1, CollectionsPathVar, Text.Join(d.collectionsPaths.value, [PathSep])) else e1
  }

  // ---------------------------------------------------------------------------
  // The project described by environment variables
  // ---------------------------------------------------------------------------

  /** Each path resolved. */
  function Resolved(paths: seq<string>, lib: Lib): seq<string>
  {
    seq(|paths|, i requires 0 <= i < |paths| => lib.resolve(paths[i]))
  }

  /** `_split_paths`: the non-empty `os.pathsep`-separated fields, resolved;
      `None` when there are none. */
  function SplitPaths(value: Option<string>, lib: Lib): (r: Option<seq<string>>)
    ensures r.None? <==> !Given(value) || forall i :: 0 <= i < |value.value| ==> value.value[i] == PathSep
    ensures r.Some? ==> |r.value| > 0
  {
    if !Given(value) then None
    else
      var parts := Text.NonEmpty(Text.Split(value.value, PathSep));
      Text.SplitAllEmpty(value.value, PathSep);
      if |parts| == 0 then None else Some(Resolved(parts, lib))
  }

  /** Joining non-empty, separator-free paths and splitting them again gives
      each path back, resolved. */
  lemma SplitPathsJoin(paths: seq<string>, lib: Lib)
    requires |paths| > 0
    requires forall i :: 0 <= i < |paths| ==> |paths[i]| > 0 && PathSep !in paths[i]
    ensures SplitPaths(Some(Text.Join(paths, [PathSep])), lib) == Some(Resolved(paths, lib))
  {
    var s := Text.Join(paths, [PathSep]);
    Text.SplitJoin(paths, PathSep);
    Text.NonEmptyKeeps(paths);
  }

  /** The fields of a `:`-joined value come back filtered and resolved: empty
      fields (from `::`, a leading or a trailing `:`) are dropped, every other
      field is kept in order. */
  lemma SplitPathsFields(parts: seq<string>, lib: Lib, k: nat)
    requires forall i :: 0 <= i < |parts| ==> PathSep !in parts[i]
    requires k < |parts| && |parts[k]| > 0
    ensures SplitPaths(Some(Text.Join(parts, [PathSep])), lib) == Some(Resolved(Text.NonEmpty(parts), lib))
  {
    var s := Text.Join(parts, [PathSep]);
    Text.SplitJoin(parts, PathSep);
    assert parts[k] in Text.NonEmpty(parts);
  }

  /** `a::b` names the directories `a` and `b`. The literal arrives through a
      `requires` on a parameter, as in the inventory's worked example, so that
      the verifier does not unfold the string functions on it eagerly. */
  lemma SplitPathsExample(value: string, lib: Lib)
    requires value == "a::b"
    ensures SplitPaths(Some(value), lib) == Some([lib.resolve("a"), lib.resolve("b")])
  {
    var parts := ["a", "", "b"];
    ExampleJoin(parts);
    ExampleNonEmpty(parts);
    ExampleNoSep(parts);
    SplitPathsFields(parts, lib, 0);
    ExampleResolved(lib);
  }

  lemma ExampleResolved(lib: Lib)
    ensures Resolved(["a", "b"], lib) == [lib.resolve("a"), lib.resolve("b")]
  {
    var r := Resolved(["a", "b"], lib);
    assert |r| == 2 && r[0] == lib.resolve("a") && r[1] == lib.resolve("b");
  }

  lemma ExampleJoin(parts: seq<string>)
    requires parts == ["a", "", "b"]
    ensures Text.Join(parts, [PathSep]) == "a::b"
  {
    assert parts[1..] == ["", "b"];
    assert parts[1..][1..] == ["b"];
    assert Text.Join(["b"], [PathSep]) == "b";
    assert Text.Join(["", "b"], [PathSep]) == ":b";
  }

  lemma ExampleNoSep(parts: seq<string>)
    requires parts == ["a", "", "b"]
    ensures forall i :: 0 <= i < |parts| ==> PathSep !in parts[i]
  {
    assert PathSep !in parts[0] && PathSep !in parts[1] && PathSep !in parts[2];
  }

  lemma ExampleNonEmpty(parts: seq<string>)
    requires parts == ["a", "", "b"]
    ensures Text.NonEmpty(parts) == ["a", "b"]
  {
    assert parts[1..] == ["", "b"];
    assert parts[1..][1..] == ["b"];
    assert ["b"][1..] == [];
    assert Text.NonEmpty(["b"]) == ["b"];
  }

  /** The roles path a project exports, read back the way an environment
      project reads `MCP_ANSIBLE_ROLES_PATH`, names the same directories. */
  lemma ExportedRolesPathReadsBack(d: ProjectDefinition, lib: Lib)
    requires Listed(d.rolesPaths) && !Overrides(d, RolesPathVar)
    requires forall i :: 0 <= i < |d.rolesPaths.value| ==>
      |d.rolesPaths.value[i]| > 0 && PathSep !in d.rolesPaths.value[i]
    ensures SplitPaths(Get(ProjectEnv(d), RolesPathVar), lib) == Some(Resolved(d.rolesPaths.value, lib))
  {
    ProjectEnvValues(d);
    SplitPathsJoin(d.rolesPaths.value, lib);
  }

  /** `key.replace("MCP_ANSIBLE_ENV_", "")`. */
  function Strip(key: string): string
  {
    Text.RemoveAll(key, ExtraEnvPrefix)
  }

  /** The process variable `key` contributes the project variable `name`. */
  predicate Yields(key: string, name: string)
  {
    Text.StartsWith(key, ExtraEnvPrefix) && Strip(key) == name
  }

  /** The `MCP_ANSIBLE_ENV_*` loop over the environment, in its order. */
  function ExtraEnv(environ: Dict<string>): (r: Dict<string>)
    ensures Distinct(r)
    decreases |environ|
  {
    if |environ| == 0 then []
    else
      var acc := ExtraEnv(environ[..|environ| - 1]);
      var (key, value) := environ[|environ| - 1];
      if Text.StartsWith(key, ExtraEnvPrefix) then Put(acc, Strip(key), value) else acc
  }

  /** The extra variables are exactly those some prefixed process variable
      yields. */
  lemma {:induction false} ExtraEnvKeys(environ: Dict<string>)
    ensures forall name :: name in KeySet(ExtraEnv(environ)) <==>
      exists i :: 0 <= i < |environ| && Yields(environ[i].0, name)
    decreases |environ|
  {
    if |environ| > 0 {
      var init := environ[..|environ| - 1];
      ExtraEnvKeys(init);
      assert forall i :: 0 <= i < |init| ==> init[i] == environ[i];
    }
  }

  /** A variable's value comes from the last process variable that yields its
      name. */
  lemma {:induction false} ExtraEnvLastWins(environ: Dict<string>, i: nat)
    requires i < |environ| && Text.StartsWith(environ[i].0, ExtraEnvPrefix)
    requires forall j :: i < j < |environ| ==> !Yields(environ[j].0, Strip(environ[i].0))
    ensures Get(ExtraEnv(environ), Strip(environ[i].0)) == Some(environ[i].1)
    decreases |environ|
  {
    var init := environ[..|environ| - 1];
    if i < |environ| - 1 {
      assert init[i] == environ[i];
      ExtraEnvLastWins(init, i);
    }
  }

  /** A prefixed variable whose remainder does not repeat the prefix keeps
      exactly that remainder as its name. */
  lemma StripPrefix(rest: string)
    requires !Text.Contains(rest, ExtraEnvPrefix)
    ensures Text.StartsWith(ExtraEnvPrefix + rest, ExtraEnvPrefix)
    ensures Strip(ExtraEnvPrefix + rest) == rest
  {
    Text.RemoveAllPrefix(ExtraEnvPrefix, rest);
    assert (ExtraEnvPrefix + rest)[..|ExtraEnvPrefix|] == ExtraEnvPrefix;
  }

  /** `replace` deletes the prefix wherever it occurs, not only at the front:
      `MCP_ANSIBLE_ENV_A_MCP_ANSIBLE_ENV_B` contributes the variable `A_B`. */
  lemma StripEveryOccurrence()
    ensures Yields("MCP_ANSIBLE_ENV_A_MCP_ANSIBLE_ENV_B", "A_B")
  {
    var tail := "MCP_ANSIBLE_ENV_B";
    assert Text.RemoveAll(tail, ExtraEnvPrefix) == "B" by {
      assert tail[..|ExtraEnvPrefix|] == ExtraEnvPrefix;
      assert tail[|ExtraEnvPrefix|..] == "B";
    }
    var s2 := "A_" + tail;
    assert Text.RemoveAll(s2, ExtraEnvPrefix) == "A_B" by {
      assert s2[..|ExtraEnvPrefix|] != ExtraEnvPrefix by { assert s2[0] == 'A'; }
      assert s2[1..] == "_" + tail;
      assert (s2[1..])[..|ExtraEnvPrefix|] != ExtraEnvPrefix by { assert s2[1] == '_'; }
      assert s2[1..][1..] == tail;
    }
    var s := ExtraEnvPrefix + s2;
    assert s == "MCP_ANSIBLE_ENV_A_MCP_ANSIBLE_ENV_B";
    assert s[..|ExtraEnvPrefix|] == ExtraEnvPrefix;
    assert s[|ExtraEnvPrefix|..] == s2;
  }

  /** `_project_from_env`, reading the given environment. */
  function ProjectFromEnv(environ: Dict<string>, lib: Lib): (r: Option<ProjectDefinition>)
    ensures r.None? <==> !Given(Get(environ, RootVar))
    ensures r.Some? ==> r.value.root == lib.resolve(Get(environ, RootVar).value)
    ensures r.Some? && NameVar in KeySet(environ) ==> Some(r.value.name) == Get(environ, NameVar)
    ensures r.Some? && NameVar !in KeySet(environ) ==> r.value.name == DefaultEnvName
    ensures r.Some? ==> (r.value.inventory.Some? <==> Given(Get(environ, InventoryVar)))
    ensures r.Some? && r.value.inventory.Some? ==>
      r.value.inventory.value == lib.resolve(Get(environ, InventoryVar).value)
    ensures r.Some? ==>
      r.value.rolesPaths == SplitPaths(Get(environ, RolesVar), lib) && r.value.collectionsPaths == SplitPaths(Get(environ, CollectionsVar), lib)
    ensures r.Some? ==> Normal(r.value)
    ensures r.Some? ==> (r.value.env.None? <==> forall i :: 0 <= i < |environ| ==> !Text.StartsWith(environ[i].0, ExtraEnvPrefix))
    ensures r.Some? && r.value.env.Some? ==> r.value.env.value == ExtraEnv(environ)
  {
    var root := Get(environ, RootVar);
    if !Given(root) then None
    else
      var name := match Get(environ, NameVar) case Some(n) => n case None => DefaultEnvName;
      var inventory := Get(environ, InventoryVar);
      var extra := ExtraEnv(environ);
      ExtraEnvNone(environ);
      Some(ProjectDefinition(
        name,
        lib.resolve(root.value),
        if Given(inventory) then Some(lib.resolve(inventory.value)) else None,
        SplitPaths(Get(environ, RolesVar), lib),
        SplitPaths(Get(environ, CollectionsVar), lib),
        if |extra| == 0 then None else Some(extra)))
  }

  /** No extra variables exactly when no process variable has the prefix. */
  lemma ExtraEnvNone(environ: Dict<string>)
    ensures |ExtraEnv(environ)| == 0 <==>
      forall i :: 0 <= i < |environ| ==> !Text.StartsWith(environ[i].0, ExtraEnvPrefix)
  {
    ExtraEnvKeys(environ);
    var e := ExtraEnv(environ);
    if |e| > 0 {
      KeySetIndex(e, e[0].0);
    }
    forall i | 0 <= i < |environ| && Text.StartsWith(environ[i].0, ExtraEnvPrefix)
      ensures |e| > 0
    {
      assert Yields(environ[i].0, Strip(environ[i].0));
      assert Strip(environ[i].0) in KeySet(e);
    }
  }

  // ---------------------------------------------------------------------------
  // Choosing the project
  // ---------------------------------------------------------------------------

  /** `_resolve_project`: an explicit name wins and has no fallback; otherwise
      a set `MCP_ANSIBLE_PROJECT_ROOT` wins over the saved default. */
  function ResolveProject(config: ServerConfiguration, name: Option<string>, environ: Dict<string>, lib: Lib): (r: Option<ProjectDefinition>)
    ensures Given(name) ==> r == Get(config.projects, name.value)
    ensures Given(name) && Consistent(config.projects) && r.Some? ==> r.value.name == name.value
    ensures !Given(name) && Given(Get(environ, RootVar)) ==>
      r.Some? && r == ProjectFromEnv(environ, lib)
      && r.value.root == lib.resolve(Get(environ, RootVar).value)
    ensures !Given(name) && !Given(Get(environ, RootVar)) && !Truthy(GetOrNull(config.defaults, DefaultProjectKey)) ==>
      r.None?
    ensures (!Given(name) && !Given(Get(environ, RootVar)) && Truthy(GetOrNull(config.defaults, DefaultProjectKey))
      && GetOrNull(config.defaults, DefaultProjectKey).JStr?) ==>
      r == Get(config.projects, GetOrNull(config.defaults, DefaultProjectKey).s)
    // any other truthy default is looked up by its `str`, as `"defaults": {"project": 5}` looks up "5"
    ensures !Given(name) && !Given(Get(environ, RootVar)) && Truthy(GetOrNull(config.defaults, DefaultProjectKey)) ==>
      r == Get(config.projects, Str(GetOrNull(config.defaults, DefaultProjectKey), lib))
  {
    if Given(name) then
      ConsistentGet(config.projects, name.value);
      Get(config.projects, name.value)
    else if Given(Get(environ, RootVar)) then ProjectFromEnv(environ, lib)
    else
      var projectName := GetOrNull(config.defaults, DefaultProjectKey);
      if !Truthy(projectName) then None
      else Get(config.projects, Str(projectName, lib))
  }

  /** A project found by name in a consistent table carries that name. */
  lemma ConsistentGet(ps: Dict<ProjectDefinition>, k: string)
    ensures Consistent(ps) && Get(ps, k).Some? ==> Get(ps, k).value.name == k
  {
  }
}
