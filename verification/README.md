# mcp-ansible server core, modelled in Dafny

The `ansible_mcp` server exposes Ansible operations as remote-callable tools.
This project models the following parts of the server's logic, all of them in
`src/ansible_mcp/server.py`:

- **Inventory extraction**: what `_extract_hosts_from_inventory_json` pulls out of the JSON
  that `ansible-inventory --list` prints, and how `ansible_inventory` shapes it
  into its reply.
- **Command lines**: how the `ansible-inventory`, `ansible-playbook` and ad-hoc
  `ansible` argument vectors are built from the tools' typed arguments, with
  `_dict_to_module_args` for module arguments and the `-c local` default for
  `localhost` / `127.0.0.1`.
- **The project layer**:
  - `_load_config` normalises a configuration document;
  - `_save_config` builds the payload it writes;
  - `_project_env` builds a project's environment;
  - `_split_paths` and `_project_from_env` read a project from `MCP_ANSIBLE_*` variables;
  - `_resolve_project` chooses between an explicit name, the environment and the saved default.

Modules:

- `Results`: `Option`, `Result` (Python exceptions become `Err`), `Given` (a truthy optional string).
- `Dicts`: Python dicts as insertion-ordered association lists; `d[k] = v`, `.get`, `.update`.
- `PyJson`: decoded JSON values, Python truthiness, `x or default`, `str(x)`.
- `Text`, `Ordering`, `Seqs`: string splitting and joining, `str.replace`, decimal
  rendering, Python's `sorted` on strings, and small sequence facts.
- `Inventory`, `Commands`, `Projects`: the three parts of the server listed above.

Calls into code outside the model are parameters:

- The library functions are fields of a `Lib` value:
  - `shlex.quote`;
  - `json.dumps`;
  - `repr` of a container;
  - `shlex.join`;
  - `Path(p).expanduser().resolve()`.
- The process environment `os.environ` is an argument, an ordered list of
  `(name, value)` pairs.
- The subprocess result (`rc`, stdout, stderr, and the decoded stdout) is an
  argument.
- `os.pathsep` is the POSIX `:`.

Where the server raises, the model returns an error value. Examples:

- `AttributeError` on a `.get` of a non-dict;
- `TypeError` from `list(5)`;
- `ValueError` from `dict("ab")`.

## Model

| member | source | states |
|---|---|---|
| Inventory.HostvarKeys | src/ansible_mcp/server.py:210-212 | a missing or falsy `_meta` gives no hostvars hosts; a truthy non-dict `_meta` is an error; inside a dict `_meta`, a missing or falsy `hostvars` gives no hosts, a truthy dict gives exactly its keys in order, and a truthy non-dict is an error |
| Inventory.HostsList | src/ansible_mcp/server.py:217-219 | a non-dict group definition is skipped; a missing or falsy `hosts` is the empty list; a truthy `hosts` list is walked as it is; a truthy `hosts` that is not a list is skipped |
| Inventory.StringHosts | src/ansible_mcp/server.py:220-222 | a host is added exactly when it is a string element of the hosts list |
| Inventory.Extract | src/ansible_mcp/server.py:206-225 | a non-dict document or a bad `_meta` is an error, and nothing else is; the hosts are exactly the hostvars keys plus every string member of every non-meta group; `_meta` is never a group; the groups are exactly the non-meta entries whose `hosts` is a non-empty list |
| Inventory.ScanHosts | src/ansible_mcp/server.py:214-222 | the group loop adds a host exactly when some non-meta entry lists it as a string |
| Inventory.ScanKeys | src/ansible_mcp/server.py:214-224 | the group loop creates a `groups` key exactly for the entries whose hosts list is a non-empty list |
| Inventory.ScanValues | src/ansible_mcp/server.py:223-224 | with distinct top-level keys, each group maps to its hosts list stringified in order, and the `groups` keys are distinct |
| Inventory.ExtractGroupMembers | src/ansible_mcp/server.py:223-225 | in the extraction, every group's list is its `hosts` list in order, duplicates and non-strings kept (through `str`) |
| Inventory.StringGroupMembersAreHosts | src/ansible_mcp/server.py:220-224 | a group whose members are all strings has every member in the host set |
| Inventory.InertEntryIgnored | src/ansible_mcp/server.py:214-224 | a top-level entry that is not a dict, has no list of hosts, or has an empty one changes neither hosts nor groups |
| Inventory.ExampleExtraction | src/ansible_mcp/server.py:206-225 | a document with hostvars `a`,`b` and group `web` listing `b`,`c`,`7` yields hosts {a,b,c} and `web -> [b, c, 7]` |
| Inventory.InventoryArgv | src/ansible_mcp/server.py:239-241 | the argv is `ansible-inventory --list`, followed by `-i inventory` exactly when an inventory is given |
| Inventory.AnsibleInventory | src/ansible_mcp/server.py:239-259 | `ok` is `rc == 0` and the command is the joined argv; a failed command or undecodable output returns raw stdout and no hosts or groups; otherwise the hosts are sorted and duplicate-free with the same elements as the extraction, each group's list is sorted and a permutation of the extracted one, and hostvars keys appear exactly when asked for, sorted |
| Inventory.InventoryHostsCanonical | src/ansible_mcp/server.py:253 | the reported hosts are the one strictly increasing list of the extracted host set, whatever order the document listed them in |
| Commands.RenderArgValue | src/ansible_mcp/server.py:46-53 | containers become the quoted JSON dump, booleans `yes`/`no`, `None` an empty value, strings their quoted text, integers their quoted decimal text |
| Commands.ModuleArgs | src/ansible_mcp/server.py:43-54 | no arguments give the empty string; when no key or rendered value holds a space, the space-separated words of the result are the `key=value` pairs, one per argument, in insertion order |
| Commands.ModuleArgsAppend | src/ansible_mcp/server.py:43-54 | the rendering of two argument dicts one after the other is their renderings joined by one space |
| Commands.ModuleArgsDecode | src/ansible_mcp/server.py:43-54 | when keys hold no space or `=` and values no space, splitting the rendering on spaces and on the first `=` recovers every key and value in order |
| Commands.VerbosityLevel | src/ansible_mcp/server.py:414-415 | no verbosity flag for `None` or 0; levels 1-4 kept; above 4 capped at 4; negative values give 1 |
| Commands.VerbositySeg | src/ansible_mcp/server.py:414-415 | the verbosity flag is `-` followed by one `v` per level, absent exactly at level 0 |
| Commands.PlaybookFlagsRoundTrip | src/ansible_mcp/server.py:400-415 | the playbook flags, rendered in their fixed order, are read back to the same record |
| Commands.PlaybookArgv | src/ansible_mcp/server.py:399-415 | the argv starts `ansible-playbook <path>` and the rest reads back as the requested flags; a non-zero verbosity ends it with the verbosity flag |
| Commands.EffectiveConnection | src/ansible_mcp/server.py:448-450 | an explicit connection is kept (even an empty one); without one, `local` is chosen exactly for `localhost` and `127.0.0.1` |
| Commands.TaskFlagsRoundTrip | src/ansible_mcp/server.py:440-462 | the ad-hoc flags, rendered in their fixed order, are read back to the same record |
| Commands.TaskArgv | src/ansible_mcp/server.py:439-462 | the argv starts `ansible <pattern> -m <module>` and the rest reads back as the requested flags; a non-empty explicit connection is passed with `-c`, an empty one gives no `-c`, and without one `-c local` appears exactly for the local host |
| Projects.PathList | src/ansible_mcp/server.py:112-113 | a falsy value gives `None`; any list it gives is non-empty; a list of strings is copied element by element; a truthy number is not iterable |
| Projects.EnvDict | src/ansible_mcp/server.py:114 | a falsy value gives `None`; a non-empty dict of strings is copied entry by entry; a string or a number is rejected |
| Projects.Defaults | src/ansible_mcp/server.py:116 | a falsy `defaults` gives an empty dict; a dict is taken as it is; anything else is an error |
| Projects.RootField | src/ansible_mcp/server.py:110 | a missing `root` gives the empty string; a string `root` is kept |
| Projects.InventoryField | src/ansible_mcp/server.py:111 | a missing or null `inventory` gives `None`; a string is kept, even an empty one |
| Projects.LoadProject | src/ansible_mcp/server.py:107-115 | a non-dict project entry is an error; a loaded project takes its name from its key, has no empty path list or env, and its root, inventory, roles paths, collections paths and env are the normalised entry fields |
| Projects.LoadProjects | src/ansible_mcp/server.py:106-115 | the loaded table has exactly the keys of the entries and keeps them distinct |
| Projects.LoadProjectsValues | src/ansible_mcp/server.py:107-115 | when the loop succeeds on distinct keys, every entry loads and the table holds, under the entry's key, the project loaded from it |
| Projects.LoadProjectsOk | src/ansible_mcp/server.py:107-115 | the loop succeeds exactly when every entry loads on its own |
| Projects.LoadProjectsAll | src/ansible_mcp/server.py:107-115 | entries that each load, under fresh distinct keys, are appended to the table as the loaded projects, in order |
| Projects.LoadProjectsConsistent | src/ansible_mcp/server.py:106-115 | every project the loop stores sits under its own name and is normal |
| Projects.ProjectsSection | src/ansible_mcp/server.py:105-115 | a falsy `projects` gives no projects; the keys of the table are those of the `projects` dict; every project is under its own name; with distinct keys each stored project is the one loaded from its entry; the section loads exactly when `projects` is a dict (or falsy) and every entry loads |
| Projects.LoadConfig | src/ansible_mcp/server.py:102-117 | a non-dict document is an error; the projects have distinct keys, exactly those of `projects`, each under its own name and normal, and (with distinct keys) each is the project loaded from its entry; the defaults are the normalised `defaults`; an empty document gives the empty configuration; a dict document loads exactly when its `projects` is a dict (or falsy), every entry loads, and its `defaults` loads |
| Projects.LoadProjectPayload | src/ansible_mcp/server.py:122-125 | a normal project definition, saved with `asdict`, loads back as itself |
| Projects.SaveLoadRoundTrip | src/ansible_mcp/server.py:102-125 | a configuration with distinct keys, whose projects are normal and under their own names, loads back from the payload `_save_config` writes as itself |
| Projects.ProjectEnv | src/ansible_mcp/server.py:130-138 | the project environment sets `ANSIBLE_ROLES_PATH` exactly when roles paths are listed, `ANSIBLE_COLLECTIONS_PATHS` exactly when collections paths are, plus exactly the project's own variables; its keys are distinct |
| Projects.ProjectEnvValues | src/ansible_mcp/server.py:130-138 | the project's own variables win; every path list they do not override is there, joined with `:` |
| Projects.SearchPathVars | src/ansible_mcp/server.py:132-135 | each non-empty path list is joined with `:` under its Ansible variable, and nothing else is set |
| Projects.SplitPaths | src/ansible_mcp/server.py:176-180 | `None` exactly when the value is unset, empty or made only of `:`; otherwise a non-empty list |
| Projects.SplitPathsFields | src/ansible_mcp/server.py:176-180 | splitting a `:`-joined value drops its empty fields and resolves the others, in order |
| Projects.SplitPathsExample | src/ansible_mcp/server.py:176-180 | `a::b` gives the resolved directories `a` and `b` |
| Projects.SplitPathsJoin | src/ansible_mcp/server.py:176-180 | joining non-empty paths free of `:` with `:` and splitting again gives each path back, resolved |
| Projects.ExportedRolesPathReadsBack | src/ansible_mcp/server.py:130-133 | the `ANSIBLE_ROLES_PATH` a project exports, read back like `MCP_ANSIBLE_ROLES_PATH`, names the same directories |
| Projects.ExtraEnv | src/ansible_mcp/server.py:192-195 | the extra variables have distinct names |
| Projects.ExtraEnvKeys | src/ansible_mcp/server.py:192-195 | the extra variables are exactly the names some `MCP_ANSIBLE_ENV_*` process variable yields |
| Projects.ExtraEnvLastWins | src/ansible_mcp/server.py:192-195 | a variable's value comes from the last process variable that yields its name |
| Projects.StripPrefix | src/ansible_mcp/server.py:194-195 | `MCP_ANSIBLE_ENV_<rest>` yields `<rest>` when the rest does not repeat the prefix |
| Projects.StripEveryOccurrence | src/ansible_mcp/server.py:195 | the prefix is deleted wherever it occurs: `MCP_ANSIBLE_ENV_A_MCP_ANSIBLE_ENV_B` yields `A_B` |
| Projects.ExtraEnvNone | src/ansible_mcp/server.py:192-202 | the extra environment is empty exactly when no process variable has the prefix |
| Projects.ProjectFromEnv | src/ansible_mcp/server.py:183-203 | no project exactly when `MCP_ANSIBLE_PROJECT_ROOT` is unset or empty; the root is resolved; the name is `MCP_ANSIBLE_PROJECT_NAME` when set (even empty), else `env`; the inventory is present exactly when given, resolved; the path lists are the split variables; `env` is absent exactly when no variable has the prefix |
| Projects.ResolveProject | src/ansible_mcp/server.py:141-153 | an explicit name is looked up with no fallback; otherwise a set project root gives the environment project; otherwise no truthy saved default gives none, and a truthy default is looked up by its `str` (a string by itself, `5` as `"5"`) |

## Left out

- Running commands. `_run_command`, the working directory, and the
  subprocess environment are not modelled; their results are arguments.
- File I/O. `_config_path`, `_read_json` (which yields `{}` on any error),
  `_write_json`, `_ensure_directory` and the returned `path` field of
  `_save_config` are not modelled. The configuration document is an argument,
  and the save payload is a value.
- Whole tools are not modelled: `_discover_playbooks`, `create_playbook`,
  `validate_playbook`, `project_playbooks`, `project_run_playbook`,
  `register_project`, `list_projects`, `ansible_role`,
  `create_role_structure`, `_serialize_playbook`, and the FastMCP
  registration. They are file-system walks, YAML writing, or wrappers around
  the modelled builders.
- `shlex.quote`, `shlex.join`, `json.dumps`, `repr` of containers and
  `Path.expanduser().resolve()` are opaque `Lib` functions, with no property
  assumed of them.
- JSON floats are not modelled. Numbers are integers.
- `os.pathsep` is `:`. Windows `;` is not modelled.
- Projects.LoadProject: a configuration value whose Python conversion is not
  spelled out is refused with `Unmodelled` at load time. Python would store
  it and fail later, or never. The following lines list each case.
- Projects.EnvDict: an `env` that is a list of pairs, which `dict()` would
  convert, is refused with `Unmodelled`; so is an `env` dict with a
  non-string value.
- Projects.Defaults: a `defaults` that is a list of pairs, which `dict()`
  would convert, is refused with `Unmodelled`.
- Projects.RootField: a `root` that is present but not a string is refused
  with `Unmodelled`.
- Projects.InventoryField: an `inventory` that is neither a string nor null
  is refused with `Unmodelled`.
- Projects.PathList: a path list with a non-string element is refused with
  `Unmodelled`.
- Projects.PathList: a string is split into its characters and a dict into its keys,
  as `list()` does. No property beyond non-emptiness is stated for those two
  cases.
- Commands.PlaybookArgv: `--extra-vars` carries `json.dumps` of the variables
  and `--tags` the comma-joined tags. The argv is read back to these strings,
  not to the original dict and list.
- Inventory.Extract: the Python `set` of hosts is modelled as the list of
  hosts in discovery order. Its element set is what the contract states, and
  `AnsibleInventory` sorts and de-duplicates it.
- Inventory.AnsibleInventory: an exception from the extraction propagates as
  an error, as in the server; it is not turned into a reply. This happens
  when the decoded output is not a dict, or when a truthy `_meta` or
  `hostvars` is not a dict.
- The server has no inventory diff between two snapshots, no parser for the
  play recap, no idempotence check that runs a playbook twice, and no
  handling of vault password files. None of these is modelled.
- Inventory groups are lists, not sets: they keep duplicates and non-string
  members (through `str`). Only the sorted hostvars keys are reported, not
  the hostvars themselves. Output that does not decode as JSON gives an
  ordinary reply carrying the raw stdout, not a separate failure. The model
  follows the code in each of these.
