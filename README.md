# pkglib-testing fixtures: virtualenv bookkeeping and Jenkins plugin loading

This project models two test fixtures of pkglib-testing and proves
properties of them in Dafny.

- `Venv` models the virtualenv fixture (`pkglib_testing/fixtures/venv.py`):
  - `PackageEntry` classifies an installed distribution as DEV, SRC or REL, and `match` filters on that class.
  - `TmpVirtualEnv` builds an isolated process environment in its constructor and hands it to `run`.
  - `install_package` chooses the commands it runs.
  - `installed_packages` and `dependencies` validate the requested package type, then parse the `name version location` listing printed inside the virtualenv.
- `Jenkins` models the Jenkins test server (`pkglib_testing/jenkins_server.py`):
  - `run_cmd` builds the command line that starts Jenkins.
  - `plugins_dir` names the plugin directory.
  - `load_plugins` finds the available `.hpi` files, validates the request and decides which file is copied where.
- `PyStr` gives the Python 2 string operations these use: `in`, `strip()`, `split()`, `split('\n')`, `' '.join`, `sorted`, and `'%s' % n` for a port number.
- `PosixPath` gives the POSIX `os.path` operations these use: `join`, `dirname`, `basename`, `splitext` and `normpath`.
- `Wrappers` holds `Option` (Python's None) and `Result` (a raised ValueError).

Subprocesses, the file system and the global configuration are inputs:

- the captured output of a listing command is a string;
- the repository's directory listing is a sequence of names;
- "is a directory" and "the egg file exists" are booleans;
- `pkg_resources.working_set` is a sequence of distributions.

Effects are results. `install_package` returns the commands it would run, in order. `load_plugins` returns the `shutil.copy` (source, target) pairs, in order.

`TmpVirtualEnv` is a class whose constructor fills `env` in place, as the source does. `installed_packages`, `dependencies` and `load_plugins` are methods with the source's loops. Each loop is proved against a recursive specification function (`Gather`, `Missing`, `Copies`), and the properties are then proved about those functions.

Two points about what the code does:

- PATH in the virtualenv's environment is the bin directory followed by the inherited PATH. It is not only the virtualenv's own entries.
- The fixtures raise `ValueError` for a missing `jenkins_war`, a missing plugin repository or an invalid package type. They do not raise a dedicated configuration error.

## Model

| member | source | states |
|---|---|---|
| Venv.Classification | pkglib-testing/pkglib_testing/fixtures/venv.py:37-49 | `isrel` is exactly `not isdev`. With a location, SRC and DEV exclude each other, so every SRC entry is REL. A version without "dev" is a plain release. |
| Venv.EmptyLocationIsSrcAndDev | pkglib-testing/pkglib_testing/fixtures/venv.py:37-49 | Every entry whose version contains "dev" and whose location is the empty string is both SRC and DEV and not REL: `""` is not None, but it is falsy. |
| Venv.Match | pkglib-testing/pkglib_testing/fixtures/venv.py:51-63 | `match(ANY)` always holds. `match(REL/DEV/SRC)` holds exactly when the entry is in that class. Any other argument gives False. |
| Venv.Overlay | pkglib-testing/pkglib_testing/fixtures/venv.py:86-95 | VIRTUAL_ENV is the virtualenv. PATH is the bin dir, then `:` and the old PATH, or just the bin dir when there was none. PYTHONPATH is absent. The keys are the old keys plus VIRTUAL_ENV and PATH, minus PYTHONPATH. Every other variable keeps its value. |
| Venv.OverlayPath | pkglib-testing/pkglib_testing/fixtures/venv.py:92-93 | PATH in the overlaid environment starts with the bin directory. |
| Venv.BinDirIsDirnameOfPython | pkglib-testing/pkglib_testing/fixtures/venv.py:83-92 | `dirname(python)`, used as the PATH entry, is the virtualenv's bin directory. |
| Venv.TmpVirtualEnv.constructor | pkglib-testing/pkglib_testing/fixtures/venv.py:80-95 | `virtualenv`, `python` and `easy_install` sit under `workspace/name/bin`. The new `env` is the overlay of the given mapping, or of `os.environ` when None. The class invariant holds. |
| Venv.TmpVirtualEnv.RunEnv | pkglib-testing/pkglib_testing/fixtures/venv.py:102-108 | An `env` the caller passes is used as given. Otherwise `run` gets exactly the object's own `env`, with every inherited variable the overlay kept: VIRTUAL_ENV set, the bin dir first on PATH, no PYTHONPATH. |
| Venv.WithName | pkglib-testing/pkglib_testing/fixtures/venv.py:138 | Keeps exactly the distributions with that project name. The first one kept is the earliest such distribution in the working set. |
| Venv.TmpVirtualEnv.InstallPackage | pkglib-testing/pkglib_testing/fixtures/venv.py:127-165 | Absent or egg-installed: one installer command, with " -q" exactly when not debug. A source checkout: an egg is built first exactly when `build_egg` is true and the egg is missing; the last command is `easy_install` of the egg exactly when `build_egg` is true, or None with the egg present; otherwise it is `setup.py develop`. |
| Venv.Message | pkglib-testing/pkglib_testing/fixtures/venv.py:172-182 | An invalid-type message ends with the given value in parentheses. An unpacking error reads "too many values to unpack" exactly when a line has more than three fields. |
| Venv.ReadRow | pkglib-testing/pkglib_testing/fixtures/venv.py:181-183 | A line is skipped exactly when it strips to nothing. It yields an entry exactly when its stripped text splits into three fields, which become the name, version and a non-empty location. Otherwise it is the unpacking error for that field count. |
| Venv.Gather | pkglib-testing/pkglib_testing/fixtures/venv.py:212-222 | Every entry in a successful result is stored under its own name and matches the requested type. |
| Venv.GatherFails | pkglib-testing/pkglib_testing/fixtures/venv.py:217-218 | Parsing fails exactly when some line is malformed, and the error is that of the first malformed line. |
| Venv.GatherKeys | pkglib-testing/pkglib_testing/fixtures/venv.py:217-221 | The result's names are exactly the names on the kept lines. |
| Venv.GatherLastWins | pkglib-testing/pkglib_testing/fixtures/venv.py:217-221 | The entry under a name comes from a kept line, and no later kept line has that name: a later duplicate overwrites an earlier one. |
| Venv.DevRelPartition | pkglib-testing/pkglib_testing/fixtures/venv.py:207-222 | When the unfiltered listing parses, the DEV and REL filters both succeed. Their names together are all the names. Each entry appears, unchanged, under the filter of its class. |
| Venv.ReadListingLine | pkglib-testing/pkglib_testing/fixtures/venv.py:178-183 | A line the listing program prints for a distribution whose fields hold no whitespace reads back as exactly that distribution's entry. |
| Venv.TmpVirtualEnv.InstalledPackages | pkglib-testing/pkglib_testing/fixtures/venv.py:167-184 | A value outside the four types raises. Otherwise the result is the unfiltered parse of the output, whichever valid type, or None, was given. |
| Venv.TmpVirtualEnv.Dependencies | pkglib-testing/pkglib_testing/fixtures/venv.py:191-222 | None parses unfiltered. DEV and REL parse keeping only matching entries. ANY, SRC and any other value raise, naming the value. |
| Venv.TmpVirtualEnv.ParseListing | pkglib-testing/pkglib_testing/fixtures/venv.py:216-222 | The loop over the output's lines computes exactly `Gather` of the rows read from those lines. |
| Venv.TmpVirtualEnv.ParseLine | pkglib-testing/pkglib_testing/fixtures/venv.py:219-222 | One turn of the loop on a raw line is exactly one `Step` of `Gather` on the row that line reads as: nothing for a blank line, the unpacking error, or the map with the entry stored under its name when it matches. |
| Jenkins.RunCmd | pkglib-testing/pkglib_testing/jenkins_server.py:30-42 | Raises exactly when `jenkins_war` is None or empty. Otherwise it returns eight arguments: java, `-jar`, the war, then options that read back as the port in decimal, the host name, AJP off, the URL class loader and the war directory under the workspace. |
| Jenkins.PortReadsBack | pkglib-testing/pkglib_testing/jenkins_server.py:37 | The port option's value is a string of decimal digits that denotes the server's port. |
| Jenkins.OptionsRead | pkglib-testing/pkglib_testing/jenkins_server.py:37-41 | Each of the five options is found under its own name with its own value. |
| Jenkins.WarDirOfNormal | pkglib-testing/pkglib_testing/jenkins_server.py:41 | For a normal absolute workspace, the webroot is `<workspace>/run/war`. |
| Jenkins.PluginsDir | pkglib-testing/pkglib_testing/jenkins_server.py:78-80 | `normpath(join(workspace, 'plugins'))` is never empty. |
| Jenkins.PluginsDirOfNormal | pkglib-testing/pkglib_testing/jenkins_server.py:78-80 | For a normal absolute workspace, the plugin directory is `<workspace>/plugins`, and it is normal itself. |
| Jenkins.PluginNameOfHpi | pkglib-testing/pkglib_testing/jenkins_server.py:53-54 | A repository file `<stem>.hpi` names plugin `<stem>` when the stem has no `/` and is not all dots. |
| Jenkins.HiddenHpi | pkglib-testing/pkglib_testing/jenkins_server.py:53-54 | A file named just `.hpi` names plugin `.hpi`, since `splitext` treats it as a hidden file. |
| Jenkins.AvailableKeys | pkglib-testing/pkglib_testing/jenkins_server.py:53-54 | A plugin name is available exactly when some listed file ending in `.hpi` has that name once its extension is stripped. |
| Jenkins.AvailableListed | pkglib-testing/pkglib_testing/jenkins_server.py:53-54 | Every listed `.hpi` file makes its plugin name available. |
| Jenkins.AvailableSource | pkglib-testing/pkglib_testing/jenkins_server.py:53-54 | Each available plugin maps to `join(repo, x)` for a listed `.hpi` file `x` of that name. |
| Jenkins.Missing | pkglib-testing/pkglib_testing/jenkins_server.py:62-66 | The collected errors are exactly the requested names that are not available, each recorded once. |
| Jenkins.MissingOrder | pkglib-testing/pkglib_testing/jenkins_server.py:62-66 | The collected errors are in the order of each name's first occurrence in the request. |
| Jenkins.MissingError | pkglib-testing/pkglib_testing/jenkins_server.py:67-72 | One missing name gives the singular error naming it. Several give the plural error with the names sorted: a sorted permutation of the errors. |
| Jenkins.MissingReported | pkglib-testing/pkglib_testing/jenkins_server.py:62-72 | The raised error names exactly the requested, unavailable plugins, each once. It is the singular form exactly when one distinct name is missing. |
| Jenkins.TargetInPluginsDir | pkglib-testing/pkglib_testing/jenkins_server.py:74-80 | For a normal absolute workspace, the copy target of plugin `p` lies directly in the plugin directory, and its file name names plugin `p` again. |
| Jenkins.Copies | pkglib-testing/pkglib_testing/jenkins_server.py:74-76 | There is one copy per name, in order: from the available file to `join(plugins_dir, p + '.hpi')`. |
| Jenkins.Keys | pkglib-testing/pkglib_testing/jenkins_server.py:56-57 | `available_plugins.keys()` lists every available name exactly once. |
| Jenkins.CopyAll | pkglib-testing/pkglib_testing/jenkins_server.py:56-76 | With no names given, every available plugin is copied once, in some order of the keys. |
| Jenkins.CopyEach | pkglib-testing/pkglib_testing/jenkins_server.py:74-76 | The copy loop makes exactly `Copies` for the names. |
| Jenkins.MissingNames | pkglib-testing/pkglib_testing/jenkins_server.py:62-66 | The error-collecting loop computes exactly `Missing`. |
| Jenkins.LoadPlugins | pkglib-testing/pkglib_testing/jenkins_server.py:44-76 | A repository that is not a directory raises first. None copies every available plugin once. Otherwise a single string counts as a list of one. Any missing name raises the missing-plugin error with no copy made; if none is missing, each requested name is copied in the order given. |
| PyStr.Contains | pkglib-testing/pkglib_testing/fixtures/venv.py:38 | `sub in s` holds exactly when `sub` occurs in `s` at some index. |
| PyStr.Strip | pkglib-testing/pkglib_testing/fixtures/venv.py:181 | `strip()` is the slice of the line between a blank head and a blank tail. It is empty exactly for a blank line, and otherwise neither starts nor ends with whitespace. |
| PyStr.Split | pkglib-testing/pkglib_testing/fixtures/venv.py:182 | `split()` yields non-empty fields without whitespace. |
| PyStr.SplitBlank | pkglib-testing/pkglib_testing/fixtures/venv.py:181-182 | `split()` is empty exactly for a blank string. |
| PyStr.SplitJoinWords | pkglib-testing/pkglib_testing/fixtures/venv.py:179-182 | Splitting words joined by single spaces gives the words back. |
| PyStr.SplitOn | pkglib-testing/pkglib_testing/fixtures/venv.py:180 | `split('\n')` yields at least one piece, and no piece contains a newline. |
| PyStr.JoinSplit | pkglib-testing/pkglib_testing/fixtures/venv.py:180 | Joining the pieces of `split('\n')` with newlines gives back the output. |
| PyStr.Sort | pkglib-testing/pkglib_testing/jenkins_server.py:71 | `sorted` returns a sorted permutation. |
| PyStr.FormatNat | pkglib-testing/pkglib_testing/jenkins_server.py:37 | `'%s' % port` is a string of decimal digits, with no leading zero, that denotes the port. |
| PosixPath.Join | pkglib-testing/pkglib_testing/jenkins_server.py:53 | `join(a, b)` is `b` when `b` is absolute. Otherwise it starts with `a`, ends with `b`, and has at most one `/` between them. |
| PosixPath.JoinSlash | pkglib-testing/pkglib_testing/jenkins_server.py:53 | For a relative `b`, `join(a, b)` is `a + "/" + b` exactly when `a` is non-empty and does not end in `/`, and `a + b` otherwise. |
| PosixPath.DirnameOfJoin | pkglib-testing/pkglib_testing/fixtures/venv.py:92 | `dirname(join(a, b))`, for a `b` without `/`, is `a` with its trailing slashes removed, unless `a` is all slashes. |
| PosixPath.BasenameOfJoin | pkglib-testing/pkglib_testing/jenkins_server.py:53 | `basename(join(a, b))` is `b` for a `b` without `/`. |
| PosixPath.NormPathOfNormal | pkglib-testing/pkglib_testing/jenkins_server.py:80 | `normpath` leaves a normal absolute path unchanged. |
| PosixPath.JoinNormal | pkglib-testing/pkglib_testing/jenkins_server.py:80 | Joining a plain name onto a normal absolute path gives `p + "/" + name`, which is normal again. |

## Left out

- Running subprocesses is not modelled. This covers `run` itself, `popen`, `run_with_coverage` and the virtualenv creation command (venv.py:97-100). The listing scripts of `installed_packages` and `dependencies` are also left out; only their captured output is modelled.
- `dependencies` takes a `package_name` argument that it never uses, so the model drops it.
- `TmpVirtualEnv.__init__` passes `workspace` to the `Workspace` base class, which is not part of this model. The model takes the workspace path and the debug flag as given.
- Aliasing of the caller's environment is not modelled. Environments are values, so the copy taken at venv.py:87-89 cannot be told apart from the original.
- `JenkinsTestServer.__init__` (the JENKINS_* environment and the API client) and `port_seed` are left out. They are not part of the plugin and command logic.
- The file system is not modelled:
  - `os.listdir` is a given sequence of names;
  - `os.path.isdir` and `isfile` are given booleans;
  - `shutil.copy` is a returned (source, target) pair.
  File contents and copy failures are not modelled.
- Venv.TmpVirtualEnv.InstallPackage: `build_egg` is None, False or True. Other truthy or falsy values are not modelled.
- Jenkins.Keys: the order of `dict.keys()` is arbitrary in Python 2. The model proves only that each key is copied exactly once.
- Venv.Match: package types are a datatype. The source's identity test (`is`) on interned strings is read as equality with the four constants.
- Jenkins.Message: the plural message shows the sorted names with Python's `repr` of a list. String escaping inside `repr` is not modelled, and the message text has no contract of its own.
- PyStr.Strip: whitespace is the six ASCII whitespace characters, as Python 2 byte strings see it. Unicode whitespace is not modelled.
- PosixPath.Join: paths are POSIX paths and `os.path.pathsep` is `:`. Windows paths are not modelled.
- `pkg_resources.working_set` and `sysconfig.get_python_version()` are given values.
