/**
  The deterministic bookkeeping of the virtualenv test fixture
  (pkglib_testing/fixtures/venv.py): how an installed distribution is
  classified as a development, source or release package, the isolated
  environment a temporary virtualenv runs its commands in, how the
  `name version location` listing printed inside the virtualenv is parsed
  and filtered, and which commands `install_package` runs.

  Subprocesses are not run: their captured output is a parameter, and the
  commands `install_package` would run are returned in order.
 */
module Venv {
  import opened Wrappers
  import opened PyStr
  import PosixPath

  /** `PackageEntry.PACKAGE_TYPES` */
  datatype PackageType = ANY | DEV | SRC | REL

  /**
    A `package_type` argument: omitted (None), one of the four constants, or
    `Other`, which carries the `str()` of a value outside the four constants
    (a string equal to "ANY", "DEV", "SRC" or "REL" is written `Given`).
   */
  datatype TypeArg = Omitted | Given(t: PackageType) | Other(text: string)

  /** `str(package_type)` */
  function TypeArgText(a: TypeArg): string {
    match a
    case Omitted => "None"
    case Given(ANY) => "ANY"
    case Given(DEV) => "DEV"
    case Given(SRC) => "SRC"
    case Given(REL) => "REL"
    case Other(text) => text
  }

  /** An installed distribution: `PackageEntry(name, version, source_path=None)`. */
  datatype PackageEntry = PackageEntry(name: string, version: string, sourcePath: Option<string>)

  /** The entry has a non-empty location, as every entry parsed from a listing has. */
  predicate HasLocation(e: PackageEntry) {
    e.sourcePath.Some? && e.sourcePath.value != ""
  }

  /** `issrc`: a development version whose location is given and is not an egg. */
  predicate IsSrc(e: PackageEntry) {
    Contains(e.version, "dev") && e.sourcePath.Some? && !EndsWith(e.sourcePath.value, ".egg")
  }

  /** `isdev`: a development version with no location (None or empty) or installed as an egg. */
  predicate IsDev(e: PackageEntry) {
    Contains(e.version, "dev") && (e.sourcePath.None? || e.sourcePath.value == "" || EndsWith(e.sourcePath.value, ".egg"))
  }

  /** `isrel` */
  predicate IsRel(e: PackageEntry) {
    !IsDev(e)
  }

  /**
    How the three classes relate: release is the complement of development;
    with a location, a development version is exactly one of DEV and SRC,
    so every SRC entry is also REL; without "dev" in the version the entry
    is a plain release.
   */
  lemma Classification(e: PackageEntry)
    ensures IsRel(e) <==> !IsDev(e)
    ensures HasLocation(e) ==> !(IsSrc(e) && IsDev(e))
    ensures HasLocation(e) && IsSrc(e) ==> IsRel(e)
    ensures HasLocation(e) && Contains(e.version, "dev") ==> (IsSrc(e) <==> !IsDev(e))
    ensures !Contains(e.version, "dev") ==> IsRel(e) && !IsSrc(e) && !IsDev(e)
  {
  }

  /** With an empty-string location a development version is both SRC and DEV: `""` is not None, yet it is falsy. */
  lemma EmptyLocationIsSrcAndDev(e: PackageEntry)
    requires Contains(e.version, "dev") && e.sourcePath == Some("")
    ensures IsSrc(e) && IsDev(e) && !IsRel(e)
  {
  }

  /** An instance: `PackageEntry(name, "1.0.dev1", "")`. */
  lemma EmptyLocationExample(name: string)
    ensures var e := PackageEntry(name, "1.0.dev1", Some(""));
      IsSrc(e) && IsDev(e) && !IsRel(e)
  {
    assert OccursAt("1.0.dev1", "dev", 4);
    EmptyLocationIsSrcAndDev(PackageEntry(name, "1.0.dev1", Some("")));
  }

  /** `entry.match(package_type)`: ANY matches everything, REL, DEV and SRC their class, any other value nothing. */
  function Match(e: PackageEntry, packageType: TypeArg): (r: bool)
    ensures packageType == Given(ANY) ==> r
    ensures packageType == Given(REL) ==> (r <==> IsRel(e))
    ensures packageType == Given(DEV) ==> (r <==> IsDev(e))
    ensures packageType == Given(SRC) ==> (r <==> IsSrc(e))
    ensures !packageType.Given? ==> !r
  {
    if packageType == Given(ANY) then true
    else if packageType == Given(REL) && IsRel(e) then true
    else if packageType == Given(DEV) && IsDev(e) then true
    else if packageType == Given(SRC) && IsSrc(e) then true
    else false
  }

  /** An environment mapping such as `os.environ`. */
  type Env = map<string, string>

  /** `os.path.pathsep` on POSIX. */
  const PathSep := ":"

  /**
    The environment a temporary virtualenv runs in, built from `base`:
    VIRTUAL_ENV names the virtualenv, the virtualenv's bin directory comes
    first on PATH (PATH is just that directory when `base` has none),
    PYTHONPATH is gone and every other variable is as in `base`.
   */
  function Overlay(base: Env, virtualenv: string, binDir: string): (env: Env)
    ensures "VIRTUAL_ENV" in env && env["VIRTUAL_ENV"] == virtualenv
    ensures "PATH" in env && env["PATH"] == if "PATH" in base then binDir + PathSep + base["PATH"] else binDir
    ensures "PYTHONPATH" !in env
    ensures env.Keys == base.Keys + {"VIRTUAL_ENV", "PATH"} - {"PYTHONPATH"}
    ensures forall k | k in base && k != "VIRTUAL_ENV" && k != "PATH" && k != "PYTHONPATH" :: env[k] == base[k]
  {
    var withPath := base["VIRTUAL_ENV" := virtualenv]["PATH" := binDir + if "PATH" in base then PathSep + base["PATH"] else ""];
    withPath - {"PYTHONPATH"}
  }

  lemma RemoveAbsent(m: Env, k: string)
    requires k !in m
    ensures m - {k} == m
  {
  }

  /** PATH in the overlaid environment starts with the bin directory. */
  lemma OverlayPath(base: Env, virtualenv: string, binDir: string)
    ensures StartsWith(Overlay(base, virtualenv, binDir)["PATH"], binDir)
  {
    var path := Overlay(base, virtualenv, binDir)["PATH"];
    if "PATH" in base {
      assert path == binDir + (PathSep + base["PATH"]);
    }
    assert path[..|binDir|] == binDir;
  }

  /** The `env` keyword of a `run` call: left out, or passed (possibly as None). */
  datatype EnvKeyword = Unset | Passed(env: Option<Env>)

  /** An installed distribution as `pkg_resources.working_set` lists it. */
  datatype Distribution = Distribution(projectName: string, version: string, location: string)

  /** `[p for p in working_set if p.project_name == name]` */
  function WithName(workingSet: seq<Distribution>, name: string): (r: seq<Distribution>)
    ensures forall d :: d in r <==> d in workingSet && d.projectName == name
    ensures r != [] ==> exists i :: 0 <= i < |workingSet| && workingSet[i] == r[0] && forall j | 0 <= j < i :: workingSet[j].projectName != name
  {
    if workingSet == [] then
      []
    else
      var rest := WithName(workingSet[1..], name);
      var r := if workingSet[0].projectName == name then [workingSet[0]] + rest else rest;
      assert forall d :: d in workingSet <==> d == workingSet[0] || d in workingSet[1..];
      assert r != [] && workingSet[0].projectName != name ==>
        exists i :: 0 <= i < |workingSet| && workingSet[i] == r[0] && forall j | 0 <= j < i :: workingSet[j].projectName != name
      by {
        if r != [] && workingSet[0].projectName != name {
          FirstAfterHead(workingSet, name, rest);
        }
      }
      r
  }

  lemma FirstAfterHead(workingSet: seq<Distribution>, name: string, rest: seq<Distribution>)
    requires workingSet != [] && workingSet[0].projectName != name && rest != []
    requires exists i :: 0 <= i < |workingSet[1..]| && workingSet[1..][i] == rest[0] && forall j | 0 <= j < i :: workingSet[1..][j].projectName != name
    ensures exists i :: 0 <= i < |workingSet| && workingSet[i] == rest[0] && forall j | 0 <= j < i :: workingSet[j].projectName != name
  {
    var i :| 0 <= i < |workingSet[1..]| && workingSet[1..][i] == rest[0] && forall j | 0 <= j < i :: workingSet[1..][j].projectName != name;
    assert workingSet[i + 1] == rest[0];
    forall j | 0 <= j < i + 1
      ensures workingSet[j].projectName != name
    {
      if j > 0 {
        assert workingSet[j] == workingSet[1..][j - 1];
      }
    }
  }

  /** The first installed distribution of that name when it is a source checkout (its location is not an egg). */
  function SourceCheckout(workingSet: seq<Distribution>, name: string): Option<Distribution> {
    var installed := WithName(workingSet, name);
    if installed == [] || EndsWith(installed[0].location, ".egg") then None else Some(installed[0])
  }

  /** `build_egg or (build_egg is None and egg_file.isfile())` */
  predicate InstallsEgg(buildEgg: Option<bool>, eggExists: bool) {
    buildEgg == Some(true) || (buildEgg.None? && eggExists)
  }

  /** Why `installed_packages` or `dependencies` raise ValueError. */
  datatype Error =
    | InvalidPackageType(given: string)
    | InvalidDependencyType(given: string)
    | UnpackError(line: string, fields: nat)

  /** The ValueError message (Python 2's wording for the unpacking error). */
  function Message(e: Error): (r: string)
    ensures !e.UnpackError? ==> EndsWith(r, "(" + e.given + ")")
    ensures e.UnpackError? ==> (r == "too many values to unpack" <==> e.fields > 3)
  {
    match e
    case InvalidPackageType(given) => "invalid package_type parameter (" + given + ")"
    case InvalidDependencyType(given) => "invalid package_type parameter for dependencies (" + given + ")"
    case UnpackError(_, fields) =>
      if fields > 3 then "too many values to unpack"
      else "need more than " + FormatNat(fields) + (if fields == 1 then " value" else " values") + " to unpack"
  }

  /** A listing line that `strip()` leaves empty is skipped. */
  predicate IsBlank(line: string) {
    Strip(line) == []
  }

  /** What one line of a listing contributes: nothing, the unpacking error, or an entry. */
  datatype Row = Blank | Bad(error: Error) | Listed(entry: PackageEntry)

  /**
    One line of the parsing loop: blank lines are skipped, otherwise
    `name, version, location = line.split()` must find exactly three
    fields, which become `PackageEntry(name, version, location)`.
   */
  function ReadRow(line: string): (r: Row)
    ensures r.Blank? <==> IsBlank(line)
    ensures r.Listed? <==> !IsBlank(line) && |Split(Strip(line))| == 3
    ensures r.Listed? ==> HasLocation(r.entry) && Split(Strip(line)) == [r.entry.name, r.entry.version, r.entry.sourcePath.value]
    ensures r.Bad? ==> r.error == UnpackError(Strip(line), |Split(Strip(line))|)
  {
    if IsBlank(line) then
      Blank
    else
      var fields := Split(Strip(line));
      if |fields| == 3 then
        assert fields[2] != [];
        Listed(PackageEntry(fields[0], fields[1], Some(fields[2])))
      else
        Bad(UnpackError(Strip(line), |fields|))
  }

  /** Every line of a listing, read. */
  function ReadRows(lines: seq<string>): (rows: seq<Row>)
    ensures |rows| == |lines| && forall i | 0 <= i < |lines| :: rows[i] == ReadRow(lines[i])
  {
    seq(|lines|, i requires 0 <= i < |lines| => ReadRow(lines[i]))
  }

  /**
    What the parsing loop of `installed_packages` and `dependencies` builds
    from the rows of a listing: the first malformed row raises; each entry
    that matches `t` is stored under its name, a later row overwriting an
    earlier one.
   */
  function Gather(rows: seq<Row>, t: PackageType): (r: Result<map<string, PackageEntry>, Error>)
    ensures r.Ok? ==> forall n | n in r.value :: r.value[n].name == n && Match(r.value[n], Given(t))
  {
    if rows == [] then Ok(map[]) else Step(Gather(rows[..|rows| - 1], t), rows[|rows| - 1], t)
  }

  /** One turn of the parsing loop. */
  function Step(acc: Result<map<string, PackageEntry>, Error>, row: Row, t: PackageType): Result<map<string, PackageEntry>, Error> {
    match acc
    case Err(e) => Err(e)
    case Ok(m) =>
      match row
      case Blank => Ok(m)
      case Bad(e) => Err(e)
      case Listed(entry) => if Match(entry, Given(t)) then Ok(m[entry.name := entry]) else Ok(m)
  }

  lemma GatherPrefix(rows: seq<Row>, i: nat, t: PackageType)
    requires i < |rows|
    ensures Gather(rows[..i + 1], t) == Step(Gather(rows[..i], t), rows[i], t)
  {
    assert rows[..i + 1][..i] == rows[..i];
  }

  /** Row `i` holds an entry that matches `t`. */
  ghost predicate Kept(rows: seq<Row>, t: PackageType, i: int) {
    0 <= i < |rows| && rows[i].Listed? && Match(rows[i].entry, Given(t))
  }

  /** Parsing fails exactly when some row is malformed, with the error of the first such row, whatever `t` is. */
  lemma {:induction false} GatherFails(rows: seq<Row>, t: PackageType)
    ensures Gather(rows, t).Err? <==> exists i | 0 <= i < |rows| :: rows[i].Bad?
    ensures Gather(rows, t).Err? ==> exists i | 0 <= i < |rows| :: rows[i].Bad? && Gather(rows, t).error == rows[i].error && forall j | 0 <= j < i :: !rows[j].Bad?
  {
    if rows != [] {
      var prefix := rows[..|rows| - 1];
      var last := |rows| - 1;
      GatherFails(prefix, t);
      if Gather(prefix, t).Err? {
        var i :| 0 <= i < |prefix| && prefix[i].Bad? && Gather(prefix, t).error == prefix[i].error && forall j | 0 <= j < i :: !prefix[j].Bad?;
        assert rows[i] == prefix[i];
        assert forall j | 0 <= j < i :: rows[j] == prefix[j];
      } else if rows[last].Bad? {
        assert forall j | 0 <= j < last :: rows[j] == prefix[j];
      } else {
        assert forall j | 0 <= j < last :: rows[j] == prefix[j];
      }
    }
  }

  /** Once parsing has failed on a prefix of the rows, the whole listing fails with the same error. */
  lemma {:induction false} GatherErrPersists(rows: seq<Row>, i: nat, t: PackageType)
    requires i <= |rows| && Gather(rows[..i], t).Err?
    ensures Gather(rows, t) == Gather(rows[..i], t)
    decreases |rows| - i
  {
    if i < |rows| {
      var next := rows[..i + 1];
      assert next[..|next| - 1] == rows[..i];
      GatherErrPersists(rows, i + 1, t);
    } else {
      assert rows[..i] == rows;
    }
  }

  /** The names in the result are exactly those of the kept rows. */
  lemma {:induction false} GatherKeys(rows: seq<Row>, t: PackageType)
    requires Gather(rows, t).Ok?
    ensures Gather(rows, t).value.Keys == set i | 0 <= i < |rows| && Kept(rows, t, i) :: rows[i].entry.name
  {
    if rows != [] {
      var prefix := rows[..|rows| - 1];
      var last := |rows| - 1;
      GatherKeys(prefix, t);
      KeptNames(rows, t);
    }
  }

  lemma KeptNames(rows: seq<Row>, t: PackageType)
    requires rows != []
    ensures var last := |rows| - 1;
      (set i | 0 <= i < |rows| && Kept(rows, t, i) :: rows[i].entry.name)
      == (set i | 0 <= i < last && Kept(rows[..last], t, i) :: rows[..last][i].entry.name)
         + (if Kept(rows, t, last) then {rows[last].entry.name} else {})
  {
    var last := |rows| - 1;
    var prefix := rows[..last];
    var before := set i | 0 <= i < last && Kept(prefix, t, i) :: prefix[i].entry.name;
    var after := set i | 0 <= i < |rows| && Kept(rows, t, i) :: rows[i].entry.name;
    forall x | x in after
      ensures x in before || (Kept(rows, t, last) && x == rows[last].entry.name)
    {
      var i :| 0 <= i < |rows| && Kept(rows, t, i) && rows[i].entry.name == x;
      if i < last {
        assert prefix[i] == rows[i];
        assert Kept(prefix, t, i);
      }
    }
    forall x | x in before
      ensures x in after
    {
      var i :| 0 <= i < last && Kept(prefix, t, i) && prefix[i].entry.name == x;
      assert prefix[i] == rows[i];
      assert Kept(rows, t, i);
    }
  }

  /** The entry stored under a name comes from the last kept row with that name. */
  lemma {:induction false} GatherLastWins(rows: seq<Row>, t: PackageType, n: string)
    requires Gather(rows, t).Ok? && n in Gather(rows, t).value
    ensures exists i :: (Kept(rows, t, i) && rows[i].entry == Gather(rows, t).value[n]
      && forall j | i < j < |rows| :: Kept(rows, t, j) ==> rows[j].entry.name != n)
  {
    var prefix := rows[..|rows| - 1];
    var last := |rows| - 1;
    if Kept(rows, t, last) && rows[last].entry.name == n {
      assert Kept(rows, t, last);
    } else {
      GatherOther(rows, t, n);
      var m := Gather(prefix, t).value;
      GatherLastWins(prefix, t, n);
      var i :| Kept(prefix, t, i) && prefix[i].entry == m[n]
        && forall j | i < j < |prefix| :: Kept(prefix, t, j) ==> prefix[j].entry.name != n;
      assert rows[i] == prefix[i];
      assert Kept(rows, t, i);
      forall j | i < j < |rows| && Kept(rows, t, j)
        ensures rows[j].entry.name != n
      {
        if j < last {
          assert rows[j] == prefix[j];
        }
      }
    }
  }

  /** When the last row does not store `n`, the entry under `n` was already there before it. */
  lemma GatherOther(rows: seq<Row>, t: PackageType, n: string)
    requires Gather(rows, t).Ok? && n in Gather(rows, t).value
    requires !(Kept(rows, t, |rows| - 1) && rows[|rows| - 1].entry.name == n)
    ensures rows != [] && Gather(rows[..|rows| - 1], t).Ok?
    ensures n in Gather(rows[..|rows| - 1], t).value
    ensures Gather(rows, t).value[n] == Gather(rows[..|rows| - 1], t).value[n]
  {
  }

  /**
    Filtering on DEV and on REL splits the unfiltered result: both succeed
    when it does, their names together are its names, and each entry lands
    in the class it belongs to.
   */
  lemma {:induction false} DevRelPartition(rows: seq<Row>)
    requires Gather(rows, ANY).Ok?
    ensures Gather(rows, DEV).Ok? && Gather(rows, REL).Ok?
    ensures Gather(rows, DEV).value.Keys + Gather(rows, REL).value.Keys == Gather(rows, ANY).value.Keys
    ensures forall n | n in Gather(rows, ANY).value ::
      var e := Gather(rows, ANY).value[n];
      if IsDev(e) then n in Gather(rows, DEV).value && Gather(rows, DEV).value[n] == e
      else n in Gather(rows, REL).value && Gather(rows, REL).value[n] == e
  {
    if rows != [] {
      DevRelPartition(rows[..|rows| - 1]);
    }
  }

  /** The listing program prints one `name version location` line per distribution. */
  function ListingLine(d: Distribution): string {
    d.projectName + " " + d.version + " " + d.location
  }

  /** A printed listing line reads back as the distribution's entry when its three fields hold no whitespace. */
  lemma ReadListingLine(d: Distribution)
    requires AreWords([d.projectName, d.version, d.location])
    ensures ReadRow(ListingLine(d)) == Listed(PackageEntry(d.projectName, d.version, Some(d.location)))
  {
    var words := [d.projectName, d.version, d.location];
    assert words[0] != [] && words[2] != [];
    var line := ListingLine(d);
    assert JoinWith(words, ' ') == line by {
      assert JoinWith(words[2..], ' ') == d.location;
      assert JoinWith(words[1..], ' ') == d.version + " " + d.location;
    }
    assert line[0] == d.projectName[0];
    assert line[|line| - 1] == d.location[|d.location| - 1];
    StripUnchanged(line);
    SplitJoinWords(words);
  }

  lemma StripUnchanged(s: string)
    requires s != [] && !IsSpace(s[0]) && !IsSpace(s[|s| - 1])
    ensures Strip(s) == s
  {
  }

  /**
    A temporary virtualenv (`TmpVirtualEnv`). `workspace` and `debug` come
    from the Workspace base class, which is not part of this model.
   */
  class TmpVirtualEnv {
    const workspace: string
    const virtualenv: string
    const python: string
    const easyInstall: string
    const debug: bool
    var env: Env

    /** The virtualenv's `bin` directory. */
    function BinDir(): string {
      PosixPath.Join(virtualenv, "bin")
    }

    ghost predicate Valid()
      reads this
    {
      && python == PosixPath.Join(BinDir(), "python")
      && easyInstall == PosixPath.Join(BinDir(), "easy_install")
      && "VIRTUAL_ENV" in env && env["VIRTUAL_ENV"] == virtualenv
      && "PATH" in env && StartsWith(env["PATH"], BinDir())
      && "PYTHONPATH" !in env
    }

    /**
      `TmpVirtualEnv(env, workspace, name)`: copies `env` (or the process
      environment `osEnviron` when it is None) and overlays it in place; the
      PATH entry is `dirname(python)`, which is the virtualenv's bin
      directory.
     */
    constructor (env: Option<Env> := None, osEnviron: Env, workspace: string, name: string := ".env", debug: bool)
      ensures this.workspace == workspace && virtualenv == PosixPath.Join(workspace, name) && this.debug == debug
      ensures python == PosixPath.Join(BinDir(), "python") && easyInstall == PosixPath.Join(BinDir(), "easy_install")
      ensures this.env == Overlay(if env.None? then osEnviron else env.value, virtualenv, BinDir())
      ensures Valid()
    {
      this.workspace := workspace;
      var virtualenv := PosixPath.Join(workspace, name);
      this.virtualenv := virtualenv;
      python := PosixPath.Join(PosixPath.Join(virtualenv, "bin"), "python");
      easyInstall := PosixPath.Join(PosixPath.Join(virtualenv, "bin"), "easy_install");
      this.debug := debug;
      this.env := if env.None? then osEnviron else env.value;
      new;
      ghost var base := this.env;
      this.env := this.env["VIRTUAL_ENV" := virtualenv];
      BinDirIsDirnameOfPython(virtualenv);
      var binDir := PosixPath.Dirname(python);
      this.env := this.env["PATH" := binDir + if "PATH" in this.env then PathSep + this.env["PATH"] else ""];
      if "PYTHONPATH" in this.env {
        this.env := this.env - {"PYTHONPATH"};
      } else {
        RemoveAbsent(this.env, "PYTHONPATH");
      }
      assert this.env == Overlay(base, virtualenv, BinDir());
      OverlayPath(base, virtualenv, BinDir());
    }

    /** `run(...)` hands on the caller's `env` when given, otherwise this virtualenv's environment. */
    function RunEnv(kwargs: EnvKeyword): (r: Option<Env>)
      requires Valid()
      reads this
      ensures kwargs.Passed? ==> r == kwargs.env
      ensures kwargs.Unset? ==> r == Some(env)
      ensures kwargs.Unset? ==> r.Some? && "PYTHONPATH" !in r.value
      ensures kwargs.Unset? ==> "VIRTUAL_ENV" in r.value && r.value["VIRTUAL_ENV"] == virtualenv
      ensures kwargs.Unset? ==> "PATH" in r.value && StartsWith(r.value["PATH"], BinDir())
    {
      match kwargs
      case Unset => Some(env)
      case Passed(given) => given
    }

    /** `dist/<name>-<version>-py<pyversion>.egg` under the checkout. */
    function EggFile(d: Distribution, pyVersion: string): string {
      PosixPath.Join(PosixPath.Join(d.location, "dist"), d.projectName + "-" + d.version + "-py" + pyVersion + ".egg")
    }

    function BuildEggCommand(d: Distribution): string {
      "cd " + d.location + "; " + python + " setup.py -q bdist_egg"
    }

    function EasyInstallCommand(d: Distribution, pyVersion: string): string {
      python + " " + easyInstall + " " + EggFile(d, pyVersion)
    }

    function DevelopCommand(d: Distribution): string {
      "cd " + d.location + "; " + python + " setup.py -q develop"
    }

    /**
      `install_package(pkg_name, installer, build_egg)`: the commands it
      runs, in order. `workingSet` is the test process's working set,
      `pyVersion` the interpreter's version and `eggExists` whether the egg
      file is already built.
     */
    method InstallPackage(pkgName: string, installer: string := "pyinstall", buildEgg: Option<bool> := None,
                          workingSet: seq<Distribution>, pyVersion: string, eggExists: bool)
      returns (commands: seq<string>)
      ensures 1 <= |commands| <= 2
      ensures SourceCheckout(workingSet, pkgName).None? ==>
        commands == [python + " " + PosixPath.Join(BinDir(), installer) + (if debug then "" else " -q") + " " + pkgName]
      ensures SourceCheckout(workingSet, pkgName).Some? ==>
        (|commands| == 2 <==> buildEgg == Some(true) && !eggExists)
      ensures SourceCheckout(workingSet, pkgName).Some? && |commands| == 2 ==>
        commands[0] == BuildEggCommand(SourceCheckout(workingSet, pkgName).value)
      ensures SourceCheckout(workingSet, pkgName).Some? && InstallsEgg(buildEgg, eggExists) ==>
        commands[|commands| - 1] == EasyInstallCommand(SourceCheckout(workingSet, pkgName).value, pyVersion)
      ensures SourceCheckout(workingSet, pkgName).Some? && !InstallsEgg(buildEgg, eggExists) ==>
        commands[|commands| - 1] == DevelopCommand(SourceCheckout(workingSet, pkgName).value)
    {
      commands := [];
      var installed := WithName(workingSet, pkgName);
      var cmd: string;
      if installed == [] || EndsWith(installed[0].location, ".egg") {
        var installerPath := PosixPath.Join(PosixPath.Join(virtualenv, "bin"), installer);
        if !debug {
          installerPath := installerPath + " -q";
        }
        cmd := python + " " + installerPath + " " + pkgName;
        assert cmd == python + " " + PosixPath.Join(BinDir(), installer) + (if debug then "" else " -q") + " " + pkgName;
      } else {
        var pkg := installed[0];
        if buildEgg == Some(true) && !eggExists {
          commands := commands + [BuildEggCommand(pkg)];
        }
        if buildEgg == Some(true) || (buildEgg.None? && eggExists) {
          cmd := EasyInstallCommand(pkg, pyVersion);
        } else {
          cmd := DevelopCommand(pkg);
        }
      }
      commands := commands + [cmd];
    }

    /**
      `installed_packages(package_type)` on the captured `output` of the
      listing program: the type is checked (None means ANY) but does not
      filter; every listed distribution is returned by name.
     */
    method InstalledPackages(packageType: TypeArg, output: string) returns (r: Result<map<string, PackageEntry>, Error>)
      ensures packageType.Other? ==> r == Err(InvalidPackageType(packageType.text))
      ensures !packageType.Other? ==> r == Gather(ReadRows(SplitOn(output, '\n')), ANY)
    {
      if packageType.Other? {
        return Err(InvalidPackageType(TypeArgText(packageType)));
      }
      r := ParseListing(output, ANY);
    }

    /**
      `dependencies(package_name, package_type)` on the captured `output`
      of the requirement listing: only None (meaning ANY), DEV and REL are
      accepted, and only entries matching the type are returned.
     */
    method Dependencies(packageType: TypeArg, output: string) returns (r: Result<map<string, PackageEntry>, Error>)
      ensures packageType.Omitted? ==> r == Gather(ReadRows(SplitOn(output, '\n')), ANY)
      ensures packageType == Given(DEV) || packageType == Given(REL) ==> r == Gather(ReadRows(SplitOn(output, '\n')), packageType.t)
      ensures packageType == Given(ANY) || packageType == Given(SRC) || packageType.Other? ==>
        r == Err(InvalidDependencyType(TypeArgText(packageType)))
    {
      var t: PackageType;
      if packageType.Omitted? {
        t := ANY;
      } else if packageType == Given(DEV) || packageType == Given(REL) {
        t := packageType.t;
      } else {
        return Err(InvalidDependencyType(TypeArgText(packageType)));
      }
      r := ParseListing(output, t);
    }

    /**
      The parsing loop both listings share: strip each line, skip blank
      ones, unpack the other into name, version and location, and keep the
      entries that match `t` (`installed_packages` keeps them all, which is
      matching ANY).
     */
    method ParseListing(output: string, t: PackageType) returns (r: Result<map<string, PackageEntry>, Error>)
      ensures r == Gather(ReadRows(SplitOn(output, '\n')), t)
    {
      var res: map<string, PackageEntry> := map[];
      var lines := SplitOn(output, '\n');
      ghost var rows := ReadRows(lines);
      var i := 0;
      while i < |lines|
        invariant 0 <= i <= |lines|
        invariant Gather(rows[..i], t) == Ok(res)
      {
        GatherPrefix(rows, i, t);
        var next := ParseLine(res, lines[i], t);
        if next.Err? {
          GatherErrPersists(rows, i + 1, t);
          return next;
        }
        res := next.value;
        i := i + 1;
      }
      assert rows[..i] == rows;
      r := Ok(res);
    }

    /** One turn of the parsing loop on a raw line: skip it when blank, unpack it, and store the entry when it matches `t`. */
    method ParseLine(res: map<string, PackageEntry>, raw: string, t: PackageType) returns (r: Result<map<string, PackageEntry>, Error>)
      ensures r == Step(Ok(res), ReadRow(raw), t)
    {
      var line := Strip(raw);
      if line == [] {
        assert ReadRow(raw) == Blank;
        return Ok(res);
      }
      var fields := Split(line);
      if |fields| != 3 {
        assert ReadRow(raw) == Bad(UnpackError(line, |fields|));
        return Err(UnpackError(line, |fields|));
      }
      var entry := PackageEntry(fields[0], fields[1], Some(fields[2]));
      assert ReadRow(raw) == Listed(entry);
      if Match(entry, Given(t)) {
        return Ok(res[fields[0] := entry]);
      }
      return Ok(res);
    }
  }

  /** The PATH entry the constructor computes as `dirname(python)` is the virtualenv's bin directory. */
  lemma BinDirIsDirnameOfPython(virtualenv: string)
    ensures PosixPath.Dirname(PosixPath.Join(PosixPath.Join(virtualenv, "bin"), "python")) == PosixPath.Join(virtualenv, "bin")
  {
    var bin := PosixPath.Join(virtualenv, "bin");
    assert EndsWith(bin, "bin");
    assert bin[|bin| - 1] == bin[|bin| - 3..][2];
    PosixPath.DirnameOfJoinPlain(bin, "python");
  }
}
