/**
  The Jenkins test server fixture (pkglib_testing/jenkins_server.py): the
  command line that starts Jenkins, the plugin directory under the
  server's workspace, and which plugin files `load_plugins` copies where.

  The configuration, the repository's directory listing and whether the
  repository exists are parameters; the copies are returned as
  (source, target) pairs in the order `shutil.copy` would make them.
 */
module Jenkins {
  import opened Wrappers
  import opened PyStr
  import PosixPath

  /** The two settings of the organisation configuration the fixture reads. */
  datatype Config = Config(javaExecutable: string, jenkinsWar: Option<string>)

  /** The parts of a `JenkinsTestServer` these operations read. */
  datatype JenkinsTestServer = JenkinsTestServer(hostname: string, port: nat, workspace: string)

  /** Why `run_cmd` or `load_plugins` raise ValueError. */
  datatype Error =
    | WarMissing
    | RepositoryMissing(repo: string)
    | PluginMissing(name: string)
    | PluginsMissing(names: seq<string>)

  /** Python's `repr` of a list of plain strings. */
  function ReprList(names: seq<string>): string {
    "[" + ReprItems(names) + "]"
  }

  function ReprItems(names: seq<string>): string {
    if names == [] then ""
    else if |names| == 1 then "'" + names[0] + "'"
    else "'" + names[0] + "', " + ReprItems(names[1..])
  }

  /** The ValueError message. */
  function Message(e: Error): string {
    match e
    case WarMissing => "jenkins_war missing from org config"
    case RepositoryMissing(repo) => "Plugin repository \"" + repo + "\" does not exist"
    case PluginMissing(name) => "Plugin \"" + name + "\" is not present in the repository"
    case PluginsMissing(names) => "Plugins " + ReprList(names) + " are not present in the repository"
  }

  /** The value of the first argument of the form `<prefix><value>`, as a command-line option parser reads it. */
  function OptionValue(args: seq<string>, prefix: string): (r: Option<string>)
    ensures r.Some? ==> exists i | 0 <= i < |args| :: args[i] == prefix + r.value
    ensures r.None? ==> forall i | 0 <= i < |args| :: !StartsWith(args[i], prefix)
  {
    if args == [] then
      None
    else if StartsWith(args[0], prefix) then
      assert args[0] == prefix + args[0][|prefix|..];
      Some(args[0][|prefix|..])
    else
      var r := OptionValue(args[1..], prefix);
      assert forall i | 1 <= i < |args| :: args[i] == args[1..][i - 1];
      r
  }

  /** `workspace / 'run' / 'war'`: where Jenkins unpacks its web application. */
  function WarDir(server: JenkinsTestServer): string {
    PosixPath.Join(PosixPath.Join(server.workspace, "run"), "war")
  }

  /** The options on the command line after `-jar <war>`. */
  function Options(server: JenkinsTestServer): seq<string> {
    OptionList(FormatNat(server.port), server.hostname, WarDir(server))
  }

  function OptionList(port: string, hostname: string, webroot: string): seq<string> {
    ["--httpPort=" + port,
     "--httpListenAddress=" + hostname,
     "--ajp13Port=" + "-1",
     "--preferredClassLoader=" + "java.net.URLClassLoader",
     "--webroot=" + webroot]
  }

  /**
    `run_cmd`: the command line starting Jenkins from the configured war
    file. Missing or empty `jenkins_war` raises; otherwise Java runs the
    war, and the options Jenkins reads from the rest of the line are the
    server's port (in decimal), its host name, AJP switched off, the URL
    class loader and the war directory under the workspace.
   */
  function RunCmd(config: Config, server: JenkinsTestServer): (r: Result<seq<string>, Error>)
    ensures r.Err? <==> config.jenkinsWar.None? || config.jenkinsWar.value == ""
    ensures r.Err? ==> r.error == WarMissing
    ensures r.Ok? ==> |r.value| == 8 && r.value[..3] == [config.javaExecutable, "-jar", config.jenkinsWar.value]
    ensures r.Ok? ==> OptionValue(r.value[3..], "--httpPort=") == Some(FormatNat(server.port))
    ensures r.Ok? ==> OptionValue(r.value[3..], "--httpListenAddress=") == Some(server.hostname)
    ensures r.Ok? ==> OptionValue(r.value[3..], "--ajp13Port=") == Some("-1")
    ensures r.Ok? ==> OptionValue(r.value[3..], "--preferredClassLoader=") == Some("java.net.URLClassLoader")
    ensures r.Ok? ==> OptionValue(r.value[3..], "--webroot=") == Some(WarDir(server))
  {
    if config.jenkinsWar.None? || config.jenkinsWar.value == "" then
      Err(WarMissing)
    else
      var args := [config.javaExecutable, "-jar", config.jenkinsWar.value] + Options(server);
      assert args[3..] == Options(server);
      assert args[..3] == [config.javaExecutable, "-jar", config.jenkinsWar.value];
      OptionsRead(server);
      Ok(args)
  }

  /** The port option reads back as the server's port. */
  lemma PortReadsBack(config: Config, server: JenkinsTestServer)
    requires RunCmd(config, server).Ok?
    ensures var v := OptionValue(RunCmd(config, server).value[3..], "--httpPort=");
      v.Some? && (forall k | 0 <= k < |v.value| :: IsDigit(v.value[k])) && DigitsValue(v.value) == server.port
  {
  }

  /** Each option is found under its own name. */
  lemma OptionsRead(server: JenkinsTestServer)
    ensures OptionValue(Options(server), "--httpPort=") == Some(FormatNat(server.port))
    ensures OptionValue(Options(server), "--httpListenAddress=") == Some(server.hostname)
    ensures OptionValue(Options(server), "--ajp13Port=") == Some("-1")
    ensures OptionValue(Options(server), "--preferredClassLoader=") == Some("java.net.URLClassLoader")
    ensures OptionValue(Options(server), "--webroot=") == Some(WarDir(server))
  {
    var port, host, webroot := FormatNat(server.port), server.hostname, WarDir(server);
    ReadPort(port, host, webroot);
    ReadHost(port, host, webroot);
    ReadAjp(port, host, webroot);
    ReadClassLoader(port, host, webroot);
    ReadWebroot(port, host, webroot);
  }

  lemma ReadPort(port: string, host: string, webroot: string)
    ensures OptionValue(OptionList(port, host, webroot), "--httpPort=") == Some(port)
  {
    OptionAt(OptionList(port, host, webroot), "--httpPort=", 0, port);
  }

  lemma ReadHost(port: string, host: string, webroot: string)
    ensures OptionValue(OptionList(port, host, webroot), "--httpListenAddress=") == Some(host)
  {
    var o := OptionList(port, host, webroot);
    assert o[0][6] == 'P';
    DifferAt(o[0], "--httpListenAddress=", 6);
    OptionAt(o, "--httpListenAddress=", 1, host);
  }

  lemma ReadAjp(port: string, host: string, webroot: string)
    ensures OptionValue(OptionList(port, host, webroot), "--ajp13Port=") == Some("-1")
  {
    var o := OptionList(port, host, webroot);
    assert o[0][2] == 'h' && o[1][2] == 'h';
    DifferAt(o[0], "--ajp13Port=", 2);
    DifferAt(o[1], "--ajp13Port=", 2);
    OptionAt(o, "--ajp13Port=", 2, "-1");
  }

  lemma ReadClassLoader(port: string, host: string, webroot: string)
    ensures OptionValue(OptionList(port, host, webroot), "--preferredClassLoader=") == Some("java.net.URLClassLoader")
  {
    var o := OptionList(port, host, webroot);
    assert o[0][2] == 'h' && o[1][2] == 'h' && o[2][2] == 'a';
    DifferAt(o[0], "--preferredClassLoader=", 2);
    DifferAt(o[1], "--preferredClassLoader=", 2);
    DifferAt(o[2], "--preferredClassLoader=", 2);
    OptionAt(o, "--preferredClassLoader=", 3, "java.net.URLClassLoader");
  }

  lemma ReadWebroot(port: string, host: string, webroot: string)
    ensures OptionValue(OptionList(port, host, webroot), "--webroot=") == Some(webroot)
  {
    var o := OptionList(port, host, webroot);
    assert o[0][2] == 'h' && o[1][2] == 'h' && o[2][2] == 'a' && o[3][2] == 'p';
    DifferAt(o[0], "--webroot=", 2);
    DifferAt(o[1], "--webroot=", 2);
    DifferAt(o[2], "--webroot=", 2);
    DifferAt(o[3], "--webroot=", 2);
    OptionAt(o, "--webroot=", 4, webroot);
  }

  lemma {:induction false} OptionAt(args: seq<string>, prefix: string, i: nat, v: string)
    requires i < |args| && args[i] == prefix + v
    requires forall j | 0 <= j < i :: !StartsWith(args[j], prefix)
    ensures OptionValue(args, prefix) == Some(v)
  {
    if i == 0 {
      assert args[0][..|prefix|] == prefix;
      assert args[0][|prefix|..] == v;
    } else {
      assert forall j | 0 <= j < i - 1 :: args[1..][j] == args[j + 1];
      OptionAt(args[1..], prefix, i - 1, v);
    }
  }

  lemma DifferAt(s: string, prefix: string, k: nat)
    requires k < |s| && k < |prefix| && s[k] != prefix[k]
    ensures !StartsWith(s, prefix)
  {
    if |prefix| <= |s| {
      assert s[..|prefix|][k] == s[k];
    }
  }

  /** `plugins_dir`: `normpath(join(workspace, 'plugins'))`. */
  function PluginsDir(server: JenkinsTestServer): (r: string)
    ensures r != []
  {
    PosixPath.NormPath(PosixPath.Join(server.workspace, "plugins"))
  }

  /** For a workspace that is already a normal absolute path, the plugin directory is simply `<workspace>/plugins`, and so is normal itself. */
  lemma PluginsDirOfNormal(server: JenkinsTestServer)
    requires PosixPath.IsNormalAbsolute(server.workspace)
    ensures PluginsDir(server) == server.workspace + "/" + "plugins"
    ensures PosixPath.IsNormalAbsolute(PluginsDir(server))
  {
    var joined := PosixPath.Join(server.workspace, "plugins");
    PosixPath.JoinNormal(server.workspace, "plugins");
    PosixPath.NormPathOfNormal(joined);
    assert PluginsDir(server) == joined;
  }

  /** For a normal absolute workspace the war directory is `<workspace>/run/war`. */
  lemma WarDirOfNormal(server: JenkinsTestServer)
    requires PosixPath.IsNormalAbsolute(server.workspace)
    ensures WarDir(server) == server.workspace + "/" + "run" + "/" + "war"
  {
    var run := PosixPath.Join(server.workspace, "run");
    PosixPath.JoinNormal(server.workspace, "run");
    PosixPath.JoinNormal(run, "war");
  }

  /** `x.endswith(".hpi")`: a plugin archive. */
  predicate IsHpi(x: string) {
    EndsWith(x, ".hpi")
  }

  /** `os.path.splitext(os.path.basename(x))[0]`: the plugin name of a repository file. */
  function PluginName(x: string): string {
    PosixPath.SplitextRoot(PosixPath.Basename(x))
  }

  /** A file name `<stem>.hpi` names plugin `<stem>`, provided the stem is not made of dots only. */
  lemma PluginNameOfHpi(stem: string)
    requires '/' !in stem
    requires exists k | 0 <= k < |stem| :: stem[k] != '.'
    ensures PluginName(stem + ".hpi") == stem
  {
    var x := stem + ".hpi";
    BasenameOfPlain(stem, ".hpi");
    assert x == (stem + ".") + "hpi";
    PosixPath.RFindAppend(stem + ".", "hpi", '.');
    assert PosixPath.RFind(stem + ".", '.') == |stem|;
    var k :| 0 <= k < |stem| && stem[k] != '.';
    assert x[k] == stem[k];
    assert x[..|stem|] == stem;
  }

  lemma BasenameOfPlain(a: string, b: string)
    requires '/' !in a && '/' !in b
    ensures PosixPath.RFind(a + b, '/') == -1
    ensures PosixPath.Basename(a + b) == a + b
  {
    assert [] + a == a;
    PosixPath.RFindAppend([], a, '/');
    PosixPath.RFindAppend(a, b, '/');
  }

  /** A file named just `.hpi` is a hidden file to `splitext`, so it names plugin `.hpi`. */
  lemma HiddenHpi()
    ensures PluginName(".hpi") == ".hpi"
  {
    BasenameOfPlain(".", "hpi");
    assert "." + "hpi" == ".hpi";
    PosixPath.RFindAppend(".", "hpi", '.');
  }

  /**
    `available_plugins`: each `.hpi` file of the repository listing under
    its plugin name, mapped to its path in the repository; of two files
    giving the same name, the later in the listing wins.
   */
  function Available(repo: string, listing: seq<string>): map<string, string>
  {
    if listing == [] then
      map[]
    else
      var m := Available(repo, listing[..|listing| - 1]);
      var x := listing[|listing| - 1];
      if IsHpi(x) then m[PluginName(x) := PosixPath.Join(repo, x)] else m
  }

  /** A name is on offer exactly when some listed `.hpi` file carries it. */
  lemma AvailableKeys(repo: string, listing: seq<string>, name: string)
    ensures name in Available(repo, listing) <==> exists x | x in listing :: IsHpi(x) && PluginName(x) == name
  {
    if name in Available(repo, listing) {
      AvailableSource(repo, listing, name);
    }
    if exists x | x in listing :: IsHpi(x) && PluginName(x) == name {
      var x :| x in listing && IsHpi(x) && PluginName(x) == name;
      AvailableListed(repo, listing, x);
    }
  }

  /** Every listed `.hpi` file puts its plugin name on offer. */
  lemma {:induction false} AvailableListed(repo: string, listing: seq<string>, x: string)
    requires x in listing && IsHpi(x)
    ensures PluginName(x) in Available(repo, listing)
  {
    var prefix := listing[..|listing| - 1];
    var last := listing[|listing| - 1];
    if !(IsHpi(last) && PluginName(last) == PluginName(x)) {
      assert listing == prefix + [last];
      assert x in prefix;
      AvailableListed(repo, prefix, x);
    }
  }

  /** Each available plugin is copied from a listed `.hpi` file of that plugin name inside the repository. */
  lemma {:induction false} AvailableSource(repo: string, listing: seq<string>, name: string)
    requires name in Available(repo, listing)
    ensures exists x | x in listing :: IsHpi(x) && PluginName(x) == name && Available(repo, listing)[name] == PosixPath.Join(repo, x)
  {
    var prefix := listing[..|listing| - 1];
    var x := listing[|listing| - 1];
    assert x in listing;
    if !(IsHpi(x) && PluginName(x) == name) {
      AvailableSource(repo, prefix, name);
      var y :| y in prefix && IsHpi(y) && PluginName(y) == name && Available(repo, prefix)[name] == PosixPath.Join(repo, y);
      assert y in listing;
    }
  }

  /** The `plugins` argument: None, one name, or a list of names. */
  datatype PluginsArg = AllPlugins | Single(name: string) | Names(names: seq<string>)

  /** The names requested when some were given: a single string stands for a list of one. */
  function Requested(plugins: PluginsArg): seq<string>
    requires !plugins.AllPlugins?
  {
    if plugins.Single? then [plugins.name] else plugins.names
  }

  ghost predicate Distinct(s: seq<string>) {
    forall i, j | 0 <= i < j < |s| :: s[i] != s[j]
  }

  /** The error-collecting loop: every requested name that is not available, once, in the order first requested. */
  function Missing(requested: seq<string>, available: set<string>): (errors: seq<string>)
    ensures forall p :: p in errors <==> p in requested && p !in available
    ensures Distinct(errors)
  {
    if requested == [] then
      []
    else
      var prefix := requested[..|requested| - 1];
      var p := requested[|requested| - 1];
      var errors := Missing(prefix, available);
      assert forall q :: q in requested <==> q in prefix || q == p by {
        assert requested == prefix + [p];
      }
      if p !in available && p !in errors then errors + [p] else errors
  }

  /** Where `x` first occurs in `s`. */
  function FirstIndex(s: seq<string>, x: string): (i: nat)
    requires x in s
    ensures i < |s| && s[i] == x && x !in s[..i]
  {
    var prefix := s[..|s| - 1];
    assert s == prefix + [s[|s| - 1]];
    if x in prefix then
      var i := FirstIndex(prefix, x);
      assert s[..i] == prefix[..i];
      i
    else
      assert s[..|s| - 1] == prefix;
      |s| - 1
  }

  lemma FirstIndexPrefix(s: seq<string>, x: string)
    requires s != [] && x in s[..|s| - 1]
    ensures FirstIndex(s, x) == FirstIndex(s[..|s| - 1], x)
  {
  }

  lemma FirstIndexLast(s: seq<string>)
    requires s != [] && s[|s| - 1] !in s[..|s| - 1]
    ensures FirstIndex(s, s[|s| - 1]) == |s| - 1
  {
  }

  /** Every name of `names` occurs in `s`, and they are listed in the order of their first occurrences there. */
  ghost predicate InFirstOrder(names: seq<string>, s: seq<string>) {
    && (forall k | 0 <= k < |names| :: names[k] in s)
    && forall i, j | 0 <= i < j < |names| :: FirstIndex(s, names[i]) < FirstIndex(s, names[j])
  }

  /** The missing names are listed in the order in which each is first requested. */
  lemma {:induction false} MissingOrder(requested: seq<string>, available: set<string>)
    ensures InFirstOrder(Missing(requested, available), requested)
  {
    if requested != [] {
      var prefix := requested[..|requested| - 1];
      var p := requested[|requested| - 1];
      var before := Missing(prefix, available);
      var errors := Missing(requested, available);
      MissingOrder(prefix, available);
      assert InFirstOrder(before, prefix);
      forall i, j | 0 <= i < j < |errors|
        ensures FirstIndex(requested, errors[i]) < FirstIndex(requested, errors[j])
      {
        assert errors[i] == before[i] && errors[i] in prefix;
        FirstIndexPrefix(requested, errors[i]);
        var a := FirstIndex(prefix, before[i]);
        assert FirstIndex(requested, errors[i]) == a;
        if j < |before| {
          assert errors[j] == before[j] && errors[j] in prefix;
          FirstIndexPrefix(requested, errors[j]);
          assert FirstIndex(requested, errors[j]) == FirstIndex(prefix, before[j]);
          assert a < FirstIndex(prefix, before[j]);
        } else {
          assert errors[j] == p && p !in prefix;
          FirstIndexLast(requested);
          assert FirstIndex(requested, errors[j]) == |prefix|;
          assert a < |prefix|;
        }
      }
    }
  }

  /** The error raised for the missing names: singular for one, otherwise the names sorted. */
  function MissingError(errors: seq<string>): (e: Error)
    requires errors != []
    ensures |errors| == 1 ==> e == PluginMissing(errors[0])
    ensures |errors| > 1 ==> e.PluginsMissing? && Sorted(e.names) && multiset(e.names) == multiset(errors)
  {
    if |errors| == 1 then PluginMissing(errors[0]) else PluginsMissing(Sort(errors))
  }

  /** The names an error reports. */
  function Reported(e: Error): seq<string> {
    match e
    case PluginMissing(name) => [name]
    case PluginsMissing(names) => names
    case _ => []
  }

  /**
    The missing-plugin error names exactly the requested plugins that are
    not available, each once; it is the singular form exactly when one
    distinct name is missing.
   */
  lemma MissingReported(requested: seq<string>, available: set<string>)
    requires Missing(requested, available) != []
    ensures forall p :: p in Reported(MissingError(Missing(requested, available))) <==> p in requested && p !in available
    ensures Distinct(Reported(MissingError(Missing(requested, available))))
    ensures MissingError(Missing(requested, available)).PluginMissing? <==> |(set p | p in requested && p !in available)| == 1
  {
    var errors := Missing(requested, available);
    ReportedNames(errors);
    DistinctCard(errors);
    assert (set p | p in errors) == (set p | p in requested && p !in available);
  }

  /** The error for a list of distinct names reports exactly those names, each once. */
  lemma ReportedNames(errors: seq<string>)
    requires errors != [] && Distinct(errors)
    ensures forall p :: p in Reported(MissingError(errors)) <==> p in errors
    ensures Distinct(Reported(MissingError(errors)))
    ensures MissingError(errors).PluginMissing? <==> |errors| == 1
  {
    if |errors| > 1 {
      var names := Reported(MissingError(errors));
      forall p ensures p in names <==> p in errors {
        assert p in names <==> p in multiset(names);
      }
      DistinctOfPermutation(errors, names);
    }
  }

  lemma {:induction false} DistinctCard(s: seq<string>)
    requires Distinct(s)
    ensures |(set p | p in s)| == |s|
  {
    if s != [] {
      var prefix := s[..|s| - 1];
      DistinctCard(prefix);
      assert s == prefix + [s[|s| - 1]];
      assert s[|s| - 1] !in prefix;
      assert (set p | p in s) == (set p | p in prefix) + {s[|s| - 1]};
    }
  }

  lemma DistinctOfPermutation(a: seq<string>, b: seq<string>)
    requires Distinct(a) && multiset(a) == multiset(b)
    ensures Distinct(b)
  {
    forall i, j | 0 <= i < j < |b|
      ensures b[i] != b[j]
    {
      DistinctCount(a, b[i]);
      CountPair(b, i, j);
    }
  }

  lemma CountPair(b: seq<string>, i: nat, j: nat)
    requires i < j < |b|
    ensures b[i] == b[j] ==> multiset(b)[b[i]] >= 2
  {
    if b[i] == b[j] {
      assert b == b[..j] + b[j..];
      assert b[..j][i] == b[i];
      assert b[j..][0] == b[j];
      assert multiset(b[..j])[b[i]] >= 1;
      assert multiset(b[j..])[b[i]] >= 1;
    }
  }

  lemma {:induction false} DistinctCount(s: seq<string>, x: string)
    requires Distinct(s)
    ensures multiset(s)[x] <= 1
  {
    if s != [] {
      var prefix := s[..|s| - 1];
      DistinctCount(prefix, x);
      assert s == prefix + [s[|s| - 1]];
      assert s[|s| - 1] !in prefix;
      assert s[|s| - 1] !in multiset(prefix);
    }
  }

  /** One `shutil.copy(source, target)`. */
  datatype Copy = Copy(source: string, target: string)

  /** `join(plugins_dir, '%s.hpi' % p)`: where plugin `p` is copied to. */
  function Target(pluginsDir: string, p: string): string {
    PosixPath.Join(pluginsDir, p + ".hpi")
  }

  /**
    For a normal absolute workspace and a plugin name without `/`, the
    copy lands directly in the plugin directory, under the file name that
    names the plugin again.
   */
  lemma TargetInPluginsDir(server: JenkinsTestServer, p: string)
    requires PosixPath.IsNormalAbsolute(server.workspace)
    requires '/' !in p && exists k | 0 <= k < |p| :: p[k] != '.'
    ensures PosixPath.Dirname(Target(PluginsDir(server), p)) == PluginsDir(server)
    ensures PluginName(Target(PluginsDir(server), p)) == p
  {
    PluginsDirOfNormal(server);
    var dir := PluginsDir(server);
    var file := p + ".hpi";
    assert dir[|dir| - 1] == 's';
    NoSlashInFile(p);
    PosixPath.DirnameOfJoinPlain(dir, file);
    PosixPath.BasenameOfJoin(dir, file);
    PluginNameOfHpi(p);
  }

  lemma NoSlashInFile(p: string)
    requires '/' !in p
    ensures '/' !in p + ".hpi"
  {
    var file := p + ".hpi";
    assert forall k | 0 <= k < |file| :: file[k] == if k < |p| then p[k] else ".hpi"[k - |p|];
    forall k | 0 <= k < |p| ensures file[k] != '/' { assert p[k] in p; }
  }

  /** The copies made for the given names, in order. */
  function Copies(pluginsDir: string, available: map<string, string>, names: seq<string>): (r: seq<Copy>)
    requires forall i | 0 <= i < |names| :: names[i] in available
    ensures |r| == |names|
    ensures forall i | 0 <= i < |names| :: r[i] == Copy(available[names[i]], Target(pluginsDir, names[i]))
  {
    if names == [] then []
    else Copies(pluginsDir, available, names[..|names| - 1]) + [Copy(available[names[|names| - 1]], Target(pluginsDir, names[|names| - 1]))]
  }

  /** `order` lists every element of `keys` exactly once. */
  ghost predicate Enumerates(order: seq<string>, keys: set<string>) {
    Distinct(order) && forall p :: p in order <==> p in keys
  }

  /** `available_plugins.keys()`: every key once, in an order the model leaves open. */
  method Keys(available: map<string, string>) returns (order: seq<string>)
    ensures Enumerates(order, available.Keys)
  {
    var remaining := available.Keys;
    order := [];
    while remaining != {}
      invariant remaining <= available.Keys
      invariant Distinct(order)
      invariant forall p :: p in order <==> p in available.Keys && p !in remaining
      decreases |remaining|
    {
      var p :| p in remaining;
      order := order + [p];
      remaining := remaining - {p};
    }
  }

  /**
    `load_plugins(plugins_repo, plugins)`: a repository that is not a
    directory raises. With no names given every available plugin is copied
    once, in the dictionary's order. Otherwise every requested name must
    be available, or nothing is copied and the missing names are reported;
    when all are, each requested name is copied in the order given,
    repeats included.
   */
  method LoadPlugins(server: JenkinsTestServer, pluginsRepo: string, repoIsDir: bool, listing: seq<string>, plugins: PluginsArg)
    returns (r: Result<seq<Copy>, Error>)
    ensures !repoIsDir ==> r == Err(RepositoryMissing(pluginsRepo))
    ensures repoIsDir && plugins.AllPlugins? ==>
      && r.Ok?
      && exists order :: Enumerates(order, Available(pluginsRepo, listing).Keys)
           && r.value == Copies(PluginsDir(server), Available(pluginsRepo, listing), order)
    ensures repoIsDir && !plugins.AllPlugins? ==>
      var available := Available(pluginsRepo, listing);
      var missing := Missing(Requested(plugins), available.Keys);
      (missing != [] ==> r == Err(MissingError(missing)))
      && (missing == [] ==> r == Ok(Copies(PluginsDir(server), available, Requested(plugins))))
  {
    if !repoIsDir {
      return Err(RepositoryMissing(pluginsRepo));
    }
    var available := Available(pluginsRepo, listing);
    if plugins.AllPlugins? {
      ghost var order: seq<string>;
      var copies: seq<Copy>;
      copies, order := CopyAll(PluginsDir(server), available);
      assert Enumerates(order, available.Keys) && copies == Copies(PluginsDir(server), available, order);
      return Ok(copies);
    }
    var names := if plugins.Single? then [plugins.name] else plugins.names;
    var errors := MissingNames(names, available);
    if errors != [] {
      return Err(MissingError(errors));
    }
    assert forall i | 0 <= i < |names| :: names[i] in available by {
      assert forall p :: p in errors <==> p in names && p !in available.Keys;
    }
    var copies := CopyEach(PluginsDir(server), available, names);
    r := Ok(copies);
  }

  /** With no names given: the copy loop over `available_plugins.keys()`. */
  method CopyAll(pluginsDir: string, available: map<string, string>) returns (copies: seq<Copy>, ghost order: seq<string>)
    ensures Enumerates(order, available.Keys) && copies == Copies(pluginsDir, available, order)
  {
    var names := Keys(available);
    copies := CopyEach(pluginsDir, available, names);
    order := names;
  }

  /** The copy loop: `shutil.copy(available_plugins[p], join(plugins_dir, '%s.hpi' % p))` for each name in turn. */
  method CopyEach(pluginsDir: string, available: map<string, string>, names: seq<string>) returns (copies: seq<Copy>)
    requires forall i | 0 <= i < |names| :: names[i] in available
    ensures copies == Copies(pluginsDir, available, names)
  {
    copies := [];
    var i := 0;
    while i < |names|
      invariant 0 <= i <= |names|
      invariant copies == Copies(pluginsDir, available, names[..i])
    {
      var p := names[i];
      CopiesPrefix(pluginsDir, available, names, i);
      copies := copies + [Copy(available[p], Target(pluginsDir, p))];
      i := i + 1;
    }
    assert names[..i] == names;
  }

  lemma CopiesPrefix(pluginsDir: string, available: map<string, string>, names: seq<string>, i: nat)
    requires i < |names| && forall k | 0 <= k < |names| :: names[k] in available
    ensures Copies(pluginsDir, available, names[..i + 1])
      == Copies(pluginsDir, available, names[..i]) + [Copy(available[names[i]], Target(pluginsDir, names[i]))]
  {
    assert names[..i + 1][..i] == names[..i];
  }

  /** The loop collecting `errors`. */
  method MissingNames(names: seq<string>, available: map<string, string>) returns (errors: seq<string>)
    ensures errors == Missing(names, available.Keys)
  {
    errors := [];
    var i := 0;
    while i < |names|
      invariant 0 <= i <= |names|
      invariant errors == Missing(names[..i], available.Keys)
    {
      var p := names[i];
      assert names[..i + 1][..i] == names[..i];
      if p !in available {
        if p !in errors {
          errors := errors + [p];
        }
      }
      i := i + 1;
    }
    assert names[..i] == names;
  }
}
