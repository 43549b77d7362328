/**
 * The deploy goal (org.wildfly.plugins.DeployExtensionMojo): which module zip
 * it installs (an artifact coordinate overrides the configured zip), where the
 * configured paths point (as given when absolute, under jbossHome otherwise),
 * and the RegisterOptions it assembles for the registration of the module.
 */
module WildflyDeployMojo {
  import opened JavaLang
  import opened WildflyInsert
  import opened WildflyRegisterOptions
  import opened WildflyRegisterExtension

  // ---------------------------------------------------------------- artifact coordinates

  /** Where the dependency plugin copies the artifact, before Maven evaluates the expression. */
  const TmpOutputDir: string := "${project.build.directory}/tmp/wildfly-extension-plugin"
  const DefaultPackaging: string := ":zip:module"

  /**
   * The coordinate handed to the dependency plugin and the name of the file it
   * writes, for groupId:artifactId:version[:packaging[:classifier]]: the
   * artifactId, with the packaging as extension when one is given; otherwise
   * ".zip", and the coordinate completed with zip packaging and the module
   * classifier. None when the coordinate has no second field (the array index
   * error of the source).
   */
  function ArtifactRequest(gav: string): (r: Option<(string, string)>)
    ensures r.None? <==> |JavaSplit(gav, ':')| < 2
  {
    var pieces := JavaSplit(gav, ':');
    if |pieces| < 2 then None
    else if |pieces| > 3 then Some((gav, pieces[1] + "." + pieces[3]))
    else Some((gav + DefaultPackaging, pieces[1] + ".zip"))
  }

  /** What resolveArtifactModuleZip gives: nothing without an artifact, an index error, or the coordinate and the file. */
  datatype ZipResolution = NoArtifact | BadArtifact | Resolved(gav: string, file: File)

  /**
   * resolveArtifactModuleZip; evaluate stands for Maven's expression evaluator,
   * whose null result becomes the path "null".
   */
  function ResolveArtifactModuleZip(artifact: JString, evaluate: string -> JString): (r: ZipResolution)
    ensures artifact.None? <==> r == NoArtifact
    ensures artifact.Some? ==> (r == BadArtifact <==> ArtifactRequest(artifact.value).None?)
    ensures r.Resolved? ==>
      var q := ArtifactRequest(artifact.value).value;
      r.gav == q.0 && r.file == File(Text(evaluate(TmpOutputDir + "/" + q.1)))
  {
    if artifact.None? then NoArtifact
    else match ArtifactRequest(artifact.value)
      case None => BadArtifact
      case Some((gav, name)) => Resolved(gav, File(Text(evaluate(TmpOutputDir + "/" + name))))
  }

  /** A full coordinate is passed on as it is; the file is named after the artifactId and the packaging. */
  lemma ArtifactWithPackaging(gav: string)
    requires |JavaSplit(gav, ':')| > 3
    ensures var pieces := JavaSplit(gav, ':');
      ArtifactRequest(gav) == Some((gav, pieces[1] + "." + pieces[3]))
  {
  }

  /** Colon-free fields with a non-empty last one: String.split gives them back. */
  lemma SplitFields(xs: seq<string>)
    requires |xs| >= 2 && xs[|xs| - 1] != ""
    requires forall k :: 0 <= k < |xs| ==> ':' !in xs[k]
    ensures JavaSplit(Join(":", xs), ':') == xs
  {
    var s := Join(":", xs);
    SplitJoin(':', xs);
    assert ":" == [':'];
    assert s == xs[0] + ":" + Join(":", xs[1..]);
    assert s[|xs[0]|] == ':';
  }

  /**
   * groupId:artifactId:version is completed with zip packaging and the module
   * classifier and names artifactId.zip; the completed coordinate is then a
   * full one that names the same file.
   */
  lemma DefaultPackagingCompletes(g: string, a: string, v: string)
    requires ':' !in g && ':' !in a && ':' !in v && v != ""
    ensures var gav := g + ":" + a + ":" + v;
      && ArtifactRequest(gav) == Some((gav + DefaultPackaging, a + ".zip"))
      && ArtifactRequest(gav + DefaultPackaging) == Some((gav + DefaultPackaging, a + ".zip"))
  {
    var gav := g + ":" + a + ":" + v;
    var fields := [g, a, v];
    var full := fields + ["zip", "module"];
    JoinThree(":", g, a, v);
    SplitFields(fields);
    assert ArtifactRequest(gav) == Some((gav + DefaultPackaging, a + ".zip"));
    JoinSnoc(":", fields, "zip");
    assert full == (fields + ["zip"]) + ["module"];
    JoinSnoc(":", fields + ["zip"], "module");
    CompletedText(gav);
    assert Join(":", full) == gav + DefaultPackaging;
    assert ':' !in "zip" && ':' !in "module";
    assert full[|full| - 1] == "module";
    SplitFields(full);
    assert full[1] == a && full[3] == "zip";
    assert a + "." + "zip" == a + ".zip";
  }

  lemma CompletedText(gav: string)
    ensures gav + ":" + "zip" + ":" + "module" == gav + DefaultPackaging
  {
    assert ":" + "zip" + ":" + "module" == DefaultPackaging;
  }

  // ---------------------------------------------------------------- paths

  /** java.io.File.isAbsolute on a Unix file system. */
  predicate IsAbsolute(path: string)
  {
    |path| > 0 && path[0] == '/'
  }

  /** The Unix file system's resolution of a child path against a parent path. */
  function Resolve(parent: string, child: string): string
  {
    if child == "" then parent
    else if child[0] == '/' then (if parent == "/" then child else parent + child)
    else if parent == "/" then parent + child
    else parent + "/" + child
  }

  /** new File(parent, child); a parent with the empty path stands for the root. */
  function ChildFile(parent: File, child: string): File
  {
    File(Resolve(if parent.path == "" then "/" else parent.path, child))
  }

  /** A configured path: used as given when absolute, taken under jbossHome otherwise. */
  function ResolvePath(jbossHome: File, path: string): (r: File)
    ensures IsAbsolute(path) ==> r == File(path)
  {
    if IsAbsolute(path) then File(path) else ChildFile(jbossHome, path)
  }

  /** A relative path lands under jbossHome (a directory other than the root), separated by one slash. */
  lemma RelativeUnderHome(jbossHome: File, path: string)
    requires !IsAbsolute(path) && path != ""
    requires jbossHome.path != "" && jbossHome.path != "/"
    ensures ResolvePath(jbossHome, path).path == jbossHome.path + "/" + path
    ensures StartsWith(ResolvePath(jbossHome, path).path, jbossHome.path + "/")
  {
    var r := jbossHome.path + "/" + path;
    assert r[..|jbossHome.path + "/"|] == jbossHome.path + "/";
  }

  /** The empty path, which a null modulesHome becomes, is jbossHome itself. */
  lemma EmptyIsHome(jbossHome: File)
    requires jbossHome.path != ""
    ensures ResolvePath(jbossHome, "") == jbossHome
  {
  }

  /** modulesHome as validConfiguration leaves it: null becomes the empty path. */
  function ModulesHomeOrEmpty(modulesHome: JString): (r: string)
    ensures modulesHome.Some? ==> r == modulesHome.value
    ensures modulesHome.None? ==> r == ""
  {
    if modulesHome.None? then "" else modulesHome.value
  }

  // ---------------------------------------------------------------- the goal

  /** How execute ended: skipped, stopped by a coordinate without artifactId, or with the registration handed to the patch engine. */
  datatype Outcome = Skipped | ArtifactIndexError | Registered(call: BuilderCall)

  /** The options execute assembles: the resolved paths, the configured content, and the module id when a module was read. */
  function ExpectedOptions(serverConfigAbsolute: File, serverConfigBackupAbsolute: File, subsystem: Option<File>,
                           socketBinding: Option<File>, socketBindingGroups: JStringArray, edit: Option<seq<Insert>>,
                           moduleId: JString, failNoMatch: bool): Fields
  {
    Fields(Some(serverConfigAbsolute), Some(serverConfigBackupAbsolute), subsystem, socketBinding,
           socketBindingGroups, edit, None, moduleId, failNoMatch)
  }

  class DeployExtensionMojo {
    var moduleZip: Option<File>
    var artifact: JString
    var jbossHome: File
    var modulesHome: JString
    var serverConfig: string
    var serverConfigBackup: string
    var subsystem: Option<File>
    var socketBinding: Option<File>
    var socketBindingGroups: JStringArray
    var edit: Option<seq<Insert>>
    var failNoMatch: bool
    var skipDeploy: bool
    var serverConfigAbsolute: Option<File>
    var serverConfigBackupAbsolute: Option<File>
    var modulesHomeAbsolute: Option<File>

    /** The goal with its parameter defaults and the required jbossHome. */
    constructor (jbossHome: File)
      ensures this.jbossHome == jbossHome && moduleZip == None && artifact == None
      ensures modulesHome == Some("modules/system/layers/base")
      ensures serverConfig == "standalone/configuration/standalone.xml"
      ensures serverConfigBackup == "standalone/configuration/standalone.xml.old"
      ensures subsystem == None && socketBinding == None && socketBindingGroups == Some([Some("standard-sockets")])
      ensures edit == None && !failNoMatch && !skipDeploy
      ensures serverConfigAbsolute == None && serverConfigBackupAbsolute == None && modulesHomeAbsolute == None
    {
      this.jbossHome := jbossHome;
      moduleZip, artifact := None, None;
      modulesHome := Some("modules/system/layers/base");
      serverConfig := "standalone/configuration/standalone.xml";
      serverConfigBackup := "standalone/configuration/standalone.xml.old";
      subsystem, socketBinding := None, None;
      socketBindingGroups := Some([Some("standard-sockets")]);
      edit := None;
      failNoMatch, skipDeploy := false, false;
      serverConfigAbsolute, serverConfigBackupAbsolute, modulesHomeAbsolute := None, None, None;
    }

    /**
     * The path choices of validConfiguration: each of serverConfig,
     * serverConfigBackup and modulesHome (null made empty) is resolved against
     * jbossHome unless absolute.
     */
    method ValidConfiguration()
      modifies this
      ensures serverConfigAbsolute == Some(ResolvePath(jbossHome, serverConfig))
      ensures serverConfigBackupAbsolute == Some(ResolvePath(jbossHome, serverConfigBackup))
      ensures modulesHome == Some(ModulesHomeOrEmpty(old(modulesHome)))
      ensures modulesHomeAbsolute == Some(ResolvePath(jbossHome, ModulesHomeOrEmpty(old(modulesHome))))
      ensures moduleZip == old(moduleZip) && artifact == old(artifact) && jbossHome == old(jbossHome)
      ensures serverConfig == old(serverConfig) && serverConfigBackup == old(serverConfigBackup)
      ensures subsystem == old(subsystem) && socketBinding == old(socketBinding)
      ensures socketBindingGroups == old(socketBindingGroups) && edit == old(edit)
      ensures failNoMatch == old(failNoMatch) && skipDeploy == old(skipDeploy)
    {
      if IsAbsolute(serverConfig) {
        serverConfigAbsolute := Some(File(serverConfig));
      } else {
        serverConfigAbsolute := Some(ChildFile(jbossHome, serverConfig));
      }
      if IsAbsolute(serverConfigBackup) {
        serverConfigBackupAbsolute := Some(File(serverConfigBackup));
      } else {
        serverConfigBackupAbsolute := Some(ChildFile(jbossHome, serverConfigBackup));
      }
      if modulesHome == None {
        modulesHome := Some("");
      }
      if IsAbsolute(modulesHome.value) {
        modulesHomeAbsolute := Some(File(modulesHome.value));
      } else {
        modulesHomeAbsolute := Some(ChildFile(jbossHome, modulesHome.value));
      }
    }

    /** The fluent chain of execute: the extension only when a module was read, then every option in turn. */
    method AssembleOptions(withModule: bool, moduleId: JString) returns (options: RegisterOptions)
      requires serverConfigAbsolute.Some? && serverConfigBackupAbsolute.Some?
      ensures fresh(options)
      ensures options.State() == ExpectedOptions(serverConfigAbsolute.value, serverConfigBackupAbsolute.value, subsystem,
        socketBinding, socketBindingGroups, edit, if withModule then moduleId else None, failNoMatch)
    {
      options := new RegisterOptions();
      if withModule {
        options := options.WithExtension(moduleId);
      }
      options := options.ServerConfig(serverConfigAbsolute);
      options := options.ServerConfigBackup(serverConfigBackupAbsolute);
      options := options.Subsystem(subsystem);
      options := options.SocketBinding(socketBinding);
      options := options.SocketBindingGroups(socketBindingGroups);
      options := options.Inserts(edit);
      options := options.FailNoMatch(failNoMatch);
    }

    /**
     * execute: nothing at all when skipDeploy is set; otherwise the paths are
     * resolved, an artifact replaces the configured zip, and the options are
     * assembled and registered. readModuleId stands for reading the module
     * descriptor out of the zip.
     */
    method Execute(readModuleId: File -> JString, evaluate: string -> JString) returns (outcome: Outcome)
      modifies this
      ensures old(skipDeploy) ==> outcome == Skipped && unchanged(this)
      ensures !old(skipDeploy) ==>
        && jbossHome == old(jbossHome) && artifact == old(artifact)
        && serverConfig == old(serverConfig) && serverConfigBackup == old(serverConfigBackup)
        && subsystem == old(subsystem) && socketBinding == old(socketBinding)
        && socketBindingGroups == old(socketBindingGroups) && edit == old(edit)
        && failNoMatch == old(failNoMatch) && skipDeploy == old(skipDeploy)
        && modulesHome == Some(ModulesHomeOrEmpty(old(modulesHome)))
      ensures !old(skipDeploy) && outcome == ArtifactIndexError ==> moduleZip == old(moduleZip)
      ensures !old(skipDeploy) ==>
        && serverConfigAbsolute == Some(ResolvePath(jbossHome, serverConfig))
        && serverConfigBackupAbsolute == Some(ResolvePath(jbossHome, serverConfigBackup))
        && modulesHomeAbsolute == Some(ResolvePath(jbossHome, ModulesHomeOrEmpty(old(modulesHome))))
      ensures !old(skipDeploy) ==>
        (outcome == ArtifactIndexError <==> ResolveArtifactModuleZip(old(artifact), evaluate) == BadArtifact)
      ensures !old(skipDeploy) && outcome != ArtifactIndexError ==>
        && moduleZip == (if old(artifact).None? then old(moduleZip) else Some(ResolveArtifactModuleZip(old(artifact), evaluate).file))
        && outcome.Registered?
        && outcome.call.target == serverConfigAbsolute
        && outcome.call.source == serverConfigBackupAbsolute
        && outcome.call.failNoMatch == failNoMatch
        && var raw := if edit.Some? then edit.value else [];
           var moduleId := if moduleZip.Some? then readModuleId(moduleZip.value) else None;
           && NewEdits(outcome.call.inserts, |raw|, GeneratedEdits(ExpectedOptions(
                serverConfigAbsolute.value, serverConfigBackupAbsolute.value, subsystem, socketBinding,
                socketBindingGroups, edit, moduleId, failNoMatch)))
           && outcome.call.inserts[..|raw|] == raw
    {
      if skipDeploy {
        return Skipped;
      }
      ValidConfiguration();
      if artifact != None {
        var zip := ResolveArtifactModuleZip(artifact, evaluate);
        if zip == BadArtifact {
          return ArtifactIndexError;
        }
        moduleZip := Some(zip.file);
      }
      var moduleId: JString := None;
      if moduleZip != None {
        moduleId := readModuleId(moduleZip.value);
      }
      var options := AssembleOptions(moduleZip != None, moduleId);
      var call := Register(options);
      outcome := Registered(call);
    }
  }
}
