/**
 * The build examples' tasks as objects with state: Gradle's `Exec` task
 * (an executable and a growing argument list), the `JavaCompile` and
 * `JavaRun` task classes built on it, the configurations that collect the
 * classpath, and the four build scripts, each run as `gradle runJava` (or
 * `gradle compileJava` where there is no run task). Starting a process is
 * recorded in a `Launcher` log; nothing is executed.
 */
module JvmTasks {
  import opened Wrappers
  import opened Seqs
  import opened FileTree
  import opened JvmArgs

  /** The executable an `Exec` task starts: `Jvm.javacExecutable` or `Jvm.javaExecutable`. */
  datatype Tool = Javac | Java

  /** One process start: the executable and the whole argument list. */
  datatype Invocation = Invocation(tool: Tool, args: seq<string>)

  /** The processes started so far, in the order they were started. */
  class Launcher {
    var log: seq<Invocation>

    constructor ()
      ensures log == []
    {
      log := [];
    }

    method Launch(tool: Tool, args: seq<string>)
      modifies this
      ensures log == old(log) + [Invocation(tool, args)]
    {
      log := log + [Invocation(tool, args)];
    }
  }

  /** Gradle's `Exec` task: a fixed executable and an argument list that only grows. */
  class ExecTask {
    const executable: Tool
    const launcher: Launcher
    var args: seq<string>

    constructor (executable: Tool, launcher: Launcher)
      ensures this.executable == executable && this.launcher == launcher && args == []
    {
      this.executable := executable;
      this.launcher := launcher;
      args := [];
    }

    /** `args(...)`: appends to the arguments gathered so far. */
    method Args(more: seq<string>)
      modifies this
      ensures args == old(args) + more
    {
      args := args + more;
    }

    /** `exec()`: starts the executable once, with every argument gathered so far. */
    method Exec()
      modifies launcher
      ensures launcher.log == old(launcher.log) + [Invocation(executable, args)]
    {
      launcher.Launch(executable, args);
    }
  }

  /** A Gradle configuration, filled by invoking it on files (`compileClasspath(files(it))`). */
  class Configuration {
    var files: seq<Path>

    constructor ()
      ensures files == []
    {
      files := [];
    }

    method Add(p: Path)
      modifies this
      ensures files == old(files) + [p]
    {
      files := files + [p];
    }

    /** `forEach { configuration(files(it)) }`: the entries added one by one, in order. */
    method AddEach(ps: seq<Path>)
      modifies this
      ensures files == old(files) + ps
    {
      var i := 0;
      while i < |ps|
        invariant 0 <= i <= |ps|
        invariant files == old(files) + ps[..i]
      {
        Add(ps[i]);
        assert ps[..i + 1] == ps[..i] + [ps[i]];
        i := i + 1;
      }
      assert ps[..i] == ps;
    }
  }

  /** The sources of a compilation as `FileCollection.files` gives them: a set, in first-seen order. */
  function SourceFiles(sources: seq<Path>): seq<Path> {
    Dedup(sources)
  }

  /** `JavaCompile`: compiles `sources` into `destinationDir` against `classpath`. */
  class JavaCompile {
    var sources: seq<Path>
    var destinationDir: Path
    var classpath: seq<Path>
    const pathSeparator: char
    const task: ExecTask

    /** `jvmExecutableForTask` selects the compiler. */
    predicate Valid() {
      task.executable == Javac
    }

    constructor (launcher: Launcher, pathSeparator: char)
      ensures Valid() && fresh(task) && task.launcher == launcher && task.args == []
      ensures this.pathSeparator == pathSeparator
      ensures sources == [] && destinationDir == [] && classpath == []
    {
      task := new ExecTask(Javac, launcher);
      this.pathSeparator := pathSeparator;
      sources, destinationDir, classpath := [], [], [];
    }

    /** `exec()`: appends the compiler arguments, then starts the compiler, also when there is nothing to compile. */
    method Exec()
      requires Valid()
      modifies task, task.launcher
      ensures task.args == old(task.args) + CompileInvocation(destinationDir, classpath, pathSeparator, sources).args
      ensures task.launcher.log == old(task.launcher.log) + [Invocation(Javac, task.args)]
    {
      task.Args(CompileInvocation(destinationDir, classpath, pathSeparator, sources).args);
      task.Exec();
    }
  }

  /** `JavaRun`: runs `mainClass` on `classpath`. */
  class JavaRun {
    var classpath: seq<Path>
    var mainClass: string
    const pathSeparator: char
    const task: ExecTask

    /** `jvmExecutableForTask` selects the runtime. */
    predicate Valid() {
      task.executable == Java
    }

    constructor (launcher: Launcher, pathSeparator: char)
      ensures Valid() && fresh(task) && task.launcher == launcher && task.args == []
      ensures this.pathSeparator == pathSeparator
      ensures classpath == [] && mainClass == ""
    {
      task := new ExecTask(Java, launcher);
      this.pathSeparator := pathSeparator;
      classpath, mainClass := [], "";
    }

    /** `exec()`: appends `-cp`, the classpath and the main class, then starts the runtime. */
    method Exec()
      requires Valid()
      modifies task, task.launcher
      ensures task.args == old(task.args) + RunInvocation(classpath, pathSeparator, mainClass).args
      ensures task.launcher.log == old(task.launcher.log) + [Invocation(Java, task.args)]
    {
      task.Args(RunInvocation(classpath, pathSeparator, mainClass).args);
      task.Exec();
    }
  }

  /** The compiler start `JavaCompile.exec` makes for the task's configuration. */
  function CompileInvocation(destinationDir: Path, classpath: seq<Path>, sep: char, sources: seq<Path>): Invocation {
    Invocation(Javac, CompileArgs(AbsolutePath(destinationDir), AsPath(classpath, sep), sep, AbsolutePaths(SourceFiles(sources))))
  }

  /** The runtime start `JavaRun.exec` makes for the task's configuration. */
  function RunInvocation(classpath: seq<Path>, sep: char, mainClass: string): Invocation {
    Invocation(Java, RunArgs(AsPath(classpath, sep), mainClass))
  }

  /** `layout.buildDirectory.dir("bin")`. */
  function CompilationDestination(buildDir: Path): Path {
    buildDir + ["bin"]
  }

  /** The jars under `libs`. */
  function LibraryJars(fs: Node, projectDir: Path): seq<Path> {
    WithExtension(AllFilesIn(projectDir, ["libs"]), fs, "jar")
  }

  /** The Java sources under `src`. */
  function JavaSources(fs: Node, projectDir: Path): seq<Path> {
    WithExtension(AllFilesIn(projectDir, ["src"]), fs, "java")
  }

  /**
   * The `dependencies` block: every jar found under `libs` is added to the
   * configuration, once, in the order it was found.
   */
  method AddLibraryJars(config: Configuration, fs: Node, projectDir: Path)
    modifies config
    ensures config.files == old(config.files) + LibraryJars(fs, projectDir)
  {
    config.AddEach(LibraryJars(fs, projectDir));
  }

  /** The compile classpath holds exactly the jars below `libs`, each once. */
  lemma LibraryJarsExact(fs: Node, projectDir: Path, p: Path)
    requires WellFormed(fs)
    ensures p in LibraryJars(fs, projectDir)
        <==> StartsWith(p, projectDir + ["libs"]) && FileAt(fs, p) && Extension(Name(p)) == "jar"
    ensures Distinct(LibraryJars(fs, projectDir))
  {
    AllFilesInExact(fs, projectDir, ["libs"], "jar", p);
    var root := projectDir + ["libs"];
    if Lookup(fs, root).Some? {
      WithExtensionOrdered(fs, root, "jar");
    }
  }

  /** Sources found by a walk of a well-formed tree are already a set, so the compiler gets one argument per file. */
  lemma SourceFilesOfWalk(fs: Node, projectDir: Path)
    requires WellFormed(fs)
    ensures SourceFiles(JavaSources(fs, projectDir)) == JavaSources(fs, projectDir)
  {
    var root := projectDir + ["src"];
    if Lookup(fs, root).Some? {
      WithExtensionOrdered(fs, root, "java");
      DedupOfDistinct(JavaSources(fs, projectDir));
    }
  }

  /** An absolute path is never mistaken for a compiler option. */
  lemma AbsolutePathsAreNotOptions(ps: seq<Path>)
    ensures forall k :: 0 <= k < |ps| ==> !IsJavacOption(AbsolutePaths(ps)[k])
  {
    forall k | 0 <= k < |ps| ensures !IsJavacOption(AbsolutePaths(ps)[k]) {
      assert AbsolutePaths(ps)[k][0] == '/';
    }
  }

  /**
   * `custom-tasks` (and the `buildSrc` convention plugin), run as
   * `gradle runJava`: the configurations are filled, the two tasks are
   * configured, and because `runJava` depends on `compileJava` the compiler is
   * started before the runtime, each exactly once. `resolved` is Gradle's
   * resolution of the runtime configuration, in whatever order Gradle lists it.
   */
  method CustomTasksBuild(fs: Node, projectDir: Path, buildDir: Path, sep: char, launcher: Launcher, resolved: seq<Path>)
    requires ResolvesRuntime(resolved, LibraryJars(fs, projectDir), [CompilationDestination(buildDir)])
    modifies launcher
    ensures launcher.log == old(launcher.log) + [
      CompileInvocation(CompilationDestination(buildDir), LibraryJars(fs, projectDir), sep, JavaSources(fs, projectDir)),
      RunInvocation(resolved, sep, "HelloMath")]
  {
    var compilationDestination := CompilationDestination(buildDir);
    var jars := LibraryJars(fs, projectDir);
    var compileClasspath := new Configuration();
    var runtimeClasspath := new Configuration();
    AddLibraryJars(compileClasspath, fs, projectDir);
    assert compileClasspath.files == jars;
    runtimeClasspath.Add(compilationDestination);
    assert runtimeClasspath.files == [compilationDestination];

    var sources := JavaSources(fs, projectDir);
    var compileJava := ConfiguredCompile(launcher, sep, jars, compilationDestination, sources);
    var runJava := ConfiguredRun(launcher, sep, resolved, "HelloMath");
    assert compileJava.task != runJava.task;
    CompileThenRun(compileJava, runJava);
  }

  /** `register<JavaCompile>` with its configuration block. */
  method ConfiguredCompile(launcher: Launcher, sep: char, classpath: seq<Path>, destinationDir: Path, sources: seq<Path>)
    returns (c: JavaCompile)
    ensures fresh(c) && fresh(c.task) && c.Valid() && c.task.launcher == launcher && c.task.args == []
    ensures c.pathSeparator == sep && c.classpath == classpath && c.destinationDir == destinationDir && c.sources == sources
  {
    c := new JavaCompile(launcher, sep);
    c.classpath := classpath;
    c.destinationDir := destinationDir;
    c.sources := sources;
  }

  /** `register<JavaRun>` with its configuration block. */
  method ConfiguredRun(launcher: Launcher, sep: char, classpath: seq<Path>, mainClass: string) returns (r: JavaRun)
    ensures fresh(r) && fresh(r.task) && r.Valid() && r.task.launcher == launcher && r.task.args == []
    ensures r.pathSeparator == sep && r.classpath == classpath && r.mainClass == mainClass
  {
    r := new JavaRun(launcher, sep);
    r.classpath := classpath;
    r.mainClass := mainClass;
  }

  /** `runJava` depends on `compileJava`: the compiler's process is started first, then the runtime's. */
  method CompileThenRun(compileJava: JavaCompile, runJava: JavaRun)
    requires compileJava.Valid() && runJava.Valid()
    requires compileJava.task.args == [] && runJava.task.args == []
    requires compileJava.task != runJava.task && compileJava.task.launcher == runJava.task.launcher
    modifies compileJava.task, runJava.task, compileJava.task.launcher
    ensures compileJava.task.launcher.log == old(compileJava.task.launcher.log) + [
      CompileInvocation(compileJava.destinationDir, compileJava.classpath, compileJava.pathSeparator, compileJava.sources),
      RunInvocation(runJava.classpath, runJava.pathSeparator, runJava.mainClass)]
  {
    compileJava.Exec();
    assert compileJava.task.args == CompileInvocation(compileJava.destinationDir, compileJava.classpath, compileJava.pathSeparator, compileJava.sources).args;
    runJava.Exec();
    assert runJava.task.args == RunInvocation(runJava.classpath, runJava.pathSeparator, runJava.mainClass).args;
  }

  /** The `compileJava` action of `compile-java-deps` and `run-java-deps`, sources found when it runs. */
  method CompileWithClasspath(task: ExecTask, fs: Node, projectDir: Path, outputDir: string, classpath: seq<Path>, sep: char)
    modifies task, task.launcher
    ensures task.args == old(task.args) + CompileArgs(outputDir, AsPath(classpath, sep), sep, AbsolutePaths(JavaSources(fs, projectDir)))
    ensures task.launcher.log == old(task.launcher.log) + [Invocation(task.executable, task.args)]
  {
    var sources := JavaSources(fs, projectDir);
    task.Args(CompileArgs(outputDir, AsPath(classpath, sep), sep, AbsolutePaths(sources)));
    task.Exec();
  }

  /**
   * `run-java-deps`, run as `gradle runJava`: compile first (the task
   * dependency), then run `HelloMath` with the destination ahead of the jars.
   */
  method RunJavaDepsBuild(fs: Node, projectDir: Path, buildDir: Path, sep: char, launcher: Launcher)
    modifies launcher
    ensures launcher.log == old(launcher.log) + [
      Invocation(Javac, CompileArgs(AbsolutePath(CompilationDestination(buildDir)),
                                    AsPath(LibraryJars(fs, projectDir), sep), sep,
                                    AbsolutePaths(JavaSources(fs, projectDir)))),
      Invocation(Java, RunArgs(DestinationFirstClasspath(AbsolutePath(CompilationDestination(buildDir)),
                                                         LibraryJars(fs, projectDir), sep),
                               "HelloMath"))]
  {
    var compileClasspath := new Configuration();
    AddLibraryJars(compileClasspath, fs, projectDir);
    assert compileClasspath.files == LibraryJars(fs, projectDir);
    var runtimeClasspath := compileClasspath.files;
    var compilationDestination := AbsolutePath(CompilationDestination(buildDir));

    var compileJava := new ExecTask(Javac, launcher);
    var runJava := new ExecTask(Java, launcher);

    CompileWithClasspath(compileJava, fs, projectDir, compilationDestination, compileClasspath.files, sep);
    assert compileJava.args == CompileArgs(compilationDestination, AsPath(LibraryJars(fs, projectDir), sep), sep, AbsolutePaths(JavaSources(fs, projectDir)));

    runJava.Args(RunArgs(DestinationFirstClasspath(compilationDestination, runtimeClasspath, sep), "HelloMath"));
    assert runJava.args == RunArgs(DestinationFirstClasspath(compilationDestination, LibraryJars(fs, projectDir), sep), "HelloMath");
    runJava.Exec();
  }

  /** `compile-java-deps`, run as `gradle compileJava`: one compiler start against the jars under `libs`. */
  method CompileJavaDepsBuild(fs: Node, projectDir: Path, buildDir: Path, sep: char, launcher: Launcher)
    modifies launcher
    ensures launcher.log == old(launcher.log) + [
      Invocation(Javac, CompileArgs(AbsolutePath(CompilationDestination(buildDir)),
                                    AsPath(LibraryJars(fs, projectDir), sep), sep,
                                    AbsolutePaths(JavaSources(fs, projectDir))))]
  {
    var compileClasspath := new Configuration();
    AddLibraryJars(compileClasspath, fs, projectDir);
    assert compileClasspath.files == LibraryJars(fs, projectDir);
    var outputDir := AbsolutePath(CompilationDestination(buildDir));
    var compileJava := new ExecTask(Javac, launcher);
    CompileWithClasspath(compileJava, fs, projectDir, outputDir, compileClasspath.files, sep);
    assert compileJava.args == CompileArgs(outputDir, AsPath(LibraryJars(fs, projectDir), sep), sep, AbsolutePaths(JavaSources(fs, projectDir)));
  }

  /**
   * `compile-java`, run as `gradle compileJava`: the sources are the `.java`
   * files of the walk from `src`, and there is no classpath argument.
   */
  method CompileJavaBuild(fs: Node, projectDir: Path, buildDir: Path, launcher: Launcher)
    modifies launcher
    ensures launcher.log == old(launcher.log) + [
      Invocation(Javac, CompileArgsWithoutClasspath(AbsolutePath(CompilationDestination(buildDir)),
                                                    AbsolutePaths(JavaSources(fs, projectDir))))]
  {
    var sourceDir := Resolve(projectDir, ["src"]);
    var outputDir := AbsolutePath(CompilationDestination(buildDir));
    var compileJava := new ExecTask(Javac, launcher);
    var sources := WithExtension(Finder(sourceDir), fs, "java");
    compileJava.Args(CompileArgsWithoutClasspath(outputDir, AbsolutePaths(sources)));
    assert sources == JavaSources(fs, projectDir);
    assert compileJava.args == CompileArgsWithoutClasspath(outputDir, AbsolutePaths(sources));
    compileJava.Exec();
  }

  /**
   * What the compiler of `custom-tasks` is asked to do: check its version when
   * `src` holds no Java file, otherwise compile every `.java` file below `src`,
   * once each, into the destination, with the separator-led jar classpath.
   */
  lemma CustomTasksCompileRequest(fs: Node, projectDir: Path, buildDir: Path, sep: char)
    requires WellFormed(fs)
    ensures
      var sources := JavaSources(fs, projectDir);
      var args := CompileArgs(AbsolutePath(CompilationDestination(buildDir)),
                              AsPath(LibraryJars(fs, projectDir), sep), sep,
                              AbsolutePaths(SourceFiles(sources)));
      ReadJavac(args) ==
        if sources == [] then Some(JavacRequest(true, None, None, []))
        else Some(JavacRequest(false, Some(AbsolutePath(CompilationDestination(buildDir))),
                               Some([sep] + AsPath(LibraryJars(fs, projectDir), sep)),
                               AbsolutePaths(sources)))
  {
    var sources := JavaSources(fs, projectDir);
    SourceFilesOfWalk(fs, projectDir);
    AbsolutePathsAreNotOptions(sources);
    CompileArgsRead(AbsolutePath(CompilationDestination(buildDir)), AsPath(LibraryJars(fs, projectDir), sep), sep, AbsolutePaths(sources));
  }
}
