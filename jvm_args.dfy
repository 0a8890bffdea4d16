/**
 * The argument vectors the build examples hand to the Java compiler and to
 * the Java runtime, and the classpath strings inside them. Each builder is
 * paired with a reader that takes an argument vector apart the way the tool
 * receiving it does, and the lemmas show that the reader recovers exactly
 * what the builder was given.
 */
module JvmArgs {
  import opened Wrappers
  import opened Seqs
  import opened FileTree

  /** The absolute path of every entry, in order. */
  function AbsolutePaths(ps: seq<Path>): (r: seq<string>)
    ensures |r| == |ps|
    ensures forall i :: 0 <= i < |ps| ==> r[i] == AbsolutePath(ps[i])
  {
    seq(|ps|, i requires 0 <= i < |ps| => AbsolutePath(ps[i]))
  }

  /** Gradle's `FileCollection.asPath`: the entries' absolute paths joined with the path separator. */
  function AsPath(entries: seq<Path>, sep: char): string {
    Join(AbsolutePaths(entries), sep)
  }

  /**
   * The compiler's arguments (the `when` of `JavaCompile.exec` and of the
   * scripts' `compileJava` blocks): `-version` alone when there is nothing to
   * compile, otherwise the destination, the classpath behind a leading path
   * separator, and every source.
   */
  function CompileArgs(destination: string, classpath: string, sep: char, sources: seq<string>): (args: seq<string>)
    ensures sources == [] <==> args == ["-version"]
    ensures sources != [] ==>
      && |args| == 4 + |sources|
      && args[0] == "-d" && args[1] == destination
      && args[2] == "-cp" && StartsWith(args[3], [sep]) && args[3][1..] == classpath
      && args[4..] == sources
  {
    if |sources| == 0 then ["-version"]
    else ["-d", destination, "-cp", [sep] + classpath] + sources
  }

  /** The compiler's arguments when no classpath is configured (`compile-java`): no `-cp` at all. */
  function CompileArgsWithoutClasspath(destination: string, sources: seq<string>): (args: seq<string>)
    ensures sources == [] <==> args == ["-version"]
    ensures sources != [] ==>
      && |args| == 2 + |sources|
      && args[0] == "-d" && args[1] == destination
      && args[2..] == sources
  {
    if |sources| == 0 then ["-version"] else ["-d", destination] + sources
  }

  /** The runtime's arguments: the classpath, as given, then the class to run. */
  function RunArgs(classpath: string, mainClass: string): (args: seq<string>)
    ensures |args| == 3
    ensures args[0] == "-cp" && args[1] == classpath && args[2] == mainClass
  {
    ["-cp", classpath, mainClass]
  }

  /** The three options `CompileArgs` uses. */
  predicate IsJavacOption(a: string) {
    a == "-version" || a == "-d" || a == "-cp"
  }

  /** What the compiler takes from its command line. */
  datatype JavacRequest = JavacRequest(version: bool, destination: Option<string>, classpath: Option<string>, sources: seq<string>)

  /**
   * The compiler's reading of an argument vector: `-version` is a flag,
   * `-d` and `-cp` take the next argument, everything else is a source file.
   * None when an option lacks its value.
   */
  function ReadJavac(args: seq<string>): Option<JavacRequest>
    decreases |args|
  {
    if |args| == 0 then Some(JavacRequest(false, None, None, []))
    else if args[0] == "-version" then
      match ReadJavac(args[1..])
      case None => None
      case Some(r) => Some(r.(version := true))
    else if args[0] == "-d" || args[0] == "-cp" then
      if |args| < 2 then None
      else match ReadJavac(args[2..])
        case None => None
        case Some(r) => Some(if args[0] == "-d" then r.(destination := Some(args[1])) else r.(classpath := Some(args[1])))
    else
      match ReadJavac(args[1..])
      case None => None
      case Some(r) => Some(r.(sources := [args[0]] + r.sources))
  }

  lemma {:induction false} ReadJavacSources(sources: seq<string>)
    requires forall k :: 0 <= k < |sources| ==> !IsJavacOption(sources[k])
    ensures ReadJavac(sources) == Some(JavacRequest(false, None, None, sources))
  {
    if |sources| > 0 {
      ReadJavacSources(sources[1..]);
      assert [sources[0]] + sources[1..] == sources;
    }
  }

  /**
   * The compiler receives exactly one of two requests: a version check with no
   * destination and no classpath when there are no sources, or a compilation
   * into `destination` with the separator-led classpath and every source.
   */
  lemma CompileArgsRead(destination: string, classpath: string, sep: char, sources: seq<string>)
    requires forall k :: 0 <= k < |sources| ==> !IsJavacOption(sources[k])
    ensures ReadJavac(CompileArgs(destination, classpath, sep, sources)) ==
      if sources == [] then Some(JavacRequest(true, None, None, []))
      else Some(JavacRequest(false, Some(destination), Some([sep] + classpath), sources))
  {
    ReadJavacSources(sources);
    if sources != [] {
      var args := CompileArgs(destination, classpath, sep, sources);
      assert args[2..] == ["-cp", [sep] + classpath] + sources;
      assert args[2..][2..] == sources;
    } else {
      assert ReadJavac(["-version"]) == Some(JavacRequest(true, None, None, []));
    }
  }

  /** Without a classpath the compiler receives no classpath at all. */
  lemma CompileArgsWithoutClasspathRead(destination: string, sources: seq<string>)
    requires forall k :: 0 <= k < |sources| ==> !IsJavacOption(sources[k])
    ensures ReadJavac(CompileArgsWithoutClasspath(destination, sources)) ==
      if sources == [] then Some(JavacRequest(true, None, None, []))
      else Some(JavacRequest(false, Some(destination), None, sources))
  {
    ReadJavacSources(sources);
    if sources != [] {
      assert CompileArgsWithoutClasspath(destination, sources)[2..] == sources;
    } else {
      assert ReadJavac(["-version"]) == Some(JavacRequest(true, None, None, []));
    }
  }

  /** What the runtime takes from its command line. */
  datatype JavaRequest = JavaRequest(classpath: Option<string>, mainClass: string, programArgs: seq<string>)

  /**
   * The runtime's reading of an argument vector: `-cp` takes the next
   * argument; the first other argument names the class to run and the rest
   * are passed to its `main`. None when no class is named.
   */
  function ReadJava(args: seq<string>): Option<JavaRequest>
    decreases |args|
  {
    if |args| == 0 then None
    else if args[0] == "-cp" then
      if |args| < 2 then None
      else match ReadJava(args[2..])
        case None => None
        case Some(r) => Some(r.(classpath := Some(args[1])))
    else Some(JavaRequest(None, args[0], args[1..]))
  }

  /** The runtime runs `mainClass` on exactly the given classpath, with no program arguments. */
  lemma RunArgsRead(classpath: string, mainClass: string)
    requires mainClass != "-cp"
    ensures ReadJava(RunArgs(classpath, mainClass)) == Some(JavaRequest(Some(classpath), mainClass, []))
  {
    var args := RunArgs(classpath, mainClass);
    assert args[2..] == [mainClass];
    assert ReadJava(args[2..]) == Some(JavaRequest(None, mainClass, []));
  }

  /** No entry's absolute path contains the path separator. */
  predicate SeparatorFree(entries: seq<Path>, sep: char) {
    forall i :: 0 <= i < |entries| ==> sep !in AbsolutePath(entries[i])
  }

  /** Reading a classpath string back gives its entries. */
  lemma AsPathEntries(entries: seq<Path>, sep: char)
    requires entries != [] && SeparatorFree(entries, sep)
    ensures Split(AsPath(entries, sep), sep) == AbsolutePaths(entries)
  {
    SplitJoin(AbsolutePaths(entries), sep);
  }

  /**
   * The compiler's `-cp` value always opens with an empty entry, because of
   * the leading separator; with no jars the value is the separator alone and
   * reads as two empty entries.
   */
  lemma CompileClasspathEntries(entries: seq<Path>, sep: char)
    requires SeparatorFree(entries, sep)
    ensures Split([sep] + AsPath(entries, sep), sep) == [""] + (if entries == [] then [""] else AbsolutePaths(entries))
  {
    assert [sep] + AsPath(entries, sep) == "" + [sep] + AsPath(entries, sep);
    SplitAfter("", sep, AsPath(entries, sep));
    if entries != [] {
      AsPathEntries(entries, sep);
    } else {
      assert AsPath(entries, sep) == "";
    }
  }

  /** The runtime classpath of `run-java-deps`: the compilation destination, a separator, then the jars. */
  function DestinationFirstClasspath(destination: string, entries: seq<Path>, sep: char): string {
    destination + [sep] + AsPath(entries, sep)
  }

  /** The destination is the first entry the runtime searches; an empty jar list leaves a trailing empty entry. */
  lemma DestinationFirstEntries(destination: string, entries: seq<Path>, sep: char)
    requires sep !in destination && SeparatorFree(entries, sep)
    ensures Split(DestinationFirstClasspath(destination, entries, sep), sep) ==
      [destination] + (if entries == [] then [""] else AbsolutePaths(entries))
  {
    SplitAfter(destination, sep, AsPath(entries, sep));
    if entries != [] {
      AsPathEntries(entries, sep);
    } else {
      assert AsPath(entries, sep) == "";
    }
  }

  /**
   * A resolution of the runtime configuration of `custom-tasks`, which extends
   * the compile configuration: exactly what it inherits and its own entries.
   * The order Gradle resolves them in is left open.
   */
  predicate ResolvesRuntime(cp: seq<Path>, inherited: seq<Path>, own: seq<Path>) {
    (forall p :: p in cp ==> p in inherited || p in own) &&
    (forall p :: p in inherited ==> p in cp) && (forall p :: p in own ==> p in cp)
  }
}
