# Build examples and slide typo scripts, modelled in Dafny

This project models two parts of a course repository. The first is the Gradle build examples: the
`JavaCompile` and `JavaRun` task classes of the `buildSrc` convention plugin, the `Finder` helper
that collects files by extension, and the four build scripts `compile-java`, `compile-java-deps`,
`run-java-deps` and `custom-tasks`. The second is the three Ruby scripts that look after the slide
sources: `typo-check.rb` (scan Markdown files for typos and suspicious patterns and report them),
`typo-report.rb` (report the definite typos only) and `fix-typos.rb` (apply a fixed table of text
replacements).

Modules, following the program's structure:

- `Wrappers`, `Seqs`: `Option` and generic sequence facts. `Seqs` covers prefixes and suffixes,
  `Join`/`Split` on a separator, `Dedup` (a set in first-seen order) and subsequences.
- `FileTree`: a file system as a tree of named nodes. `Walk` is the pre-order walk that Kotlin's
  `walkTopDown` and Ruby's `Find.find` perform. It also covers path lookup, Kotlin's
  `File.extension`, and `Finder.withExtension`/`allFilesIn`.
- `JvmArgs`: the argument vectors given to `javac` and `java`, and `FileCollection.asPath`. It also
  has reference readers (`ReadJavac`, `ReadJava`) that take a vector apart the way the tools do.
- `JvmTasks`: Gradle's `Exec` task as a class with a growing argument list. `JavaCompile` and
  `JavaRun` are classes over it, a `Configuration` collects files, and a `Launcher` logs every
  process start. Each build script is a method whose postcondition is the exact log of process
  starts.
- `FixTypos`: Ruby `gsub!` with a String pattern and a String replacement, including the
  backslash escapes Ruby expands in the replacement and the exception it raises for `\k<`. It also
  covers literal replacement, which `gsub!` reduces to for backslash-free replacements, `fix_file`
  on a `Disk` object, `run` with and without `--dry-run`, and the command line.
- `TypoCheck`: `String#lines` and `strip`, the per-line pattern matching, `scan_file`,
  `scan_directory` and `run`. `TypoChecker` is a class whose loops are proved against the
  specification functions.
- `TypoCheckReport`: `generate_report`. This covers grouping by file in first-seen order, the
  80-character context and the summary counts.
- `TypoReport`: the definite-typos report of `typo-report.rb`.

The regular expressions of the typo checker are abstract. A pattern is a function from a line to the
text of its first match, if any. The table sizes and the corrections are those of the source. File
system contents, the current directory and `File.pathSeparator` are parameters. Path names are
joined with `/`.
Process starts are recorded, not performed.

## Model

| member | source | states |
|---|---|---|
| `FileTree.Child` | examples/buildsrc/buildSrc/src/main/kotlin/AllFiles.kt:8 | The child found has the name asked for; no child found means no child has it. |
| `FileTree.AfterLast` | examples/buildsrc/buildSrc/src/main/kotlin/AllFiles.kt:6 | The result holds no `c`; when `s` holds a `c`, `s` ends with `c` followed by the result; otherwise the result is empty. |
| `FileTree.Select` | examples/buildsrc/buildSrc/src/main/kotlin/AllFiles.kt:6 | A path is selected exactly when some walked entry at that path is a file with the extension. |
| `FileTree.WalkUnder` | examples/buildsrc/buildSrc/src/main/kotlin/AllFiles.kt:6 | Every entry of a walk lies below the starting path. |
| `FileTree.WalkFindsLookup` | examples/buildsrc/buildSrc/src/main/kotlin/AllFiles.kt:6 | Everything that exists below a node is visited by the walk from it. |
| `FileTree.LookupFindsWalk` | examples/buildsrc/buildSrc/src/main/kotlin/AllFiles.kt:6 | Everything the walk visits exists at its path (sibling names unique). |
| `FileTree.LookupAppend` | examples/buildsrc/buildSrc/src/main/kotlin/AllFiles.kt:8 | Resolving `a + b` is resolving `a`, then `b` from there. |
| `FileTree.WalkDistinct` | examples/buildsrc/buildSrc/src/main/kotlin/AllFiles.kt:6 | A walk of a well-formed tree visits every path at most once. |
| `FileTree.SelectInOrder` | examples/buildsrc/buildSrc/src/main/kotlin/AllFiles.kt:6 | `filter` keeps walk order: the selection is a subsequence of the walked paths. |
| `FileTree.SelectDistinct` | examples/buildsrc/buildSrc/src/main/kotlin/AllFiles.kt:6 | Filtering a walk without repeated paths yields no repeated path. |
| `FileTree.WithExtensionExact` | examples/buildsrc/buildSrc/src/main/kotlin/AllFiles.kt:4-7 | `withExtension` returns exactly the regular files below the root whose extension matches. |
| `FileTree.WithExtensionOrdered` | examples/buildsrc/buildSrc/src/main/kotlin/AllFiles.kt:4-7 | `withExtension` returns each file once, in walk order. |
| `FileTree.AllFilesInExact` | examples/buildsrc/buildSrc/src/main/kotlin/AllFiles.kt:8 | `allFilesIn(rel).withExtension(ext)` is exactly the matching files below `projectDir/rel`. |
| `FileTree.ExtensionIffSuffix` | examples/buildsrc/buildSrc/src/main/kotlin/AllFiles.kt:6 | For a dot-free extension, a file's extension is `ext` iff its name ends with `.ext`. |
| `FileTree.RelativePathSuffix` | scripts/typo-check.rb:74 | A path string ends with a slash-free suffix iff its last component does. |
| `FileTree.MarkdownSuffixIsExtension` | scripts/typo-check.rb:74 | Ruby's `end_with?('.md')` on a path agrees with the file's extension being `md`. |
| `JvmArgs.AbsolutePaths` | examples/buildsrc/buildSrc/src/main/kotlin/JavaCompile.kt:34 | One absolute path per entry, in order. |
| `JvmArgs.CompileArgs` | examples/buildsrc/buildSrc/src/main/kotlin/JavaCompile.kt:24-36 | No sources gives `-version` alone, and only then. Otherwise: `-d`, destination, `-cp`, separator-led classpath, then every source. |
| `JvmArgs.CompileArgsWithoutClasspath` | examples/compile-java/build.gradle.kts:13-23 | Same two cases, without any `-cp`. |
| `JvmArgs.RunArgs` | examples/buildsrc/buildSrc/src/main/kotlin/JavaRun.kt:16-19 | Exactly `-cp`, the classpath, the main class. |
| `JvmArgs.ReadJavacSources` | examples/buildsrc/buildSrc/src/main/kotlin/JavaCompile.kt:34 | Arguments that are not options are all read as source files. |
| `JvmArgs.CompileArgsRead` | examples/buildsrc/buildSrc/src/main/kotlin/JavaCompile.kt:24-36 | The compiler reads back a version check when there are no sources, else exactly the destination, classpath and sources given. |
| `JvmArgs.CompileArgsWithoutClasspathRead` | examples/compile-java/build.gradle.kts:13-23 | Reads back to the destination and sources, with no classpath. |
| `JvmArgs.RunArgsRead` | examples/buildsrc/buildSrc/src/main/kotlin/JavaRun.kt:16-19 | The runtime reads back exactly the classpath and the main class, with no program arguments. |
| `JvmArgs.AsPathEntries` | examples/buildsrc/buildSrc/src/main/kotlin/JavaRun.kt:17 | Splitting `asPath` on the separator recovers every entry's absolute path (entries free of the separator). |
| `JvmArgs.CompileClasspathEntries` | examples/buildsrc/buildSrc/src/main/kotlin/JavaCompile.kt:33 | The leading separator makes the first classpath entry empty; with no jars the value reads as two empty entries. |
| `JvmArgs.DestinationFirstEntries` | examples/run-java-deps/build.gradle.kts:44-47 | The destination is the first runtime classpath entry, followed by the jars (or one empty entry). |
| `JvmTasks.Launcher.Launch` | examples/buildsrc/buildSrc/src/main/kotlin/JavaCompile.kt:37 | One process start is appended to the log. |
| `JvmTasks.ExecTask.Args` | examples/buildsrc/buildSrc/src/main/kotlin/JavaCompile.kt:27-35 | `args(...)` appends to the arguments gathered so far. |
| `JvmTasks.ExecTask.Exec` | examples/buildsrc/buildSrc/src/main/kotlin/JavaCompile.kt:37 | Starts the executable once with all gathered arguments. |
| `JvmTasks.Configuration.Add` | examples/custom-tasks/build.gradle.kts:11-16 | Invoking a configuration on a file appends it. |
| `JvmTasks.Configuration.AddEach` | examples/custom-tasks/build.gradle.kts:11-16 | `forEach` over the files invokes the configuration on each, appending them in order. |
| `JvmTasks.JavaCompile.constructor` | examples/buildsrc/buildSrc/src/main/kotlin/JavaCompile.kt:11-20 | The task starts `javac` and has empty properties and no arguments. |
| `JvmTasks.JavaCompile.Exec` | examples/buildsrc/buildSrc/src/main/kotlin/JavaCompile.kt:23-38 | Appends `CompileArgs` to the arguments, over the de-duplicated sources, absolute destination and `asPath` classpath. Then starts `javac` once, also when there is nothing to compile. |
| `JvmTasks.JavaRun.constructor` | examples/buildsrc/buildSrc/src/main/kotlin/JavaRun.kt:8-12 | The task starts `java`, with no arguments yet. |
| `JvmTasks.JavaRun.Exec` | examples/buildsrc/buildSrc/src/main/kotlin/JavaRun.kt:14-21 | Appends `-cp`, `asPath` and the main class, then starts `java` once. |
| `JvmTasks.AddLibraryJars` | examples/custom-tasks/build.gradle.kts:11-16 | The configuration gains exactly the jars found under `libs`, in walk order. |
| `JvmTasks.LibraryJarsExact` | examples/custom-tasks/build.gradle.kts:11-16 | The jars are exactly the `.jar` files below `libs`, each once. |
| `JvmTasks.SourceFilesOfWalk` | examples/buildsrc/buildSrc/src/main/kotlin/JavaCompile.kt:34 | `FileCollection.files` of a walk's sources changes nothing, so each source is passed once. |
| `JvmTasks.AbsolutePathsAreNotOptions` | examples/buildsrc/buildSrc/src/main/kotlin/JavaCompile.kt:34 | No absolute path can be taken for a compiler option. |
| `JvmTasks.CustomTasksBuild` | examples/custom-tasks/build.gradle.kts:5-28 | `gradle runJava` starts exactly two processes: `javac` on the sources, against the `libs` jars, into `build/bin`; then `java HelloMath` on the resolved runtime configuration, which holds exactly the jars and `build/bin`, in Gradle's order. |
| `JvmTasks.CompileThenRun` | examples/custom-tasks/build.gradle.kts:27 | Because of `dependsOn`, the compile start comes before the run start, each once. |
| `JvmTasks.CompileWithClasspath` | examples/compile-java-deps/build.gradle.kts:17-33 | The `doFirst` block appends the compile arguments for the sources found at that time and starts the compiler. |
| `JvmTasks.RunJavaDepsBuild` | examples/run-java-deps/build.gradle.kts:8-49 | Exactly two starts: `javac` against the jars, then `java HelloMath` with the destination ahead of the jars. |
| `JvmTasks.CompileJavaDepsBuild` | examples/compile-java-deps/build.gradle.kts:5-34 | Exactly one `javac` start, against the jars under `libs`, into `build/bin`. |
| `JvmTasks.CompileJavaBuild` | examples/compile-java/build.gradle.kts:3-25 | Exactly one `javac` start, on the `.java` files under `src`, with no classpath. |
| `JvmTasks.CustomTasksCompileRequest` | examples/custom-tasks/build.gradle.kts:18-22 | The compiler is asked to check its version iff `src` holds no Java file. Otherwise it compiles every such file once into the destination, with the separator-led jar classpath. |
| `FixTypos.ExpandLiteral` | scripts/fix-typos.rb:50 | A replacement without backslashes is inserted as it stands. |
| `FixTypos.ExpandNamedReference` | scripts/fix-typos.rb:50 | A replacement holding `\k<` makes `gsub!` raise, whatever follows. |
| `FixTypos.GsubLiteral` | scripts/fix-typos.rb:50 | With a backslash-free replacement, `gsub!` never raises and is plain literal replacement of every occurrence. |
| `FixTypos.GsubUnchangedIff` | scripts/fix-typos.rb:50-52 | With a backslash-free replacement, the content is unchanged exactly when the old text does not occur or equals the new. |
| `FixTypos.GsubNoOccurrence` | scripts/fix-typos.rb:50-52 | Without an occurrence, `gsub!` changes nothing and does not raise, whatever the replacement holds. |
| `FixTypos.GsubWholeMatch` | scripts/fix-typos.rb:50-52 | A replacement of `\0` or `\&` puts every match back, so the content is unchanged even where the old text occurs. |
| `FixTypos.GsubFromCopies` | scripts/fix-typos.rb:50 | Text up to the next occurrence is copied unchanged. |
| `FixTypos.GsubLeftmost` | scripts/fix-typos.rb:50 | The leftmost occurrence is replaced first: the text before it is copied, the occurrence becomes the expanded replacement (with the text before and after it), and the scan resumes right after it. |
| `FixTypos.InsertEverywhere` | scripts/fix-typos.rb:50 | Literal replacement with the empty pattern adds at least one copy of the replacement. |
| `FixTypos.NoOccurrenceUnchanged` | scripts/fix-typos.rb:50 | Literal replacement without an occurrence leaves the text as it is. |
| `FixTypos.SelfReplacementUnchanged` | scripts/fix-typos.rb:50 | Literal replacement of a pattern by itself leaves the text as it is. |
| `FixTypos.ReplaceAllGrows` | scripts/fix-typos.rb:50 | Literal replacement by a text no shorter than the pattern never shortens the text. |
| `FixTypos.ReplaceAllShrinks` | scripts/fix-typos.rb:50 | Literal replacement by a text no longer than the pattern never lengthens the text. |
| `FixTypos.OccurrenceChanges` | scripts/fix-typos.rb:50 | Literal replacement of an occurring pattern by a different text always changes the text. |
| `FixTypos.ReplaceAllUnchangedIff` | scripts/fix-typos.rb:50-52 | Literal replacement leaves the text unchanged exactly when the pattern does not occur or is replaced by itself. |
| `FixTypos.EmptyInsertion` | scripts/fix-typos.rb:50 | Inserting the empty string everywhere changes nothing. |
| `FixTypos.DefaultFixesLiteral` | scripts/fix-typos.rb:9-40 | Every replacement in the table is free of backslashes and differs from its old text. |
| `FixTypos.ApplyFix` | scripts/fix-typos.rb:43-62 | A missing file is reported not fixed. Otherwise `fix_file` raises exactly when `gsub!` does. When it does not, only that file may change, to the `gsub!` result, and a fix is reported exactly when the content changed. |
| `FixTypos.ApplyFixLiteral` | scripts/fix-typos.rb:43-62 | With a backslash-free replacement, `fix_file` never raises and reports a fix exactly when the file exists, the old text occurs and it differs from the new. |
| `FixTypos.WholeMatchNotFixed` | scripts/fix-typos.rb:43-62 | A replacement of `\0` changes no file and reports no fix. |
| `FixTypos.ApplyFixes` | scripts/fix-typos.rb:70-85 | The set of files stays the same. A run that does not raise counts at most one fix per table entry. |
| `FixTypos.ApplyFixesStep` | scripts/fix-typos.rb:70-85 | One more entry, after a run that has not raised, is one more `fix_file` on the files left so far. |
| `FixTypos.AbortedStays` | scripts/fix-typos.rb:70-85 | Once `fix_file` raises, the run stops, keeping the files written before. |
| `FixTypos.LiteralFixesComplete` | scripts/fix-typos.rb:70-85 | A table of backslash-free replacements never raises. |
| `FixTypos.DefaultRunCompletes` | scripts/fix-typos.rb:9-40 | With the script's own table, `run` never raises, whatever the files hold. |
| `FixTypos.ApplyFixesUntouched` | scripts/fix-typos.rb:70-85 | A file that no fix names keeps its content. |
| `FixTypos.ApplyFixesNothingToDo` | scripts/fix-typos.rb:70-85 | Fixes that each name a missing file, or replace a text by itself without backslashes, change nothing and count zero. |
| `FixTypos.TypoFixer.constructor` | scripts/fix-typos.rb:7-41 | The fixer holds the five-entry table. |
| `FixTypos.TypoFixer.FixFile` | scripts/fix-typos.rb:43-62 | The disk, the fix report and whether an exception was raised are those of `ApplyFix`; an exception leaves the disk as it was. |
| `FixTypos.TypoFixer.Run` | scripts/fix-typos.rb:64-99 | A dry run changes nothing and counts 0. Otherwise the fixes are applied in table order, counting those reported fixed, and an exception ends the run with the files written so far, as `ApplyFixes` says. |
| `FixTypos.ParseCommandLine` | scripts/fix-typos.rb:103-112 | Help iff `--help` or `-h` is present; otherwise a dry run iff `--dry-run` or `-n` is present. |
| `FixTypos.ParseCommandLineIgnoresOthers` | scripts/fix-typos.rb:103-112 | Any other argument, in any position, changes nothing. |
| `TypoCheck.Lines` | scripts/typo-check.rb:88 | The lines concatenate back to the content. |
| `TypoCheck.LinesShape` | scripts/typo-check.rb:88 | No line is empty, only a line's last character may be a line feed, and every line but the last ends with one. |
| `TypoCheck.TrimStartSpec` | scripts/typo-check.rb:90 | `lstrip` removes a leading run of whitespace, and all of it. |
| `TypoCheck.TrimEndSpec` | scripts/typo-check.rb:90 | `rstrip` removes a trailing run of whitespace, and all of it. |
| `TypoCheck.StripEmpty` | scripts/typo-check.rb:91 | A stripped line is empty iff the line is all whitespace. |
| `TypoCheck.TypoIssues` | scripts/typo-check.rb:93-104 | At most one issue per pattern; each issue is a typo with its file, line number and stripped content. |
| `TypoCheck.TypoIssuesSound` | scripts/typo-check.rb:93-104 | Every typo issue is the match of some pattern, with that pattern's correction. |
| `TypoCheck.TypoIssuesComplete` | scripts/typo-check.rb:93-104 | Every pattern that matches yields its issue. |
| `TypoCheck.SuspiciousIssues` | scripts/typo-check.rb:106-117 | At most one per pattern; each is a suspicious issue with the fixed suggestion. |
| `TypoCheck.SuspiciousIssuesSound` | scripts/typo-check.rb:106-117 | Every suspicious issue is some pattern's match. |
| `TypoCheck.SuspiciousIssuesComplete` | scripts/typo-check.rb:106-117 | Every suspicious pattern that matches yields its issue. |
| `TypoCheck.FileIssuesLines` | scripts/typo-check.rb:88-119 | Every issue of a file names that file and a 1-based line number within it. |
| `TypoCheck.OnLineAppend` | scripts/typo-check.rb:88-119 | Filtering by line distributes over concatenation. |
| `TypoCheck.OnLineAll` | scripts/typo-check.rb:88-119 | Issues all on one line are kept whole by that line's filter. |
| `TypoCheck.OnLineNone` | scripts/typo-check.rb:88-119 | Issues on no such line are all dropped. |
| `TypoCheck.OnLineKeeps` | scripts/typo-check.rb:88-119 | An issue on the line survives the filter. |
| `TypoCheck.LineIssuesOnLine` | scripts/typo-check.rb:93-117 | A line's issues all carry its number. |
| `TypoCheck.FileIssuesOfLine` | scripts/typo-check.rb:88-119 | The issues of a file on line `k+1` are exactly those of its `k`-th line. |
| `TypoCheck.SkippedLineSilent` | scripts/typo-check.rb:90-91 | A blank line, or one opening with a fence, URL, image or markup, yields no issue. |
| `TypoCheck.LineIssuesOrdered` | scripts/typo-check.rb:93-117 | Within a line, typo issues come before suspicious ones. |
| `TypoCheck.FileIssuesOrdered` | scripts/typo-check.rb:88-119 | Issues are in line order, typos before suspicious patterns within a line. |
| `TypoCheck.MarkdownIsExtension` | scripts/typo-check.rb:74 | The Markdown test of `scan_directory` is the `.md` extension test on files. |
| `TypoCheck.DirectoryIssuesFiles` | scripts/typo-check.rb:70-80 | Every issue of a directory comes from a Markdown file found below it. |
| `TypoCheck.DirectoryIssuesMarkdown` | scripts/typo-check.rb:70-80 | Every issue names a `.md` file and a line numbered from 1. |
| `TypoCheck.IssuesIfDirectoryFromMarkdown` | scripts/typo-check.rb:167-182 | Scanning one directory if present yields issues of `.md` files only. |
| `TypoCheck.RunIssuesFromMarkdown` | scripts/typo-check.rb:164-190 | The whole run reports only issues of `.md` files, lines numbered from 1. |
| `TypoCheck.TypoChecker.constructor` | scripts/typo-check.rb:11-67 | There are 42 typo patterns with the table's corrections, in order, and the four suspicious patterns. |
| `TypoCheck.TypoChecker.MatchTypos` | scripts/typo-check.rb:93-104 | The loop over the typo table finds exactly `TypoIssues`. |
| `TypoCheck.TypoChecker.MatchSuspicious` | scripts/typo-check.rb:106-117 | The loop over the suspicious patterns finds exactly `SuspiciousIssues`. |
| `TypoCheck.TypoChecker.ScanFile` | scripts/typo-check.rb:82-121 | A missing file yields nothing. Otherwise: the issues of every unskipped line, in line order. |
| `TypoCheck.TypoChecker.ScanDirectory` | scripts/typo-check.rb:70-80 | The issues of every `.md` file of the walk, in walk order. |
| `TypoCheck.TypoChecker.ScanIfDirectory` | scripts/typo-check.rb:167-170 | A directory that is absent, or not a directory, contributes nothing. |
| `TypoCheck.TypoChecker.Run` | scripts/typo-check.rb:160-191 | The results of `content`, `reusable` and `shared-slides`, in that order. |
| `TypoCheckReport.Files` | scripts/typo-check.rb:134 | The file of every result, in order. |
| `TypoCheckReport.GroupsOf` | scripts/typo-check.rb:134 | One group per key, holding that file's results. |
| `TypoCheckReport.OfFileAppend` | scripts/typo-check.rb:134 | Grouping by file distributes over concatenation. |
| `TypoCheckReport.OfKindAppend` | scripts/typo-check.rb:149-150 | Selecting by type distributes over concatenation. |
| `TypoCheckReport.OfFileExact` | scripts/typo-check.rb:134 | A file's group holds exactly the results naming that file. |
| `TypoCheckReport.OfKindExact` | scripts/typo-check.rb:149-150 | `select` by type keeps exactly the results of that type. |
| `TypoCheckReport.OfFileInOrder` | scripts/typo-check.rb:134 | A group keeps the results' order. |
| `TypoCheckReport.OfKindInOrder` | scripts/typo-check.rb:149-150 | `select` keeps the results' order. |
| `TypoCheckReport.KindsPartition` | scripts/typo-check.rb:149-157 | Definite typos and suspicious patterns add up to the total. |
| `TypoCheckReport.TotalSizeStep` | scripts/typo-check.rb:134 | One more result adds one to each group whose key is its file. |
| `TypoCheckReport.HitsOnce` | scripts/typo-check.rb:134 | A file occurs among distinct keys once or not at all. |
| `TypoCheckReport.GroupsCover` | scripts/typo-check.rb:134 | Grouping over distinct keys that cover every file places every result exactly once. |
| `TypoCheckReport.EmptyGroups` | scripts/typo-check.rb:134 | No results, no members. |
| `TypoCheckReport.GroupByFileKeys` | scripts/typo-check.rb:134 | `group_by` has one group per distinct file, in first-seen order, and a group for every file seen. |
| `TypoCheckReport.GroupByFileMembers` | scripts/typo-check.rb:134 | Each group is non-empty, in result order, and holds exactly its file's results. |
| `TypoCheckReport.GroupByFileTotal` | scripts/typo-check.rb:134-146 | The groups together list every result once. |
| `TypoCheckReport.Context` | scripts/typo-check.rb:142 | Content of 80 characters or fewer is shown whole. Longer content is shown as its first 80 characters then `...`. |
| `TypoCheckReport.Describe` | scripts/typo-check.rb:138-143 | An entry is marked definite iff the result is a typo, and shows its line, issue, suggestion and context. |
| `TypoCheckReport.GenerateReport` | scripts/typo-check.rb:123-158 | "No common typos" iff there are no results. Otherwise: the file groups, the typo, suspicious and total counts (which add up), and the file count, between 1 and the total. |
| `TypoCheckReport.GroupEntries` | scripts/typo-check.rb:138-144 | One described entry per result of the group, in order. |
| `TypoCheckReport.GroupDefinite` | scripts/typo-check.rb:138-139 | A group shows the definite-typo icon once per definite typo among its results. |
| `TypoCheckReport.OfKindOfFile` | scripts/typo-check.rb:134-150 | Selecting by type and grouping by file commute. |
| `TypoCheckReport.DefiniteEntriesOf` | scripts/typo-check.rb:134-149 | The groups show as many definite-typo icons as there are definite typos in the files grouped. |
| `TypoCheckReport.EntryCountTotal` | scripts/typo-check.rb:134-146 | The groups print one entry per grouped result. |
| `TypoCheckReport.ReportEntriesAgree` | scripts/typo-check.rb:134-157 | The printed report agrees with its summary: it prints one entry per issue of the total, and exactly as many entries carry the definite-typo icon as the summary counts definite typos. |
| `TypoReport.DefiniteTyposReport` | scripts/typo-report.rb:13-31 | "No definite typos" iff no result is a typo. Otherwise the typos grouped by file, their total, and a file count between 1 and that total. |
| `TypoReport.GroupsAreFileTypos` | scripts/typo-report.rb:18-27 | Each group is non-empty, in result order, and holds exactly its file's typos. |
| `TypoReport.GroupsAddUp` | scripts/typo-report.rb:18-31 | The groups list every typo once. |
| `TypoReport.TotalMatchesChecker` | scripts/typo-report.rb:13-31 | When there are definite typos, the checker's report is not empty and their total agrees with its definite-typo count. |
| `Seqs.Dedup` | examples/buildsrc/buildSrc/src/main/kotlin/JavaCompile.kt:34 | `FileCollection.files` as a set: no repeats, nothing added, nothing lost. |
| `Seqs.FirstIndex` | examples/buildsrc/buildSrc/src/main/kotlin/JavaCompile.kt:34 | The first position holding an element: it holds it and no earlier position does. |
| `Seqs.DedupFirstSeen` | examples/buildsrc/buildSrc/src/main/kotlin/JavaCompile.kt:34 | `FileCollection.files` keeps first-seen order: of two files listed, the earlier one first occurs earlier among the sources. |
| `Seqs.SplitJoin` | examples/buildsrc/buildSrc/src/main/kotlin/JavaRun.kt:17 | Splitting a join of separator-free parts gives the parts back. |

## Left out

- Starting processes: `Exec.exec` records an `Invocation` in the `Launcher` log. Exit codes, the
  compiler's output and the program's output are not modelled.
- Gradle's task graph is given, not computed. Task registration, laziness, configuration avoidance
  and up-to-date checks are out (`configuration-avoidance`, `hierarchical`, `JavaTasksAPI.kt` and
  `java-convention.gradle.kts` only wire tasks together). What the model keeps: each build's
  `dependsOn` order, and the `doFirst` timing of source discovery.
- `JvmTasks.CustomTasksBuild`: the runtime classpath is given as a parameter that holds exactly
  the inherited jars and `build/bin` (`JvmArgs.ResolvesRuntime`). The order in which Gradle
  resolves a configuration that `extendsFrom` another is Gradle's and is not modelled.
- `JvmTasks.CustomTasksBuild`: the log assumes every process succeeds. A failing `compileJava`
  would stop the build before `runJava` starts; exit codes are not modelled.
- `JvmTasks.RunJavaDepsBuild`: the log assumes every process succeeds. A failing `compileJava`
  would stop the build before `runJava` starts.
- `JvmTasks.CompileThenRun`: assumes the compiler succeeds, so the runtime always starts.
- The walk order is the order of each directory's children in the tree given. The orders of the
  operating system, Kotlin's `walkTopDown` and Ruby's `Find.find` (which sorts siblings) are
  inputs, not computed.
- Symbolic links, special files, permissions and I/O errors are out. `File.read` is a map lookup,
  and a path that is not a regular file reads as missing.
- Regular expressions are abstract matchers; the 42 typo patterns and four suspicious patterns are
  not spelled out. Only the table sizes, the corrections and the fixed suggestion are.
- `FixTypos.InsertEverywhere`: literal replacement only. The backslash escapes of a Ruby
  replacement are in `Gsub`, and `GsubLiteral` ties the two together for backslash-free
  replacements, which is every replacement of the table (`DefaultFixesLiteral`).
- `FixTypos.NoOccurrenceUnchanged`: literal replacement; `GsubNoOccurrence` states it for `gsub!`
  with any replacement.
- `FixTypos.SelfReplacementUnchanged`: literal replacement only. With escapes, `gsub!` can also
  leave the text unchanged when the replacement differs (`GsubWholeMatch`).
- `FixTypos.ReplaceAllGrows`: literal replacement only; an escape can expand to any length.
- `FixTypos.ReplaceAllShrinks`: literal replacement only; an escape can expand to any length.
- `FixTypos.OccurrenceChanges`: literal replacement only; `\0` puts the match back
  (`GsubWholeMatch`).
- `FixTypos.ReplaceAllUnchangedIff`: literal replacement only; `GsubUnchangedIff` states it for
  `gsub!` with a backslash-free replacement.
- `FixTypos.ApplyFixesNothingToDo`: a fix that replaces a text by itself counts as nothing to do
  only when the text holds no backslash, since `gsub!` would expand one.
- The message of the exception `gsub!` raises and the script's exit status on it are not modelled;
  the model only records that it was raised and what had been written before.
- Console output (`puts`, icons, banners, the help text) and `exit` are out. The reports are
  values holding what is printed.
- Character encodings: strings are sequences of characters, with no UTF-8 decoding.
- The `line` field of each fix in `fix-typos.rb` is kept in the table, but the script never uses it.
- The "Files scanned" count of the typo report counts files that have at least one result, as the
  code does, not every file read.
- `File.pathSeparator` and the project and build directories are parameters. The program
  `HelloMath.java` is not part of this model.
