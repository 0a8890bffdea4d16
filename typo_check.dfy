/**
 * The typo checker's scan: every Markdown file below the three slide
 * directories is read line by line; a line that is blank or that opens with
 * a code fence, a URL, an image or markup is skipped, and every other line is
 * tried against the table of typo patterns and then against the suspicious
 * patterns, one issue per pattern that matches. The regular expressions
 * themselves are abstract: a pattern is a function from a line to its first
 * match, if any.
 */
module TypoCheck {
  import opened Wrappers
  import opened Seqs
  import opened FileTree

  datatype IssueKind = Typo | Suspicious

  /** One result of `scan_file`: the hash with keys `file`, `line`, `content`, `issue`, `suggestion` and `type`. */
  datatype Issue = Issue(file: string, line: nat, content: string, issue: string, suggestion: string, kind: IssueKind)

  /** A regular expression as `String#match` uses it: the text of the first match in a line, if any. */
  type Matcher = string -> Option<string>

  /** An entry of `@typo_patterns`: the pattern and the correction suggested for it. */
  datatype TypoPattern = TypoPattern(matcher: Matcher, correction: string)

  /** The suggestion given for every suspicious match. */
  const SuspiciousSuggestion: string := "Review for potential typo"

  /** The corrections of `@typo_patterns`, in the table's order. */
  const TypoCorrections: seq<string> := [
    "the", "is", "with", "from", "of", "the", "and", "to", "is", "that", "in", "for", "with",
    "their", "receive", "occurred", "accommodate", "definite", "separate", "misspelled", "again and again",
    "function", "parameter", "parameters", "implementation", "development", "application", "configuration",
    "architecture", "framework", "library", "libraries", "repository", "deployment", "container",
    "automation", "integration",
    "CI/CD", "kubernetes", "docker", "pipeline", "workflow"
  ]

  /** `@suspicious_patterns` holds four patterns. */
  const SuspiciousPatternCount: nat := 4

  /**
   * `String#lines`: the text cut after every line feed, each line keeping
   * its line feed; a last line without one is kept, and no line is empty.
   */
  function Lines(s: string): (r: seq<string>)
    ensures Concat(r) == s
    decreases |s|
  {
    if s == "" then []
    else if '\n' !in s then [s]
    else
      var i := IndexOf(s, '\n');
      var rest := Lines(s[i + 1..]);
      assert s[..i + 1] + s[i + 1..] == s;
      [s[..i + 1]] + rest
  }

  /** A line of `Lines`: non-empty, with a line feed at most as its last character. */
  predicate IsLine(l: string) {
    l != "" && '\n' !in l[..|l| - 1]
  }

  /** Every line is non-empty, only its last character may be a line feed, and all but the last line end in one. */
  lemma {:induction false} LinesShape(s: string)
    ensures forall k :: 0 <= k < |Lines(s)| ==> IsLine(Lines(s)[k])
    ensures forall k :: 0 <= k < |Lines(s)| - 1 ==> EndsWith(Lines(s)[k], "\n")
    decreases |s|
  {
    if s != "" && '\n' in s {
      var i := IndexOf(s, '\n');
      var first := s[..i + 1];
      var rest := Lines(s[i + 1..]);
      LinesShape(s[i + 1..]);
      var r := Lines(s);
      assert r == [first] + rest;
      assert first[..|first| - 1] == s[..i];
      assert first[i..] == "\n";
      assert IsLine(first) && EndsWith(first, "\n");
      forall k | 1 <= k < |r| ensures r[k] == rest[k - 1] { }
    } else if s != "" {
      NotInPrefix(s, '\n', |s| - 1);
      assert IsLine(s);
    }
  }

  lemma NotInPrefix(s: string, c: char, n: nat)
    requires c !in s && n <= |s|
    ensures c !in s[..n]
  {
  }

  /** The characters `String#strip` removes: null, tab, line feed, vertical tab, form feed, carriage return and space. */
  predicate IsSpace(c: char) {
    c == '\0' || c == '\t' || c == '\n' || c == '\U{000B}' || c == '\U{000C}' || c == '\r' || c == ' '
  }

  /** `s` without its leading white space. */
  function TrimStart(s: string): string
    decreases |s|
  {
    if s != "" && IsSpace(s[0]) then TrimStart(s[1..]) else s
  }

  /** `TrimStart` drops a prefix of white space and stops at the first other character. */
  lemma {:induction false} TrimStartSpec(s: string)
    ensures |TrimStart(s)| <= |s| && TrimStart(s) == s[|s| - |TrimStart(s)|..]
    ensures forall i :: 0 <= i < |s| - |TrimStart(s)| ==> IsSpace(s[i])
    ensures TrimStart(s) != "" ==> !IsSpace(TrimStart(s)[0])
    decreases |s|
  {
    if s != "" && IsSpace(s[0]) {
      TrimStartSpec(s[1..]);
      var r := TrimStart(s);
      assert s[1..][|s| - 1 - |r|..] == s[|s| - |r|..];
      forall i | 0 <= i < |s| - |r| ensures IsSpace(s[i]) {
        if i > 0 {
          assert s[i] == s[1..][i - 1];
        }
      }
    }
  }

  /** `s` without its trailing white space. */
  function TrimEnd(s: string): string
    decreases |s|
  {
    if s != "" && IsSpace(s[|s| - 1]) then TrimEnd(s[..|s| - 1]) else s
  }

  /** `TrimEnd` drops a suffix of white space and stops at the last other character. */
  lemma {:induction false} TrimEndSpec(s: string)
    ensures |TrimEnd(s)| <= |s| && TrimEnd(s) == s[..|TrimEnd(s)|]
    ensures forall i :: |TrimEnd(s)| <= i < |s| ==> IsSpace(s[i])
    ensures TrimEnd(s) != "" ==> !IsSpace(TrimEnd(s)[|TrimEnd(s)| - 1])
    decreases |s|
  {
    if s != "" && IsSpace(s[|s| - 1]) {
      var t := s[..|s| - 1];
      TrimEndSpec(t);
      var r := TrimEnd(s);
      assert t[..|r|] == s[..|r|];
      forall i | |r| <= i < |s| ensures IsSpace(s[i]) {
        if i < |s| - 1 {
          assert s[i] == t[i];
        }
      }
    }
  }

  /** `String#strip`. */
  function Strip(s: string): string {
    TrimStart(TrimEnd(s))
  }

  /** A stripped line is empty exactly when the line is all white space. */
  lemma StripEmpty(s: string)
    ensures Strip(s) == "" <==> forall i :: 0 <= i < |s| ==> IsSpace(s[i])
  {
    var e := TrimEnd(s);
    TrimEndSpec(s);
    TrimStartSpec(e);
    if Strip(s) != "" {
      var r := Strip(s);
      var at := |e| - |r|;
      assert e[at] == r[0];
      assert s[at] == e[at];
    }
  }

  /**
   * The two `next` guards of `scan_file`: the stripped line is empty, or
   * begins with a code fence, a URL, an image, a tag or a comment.
   */
  predicate Skipped(line: string) {
    var t := Strip(line);
    StartsWith(t, "```") || StartsWith(t, "http") || StartsWith(t, "![") || StartsWith(t, "<") || StartsWith(t, "<!--")
      || t == ""
  }

  /** The typo issues of one line: one per pattern of `pats` that matches, in table order. */
  function TypoIssues(file: string, lineNo: nat, line: string, pats: seq<TypoPattern>): (r: seq<Issue>)
    ensures |r| <= |pats|
    ensures forall x :: x in r ==> x.kind == Typo && x.file == file && x.line == lineNo && x.content == Strip(line)
  {
    if pats == [] then []
    else
      var before := TypoIssues(file, lineNo, line, pats[..|pats| - 1]);
      var p := pats[|pats| - 1];
      match p.matcher(line)
      case None => before
      case Some(m) => before + [Issue(file, lineNo, Strip(line), m, p.correction, Typo)]
  }

  /** Each typo issue is the match of a table entry, with that entry's correction as suggestion. */
  lemma {:induction false} TypoIssuesSound(file: string, lineNo: nat, line: string, pats: seq<TypoPattern>, x: Issue)
    requires x in TypoIssues(file, lineNo, line, pats)
    ensures exists k :: 0 <= k < |pats| && pats[k].matcher(line) == Some(x.issue) && x.suggestion == pats[k].correction
  {
    var n := |pats| - 1;
    if x in TypoIssues(file, lineNo, line, pats[..n]) {
      TypoIssuesSound(file, lineNo, line, pats[..n], x);
      var k :| 0 <= k < n && pats[..n][k].matcher(line) == Some(x.issue) && x.suggestion == pats[..n][k].correction;
      assert pats[..n][k] == pats[k];
    } else {
      assert pats[n].matcher(line) == Some(x.issue) && x.suggestion == pats[n].correction;
    }
  }

  /** Every table entry that matches the line yields its issue. */
  lemma {:induction false} TypoIssuesComplete(file: string, lineNo: nat, line: string, pats: seq<TypoPattern>, k: nat)
    requires k < |pats| && pats[k].matcher(line).Some?
    ensures Issue(file, lineNo, Strip(line), pats[k].matcher(line).value, pats[k].correction, Typo)
      in TypoIssues(file, lineNo, line, pats)
  {
    var n := |pats| - 1;
    var before := TypoIssues(file, lineNo, line, pats[..n]);
    var x := Issue(file, lineNo, Strip(line), pats[k].matcher(line).value, pats[k].correction, Typo);
    if k < n {
      assert pats[..n][k] == pats[k];
      TypoIssuesComplete(file, lineNo, line, pats[..n], k);
      assert x in before;
    } else {
      assert TypoIssues(file, lineNo, line, pats) == before + [x];
    }
  }

  /** The suspicious issues of one line: one per pattern of `pats` that matches, in order. */
  function SuspiciousIssues(file: string, lineNo: nat, line: string, pats: seq<Matcher>): (r: seq<Issue>)
    ensures |r| <= |pats|
    ensures forall x :: x in r ==>
      && x.kind == Suspicious && x.file == file && x.line == lineNo && x.content == Strip(line)
      && x.suggestion == SuspiciousSuggestion
  {
    if pats == [] then []
    else
      var before := SuspiciousIssues(file, lineNo, line, pats[..|pats| - 1]);
      match pats[|pats| - 1](line)
      case None => before
      case Some(m) => before + [Issue(file, lineNo, Strip(line), m, SuspiciousSuggestion, Suspicious)]
  }

  /** Each suspicious issue is the match of one of the patterns. */
  lemma {:induction false} SuspiciousIssuesSound(file: string, lineNo: nat, line: string, pats: seq<Matcher>, x: Issue)
    requires x in SuspiciousIssues(file, lineNo, line, pats)
    ensures exists k :: 0 <= k < |pats| && pats[k](line) == Some(x.issue)
  {
    var n := |pats| - 1;
    if x in SuspiciousIssues(file, lineNo, line, pats[..n]) {
      SuspiciousIssuesSound(file, lineNo, line, pats[..n], x);
      var k :| 0 <= k < n && pats[..n][k](line) == Some(x.issue);
      assert pats[..n][k] == pats[k];
    } else {
      assert pats[n](line) == Some(x.issue);
    }
  }

  /** Every suspicious pattern that matches the line yields its issue. */
  lemma {:induction false} SuspiciousIssuesComplete(file: string, lineNo: nat, line: string, pats: seq<Matcher>, k: nat)
    requires k < |pats| && pats[k](line).Some?
    ensures Issue(file, lineNo, Strip(line), pats[k](line).value, SuspiciousSuggestion, Suspicious)
      in SuspiciousIssues(file, lineNo, line, pats)
  {
    var n := |pats| - 1;
    var before := SuspiciousIssues(file, lineNo, line, pats[..n]);
    var x := Issue(file, lineNo, Strip(line), pats[k](line).value, SuspiciousSuggestion, Suspicious);
    if k < n {
      assert pats[..n][k] == pats[k];
      SuspiciousIssuesComplete(file, lineNo, line, pats[..n], k);
      assert x in before;
    } else {
      assert SuspiciousIssues(file, lineNo, line, pats) == before + [x];
    }
  }

  /** The issues of line number `lineNo`: none when it is skipped, else its typos and then its suspicious matches. */
  function LineIssues(file: string, lineNo: nat, line: string, typos: seq<TypoPattern>, suspicious: seq<Matcher>): seq<Issue> {
    if Skipped(line) then []
    else TypoIssues(file, lineNo, line, typos) + SuspiciousIssues(file, lineNo, line, suspicious)
  }

  /** The issues of a file's lines, numbered from 1, in line order. */
  function FileIssues(file: string, lines: seq<string>, typos: seq<TypoPattern>, suspicious: seq<Matcher>): seq<Issue> {
    if lines == [] then []
    else FileIssues(file, lines[..|lines| - 1], typos, suspicious)
         + LineIssues(file, |lines|, lines[|lines| - 1], typos, suspicious)
  }

  /** What `scan_file` returns: nothing for a path that does not exist, else the issues of the file's lines. */
  function ScanFileIssues(file: string, content: Option<string>, typos: seq<TypoPattern>, suspicious: seq<Matcher>): seq<Issue> {
    match content
    case None => []
    case Some(c) => FileIssues(file, Lines(c), typos, suspicious)
  }

  /** Every issue names the file and a line number between 1 and the number of lines. */
  lemma {:induction false} FileIssuesLines(file: string, lines: seq<string>, typos: seq<TypoPattern>, suspicious: seq<Matcher>)
    ensures forall x :: x in FileIssues(file, lines, typos, suspicious) ==> x.file == file && 1 <= x.line <= |lines|
  {
    if lines != [] {
      FileIssuesLines(file, lines[..|lines| - 1], typos, suspicious);
      LineIssuesOnLine(file, |lines|, lines[|lines| - 1], typos, suspicious);
    }
  }

  /** The issues of one line, in the order `scan_file` reports them. */
  function OnLine(rs: seq<Issue>, lineNo: nat): seq<Issue> {
    if rs == [] then []
    else (if rs[0].line == lineNo then [rs[0]] else []) + OnLine(rs[1..], lineNo)
  }

  lemma {:induction false} OnLineAppend(a: seq<Issue>, b: seq<Issue>, lineNo: nat)
    ensures OnLine(a + b, lineNo) == OnLine(a, lineNo) + OnLine(b, lineNo)
  {
    if a != [] {
      assert (a + b)[1..] == a[1..] + b;
      OnLineAppend(a[1..], b, lineNo);
      var head := if a[0].line == lineNo then [a[0]] else [];
      assert head + (OnLine(a[1..], lineNo) + OnLine(b, lineNo)) == (head + OnLine(a[1..], lineNo)) + OnLine(b, lineNo);
    } else {
      assert a + b == b;
    }
  }

  lemma {:induction false} OnLineAll(rs: seq<Issue>, lineNo: nat)
    requires forall x :: x in rs ==> x.line == lineNo
    ensures OnLine(rs, lineNo) == rs
  {
    if rs != [] {
      assert rs[0] in rs;
      assert forall x :: x in rs[1..] ==> x in rs;
      OnLineAll(rs[1..], lineNo);
    }
  }

  lemma {:induction false} OnLineNone(rs: seq<Issue>, lineNo: nat)
    requires forall x :: x in rs ==> x.line != lineNo
    ensures OnLine(rs, lineNo) == []
  {
    if rs != [] {
      assert rs[0] in rs;
      assert forall x :: x in rs[1..] ==> x in rs;
      OnLineNone(rs[1..], lineNo);
    }
  }

  lemma LineIssuesOnLine(file: string, lineNo: nat, line: string, typos: seq<TypoPattern>, suspicious: seq<Matcher>)
    ensures forall x :: x in LineIssues(file, lineNo, line, typos, suspicious) ==> x.line == lineNo
  {
  }

  /**
   * Picking the issues of line `k + 1` out of a file's results gives exactly
   * what that line produces on its own; in particular a skipped line has none.
   */
  lemma {:induction false} FileIssuesOfLine(file: string, lines: seq<string>, typos: seq<TypoPattern>, suspicious: seq<Matcher>, k: nat)
    requires k < |lines|
    ensures OnLine(FileIssues(file, lines, typos, suspicious), k + 1) == LineIssues(file, k + 1, lines[k], typos, suspicious)
  {
    var n := |lines|;
    var init := lines[..n - 1];
    var last := LineIssues(file, n, lines[n - 1], typos, suspicious);
    OnLineAppend(FileIssues(file, init, typos, suspicious), last, k + 1);
    LineIssuesOnLine(file, n, lines[n - 1], typos, suspicious);
    if k == n - 1 {
      FileIssuesLines(file, init, typos, suspicious);
      OnLineNone(FileIssues(file, init, typos, suspicious), k + 1);
      OnLineAll(last, k + 1);
    } else {
      FileIssuesOfLine(file, init, typos, suspicious, k);
      assert init[k] == lines[k];
      OnLineNone(last, k + 1);
    }
  }

  /** A skipped line contributes no issue to its file's results. */
  lemma SkippedLineSilent(file: string, lines: seq<string>, typos: seq<TypoPattern>, suspicious: seq<Matcher>, k: nat)
    requires k < |lines| && Skipped(lines[k])
    ensures forall x :: x in FileIssues(file, lines, typos, suspicious) ==> x.line != k + 1
  {
    var rs := FileIssues(file, lines, typos, suspicious);
    FileIssuesOfLine(file, lines, typos, suspicious, k);
    forall x | x in rs ensures x.line != k + 1 {
      if x.line == k + 1 {
        OnLineKeeps(rs, k + 1, x);
      }
    }
  }

  lemma {:induction false} OnLineKeeps(rs: seq<Issue>, lineNo: nat, x: Issue)
    requires x in rs && x.line == lineNo
    ensures x in OnLine(rs, lineNo)
  {
    if rs[0] != x {
      OnLineKeeps(rs[1..], lineNo, x);
    }
  }

  /**
   * The order of `scan_file`'s results: line numbers never decrease, and
   * within a line no typo issue follows a suspicious one.
   */
  predicate Ordered(rs: seq<Issue>) {
    forall i, j :: 0 <= i < j < |rs| ==>
      rs[i].line < rs[j].line || (rs[i].line == rs[j].line && (rs[i].kind == Suspicious ==> rs[j].kind == Suspicious))
  }

  lemma LineIssuesOrdered(file: string, lineNo: nat, line: string, typos: seq<TypoPattern>, suspicious: seq<Matcher>)
    ensures Ordered(LineIssues(file, lineNo, line, typos, suspicious))
  {
    if !Skipped(line) {
      var t := TypoIssues(file, lineNo, line, typos);
      var s := SuspiciousIssues(file, lineNo, line, suspicious);
      var rs := t + s;
      forall i, j | 0 <= i < j < |rs| ensures rs[i].line == rs[j].line && (rs[i].kind == Suspicious ==> rs[j].kind == Suspicious) {
        if j < |t| {
          assert rs[i] == t[i] && rs[j] == t[j];
          assert t[i] in t && t[j] in t;
        } else if i < |t| {
          assert rs[i] == t[i] && rs[j] == s[j - |t|];
          assert t[i] in t && s[j - |t|] in s;
        } else {
          assert rs[i] == s[i - |t|] && rs[j] == s[j - |t|];
          assert s[i - |t|] in s && s[j - |t|] in s;
        }
      }
    }
  }

  lemma {:induction false} FileIssuesOrdered(file: string, lines: seq<string>, typos: seq<TypoPattern>, suspicious: seq<Matcher>)
    ensures Ordered(FileIssues(file, lines, typos, suspicious))
  {
    if lines != [] {
      var n := |lines|;
      var a := FileIssues(file, lines[..n - 1], typos, suspicious);
      var b := LineIssues(file, n, lines[n - 1], typos, suspicious);
      FileIssuesOrdered(file, lines[..n - 1], typos, suspicious);
      FileIssuesLines(file, lines[..n - 1], typos, suspicious);
      LineIssuesOrdered(file, n, lines[n - 1], typos, suspicious);
      LineIssuesOnLine(file, n, lines[n - 1], typos, suspicious);
      var rs := a + b;
      forall i, j | 0 <= i < j < |rs|
        ensures rs[i].line < rs[j].line || (rs[i].line == rs[j].line && (rs[i].kind == Suspicious ==> rs[j].kind == Suspicious))
      {
        if j < |a| {
          assert rs[i] == a[i] && rs[j] == a[j];
        } else if i < |a| {
          assert rs[i] == a[i] && rs[j] == b[j - |a|];
          assert a[i] in a && b[j - |a|] in b;
        } else {
          assert rs[i] == b[i - |a|] && rs[j] == b[j - |a|];
        }
      }
    }
  }

  /** An entry `scan_directory` reads: a regular file whose path ends in `.md`. */
  predicate IsMarkdownFile(e: Entry) {
    e.node.RegularFile? && EndsWith(RelativePath(e.path), ".md")
  }

  /** The issues of the Markdown files among `entries`, file after file. */
  function DirectoryIssues(entries: seq<Entry>, typos: seq<TypoPattern>, suspicious: seq<Matcher>): seq<Issue> {
    if entries == [] then []
    else
      var e := entries[|entries| - 1];
      DirectoryIssues(entries[..|entries| - 1], typos, suspicious)
        + if IsMarkdownFile(e) then FileIssues(RelativePath(e.path), Lines(e.node.content), typos, suspicious) else []
  }

  /** The files `scan_directory` reads are exactly the Markdown files `Finder.withExtension("md")` would find. */
  lemma MarkdownIsExtension(e: Entry)
    ensures IsMarkdownFile(e) <==> IsMatch(e, "md")
  {
    MarkdownSuffixIsExtension(e.path);
  }

  /** Every issue of a directory scan comes from a regular file of the walk with extension `md`. */
  lemma {:induction false} DirectoryIssuesFiles(entries: seq<Entry>, typos: seq<TypoPattern>, suspicious: seq<Matcher>)
    ensures forall x :: x in DirectoryIssues(entries, typos, suspicious) ==>
      exists e :: e in entries && IsMatch(e, "md") && x.file == RelativePath(e.path)
  {
    if entries != [] {
      var n := |entries|;
      var e := entries[n - 1];
      var init := entries[..n - 1];
      DirectoryIssuesFiles(init, typos, suspicious);
      var prev := DirectoryIssues(init, typos, suspicious);
      var own: seq<Issue> := if IsMarkdownFile(e) then FileIssues(RelativePath(e.path), Lines(e.node.content), typos, suspicious) else [];
      assert DirectoryIssues(entries, typos, suspicious) == prev + own;
      forall x | x in prev + own
        ensures exists d :: d in entries && IsMatch(d, "md") && x.file == RelativePath(d.path)
      {
        if x in prev {
          var d :| d in init && IsMatch(d, "md") && x.file == RelativePath(d.path);
          assert d in entries;
        } else {
          MarkdownIsExtension(e);
          FileIssuesLines(RelativePath(e.path), Lines(e.node.content), typos, suspicious);
          assert e in entries;
        }
      }
    }
  }

  /** Every issue of a directory scan names a `.md` file and a line from 1 on. */
  lemma {:induction false} DirectoryIssuesMarkdown(entries: seq<Entry>, typos: seq<TypoPattern>, suspicious: seq<Matcher>)
    ensures forall x :: x in DirectoryIssues(entries, typos, suspicious) ==> EndsWith(x.file, ".md") && 1 <= x.line
  {
    if entries != [] {
      var n := |entries|;
      var e := entries[n - 1];
      DirectoryIssuesMarkdown(entries[..n - 1], typos, suspicious);
      if IsMarkdownFile(e) {
        FileIssuesLines(RelativePath(e.path), Lines(e.node.content), typos, suspicious);
      }
    }
  }

  /** What `scan_directory(dir)` returns for the directory `d` found at `dir`, walked top-down. */
  function ScanDirectoryIssues(dir: Path, d: Node, typos: seq<TypoPattern>, suspicious: seq<Matcher>): seq<Issue> {
    DirectoryIssues(Walk(dir, d), typos, suspicious)
  }

  /** The results of one `if Dir.exist?(name)` block of `run`. */
  function IssuesIfDirectory(cwd: Node, name: string, typos: seq<TypoPattern>, suspicious: seq<Matcher>): seq<Issue> {
    match Lookup(cwd, [name])
    case Some(d) => if d.Directory? then ScanDirectoryIssues([name], d, typos, suspicious) else []
    case None => []
  }

  /** What `run` returns: the three directories' results, one after the other. */
  function RunIssues(cwd: Node, typos: seq<TypoPattern>, suspicious: seq<Matcher>): seq<Issue> {
    IssuesIfDirectory(cwd, "content", typos, suspicious)
      + IssuesIfDirectory(cwd, "reusable", typos, suspicious)
      + IssuesIfDirectory(cwd, "shared-slides", typos, suspicious)
  }

  /** Everything one `if Dir.exist?(name)` block reports comes from a `.md` file, with a line number from 1 on. */
  lemma IssuesIfDirectoryFromMarkdown(cwd: Node, name: string, typos: seq<TypoPattern>, suspicious: seq<Matcher>)
    ensures forall x :: x in IssuesIfDirectory(cwd, name, typos, suspicious) ==> EndsWith(x.file, ".md") && 1 <= x.line
  {
    var d := Lookup(cwd, [name]);
    if d.Some? && d.value.Directory? {
      DirectoryIssuesMarkdown(Walk([name], d.value), typos, suspicious);
    }
  }

  /** Everything `run` reports comes from a `.md` file, with a line number from 1 on. */
  lemma RunIssuesFromMarkdown(cwd: Node, typos: seq<TypoPattern>, suspicious: seq<Matcher>)
    ensures forall x :: x in RunIssues(cwd, typos, suspicious) ==> EndsWith(x.file, ".md") && 1 <= x.line
  {
    IssuesIfDirectoryFromMarkdown(cwd, "content", typos, suspicious);
    IssuesIfDirectoryFromMarkdown(cwd, "reusable", typos, suspicious);
    IssuesIfDirectoryFromMarkdown(cwd, "shared-slides", typos, suspicious);
  }

  /** `TypoChecker`: the two pattern tables and the scanning operations. */
  class TypoChecker {
    const typoPatterns: seq<TypoPattern>
    const suspiciousPatterns: seq<Matcher>

    /** `initialize`, with the regular expressions given as matchers in the tables' order. */
    constructor (typoMatchers: seq<Matcher>, suspiciousMatchers: seq<Matcher>)
      requires |typoMatchers| == |TypoCorrections| && |suspiciousMatchers| == SuspiciousPatternCount
      ensures |typoPatterns| == |TypoCorrections|
      ensures forall k :: 0 <= k < |typoPatterns| ==>
        typoPatterns[k].matcher == typoMatchers[k] && typoPatterns[k].correction == TypoCorrections[k]
      ensures suspiciousPatterns == suspiciousMatchers
    {
      typoPatterns := seq(|typoMatchers|, k requires 0 <= k < |typoMatchers| => TypoPattern(typoMatchers[k], TypoCorrections[k]));
      suspiciousPatterns := suspiciousMatchers;
    }

    /** The `@typo_patterns.each` loop of `scan_file` for one line that is not skipped. */
    method MatchTypos(filePath: string, lineNo: nat, line: string) returns (found: seq<Issue>)
      ensures found == TypoIssues(filePath, lineNo, line, typoPatterns)
    {
      var stripped := Strip(line);
      found := [];
      var j := 0;
      while j < |typoPatterns|
        invariant 0 <= j <= |typoPatterns|
        invariant found == TypoIssues(filePath, lineNo, line, typoPatterns[..j])
      {
        var pattern := typoPatterns[j];
        match pattern.matcher(line) {
          case Some(m) =>
            found := found + [Issue(filePath, lineNo, stripped, m, pattern.correction, Typo)];
          case None =>
        }
        assert typoPatterns[..j + 1][..j] == typoPatterns[..j];
        j := j + 1;
      }
      assert typoPatterns[..j] == typoPatterns;
    }

    /** The `@suspicious_patterns.each` loop of `scan_file` for one line that is not skipped. */
    method MatchSuspicious(filePath: string, lineNo: nat, line: string) returns (found: seq<Issue>)
      ensures found == SuspiciousIssues(filePath, lineNo, line, suspiciousPatterns)
    {
      var stripped := Strip(line);
      found := [];
      var j := 0;
      while j < |suspiciousPatterns|
        invariant 0 <= j <= |suspiciousPatterns|
        invariant found == SuspiciousIssues(filePath, lineNo, line, suspiciousPatterns[..j])
      {
        match suspiciousPatterns[j](line) {
          case Some(m) =>
            found := found + [Issue(filePath, lineNo, stripped, m, SuspiciousSuggestion, Suspicious)];
          case None =>
        }
        assert suspiciousPatterns[..j + 1][..j] == suspiciousPatterns[..j];
        j := j + 1;
      }
      assert suspiciousPatterns[..j] == suspiciousPatterns;
    }

    /** `scan_file(file_path)`, given the file's content when it exists. */
    method ScanFile(filePath: string, content: Option<string>) returns (results: seq<Issue>)
      ensures results == ScanFileIssues(filePath, content, typoPatterns, suspiciousPatterns)
    {
      if content.None? {
        return [];
      }
      var lines := Lines(content.value);
      results := [];
      var lineNum := 0;
      while lineNum < |lines|
        invariant 0 <= lineNum <= |lines|
        invariant results == FileIssues(filePath, lines[..lineNum], typoPatterns, suspiciousPatterns)
      {
        var line := lines[lineNum];
        if !Skipped(line) {
          var typos := MatchTypos(filePath, lineNum + 1, line);
          var suspicious := MatchSuspicious(filePath, lineNum + 1, line);
          results := results + (typos + suspicious);
        }
        assert lines[..lineNum + 1][..lineNum] == lines[..lineNum];
        lineNum := lineNum + 1;
      }
      assert lines[..lineNum] == lines;
    }

    /** `scan_directory(dir)` over the directory `d` at `dir`: the Markdown files of the walk, concatenated. */
    method ScanDirectory(dir: Path, d: Node) returns (results: seq<Issue>)
      ensures results == ScanDirectoryIssues(dir, d, typoPatterns, suspiciousPatterns)
    {
      var paths := Walk(dir, d);
      results := [];
      var i := 0;
      while i < |paths|
        invariant 0 <= i <= |paths|
        invariant results == DirectoryIssues(paths[..i], typoPatterns, suspiciousPatterns)
      {
        var e := paths[i];
        if e.node.RegularFile? && EndsWith(RelativePath(e.path), ".md") {
          var found := ScanFile(RelativePath(e.path), Some(e.node.content));
          results := results + found;
        }
        assert paths[..i + 1][..i] == paths[..i];
        i := i + 1;
      }
      assert paths[..i] == paths;
    }

    /** One `if Dir.exist?(name)` block of `run`. */
    method ScanIfDirectory(cwd: Node, name: string) returns (results: seq<Issue>)
      ensures results == IssuesIfDirectory(cwd, name, typoPatterns, suspiciousPatterns)
    {
      results := [];
      var found := Lookup(cwd, [name]);
      if found.Some? && found.value.Directory? {
        results := ScanDirectory([name], found.value);
      }
    }

    /** `run`: `content`, `reusable` and `shared-slides`, in that order; the report is printed, not returned. */
    method Run(cwd: Node) returns (allResults: seq<Issue>)
      ensures allResults == RunIssues(cwd, typoPatterns, suspiciousPatterns)
    {
      allResults := [];
      var content := ScanIfDirectory(cwd, "content");
      allResults := allResults + content;
      assert allResults == content;
      var reusable := ScanIfDirectory(cwd, "reusable");
      allResults := allResults + reusable;
      var shared := ScanIfDirectory(cwd, "shared-slides");
      allResults := allResults + shared;
    }
  }
}
