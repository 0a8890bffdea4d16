/**
 * The typo fixer: a fixed table of replacements, each aimed at one file,
 * applied with Ruby's `String#gsub!` on a string pattern, and a count of the
 * files that changed. Ruby still scans a String replacement for backslash
 * escapes, so `Gsub` expands them; `ReplaceAll` is the plain literal
 * replacement that `Gsub` reduces to when the replacement holds no
 * backslash. The file system is a `Disk` object holding the contents of the
 * regular files by path.
 */
module FixTypos {
  import opened Wrappers
  import opened Seqs

  /**
   * Literal replacement: every occurrence of `pat`, found left to right
   * without overlapping, is replaced by `rep` as it stands; the empty pattern
   * matches at every position, before each character and at the end. This is
   * `s.gsub(pat, rep)` for a replacement without backslashes (`GsubLiteral`).
   */
  function ReplaceAll(s: string, pat: string, rep: string): string
    decreases |s|
  {
    if pat == "" then InsertEverywhere(s, rep)
    else if StartsWith(s, pat) then rep + ReplaceAll(s[|pat|..], pat, rep)
    else if s == "" then ""
    else [s[0]] + ReplaceAll(s[1..], pat, rep)
  }

  /** The empty pattern's replacement: `rep` before every character and after the last. */
  function InsertEverywhere(s: string, rep: string): (r: string)
    ensures |r| >= |s| + |rep|
  {
    if s == "" then rep else rep + [s[0]] + InsertEverywhere(s[1..], rep)
  }

  /** `pat` occurs somewhere in `s` (`s.include?(pat)`); the empty pattern occurs everywhere. */
  predicate Occurs(pat: string, s: string)
    decreases |s|
  {
    StartsWith(s, pat) || (s != "" && Occurs(pat, s[1..]))
  }

  lemma {:induction false} NoOccurrenceUnchanged(s: string, pat: string, rep: string)
    requires !Occurs(pat, s)
    ensures ReplaceAll(s, pat, rep) == s
    decreases |s|
  {
    if s != "" {
      NoOccurrenceUnchanged(s[1..], pat, rep);
      assert [s[0]] + s[1..] == s;
    }
  }

  lemma {:induction false} SelfReplacementUnchanged(s: string, pat: string)
    requires pat != ""
    ensures ReplaceAll(s, pat, pat) == s
    decreases |s|
  {
    if StartsWith(s, pat) {
      SelfReplacementUnchanged(s[|pat|..], pat);
      assert pat + s[|pat|..] == s;
    } else if s != "" {
      SelfReplacementUnchanged(s[1..], pat);
      assert [s[0]] + s[1..] == s;
    }
  }

  /** A replacement at least as long as the pattern never shortens the text. */
  lemma {:induction false} ReplaceAllGrows(s: string, pat: string, rep: string)
    requires pat != "" && |rep| >= |pat|
    ensures |ReplaceAll(s, pat, rep)| >= |s|
    decreases |s|
  {
    if StartsWith(s, pat) {
      ReplaceAllGrows(s[|pat|..], pat, rep);
    } else if s != "" {
      ReplaceAllGrows(s[1..], pat, rep);
    }
  }

  /** A replacement at most as long as the pattern never lengthens the text. */
  lemma {:induction false} ReplaceAllShrinks(s: string, pat: string, rep: string)
    requires pat != "" && |rep| <= |pat|
    ensures |ReplaceAll(s, pat, rep)| <= |s|
    decreases |s|
  {
    if StartsWith(s, pat) {
      ReplaceAllShrinks(s[|pat|..], pat, rep);
    } else if s != "" {
      ReplaceAllShrinks(s[1..], pat, rep);
    }
  }

  lemma {:induction false} OccurrenceChanges(s: string, pat: string, rep: string)
    requires pat != "" && pat != rep && Occurs(pat, s)
    ensures ReplaceAll(s, pat, rep) != s
    decreases |s|
  {
    var r := ReplaceAll(s, pat, rep);
    if StartsWith(s, pat) {
      var rest := s[|pat|..];
      assert r == rep + ReplaceAll(rest, pat, rep);
      assert s == pat + rest;
      if |rep| > |pat| {
        ReplaceAllGrows(rest, pat, rep);
        assert |r| > |s|;
      } else if |rep| < |pat| {
        ReplaceAllShrinks(rest, pat, rep);
        assert |r| < |s|;
      } else {
        assert r[..|rep|] == rep;
        assert s[..|pat|] == pat;
      }
    } else {
      assert Occurs(pat, s[1..]);
      OccurrenceChanges(s[1..], pat, rep);
      assert r == [s[0]] + ReplaceAll(s[1..], pat, rep);
      assert r[1..] == ReplaceAll(s[1..], pat, rep);
    }
  }

  /** Literal replacement leaves the text as it was exactly when the pattern does not occur or is replaced by itself. */
  lemma ReplaceAllUnchangedIff(s: string, pat: string, rep: string)
    ensures ReplaceAll(s, pat, rep) == s <==> !Occurs(pat, s) || pat == rep
  {
    if pat == "" {
      assert Occurs(pat, s);
      if rep != "" {
        assert |ReplaceAll(s, pat, rep)| > |s|;
      } else {
        EmptyInsertion(s);
      }
    } else if !Occurs(pat, s) {
      NoOccurrenceUnchanged(s, pat, rep);
    } else if pat == rep {
      SelfReplacementUnchanged(s, pat);
    } else {
      OccurrenceChanges(s, pat, rep);
    }
  }

  lemma {:induction false} EmptyInsertion(s: string)
    ensures InsertEverywhere(s, "") == s
  {
    if s != "" {
      EmptyInsertion(s[1..]);
      assert [s[0]] + s[1..] == s;
    }
  }


  // ----- Ruby's gsub with a String replacement -----

  /** `a` in front of the text `r`, or None when `r` raised. */
  function Prepend(a: string, r: Option<string>): Option<string> {
    match r
    case None => None
    case Some(t) => Some(a + t)
  }

  /** The two texts one after the other, or None when either raised. */
  function Cat(a: Option<string>, b: Option<string>): Option<string> {
    match a
    case None => None
    case Some(x) => Prepend(x, b)
  }

  /**
   * Ruby's expansion of a String replacement for one match when the pattern
   * is a String (`rb_reg_regsub` without a regexp): `\0` and `\&` give the
   * match, `` \` `` the text before it, `\'` the text after it, `\\` one
   * backslash; `\1` to `\9` give nothing, as there are no groups; `\k<`
   * raises, a named group being undefined; any other backslash pair, and a
   * final lone backslash, stay as they are. None when Ruby raises.
   */
  function Expand(rep: string, matched: string, pre: string, post: string): Option<string>
    decreases |rep|
  {
    if rep == "" then Some("")
    else if rep[0] != '\\' || |rep| == 1 then Prepend([rep[0]], Expand(rep[1..], matched, pre, post))
    else
      var c := rep[1];
      var rest := Expand(rep[2..], matched, pre, post);
      if c == '0' || c == '&' then Prepend(matched, rest)
      else if c == '`' then Prepend(pre, rest)
      else if c == '\'' then Prepend(post, rest)
      else if c == '\\' then Prepend("\\", rest)
      else if '1' <= c <= '9' then rest
      else if c == 'k' && |rep| > 2 && rep[2] == '<' then None
      else Prepend(rep[..2], rest)
  }

  /**
   * `s.gsub(pat, rep)` from position `i` on: each occurrence of `pat`, found
   * left to right without overlapping, becomes the expansion of `rep` for
   * that match, with the text before and after it in the whole of `s`; the
   * empty pattern matches at every position and the scan then copies one
   * character.
   */
  function GsubFrom(s: string, i: nat, pat: string, rep: string): Option<string>
    requires i <= |s|
    decreases |s| - i
  {
    if pat == "" then
      Cat(Expand(rep, "", s[..i], s[i..]), if i == |s| then Some("") else Prepend([s[i]], GsubFrom(s, i + 1, pat, rep)))
    else if StartsWith(s[i..], pat) then
      Cat(Expand(rep, pat, s[..i], s[i + |pat|..]), GsubFrom(s, i + |pat|, pat, rep))
    else if i == |s| then Some("")
    else Prepend([s[i]], GsubFrom(s, i + 1, pat, rep))
  }

  /** `s.gsub(pat, rep)` for a String pattern and a String replacement; None when Ruby raises. */
  function Gsub(s: string, pat: string, rep: string): Option<string> {
    GsubFrom(s, 0, pat, rep)
  }

  /** A replacement without backslashes is used as it stands. */
  lemma {:induction false} ExpandLiteral(rep: string, matched: string, pre: string, post: string)
    requires '\\' !in rep
    ensures Expand(rep, matched, pre, post) == Some(rep)
    decreases |rep|
  {
    if rep != "" {
      assert '\\' !in rep[1..];
      ExpandLiteral(rep[1..], matched, pre, post);
      assert [rep[0]] + rep[1..] == rep;
    }
  }

  /** A named-group reference makes Ruby raise, whatever follows it. */
  lemma ExpandNamedReference(t: string, matched: string, pre: string, post: string)
    ensures Expand("\\k<" + t, matched, pre, post) == None
  {
    var rep := "\\k<" + t;
    assert rep[0] == '\\' && rep[1] == 'k' && rep[2] == '<';
  }

  lemma {:induction false} GsubFromInsertLiteral(s: string, i: nat, rep: string)
    requires i <= |s| && '\\' !in rep
    ensures GsubFrom(s, i, "", rep) == Some(InsertEverywhere(s[i..], rep))
    decreases |s| - i
  {
    ExpandLiteral(rep, "", s[..i], s[i..]);
    if i == |s| {
      assert s[i..] == "";
      assert rep + "" == rep;
    } else {
      GsubFromInsertLiteral(s, i + 1, rep);
      var t := s[i..];
      assert t[1..] == s[i + 1..] && t[0] == s[i];
      assert rep + [s[i]] + InsertEverywhere(t[1..], rep) == rep + ([s[i]] + InsertEverywhere(t[1..], rep));
    }
  }

  /** One step of the scan at an occurrence. */
  lemma GsubFromMatchStep(s: string, i: nat, pat: string, rep: string)
    requires i <= |s| && pat != "" && StartsWith(s[i..], pat)
    ensures i + |pat| <= |s|
    ensures GsubFrom(s, i, pat, rep) == Cat(Expand(rep, pat, s[..i], s[i + |pat|..]), GsubFrom(s, i + |pat|, pat, rep))
  {
  }

  /** One step of the scan where no occurrence starts. */
  lemma GsubFromSkipStep(s: string, i: nat, pat: string, rep: string)
    requires i < |s| && pat != "" && !StartsWith(s[i..], pat)
    ensures GsubFrom(s, i, pat, rep) == Prepend([s[i]], GsubFrom(s, i + 1, pat, rep))
  {
  }

  lemma {:induction false} GsubFromLiteral(s: string, i: nat, pat: string, rep: string)
    requires i <= |s| && pat != "" && '\\' !in rep
    ensures GsubFrom(s, i, pat, rep) == Some(ReplaceAll(s[i..], pat, rep))
    decreases |s| - i
  {
    var t := s[i..];
    if StartsWith(t, pat) {
      GsubFromMatchStep(s, i, pat, rep);
      ExpandLiteral(rep, pat, s[..i], s[i + |pat|..]);
      GsubFromLiteral(s, i + |pat|, pat, rep);
      assert t[|pat|..] == s[i + |pat|..];
    } else if i < |s| {
      GsubFromSkipStep(s, i, pat, rep);
      GsubFromLiteral(s, i + 1, pat, rep);
      assert t[1..] == s[i + 1..] && t[0] == s[i];
    } else {
      assert t == "";
    }
  }

  /** Without a backslash in the replacement, `gsub` is literal replacement and never raises. */
  lemma GsubLiteral(s: string, pat: string, rep: string)
    requires '\\' !in rep
    ensures Gsub(s, pat, rep) == Some(ReplaceAll(s, pat, rep))
  {
    assert s[0..] == s;
    if pat == "" {
      GsubFromInsertLiteral(s, 0, rep);
    } else {
      GsubFromLiteral(s, 0, pat, rep);
    }
  }

  /** With a replacement without backslashes, `gsub` leaves the text as it was exactly when the pattern does not occur or is replaced by itself. */
  lemma GsubUnchangedIff(s: string, pat: string, rep: string)
    requires '\\' !in rep
    ensures Gsub(s, pat, rep) == Some(s) <==> !Occurs(pat, s) || pat == rep
  {
    GsubLiteral(s, pat, rep);
    ReplaceAllUnchangedIff(s, pat, rep);
  }

  lemma {:induction false} GsubFromNoOccurrence(s: string, i: nat, pat: string, rep: string)
    requires i <= |s| && !Occurs(pat, s[i..])
    ensures GsubFrom(s, i, pat, rep) == Some(s[i..])
    decreases |s| - i
  {
    if i < |s| {
      assert s[i..][1..] == s[i + 1..];
      GsubFromNoOccurrence(s, i + 1, pat, rep);
      assert [s[i]] + s[i + 1..] == s[i..];
    }
  }

  /** Where the pattern does not occur, `gsub` changes nothing, whatever the replacement. */
  lemma GsubNoOccurrence(s: string, pat: string, rep: string)
    requires !Occurs(pat, s)
    ensures Gsub(s, pat, rep) == Some(s)
  {
    assert s[0..] == s;
    GsubFromNoOccurrence(s, 0, pat, rep);
  }

  /** `\0` and `\&` expand to the match. */
  lemma ExpandWholeMatch(rep: string, matched: string, pre: string, post: string)
    requires rep == "\\0" || rep == "\\&"
    ensures Expand(rep, matched, pre, post) == Some(matched)
  {
    assert rep[0] == '\\' && |rep| == 2 && rep[2..] == "";
    assert Expand(rep[2..], matched, pre, post) == Some("");
    assert matched + "" == matched;
  }

  lemma {:induction false} GsubFromWholeMatch(s: string, i: nat, pat: string, rep: string)
    requires i <= |s| && (rep == "\\0" || rep == "\\&")
    ensures GsubFrom(s, i, pat, rep) == Some(s[i..])
    decreases |s| - i
  {
    if pat == "" {
      ExpandWholeMatch(rep, "", s[..i], s[i..]);
      if i < |s| {
        GsubFromWholeMatch(s, i + 1, pat, rep);
        assert [s[i]] + s[i + 1..] == s[i..];
        assert "" + ([s[i]] + s[i + 1..]) == s[i..];
      } else {
        assert s[i..] == "" + "";
      }
    } else if StartsWith(s[i..], pat) {
      ExpandWholeMatch(rep, pat, s[..i], s[i + |pat|..]);
      GsubFromWholeMatch(s, i + |pat|, pat, rep);
      assert pat + s[i + |pat|..] == s[i..];
    } else if i < |s| {
      GsubFromWholeMatch(s, i + 1, pat, rep);
      assert [s[i]] + s[i + 1..] == s[i..];
    }
  }

  /** Replacing every match by the match itself (`\0` or `\&`) changes nothing, though the pattern occurs. */
  lemma GsubWholeMatch(s: string, pat: string, rep: string)
    requires rep == "\\0" || rep == "\\&"
    ensures Gsub(s, pat, rep) == Some(s)
  {
    assert s[0..] == s;
    GsubFromWholeMatch(s, 0, pat, rep);
  }

  /** No occurrence of `pat` starts at a position from `i` up to `k`. */
  predicate NoMatchBetween(s: string, pat: string, i: nat, k: nat)
    requires i <= k <= |s|
  {
    forall j :: i <= j < k ==> !StartsWith(s[j..], pat)
  }

  lemma PrependPrepend(a: string, b: string, r: Option<string>)
    ensures Prepend(a, Prepend(b, r)) == Prepend(a + b, r)
  {
    if r.Some? {
      assert a + (b + r.value) == (a + b) + r.value;
    }
  }

  /** Up to the next occurrence, `gsub` copies the text unchanged. */
  lemma {:induction false} GsubFromCopies(s: string, i: nat, k: nat, pat: string, rep: string)
    requires pat != "" && i <= k <= |s| && NoMatchBetween(s, pat, i, k)
    ensures GsubFrom(s, i, pat, rep) == Prepend(s[i..k], GsubFrom(s, k, pat, rep))
    decreases k - i
  {
    if i == k {
      assert s[i..k] == "";
      if GsubFrom(s, k, pat, rep).Some? {
        assert "" + GsubFrom(s, k, pat, rep).value == GsubFrom(s, k, pat, rep).value;
      }
    } else {
      assert !StartsWith(s[i..], pat);
      GsubFromCopies(s, i + 1, k, pat, rep);
      PrependPrepend([s[i]], s[i + 1..k], GsubFrom(s, k, pat, rep));
      assert [s[i]] + s[i + 1..k] == s[i..k];
    }
  }

  /**
   * The leftmost occurrence is the one replaced: when the first occurrence
   * of `pat` in `s` starts at `k`, the text before it is copied, the
   * occurrence becomes the expansion of `rep` for that match, with the text
   * before and after it, and the scan resumes right after the occurrence.
   */
  lemma GsubLeftmost(s: string, pat: string, rep: string, k: nat)
    requires pat != "" && k <= |s|
    requires StartsWith(s[k..], pat) && NoMatchBetween(s, pat, 0, k)
    ensures k + |pat| <= |s|
    ensures Gsub(s, pat, rep) ==
      Prepend(s[..k], Cat(Expand(rep, pat, s[..k], s[k + |pat|..]), GsubFrom(s, k + |pat|, pat, rep)))
  {
    GsubFromCopies(s, 0, k, pat, rep);
    assert s[0..k] == s[..k];
  }

  /** One entry of the fix table: the file, the line it was found on, and the literal replacement. */
  datatype Fix = Fix(file: string, line: nat, oldText: string, newText: string)

  /** The table in `TypoFixer#initialize`. */
  const DefaultFixes: seq<Fix> := [
    Fix("content/07-ci/_index.md", 98, "This si different", "This is different"),
    Fix("content/09-containerization/_index.md", 1100, "docker docker:dind", "docker:dind"),
    Fix("content/12-multiplatform/_index.md", 2094, "and the the lack", "and the lack"),
    Fix("content/extra/pps-ci-introduction/_index.md", 1206, "This si different", "This is different"),
    Fix("shared-slides/ci/intro.md", 54, "This si different", "This is different")
  ]

  /** The contents of a file system's regular files, by path. */
  class Disk {
    var files: map<string, string>

    constructor (files: map<string, string>)
      ensures this.files == files
    {
      this.files := files;
    }
  }

  /** Every replacement in the table is free of backslashes and differs from its pattern. */
  lemma DefaultFixesLiteral()
    ensures forall k :: 0 <= k < |DefaultFixes| ==>
      '\\' !in DefaultFixes[k].newText && DefaultFixes[k].oldText != DefaultFixes[k].newText
  {
    var pairs := {("This si different", "This is different"), ("docker docker:dind", "docker:dind"), ("and the the lack", "and the lack")};
    assert forall k :: 0 <= k < |DefaultFixes| ==> (DefaultFixes[k].oldText, DefaultFixes[k].newText) in pairs;
    assert '\\' !in "This is different" && '\\' !in "docker:dind" && '\\' !in "and the lack";
    assert "This si different" != "This is different";
    assert "docker docker:dind" != "docker:dind" && "and the the lack" != "and the lack";
  }

  /** What one `fix_file` leaves: the files and whether it reported a fix, or an exception from `gsub!`. */
  datatype Outcome = Done(files: map<string, string>, fixed: bool) | Raised

  /**
   * `fix_file`: a missing file is reported as not fixed; otherwise `gsub!`
   * either raises or gives the new content, and the file is rewritten, and a
   * fix reported, exactly when that content differs from the old.
   */
  function ApplyFix(files: map<string, string>, path: string, oldText: string, newText: string): (r: Outcome)
    ensures r.Raised? <==> path in files && Gsub(files[path], oldText, newText).None?
    ensures r.Done? ==> r.files.Keys == files.Keys
    ensures r.Done? ==> forall q :: q in files && q != path ==> r.files[q] == files[q]
    ensures r.Done? && path in files ==> r.files[path] == Gsub(files[path], oldText, newText).value
    ensures r.Done? ==> (r.fixed <==> path in files && r.files[path] != files[path])
    ensures r.Done? && !r.fixed ==> r.files == files
  {
    if path !in files then Done(files, false)
    else match Gsub(files[path], oldText, newText)
      case None => Raised
      case Some(content) =>
        if content != files[path] then Done(files[path := content], true)
        else Done(files, false)
  }

  /**
   * With a replacement free of backslashes, `fix_file` never raises, and it
   * reports a fix exactly when the file exists, the old text occurs in it
   * and differs from the new.
   */
  lemma ApplyFixLiteral(files: map<string, string>, path: string, oldText: string, newText: string)
    requires '\\' !in newText
    ensures ApplyFix(files, path, oldText, newText).Done?
    ensures ApplyFix(files, path, oldText, newText).fixed <==> path in files && Occurs(oldText, files[path]) && oldText != newText
  {
    if path in files {
      GsubLiteral(files[path], oldText, newText);
      GsubUnchangedIff(files[path], oldText, newText);
    }
  }

  /** A fix whose replacement is `\0` finds its text and still reports nothing, because the match is put back. */
  lemma WholeMatchNotFixed(files: map<string, string>, path: string, oldText: string)
    ensures ApplyFix(files, path, oldText, "\\0") == Done(files, false)
  {
    if path in files {
      GsubWholeMatch(files[path], oldText, "\\0");
    }
  }

  /** Progress of `run`: the files so far and `fixed_count`, or the files as an exception left them. */
  datatype Progress = Progress(files: map<string, string>, fixedCount: nat) | Aborted(files: map<string, string>)

  /** The fixes applied in table order, counting the ones reported as fixed; an exception ends the run. */
  function ApplyFixes(files: map<string, string>, fixes: seq<Fix>): (r: Progress)
    ensures r.files.Keys == files.Keys
    ensures r.Progress? ==> r.fixedCount <= |fixes|
  {
    if fixes == [] then Progress(files, 0)
    else
      var before := ApplyFixes(files, fixes[..|fixes| - 1]);
      var fix := fixes[|fixes| - 1];
      if before.Aborted? then before
      else match ApplyFix(before.files, fix.file, fix.oldText, fix.newText)
        case Raised => Aborted(before.files)
        case Done(after, fixed) => Progress(after, before.fixedCount + if fixed then 1 else 0)
  }

  /** One fix more, after a run that has not raised, is one more `fix_file` on the files it left. */
  lemma ApplyFixesStep(files: map<string, string>, fixes: seq<Fix>, i: nat)
    requires i < |fixes| && ApplyFixes(files, fixes[..i]).Progress?
    ensures var before := ApplyFixes(files, fixes[..i]);
      ApplyFixes(files, fixes[..i + 1]) ==
        match ApplyFix(before.files, fixes[i].file, fixes[i].oldText, fixes[i].newText)
        case Raised => Aborted(before.files)
        case Done(after, fixed) => Progress(after, before.fixedCount + if fixed then 1 else 0)
  {
    assert fixes[..i + 1][..i] == fixes[..i];
  }

  /** Once an exception has ended the run, the remaining fixes change nothing. */
  lemma {:induction false} AbortedStays(files: map<string, string>, fixes: seq<Fix>, k: nat)
    requires k <= |fixes| && ApplyFixes(files, fixes[..k]).Aborted?
    ensures ApplyFixes(files, fixes) == ApplyFixes(files, fixes[..k])
    decreases |fixes| - k
  {
    if k < |fixes| {
      var n := |fixes| - 1;
      assert fixes[..n][..k] == fixes[..k];
      AbortedStays(files, fixes[..n], k);
    } else {
      assert fixes[..k] == fixes;
    }
  }

  /** A table whose replacements are free of backslashes runs to the end. */
  lemma {:induction false} LiteralFixesComplete(files: map<string, string>, fixes: seq<Fix>)
    requires forall k :: 0 <= k < |fixes| ==> '\\' !in fixes[k].newText
    ensures ApplyFixes(files, fixes).Progress?
  {
    if fixes != [] {
      var n := |fixes| - 1;
      LiteralFixesComplete(files, fixes[..n]);
      var before := ApplyFixes(files, fixes[..n]);
      ApplyFixLiteral(before.files, fixes[n].file, fixes[n].oldText, fixes[n].newText);
    }
  }

  /** With the table of `TypoFixer#initialize`, `run` never raises, whatever the files hold. */
  lemma DefaultRunCompletes(files: map<string, string>)
    ensures ApplyFixes(files, DefaultFixes).Progress?
  {
    DefaultFixesLiteral();
    LiteralFixesComplete(files, DefaultFixes);
  }

  /** A file that no fix names keeps its content. */
  lemma {:induction false} ApplyFixesUntouched(files: map<string, string>, fixes: seq<Fix>, q: string)
    requires q in files
    requires forall k :: 0 <= k < |fixes| ==> fixes[k].file != q
    ensures q in ApplyFixes(files, fixes).files && ApplyFixes(files, fixes).files[q] == files[q]
  {
    if fixes != [] {
      ApplyFixesUntouched(files, fixes[..|fixes| - 1], q);
    }
  }

  /**
   * A table whose fixes all miss the disk, or all replace a text by itself
   * without backslashes, fixes nothing.
   */
  lemma {:induction false} ApplyFixesNothingToDo(files: map<string, string>, fixes: seq<Fix>)
    requires forall k :: 0 <= k < |fixes| ==>
      fixes[k].file !in files || (fixes[k].oldText == fixes[k].newText && '\\' !in fixes[k].newText)
    ensures ApplyFixes(files, fixes) == Progress(files, 0)
  {
    if fixes != [] {
      var n := |fixes| - 1;
      ApplyFixesNothingToDo(files, fixes[..n]);
      if fixes[n].file in files {
        ApplyFixLiteral(files, fixes[n].file, fixes[n].oldText, fixes[n].newText);
      }
    }
  }

  /** `TypoFixer`: the fix table and the two operations on it. */
  class TypoFixer {
    const fixes: seq<Fix>

    constructor ()
      ensures fixes == DefaultFixes
    {
      fixes := DefaultFixes;
    }

    /** `fix_file(file_path, old_text, new_text)` against `disk`; `raised` when `gsub!` raises. */
    method FixFile(disk: Disk, path: string, oldText: string, newText: string) returns (fixed: bool, raised: bool)
      modifies disk
      ensures ApplyFix(old(disk.files), path, oldText, newText) == if raised then Raised else Done(disk.files, fixed)
      ensures raised ==> disk.files == old(disk.files)
    {
      if path !in disk.files {
        return false, false;
      }
      var content := disk.files[path];
      var originalContent := content;
      var replaced := Gsub(content, oldText, newText);
      if replaced.None? {
        return false, true;
      }
      content := replaced.value;
      raised := false;
      if content != originalContent {
        disk.files := disk.files[path := content];
        fixed := true;
      } else {
        fixed := false;
      }
    }

    /**
     * `run(dry_run:)`: in a dry run nothing is applied and the count stays 0;
     * otherwise every fix is applied in table order and the count is the
     * number of `fix_file` calls that reported a fix, unless an exception
     * ends the run, leaving the files written so far.
     */
    method Run(disk: Disk, dryRun: bool) returns (fixedCount: nat, raised: bool)
      modifies disk
      ensures dryRun ==> disk.files == old(disk.files) && fixedCount == 0 && !raised
      ensures !dryRun ==>
        ApplyFixes(old(disk.files), fixes) == if raised then Aborted(disk.files) else Progress(disk.files, fixedCount)
    {
      fixedCount, raised := 0, false;
      if dryRun {
        // a dry run only prints what each fix would do
        return;
      }
      var i := 0;
      while i < |fixes| && !raised
        invariant 0 <= i <= |fixes|
        invariant ApplyFixes(old(disk.files), fixes[..i]) == if raised then Aborted(disk.files) else Progress(disk.files, fixedCount)
      {
        var fix := fixes[i];
        ApplyFixesStep(old(disk.files), fixes, i);
        var fixed;
        fixed, raised := FixFile(disk, fix.file, fix.oldText, fix.newText);
        if fixed {
          fixedCount := fixedCount + 1;
        }
        i := i + 1;
      }
      if raised {
        AbortedStays(old(disk.files), fixes, i);
      } else {
        assert fixes[..i] == fixes;
      }
    }
  }

  /** What the command line asks for. */
  datatype Command = ShowHelp | FixAll(dryRun: bool)

  /** The argument handling at the bottom of the script. */
  function ParseCommandLine(argv: seq<string>): (c: Command)
    ensures c.ShowHelp? <==> "--help" in argv || "-h" in argv
    ensures c.FixAll? ==> (c.dryRun <==> "--dry-run" in argv || "-n" in argv)
  {
    var dryRun := "--dry-run" in argv || "-n" in argv;
    if "--help" in argv || "-h" in argv then ShowHelp else FixAll(dryRun)
  }

  /** Arguments other than the four flags are ignored, wherever they stand. */
  lemma ParseCommandLineIgnoresOthers(before: seq<string>, other: string, after: seq<string>)
    requires other != "--help" && other != "-h" && other != "--dry-run" && other != "-n"
    ensures ParseCommandLine(before + [other] + after) == ParseCommandLine(before + after)
  {
    assert forall a :: a in before + [other] + after && a != other ==> a in before + after;
    assert forall a :: a in before + after ==> a in before + [other] + after;
  }
}
