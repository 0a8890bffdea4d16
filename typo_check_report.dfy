/**
 * The report the typo checker prints: the results grouped by file, in order
 * of each file's first result, every result with its truncated context, and
 * a summary that counts files, definite typos, suspicious matches and all
 * issues. The text and the emoji are not modelled; what is modelled is which
 * groups, entries and numbers the report is made of.
 */
module TypoCheckReport {
  import opened Seqs
  import opened TypoCheck

  /** The `file` of every result, in order. */
  function Files(rs: seq<Issue>): (r: seq<string>)
    ensures |r| == |rs|
    ensures forall i :: 0 <= i < |rs| ==> r[i] == rs[i].file
  {
    seq(|rs|, i requires 0 <= i < |rs| => rs[i].file)
  }

  /** `group_by { |r| r[:file] }.keys`: each file once, in order of its first result. */
  function FileKeys(rs: seq<Issue>): seq<string> {
    Dedup(Files(rs))
  }

  /** The results of file `f`, in their original order: the value `group_by` keeps for key `f`. */
  function OfFile(rs: seq<Issue>, f: string): seq<Issue> {
    if rs == [] then []
    else (if rs[0].file == f then [rs[0]] else []) + OfFile(rs[1..], f)
  }

  /** `select { |r| r[:type] == kind }`. */
  function OfKind(rs: seq<Issue>, k: IssueKind): seq<Issue> {
    if rs == [] then []
    else (if rs[0].kind == k then [rs[0]] else []) + OfKind(rs[1..], k)
  }

  /** One entry of `group_by`: a file and its results. */
  datatype Group = Group(file: string, issues: seq<Issue>)

  /** The groups of the files `keys`, in the order of `keys`. */
  function GroupsOf(rs: seq<Issue>, keys: seq<string>): (gs: seq<Group>)
    ensures |gs| == |keys|
    ensures forall i :: 0 <= i < |keys| ==> gs[i].file == keys[i] && gs[i].issues == OfFile(rs, keys[i])
  {
    seq(|keys|, i requires 0 <= i < |keys| => Group(keys[i], OfFile(rs, keys[i])))
  }

  /** `results.group_by { |r| r[:file] }`. */
  function GroupByFile(rs: seq<Issue>): seq<Group> {
    GroupsOf(rs, FileKeys(rs))
  }

  /** The number of results over all groups. */
  function TotalSize(gs: seq<Group>): nat {
    if gs == [] then 0 else TotalSize(gs[..|gs| - 1]) + |gs[|gs| - 1].issues|
  }

  /** How many of `keys` equal `f`. */
  function Hits(keys: seq<string>, f: string): nat {
    if keys == [] then 0 else Hits(keys[..|keys| - 1], f) + (if keys[|keys| - 1] == f then 1 else 0)
  }

  // ----- filters -----

  lemma {:induction false} OfFileAppend(a: seq<Issue>, b: seq<Issue>, f: string)
    ensures OfFile(a + b, f) == OfFile(a, f) + OfFile(b, f)
  {
    if a != [] {
      assert (a + b)[1..] == a[1..] + b;
      OfFileAppend(a[1..], b, f);
      var head := if a[0].file == f then [a[0]] else [];
      assert head + (OfFile(a[1..], f) + OfFile(b, f)) == (head + OfFile(a[1..], f)) + OfFile(b, f);
    } else {
      assert a + b == b;
    }
  }

  lemma {:induction false} OfKindAppend(a: seq<Issue>, b: seq<Issue>, k: IssueKind)
    ensures OfKind(a + b, k) == OfKind(a, k) + OfKind(b, k)
  {
    if a != [] {
      assert (a + b)[1..] == a[1..] + b;
      OfKindAppend(a[1..], b, k);
      var head := if a[0].kind == k then [a[0]] else [];
      assert head + (OfKind(a[1..], k) + OfKind(b, k)) == (head + OfKind(a[1..], k)) + OfKind(b, k);
    } else {
      assert a + b == b;
    }
  }

  /** A file's group holds exactly the results of that file, and nothing else. */
  lemma {:induction false} OfFileExact(rs: seq<Issue>, f: string, x: Issue)
    ensures x in OfFile(rs, f) <==> x in rs && x.file == f
  {
    if rs != [] {
      OfFileExact(rs[1..], f, x);
      assert rs == [rs[0]] + rs[1..];
    }
  }

  /** `select` keeps exactly the results of the kind asked for. */
  lemma {:induction false} OfKindExact(rs: seq<Issue>, k: IssueKind, x: Issue)
    ensures x in OfKind(rs, k) <==> x in rs && x.kind == k
  {
    if rs != [] {
      OfKindExact(rs[1..], k, x);
      assert rs == [rs[0]] + rs[1..];
    }
  }

  /** A file's group keeps the relative order its results had. */
  lemma {:induction false} OfFileInOrder(rs: seq<Issue>, f: string)
    ensures IsSubsequence(OfFile(rs, f), rs)
  {
    if rs != [] {
      OfFileInOrder(rs[1..], f);
      if rs[0].file == f {
        SubsequenceKeep(OfFile(rs[1..], f), rs[0], rs[1..]);
        assert [rs[0]] + rs[1..] == rs;
        assert OfFile(rs, f) == [rs[0]] + OfFile(rs[1..], f);
      } else {
        SubsequenceSkip(OfFile(rs[1..], f), rs[0], rs[1..]);
        assert [rs[0]] + rs[1..] == rs;
        assert OfFile(rs, f) == [] + OfFile(rs[1..], f) == OfFile(rs[1..], f);
      }
    }
  }

  /** `select` keeps the relative order of what it keeps. */
  lemma {:induction false} OfKindInOrder(rs: seq<Issue>, k: IssueKind)
    ensures IsSubsequence(OfKind(rs, k), rs)
  {
    if rs != [] {
      OfKindInOrder(rs[1..], k);
      if rs[0].kind == k {
        SubsequenceKeep(OfKind(rs[1..], k), rs[0], rs[1..]);
        assert [rs[0]] + rs[1..] == rs;
        assert OfKind(rs, k) == [rs[0]] + OfKind(rs[1..], k);
      } else {
        SubsequenceSkip(OfKind(rs[1..], k), rs[0], rs[1..]);
        assert [rs[0]] + rs[1..] == rs;
        assert OfKind(rs, k) == [] + OfKind(rs[1..], k) == OfKind(rs[1..], k);
      }
    }
  }

  /** Every result is either a definite typo or a suspicious match, so the two selections add up. */
  lemma {:induction false} KindsPartition(rs: seq<Issue>)
    ensures |OfKind(rs, Typo)| + |OfKind(rs, Suspicious)| == |rs|
  {
    if rs != [] {
      KindsPartition(rs[1..]);
    }
  }

  // ----- grouping -----

  /** One result more in the input adds it to its own file's group only. */
  lemma {:induction false} TotalSizeStep(a: seq<Issue>, x: Issue, keys: seq<string>)
    ensures TotalSize(GroupsOf(a + [x], keys)) == TotalSize(GroupsOf(a, keys)) + Hits(keys, x.file)
  {
    if keys != [] {
      var n := |keys| - 1;
      assert GroupsOf(a + [x], keys)[..n] == GroupsOf(a + [x], keys[..n]);
      assert GroupsOf(a, keys)[..n] == GroupsOf(a, keys[..n]);
      TotalSizeStep(a, x, keys[..n]);
      OfFileAppend(a, [x], keys[n]);
      assert OfFile([x], keys[n]) == (if x.file == keys[n] then [x] else []) + OfFile([], keys[n]);
    }
  }

  /** In a duplicate-free key list, a key that occurs occurs once. */
  lemma {:induction false} HitsOnce(keys: seq<string>, f: string)
    requires Distinct(keys)
    ensures Hits(keys, f) == if f in keys then 1 else 0
  {
    if keys != [] {
      var n := |keys| - 1;
      assert Distinct(keys[..n]);
      HitsOnce(keys[..n], f);
      assert keys == keys[..n] + [keys[n]];
      if keys[n] == f {
        assert f !in keys[..n];
      }
    }
  }

  /** Groups over distinct keys that include every result's file hold every result exactly once. */
  lemma {:induction false} GroupsCover(rs: seq<Issue>, keys: seq<string>)
    requires Distinct(keys)
    requires forall i :: 0 <= i < |rs| ==> rs[i].file in keys
    ensures TotalSize(GroupsOf(rs, keys)) == |rs|
  {
    if rs == [] {
      EmptyGroups(keys);
    } else {
      var n := |rs| - 1;
      var a := rs[..n];
      assert a + [rs[n]] == rs;
      GroupsCover(a, keys);
      TotalSizeStep(a, rs[n], keys);
      HitsOnce(keys, rs[n].file);
    }
  }

  /** No results, no group members. */
  lemma {:induction false} EmptyGroups(keys: seq<string>)
    ensures TotalSize(GroupsOf([], keys)) == 0
  {
    if keys != [] {
      var n := |keys| - 1;
      assert GroupsOf([], keys)[..n] == GroupsOf([], keys[..n]);
      EmptyGroups(keys[..n]);
    }
  }

  /** `group_by` gives each distinct file one group, in order of its first result. */
  lemma GroupByFileKeys(rs: seq<Issue>)
    ensures var gs := GroupByFile(rs);
      && |gs| == |FileKeys(rs)|
      && (forall i, j :: 0 <= i < j < |gs| ==> gs[i].file != gs[j].file)
      && (forall f :: f in Files(rs) <==> exists i :: 0 <= i < |gs| && gs[i].file == f)
  {
    var keys := FileKeys(rs);
    var gs := GroupByFile(rs);
    forall f | f in Files(rs) ensures exists i :: 0 <= i < |gs| && gs[i].file == f {
      var i :| 0 <= i < |keys| && keys[i] == f;
      assert gs[i].file == f;
    }
  }

  /** Each group is non-empty and holds exactly its file's results, in their original relative order. */
  lemma GroupByFileMembers(rs: seq<Issue>, i: nat)
    requires i < |GroupByFile(rs)|
    ensures var g := GroupByFile(rs)[i];
      && g.issues != []
      && IsSubsequence(g.issues, rs)
      && (forall x :: x in g.issues <==> x in rs && x.file == g.file)
  {
    var keys := FileKeys(rs);
    var f := keys[i];
    assert f in keys;
    var j :| 0 <= j < |rs| && Files(rs)[j] == f;
    OfFileExact(rs, f, rs[j]);
    OfFileInOrder(rs, f);
    forall x ensures x in OfFile(rs, f) <==> x in rs && x.file == f {
      OfFileExact(rs, f, x);
    }
  }

  /** The groups together hold every result exactly once. */
  lemma GroupByFileTotal(rs: seq<Issue>)
    ensures TotalSize(GroupByFile(rs)) == |rs|
  {
    var keys := FileKeys(rs);
    forall i | 0 <= i < |rs| ensures rs[i].file in keys {
      assert Files(rs)[i] == rs[i].file;
    }
    GroupsCover(rs, keys);
  }

  // ----- the report -----

  /** The printed context: the first 80 characters of the content, then `...` when there were more. */
  function Context(content: string): (r: string)
    ensures |content| <= 80 ==> r == content
    ensures |content| > 80 ==> |r| == 83 && StartsWith(content, r[..80]) && EndsWith(r, "...")
  {
    if |content| > 80 then content[..80] + "..." else content
  }

  /** What one result contributes to the report: its icon, line, match, suggestion and context. */
  datatype Entry = Entry(definite: bool, line: nat, issue: string, suggestion: string, context: string)

  function Describe(x: Issue): (e: Entry)
    ensures e.definite <==> x.kind == Typo
    ensures e.line == x.line && e.issue == x.issue && e.suggestion == x.suggestion
    ensures e.context == Context(x.content)
  {
    Entry(x.kind == Typo, x.line, x.issue, x.suggestion, Context(x.content))
  }

  /** The summary block. `filesScanned` counts the files that have at least one result. */
  datatype Summary = Summary(filesScanned: nat, definiteTypos: nat, suspiciousPatterns: nat, totalIssues: nat)

  /** What `generate_report` prints: the all-clear line, or the groups and the summary. */
  datatype Report = NoCommonTypos | Found(groups: seq<Group>, summary: Summary)

  /**
   * `generate_report(results)`: nothing to report exactly when there are no
   * results; otherwise the file groups, and a summary whose two kind counts
   * add up to the total and whose file count is the number of groups, at
   * least one and at most the number of results.
   */
  function GenerateReport(rs: seq<Issue>): (r: Report)
    ensures r.NoCommonTypos? <==> rs == []
    ensures r.Found? ==>
      && r.groups == GroupByFile(rs)
      && r.summary.totalIssues == |rs|
      && r.summary.definiteTypos == |OfKind(rs, Typo)|
      && r.summary.suspiciousPatterns == |OfKind(rs, Suspicious)|
      && r.summary.definiteTypos + r.summary.suspiciousPatterns == r.summary.totalIssues
      && r.summary.filesScanned == |r.groups|
      && 1 <= r.summary.filesScanned <= r.summary.totalIssues
  {
    if rs == [] then NoCommonTypos
    else
      KindsPartition(rs);
      assert Files(rs)[0] in Files(rs);
      var keys := FileKeys(rs);
      Found(GroupByFile(rs), Summary(|keys|, |OfKind(rs, Typo)|, |OfKind(rs, Suspicious)|, |rs|))
  }

  /** The entries of a group, in the order they are printed. */
  function GroupEntries(g: Group): (es: seq<Entry>)
    ensures |es| == |g.issues|
    ensures forall i :: 0 <= i < |es| ==> es[i] == Describe(g.issues[i])
  {
    seq(|g.issues|, i requires 0 <= i < |g.issues| => Describe(g.issues[i]))
  }

  /** How many entries carry the definite-typo icon. */
  function DefiniteCount(es: seq<Entry>): nat {
    if es == [] then 0 else (if es[0].definite then 1 else 0) + DefiniteCount(es[1..])
  }

  /** The number of entries printed over all groups. */
  function EntryCount(gs: seq<Group>): nat {
    if gs == [] then 0 else EntryCount(gs[..|gs| - 1]) + |GroupEntries(gs[|gs| - 1])|
  }

  /** The number of entries printed with the definite-typo icon over all groups. */
  function DefiniteEntries(gs: seq<Group>): nat {
    if gs == [] then 0 else DefiniteEntries(gs[..|gs| - 1]) + DefiniteCount(GroupEntries(gs[|gs| - 1]))
  }

  /** A group shows the definite-typo icon once per definite typo among its results. */
  lemma {:induction false} GroupDefinite(f: string, xs: seq<Issue>)
    ensures DefiniteCount(GroupEntries(Group(f, xs))) == |OfKind(xs, Typo)|
  {
    if xs != [] {
      var es := GroupEntries(Group(f, xs));
      assert es[1..] == GroupEntries(Group(f, xs[1..]));
      GroupDefinite(f, xs[1..]);
    }
  }

  lemma OfKindSingle(x: Issue, k: IssueKind)
    ensures OfKind([x], k) == if x.kind == k then [x] else []
  {
    assert [x][1..] == [];
  }

  lemma OfFileSingle(x: Issue, f: string)
    ensures OfFile([x], f) == if x.file == f then [x] else []
  {
    assert [x][1..] == [];
  }

  /** Selecting a kind and selecting a file can be done in either order. */
  lemma {:induction false} OfKindOfFile(rs: seq<Issue>, f: string, k: IssueKind)
    ensures OfKind(OfFile(rs, f), k) == OfFile(OfKind(rs, k), f)
  {
    if rs != [] {
      var x := rs[0];
      var rest := rs[1..];
      OfKindOfFile(rest, f, k);
      var byFile := if x.file == f then [x] else [];
      var byKind := if x.kind == k then [x] else [];
      OfKindAppend(byFile, OfFile(rest, f), k);
      OfFileAppend(byKind, OfKind(rest, k), f);
      OfKindSingle(x, k);
      OfFileSingle(x, f);
      assert OfKind([], k) == [] && OfFile([], f) == [];
    }
  }

  /** Over any keys, the groups show as many definite icons as the groups of the definite typos alone hold. */
  lemma {:induction false} DefiniteEntriesOf(rs: seq<Issue>, keys: seq<string>)
    ensures DefiniteEntries(GroupsOf(rs, keys)) == TotalSize(GroupsOf(OfKind(rs, Typo), keys))
  {
    if keys != [] {
      var n := |keys| - 1;
      assert GroupsOf(rs, keys)[..n] == GroupsOf(rs, keys[..n]);
      assert GroupsOf(OfKind(rs, Typo), keys)[..n] == GroupsOf(OfKind(rs, Typo), keys[..n]);
      DefiniteEntriesOf(rs, keys[..n]);
      GroupDefinite(keys[n], OfFile(rs, keys[n]));
      OfKindOfFile(rs, keys[n], Typo);
    }
  }

  lemma {:induction false} EntryCountTotal(gs: seq<Group>)
    ensures EntryCount(gs) == TotalSize(gs)
  {
    if gs != [] {
      EntryCountTotal(gs[..|gs| - 1]);
    }
  }

  /**
   * The printed report agrees with its own summary: all groups together print
   * one entry per issue counted in the total, and exactly as many of them
   * carry the definite-typo icon as the summary counts definite typos.
   */
  lemma ReportEntriesAgree(rs: seq<Issue>)
    ensures var r := GenerateReport(rs);
      r.Found? ==> EntryCount(r.groups) == r.summary.totalIssues && DefiniteEntries(r.groups) == r.summary.definiteTypos
  {
    var keys := FileKeys(rs);
    EntryCountTotal(GroupByFile(rs));
    GroupByFileTotal(rs);
    DefiniteEntriesOf(rs, keys);
    var typos := OfKind(rs, Typo);
    forall i | 0 <= i < |typos| ensures typos[i].file in keys {
      OfKindExact(rs, Typo, typos[i]);
      var j :| 0 <= j < |rs| && rs[j] == typos[i];
      assert Files(rs)[j] == typos[i].file;
    }
    GroupsCover(typos, keys);
  }
}
