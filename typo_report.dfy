/**
 * The definite-typos report: the checker's results narrowed to definite
 * typos, grouped by file, with the number of files that have typos and the
 * number of typos. The printed text is not modelled.
 */
module TypoReport {
  import opened Seqs
  import opened TypoCheck
  import opened TypoCheckReport

  /** `results.select { |r| r[:type] == 'typo' }`. */
  function TyposOnly(rs: seq<Issue>): seq<Issue> {
    OfKind(rs, Typo)
  }

  /** What the script prints after the checker's own report. */
  datatype Report = NoDefiniteTypos | DefiniteTypos(groups: seq<Group>, filesWithTypos: nat, totalTypos: nat)

  /**
   * The all-clear branch exactly when no result is a definite typo; otherwise
   * the typos grouped by file, as many files as groups, and the number of
   * typos, which is at least the number of files.
   */
  function DefiniteTyposReport(rs: seq<Issue>): (r: Report)
    ensures r.NoDefiniteTypos? <==> forall x :: x in rs ==> x.kind != Typo
    ensures r.DefiniteTypos? ==>
      && r.groups == GroupByFile(TyposOnly(rs))
      && r.totalTypos == |TyposOnly(rs)|
      && r.filesWithTypos == |r.groups|
      && 1 <= r.filesWithTypos <= r.totalTypos
  {
    var typos := TyposOnly(rs);
    forall x | x in rs ensures x in typos <==> x.kind == Typo {
      OfKindExact(rs, Typo, x);
    }
    if typos == [] then NoDefiniteTypos
    else
      assert typos[0] in typos;
      OfKindExact(rs, Typo, typos[0]);
      assert Files(typos)[0] in Files(typos);
      var groups := GroupByFile(typos);
      DefiniteTypos(groups, |groups|, |typos|)
  }

  /**
   * Each group is one file's definite typos: non-empty, all of that file,
   * and in the order the checker reported them.
   */
  lemma GroupsAreFileTypos(rs: seq<Issue>, i: nat)
    requires DefiniteTyposReport(rs).DefiniteTypos? && i < |DefiniteTyposReport(rs).groups|
    ensures var g := DefiniteTyposReport(rs).groups[i];
      && g.issues != []
      && IsSubsequence(g.issues, rs)
      && (forall x :: x in g.issues <==> x in rs && x.kind == Typo && x.file == g.file)
  {
    var typos := TyposOnly(rs);
    var g := GroupByFile(typos)[i];
    GroupByFileMembers(typos, i);
    OfKindInOrder(rs, Typo);
    SubsequenceTransitive(g.issues, typos, rs);
    forall x ensures x in g.issues <==> x in rs && x.kind == Typo && x.file == g.file {
      OfKindExact(rs, Typo, x);
    }
  }

  /** The groups together list every definite typo once: their sizes add up to the total. */
  lemma GroupsAddUp(rs: seq<Issue>)
    requires DefiniteTyposReport(rs).DefiniteTypos?
    ensures TotalSize(DefiniteTyposReport(rs).groups) == DefiniteTyposReport(rs).totalTypos
  {
    GroupByFileTotal(TyposOnly(rs));
  }

  /** The total of this report is the checker's own count of definite typos for the same results. */
  lemma TotalMatchesChecker(rs: seq<Issue>)
    requires DefiniteTyposReport(rs).DefiniteTypos?
    ensures GenerateReport(rs).Found?
    ensures DefiniteTyposReport(rs).totalTypos == GenerateReport(rs).summary.definiteTypos
  {
    assert TyposOnly(rs) != [];
  }
}
