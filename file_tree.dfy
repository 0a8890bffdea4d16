/**
 * Directory trees, their top-down walk and the `Finder` file filter of the
 * build scripts (`Finder.withExtension`, `Project.allFilesIn`,
 * `AllFiles.inFolder`). The same walk stands for Ruby's `Find.find` in the
 * typo checker.
 */
module FileTree {
  import opened Wrappers
  import opened Seqs

  /** A path as its components, counted from the root of the tree it is looked up in. */
  type Path = seq<string>

  /**
   * What the file system holds at one place. Children are listed in the order
   * the operating system lists them. `Special` is anything that is neither a
   * regular file nor a directory (a device, a socket, a dangling link).
   */
  datatype Node =
    | RegularFile(name: string, content: string)
    | Directory(name: string, children: seq<Node>)
    | Special(name: string)

  /** One step of a walk: the path visited and what sits there. */
  datatype Entry = Entry(path: Path, node: Node)

  /** Sibling names are unique, as in every real directory. */
  predicate WellFormed(n: Node)
    decreases n
  {
    n.Directory? ==>
      && (forall i, j :: 0 <= i < j < |n.children| ==> n.children[i].name != n.children[j].name)
      && (forall i :: 0 <= i < |n.children| ==> WellFormed(n.children[i]))
  }

  /**
   * Pre-order walk (Kotlin `walkTopDown`): the node at `path` itself, then
   * each child's walk, child by child.
   */
  function Walk(path: Path, n: Node): seq<Entry>
    decreases n
  {
    [Entry(path, n)] + (if n.Directory? then WalkAll(path, n.children) else [])
  }

  function WalkAll(path: Path, cs: seq<Node>): seq<Entry>
    decreases cs
  {
    if |cs| == 0 then [] else Walk(path + [cs[0].name], cs[0]) + WalkAll(path, cs[1..])
  }

  /** The paths a walk visits, in order. */
  function Paths(es: seq<Entry>): (r: seq<Path>)
    ensures |r| == |es|
    ensures forall i :: 0 <= i < |es| ==> r[i] == es[i].path
  {
    seq(|es|, i requires 0 <= i < |es| => es[i].path)
  }

  /** The first child called `name`. */
  function Child(cs: seq<Node>, name: string): (r: Option<Node>)
    ensures r.Some? ==> r.value in cs && r.value.name == name
    ensures r.None? ==> forall k :: 0 <= k < |cs| ==> cs[k].name != name
  {
    if |cs| == 0 then None else if cs[0].name == name then Some(cs[0]) else Child(cs[1..], name)
  }

  /** What sits at `rel` below `n`, if anything. */
  function Lookup(n: Node, rel: Path): Option<Node>
    decreases |rel|
  {
    if |rel| == 0 then Some(n)
    else if !n.Directory? then None
    else match Child(n.children, rel[0])
      case None => None
      case Some(c) => Lookup(c, rel[1..])
  }

  /** A regular file sits at `rel` below `n`. */
  predicate FileAt(n: Node, rel: Path) {
    Lookup(n, rel).Some? && Lookup(n, rel).value.RegularFile?
  }

  /** The last component of a path (Kotlin `File.name`). */
  function Name(p: Path): string {
    if |p| == 0 then "" else p[|p| - 1]
  }

  /** The text after the last `c`, or "" when there is none (Kotlin `substringAfterLast(c, "")`). */
  function AfterLast(s: string, c: char): (r: string)
    ensures c !in r
    ensures c in s ==> EndsWith(s, [c] + r)
    ensures c !in s ==> r == ""
    decreases |s|
  {
    if c !in s then ""
    else if s[|s| - 1] == c then ""
    else
      var init := s[..|s| - 1];
      assert s == init + [s[|s| - 1]];
      assert c in init;
      AfterLast(init, c) + [s[|s| - 1]]
  }

  /** Kotlin `File.extension`: the part of the name after its last dot. */
  function Extension(name: string): string {
    AfterLast(name, '.')
  }

  /** The entry is a regular file whose extension is exactly `ext`. */
  predicate IsMatch(e: Entry, ext: string) {
    e.node.RegularFile? && Extension(Name(e.path)) == ext
  }

  /** `filter { it.isFile && it.extension == ext }.toList()` over a walk. */
  function Select(es: seq<Entry>, ext: string): (r: seq<Path>)
    ensures |r| <= |es|
    ensures forall p :: p in r <==> exists e :: e in es && e.path == p && IsMatch(e, ext)
  {
    if |es| == 0 then []
    else
      assert forall e :: e in es <==> e == es[0] || e in es[1..];
      (if IsMatch(es[0], ext) then [es[0].path] else []) + Select(es[1..], ext)
  }

  /** `data class Finder(val path: File)`. */
  datatype Finder = Finder(path: Path)

  /**
   * `Finder.withExtension`: the regular files of the walk from the finder's
   * path whose extension is `ext`, in walk order. A missing root is walked as
   * a single entry that is not a file, so nothing is returned.
   */
  function WithExtension(finder: Finder, fs: Node, ext: string): seq<Path> {
    match Lookup(fs, finder.path)
    case None => []
    case Some(n) => Select(Walk(finder.path, n), ext)
  }

  /** `File.resolve` for a relative path. */
  function Resolve(dir: Path, rel: Path): Path {
    dir + rel
  }

  /** `Project.allFilesIn(path)` and `AllFiles.inFolder(path)`: a finder at the project directory resolved with `path`. */
  function AllFilesIn(projectDir: Path, rel: Path): Finder {
    Finder(Resolve(projectDir, rel))
  }

  /** Kotlin `File.absolutePath` of a path counted from the file-system root. */
  function AbsolutePath(p: Path): string {
    "/" + Join(p, '/')
  }

  /** The path Ruby's `File.join` builds from the components. */
  function RelativePath(p: Path): string {
    Join(p, '/')
  }

  // ---------------------------------------------------------------------------
  // The walk and lookups

  lemma {:induction false} WalkAllMember(path: Path, cs: seq<Node>, e: Entry) returns (k: nat)
    requires e in WalkAll(path, cs)
    ensures k < |cs| && e in Walk(path + [cs[k].name], cs[k])
    decreases |cs|
  {
    if e in Walk(path + [cs[0].name], cs[0]) {
      k := 0;
    } else {
      var k' := WalkAllMember(path, cs[1..], e);
      k := k' + 1;
    }
  }

  lemma {:induction false} WalkAllContains(path: Path, cs: seq<Node>, k: nat, e: Entry)
    requires k < |cs| && e in Walk(path + [cs[k].name], cs[k])
    ensures e in WalkAll(path, cs)
    decreases k
  {
    if k > 0 {
      WalkAllContains(path, cs[1..], k - 1, e);
    }
  }

  /** Every path a walk visits lies under the path it starts from. */
  lemma {:induction false} WalkUnder(path: Path, n: Node, e: Entry)
    requires e in Walk(path, n)
    ensures StartsWith(e.path, path)
    decreases n
  {
    if e != Entry(path, n) {
      var k := WalkAllMember(path, n.children, e);
      WalkUnder(path + [n.children[k].name], n.children[k], e);
      assert e.path[..|path|] == (e.path[..|path| + 1])[..|path|];
    }
  }

  lemma {:induction false} ChildUnique(cs: seq<Node>, k: nat)
    requires k < |cs|
    requires forall i, j :: 0 <= i < j < |cs| ==> cs[i].name != cs[j].name
    ensures Child(cs, cs[k].name) == Some(cs[k])
    decreases k
  {
    if k > 0 {
      assert cs[0].name != cs[k].name;
      assert cs[1..][k - 1] == cs[k];
      ChildUnique(cs[1..], k - 1);
    }
  }

  /** Whatever `Lookup` finds below `n`, the walk from `n` visits at the matching path. */
  lemma {:induction false} WalkFindsLookup(path: Path, n: Node, rel: Path)
    requires Lookup(n, rel).Some?
    ensures Entry(path + rel, Lookup(n, rel).value) in Walk(path, n)
    decreases |rel|
  {
    if |rel| == 0 {
      assert path + rel == path;
    } else {
      var c := Child(n.children, rel[0]).value;
      var k :| 0 <= k < |n.children| && n.children[k] == c;
      WalkFindsLookup(path + [rel[0]], c, rel[1..]);
      assert path + [rel[0]] + rel[1..] == path + rel;
      WalkAllContains(path, n.children, k, Entry(path + rel, Lookup(n, rel).value));
    }
  }

  /** In a well-formed tree, every entry of the walk is what `Lookup` finds at its path. */
  lemma {:induction false} LookupFindsWalk(path: Path, n: Node, e: Entry)
    requires WellFormed(n)
    requires e in Walk(path, n)
    ensures StartsWith(e.path, path)
    ensures Lookup(n, e.path[|path|..]) == Some(e.node)
    decreases n
  {
    if e == Entry(path, n) {
      assert e.path[|path|..] == [];
    } else {
      var cs := n.children;
      var k := WalkAllMember(path, cs, e);
      var sub := path + [cs[k].name];
      LookupFindsWalk(sub, cs[k], e);
      assert e.path[..|path|] == (e.path[..|sub|])[..|path|];
      var rel := e.path[|path|..];
      assert e.path[..|sub|] == sub;
      assert e.path[|path|] == e.path[..|sub|][|path|] == sub[|path|];
      assert rel[0] == cs[k].name;
      assert rel[1..] == e.path[|sub|..];
      ChildUnique(cs, k);
    }
  }

  /** Looking up `a + b` is looking up `a` and then `b` below it. */
  lemma {:induction false} LookupAppend(n: Node, a: Path, b: Path)
    ensures Lookup(n, a + b) == match Lookup(n, a) case None => None case Some(m) => Lookup(m, b)
    decreases |a|
  {
    if |a| == 0 {
      assert a + b == b;
    } else {
      assert (a + b)[0] == a[0];
      assert (a + b)[1..] == a[1..] + b;
      if n.Directory? {
        match Child(n.children, a[0]) {
          case None =>
          case Some(c) => LookupAppend(c, a[1..], b);
        }
      }
    }
  }

  lemma {:induction false} LookupWellFormed(n: Node, rel: Path)
    requires WellFormed(n) && Lookup(n, rel).Some?
    ensures WellFormed(Lookup(n, rel).value)
    decreases |rel|
  {
    if |rel| > 0 {
      var c := Child(n.children, rel[0]).value;
      var k :| 0 <= k < |n.children| && n.children[k] == c;
      LookupWellFormed(c, rel[1..]);
    }
  }

  lemma PathsAppend(a: seq<Entry>, b: seq<Entry>)
    ensures Paths(a + b) == Paths(a) + Paths(b)
  {
  }

  /** A walk of a well-formed tree never visits a path twice. */
  lemma {:induction false} WalkDistinct(path: Path, n: Node)
    requires WellFormed(n)
    ensures Distinct(Paths(Walk(path, n)))
    decreases n
  {
    if n.Directory? {
      var rest := WalkAll(path, n.children);
      WalkAllDistinct(path, n.children);
      PathsAppend([Entry(path, n)], rest);
      forall q | q in Paths(rest) ensures q != path {
        var i :| 0 <= i < |rest| && Paths(rest)[i] == q;
        var k := WalkAllMember(path, n.children, rest[i]);
        WalkUnder(path + [n.children[k].name], n.children[k], rest[i]);
      }
      DistinctAppend(Paths([Entry(path, n)]), Paths(rest));
    }
  }

  lemma {:induction false} WalkAllDistinct(path: Path, cs: seq<Node>)
    requires forall i, j :: 0 <= i < j < |cs| ==> cs[i].name != cs[j].name
    requires forall i :: 0 <= i < |cs| ==> WellFormed(cs[i])
    ensures Distinct(Paths(WalkAll(path, cs)))
    decreases cs
  {
    if |cs| > 0 {
      var sub := path + [cs[0].name];
      var first := Walk(sub, cs[0]);
      var rest := WalkAll(path, cs[1..]);
      WalkDistinct(sub, cs[0]);
      WalkAllDistinct(path, cs[1..]);
      PathsAppend(first, rest);
      forall r | r in Paths(rest) ensures |r| > |path| && r[|path|] != cs[0].name {
        var j :| 0 <= j < |rest| && Paths(rest)[j] == r;
        var k := WalkAllMember(path, cs[1..], rest[j]);
        WalkUnder(path + [cs[1..][k].name], cs[1..][k], rest[j]);
        assert r[|path|] == cs[k + 1].name;
      }
      forall q | q in Paths(first) ensures |q| > |path| && q[|path|] == cs[0].name {
        var i :| 0 <= i < |first| && Paths(first)[i] == q;
        WalkUnder(sub, cs[0], first[i]);
      }
      DistinctAppend(Paths(first), Paths(rest));
    }
  }

  // ---------------------------------------------------------------------------
  // The filter

  /** The filter keeps walk order: its result is a subsequence of the visited paths. */
  lemma {:induction false} SelectInOrder(es: seq<Entry>, ext: string)
    ensures IsSubsequence(Select(es, ext), Paths(es))
  {
    if |es| > 0 {
      SelectInOrder(es[1..], ext);
      assert Paths(es) == [es[0].path] + Paths(es[1..]);
      if IsMatch(es[0], ext) {
        assert Select(es, ext) == [es[0].path] + Select(es[1..], ext);
        SubsequenceKeep(Select(es[1..], ext), es[0].path, Paths(es[1..]));
      } else {
        assert Select(es, ext) == Select(es[1..], ext);
        SubsequenceSkip(Select(es[1..], ext), es[0].path, Paths(es[1..]));
      }
    }
  }

  lemma {:induction false} SelectDistinct(es: seq<Entry>, ext: string)
    requires Distinct(Paths(es))
    ensures Distinct(Select(es, ext))
  {
    if |es| > 0 {
      assert Paths(es[1..]) == Paths(es)[1..];
      SelectDistinct(es[1..], ext);
      if IsMatch(es[0], ext) {
        forall q | q in Select(es[1..], ext) ensures q != es[0].path {
          var e :| e in es[1..] && e.path == q && IsMatch(e, ext);
          var i :| 0 <= i < |es[1..]| && es[1..][i] == e;
          assert Paths(es)[i + 1] == q && Paths(es)[0] == es[0].path;
        }
        DistinctAppend([es[0].path], Select(es[1..], ext));
      }
    }
  }

  /**
   * `Finder.withExtension` returns exactly the regular files below the
   * finder's path, at any depth, whose extension is `ext`.
   */
  lemma WithExtensionExact(fs: Node, root: Path, ext: string, p: Path)
    requires WellFormed(fs)
    ensures p in WithExtension(Finder(root), fs, ext)
        <==> StartsWith(p, root) && FileAt(fs, p) && Extension(Name(p)) == ext
  {
    if p in WithExtension(Finder(root), fs, ext) {
      var n := Lookup(fs, root).value;
      var e :| e in Walk(root, n) && e.path == p && IsMatch(e, ext);
      LookupWellFormed(fs, root);
      LookupFindsWalk(root, n, e);
      LookupAppend(fs, root, p[|root|..]);
      assert root + p[|root|..] == p;
    }
    if StartsWith(p, root) && FileAt(fs, p) && Extension(Name(p)) == ext {
      var rel := p[|root|..];
      assert root + rel == p;
      LookupAppend(fs, root, rel);
      var n := Lookup(fs, root).value;
      WalkFindsLookup(root, n, rel);
      assert IsMatch(Entry(p, Lookup(n, rel).value), ext);
    }
  }

  /** Each matching file is returned once, in the order the walk visits it. */
  lemma WithExtensionOrdered(fs: Node, root: Path, ext: string)
    requires WellFormed(fs)
    requires Lookup(fs, root).Some?
    ensures Distinct(WithExtension(Finder(root), fs, ext))
    ensures IsSubsequence(WithExtension(Finder(root), fs, ext), Paths(Walk(root, Lookup(fs, root).value)))
  {
    var n := Lookup(fs, root).value;
    LookupWellFormed(fs, root);
    WalkDistinct(root, n);
    SelectDistinct(Walk(root, n), ext);
    SelectInOrder(Walk(root, n), ext);
  }

  /** `allFilesIn(rel)` searches the project directory resolved with `rel`, and nothing else. */
  lemma AllFilesInExact(fs: Node, projectDir: Path, rel: Path, ext: string, p: Path)
    requires WellFormed(fs)
    ensures p in WithExtension(AllFilesIn(projectDir, rel), fs, ext)
        <==> StartsWith(p, projectDir + rel) && FileAt(fs, p) && Extension(Name(p)) == ext
  {
    WithExtensionExact(fs, projectDir + rel, ext, p);
  }

  // ---------------------------------------------------------------------------
  // Extensions and path suffixes

  /** A dot-free, non-empty extension is the text after the last dot exactly when the name ends with it after a dot. */
  lemma ExtensionIffSuffix(name: string, ext: string)
    requires ext != "" && '.' !in ext
    ensures Extension(name) == ext <==> EndsWith(name, "." + ext)
  {
    var e := Extension(name);
    if EndsWith(name, "." + ext) {
      var L := |name|;
      assert name[L - |ext| - 1] == '.';
      assert '.' in name;
      assert EndsWith(name, "." + e);
      assert name[L - |e| - 1] == '.';
      assert forall k :: L - |e| <= k < L ==> name[k] == e[k - (L - |e|)];
      assert forall k :: L - |ext| <= k < L ==> name[k] == ext[k - (L - |ext|)];
      assert |e| == |ext|;
      assert e == name[L - |ext|..] == ext;
    }
  }

  lemma {:induction false} JoinLast(xs: seq<string>, sep: char)
    requires |xs| >= 2
    ensures Join(xs, sep) == Join(xs[..|xs| - 1], sep) + [sep] + xs[|xs| - 1]
  {
    if |xs| > 2 {
      JoinLast(xs[1..], sep);
      assert xs[1..][..|xs| - 2] == xs[..|xs| - 1][1..];
    }
  }

  /** A rendered path ends with a separator-free suffix exactly when its last component does. */
  lemma RelativePathSuffix(p: Path, suffix: string)
    requires suffix != "" && '/' !in suffix
    ensures EndsWith(RelativePath(p), suffix) <==> EndsWith(Name(p), suffix)
  {
    if |p| >= 2 {
      JoinLast(p, '/');
      var a := Join(p[..|p| - 1], '/');
      var last := p[|p| - 1];
      var s := a + ['/'] + last;
      if |last| >= |suffix| {
        assert s[|s| - |suffix|..] == last[|last| - |suffix|..];
      } else {
        if |s| >= |suffix| {
          assert s[|s| - |last| - 1] == '/';
          assert s[|s| - |suffix|..][|suffix| - |last| - 1] == s[|s| - |last| - 1];
        }
      }
    }
  }

  /** Ruby's `path.end_with?('.md')` on a rendered path is the `md` extension test on its last component. */
  lemma MarkdownSuffixIsExtension(p: Path)
    ensures EndsWith(RelativePath(p), ".md") <==> Extension(Name(p)) == "md"
  {
    RelativePathSuffix(p, ".md");
    ExtensionIffSuffix(Name(p), "md");
  }
}
