/**
 What `source_tree_digest` (tools/create-rust-build-provenance.py:66-107) selects from a workspace and in which
 order it hashes it. Reading the directory is a parameter: a list of paths, in any order, and their contents.
 */
module SourceTree {
  import opened Bytes
  import opened Framing
  import opened Lexicographic
  import opened Options
  import opened Sorting

  /** The components of a path relative to the workspace. */
  type Path = seq<string>

  type Tree = map<Path, seq<byte>>

  predicate ValidPath(p: Path) {
    p != [] && forall part <- p :: part != "" && '/' !in part
  }

  // ---- Selection ----

  /** Some component is `target` and none before it is `vendor`. */
  predicate BuildOutput(parts: Path) {
    exists i :: 0 <= i < |parts| && parts[i] == "target" && "vendor" !in parts[..i]
  }

  method IsBuildOutput(parts: Path) returns (r: bool)
    ensures r == BuildOutput(parts)
  {
    for index := 0 to |parts|
      invariant forall i :: 0 <= i < index ==> !(parts[i] == "target" && "vendor" !in parts[..i])
    {
      if parts[index] == "target" && "vendor" !in parts[..index] {
        return true;
      }
    }
    return false;
  }

  /** The index of the first `name`, or the length when there is none. */
  function First(parts: Path, name: string): (i: nat)
    ensures i <= |parts| && forall j :: 0 <= j < i ==> parts[j] != name
    ensures i < |parts| ==> parts[i] == name
  {
    if parts == [] || parts[0] == name then 0 else First(parts[1..], name) + 1
  }

  lemma InPrefix(parts: Path, name: string, i: nat, k: nat)
    requires i < k <= |parts| && parts[i] == name
    ensures name in parts[..k]
  {
    assert parts[..k][i] == name;
  }

  /** A path is build output exactly when its first `target` comes before its first `vendor`. */
  lemma FirstTargetDecides(parts: Path)
    ensures BuildOutput(parts) <==> First(parts, "target") < First(parts, "vendor")
  {
    var t, v := First(parts, "target"), First(parts, "vendor");
    if BuildOutput(parts) {
      var i :| 0 <= i < |parts| && parts[i] == "target" && "vendor" !in parts[..i];
      assert t <= i;
      if v < i { InPrefix(parts, "vendor", v, i); }
    }
  }

  /** Everything below build output is build output; nothing below a vendored crate is. */
  lemma SelectionIsByDirectory(parts: Path, below: Path)
    ensures BuildOutput(parts) ==> BuildOutput(parts + below)
    ensures !BuildOutput(parts) && "vendor" in parts ==> !BuildOutput(parts + below)
  {
    var whole := parts + below;
    forall i | 0 <= i <= |parts| ensures whole[..i] == parts[..i] { }
    if BuildOutput(parts) {
      var i :| 0 <= i < |parts| && parts[i] == "target" && "vendor" !in parts[..i];
      assert whole[i] == "target" && "vendor" !in whole[..i];
    } else if "vendor" in parts && BuildOutput(whole) {
      var i :| 0 <= i < |whole| && whole[i] == "target" && "vendor" !in whole[..i];
      var v :| 0 <= v < |parts| && parts[v] == "vendor";
      if i >= |parts| { InPrefix(whole, "vendor", v, i); }
    }
  }

  /** `path.suffix == ".rs"`: a name that is only an extension has no suffix. */
  predicate IsSourceName(name: string) {
    || name == "Cargo.toml" || name == "Cargo.lock"
    || (|name| > 3 && name[|name| - 3..] == ".rs")
  }

  predicate Selected(p: Path) {
    p != [] && IsSourceName(p[|p| - 1]) && !BuildOutput(p)
  }

  // ---- The stream ----

  /** `as_posix`. */
  function Posix(p: Path): string
    requires p != []
  {
    if |p| == 1 then p[0] else p[0] + "/" + Posix(p[1..])
  }

  function EntryOf(tree: Tree, p: Path): Entry
    requires p in tree && p != []
  {
    Entry(Utf8(Posix(p)), tree[p])
  }

  function Entries(tree: Tree, paths: seq<Path>): (r: seq<Entry>)
    requires forall p <- paths :: p in tree && p != []
    ensures |r| == |paths| && forall i :: 0 <= i < |r| ==> r[i] == EntryOf(tree, paths[i])
  {
    seq(|paths|, i requires 0 <= i < |paths| => EntryOf(tree, paths[i]))
  }

  /** The workspace as the walk delivers it: each path of the tree once, in any order. */
  ghost predicate Enumerates(paths: seq<Path>, tree: Tree) {
    multiset(paths) == multiset(tree.Keys) && forall p <- tree.Keys :: ValidPath(p)
  }

  function Candidates(paths: seq<Path>): seq<Path> {
    Sort(Filter(paths, Selected), PathLe)
  }

  lemma CandidatesAreSelected(paths: seq<Path>, tree: Tree, p: Path)
    requires Enumerates(paths, tree)
    ensures p in Candidates(paths) <==> p in tree && Selected(p)
  {
    TextAndPathOrder();
    SortIsStable(Filter(paths, Selected), PathLe);
    FilterMember(paths, Selected, p);
    assert p in Candidates(paths) <==> p in multiset(Candidates(paths));
    assert p in Filter(paths, Selected) <==> p in multiset(Filter(paths, Selected));
    assert p in paths <==> p in multiset(paths);
  }

  /** Which paths are selected, by their last component and by the place of `target` and `vendor`. */
  lemma SelectedExactly(p: Path)
    requires p != []
    ensures Selected(p) <==>
              && (p[|p| - 1] in {"Cargo.toml", "Cargo.lock"} || exists stem :: stem != "" && p[|p| - 1] == stem + ".rs")
              && First(p, "vendor") <= First(p, "target")
  {
    FirstTargetDecides(p);
    var name := p[|p| - 1];
    if |name| > 3 && name[|name| - 3..] == ".rs" {
      assert name == name[..|name| - 3] + ".rs";
    }
    if stem :| stem != "" && name == stem + ".rs" {
      assert name[|name| - 3..] == ".rs";
    }
  }

  /** The walk's files are hashed in ascending order: component by component, each by code points. */
  lemma CandidatesAscend(paths: seq<Path>, tree: Tree)
    requires Enumerates(paths, tree)
    ensures var c := Candidates(paths); forall i, j :: 0 <= i < j < |c| ==> PathBefore(c[i], c[j])
  {
    hide Selected, Filter, PathLe, TextLe, TextBefore;
    TextAndPathOrder();
    var c := Candidates(paths);
    SortIsStable(Filter(paths, Selected), PathLe);
    forall i, j | 0 <= i < j < |c| ensures PathBefore(c[i], c[j]) {
      PathLeExactly(c[i], c[j]);
      NoneTwice(paths, tree, i, j);
    }
  }

  lemma NoneTwice(paths: seq<Path>, tree: Tree, i: nat, j: nat)
    requires Enumerates(paths, tree) && i < j < |Candidates(paths)|
    ensures Candidates(paths)[i] != Candidates(paths)[j]
  {
    hide Selected, PathLe;
    var c := Candidates(paths);
    TextAndPathOrder();
    SortIsStable(Filter(paths, Selected), PathLe);
    FilterMultiplicity(paths, Selected, c[i]);
    if c[i] == c[j] { CountedTwice(c, i, j); }
  }

  lemma CountedTwice<T>(s: seq<T>, i: nat, j: nat)
    requires i < j < |s| && s[i] == s[j]
    ensures multiset(s)[s[i]] >= 2
  {
    assert s == s[..j] + s[j..] && s[i] in s[..j] && s[j] in s[j..];
  }

  /** Components are joined by `/`, in order. */
  lemma {:induction false} PosixJoins(p: Path, q: Path)
    requires p != [] && q != []
    ensures Posix(p + q) == Posix(p) + "/" + Posix(q)
    ensures |p| == 1 ==> Posix(p) == p[0]
  {
    assert (p + q)[0] == p[0] && (p + q)[1..] == p[1..] + q;
    if |p| > 1 {
      PosixJoins(p[1..], q);
    } else {
      assert p[1..] + q == q;
    }
  }

  /** The bytes fed to the hash. */
  ghost function TreeStream(paths: seq<Path>, tree: Tree): seq<byte>
    requires Enumerates(paths, tree)
  {
    forall p ensures p in Candidates(paths) ==> p in tree && p != [] { CandidatesAreSelected(paths, tree, p); }
    Stream(Entries(tree, Candidates(paths)))
  }

  lemma {:induction false} StreamAppend(entries: seq<Entry>, e: Entry)
    ensures Stream(entries + [e]) == Stream(entries) + Frame(e)
  {
    if entries == [] {
      assert [e][1..] == [] && [] + [e] == [e];
    } else {
      StreamAppend(entries[1..], e);
      assert (entries + [e])[1..] == entries[1..] + [e];
    }
  }

  /** The hash object: only the bytes fed to it so far matter. */
  class Hasher {
    var fed: seq<byte>

    constructor ()
      ensures fed == []
    {
      fed := [];
    }

    method Update(chunk: seq<byte>)
      modifies this
      ensures fed == old(fed) + chunk
    {
      fed := fed + chunk;
    }
  }

  method SelectCandidates(paths: seq<Path>) returns (candidates: seq<Path>)
    ensures candidates == Filter(paths, Selected)
  {
    candidates := [];
    for i := 0 to |paths|
      invariant candidates == Filter(paths[..i], Selected)
    {
      var path := paths[i];
      assert paths[..i + 1] == paths[..i] + [path];
      FilterConcat(paths[..i], [path], Selected);
      var output := IsBuildOutput(path);
      if path != [] && IsSourceName(path[|path| - 1]) && !output {
        candidates := candidates + [path];
      }
    }
    assert paths[..|paths|] == paths;
  }

  method Feed(h: Hasher, e: Entry)
    requires Fits(e)
    modifies h
    ensures h.fed == old(h.fed) + Frame(e)
  {
    hide BigEndian, Power256;
    h.Update(BigEndian(|e.rel|, REL_WIDTH));
    h.Update(e.rel);
    h.Update(BigEndian(|e.content|, CONTENT_WIDTH));
    h.Update(e.content);
  }

  /** Fails, as `to_bytes` does, when a length does not fit its field. */
  method HashFiles(candidates: seq<Path>, tree: Tree, sha: seq<byte> -> string) returns (r: Option<string>)
    requires forall p <- candidates :: p in tree && p != []
    ensures r.Some? <==> AllFit(Entries(tree, candidates))
    ensures r.Some? ==> r.value == sha(Stream(Entries(tree, candidates)))
  {
    hide BigEndian, Utf8, Posix, Power256, Frame;
    ghost var entries := Entries(tree, candidates);
    var h := new Hasher();
    for i := 0 to |candidates|
      invariant h.fed == Stream(entries[..i])
      invariant forall j :: 0 <= j < i ==> Fits(entries[j])
    {
      var e := EntryOf(tree, candidates[i]);
      assert entries[i] == e;
      if !Fits(e) { return None; }
      assert entries[..i + 1] == entries[..i] + [e];
      StreamAppend(entries[..i], e);
      Feed(h, e);
    }
    assert entries[..|candidates|] == entries;
    return Some(sha(h.fed));
  }

  method SourceTreeDigest(paths: seq<Path>, tree: Tree, sha: seq<byte> -> string) returns (r: Option<string>)
    requires Enumerates(paths, tree)
    ensures r.Some? <==> Hashable(paths, tree)
    ensures r.Some? ==> r.value == sha(TreeStream(paths, tree))
  {
    var candidates := SelectCandidates(paths);
    candidates := Sort(candidates, PathLe);
    forall p ensures p in candidates ==> p in tree && p != [] { CandidatesAreSelected(paths, tree, p); }
    r := HashFiles(candidates, tree, sha);
  }

  /** Every selected path and content is short enough for its length field. */
  ghost predicate Hashable(paths: seq<Path>, tree: Tree)
    requires Enumerates(paths, tree)
  {
    forall p ensures p in Candidates(paths) ==> p in tree && p != [] { CandidatesAreSelected(paths, tree, p); }
    AllFit(Entries(tree, Candidates(paths)))
  }

  // ---- What the stream identifies ----

  /** The part of a workspace that the digest is about. */
  ghost function Sources(tree: Tree): Tree {
    tree - (set p | p in tree && !Selected(p))
  }

  lemma InSources(tree: Tree, p: Path)
    ensures p in Sources(tree) <==> p in tree && Selected(p)
    ensures p in Sources(tree) ==> Sources(tree)[p] == tree[p]
  {
  }

  lemma {:induction false} PosixInjective(p: Path, q: Path)
    requires ValidPath(p) && ValidPath(q) && Posix(p) == Posix(q)
    ensures p == q
  {
    HeadOfPosix(p);
    HeadOfPosix(q);
    var s := Posix(p);
    assert |p[0]| == |q[0]|;
    assert p[0] == q[0];
    if |p| > 1 && |q| > 1 {
      assert forall part <- p[1..] :: part in p;
      assert forall part <- q[1..] :: part in q;
      assert Posix(p[1..]) == s[|p[0]| + 1..] == Posix(q[1..]);
      PosixInjective(p[1..], q[1..]);
      assert p == [p[0]] + p[1..] && q == [q[0]] + q[1..];
    }
  }

  lemma HeadOfPosix(p: Path)
    requires ValidPath(p)
    ensures p[0] <= Posix(p)
    ensures |Posix(p)| > |p[0]| <==> |p| > 1
    ensures |p| > 1 ==> Posix(p)[|p[0]|] == '/'
    ensures '/' !in p[0]
  {
  }

  /** Filtering keeps the multiplicity of what satisfies the predicate and drops the rest. */
  lemma {:induction false} FilterMultiplicity<T>(s: seq<T>, p: T -> bool, x: T)
    ensures multiset(Filter(s, p))[x] == if p(x) then multiset(s)[x] else 0
  {
    if s != [] {
      FilterMultiplicity(s[1..], p, x);
      assert s == [s[0]] + s[1..];
    }
  }

  lemma CandidatesOfSources(paths: seq<Path>, tree: Tree, paths': seq<Path>, tree': Tree)
    requires Enumerates(paths, tree) && Enumerates(paths', tree') && Sources(tree) == Sources(tree')
    ensures Candidates(paths) == Candidates(paths')
  {
    hide Selected, Sources, Filter, PathLe, Sort;
    var a, b := Filter(paths, Selected), Filter(paths', Selected);
    forall x ensures multiset(a)[x] == multiset(b)[x] {
      FilterMultiplicity(paths, Selected, x);
      FilterMultiplicity(paths', Selected, x);
      InSources(tree, x);
      InSources(tree', x);
    }
    assert multiset(a) == multiset(b);
    TextAndPathOrder();
    SortIgnoresOrder(a, b, PathLe);
  }

  /** The order of the walk does not matter, and neither does anything that is not selected. */
  lemma StreamOfSources(paths: seq<Path>, tree: Tree, paths': seq<Path>, tree': Tree)
    requires Enumerates(paths, tree) && Enumerates(paths', tree') && Sources(tree) == Sources(tree')
    ensures TreeStream(paths, tree) == TreeStream(paths', tree')
  {
    hide Selected, Sources, Candidates, Stream, Utf8, Posix;
    CandidatesOfSources(paths, tree, paths', tree');
    var sorted := Candidates(paths);
    forall p ensures p in sorted ==> p in tree && p in tree' && tree[p] == tree'[p] && p != [] {
      CandidatesAreSelected(paths, tree, p);
      InSources(tree, p);
      InSources(tree', p);
    }
    assert forall i :: 0 <= i < |sorted| ==> sorted[i] in sorted;
    assert forall i :: 0 <= i < |sorted| ==> EntryOf(tree, sorted[i]) == EntryOf(tree', sorted[i]);
    assert Entries(tree, sorted) == Entries(tree', sorted);
  }

  /** Two workspaces feed the hash the same bytes exactly when the selected files agree in path and content. */
  lemma StreamIdentifiesSources(paths: seq<Path>, tree: Tree, paths': seq<Path>, tree': Tree)
    requires Enumerates(paths, tree) && Enumerates(paths', tree')
    requires Hashable(paths, tree) && Hashable(paths', tree')
    ensures TreeStream(paths, tree) == TreeStream(paths', tree') <==> Sources(tree) == Sources(tree')
  {
    hide Selected, Sources, Candidates, Stream, Utf8, Posix;
    if Sources(tree) == Sources(tree') {
      StreamOfSources(paths, tree, paths', tree');
    }
    if TreeStream(paths, tree) == TreeStream(paths', tree') {
      var s, s' := Candidates(paths), Candidates(paths');
      forall p ensures (p in s <==> p in Sources(tree)) && (p in s ==> p in tree && p != [] && ValidPath(p)) {
        CandidatesAreSelected(paths, tree, p);
        InSources(tree, p);
      }
      forall p ensures (p in s' <==> p in Sources(tree')) && (p in s' ==> p in tree' && p != [] && ValidPath(p)) {
        CandidatesAreSelected(paths', tree', p);
        InSources(tree', p);
      }
      assert forall p <- s :: p in tree && p != [];
      assert forall p <- s' :: p in tree' && p != [];
      var e, e' := Entries(tree, s), Entries(tree', s');
      StreamInjective(e, e');
      forall i | 0 <= i < |s| ensures s[i] == s'[i] && tree[s[i]] == tree'[s'[i]] {
        assert s[i] in s && s'[i] in s';
        assert e[i] == EntryOf(tree, s[i]) && e'[i] == EntryOf(tree', s'[i]);
        Utf8Injective(Posix(s[i]), Posix(s'[i]));
        PosixInjective(s[i], s'[i]);
      }
      assert s == s';
      forall p | p in Sources(tree) ensures Sources(tree)[p] == Sources(tree')[p] {
        InSources(tree, p);
        InSources(tree', p);
        var i :| 0 <= i < |s| && s[i] == p;
      }
    }
  }
}
