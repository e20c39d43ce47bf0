/** The files a program is made of and the import relation between them. */
module ImportGraph {

  import opened Options

  type Path = string

  /** A statement, as far as loading is concerned; an import carries the path it resolves to, if any. */
  datatype Stmt = Import(target: Option<Path>) | Function(name: string) | Other(id: int)

  datatype File = Unreadable | Malformed | Source(stmts: seq<Stmt>)

  type FileSystem = map<Path, File>

  predicate IsSep(c: char) {
    c == '/' || c == '\\'
  }

  /** p[i..j] is a maximal run of characters between separators. */
  predicate IsComponent(p: Path, i: nat, j: nat) {
    && i < j <= |p|
    && (forall k :: i <= k < j ==> !IsSep(p[k]))
    && (i == 0 || IsSep(p[i - 1]))
    && (j == |p| || IsSep(p[j]))
  }

  /** No component climbs to the parent directory. */
  predicate SafePath(p: Path) {
    forall i, j {:trigger IsComponent(p, i, j)} :: 0 <= i < j <= |p| && IsComponent(p, i, j) ==> p[i..j] != ".."
  }

  /** The file can be loaded by itself: safe path, readable, parsable, and every import resolves. */
  predicate Loadable(fs: FileSystem, p: Path) {
    && SafePath(p)
    && p in fs && fs[p].Source?
    && forall i :: 0 <= i < |fs[p].stmts| && fs[p].stmts[i].Import? ==> fs[p].stmts[i].target.Some?
  }

  predicate Imports(fs: FileSystem, p: Path, q: Path) {
    p in fs && fs[p].Source? && Import(Some(q)) in fs[p].stmts
  }

  /** Each path imports the next. */
  predicate IsChain(fs: FileSystem, s: seq<Path>) {
    |s| > 0 && forall i :: 0 <= i < |s| - 1 ==> Imports(fs, s[i], s[i + 1])
  }

  ghost predicate Reaches(fs: FileSystem, root: Path, t: Path) {
    exists s :: IsChain(fs, s) && s[0] == root && s[|s| - 1] == t
  }

  /** A chain that ends in a file that cannot be loaded, or in a path it has already been through. */
  predicate IsTrouble(fs: FileSystem, s: seq<Path>) {
    IsChain(fs, s) && (!Loadable(fs, s[|s| - 1]) || s[|s| - 1] in s[..|s| - 1])
  }

  ghost predicate Trouble(fs: FileSystem, root: Path) {
    exists s :: IsTrouble(fs, s) && s[0] == root
  }

  lemma ChainSnoc(fs: FileSystem, s: seq<Path>, q: Path)
    requires IsChain(fs, s) && Imports(fs, s[|s| - 1], q)
    ensures IsChain(fs, s + [q])
  {
  }

  lemma ReachesSelf(fs: FileSystem, p: Path)
    ensures Reaches(fs, p, p)
  {
    assert IsChain(fs, [p]);
  }

  lemma ReachesStep(fs: FileSystem, p: Path, q: Path, t: Path)
    requires Imports(fs, p, q) && Reaches(fs, q, t)
    ensures Reaches(fs, p, t)
  {
    var s :| IsChain(fs, s) && s[0] == q && s[|s| - 1] == t;
    assert IsChain(fs, [p] + s);
  }

  // ---------------------------------------------------------------------------------------------
  // Load order
  // ---------------------------------------------------------------------------------------------

  /** A list of modules as loading builds it: no duplicates, all loadable, imports strictly before importers. */
  ghost predicate LoadOrder(fs: FileSystem, ms: seq<Path>) {
    && (forall i, j :: 0 <= i < j < |ms| ==> ms[i] != ms[j])
    && (forall i :: 0 <= i < |ms| ==> Loadable(fs, ms[i]))
    && forall i, q :: 0 <= i < |ms| && Imports(fs, ms[i], q) ==> q in ms[..i]
  }

  /** Along a chain of a load order positions go down, so the chain never comes back. */
  lemma {:induction false} ChainDescends(fs: FileSystem, ms: seq<Path>, s: seq<Path>, i: nat)
    requires LoadOrder(fs, ms) && IsChain(fs, s) && i < |ms| && s[0] == ms[i]
    ensures forall k :: 1 <= k < |s| ==> s[k] in ms[..i]
    decreases |s|
  {
    if |s| > 1 {
      assert Imports(fs, s[0], s[1]);
      var j :| 0 <= j < i && ms[j] == s[1];
      assert IsChain(fs, s[1..]) by { TailChain(fs, s); }
      ChainDescends(fs, ms, s[1..], j);
      forall k | 1 <= k < |s| ensures s[k] in ms[..i] {
        if k > 1 { assert s[1..][k - 1] in ms[..j]; }
      }
    }
  }

  lemma TailChain(fs: FileSystem, s: seq<Path>)
    requires IsChain(fs, s) && |s| > 1
    ensures IsChain(fs, s[1..])
  {
    forall i | 0 <= i < |s[1..]| - 1 ensures Imports(fs, s[1..][i], s[1..][i + 1]) {
      assert Imports(fs, s[i + 1], s[i + 2]);
    }
  }

  lemma SuffixChain(fs: FileSystem, s: seq<Path>, k: nat)
    requires IsChain(fs, s) && k < |s|
    ensures IsChain(fs, s[k..])
  {
    forall i | 0 <= i < |s[k..]| - 1 ensures Imports(fs, s[k..][i], s[k..][i + 1]) {
      assert Imports(fs, s[i + k], s[i + k + 1]);
    }
  }

  /** A module in a load order reaches only modules in it, all loadable and without cycles. */
  lemma LoadedHasNoTrouble(fs: FileSystem, ms: seq<Path>, root: Path)
    requires LoadOrder(fs, ms) && root in ms
    ensures !Trouble(fs, root)
    ensures forall t :: Reaches(fs, root, t) ==> t in ms
  {
    var i :| 0 <= i < |ms| && ms[i] == root;
    forall s | IsChain(fs, s) && s[0] == root ensures s[|s| - 1] in ms && !IsTrouble(fs, s) {
      ChainDescends(fs, ms, s, i);
      ChainHasNoRepeat(fs, ms, s);
    }
  }

  lemma ChainHasNoRepeat(fs: FileSystem, ms: seq<Path>, s: seq<Path>)
    requires LoadOrder(fs, ms) && IsChain(fs, s) && s[0] in ms
    requires forall k :: 0 <= k < |s| ==> s[k] in ms
    ensures !IsTrouble(fs, s)
  {
    var n := |s| - 1;
    forall k | 0 <= k < n ensures s[k] != s[n] {
      var i :| 0 <= i < |ms| && ms[i] == s[k];
      SuffixChain(fs, s, k);
      ChainDescends(fs, ms, s[k..], i);
      assert s[k..][n - k] in ms[..i];
    }
  }
}
