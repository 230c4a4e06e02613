/** `ProjectFiles` (types.ts), the virtual file system: a JavaScript object
    from file names to contents.  What the core reads of such an object
    depends on the order of `Object.keys`, which is insertion order, so the
    object is modelled as an association list with unique keys:
    assigning to an existing key keeps its place, a new key goes last. */
module Files {
  import opened Wrappers

  type Entry = (string, string)

  /** The key of the entry at `i`. */
  function KeyAt(f: seq<Entry>, i: nat): string
    requires i < |f|
  {
    f[i].0
  }

  /** No key occurs twice. */
  predicate UniqueKeys(f: seq<Entry>) {
    forall i: nat, j: nat {:trigger KeyAt(f, i), KeyAt(f, j)} :: i < j < |f| ==> KeyAt(f, i) != KeyAt(f, j)
  }

  type ProjectFiles = f: seq<Entry> | UniqueKeys(f)

  const Empty: ProjectFiles := []

  /** Two entries with one key are one entry. */
  lemma SameKey(f: ProjectFiles, i: nat, j: nat)
    requires i < |f| && j < |f|
    ensures f[i].0 == f[j].0 ==> i == j
  {
    if i < j {
      assert KeyAt(f, i) != KeyAt(f, j);
    } else if j < i {
      assert KeyAt(f, j) != KeyAt(f, i);
    }
  }

  lemma UniqueSnoc(f: seq<Entry>, e: Entry)
    requires UniqueKeys(f) && forall i :: 0 <= i < |f| ==> f[i].0 != e.0
    ensures UniqueKeys(f + [e])
  {
    var g := f + [e];
    forall i: nat, j: nat | i < j < |g|
      ensures KeyAt(g, i) != KeyAt(g, j)
    {
      if j < |f| {
        assert KeyAt(g, i) == KeyAt(f, i) && KeyAt(g, j) == KeyAt(f, j);
      } else {
        assert KeyAt(g, i) == f[i].0;
      }
    }
  }

  lemma UniqueUpdate(f: seq<Entry>, n: nat, e: Entry)
    requires UniqueKeys(f) && n < |f| && f[n].0 == e.0
    ensures UniqueKeys(f[n := e])
  {
    var g := f[n := e];
    forall i: nat, j: nat | i < j < |g|
      ensures KeyAt(g, i) != KeyAt(g, j)
    {
      assert KeyAt(g, i) == KeyAt(f, i) && KeyAt(g, j) == KeyAt(f, j);
    }
  }

  lemma UniquePrefix(f: seq<Entry>, n: nat)
    requires UniqueKeys(f) && n <= |f|
    ensures UniqueKeys(f[..n])
  {
    var g := f[..n];
    forall i: nat, j: nat | i < j < |g|
      ensures KeyAt(g, i) != KeyAt(g, j)
    {
      assert KeyAt(g, i) == KeyAt(f, i) && KeyAt(g, j) == KeyAt(f, j);
    }
  }

  /** `Object.keys(files)`. */
  function Keys(f: seq<Entry>): (r: seq<string>)
    ensures |r| == |f|
    ensures forall i :: 0 <= i < |f| ==> r[i] == f[i].0
  {
    seq(|f|, i requires 0 <= i < |f| => f[i].0)
  }

  /** The position of key `k`, if it is present. */
  function IndexOfKey(f: seq<Entry>, k: string): (r: Option<nat>)
    ensures r.Some? ==> r.value < |f| && f[r.value].0 == k
    ensures r.Some? ==> forall j :: 0 <= j < r.value ==> f[j].0 != k
    ensures r.None? ==> forall j :: 0 <= j < |f| ==> f[j].0 != k
    decreases |f|
  {
    if f == [] then None
    else if f[0].0 == k then Some(0)
    else match IndexOfKey(f[1..], k)
      case None => None
      case Some(i) => Some(i + 1)
  }

  /** `files[k]`, with `undefined` as `None`. */
  function Get(f: ProjectFiles, k: string): (r: Option<string>)
    ensures r.Some? <==> k in Keys(f)
    ensures forall i :: 0 <= i < |f| && f[i].0 == k ==> r == Some(f[i].1)
  {
    match IndexOfKey(f, k)
    case None => None
    case Some(i) =>
      assert forall j :: 0 <= j < |f| && f[j].0 == k ==> j == i by {
        forall j | 0 <= j < |f|
          ensures f[j].0 == k ==> j == i
        {
          SameKey(f, i, j);
        }
      }
      Some(f[i].1)
  }

  /** The content of `k`, or the empty string when there is none; the
      source's truthiness tests treat both alike. */
  function Content(f: ProjectFiles, k: string): string {
    Get(f, k).GetOr("")
  }

  /** `files[k] = v`. */
  function Set(f: ProjectFiles, k: string, v: string): (r: ProjectFiles)
    ensures Get(r, k) == Some(v)
    ensures forall k' :: k' != k ==> Get(r, k') == Get(f, k')
    ensures k in Keys(f) ==> Keys(r) == Keys(f)
    ensures k !in Keys(f) ==> Keys(r) == Keys(f) + [k]
  {
    match IndexOfKey(f, k)
    case None =>
      assert Keys(f + [(k, v)]) == Keys(f) + [k];
      UniqueSnoc(f, (k, v));
      f + [(k, v)]
    case Some(i) =>
      assert Keys(f[i := (k, v)]) == Keys(f);
      UniqueUpdate(f, i, (k, v));
      f[i := (k, v)]
  }

  /** The entries assigned one after the other, `f[k] = v` for each `(k, v)`
      of `es` in order (the upload loop; a spread when `es` is an object). */
  function AssignAll(f: ProjectFiles, es: seq<Entry>): ProjectFiles
    decreases |es|
  {
    if es == [] then f else AssignAll(Set(f, es[0].0, es[0].1), es[1..])
  }

  /** The value the last entry of `es` with key `k` carries: the reference
      definition of "last write wins", read from the back. */
  function LastAssigned(es: seq<Entry>, k: string): (r: Option<string>)
    ensures r.Some? <==> exists i :: 0 <= i < |es| && es[i].0 == k
    ensures r.Some? ==> exists i :: 0 <= i < |es| && es[i] == (k, r.value) && forall j :: i < j < |es| ==> es[j].0 != k
    decreases |es|
  {
    if es == [] then None
    else if es[|es| - 1].0 == k then Some(es[|es| - 1].1)
    else LastAssigned(es[..|es| - 1], k)
  }

  /** Assigning one more entry at the end is one more `Set`. */
  lemma {:induction false} AssignAllSnoc(f: ProjectFiles, es: seq<Entry>, e: Entry)
    ensures AssignAll(f, es + [e]) == Set(AssignAll(f, es), e.0, e.1)
    decreases |es|
  {
    if es == [] {
      assert es + [e] == [e];
    } else {
      assert (es + [e])[1..] == es[1..] + [e];
      AssignAllSnoc(Set(f, es[0].0, es[0].1), es[1..], e);
    }
  }

  /** Last write wins: after the assignments, a key holds the value of the
      last entry that names it, and keeps its old value if none does. */
  lemma {:induction false} AssignAllGet(f: ProjectFiles, es: seq<Entry>, k: string)
    ensures Get(AssignAll(f, es), k) == match LastAssigned(es, k)
      case Some(v) => Some(v)
      case None => Get(f, k)
    decreases |es|
  {
    if es != [] {
      var init := es[..|es| - 1];
      assert es == init + [es[|es| - 1]];
      AssignAllSnoc(f, init, es[|es| - 1]);
      AssignAllGet(f, init, k);
    }
  }

  /** The keys already present keep their order at the front. */
  lemma {:induction false} AssignAllKeys(f: ProjectFiles, es: seq<Entry>)
    ensures |AssignAll(f, es)| >= |f| && Keys(AssignAll(f, es))[..|f|] == Keys(f)
    decreases |es|
  {
    if es != [] {
      var f' := Set(f, es[0].0, es[0].1);
      AssignAllKeys(f', es[1..]);
      assert Keys(f')[..|f|] == Keys(f);
    }
  }

  /** `{ ...a, ...b }`: the entries of `b` assigned, in order, onto a copy
      of `a`. */
  function Merge(a: ProjectFiles, b: ProjectFiles): ProjectFiles {
    AssignAll(a, b)
  }

  /** In a merge a key of `b` gets `b`'s value and every other key keeps
      `a`'s; the keys of `a` keep their order and come first. */
  lemma MergeGet(a: ProjectFiles, b: ProjectFiles, k: string)
    ensures Get(Merge(a, b), k) == if k in Keys(b) then Get(b, k) else Get(a, k)
    ensures |Merge(a, b)| >= |a| && Keys(Merge(a, b))[..|a|] == Keys(a)
  {
    AssignAllGet(a, b, k);
    AssignAllKeys(a, b);
    UniqueLastAssigned(b, k);
  }

  /** With unique keys the last entry for a key is its only one. */
  lemma {:induction false} UniqueLastAssigned(b: ProjectFiles, k: string)
    ensures LastAssigned(b, k) == Get(b, k)
    decreases |b|
  {
    if b != [] {
      UniquePrefix(b, |b| - 1);
      var init: ProjectFiles := b[..|b| - 1];
      UniqueLastAssigned(init, k);
      if b[|b| - 1].0 != k {
        assert Keys(b) == Keys(init) + [b[|b| - 1].0];
        if k in Keys(init) {
          var i :| 0 <= i < |init| && init[i].0 == k;
          assert b[i] == init[i];
        }
      }
    }
  }

  /** A key not yet present goes last. */
  lemma SetNew(f: ProjectFiles, k: string, v: string)
    requires k !in Keys(f)
    ensures Set(f, k, v) == f + [(k, v)]
  {
    match IndexOfKey(f, k) {
      case None =>
      case Some(i) =>
        assert false;
    }
  }

  /** `{ ...b }`: spreading an object into an empty one copies it, entry for
      entry and in the same order. */
  lemma MergeEmpty(b: ProjectFiles)
    ensures Merge(Empty, b) == b
  {
    MergePrefix(b, |b|);
    assert b[..|b|] == b;
  }

  lemma {:induction false} MergePrefix(b: ProjectFiles, n: nat)
    requires n <= |b|
    ensures AssignAll(Empty, b[..n]) == b[..n]
  {
    if n > 0 {
      MergePrefix(b, n - 1);
      UniquePrefix(b, n - 1);
      var init: ProjectFiles := b[..n - 1];
      assert b[..n] == init + [b[n - 1]];
      AssignAllSnoc(Empty, init, b[n - 1]);
      forall i | 0 <= i < |init|
        ensures Keys(init)[i] != b[n - 1].0
      {
        SameKey(b, i, n - 1);
      }
      SetNew(init, b[n - 1].0, b[n - 1].1);
    }
  }
}
