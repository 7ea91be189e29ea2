/**
  The dataset filter `scripts/filter_import_dataset.py`: per batch of raw
  projects, drop the source files with too few imports, then the projects
  with too few files left, then every project whose imports were already
  seen, as told by the md5 digest of an order-insensitive rendering of
  them.

  Reading and writing the gzipped JSON files and the command line are not
  modelled: the batches are the input and the processed batches the
  output. The digest is a function parameter about which nothing is known
  except, where a lemma says so, that it is never one character long.
 */
module Dataset {
  import opened Wrappers
  import opened Text
  import opened Dicts

  // ---------------------------------------------------------------- sorting

  /** Python's `<=` on strings: code point by code point, a proper prefix first. */
  predicate StrLe(a: string, b: string)
    decreases |a|
  {
    |a| == 0 || (|b| > 0 && (a[0] < b[0] || (a[0] == b[0] && StrLe(a[1..], b[1..]))))
  }

  lemma {:induction false} StrLeTotal(a: string, b: string)
    ensures StrLe(a, b) || StrLe(b, a)
    decreases |a|
  {
    if |a| > 0 && |b| > 0 && a[0] == b[0] {
      StrLeTotal(a[1..], b[1..]);
    }
  }

  lemma {:induction false} StrLeAntisymmetric(a: string, b: string)
    requires StrLe(a, b) && StrLe(b, a)
    ensures a == b
    decreases |a|
  {
    if |a| > 0 {
      StrLeAntisymmetric(a[1..], b[1..]);
      assert a == [a[0]] + a[1..] && b == [b[0]] + b[1..];
    }
  }

  lemma {:induction false} StrLeTransitive(a: string, b: string, c: string)
    requires StrLe(a, b) && StrLe(b, c)
    ensures StrLe(a, c)
    decreases |a|
  {
    if |a| > 0 && a[0] == b[0] && b[0] == c[0] {
      StrLeTransitive(a[1..], b[1..], c[1..]);
    }
  }

  predicate Sorted(xs: seq<string>) {
    forall i, j :: 0 <= i < j < |xs| ==> StrLe(xs[i], xs[j])
  }

  /** `x` put into a sorted list before the first element it does not exceed. */
  function Insert(x: string, xs: seq<string>): seq<string>
    decreases |xs|
  {
    if |xs| == 0 then [x]
    else if StrLe(x, xs[0]) then [x] + xs
    else [xs[0]] + Insert(x, xs[1..])
  }

  /** Python's `sorted` on a list of strings. */
  function Sort(xs: seq<string>): seq<string>
    decreases |xs|
  {
    if |xs| == 0 then [] else Insert(xs[0], Sort(xs[1..]))
  }

  lemma {:induction false} InsertMultiset(x: string, xs: seq<string>)
    ensures multiset(Insert(x, xs)) == multiset(xs) + multiset{x}
    decreases |xs|
  {
    if |xs| > 0 && !StrLe(x, xs[0]) {
      InsertMultiset(x, xs[1..]);
      assert xs == [xs[0]] + xs[1..];
    }
  }

  /** A list that starts with a lower bound of a sorted rest is sorted. */
  lemma SortedCons(y: string, rest: seq<string>)
    requires Sorted(rest) && forall j :: 0 <= j < |rest| ==> StrLe(y, rest[j])
    ensures Sorted([y] + rest)
  {
    var r := [y] + rest;
    forall i, j | 0 <= i < j < |r| ensures StrLe(r[i], r[j]) {
      if i > 0 {
        assert r[i] == rest[i - 1] && r[j] == rest[j - 1];
      } else {
        assert r[j] == rest[j - 1];
      }
    }
  }

  lemma {:induction false} InsertSorted(x: string, xs: seq<string>)
    requires Sorted(xs)
    ensures Sorted(Insert(x, xs))
    decreases |xs|
  {
    if |xs| > 0 && !StrLe(x, xs[0]) {
      var rest := Insert(x, xs[1..]);
      assert Sorted(xs[1..]) by {
        forall i, j | 0 <= i < j < |xs[1..]| ensures StrLe(xs[1..][i], xs[1..][j]) {
          assert xs[1..][i] == xs[i + 1] && xs[1..][j] == xs[j + 1];
        }
      }
      InsertSorted(x, xs[1..]);
      InsertMultiset(x, xs[1..]);
      StrLeTotal(x, xs[0]);
      forall j | 0 <= j < |rest| ensures StrLe(xs[0], rest[j]) {
        assert rest[j] in multiset(rest);
        if rest[j] != x {
          assert rest[j] in multiset(xs[1..]);
          var k :| 0 <= k < |xs[1..]| && xs[1..][k] == rest[j];
          assert xs[k + 1] == rest[j];
        }
      }
      SortedCons(xs[0], rest);
    } else if |xs| > 0 {
      forall j | 0 <= j < |xs| ensures StrLe(x, xs[j]) {
        if j > 0 {
          StrLeTransitive(x, xs[0], xs[j]);
        }
      }
      SortedCons(x, xs);
    }
  }

  /** `sorted` sorts and permutes. */
  lemma {:induction false} SortProperties(xs: seq<string>)
    ensures Sorted(Sort(xs)) && multiset(Sort(xs)) == multiset(xs)
    decreases |xs|
  {
    if |xs| > 0 {
      SortProperties(xs[1..]);
      InsertMultiset(xs[0], Sort(xs[1..]));
      InsertSorted(xs[0], Sort(xs[1..]));
      assert xs == [xs[0]] + xs[1..];
    }
  }

  /** The head of a sorted list is below every element of it. */
  lemma SortedHead(a: seq<string>, x: string)
    requires Sorted(a) && x in multiset(a)
    ensures StrLe(a[0], x)
  {
    var i :| 0 <= i < |a| && a[i] == x;
    if i == 0 {
      StrLeTotal(x, x);
    }
  }

  lemma SortedTail(a: seq<string>)
    requires Sorted(a) && |a| > 0
    ensures Sorted(a[1..])
  {
    forall p, q | 0 <= p < q < |a[1..]| ensures StrLe(a[1..][p], a[1..][q]) {
      assert a[1..][p] == a[p + 1] && a[1..][q] == a[q + 1];
    }
  }

  lemma MultisetTail(a: seq<string>)
    requires |a| > 0
    ensures multiset(a[1..]) == multiset(a) - multiset{a[0]}
  {
    assert a == [a[0]] + a[1..];
  }

  /** Two sorted lists of the same strings are equal. */
  lemma {:induction false} SortedUnique(a: seq<string>, b: seq<string>)
    requires Sorted(a) && Sorted(b) && multiset(a) == multiset(b)
    ensures a == b
    decreases |a|
  {
    SameLength(a, b);
    if |a| > 0 {
      SameHead(a, b);
      SortedTail(a);
      SortedTail(b);
      SortedUnique(a[1..], b[1..]);
      ConsEqual(a, b);
    }
  }

  lemma SameLength(a: seq<string>, b: seq<string>)
    requires multiset(a) == multiset(b)
    ensures |a| == |b|
  {
    assert |a| == |multiset(a)| && |b| == |multiset(b)|;
  }

  /** Sorted lists of the same strings start with the same string, and the rests hold the same strings. */
  lemma SameHead(a: seq<string>, b: seq<string>)
    requires Sorted(a) && Sorted(b) && multiset(a) == multiset(b) && |a| > 0 && |b| > 0
    ensures a[0] == b[0] && multiset(a[1..]) == multiset(b[1..])
  {
    assert a[0] in multiset(b) && b[0] in multiset(a);
    SortedHead(a, b[0]);
    SortedHead(b, a[0]);
    StrLeAntisymmetric(a[0], b[0]);
    MultisetTail(a);
    MultisetTail(b);
  }

  lemma ConsEqual(a: seq<string>, b: seq<string>)
    requires |a| > 0 && |b| > 0 && a[0] == b[0] && a[1..] == b[1..]
    ensures a == b
  {
    assert a == [a[0]] + a[1..] && b == [b[0]] + b[1..];
  }

  /** `sorted` gives the same list for every ordering of the same strings. */
  lemma SortPermutation(a: seq<string>, b: seq<string>)
    requires multiset(a) == multiset(b)
    ensures Sort(a) == Sort(b)
  {
    SortProperties(a);
    SortProperties(b);
    SortedUnique(Sort(a), Sort(b));
  }

  // ---------------------------------------------------------------- the hash

  /** The imports of every source file of a project, by file name. */
  type FileImports = Dict<string, seq<string>>

  /** The projects of a batch, by project name. */
  type Projects = Dict<string, FileImports>

  function MapSeq<T, U>(xs: seq<T>, f: T -> U): (r: seq<U>)
    ensures |r| == |xs| && forall i :: 0 <= i < |xs| ==> r[i] == f(xs[i])
  {
    seq(|xs|, i requires 0 <= i < |xs| => f(xs[i]))
  }

  /** Taking out one element: of the list, and of its image. */
  lemma MapSeqRemove<T, U>(ys: seq<T>, j: nat, f: T -> U)
    requires j < |ys|
    ensures multiset(ys[..j] + ys[j + 1..]) == multiset(ys) - multiset{ys[j]}
    ensures multiset(MapSeq(ys, f)) == multiset(MapSeq(ys[..j] + ys[j + 1..], f)) + multiset{f(ys[j])}
  {
    assert ys == ys[..j] + [ys[j]] + ys[j + 1..];
    var m := MapSeq(ys, f);
    assert m == m[..j] + [f(ys[j])] + m[j + 1..];
    assert MapSeq(ys[..j] + ys[j + 1..], f) == m[..j] + m[j + 1..];
  }

  lemma MapSeqHead<T, U>(xs: seq<T>, f: T -> U)
    requires |xs| > 0
    ensures multiset(xs[1..]) == multiset(xs) - multiset{xs[0]}
    ensures multiset(MapSeq(xs, f)) == multiset(MapSeq(xs[1..], f)) + multiset{f(xs[0])}
  {
    assert xs == [xs[0]] + xs[1..];
    assert MapSeq(xs, f) == [f(xs[0])] + MapSeq(xs[1..], f);
  }

  /** Mapping the same elements in another order maps them to the same elements. */
  lemma {:induction false} MapSeqMultiset<T, U>(xs: seq<T>, ys: seq<T>, f: T -> U)
    requires multiset(xs) == multiset(ys)
    ensures multiset(MapSeq(xs, f)) == multiset(MapSeq(ys, f))
    decreases |xs|
  {
    if |xs| > 0 {
      var x := xs[0];
      assert x in multiset(ys) by {
        assert x in multiset(xs);
      }
      assert x in ys;
      var j :| 0 <= j < |ys| && ys[j] == x;
      var rest := ys[..j] + ys[j + 1..];
      MapSeqRemove(ys, j, f);
      MapSeqHead(xs, f);
      assert multiset(xs[1..]) == multiset(rest);
      MapSeqMultiset(xs[1..], rest, f);
      var a, b := multiset(MapSeq(xs[1..], f)), multiset(MapSeq(rest, f));
      assert a == b;
      assert multiset(MapSeq(xs, f)) == a + multiset{f(x)};
      assert multiset(MapSeq(ys, f)) == b + multiset{f(x)};
    } else {
      assert ys == [] by {
        assert |ys| == |multiset(ys)|;
      }
    }
  }

  /** The string of one file: its imports sorted and joined with `|`. */
  function FileString(imports: seq<string>): string {
    Join(Sort(imports), "|")
  }

  function EntryString(entry: (string, seq<string>)): string {
    FileString(entry.1)
  }

  /** The string `create_hash` digests: the file strings of all files, sorted and joined with `|`. */
  function HashInput(fileimports: FileImports): string {
    Join(Sort(MapSeq(fileimports, EntryString)), "|")
  }

  /** `create_hash(fileimports)`: the digest of the string. */
  function CreateHash(md5: string -> string, fileimports: FileImports): string {
    md5(HashInput(fileimports))
  }

  /** Reordering the imports inside each file does not change the string. */
  lemma HashInputImportsPermuted(d: FileImports, e: FileImports)
    requires |d| == |e| && forall i :: 0 <= i < |d| ==> multiset(d[i].1) == multiset(e[i].1)
    ensures HashInput(d) == HashInput(e)
  {
    forall i | 0 <= i < |d| ensures EntryString(d[i]) == EntryString(e[i]) {
      SortPermutation(d[i].1, e[i].1);
    }
    assert MapSeq(d, EntryString) == MapSeq(e, EntryString);
  }

  /** Reordering the files, each with its name, does not change the string. */
  lemma HashInputFilesPermuted(d: FileImports, e: FileImports)
    requires multiset(d) == multiset(e)
    ensures HashInput(d) == HashInput(e)
  {
    MapSeqMultiset(d, e, EntryString);
    SortPermutation(MapSeq(d, EntryString), MapSeq(e, EntryString));
  }

  // ---------------------------------------------------------------- the filters

  /** The minimum number of imports of a source file. */
  const MinSrcFileImports: nat := 1
  /** The minimum number of remaining source files of a project. */
  const MinSrcFiles: nat := 1

  /**
    `{filename: imports for filename, imports in fileimports.items() if
    len(imports) >= minimum}`: on a dictionary, whose keys are unique,
    the pairs that pass, in order.
   */
  function KeepFiles(fileimports: FileImports, minimum: nat): (r: FileImports)
    decreases |fileimports|
  {
    if |fileimports| == 0 then []
    else
      var last := fileimports[|fileimports| - 1];
      KeepFiles(fileimports[..|fileimports| - 1], minimum) + (if |last.1| >= minimum then [last] else [])
  }

  /** The project filter: the projects with at least `minimum` files, in order. */
  function KeepProjects(projects: Projects, minimum: nat): (r: Projects)
    decreases |projects|
  {
    if |projects| == 0 then []
    else
      var last := projects[|projects| - 1];
      KeepProjects(projects[..|projects| - 1], minimum) + (if |last.1| >= minimum then [last] else [])
  }

  /** The file filter applied to every project: every project stays, in order, with its kept files. */
  function FilterFiles(projects: Projects, minimum: nat): (r: Projects)
    ensures Keys(r) == Keys(projects)
  {
    seq(|projects|, i requires 0 <= i < |projects| => (projects[i].0, KeepFiles(projects[i].1, minimum)))
  }

  /** The pairs the file filter keeps are exactly those with enough imports. */
  lemma {:induction false} KeepFilesMembers(fileimports: FileImports, minimum: nat)
    ensures forall kv :: kv in KeepFiles(fileimports, minimum) <==> kv in fileimports && |kv.1| >= minimum
    ensures |KeepFiles(fileimports, minimum)| <= |fileimports|
    decreases |fileimports|
  {
    if |fileimports| > 0 {
      var init := fileimports[..|fileimports| - 1];
      KeepFilesMembers(init, minimum);
      assert fileimports == init + [fileimports[|fileimports| - 1]];
    }
  }

  /** The projects the project filter keeps are exactly those with enough files. */
  lemma {:induction false} KeepProjectsMembers(projects: Projects, minimum: nat)
    ensures forall kv :: kv in KeepProjects(projects, minimum) <==> kv in projects && |kv.1| >= minimum
    ensures |KeepProjects(projects, minimum)| <= |projects|
    decreases |projects|
  {
    if |projects| > 0 {
      var init := projects[..|projects| - 1];
      KeepProjectsMembers(init, minimum);
      assert projects == init + [projects[|projects| - 1]];
    }
  }

  /** The two threshold filters of one batch, in the order the script applies them. */
  function Prepared(batch: Projects): Projects {
    KeepProjects(FilterFiles(batch, MinSrcFileImports), MinSrcFiles)
  }

  /**
    After the filters, a project is there, with the files of its own that
    have an import, exactly when it had such a file.
   */
  lemma PreparedMembers(batch: Projects, name: string, files: FileImports)
    ensures (name, files) in Prepared(batch) <==>
      exists i :: 0 <= i < |batch| && batch[i].0 == name && files == KeepFiles(batch[i].1, MinSrcFileImports) && |files| >= MinSrcFiles
  {
    var filtered := FilterFiles(batch, MinSrcFileImports);
    KeepProjectsMembers(filtered, MinSrcFiles);
    if (name, files) in filtered {
      var i :| 0 <= i < |filtered| && filtered[i] == (name, files);
    }
    if exists i :: 0 <= i < |batch| && batch[i].0 == name && files == KeepFiles(batch[i].1, MinSrcFileImports) && |files| >= MinSrcFiles {
      var i :| 0 <= i < |batch| && batch[i].0 == name && files == KeepFiles(batch[i].1, MinSrcFileImports) && |files| >= MinSrcFiles;
      assert filtered[i] == (name, files);
    }
  }

  // ---------------------------------------------------------------- deduplication

  /** `set(d.values())`. */
  function ValueSet(d: Dict<string, string>): set<string> {
    set i | 0 <= i < |d| :: d[i].1
  }

  /** What `refhashes.update(h)` adds: every character of `h`, as a string of length one. */
  function HashChars(h: string): (r: set<string>)
    ensures forall c :: c in r ==> |c| == 1
  {
    set i | 0 <= i < |h| :: [h[i]]
  }

  /** The state of the loop of `dedup_projects`: the reference set, the reference map, and the projects kept so far. */
  datatype DedupState = DedupState(refhashes: set<string>, hashes: Dict<string, string>, kept: Projects)

  /** One project: kept, and written into the reference map with its hash, when the hash is not in the reference set. */
  function DedupStep(md5: string -> string, st: DedupState, project: (string, FileImports)): DedupState {
    var h := CreateHash(md5, project.1);
    if h !in st.refhashes then
      DedupState(st.refhashes + HashChars(h), Put(st.hashes, project.0, h), Put(st.kept, project.0, project.1))
    else st
  }

  function DedupRun(md5: string -> string, st: DedupState, projects: Projects): DedupState
    decreases |projects|
  {
    if |projects| == 0 then st
    else DedupStep(md5, DedupRun(md5, st, projects[..|projects| - 1]), projects[|projects| - 1])
  }

  /** `dedup_projects(hashes, projects)` as a function of the reference map on entry. */
  function Dedup(md5: string -> string, hashes: Dict<string, string>, projects: Projects): DedupState {
    DedupRun(md5, DedupState(ValueSet(hashes), hashes, []), projects)
  }

  /** The reference map of project hashes, which `dedup_projects` updates in place across batches. */
  class DedupIndex {
    var hashes: Dict<string, string>

    constructor ()
      ensures hashes == []
    {
      hashes := [];
    }

    /** `dedup_projects(self.hashes, projects)`: the projects whose hash was not seen, while recording them. */
    method DedupProjects(md5: string -> string, projects: Projects) returns (kept: Projects)
      modifies this
      ensures kept == Dedup(md5, old(hashes), projects).kept
      ensures hashes == Dedup(md5, old(hashes), projects).hashes
    {
      kept := [];
      var refhashes := ValueSet(hashes);
      ghost var start := DedupState(refhashes, hashes, []);
      for i := 0 to |projects|
        invariant DedupRun(md5, start, projects[..i]) == DedupState(refhashes, hashes, kept)
      {
        var project := projects[i].0;
        var fileimports := projects[i].1;
        assert projects[..i + 1][..i] == projects[..i];
        var projecthash := CreateHash(md5, fileimports);
        if projecthash !in refhashes {
          hashes := Put(hashes, project, projecthash);
          refhashes := refhashes + HashChars(projecthash);
          kept := Put(kept, project, fileimports);
        }
      }
      assert projects[..|projects|] == projects;
    }
  }

  /** Digests that are never one character long, as md5's 32 hexadecimal digits are not. */
  ghost predicate NoOneCharDigest(md5: string -> string) {
    forall s :: |md5(s)| != 1
  }

  /** The projects whose hash is not in `ref`, in order. */
  function Fresh(md5: string -> string, ref: set<string>, projects: Projects): Projects
    decreases |projects|
  {
    if |projects| == 0 then []
    else
      var last := projects[|projects| - 1];
      Fresh(md5, ref, projects[..|projects| - 1]) + (if CreateHash(md5, last.1) !in ref then [last] else [])
  }

  /** Each project with its hash. */
  function HashPairs(md5: string -> string, projects: Projects): (r: Dict<string, string>)
    ensures |r| == |projects| && forall i :: 0 <= i < |projects| ==> r[i] == (projects[i].0, CreateHash(md5, projects[i].1))
  {
    seq(|projects|, i requires 0 <= i < |projects| => (projects[i].0, CreateHash(md5, projects[i].1)))
  }

  function HashedValue(md5: string -> string, f: Option<FileImports>): Option<string> {
    match f
    case None => None
    case Some(files) => Some(CreateHash(md5, files))
  }

  /** The pairs have the projects' keys, in order, and each project's value is its hash. */
  lemma HashPairsKeys(md5: string -> string, projects: Projects)
    ensures Keys(HashPairs(md5, projects)) == Keys(projects)
    ensures forall k :: Get(HashPairs(md5, projects), k) == HashedValue(md5, Get(projects, k))
  {
    var r := HashPairs(md5, projects);
    assert Keys(r) == Keys(projects);
  }

  /** One step keeps the reference set `ref` plus strings of one character, and keeps a project exactly when its hash is not in `ref`. */
  lemma DedupStepFresh(md5: string -> string, st: DedupState, ref: set<string>, project: (string, FileImports))
    requires NoOneCharDigest(md5)
    requires ref <= st.refhashes && forall r :: r in st.refhashes ==> r in ref || |r| == 1
    ensures ref <= DedupStep(md5, st, project).refhashes
    ensures forall r :: r in DedupStep(md5, st, project).refhashes ==> r in ref || |r| == 1
    ensures CreateHash(md5, project.1) in ref ==> DedupStep(md5, st, project) == st
    ensures CreateHash(md5, project.1) !in ref ==>
      DedupStep(md5, st, project).kept == Put(st.kept, project.0, project.1) &&
      DedupStep(md5, st, project).hashes == Put(st.hashes, project.0, CreateHash(md5, project.1))
  {
    var h := CreateHash(md5, project.1);
    assert |h| != 1;
  }

  /** The loop keeps the reference set at `ref` plus strings of one character. */
  lemma {:induction false} DedupRunRefs(md5: string -> string, st: DedupState, ref: set<string>, projects: Projects)
    requires NoOneCharDigest(md5)
    requires ref <= st.refhashes && forall r :: r in st.refhashes ==> r in ref || |r| == 1
    ensures ref <= DedupRun(md5, st, projects).refhashes
    ensures forall r :: r in DedupRun(md5, st, projects).refhashes ==> r in ref || |r| == 1
    decreases |projects|
  {
    if |projects| > 0 {
      DedupRunRefs(md5, st, ref, projects[..|projects| - 1]);
      DedupStepFresh(md5, DedupRun(md5, st, projects[..|projects| - 1]), ref, projects[|projects| - 1]);
    }
  }

  /** Hashing one more project appends its pair. */
  lemma HashPairsSnoc(md5: string -> string, projects: Projects, project: (string, FileImports))
    ensures HashPairs(md5, projects + [project]) == HashPairs(md5, projects) + [(project.0, CreateHash(md5, project.1))]
  {
    var l := HashPairs(md5, projects + [project]);
    var r := HashPairs(md5, projects) + [(project.0, CreateHash(md5, project.1))];
    forall i | 0 <= i < |l| ensures l[i] == r[i] {
      if i < |projects| {
        assert (projects + [project])[i] == projects[i];
      }
    }
  }

  /**
    The loop from any state whose reference set is `ref` plus strings of
    one character: with digests that are never one character long, each
    project is kept exactly when its hash is not in `ref`, and the kept
    projects and their hashes are assigned in order.
   */
  lemma {:induction false} DedupRunFresh(md5: string -> string, st: DedupState, ref: set<string>, projects: Projects)
    requires NoOneCharDigest(md5)
    requires ref <= st.refhashes && forall r :: r in st.refhashes ==> r in ref || |r| == 1
    ensures DedupRun(md5, st, projects).kept == PutAll(st.kept, Fresh(md5, ref, projects))
    ensures DedupRun(md5, st, projects).hashes == PutAll(st.hashes, HashPairs(md5, Fresh(md5, ref, projects)))
    decreases |projects|
  {
    if |projects| > 0 {
      var init := projects[..|projects| - 1];
      var last := projects[|projects| - 1];
      DedupRunFresh(md5, st, ref, init);
      DedupRunRefs(md5, st, ref, init);
      var mid := DedupRun(md5, st, init);
      DedupStepFresh(md5, mid, ref, last);
      var h := CreateHash(md5, last.1);
      var kept := Fresh(md5, ref, init);
      if h !in ref {
        assert Fresh(md5, ref, projects) == kept + [last];
        PutAllSnoc(st.kept, kept, last);
        HashPairsSnoc(md5, kept, last);
        PutAllSnoc(st.hashes, HashPairs(md5, kept), (last.0, h));
      } else {
        assert Fresh(md5, ref, projects) == kept;
      }
    }
  }

  /** Put on a fresh key, assignments of distinct keys append. */
  lemma {:induction false} PutAllDistinct(kvs: Projects)
    requires UniqueKeys(kvs)
    ensures PutAll([], kvs) == kvs
    decreases |kvs|
  {
    if |kvs| > 0 {
      var init := kvs[..|kvs| - 1];
      assert Keys(init) == Keys(kvs)[..|kvs| - 1];
      assert UniqueKeys(init);
      PutAllDistinct(init);
      assert kvs[|kvs| - 1].0 !in Keys(init) by {
        assert Keys(kvs)[|kvs| - 1] == kvs[|kvs| - 1].0;
      }
      assert IndexOf(Keys(init), kvs[|kvs| - 1].0).None?;
    }
  }

  /** The projects the filter keeps: exactly those of the batch whose hash is not in `ref`. */
  lemma {:induction false} FreshMembers(md5: string -> string, ref: set<string>, projects: Projects)
    ensures forall p :: p in Fresh(md5, ref, projects) <==> p in projects && CreateHash(md5, p.1) !in ref
    decreases |projects|
  {
    if |projects| > 0 {
      var init := projects[..|projects| - 1];
      FreshMembers(md5, ref, init);
      assert projects == init + [projects[|projects| - 1]];
    }
  }

  /** The filter keeps no name the batch does not have. */
  lemma {:induction false} FreshKeys(md5: string -> string, ref: set<string>, projects: Projects)
    ensures forall k :: k in Keys(Fresh(md5, ref, projects)) ==> k in Keys(projects)
    decreases |projects|
  {
    if |projects| > 0 {
      var init := projects[..|projects| - 1];
      var last := projects[|projects| - 1];
      FreshKeys(md5, ref, init);
      var f := Fresh(md5, ref, init);
      forall k | k in Keys(Fresh(md5, ref, projects)) ensures k in Keys(projects) {
        if k in Keys(f) {
          assert k in Keys(init);
          assert Keys(init) == Keys(projects)[..|projects| - 1];
        } else {
          assert CreateHash(md5, last.1) !in ref;
          assert Keys(f + [last]) == Keys(f) + [last.0];
          assert Keys(projects)[|projects| - 1] == last.0;
        }
      }
    }
  }

  /** Keeping some projects of a dictionary, in order, keeps the keys unique. */
  lemma {:induction false} FreshUnique(md5: string -> string, ref: set<string>, projects: Projects)
    requires UniqueKeys(projects)
    ensures UniqueKeys(Fresh(md5, ref, projects))
    decreases |projects|
  {
    if |projects| > 0 {
      var init := projects[..|projects| - 1];
      var last := projects[|projects| - 1];
      assert Keys(init) == Keys(projects)[..|projects| - 1];
      FreshUnique(md5, ref, init);
      FreshKeys(md5, ref, init);
      var f := Fresh(md5, ref, init);
      if CreateHash(md5, last.1) !in ref {
        assert last.0 !in Keys(f) by {
          assert Keys(projects)[|projects| - 1] == last.0;
        }
        assert Keys(f + [last]) == Keys(f) + [last.0];
      }
    }
  }

  /**
    `dedup_projects` on a batch with distinct project names, and digests
    never one character long: it returns, in order and with their values,
    exactly the projects whose hash was not among the reference map's
    values on entry, and assigns each of them its hash in the reference
    map, touching no other key. Two projects of one batch with the same
    new hash are therefore both kept: the reference set only ever gains
    the hash's characters.
   */
  lemma DedupSpec(md5: string -> string, hashes: Dict<string, string>, projects: Projects)
    requires NoOneCharDigest(md5) && UniqueKeys(projects)
    ensures Dedup(md5, hashes, projects).kept == Fresh(md5, ValueSet(hashes), projects)
    ensures Dedup(md5, hashes, projects).hashes == PutAll(hashes, HashPairs(md5, Fresh(md5, ValueSet(hashes), projects)))
  {
    DedupRunFresh(md5, DedupState(ValueSet(hashes), hashes, []), ValueSet(hashes), projects);
    FreshUnique(md5, ValueSet(hashes), projects);
    PutAllDistinct(Fresh(md5, ValueSet(hashes), projects));
  }

  /** A project of the batch is returned exactly when its hash was not among the reference map's values on entry. */
  lemma DedupMembers(md5: string -> string, hashes: Dict<string, string>, projects: Projects)
    requires NoOneCharDigest(md5) && UniqueKeys(projects)
    ensures forall p :: p in Dedup(md5, hashes, projects).kept <==> p in projects && CreateHash(md5, p.1) !in ValueSet(hashes)
  {
    DedupSpec(md5, hashes, projects);
    FreshMembers(md5, ValueSet(hashes), projects);
  }

  /** After the call the reference map holds, for every returned project, that project's hash. */
  lemma DedupRecords(md5: string -> string, hashes: Dict<string, string>, projects: Projects)
    requires NoOneCharDigest(md5) && UniqueKeys(projects)
    ensures forall p :: p in Dedup(md5, hashes, projects).kept ==> Get(Dedup(md5, hashes, projects).hashes, p.0) == Some(CreateHash(md5, p.1))
  {
    DedupSpec(md5, hashes, projects);
    var f := Fresh(md5, ValueSet(hashes), projects);
    var hp := HashPairs(md5, f);
    FreshUnique(md5, ValueSet(hashes), projects);
    PutAllGet(hashes, hp);
    assert Keys(hp) == Keys(f);
    forall p | p in f ensures Get(PutAll(hashes, hp), p.0) == Some(CreateHash(md5, p.1)) {
      var i :| 0 <= i < |f| && f[i] == p;
      assert Keys(hp)[i] == p.0;
      var j := LastIndexOf(Keys(hp), p.0).value;
      assert Keys(f)[j] == Keys(f)[i];
      assert i == j;
    }
  }

  /**
    Two projects of one batch with the same hash, not seen before, are both
    returned: the reference set gains only the hash's characters, not the
    hash itself.
   */
  lemma DedupKeepsTwins(md5: string -> string, hashes: Dict<string, string>, projects: Projects, i: nat, j: nat)
    requires NoOneCharDigest(md5) && UniqueKeys(projects)
    requires i < j < |projects| && CreateHash(md5, projects[i].1) == CreateHash(md5, projects[j].1)
    requires CreateHash(md5, projects[i].1) !in ValueSet(hashes)
    ensures projects[i] in Dedup(md5, hashes, projects).kept && projects[j] in Dedup(md5, hashes, projects).kept
  {
    DedupMembers(md5, hashes, projects);
  }

  /** The loop never keeps more projects than it is given. */
  lemma {:induction false} DedupRunShrinks(md5: string -> string, st: DedupState, projects: Projects)
    ensures |DedupRun(md5, st, projects).kept| <= |st.kept| + |projects|
    decreases |projects|
  {
    if |projects| > 0 {
      var init := projects[..|projects| - 1];
      var last := projects[|projects| - 1];
      DedupRunShrinks(md5, st, init);
      var mid := DedupRun(md5, st, init);
      assert |Keys(Put(mid.kept, last.0, last.1))| <= |Keys(mid.kept)| + 1;
    }
  }

  // ---------------------------------------------------------------- the driver

  /** Whether import-duplicate projects are filtered. */
  const FilterDuplicates: bool := true

  /** What the driver loop carries: the reference map, the processed batches and the two counters. */
  datatype Totals = Totals(hashes: Dict<string, string>, processed: seq<Projects>, nraw: nat, ndedup: nat)

  /** One batch: the two filters, counted, then deduplication, counted. */
  function DriverStep(md5: string -> string, t: Totals, batch: Projects): Totals {
    var projects := Prepared(batch);
    var deduped := if FilterDuplicates then Dedup(md5, t.hashes, projects) else DedupState({}, t.hashes, projects);
    Totals(deduped.hashes, t.processed + [deduped.kept], t.nraw + |projects|, t.ndedup + |deduped.kept|)
  }

  function Driver(md5: string -> string, batches: seq<Projects>): Totals
    decreases |batches|
  {
    if |batches| == 0 then Totals([], [], 0, 0)
    else DriverStep(md5, Driver(md5, batches[..|batches| - 1]), batches[|batches| - 1])
  }

  /** The driver loop over the raw batches: one processed batch each, and the two counts it prints. */
  method FilterDataset(md5: string -> string, batches: seq<Projects>)
    returns (processed: seq<Projects>, nrawprojects: nat, ndedupprojects: nat)
    ensures processed == Driver(md5, batches).processed
    ensures nrawprojects == Driver(md5, batches).nraw && ndedupprojects == Driver(md5, batches).ndedup
  {
    var index := new DedupIndex();
    processed := [];
    nrawprojects := 0;
    ndedupprojects := 0;
    for i := 0 to |batches|
      invariant Driver(md5, batches[..i]) == Totals(index.hashes, processed, nrawprojects, ndedupprojects)
    {
      assert batches[..i + 1][..i] == batches[..i];
      var projectfileimports := Prepared(batches[i]);
      nrawprojects := nrawprojects + |projectfileimports|;
      if FilterDuplicates {
        projectfileimports := index.DedupProjects(md5, projectfileimports);
      }
      ndedupprojects := ndedupprojects + |projectfileimports|;
      processed := processed + [projectfileimports];
    }
    assert batches[..|batches|] == batches;
  }

  /** The deduplicated count never exceeds the raw count, and there is one processed batch per raw batch. */
  lemma {:induction false} DriverCounts(md5: string -> string, batches: seq<Projects>)
    ensures Driver(md5, batches).ndedup <= Driver(md5, batches).nraw
    ensures |Driver(md5, batches).processed| == |batches|
    decreases |batches|
  {
    if |batches| > 0 {
      var init := batches[..|batches| - 1];
      DriverCounts(md5, init);
      var t := Driver(md5, init);
      var projects := Prepared(batches[|batches| - 1]);
      DedupRunShrinks(md5, DedupState(ValueSet(t.hashes), t.hashes, []), projects);
    }
  }
}
