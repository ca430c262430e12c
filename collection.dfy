/** The cached, extension-filtered file collection that photos and tracks
    are both read through.

    The directory walk is an input: one WalkEntry per directory, as
    `os.walk` yields `(root, dirs, files)`. Record construction is the
    pluggable function `build`; `None` stands for the ValueError it raises
    on a file it cannot read. */
module Collection {
  import opened Wrappers
  import opened Text
  import opened Seqs

  datatype WalkEntry = WalkEntry(root: string, subdirs: seq<string>, files: seq<string>)

  /** The `filter_extensions` argument: None, a single string or a list. */
  datatype ExtensionFilter = NoFilter | OneExtension(ext: string) | Extensions(exts: seq<string>)

  function NormaliseFilter(filter: ExtensionFilter): Option<seq<string>>
  {
    match filter
    case NoFilter => None
    case OneExtension(ext) => Some([ext])
    case Extensions(exts) => Some(exts)
  }

  /** A file is kept when there is no filter, or when its lower-cased name
      ends with one of the lower-cased extensions. */
  predicate Keeps(filter: Option<seq<string>>, file: string)
  {
    filter.None? || exists i :: 0 <= i < |filter.value| && EndsWith(Lower(file), Lower(filter.value[i]))
  }

  /** The paths of the kept files among `files`, all found in `root`. */
  function FilesKept(root: string, files: seq<string>, filter: Option<seq<string>>): set<Path>
  {
    set j | 0 <= j < |files| && Keeps(filter, files[j]) :: Path(root, files[j])
  }

  /** The paths of the kept files of every directory of the walk, subdirectories included. */
  function WalkPaths(walk: seq<WalkEntry>, filter: Option<seq<string>>): set<Path>
  {
    set i, j | 0 <= i < |walk| && 0 <= j < |walk[i].files| && Keeps(filter, walk[i].files[j])
      :: Path(walk[i].root, walk[i].files[j])
  }

  lemma WalkPathsStep(walk: seq<WalkEntry>, i: nat, filter: Option<seq<string>>)
    requires i < |walk|
    ensures WalkPaths(walk[..i + 1], filter) == WalkPaths(walk[..i], filter) + FilesKept(walk[i].root, walk[i].files, filter)
  {
    var w := walk[..i + 1];
    forall p | p in WalkPaths(w, filter)
      ensures p in WalkPaths(walk[..i], filter) + FilesKept(walk[i].root, walk[i].files, filter)
    {
      var a, b :| 0 <= a < |w| && 0 <= b < |w[a].files| && Keeps(filter, w[a].files[b])
                  && p == Path(w[a].root, w[a].files[b]);
      if a < i {
        assert walk[..i][a] == w[a];
      }
    }
    forall p | p in WalkPaths(walk[..i], filter)
      ensures p in WalkPaths(w, filter)
    {
      var a, b :| 0 <= a < i && 0 <= b < |walk[..i][a].files| && Keeps(filter, walk[..i][a].files[b])
                  && p == Path(walk[..i][a].root, walk[..i][a].files[b]);
      assert w[a] == walk[..i][a];
    }
    forall p | p in FilesKept(walk[i].root, walk[i].files, filter)
      ensures p in WalkPaths(w, filter)
    {
      var b :| 0 <= b < |walk[i].files| && Keeps(filter, walk[i].files[b]) && p == Path(walk[i].root, walk[i].files[b]);
      assert w[i] == walk[i];
    }
  }

  lemma FilesKeptStep(root: string, files: seq<string>, j: nat, filter: Option<seq<string>>)
    requires j < |files|
    ensures FilesKept(root, files[..j + 1], filter)
            == FilesKept(root, files[..j], filter) + (if Keeps(filter, files[j]) then {Path(root, files[j])} else {})
  {
    var f := files[..j + 1];
    forall p | p in FilesKept(root, f, filter)
      ensures p in FilesKept(root, files[..j], filter) + (if Keeps(filter, files[j]) then {Path(root, files[j])} else {})
    {
      var b :| 0 <= b < |f| && Keeps(filter, f[b]) && p == Path(root, f[b]);
      if b < j {
        assert files[..j][b] == f[b];
      }
    }
    forall p | p in FilesKept(root, files[..j], filter)
      ensures p in FilesKept(root, f, filter)
    {
      var b :| 0 <= b < j && Keeps(filter, files[..j][b]) && p == Path(root, files[..j][b]);
      assert f[b] == files[..j][b];
    }
    if Keeps(filter, files[j]) {
      assert f[j] == files[j];
    }
  }

  /** `order` lists every path of `s` exactly once. */
  ghost predicate Enumerates(order: seq<Path>, s: set<Path>)
  {
    && (forall i, j :: 0 <= i < j < |order| ==> order[i] != order[j])
    && (forall p :: p in order <==> p in s)
  }

  /** The records an iteration yields: the non-None cached values of the
      paths, in the order the paths are visited. */
  function Yield<T>(order: seq<Path>, cache: map<Path, Option<T>>): seq<T>
    requires forall p :: p in order ==> p in cache
  {
    if order == [] then []
    else
      var last := order[|order| - 1];
      Yield(order[..|order| - 1], cache) + (if cache[last].Some? then [cache[last].value] else [])
  }

  lemma {:induction false} YieldConcat<T>(a: seq<Path>, b: seq<Path>, cache: map<Path, Option<T>>)
    requires forall p :: p in a + b ==> p in cache
    ensures Yield(a + b, cache) == Yield(a, cache) + Yield(b, cache)
    decreases |b|
  {
    if b == [] {
      assert a + b == a;
    } else {
      var b' := b[..|b| - 1];
      assert (a + b)[..|a + b| - 1] == a + b';
      YieldConcat(a, b', cache);
    }
  }

  /** Only paths whose cached value is a record yield, and each yields that record. */
  lemma {:induction false} YieldMembers<T>(order: seq<Path>, cache: map<Path, Option<T>>, x: T)
    requires forall p :: p in order ==> p in cache
    ensures x in Yield(order, cache) <==> exists p :: p in order && cache[p] == Some(x)
  {
    if order != [] {
      var init := order[..|order| - 1];
      var last := order[|order| - 1];
      var tail := if cache[last].Some? then [cache[last].value] else [];
      assert Yield(order, cache) == Yield(init, cache) + tail;
      YieldMembers(init, cache, x);
      if x in Yield(order, cache) {
        if x in Yield(init, cache) {
          var p :| p in init && cache[p] == Some(x);
          assert p in order;
        } else {
          assert x in tail;
          assert last in order && cache[last] == Some(x);
        }
      }
      if exists p :: p in order && cache[p] == Some(x) {
        var p :| p in order && cache[p] == Some(x);
        var a :| 0 <= a < |order| && order[a] == p;
        if a < |order| - 1 {
          assert init[a] == p;
          assert x in Yield(init, cache);
        } else {
          assert x in tail;
        }
      }
    }
  }

  /** Visiting one more path extends an enumeration of the visited paths. */
  lemma EnumeratesSnoc(o: seq<Path>, s: set<Path>, p: Path)
    requires Enumerates(o, s) && p !in s
    ensures Enumerates(o + [p], s + {p})
  {
  }

  /** Only the empty order enumerates the empty set. */
  lemma EnumeratesEmpty(o: seq<Path>, s: set<Path>)
    requires Enumerates(o, s)
    ensures o == [] <==> s == {}
  {
    if o != [] {
      assert o[0] in s;
    }
  }

  /** Dropping the last path of an enumeration enumerates the set without it. */

  lemma EnumeratesInit(o: seq<Path>, s: set<Path>)
    requires Enumerates(o, s) && |o| > 0
    ensures Enumerates(o[..|o| - 1], s - {o[|o| - 1]})
  {
    var init := o[..|o| - 1];
    var p := o[|o| - 1];
    forall q ensures q in init <==> q in s - {p} {
      if q in init {
        var a :| 0 <= a < |init| && init[a] == q;
        assert o[a] == q;
      }
      if q in s - {p} {
        var a :| 0 <= a < |o| && o[a] == q;
        assert init[a] == q;
      }
    }
  }

  /** Removing the path at `k` from an enumeration enumerates the set without it. */
  lemma EnumeratesRemove(o: seq<Path>, s: set<Path>, k: nat)
    requires Enumerates(o, s) && k < |o|
    ensures Enumerates(o[..k] + o[k + 1..], s - {o[k]})
  {
    var rest := o[..k] + o[k + 1..];
    RemoveDistinct(o, k);
    forall q ensures q in rest <==> q in s - {o[k]} {
      if q in s - {o[k]} {
        var a :| 0 <= a < |o| && o[a] == q;
        RemoveIndex(o, k, if a < k then a else a - 1);
      }
    }
  }

  /** Position `a` of a sequence with its `k`-th element removed. */
  lemma RemoveIndex(o: seq<Path>, k: nat, a: nat)
    requires k < |o| && a < |o| - 1
    ensures (o[..k] + o[k + 1..])[a] == o[if a < k then a else a + 1]
  {
  }

  /** Removing an element keeps a sequence free of repetitions. */
  lemma RemoveDistinct(o: seq<Path>, k: nat)
    requires k < |o|
    requires forall i, j :: 0 <= i < j < |o| ==> o[i] != o[j]
    ensures var rest := o[..k] + o[k + 1..];
            forall i, j :: 0 <= i < j < |rest| ==> rest[i] != rest[j]
  {
    var rest := o[..k] + o[k + 1..];
    forall i, j | 0 <= i < j < |rest| ensures rest[i] != rest[j] {
      RemoveIndex(o, k, i);
      RemoveIndex(o, k, j);
    }
  }

  /** Two iterations over the same path set and cache yield the same records
      the same number of times, whatever order the set is visited in. */
  lemma {:induction false} YieldOrderIrrelevant<T>(o1: seq<Path>, o2: seq<Path>, s: set<Path>, cache: map<Path, Option<T>>)
    requires Enumerates(o1, s) && Enumerates(o2, s)
    requires forall p :: p in s ==> p in cache
    ensures multiset(Yield(o1, cache)) == multiset(Yield(o2, cache))
    decreases |o1|
  {
    if o1 == [] {
      EnumeratesEmpty(o1, s);
      EnumeratesEmpty(o2, s);
    } else {
      var p := o1[|o1| - 1];
      var init := o1[..|o1| - 1];
      assert p in o2;
      var k :| 0 <= k < |o2| && o2[k] == p;
      var rest := o2[..k] + o2[k + 1..];
      EnumeratesInit(o1, s);
      EnumeratesRemove(o2, s, k);
      YieldOrderIrrelevant(init, rest, s - {p}, cache);
      YieldSwap(o1, o2, k, cache);
    }
  }

  /** Two visit orders whose last and `k`-th paths agree yield the same
      records when what remains of them does. */
  lemma YieldSwap<T>(o1: seq<Path>, o2: seq<Path>, k: nat, cache: map<Path, Option<T>>)
    requires 0 < |o1| && k < |o2| && o1[|o1| - 1] == o2[k]
    requires forall p :: p in o1 ==> p in cache
    requires forall p :: p in o2 ==> p in cache
    requires multiset(Yield(o1[..|o1| - 1], cache)) == multiset(Yield(o2[..k] + o2[k + 1..], cache))
    ensures multiset(Yield(o1, cache)) == multiset(Yield(o2, cache))
  {
    YieldRemove(o2, k, cache);
    YieldRemove(o1, |o1| - 1, cache);
    assert o1[..|o1| - 1] + o1[|o1|..] == o1[..|o1| - 1];
  }

  /** Taking one path out of a visit order takes its record out of what is yielded. */
  lemma YieldRemove<T>(o: seq<Path>, k: nat, cache: map<Path, Option<T>>)
    requires k < |o|
    requires forall p :: p in o ==> p in cache
    ensures multiset(Yield(o, cache)) == multiset(Yield(o[..k] + o[k + 1..], cache)) + multiset(Yield([o[k]], cache))
  {
    var p := o[k];
    assert o == o[..k] + [p] + o[k + 1..];
    YieldConcat(o[..k], [p], cache);
    YieldConcat(o[..k] + [p], o[k + 1..], cache);
    YieldConcat(o[..k], o[k + 1..], cache);
  }

  function NotIn(keys: set<Path>): Path -> bool
  {
    p => p !in keys
  }

  class FileCollection<T(==)> {
    const root: string
    const filterExtensions: Option<seq<string>>
    const followLinks: bool
    const build: Path -> Option<T>

    /** `_paths`: every kept file found by the walk. */
    var paths: set<Path>
    /** `_cache`: a built record, or None for a file whose construction failed. */
    var cache: map<Path, Option<T>>
    /** Every call of the record constructor so far, in call order. */
    ghost var builds: seq<Path>

    ghost predicate Valid()
      reads this
    {
      && cache.Keys <= paths
      && (forall p :: p in cache ==> cache[p] == build(p))
      && (forall p :: p in builds <==> p in cache)
      && (forall i, j :: 0 <= i < j < |builds| ==> builds[i] != builds[j])
    }

    /** Builds the collection: normalises the filter and walks the directory once. */
    constructor (root: string, walk: seq<WalkEntry>, filter: ExtensionFilter, followLinks: bool,
                 build: Path -> Option<T>)
      ensures Valid()
      ensures this.root == root && this.followLinks == followLinks && this.build == build
      ensures filter.NoFilter? ==> filterExtensions == None
      ensures filter.OneExtension? ==> filterExtensions == Some([filter.ext])
      ensures filter.Extensions? ==> filterExtensions == Some(filter.exts)
      ensures paths == WalkPaths(walk, filterExtensions)
      ensures cache == map[] && builds == []
    {
      this.root := root;
      this.followLinks := followLinks;
      this.build := build;
      filterExtensions := NormaliseFilter(filter);
      paths := {};
      cache := map[];
      builds := [];
      new;
      PopulatePaths(walk);
    }

    /** `_populate_paths`: adds the path of every kept file of every directory. */
    method PopulatePaths(walk: seq<WalkEntry>)
      requires Valid()
      modifies this`paths
      ensures Valid()
      ensures paths == old(paths) + WalkPaths(walk, filterExtensions)
    {
      var i := 0;
      while i < |walk|
        invariant 0 <= i <= |walk|
        invariant Valid()
        invariant paths == old(paths) + WalkPaths(walk[..i], filterExtensions)
      {
        var entry := walk[i];
        var j := 0;
        while j < |entry.files|
          invariant 0 <= j <= |entry.files|
          invariant Valid()
          invariant paths == old(paths) + WalkPaths(walk[..i], filterExtensions)
                             + FilesKept(entry.root, entry.files[..j], filterExtensions)
        {
          FilesKeptStep(entry.root, entry.files, j, filterExtensions);
          if Keeps(filterExtensions, entry.files[j]) {
            paths := paths + {Path(entry.root, entry.files[j])};
          }
          j := j + 1;
        }
        assert entry.files[..j] == entry.files;
        WalkPathsStep(walk, i, filterExtensions);
        i := i + 1;
      }
      assert walk[..i] == walk;
    }

    /** One visit of `__iter__`: builds the record of `p` unless its path is
        already a cache key, and gives the cached value. */
    method Visit(p: Path) returns (item: Option<T>)
      requires Valid() && p in paths
      modifies this`cache, this`builds
      ensures Valid()
      ensures p in cache && item == cache[p] && item == build(p)
      ensures cache == old(cache)[p := item]
      ensures builds == old(builds) + (if p in old(cache) then [] else [p])
    {
      if p !in cache {
        assert p !in builds;
        cache := cache[p := build(p)];
        builds := builds + [p];
      }
      item := cache[p];
    }

    /** `__iter__`: visits every path once, builds each record the first
        time its path is visited, and yields the records that were built. */
    method Iterate() returns (items: seq<T>, ghost order: seq<Path>)
      requires Valid()
      modifies this`cache, this`builds
      ensures Valid()
      ensures Enumerates(order, paths)
      ensures cache.Keys == paths
      ensures forall p :: p in old(cache) ==> cache[p] == old(cache)[p]
      ensures builds == old(builds) + Filter(order, NotIn(old(cache).Keys))
      ensures items == Yield(order, cache)
      ensures old(cache).Keys == paths ==> cache == old(cache) && builds == old(builds)
    {
      var remaining := paths;
      items := [];
      order := [];
      ghost var cached0 := old(cache).Keys;
      ghost var builds0 := old(builds);
      while remaining != {}
        invariant remaining <= paths
        invariant Enumerates(order, paths - remaining)
        invariant Valid()
        invariant cache.Keys == cached0 + (paths - remaining)
        invariant builds == builds0 + Filter(order, NotIn(cached0))
        invariant items == Yield(order, cache)
        decreases remaining
      {
        var p :| p in remaining;
        ghost var before := cache;
        ghost var beforeBuilds := builds;
        var item := Visit(p);
        IterateKeys(paths, remaining, p, cached0, before, cache);
        EnumeratesSnoc(order, paths - remaining, p);
        IterateBuilds(order, p, cached0, builds0, beforeBuilds, builds, p in before);
        IterateYield(order, paths - remaining, p, before, cache);
        if item.Some? {
          items := items + [item.value];
        }
        order := order + [p];
        remaining := remaining - {p};
      }
      if cached0 == paths {
        FilterNone(order, NotIn(cached0));
      }
    }
  }

  /** One visit adds the visited path to the cache keys. */
  lemma IterateKeys<T>(paths: set<Path>, remaining: set<Path>, p: Path, cached0: set<Path>,
                       c1: map<Path, Option<T>>, c2: map<Path, Option<T>>)
    requires p in remaining && remaining <= paths
    requires c1.Keys == cached0 + (paths - remaining)
    requires p in c2 && c2 == c1[p := c2[p]]
    ensures c2.Keys == cached0 + (paths - (remaining - {p}))
    ensures paths - (remaining - {p}) == (paths - remaining) + {p}
  {
    assert c2.Keys == c1.Keys + {p};
    assert paths - (remaining - {p}) == (paths - remaining) + {p};
  }

  /** One visit calls the constructor exactly when the path was not cached at the start. */
  lemma IterateBuilds(order: seq<Path>, p: Path, cached0: set<Path>, builds0: seq<Path>,
                      b1: seq<Path>, b2: seq<Path>, wasCached: bool)
    requires b1 == builds0 + Filter(order, NotIn(cached0))
    requires wasCached <==> p in cached0
    requires b2 == b1 + (if wasCached then [] else [p])
    ensures b2 == builds0 + Filter(order + [p], NotIn(cached0))
  {
    FilterConcat(order, [p], NotIn(cached0));
    assert Filter([p], NotIn(cached0)) == if p in cached0 then [] else [p];
  }

  /** One visit appends the visited path's record, if any, to what was yielded. */
  lemma IterateYield<T>(order: seq<Path>, done: set<Path>, p: Path, c1: map<Path, Option<T>>, c2: map<Path, Option<T>>)
    requires Enumerates(order, done) && done <= c1.Keys && p !in done
    requires p in c2 && c2 == c1[p := c2[p]]
    ensures Yield(order + [p], c2) == Yield(order, c1) + (if c2[p].Some? then [c2[p].value] else [])
  {
    YieldFrame(order, c1, c2);
    assert (order + [p])[..|order|] == order;
  }

  lemma {:induction false} YieldFrame<T>(order: seq<Path>, c1: map<Path, Option<T>>, c2: map<Path, Option<T>>)
    requires forall p :: p in order ==> p in c1 && p in c2 && c1[p] == c2[p]
    ensures Yield(order, c1) == Yield(order, c2)
  {
    if order != [] {
      YieldFrame(order[..|order| - 1], c1, c2);
    }
  }
}
