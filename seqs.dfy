/** Sequence operations shared by the collections and the matchers: filtering,
    the stable sort by an integer key (`sorted(..., key=...)`, `list.sort`),
    the min/max of the present values, and the first nearest key (`min(...,
    key=abs-difference)`). */
module Seqs {
  import opened Wrappers

  function Filter<T>(s: seq<T>, p: T -> bool): (r: seq<T>)
    ensures |r| <= |s|
    ensures forall i :: 0 <= i < |r| ==> p(r[i]) && r[i] in s
  {
    if s == [] then [] else (if p(s[0]) then [s[0]] else []) + Filter(s[1..], p)
  }

  /** The error of the first element whose result is an error, if any:
      what a loop that stops at the first exception raises. */
  function FirstError<T, U>(s: seq<T>, f: T -> Result<U>): Option<Error>
  {
    if s == [] then None
    else if f(s[0]).Err? then Some(f(s[0]).error)
    else FirstError(s[1..], f)
  }

  /** No element fails, or the error is that of an element all of whose
      predecessors succeed. */
  lemma {:induction false} FirstErrorIsFirst<T, U>(s: seq<T>, f: T -> Result<U>)
    ensures FirstError(s, f).None? <==> forall i :: 0 <= i < |s| ==> f(s[i]).Ok?
    ensures FirstError(s, f).Some? ==>
              exists i :: 0 <= i < |s| && f(s[i]) == Err(FirstError(s, f).value)
                          && forall j :: 0 <= j < i ==> f(s[j]).Ok?
  {
    if s != [] {
      FirstErrorIsFirst(s[1..], f);
      assert forall i :: 0 < i < |s| ==> s[i] == s[1..][i - 1];
      if f(s[0]).Ok? && FirstError(s, f).Some? {
        var i :| 0 <= i < |s[1..]| && f(s[1..][i]) == Err(FirstError(s, f).value)
                 && forall j :: 0 <= j < i ==> f(s[1..][j]).Ok?;
        assert f(s[i + 1]) == Err(FirstError(s, f).value);
      }
    }
  }

  /** The first error of a concatenation is that of the first part, or else that of the second. */
  lemma {:induction false} FirstErrorAppend<T, U>(a: seq<T>, b: seq<T>, f: T -> Result<U>)
    ensures FirstError(a + b, f) == if FirstError(a, f).Some? then FirstError(a, f) else FirstError(b, f)
  {
    if a == [] {
      assert a + b == b;
    } else {
      assert (a + b)[1..] == a[1..] + b;
      FirstErrorAppend(a[1..], b, f);
    }
  }

  function Not<T>(p: T -> bool): T -> bool
  {
    x => !p(x)
  }

  lemma {:induction false} FilterConcat<T>(a: seq<T>, b: seq<T>, p: T -> bool)
    ensures Filter(a + b, p) == Filter(a, p) + Filter(b, p)
  {
    if a != [] {
      FilterConcat(a[1..], b, p);
      assert (a + b)[0] == a[0];
      assert (a + b)[1..] == a[1..] + b;
    } else {
      assert a + b == b;
    }
  }

  /** Filtering keeps exactly the elements that satisfy the predicate, with their multiplicities. */
  lemma {:induction false} FilterMultiset<T>(s: seq<T>, p: T -> bool)
    ensures forall x :: multiset(Filter(s, p))[x] == if p(x) then multiset(s)[x] else 0
  {
    if s != [] {
      FilterMultiset(s[1..], p);
      assert s == [s[0]] + s[1..];
    }
  }

  /** A predicate and its negation split a sequence into two parts whose
      multisets add up to the whole. */
  lemma FilterPartition<T>(s: seq<T>, p: T -> bool)
    ensures multiset(Filter(s, p)) + multiset(Filter(s, Not(p))) == multiset(s)
  {
    FilterMultiset(s, p);
    FilterMultiset(s, Not(p));
  }

  ghost predicate SortedBy<T>(s: seq<T>, key: T -> int)
  {
    forall i, j :: 0 <= i < j < |s| ==> key(s[i]) <= key(s[j])
  }

  /** A subsequence taken by a filter keeps the order of the original. */
  lemma {:induction false} FilterSorted<T>(s: seq<T>, p: T -> bool, key: T -> int)
    requires SortedBy(s, key)
    ensures SortedBy(Filter(s, p), key)
  {
    if s != [] {
      FilterSorted(s[1..], p, key);
      var rest := Filter(s[1..], p);
      forall i | 0 <= i < |rest| ensures key(s[0]) <= key(rest[i]) {
        var j :| 0 <= j < |s[1..]| && s[1..][j] == rest[i];
        assert s[j + 1] == rest[i];
      }
    }
  }

  function Insert<T>(x: T, s: seq<T>, key: T -> int): (r: seq<T>)
    requires SortedBy(s, key)
    ensures SortedBy(r, key)
    ensures multiset(r) == multiset(s) + multiset{x}
    ensures |r| == |s| + 1
  {
    if s == [] then [x]
    else if key(x) <= key(s[0]) then [x] + s
    else
      var rest := Insert(x, s[1..], key);
      assert s == [s[0]] + s[1..];
      forall i | 0 <= i < |rest| ensures key(s[0]) <= key(rest[i]) {
        assert rest[i] in multiset(rest);
        if rest[i] != x {
          assert rest[i] in multiset(s[1..]);
          var j :| 0 <= j < |s[1..]| && s[1..][j] == rest[i];
          assert s[j + 1] == rest[i];
        }
      }
      [s[0]] + rest
  }

  /** A stable insertion sort: the result is sorted by `key` and is a
      permutation of the input. */
  function SortBy<T>(s: seq<T>, key: T -> int): (r: seq<T>)
    ensures SortedBy(r, key)
    ensures multiset(r) == multiset(s)
    ensures |r| == |s|
  {
    if s == [] then []
    else
      assert s == [s[0]] + s[1..];
      Insert(s[0], SortBy(s[1..], key), key)
  }

  /** Extending a prefix by one element: the first error stays, or else is that of the new element. */
  lemma FirstErrorStep<T, U>(s: seq<T>, i: nat, f: T -> Result<U>)
    requires i < |s|
    ensures FirstError(s[..i + 1], f)
            == if FirstError(s[..i], f).Some? then FirstError(s[..i], f)
               else if f(s[i]).Err? then Some(f(s[i]).error) else None
  {
    assert s[..i + 1] == s[..i] + [s[i]];
    FirstErrorAppend(s[..i], [s[i]], f);
  }

  /** An error in a prefix is the first error of the whole sequence. */
  lemma FirstErrorPrefix<T, U>(s: seq<T>, i: nat, f: T -> Result<U>)
    requires i <= |s| && FirstError(s[..i], f).Some?
    ensures FirstError(s, f) == FirstError(s[..i], f)
  {
    assert s == s[..i] + s[i..];
    FirstErrorAppend(s[..i], s[i..], f);
  }

  /** No element occurs twice. */
  predicate Distinct<T(==)>(s: seq<T>)
  {
    forall i, j :: 0 <= i < j < |s| ==> s[i] != s[j]
  }

  /** A sequence is free of repetitions exactly when its multiset counts each element at most once. */
  lemma {:induction false} DistinctMultiset<T>(s: seq<T>)
    ensures Distinct(s) <==> forall x :: multiset(s)[x] <= 1
  {
    if s != [] && Distinct(s) {
      var tail := s[1..];
      assert Distinct(tail) by {
        forall i, j | 0 <= i < j < |tail| ensures tail[i] != tail[j] {
          assert tail[i] == s[i + 1] && tail[j] == s[j + 1];
        }
      }
      DistinctMultiset(tail);
      assert s[0] !in tail by {
        forall i | 0 <= i < |tail| ensures tail[i] != s[0] {
          assert tail[i] == s[i + 1];
        }
      }
      assert s == [s[0]] + tail;
      assert multiset(s) == multiset{s[0]} + multiset(tail);
    } else if !Distinct(s) {
      var i, j :| 0 <= i < j < |s| && s[i] == s[j];
      DuplicateCounted(s, i, j);
    }
  }

  /** An element at two positions is counted at least twice. */
  lemma DuplicateCounted<T>(s: seq<T>, i: nat, j: nat)
    requires i < j < |s| && s[i] == s[j]
    ensures multiset(s)[s[i]] >= 2
  {
    assert s == s[..j] + s[j..];
    assert s[i] == s[..j][i] && s[j] == s[j..][0];
    assert multiset(s)[s[i]] == multiset(s[..j])[s[i]] + multiset(s[j..])[s[i]];
  }

  lemma DistinctSnoc<T>(s: seq<T>, x: T)
    requires Distinct(s) && x !in s
    ensures Distinct(s + [x])
  {
  }

  /** A permutation of a sequence without repetitions has none either. */
  lemma DistinctPermutation<T>(a: seq<T>, b: seq<T>)
    requires Distinct(a) && multiset(a) == multiset(b)
    ensures Distinct(b)
  {
    DistinctMultiset(a);
    DistinctMultiset(b);
  }

  /** A filter that every element passes keeps the whole sequence. */
  lemma {:induction false} FilterAll<T>(s: seq<T>, p: T -> bool)
    requires forall x :: x in s ==> p(x)
    ensures Filter(s, p) == s
  {
    if s != [] {
      FilterAll(s[1..], p);
      assert s == [s[0]] + s[1..];
    }
  }

  /** A filter that no element passes keeps nothing. */
  lemma {:induction false} FilterNone<T>(s: seq<T>, p: T -> bool)
    requires forall x :: x in s ==> !p(x)
    ensures Filter(s, p) == []
  {
    if s != [] {
      FilterNone(s[1..], p);
    }
  }

  /** The rows whose time is present (`notna()`). */
  function Timed<T>(time: T -> Option<int>): T -> bool
  {
    x => time(x).Some?
  }

  /** The sort key of a row; only ever used on rows whose time is present. */
  function TimeKey<T>(time: T -> Option<int>): T -> int
  {
    x => time(x).GetOr(0)
  }

  lemma TimeKeyOf<T>(time: T -> Option<int>, x: T)
    requires time(x).Some?
    ensures TimeKey(time)(x) == time(x).value
  {
  }

  /** Ordered by time with the rows without a time (NaT) at the end. */
  ghost predicate NaLastSorted<T>(s: seq<T>, time: T -> Option<int>)
  {
    forall i, j :: 0 <= i < j < |s| && time(s[j]).Some? ==>
      time(s[i]).Some? && time(s[i]).value <= time(s[j]).value
  }

  /** `DataFrame.sort_values("time")`: the timed rows in time order, then the
      rows without a time (`na_position="last"`), each group keeping the
      original order of rows with equal keys. */
  function SortValues<T>(rows: seq<T>, time: T -> Option<int>): (r: seq<T>)
    ensures multiset(r) == multiset(rows)
    ensures |r| == |rows|
    ensures NaLastSorted(r, time)
  {
    var timed := SortBy(Filter(rows, Timed(time)), TimeKey(time));
    var untimed := Filter(rows, Not(Timed(time)));
    FilterPartition(rows, Timed(time));
    SortByKeeps(Filter(rows, Timed(time)), TimeKey(time), Timed(time));
    ConcatNaLast(timed, untimed, time);
    assert multiset(timed + untimed) == multiset(rows);
    assert |multiset(timed + untimed)| == |timed + untimed|;
    timed + untimed
  }

  /** Sorting neither adds nor drops elements, so a property of every element survives it. */
  lemma SortByKeeps<T>(s: seq<T>, key: T -> int, p: T -> bool)
    requires forall x :: x in s ==> p(x)
    ensures forall x :: x in SortBy(s, key) ==> p(x)
  {
    forall x | x in SortBy(s, key) ensures p(x) {
      assert x in multiset(SortBy(s, key));
    }
  }

  lemma ConcatNaLast<T>(timed: seq<T>, untimed: seq<T>, time: T -> Option<int>)
    requires SortedBy(timed, TimeKey(time))
    requires forall x :: x in timed ==> Timed(time)(x)
    requires forall x :: x in untimed ==> !Timed(time)(x)
    ensures NaLastSorted(timed + untimed, time)
  {
    var r := timed + untimed;
    forall i, j | 0 <= i < j < |r|
      ensures time(r[j]).Some? ==> time(r[i]).Some? && time(r[i]).value <= time(r[j]).value
    {
      if j >= |timed| {
        assert r[j] in untimed;
      } else {
        assert r[i] == timed[i] && r[j] == timed[j];
        assert timed[i] in timed && timed[j] in timed;
      }
    }
  }

  /** The timed rows of a sorted table are its sorted timed rows, and its
      untimed rows keep their original order: `df[df.time.notna()]` and
      `df[df.time.isna()]` split the table into a sorted prefix and the rest. */
  lemma SortValuesSplit<T>(rows: seq<T>, time: T -> Option<int>)
    ensures Filter(SortValues(rows, time), Timed(time)) == SortBy(Filter(rows, Timed(time)), TimeKey(time))
    ensures Filter(SortValues(rows, time), Not(Timed(time))) == Filter(rows, Not(Timed(time)))
    ensures Filter(SortValues(rows, time), Timed(time)) + Filter(SortValues(rows, time), Not(Timed(time)))
            == SortValues(rows, time)
  {
    var timed := SortBy(Filter(rows, Timed(time)), TimeKey(time));
    var untimed := Filter(rows, Not(Timed(time)));
    assert SortValues(rows, time) == timed + untimed;
    SortByKeeps(Filter(rows, Timed(time)), TimeKey(time), Timed(time));
    FilterConcat(timed, untimed, Timed(time));
    FilterConcat(timed, untimed, Not(Timed(time)));
    FilterAll(timed, Timed(time));
    FilterNone(untimed, Timed(time));
    FilterNone(timed, Not(Timed(time)));
    FilterAll(untimed, Not(Timed(time)));
  }

  /** The timed rows of a table sorted with NaT last all have a time and are in time order. */
  lemma TimedRows<T>(s: seq<T>, time: T -> Option<int>)
    requires NaLastSorted(s, time)
    ensures var r := Filter(s, Timed(time));
            (forall i :: 0 <= i < |r| ==> time(r[i]).Some?) && SortedBy(r, TimeKey(time))
  {
    NaLastTimedSorted(s, time);
  }

  /** In a table sorted with NaT last, the timed rows are in time order. */
  lemma {:induction false} NaLastTimedSorted<T>(s: seq<T>, time: T -> Option<int>)
    requires NaLastSorted(s, time)
    ensures SortedBy(Filter(s, Timed(time)), TimeKey(time))
  {
    if s != [] {
      assert NaLastSorted(s[1..], time) by {
        forall i, j | 0 <= i < j < |s[1..]| && time(s[1..][j]).Some?
          ensures time(s[1..][i]).Some? && time(s[1..][i]).value <= time(s[1..][j]).value
        {
          assert s[1..][i] == s[i + 1] && s[1..][j] == s[j + 1];
        }
      }
      NaLastTimedSorted(s[1..], time);
      var rest := Filter(s[1..], Timed(time));
      if time(s[0]).Some? {
        forall i | 0 <= i < |rest| ensures TimeKey(time)(s[0]) <= TimeKey(time)(rest[i]) {
          var j :| 0 <= j < |s[1..]| && s[1..][j] == rest[i];
          assert s[j + 1] == rest[i];
        }
      }
    }
  }

  /** The (min, max) of the present values, or None when none is present. */
  function Span(ts: seq<Option<int>>): (r: Option<(int, int)>)
    ensures r.None? <==> forall i :: 0 <= i < |ts| ==> ts[i].None?
    ensures r.Some? ==> r.value.0 <= r.value.1
    ensures r.Some? ==> forall i :: 0 <= i < |ts| && ts[i].Some? ==> r.value.0 <= ts[i].value <= r.value.1
    ensures r.Some? ==> Some(r.value.0) in ts && Some(r.value.1) in ts
  {
    if ts == [] then None
    else
      var rest := Span(ts[1..]);
      assert forall i :: 1 <= i < |ts| ==> ts[i] == ts[1..][i - 1];
      match ts[0]
      case None => rest
      case Some(t) =>
        match rest
        case None => Some((t, t))
        case Some((lo, hi)) => Some((if t <= lo then t else lo, if t >= hi then t else hi))
  }

  function Dist(a: int, b: int): nat
  {
    if a <= b then b - a else a - b
  }

  /** The index of the first key nearest to `t`, as a left-to-right scan
      that replaces its candidate only on a strictly smaller distance finds it. */
  function FirstNearest(keys: seq<int>, t: int): (k: nat)
    requires |keys| > 0
    ensures k < |keys|
    ensures forall j :: 0 <= j < |keys| ==> Dist(keys[k], t) <= Dist(keys[j], t)
    ensures forall j :: 0 <= j < k ==> Dist(keys[k], t) < Dist(keys[j], t)
  {
    if |keys| == 1 then 0
    else
      var k := FirstNearest(keys[..|keys| - 1], t);
      if Dist(keys[|keys| - 1], t) < Dist(keys[k], t) then |keys| - 1 else k
  }

  /** The two properties of FirstNearest pin down a single index. */
  lemma FirstNearestUnique(keys: seq<int>, t: int, k: nat)
    requires k < |keys|
    requires forall j :: 0 <= j < |keys| ==> Dist(keys[k], t) <= Dist(keys[j], t)
    requires forall j :: 0 <= j < k ==> Dist(keys[k], t) < Dist(keys[j], t)
    ensures k == FirstNearest(keys, t)
  {
  }
}
