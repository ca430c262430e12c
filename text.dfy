/** Strings and file paths: lower-casing, suffix tests, `str.split` on one
    separator, and the `name`/`stem`/`parent` parts of a `pathlib.Path`. */
module Text {

  function LowerChar(c: char): char
  {
    if 'A' <= c <= 'Z' then (c as int - 'A' as int + 'a' as int) as char else c
  }

  /** `str.lower`, restricted to ASCII letters. */
  function Lower(s: string): (r: string)
    ensures |r| == |s|
    ensures forall i :: 0 <= i < |s| ==> r[i] == LowerChar(s[i])
  {
    seq(|s|, i requires 0 <= i < |s| => LowerChar(s[i]))
  }

  /** Lower-casing leaves no ASCII capital, changes nothing else, and a
      second application changes nothing. */
  lemma LowerFolds(s: string)
    ensures forall i :: 0 <= i < |s| ==> !('A' <= Lower(s)[i] <= 'Z')
    ensures forall i :: 0 <= i < |s| && !('A' <= s[i] <= 'Z') ==> Lower(s)[i] == s[i]
    ensures Lower(Lower(s)) == Lower(s)
  {
  }

  lemma LowerExample()
    ensures Lower(".JPG") == ".jpg" && Lower(".Gpx") == ".gpx"
  {
  }

  /** `str.endswith`, case-sensitive. */
  predicate EndsWith(s: string, suffix: string)
  {
    |suffix| <= |s| && s[|s| - |suffix|..] == suffix
  }

  /** Position of the first occurrence of `c` in `s`. */
  function IndexOf(s: string, c: char): (k: nat)
    requires c in s
    ensures k < |s| && s[k] == c && c !in s[..k]
  {
    if s[0] == c then 0
    else
      assert c in s[1..];
      var k := 1 + IndexOf(s[1..], c);
      assert s[..k] == [s[0]] + s[1..][..k - 1];
      k
  }

  /** `str.rfind`: position of the last occurrence of `c`, or -1. */
  function LastIndexOf(s: string, c: char): int
  {
    if s == [] then -1
    else if s[|s| - 1] == c then |s| - 1
    else LastIndexOf(s[..|s| - 1], c)
  }

  /** The position found holds `c` and no later position does; -1 when `c`
      does not occur. */
  lemma {:induction false} LastIndexOfSpec(s: string, c: char)
    ensures -1 <= LastIndexOf(s, c) < |s|
    ensures LastIndexOf(s, c) >= 0 ==> s[LastIndexOf(s, c)] == c
    ensures forall j :: LastIndexOf(s, c) < j < |s| ==> s[j] != c
  {
    if s != [] && s[|s| - 1] != c {
      LastIndexOfSpec(s[..|s| - 1], c);
    }
  }

  /** `s.split(sep)`: the pieces between separators, empty pieces included. */
  function Split(s: string, sep: char): (r: seq<string>)
    ensures |r| >= 1
    ensures forall i :: 0 <= i < |r| ==> sep !in r[i]
    ensures |r| == 1 <==> sep !in s
    decreases |s|
  {
    if sep !in s then [s]
    else
      var k := IndexOf(s, sep);
      [s[..k]] + Split(s[k + 1..], sep)
  }

  /** `sep.join(pieces)`. */
  function Join(pieces: seq<string>, sep: char): string
  {
    if |pieces| == 0 then ""
    else if |pieces| == 1 then pieces[0]
    else pieces[0] + [sep] + Join(pieces[1..], sep)
  }

  /** Joining the pieces of a split gives back the original string. */
  lemma {:induction false} JoinSplit(s: string, sep: char)
    ensures Join(Split(s, sep), sep) == s
    decreases |s|
  {
    if sep in s {
      var k := IndexOf(s, sep);
      var rest := s[k + 1..];
      var tail := Split(rest, sep);
      JoinSplit(rest, sep);
      JoinCons(s[..k], tail, sep);
      assert s == s[..k] + [sep] + rest;
    }
  }

  lemma JoinCons(head: string, tail: seq<string>, sep: char)
    requires |tail| >= 1
    ensures Join([head] + tail, sep) == head + [sep] + Join(tail, sep)
  {
    assert ([head] + tail)[1..] == tail;
  }

  /** Splitting a join of separator-free pieces gives back the pieces. */
  lemma {:induction false} SplitJoin(pieces: seq<string>, sep: char)
    requires |pieces| >= 1
    requires forall i :: 0 <= i < |pieces| ==> sep !in pieces[i]
    ensures Split(Join(pieces, sep), sep) == pieces
  {
    if |pieces| > 1 {
      var s := Join(pieces, sep);
      var tail := Join(pieces[1..], sep);
      SplitJoin(pieces[1..], sep);
      assert s == pieces[0] + [sep] + tail;
      assert s[|pieces[0]|] == sep;
      assert sep in s;
      var k := IndexOf(s, sep);
      assert s[..|pieces[0]|] == pieces[0];
      assert k == |pieces[0]|;
      assert s[k + 1..] == tail;
    }
  }

  /** The stem-token split used for the `YYMMDD_HHMM` file name convention:
      the first two `_`-separated pieces, or None when the stem has no `_`
      (indexing `basename[1]` raises IndexError). */
  function FirstTwoTokens(stem: string): (r: Option2)
    ensures r.Two? <==> '_' in stem
    ensures r.Two? ==> r.first == Split(stem, '_')[0] && r.second == Split(stem, '_')[1]
  {
    var tokens := Split(stem, '_');
    if |tokens| >= 2 then Two(tokens[0], tokens[1]) else Fewer
  }

  /** A separator-free head followed by the separator splits off as the first piece. */
  lemma SplitFront(a: string, x: string, sep: char)
    requires sep !in a
    ensures Split(a + [sep] + x, sep) == [a] + Split(x, sep)
  {
    var s := a + [sep] + x;
    assert s[|a|] == sep;
    var k := IndexOf(s, sep);
    assert s[..|a|] == a;
    assert k == |a|;
    assert s[k + 1..] == x;
  }

  /** A stem whose first two `_`-pieces are `a` and `b`: the tokens are read
      back whatever follows the second piece, as long as it starts a new piece. */
  lemma FirstTwoTokensOf(a: string, b: string, rest: string)
    requires '_' !in a && '_' !in b
    requires rest == [] || rest[0] == '_'
    ensures FirstTwoTokens(a + "_" + b + rest) == Two(a, b)
  {
    var s := a + "_" + b + rest;
    assert s == a + ['_'] + (b + rest);
    SplitFront(a, b + rest, '_');
    SplitHead(b, rest, '_');
    var tokens := Split(s, '_');
    assert tokens == [a] + Split(b + rest, '_');
    assert tokens[0] == a && tokens[1] == b;
  }

  /** A separator-free head followed by nothing or by a separator is the first piece. */
  lemma SplitHead(b: string, rest: string, sep: char)
    requires sep !in b
    requires rest == [] || rest[0] == sep
    ensures Split(b + rest, sep)[0] == b
  {
    if rest == [] {
      assert b + rest == b;
    } else {
      assert b + rest == b + [sep] + rest[1..];
      SplitFront(b, rest[1..], sep);
    }
  }

  /** The stem of a name with a non-empty, dot-free suffix is the name without it. */
  lemma StemOfSuffixed(base: string, ext: string)
    requires |base| > 0 && |ext| > 0 && '.' !in ext
    ensures Stem(base + "." + ext) == base
  {
    var name := base + "." + ext;
    var i := LastIndexOf(name, '.');
    LastIndexOfSpec(name, '.');
    assert name[|base|] == '.';
    assert name[|base| + 1..] == ext;
    assert i == |base|;
    assert name[..i] == base;
  }

  datatype Option2 = Fewer | Two(first: string, second: string)

  /** A file path as the walk produces it: the directory it was found in and
      its file name (`os.path.join(root, file)`). */
  datatype Path = Path(parent: string, name: string)

  /** `str(path)`. */
  function PathString(p: Path): string
  {
    p.parent + "/" + p.name
  }

  /** `Path.stem`: the name without its last suffix; a leading dot or a
      trailing dot does not start a suffix. */
  function Stem(name: string): string
  {
    var i := LastIndexOf(name, '.');
    if 0 < i < |name| - 1 then name[..i] else name
  }

  /** The stem is a prefix of the name; when shorter, a dot follows it that
      is neither the first nor the last character, and no dot comes later. */
  lemma StemShape(name: string)
    ensures Stem(name) <= name
    ensures var r := Stem(name);
            |r| < |name| ==> name[|r|] == '.' && 0 < |r| < |name| - 1 && '.' !in name[|r| + 1..]
  {
    var i := LastIndexOf(name, '.');
    LastIndexOfSpec(name, '.');
    if 0 < i < |name| - 1 {
      assert name[i + 1..] == name[|Stem(name)| + 1..];
    }
  }
}
