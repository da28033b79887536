/**
 The part of Go's `path/filepath` the snippet loader relies on, for the
 relative paths `filepath.Rel` produces for files below the snippet root:
 `/`-separated, clean, no trailing slash. `Dir` and `Base` split such a path
 at its last separator.
 */
module Paths {
  import Strings

  const Separator: char := '/'

  /** The position of the last `c` in `s`, or -1 when `s` has none. */
  function LastIndex(s: string, c: char): (i: int)
    ensures -1 <= i < |s|
    ensures i >= 0 ==> s[i] == c
    ensures forall j :: i < j < |s| ==> s[j] != c
  {
    if |s| == 0 then -1
    else if s[|s| - 1] == c then |s| - 1
    else LastIndex(s[..|s| - 1], c)
  }

  /** The path components `filepath.Rel` can return for a file strictly below the
      root: none empty (no leading, trailing or doubled separator) and none of
      them `.` or `..`. On such paths Go's `Clean` changes nothing. */
  predicate ValidRelPath(p: string)
  {
    var cs := Strings.Split(p, Separator);
    forall i :: 0 <= i < |cs| ==> cs[i] != "" && cs[i] != "." && cs[i] != ".."
  }

  /** `filepath.Base`: the last component of the path. */
  function Base(p: string): (name: string)
    ensures Separator !in name
    ensures |name| <= |p| && name == p[|p| - |name|..]
    ensures Separator !in p ==> name == p
  {
    p[LastIndex(p, Separator) + 1..]
  }

  /** `filepath.Dir`: everything before the last separator, or "." for a path with
      no separator. */
  function Dir(p: string): (dir: string)
    ensures Separator !in p ==> dir == "."
    ensures Separator in p ==> dir + [Separator] + Base(p) == p
  {
    var k := LastIndex(p, Separator);
    if k < 0 then "." else
      assert p == p[..k] + [Separator] + p[k + 1..];
      p[..k]
  }

  /** `strings.HasPrefix(name, ".")`: the loader's test for a file to skip. */
  predicate IsHidden(name: string)
  {
    |name| > 0 && name[0] == '.'
  }

  /** On a valid relative path the base name is the last component, so it is
      never empty. */
  lemma BaseNonEmpty(p: string)
    requires ValidRelPath(p)
    ensures Base(p) != ""
  {
    var cs := Strings.Split(p, Separator);
    if Separator in p {
      SplitAtLast(p);
      assert Base(p) == cs[|cs| - 1];
    } else {
      Strings.SplitNoSeparator(p, Separator);
      assert cs[0] == p;
    }
  }

  /** On a valid relative path with a separator, the directory is the path of
      the leading components: itself valid, and never ".". */
  lemma DirValid(p: string)
    requires ValidRelPath(p) && Separator in p
    ensures ValidRelPath(Dir(p))
    ensures Dir(p) != "."
  {
    var d := Dir(p);
    var cs, ds := Strings.Split(p, Separator), Strings.Split(d, Separator);
    SplitAtLast(p);
    PrefixComponentsValid(ds, cs);
    if Separator !in d {
      Strings.SplitNoSeparator(d, Separator);
      assert ds[0] == d;
    }
  }

  /** Splitting at the last separator: the components are those of `Dir` then `Base`. */
  lemma SplitAtLast(p: string)
    requires Separator in p
    ensures Strings.Split(p, Separator) == Strings.Split(Dir(p), Separator) + [Base(p)]
  {
    Strings.SplitConcat(Dir(p), Base(p), Separator);
    Strings.SplitNoSeparator(Base(p), Separator);
  }

  /** The leading components of a valid path are valid components. */
  lemma PrefixComponentsValid(ds: seq<string>, cs: seq<string>)
    requires |ds| < |cs| && ds == cs[..|ds|]
    requires forall i :: 0 <= i < |cs| ==> cs[i] != "" && cs[i] != "." && cs[i] != ".."
    ensures forall i :: 0 <= i < |ds| ==> ds[i] != "" && ds[i] != "." && ds[i] != ".."
  {
    forall i | 0 <= i < |ds|
      ensures ds[i] != "" && ds[i] != "." && ds[i] != ".."
    {
      assert ds[i] == cs[i];
    }
  }

  /** Two valid relative paths with the same directory and base name are the same path:
      the loader's (directory, name) pair identifies the file. */
  lemma DirBaseDetermine(p: string, q: string)
    requires ValidRelPath(p) && ValidRelPath(q)
    requires Dir(p) == Dir(q) && Base(p) == Base(q)
    ensures p == q
  {
    if Separator in p {
      DirValid(p);
    }
    if Separator in q {
      DirValid(q);
    }
  }
}
