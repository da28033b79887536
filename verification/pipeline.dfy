/**
 The whole conversion of one run: the walk's visits grouped by `loadSnippets`,
 then turned into bundle files by `writeSnippets`.
 */
module Pipeline {
  import Strings
  import opened Paths
  import opened Snippets
  import opened Loader
  import opened Writer

  /** The bundle files produced from a walk, by file name. */
  function Convert(visits: seq<FileVisit>): map<string, map<string, SnippetJSON>>
  {
    WriteSnippets(Grouping(visits))
  }

  /** The entry a record puts in its folder's bundle. */
  ghost predicate HoldsEntry(groups: map<string, seq<SnippetInfo>>, r: SnippetInfo)
  {
    && r.dirName in groups
    && Identifier(r.dirName, r.snippetName) in Bundle(r.dirName, groups[r.dirName])
    && Bundle(r.dirName, groups[r.dirName])[Identifier(r.dirName, r.snippetName)] == ToJSON(r)
  }

  /** A visit that produces a record puts that record's entry in the bundle. */
  lemma AddVisitSetsEntry(groups: map<string, seq<SnippetInfo>>, v: FileVisit)
    requires Derive(v).Some?
    ensures HoldsEntry(AddVisit(groups, v), Derive(v).value)
  {
    var r := Derive(v).value;
    var g := if r.dirName in groups then groups[r.dirName] else [];
    assert AddVisit(groups, v)[r.dirName] == g + [r];
    BundleSetsKey(r.dirName, g, r);
  }

  /** A visit with another folder or another name leaves an entry in place. */
  lemma AddVisitKeepsEntry(groups: map<string, seq<SnippetInfo>>, v: FileVisit, r: SnippetInfo)
    requires HoldsEntry(groups, r)
    requires Derive(v).Some? ==> Derive(v).value.dirName != r.dirName || Derive(v).value.snippetName != r.snippetName
    ensures HoldsEntry(AddVisit(groups, v), r)
  {
    var after := AddVisit(groups, v);
    match Derive(v)
    case None =>
    case Some(r2) =>
      if r2.dirName == r.dirName {
        assert after[r.dirName] == groups[r.dirName] + [r2];
        BundleKeepsKey(r.dirName, groups[r.dirName], r2, r.snippetName);
      } else {
        assert after[r.dirName] == groups[r.dirName];
      }
  }

  /** No visit after position `i` produces a record with the same folder and name
      as visit `i`. */
  ghost predicate LastOfItsName(visits: seq<FileVisit>, i: nat)
    requires i < |visits| && Derive(visits[i]).Some?
  {
    forall j :: i < j < |visits| && Derive(visits[j]).Some? ==>
      Derive(visits[j]).value.dirName != Derive(visits[i]).value.dirName
      || Derive(visits[j]).value.snippetName != Derive(visits[i]).value.snippetName
  }

  /** Dropping the last visit keeps an earlier visit the last of its name. */
  lemma LastOfItsNamePrefix(visits: seq<FileVisit>, i: nat)
    requires i < |visits| - 1 && Derive(visits[i]).Some?
    requires LastOfItsName(visits, i)
    ensures Derive(visits[..|visits| - 1][i]).Some? && LastOfItsName(visits[..|visits| - 1], i)
  {
    var prefix := visits[..|visits| - 1];
    assert forall j :: 0 <= j < |prefix| ==> prefix[j] == visits[j];
  }

  /** The entry under a file's key is built from the last visit that produced the
      same folder and name; visits after it in other folders, or with other names,
      leave it alone. */
  lemma {:induction false} LatestVisitWins(visits: seq<FileVisit>, i: nat)
    requires i < |visits| && Derive(visits[i]).Some?
    requires LastOfItsName(visits, i)
    ensures HoldsEntry(Grouping(visits), Derive(visits[i]).value)
    decreases |visits|
  {
    var n := |visits| - 1;
    if i == n {
      AddVisitSetsEntry(Grouping(visits[..n]), visits[n]);
    } else {
      LastOfItsNamePrefix(visits, i);
      LatestVisitWins(visits[..n], i);
      assert visits[..n][i] == visits[i];
      AddVisitKeepsEntry(Grouping(visits[..n]), visits[n], Derive(visits[i]).value);
    }
  }

  /** For a walk in which the included files have distinct, clean relative paths,
      as `filepath.Walk` and `filepath.Rel` give them, each included file ends up in
      the bundle file of its folder, under its folder and name, with its body split
      into lines, its description, prefix "." and an empty scope. */
  lemma EndToEnd(visits: seq<FileVisit>, i: nat)
    requires CleanWalk(visits)
    requires i < |visits| && Derive(visits[i]).Some?
    ensures var v := visits[i];
      var file := OutputFileName(Dir(v.relPath));
      var key := Identifier(Dir(v.relPath), Base(v.relPath));
      && file in Convert(visits)
      && key in Convert(visits)[file]
      && Convert(visits)[file][key] == SnippetJSON(".", "", Strings.Split(v.body, '\n'), Description(v.data))
  {
    var v := visits[i];
    var r := Derive(v).value;
    forall j | i < j < |visits| && Derive(visits[j]).Some?
      ensures Derive(visits[j]).value.dirName != r.dirName || Derive(visits[j]).value.snippetName != r.snippetName
    {
      DistinctNames(visits, i, j);
    }
    LatestVisitWins(visits, i);
    var groups := Grouping(visits);
    assert Convert(visits)[OutputFileName(r.dirName)] == Bundle(r.dirName, groups[r.dirName]);
  }

  /** The key of a file in a subfolder is "vs/" followed by its relative path. */
  lemma NestedKey(relPath: string)
    requires Separator in relPath
    ensures Identifier(Dir(relPath), Base(relPath)) == "vs/" + relPath
  {
  }

  /** A file at the top of the tree lands in "..code-snippets", itself a hidden
      name, under the key "vs/./" followed by its name. */
  lemma TopLevelKey(relPath: string)
    requires Separator !in relPath
    ensures OutputFileName(Dir(relPath)) == "..code-snippets"
    ensures IsHidden(OutputFileName(Dir(relPath)))
    ensures Identifier(Dir(relPath), Base(relPath)) == "vs/./" + relPath
  {
    assert "vs/" + "." + "/" == "vs/./";
  }

  /** The bundle file of a nested folder "a/b" is "a/b.code-snippets": it lies in
      the folder's parent directory "a", below the destination, and its own name
      is the folder's last component followed by the extension. */
  lemma NestedFolderFile(folder: string)
    requires Separator in folder
    ensures Dir(OutputFileName(folder)) == Dir(folder)
    ensures Base(OutputFileName(folder)) == Base(folder) + OutputExtension
  {
    var f := OutputFileName(folder);
    var k, i := LastIndex(folder, Separator), LastIndex(f, Separator);
    assert f[k] == Separator;
    assert i == k;
    assert f[..k] == folder[..k];
    assert f[k + 1..] == folder[k + 1..] + OutputExtension;
  }

  /** Every key of every bundle file names that file's folder and a snippet file
      that is not hidden, and is the key of some included visit, in that visit's
      folder's file. */
  lemma KeysNameVisibleFiles(visits: seq<FileVisit>)
    ensures forall name, key :: name in Convert(visits) && key in Convert(visits)[name] ==>
      && ParseIdentifier(key).Some?
      && OutputFileName(ParseIdentifier(key).value.0) == name
      && !IsHidden(ParseIdentifier(key).value.1)
    ensures forall name, key :: name in Convert(visits) && key in Convert(visits)[name] ==>
      exists j ::
        && 0 <= j < |visits| && Derive(visits[j]).Some?
        && name == OutputFileName(Dir(visits[j].relPath))
        && key == Identifier(Dir(visits[j].relPath), Base(visits[j].relPath))
  {
    var groups := Grouping(visits);
    var files := Convert(visits);
    GroupingShape(visits);
    forall name, key | name in files && key in files[name]
      ensures ParseIdentifier(key).Some?
      ensures OutputFileName(ParseIdentifier(key).value.0) == name
      ensures !IsHidden(ParseIdentifier(key).value.1)
    {
      var d := FolderOfOutput(name).value;
      var g := groups[d];
      BundleContents(d, g);
      var k :| 0 <= k < |g| && Identifier(d, g[k].snippetName) == key;
      IdentifierRoundTrip(d, g[k].snippetName);
    }
    forall name, key | name in files && key in files[name]
      ensures exists j ::
        && 0 <= j < |visits| && Derive(visits[j]).Some?
        && name == OutputFileName(Dir(visits[j].relPath))
        && key == Identifier(Dir(visits[j].relPath), Base(visits[j].relPath))
    {
      KeyFromVisit(visits, name, key);
    }
  }

  /** One key of one bundle file is the key of some included visit, in that
      visit's folder's file. */
  lemma KeyFromVisit(visits: seq<FileVisit>, name: string, key: string)
    requires name in Convert(visits) && key in Convert(visits)[name]
    ensures exists j ::
      && 0 <= j < |visits| && Derive(visits[j]).Some?
      && name == OutputFileName(Dir(visits[j].relPath))
      && key == Identifier(Dir(visits[j].relPath), Base(visits[j].relPath))
  {
    var groups := Grouping(visits);
    var d := FolderOfOutput(name).value;
    var g := groups[d];
    BundleContents(d, g);
    var k :| 0 <= k < |g| && Identifier(d, g[k].snippetName) == key;
    GroupedRecordSound(visits, d, k);
    var j :| 0 <= j < |visits| && Derive(visits[j]).Some? && Derive(visits[j]).value == g[k];
    GroupingShape(visits);
    assert Dir(visits[j].relPath) == d && Base(visits[j].relPath) == g[k].snippetName;
  }

  /** Exactly one bundle file per folder that holds an included file. */
  lemma OneFilePerFolder(visits: seq<FileVisit>)
    ensures |Convert(visits)| == |Dirs(Included(visits))|
  {
    GroupingShape(visits);
    OutputFileCount(Grouping(visits));
    assert Grouping(visits).Keys == Dirs(Included(visits));
  }

  /** Every included file's folder gets a bundle file. */
  lemma FileForEveryFolder(visits: seq<FileVisit>, i: nat)
    requires i < |visits| && Derive(visits[i]).Some?
    ensures OutputFileName(Derive(visits[i]).value.dirName) in Convert(visits)
  {
    RecordPlacement(visits, i);
  }

  /** A walk that includes nothing writes no bundle file. */
  lemma NoFilesWhenNothingIncluded(visits: seq<FileVisit>)
    requires forall j :: 0 <= j < |visits| ==> Derive(visits[j]).None?
    ensures Convert(visits) == map[]
  {
    NothingIncluded(visits);
    GroupingShape(visits);
    assert Dirs(Included(visits)) == {};
    assert Convert(visits).Keys == {};
  }
}
