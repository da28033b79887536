/**
 `loadSnippets`: the walk callback that turns each visited file into a
 `SnippetInfo` and appends it to the list of its folder. The walk itself,
 the file reads and the frontmatter parser are outside the model: the walk
 is given as the sequence of visits in the order `filepath.Walk` makes them,
 each carrying the parser's result for that file.
 */
module Loader {
  import opened Wrappers
  import opened Snippets
  import opened Paths

  /** One call of the walk callback: the visited path, its path relative to the
      snippet root, whether it is a directory, and the (metadata, body) pair the
      frontmatter parser returns for the file's text. */
  datatype FileVisit = FileVisit(
    path: string,
    relPath: string,
    isDir: bool,
    data: Metadata,
    body: string)

  /** The record the callback appends for a visit: none for a directory or for a
      file whose name starts with ".". */
  function Derive(v: FileVisit): (r: Option<SnippetInfo>)
    ensures r.Some? <==> !v.isDir && !IsHidden(Base(v.relPath))
    ensures r.Some? ==> r.value.fullPath == v.path && r.value.content == v.body && r.value.data == v.data
  {
    if v.isDir then None
    else
      var dirName := Dir(v.relPath);
      var snippetName := Base(v.relPath);
      if IsHidden(snippetName) then None
      else Some(SnippetInfo(dirName, snippetName, v.path, v.body, v.data))
  }

  /** A record's folder and name split its visit's relative path: folder + "/" + name
      is the path, or the folder is "." and the name is the path for a top-level
      file; the name never holds a separator. */
  lemma DeriveNames(v: FileVisit)
    requires Derive(v).Some?
    ensures Separator !in Derive(v).value.snippetName
    ensures Separator in v.relPath ==>
      Derive(v).value.dirName + [Separator] + Derive(v).value.snippetName == v.relPath
    ensures Separator !in v.relPath ==>
      Derive(v).value.dirName == "." && Derive(v).value.snippetName == v.relPath
  {
  }

  /** The records of all visits that pass the filter, in visit order. */
  function Included(visits: seq<FileVisit>): (records: seq<SnippetInfo>)
    ensures |records| <= |visits|
    ensures forall k :: 0 <= k < |records| ==> !IsHidden(records[k].snippetName)
    ensures forall k :: 0 <= k < |records| ==> Separator !in records[k].snippetName
  {
    if |visits| == 0 then []
    else
      var n := |visits| - 1;
      var earlier := Included(visits[..n]);
      match Derive(visits[n])
      case None => earlier
      case Some(r) => earlier + [r]
  }

  /** The folders that hold at least one record. */
  function Dirs(records: seq<SnippetInfo>): set<string>
  {
    set k | 0 <= k < |records| :: records[k].dirName
  }

  /** The records of folder `dir`, in their original order. */
  function GroupOf(records: seq<SnippetInfo>, dir: string): (group: seq<SnippetInfo>)
    ensures forall k :: 0 <= k < |group| ==> group[k].dirName == dir
    ensures |group| > 0 <==> dir in Dirs(records)
  {
    if |records| == 0 then []
    else
      var n := |records| - 1;
      var earlier := GroupOf(records[..n], dir);
      assert records == records[..n] + [records[n]];
      assert Dirs(records) == Dirs(records[..n]) + {records[n].dirName};
      if records[n].dirName == dir then earlier + [records[n]] else earlier
  }

  /** Every record of a visit that passes the filter is among the included records. */
  lemma {:induction false} IncludedComplete(visits: seq<FileVisit>, j: nat)
    requires j < |visits| && Derive(visits[j]).Some?
    ensures Derive(visits[j]).value in Included(visits)
  {
    var n := |visits| - 1;
    if j < n {
      IncludedComplete(visits[..n], j);
      assert visits[..n][j] == visits[j];
    }
  }

  /** Appending a record adds exactly its folder. */
  lemma DirsSnoc(records: seq<SnippetInfo>, r: SnippetInfo)
    ensures Dirs(records + [r]) == Dirs(records) + {r.dirName}
  {
    var rs := records + [r];
    assert rs[|records|] == r;
    assert forall k :: 0 <= k < |records| ==> rs[k] == records[k];
  }

  /** A group holds each record of its folder as often as the records do. */
  lemma {:induction false} GroupOfCount(records: seq<SnippetInfo>, dir: string, x: SnippetInfo)
    requires x.dirName == dir
    ensures multiset(GroupOf(records, dir))[x] == multiset(records)[x]
  {
    if |records| > 0 {
      var n := |records| - 1;
      GroupOfCount(records[..n], dir, x);
      assert records == records[..n] + [records[n]];
    }
  }

  /** The walk callback's effect on the groups: a directory or a hidden file leaves
      them as they are; any other file's record is appended to the end of its
      folder's group, which is created when the folder had none. */
  function AddVisit(groups: map<string, seq<SnippetInfo>>, v: FileVisit): map<string, seq<SnippetInfo>>
  {
    match Derive(v)
    case None => groups
    case Some(r) => groups[r.dirName := (if r.dirName in groups then groups[r.dirName] else []) + [r]]
  }

  /** The groups after the walk: the callback applied to every visit in order. */
  function Grouping(visits: seq<FileVisit>): map<string, seq<SnippetInfo>>
  {
    if |visits| == 0 then map[]
    else AddVisit(Grouping(visits[..|visits| - 1]), visits[|visits| - 1])
  }

  /** Groups that are the folder-wise filter of some records stay so when one more
      record is appended to the end of its folder's group. */
  lemma FilterStep(groups: map<string, seq<SnippetInfo>>, records: seq<SnippetInfo>, r: SnippetInfo)
    requires groups.Keys == Dirs(records)
    requires forall dir :: dir in groups ==> groups[dir] == GroupOf(records, dir)
    ensures var after := groups[r.dirName := (if r.dirName in groups then groups[r.dirName] else []) + [r]];
      && after.Keys == Dirs(records + [r])
      && forall dir :: dir in after ==> after[dir] == GroupOf(records + [r], dir)
  {
    var rs := records + [r];
    var after := groups[r.dirName := (if r.dirName in groups then groups[r.dirName] else []) + [r]];
    DirsSnoc(records, r);
    assert rs[..|records|] == records;
    forall dir | dir in after
      ensures after[dir] == GroupOf(rs, dir)
    {
      if dir == r.dirName {
        assert GroupOf(rs, dir) == GroupOf(records, dir) + [r];
        if dir !in groups {
          assert GroupOf(records, dir) == [];
        }
      } else {
        assert GroupOf(rs, dir) == GroupOf(records, dir);
      }
    }
  }

  /** The groups, described without the callback: there is a group for exactly the
      folders with an included file, and each holds that folder's records in visit
      order. */
  lemma {:induction false} GroupingIsFilter(visits: seq<FileVisit>)
    ensures Grouping(visits).Keys == Dirs(Included(visits))
    ensures forall dir :: dir in Grouping(visits) ==> Grouping(visits)[dir] == GroupOf(Included(visits), dir)
  {
    if |visits| > 0 {
      var n := |visits| - 1;
      GroupingIsFilter(visits[..n]);
      if Derive(visits[n]).Some? {
        FilterStep(Grouping(visits[..n]), Included(visits[..n]), Derive(visits[n]).value);
      }
    }
  }

  /** The source's callback run over the visits in order, as `loadSnippets` does. */
  method LoadSnippets(visits: seq<FileVisit>) returns (snippets: map<string, seq<SnippetInfo>>)
    ensures snippets == Grouping(visits)
    ensures snippets.Keys == Dirs(Included(visits))
    ensures forall dir :: dir in snippets ==> snippets[dir] == GroupOf(Included(visits), dir)
  {
    snippets := map[];
    for n := 0 to |visits|
      invariant snippets == Grouping(visits[..n])
    {
      var v := visits[n];
      assert visits[..n + 1][..n] == visits[..n];
      if !v.isDir {
        var dirName := Dir(v.relPath);
        var snippetName := Base(v.relPath);
        if !IsHidden(snippetName) {
          var info := SnippetInfo(dirName, snippetName, v.path, v.body, v.data);
          var existing := if dirName in snippets then snippets[dirName] else [];
          snippets := snippets[dirName := existing + [info]];
        }
      }
    }
    assert visits[..|visits|] == visits;
    GroupingIsFilter(visits);
  }

  /** Every group is non-empty, holds only records of its own folder, and holds no
      hidden file; a folder has a group exactly when one of its files was included. */
  lemma GroupingShape(visits: seq<FileVisit>)
    ensures forall dir :: dir in Grouping(visits) <==> dir in Dirs(Included(visits))
    ensures forall dir :: dir in Grouping(visits) ==> |Grouping(visits)[dir]| > 0
    ensures forall dir, k :: dir in Grouping(visits) && 0 <= k < |Grouping(visits)[dir]| ==>
      Grouping(visits)[dir][k].dirName == dir && !IsHidden(Grouping(visits)[dir][k].snippetName)
      && Separator !in Grouping(visits)[dir][k].snippetName
  {
    var rs := Included(visits);
    var m := Grouping(visits);
    GroupingIsFilter(visits);
    forall dir: string, k: int | dir in m && 0 <= k < |m[dir]|
      ensures var x: SnippetInfo := m[dir][k]; !IsHidden(x.snippetName) && Separator !in x.snippetName
    {
      var x: SnippetInfo := m[dir][k];
      GroupOfCount(rs, dir, x);
      assert x in multiset(m[dir]);
      assert x in multiset(rs);
    }
  }

  /** Every visit that passes the filter has its record in its folder's group. */
  lemma RecordPlacement(visits: seq<FileVisit>, i: nat)
    requires i < |visits| && Derive(visits[i]).Some?
    ensures var r := Derive(visits[i]).value;
      r.dirName in Grouping(visits) && r in Grouping(visits)[r.dirName]
  {
    var r := Derive(visits[i]).value;
    var rs := Included(visits);
    GroupingIsFilter(visits);
    IncludedComplete(visits, i);
    GroupOfCount(rs, r.dirName, r);
    assert r in multiset(rs);
    assert r.dirName in Dirs(rs);
    assert r in multiset(GroupOf(rs, r.dirName));
  }

  /** Some folder of a non-empty grouping. */
  ghost function AnyFolder(groups: map<string, seq<SnippetInfo>>): (dir: string)
    requires |groups| > 0
    ensures dir in groups
  {
    var dir :| dir in groups; dir
  }

  /** The number of records held by all groups together. */
  ghost function TotalRecords(groups: map<string, seq<SnippetInfo>>): nat
    decreases |groups|
  {
    if |groups| == 0 then 0
    else
      var dir := AnyFolder(groups);
      |groups[dir]| + TotalRecords(groups - {dir})
  }

  /** The total does not depend on which group is counted first. */
  lemma {:induction false} TotalRecordsRemove(groups: map<string, seq<SnippetInfo>>, dir: string)
    requires dir in groups
    ensures TotalRecords(groups) == |groups[dir]| + TotalRecords(groups - {dir})
    decreases |groups|
  {
    var d := AnyFolder(groups);
    if d != dir {
      var rest := groups - {d};
      assert rest.Keys == groups.Keys - {d};
      assert dir in rest;
      TotalRecordsRemove(rest, dir);
      var others := groups - {dir};
      assert others.Keys == groups.Keys - {dir};
      TotalRecordsRemove(others, d);
      assert rest - {dir} == others - {d};
    }
  }

  /** Appending one record to one group adds one to the total. */
  lemma TotalRecordsAppend(groups: map<string, seq<SnippetInfo>>, dir: string, r: SnippetInfo)
    ensures TotalRecords(groups[dir := (if dir in groups then groups[dir] else []) + [r]]) == TotalRecords(groups) + 1
  {
    var grown := groups[dir := (if dir in groups then groups[dir] else []) + [r]];
    TotalRecordsRemove(grown, dir);
    assert grown - {dir} == groups - {dir};
    if dir in groups {
      TotalRecordsRemove(groups, dir);
    } else {
      assert groups - {dir} == groups;
    }
  }

  /** One visit adds one record to the total when it passes the filter, none otherwise. */
  lemma AddVisitTotal(groups: map<string, seq<SnippetInfo>>, v: FileVisit)
    ensures TotalRecords(AddVisit(groups, v)) == TotalRecords(groups) + (if Derive(v).Some? then 1 else 0)
  {
    match Derive(v)
    case None =>
    case Some(r) => TotalRecordsAppend(groups, r.dirName, r);
  }

  /** The groups together hold exactly one record per included file. */
  lemma {:induction false} GroupingTotal(visits: seq<FileVisit>)
    ensures TotalRecords(Grouping(visits)) == |Included(visits)|
  {
    if |visits| > 0 {
      var n := |visits| - 1;
      GroupingTotal(visits[..n]);
      AddVisitTotal(Grouping(visits[..n]), visits[n]);
      assert |Included(visits)| == |Included(visits[..n])| + (if Derive(visits[n]).Some? then 1 else 0);
    }
  }

  /** A walk in which every visit is a directory or a hidden file includes nothing. */
  lemma {:induction false} NothingIncluded(visits: seq<FileVisit>)
    requires forall j :: 0 <= j < |visits| ==> Derive(visits[j]).None?
    ensures Included(visits) == []
  {
    if |visits| > 0 {
      var n := |visits| - 1;
      assert forall j :: 0 <= j < n ==> visits[..n][j] == visits[j];
      NothingIncluded(visits[..n]);
    }
  }

  /** How many visits of the walk produce the record `r`. */
  function Occurrences(visits: seq<FileVisit>, r: SnippetInfo): nat
  {
    if |visits| == 0 then 0
    else
      var n := |visits| - 1;
      Occurrences(visits[..n], r) + (if Derive(visits[n]) == Some(r) then 1 else 0)
  }

  /** The included records hold each record exactly as often as visits produce it:
      nothing is invented, nothing dropped, nothing duplicated. */
  lemma {:induction false} IncludedCount(visits: seq<FileVisit>, r: SnippetInfo)
    ensures multiset(Included(visits))[r] == Occurrences(visits, r)
  {
    if |visits| > 0 {
      IncludedCount(visits[..|visits| - 1], r);
    }
  }

  /** Every included record is the record of some visit. */
  lemma {:induction false} IncludedSound(visits: seq<FileVisit>, k: nat)
    requires k < |Included(visits)|
    ensures exists j :: 0 <= j < |visits| && Derive(visits[j]) == Some(Included(visits)[k])
  {
    var n := |visits| - 1;
    var earlier := Included(visits[..n]);
    if k < |earlier| {
      IncludedSound(visits[..n], k);
      var j :| 0 <= j < n && Derive(visits[..n][j]) == Some(earlier[k]);
      assert visits[..n][j] == visits[j];
      assert Included(visits)[k] == earlier[k];
    } else {
      assert Derive(visits[n]) == Some(Included(visits)[k]);
    }
  }

  /** Every record in a group is the record of some visit. */
  lemma GroupedRecordSound(visits: seq<FileVisit>, dir: string, k: nat)
    requires dir in Grouping(visits) && k < |Grouping(visits)[dir]|
    ensures exists j :: 0 <= j < |visits| && Derive(visits[j]) == Some(Grouping(visits)[dir][k])
  {
    var rs := Included(visits);
    var x := Grouping(visits)[dir][k];
    GroupingIsFilter(visits);
    assert x in multiset(GroupOf(rs, dir));
    GroupOfCount(rs, dir, x);
    assert x in rs;
    var m :| 0 <= m < |rs| && rs[m] == x;
    IncludedSound(visits, m);
  }

  /** A walk as `filepath.Walk` and `filepath.Rel` give it below a root, as far as
      included files go: each has a clean relative path, and no two share one. */
  predicate CleanWalk(visits: seq<FileVisit>)
  {
    && (forall j :: 0 <= j < |visits| && Derive(visits[j]).Some? ==> ValidRelPath(visits[j].relPath))
    && (forall j, k :: 0 <= j < k < |visits| && Derive(visits[j]).Some? && Derive(visits[k]).Some? ==>
          visits[j].relPath != visits[k].relPath)
  }

  /** In a clean walk, two different included visits differ in folder or name. */
  lemma DistinctNames(visits: seq<FileVisit>, i: nat, j: nat)
    requires CleanWalk(visits)
    requires i < |visits| && j < |visits| && i != j
    requires Derive(visits[i]).Some? && Derive(visits[j]).Some?
    ensures Derive(visits[i]).value.dirName != Derive(visits[j]).value.dirName
      || Derive(visits[i]).value.snippetName != Derive(visits[j]).value.snippetName
  {
    if Derive(visits[i]).value.dirName == Derive(visits[j]).value.dirName
      && Derive(visits[i]).value.snippetName == Derive(visits[j]).value.snippetName
    {
      if i < j {
        DirBaseDetermine(visits[i].relPath, visits[j].relPath);
      } else {
        DirBaseDetermine(visits[j].relPath, visits[i].relPath);
      }
    }
  }

  /** A record that no visit of the walk produces occurs zero times. */
  lemma {:induction false} NoOccurrences(visits: seq<FileVisit>, r: SnippetInfo)
    requires forall j :: 0 <= j < |visits| ==> Derive(visits[j]) != Some(r)
    ensures Occurrences(visits, r) == 0
  {
    if |visits| > 0 {
      var n := |visits| - 1;
      assert forall j :: 0 <= j < n ==> visits[..n][j] == visits[j];
      NoOccurrences(visits[..n], r);
    }
  }

  /** A record that exactly one visit produces occurs once. */
  lemma {:induction false} SingleProducer(visits: seq<FileVisit>, i: nat, r: SnippetInfo)
    requires i < |visits| && Derive(visits[i]) == Some(r)
    requires forall j :: 0 <= j < |visits| && j != i ==> Derive(visits[j]) != Some(r)
    ensures Occurrences(visits, r) == 1
  {
    var n := |visits| - 1;
    var prefix := visits[..n];
    assert forall j :: 0 <= j < n ==> prefix[j] == visits[j];
    if i < n {
      SingleProducer(prefix, i, r);
      assert Derive(visits[n]) != Some(r);
    } else {
      NoOccurrences(prefix, r);
    }
    assert Occurrences(visits, r) == Occurrences(prefix, r) + (if Derive(visits[n]) == Some(r) then 1 else 0);
  }

  /** In a clean walk, each included visit produces its record exactly once. */
  lemma IncludedOnce(visits: seq<FileVisit>, i: nat)
    requires CleanWalk(visits)
    requires i < |visits| && Derive(visits[i]).Some?
    ensures Occurrences(visits, Derive(visits[i]).value) == 1
  {
    var r := Derive(visits[i]).value;
    forall j | 0 <= j < |visits| && j != i
      ensures Derive(visits[j]) != Some(r)
    {
      if Derive(visits[j]).Some? {
        DistinctNames(visits, i, j);
      }
    }
    SingleProducer(visits, i, r);
  }

  /** In a clean walk, each included file's record appears exactly once in its
      folder's group. */
  lemma GroupedOnce(visits: seq<FileVisit>, i: nat)
    requires CleanWalk(visits)
    requires i < |visits| && Derive(visits[i]).Some?
    ensures var r := Derive(visits[i]).value;
      r.dirName in Grouping(visits) && multiset(Grouping(visits)[r.dirName])[r] == 1
  {
    var r := Derive(visits[i]).value;
    var rs := Included(visits);
    RecordPlacement(visits, i);
    GroupingIsFilter(visits);
    GroupOfCount(rs, r.dirName, r);
    IncludedCount(visits, r);
    IncludedOnce(visits, i);
  }
}
