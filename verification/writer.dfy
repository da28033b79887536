/**
 `writeSnippets`: for every folder, the bundle mapping each snippet's key to
 its entry, written to a file named after the folder. The bundle is a map;
 its JSON text, the file write and the printed path are not modelled.
 */
module Writer {
  import opened Wrappers
  import opened Snippets
  import Strings

  /** The keys of a folder's snippets. */
  function Ids(folder: string, snippets: seq<SnippetInfo>): set<string>
  {
    set i | 0 <= i < |snippets| :: Identifier(folder, snippets[i].snippetName)
  }

  /** Appending a snippet adds exactly its key. */
  lemma IdsSnoc(folder: string, snippets: seq<SnippetInfo>, x: SnippetInfo)
    ensures Ids(folder, snippets + [x]) == Ids(folder, snippets) + {Identifier(folder, x.snippetName)}
  {
    var s := snippets + [x];
    forall id | id in Ids(folder, s)
      ensures id in Ids(folder, snippets) + {Identifier(folder, x.snippetName)}
    {
      var i :| 0 <= i < |s| && id == Identifier(folder, s[i].snippetName);
      if i < |snippets| {
        assert s[i] == snippets[i];
      }
    }
    forall id | id in Ids(folder, snippets)
      ensures id in Ids(folder, s)
    {
      var i :| 0 <= i < |snippets| && id == Identifier(folder, snippets[i].snippetName);
      assert s[i] == snippets[i];
    }
    assert Identifier(folder, s[|snippets|].snippetName) in Ids(folder, s);
  }

  /** The position of the last snippet whose key is `id`. */
  function LastWithId(folder: string, snippets: seq<SnippetInfo>, id: string): (i: nat)
    requires id in Ids(folder, snippets)
    ensures i < |snippets| && Identifier(folder, snippets[i].snippetName) == id
    ensures forall j :: i < j < |snippets| ==> Identifier(folder, snippets[j].snippetName) != id
    decreases |snippets|
  {
    var n := |snippets| - 1;
    if Identifier(folder, snippets[n].snippetName) == id then n
    else
      IdsSnoc(folder, snippets[..n], snippets[n]);
      assert snippets[..n] + [snippets[n]] == snippets;
      LastWithId(folder, snippets[..n], id)
  }

  /** The bundle of one folder: each snippet's entry stored under its key in list
      order, so that a later snippet replaces an earlier one with the same key. */
  function Bundle(folder: string, snippets: seq<SnippetInfo>): map<string, SnippetJSON>
  {
    if |snippets| == 0 then map[]
    else
      var last := snippets[|snippets| - 1];
      Bundle(folder, snippets[..|snippets| - 1])[Identifier(folder, last.snippetName) := ToJSON(last)]
  }

  /** Adding one more snippet sets its key to its entry and changes nothing else. */
  lemma BundleSnoc(folder: string, snippets: seq<SnippetInfo>, x: SnippetInfo)
    ensures Bundle(folder, snippets + [x]) == Bundle(folder, snippets)[Identifier(folder, x.snippetName) := ToJSON(x)]
  {
    assert (snippets + [x])[..|snippets|] == snippets;
  }

  /** After appending `x`, the last snippet with `x`'s key is `x`; every other key's
      last snippet is where it was. */
  lemma LastWithIdSnoc(folder: string, snippets: seq<SnippetInfo>, x: SnippetInfo, id: string)
    requires id in Ids(folder, snippets + [x])
    ensures id == Identifier(folder, x.snippetName) ==> LastWithId(folder, snippets + [x], id) == |snippets|
    ensures id != Identifier(folder, x.snippetName) ==>
      id in Ids(folder, snippets) && LastWithId(folder, snippets + [x], id) == LastWithId(folder, snippets, id)
  {
    IdsSnoc(folder, snippets, x);
    assert (snippets + [x])[..|snippets|] == snippets;
  }

  /** The bundle, described without the loop: its keys are exactly the keys of the
      folder's snippets, and each holds the entry of the last snippet with that key. */
  lemma {:induction false} BundleIsLastWrite(folder: string, snippets: seq<SnippetInfo>)
    ensures Bundle(folder, snippets).Keys == Ids(folder, snippets)
    ensures forall id :: id in Bundle(folder, snippets) ==>
      id in Ids(folder, snippets) && Bundle(folder, snippets)[id] == ToJSON(snippets[LastWithId(folder, snippets, id)])
  {
    if |snippets| > 0 {
      var n := |snippets| - 1;
      var prefix, x := snippets[..n], snippets[n];
      assert snippets == prefix + [x];
      BundleIsLastWrite(folder, prefix);
      IdsSnoc(folder, prefix, x);
      var b := Bundle(folder, snippets);
      forall id | id in b
        ensures id in Ids(folder, snippets) && b[id] == ToJSON(snippets[LastWithId(folder, snippets, id)])
      {
        LastWithIdSnoc(folder, prefix, x, id);
        if id != Identifier(folder, x.snippetName) {
          assert snippets[LastWithId(folder, prefix, id)] == prefix[LastWithId(folder, prefix, id)];
        }
      }
    }
  }

  /** Every snippet has a key in the bundle, every key is the key of some snippet whose
      entry it holds, and every entry has prefix "." and an empty scope. */
  lemma BundleContents(folder: string, snippets: seq<SnippetInfo>)
    ensures forall i :: 0 <= i < |snippets| ==> Identifier(folder, snippets[i].snippetName) in Bundle(folder, snippets)
    ensures forall id :: id in Bundle(folder, snippets) ==>
      exists i :: 0 <= i < |snippets| && Identifier(folder, snippets[i].snippetName) == id
                  && Bundle(folder, snippets)[id] == ToJSON(snippets[i])
    ensures forall id :: id in Bundle(folder, snippets) ==>
      Bundle(folder, snippets)[id].prefix == "." && Bundle(folder, snippets)[id].scope == ""
  {
    BundleIsLastWrite(folder, snippets);
    var b := Bundle(folder, snippets);
    forall i | 0 <= i < |snippets|
      ensures Identifier(folder, snippets[i].snippetName) in b
    {
      assert Identifier(folder, snippets[i].snippetName) in Ids(folder, snippets);
    }
    forall id | id in b
      ensures exists i :: 0 <= i < |snippets| && Identifier(folder, snippets[i].snippetName) == id && b[id] == ToJSON(snippets[i])
    {
      var i := LastWithId(folder, snippets, id);
      assert b[id] == ToJSON(snippets[i]);
    }
  }

  /** After appending a snippet, its key holds its entry. */
  lemma BundleSetsKey(folder: string, snippets: seq<SnippetInfo>, x: SnippetInfo)
    ensures Identifier(folder, x.snippetName) in Bundle(folder, snippets + [x])
    ensures Bundle(folder, snippets + [x])[Identifier(folder, x.snippetName)] == ToJSON(x)
  {
    BundleSnoc(folder, snippets, x);
  }

  /** After appending a snippet with another name, every earlier key keeps its entry. */
  lemma BundleKeepsKey(folder: string, snippets: seq<SnippetInfo>, x: SnippetInfo, name: string)
    requires Identifier(folder, name) in Bundle(folder, snippets)
    requires x.snippetName != name
    ensures Identifier(folder, name) in Bundle(folder, snippets + [x])
    ensures Bundle(folder, snippets + [x])[Identifier(folder, name)] == Bundle(folder, snippets)[Identifier(folder, name)]
  {
    BundleSnoc(folder, snippets, x);
    if Identifier(folder, x.snippetName) == Identifier(folder, name) {
      IdentifierInjective(folder, x.snippetName, name);
    }
  }

  /** The value under a key is built from the last snippet with that name, whatever
      came before it. */
  lemma LastWriteWins(folder: string, snippets: seq<SnippetInfo>, i: nat)
    requires i < |snippets|
    requires forall j :: i < j < |snippets| ==> snippets[j].snippetName != snippets[i].snippetName
    ensures Identifier(folder, snippets[i].snippetName) in Bundle(folder, snippets)
    ensures Bundle(folder, snippets)[Identifier(folder, snippets[i].snippetName)] == ToJSON(snippets[i])
  {
    BundleIsLastWrite(folder, snippets);
    var id := Identifier(folder, snippets[i].snippetName);
    assert id in Ids(folder, snippets);
    var k := LastWithId(folder, snippets, id);
    if k != i {
      IdentifierInjective(folder, snippets[k].snippetName, snippets[i].snippetName);
    }
  }

  /** The loop of `writeSnippets` over one folder's snippets: each snippet's entry
      is stored under its key, replacing any earlier one. The result has a key for
      exactly the folder's snippet names, each holding the last such snippet's entry. */
  method BuildBundle(folder: string, snippets: seq<SnippetInfo>) returns (data: map<string, SnippetJSON>)
    ensures data == Bundle(folder, snippets)
    ensures data.Keys == Ids(folder, snippets)
    ensures forall id :: id in data ==>
      id in Ids(folder, snippets) && data[id] == ToJSON(snippets[LastWithId(folder, snippets, id)])
  {
    data := map[];
    for n := 0 to |snippets|
      invariant data == Bundle(folder, snippets[..n])
    {
      var snippet := snippets[n];
      var description := Description(snippet.data);
      var identifier := "vs/" + folder + "/" + snippet.snippetName;
      var entry := SnippetJSON(SnippetPrefix, SnippetScope, Strings.Split(snippet.content, Newline), description);
      assert snippets[..n + 1][..n] == snippets[..n];
      data := data[identifier := entry];
    }
    assert snippets[..|snippets|] == snippets;
    BundleIsLastWrite(folder, snippets);
  }

  const OutputExtension: string := ".code-snippets"

  /** The name of the file a folder's bundle is written to. */
  function OutputFileName(folder: string): string
  {
    folder + OutputExtension
  }

  /** The folder a bundle file name was made from, or `None` for a name without the
      bundle extension. */
  function FolderOfOutput(name: string): (folder: Option<string>)
    ensures folder.Some? ==> OutputFileName(folder.value) == name
    ensures folder.Some? ==> |folder.value| + |OutputExtension| == |name|
  {
    var n := |name| - |OutputExtension|;
    if n >= 0 && name[n..] == OutputExtension then
      assert name == name[..n] + name[n..];
      Some(name[..n])
    else None
  }

  /** Every folder's output name gives the folder back, so no two folders share an
      output file. */
  lemma OutputNameRoundTrip(folder: string)
    ensures FolderOfOutput(OutputFileName(folder)) == Some(folder)
  {
    var name := OutputFileName(folder);
    assert name[|folder|..] == OutputExtension;
    assert name[..|folder|] == folder;
  }

  lemma OutputNamesDistinct()
    ensures forall a: string, b: string :: OutputFileName(a) == OutputFileName(b) ==> a == b
  {
    forall a: string, b: string | OutputFileName(a) == OutputFileName(b)
      ensures a == b
    {
      OutputNameRoundTrip(a);
      OutputNameRoundTrip(b);
    }
  }

  /** Distinct folders have distinct output names. */
  lemma {:induction false} OutputNamesCount(folders: set<string>)
    ensures |set f | f in folders :: OutputFileName(f)| == |folders|
    decreases folders
  {
    if folders != {} {
      var f :| f in folders;
      var rest := folders - {f};
      OutputNamesCount(rest);
      OutputNamesDistinct();
      assert (set g | g in folders :: OutputFileName(g)) == (set g | g in rest :: OutputFileName(g)) + {OutputFileName(f)};
      assert OutputFileName(f) !in (set g | g in rest :: OutputFileName(g));
    }
  }

  /** All bundle files of one run, by file name: one file per folder, holding
      that folder's bundle. Folders are visited in no particular order, and
      since no two share a file name the order does not matter. */
  function WriteSnippets(groups: map<string, seq<SnippetInfo>>): (files: map<string, map<string, SnippetJSON>>)
    ensures forall folder :: folder in groups ==>
      OutputFileName(folder) in files && files[OutputFileName(folder)] == Bundle(folder, groups[folder])
    ensures forall name :: name in files ==> FolderOfOutput(name).Some? && FolderOfOutput(name).value in groups
  {
    OutputNamesDistinct();
    OutputNamesReadBack(groups.Keys);
    map folder | folder in groups :: OutputFileName(folder) := Bundle(folder, groups[folder])
  }

  /** Every folder's output name reads back as that folder. */
  lemma OutputNamesReadBack(folders: set<string>)
    ensures forall folder :: folder in folders ==> FolderOfOutput(OutputFileName(folder)) == Some(folder)
  {
    forall folder | folder in folders
      ensures FolderOfOutput(OutputFileName(folder)) == Some(folder)
    {
      OutputNameRoundTrip(folder);
    }
  }

  /** A run writes exactly as many files as there are folders. */
  lemma OutputFileCount(groups: map<string, seq<SnippetInfo>>)
    ensures |WriteSnippets(groups)| == |groups|
  {
    var files := WriteSnippets(groups);
    assert files.Keys == set folder | folder in groups :: OutputFileName(folder);
    OutputNamesCount(groups.Keys);
  }
}
