# vscode-snippets: the snippet-to-bundle conversion, in Dafny

The tool walks a tree of legacy editor snippet files and writes, for each
folder, one editor snippet bundle `<folder>.code-snippets`. This project
models the pure part of `main.go`:

- **loading** (`loadSnippets`): each visited file's path relative to the
  snippet root is split into a folder (`filepath.Dir`) and a name
  (`filepath.Base`); directories and files whose name starts with `.` are
  skipped; every other file becomes a `SnippetInfo` appended to its folder's
  list, in visit order;
- **bundling** (`writeSnippets`): each folder's list becomes a map from the key
  `"vs/" + folder + "/" + name` to a `SnippetJSON` entry with prefix `"."`,
  an empty scope, the body split on `"\n"`, and the `desc` metadata value when
  it is a string; a later snippet with the same key replaces an earlier one;
  the bundle goes to the file `folder + ".code-snippets"`.

Modules, one per concern:

| file | module | models |
|---|---|---|
| `wrappers.dfy` | `Wrappers` | `Option` |
| `strings.dfy` | `Strings` | `strings.Split` / `strings.Join` on one character |
| `paths.dfy` | `Paths` | `filepath.Dir`, `filepath.Base`, the hidden-name test |
| `snippets.dfy` | `Snippets` | `SnippetInfo`, `SnippetJSON`, metadata values, the per-snippet entry and key |
| `writer.dfy` | `Writer` | one folder's bundle, the output file name, all folders' files |
| `loader.dfy` | `Loader` | the walk callback and the grouping by folder |
| `pipeline.dfy` | `Pipeline` | walk to bundle files, end to end |

The walk is an input: a sequence of `FileVisit`s in the order `filepath.Walk`
makes them, each with the relative path and with the (metadata, body) pair the
frontmatter parser returns for the file. Metadata is `map<string, Value>` with
`Value = Str(s) | Other`: only string values matter to the converter.

Each loop of the source is modelled twice. `Loader.Grouping` and
`Writer.Bundle` are step-by-step folds that replay the loops: `Grouping`
applies the callback `Loader.AddVisit` once per visit, and `Bundle` does one
map update per snippet; the methods `Loader.LoadSnippets` and
`Writer.BuildBundle` run the same loops and are proved equal to the folds.
The declarative descriptions are separate: `Loader.Dirs` with
`Loader.GroupOf` over `Loader.Included` (every folder with an included file,
mapped to that folder's records in visit order), and `Writer.Ids` with
`Writer.LastWithId` (each key mapped to the entry of the last snippet with
that key). `Loader.GroupingIsFilter` and `Writer.BundleIsLastWrite` prove the
folds equal to them for every input.

The inclusion filter is: the name does not start with `.`. The description
comes from `desc` only when that value is a string.

## Model

| member | source | states |
|---|---|---|
| `Strings.Split` | main.go:134 | the body has one line more than the content has newlines, so empty content gives one empty line; no line contains the separator |
| `Strings.JoinSplit` | main.go:134 | joining the body lines with "\n" gives back the content exactly |
| `Strings.SplitJoin` | main.go:134 | splitting a join of newline-free lines gives back those lines: the split loses nothing and invents nothing |
| `Paths.Base` | main.go:91 | the snippet name is a suffix of the relative path and contains no "/"; a path without "/" is its own name (with `Paths.Dir`, which fixes the rest, it is the part after the last "/") |
| `Paths.IsHidden` | main.go:94 | the test for a name starting with "."; `Loader.Derive` states that exactly the files failing it are included |
| `Paths.Dir` | main.go:90 | a path without "/" has folder "."; otherwise folder + "/" + name is the path |
| `Paths.BaseNonEmpty` | main.go:91 | on a clean relative path the name is never empty |
| `Paths.DirValid` | main.go:90 | when a clean relative path has a "/", its folder is the path of the leading components, itself clean and never "." |
| `Paths.DirBaseDetermine` | main.go:89-91 | two clean relative paths with the same folder and name are the same path |
| `Snippets.Description` | main.go:125 | the description is the `desc` value when it is a string, and "" when the key is missing or holds a non-string |
| `Snippets.ToJSON` | main.go:124-136 | every entry has prefix "." and scope ""; its description comes from the metadata; its body joins back to the content, has newline count + 1 lines, none containing "\n" |
| `Snippets.Identifier` | main.go:126 | builds the key "vs/" + folder + "/" + name; `Snippets.IdentifierRoundTrip` and `Snippets.IdentifierInjective` state that folder and name can be read back from it and that distinct names in a folder give distinct keys |
| `Snippets.ParseIdentifier` | main.go:126 | a parsed key rebuilds to the same key and its name part has no "/" |
| `Snippets.IdentifierRoundTrip` | main.go:126 | the key of a folder and a "/"-free name parses back to that folder and name |
| `Snippets.IdentifierInjective` | main.go:126 | within one folder, distinct names give distinct keys |
| `Writer.Bundle` | main.go:121-139 | the fold of the loop over a folder's snippets, one map update per snippet; `Writer.BundleIsLastWrite` states its keys are exactly the snippets' keys, each holding the last such snippet's entry |
| `Writer.LastWithId` | main.go:123-139 | locates the last snippet with a given key: it has that key and no later snippet does |
| `Writer.BundleContents` | main.go:121-139 | the bundle has a key for every snippet, every key is the key of some snippet whose entry it holds, and every entry has prefix "." and scope "" |
| `Writer.BundleIsLastWrite` | main.go:123-139 | the bundle built in list order has exactly the keys of the folder's snippets, each holding the entry of the last snippet with that key |
| `Writer.BundleSetsKey` | main.go:138 | after a snippet is stored, its key holds its entry |
| `Writer.BundleKeepsKey` | main.go:138 | storing a snippet with another name leaves every earlier key's entry unchanged |
| `Writer.LastWriteWins` | main.go:123-139 | under a repeated key the bundle holds the entry of the last snippet with that name |
| `Writer.BuildBundle` | main.go:121-139 | the source's loop over a folder's snippets has a key for exactly the folder's snippet names, each holding the last such snippet's entry |
| `Writer.OutputFileName` | main.go:145 | builds folder + ".code-snippets"; `Writer.OutputNameRoundTrip` and `Writer.OutputNamesDistinct` state that the folder reads back from it and that no two folders share a name |
| `Writer.FolderOfOutput` | main.go:145 | a name read back as a folder rebuilds to the same output file name |
| `Writer.OutputNameRoundTrip` | main.go:145 | the output file name of a folder reads back as that folder |
| `Writer.OutputNamesDistinct` | main.go:145 | no two folders share an output file name |
| `Writer.OutputNamesCount` | main.go:145 | a set of folders has as many output file names as folders |
| `Writer.WriteSnippets` | main.go:119-154 | the files the run tries to write (and whose paths it prints): one per folder, named folder + ".code-snippets" and holding that folder's bundle, and no other |
| `Writer.OutputNamesReadBack` | main.go:145 | every folder's output file name reads back as that folder |
| `Writer.OutputFileCount` | main.go:119-154 | a run tries to write as many files as there are folders |
| `Loader.Derive` | main.go:80-108 | a visit yields a record exactly when it is not a directory and its name does not start with "."; the record carries the visit's path, body and metadata; the folder and name are stated by `Loader.DeriveNames` |
| `Loader.DeriveNames` | main.go:87-91 | a record's folder + "/" + name is its relative path, or folder "." and name = path for a top-level file; the name never holds "/" |
| `Loader.AddVisit` | main.go:80-111 | the walk callback on one visit: skip it or append its record to its folder's list; `Loader.FilterStep` states that the append keeps every list equal to its folder's records, and `Pipeline.AddVisitSetsEntry` and `Pipeline.AddVisitKeepsEntry` state its effect on the bundles |
| `Loader.Grouping` | main.go:78-116 | the fold of the callback over the walk; `Loader.GroupingIsFilter` states it has a group for exactly the folders with an included file, holding that folder's records in visit order |
| `Loader.Included` | main.go:94-111 | the included records are no more than the visits, none hidden, none with a "/" in its name; `Loader.IncludedCount` and `Loader.IncludedSound` state that they are exactly the records the visits produce |
| `Loader.IncludedComplete` | main.go:94-111 | every visit that passes the filter contributes its record |
| `Loader.Occurrences` | main.go:80-111 | counts the visits that produce a given record; `Loader.IncludedCount` relates it to the included records |
| `Loader.IncludedCount` | main.go:94-111 | each record occurs among the included records exactly as often as visits produce it: nothing invented, dropped or duplicated |
| `Loader.IncludedSound` | main.go:94-111 | every included record is the record of some visit of the walk |
| `Loader.GroupedRecordSound` | main.go:104-111 | every record in a folder's group is the record of some visit of the walk |
| `Loader.DistinctNames` | main.go:89-91 | in a walk whose included files have distinct clean relative paths, two different included visits differ in folder or name |
| `Loader.IncludedOnce` | main.go:94-111 | in such a walk each included visit produces its record exactly once |
| `Loader.GroupedOnce` | main.go:94-111 | in such a walk each included file's record is in its folder's group exactly once |
| `Loader.GroupOf` | main.go:111 | a folder's group holds only that folder's records, and is non-empty exactly when the folder has an included record |
| `Loader.GroupOfCount` | main.go:111 | a folder's group holds each of its records exactly as often as the walk produced it |
| `Loader.FilterStep` | main.go:111 | appending a record to the end of its folder's group (creating it if needed) keeps every group equal to its folder's records in order |
| `Loader.GroupingIsFilter` | main.go:111 | after the walk there is a group for exactly the folders with an included file, holding that folder's records in visit order |
| `Loader.LoadSnippets` | main.go:75-117 | the callback run over the visits gives a group for exactly the folders with an included file, each holding that folder's records in visit order |
| `Loader.GroupingShape` | main.go:94-111 | groups exist exactly for folders with an included file, are non-empty, hold only their folder's records, and never a hidden file |
| `Loader.RecordPlacement` | main.go:104-111 | every included file's record is in its folder's group |
| `Loader.AddVisitTotal` | main.go:80-111 | one callback adds one record to the groups when the visit passes the filter, none otherwise |
| `Loader.GroupingTotal` | main.go:111 | the groups together hold as many records as the walk included |
| `Loader.NothingIncluded` | main.go:80-96 | a walk of only directories and hidden files includes nothing |
| `Pipeline.Convert` | main.go:40-41 | loading then bundling; `Pipeline.EndToEnd`, `Pipeline.KeysNameVisibleFiles` and `Pipeline.OneFilePerFolder` state what the files hold and how many there are |
| `Pipeline.AddVisitSetsEntry` | main.go:104-138 | an included file's visit puts its entry in its folder's bundle under its key |
| `Pipeline.AddVisitKeepsEntry` | main.go:104-138 | a visit of a file with another folder or name leaves an existing entry unchanged |
| `Pipeline.LatestVisitWins` | main.go:111-138 | a file's key holds the entry built from the last visit with the same folder and name |
| `Pipeline.EndToEnd` | main.go:89-138 | for a walk whose included files have clean, distinct relative paths (`Loader.CleanWalk`), every included file's entry is in its folder's bundle file under its own key, with its split body, its description, prefix "." and scope "" |
| `Pipeline.NestedKey` | main.go:126 | a nested file's key is "vs/" followed by its relative path |
| `Pipeline.TopLevelKey` | main.go:90-145 | a top-level file's key is "vs/./" followed by its name, and its bundle file is "..code-snippets", a name starting with "." |
| `Pipeline.NestedFolderFile` | main.go:145-147 | the bundle file of a nested folder "a/b" lies in the directory "a" below the destination and is named "b.code-snippets" |
| `Pipeline.KeysNameVisibleFiles` | main.go:94-126 | every key of every bundle file parses into that file's folder and a name that does not start with ".", and is the key of some included visit, in that visit's folder's file |
| `Pipeline.KeyFromVisit` | main.go:89-145 | one key of one bundle file is `"vs/" + Dir + "/" + Base` of some included visit's relative path, and the file is that folder's |
| `Pipeline.OneFilePerFolder` | main.go:120-145 | the number of bundle files the run tries to write equals the number of folders holding an included file |
| `Pipeline.FileForEveryFolder` | main.go:111-145 | every included file's folder gets a bundle file |
| `Pipeline.NoFilesWhenNothingIncluded` | main.go:78-96 | a walk in which every visit is a directory or a hidden file writes no bundle file |

## Left out

- `loadConfig` and `pathExists` (main.go:44-73, 157-165): configuration discovery, `os.Stat` and `panic`, nothing pure.
- `filepath.Walk`, `ioutil.ReadFile`, `ioutil.WriteFile` and `fmt.Println`: file-system and output effects. The walk is an input sequence of visits; read and marshal errors are discarded by the source. `Writer.WriteSnippets` and `Pipeline.Convert` are the files the run tries to write, and whose paths it prints; a write that fails (for instance into a directory that does not exist) leaves that file missing, and the model does not say which writes succeed.
- The walk's error cases: if the root or a directory entry cannot be `lstat`ed, the callback receives a nil `os.FileInfo` and `f.IsDir()` panics, ending the run; that is not modelled, and visits here always carry their directory flag. If a directory cannot be read, the callback receives that directory's own info, skips it as a directory, and its files are missing from the visits; the model covers that case as a directory visit with no visits below it.
- `frontMatter.Parse` and its YAML handler: an external library; its (metadata, body) result is a field of each visit, and a parse error is treated like any other result.
- `json.MarshalIndent`: key order, escaping and indentation are library behaviour; a bundle is a Dafny map, not bytes.
- The order in which `writeSnippets` visits folders: Go map iteration is unordered, so the files are a map by name and no order between folders is claimed.
- `filepath.Rel`: the relative path is an input of each visit.
- Paths.Dir: equals Go's `filepath.Dir` only on clean relative paths (`Paths.ValidRelPath`); `filepath.Clean`'s normalisation of other paths is not modelled, and `filepath.Rel` only returns clean paths for files below the root.
- Paths.Base: equals Go's `filepath.Base` only on clean relative paths without a trailing "/", for the same reason.
- Strings.Split: works on characters, Go on bytes; for content that is valid UTF-8 and the separator "\n" the pieces are the same, since that byte never occurs inside a multi-byte UTF-8 character. Other byte strings, which `string(contentBytes)` at main.go:100 can hold, have no `string` counterpart in the model.
- `Pipeline.EndToEnd`, `Loader.IncludedOnce` and `Loader.GroupedOnce` assume `Loader.CleanWalk`: the included files have clean relative paths and no two share one, as `filepath.Walk` and `filepath.Rel` give them below a root.

Two consequences of the code as written, stated by `Pipeline.TopLevelKey`
and `Pipeline.NestedFolderFile`: top-level files share the bundle file
"..code-snippets" (a dot-file) under keys "vs/./name", and a nested folder
"a/b" is written to "a/b.code-snippets", a sub-directory of the destination
that the tool never creates.
