/**
 The records of the snippet converter: a snippet file as loaded from the
 source tree (`SnippetInfo`) and one entry of an editor snippet bundle
 (`SnippetJSON`), with the per-snippet conversion between them.
 */
module Snippets {
  import opened Wrappers
  import Strings
  import Paths

  /** A metadata value produced by the frontmatter parser. Only strings matter
      to the converter; every other YAML value (number, list, map, ...) is `Other`. */
  datatype Value = Str(s: string) | Other

  /** The parsed frontmatter header of a snippet file. */
  type Metadata = map<string, Value>

  /** A snippet file: its folder relative to the snippet root, its file name,
      its full path, its body after the frontmatter, and its frontmatter. */
  datatype SnippetInfo = SnippetInfo(
    dirName: string,
    snippetName: string,
    fullPath: string,
    content: string,
    data: Metadata)

  /** One entry of a bundle, serialised under the keys
      "prefix", "scope", "body" and "description". */
  datatype SnippetJSON = SnippetJSON(
    prefix: string,
    scope: string,
    body: seq<string>,
    description: string)

  const Newline: char := '\n'
  const DescriptionKey: string := "desc"
  const SnippetPrefix: string := "."
  const SnippetScope: string := ""

  /** The result of the type assertion `data["desc"].(string)`: the value under
      "desc" when it is a string, and "" when the key is missing or holds
      anything else. */
  function Description(data: Metadata): (desc: string)
    ensures DescriptionKey in data && data[DescriptionKey].Str? ==> desc == data[DescriptionKey].s
    ensures desc != "" ==> DescriptionKey in data && data[DescriptionKey] == Str(desc)
  {
    if DescriptionKey in data then
      match data[DescriptionKey]
      case Str(s) => s
      case Other => ""
    else ""
  }

  /** The bundle entry built for one snippet. */
  function ToJSON(snippet: SnippetInfo): (entry: SnippetJSON)
    ensures entry.prefix == "." && entry.scope == ""
    ensures entry.description == Description(snippet.data)
    ensures Strings.Join(entry.body, Newline) == snippet.content
    ensures |entry.body| == Strings.Count(snippet.content, Newline) + 1
    ensures forall i :: 0 <= i < |entry.body| ==> Newline !in entry.body[i]
  {
    Strings.JoinSplit(snippet.content, Newline);
    SnippetJSON(SnippetPrefix, SnippetScope, Strings.Split(snippet.content, Newline), Description(snippet.data))
  }

  /** The key of a snippet in its folder's bundle. */
  function Identifier(folder: string, name: string): string
  {
    "vs/" + folder + "/" + name
  }

  /** Reads a bundle key back into its folder and snippet name, splitting at the
      last separator; `None` for a string that is not a key. */
  function ParseIdentifier(id: string): (r: Option<(string, string)>)
    ensures r.Some? ==> Identifier(r.value.0, r.value.1) == id && Paths.Separator !in r.value.1
  {
    if |id| >= 3 && id[..3] == "vs/" then
      var rest := id[3..];
      var k := Paths.LastIndex(rest, Paths.Separator);
      if k < 0 then None
      else
        assert id == "vs/" + rest[..k] + "/" + rest[k + 1..];
        Some((rest[..k], rest[k + 1..]))
    else None
  }

  /** A key names its folder and snippet: parsing it gives back both, provided
      the name has no separator (as every `filepath.Base` result). */
  lemma IdentifierRoundTrip(folder: string, name: string)
    requires Paths.Separator !in name
    ensures ParseIdentifier(Identifier(folder, name)) == Some((folder, name))
  {
    var id := Identifier(folder, name);
    var rest := id[3..];
    assert rest == folder + "/" + name;
    var k := Paths.LastIndex(rest, Paths.Separator);
    assert rest[|folder|] == Paths.Separator;
    assert k == |folder|;
    assert rest[..k] == folder;
    assert rest[k + 1..] == name;
  }

  /** Within one folder, distinct names give distinct keys. */
  lemma IdentifierInjective(folder: string, name1: string, name2: string)
    requires Identifier(folder, name1) == Identifier(folder, name2)
    ensures name1 == name2
  {
    var n := |"vs/" + folder + "/"|;
    assert name1 == Identifier(folder, name1)[n..];
    assert name2 == Identifier(folder, name2)[n..];
  }
}
