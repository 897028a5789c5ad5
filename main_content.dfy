/** The editor pane: which text it shows for the selected file and which
    highlighting class it gives that text. */
module MainContent {
  import opened Wrappers
  import opened Strings
  import opened FileTree

  /** What is shown for a file the table has no text for. */
  function Placeholder(name: string): string {
    "// Content for " + name + " would be displayed here"
  }

  /** `getFileContent()`, with `mockFileContents` given as `contents`:
      nothing without a selection; otherwise the table's text for the
      file's name or, failing a non-empty one, the placeholder naming the
      file. */
  function GetFileContent(contents: map<string, string>, selectedFile: Option<Node>): (r: string)
    ensures r == "" <==> selectedFile.None?
    ensures selectedFile.Some? ==>
      var name := selectedFile.value.name;
      && (name in contents && contents[name] != "" ==> r == contents[name])
      && (name !in contents || contents[name] == "" ==> r == Placeholder(name))
  {
    if selectedFile.None? then ""
    else
      var name := selectedFile.value.name;
      if name in contents && contents[name] != "" then contents[name]
      else Placeholder(name)
  }

  /** The placeholder carries the file's name after a fixed prefix, so two
      files without a text never show the same placeholder. */
  lemma PlaceholderNamesFile(a: string, b: string)
    ensures Placeholder(a)[15..15 + |a|] == a
    ensures Placeholder(a) == Placeholder(b) ==> a == b
  {
    var prefix, suffix := "// Content for ", " would be displayed here";
    assert |prefix| == 15;
    assert Placeholder(a) == prefix + a + suffix;
    assert (prefix + a + suffix)[15..15 + |a|] == a;
    if Placeholder(a) == Placeholder(b) {
      assert |a| == |b|;
      assert Placeholder(b)[15..15 + |b|] == b by {
        assert (prefix + b + suffix)[15..15 + |b|] == b;
      }
    }
  }

  /** The highlighting classes, by extension. */
  function Highlighting(): map<string, string> {
    map["js" := "language-javascript", "css" := "language-css", "html" := "language-html",
        "json" := "language-json", "md" := "language-markdown"]
  }

  /** The `switch` of `getLanguageClass()`: the class listed for the
      extension in `Highlighting()`, or none. */
  function ClassFor(extension: string): (r: string)
    ensures extension in Highlighting() ==> r == Highlighting()[extension]
    ensures extension !in Highlighting() ==> r == ""
  {
    match extension
    case "js" => "language-javascript"
    case "css" => "language-css"
    case "html" => "language-html"
    case "json" => "language-json"
    case "md" => "language-markdown"
    case _ => ""
  }

  /** `getLanguageClass()`: nothing without a selection; otherwise the
      extension is the text after the last `.` of the name (the whole name
      when it has no `.`) and picks the class. */
  function GetLanguageClass(selectedFile: Option<Node>): (r: string)
    ensures selectedFile.None? ==> r == ""
    ensures selectedFile.Some? ==>
      var extension := LastSegment(selectedFile.value.name);
      && (extension in Highlighting() ==> r == Highlighting()[extension])
      && (extension !in Highlighting() ==> r == "")
  {
    if selectedFile.None? then "" else ClassFor(LastSegment(selectedFile.value.name))
  }

  /** A name `stem.extension`, where the extension has no `.`, is
      highlighted by its extension, whatever dots the stem holds. */
  lemma LanguageClassOfExtension(file: Node, stem: string, extension: string)
    requires '.' !in extension && file.name == stem + "." + extension
    ensures GetLanguageClass(Some(file)) == if extension in Highlighting() then Highlighting()[extension] else ""
  {
    LastSegmentAfterDot(stem, extension);
  }

  /** A name without a `.` is its own extension: a file named `md` is
      highlighted as markdown. */
  lemma LanguageClassWithoutDot(file: Node)
    requires '.' !in file.name
    ensures GetLanguageClass(Some(file)) == if file.name in Highlighting() then Highlighting()[file.name] else ""
  {
  }

  /** A name ending in `.` has the empty extension and no class. */
  lemma LanguageClassTrailingDot(file: Node)
    requires file.name != [] && file.name[|file.name| - 1] == '.'
    ensures GetLanguageClass(Some(file)) == ""
  {
  }
}
