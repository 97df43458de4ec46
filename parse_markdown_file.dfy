/** `parseMarkdownFile` (`src/functions/parseMarkdownFile.ts`): read a
    Markdown file and hand its text to `parseMarkdownContent`. Either step can
    throw. Reading the file and turning its text into a remark syntax tree is
    the `read` parameter. */
module ParseMarkdownFile {
  import opened Wrappers
  import opened Mdast
  import opened RemarkWidget
  import opened RemarkCodeToHtml
  import opened ParseMarkdownContent

  /** Why `parseMarkdownFile` threw: the file could not be read, or
      `parseMarkdownContent` rejected what it holds. */
  datatype LoadError =
    | ReadError(path: string)
    | ContentRejected(error: ContentError)

  /** The finished tree of the file at `path`. `read(path)` is the syntax tree
      of the file's text, or `None` when `fs.promises.readFile` rejects. */
  function ParseMarkdownFile(read: string -> Option<Root>, gen: nat -> string, decode: YamlDecoder, hl: Highlighter,
                             path: string): (r: Result<Root, LoadError>)
    ensures read(path).None? ==> r == Failure(ReadError(path))
  {
    match read(path)
    case None => Failure(ReadError(path))
    case Some(tree) =>
      match Transform(tree, gen, decode, hl)
      case Failure(e) => Failure(ContentRejected(e))
      case Success(content) => Success(content.tree)
  }

  /** Loading succeeds exactly when the file can be read, every `meta` in it
      parses and every widget block decodes. A read error is reported as such,
      and a rejected file reports the pipeline's own error, a metadata error
      ahead of a YAML error. */
  lemma ParseMarkdownFileSucceeds(read: string -> Option<Root>, gen: nat -> string, decode: YamlDecoder,
                                  hl: Highlighter, path: string)
    ensures var r := ParseMarkdownFile(read, gen, decode, hl, path);
      r.Success? <==>
        read(path).Some? && MetaDataParses(gen, Leaves(read(path).value.children)) &&
        WidgetsDecode(gen, decode, Leaves(read(path).value.children))
    ensures var r := ParseMarkdownFile(read, gen, decode, hl, path);
      read(path).Some? && r.Failure? ==>
        r.error.ContentRejected? && r.error.error == Transform(read(path).value, gen, decode, hl).error &&
        (r.error.error.MetaDataError? <==> !MetaDataParses(gen, Leaves(read(path).value.children)))
    ensures var r := ParseMarkdownFile(read, gen, decode, hl, path);
      r.Success? ==> r.value == Transform(read(path).value, gen, decode, hl).value.tree && PositionFree(r.value.children)
  {
    if read(path).Some? {
      var tree := read(path).value;
      TransformSucceeds(tree, gen, decode, hl);
      if Transform(tree, gen, decode, hl).Success? {
        TransformEffect(tree, gen, decode, hl);
      }
    }
  }
}
