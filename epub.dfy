/** The exported reader (index.js:239-258) and `findMetadataFilename`
    (index.js:127-130): check the mimetype, follow META-INF/container.xml to
    the package document, read its metadata, and replace the table-of-contents
    pointer by the chapters it points at. */
module Epub {
  import opened Base
  import opened Host
  import opened Query
  import opened Toc
  import opened Metadata

  const MimetypeFile := "mimetype"
  const EpubMimetype := "application/epub+zip"
  const ContainerFile := "META-INF/container.xml"
  const PackageMediaType := "application/oebps-package+xml"
  const RootfileSelector := "rootfile[media-type=\"" + PackageMediaType + "\"]"

  /** The `full-path` of the first package rootfile; a missing or empty one
      is not a pointer. */
  function PointerOf(dom: Dom): (r: Result<string>)
    ensures r.Ok? ==> r.value != ""
  {
    var path := FirstAttr(dom.select(RootfileSelector), "full-path");
    if path.Some? && path.value != "" then Ok(path.value) else Err(NoContentPointer)
  }

  /** `findMetadataFilename(zip)` with the falsy check of its caller. */
  function ContentPointer(zip: Archive, host: Host): Result<string> {
    var text :- ReadText(zip, ContainerFile);
    PointerOf(host.parse(text))
  }

  /** The `meta.toc.type` dispatch: the pointer is replaced by its chapters;
      with no pointer, reading `.type` of undefined throws. */
  function WithChapters(zip: Archive, host: Host, meta: Metadata): Result<Metadata> {
    match meta.toc
    case Pointer(Xhtml, file) =>
      var chapters :- XhtmlToc(zip, host, file);
      Ok(meta.(toc := Chapters(chapters)))
    case Pointer(Ncx, file) =>
      var chapters :- NcxToc(zip, host, file);
      Ok(meta.(toc := Chapters(chapters)))
    case Unset => Err(TypeError("reading 'type' of undefined"))
    case Chapters(_) => Ok(meta)
  }

  /** What the exported function resolves to, or the error it rejects with. */
  function EpubOf(zip: Archive, host: Host): Result<Metadata> {
    var filename :- ContentPointer(zip, host);
    var meta :- MetadataOf(zip, host, filename);
    WithChapters(zip, host, meta)
  }

  /** The mimetype check: a missing entry or any other content is reported. */
  function MimetypeWarning(zip: Archive): (warn: bool)
    ensures !warn <==> MimetypeFile in zip && zip[MimetypeFile] == EpubMimetype
  {
    ReadText(zip, MimetypeFile) != Ok(EpubMimetype)
  }

  lemma FreeConcat(a: string, b: string, c: char)
    requires Free(a, c) && Free(b, c)
    ensures Free(a + b, c)
  {
  }

  lemma RootfileSelectorPlain()
    ensures Free(RootfileSelector, '$')
  {
    var head := "rootfile[media-type=\"";
    assert Free(head, '$');
    assert Free(PackageMediaType, '$');
    FreeConcat(head, PackageMediaType, '$');
    FreeConcat(head + PackageMediaType, "\"]", '$');
  }

  /** `findMetadataFilename(zip)` */
  method FindMetadataFilename(zip: Archive, host: Host) returns (r: Result<string>)
    ensures r == ContentPointer(zip, host)
  {
    var ctx :- ReadXml(zip, host, ContainerFile);
    RootfileSelectorPlain();
    SelectorPassThrough(ctx.rprefix, RootfileSelector);
    var path := FirstAttr(ctx.Select(Template(RootfileSelector)).value, "full-path");
    if path.None? || path.value == "" {
      return Err(NoContentPointer);
    }
    r := Ok(path.value);
  }

  /** `module.exports(file)`. The mimetype check only writes to the console:
      `warn` says whether it would, and the result never depends on it. */
  method ReadEpub(zip: Archive, host: Host) returns (r: Result<Metadata>, warn: bool)
    ensures warn == MimetypeWarning(zip)
    ensures r == EpubOf(zip, host)
  {
    var mime := ReadText(zip, MimetypeFile);
    warn := mime.Err? || mime.value != EpubMimetype;
    var filename := FindMetadataFilename(zip, host);
    if filename.Err? {
      return Err(filename.error), warn;
    }
    var meta := ReadMetadata(zip, host, filename.value);
    if meta.Err? {
      return Err(meta.error), warn;
    }
    var m := meta.value;
    match m.toc {
      case Pointer(kind, file) =>
        var chapters;
        if kind == Xhtml {
          chapters := ReadXhtmlToc(zip, host, file);
        } else {
          chapters := ReadNcxToc(zip, host, file);
        }
        if chapters.Err? {
          return Err(chapters.error), warn;
        }
        r := Ok(m.(toc := Chapters(chapters.value)));
      case Unset =>
        r := Err(TypeError("reading 'type' of undefined"));
      case Chapters(_) =>
        r := Ok(m);
    }
  }

  /** Without META-INF/container.xml the reader rejects with the missing
      file. */
  lemma MissingContainerThrows(zip: Archive, host: Host)
    requires ContainerFile !in zip
    ensures EpubOf(zip, host) == Err(FileNotFound(ContainerFile))
  {
  }

  /** A container without a package rootfile, or with an empty `full-path`,
      rejects with the content-pointer error. */
  lemma NoRootfileThrows(zip: Archive, host: Host)
    requires ContainerFile in zip
    requires var path := FirstAttr(host.parse(zip[ContainerFile]).select(RootfileSelector), "full-path");
             path.None? || path.value == ""
    ensures EpubOf(zip, host) == Err(NoContentPointer)
  {
  }

  /** A package document with neither a navigation document nor an NCX file
      makes the reader reject. */
  lemma NoTocThrows(zip: Archive, host: Host)
    requires ContentPointer(zip, host).Ok?
    requires MetadataOf(zip, host, ContentPointer(zip, host).value).Ok?
    requires MetadataOf(zip, host, ContentPointer(zip, host).value).value.toc.Unset?
    ensures EpubOf(zip, host) == Err(TypeError("reading 'type' of undefined"))
  {
  }

  /** readMetadata only ever leaves a pointer or nothing. */
  lemma MetadataLeavesPointer(zip: Archive, host: Host, filename: string)
    requires MetadataOf(zip, host, filename).Ok?
    ensures MetadataOf(zip, host, filename).value.toc.Unset? || MetadataOf(zip, host, filename).value.toc.Pointer?
  {
    var dom := host.parse(zip[filename]);
    assert MetadataOf(zip, host, filename) == DocumentMetadata(dom, filename, host);
    DocumentMetadataShape(dom, filename, host);
  }

  /** A successful read holds the chapters of the file the pointer named,
      read as the kind of table of contents it named, and every other field
      as readMetadata left it. */
  lemma EpubChapters(zip: Archive, host: Host)
    requires EpubOf(zip, host).Ok?
    ensures var meta := MetadataOf(zip, host, ContentPointer(zip, host).value).value;
            var book := EpubOf(zip, host).value;
            meta.toc.Pointer? && book.toc.Chapters?
            && book == meta.(toc := book.toc)
            && (meta.toc.kind == Xhtml ==> XhtmlToc(zip, host, meta.toc.filename) == Ok(book.toc.chapters))
            && (meta.toc.kind == Ncx ==> NcxToc(zip, host, meta.toc.filename) == Ok(book.toc.chapters))
  {
    var filename := ContentPointer(zip, host).value;
    var meta := MetadataOf(zip, host, filename).value;
    assert EpubOf(zip, host) == WithChapters(zip, host, meta);
    MetadataLeavesPointer(zip, host, filename);
    WithChaptersOk(zip, host, meta);
  }

  lemma WithChaptersOk(zip: Archive, host: Host, meta: Metadata)
    requires meta.toc.Unset? || meta.toc.Pointer?
    requires WithChapters(zip, host, meta).Ok?
    ensures var book := WithChapters(zip, host, meta).value;
            meta.toc.Pointer? && book.toc.Chapters?
            && book == meta.(toc := book.toc)
            && (meta.toc.kind == Xhtml ==> XhtmlToc(zip, host, meta.toc.filename) == Ok(book.toc.chapters))
            && (meta.toc.kind == Ncx ==> NcxToc(zip, host, meta.toc.filename) == Ok(book.toc.chapters))
  {
  }

  /** The mimetype is only reported: replacing its entry changes nothing,
      rejections included, when no file the reader follows is named
      `mimetype`. */
  lemma MimetypeIgnored(zip: Archive, host: Host, other: string)
    requires ContentPointer(zip, host).Ok? ==> ContentPointer(zip, host).value != MimetypeFile
    requires ContentPointer(zip, host).Ok? && MetadataOf(zip, host, ContentPointer(zip, host).value).Ok?
             ==> var toc := MetadataOf(zip, host, ContentPointer(zip, host).value).value.toc;
                 toc.Pointer? ==> toc.filename != MimetypeFile
    ensures EpubOf(zip[MimetypeFile := other], host) == EpubOf(zip, host)
  {
    var zip' := zip[MimetypeFile := other];
    assert ReadText(zip', ContainerFile) == ReadText(zip, ContainerFile);
    assert ContentPointer(zip', host) == ContentPointer(zip, host);
    var pointer := ContentPointer(zip, host);
    if pointer.Ok? {
      var filename := pointer.value;
      assert ReadText(zip', filename) == ReadText(zip, filename);
      assert MetadataOf(zip', host, filename) == MetadataOf(zip, host, filename);
      var meta := MetadataOf(zip, host, filename);
      if meta.Ok? {
        ChaptersIgnoreMimetype(zip, host, meta.value, other);
      }
    }
  }

  lemma ChaptersIgnoreMimetype(zip: Archive, host: Host, meta: Metadata, other: string)
    requires meta.toc.Pointer? ==> meta.toc.filename != MimetypeFile
    ensures WithChapters(zip[MimetypeFile := other], host, meta) == WithChapters(zip, host, meta)
  {
    if meta.toc.Pointer? {
      var zip' := zip[MimetypeFile := other];
      assert ReadText(zip', meta.toc.filename) == ReadText(zip, meta.toc.filename);
    }
  }
}
