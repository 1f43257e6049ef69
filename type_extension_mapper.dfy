/** `TypeExtensionMapper`: the static map from a file-type category to file extensions, and
    `getExtensionsForTypes`, which merges the extensions of a list of categories. */
module TypeExtensionMapper {
  import opened Php
  import Registry

  const Images := ["jpg", "jpeg", "png", "gif", "webp", "bmp", "svg", "ico", "heic"]
  const Music := ["mp3", "ogg", "flac", "wav", "m4a", "aac", "wma"]
  const Pdfs := ["pdf"]
  const Spreadsheets := ["xls", "xlsx", "ods", "csv", "numbers"]
  const Documents := ["doc", "docx", "odt", "txt", "rtf", "md", "pages"]
  const Presentations := ["ppt", "pptx", "odp", "keynote"]
  const Videos := ["mp4", "webm", "mkv", "avi", "mov", "wmv"]

  /** `FILE_TYPE_EXTENSIONS`: the only copy of the table with `presentations`, and whose
      `documents` include `pages`. */
  const FileTypeExtensions: Registry.Table := map[
    "images" := Images,
    "music" := Music,
    "pdfs" := Pdfs,
    "spreadsheets" := Spreadsheets,
    "documents" := Documents,
    "presentations" := Presentations,
    "videos" := Videos
  ]

  /** Every listed extension is non-empty and lower-case, and no category is empty. */
  lemma TableWellFormed()
    ensures Registry.WellFormed(FileTypeExtensions)
  {
    ImagesWellFormed();
    MusicWellFormed();
    PdfsWellFormed();
    SpreadsheetsWellFormed();
    DocumentsWellFormed();
    PresentationsWellFormed();
    VideosWellFormed();
  }

  lemma ImagesWellFormed()
    ensures Registry.AllExtensions(Images)
  {
    assert Registry.IsExtension("jpg") && Registry.IsExtension("jpeg") && Registry.IsExtension("png");
    assert Registry.IsExtension("gif") && Registry.IsExtension("webp") && Registry.IsExtension("bmp");
    assert Registry.IsExtension("svg") && Registry.IsExtension("ico") && Registry.IsExtension("heic");
  }

  lemma MusicWellFormed()
    ensures Registry.AllExtensions(Music)
  {
    assert Registry.IsExtension("mp3") && Registry.IsExtension("ogg") && Registry.IsExtension("flac");
    assert Registry.IsExtension("wav") && Registry.IsExtension("m4a") && Registry.IsExtension("aac");
    assert Registry.IsExtension("wma");
  }

  lemma PdfsWellFormed()
    ensures Registry.AllExtensions(Pdfs)
  {
    assert Registry.IsExtension("pdf");
  }

  lemma SpreadsheetsWellFormed()
    ensures Registry.AllExtensions(Spreadsheets)
  {
    assert Registry.IsExtension("xls") && Registry.IsExtension("xlsx") && Registry.IsExtension("ods");
    assert Registry.IsExtension("csv") && Registry.IsExtension("numbers");
  }

  lemma DocumentsWellFormed()
    ensures Registry.AllExtensions(Documents)
  {
    assert Registry.IsExtension("doc") && Registry.IsExtension("docx") && Registry.IsExtension("odt");
    assert Registry.IsExtension("txt") && Registry.IsExtension("rtf") && Registry.IsExtension("md");
    assert Registry.IsExtension("pages");
  }

  lemma PresentationsWellFormed()
    ensures Registry.AllExtensions(Presentations)
  {
    assert Registry.IsExtension("ppt") && Registry.IsExtension("pptx") && Registry.IsExtension("odp");
    assert Registry.IsExtension("keynote");
  }

  lemma VideosWellFormed()
    ensures Registry.AllExtensions(Videos)
  {
    assert Registry.IsExtension("mp4") && Registry.IsExtension("webm") && Registry.IsExtension("mkv");
    assert Registry.IsExtension("avi") && Registry.IsExtension("mov") && Registry.IsExtension("wmv");
  }

  /** `getExtensionsForTypes($fileTypes)`: a non-array, `null` or empty argument gives `[]`;
      otherwise the result lists, without duplicates and in order of first appearance, the
      extensions of the known string categories given, and nothing else; every one of them is
      lower-case. */
  method GetExtensionsForTypes(fileTypes: Option<seq<Value>>) returns (exts: seq<string>)
    ensures exts == Registry.Merged(FileTypeExtensions, fileTypes)
    ensures fileTypes.None? || fileTypes == Some([]) ==> exts == []
    ensures Registry.NoDuplicates(exts)
    ensures forall e :: e in exts ==> Registry.IsExtension(e)
    ensures forall e :: e in exts <==> (fileTypes.Some? &&
      exists t :: Str(t) in fileTypes.value && t in FileTypeExtensions && e in FileTypeExtensions[t])
  {
    exts := Registry.MergeExtensions(FileTypeExtensions, fileTypes);
    TableWellFormed();
    Registry.MergedWellFormed(FileTypeExtensions, fileTypes);
    if fileTypes.Some? {
      forall e ensures e in exts <==>
        exists t :: Str(t) in fileTypes.value && t in FileTypeExtensions && e in FileTypeExtensions[t]
      {
        Registry.MergedMembers(FileTypeExtensions, fileTypes.value, e);
      }
    }
  }
}
