/** `FileCard`'s `getFileIcon`: the icon shown for a non-image file, chosen
    by its lower-case extension. */
module FileCard {
  import opened Base
  import opened Text
  import opened ContentTypes

  const PageIcon := "\U{1F4C4}"
  const MemoIcon := "\U{1F4DD}"
  const ChartIcon := "\U{1F4CA}"
  const ProjectorIcon := "\U{1F4FD}\U{FE0F}"
  const ClampIcon := "\U{1F5DC}\U{FE0F}"
  const CameraIcon := "\U{1F3A5}"
  const MusicIcon := "\U{1F3B5}"
  const CurlPageIcon := "\U{1F4C3}"
  const ClipboardIcon := "\U{1F4CB}"
  const LaptopIcon := "\U{1F4BB}"
  const PaperclipIcon := "\U{1F4CE}"

  /** The `switch` on the extension: each icon goes with its group of
      extensions, and every other extension, the empty one included, gets
      the paperclip. */
  function IconForExtension(ext: string): (icon: string)
    ensures icon == PageIcon <==> ext == "pdf"
    ensures icon == MemoIcon <==> ext in {"doc", "docx"}
    ensures icon == ChartIcon <==> ext in {"xls", "xlsx"}
    ensures icon == ProjectorIcon <==> ext in {"ppt", "pptx"}
    ensures icon == ClampIcon <==> ext in {"zip", "rar", "7z"}
    ensures icon == CameraIcon <==> ext in {"mp4", "avi", "mov", "mkv"}
    ensures icon == MusicIcon <==> ext in {"mp3", "wav", "flac"}
    ensures icon == CurlPageIcon <==> ext == "txt"
    ensures icon == ClipboardIcon <==> ext in {"json", "xml"}
    ensures icon == LaptopIcon <==> ext in {"html", "css", "js", "ts"}
    ensures icon == PaperclipIcon <==> ext !in IconExtensions
  {
    match ext
    case "pdf" => PageIcon
    case "doc" => MemoIcon
    case "docx" => MemoIcon
    case "xls" => ChartIcon
    case "xlsx" => ChartIcon
    case "ppt" => ProjectorIcon
    case "pptx" => ProjectorIcon
    case "zip" => ClampIcon
    case "rar" => ClampIcon
    case "7z" => ClampIcon
    case "mp4" => CameraIcon
    case "avi" => CameraIcon
    case "mov" => CameraIcon
    case "mkv" => CameraIcon
    case "mp3" => MusicIcon
    case "wav" => MusicIcon
    case "flac" => MusicIcon
    case "txt" => CurlPageIcon
    case "json" => ClipboardIcon
    case "xml" => ClipboardIcon
    case "html" => LaptopIcon
    case "css" => LaptopIcon
    case "js" => LaptopIcon
    case "ts" => LaptopIcon
    case _ => PaperclipIcon
  }

  /** The extensions with an icon of their own. */
  const IconExtensions: set<string> :=
    {"pdf", "doc", "docx", "xls", "xlsx", "ppt", "pptx", "zip", "rar", "7z", "mp4", "avi",
     "mov", "mkv", "mp3", "wav", "flac", "txt", "json", "xml", "html", "css", "js", "ts"}

  /** `getFileIcon`: the icon of the name's lower-cased last segment. A
      dotless name is its own extension, and a name `a.b` gets the icon of
      `b`, whatever comes before its last dot. */
  function GetFileIcon(fileName: string): (icon: string)
    ensures icon != PaperclipIcon <==> Extension(fileName) in IconExtensions
    ensures '.' !in fileName ==> icon == IconForExtension(Lower(fileName))
  {
    if '.' !in fileName then
      DotlessExtension(fileName);
      IconForExtension(Extension(fileName))
    else
      IconForExtension(Extension(fileName))
  }

  /** The icon of `a.b`, for a dot-free `b`, is the icon of `b` lower-cased. */
  lemma {:induction false} IconOfDottedName(a: string, b: string)
    requires '.' !in b
    ensures GetFileIcon(a + ['.'] + b) == IconForExtension(Lower(b))
  {
    ExtensionAfterDot(a, b);
  }

  /** The icon ignores the case of the name. */
  lemma {:induction false} IconIgnoresCase(fileName: string)
    ensures GetFileIcon(Lower(fileName)) == GetFileIcon(fileName)
  {
    ExtensionIgnoresCase(fileName);
  }

  /** Every extension with an icon of its own except `flac` and `ts` has an
      entry in the content-type table; those two resolve to the generic
      binary type there but still get the music and code icons. */
  lemma IconExtensionsInTable(ext: string)
    requires ext in IconExtensions
    ensures ext != "flac" && ext != "ts" <==> MimeTypeFor(ext).Some?
  {
  }

  lemma {:induction false} FlacHasIconButNoType()
    ensures GetFileIcon("song.flac") == MusicIcon
    ensures ContentTypeFromFileName("song.flac") == OctetStream
  {
    FlacExtension();
  }

  lemma FlacExtension()
    ensures Extension("song.flac") == "flac"
  {
    ExtensionOfDottedName("song", "flac");
  }

  lemma {:induction false} TsHasIconButNoType()
    ensures GetFileIcon("app.ts") == LaptopIcon
    ensures ContentTypeFromFileName("app.ts") == OctetStream
  {
    TsExtension();
  }

  lemma TsExtension()
    ensures Extension("app.ts") == "ts"
  {
    ExtensionOfDottedName("app", "ts");
  }

  /** The extension of `a.b` for a lower-case, dot-free `b`. */
  lemma {:induction false} ExtensionOfDottedName(a: string, b: string)
    requires forall i :: 0 <= i < |b| ==> 'a' <= b[i] <= 'z'
    ensures Extension(a + "." + b) == b
  {
    assert '.' !in b;
    assert a + "." + b == a + ['.'] + b;
    ExtensionAfterDot(a, b);
    assert Lower(b) == b;
  }

  /** A dotless name is its own extension: `README` gets the paperclip, a
      file named `pdf` the page icon. */
  lemma {:induction false} DotlessNameGetsDefaultIcon()
    ensures GetFileIcon("README") == PaperclipIcon
  {
    ReadmeLowerCase();
    assert IconForExtension("readme") == PaperclipIcon;
  }

  lemma ReadmeLowerCase()
    ensures Lower("README") == "readme"
  {
  }

  lemma {:induction false} DotlessPdfGetsPageIcon()
    ensures GetFileIcon("pdf") == PageIcon
  {
    assert Lower("pdf") == "pdf";
  }

  /** Without a dot the extension is the whole name, lower-cased. */
  lemma DotlessExtension(name: string)
    requires '.' !in name
    ensures Extension(name) == Lower(name)
  {
    LastSegmentUnique(name, name);
  }
}
