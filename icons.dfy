/** The icon classifier of the ls tool: the glyph prefixed to an entry's
    name. The package declares getFileNameWithIcon twice, so both versions
    are modelled: the long switch of internal/ls/ls.go (SwitchGlyph,
    IconSwitch) and the exact-name switch over the extension table of
    internal/ls/common.go (TableGlyph, IconTable). */
module Icons {

  import opened Text

  // ---------------------------------------------------------------------
  // Glyphs. Each is a private-use code point followed by one space; the
  // column layout measures them in UTF-8 bytes, so the code points are the
  // ones the source uses.
  // ---------------------------------------------------------------------

  const FolderGlyph: string := "\U{E5FF} "
  const GoModGlyph: string := "\U{F07D3} "
  const DockerGlyph: string := "\U{F21F} "
  const RustGlyph: string := "\U{E68B} "
  const GitGlyph: string := "\U{F1D3} "
  const MakefileGlyph: string := "\U{E673} "

  // Glyphs that only the switch version (ls.go) uses.
  const MarkdownGlyph: string := "\U{F48A} "
  const JsonGlyph: string := "\U{E60B} "
  const TomlGlyph: string := "\U{E6B2} "
  const CssGlyph: string := "\U{E749} "
  const HtmlGlyph: string := "\U{E60E} "
  const JavaScriptGlyph: string := "\U{E74E} "
  const PdfGlyph: string := "\U{EAEB} "
  const TextGlyph: string := "\U{F09A8} "
  const ImageGlyph: string := "\U{F03E} "
  const VideoGlyph: string := "\U{F00FD} "
  const AudioGlyph: string := "\U{F001} "
  const ArchiveGlyph: string := "\U{F1C6} "
  const DocumentGlyph: string := "\U{F15C} "
  const SpreadsheetGlyph: string := "\U{E6A6} "
  const PresentationGlyph: string := "\U{F1390} "
  const ShellGlyph: string := "\U{E760} "
  const CSourceGlyph: string := "\U{E61E} "
  const PythonGlyph: string := "\U{E606} "
  const JavaGlyph: string := "\U{E738} "
  const SwitchDefaultGlyph: string := "\U{F15B} "

  // The fallback of getIcon in the table version (common.go).
  const TableDefaultGlyph: string := "\U{EA7B} "

  // ---------------------------------------------------------------------
  // Extension extraction and case folding.
  // ---------------------------------------------------------------------

  /** True when no '.' occurs after the last '/' of path. */
  predicate NoDotInLastElement(path: string)
  {
    forall k :: 0 <= k < |path| && path[k] == '.' ==>
      exists j :: k < j < |path| && path[j] == '/'
  }

  /** filepath.Ext: the suffix of path from the last '.' of its final
      element, or "" when that element has no '.'. */
  function Ext(path: string): string
  {
    if path == [] then ""
    else
      var last := path[|path| - 1];
      if last == '/' then ""
      else if last == '.' then "."
      else
        var e := Ext(path[..|path| - 1]);
        if e == "" then "" else e + [last]
  }

  /** The extension is a suffix of the path that starts with its '.' and
      holds no further '.' or '/'. */
  lemma {:induction false} ExtShape(path: string)
    ensures |Ext(path)| <= |path| && Ext(path) == path[|path| - |Ext(path)|..]
    ensures Ext(path) != "" ==> Ext(path)[0] == '.'
    ensures forall k :: 0 < k < |Ext(path)| ==> Ext(path)[k] != '.' && Ext(path)[k] != '/'
  {
    if path != [] {
      var last := path[|path| - 1];
      if last != '/' && last != '.' {
        ExtShape(path[..|path| - 1]);
      }
    }
  }

  /** The extension is empty exactly when the last element of the path
      has no '.'. */
  lemma {:induction false} ExtEmptyIff(path: string)
    ensures Ext(path) == "" <==> NoDotInLastElement(path)
  {
    if path != [] {
      var last := path[|path| - 1];
      var p := path[..|path| - 1];
      if last != '/' && last != '.' {
        ExtEmptyIff(p);
        assert NoDotInLastElement(p) ==> NoDotInLastElement(path) by {
          if NoDotInLastElement(p) {
            forall k | 0 <= k < |path| && path[k] == '.'
              ensures exists j :: k < j < |path| && path[j] == '/'
            {
              assert p[k] == '.';
              var j :| k < j < |p| && p[j] == '/';
              assert path[j] == '/';
            }
          }
        }
        assert NoDotInLastElement(path) ==> NoDotInLastElement(p) by {
          if NoDotInLastElement(path) {
            forall k | 0 <= k < |p| && p[k] == '.'
              ensures exists j :: k < j < |p| && p[j] == '/'
            {
              assert path[k] == '.';
              var j :| k < j < |path| && path[j] == '/';
              assert p[j] == '/';
            }
          }
        }
      } else if last == '.' {
        assert path[|path| - 1] == '.';
      } else {
        assert NoDotInLastElement(path) by {
          forall k | 0 <= k < |path| && path[k] == '.'
            ensures exists j :: k < j < |path| && path[j] == '/'
          {
            assert path[|path| - 1] == '/';
          }
        }
      }
    }
  }

  /** The extension of a name whose last '.' is at index i, with no '/'
      after it. Used to evaluate Ext on concrete names. */
  lemma {:induction false} ExtAt(name: string, i: nat)
    requires i < |name| && name[i] == '.'
    requires forall k :: i < k < |name| ==> name[k] != '.' && name[k] != '/'
    ensures Ext(name) == name[i..]
    decreases |name| - i
  {
    if i < |name| - 1 {
      var p := name[..|name| - 1];
      ExtAt(p, i);
      assert p[i..] + [name[|name| - 1]] == name[i..];
    }
  }

  /** A name without '.' has no extension. */
  lemma {:induction false} ExtOfDotless(name: string)
    requires forall k :: 0 <= k < |name| ==> name[k] != '.'
    ensures Ext(name) == ""
  {
    if name != [] {
      var p := name[..|name| - 1];
      ExtOfDotless(p);
    }
  }

  /** ASCII case folding of one character. */
  function LowerChar(c: char): char
  {
    if 'A' <= c <= 'Z' then (c as int + 32) as char else c
  }

  /** strings.ToLower, restricted to ASCII letters (every key of the
      extension table is ASCII). */
  function Lower(s: string): (r: string)
    ensures |r| == |s| && forall k :: 0 <= k < |s| ==> r[k] == LowerChar(s[k])
  {
    seq(|s|, k requires 0 <= k < |s| => LowerChar(s[k]))
  }

  /** Two characters that differ at most in ASCII case. */
  predicate CaseVariant(a: char, b: char)
  {
    a == b || ('A' <= a <= 'Z' && b as int == a as int + 32) || ('A' <= b <= 'Z' && a as int == b as int + 32)
  }

  /** Folding identifies two characters exactly when they differ at most
      in ASCII case. */
  lemma LowerCharEqual(a: char, b: char)
    ensures LowerChar(a) == LowerChar(b) <==> CaseVariant(a, b)
  {
  }

  /** Two strings fold to the same string exactly when they have the same
      length and differ position by position at most in ASCII case. */
  lemma LowerEqual(s: string, t: string)
    ensures Lower(s) == Lower(t) <==> |s| == |t| && forall k :: 0 <= k < |s| ==> CaseVariant(s[k], t[k])
  {
    if Lower(s) == Lower(t) {
      forall k | 0 <= k < |s|
        ensures CaseVariant(s[k], t[k])
      {
        assert Lower(s)[k] == Lower(t)[k];
        LowerCharEqual(s[k], t[k]);
      }
    }
    if |s| == |t| && forall k :: 0 <= k < |s| ==> CaseVariant(s[k], t[k]) {
      forall k | 0 <= k < |s|
        ensures Lower(s)[k] == Lower(t)[k]
      {
        LowerCharEqual(s[k], t[k]);
      }
    }
  }

  /** Folded text holds no ASCII upper-case letter, so folding again
      changes nothing. */
  lemma LowerIdempotent(s: string)
    ensures forall k :: 0 <= k < |Lower(s)| ==> !('A' <= Lower(s)[k] <= 'Z')
    ensures Lower(Lower(s)) == Lower(s)
  {
    assert forall k :: 0 <= k < |s| ==> Lower(Lower(s))[k] == Lower(s)[k];
  }

  // ---------------------------------------------------------------------
  // The switch version (internal/ls/ls.go).
  // ---------------------------------------------------------------------

  /** The case list of the switch in ls.go, given the lower-cased extension
      and the name: cases are tried in source order and mix extension tests
      with exact names. */
  function SwitchCase(ext: string, name: string): string
  {
    if ext == ".go" || name == "go.mod" || name == "go.sum" then GoModGlyph
    else if name == "Dockerfile" || name == "docker-compose.yml" || name == ".dockerignore" then DockerGlyph
    else if ext == ".rs" || name == "cargo.toml" then RustGlyph
    else if ext == ".md" then MarkdownGlyph
    else if ext == ".json" then JsonGlyph
    else if ext == ".toml" then TomlGlyph
    else if ext == ".css" then CssGlyph
    else if ext == ".html" then HtmlGlyph
    else if ext == ".js" then JavaScriptGlyph
    else if ext == ".pdf" then PdfGlyph
    else if ext == ".txt" then TextGlyph
    else if ext == ".git" || ext == ".github" || name == ".gitignore" then GitGlyph
    else if ext in {".png", ".jpg", ".jpeg", ".gif", ".bmp", ".svg"} then ImageGlyph
    else if ext in {".mp4", ".mkv", ".avi", ".mov", ".wmv"} then VideoGlyph
    else if ext in {".mp3", ".wav", ".flac", ".ogg", ".aac"} then AudioGlyph
    else if ext in {".zip", ".tar", ".gz", ".rar", ".7z"} then ArchiveGlyph
    else if ext in {".doc", ".docx"} then DocumentGlyph
    else if ext in {".xls", ".xlsx"} then SpreadsheetGlyph
    else if ext in {".ppt", ".pptx"} then PresentationGlyph
    else if ext == ".sh" then ShellGlyph
    else if ext in {".c", ".cpp", ".h", ".hpp"} then CSourceGlyph
    else if ext == ".py" then PythonGlyph
    else if ext == ".java" then JavaGlyph
    else if name == "Makefile" then MakefileGlyph
    else SwitchDefaultGlyph
  }

  /** The glyph chosen by getFileNameWithIcon of ls.go: the folder glyph for
      a directory, otherwise the case list. */
  function SwitchGlyph(name: string, isDir: bool): string
  {
    if isDir then FolderGlyph else SwitchCase(Lower(Ext(name)), name)
  }

  /** getFileNameWithIcon of ls.go. */
  function IconSwitch(name: string, isDir: bool): (r: string)
    ensures |r| >= |name| && r[|r| - |name|..] == name
    ensures r[..|r| - |name|] == SwitchGlyph(name, isDir)
  {
    SwitchGlyph(name, isDir) + name
  }

  // ---------------------------------------------------------------------
  // The table version (internal/ls/common.go).
  // ---------------------------------------------------------------------

  /** iconMap, the constant table from lower-case extension to glyph, as a
      lookup that answers like Go's two-valued map index: Some(glyph) for
      one of its 129 keys, None for every other string. */
  function IconMap(ext: string): Option<string>
  {
    match ext
    case ".md" => Some("\U{F0354} ")
    case ".txt" => Some("\U{F15C} ")
    case ".doc" => Some("\U{F022C} ")
    case ".docx" => Some("\U{F022C} ")
    case ".pdf" => Some("\U{E67D} ")
    case ".xls" => Some("\U{F021B} ")
    case ".xlsx" => Some("\U{F021B} ")
    case ".ppt" => Some("\U{F0227} ")
    case ".pptx" => Some("\U{F0227} ")
    case ".rtf" => Some("\U{F15C} ")
    case ".odt" => Some("\U{F022C} ")
    case ".ods" => Some("\U{F021B} ")
    case ".odp" => Some("\U{F0227} ")
    case ".csv" => Some("\U{E64A} ")
    case ".tsv" => Some("\U{E64A} ")
    case ".html" => Some("\U{E60E} ")
    case ".htm" => Some("\U{E60E} ")
    case ".xml" => Some("\U{F05C0} ")
    case ".xhtml" => Some("\U{F05C0} ")
    case ".css" => Some("\U{E749} ")
    case ".js" => Some("\U{F2EF} ")
    case ".json" => Some("\U{EB0F} ")
    case ".php" => Some("\U{E608} ")
    case ".jsp" => Some("\U{E66D} ")
    case ".java" => Some("\U{E738} ")
    case ".py" => Some("\U{F0320} ")
    case ".rb" => Some("\U{F0D2D} ")
    case ".cpp" => Some("\U{F0672} ")
    case ".c" => Some("\U{E61E} ")
    case ".cs" => Some("\U{E7B2} ")
    case ".go" => Some("\U{E65E} ")
    case ".swift" => Some("\U{E699} ")
    case ".kt" => Some("\U{E634} ")
    case ".sql" => Some("\U{F472} ")
    case ".db" => Some("\U{F472} ")
    case ".sqlite" => Some("\U{F472} ")
    case ".bak" => Some("\U{F006F} ")
    case ".log" => Some("\U{F1085} ")
    case ".sh" => Some("\U{E760} ")
    case ".bat" => Some("\U{EBC4} ")
    case ".ps1" => Some("\U{E86C} ")
    case ".pl" => Some("\U{E67E} ")
    case ".r" => Some("\U{E881} ")
    case ".jar" => Some("\U{E738} ")
    case ".war" => Some("\U{E738} ")
    case ".ear" => Some("\U{E738} ")
    case ".exe" => Some("\U{F0A21} ")
    case ".dll" => Some("\U{F0A21} ")
    case ".sys" => Some("\U{F0A21} ")
    case ".msi" => Some("\U{F0A21} ")
    case ".deb" => Some("\U{E77D} ")
    case ".rpm" => Some("\U{EF5D} ")
    case ".apk" => Some("\U{F0032} ")
    case ".ipa" => Some("\U{F0BE} ")
    case ".iso" => Some("\U{F0BE} ")
    case ".img" => Some("\U{F0A23} ")
    case ".bin" => Some("\U{EAE8} ")
    case ".cue" => Some("\U{F153C}")
    case ".vhd" => Some("\U{F02CA} ")
    case ".vmdk" => Some("\U{F02CA} ")
    case ".dmg" => Some("\U{F02CA} ")
    case ".zip" => Some("\U{F0FFA} ")
    case ".rar" => Some("\U{F0FFA} ")
    case ".7z" => Some("\U{F0FFA} ")
    case ".tar" => Some("\U{F0FFA} ")
    case ".gz" => Some("\U{F0FFA} ")
    case ".bz2" => Some("\U{F0FFA} ")
    case ".xz" => Some("\U{F0FFA} ")
    case ".zst" => Some("\U{F0FFA} ")
    case ".cpio" => Some("\U{F0FFA} ")
    case ".mp3" => Some("\U{F147D} ")
    case ".wav" => Some("\U{F147D} ")
    case ".flac" => Some("\U{F147D} ")
    case ".aac" => Some("\U{F147D} ")
    case ".ogg" => Some("\U{F147D} ")
    case ".wma" => Some("\U{F147D} ")
    case ".m4a" => Some("\U{F147D} ")
    case ".aiff" => Some("\U{F147D} ")
    case ".avi" => Some("\U{F022B} ")
    case ".mp4" => Some("\U{F022B} ")
    case ".mkv" => Some("\U{F022B} ")
    case ".mov" => Some("\U{F022B} ")
    case ".wmv" => Some("\U{F022B} ")
    case ".flv" => Some("\U{F022B} ")
    case ".mpeg" => Some("\U{F022B} ")
    case ".mpg" => Some("\U{F022B} ")
    case ".m4v" => Some("\U{F022B} ")
    case ".3gp" => Some("\U{F022B} ")
    case ".3g2" => Some("\U{F022B} ")
    case ".swf" => Some("\U{F1C8} ")
    case ".vob" => Some("\U{F022B} ")
    case ".svg" => Some("\U{F0560} ")
    case ".png" => Some("\U{F1C5} ")
    case ".jpg" => Some("\U{F1C5} ")
    case ".jpeg" => Some("\U{F1C5} ")
    case ".gif" => Some("\U{F1C5} ")
    case ".bmp" => Some("\U{F1C5} ")
    case ".tiff" => Some("\U{F1C5} ")
    case ".ico" => Some("\U{F1C5} ")
    case ".heic" => Some("\U{F1C5} ")
    case ".psd" => Some("\U{E67F} ")
    case ".ai" => Some("\U{E669} ")
    case ".sketch" => Some("\U{F027C} ")
    case ".xcf" => Some("\U{F338} ")
    case ".raw" => Some("\U{F1A0F} ")
    case ".cdr" => Some("\U{F01DE} ")
    case ".tex" => Some("\U{E81F} ")
    case ".cfg" => Some("\U{EB51} ")
    case ".ini" => Some("\U{EB51} ")
    case ".conf" => Some("\U{EB51} ")
    case ".env" => Some("\U{EB51} ")
    case ".cmd" => Some("")
    case ".reg" => Some("\U{EB51} ")
    case ".vcf" => Some("\U{F2B9} ")
    case ".ics" => Some("\U{F073} ")
    case ".mobi" => Some("\U{EDE2} ")
    case ".epub" => Some("\U{EDE2} ")
    case ".azw" => Some("\U{EDE2} ")
    case ".ttf" => Some("\U{E659} ")
    case ".otf" => Some("\U{E659} ")
    case ".fon" => Some("\U{E659} ")
    case ".mht" => Some("\U{F059F} ")
    case ".mhtml" => Some("\U{F059F} ")
    case ".part" => Some("\U{F1462} ")
    case ".tmp" => Some("\U{F509} ")
    case ".desktop" => Some("\U{E615} ")
    case ".service" => Some("\U{E615} ")
    case ".ko" => Some("\U{E712} ")
    case ".run" => Some("\U{EB7B} ")
    case _ => None
  }

  /** getIcon: the table entry for ext, or the default glyph when ext is not
      a key. It is total: every string, "" included, gets a glyph. */
  function GetIcon(ext: string): (g: string)
    ensures IconMap(ext).Some? ==> g == IconMap(ext).value
    ensures IconMap(ext).None? ==> g == TableDefaultGlyph
  {
    match IconMap(ext)
    case Some(icon) => icon
    case None => TableDefaultGlyph
  }

  /** The names the table version matches exactly (case-sensitively). */
  predicate IsExactName(name: string)
  {
    name in {"go.mod", "go.sum", "Dockerfile", "docker-compose.yml", ".dockerignore",
             "cargo.toml", ".github", ".gitignore", "Makefile"}
  }

  /** The glyph chosen by common.go: the directory check, then the exact
      names, then the table lookup of the lower-cased extension. */
  function TableGlyph(name: string, isDir: bool): string
  {
    if isDir then FolderGlyph
    else if name == "go.mod" || name == "go.sum" then GoModGlyph
    else if name == "Dockerfile" || name == "docker-compose.yml" || name == ".dockerignore" then DockerGlyph
    else if name == "cargo.toml" then RustGlyph
    else if name == ".github" || name == ".gitignore" then GitGlyph
    else if name == "Makefile" then MakefileGlyph
    else GetIcon(Lower(Ext(name)))
  }

  /** getFileNameWithIcon of common.go. */
  function IconTable(name: string, isDir: bool): (r: string)
    ensures |r| >= |name| && r[|r| - |name|..] == name
    ensures r[..|r| - |name|] == TableGlyph(name, isDir)
  {
    TableGlyph(name, isDir) + name
  }

  // ---------------------------------------------------------------------
  // Properties of the classifiers.
  // ---------------------------------------------------------------------

  /** Directories get the folder glyph in both versions, whatever their
      name, even one with an extension. */
  lemma DirectoryAlwaysFolder(name: string)
    ensures IconTable(name, true) == FolderGlyph + name
    ensures IconSwitch(name, true) == FolderGlyph + name
  {
  }

  /** Outside the exact names, the table version depends only on the
      lower-cased extension: "A.MD" and "a.md" get the same glyph. */
  lemma TableExtensionCaseInsensitive(n1: string, n2: string)
    requires !IsExactName(n1) && !IsExactName(n2)
    requires Lower(Ext(n1)) == Lower(Ext(n2))
    ensures TableGlyph(n1, false) == TableGlyph(n2, false) == GetIcon(Lower(Ext(n1)))
  {
  }

  /** The table version tries the exact names first: for each of them the
      glyph is a dedicated one, whatever the table holds for its extension. */
  lemma TableRuleOrder(name: string)
    ensures IsExactName(name) ==>
              TableGlyph(name, false) in {GoModGlyph, DockerGlyph, RustGlyph, GitGlyph, MakefileGlyph}
    ensures !IsExactName(name) ==> TableGlyph(name, false) == GetIcon(Lower(Ext(name)))
  {
  }

  /** Exact names are case-sensitive: "cargo.toml" gets the Rust glyph, but
      any other spelling of it ("Cargo.toml", "CARGO.TOML") falls through to
      the table, which has no ".toml" key, and gets the default glyph. */
  lemma ExactNamesCaseSensitive(name: string)
    requires !IsExactName(name) && Lower(Ext(name)) == ".toml"
    ensures TableGlyph(name, false) == TableDefaultGlyph
  {
    TomlKeyAbsent();
  }

  /** ".toml" is not a key of the table. */
  lemma TomlKeyAbsent()
    ensures IconMap(".toml") == None
  {
  }

  /** The exact name itself gets the dedicated glyph, in both versions. */
  lemma CargoTomlIsRust()
    ensures TableGlyph("cargo.toml", false) == RustGlyph
    ensures SwitchGlyph("cargo.toml", false) == RustGlyph
  {
    CargoTomlExt();
  }

  /** Two irregular table entries: ".cmd" maps to the empty string, so such
      a file is shown with no prefix at all, and ".cue" has no trailing space. */
  lemma IrregularTableEntries(name: string)
    requires !IsExactName(name)
    ensures Lower(Ext(name)) == ".cmd" ==> IconTable(name, false) == name
    ensures Lower(Ext(name)) == ".cue" ==> IconTable(name, false) == "\U{F153C}" + name
  {
    IrregularKeys();
  }

  /** The two irregular values of the table. */
  lemma IrregularKeys()
    ensures IconMap(".cmd") == Some("") && IconMap(".cue") == Some("\U{F153C}")
  {
  }

  /** A file without an extension gets the default glyph (getIcon("")). */
  lemma TableNoExtension(name: string)
    requires !IsExactName(name) && Ext(name) == ""
    ensures TableGlyph(name, false) == TableDefaultGlyph
  {
    assert Lower("") == "";
    EmptyKeyAbsent();
  }

  /** The lookup folds case: "A.MD" and "a.md" both get the Markdown entry. */
  lemma TableFoldsCase(name: string)
    requires !IsExactName(name) && Lower(Ext(name)) == ".md"
    ensures TableGlyph(name, false) == "\U{F0354} "
  {
  }

  /** For instance "README.MD" gets the Markdown entry. */
  lemma ReadmeUpperIsMarkdown()
    ensures TableGlyph("README.MD", false) == "\U{F0354} "
  {
    ExtAt("README.MD", 6);
    assert Lower(".MD") == ".md";
    assert !IsExactName("README.MD");
    TableFoldsCase("README.MD");
  }

  /** Outside the names the switch compares, its choice depends only on the
      extension: the name tests are all false. */
  lemma SwitchCaseIgnoresOtherNames(ext: string, name: string)
    requires !IsExactName(name)
    ensures SwitchCase(ext, name) == SwitchCase(ext, "")
  {
  }

  /** The switch version folds the extension's case too. */
  lemma SwitchExtensionCaseInsensitive(n1: string, n2: string)
    requires !IsExactName(n1) && !IsExactName(n2)
    requires Lower(Ext(n1)) == Lower(Ext(n2))
    ensures SwitchGlyph(n1, false) == SwitchGlyph(n2, false)
  {
    SwitchCaseIgnoresOtherNames(Lower(Ext(n1)), n1);
    SwitchCaseIgnoresOtherNames(Lower(Ext(n2)), n2);
  }

  // Evaluations of Lower(Ext(name)) on literal names: the exact names of
  // both versions and ".GITHUB". They only compute, one small lemma per
  // name, so that each evaluation is proved apart from the case analysis
  // of VersionsAgreeOnExactNames and VersionsDifferOnGithub that uses them.

  lemma DotlessExactNameExts()
    ensures Lower(Ext("Dockerfile")) == "" && Lower(Ext("Makefile")) == ""
  {
    ExtOfDotless("Dockerfile");
    ExtOfDotless("Makefile");
    assert Lower("") == "";
  }

  lemma ComposeExt()
    ensures Lower(Ext("docker-compose.yml")) == ".yml"
  {
    ExtAt("docker-compose.yml", 14);
    assert Lower(".yml") == ".yml";
  }

  lemma DockerignoreExt()
    ensures Lower(Ext(".dockerignore")) == ".dockerignore"
  {
    ExtAt(".dockerignore", 0);
    assert Lower(".dockerignore") == ".dockerignore";
  }

  lemma CargoTomlExt()
    ensures Lower(Ext("cargo.toml")) == ".toml"
  {
    ExtAt("cargo.toml", 5);
    assert Lower(".toml") == ".toml";
  }

  lemma GithubExt()
    ensures Lower(Ext(".github")) == ".github"
  {
    ExtAt(".github", 0);
    assert Lower(".github") == ".github";
  }

  lemma GitignoreExt()
    ensures Lower(Ext(".gitignore")) == ".gitignore"
  {
    ExtAt(".gitignore", 0);
    assert Lower(".gitignore") == ".gitignore";
  }

  lemma UpperGithubExt()
    ensures Lower(Ext(".GITHUB")) == ".github"
  {
    ExtAt(".GITHUB", 0);
    assert Lower(".GITHUB") == ".github";
  }

  /** On the nine exact names the two versions agree: no extension case of
      the switch fires before the name case for any of them. */
  lemma VersionsAgreeOnExactNames(name: string)
    requires IsExactName(name)
    ensures SwitchGlyph(name, false) == TableGlyph(name, false)
  {
    DotlessExactNameExts();
    ComposeExt();
    DockerignoreExt();
    CargoTomlExt();
    GithubExt();
    GitignoreExt();
  }

  /** Where the versions differ: the switch gives Go sources the go.mod
      glyph, while the table has its own ".go" entry. */
  lemma VersionsDifferOnGo()
    ensures SwitchGlyph("main.go", false) == GoModGlyph
    ensures TableGlyph("main.go", false) == "\U{E65E} "
  {
    ExtAt("main.go", 4);
    assert Lower(".go") == ".go";
    GoKey();
  }

  /** The table's own entry for ".go". */
  lemma GoKey()
    ensures IconMap(".go") == Some("\U{E65E} ")
  {
  }

  /** Where the versions differ: the switch matches ".github" as a folded
      extension, the table only as the exact name. */
  lemma VersionsDifferOnGithub()
    ensures SwitchGlyph(".GITHUB", false) == GitGlyph
    ensures TableGlyph(".GITHUB", false) == TableDefaultGlyph
  {
    UpperGithubExt();
    SwitchGithub(".GITHUB");
    TableGithub(".GITHUB");
  }

  lemma SwitchGithub(name: string)
    requires !IsExactName(name) && Lower(Ext(name)) == ".github"
    ensures SwitchGlyph(name, false) == GitGlyph
  {
  }

  lemma TableGithub(name: string)
    requires !IsExactName(name) && Lower(Ext(name)) == ".github"
    ensures TableGlyph(name, false) == TableDefaultGlyph
  {
    GithubKeyAbsent();
  }

  /** ".github" is not a key of the table. */
  lemma GithubKeyAbsent()
    ensures IconMap(".github") == None
  {
  }

  /** The empty extension is not a key of the table. */
  lemma EmptyKeyAbsent()
    ensures IconMap("") == None
  {
  }
}
