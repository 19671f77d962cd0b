/**
 * The file-name test at the top of `extract_text`: the extension is taken
 * with `os.path.splitext` (POSIX flavour), lower-cased, and only ".pdf" and
 * ".docx" lead to a parser; anything else yields `None`.
 */
module Extraction {
  import opened PyText

  datatype Option<T> = None | Some(value: T)

  /** The two document formats that have a parser. */
  datatype Format = Pdf | Docx

  /** The position of the last `c` in `s`, or -1 when `s` has none (`str.rfind`). */
  function LastIndexOf(s: string, c: char): (r: int)
    ensures -1 <= r < |s|
    ensures r >= 0 ==> s[r] == c
    ensures forall j :: r < j < |s| ==> s[j] != c
  {
    if s == [] then -1
    else if s[|s| - 1] == c then |s| - 1
    else LastIndexOf(s[..|s| - 1], c)
  }

  /** The last occurrence is determined by its defining properties. */
  lemma LastIndexOfIs(s: string, c: char, r: int)
    requires -1 <= r < |s|
    requires r >= 0 ==> s[r] == c
    requires forall j :: r < j < |s| ==> s[j] != c
    ensures LastIndexOf(s, c) == r
  {
  }

  /**
   * The last path component of `root` (what follows its last '/') has a
   * character other than '.', so a dot after it starts an extension.
   */
  predicate StemHasNonDot(root: string) {
    exists k :: LastIndexOf(root, '/') < k < |root| && root[k] != '.'
  }

  /** An extension as `splitext` produces it: a '.' followed by no other '.' and no '/'. */
  predicate IsExtension(ext: string) {
    ext != [] && ext[0] == '.' && forall i :: 1 <= i < |ext| ==> ext[i] != '.' && ext[i] != '/'
  }

  /**
   * `os.path.splitext(path)[1]`: from the last '.' of the last path
   * component to the end, unless that component has only dots before it
   * (a leading-dot name such as ".pdf" has no extension), in which case "".
   */
  function Extension(path: string): (ext: string)
    ensures |ext| <= |path| && ext == path[|path| - |ext|..]
    ensures ext == [] || IsExtension(ext)
  {
    var sep := LastIndexOf(path, '/');
    var dot := LastIndexOf(path, '.');
    if sep < dot && exists k :: sep < k < dot && path[k] != '.' then path[dot..] else []
  }

  /**
   * Splitting `root + ext` for an extension-shaped `ext`: `splitext` gives
   * back `ext` exactly when the last component of `root` has a non-dot
   * character, and no extension otherwise.
   */
  lemma ExtensionOfJoin(root: string, ext: string)
    requires IsExtension(ext)
    ensures Extension(root + ext) == if StemHasNonDot(root) then ext else []
  {
    var path := root + ext;
    var sep := LastIndexOf(root, '/');
    LastIndexOfIs(path, '/', sep);
    LastIndexOfIs(path, '.', |root|);
    assert path[|root|..] == ext;
    if StemHasNonDot(root) {
      var k :| sep < k < |root| && root[k] != '.';
      assert path[k] != '.';
    } else {
      assert forall k :: sep < k < |root| ==> path[k] == root[k];
    }
  }

  /** The extension each format's parser is chosen by. */
  function Suffix(f: Format): string {
    match f
    case Pdf => ".pdf"
    case Docx => ".docx"
  }

  /** The format `extract_text` parses a file of this name as, or `None` when it returns `None`. */
  function Dispatch(fileName: string): (f: Option<Format>)
    ensures f.Some? ==> Lower(Extension(fileName)) == Suffix(f.value)
    ensures f.None? ==> Lower(Extension(fileName)) != ".pdf" && Lower(Extension(fileName)) != ".docx"
  {
    var ext := Lower(Extension(fileName));
    if ext == ".pdf" then Some(Pdf)
    else if ext == ".docx" then Some(Docx)
    else None
  }

  /** A file dispatched to a format's parser has a name ending in that format's extension, in any case. */
  lemma DispatchedNameEndsInSuffix(fileName: string, f: Format)
    requires Dispatch(fileName) == Some(f)
    ensures var n := |fileName| - |Suffix(f)|;
      n >= 0 && Lower(fileName[n..]) == Suffix(f) && StemHasNonDot(fileName[..n])
  {
    var ext := Extension(fileName);
    var n := |fileName| - |ext|;
    assert |ext| == |Suffix(f)|;
    assert fileName == fileName[..n] + ext;
    ExtensionOfJoin(fileName[..n], ext);
  }

  /** A name ending in a format's extension, in any case, after a stem whose last path component is not all dots is dispatched to that format. */
  lemma SuffixedNameIsDispatched(fileName: string, f: Format)
    requires var n := |fileName| - |Suffix(f)|;
      n >= 0 && Lower(fileName[n..]) == Suffix(f) && StemHasNonDot(fileName[..n])
    ensures Dispatch(fileName) == Some(f)
  {
    var n := |fileName| - |Suffix(f)|;
    var ext := fileName[n..];
    var lowered := Lower(ext);
    LowerCharFixed(ext[0]);
    forall i | 1 <= i < |ext|
      ensures ext[i] != '.' && ext[i] != '/'
    {
      assert 'a' <= lowered[i] <= 'z';
    }
    assert fileName == fileName[..n] + ext;
    ExtensionOfJoin(fileName[..n], ext);
  }

  /**
   * A file goes to a format's parser exactly when its name ends in that
   * format's extension in any mix of case, and the part before it has a
   * last path component that is not made of dots only.
   */
  lemma DispatchIff(fileName: string, f: Format)
    ensures Dispatch(fileName) == Some(f) <==>
      var n := |fileName| - |Suffix(f)|;
      n >= 0 && Lower(fileName[n..]) == Suffix(f) && StemHasNonDot(fileName[..n])
  {
    if Dispatch(fileName) == Some(f) {
      DispatchedNameEndsInSuffix(fileName, f);
    }
    var n := |fileName| - |Suffix(f)|;
    if n >= 0 && Lower(fileName[n..]) == Suffix(f) && StemHasNonDot(fileName[..n]) {
      SuffixedNameIsDispatched(fileName, f);
    }
  }

  /** A name without a dot has no extension and so gets no parser. */
  lemma NameWithoutDotHasNoParser(fileName: string)
    requires forall i :: 0 <= i < |fileName| ==> fileName[i] != '.'
    ensures Extension(fileName) == [] && Dispatch(fileName) == None
  {
    assert LastIndexOf(fileName, '.') == -1;
  }

  /**
   * Once the last path component of the stem is not all dots, the lower-cased extension alone decides the
   * parser: ".pdf" and ".docx" (in any case) select one, anything else none.
   */
  lemma DispatchOfJoin(root: string, ext: string)
    requires IsExtension(ext) && StemHasNonDot(root)
    ensures Dispatch(root + ext) ==
      if Lower(ext) == ".pdf" then Some(Pdf) else if Lower(ext) == ".docx" then Some(Docx) else None
  {
    ExtensionOfJoin(root, ext);
  }

  /** "CV.PDF" goes to the PDF parser: the extension test ignores case. */
  lemma UpperCasePdfDispatches()
    ensures Dispatch("CV.PDF") == Some(Pdf)
  {
    assert StemHasNonDot("CV") by {
      LastIndexOfIs("CV", '/', -1);
      assert "CV"[0] != '.';
    }
    assert Lower(".PDF") == ".pdf" by {
      var lowered := Lower(".PDF");
      assert lowered[0] == '.' && lowered[1] == 'p' && lowered[2] == 'd' && lowered[3] == 'f';
    }
    assert IsExtension(".PDF");
    assert "CV" + ".PDF" == "CV.PDF";
    DispatchOfJoin("CV", ".PDF");
  }

  /** A hidden file named ".pdf" has no extension, so it gets no parser. */
  lemma DotFileHasNoParser()
    ensures Dispatch(".pdf") == None
  {
    var root: string := [];
    assert IsExtension(".pdf");
    assert root + ".pdf" == ".pdf";
    ExtensionOfJoin(root, ".pdf");
  }

  /** Only the last extension counts: "resume.pdf.txt" gets no parser. */
  lemma OnlyLastExtensionCounts()
    ensures Dispatch("resume.pdf.txt") == None
  {
    assert StemHasNonDot("resume.pdf") by {
      LastIndexOfIs("resume.pdf", '/', -1);
      assert "resume.pdf"[0] != '.';
    }
    assert Lower(".txt") == ".txt" by {
      var lowered := Lower(".txt");
      assert lowered[0] == '.' && lowered[1] == 't' && lowered[2] == 'x' && lowered[3] == 't';
    }
    assert IsExtension(".txt");
    assert "resume.pdf" + ".txt" == "resume.pdf.txt";
    DispatchOfJoin("resume.pdf", ".txt");
  }
}
