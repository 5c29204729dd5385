/** The `plantuml` block taglet: from the element a documentation comment is
    attached to, it finds the project's source directory; from each
    `plantuml` tag naming a path it reads that diagram file, writes every image the
    renderer makes of it into the documentation's `doc-files` directory and
    returns an `<img>` reference to each image written.

    The calls into javadoc, the file system and PlantUML are the values of
    the datatypes below; everything else is modelled as the taglet does it. */
module Taglet {
  import opened Wrappers
  import opened JavaLang
  import opened Elements

  // ------------------------------------------------------------ Collaborators

  /** What the taglet asks of javadoc's `JavaFileManager`. */
  datatype FileManager = FileManager(
    /** The path of the URI of `getJavaFileForInput(SOURCE_PATH, classpath, SOURCE)`;
        `None` when the call throws or finds no file. */
    sourcePath: string -> Option<string>,
    /** Whether `getFileForOutput(DOCUMENTATION_OUTPUT, packagePath, relativePath, null)`
        returns without an `IOException`. */
    outputFile: (string, string) -> bool)

  /** The part of the `DocletEnvironment` that `init` keeps. */
  datatype DocletEnvironment = DocletEnvironment(fileManager: FileManager)

  /** `Files.readString`: the text of the file at a path, `None` on an `IOException`. */
  datatype FileSystem = FileSystem(readString: string -> Option<string>)

  /** PlantUML's `SourceStringReader` over a diagram text. */
  datatype Renderer = Renderer(
    /** `getDiagram().getNbImages()` of each block of `getBlocks()`, in order. */
    blockImageCounts: string -> seq<int32>,
    /** Whether opening the output stream of (package, relative path), generating
        image `index` of the text into it and closing it throw no `IOException`. */
    exportImage: (string, nat, string, string) -> bool)

  datatype Host = Host(fileManager: FileManager, files: FileSystem, renderer: Renderer)

  /** A tag of the documentation comment: javadoc hands this taglet
      `UnknownBlockTagTree`s; anything else is logged and skipped. */
  datatype DocTag = UnknownBlockTag(content: string) | OtherTag

  /** Failures that escape `toString` as exceptions. */
  datatype Fatal =
    | NoPackage                        // getPackageOf gave null
    | SourceNotFound(classpath: string) // the IllegalStateException of getPathToJavaFile

  // ------------------------------------------------------ Source directory

  /** `removeSuffix`: `str` without `suffix` when it ends with it, else `str` unchanged. */
  function RemoveSuffix(str: string, suffix: string): (r: string)
    ensures EndsWith(str, suffix) ==> r + suffix == str
    ensures !EndsWith(str, suffix) ==> r == str
    ensures r <= str
  {
    if EndsWith(str, suffix) then str[..|str| - |suffix|] else str
  }

  const MODULE_INFO: string := "module-info"
  const PACKAGE_INFO: string := "package-info"

  /** `getElementIdentifier` as the source has it: a method, constructor or any
      other member that is not a type or variable gives its own simple name. */
  function ElementIdentifierAsWritten(e: Element): string {
    match e
    case ModuleElement(_) => MODULE_INFO
    case PackageElement(_) => PACKAGE_INFO
    case TypeElement(name, nesting, enclosing) =>
      if nesting.IsNested() then ElementIdentifierAsWritten(enclosing) else name
    case VariableElement(_, enclosing) => ElementIdentifierAsWritten(enclosing)
    case OtherElement(name, _) => name
  }

  /** `getElementIdentifier` as its documentation describes it: every element
      inside a class gives the name of the top class, so methods and
      constructors recurse like fields and nested types do. */
  function ElementIdentifier(e: Element): string {
    match e
    case ModuleElement(_) => MODULE_INFO
    case PackageElement(_) => PACKAGE_INFO
    case TypeElement(name, nesting, enclosing) =>
      if nesting.IsNested() then ElementIdentifier(enclosing) else name
    case VariableElement(_, enclosing) => ElementIdentifier(enclosing)
    case OtherElement(_, enclosing) => ElementIdentifier(enclosing)
  }

  /** The identifier names the compilation unit holding `e`: the module or
      package descriptor, or else the one top-level type `e` lies in. */
  lemma {:induction false} ElementIdentifierNamesCompilationUnit(e: Element)
    requires WellFormed(e)
    ensures e.ModuleElement? ==> ElementIdentifier(e) == "module-info"
    ensures e.PackageElement? ==> ElementIdentifier(e) == "package-info"
    ensures !e.IsModuleOrPackage() ==>
              forall t :: t in Ancestors(e) && IsTopLevelType(t) ==> ElementIdentifier(e) == t.simpleName
  {
    if !e.IsModuleOrPackage() && !IsTopLevelType(e) {
      ElementIdentifierNamesCompilationUnit(e.enclosing);
      assert Ancestors(e) == [e] + Ancestors(e.enclosing);
    }
  }

  /** Away from methods, constructors and the other members, the code and its
      documentation agree: types and variables resolve to their top class. */
  lemma {:induction false} AsWrittenAgreesAwayFromMembers(e: Element)
    requires forall a :: a in Ancestors(e) ==> !a.OtherElement?
    ensures ElementIdentifierAsWritten(e) == ElementIdentifier(e)
  {
    match e
    case ModuleElement(_) =>
    case PackageElement(_) =>
    case TypeElement(_, _, enclosing) =>
      assert Ancestors(e) == [e] + Ancestors(enclosing);
      AsWrittenAgreesAwayFromMembers(enclosing);
    case VariableElement(_, enclosing) =>
      assert Ancestors(e) == [e] + Ancestors(enclosing);
      AsWrittenAgreesAwayFromMembers(enclosing);
  }

  /** Which identifier rule the source-directory lookup follows: the code's,
      or the one its documentation describes. */
  datatype IdentifierRule = AsWritten | Corrected

  function Identifier(rule: IdentifierRule, e: Element): string {
    match rule
    case AsWritten => ElementIdentifierAsWritten(e)
    case Corrected => ElementIdentifier(e)
  }

  /** `getPackagePath`: "" for a module, its own qualified name for a package,
      the qualified name of its package for anything else. */
  function PackagePath(e: Element): (r: Option<string>)
    ensures e.ModuleElement? ==> r == Some("")
    ensures e.PackageElement? ==> r == Some(e.qualifiedName)
    ensures !e.IsModuleOrPackage() ==> r == PackageOf(e)
  {
    match e
    case ModuleElement(_) => Some("")
    case PackageElement(q) => Some(q)
    case _ => PackageOf(e)
  }

  /** Below the package level, the package path is that of the package the
      element's top-level type is declared in; it never fails. */
  lemma PackagePathOfMember(e: Element)
    requires WellFormed(e) && !e.IsModuleOrPackage()
    ensures PackagePath(e).Some?
    ensures forall t :: t in Ancestors(e) && IsTopLevelType(t) ==>
              t.enclosing.PackageElement? && PackagePath(e) == Some(t.enclosing.qualifiedName) == PackagePath(t)
  {
    TopLevelTypeOf(e);
    forall t | t in Ancestors(e) && IsTopLevelType(t)
      ensures PackagePath(t) == Some(t.enclosing.qualifiedName)
    {
      assert PackageOf(t) == PackageOf(t.enclosing);
    }
  }

  /** The dotted name the file manager is asked for: the identifier alone when
      the package path is empty, else package, `.` and identifier. */
  function Classpath(packagePath: string, identifier: string): (r: string)
    ensures EndsWith(r, identifier)
    ensures packagePath == [] ==> r == identifier
    ensures packagePath != [] ==> |r| == |packagePath| + 1 + |identifier|
                                  && r[..|packagePath|] == packagePath && r[|packagePath|] == '.'
  {
    if packagePath == [] then identifier else packagePath + "." + identifier
  }

  /** The path of the classpath's source file relative to the source root. */
  function PathSuffix(classpath: string): (r: string)
    ensures |r| == |classpath| + 5 && EndsWith(r, ".java")
    ensures forall i :: 0 <= i < |classpath| ==> r[i] == (if classpath[i] == '.' then '/' else classpath[i])
  {
    Replace(classpath, '.', '/') + ".java"
  }

  /** Package path and identifier become directories and file name. */
  lemma PathSuffixOfClasspath(packagePath: string, identifier: string)
    ensures PathSuffix(Classpath(packagePath, identifier))
            == (if packagePath == [] then "" else Replace(packagePath, '.', '/') + "/")
               + Replace(identifier, '.', '/') + ".java"
  {
    if packagePath != [] {
      ReplaceAppend(packagePath + ".", identifier, '.', '/');
      ReplaceAppend(packagePath, ".", '.', '/');
      assert Replace(".", '.', '/') == "/";
    }
  }

  /** `getSrcDirPath`: strip the classpath's relative path, then `java/`, from
      the path of its source file; fatal when the file manager finds none. */
  function SrcDirPath(rule: IdentifierRule, packagePath: string, e: Element, fm: FileManager): (r: Result<string, Fatal>)
    ensures var classpath := Classpath(packagePath, Identifier(rule, e));
            && (r.Failure? <==> fm.sourcePath(classpath).None?)
            && (r.Failure? ==> r.error == SourceNotFound(classpath))
            && (r.Success? ==> r.value <= fm.sourcePath(classpath).value)
  {
    var classpath := Classpath(packagePath, Identifier(rule, e));
    match fm.sourcePath(classpath)
    case None => Failure(SourceNotFound(classpath))
    case Some(pathToJavaFile) =>
      var pathSuffix := PathSuffix(classpath);
      Success(RemoveSuffix(RemoveSuffix(pathToJavaFile, pathSuffix), "java/"))
  }

  /** The intended case: a file at `root` + `java/` + relative path gives `root`. */
  lemma SrcDirPathStripsSourceRoot(rule: IdentifierRule, packagePath: string, e: Element, fm: FileManager, root: string)
    requires var classpath := Classpath(packagePath, Identifier(rule, e));
             fm.sourcePath(classpath) == Some(root + "java/" + PathSuffix(classpath))
    ensures SrcDirPath(rule, packagePath, e, fm) == Success(root)
  {
    var classpath := Classpath(packagePath, Identifier(rule, e));
    var located := root + "java/" + PathSuffix(classpath);
    var once := RemoveSuffix(located, PathSuffix(classpath));
    assert EndsWith(located, PathSuffix(classpath));
    assert once == located[..|once|] == root + "java/";
    assert EndsWith(once, "java/");
    assert RemoveSuffix(once, "java/") == once[..|root|] == root;
  }

  /** The degraded case: a path that ends with neither suffix comes back as it is. */
  lemma SrcDirPathPassThrough(rule: IdentifierRule, packagePath: string, e: Element, fm: FileManager, located: string)
    requires var classpath := Classpath(packagePath, Identifier(rule, e));
             && fm.sourcePath(classpath) == Some(located)
             && !EndsWith(located, PathSuffix(classpath))
             && !EndsWith(located, "java/")
    ensures SrcDirPath(rule, packagePath, e, fm) == Success(located)
  {
  }

  /** A nested type, a field or a method resolves to the same source directory,
      through the same package path, as the top-level type it lies in, under
      the corrected rule; the code's rule does so only away from methods,
      constructors and the other members. */
  lemma SameSourceRootAsTopLevelType(rule: IdentifierRule, e: Element, t: Element, fm: FileManager)
    requires WellFormed(e) && !e.IsModuleOrPackage()
    requires t in Ancestors(e) && IsTopLevelType(t)
    requires rule == Corrected || forall a :: a in Ancestors(e) ==> !a.OtherElement?
    ensures PackagePath(e) == PackagePath(t) && PackagePath(e).Some?
    ensures SrcDirPath(rule, PackagePath(e).value, e, fm) == SrcDirPath(rule, PackagePath(t).value, t, fm)
  {
    PackagePathOfMember(e);
    ElementIdentifierNamesCompilationUnit(e);
    assert WellFormed(t) && ElementIdentifier(t) == t.simpleName == ElementIdentifierAsWritten(t);
    if rule == AsWritten {
      AsWrittenAgreesAwayFromMembers(e);
    }
  }

  // ------------------------------------------------------- Output naming

  const DOC_FILES: string := "doc-files/"
  const IMG_PREFIX: string := "<br><img src=\""

  /** The output file of image `imageIndex` of diagram file `umlFilename`,
      relative to the package's documentation directory. */
  function OutputRelativePath(imageIndex: nat, umlFilename: string): string {
    DOC_FILES + NatToString(imageIndex) + "_" + umlFilename + ".svg"
  }

  /** The HTML that references one written image. */
  function ImageMarkup(outputRelativePath: string, imageIndex: nat): string {
    IMG_PREFIX + outputRelativePath + "\" alt=\"diagram " + NatToString(imageIndex) + "\">"
  }

  /** Reads the image index back out of a string that starts like an output path. */
  function ImageIndexOf(s: string): Option<nat> {
    if |s| < |DOC_FILES| || s[..|DOC_FILES|] != DOC_FILES then None
    else
      var digits := DigitPrefix(s[|DOC_FILES|..]);
      if digits != [] && |DOC_FILES| + |digits| < |s| && s[|DOC_FILES| + |digits|] == '_'
      then Some(ParseDecimal(digits))
      else None
  }

  lemma ImageIndexOfNamedPath(imageIndex: nat, rest: string)
    ensures ImageIndexOf(DOC_FILES + NatToString(imageIndex) + "_" + rest) == Some(imageIndex)
  {
    var digits := NatToString(imageIndex);
    var s := DOC_FILES + digits + "_" + rest;
    assert s[|DOC_FILES|..] == digits + ['_'] + rest;
    DigitPrefixOf(digits, '_', rest);
    ParseNatToString(imageIndex);
  }

  /** The output path names the image index and ends with the diagram file's name. */
  lemma OutputPathNamesImage(imageIndex: nat, umlFilename: string)
    ensures ImageIndexOf(OutputRelativePath(imageIndex, umlFilename)) == Some(imageIndex)
    ensures EndsWith(OutputRelativePath(imageIndex, umlFilename), umlFilename + ".svg")
  {
    ImageIndexOfNamedPath(imageIndex, umlFilename + ".svg");
    assert OutputRelativePath(imageIndex, umlFilename)
        == DOC_FILES + NatToString(imageIndex) + "_" + (umlFilename + ".svg");
  }

  /** The markup of an image starts with a line break and then refers to the image's file. */
  lemma MarkupRefersToPath(outputRelativePath: string, imageIndex: nat)
    ensures var m := ImageMarkup(outputRelativePath, imageIndex);
            && |m| > |IMG_PREFIX| + |outputRelativePath|
            && m[..|IMG_PREFIX|] == IMG_PREFIX
            && m[|IMG_PREFIX|..|IMG_PREFIX| + |outputRelativePath|] == outputRelativePath
  {
    var m := ImageMarkup(outputRelativePath, imageIndex);
    var after := "\" alt=\"diagram " + NatToString(imageIndex) + "\">";
    assert m == IMG_PREFIX + (outputRelativePath + after);
    assert m[|IMG_PREFIX|..] == outputRelativePath + after;
  }

  /** The file the markup of an image refers to carries the image's index. */
  lemma MarkupNamesImage(imageIndex: nat, umlFilename: string)
    ensures var path := OutputRelativePath(imageIndex, umlFilename);
            var m := ImageMarkup(path, imageIndex);
            && |m| > |IMG_PREFIX| + |path|
            && m[|IMG_PREFIX|..|IMG_PREFIX| + |path|] == path
            && ImageIndexOf(m[|IMG_PREFIX|..]) == Some(imageIndex)
  {
    var digits := NatToString(imageIndex);
    var path := OutputRelativePath(imageIndex, umlFilename);
    MarkupRefersToPath(path, imageIndex);
    var after := "\" alt=\"diagram " + digits + "\">";
    var m := ImageMarkup(path, imageIndex);
    assert m[|IMG_PREFIX|..] == path + after by {
      assert m == IMG_PREFIX + (path + after);
    }
    var tail := umlFilename + ".svg" + after;
    assert path + after == DOC_FILES + digits + "_" + tail;
    ImageIndexOfNamedPath(imageIndex, tail);
  }

  /** The markup's alternative text names the image's index. */
  lemma MarkupAltTextNamesIndex(outputRelativePath: string, imageIndex: nat)
    ensures EndsWith(ImageMarkup(outputRelativePath, imageIndex), "alt=\"diagram " + NatToString(imageIndex) + "\">")
  {
    var altText := "alt=\"diagram " + NatToString(imageIndex) + "\">";
    assert ImageMarkup(outputRelativePath, imageIndex) == (IMG_PREFIX + outputRelativePath + "\" ") + altText;
  }

  /** Images with different indices never share an output file or a markup fragment. */
  lemma DistinctIndicesDistinctOutputs(i: nat, j: nat, f: string, g: string)
    requires i != j
    ensures OutputRelativePath(i, f) != OutputRelativePath(j, g)
    ensures ImageMarkup(OutputRelativePath(i, f), i) != ImageMarkup(OutputRelativePath(j, g), j)
  {
    OutputPathNamesImage(i, f);
    OutputPathNamesImage(j, g);
    MarkupNamesImage(i, f);
    MarkupNamesImage(j, g);
  }

  /** `Path.getFileName()`: the part of the path after its last `/`. */
  function FileName(path: string): (r: string)
    ensures EndsWith(path, r)
    ensures forall i :: 0 <= i < |r| ==> r[i] != '/'
    ensures |r| < |path| ==> path[|path| - |r| - 1] == '/'
  {
    if path == [] || path[|path| - 1] == '/' then [] else FileName(path[..|path| - 1]) + [path[|path| - 1]]
  }

  // ------------------------------------------------------- Image count

  /** The exact sum of the block image counts. */
  function Sum(counts: seq<int32>): int {
    if counts == [] then 0 else Sum(counts[..|counts| - 1]) + counts[|counts| - 1] as int
  }

  /** `reduce(Integer::sum)` over a non-empty stream: a left fold in `int` arithmetic. */
  function ReduceSum(counts: seq<int32>): int32
    requires counts != []
  {
    if |counts| == 1 then counts[0]
    else Wrap(ReduceSum(counts[..|counts| - 1]) as int + counts[|counts| - 1] as int)
  }

  /** `getNumberOfImages`: the summed block counts, 0 when there is no block. */
  function NumberOfImages(counts: seq<int32>): int32 {
    if counts == [] then 0 else ReduceSum(counts)
  }

  /** The image count is the sum of the block counts, wrapped to 32 bits;
      it is that sum exactly whenever the sum fits in an `int`. */
  lemma {:induction false} NumberOfImagesIsSum(counts: seq<int32>)
    ensures NumberOfImages(counts) == Wrap(Sum(counts))
    ensures -0x8000_0000 <= Sum(counts) < 0x8000_0000 ==> NumberOfImages(counts) as int == Sum(counts)
    decreases |counts|
  {
    if |counts| == 1 {
      assert counts[..0] == [];
    } else if |counts| > 1 {
      var init := counts[..|counts| - 1];
      NumberOfImagesIsSum(init);
      WrapOfWrappedSum(Sum(init), counts[|counts| - 1] as int);
    }
  }

  /** How many times the image loop runs: the image count, none when it is negative. */
  function LoopBound(n: int32): nat {
    if n < 0 then 0 else n as nat
  }

  // ------------------------------------------------------- Diagrams

  /** Whether the output file of image `imageIndex` can be obtained and the image
      written into it without an `IOException`. */
  predicate ImageWritten(host: Host, packagePath: string, umlFilename: string, text: string, imageIndex: nat) {
    var path := OutputRelativePath(imageIndex, umlFilename);
    host.fileManager.outputFile(packagePath, path) && host.renderer.exportImage(text, imageIndex, packagePath, path)
  }

  /** `createImage`: the markup of image `imageIndex` when its output file could
      be obtained and written, nothing otherwise. */
  function CreateImage(host: Host, packagePath: string, umlFilename: string, text: string, imageIndex: nat)
    : (r: Option<string>)
    ensures r.Some? <==> ImageWritten(host, packagePath, umlFilename, text, imageIndex)
    ensures r.Some? ==> r.value == ImageMarkup(OutputRelativePath(imageIndex, umlFilename), imageIndex)
  {
    var outputRelativePath := OutputRelativePath(imageIndex, umlFilename);
    if !host.fileManager.outputFile(packagePath, outputRelativePath) then None
    else if !host.renderer.exportImage(text, imageIndex, packagePath, outputRelativePath) then None
    else Some(ImageMarkup(outputRelativePath, imageIndex))
  }

  /** The indices below `n`, ascending, whose image was written. */
  function WrittenIndices(host: Host, packagePath: string, umlFilename: string, text: string, n: nat)
    : seq<nat>
  {
    if n == 0 then []
    else WrittenIndices(host, packagePath, umlFilename, text, n - 1)
         + (if ImageWritten(host, packagePath, umlFilename, text, n - 1) then [n - 1] else [])
  }

  /** The written indices are exactly the indices below `n` whose image was written. */
  lemma {:induction false} WrittenIndicesMembers(host: Host, packagePath: string, umlFilename: string, text: string, n: nat)
    ensures var r := WrittenIndices(host, packagePath, umlFilename, text, n);
            |r| <= n && forall i: nat :: i in r <==> i < n && ImageWritten(host, packagePath, umlFilename, text, i)
  {
    if n > 0 {
      WrittenIndicesMembers(host, packagePath, umlFilename, text, n - 1);
      var init := WrittenIndices(host, packagePath, umlFilename, text, n - 1);
      var r := WrittenIndices(host, packagePath, umlFilename, text, n);
      var last := ImageWritten(host, packagePath, umlFilename, text, n - 1);
      assert r == init + (if last then [n - 1] else []);
      forall i: nat
        ensures i in r <==> i < n && ImageWritten(host, packagePath, umlFilename, text, i)
      {
        assert i in r <==> i in init || (last && i == n - 1);
      }
    }
  }

  /** ... and they come in ascending order. */
  lemma {:induction false} WrittenIndicesAscending(host: Host, packagePath: string, umlFilename: string, text: string, n: nat)
    ensures var r := WrittenIndices(host, packagePath, umlFilename, text, n);
            forall j, k :: 0 <= j < k < |r| ==> r[j] < r[k]
  {
    if n > 0 {
      WrittenIndicesAscending(host, packagePath, umlFilename, text, n - 1);
      var init := WrittenIndices(host, packagePath, umlFilename, text, n - 1);
      if ImageWritten(host, packagePath, umlFilename, text, n - 1) {
        WrittenIndicesMembers(host, packagePath, umlFilename, text, n - 1);
        var r := init + [n - 1];
        forall j, k | 0 <= j < k < |r| ensures r[j] < r[k] {
          if k == |init| {
            assert r[j] == init[j] && init[j] in init;
          } else {
            assert r[j] == init[j] && r[k] == init[k];
          }
        }
      }
    }
  }

  /** When every image is written, the indices are exactly 0, 1, ..., n - 1. */
  lemma {:induction false} AllWrittenIndices(host: Host, packagePath: string, umlFilename: string, text: string, n: nat)
    requires forall i :: 0 <= i < n ==> ImageWritten(host, packagePath, umlFilename, text, i)
    ensures var r := WrittenIndices(host, packagePath, umlFilename, text, n);
            |r| == n && forall j :: 0 <= j < n ==> r[j] == j
  {
    if n > 0 {
      AllWrittenIndices(host, packagePath, umlFilename, text, n - 1);
    }
  }

  /** The markup of each image index, in order. */
  function Fragments(indices: seq<nat>, umlFilename: string): (r: seq<string>)
    ensures |r| == |indices|
  {
    if indices == [] then []
    else
      var i := indices[|indices| - 1];
      Fragments(indices[..|indices| - 1], umlFilename) + [ImageMarkup(OutputRelativePath(i, umlFilename), i)]
  }

  /** One more loop step: the fragments of the images below `k + 1` are those
      below `k`, followed by that of image `k` when it was written. */
  lemma FragmentsStep(host: Host, packagePath: string, umlFilename: string, text: string, k: nat)
    ensures Fragments(WrittenIndices(host, packagePath, umlFilename, text, k + 1), umlFilename)
         == Fragments(WrittenIndices(host, packagePath, umlFilename, text, k), umlFilename)
            + (if ImageWritten(host, packagePath, umlFilename, text, k)
               then [ImageMarkup(OutputRelativePath(k, umlFilename), k)] else [])
  {
    var init := WrittenIndices(host, packagePath, umlFilename, text, k);
    if ImageWritten(host, packagePath, umlFilename, text, k) {
      assert (init + [k])[..|init|] == init;
    } else {
      assert init + [] == init;
    }
  }

  lemma {:induction false} FragmentsAt(indices: seq<nat>, umlFilename: string, j: nat)
    requires j < |indices|
    ensures Fragments(indices, umlFilename)[j] == ImageMarkup(OutputRelativePath(indices[j], umlFilename), indices[j])
  {
    if j < |indices| - 1 {
      FragmentsAt(indices[..|indices| - 1], umlFilename, j);
    }
  }

  /** The markup `createImage` returns for the images below `n`, in index order. */
  function ImagesUpTo(host: Host, packagePath: string, umlFilename: string, text: string, n: nat): seq<string> {
    if n == 0 then []
    else ImagesUpTo(host, packagePath, umlFilename, text, n - 1)
         + match CreateImage(host, packagePath, umlFilename, text, n - 1)
           case Some(markup) => [markup]
           case None => []
  }

  /** The markup collected for the images below `n` is that of the written indices. */
  lemma {:induction false} ImagesUpToAreWrittenFragments(host: Host, packagePath: string, umlFilename: string, text: string, n: nat)
    ensures ImagesUpTo(host, packagePath, umlFilename, text, n)
         == Fragments(WrittenIndices(host, packagePath, umlFilename, text, n), umlFilename)
  {
    if n > 0 {
      ImagesUpToAreWrittenFragments(host, packagePath, umlFilename, text, n - 1);
      FragmentsStep(host, packagePath, umlFilename, text, n - 1);
      var previous := ImagesUpTo(host, packagePath, umlFilename, text, n - 1);
      var image := CreateImage(host, packagePath, umlFilename, text, n - 1);
      if image.Some? {
        assert ImagesUpTo(host, packagePath, umlFilename, text, n) == previous + [image.value];
      } else {
        assert ImagesUpTo(host, packagePath, umlFilename, text, n) == previous + [];
      }
    }
  }

  /** What `createDiagrams` makes of the diagram text once it has been read:
      the markup of every image written, joined, or nothing when there is none. */
  function DiagramMarkup(host: Host, packagePath: string, umlFilename: string, text: string): Option<string> {
    var snippets := ImagesUpTo(host, packagePath, umlFilename, text, LoopBound(NumberOfImages(host.renderer.blockImageCounts(text))));
    if snippets == [] then None else Some(Concat(snippets))
  }

  /** What `createDiagrams` returns for the tag content `content`: nothing when
      the diagram file cannot be read. */
  function Diagrams(host: Host, packagePath: string, srcDirPath: string, content: string): Option<string> {
    var umlPath := srcDirPath + Trim(content);
    match host.files.readString(umlPath)
    case None => None
    case Some(text) => DiagramMarkup(host, packagePath, FileName(umlPath), text)
  }

  /** No markup comes from a diagram exactly when none of its images is written;
      otherwise the markup of the images written, in ascending index order, and
      never more fragments than images. */
  lemma DiagramMarkupSpec(host: Host, packagePath: string, umlFilename: string, text: string)
    ensures var n := LoopBound(NumberOfImages(host.renderer.blockImageCounts(text)));
            var indices := WrittenIndices(host, packagePath, umlFilename, text, n);
            var r := DiagramMarkup(host, packagePath, umlFilename, text);
            && (r.None? <==> forall i :: 0 <= i < n ==> !ImageWritten(host, packagePath, umlFilename, text, i))
            && (r.Some? ==> r.value == Concat(Fragments(indices, umlFilename)))
            && |indices| <= n
  {
    var n := LoopBound(NumberOfImages(host.renderer.blockImageCounts(text)));
    ImagesUpToAreWrittenFragments(host, packagePath, umlFilename, text, n);
    WrittenIndicesMembers(host, packagePath, umlFilename, text, n);
    var indices := WrittenIndices(host, packagePath, umlFilename, text, n);
    if indices != [] {
      assert indices[0] in indices;
    }
  }

  /** A diagram whose n > 0 images are all written yields exactly n fragments,
      for images 0 to n - 1 in that order. */
  lemma DiagramMarkupAllWritten(host: Host, packagePath: string, umlFilename: string, text: string)
    requires var n := LoopBound(NumberOfImages(host.renderer.blockImageCounts(text)));
             n > 0 && forall i :: 0 <= i < n ==> ImageWritten(host, packagePath, umlFilename, text, i)
    ensures var n := LoopBound(NumberOfImages(host.renderer.blockImageCounts(text)));
            DiagramMarkup(host, packagePath, umlFilename, text)
            == Some(Concat(seq(n, i requires 0 <= i < n => ImageMarkup(OutputRelativePath(i, umlFilename), i))))
  {
    var n := LoopBound(NumberOfImages(host.renderer.blockImageCounts(text)));
    AllWrittenIndices(host, packagePath, umlFilename, text, n);
    ImagesUpToAreWrittenFragments(host, packagePath, umlFilename, text, n);
    var indices := WrittenIndices(host, packagePath, umlFilename, text, n);
    forall j | 0 <= j < n
      ensures Fragments(indices, umlFilename)[j] == ImageMarkup(OutputRelativePath(j, umlFilename), j)
    {
      FragmentsAt(indices, umlFilename, j);
    }
    assert Fragments(indices, umlFilename)
        == seq(n, i requires 0 <= i < n => ImageMarkup(OutputRelativePath(i, umlFilename), i));
  }

  /** A diagram with no image, e.g. one without any block, gives no markup. */
  lemma DiagramMarkupNoImages(host: Host, packagePath: string, umlFilename: string, text: string)
    requires NumberOfImages(host.renderer.blockImageCounts(text)) <= 0
    ensures DiagramMarkup(host, packagePath, umlFilename, text) == None
  {
  }

  // ------------------------------------------------------- Whole comment

  /** What one tag contributes to the comment's markup. */
  function TagMarkup(host: Host, packagePath: string, srcDirPath: string, tag: DocTag): string {
    match tag
    case UnknownBlockTag(content) => Diagrams(host, packagePath, srcDirPath, content).GetOr("")
    case OtherTag => ""
  }

  /** `TagMarkup` for the comment's element, as a function of the tag alone. */
  function Contribution(host: Host, packagePath: string, srcDirPath: string): DocTag -> string {
    tag => TagMarkup(host, packagePath, srcDirPath, tag)
  }

  /** The contributions of `tags` appended in document order, as `toString`'s
      `StringBuilder` collects them. */
  function AppendAll(contribution: DocTag -> string, tags: seq<DocTag>): string {
    if tags == [] then "" else AppendAll(contribution, tags[..|tags| - 1]) + contribution(tags[|tags| - 1])
  }

  /** One more tag appends its contribution. */
  lemma AppendAllStep(contribution: DocTag -> string, tags: seq<DocTag>, i: nat)
    requires i < |tags|
    ensures AppendAll(contribution, tags[..i + 1]) == AppendAll(contribution, tags[..i]) + contribution(tags[i])
  {
    assert tags[..i + 1][..i] == tags[..i];
  }

  /** The markup of a comment is the markup of its first tags followed by that of the rest. */
  lemma {:induction false} AppendAllAppend(contribution: DocTag -> string, a: seq<DocTag>, b: seq<DocTag>)
    ensures AppendAll(contribution, a + b) == AppendAll(contribution, a) + AppendAll(contribution, b)
    decreases |b|
  {
    if b == [] {
      assert a + b == a;
    } else {
      var init := b[..|b| - 1];
      assert (a + b)[..|a + b| - 1] == a + init;
      AppendAllAppend(contribution, a, init);
    }
  }

  /** A tag that contributes nothing changes nothing around it. */
  lemma SilentTagChangesNothing(contribution: DocTag -> string, a: seq<DocTag>, t: DocTag, b: seq<DocTag>)
    requires contribution(t) == ""
    ensures AppendAll(contribution, a + [t] + b) == AppendAll(contribution, a + b)
  {
    AppendAllAppend(contribution, a + [t], b);
    AppendAllAppend(contribution, a, [t]);
    AppendAllAppend(contribution, a, b);
    assert [t][..0] == [];
  }

  /** A tag of the wrong kind changes nothing around it. */
  lemma OtherTagsContributeNothing(host: Host, packagePath: string, srcDirPath: string,
                                   a: seq<DocTag>, b: seq<DocTag>)
    ensures var contribution := Contribution(host, packagePath, srcDirPath);
            AppendAll(contribution, a + [OtherTag] + b) == AppendAll(contribution, a + b)
  {
    var contribution := Contribution(host, packagePath, srcDirPath);
    assert contribution(OtherTag) == "";
    SilentTagChangesNothing(contribution, a, OtherTag, b);
  }

  /** What `toString` returns, or the failure it throws. */
  function Render(rule: IdentifierRule, host: Host, tags: seq<DocTag>, element: Element): Result<string, Fatal> {
    match PackagePath(element)
    case None => Failure(NoPackage)
    case Some(packagePath) =>
      match SrcDirPath(rule, packagePath, element, host.fileManager)
      case Failure(error) => Failure(error)
      case Success(srcDirPath) => Success(AppendAll(Contribution(host, packagePath, srcDirPath), tags))
  }

  /** Whether `toString` fails depends on the element alone, never on its tags;
      for a well-formed element it fails only when its source file is not found. */
  lemma RenderFailsForElementOnly(rule: IdentifierRule, host: Host, tags: seq<DocTag>, element: Element)
    ensures Render(rule, host, tags, element).Failure? <==> Render(rule, host, [], element).Failure?
    ensures WellFormed(element) ==> PackagePath(element).Some?
    ensures WellFormed(element) ==>
              (Render(rule, host, tags, element).Failure? <==>
               host.fileManager.sourcePath(Classpath(PackagePath(element).value, Identifier(rule, element))).None?)
  {
    if WellFormed(element) && !element.IsModuleOrPackage() {
      PackagePathOfMember(element);
    }
  }

  /** No tags give the empty string, and the markup of a comment is that of its
      first tags followed by that of the rest, each tag in document order. */
  lemma RenderConcatenates(rule: IdentifierRule, host: Host, a: seq<DocTag>, b: seq<DocTag>, element: Element)
    ensures Render(rule, host, [], element).Success? ==> Render(rule, host, [], element).value == ""
    ensures Render(rule, host, a + b, element).Success? ==>
              && Render(rule, host, a, element).Success? && Render(rule, host, b, element).Success?
              && Render(rule, host, a + b, element).value
                 == Render(rule, host, a, element).value + Render(rule, host, b, element).value
  {
    if Render(rule, host, a + b, element).Success? {
      var packagePath := PackagePath(element).value;
      var srcDirPath := SrcDirPath(rule, packagePath, element, host.fileManager).value;
      AppendAllAppend(Contribution(host, packagePath, srcDirPath), a, b);
    }
  }

  /** A file manager whose only source file is that of `com.x.Foo`, under `/p/src/main/java/`. */
  function FooOnlySourcePath(classpath: string): Option<string> {
    if classpath == "com.x.Foo" then Some("/p/src/main/java/" + PathSuffix(classpath)) else None
  }

  /** The classpaths the two rules look up for method `run` of class `com.x.Foo`. */
  lemma MethodClasspaths(run: Element)
    requires run == OtherElement("run", TypeElement("Foo", TopLevel, PackageElement("com.x")))
    ensures PackagePath(run) == Some("com.x")
    ensures Classpath("com.x", Identifier(AsWritten, run)) == "com.x.run"
    ensures Classpath("com.x", Identifier(Corrected, run)) == "com.x.Foo"
    ensures FooOnlySourcePath("com.x.run") == None
  {
    assert "com.x.run"[6] != "com.x.Foo"[6];
  }

  /** The discrepancy: for a tag on method `run` of class `com.x.Foo`, the code
      asks the file manager for `com.x.run`, which names no source file, and
      `toString` fails; the corrected rule finds `com.x.Foo` and its source root. */
  lemma MethodTagFailsAsWritten(files: FileSystem, renderer: Renderer, tags: seq<DocTag>)
    ensures var run := OtherElement("run", TypeElement("Foo", TopLevel, PackageElement("com.x")));
            var fm := FileManager(FooOnlySourcePath, (packagePath: string, relativePath: string) => true);
            && WellFormed(run)
            && Render(AsWritten, Host(fm, files, renderer), tags, run) == Failure(SourceNotFound("com.x.run"))
            && SrcDirPath(Corrected, "com.x", run, fm) == Success("/p/src/main/")
            && Render(Corrected, Host(fm, files, renderer), tags, run).Success?
  {
    var run := OtherElement("run", TypeElement("Foo", TopLevel, PackageElement("com.x")));
    var fm := FileManager(FooOnlySourcePath, (packagePath: string, relativePath: string) => true);
    MethodClasspaths(run);
    assert "/p/src/main/java/" == "/p/src/main/" + "java/";
    SrcDirPathStripsSourceRoot(Corrected, "com.x", run, fm, "/p/src/main/");
  }

  /** The taglet object; javadoc calls `Init` before any `ToString`. */
  class PlantumlTaglet {
    var javaFileManager: Option<FileManager>

    constructor ()
      ensures javaFileManager == None
    {
      javaFileManager := None;
    }

    /** `init`: keep the doclet environment's file manager. */
    method Init(env: DocletEnvironment)
      modifies this
      ensures javaFileManager == Some(env.fileManager)
    {
      javaFileManager := Some(env.fileManager);
    }

    /** `createDiagrams`: the markup of every image of the tag's diagram file that
        was written, joined in index order; none when there is no such image. */
    method CreateDiagrams(files: FileSystem, renderer: Renderer, packagePath: string, srcDirPath: string,
                          content: string)
      returns (r: Option<string>)
      requires javaFileManager.Some?
      ensures r == Diagrams(Host(javaFileManager.value, files, renderer), packagePath, srcDirPath, content)
    {
      var host := Host(javaFileManager.value, files, renderer);
      var umlPath := srcDirPath + Trim(content);
      var plantumlSnippet := files.readString(umlPath);
      if plantumlSnippet.None? {
        return None;
      }
      var text := plantumlSnippet.value;
      var umlFilename := FileName(umlPath);
      var numberOfImages := NumberOfImages(renderer.blockImageCounts(text));
      var htmlSnippets := CreateImages(host, packagePath, umlFilename, text, numberOfImages);
      if htmlSnippets == [] {
        r := None;
      } else {
        r := Some(Concat(htmlSnippets));
      }
    }

    /** The loop of `createDiagrams`: try to write each of the `numberOfImages`
        images in turn, keeping the markup of those written. */
    method CreateImages(host: Host, packagePath: string, umlFilename: string, text: string, numberOfImages: int32)
      returns (htmlSnippets: seq<string>)
      ensures htmlSnippets == ImagesUpTo(host, packagePath, umlFilename, text, LoopBound(numberOfImages))
    {
      htmlSnippets := [];
      var imageIndex := 0;
      while imageIndex < numberOfImages as int
        invariant 0 <= imageIndex <= LoopBound(numberOfImages)
        invariant htmlSnippets == ImagesUpTo(host, packagePath, umlFilename, text, imageIndex)
      {
        var image := CreateImage(host, packagePath, umlFilename, text, imageIndex);
        if image.Some? {
          htmlSnippets := htmlSnippets + [image.value];
        }
        imageIndex := imageIndex + 1;
      }
      assert imageIndex == LoopBound(numberOfImages);
    }

    /** `toString`: the markup of every `plantuml` tag of the comment, in order. */
    method ToString(rule: IdentifierRule, tags: seq<DocTag>, element: Element, files: FileSystem, renderer: Renderer)
      returns (r: Result<string, Fatal>)
      requires javaFileManager.Some?
      ensures r == Render(rule, Host(javaFileManager.value, files, renderer), tags, element)
    {
      var host := Host(javaFileManager.value, files, renderer);
      var packagePath := PackagePath(element);
      if packagePath.None? {
        return Failure(NoPackage);
      }
      var srcDirPath := SrcDirPath(rule, packagePath.value, element, javaFileManager.value);
      if srcDirPath.Failure? {
        return Failure(srcDirPath.error);
      }
      var output := "";
      ghost var contribution := Contribution(host, packagePath.value, srcDirPath.value);
      for i := 0 to |tags|
        invariant output == AppendAll(contribution, tags[..i])
      {
        AppendAllStep(contribution, tags, i);
        match tags[i]
        case OtherTag =>
        case UnknownBlockTag(content) =>
          var diagrams := CreateDiagrams(files, renderer, packagePath.value, srcDirPath.value, content);
          if diagrams.Some? {
            output := output + diagrams.value;
          }
      }
      assert tags[..|tags|] == tags;
      r := Success(output);
    }
  }
}
