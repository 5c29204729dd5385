# plantuml-doc taglet, modelled in Dafny

`plantuml-doc` is a javadoc block taglet. A documentation comment carries
`@plantuml <path>` tags. The taglet

1. derives the project's source directory once per comment, before any tag
   is processed, from the element the comment is attached to (a failed
   lookup aborts every tag of the comment): it turns the element into an identifier, asks javadoc's file
   manager where the `.java` file of `<package>.<identifier>` is, and strips
   the package-relative path and then `java/` from the end of that location.
   The code's identifier is `module-info` for a module, `package-info` for a
   package, the top-level type's simple name for a type or field, and the
   member's own simple name for a method or constructor. The documentation
   of `getElementIdentifier` promises the top-level type's name for every
   element inside a class. The model carries both rules, as
   `IdentifierRule.AsWritten` and `IdentifierRule.Corrected`, and every
   operation that depends on the identifier takes the rule as a parameter
   (see "## Findings");
2. for each tag, reads the diagram file `<source dir><path>`, asks PlantUML how many images
   its blocks make (the sum of the per-block counts), and for each image index
   `i` obtains the output file `doc-files/<i>_<file>.svg` in the package's
   documentation directory and writes image `i` into it;
3. returns, for every image written, `<br><img src="doc-files/<i>_<file>.svg" alt="diagram <i>">`,
   joined in index order, and `toString` appends the markup of all tags of
   the comment in document order.

The model has four modules:

- `Wrappers` — `Option` and `Result`.
- `JavaLang` — the parts of `java.lang` the taglet relies on: 32-bit `int`
  with two's-complement wrap-around, `String.endsWith`, `String.replace(char, char)`,
  `String.trim`, decimal rendering of an `int`, and `String.join("", …)`.
- `Elements` — javadoc's program elements as a datatype that carries each
  element's enclosing element, and `Elements.getPackageOf` over that chain.
- `Taglet` — the taglet itself. Source-directory derivation, element
  identifiers, package paths, output naming, the image count and the
  assembly of the markup are functions. The class `PlantumlTaglet` keeps
  the file manager that `init` stores. Its methods `CreateDiagrams`,
  `CreateImages` and `ToString` run the source's loops and are proved equal
  to those functions.

What javadoc, the file system and PlantUML answer is passed in as a value:

- `FileManager` holds the source-file lookup and whether an output file can
  be obtained.
- `FileSystem` holds the file read.
- `Renderer` holds the per-block image counts and whether writing image `i`
  succeeds.

The results are proved for every possible answer.

## Model

| member | source | states |
|---|---|---|
| Taglet.RemoveSuffix | src/main/java/jt/plantuml/doc/PlantumlTaglet.java:254-259 | when `str` ends with `suffix` the result followed by `suffix` is `str`; otherwise it is `str` unchanged; the result is always a prefix of `str` |
| Taglet.Classpath | src/main/java/jt/plantuml/doc/PlantumlTaglet.java:174-179 | the classpath is the identifier alone for an empty package path, else the package path, a `.` and the identifier |
| Taglet.PathSuffix | src/main/java/jt/plantuml/doc/PlantumlTaglet.java:181 | the relative source path has every `.` of the classpath turned into `/`, keeps every other character, and ends in `.java` (5 characters longer) |
| Taglet.PathSuffixOfClasspath | src/main/java/jt/plantuml/doc/PlantumlTaglet.java:174-181 | the relative source path is the package's directories, then the identifier, then `.java` |
| Taglet.SrcDirPath | src/main/java/jt/plantuml/doc/PlantumlTaglet.java:172-183 | under either identifier rule, the derivation fails, with the classpath it looked up, exactly when the file manager finds no source file; otherwise the source directory is a prefix of the located path |
| Taglet.SrcDirPathStripsSourceRoot | src/main/java/jt/plantuml/doc/PlantumlTaglet.java:180-182 | a source file located at `root` + `java/` + relative path gives exactly `root` |
| Taglet.SrcDirPathPassThrough | src/main/java/jt/plantuml/doc/PlantumlTaglet.java:180-182 | a located path that ends with neither suffix comes back unchanged |
| Taglet.SameSourceRootAsTopLevelType | src/main/java/jt/plantuml/doc/PlantumlTaglet.java:172-183 | a nested type or field resolves to the same package path and the same source directory as its top-level type under either rule; a method or constructor does so only under the corrected rule (see "## Findings") |
| Taglet.ElementIdentifierNamesCompilationUnit | src/main/java/jt/plantuml/doc/PlantumlTaglet.java:203-228 | a module gives `module-info` and a package gives `package-info`; any other element gives the simple name of the top-level type it lies in |
| Taglet.AsWrittenAgreesAwayFromMembers | src/main/java/jt/plantuml/doc/PlantumlTaglet.java:216-224 | for modules, packages, types and variables (nested or not) the code's identifier is the compilation unit's, as documented |
| Taglet.MethodTagFailsAsWritten | src/main/java/jt/plantuml/doc/PlantumlTaglet.java:225-226 | for a tag on method `run` of class `com.x.Foo`, where only `com/x/Foo.java` exists, the code's rule makes `toString` fail looking up `com.x.run`; the corrected rule finds the source root and succeeds |
| Taglet.PackagePath | src/main/java/jt/plantuml/doc/PlantumlTaglet.java:193-201 | a module gives `""`, a package its own qualified name, anything else the qualified name of its package |
| Taglet.PackagePathOfMember | src/main/java/jt/plantuml/doc/PlantumlTaglet.java:198-200 | below package level the package path exists and is the package that declares the element's top-level type |
| Elements.TopLevelTypeOf | src/main/java/jt/plantuml/doc/PlantumlTaglet.java:199 | every element below package level lies in exactly one top-level type, which is declared in a package, and that package is the element's package |
| Taglet.OutputPathNamesImage | src/main/java/jt/plantuml/doc/PlantumlTaglet.java:144 | the output path `doc-files/<i>_<file>.svg` gives back index `i` when read, and it ends with the diagram file's name plus `.svg` |
| Taglet.MarkupRefersToPath | src/main/java/jt/plantuml/doc/PlantumlTaglet.java:160 | the fragment starts with `<br><img src="` followed by the output path |
| Taglet.MarkupNamesImage | src/main/java/jt/plantuml/doc/PlantumlTaglet.java:160 | the path the fragment refers to gives back the image's index when read |
| Taglet.MarkupAltTextNamesIndex | src/main/java/jt/plantuml/doc/PlantumlTaglet.java:160 | the fragment ends with the alternative text `alt="diagram <i>">` |
| Taglet.DistinctIndicesDistinctOutputs | src/main/java/jt/plantuml/doc/PlantumlTaglet.java:144-160 | images with different indices never share an output path or a fragment, whatever their file names |
| Taglet.CreateImage | src/main/java/jt/plantuml/doc/PlantumlTaglet.java:142-161 | a fragment comes back exactly when the output file was obtained and the image written into it, and it is the markup for that image's path and index |
| Taglet.FileName | src/main/java/jt/plantuml/doc/PlantumlTaglet.java:119 | the file name is a suffix of the path without `/` and is the whole of the last path segment |
| Taglet.NumberOfImagesIsSum | src/main/java/jt/plantuml/doc/PlantumlTaglet.java:268-273 | the image count is the sum of the block counts wrapped to 32 bits, 0 with no blocks, and the exact sum whenever that fits in an `int` |
| Taglet.WrittenIndicesMembers | src/main/java/jt/plantuml/doc/PlantumlTaglet.java:118-121 | the kept indices are exactly those below the count whose image was written, and there are at most as many as images |
| Taglet.WrittenIndicesAscending | src/main/java/jt/plantuml/doc/PlantumlTaglet.java:118-121 | the kept indices are strictly ascending |
| Taglet.AllWrittenIndices | src/main/java/jt/plantuml/doc/PlantumlTaglet.java:118-121 | when every image is written the kept indices are 0, 1, … in order |
| Taglet.ImagesUpToAreWrittenFragments | src/main/java/jt/plantuml/doc/PlantumlTaglet.java:117-121 | the list the loop collects is the fragment of each kept index, in index order |
| Taglet.DiagramMarkupSpec | src/main/java/jt/plantuml/doc/PlantumlTaglet.java:115-126 | no markup exactly when no image was written; otherwise the join of the fragments of the written images in ascending index order, never more fragments than images |
| Taglet.DiagramMarkupAllWritten | src/main/java/jt/plantuml/doc/PlantumlTaglet.java:117-126 | when all `n > 0` images are written the markup is the join of the fragments for images 0 to `n - 1` |
| Taglet.DiagramMarkupNoImages | src/main/java/jt/plantuml/doc/PlantumlTaglet.java:116-123 | a diagram with no image (or a negative count) gives no markup |
| Taglet.PlantumlTaglet.Init | src/main/java/jt/plantuml/doc/PlantumlTaglet.java:56-60 | the taglet keeps the environment's file manager |
| Taglet.PlantumlTaglet.CreateImages | src/main/java/jt/plantuml/doc/PlantumlTaglet.java:117-121 | the loop over image indices collects the fragments `createImage` returns, in index order |
| Taglet.PlantumlTaglet.CreateDiagrams | src/main/java/jt/plantuml/doc/PlantumlTaglet.java:104-127 | returns the diagram markup of the specification function: nothing for an unreadable file, else the joined fragments of the written images or nothing when there is none |
| Taglet.PlantumlTaglet.ToString | src/main/java/jt/plantuml/doc/PlantumlTaglet.java:78-93 | for either identifier rule, fails as the package-path and source-directory derivation fail, else returns the contributions of the tags appended in document order |
| Taglet.AppendAllAppend | src/main/java/jt/plantuml/doc/PlantumlTaglet.java:83-92 | the appended markup of a list of tags is that of its first part followed by that of the rest |
| Taglet.OtherTagsContributeNothing | src/main/java/jt/plantuml/doc/PlantumlTaglet.java:85-88 | a tag of the wrong kind leaves the markup of the tags around it unchanged |
| Taglet.RenderConcatenates | src/main/java/jt/plantuml/doc/PlantumlTaglet.java:83-92 | no tags give `""`; the output for `a + b` is the output for `a` followed by that for `b` |
| Taglet.RenderFailsForElementOnly | src/main/java/jt/plantuml/doc/PlantumlTaglet.java:79-81 | for either identifier rule, whether `toString` fails depends on the element alone; a well-formed element always has a package path and fails only when its source file is not found |
| JavaLang.TrimIsSlice | src/main/java/jt/plantuml/doc/PlantumlTaglet.java:106 | the trimmed content is a slice of the content, and every character cut off before or after it is `<= ' '` |
| JavaLang.ParseNatToString | src/main/java/jt/plantuml/doc/PlantumlTaglet.java:144 | the decimal text of an image index reads back as that index |
| JavaLang.WrapOfWrappedSum | src/main/java/jt/plantuml/doc/PlantumlTaglet.java:271 | wrapping each partial sum gives the same 32-bit result as wrapping the total once |

## Left out

- `getName`, `isInlineTag` and `getAllowedLocations` return constants for javadoc's registration; there is nothing in them to prove.
- Taglet.PlantumlTaglet.Init: keeps only the file manager, not `elementUtils`. `Elements.getPackageOf` is modelled by `Elements.PackageOf`, which walks the enclosing-element chain of the datatype.
- `JavaFileManager.getJavaFileForInput` and `URI.getPath` are one function, `FileManager.sourcePath`. An `IOException` and a `null` result both give `SourceNotFound`. In Java the `null` result shows up as a `NullPointerException` at `javaObject.toUri()` rather than an `IllegalStateException`. A `null` path from the URI is not modelled.
- Taglet.RemoveSuffix: the `null` checks on `str` and `suffix` are not modelled, because no `null` string reaches the function in the model.
- `getFileForOutput`, opening the output stream, `generateImage` and closing the stream are the two outcome functions `FileManager.outputFile` and `Renderer.exportImage`. The SVG bytes themselves are not modelled.
- PlantUML parsing is left out: `Renderer.blockImageCounts` gives the image count of each block of a text.
- `Files.readString` is `FileSystem.readString`, and any `IOException` is `None`. Character decoding is not modelled.
- `new File(…).toPath()` normalises separators and redundant slashes; the model keeps the concatenated string as the path.
- Taglet.FileName: takes the text after the last `/` of the raw path, which is `getFileName()` for a normalised path only. A tag path with a trailing slash, such as `diagrams/a.puml/`, shows the difference: Java drops the slash, reads the file and names image 0 `0_a.puml.svg`, while the model names it `0_.svg`.
- Strings are sequences of Dafny `char` (Unicode scalar values), not Java's UTF-16 code units. Lone surrogates cannot be represented, and a supplementary character is one `char` here but two in Java. `endsWith`, `substring` by suffix length, the last-`/` search and `trim`'s `c <= ' '` give the same strings either way.
- `System.err` logging has no effect on results and is left out.
- Taglet.PlantumlTaglet.ToString and Taglet.PlantumlTaglet.CreateDiagrams require that `Init` ran first. Javadoc guarantees this; without it Java would throw a `NullPointerException`.
- Taglet.PlantumlTaglet.CreateDiagrams: takes the tag's content as a string rather than an `UnknownBlockTagTree`. `ToString` passes it the content of each `UnknownBlockTag`.
- Taglet.SameSourceRootAsTopLevelType: under the code's rule it is proved only for elements with no method, constructor or other member on their enclosing chain, because the code looks such a member up by its own name (see "## Findings").

## Findings

| source | as written | input that shows it | evidently intended | confidence | as-written member | corrected member |
|---|---|---|---|---|---|---|
| src/main/java/jt/plantuml/doc/PlantumlTaglet.java:225-226 | a method, constructor or other member that is neither a type nor a variable gives its own simple name as identifier | a `@plantuml` tag on method `run` of class `com.x.Foo`: the file manager is asked for `com.x.run`, which is no compilation unit, so `getPathToJavaFile` fails (a constructor is looked up as `com.x.<init>`) | the identifier of the top class `Foo`, as the method's documentation says every element inside a class resolves to, giving `com.x.Foo` | medium, not executed | Taglet.MethodTagFailsAsWritten | Taglet.ElementIdentifierNamesCompilationUnit |
