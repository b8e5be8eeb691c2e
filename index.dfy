/**
 * indj/index.py: the index record `DjangoIndex` (names, validation, the
 * decision taken before saving), the import-path helpers of `DjangoSrc`, and
 * `create_index_data`, which folds the extracted definitions into the index.
 */
module Index {
  import opened Wrappers
  import opened Exceptions
  import opened Strings
  import opened Ordering
  import opened Paths
  import opened Utils

  /** The value held in `DjangoIndex.data`. */
  datatype IndexData =
    | NoData                                      // None
    | Mapping(entries: map<string, seq<string>>)  // a dict from name to import paths
    | NotAMapping(truthy: bool)                   // any other value, a list say; only its truthiness is observed

  /** A `datetime`; the index only checks that one is present. */
  datatype DateTime = DateTime(year: int, month: int, day: int, hour: int, minute: int, second: int, microsecond: int)

  /** What `to_dict` returns and `save` writes. */
  datatype IndexDocument = IndexDocument(data: IndexData, version: Option<Version>, created: Option<DateTime>)

  /** Python truthiness of the data: `None` and `{}` are false. */
  predicate DataIsTruthy(d: IndexData) {
    match d
    case NoData => false
    case Mapping(m) => |m| > 0
    case NotAMapping(t) => t
  }

  /** Python truthiness of the version: `None` and `()` are false. */
  predicate VersionIsTruthy(v: Option<Version>) {
    v.Some? && |v.value| > 0
  }

  const EmptyIndexMessage := "Given index is empty or None"
  const NoVersionMessage := "No Django version given"
  const NoCreatedMessage := "Index has no created date"
  const NotADictMessage := "Data is not a dict"
  const NoOutputDirectoryMessage := "Output directory does not exist"
  const OutputFileExistsMessage := "Output file already exists"
  /** What `version_as_string` raises when the version is None. */
  const NotIterableMessage := "'NoneType' object is not iterable"

  /** What an index must be to be trusted: a non-empty dict, a non-empty version and a creation date. */
  ghost predicate IsWellFormed(doc: IndexDocument) {
    doc.data.Mapping? && |doc.data.entries| > 0 && VersionIsTruthy(doc.version) && doc.created.Some?
  }

  /** The file `save` writes: where, and what. */
  datatype SavedFile = SavedFile(path: string, document: IndexDocument)

  /**
   * The decision `save` takes before writing `doc`, with the file system given
   * as the set of paths that exist: the version is needed to name the file,
   * then the directory must exist, then an existing file is only replaced when
   * `overwrite` is set.
   */
  function SaveDecision(doc: IndexDocument, outputDirectory: string, overwrite: bool, existing: set<string>): (r: Result<SavedFile, IndjError>)
    ensures doc.version.None? <==> r == Err(TypeError(NotIterableMessage))
    ensures r == Err(DjangoIndexError(NoOutputDirectoryMessage)) <==> doc.version.Some? && outputDirectory !in existing
    ensures r == Err(DjangoIndexError(OutputFileExistsMessage)) <==>
      && doc.version.Some? && outputDirectory in existing && !overwrite
      && DataFilepathFromVersion(outputDirectory, doc.version.value) in existing
    ensures r.Ok? <==>
      && doc.version.Some? && outputDirectory in existing
      && (overwrite || DataFilepathFromVersion(outputDirectory, doc.version.value) !in existing)
    ensures r.Ok? ==> r.value == SavedFile(DataFilepathFromVersion(outputDirectory, doc.version.value), doc)
  {
    match doc.version
    case None => Err(TypeError(NotIterableMessage))
    case Some(v) =>
      var path := DataFilepathFromVersion(outputDirectory, v);
      if outputDirectory !in existing then Err(DjangoIndexError(NoOutputDirectoryMessage))
      else if path in existing && !overwrite then Err(DjangoIndexError(OutputFileExistsMessage))
      else Ok(SavedFile(path, doc))
  }

  /** Saving twice: the second save is refused unless `overwrite` is set, and then it writes the same file again. */
  lemma SaveTwice(doc: IndexDocument, outputDirectory: string, existing: set<string>)
    requires SaveDecision(doc, outputDirectory, false, existing).Ok?
    ensures var written := existing + {SaveDecision(doc, outputDirectory, false, existing).value.path};
      && SaveDecision(doc, outputDirectory, false, written) == Err(DjangoIndexError(OutputFileExistsMessage))
      && SaveDecision(doc, outputDirectory, true, written) == SaveDecision(doc, outputDirectory, false, existing)
  {
  }

  class DjangoIndex {
    var data: IndexData
    var version: Option<Version>
    var created: Option<DateTime>

    constructor (data: IndexData, version: Option<Version>, created: Option<DateTime>)
      ensures this.data == data && this.version == version && this.created == created
    {
      this.data := data;
      this.version := version;
      this.created := created;
    }

    /** `names`: every key of the data once, in ascending order. */
    ghost function Names(): (r: seq<string>)
      reads this
      requires data.Mapping?
      ensures |r| == |data.entries|
      ensures forall k :: k in r <==> k in data.entries
      ensures StrictlyAscending(r)
    {
      SortedKeys(data.entries.Keys)
    }

    /** `to_dict`: the three fields that make up the saved document. */
    function ToDict(): (doc: IndexDocument)
      reads this
      ensures doc.data == data && doc.version == version && doc.created == created
    {
      IndexDocument(data, version, created)
    }

    /** `validate`: the first failing check, in a fixed order, decides the error; passing means well-formed. */
    function Validate(): (r: Outcome<IndjError>)
      reads this
      ensures r == Fail(DjangoIndexError(EmptyIndexMessage)) <==> !DataIsTruthy(data)
      ensures r == Fail(DjangoIndexError(NoVersionMessage)) <==> DataIsTruthy(data) && !VersionIsTruthy(version)
      ensures r == Fail(DjangoIndexError(NoCreatedMessage)) <==>
        DataIsTruthy(data) && VersionIsTruthy(version) && created.None?
      ensures r == Fail(DjangoIndexError(NotADictMessage)) <==>
        DataIsTruthy(data) && VersionIsTruthy(version) && created.Some? && !data.Mapping?
      ensures r.Pass? <==> IsWellFormed(ToDict())
    {
      if !DataIsTruthy(data) then Fail(DjangoIndexError(EmptyIndexMessage))
      else if !VersionIsTruthy(version) then Fail(DjangoIndexError(NoVersionMessage))
      else if created.None? then Fail(DjangoIndexError(NoCreatedMessage))
      else if !data.Mapping? then Fail(DjangoIndexError(NotADictMessage))
      else Pass
    }

    /** `is_valid`: whether `validate` raises nothing, that is, whether the index is well formed. */
    function IsValid(): (valid: bool)
      reads this
      ensures valid <==> Validate().Pass?
      ensures valid <==> IsWellFormed(ToDict())
    {
      Validate().Pass?
    }

    /** `save`: the checks made in order before the document is written. */
    method Save(outputDirectory: string, overwrite: bool, existing: set<string>) returns (r: Result<SavedFile, IndjError>)
      ensures r == SaveDecision(ToDict(), outputDirectory, overwrite, existing)
    {
      if version.None? {
        return Err(TypeError(NotIterableMessage));
      }
      var dataFilepath := DataFilepathFromVersion(outputDirectory, version.value);
      if outputDirectory !in existing {
        return Err(DjangoIndexError(NoOutputDirectoryMessage));
      }
      if dataFilepath in existing && !overwrite {
        return Err(DjangoIndexError(OutputFileExistsMessage));
      }
      r := Ok(SavedFile(dataFilepath, ToDict()));
    }
  }

  // The helpers of `DjangoSrc`.

  const Root := "django"

  /** The name is `django` or lies below it. */
  predicate IsDjangoRooted(s: string) {
    s == Root || StartsWith(s, Root + ".")
  }

  /** A file name of the `__init__.py` kind. */
  predicate IsMagicName(name: string) {
    StartsWith(name, "__") && EndsWith(name, "__.py")
  }

  /** `_file_is_magic`: the basename starts with `__` and the path ends in `__.py`; both are facts about the basename. */
  function FileIsMagic(path: string): (magic: bool)
    ensures magic <==> IsMagicName(Basename(path))
  {
    var b := Basename(path);
    assert forall k :: 0 <= k < |b| ==> b[k] == path[|path| - |b| + k];
    assert EndsWith(path, "__.py") ==> forall j :: |path| - 5 <= j < |path| ==> path[j] != Sep by {
      if EndsWith(path, "__.py") {
        forall j | |path| - 5 <= j < |path| ensures path[j] != Sep {
          assert path[j] == path[|path| - 5..][j - (|path| - 5)];
        }
      }
    }
    StartsWith(b, "__") && EndsWith(path, "__.py")
  }

  /** `_get_import_path`: a name already in the `django` namespace is kept, any other is taken relative to the module. */
  function GetImportPath(fullName: string, moduleImportPath: string): (r: string)
    ensures IsDjangoRooted(fullName) ==> r == fullName
    ensures !IsDjangoRooted(fullName) ==> StartsWith(r, moduleImportPath + ".") && |r| == |moduleImportPath| + 1 + |fullName|
    ensures EndsWith(r, fullName)
    ensures IsDjangoRooted(moduleImportPath) ==> IsDjangoRooted(r)
  {
    if StartsWith(fullName, "django.") || fullName == "django" then fullName
    else
      var r := moduleImportPath + "." + fullName;
      assert r[..|moduleImportPath| + 1] == moduleImportPath + ".";
      assert r[|r| - |fullName|..] == fullName;
      assert StartsWith(moduleImportPath, Root + ".") ==> r[..|Root| + 1] == moduleImportPath[..|Root| + 1];
      r
  }

  /** Resolving is idempotent: once a name has a rooted import path, resolving it again against any module keeps it. */
  lemma GetImportPathIdempotent(fullName: string, moduleImportPath: string, otherModule: string)
    requires IsDjangoRooted(moduleImportPath)
    ensures GetImportPath(GetImportPath(fullName, moduleImportPath), otherModule) == GetImportPath(fullName, moduleImportPath)
  {
  }

  /** The segments of the dotted module path of `rel`: the last one without its extension. */
  function DropExtension(rel: seq<string>): seq<string>
    requires |rel| > 0
  {
    rel[..|rel| - 1] + [Splitext(rel[|rel| - 1]).0]
  }

  /** The three cases of the test suite: `django` itself, a name under `django`, and a name under a module. */
  lemma GetImportPathExamples()
    ensures GetImportPath("django", "") == "django"
    ensures GetImportPath("django.things", "") == "django.things"
    ensures GetImportPath("thing", "django.things") == "django.things.thing"
  {
    assert StartsWith("django.things", "django.");
    assert !StartsWith("thing", "django.");
  }

  /** The module a file stands for: a magic file stands for its directory (`posixpath.dirname` of the absolute path). */
  function ModuleSegments(modulePath: seq<string>): (path: seq<string>)
    ensures path == modulePath || path == DirnameSegs(modulePath)
    ensures AreSegments(modulePath) ==>
      path == if |modulePath| > 0 && IsMagicName(modulePath[|modulePath| - 1]) then DirnameSegs(modulePath) else modulePath
  {
    assert |modulePath| > 0 && AreSegments(modulePath) ==> Basename(AbsPath(modulePath)) == modulePath[|modulePath| - 1] by {
      if |modulePath| > 0 && AreSegments(modulePath) {
        BasenameAbsPath(modulePath);
      }
    }
    assert modulePath == [] ==> Basename(AbsPath(modulePath)) == [] by {
      assert modulePath == [] ==> AbsPath(modulePath) == [Sep];
    }
    if FileIsMagic(AbsPath(modulePath)) then DirnameSegs(modulePath) else modulePath
  }

  /** The module's path relative to the source root, extension dropped; empty for the root itself or its parent. */
  function RelativeModule(src: seq<string>, path: seq<string>): (relpath: string)
    ensures relpath != "." && relpath != ".."
  {
    var relpath := Splitext(RelpathText(path, src)).0;
    if relpath == "." || relpath == ".." then "" else relpath
  }

  /** `django` followed, when there is one, by `.` and the relative path with `.` for every separator. */
  function DottedImportPath(relpath: string): (r: string)
    ensures IsDjangoRooted(r)
    ensures r == Root <==> relpath == ""
  {
    var r := Root + (if relpath != "" then "." else "") + ReplaceChar(relpath, Sep, '.');
    assert relpath != "" ==> r[..|Root| + 1] == Root + ".";
    r
  }

  /**
   * `_get_module_import_path`, for the absolute, normalised segments of the
   * source root `src` and of the module file.
   */
  function GetModuleImportPath(src: seq<string>, modulePath: seq<string>): (r: string)
    ensures IsDjangoRooted(r)
  {
    DottedImportPath(RelativeModule(src, ModuleSegments(modulePath)))
  }

  /** The text below the root, with its extension dropped, turns into the dotted path of its segments. */
  lemma {:induction false} DottedRelpath(rel: seq<string>)
    requires |rel| > 0 && AreSegments(rel)
    ensures var t := Splitext(JoinWith(Sep, rel)).0;
      && t != "" && t != "." && t != ".."
      && ReplaceChar(t, Sep, '.') == JoinWith('.', DropExtension(rel))
  {
    var last := rel[|rel| - 1];
    var init := rel[..|rel| - 1];
    var root := Splitext(last).0;
    SplitextRootOfSegment(last);
    var dotted := DropExtension(rel);
    assert AreSegments(dotted);
    if |rel| == 1 {
      ReplaceCharAbsent(root, Sep, '.');
    } else {
      assert rel == init + [last];
      JoinWithSnoc(Sep, init, last);
      var x := JoinWith(Sep, init) + [Sep];
      assert JoinWith(Sep, rel) == x + last;
      SplitextUnderDir(x, last);
      JoinWithSnoc(Sep, init, root);
      assert dotted == init + [root];
      var t := Splitext(JoinWith(Sep, rel)).0;
      assert t == JoinWith(Sep, dotted);
      assert t[|x| - 1] == Sep;
      ReplaceJoin(dotted, Sep, '.');
    }
  }

  /** Below the root, the relative module path is non-empty and turns into the dotted relative segments, extension dropped. */
  lemma RelativeModuleBelow(src: seq<string>, rel: seq<string>)
    requires |rel| > 0 && AreSegments(rel)
    ensures RelativeModule(src, src + rel) != ""
    ensures ReplaceChar(RelativeModule(src, src + rel), Sep, '.') == JoinWith('.', DropExtension(rel))
  {
    RelpathBelow(src, rel);
    DottedRelpath(rel);
  }

  /** A non-empty relative path is written after `django.`. */
  lemma DottedImportPathBelow(relpath: string)
    requires relpath != ""
    ensures DottedImportPath(relpath) == "django." + ReplaceChar(relpath, Sep, '.')
  {
    assert Root + "." == "django.";
  }

  /** A module file below the root maps to `django.` and its dotted relative path, extension dropped. */
  lemma ModuleImportPathOfModule(src: seq<string>, rel: seq<string>)
    requires AreSegments(src) && AreSegments(rel) && |rel| > 0
    requires !IsMagicName(rel[|rel| - 1])
    ensures GetModuleImportPath(src, src + rel) == "django." + JoinWith('.', DropExtension(rel))
  {
    var modulePath := src + rel;
    assert ModuleSegments(modulePath) == modulePath by {
      assert modulePath[|modulePath| - 1] == rel[|rel| - 1];
      assert AreSegments(modulePath);
    }
    RelativeModuleBelow(src, rel);
    DottedImportPathBelow(RelativeModule(src, modulePath));
  }

  /** A magic file stands for its directory: `django` for the root, the directory's dotted path below it. */
  lemma ModuleImportPathOfPackage(src: seq<string>, dir: seq<string>, marker: string)
    requires AreSegments(src) && AreSegments(dir) && IsSegment(marker) && IsMagicName(marker)
    ensures GetModuleImportPath(src, src + dir + [marker]) ==
      if dir == [] then "django" else "django." + JoinWith('.', DropExtension(dir))
  {
    var modulePath := src + dir + [marker];
    assert ModuleSegments(modulePath) == src + dir by {
      assert AreSegments(modulePath);
    }
    if dir == [] {
      assert src + dir == src;
      RelpathBelow(src, dir);
      assert LastIndexOf(".", '.') == 0;
      assert Splitext(".").0 == ".";
      assert RelativeModule(src, src) == "";
    } else {
      RelativeModuleBelow(src, dir);
      DottedImportPathBelow(RelativeModule(src, src + dir));
    }
  }

  /** A magic file in the parent of the source root gives `..` as its relative path, which also maps to `django`. */
  lemma ModuleImportPathOfParentPackage(parent: seq<string>, top: string, marker: string)
    requires AreSegments(parent) && IsSegment(top) && IsSegment(marker) && IsMagicName(marker)
    ensures GetModuleImportPath(parent + [top], parent + [marker]) == "django"
  {
    var modulePath := parent + [marker];
    assert AreSegments(modulePath);
    assert ModuleSegments(modulePath) == parent;
    var src := parent + [top];
    assert forall k :: 0 <= k < |parent| ==> src[k] == parent[k];
    assert CommonPrefixLength(src, parent) == |parent|;
    assert Relpath(parent, src) == [".."];
    assert LastIndexOf("..", '.') == 1;
    assert Splitext("..").0 == "..";
  }

  /** Within a directory, whether a file is magic depends on its name alone. */
  lemma MagicInDir(dir: string, name: string)
    requires Sep !in name
    ensures FileIsMagic(dir + [Sep] + name) <==> IsMagicName(name)
  {
    BasenameAfterSep(dir, name);
  }

  /** The file names of the magic-file cases of the test suite; by `MagicInDir` the directory does not matter. */
  lemma FileIsMagicExamples()
    ensures IsMagicName("__init__.py")
    ensures !IsMagicName("__foo.py")
    ensures !IsMagicName("__foo__.txt")
    ensures !IsMagicName("boshlol.py")
  {
  }

  lemma SplitextModelsPy()
    ensures Splitext("models.py").0 == "models"
  {
    assert LastIndexOf("models.py", Sep) == -1;
    assert LastIndexOf("models.py", '.') == 6;
    assert "models.py"[0] != '.';
  }

  /** The module case of the test suite, for a source root anywhere. */
  lemma ModuleImportPathExample(src: seq<string>)
    requires AreSegments(src)
    ensures GetModuleImportPath(src, src + ["foobar", "models.py"]) == "django.foobar.models"
  {
    assert AreSegments(["foobar", "models.py"]) by {}
    assert !IsMagicName("models.py") by {}
    assert "django." + JoinWith('.', ["foobar", "models"]) == "django.foobar.models" by {}
    assert DropExtension(["foobar", "models.py"]) == ["foobar", "models"] by {
      SplitextModelsPy();
    }
    ModuleImportPathOfModule(src, ["foobar", "models.py"]);
  }

  /** The package case of the test suite, for a source root anywhere. */
  lemma PackageImportPathExample(src: seq<string>)
    requires AreSegments(src)
    ensures GetModuleImportPath(src, src + ["foobar"] + ["__init__.py"]) == "django.foobar"
  {
    assert IsMagicName("__init__.py") by {}
    assert AreSegments(["foobar"]) by {}
    assert "django." + JoinWith('.', ["foobar"]) == "django.foobar" by {}
    assert DropExtension(["foobar"]) == ["foobar"] by {
      assert LastIndexOf("foobar", '.') == -1;
    }
    ModuleImportPathOfPackage(src, ["foobar"], "__init__.py");
  }

  /** The root-package case of the test suite: the root's `__init__.py` is `django`. */
  lemma RootPackageImportPathExample(src: seq<string>)
    requires AreSegments(src)
    ensures GetModuleImportPath(src, src + ["__init__.py"]) == "django"
  {
    assert src + ["__init__.py"] == src + [] + ["__init__.py"];
    ModuleImportPathOfPackage(src, [], "__init__.py");
  }

  // `create_index_data` and the reference it is proved to agree with.

  /** One extracted definition: its local name and its resolved import path. */
  datatype Definition = Definition(name: string, importPath: string)

  type IndexMap = map<string, seq<string>>

  /** The result of folding `defs` into a dict the way `create_index_data` does, one definition at a time. */
  function IndexDataOf(defs: seq<Definition>): (r: IndexMap)
    ensures forall n :: n in r ==> |r[n]| > 0 && NoDuplicates(r[n])
    ensures forall n, p :: n in r && p in r[n] ==> Definition(n, p) in defs
  {
    if defs == [] then map[]
    else
      var data := IndexDataOf(defs[..|defs| - 1]);
      var d := defs[|defs| - 1];
      assert defs == defs[..|defs| - 1] + [d];
      if d.name in data then
        if d.importPath in data[d.name] then data else data[d.name := data[d.name] + [d.importPath]]
      else data[d.name := [d.importPath]]
  }

  /** `create_index_data`, given the stream of definitions. */
  method CreateIndexData(defs: seq<Definition>) returns (data: IndexMap)
    ensures data == IndexDataOf(defs)
  {
    data := map[];
    var i := 0;
    while i < |defs|
      invariant 0 <= i <= |defs|
      invariant data == IndexDataOf(defs[..i])
    {
      var name, path := defs[i].name, defs[i].importPath;
      if name in data {
        if path !in data[name] {
          data := data[name := data[name] + [path]];
        }
      } else {
        data := data[name := [path]];
      }
      assert defs[..i + 1][..i] == defs[..i];
      i := i + 1;
    }
    assert defs[..i] == defs;
  }

  /** The import paths paired with `name` in the stream, in stream order, repeats included. */
  function PathsOf(defs: seq<Definition>, name: string): (paths: seq<string>)
    ensures forall p :: p in paths <==> Definition(name, p) in defs
  {
    if defs == [] then []
    else
      var init, d := defs[..|defs| - 1], defs[|defs| - 1];
      assert defs == init + [d];
      PathsOf(init, name) + (if d.name == name then [d.importPath] else [])
  }

  ghost predicate NoDuplicates(s: seq<string>) {
    forall i, j :: 0 <= i < j < |s| ==> s[i] != s[j]
  }

  /** The index of the first occurrence of `x`. */
  function FirstIndex(s: seq<string>, x: string): (i: nat)
    requires x in s
    ensures i < |s| && s[i] == x && x !in s[..i]
  {
    if s[0] == x then 0
    else
      var i := 1 + FirstIndex(s[1..], x);
      assert s[..i] == [s[0]] + s[1..][..i - 1];
      i
  }

  lemma FirstIndexSnoc(s: seq<string>, y: string, x: string)
    requires x in s
    ensures FirstIndex(s + [y], x) == FirstIndex(s, x)
  {
    var t := s + [y];
    var a, b := FirstIndex(t, x), FirstIndex(s, x);
    assert forall k :: 0 <= k < a ==> t[k] != x by {
      forall k | 0 <= k < a ensures t[k] != x { assert t[..a][k] == t[k]; }
    }
    assert forall k :: 0 <= k < b ==> s[k] != x by {
      forall k | 0 <= k < b ensures s[k] != x { assert s[..b][k] == s[k]; }
    }
    assert t[b] == x;
  }

  /** Each element of `s` once, at the place of its first occurrence. */
  function Dedup(s: seq<string>): (r: seq<string>)
    ensures forall x :: x in r <==> x in s
    ensures NoDuplicates(r)
    ensures forall i, j :: 0 <= i < j < |r| ==> FirstIndex(s, r[i]) < FirstIndex(s, r[j])
  {
    if s == [] then []
    else
      var init, x := s[..|s| - 1], s[|s| - 1];
      assert s == init + [x];
      var d := Dedup(init);
      forall y | y in init ensures FirstIndex(s, y) == FirstIndex(init, y) {
        FirstIndexSnoc(init, x, y);
      }
      if x in d then d
      else
        assert FirstIndex(s, x) == |s| - 1;
        d + [x]
  }

  lemma {:induction false} PathsOfAbsent(defs: seq<Definition>, name: string)
    requires forall i :: 0 <= i < |defs| ==> defs[i].name != name
    ensures PathsOf(defs, name) == []
  {
    if defs != [] {
      PathsOfAbsent(defs[..|defs| - 1], name);
    }
  }

  /** The keys of the fold are exactly the names in the stream. */
  lemma {:induction false} IndexDataKeys(defs: seq<Definition>)
    ensures forall n :: n in IndexDataOf(defs) <==> exists i :: 0 <= i < |defs| && defs[i].name == n
    decreases |defs|
  {
    if defs != [] {
      var init, d := defs[..|defs| - 1], defs[|defs| - 1];
      IndexDataKeys(init);
      var before, after := IndexDataOf(init), IndexDataOf(defs);
      assert after.Keys == before.Keys + {d.name};
      forall n ensures n in after <==> exists i :: 0 <= i < |defs| && defs[i].name == n {
        if exists i :: 0 <= i < |defs| && defs[i].name == n {
          var i :| 0 <= i < |defs| && defs[i].name == n;
          if i < |init| { assert init[i] == defs[i]; }
        }
        if n in before {
          var i :| 0 <= i < |init| && init[i].name == n;
          assert defs[i] == init[i];
        }
      }
    }
  }

  /**
   * The fold agrees with the reference: the keys are exactly the names in the
   * stream, and each name's list is its paths without repeats, in the order
   * they were first seen.
   */
  lemma {:induction false} IndexDataMatchesReference(defs: seq<Definition>)
    ensures forall n :: n in IndexDataOf(defs) <==> exists i :: 0 <= i < |defs| && defs[i].name == n
    ensures forall n :: n in IndexDataOf(defs) ==> IndexDataOf(defs)[n] == Dedup(PathsOf(defs, n))
    decreases |defs|
  {
    IndexDataKeys(defs);
    if defs != [] {
      var init, d := defs[..|defs| - 1], defs[|defs| - 1];
      assert defs == init + [d];
      IndexDataMatchesReference(init);
      var before, after := IndexDataOf(init), IndexDataOf(defs);
      forall n | n in after ensures after[n] == Dedup(PathsOf(defs, n)) {
        var paths := PathsOf(init, n);
        if n == d.name {
          assert PathsOf(defs, n) == paths + [d.importPath];
          assert (paths + [d.importPath])[..|paths|] == paths;
          if n !in before {
            PathsOfAbsent(init, n);
          }
        } else {
          assert PathsOf(defs, n) == paths;
        }
      }
    }
  }

  /**
   * What an index entry holds: for every name in the stream, exactly the
   * distinct paths it was paired with, without repeats, in first-seen order.
   */
  lemma IndexDataEntries(defs: seq<Definition>, name: string)
    requires name in IndexDataOf(defs)
    ensures NoDuplicates(IndexDataOf(defs)[name])
    ensures forall p :: p in IndexDataOf(defs)[name] <==> Definition(name, p) in defs
    ensures var paths, entry := PathsOf(defs, name), IndexDataOf(defs)[name];
      forall i, j :: 0 <= i < j < |entry| ==> FirstIndex(paths, entry[i]) < FirstIndex(paths, entry[j])
  {
    IndexDataMatchesReference(defs);
  }

  /** An empty stream, and only an empty stream, gives an empty dict. */
  lemma IndexDataEmpty(defs: seq<Definition>)
    ensures IndexDataOf(defs) == map[] <==> defs == []
  {
    if defs != [] {
      IndexDataMatchesReference(defs);
      assert defs[0].name in IndexDataOf(defs);
    }
  }

  /** A non-empty stream, a non-empty version and a creation date make an index that validates. */
  lemma BuiltIndexIsWellFormed(defs: seq<Definition>, version: Version, created: DateTime)
    requires |defs| > 0 && |version| > 0
    ensures IsWellFormed(IndexDocument(Mapping(IndexDataOf(defs)), Some(version), Some(created)))
  {
    IndexDataMatchesReference(defs);
    assert defs[0].name in IndexDataOf(defs);
  }

  /** The three examples of the test suite: one entry, a second path for a name, a repeated path. */
  lemma IndexDataExamples()
    ensures IndexDataOf([Definition("Thing", "foobars.Thing")]) == map["Thing" := ["foobars.Thing"]]
    ensures IndexDataOf([Definition("Thing", "foobars.Thing"), Definition("Thing", "dohickies.Thing")])
      == map["Thing" := ["foobars.Thing", "dohickies.Thing"]]
    ensures IndexDataOf([Definition("Thing", "foobars.Thing"), Definition("Thing", "foobars.Thing")])
      == map["Thing" := ["foobars.Thing"]]
  {
    var one := [Definition("Thing", "foobars.Thing")];
    var m := map["Thing" := ["foobars.Thing"]];
    assert IndexDataOf(one) == m by {
      assert one[..0] == [];
    }
    var two := one + [Definition("Thing", "dohickies.Thing")];
    assert two[..1] == one;
    assert "dohickies.Thing" !in m["Thing"] by {
      assert "dohickies.Thing"[0] != "foobars.Thing"[0];
    }
    assert IndexDataOf(two) == m["Thing" := ["foobars.Thing"] + ["dohickies.Thing"]];
    assert ["foobars.Thing"] + ["dohickies.Thing"] == ["foobars.Thing", "dohickies.Thing"];
    assert two == [Definition("Thing", "foobars.Thing"), Definition("Thing", "dohickies.Thing")];
    var again := one + one;
    assert again[..1] == one;
    assert IndexDataOf(again) == m;
  }

  // `create_index_data` as written unpacks three items from each entry.

  /** Python 3.4's message for unpacking too few or too many items into three names; one item is "value", not "values". */
  function UnpackMessage(n: nat): string {
    if n < 3 then "need more than " + NatToString(n) + (if n == 1 then " value" else " values") + " to unpack"
    else "too many values to unpack (expected 3)"
  }

  /** `for name, path, source in generator`: each entry must hold exactly three items; the third is dropped. */
  function UnpackTriples(entries: seq<seq<string>>): (r: Result<seq<Definition>, IndjError>)
    ensures r.Ok? <==> forall i :: 0 <= i < |entries| ==> |entries[i]| == 3
    ensures r.Ok? ==> |r.value| == |entries|
    ensures r.Ok? ==> forall i :: 0 <= i < |entries| ==> r.value[i] == Definition(entries[i][0], entries[i][1])
    ensures r.Err? ==> exists i ::
      && 0 <= i < |entries|
      && |entries[i]| != 3
      && (forall j :: 0 <= j < i ==> |entries[j]| == 3)
      && r.error == ValueError(UnpackMessage(|entries[i]|))
  {
    if entries == [] then Ok([])
    else if |entries[0]| != 3 then Err(ValueError(UnpackMessage(|entries[0]|)))
    else
      assert forall i :: 1 <= i < |entries| ==> entries[1..][i - 1] == entries[i];
      match UnpackTriples(entries[1..])
      case Err(e) => Err(e)
      case Ok(rest) => Ok([Definition(entries[0][0], entries[0][1])] + rest)
  }

  /** `create_index_data` as written, on the entries the stream yields. */
  function CreateIndexDataAsWritten(entries: seq<seq<string>>): (r: Result<IndexMap, IndjError>)
    ensures r.Ok? <==> forall i :: 0 <= i < |entries| ==> |entries[i]| == 3
  {
    match UnpackTriples(entries)
    case Err(e) => Err(e)
    case Ok(defs) => Ok(IndexDataOf(defs))
  }

  /** The (name, path) pairs the test suite feeds in, and that `_get_definitions_from_file` builds, fail to unpack. */
  lemma PairsFailToUnpack()
    ensures CreateIndexDataAsWritten([["Thing", "foobars.Thing"]]) == Err(ValueError("need more than 2 values to unpack"))
  {
    var entry := ["Thing", "foobars.Thing"];
    assert |entry| == 2;
    assert UnpackMessage(2) == "need more than 2 values to unpack" by {
      assert NatToString(2) == "2";
    }
    assert UnpackTriples([entry]) == Err(ValueError(UnpackMessage(2)));
  }

  /** An entry of one item fails too, with the singular message. */
  lemma SingleItemFailsToUnpack()
    ensures CreateIndexDataAsWritten([["Thing"]]) == Err(ValueError("need more than 1 value to unpack"))
  {
    var entry := ["Thing"];
    assert |entry| == 1;
    assert UnpackMessage(1) == "need more than 1 value to unpack" by {
      assert NatToString(1) == "1";
    }
    assert UnpackTriples([entry]) == Err(ValueError(UnpackMessage(1)));
  }
}
