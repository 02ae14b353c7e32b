/**
  FileStorageService: uploaded files live under one storage root, in a
  directory per tenant; every read or delete resolves the caller's
  relative path against the root, normalises it, and refuses it unless it
  still lies under the root, compared name by name.

  Paths are sequences of names.  The file system is a map from the
  normalised absolute name sequence to the file's bytes; its I/O errors,
  other than a missing file or a failed write, are not modelled.
 */
module FileStorageService {
  import opened Common

  // ---------------------------------------------------------------------
  // java.nio.file.Path, as sequences of names

  datatype Path = Path(absolute: bool, names: seq<string>)

  /** Paths.get(s): absolute when it starts with '/', empty names dropped. */
  function ParsePath(s: string): (p: Path)
    ensures p.absolute <==> |s| > 0 && s[0] == '/'
    ensures forall i :: 0 <= i < |p.names| ==> p.names[i] != "" && p.names[i] in Pieces(s, "/")
  {
    Path(|s| > 0 && s[0] == '/', Filter(Pieces(s, "/"), (n: string) => n != ""))
  }

  /** base.resolve(other): an absolute other replaces the base. */
  function Resolve(base: Path, other: Path): (r: Path)
    requires base.absolute
    ensures r.absolute
  {
    if other.absolute then other else Path(true, base.names + other.names)
  }

  /** One step of normalize() on an absolute path: "." is dropped, ".." removes the name before it. */
  function NormalizeStep(stack: seq<string>, name: string): seq<string>
  {
    if name == "." then stack
    else if name == ".." then (if stack == [] then [] else stack[..|stack| - 1])
    else stack + [name]
  }

  /** normalize() of an absolute path's names; ".." at the root stays at the root. */
  function Normalize(names: seq<string>): (r: seq<string>)
    ensures |r| <= |names|
    ensures forall i :: 0 <= i < |r| ==> r[i] in names
  {
    if names == [] then []
    else NormalizeStep(Normalize(names[..|names| - 1]), names[|names| - 1])
  }

  /** Names free of "." and "..". */
  predicate IsPlain(names: seq<string>)
  {
    forall i :: 0 <= i < |names| ==> names[i] != "." && names[i] != ".."
  }

  /** Path.startsWith: the names of root are the leading names of p. */
  predicate StartsWith(p: Path, root: Path)
    ensures StartsWith(p, root) <==>
              p.absolute == root.absolute && |root.names| <= |p.names| &&
              forall i :: 0 <= i < |root.names| ==> p.names[i] == root.names[i]
  {
    p.absolute == root.absolute && |root.names| <= |p.names| && p.names[..|root.names|] == root.names
  }

  lemma {:induction false} NormalizeIsPlain(names: seq<string>)
    ensures IsPlain(Normalize(names))
    decreases |names|
  {
    if names != [] {
      var front := Normalize(names[..|names| - 1]);
      NormalizeIsPlain(names[..|names| - 1]);
      assert forall i :: 0 <= i < |front| - 1 ==> front[..|front| - 1][i] == front[i];
    }
  }

  lemma {:induction false} NormalizeOfPlain(names: seq<string>)
    requires IsPlain(names)
    ensures Normalize(names) == names
    decreases |names|
  {
    if |names| > 0 {
      var front := names[..|names| - 1];
      var last := names[|names| - 1];
      assert names == front + [last];
      assert IsPlain(front) by {
        forall i | 0 <= i < |front|
          ensures front[i] != "." && front[i] != ".."
        {
          assert front[i] == names[i];
        }
      }
      NormalizeOfPlain(front);
      assert last != "." && last != "..";
    }
  }

  /** A relative path without ".." cannot climb out of a plain base. */
  lemma {:induction false} NoParentStaysUnder(base: seq<string>, rel: seq<string>)
    requires IsPlain(base)
    requires forall i :: 0 <= i < |rel| ==> rel[i] != ".."
    ensures |base| <= |Normalize(base + rel)| && Normalize(base + rel)[..|base|] == base
    decreases |rel|
  {
    if rel == [] {
      assert base + rel == base;
      NormalizeOfPlain(base);
    } else {
      var front := rel[..|rel| - 1];
      NoParentStaysUnder(base, front);
      assert (base + rel)[..|base + rel| - 1] == base + front;
    }
  }

  // ---------------------------------------------------------------------
  // Uploaded files and their names

  /** The parts of a MultipartFile the services read. */
  datatype UploadedFile = UploadedFile(originalFilename: Option<string>, contentType: Option<string>, content: Bytes)

  /** getFileExtension: the suffix from the last '.', or "" when there is none. */
  function GetFileExtension(filename: Option<string>): (r: string)
    ensures filename.None? ==> r == ""
    ensures filename.Some? && '.' !in filename.value ==> r == ""
    ensures r != "" ==> filename.Some? && |r| <= |filename.value|
    ensures r != "" ==> r[0] == '.' && '.' !in r[1..]
    ensures r != "" ==> filename.value == filename.value[..|filename.value| - |r|] + r
    ensures filename.Some? && '.' in filename.value ==> r != ""
  {
    match filename
    case None => ""
    case Some(name) =>
      if name == "" then ""
      else
        var dot := LastIndexOf(name, '.');
        if dot == -1 then ""
        else
          assert forall k :: 0 <= k < |name| - dot - 1 ==> name[dot..][1..][k] == name[dot + 1 + k];
          name[dot..]
  }

  /** The normalised entries of the comma-separated allow-list. */
  function AllowedSet(allowedTypes: string): set<string>
  {
    set p | p in JavaSplit(allowedTypes, ",") :: ToLower(Trim(p))
  }

  /** The extension in lower case, without its leading dot. */
  function ExtensionWithoutDot(filename: string): string
  {
    var extension := ToLower(GetFileExtension(Some(filename)));
    if |extension| > 0 && extension[0] == '.' then extension[1..] else extension
  }

  /**
    isValidFileType: the MIME type is on the list ignoring case, or else the
    file name's extension is, with or without its dot.
   */
  function IsValidFileType(file: Option<UploadedFile>, allowedTypes: Option<string>): (r: bool)
    ensures file.None? || allowedTypes.None? || allowedTypes == Some("") ==> !r
    ensures r && file.value.originalFilename.None? ==>
      file.value.contentType.Some? && ToLower(file.value.contentType.value) in AllowedSet(allowedTypes.value)
    ensures r <==> (file.Some? && allowedTypes.Some? && allowedTypes.value != "" &&
      (exists i :: 0 <= i < |JavaSplit(allowedTypes.value, ",")| &&
         var entry := ToLower(Trim(JavaSplit(allowedTypes.value, ",")[i]));
         || (file.value.contentType.Some? && entry == ToLower(file.value.contentType.value))
         || (file.value.originalFilename.Some? &&
               (entry == ExtensionWithoutDot(file.value.originalFilename.value) ||
                entry == "." + ExtensionWithoutDot(file.value.originalFilename.value)))))
  {
    if file.None? || allowedTypes.None? || allowedTypes.value == "" then false
    else
      var allowed := AllowedSet(allowedTypes.value);
      var f := file.value;
      if f.contentType.Some? && ToLower(f.contentType.value) in allowed then true
      else if f.originalFilename.None? then false
      else
        var ext := ExtensionWithoutDot(f.originalFilename.value);
        ext in allowed || "." + ext in allowed
  }

  lemma ToLowerIdempotent(s: string)
    ensures ToLower(ToLower(s)) == ToLower(s)
  {
  }

  /** Changing the case of the content type or of the file name changes nothing. */
  lemma FileTypeCheckIgnoresCase(f: UploadedFile, allowedTypes: Option<string>)
    ensures var g := UploadedFile(
              if f.originalFilename.Some? then Some(ToLower(f.originalFilename.value)) else None,
              if f.contentType.Some? then Some(ToLower(f.contentType.value)) else None,
              f.content);
            IsValidFileType(Some(g), allowedTypes) == IsValidFileType(Some(f), allowedTypes)
  {
    if f.contentType.Some? {
      ToLowerIdempotent(f.contentType.value);
    }
    if f.originalFilename.Some? {
      ExtensionOfLower(f.originalFilename.value);
    }
  }

  /** Lower-casing a name lower-cases its extension and nothing more. */
  lemma ExtensionOfLower(name: string)
    ensures ExtensionWithoutDot(ToLower(name)) == ExtensionWithoutDot(name)
  {
    var lower := ToLower(name);
    assert forall k :: 0 <= k < |name| ==> (lower[k] == '.' <==> name[k] == '.');
    var d1 := LastIndexOf(name, '.');
    var d2 := LastIndexOf(lower, '.');
    assert d1 == d2;
    if name != "" && d1 != -1 {
      assert ToLower(lower[d1..]) == ToLower(name[d1..]);
    }
  }

  // ---------------------------------------------------------------------
  // The service

  class FileStorage {
    /** storageLocation: the absolute, normalised storage root. */
    const storageLocation: Path
    /** The files on disk, by normalised absolute names. */
    var files: map<seq<string>, Bytes>

    predicate Valid()
    {
      storageLocation.absolute && IsPlain(storageLocation.names)
    }

    /** init: the base path made absolute against the working directory and normalised. */
    constructor (basePath: string, workingDirectory: Path, existing: map<seq<string>, Bytes>)
      requires workingDirectory.absolute
      ensures Valid()
      ensures storageLocation == Path(true, Normalize(Resolve(workingDirectory, ParsePath(basePath)).names))
      ensures files == existing
    {
      var names := Normalize(Resolve(workingDirectory, ParsePath(basePath)).names);
      NormalizeIsPlain(Resolve(workingDirectory, ParsePath(basePath)).names);
      storageLocation := Path(true, names);
      files := existing;
    }

    /** storageLocation.resolve(filePath).normalize(). */
    function Target(filePath: string): (p: Path)
      requires Valid()
      ensures p.absolute && IsPlain(p.names)
    {
      var resolved := Resolve(storageLocation, ParsePath(filePath));
      NormalizeIsPlain(resolved.names);
      Path(true, Normalize(resolved.names))
    }

    /** The security check of retrieveFile and deleteFile. */
    predicate IsUnderRoot(filePath: string)
      requires Valid()
    {
      StartsWith(Target(filePath), storageLocation)
    }

    /**
      storeFile: writes the bytes as "<tenant>/<random uuid><extension>" and
      returns that relative path; a failed write raises "Failed to store file".
     */
    method StoreFile(file: UploadedFile, tenantId: string, randomUuid: string, writeSucceeds: bool)
      returns (r: Result<string>)
      requires Valid()
      modifies this
      ensures r.Ok? <==> writeSucceeds
      ensures r.Ok? ==> r.value == tenantId + "/" + randomUuid + GetFileExtension(file.originalFilename)
      ensures r.Ok? ==> files == old(files)[Target(r.value).names := file.content]
      ensures r.Err? ==> r.message == "Failed to store file" && files == old(files)
    {
      if !writeSucceeds {
        return Err("Failed to store file");
      }
      var extension := GetFileExtension(file.originalFilename);
      var storedFilename := randomUuid + extension;
      var relativePath := tenantId + "/" + storedFilename;
      files := files[Target(relativePath).names := file.content];
      r := Ok(relativePath);
    }

    /**
      retrieveFile: the bytes at the resolved path, refused when the path
      leaves the root and failing when no file is there.
     */
    function RetrieveFile(filePath: string): (r: Result<Bytes>)
      requires Valid()
      reads this
      ensures r.Ok? <==> IsUnderRoot(filePath) && Target(filePath).names in files
      ensures !IsUnderRoot(filePath) ==> r == Err("Cannot access file outside storage directory")
      ensures IsUnderRoot(filePath) && Target(filePath).names !in files ==> r == Err("File not found: " + filePath)
      ensures r.Ok? ==> r.value == files[Target(filePath).names]
    {
      var target := Target(filePath);
      if !StartsWith(target, storageLocation) then Err("Cannot access file outside storage directory")
      else if target.names !in files then Err("File not found: " + filePath)
      else Ok(files[target.names])
    }

    /**
      deleteFile: removes the file at the resolved path if there is one (a
      missing file is only logged), and refuses a path that leaves the root.
      The result tells whether a file was there.
     */
    method DeleteFile(filePath: string) returns (r: Result<bool>)
      requires Valid()
      modifies this
      ensures !IsUnderRoot(filePath) ==> r == Err("Cannot delete file outside storage directory") && files == old(files)
      ensures IsUnderRoot(filePath) ==> r == Ok(Target(filePath).names in old(files))
      ensures IsUnderRoot(filePath) ==> files == old(files) - {Target(filePath).names}
    {
      var target := Target(filePath);
      if !StartsWith(target, storageLocation) {
        return Err("Cannot delete file outside storage directory");
      }
      r := Ok(target.names in files);
      files := files - {target.names};
    }

    /** A relative path without ".." names always passes the security check. */
    lemma RelativeWithoutParentIsUnderRoot(filePath: string)
      requires Valid()
      requires |filePath| == 0 || filePath[0] != '/'
      requires ".." !in Pieces(filePath, "/")
      ensures IsUnderRoot(filePath)
    {
      var rel := ParsePath(filePath);
      NoParentStaysUnder(storageLocation.names, rel.names);
    }

    /**
      A stored file can be read back through the path storeFile returned,
      as long as that path names no parent directory.
     */
    lemma StoredFileRetrievable(relativePath: string, content: Bytes)
      requires Valid()
      requires |relativePath| == 0 || relativePath[0] != '/'
      requires ".." !in Pieces(relativePath, "/")
      requires Target(relativePath).names in files && files[Target(relativePath).names] == content
      ensures RetrieveFile(relativePath) == Ok(content)
    {
      RelativeWithoutParentIsUnderRoot(relativePath);
    }
  }

  /** "../n" parses as the two names ".." and n. */
  lemma ParseParentThenName(n: string)
    requires n != "" && '/' !in n
    ensures ParsePath("../" + n) == Path(false, ["..", n])
  {
    var rel: seq<string> := ["..", n];
    JoinParentThenName(n);
    assert forall i :: 0 <= i < |rel| ==> '/' !in rel[i];
    PiecesOfJoin(rel, '/');
    FilterKeepsAll(rel, (m: string) => m != "");
  }

  lemma JoinParentThenName(n: string)
    ensures Join(["..", n], "/") == "../" + n
  {
    assert ["..", n][1..] == [n];
  }

  /**
    The check compares names, not characters: "../n" leads from a root
    /a/.../b to its sibling /a/.../n, which lies outside the root even when
    the text of n begins with the text of b ("uploads2" beside "uploads").
   */
  lemma SiblingIsOutside(root: seq<string>, n: string)
    requires |root| >= 1 && IsPlain(root)
    requires n != "" && '/' !in n && n != "." && n != ".." && n != root[|root| - 1]
    ensures var target := Path(true, Normalize(Resolve(Path(true, root), ParsePath("../" + n)).names));
            target.names == root[..|root| - 1] + [n] && !StartsWith(target, Path(true, root))
  {
    ParseParentThenName(n);
    assert Resolve(Path(true, root), ParsePath("../" + n)).names == root + ["..", n];
    NormalizeSibling(root, n);
    var target := root[..|root| - 1] + [n];
    assert target[|root| - 1] == n;
    assert target[..|root|] == target;
  }

  /** Normalising root/../n gives the sibling of the root's last name. */
  lemma NormalizeSibling(root: seq<string>, n: string)
    requires |root| >= 1 && IsPlain(root)
    requires n != "." && n != ".."
    ensures Normalize(root + ["..", n]) == root[..|root| - 1] + [n]
  {
    var all := root + ["..", n];
    var up := root + [".."];
    assert all[..|all| - 1] == up;
    assert up[..|up| - 1] == root;
    NormalizeOfPlain(root);
    assert Normalize(up) == root[..|root| - 1];
  }

  /** With plain tenant and file names, the stored name is the text after the last '/'. */
  lemma StoredNameAfterLastSlash(tenantId: string, randomUuid: string, extension: string)
    requires '/' !in randomUuid && '/' !in extension
    ensures var path := tenantId + "/" + randomUuid + extension;
            path[LastIndexOf(path, '/') + 1..] == randomUuid + extension
  {
    var path := tenantId + "/" + randomUuid + extension;
    assert path[|tenantId|] == '/';
    assert forall k :: |tenantId| < k < |path| ==> path[k] == (randomUuid + extension)[k - |tenantId| - 1];
    assert path[|tenantId| + 1..] == randomUuid + extension;
  }
}
