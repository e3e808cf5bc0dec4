/** `FileHandler` of app/services/file_handler.py: the extension gate, the
    naming scheme of stored uploads and the operations on the upload
    directory. The disk is a map from absolute path to bytes plus a set of
    directories; `secure_filename` and `datetime.now().strftime` are inputs. */
module Uploads {
  import opened Text

  type Byte = bv8

  /** `FileHandler.UPLOAD_DIR`, relative to the working directory. */
  const UploadDir: string := "uploads"

  /** `FileHandler.ALLOWED_EXTENSIONS`. */
  const AllowedExtensions: set<string> := {"png", "jpg", "jpeg", "pdf"}

  /** `allowed_file`: the name has a dot and the lower-cased text after the
      last dot is an allowed extension (`rsplit('.', 1)[1].lower()`). An
      accepted name ends in a dot and three or four more characters. */
  predicate AllowedFile(filename: string): (ok: bool)
    ensures ok ==> var ext := AfterLast(filename, '.');
      3 <= |ext| <= 4 && |ext| < |filename| && filename[|filename| - |ext| - 1] == '.'
  {
    '.' in filename && Lower(AfterLast(filename, '.')) in AllowedExtensions
  }

  /** Position `i` holds a dot, no dot follows it, and what follows is an
      allowed extension in some case. */
  predicate ExtensionDotAt(filename: string, i: int) {
    0 <= i < |filename| && filename[i] == '.' && '.' !in filename[i + 1..]
    && Lower(filename[i + 1..]) in AllowedExtensions
  }

  /** The gate read directly: some dot with no dot after it is followed by an
      allowed extension, in any case. */
  lemma AllowedFileIff(filename: string)
    ensures AllowedFile(filename) <==> exists i :: ExtensionDotAt(filename, i)
  {
    if AllowedFile(filename) {
      var i := AllowedFileDot(filename);
    }
    if exists i :: ExtensionDotAt(filename, i) {
      var i :| ExtensionDotAt(filename, i);
      DotAtAllowed(filename, i);
    }
  }

  lemma AllowedFileDot(filename: string) returns (i: int)
    requires AllowedFile(filename)
    ensures ExtensionDotAt(filename, i)
  {
    var r := AfterLast(filename, '.');
    assert |r| < |filename|;
    i := |filename| - |r| - 1;
    assert filename[i + 1..] == r;
  }

  lemma DotAtAllowed(filename: string, i: int)
    requires ExtensionDotAt(filename, i)
    ensures AllowedFile(filename)
  {
    AfterLastUnique(filename, '.', filename[i + 1..]);
    assert filename[i] in filename;
  }

  /** Only the last extension counts, in any case. */
  lemma AllowedFileLastExtension()
    ensures AllowedFile("a.tar.PNG")
    ensures !AllowedFile("receipt.png.exe")
  {
    AfterLastUnique("a.tar.PNG", '.', "PNG");
    assert Lower("PNG") == "png";
    AfterLastUnique("receipt.png.exe", '.', "exe");
    assert Lower("exe") == "exe";
  }

  /** A bare extension or a trailing dot is refused. */
  lemma AllowedFileNeedsExtension()
    ensures !AllowedFile("png")
    ensures !AllowedFile("a.")
  {
    assert "png"[0] != '.' && "png"[1] != '.' && "png"[2] != '.';
    AfterLastUnique("a.", '.', "");
  }

  /** `f"{user_id}_{timestamp}_{original_filename}"`: the name starts with the
      user id and an underscore and ends with an underscore and the file name. */
  function UniqueName(userId: int, timestamp: string, sanitised: string): (r: string)
    ensures DecimalString(userId) + "_" <= r
    ensures |sanitised| < |r| && r[|r| - |sanitised| - 1..] == "_" + sanitised
  {
    DecimalString(userId) + "_" + timestamp + "_" + sanitised
  }

  /** The text before the first `c`, all of `s` when there is none. */
  function BeforeFirst(s: string, c: char): (r: string)
    ensures r <= s && c !in r
  {
    if s == [] || s[0] == c then [] else [s[0]] + BeforeFirst(s[1..], c)
  }

  lemma {:induction false} BeforeFirstOfJoin(a: string, c: char, b: string)
    requires c !in a
    ensures BeforeFirst(a + [c] + b, c) == a
  {
    if a != [] {
      assert (a + [c] + b)[0] == a[0];
      assert (a + [c] + b)[1..] == a[1..] + [c] + b;
      BeforeFirstOfJoin(a[1..], c, b);
    }
  }

  /** The owner of a stored upload can be read back from its name: the text
      before the first underscore is `str(user_id)`. */
  lemma UniqueNameOwner(userId: int, timestamp: string, sanitised: string)
    ensures var owner := BeforeFirst(UniqueName(userId, timestamp, sanitised), '_');
      owner == DecimalString(userId) && ParseDecimal(owner) == userId
  {
    var d := DecimalString(userId);
    assert UniqueName(userId, timestamp, sanitised) == d + ['_'] + (timestamp + "_" + sanitised);
    BeforeFirstOfJoin(d, '_', timestamp + "_" + sanitised);
    DecimalRoundTrip(userId);
  }

  /** Uploads of different users never share a name, whatever the timestamps
      and file names; only the same user can collide with itself. */
  lemma UniqueNamesSeparateUsers(u1: int, t1: string, s1: string, u2: int, t2: string, s2: string)
    requires UniqueName(u1, t1, s1) == UniqueName(u2, t2, s2)
    ensures u1 == u2
  {
    UniqueNameOwner(u1, t1, s1);
    UniqueNameOwner(u2, t2, s2);
  }

  /** How `save_uploaded_file` ends. */
  datatype SaveResult =
    | Saved(absolutePath: string, uniqueName: string)
    | InvalidFileType     // the ValueError raised for a refused extension
    | UploadDirBlocked    // os.makedirs fails: UPLOAD_DIR exists as a file
    | TargetIsDirectory   // file.save fails: a directory has the target's name

  /** An absolute directory path as `os.getcwd()` gives it: no trailing
      separator except for the root itself. */
  predicate WorkingDirectory(cwd: string) {
    cwd != [] && cwd[0] == '/' && (cwd == "/" || cwd[|cwd| - 1] != '/')
  }

  /** The process's view of the file system. */
  class FileHandler {
    /** The working directory, an absolute path: relative paths are resolved against it. */
    const cwd: string
    /** What `os.path.getsize` reports for a directory, by absolute path. */
    const directorySize: string -> nat
    /** Regular files, by absolute path. */
    var files: map<string, seq<Byte>>
    /** Directories, by absolute path. */
    var dirs: set<string>

    ghost predicate Valid()
      reads this
    {
      WorkingDirectory(cwd) && files.Keys !! dirs
    }

    /** The absolute path the OS uses for `path`: an absolute path as it is, a
        relative one after the working directory and a single separator
        (normalisation of `.` and `..` not modelled). */
    function Resolve(path: string): (r: string)
      ensures WorkingDirectory(cwd) ==> r != [] && r[0] == '/'
    {
      if path != [] && path[0] == '/' then path
      else if cwd == "/" then "/" + path
      else cwd + "/" + path
    }

    constructor (cwd: string, directorySize: string -> nat, files: map<string, seq<Byte>>, dirs: set<string>)
      requires WorkingDirectory(cwd)
      requires files.Keys !! dirs
      ensures Valid()
      ensures this.cwd == cwd && this.directorySize == directorySize
      ensures this.files == files && this.dirs == dirs
    {
      this.cwd := cwd;
      this.directorySize := directorySize;
      this.files := files;
      this.dirs := dirs;
    }

    /** `init_upload_dir`: `os.makedirs(UPLOAD_DIR, exist_ok=True)`, which
        succeeds when the directory is already there and raises when a file
        has its name. */
    method InitUploadDir() returns (ok: bool)
      requires Valid()
      modifies this
      ensures Valid()
      ensures ok <==> Resolve(UploadDir) !in old(files)
      ensures ok ==> Resolve(UploadDir) in dirs
      ensures files == old(files)
      ensures dirs == if ok then old(dirs) + {Resolve(UploadDir)} else old(dirs)
      ensures old(Resolve(UploadDir) in dirs) ==> ok && dirs == old(dirs)
    {
      var dir := Resolve(UploadDir);
      if dir in files {
        ok := false;
      } else {
        dirs := dirs + {dir};
        ok := true;
      }
    }

    /** `save_uploaded_file(file, user_id)`: `sanitised` is
        `secure_filename(file.filename)` and `timestamp` the formatted time.
        The gate reads the raw file name; the stored name uses the sanitised
        one. A second upload under the same name overwrites the first. */
    method SaveUploadedFile(filename: string, content: seq<Byte>, userId: int, sanitised: string, timestamp: string)
      returns (r: SaveResult)
      requires Valid()
      modifies this
      ensures Valid()
      ensures Resolve(UploadDir) in old(files) ==>
        r == UploadDirBlocked && files == old(files) && dirs == old(dirs)
      ensures Resolve(UploadDir) !in old(files) ==> dirs == old(dirs) + {Resolve(UploadDir)}
      ensures Resolve(UploadDir) !in old(files) && !AllowedFile(filename) ==>
        r == InvalidFileType && files == old(files)
      ensures Resolve(UploadDir) !in old(files) && AllowedFile(filename) ==>
        var name := UniqueName(userId, timestamp, sanitised);
        var path := Resolve(UploadDir + "/" + name);
        if path in old(dirs) then r == TargetIsDirectory && files == old(files)
        else r == Saved(path, name) && files == old(files)[path := content]
      ensures r.Saved? ==> r.absolutePath in files && files[r.absolutePath] == content
    {
      var ok := InitUploadDir();
      if !ok {
        return UploadDirBlocked;
      }
      if !AllowedFile(filename) {
        return InvalidFileType;
      }
      var name := UniqueName(userId, timestamp, sanitised);
      var path := Resolve(UploadDir + "/" + name);
      if path in dirs {
        return TargetIsDirectory;
      }
      files := files[path := content];
      r := Saved(path, name);
    }

    /** `delete_file(filepath)`: removes a regular file and reports `True`;
        for a missing path, or a directory (whose `os.remove` raises and is
        caught), reports `False` and changes nothing. */
    method DeleteFile(filepath: string) returns (deleted: bool)
      requires Valid()
      modifies this
      ensures Valid()
      ensures deleted <==> Resolve(filepath) in old(files)
      ensures files == old(files) - {Resolve(filepath)}
      ensures Resolve(filepath) !in files
      ensures dirs == old(dirs)
    {
      var p := Resolve(filepath);
      if p in files {
        files := files - {p};
        deleted := true;
      } else if p in dirs {
        deleted := false;
      } else {
        deleted := false;
      }
    }

    /** `get_file_size(filepath)`: the byte length of a file, 0 for a missing path. */
    method GetFileSize(filepath: string) returns (size: nat)
      ensures Resolve(filepath) in files ==> size == |files[Resolve(filepath)]|
      ensures Resolve(filepath) in dirs && Resolve(filepath) !in files ==> size == directorySize(Resolve(filepath))
      ensures Resolve(filepath) !in files && Resolve(filepath) !in dirs ==> size == 0
    {
      var p := Resolve(filepath);
      if p in files {
        size := |files[p]|;
      } else if p in dirs {
        size := directorySize(p);
      } else {
        size := 0;
      }
    }
  }

  /** Creating the upload directory twice is creating it once. */
  method InitUploadDirTwice(h: FileHandler) returns (first: bool, second: bool)
    requires h.Valid()
    modifies h
    ensures h.Valid() && second == first
    ensures h.files == old(h.files)
    ensures h.dirs == if first then old(h.dirs) + {h.Resolve(UploadDir)} else old(h.dirs)
  {
    first := h.InitUploadDir();
    var filesAfter, dirsAfter := h.files, h.dirs;
    second := h.InitUploadDir();
    assert h.files == filesAfter && h.dirs == dirsAfter;
  }

  /** An upload the gate refuses leaves every file as it was, and a failed
      analysis can always clean up the stored file without raising. */
  method SaveThenDelete(h: FileHandler, filename: string, content: seq<Byte>, userId: int, sanitised: string, timestamp: string)
    returns (r: SaveResult, deleted: bool)
    requires h.Valid()
    modifies h
    ensures h.Valid() && h.files == old(h.files) - (if r.Saved? then {r.absolutePath} else {})
    ensures r.Saved? ==> deleted
  {
    r := h.SaveUploadedFile(filename, content, userId, sanitised, timestamp);
    deleted := false;
    if r.Saved? {
      ghost var saved := h.files;
      deleted := h.DeleteFile(r.absolutePath);
      assert saved - {r.absolutePath} == old(h.files) - {r.absolutePath};
    } else {
      assert h.files == old(h.files) - {};
    }
  }

  /** A resolved path is absolute, so resolving it again changes nothing:
      the path `save_uploaded_file` returns is the one `delete_file` finds. */
  lemma ResolveResolved(h: FileHandler, path: string)
    requires h.Valid()
    ensures h.Resolve(h.Resolve(path)) == h.Resolve(path)
  {
  }

  /** At the root directory a relative path gets a single leading separator. */
  lemma ResolveAtRoot(h: FileHandler)
    requires h.cwd == "/"
    ensures h.Resolve(UploadDir) == "/uploads"
    ensures h.Resolve(UploadDir + "/receipt.png") == "/uploads/receipt.png"
  {
    assert (UploadDir + "/receipt.png")[0] == 'u';
  }
}
