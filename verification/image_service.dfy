/** `ImageService`: saving an uploaded image under a generated name in a flat
    directory, associating it with its product on a best-effort basis, and
    reading a stored image back.

    The file system is a `Disk` (whether the upload directory exists, and
    the files in it by name); the product table is a `ProductStore.Table`.
    The clock and the two I/O steps that can fail for environmental reasons
    (creating the directory, copying the bytes) are an `Env` parameter. */
module ImageService {
  import opened Common
  import opened Products
  import opened ProductStore

  newtype Byte = x: int | 0 <= x < 256

  /** The upload directory, relative to the working directory. A path
      resolved against it renders as this prefix followed by the name. */
  const UPLOAD_DIR: string := "uploads/images/"

  /** The public prefix under which the retrieval endpoint serves files. */
  const URL_PREFIX: string := "/api/images/"

  datatype Disk = Disk(dirExists: bool, files: map<string, seq<Byte>>)

  /** No file can live in a directory that does not exist. */
  predicate DiskValid(d: Disk) {
    !d.dirExists ==> d.files == map[]
  }

  datatype Store = Store(disk: Disk, table: Table)

  /** The multipart file: the client's filename and its bytes. */
  datatype Upload = Upload(originalFilename: string, content: seq<Byte>)

  /** The clock reading, and the I/O failures (if any) the environment
      inflicts on directory creation and on the copy. */
  datatype Env = Env(millis: Long, mkdirFault: Option<string>, copyFault: Option<string>)

  /** What `saveImage` returns or throws, and the state it leaves behind
      either way. */
  datatype Outcome = Outcome(result: Result<string, JavaException>, store: Store)

  // ---------------------------------------------------------------------------
  // Steps.

  /** `Files.exists` / `Files.createDirectories`: creates the directory only
      when it is absent, so a second call changes nothing. */
  function EnsureDirectory(d: Disk, fault: Option<string>): (r: Result<Disk, JavaException>)
    ensures d.dirExists ==> r == Ok(d)
    ensures !d.dirExists ==> (r.Ok? <==> fault.None?)
    ensures r.Ok? ==> r.value.dirExists && r.value.files == d.files
    ensures r.Err? ==> r.error == IOException(fault.value)
  {
    if d.dirExists then Ok(d)
    else if fault.Some? then Err(IOException(fault.value))
    else Ok(d.(dirExists := true))
  }

  /** `String.lastIndexOf`: the last position of `c`, or -1. */
  function LastIndexOf(s: string, c: char): (r: int)
    ensures -1 <= r < |s|
    ensures r == -1 <==> c !in s
    ensures r >= 0 ==> s[r] == c && c !in s[r + 1..]
  {
    if |s| == 0 then -1
    else if s[|s| - 1] == c then |s| - 1
    else
      assert s == s[..|s| - 1] + [s[|s| - 1]];
      LastIndexOf(s[..|s| - 1], c)
  }

  /** `String.indexOf`: the first position of `c`, or -1. */
  function IndexOf(s: string, c: char): (r: int)
    ensures -1 <= r < |s|
    ensures r == -1 <==> c !in s
    ensures r >= 0 ==> s[r] == c && c !in s[..r]
  {
    if |s| == 0 then -1
    else if s[0] == c then 0
    else
      var k := IndexOf(s[1..], c);
      assert s == [s[0]] + s[1..];
      if k == -1 then -1 else k + 1
  }

  /** `String.substring(begin)`, which throws for a negative begin. */
  function Substring(s: string, begin: int): (r: Result<string, JavaException>)
    ensures r.Ok? <==> 0 <= begin <= |s|
    ensures r.Ok? ==> s == s[..begin] + r.value
    ensures r.Err? ==> r.error == StringIndexOutOfBounds(begin)
  {
    if 0 <= begin <= |s| then Ok(s[begin..]) else Err(StringIndexOutOfBounds(begin))
  }

  /** The extension of a filename: the suffix starting at its last `.`.
      A name without a `.` makes the substring call throw. */
  function Extension(filename: string): (r: Result<string, JavaException>)
    ensures r.Ok? <==> '.' in filename
    ensures r.Err? ==> r.error == StringIndexOutOfBounds(-1)
    ensures r.Ok? ==> IsExtension(r.value)
    ensures r.Ok? ==> |r.value| <= |filename| && filename[|filename| - |r.value|..] == r.value
  {
    var dot := LastIndexOf(filename, '.');
    var r := Substring(filename, dot);
    assert r.Ok? ==> r.value == filename[dot..];
    r
  }

  /** A dot followed by no further dot. */
  predicate IsExtension(ext: string) {
    |ext| >= 1 && ext[0] == '.' && '.' !in ext[1..]
  }

  /** The name an image is stored under. */
  function UniqueName(productId: Long, millis: Long, ext: string): string {
    DecimalString(productId) + "_" + DecimalString(millis) + ext
  }

  /** The stored name derived from the client's filename, or the exception
      that deriving its extension throws. */
  function UniqueFilename(original: string, productId: Long, millis: Long): (r: Result<string, JavaException>)
    ensures r.Ok? <==> '.' in original
    ensures r.Err? ==> r.error == StringIndexOutOfBounds(-1)
    ensures r.Ok? ==> r.value == UniqueName(productId, millis, Extension(original).value)
  {
    match Extension(original)
    case Err(e) => Err(e)
    case Ok(ext) => Ok(UniqueName(productId, millis, ext))
  }

  /** `Files.copy` without `REPLACE_EXISTING`: a name already present raises
      `FileAlreadyExistsException` (an `IOException` carrying the path). */
  function Copy(d: Disk, name: string, content: seq<Byte>, fault: Option<string>): (r: Result<Disk, JavaException>)
    ensures r.Ok? <==> name !in d.files && fault.None?
    ensures name in d.files ==> r == Err(IOException(UPLOAD_DIR + name))
    ensures name !in d.files && fault.Some? ==> r == Err(IOException(fault.value))
    ensures r.Ok? ==> r.value.dirExists == d.dirExists && r.value.files == d.files[name := content]
  {
    if name in d.files then Err(IOException(UPLOAD_DIR + name))
    else if fault.Some? then Err(IOException(fault.value))
    else Ok(d.(files := d.files[name := content]))
  }

  /** The best-effort association: when a product is stored under `key`,
      exactly its three image columns are set; otherwise nothing changes. */
  function Associate(t: Table, key: Int32, url: string, filename: string, path: string): (r: Table)
    ensures !HasKey(t, key) ==> r == t
    ensures KeysUnique(t) ==> KeysUnique(r)
    ensures KeysUnique(t) && HasKey(t, key) ==>
              FindById(r, key) == Some(WithImage(FindById(t, key).value, url, filename, path))
    ensures KeysUnique(t) ==> forall k: Int32 :: k != key ==> FindById(r, k) == FindById(t, k)
  {
    match FindById(t, key)
    case None => t
    case Some(p) =>
      var q := WithImage(p, url, filename, path);
      if KeysUnique(t) then
        SaveThenFind(t, key, q, key);
        SaveKeepsOtherKeys(t, key, q);
        Save(t, key, q)
      else
        Save(t, key, q)
  }

  // ---------------------------------------------------------------------------
  // The two service operations.

  /** The file map gained exactly one file, under a name it did not have. */
  predicate WroteOnce(before: map<string, seq<Byte>>, after: map<string, seq<Byte>>,
                      name: string, content: seq<Byte>) {
    name !in before && after == before[name := content]
  }

  /** The steps after the stored name is known: copy, convert the id,
      associate, return the reference. */
  function WriteAndAssociate(s: Store, name: string, file: Upload, productId: Long,
                             copyFault: Option<string>): (o: Outcome)
    requires s.disk.dirExists
    ensures o.store.disk.dirExists
    ensures o.result.Err? ==> o.store.table == s.table
    ensures name in s.disk.files ==> o == Outcome(Err(IOException(UPLOAD_DIR + name)), s)
    ensures name !in s.disk.files && copyFault.Some? ==> o == Outcome(Err(IOException(copyFault.value)), s)
    ensures o.store.disk.files == s.disk.files
            || WroteOnce(s.disk.files, o.store.disk.files, name, file.content)
    ensures o.result.Err? && o.result.error.ArithmeticOverflow? ==>
              !(INT_MIN <= productId <= INT_MAX) && WroteOnce(s.disk.files, o.store.disk.files, name, file.content)
    ensures name !in s.disk.files && copyFault.None? && !(INT_MIN <= productId <= INT_MAX) ==>
              && o.result == Err(ArithmeticOverflow("integer overflow"))
              && WroteOnce(s.disk.files, o.store.disk.files, name, file.content)
    ensures o.result.Err? ==> o.result.error.IOException? || o.result.error.ArithmeticOverflow?
    ensures o.result.Ok? ==>
              && o.result.value == URL_PREFIX + name
              && WroteOnce(s.disk.files, o.store.disk.files, name, file.content)
              && INT_MIN <= productId <= INT_MAX
              && o.store.table == Associate(s.table, productId, URL_PREFIX + name,
                                            file.originalFilename, UPLOAD_DIR + name)
  {
    match Copy(s.disk, name, file.content, copyFault)
    case Err(e) => Outcome(Err(e), s)
    case Ok(disk2) =>
      match ToIntExact(productId)
      case Err(e) => Outcome(Err(e), s.(disk := disk2))
      case Ok(key) =>
        var reference := URL_PREFIX + name;
        Outcome(Ok(reference),
                Store(disk2, Associate(s.table, key, reference, file.originalFilename, UPLOAD_DIR + name)))
  }

  /** `saveImage`: ensure the directory, derive the stored name, copy the
      bytes, convert the id to an `int`, associate, and return the public
      reference. Each step that throws leaves the effects of the earlier
      steps in place. */
  function SaveImage(s: Store, file: Upload, productId: Long, env: Env): (o: Outcome)
    requires DiskValid(s.disk)
    ensures DiskValid(o.store.disk)
    // Directory creation failed: nothing happened.
    ensures !s.disk.dirExists && env.mkdirFault.Some? ==>
              o == Outcome(Err(IOException(env.mkdirFault.value)), s)
    // No extension: the exception is thrown before any byte is written, and
    // at most the directory was created.
    ensures (s.disk.dirExists || env.mkdirFault.None?) && '.' !in file.originalFilename ==>
              o == Outcome(Err(StringIndexOutOfBounds(-1)), s.(disk := s.disk.(dirExists := true)))
    // Either no file was written, or exactly one, under the unique name, which was free.
    ensures o.store.disk.files == s.disk.files
            || (&& UniqueFilename(file.originalFilename, productId, env.millis).Ok?
                && WroteOnce(s.disk.files, o.store.disk.files,
                             UniqueFilename(file.originalFilename, productId, env.millis).value, file.content))
    // The name was taken: an IOException, and neither files nor products change.
    ensures (s.disk.dirExists || env.mkdirFault.None?)
            && UniqueFilename(file.originalFilename, productId, env.millis).Ok?
            && UniqueFilename(file.originalFilename, productId, env.millis).value in s.disk.files ==>
              o.result == Err(IOException(UPLOAD_DIR + UniqueFilename(file.originalFilename, productId, env.millis).value))
              && o.store.disk.files == s.disk.files && o.store.table == s.table
    // The copy failed on a free name: its IOException, no file written,
    // and at most the directory was created.
    ensures && (s.disk.dirExists || env.mkdirFault.None?)
            && UniqueFilename(file.originalFilename, productId, env.millis).Ok?
            && UniqueFilename(file.originalFilename, productId, env.millis).value !in s.disk.files
            && env.copyFault.Some? ==>
              o == Outcome(Err(IOException(env.copyFault.value)), s.(disk := s.disk.(dirExists := true)))
    // An id outside int range throws only after the write.
    ensures o.result.Err? && o.result.error.ArithmeticOverflow? ==>
              && !(INT_MIN <= productId <= INT_MAX)
              && UniqueFilename(file.originalFilename, productId, env.millis).Ok?
              && WroteOnce(s.disk.files, o.store.disk.files,
                           UniqueFilename(file.originalFilename, productId, env.millis).value, file.content)
    // Conversely, an id outside int range with everything else in order is
    // written and then rejected.
    ensures && (s.disk.dirExists || env.mkdirFault.None?)
            && '.' in file.originalFilename
            && UniqueFilename(file.originalFilename, productId, env.millis).Ok?
            && UniqueFilename(file.originalFilename, productId, env.millis).value !in s.disk.files
            && env.copyFault.None?
            && !(INT_MIN <= productId <= INT_MAX) ==>
              && o.result == Err(ArithmeticOverflow("integer overflow"))
              && WroteOnce(s.disk.files, o.store.disk.files,
                           UniqueFilename(file.originalFilename, productId, env.millis).value, file.content)
    // Only a successful call touches the product table.
    ensures o.result.Err? ==> o.store.table == s.table
    // Success: the reference names the written file, and the product (if any) points at it.
    ensures o.result.Ok? ==>
              && UniqueFilename(file.originalFilename, productId, env.millis).Ok?
              && var name := UniqueFilename(file.originalFilename, productId, env.millis).value;
                 && o.result.value == URL_PREFIX + name
                 && WroteOnce(s.disk.files, o.store.disk.files, name, file.content)
                 && INT_MIN <= productId <= INT_MAX
                 && o.store.table == Associate(s.table, productId, URL_PREFIX + name,
                                               file.originalFilename, UPLOAD_DIR + name)
  {
    match EnsureDirectory(s.disk, env.mkdirFault)
    case Err(e) => Outcome(Err(e), s)
    case Ok(disk1) =>
      match UniqueFilename(file.originalFilename, productId, env.millis)
      case Err(e) => Outcome(Err(e), s.(disk := disk1))
      case Ok(name) => WriteAndAssociate(s.(disk := disk1), name, file, productId, env.copyFault)
  }

  /** The type the `Resource` in `getImage`'s cast resolves to: the file
      imports `jakarta.annotation.Resource`, an annotation interface that
      Spring's `UrlResource` does not implement. */
  const CAST_TARGET: string := "jakarta.annotation.Resource"

  /** `getImage` as written: a stored file passes the exists-and-readable
      test and the cast to `jakarta.annotation.Resource` then throws, so no
      call returns bytes; a missing file throws the `IOException`. */
  function GetImageAsWritten(d: Disk, filename: string): (r: Result<seq<Byte>, JavaException>)
    ensures r.Err?
    ensures r.error == ClassCast(CAST_TARGET) <==> filename in d.files
    ensures filename !in d.files ==> r.error == IOException("Image not found: " + filename)
  {
    if filename in d.files then Err(ClassCast(CAST_TARGET))
    else Err(IOException("Image not found: " + filename))
  }

  /** `getImage` as evidently intended, the cast going to Spring's
      `org.springframework.core.io.Resource`: the stored file of that name,
      or an `IOException`. The rest of the model fetches through this. It
      fails exactly where the as-written fetch fails with an `IOException`. */
  function GetImage(d: Disk, filename: string): (r: Result<seq<Byte>, JavaException>)
    ensures r.Ok? <==> filename in d.files
    ensures r.Ok? ==> r.value == d.files[filename]
    ensures r.Err? ==> r.error == IOException("Image not found: " + filename)
    ensures r.Err? <==> GetImageAsWritten(d, filename).error.IOException?
    ensures r.Err? ==> r == GetImageAsWritten(d, filename)
  {
    if filename in d.files then Ok(d.files[filename])
    else Err(IOException("Image not found: " + filename))
  }

  // ---------------------------------------------------------------------------
  // Properties of the workflow.

  /** The pieces a stored name is made of. */
  datatype NameParts = NameParts(productId: int, millis: int, extension: string)

  /** Splits a stored name at its first `_` and at the first `.` after it. */
  function ParseStoredName(name: string): Option<NameParts> {
    var u := IndexOf(name, '_');
    if u < 0 then None
    else
      var rest := name[u + 1..];
      var d := IndexOf(rest, '.');
      if d < 0 then None
      else PartsOf(name[..u], rest[..d], rest[d..])
  }

  /** The pieces of a stored name once it has been split. */
  function PartsOf(idText: string, millisText: string, ext: string): Option<NameParts> {
    match (ParseDecimal(idText), ParseDecimal(millisText))
    case (Some(id), Some(t)) => Some(NameParts(id, t, ext))
    case _ => None
  }

  /** Splitting `a + [c] + b` at the first `c` gives back `a` and `[c] + b`
      when `a` does not contain `c`. */
  lemma IndexOfAfterPrefix(a: string, c: char, b: string)
    requires c !in a
    ensures var s := a + [c] + b;
            IndexOf(s, c) == |a| && s[..|a|] == a && s[|a|..] == [c] + b && s[|a| + 1..] == b
  {
    var s := a + [c] + b;
    assert s[|a|] == c;
    assert s[..|a|] == a;
    assert s[|a|..] == [c] + b;
  }

  /** A decimal rendering contains neither separator of a stored name. */
  lemma DecimalHasNoSeparator(n: int)
    ensures '_' !in DecimalString(n) && '.' !in DecimalString(n)
  {
    var r := DecimalString(n);
    forall i | 0 <= i < |r| ensures r[i] != '_' && r[i] != '.' {
    }
  }

  /** Where a name assembled from two parts and an extension splits. */
  lemma SplitAssembledName(a: string, b: string, ext: string)
    requires '_' !in a && '.' !in b && |ext| >= 1 && ext[0] == '.'
    ensures ParseStoredName(a + "_" + b + ext) == PartsOf(a, b, ext)
  {
    var name := a + "_" + b + ext;
    var rest := b + ext;
    assert IndexOf(name, '_') == |a| && name[..|a|] == a && name[|a| + 1..] == rest by {
      assert name == a + ['_'] + rest;
      IndexOfAfterPrefix(a, '_', rest);
    }
    assert IndexOf(rest, '.') == |b| && rest[..|b|] == b && rest[|b|..] == ext by {
      assert rest == b + ['.'] + ext[1..];
      IndexOfAfterPrefix(b, '.', ext[1..]);
    }
    ParseSplitName(name, a, rest, b, ext);
  }

  /** `ParseStoredName` reads the pieces off the two separator positions. */
  lemma ParseSplitName(name: string, a: string, rest: string, b: string, ext: string)
    requires IndexOf(name, '_') == |a| && name[..|a|] == a && name[|a| + 1..] == rest
    requires IndexOf(rest, '.') == |b| && rest[..|b|] == b && rest[|b|..] == ext
    ensures ParseStoredName(name) == PartsOf(a, b, ext)
  {
  }

  /** A stored name determines the product id, the clock reading and the
      extension it was built from. */
  lemma ParseUniqueName(productId: Long, millis: Long, ext: string)
    requires |ext| >= 1 && ext[0] == '.'
    ensures ParseStoredName(UniqueName(productId, millis, ext)) == Some(NameParts(productId, millis, ext))
  {
    DecimalHasNoSeparator(productId);
    DecimalHasNoSeparator(millis);
    ParseDecimalString(productId);
    ParseDecimalString(millis);
    SplitAssembledName(DecimalString(productId), DecimalString(millis), ext);
  }

  /** Two stored names coincide only when id, clock reading and extension
      all do; in particular one product's uploads at different
      milliseconds never collide. */
  lemma UniqueNameInjective(id1: Long, t1: Long, ext1: string, id2: Long, t2: Long, ext2: string)
    requires IsExtension(ext1) && IsExtension(ext2)
    requires UniqueName(id1, t1, ext1) == UniqueName(id2, t2, ext2)
    ensures id1 == id2 && t1 == t2 && ext1 == ext2
  {
    ParseUniqueName(id1, t1, ext1);
    ParseUniqueName(id2, t2, ext2);
  }

  /** The conditions under which `saveImage` returns normally: the
      directory exists or can be created, the client's filename has an
      extension, the generated name is free, the copy does not fail, and the
      id fits in an `int`. */
  predicate SaveSucceeds(s: Store, file: Upload, productId: Long, env: Env) {
    && (s.disk.dirExists || env.mkdirFault.None?)
    && '.' in file.originalFilename
    && UniqueFilename(file.originalFilename, productId, env.millis).value !in s.disk.files
    && env.copyFault.None?
    && INT_MIN <= productId <= INT_MAX
  }

  /** `saveImage` returns normally exactly under those conditions; in every
      other case it throws. */
  lemma SaveSucceedsExactly(s: Store, file: Upload, productId: Long, env: Env)
    requires DiskValid(s.disk)
    ensures SaveImage(s, file, productId, env).result.Ok? <==> SaveSucceeds(s, file, productId, env)
  {
    var o := SaveImage(s, file, productId, env);
    if SaveSucceeds(s, file, productId, env) {
      var d1 := EnsureDirectory(s.disk, env.mkdirFault).value;
      var name := UniqueFilename(file.originalFilename, productId, env.millis).value;
      assert Copy(d1, name, file.content, env.copyFault).Ok?;
      assert o == WriteAndAssociate(s.(disk := d1), name, file, productId, env.copyFault);
    }
  }

  /** The reference a successful save returns is
      `"/api/images/" + productId + "_" + millis + extension`, it ends with
      the original file's last extension, and it parses back into exactly
      those pieces. */
  lemma SaveReference(s: Store, file: Upload, productId: Long, env: Env)
    requires DiskValid(s.disk)
    requires SaveSucceeds(s, file, productId, env)
    ensures Extension(file.originalFilename).Ok?
    ensures var ext := Extension(file.originalFilename).value;
            var reference := SaveImage(s, file, productId, env).result.value;
            && reference == URL_PREFIX + UniqueName(productId, env.millis, ext)
            && reference[|reference| - |ext|..] == ext
            && ParseStoredName(reference[|URL_PREFIX|..]) == Some(NameParts(productId, env.millis, ext))
  {
    SaveSucceedsExactly(s, file, productId, env);
    var ext := Extension(file.originalFilename).value;
    var name := UniqueName(productId, env.millis, ext);
    var reference := SaveImage(s, file, productId, env).result.value;
    assert reference == URL_PREFIX + name;
    ReferenceShape(productId, env.millis, ext);
  }

  lemma ReferenceShape(productId: Long, millis: Long, ext: string)
    requires IsExtension(ext)
    ensures var reference := URL_PREFIX + UniqueName(productId, millis, ext);
            && reference[|reference| - |ext|..] == ext
            && ParseStoredName(reference[|URL_PREFIX|..]) == Some(NameParts(productId, millis, ext))
  {
    var name := UniqueName(productId, millis, ext);
    var reference := URL_PREFIX + name;
    assert reference[|URL_PREFIX|..] == name;
    EndsWith(URL_PREFIX + DecimalString(productId) + "_" + DecimalString(millis), ext);
    ParseUniqueName(productId, millis, ext);
  }

  lemma EndsWith(a: string, b: string)
    ensures (a + b)[|a + b| - |b|..] == b
  {
  }

  /** Fetching the name a successful save returned yields exactly the bytes
      that were uploaded; a name that was not stored before and is not the
      new name is still not found. */
  lemma SaveThenGet(s: Store, file: Upload, productId: Long, env: Env, other: string)
    requires DiskValid(s.disk)
    requires SaveSucceeds(s, file, productId, env)
    ensures var o := SaveImage(s, file, productId, env);
            GetImage(o.store.disk, o.result.value[|URL_PREFIX|..]) == Ok(file.content)
    ensures var o := SaveImage(s, file, productId, env);
            other !in s.disk.files && other != o.result.value[|URL_PREFIX|..] ==>
              GetImage(o.store.disk, other) == Err(IOException("Image not found: " + other))
  {
    SaveSucceedsExactly(s, file, productId, env);
    var o := SaveImage(s, file, productId, env);
    var name := UniqueFilename(file.originalFilename, productId, env.millis).value;
    assert o.result.value[|URL_PREFIX|..] == name;
  }

  /** A save never changes or removes a file that was already stored. */
  lemma SaveNeverOverwrites(s: Store, file: Upload, productId: Long, env: Env, n: string)
    requires DiskValid(s.disk)
    requires n in s.disk.files
    ensures var o := SaveImage(s, file, productId, env);
            n in o.store.disk.files && o.store.disk.files[n] == s.disk.files[n]
  {
  }

  /** Association: after a successful save, a product stored under the id
      carries the reference, the original filename and the written path in
      its three image columns, all other columns as before; every other
      product is unchanged; without such a product the table is unchanged. */
  lemma SaveAssociates(s: Store, file: Upload, productId: Long, env: Env)
    requires DiskValid(s.disk) && KeysUnique(s.table)
    requires SaveSucceeds(s, file, productId, env)
    ensures INT_MIN <= productId <= INT_MAX
    ensures var o := SaveImage(s, file, productId, env);
            var reference := o.result.value;
            var name := reference[|URL_PREFIX|..];
            && KeysUnique(o.store.table)
            && (HasKey(s.table, productId) ==>
                  && FindById(o.store.table, productId)
                     == Some(WithImage(FindById(s.table, productId).value, reference,
                                       file.originalFilename, UPLOAD_DIR + name))
                  && ImageColumnsAgree(FindById(o.store.table, productId).value))
            && (!HasKey(s.table, productId) ==> o.store.table == s.table)
            && (forall k: Int32 :: k != productId ==> FindById(o.store.table, k) == FindById(s.table, k))
  {
    SaveSucceedsExactly(s, file, productId, env);
    var o := SaveImage(s, file, productId, env);
    var name := UniqueFilename(file.originalFilename, productId, env.millis).value;
    var reference := URL_PREFIX + name;
    assert o.result.value == reference;
    assert reference[|URL_PREFIX|..] == name;
    assert o.store.table == Associate(s.table, productId, reference, file.originalFilename, UPLOAD_DIR + name);
    if HasKey(s.table, productId) {
      AssociateSetsImage(s.table, productId, reference, file.originalFilename, UPLOAD_DIR + name);
    }
  }

  /** The association fills all three image columns of the stored product. */
  lemma AssociateSetsImage(t: Table, key: Int32, url: string, filename: string, path: string)
    requires KeysUnique(t) && HasKey(t, key)
    ensures ImageColumnsAgree(FindById(Associate(t, key, url, filename, path), key).value)
  {
    var q := WithImage(FindById(t, key).value, url, filename, path);
    assert FindById(Associate(t, key, url, filename, path), key) == Some(q);
    assert Get(q, ImageUrl) == Text(url);
  }

  /** Uploads for one product at different milliseconds get different names. */
  lemma DistinctMillisDistinctNames(n1: string, n2: string, productId: Long, t1: Long, t2: Long)
    requires t1 != t2 && '.' in n1 && '.' in n2
    ensures UniqueFilename(n1, productId, t1).value != UniqueFilename(n2, productId, t2).value
  {
    if UniqueFilename(n1, productId, t1).value == UniqueFilename(n2, productId, t2).value {
      UniqueNameInjective(productId, t1, Extension(n1).value, productId, t2, Extension(n2).value);
    }
  }

  /** Two uploads for one product at different milliseconds: when the
      first succeeds and the second has an extension, a free name and no
      copy fault, the second succeeds too and both files stay on disk with
      their own bytes. */
  lemma TwoUploadsKeepBothFiles(s: Store, f1: Upload, f2: Upload, productId: Long, e1: Env, e2: Env)
    requires DiskValid(s.disk)
    requires e1.millis != e2.millis
    requires SaveSucceeds(s, f1, productId, e1)
    requires e2.copyFault.None? && '.' in f2.originalFilename
    requires UniqueFilename(f2.originalFilename, productId, e2.millis).value !in s.disk.files
    ensures var o1 := SaveImage(s, f1, productId, e1);
            var o2 := SaveImage(o1.store, f2, productId, e2);
            && o2.result.Ok?
            && GetImage(o2.store.disk, o1.result.value[|URL_PREFIX|..]) == Ok(f1.content)
            && GetImage(o2.store.disk, o2.result.value[|URL_PREFIX|..]) == Ok(f2.content)
  {
    SaveSucceedsExactly(s, f1, productId, e1);
    var o1 := SaveImage(s, f1, productId, e1);
    var n1 := UniqueFilename(f1.originalFilename, productId, e1.millis).value;
    var n2 := UniqueFilename(f2.originalFilename, productId, e2.millis).value;
    assert o1.result.value[|URL_PREFIX|..] == n1 && n1 in o1.store.disk.files
           && o1.store.disk.files[n1] == f1.content && DiskValid(o1.store.disk)
           && INT_MIN <= productId <= INT_MAX;
    DistinctMillisDistinctNames(f1.originalFilename, f2.originalFilename, productId, e1.millis, e2.millis);
    SecondUpload(o1.store, f2, productId, e2, n1, f1.content);
  }

  /** After two successful uploads for a stored product, its three image
      columns describe the second: its reference, its original name and the
      path it was stored under. */
  lemma LastUploadWins(s: Store, f1: Upload, f2: Upload, productId: Long, e1: Env, e2: Env)
    requires DiskValid(s.disk) && KeysUnique(s.table) && HasKey(s.table, productId)
    requires e1.millis != e2.millis
    requires SaveSucceeds(s, f1, productId, e1)
    requires e2.copyFault.None? && '.' in f2.originalFilename
    requires UniqueFilename(f2.originalFilename, productId, e2.millis).value !in s.disk.files
    ensures var o2 := SaveImage(SaveImage(s, f1, productId, e1).store, f2, productId, e2);
            && o2.result.Ok?
            && FindById(o2.store.table, productId).value.imageUrl == Some(o2.result.value)
            && FindById(o2.store.table, productId).value.imageFilename == Some(f2.originalFilename)
            && FindById(o2.store.table, productId).value.imagePath
               == Some(UPLOAD_DIR + UniqueFilename(f2.originalFilename, productId, e2.millis).value)
  {
    var o1 := SaveImage(s, f1, productId, e1);
    TwoUploadsKeepBothFiles(s, f1, f2, productId, e1, e2);
    var o2 := SaveImage(o1.store, f2, productId, e2);
    SecondAssociates(s, o1, f1, productId, e1);
    SaveSucceedsExactly(o1.store, f2, productId, e2);
    SaveAssociates(o1.store, f2, productId, e2);
    var name := o2.result.value[|URL_PREFIX|..];
    WithImageColumns(FindById(o1.store.table, productId).value, o2.result.value,
                     f2.originalFilename, UPLOAD_DIR + name);
  }

  /** After a first successful save the product is still stored under
      distinct keys, ready for a second association. */
  lemma SecondAssociates(s: Store, o1: Outcome, f1: Upload, productId: Long, e1: Env)
    requires DiskValid(s.disk) && KeysUnique(s.table) && HasKey(s.table, productId)
    requires SaveSucceeds(s, f1, productId, e1)
    requires o1 == SaveImage(s, f1, productId, e1)
    ensures KeysUnique(o1.store.table) && HasKey(o1.store.table, productId)
  {
    SaveAssociates(s, f1, productId, e1);
    assert FindById(o1.store.table, productId).Some?;
  }

  lemma WithImageColumns(p: Product, url: string, filename: string, path: string)
    ensures WithImage(p, url, filename, path).imageUrl == Some(url)
    ensures WithImage(p, url, filename, path).imageFilename == Some(filename)
    ensures WithImage(p, url, filename, path).imagePath == Some(path)
  {
    var q := WithImage(p, url, filename, path);
    assert Get(q, ImageUrl) == Text(url);
    assert Get(q, ImageFilename) == Text(filename);
    assert Get(q, ImagePath) == Text(path);
  }

  /** A save under a free name succeeds, keeps an earlier file, and
      records its own reference on the product. */
  lemma SecondUpload(s: Store, file: Upload, productId: Long, env: Env, earlier: string, bytes: seq<Byte>)
    requires DiskValid(s.disk) && s.disk.dirExists
    requires '.' in file.originalFilename && env.copyFault.None?
    requires INT_MIN <= productId <= INT_MAX
    requires UniqueFilename(file.originalFilename, productId, env.millis).value !in s.disk.files
    requires earlier in s.disk.files && s.disk.files[earlier] == bytes
    ensures var o := SaveImage(s, file, productId, env);
            && o.result.Ok?
            && GetImage(o.store.disk, earlier) == Ok(bytes)
            && GetImage(o.store.disk, o.result.value[|URL_PREFIX|..]) == Ok(file.content)
  {
    var o := SaveImage(s, file, productId, env);
    var n := UniqueFilename(file.originalFilename, productId, env.millis).value;
    assert o.result.Ok?;
    assert o.result.value[|URL_PREFIX|..] == n;
  }
}
