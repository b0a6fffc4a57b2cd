/**
 * The storage service of HashDoc: uploading a document to the "uploads"
 * object bucket and the "files" table, deleting it from both, and listing
 * the table newest first with a signed URL per row.
 *
 * The two stores are modelled as the state of a `Service` object: a map
 * from object key to bytes and a sequence of table rows. Every call into
 * a store can fail; its outcome is a parameter, so that each failure
 * branch can be stated. The content hash is the deployment's fixed,
 * deterministic `hash` function, not interpreted further.
 */
module Services {
  import opened Wrappers
  import opened Strings

  type Bytes = seq<bv8>
  type Digest = string

  /** Validity of each signed URL, in seconds (one year). */
  const SignedUrlTtl: int := 31536000

  /** The URL a listed file carries when its URL could not be signed. */
  const UnsignedUrl: string := "#"

  /** What the bucket answers to a write at a key it already holds. */
  const ObjectExistsMessage: string := "The resource already exists"

  /** A row of the "files" table. */
  datatype FileRow = FileRow(
    id: int,
    filename: string,
    size: nat,
    hash: Option<Digest>,
    isDuplicate: Option<bool>,
    createdAt: int)

  /** A file chosen for upload: its name and its bytes. */
  datatype UploadedFile = UploadedFile(name: string, bytes: Bytes)

  /** What a successful upload returns. */
  datatype Receipt = Receipt(hash: Digest, isDuplicate: bool)

  /** A listed row together with its signed URL. */
  datatype SignedFile = SignedFile(file: FileRow, signedUrl: string)

  /** The answer of one call into a store. */
  datatype CallOutcome = Ok | Err(message: string)

  /** The answer of the table insert; the table stamps the creation time. */
  datatype InsertOutcome = Inserted(createdAt: int) | InsertErr(message: string)

  /** The answers of the calls an upload may make, in the order it makes them. */
  datatype UploadOutcomes = UploadOutcomes(
    read: CallOutcome,
    check: CallOutcome,
    put: CallOutcome,
    insert: InsertOutcome,
    compensate: CallOutcome)

  /** The answers of the two calls a delete may make. */
  datatype DeleteOutcomes = DeleteOutcomes(storage: CallOutcome, table: CallOutcome)

  datatype UploadError =
    | ReadFailed(message: string)
    | HashCheckFailed(message: string)
    | UploadFailed(message: string)
    | DatabaseInsertFailed(message: string)
  {
    /**
     * The message of the error the upload throws: the failing call's own
     * message, after a prefix naming the step that failed.
     */
    function Text(): (t: string)
      ensures EndsWith(t, message)
      ensures this.ReadFailed? ==> t == message
      ensures this.HashCheckFailed? ==> t == "Hash check failed: " + message
      ensures this.UploadFailed? ==> t == "Upload failed: " + message
      ensures this.DatabaseInsertFailed? ==> t == "Database insert failed: " + message
    {
      match this
      case ReadFailed(m) => m
      case HashCheckFailed(m) => "Hash check failed: " + m
      case UploadFailed(m) => "Upload failed: " + m
      case DatabaseInsertFailed(m) => "Database insert failed: " + m
    }
  }

  datatype DeleteError =
    | StorageDeleteFailed(message: string)
    | DatabaseDeleteFailed(message: string)
  {
    /**
     * The message of the error the delete throws: the failing call's own
     * message, after a prefix naming the step that failed.
     */
    function Text(): (t: string)
      ensures EndsWith(t, message)
      ensures this.StorageDeleteFailed? ==> t == "Storage delete failed: " + message
      ensures this.DatabaseDeleteFailed? ==> t == "Database delete failed: " + message
    {
      match this
      case StorageDeleteFailed(m) => "Storage delete failed: " + m
      case DatabaseDeleteFailed(m) => "Database delete failed: " + m
    }
  }

  /** A call the service makes into one of the stores. */
  datatype Call =
    | HashQuery(hash: Digest)
    | ObjectPut(key: string)
    | RowInsert(filename: string)
    | ObjectRemove(key: string)
    | RowDelete(id: int)

  // ---------------------------------------------------------------------
  // Queries on the table
  // ---------------------------------------------------------------------

  /**
   * `select("id").eq("hash", h).limit(limit)`: the ids of at most `limit`
   * rows whose hash is h. Rows without a hash never match.
   */
  function SelectIdsByHash(files: seq<FileRow>, h: Digest, limit: nat): (ids: seq<int>)
    ensures |ids| <= limit
    ensures forall x :: x in ids ==> exists i :: 0 <= i < |files| && files[i].id == x && files[i].hash == Some(h)
    ensures 0 < limit ==> (|ids| > 0 <==> exists i :: 0 <= i < |files| && files[i].hash == Some(h))
  {
    if files == [] || limit == 0 then []
    else if files[0].hash == Some(h) then
      var rest := SelectIdsByHash(files[1..], h, limit - 1);
      assert forall x :: x in rest ==> exists i :: 1 <= i < |files| && files[i].id == x && files[i].hash == Some(h) by {
        forall x | x in rest
          ensures exists i :: 1 <= i < |files| && files[i].id == x && files[i].hash == Some(h)
        {
          var j :| 0 <= j < |files[1..]| && files[1..][j].id == x && files[1..][j].hash == Some(h);
          assert files[j + 1] == files[1..][j];
        }
      }
      [files[0].id] + rest
    else
      var rest := SelectIdsByHash(files[1..], h, limit);
      assert (exists i :: 0 <= i < |files| && files[i].hash == Some(h)) <==>
             (exists i :: 0 <= i < |files[1..]| && files[1..][i].hash == Some(h)) by {
        if exists i :: 0 <= i < |files| && files[i].hash == Some(h) {
          var i :| 0 <= i < |files| && files[i].hash == Some(h);
          assert files[1..][i - 1] == files[i];
        }
      }
      forall x | x in rest
        ensures exists i :: 0 <= i < |files| && files[i].id == x && files[i].hash == Some(h)
      {
        var j :| 0 <= j < |files[1..]| && files[1..][j].id == x && files[1..][j].hash == Some(h);
        assert files[j + 1] == files[1..][j];
      }
      rest
  }

  /** `!!existingFiles?.length` for the existence query on h. */
  function DuplicateFlag(files: seq<FileRow>, h: Digest): (dup: bool)
    ensures dup <==> exists i :: 0 <= i < |files| && files[i].hash == Some(h)
  {
    |SelectIdsByHash(files, h, 1)| > 0
  }

  /** `delete().eq("id", id)`: the table without the rows whose id is id. */
  function WithoutId(files: seq<FileRow>, id: int): (rest: seq<FileRow>)
    ensures forall f :: f in rest <==> f in files && f.id != id
    ensures |rest| <= |files|
  {
    if files == [] then []
    else if files[0].id == id then WithoutId(files[1..], id)
    else [files[0]] + WithoutId(files[1..], id)
  }

  ghost predicate UniqueIds(files: seq<FileRow>) {
    forall i, j :: 0 <= i < j < |files| ==> files[i].id != files[j].id
  }

  ghost predicate UniqueNames(files: seq<FileRow>) {
    forall i, j :: 0 <= i < j < |files| ==> files[i].filename != files[j].filename
  }

  /** Ids stay distinct and bounded when a row with the next id is added. */
  lemma AppendKeepsIdsBelow(files: seq<FileRow>, row: FileRow, next: int)
    requires UniqueIds(files) && forall i :: 0 <= i < |files| ==> files[i].id < row.id
    requires next == row.id + 1
    ensures UniqueIds(files + [row])
    ensures forall i :: 0 <= i < |files + [row]| ==> (files + [row])[i].id < next
  {
  }

  /** Deleting rows keeps row ids distinct. */
  lemma {:induction false} WithoutIdKeepsUniqueIds(files: seq<FileRow>, id: int)
    requires UniqueIds(files)
    ensures UniqueIds(WithoutId(files, id))
  {
    if files != [] {
      var tail := files[1..];
      WithoutIdKeepsUniqueIds(tail, id);
      if files[0].id != id {
        var rest := WithoutId(tail, id);
        forall j | 0 <= j < |rest| ensures files[0].id != rest[j].id {
          assert rest[j] in tail;
          var k :| 0 <= k < |tail| && tail[k] == rest[j];
          assert files[k + 1] == tail[k];
        }
      }
    }
  }

  /** Deleting rows keeps file names distinct. */
  lemma {:induction false} WithoutIdKeepsUniqueNames(files: seq<FileRow>, id: int)
    requires UniqueNames(files)
    ensures UniqueNames(WithoutId(files, id))
  {
    if files != [] {
      var tail := files[1..];
      WithoutIdKeepsUniqueNames(tail, id);
      if files[0].id != id {
        var rest := WithoutId(tail, id);
        forall j | 0 <= j < |rest| ensures files[0].filename != rest[j].filename {
          assert rest[j] in tail;
          var k :| 0 <= k < |tail| && tail[k] == rest[j];
          assert files[k + 1] == tail[k];
        }
      }
    }
  }

  // ---------------------------------------------------------------------
  // Agreement of the two stores
  // ---------------------------------------------------------------------

  /** Every row's file name has an object in the bucket. */
  ghost predicate RowsBacked(uploads: map<string, Bytes>, files: seq<FileRow>) {
    forall i :: 0 <= i < |files| ==> files[i].filename in uploads
  }

  /** Every object in the bucket is named by some row. */
  ghost predicate ObjectsReferenced(uploads: map<string, Bytes>, files: seq<FileRow>) {
    forall k :: k in uploads ==> exists i :: 0 <= i < |files| && files[i].filename == k
  }

  /**
   * A document exists exactly when both its object and its row exist: no
   * orphan object, no orphan row, and one row per object.
   */
  ghost predicate StoresAgree(uploads: map<string, Bytes>, files: seq<FileRow>) {
    RowsBacked(uploads, files) && ObjectsReferenced(uploads, files) && UniqueNames(files)
  }

  /** The table has a row with this id and this file name. */
  ghost predicate HasRow(files: seq<FileRow>, id: int, filename: string) {
    exists i :: 0 <= i < |files| && files[i].id == id && files[i].filename == filename
  }

  // ---------------------------------------------------------------------
  // Listing
  // ---------------------------------------------------------------------

  ghost predicate NewestFirst(files: seq<FileRow>) {
    forall i, j :: 0 <= i < j < |files| ==> files[i].createdAt >= files[j].createdAt
  }

  /** Places f into a newest-first sequence. */
  function InsertNewestFirst(f: FileRow, sorted: seq<FileRow>): (r: seq<FileRow>)
    requires NewestFirst(sorted)
    ensures NewestFirst(r)
    ensures multiset(r) == multiset(sorted) + multiset{f}
    ensures |r| == |sorted| + 1
    ensures r[0] == f || (sorted != [] && r[0] == sorted[0])
  {
    if sorted == [] || f.createdAt >= sorted[0].createdAt then
      [f] + sorted
    else
      var rest := InsertNewestFirst(f, sorted[1..]);
      assert sorted == [sorted[0]] + sorted[1..];
      [sorted[0]] + rest
  }

  /** `order("created_at", { ascending: false })` */
  function OrderNewestFirst(files: seq<FileRow>): (r: seq<FileRow>)
    ensures NewestFirst(r)
    ensures multiset(r) == multiset(files)
    ensures |r| == |files|
  {
    if files == [] then []
    else
      assert files == [files[0]] + files[1..];
      InsertNewestFirst(files[0], OrderNewestFirst(files[1..]))
  }

  /**
   * The URL of a listed file: the signed one, or "#" when signing failed; it
   * is empty only when the signer itself returned an empty URL.
   */
  function UrlOrFallback(signed: Option<string>): (url: string)
    ensures signed.Some? ==> url == signed.value
    ensures signed.None? ==> url == UnsignedUrl
    ensures url == "" ==> signed == Some("")
  {
    match signed
    case Some(url) => url
    case None => UnsignedUrl
  }

  /**
   * `{ ...file, signedUrl }` for each row, signing each file name for one
   * year; a failed signing affects only its own row.
   */
  function AttachSignedUrls(files: seq<FileRow>, sign: (string, int) -> Option<string>): (r: seq<SignedFile>)
    ensures |r| == |files|
    ensures forall i :: 0 <= i < |files| ==>
      r[i].file == files[i] && r[i].signedUrl == UrlOrFallback(sign(files[i].filename, SignedUrlTtl))
  {
    if files == [] then []
    else
      [SignedFile(files[0], UrlOrFallback(sign(files[0].filename, SignedUrlTtl)))] +
      AttachSignedUrls(files[1..], sign)
  }

  function RowsOf(listed: seq<SignedFile>): (files: seq<FileRow>)
    ensures |files| == |listed|
    ensures forall i :: 0 <= i < |listed| ==> files[i] == listed[i].file
  {
    seq(|listed|, i requires 0 <= i < |listed| => listed[i].file)
  }

  /**
   * fetchFiles: list every row newest first, each with its signed URL. Only
   * a failure of the listing query itself is an error.
   */
  function FetchFiles(files: seq<FileRow>, list: CallOutcome, sign: (string, int) -> Option<string>)
    : (r: Result<seq<SignedFile>, string>)
    ensures r.Failure? <==> list.Err?
    ensures list.Err? ==> r.error == "Failed to fetch files: " + list.message
    ensures r.Success? ==> |r.value| == |files|
    ensures r.Success? ==> multiset(RowsOf(r.value)) == multiset(files)
    ensures r.Success? ==> NewestFirst(RowsOf(r.value))
    ensures r.Success? ==> forall i :: 0 <= i < |r.value| ==>
      r.value[i].signedUrl == UrlOrFallback(sign(r.value[i].file.filename, SignedUrlTtl))
  {
    match list
    case Err(message) => Failure("Failed to fetch files: " + message)
    case Ok =>
      var sorted := OrderNewestFirst(files);
      var listed := AttachSignedUrls(sorted, sign);
      assert RowsOf(listed) == sorted;
      Success(listed)
  }

  // ---------------------------------------------------------------------
  // Uploading and deleting
  // ---------------------------------------------------------------------

  /**
   * The object write of an upload goes through: hashing and the existence
   * query succeed, nothing is stored under the name yet, and the bucket
   * accepts the write.
   */
  predicate ObjectWritten(o: UploadOutcomes, name: string, uploads: map<string, Bytes>) {
    o.read.Ok? && o.check.Ok? && name !in uploads && o.put.Ok?
  }

  /** The "uploads" bucket and the "files" table, as the service sees them. */
  class Service {
    /** The deployment's content hash (SHA-256 of the bytes). */
    const hash: Bytes -> Digest
    /** The "uploads" bucket: object key to bytes. */
    var uploads: map<string, Bytes>
    /** The "files" table, in insertion order. */
    var files: seq<FileRow>
    /** The next id the table's identity column hands out. */
    var nextId: int
    /** The calls made into the stores so far, oldest first. */
    ghost var calls: seq<Call>

    /** Row ids are distinct and below the next id to be handed out. */
    ghost predicate Valid()
      reads this`files, this`nextId
    {
      UniqueIds(files) && forall i :: 0 <= i < |files| ==> files[i].id < nextId
    }

    constructor (hash: Bytes -> Digest)
      ensures Valid()
      ensures this.hash == hash && uploads == map[] && files == [] && calls == []
    {
      this.hash := hash;
      uploads := map[];
      files := [];
      nextId := 1;
      calls := [];
    }

    /**
     * uploadFile: hash the bytes, ask whether a row already has that hash,
     * write the object without overwriting, insert the row, and remove the
     * object again when the insert fails.
     */
    method UploadFile(file: UploadedFile, o: UploadOutcomes) returns (r: Result<Receipt, UploadError>)
      requires Valid()
      modifies this
      ensures Valid()
      // what the call returns
      ensures o.read.Err? ==> r == Failure(ReadFailed(o.read.message))
      ensures o.read.Ok? && o.check.Err? ==> r == Failure(HashCheckFailed(o.check.message))
      ensures o.read.Ok? && o.check.Ok? && file.name in old(uploads) ==>
        r == Failure(UploadFailed(ObjectExistsMessage))
      ensures o.read.Ok? && o.check.Ok? && file.name !in old(uploads) && o.put.Err? ==>
        r == Failure(UploadFailed(o.put.message))
      ensures ObjectWritten(o, file.name, old(uploads)) && o.insert.InsertErr? ==>
        r == Failure(DatabaseInsertFailed(o.insert.message))
      ensures ObjectWritten(o, file.name, old(uploads)) && o.insert.Inserted? ==>
        r == Success(Receipt(hash(file.bytes), DuplicateFlag(old(files), hash(file.bytes))))
      // the stores afterwards
      ensures !ObjectWritten(o, file.name, old(uploads)) ==>
        uploads == old(uploads) && files == old(files) && nextId == old(nextId)
      ensures ObjectWritten(o, file.name, old(uploads)) && o.insert.Inserted? ==>
        && uploads == old(uploads)[file.name := file.bytes]
        && files == old(files) + [FileRow(old(nextId), file.name, |file.bytes|, Some(hash(file.bytes)),
                                          Some(DuplicateFlag(old(files), hash(file.bytes))), o.insert.createdAt)]
        && nextId == old(nextId) + 1
      ensures ObjectWritten(o, file.name, old(uploads)) && o.insert.InsertErr? ==>
        && files == old(files) && nextId == old(nextId)
        && uploads == if o.compensate.Ok? then old(uploads) else old(uploads)[file.name := file.bytes]
      // the calls made, in order
      ensures o.read.Err? ==> calls == old(calls)
      ensures o.read.Ok? && o.check.Err? ==> calls == old(calls) + [HashQuery(hash(file.bytes))]
      ensures o.read.Ok? && o.check.Ok? && !ObjectWritten(o, file.name, old(uploads)) ==>
        calls == old(calls) + [HashQuery(hash(file.bytes)), ObjectPut(file.name)]
      ensures ObjectWritten(o, file.name, old(uploads)) && o.insert.Inserted? ==>
        calls == old(calls) + [HashQuery(hash(file.bytes)), ObjectPut(file.name), RowInsert(file.name)]
      ensures ObjectWritten(o, file.name, old(uploads)) && o.insert.InsertErr? ==>
        calls == old(calls) + [HashQuery(hash(file.bytes)), ObjectPut(file.name), RowInsert(file.name),
                               ObjectRemove(file.name)]
      // agreement of the stores: kept, except for the object a failed compensation leaves behind
      ensures old(StoresAgree(uploads, files)) &&
              !(ObjectWritten(o, file.name, old(uploads)) && o.insert.InsertErr? && o.compensate.Err?) ==>
        StoresAgree(uploads, files)
      ensures old(RowsBacked(uploads, files)) ==> RowsBacked(uploads, files)
      ensures old(RowsBacked(uploads, files)) &&
              ObjectWritten(o, file.name, old(uploads)) && o.insert.InsertErr? && o.compensate.Err? ==>
        file.name in uploads && forall i :: 0 <= i < |files| ==> files[i].filename != file.name
    {
      var written := HashAndWrite(file, o);
      if written.Failure? {
        return Failure(written.error);
      }
      ghost var sent := old(calls) + [HashQuery(hash(file.bytes)), ObjectPut(file.name)];
      r := InsertOrCompensate(file, hash(file.bytes), written.value, o.insert, o.compensate);
      if o.insert.Inserted? {
        assert calls == sent + [RowInsert(file.name)];
        ghost var row := FileRow(old(nextId), file.name, |file.bytes|, Some(hash(file.bytes)),
                                 Some(written.value), o.insert.createdAt);
        if StoresAgree(old(uploads), old(files)) {
          UploadKeepsAgreement(old(uploads), old(files), row, file.bytes);
        }
        if RowsBacked(old(uploads), old(files)) {
          UploadKeepsBacked(old(uploads), old(files), row, file.bytes);
        }
      } else {
        assert calls == sent + [RowInsert(file.name), ObjectRemove(file.name)];
        if o.compensate.Ok? {
          assert uploads == old(uploads);
        } else if RowsBacked(old(uploads), old(files)) {
          OrphanObject(old(uploads), old(files), file.name, file.bytes);
        }
      }
    }

    /**
     * The first steps of an upload: hash the bytes, ask whether a row
     * already has that hash, and write the object without overwriting.
     * Returns the duplicate flag, or the error that ends the upload.
     */
    method HashAndWrite(file: UploadedFile, o: UploadOutcomes) returns (r: Result<bool, UploadError>)
      modifies this`uploads, this`calls
      ensures r.Success? <==> ObjectWritten(o, file.name, old(uploads))
      ensures r.Success? ==> r.value == DuplicateFlag(files, hash(file.bytes))
      ensures r.Success? ==> uploads == old(uploads)[file.name := file.bytes]
      ensures r.Failure? ==> uploads == old(uploads)
      ensures o.read.Err? ==> r == Failure(ReadFailed(o.read.message)) && calls == old(calls)
      ensures o.read.Ok? && o.check.Err? ==>
        r == Failure(HashCheckFailed(o.check.message)) && calls == old(calls) + [HashQuery(hash(file.bytes))]
      ensures o.read.Ok? && o.check.Ok? ==>
        calls == old(calls) + [HashQuery(hash(file.bytes)), ObjectPut(file.name)]
      ensures o.read.Ok? && o.check.Ok? && file.name in old(uploads) ==>
        r == Failure(UploadFailed(ObjectExistsMessage))
      ensures o.read.Ok? && o.check.Ok? && file.name !in old(uploads) && o.put.Err? ==>
        r == Failure(UploadFailed(o.put.message))
    {
      // 1. hash the content
      if o.read.Err? {
        return Failure(ReadFailed(o.read.message));
      }
      var h := hash(file.bytes);

      // 2. is there already a row with this hash?
      calls := calls + [HashQuery(h)];
      if o.check.Err? {
        return Failure(HashCheckFailed(o.check.message));
      }
      var existing := SelectIdsByHash(files, h, 1);
      var isDuplicate := |existing| > 0;

      // 3. write the object, never overwriting
      calls := calls + [ObjectPut(file.name)];
      if file.name in uploads {
        return Failure(UploadFailed(ObjectExistsMessage));
      }
      if o.put.Err? {
        return Failure(UploadFailed(o.put.message));
      }
      uploads := uploads[file.name := file.bytes];
      r := Success(isDuplicate);
    }

    /**
     * The last steps of an upload, after the object is written: insert the
     * row, or, when the insert fails, issue a removal of the object and
     * throw the insert's error whatever the removal answers.
     */
    method InsertOrCompensate(file: UploadedFile, h: Digest, isDuplicate: bool,
                              insert: InsertOutcome, compensate: CallOutcome)
      returns (r: Result<Receipt, UploadError>)
      requires Valid()
      modifies this
      ensures Valid()
      ensures insert.Inserted? ==>
        && r == Success(Receipt(h, isDuplicate))
        && uploads == old(uploads)
        && files == old(files) + [FileRow(old(nextId), file.name, |file.bytes|, Some(h), Some(isDuplicate), insert.createdAt)]
        && nextId == old(nextId) + 1
        && calls == old(calls) + [RowInsert(file.name)]
      ensures insert.InsertErr? ==>
        && r == Failure(DatabaseInsertFailed(insert.message))
        && files == old(files) && nextId == old(nextId)
        && uploads == (if compensate.Ok? then old(uploads) - {file.name} else old(uploads))
        && calls == old(calls) + [RowInsert(file.name), ObjectRemove(file.name)]
    {
      calls := calls + [RowInsert(file.name)];
      match insert
      case InsertErr(message) =>
        calls := calls + [ObjectRemove(file.name)];
        if compensate.Ok? {
          uploads := uploads - {file.name};
        }
        r := Failure(DatabaseInsertFailed(message));
      case Inserted(createdAt) =>
        ghost var old_files := files;
        var row := FileRow(nextId, file.name, |file.bytes|, Some(h), Some(isDuplicate), createdAt);
        files := files + [row];
        nextId := nextId + 1;
        AppendKeepsIdsBelow(old_files, row, nextId);
        r := Success(Receipt(h, isDuplicate));
    }

    /**
     * deleteFile: remove the object first and the row second; when the
     * object cannot be removed, the row is left alone.
     */
    method DeleteFile(fileId: int, filename: string, o: DeleteOutcomes) returns (r: Outcome<DeleteError>)
      requires Valid()
      modifies this`uploads, this`files, this`calls
      ensures Valid()
      // object removal failed: nothing changed
      ensures o.storage.Err? ==>
        && r == Fail(StorageDeleteFailed(o.storage.message))
        && uploads == old(uploads) && files == old(files)
        && calls == old(calls) + [ObjectRemove(filename)]
      // the object is gone before the table is touched
      ensures o.storage.Ok? ==>
        && uploads == old(uploads) - {filename}
        && calls == old(calls) + [ObjectRemove(filename), RowDelete(fileId)]
      ensures o.storage.Ok? && o.table.Err? ==>
        r == Fail(DatabaseDeleteFailed(o.table.message)) && files == old(files)
      ensures o.storage.Ok? && o.table.Ok? ==>
        r == Pass && files == WithoutId(old(files), fileId)
      // a failed row delete after the removal leaves the document's row without its object
      ensures o.storage.Ok? && o.table.Err? && old(HasRow(files, fileId, filename)) ==>
        !RowsBacked(uploads, files)
      // deleting a document by its own row keeps the stores in agreement
      ensures old(StoresAgree(uploads, files)) && r.Pass? &&
              old(HasRow(files, fileId, filename)) ==>
        StoresAgree(uploads, files)
    {
      r := RemoveObject(filename, o.storage);
      if r.Fail? {
        return;
      }
      ghost var sent := calls;
      r := DeleteRow(fileId, o.table);
      assert calls == sent + [RowDelete(fileId)] == old(calls) + [ObjectRemove(filename), RowDelete(fileId)];
      if r.Pass? && StoresAgree(old(uploads), old(files)) && HasRow(old(files), fileId, filename) {
        DeleteKeepsAgreement(old(uploads), old(files), fileId, filename);
      } else if r.Fail? && HasRow(old(files), fileId, filename) {
        OrphanRow(old(uploads), old(files), fileId, filename);
      }
    }

    /** The first step of a delete: `remove([filename])` on the bucket. */
    method RemoveObject(filename: string, storage: CallOutcome) returns (r: Outcome<DeleteError>)
      modifies this`uploads, this`calls
      ensures calls == old(calls) + [ObjectRemove(filename)]
      ensures storage.Err? ==> r == Fail(StorageDeleteFailed(storage.message)) && uploads == old(uploads)
      ensures storage.Ok? ==> r == Pass && uploads == old(uploads) - {filename}
    {
      calls := calls + [ObjectRemove(filename)];
      if storage.Err? {
        return Fail(StorageDeleteFailed(storage.message));
      }
      uploads := uploads - {filename};
      r := Pass;
    }

    /** The second step of a delete: `delete().eq("id", fileId)` on the table. */
    method DeleteRow(fileId: int, table: CallOutcome) returns (r: Outcome<DeleteError>)
      requires Valid()
      modifies this`files, this`calls
      ensures Valid()
      ensures calls == old(calls) + [RowDelete(fileId)]
      ensures table.Err? ==> r == Fail(DatabaseDeleteFailed(table.message)) && files == old(files)
      ensures table.Ok? ==> r == Pass && files == WithoutId(old(files), fileId)
    {
      calls := calls + [RowDelete(fileId)];
      if table.Err? {
        return Fail(DatabaseDeleteFailed(table.message));
      }
      files := WithoutId(files, fileId);
      WithoutIdKeepsUniqueIds(old(files), fileId);
      forall i | 0 <= i < |files| ensures files[i].id < nextId {
        assert files[i] in old(files);
      }
      r := Pass;
    }
  }

  /**
   * Removing a document's object and its row (found by its unique id)
   * leaves the stores in agreement.
   */
  lemma DeleteKeepsAgreement(uploads: map<string, Bytes>, files: seq<FileRow>, id: int, filename: string)
    requires StoresAgree(uploads, files) && UniqueIds(files)
    requires HasRow(files, id, filename)
    ensures StoresAgree(uploads - {filename}, WithoutId(files, id))
  {
    var i :| 0 <= i < |files| && files[i].id == id && files[i].filename == filename;
    WithoutIdKeepsUniqueNames(files, id);
    DeleteKeepsBacked(uploads, files, i);
    DeleteKeepsReferenced(uploads, files, i);
  }

  lemma DeleteKeepsBacked(uploads: map<string, Bytes>, files: seq<FileRow>, i: nat)
    requires RowsBacked(uploads, files) && UniqueNames(files)
    requires i < |files|
    ensures RowsBacked(uploads - {files[i].filename}, WithoutId(files, files[i].id))
  {
    var rest := WithoutId(files, files[i].id);
    forall j | 0 <= j < |rest| ensures rest[j].filename != files[i].filename {
      assert rest[j] in files;
      var k :| 0 <= k < |files| && files[k] == rest[j];
      assert k != i;
    }
  }

  lemma DeleteKeepsReferenced(uploads: map<string, Bytes>, files: seq<FileRow>, i: nat)
    requires ObjectsReferenced(uploads, files) && UniqueIds(files)
    requires i < |files|
    ensures ObjectsReferenced(uploads - {files[i].filename}, WithoutId(files, files[i].id))
  {
    forall key | key in uploads - {files[i].filename}
      ensures exists j :: 0 <= j < |WithoutId(files, files[i].id)| && WithoutId(files, files[i].id)[j].filename == key
    {
      var k :| 0 <= k < |files| && files[k].filename == key;
      assert files[k].id != files[i].id by {
        assert k != i;
        if k < i { assert files[k].id != files[i].id; } else { assert files[i].id != files[k].id; }
      }
      KeptRowListed(files, files[i].id, k);
    }
  }

  /** A row whose id differs from the deleted one is still in the table. */
  lemma KeptRowListed(files: seq<FileRow>, id: int, k: nat)
    requires k < |files| && files[k].id != id
    ensures exists j :: 0 <= j < |WithoutId(files, id)| && WithoutId(files, id)[j].filename == files[k].filename
  {
    var rest := WithoutId(files, id);
    assert files[k] in rest;
    var j :| 0 <= j < |rest| && rest[j] == files[k];
  }

  /** A new document whose name was free keeps the stores in agreement. */
  lemma UploadKeepsAgreement(uploads: map<string, Bytes>, files: seq<FileRow>, row: FileRow, bytes: Bytes)
    requires StoresAgree(uploads, files)
    requires row.filename !in uploads
    ensures StoresAgree(uploads[row.filename := bytes], files + [row])
  {
    var files', uploads' := files + [row], uploads[row.filename := bytes];
    forall key | key in uploads'
      ensures exists j :: 0 <= j < |files'| && files'[j].filename == key
    {
      if key == row.filename {
        assert files'[|files|].filename == key;
      } else {
        var k :| 0 <= k < |files| && files[k].filename == key;
        assert files'[k] == files[k];
      }
    }
  }

  /** Adding an object and a row naming it keeps every row backed. */
  lemma UploadKeepsBacked(uploads: map<string, Bytes>, files: seq<FileRow>, row: FileRow, bytes: Bytes)
    requires RowsBacked(uploads, files)
    ensures RowsBacked(uploads[row.filename := bytes], files + [row])
  {
  }

  /**
   * An object written under a fresh name and left without a row: rows stay
   * backed, and no row names the new object.
   */
  lemma OrphanObject(uploads: map<string, Bytes>, files: seq<FileRow>, name: string, bytes: Bytes)
    requires RowsBacked(uploads, files) && name !in uploads
    ensures RowsBacked(uploads[name := bytes], files)
    ensures forall i :: 0 <= i < |files| ==> files[i].filename != name
  {
  }

  /**
   * An object removed while its row stays (the row delete failed): that row
   * is no longer backed.
   */
  lemma OrphanRow(uploads: map<string, Bytes>, files: seq<FileRow>, id: int, filename: string)
    requires HasRow(files, id, filename)
    ensures !RowsBacked(uploads - {filename}, files)
  {
    var i :| 0 <= i < |files| && files[i].id == id && files[i].filename == filename;
    assert files[i].filename !in uploads - {filename};
  }

  /** Once a row with hash h is in the table, every later upload of h is a duplicate. */
  lemma InsertedHashIsDuplicate(files: seq<FileRow>, row: FileRow, h: Digest)
    requires row.hash == Some(h)
    ensures DuplicateFlag(files + [row], h)
  {
    assert (files + [row])[|files|] == row;
  }

  /** After a row is deleted, listing the table no longer shows its id. */
  lemma ListingAfterDeleteOmitsId(files: seq<FileRow>, id: int, sign: (string, int) -> Option<string>)
    ensures FetchFiles(WithoutId(files, id), Ok, sign).Success?
    ensures forall e :: e in FetchFiles(WithoutId(files, id), Ok, sign).value ==> e.file.id != id
  {
    var rest := WithoutId(files, id);
    var listed := FetchFiles(rest, Ok, sign).value;
    forall e | e in listed ensures e.file.id != id {
      var i :| 0 <= i < |listed| && listed[i] == e;
      assert RowsOf(listed)[i] == e.file;
      assert e.file in multiset(RowsOf(listed));
      assert e.file in multiset(rest);
    }
  }

  /**
   * Uploading the same bytes under two new names: the first upload is not a
   * duplicate, the second one is.
   */
  method UploadSameContentTwice(svc: Service, first: UploadedFile, second: UploadedFile, createdAt: int)
    returns (r1: Result<Receipt, UploadError>, r2: Result<Receipt, UploadError>)
    requires svc.Valid()
    requires first.bytes == second.bytes && first.name != second.name
    requires first.name !in svc.uploads && second.name !in svc.uploads
    requires forall i :: 0 <= i < |svc.files| ==> svc.files[i].hash != Some(svc.hash(first.bytes))
    modifies svc
    ensures r1 == Success(Receipt(svc.hash(first.bytes), false))
    ensures r2 == Success(Receipt(svc.hash(first.bytes), true))
  {
    var allOk := UploadOutcomes(Ok, Ok, Ok, Inserted(createdAt), Ok);
    r1 := svc.UploadFile(first, allOk);
    InsertedHashIsDuplicate(old(svc.files), svc.files[|svc.files| - 1], svc.hash(first.bytes));
    r2 := svc.UploadFile(second, allOk);
  }
}
