/** Server operations on files (src/file-upload/operations.ts) over an in-memory model of the
    User, File and SharedFile tables. Each table is a sequence of rows in insertion order; the
    unique columns the operations look rows up by (File.id, File.key, User.email) are kept
    unique by the store's invariant. Database-generated ids and timestamps, the random UUID and
    the URL signer are parameters. */
module FileOperations {
  import opened Wrappers
  import opened Seqs
  import opened Text
  import S3Utils

  /** A registered user, the authenticated principal of a request. */
  datatype User = User(id: string, email: string)

  /** A File row. */
  datatype FileRow = FileRow(
    id: string,
    key: string,
    name: string,
    fileType: string,
    uploadUrl: string,
    userId: string,
    createdAt: int)

  /** A SharedFile row: `fileId` is shared with the user `sharedWithId`. */
  datatype Grant = Grant(fileId: string, sharedWithId: string)

  /** A listed file with its SharedFile rows (`include: { sharedWith: ... }`). */
  datatype Listing = Listing(file: FileRow, sharedWith: seq<Grant>)

  /** What an operation throws: an `HttpError`, or the database refusing a duplicate value in a
      unique column. */
  datatype Error =
    | HttpError(statusCode: nat, message: string)
    | UniqueConstraintFailed

  const UNAUTHORIZED: Error := HttpError(401, "Unauthorized")
  const SHARE_NOT_FOUND: Error := HttpError(404, "File not found or not authorized")
  const FILE_NOT_FOUND: Error := HttpError(404, "File not found")
  const NOT_AUTHORIZED: Error := HttpError(403, "Not authorized")

  // ---------------------------------------------------------------------------------------------
  // Lookups (`findUnique`)

  function FileIndexById(files: seq<FileRow>, id: string): Option<nat>
  {
    FindIndex(files, (f: FileRow) => f.id == id)
  }

  function FileIndexByKey(files: seq<FileRow>, key: string): Option<nat>
  {
    FindIndex(files, (f: FileRow) => f.key == key)
  }

  /** `User.findUnique({ where: { email } })`. */
  function UserByEmail(users: seq<User>, email: string): (r: Option<User>)
    ensures r.Some? ==> r.value in users && r.value.email == email
    ensures r.None? ==> forall i :: 0 <= i < |users| ==> users[i].email != email
  {
    match FindIndex(users, (u: User) => u.email == email)
    case None => None
    case Some(i) => Some(users[i])
  }

  // ---------------------------------------------------------------------------------------------
  // The file id carried by a delete request

  /** `fileId.split('/').pop()?.split('.')[0] ?? ''`: the last '/'-piece, cut at its first '.'.
      `split` never yields an empty array, so the `?? ''` fallback is never taken. */
  function NormaliseId(fileId: string): (r: string)
    ensures '/' !in r && '.' !in r
  {
    var base := Last(Split(fileId, '/'));
    SplitPiecesAvoidSeparator(fileId, '/');
    SplitPiecesAvoidSeparator(base, '.');
    SplitPiecesComeFrom(base, '.');
    Split(base, '.')[0]
  }

  /** An id with neither '/' nor '.' is kept as it is. */
  lemma NormaliseIdPlain(id: string)
    requires '/' !in id && '.' !in id
    ensures NormaliseId(id) == id
  {
    SplitWithoutSeparator(id, '/');
    SplitWithoutSeparator(id, '.');
  }

  /** Everything up to the last '/' is dropped. */
  lemma NormaliseIdDropsDirectory(dir: string, rest: string)
    ensures NormaliseId(dir + "/" + rest) == NormaliseId(rest)
  {
    assert dir + "/" + rest == dir + ['/'] + rest;
    SplitConcat(dir, '/', rest);
  }

  /** Everything from the first '.' of the last piece on is dropped. */
  lemma NormaliseIdDropsExtension(path: string, ext: string)
    requires '/' !in ext
    ensures NormaliseId(path + "." + ext) == NormaliseId(path)
  {
    var px := Split(path, '/');
    SplitAppend(path, '/', "." + ext);
    assert path + "." + ext == path + ("." + ext);
    var base := Last(px);
    assert Last(Split(path + "." + ext, '/')) == base + "." + ext;
    assert base + "." + ext == base + ['.'] + ext;
    SplitConcat(base, '.', ext);
  }

  /** The id of `dir/name.ext` is `name`. */
  lemma NormaliseIdOfPath(dir: string, name: string, ext: string)
    requires '/' !in name && '.' !in name && '/' !in ext
    ensures NormaliseId(dir + "/" + name + "." + ext) == name
  {
    assert dir + "/" + name + "." + ext == dir + "/" + (name + "." + ext);
    NormaliseIdDropsDirectory(dir, name + "." + ext);
    NormaliseIdDropsExtension(name, ext);
    NormaliseIdPlain(name);
  }

  /** Normalising a storage key gives back the UUID it was derived from. */
  lemma NormaliseIdOfUploadKey(userInfo: string, uuid: string, fileType: string)
    requires '/' !in uuid && '.' !in uuid
    ensures NormaliseId(S3Utils.UploadKey(userInfo, uuid, fileType)) == uuid
  {
    NormaliseIdOfPath(userInfo, uuid, S3Utils.Extension(fileType));
  }

  /** Hence keys derived from different UUIDs without '/' or '.' differ, whatever their lengths. */
  lemma UploadKeysDistinct(userInfo: string, uuid1: string, uuid2: string, fileType: string)
    requires '/' !in uuid1 && '.' !in uuid1 && '/' !in uuid2 && '.' !in uuid2
    requires uuid1 != uuid2
    ensures S3Utils.UploadKey(userInfo, uuid1, fileType) != S3Utils.UploadKey(userInfo, uuid2, fileType)
  {
    NormaliseIdOfUploadKey(userInfo, uuid1, fileType);
    NormaliseIdOfUploadKey(userInfo, uuid2, fileType);
  }

  // ---------------------------------------------------------------------------------------------
  // Listing (`getAllFilesByUser`)

  /** `orderBy: { createdAt: 'desc' }`. */
  ghost predicate NewestFirst(rows: seq<FileRow>)
  {
    forall i, j :: 0 <= i < j < |rows| ==> rows[i].createdAt >= rows[j].createdAt
  }

  /** Inserts `f` into a sequence before its first row that is not newer than `f`. */
  function InsertNewestFirst(f: FileRow, rows: seq<FileRow>): (r: seq<FileRow>)
    ensures multiset(r) == multiset(rows) + multiset{f}
    ensures |r| == |rows| + 1 && (r[0] == f || (rows != [] && r[0] == rows[0]))
    decreases |rows|
  {
    if rows == [] || f.createdAt >= rows[0].createdAt then [f] + rows
    else
      assert rows == [rows[0]] + rows[1..];
      [rows[0]] + InsertNewestFirst(f, rows[1..])
  }

  /** Inserting into a newest-first sequence keeps it newest first. */
  lemma {:induction false} InsertKeepsNewestFirst(f: FileRow, rows: seq<FileRow>)
    requires NewestFirst(rows)
    ensures NewestFirst(InsertNewestFirst(f, rows))
    decreases |rows|
  {
    if rows != [] && f.createdAt < rows[0].createdAt {
      var tail := InsertNewestFirst(f, rows[1..]);
      InsertKeepsNewestFirst(f, rows[1..]);
      assert rows[0].createdAt >= tail[0].createdAt;
      var r := [rows[0]] + tail;
      forall i, j | 0 <= i < j < |r|
        ensures r[i].createdAt >= r[j].createdAt
      {
        if i > 0 {
          assert r[i] == tail[i - 1] && r[j] == tail[j - 1];
        } else if j > 1 {
          assert tail[0].createdAt >= tail[j - 1].createdAt;
        }
      }
    }
  }

  /** The rows sorted newest first (ties keep their table order). */
  function SortNewestFirst(rows: seq<FileRow>): (r: seq<FileRow>)
    ensures multiset(r) == multiset(rows)
    ensures NewestFirst(r)
    decreases |rows|
  {
    if rows == [] then []
    else
      assert rows == [rows[0]] + rows[1..];
      InsertKeepsNewestFirst(rows[0], SortNewestFirst(rows[1..]));
      InsertNewestFirst(rows[0], SortNewestFirst(rows[1..]))
  }

  /** The File rows of one owner (`where: { user: { id } }`), in table order. */
  function OwnedBy(files: seq<FileRow>, userId: string): seq<FileRow>
  {
    Filter(files, (f: FileRow) => f.userId == userId)
  }

  /** The SharedFile rows of one file. */
  function GrantsOf(grants: seq<Grant>, fileId: string): seq<Grant>
  {
    Filter(grants, (g: Grant) => g.fileId == fileId)
  }

  function FilesOf(listings: seq<Listing>): (r: seq<FileRow>)
    ensures |r| == |listings|
  {
    seq(|listings|, i requires 0 <= i < |listings| => listings[i].file)
  }

  /** `getAllFilesByUser`: 401 without a principal; otherwise the caller's own files, newest
      first, each with its SharedFile rows. */
  function GetAllFilesByUser(files: seq<FileRow>, grants: seq<Grant>, caller: Option<User>)
    : (r: Result<seq<Listing>, Error>)
    ensures caller.None? ==> r == Err(UNAUTHORIZED)
    ensures caller.Some? ==>
      && r.Ok?
      && multiset(FilesOf(r.value)) == multiset(OwnedBy(files, caller.value.id))
      && NewestFirst(FilesOf(r.value))
      && forall i :: 0 <= i < |r.value| ==> r.value[i].sharedWith == GrantsOf(grants, r.value[i].file.id)
  {
    match caller
    case None => Err(UNAUTHORIZED)
    case Some(user) =>
      var rows := SortNewestFirst(OwnedBy(files, user.id));
      var listings := seq(|rows|, i requires 0 <= i < |rows| => Listing(rows[i], GrantsOf(grants, rows[i].id)));
      assert FilesOf(listings) == rows;
      Ok(listings)
  }

  /** A file is listed exactly when it is in the table and the caller owns it, as often as it
      occurs in the table; a file that is only shared with the caller is not listed. */
  lemma ListingIsOwnedFiles(files: seq<FileRow>, grants: seq<Grant>, user: User, f: FileRow)
    ensures var listed := FilesOf(GetAllFilesByUser(files, grants, Some(user)).value);
      && (f in listed <==> f in files && f.userId == user.id)
      && multiset(listed)[f] == if f.userId == user.id then multiset(files)[f] else 0
  {
    var owned := (g: FileRow) => g.userId == user.id;
    FilterMultiplicity(files, owned, f);
  }

  // ---------------------------------------------------------------------------------------------
  // Sharing (`shareFileWithUsers`)

  /** The grant one email yields: one for a registered user, none otherwise. */
  function GrantFor(fileId: string, users: seq<User>, email: string): seq<Grant>
  {
    match UserByEmail(users, email)
    case None => []
    case Some(u) => [Grant(fileId, u.id)]
  }

  /** The grants created for `emails`, in input order. */
  function GrantsFor(fileId: string, users: seq<User>, emails: seq<string>): seq<Grant>
    decreases |emails|
  {
    if emails == [] then []
    else GrantsFor(fileId, users, emails[..|emails| - 1]) + GrantFor(fileId, users, emails[|emails| - 1])
  }

  /** Sharing with `a + b` creates the grants for `a`, then those for `b`. */
  lemma {:induction false} GrantsForConcat(fileId: string, users: seq<User>, a: seq<string>, b: seq<string>)
    ensures GrantsFor(fileId, users, a + b) == GrantsFor(fileId, users, a) + GrantsFor(fileId, users, b)
    decreases |b|
  {
    if b != [] {
      var b' := b[..|b| - 1];
      assert (a + b)[..|a + b| - 1] == a + b';
      assert (a + b)[|a + b| - 1] == b[|b| - 1];
      GrantsForConcat(fileId, users, a, b');
    } else {
      assert a + b == a;
    }
  }

  /** Sharing with `[e] + rest` creates the grant for `e`, then those for `rest`. */
  lemma GrantsForCons(fileId: string, users: seq<User>, e: string, rest: seq<string>)
    ensures GrantsFor(fileId, users, [e] + rest) == GrantFor(fileId, users, e) + GrantsFor(fileId, users, rest)
  {
    GrantsForConcat(fileId, users, [e], rest);
    assert [e][..0] == [];
  }

  predicate IsRegistered(users: seq<User>, email: string)
  {
    UserByEmail(users, email).Some?
  }

  /** Reference definition: the grants are one per registered email, in input order, to the user
      with that email; unregistered emails are skipped and repeated emails repeat. */
  lemma {:induction false} GrantsForRegistered(fileId: string, users: seq<User>, emails: seq<string>)
    ensures var registered := Filter(emails, (e: string) => IsRegistered(users, e));
      && |GrantsFor(fileId, users, emails)| == |registered|
      && forall k :: 0 <= k < |registered| ==>
           GrantsFor(fileId, users, emails)[k] == Grant(fileId, UserByEmail(users, registered[k]).value.id)
    decreases |emails|
  {
    var p := (e: string) => IsRegistered(users, e);
    if emails != [] {
      var e := emails[0];
      var rest := emails[1..];
      assert emails == [e] + rest;
      GrantsForCons(fileId, users, e, rest);
      GrantsForRegistered(fileId, users, rest);
      var head := GrantFor(fileId, users, e);
      var tail := GrantsFor(fileId, users, rest);
      var registered := Filter(emails, p);
      var registeredRest := Filter(rest, p);
      if p(e) {
        assert registered == [e] + registeredRest;
        GrantsPrependRegistered(fileId, users, e, tail, registeredRest);
      } else {
        assert registered == registeredRest;
        assert head == [];
        assert head + tail == tail;
      }
    }
  }

  /** The step of `GrantsForRegistered` for a registered first email: its grant goes first. */
  lemma GrantsPrependRegistered(fileId: string, users: seq<User>, e: string, tail: seq<Grant>, registeredRest: seq<string>)
    requires IsRegistered(users, e)
    requires |tail| == |registeredRest|
    requires forall k :: 0 <= k < |registeredRest| ==>
      IsRegistered(users, registeredRest[k]) && tail[k] == Grant(fileId, UserByEmail(users, registeredRest[k]).value.id)
    ensures var registered := [e] + registeredRest;
      var grants := GrantFor(fileId, users, e) + tail;
      && |grants| == |registered|
      && forall k :: 0 <= k < |registered| ==>
           IsRegistered(users, registered[k]) && grants[k] == Grant(fileId, UserByEmail(users, registered[k]).value.id)
  {
    var registered := [e] + registeredRest;
    var grants := GrantFor(fileId, users, e) + tail;
    assert GrantFor(fileId, users, e) == [Grant(fileId, UserByEmail(users, e).value.id)];
    forall k | 0 < k < |registered|
      ensures IsRegistered(users, registered[k]) && grants[k] == Grant(fileId, UserByEmail(users, registered[k]).value.id)
    {
      assert grants[k] == tail[k - 1] && registered[k] == registeredRest[k - 1];
    }
  }

  /** Every grant is for the shared file and for a registered user whose email was given. */
  lemma {:induction false} GrantsForAreForRecipients(fileId: string, users: seq<User>, emails: seq<string>, k: nat)
    requires k < |GrantsFor(fileId, users, emails)|
    ensures var g := GrantsFor(fileId, users, emails)[k];
      g.fileId == fileId && exists u :: u in users && u.id == g.sharedWithId && u.email in emails
    decreases |emails|
  {
    var init := emails[..|emails| - 1];
    var last := emails[|emails| - 1];
    var before := GrantsFor(fileId, users, init);
    if k < |before| {
      GrantsForAreForRecipients(fileId, users, init, k);
      var u :| u in users && u.id == before[k].sharedWithId && u.email in init;
      assert u.email in emails;
    } else {
      var u := UserByEmail(users, last).value;
      assert u in users && u.email in emails;
    }
  }

  /** Sharing with a registered and an unregistered address grants to the registered user only,
      without error. */
  lemma ShareSkipsUnregistered()
    ensures var users := [User("a", "a@example.com"), User("b", "b@example.com")];
      GrantsFor("q1", users, ["b@example.com", "ghost@nowhere.com"]) == [Grant("q1", "b")]
  {
    var users := [User("a", "a@example.com"), User("b", "b@example.com")];
    var emails := ["b@example.com", "ghost@nowhere.com"];
    assert UserByEmail(users, "b@example.com") == Some(users[1]);
    assert UserByEmail(users, "ghost@nowhere.com") == None;
    assert emails[..1] == ["b@example.com"];
    assert emails[..1][..0] == [];
  }

  // ---------------------------------------------------------------------------------------------
  // Downloads (`getDownloadFileSignedURL`)

  /** `getDownloadFileSignedURL`: no authentication and no lookup; the URL is presigned for the
      given key whoever asks. */
  function GetDownloadFileSignedUrl(caller: Option<User>, key: string, sign: S3Utils.SignRequest -> string)
    : (url: string)
    ensures url == S3Utils.GetDownloadFileSignedUrl(key, sign)
  {
    S3Utils.GetDownloadFileSignedUrl(key, sign)
  }

  // ---------------------------------------------------------------------------------------------
  // The entity store

  class Store {
    var users: seq<User>
    var files: seq<FileRow>
    var grants: seq<Grant>

    /** The unique columns of the User and File tables. */
    ghost predicate Valid()
      reads this
    {
      && UniqueBy(users, (u: User) => u.id)
      && UniqueBy(users, (u: User) => u.email)
      && UniqueBy(files, (f: FileRow) => f.id)
      && UniqueBy(files, (f: FileRow) => f.key)
    }

    /** A store with the given registered users and no files or grants. */
    constructor (registered: seq<User>)
      requires UniqueBy(registered, (u: User) => u.id)
      requires UniqueBy(registered, (u: User) => u.email)
      ensures Valid()
      ensures users == registered && files == [] && grants == []
    {
      users := registered;
      files := [];
      grants := [];
    }

    /** `createFile`: 401 without a principal; otherwise one File row for the key and URL issued
        for the caller, with the given name and type, owned by the caller and stamped `now`. */
    method CreateFile(caller: Option<User>, fileType: string, name: string,
                      uuid: string, sign: S3Utils.SignRequest -> string, newId: string, now: int)
      returns (r: Result<FileRow, Error>)
      requires Valid()
      modifies this
      ensures Valid()
      ensures users == old(users) && grants == old(grants)
      ensures caller.None? ==> r == Err(UNAUTHORIZED) && files == old(files)
      ensures caller.Some? ==>
        var target := S3Utils.GetUploadFileSignedUrl(fileType, caller.value.id, uuid, sign);
        if FileIndexById(old(files), newId).Some? || FileIndexByKey(old(files), target.key).Some? then
          r == Err(UniqueConstraintFailed) && files == old(files)
        else
          && r == Ok(FileRow(newId, target.key, name, fileType, target.uploadUrl, caller.value.id, now))
          && files == old(files) + [r.value]
    {
      if caller.None? {
        return Err(UNAUTHORIZED);
      }
      var userInfo := caller.value.id;
      var target := S3Utils.GetUploadFileSignedUrl(fileType, userInfo, uuid, sign);
      if FileIndexById(files, newId).Some? || FileIndexByKey(files, target.key).Some? {
        return Err(UniqueConstraintFailed);
      }
      var row := FileRow(newId, target.key, name, fileType, target.uploadUrl, caller.value.id, now);
      AppendUnique(files, row, (f: FileRow) => f.id);
      AppendUnique(files, row, (f: FileRow) => f.key);
      files := files + [row];
      r := Ok(row);
    }

    /** `shareFileWithUsers`: 401 without a principal; 404 when no file has the key or the caller
        does not own it; otherwise one grant per registered email, appended in input order and
        returned. */
    method ShareFileWithUsers(caller: Option<User>, fileKey: string, emails: seq<string>)
      returns (r: Result<seq<Grant>, Error>)
      requires Valid()
      modifies this
      ensures Valid()
      ensures users == old(users) && files == old(files)
      ensures caller.None? ==> r == Err(UNAUTHORIZED) && grants == old(grants)
      ensures caller.Some? ==>
        match FileIndexByKey(files, fileKey)
        case None => r == Err(SHARE_NOT_FOUND) && grants == old(grants)
        case Some(i) =>
          if files[i].userId != caller.value.id then
            r == Err(SHARE_NOT_FOUND) && grants == old(grants)
          else
            r == Ok(GrantsFor(files[i].id, users, emails)) && grants == old(grants) + r.value
    {
      if caller.None? {
        return Err(UNAUTHORIZED);
      }
      var found := FileIndexByKey(files, fileKey);
      if found.None? || files[found.value].userId != caller.value.id {
        return Err(SHARE_NOT_FOUND);
      }
      var file := files[found.value];
      var created: seq<Grant> := [];
      var n := 0;
      while n < |emails|
        invariant 0 <= n <= |emails|
        invariant created == GrantsFor(file.id, users, emails[..n])
        invariant grants == old(grants) + created
        invariant users == old(users) && files == old(files)
      {
        assert emails[..n + 1][..n] == emails[..n];
        var user := UserByEmail(users, emails[n]);
        if user.Some? {
          var sharedFile := Grant(file.id, user.value.id);
          grants := grants + [sharedFile];
          created := created + [sharedFile];
        }
        n := n + 1;
      }
      assert emails[..n] == emails;
      r := Ok(created);
    }

    /** `deleteFile`: 401 without a principal, then 404 when no row has the normalised id, then
        403 when the caller does not own it; otherwise exactly that File row is removed. No other
        table changes and no storage object is deleted. */
    method DeleteFile(caller: Option<User>, fileId: string) returns (r: Outcome<Error>)
      requires Valid()
      modifies this
      ensures Valid()
      ensures users == old(users) && grants == old(grants)
      ensures caller.None? ==> r == Fail(UNAUTHORIZED) && files == old(files)
      ensures caller.Some? ==>
        match FileIndexById(old(files), NormaliseId(fileId))
        case None => r == Fail(FILE_NOT_FOUND) && files == old(files)
        case Some(i) =>
          if old(files)[i].userId != caller.value.id then
            r == Fail(NOT_AUTHORIZED) && files == old(files)
          else
            r == Pass && files == RemoveAt(old(files), i)
    {
      if caller.None? {
        return Fail(UNAUTHORIZED);
      }
      var uniqueFileId := NormaliseId(fileId);
      var found := FileIndexById(files, uniqueFileId);
      if found.None? {
        return Fail(FILE_NOT_FOUND);
      }
      var i := found.value;
      if files[i].userId != caller.value.id {
        return Fail(NOT_AUTHORIZED);
      }
      RemoveAtUnique(files, i, (f: FileRow) => f.id);
      RemoveAtUnique(files, i, (f: FileRow) => f.key);
      files := RemoveAt(files, i);
      r := Pass;
    }
  }

  /** A successful delete removes exactly the rows with the normalised id (one, since ids are
      unique) and keeps every other row. */
  lemma DeleteRemovesExactlyOneRow(files: seq<FileRow>, fileId: string)
    requires UniqueBy(files, (f: FileRow) => f.id)
    requires FileIndexById(files, NormaliseId(fileId)).Some?
    ensures var i := FileIndexById(files, NormaliseId(fileId)).value;
      && |RemoveAt(files, i)| == |files| - 1
      && forall f :: f in RemoveAt(files, i) <==> f in files && f.id != NormaliseId(fileId)
  {
    var i := FileIndexById(files, NormaliseId(fileId)).value;
    RemoveAtUnique(files, i, (f: FileRow) => f.id);
  }
}
