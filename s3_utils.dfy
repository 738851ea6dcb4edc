/** Storage-key derivation and presigned-URL requests (src/file-upload/s3Utils.ts).
    The signer (`getSignedUrl` with the S3 client) is an opaque function from a request to a URL,
    and the random UUID is a parameter. */
module S3Utils {
  import opened Text

  /** Both presigned URLs are valid for one hour. */
  const URL_EXPIRY_SECONDS: nat := 3600

  /** The object command a URL is presigned for. */
  datatype Command =
    | PutObject(key: string, contentType: string)
    | GetObject(key: string)

  /** What is handed to the signer: the command and the URL lifetime in seconds. */
  datatype SignRequest = SignRequest(command: Command, expiresIn: nat)

  /** The pair returned to `createFile`. */
  datatype UploadTarget = UploadTarget(uploadUrl: string, key: string)

  /** `fileType.split('/')[1]` as the template literal renders it: the second '/'-piece of the
      MIME type, or the text "undefined" when the type has no '/'. */
  function Extension(fileType: string): (ex: string)
    ensures '/' !in ex
  {
    var parts := Split(fileType, '/');
    SplitPiecesAvoidSeparator(fileType, '/');
    if |parts| > 1 then parts[1] else "undefined"
  }

  /** `${userInfo}/${uuid}.${ex}`. */
  function UploadKey(userInfo: string, uuid: string, fileType: string): (key: string)
    ensures |key| > |userInfo| && key[..|userInfo| + 1] == userInfo + "/"
  {
    userInfo + "/" + uuid + "." + Extension(fileType)
  }

  /** `getUploadFileSignedURLFromS3`: the URL is signed for a PUT of exactly the returned key, with
      the caller's MIME type as content type, for one hour; the key lies under the owner's prefix. */
  function GetUploadFileSignedUrl(fileType: string, userInfo: string, uuid: string,
                                  sign: SignRequest -> string): (t: UploadTarget)
    ensures t.key == UploadKey(userInfo, uuid, fileType)
    ensures t.uploadUrl == sign(SignRequest(PutObject(t.key, fileType), URL_EXPIRY_SECONDS))
    ensures t.key[..|userInfo| + 1] == userInfo + "/"
  {
    var key := UploadKey(userInfo, uuid, fileType);
    UploadTarget(sign(SignRequest(PutObject(key, fileType), URL_EXPIRY_SECONDS)), key)
  }

  /** `getDownloadFileSignedURLFromS3`: the URL is signed for a GET of the key exactly as given,
      for one hour. */
  function GetDownloadFileSignedUrl(key: string, sign: SignRequest -> string): (url: string)
    ensures url == sign(SignRequest(GetObject(key), URL_EXPIRY_SECONDS))
  {
    sign(SignRequest(GetObject(key), URL_EXPIRY_SECONDS))
  }

  /** For a MIME type `top/sub` (possibly followed by further '/'-pieces) the extension is `sub`. */
  lemma ExtensionIsSubtype(top: string, sub: string, tail: string)
    requires '/' !in top && '/' !in sub
    requires tail == [] || tail[0] == '/'
    ensures Extension(top + "/" + sub + tail) == sub
  {
    var s := top + "/" + sub + tail;
    assert s == top + ['/'] + (sub + tail);
    SplitConcat(top, '/', sub + tail);
    SplitWithoutSeparator(top, '/');
    FirstPieceBeforeSeparator(sub, tail);
    assert Split(s, '/') == [top] + Split(sub + tail, '/');
  }

  /** A text without '/' followed by nothing or by '/' is the first piece of the split. */
  lemma FirstPieceBeforeSeparator(sub: string, tail: string)
    requires '/' !in sub
    requires tail == [] || tail[0] == '/'
    ensures Split(sub + tail, '/')[0] == sub
  {
    SplitWithoutSeparator(sub, '/');
    if tail == [] {
      assert sub + tail == sub;
    } else {
      assert sub + tail == sub + ['/'] + tail[1..];
      SplitConcat(sub, '/', tail[1..]);
    }
  }

  /** A type without '/' (the empty type a browser reports for unknown files included) gives the
      extension "undefined". */
  lemma ExtensionWithoutSlash(fileType: string)
    requires '/' !in fileType
    ensures Extension(fileType) == "undefined"
  {
    SplitWithoutSeparator(fileType, '/');
  }

  /** For one owner and one file type, UUIDs of equal length give equal keys only if they are
      equal. */
  lemma UploadKeyInjective(userInfo: string, uuid1: string, uuid2: string, fileType: string)
    requires |uuid1| == |uuid2|
    requires UploadKey(userInfo, uuid1, fileType) == UploadKey(userInfo, uuid2, fileType)
    ensures uuid1 == uuid2
  {
    var k1 := UploadKey(userInfo, uuid1, fileType);
    var k2 := UploadKey(userInfo, uuid2, fileType);
    var lo := |userInfo| + 1;
    assert k1[lo..lo + |uuid1|] == uuid1;
    assert k2[lo..lo + |uuid2|] == uuid2;
  }
}
