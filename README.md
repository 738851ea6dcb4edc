# File upload, sharing and deletion: a verified model

This project models the small core of logic in a collaboration web application where users upload files into projects and share them with other users. There are three parts:

- **Server file operations** (`file_operations.dfy`, module `FileOperations`). The operations are `createFile`, `getAllFilesByUser`, `getDownloadFileSignedURL`, `shareFileWithUsers` and `deleteFile`. They run over an in-memory entity store, a class `Store` holding the User, File and SharedFile tables as sequences of rows in insertion order. The store's invariant `Valid()` keeps the columns the code looks rows up by unique: `File.id`, `File.key` and `User.email` (plus `User.id`). The authenticated principal is an `Option<User>`, and `None` stands for a request without a user. Thrown `HttpError`s are `Result`/`Outcome` errors carrying the source's status codes and messages.
- **Storage-key derivation** (`s3_utils.dfy`, module `S3Utils`). The key is `${userInfo}/${uuid}.${ex}`, where `ex` is `fileType.split('/')[1]`. The signer that turns a request into a URL is an opaque function parameter, so the model records exactly what is signed: the command (PUT with content type, or GET), the key and the 3600-second lifetime. `randomUUID()` is a parameter.
- **Client list transformations** (`file_upload_page.dfy`, module `FileUploadPage`). These are the dashboard's `filteredFiles`, the project rename map, the project-removal filter, the selection-removal filter, the rename and upload guards, and the small-size branch of `formatFileSize`. Each React state update becomes a function from the previous list to the next one. Whether the awaited server call succeeded is a parameter, because a thrown error skips the update.

Support modules: `wrappers.dfy` (Option, Result, Outcome), `seqs.dfy` (`filter`, first-match search, unique columns, row removal) and `text.dfy` (JavaScript `split`, `join`, ASCII `toLowerCase`, `includes`, `trim`, and decimal rendering with its parser).

Some behaviour follows the code exactly:
- A MIME type without '/' yields the extension text `undefined`, because the template literal renders a missing array element that way.
- `deleteFile`'s id extraction never takes its `?? ''` fallback, because `split` never returns an empty array.
- `filteredFiles` compares `projectId` to `selectedProject?.id` with `===`. So with no project selected, only files whose `projectId` is absent are shown, and a `null` `projectId` never matches.
- `shareFileWithUsers` appends one grant per registered email, repeats included, and skips unknown emails silently.
- `deleteFile` issues a single File delete and no storage deletion.

## Model

| member | source | states |
|---|---|---|
| `S3Utils.Extension` | src/file-upload/s3Utils.ts:21 | the extension never contains '/' |
| `S3Utils.ExtensionIsSubtype` | src/file-upload/s3Utils.ts:21 | for a type `top/sub[/...]` the extension is `sub`, the second '/'-piece |
| `S3Utils.ExtensionWithoutSlash` | src/file-upload/s3Utils.ts:21-22 | a type with no '/' (including the empty type) gives the text "undefined" |
| `S3Utils.UploadKey` | src/file-upload/s3Utils.ts:22 | the key begins with `userInfo` followed by '/' |
| `S3Utils.UploadKeyInjective` | src/file-upload/s3Utils.ts:22 | for a fixed owner and type, equal keys from equal-length UUIDs mean equal UUIDs |
| `S3Utils.GetUploadFileSignedUrl` | src/file-upload/s3Utils.ts:19-33 | the returned key is the derived key; the URL is signed for a PUT of that same key with `ContentType` = `fileType` and a 3600-second expiry |
| `S3Utils.GetDownloadFileSignedUrl` | src/file-upload/s3Utils.ts:40-47 | the URL is signed for a GET of exactly the given key, untransformed, with a 3600-second expiry |
| `Text.Split` | src/file-upload/operations.ts:129 | `split` always yields at least one piece, so `pop()` never returns undefined |
| `Text.JoinSplit` | src/file-upload/operations.ts:129 | joining the pieces of a split with the separator gives the string back |
| `Text.SplitConcat` | src/file-upload/operations.ts:129 | splitting `x + sep + y` gives the pieces of `x` followed by those of `y` |
| `FileOperations.NormaliseId` | src/file-upload/operations.ts:129 | the normalised id contains neither '/' nor '.' |
| `FileOperations.NormaliseIdPlain` | src/file-upload/operations.ts:129 | an id with neither '/' nor '.' is unchanged |
| `FileOperations.NormaliseIdDropsDirectory` | src/file-upload/operations.ts:129 | everything up to and including the last '/' is dropped |
| `FileOperations.NormaliseIdDropsExtension` | src/file-upload/operations.ts:129 | everything from the first '.' of the last '/'-piece is dropped |
| `FileOperations.NormaliseIdOfPath` | src/file-upload/operations.ts:128-129 | the id of `dir/name.ext` is `name` |
| `FileOperations.NormaliseIdOfUploadKey` | src/file-upload/operations.ts:129 | normalising a storage key built from a UUID without '/' or '.' gives back that UUID |
| `FileOperations.UploadKeysDistinct` | src/file-upload/s3Utils.ts:22 | distinct UUIDs without '/' or '.' give distinct keys, whatever their lengths |
| `FileOperations.UserByEmail` | src/file-upload/operations.ts:103 | a found user is in the table with that email; no result means no user has that email |
| `FileOperations.InsertNewestFirst` | src/file-upload/operations.ts:68-70 | inserting adds exactly one occurrence of the row (multiset) |
| `FileOperations.InsertKeepsNewestFirst` | src/file-upload/operations.ts:68-70 | inserting into a newest-first sequence keeps it newest first |
| `FileOperations.SortNewestFirst` | src/file-upload/operations.ts:68-70 | the result is a permutation of the input ordered by `createdAt` descending |
| `FileOperations.GetAllFilesByUser` | src/file-upload/operations.ts:50-72 | 401 without a user; otherwise a permutation of the caller's own rows, newest first, each with its SharedFile rows |
| `FileOperations.ListingIsOwnedFiles` | src/file-upload/operations.ts:55-60 | a row is listed iff it is in the table and owned by the caller, with the same multiplicity; files only shared with the caller are excluded |
| `FileOperations.GrantsForConcat` | src/file-upload/operations.ts:102-114 | grants for `a + b` are the grants for `a` followed by those for `b` (input order) |
| `FileOperations.GrantsForRegistered` | src/file-upload/operations.ts:102-114 | one grant per registered email in input order, to that email's user; unregistered emails are skipped and repeats repeat |
| `FileOperations.GrantsForAreForRecipients` | src/file-upload/operations.ts:103-111 | every grant is for the shared file and for a registered user whose email was given |
| `FileOperations.ShareSkipsUnregistered` | src/file-upload/operations.ts:102-116 | example of `GrantsForRegistered` on one concrete input: sharing with one registered and one unknown address yields one grant and no error |
| `FileOperations.GetDownloadFileSignedUrl` | src/file-upload/operations.ts:75-80 | no authentication: the URL is the S3 download URL for the key, whoever the caller is |
| `FileOperations.Store.CreateFile` | src/file-upload/operations.ts:20-48 | 401 and no row without a user; otherwise exactly one row is appended with the issued key and URL, the given name and type, the caller as owner; other tables are unchanged; a duplicate id or key is refused with no change |
| `FileOperations.Store.ShareFileWithUsers` | src/file-upload/operations.ts:83-117 | 401, then 404 when the key is unknown or the caller is not the owner, with no grants; otherwise the grants for the emails are appended in order and returned; files and users are unchanged |
| `FileOperations.Store.DeleteFile` | src/file-upload/operations.ts:121-153 | 401, then 404 for an unknown normalised id, then 403 for a non-owner, each leaving the store unchanged; otherwise exactly that row is removed and nothing else changes |
| `FileOperations.DeleteRemovesExactlyOneRow` | src/file-upload/operations.ts:147-150 | after a delete, the table has one row fewer and holds exactly the rows whose id differs from the normalised id |
| `FileUploadPage.FilteredFiles` | src/file-upload/FileUploadPage.tsx:228-233 | missing data gives []; otherwise every kept file is in the data and passes the filter, and every data file that passes is kept |
| `FileUploadPage.FilteredFilesShows` | src/file-upload/FileUploadPage.tsx:233 | a file is shown iff its `projectId` equals the selected project's id and the lower-cased term occurs in its lower-cased name |
| `FileUploadPage.FilteredFilesKeepsOrder` | src/file-upload/FileUploadPage.tsx:228-233 | the filter distributes over concatenation, so the relative order of `filesData` is kept |
| `FileUploadPage.FilteredFilesEmptySearch` | src/file-upload/FileUploadPage.tsx:233 | with an empty search term every file of the selected project is kept |
| `FileUploadPage.FilteredFilesIgnoresCase` | src/file-upload/FileUploadPage.tsx:233 | lower-casing the search term does not change the result |
| `FileUploadPage.NoSelectionShowsUnassignedOnly` | src/file-upload/FileUploadPage.tsx:233 | with no project selected, only files whose `projectId` is absent are shown |
| `FileUploadPage.RenameProjects` | src/file-upload/FileUploadPage.tsx:86 | length, order, ids and dates are kept; projects with the id get the new name; all others are unchanged |
| `FileUploadPage.RenameUnknownIdIsIdentity` | src/file-upload/FileUploadPage.tsx:86 | renaming an id that no project has changes nothing |
| `FileUploadPage.RenameTwiceIsLastRename` | src/file-upload/FileUploadPage.tsx:86 | a second rename of the same id overrides the first |
| `FileUploadPage.HandleRenameProject` | src/file-upload/FileUploadPage.tsx:82-93 | no change without an edited project or with an all-white-space name, or when the server call fails; otherwise the list is renamed with the untrimmed name |
| `FileUploadPage.RemoveProject` | src/file-upload/FileUploadPage.tsx:111 | no project with the deleted id remains; every other project remains |
| `FileUploadPage.RemoveProjectKeepsOthers` | src/file-upload/FileUploadPage.tsx:111 | the remaining projects keep their order and every occurrence |
| `FileUploadPage.HandleDeleteProject` | src/file-upload/FileUploadPage.tsx:104-126 | no change without a project to delete or on server failure; otherwise exactly `RemoveProject` of its id: no project with that id remains, every other project stays in order |
| `FileUploadPage.DeselectFile` | src/file-upload/FileUploadPage.tsx:193 | the deleted id is no longer selected; every other selected id remains |
| `FileUploadPage.DeselectFileKeepsOthers` | src/file-upload/FileUploadPage.tsx:193 | the other ids keep their order and every occurrence |
| `FileUploadPage.ConfirmDeleteFile` | src/file-upload/FileUploadPage.tsx:189-202 | no change without a file to delete or on server failure; otherwise exactly `DeselectFile` of its id: that id is gone, every other selected id stays in order |
| `FileUploadPage.UploadRequest` | src/file-upload/FileUploadPage.tsx:146-155 | `createFile` is called iff both a file and a project are selected, with the file's type, name and size and the project's id |
| `FileUploadPage.FormatSmallFileSize` | src/file-upload/FileUploadPage.tsx:32-33 | for sizes from -2^53 up to 1023, the text is the size's decimal digits without leading zeros (a lone "0" for zero), with a '-' first for a negative size, followed by " bytes"; reading the digits back gives the size |
| `Text.TrimEmptyIffBlank` | src/file-upload/FileUploadPage.tsx:83 | `trim()` gives "" iff every character is JavaScript white space |
| `Text.IncludesIffOccurs` | src/file-upload/FileUploadPage.tsx:233 | `includes` holds iff the needle occurs at some position |
| `Text.ParseNatToString` | src/file-upload/FileUploadPage.tsx:33 | reading back the decimal rendering of a natural number gives the number |

## Left out

- React rendering and UI state: modals, animations, hooks, `useQuery` refetching, alerts and navigation. Only the list transformations and guards above are modelled.
- FileUploadPage.FormatSmallFileSize: covers only integral sizes below 1024. The branch for 1024 and above uses `Math.log`, `Math.pow` and `toFixed` (floating point). Sizes below -2^53 are excluded by its requires: JavaScript prints the shortest digits of the nearest double for them ("-18446744073709552000 bytes" for -2^64) and exponent form from -10^21 on ("-1e+21 bytes"), not the exact digits the model renders.
- FileUploadPage.FilteredFiles: lower-cases ASCII letters only. JavaScript's full Unicode case mapping is not modelled. The `createdAt` normalisation through `new Date(...).toISOString()` (FileUploadPage.tsx:229-232) is treated as the identity.
- S3 client construction, the bucket taken from the environment, the signing itself, `deleteFileFromS3` and the client-side `fetch` PUT upload are network I/O and foreign SDK calls. The signer is an opaque total function, so a failing signer or network is not modelled.
- `randomUUID()`, database-generated ids and `createdAt` timestamps are parameters, and their formats are not constrained.
- ORM internals: only `findUnique`/`findMany`/`create`/`delete` semantics over sequences of rows. The listing carries each file's SharedFile rows but not the nested recipient User records. SharedFile rows carry no id or timestamp.
- FileOperations.Store.DeleteFile: leaves SharedFile rows untouched. The schema's referential action for them (cascade or refusal) is not part of this model.
- Database and connection failures, and `console.log` output, are not modelled. Each operation runs atomically; interleavings of concurrent requests are not modelled.
- src/server/sendEmail.ts is not part of this model: it is a concurrent fan-out of email sends whose result depends on interleaving.
- The video and session files and the HTTP room handler are not part of this model (video SDK bindings). The dashboard, sidebar, annotation page and build configuration contain no logic.
- The code does not implement, so the model does not contain:
  - a file listing that is the union of owned and shared files;
  - rejection of sharing a file with oneself;
  - idempotent grants (sharing twice with one email creates two grants);
  - validating all share addresses before creating any grant;
  - deletion of the storage object when a file is deleted;
  - saving `size` and `projectId` in `createFile`, which ignores both.
- Server operations on projects (`createNewProject`, `renameProject`, `deleteProject`, `getAllProjectsByUser`) are not part of this model. Only their effects on the client's project list are modelled.
