# HashDoc storage core in Dafny

HashDoc is a small web front end for uploading documents to Supabase. It
keeps every document in two stores:

- the object bucket `uploads`, keyed by file name;
- the table `files`, with one row per upload holding the name, the size,
  the SHA-256 content hash and a flag that says whether an earlier row
  already had the same hash.

This project models the service layer that keeps the two stores in step,
plus the two display helpers that decide how a listed file is shown.

- `wrappers.dfy` defines `Option`, `Result` and `Outcome`.
- `strings.dfy` models the JavaScript string operations the helpers use:
  ASCII `toLowerCase`, `endsWith` and `split` on one character. The
  display-name pattern is matched through `LastIndexOf`, which is how the
  model finds the last dot the regular expression's second group must
  start at; the source itself calls no `lastIndexOf`. `JoinWith` (a
  `join` the source never calls) and the lemmas `JoinSplit` and
  `SplitJoin` exist only to cross-check `SplitOn`: splitting and joining
  are proved inverse to each other.
- `services.dfy` models the storage service:
  - the bucket is a `map<string, Bytes>` and the table a `seq<FileRow>`;
  - `Service` is a class whose methods `UploadFile` and `DeleteFile`
    update both stores in place;
  - the result of each remote call is a parameter (`UploadOutcomes`,
    `DeleteOutcomes`, `CallOutcome`), so every failure branch can be
    reached;
  - a ghost `calls` trace records the order of the remote calls;
  - `FetchFiles` is a pure function of the table, the listing outcome and
    a URL-signing function.

  The invariant `StoresAgree` says three things. Every row's object
  exists. Every object has a row. Names are unique. An upload that
  succeeds, and a delete that succeeds for an (id, name) pair the table
  really holds, keep `StoresAgree`; a failed step before any store changes
  keeps it trivially. Two paths break it, and the contracts say so:
  - a failed row insert whose compensating removal also fails leaves an
    orphan object with no row (`OrphanObject`);
  - a successful object removal followed by a failed row delete leaves an
    orphan row whose object is gone (`OrphanRow`).

  A delete called with an id and a name that do not belong to the same
  row removes whatever the two calls name; the model promises agreement
  only for a real pair (`HasRow`).
- `file_list.dfy` models the icon choice of the file list
  (`split(".").pop().toLowerCase()` against seven image extensions). It
  also models the display name: the regular expression
  `/(.+)(\.[^.]+)$/`, with JavaScript's leftmost-match semantics and its
  four line terminators, and the truncation of stems longer than 25
  characters.
- `file_preview.dfy` models the preview's image test, which uses
  `endsWith` on the lower-cased name with six suffixes, and the choice
  between image viewer, framed document and notice. It also relates both
  to the file list and to the listing.

## Model

| member | source | states |
|---|---|---|
| Strings.LowerSlice | src/components/HashDoc/FilePreview.tsx:25 | Lower-casing a slice equals slicing the lower-cased string |
| Strings.LowerKeepsDots | src/components/HashDoc/FilePreview.tsx:25 | A position of the lower-cased string holds a dot exactly when the original position does |
| Strings.LastIndexOf | src/components/HashDoc/FileList.tsx:104 | None means the character does not occur; otherwise the index holds the character and no later position does |
| Strings.SplitOn | src/components/HashDoc/FileList.tsx:76 | `split` always returns at least one piece, so `pop()` always has a piece to return |
| Strings.SplitPiecesPlain | src/components/HashDoc/FileList.tsx:76 | No piece of a split contains the separator |
| Strings.LastPiece | src/components/HashDoc/FileList.tsx:76 | The piece `pop()` returns is the text after the last separator, or the whole string when there is none |
| Strings.EndsWith | src/components/HashDoc/FilePreview.tsx:25 | `endsWith` is true exactly when some tail of the string equals the suffix |
| Strings.JoinSplit | src/components/HashDoc/FileList.tsx:76 | Cross-check of `split`: joining the pieces of `split` with the separator gives back the original string |
| Strings.SplitAppendPlain | src/components/HashDoc/FileList.tsx:76 | Step of the `split`/`join` cross-check: appending separator-free text only extends the last piece |
| Strings.SplitJoin | src/components/HashDoc/FileList.tsx:76 | Cross-check of `split`: splitting a join of separator-free pieces gives back exactly those pieces |
| FileList.IconExtension | src/components/HashDoc/FileList.tsx:76 | `split(".").pop().toLowerCase()` is the lower-cased tail of the name that starts at the name's start or right after a dot and holds no dot |
| FileList.LastDotTailUnique | src/components/HashDoc/FileList.tsx:76 | A name has exactly one position where such a dot-free tail starts |
| FileList.IconExtensionEndsName | src/components/HashDoc/FileList.tsx:76 | The lower-cased name is the icon extension, or ends with a dot and the icon extension |
| FileList.ExtensionEndingNameIsIconExtension | src/components/HashDoc/FileList.tsx:76 | Any dot-free text that ends the lower-cased name in that way is the icon extension |
| FileList.IconExtensionAmong | src/components/HashDoc/FileList.tsx:76-80 | For dot-free candidates, the icon extension is a candidate exactly when the lower-cased name is one or ends with a dot and one |
| FileList.FileIcon | src/components/HashDoc/FileList.tsx:75-85 | The image icon exactly when the lower-cased name is one of jpg, jpeg, png, gif, bmp, svg, webp, or ends with a dot and one of them; the document icon otherwise |
| FileList.IconExtensionIgnoresCase | src/components/HashDoc/FileList.tsx:76 | Two names that lower-case alike have the same icon extension |
| FileList.IconExtensionIsLastDotTail | src/components/HashDoc/FileList.tsx:76 | The extension used for the icon is the lower-cased text after the last dot, or the whole name when there is no dot |
| FileList.FileIconByExtension | src/components/HashDoc/FileList.tsx:75-85 | The image icon is chosen exactly when the lower-cased text after the last dot is one of jpg, jpeg, png, gif, bmp, svg, webp |
| FileList.FileIconNoDot | src/components/HashDoc/FileList.tsx:76-80 | A name without a dot gets the image icon exactly when the whole lower-cased name is one of the extensions |
| FileList.FileIconBarePng | src/components/HashDoc/FileList.tsx:76-80 | "png" alone gets the image icon, because `pop()` returns the whole name |
| FileList.FileIconUpperCase | src/components/HashDoc/FileList.tsx:76-80 | The comparison ignores ASCII case: "Scan.JPEG" gets the image icon |
| FileList.FileIconLastExtensionOnly | src/components/HashDoc/FileList.tsx:76-84 | Only the last extension counts: "photo.png.pdf" gets the document icon |
| FileList.FileIconTrailingDot | src/components/HashDoc/FileList.tsx:76-84 | A trailing dot gives an empty extension and the document icon |
| FileList.LineStart | src/components/HashDoc/FileList.tsx:104 | The start of the last line: position 0 or just after a line terminator, with no terminator from there on |
| FileList.MatchName | src/components/HashDoc/FileList.tsx:104 | A match splits the name into prefix, group 1 and group 2, satisfies the pattern and is the leftmost one; no match means the pattern matches nowhere |
| FileList.MatchNameUnique | src/components/HashDoc/FileList.tsx:104 | Any split that satisfies the pattern and starts a line is the one the matcher finds |
| FileList.MatchPlainName | src/components/HashDoc/FileList.tsx:104 | On a one-line name with a non-empty stem and extension, group 1 is everything before the last dot and group 2 the rest |
| FileList.DisplayName | src/components/HashDoc/FileList.tsx:103-109 | A name of at most 25 characters is never changed; the shown name is at most two characters longer than the name, since a 26-character stem becomes 25 characters and "..." |
| FileList.DisplayUnmatched | src/components/HashDoc/FileList.tsx:103-104 | `replace` leaves a name the pattern does not match unchanged |
| FileList.DisplayNoDot | src/components/HashDoc/FileList.tsx:103-104 | A name without a dot is shown unchanged |
| FileList.DisplayTrailingDot | src/components/HashDoc/FileList.tsx:103-104 | A name ending in a dot is shown unchanged, because group 2 needs a character after the dot |
| FileList.DisplayLeadingDotOnly | src/components/HashDoc/FileList.tsx:103-104 | A name whose only dot is its first character is shown unchanged, because group 1 needs a character |
| FileList.DisplayShortStem | src/components/HashDoc/FileList.tsx:103-109 | A one-line name whose stem is at most 25 characters is shown unchanged |
| FileList.DisplayLongStem | src/components/HashDoc/FileList.tsx:103-109 | A longer stem is cut to its first 25 characters, followed by "..." and the extension |
| FileList.DisplayKeepsExtension | src/components/HashDoc/FileList.tsx:103-109 | The shown name always ends with the text from the last dot on |
| FileList.DisplayLength | src/components/HashDoc/FileList.tsx:103-109 | A one-line name is shown in at most 25 + 3 characters plus its extension |
| FileList.PatternByParts | src/components/HashDoc/FileList.tsx:104 | The pattern matches a split exactly when group 1 is a non-empty one-line stem and group 2 is a dot followed by at least one character and no other dot |
| FileList.MatchShortened | src/components/HashDoc/FileList.tsx:104-107 | The matcher finds the same split in a shortened name, with the stem now 28 characters |
| FileList.DisplayIdempotent | src/components/HashDoc/FileList.tsx:103-109 | Shortening a shown name again changes nothing |
| FileList.DisplayCutStable | src/components/HashDoc/FileList.tsx:103-109 | A name whose long stem was cut is shown as it is |
| Services.SelectIdsByHash | src/lib/supabase/services.ts:42-46 | At most `limit` ids, each from a row with the hash; for a positive limit, the answer is non-empty exactly when some row has the hash |
| Services.DuplicateFlag | src/lib/supabase/services.ts:42-49 | `isDuplicate` is true exactly when some row already has the same hash |
| Services.WithoutId | src/lib/supabase/services.ts:88-91 | After the delete, a row is present exactly when it was present before and has another id |
| Services.WithoutIdKeepsUniqueIds | src/lib/supabase/services.ts:88-91 | Deleting by id keeps ids distinct |
| Services.WithoutIdKeepsUniqueNames | src/lib/supabase/services.ts:88-91 | Deleting by id keeps file names distinct |
| Services.AppendKeepsIdsBelow | src/lib/supabase/services.ts:62-67 | Inserting a row with the next id keeps ids distinct and below the next id |
| Services.InsertNewestFirst | src/lib/supabase/services.ts:9-12 | Inserting one row into a newest-first listing keeps it newest first and adds exactly that row |
| Services.OrderNewestFirst | src/lib/supabase/services.ts:9-12 | The listing is a permutation of the table ordered by `created_at` descending |
| Services.UrlOrFallback | src/lib/supabase/services.ts:21-22 | The listed URL is exactly the signed URL when signing succeeded and "#" when it failed, so it is empty only when the signer returned an empty URL |
| Services.AttachSignedUrls | src/lib/supabase/services.ts:15-24 | Each row keeps its position and gets its own one-year signed URL, or "#" when signing failed |
| Services.FetchFiles | src/lib/supabase/services.ts:6-30 | Fails exactly when the listing query fails, with "Failed to fetch files: " and its message. Otherwise: every row once, newest first, each with its signed URL or "#" |
| Services.UploadError.Text | src/lib/supabase/services.ts:38-70 | The message an upload throws is the failing call's own message: unchanged for a failed read, after "Hash check failed: ", "Upload failed: " or "Database insert failed: " for the three store calls |
| Services.DeleteError.Text | src/lib/supabase/services.ts:82-93 | The message a delete throws is the failing call's own message after "Storage delete failed: " or "Database delete failed: " |
| Services.Service.constructor | src/lib/supabase/services.ts:5 | The service starts with both stores empty |
| Services.Service.UploadFile | src/lib/supabase/services.ts:32-78 | The error raised on each failure, or the hash and duplicate flag. Stores change only after a successful write. The row is appended on insert; on insert failure the object is removed. Calls come in order: query, put, insert, remove. Agreement holds except for the orphan object |
| Services.Service.HashAndWrite | src/lib/supabase/services.ts:37-59 | Hash, existence query and non-upserting object write, stopping at the first failure with its message; the bucket gains the object only when every step passes |
| Services.Service.InsertOrCompensate | src/lib/supabase/services.ts:61-73 | On success the row with the hash and flag is appended. On failure the object is removed if the removal succeeds, and the insert error is raised either way |
| Services.Service.RemoveObject | src/lib/supabase/services.ts:82-86 | The bucket removal is issued first; on failure the bucket is unchanged and the storage error is raised, otherwise the object is gone |
| Services.Service.DeleteRow | src/lib/supabase/services.ts:88-93 | The row delete is issued; on failure the table is unchanged and the database error is raised, otherwise exactly the rows with that id are gone and ids stay distinct |
| Services.Service.DeleteFile | src/lib/supabase/services.ts:80-98 | The object is removed before the rows. A storage failure changes nothing and sends no row delete. A row-delete failure leaves the object removed and, for a real (id, name) pair, that row without its object. Deleting a real (id, name) pair keeps the stores in agreement |
| Services.DeleteKeepsAgreement | src/lib/supabase/services.ts:82-93 | Removing the object and the rows of a real (id, name) pair keeps the stores in agreement |
| Services.DeleteKeepsBacked | src/lib/supabase/services.ts:82-93 | After that delete, every remaining row still has its object |
| Services.DeleteKeepsReferenced | src/lib/supabase/services.ts:82-93 | After that delete, every remaining object still has its row |
| Services.UploadKeepsAgreement | src/lib/supabase/services.ts:52-73 | Writing a new object and inserting its row keeps the stores in agreement |
| Services.OrphanObject | src/lib/supabase/services.ts:68-70 | When the compensating removal fails, the new object stays in the bucket with no row naming it, and every row is still backed |
| Services.OrphanRow | src/lib/supabase/services.ts:82-93 | When the object is removed and the row delete fails, the row of that (id, name) pair is left without its object |
| Services.InsertedHashIsDuplicate | src/lib/supabase/services.ts:42-67 | Once a row with a hash is inserted, the next duplicate query for that hash answers true |
| Services.ListingAfterDeleteOmitsId | src/lib/supabase/services.ts:6-24 | After deleting an id, no listed file has that id |
| Services.UploadSameContentTwice | src/lib/supabase/services.ts:32-78 | Two successful uploads of the same bytes under two free names, into a table where no row has their hash, report not-duplicate, then duplicate |
| FilePreview.EndsWithAny | src/components/HashDoc/FilePreview.tsx:24-26 | `some(endsWith)` is true exactly when one of the suffixes ends the string |
| FilePreview.IsImage | src/components/HashDoc/FilePreview.tsx:10-27 | A file is an image exactly when its lower-cased name ends with one of .jpg, .jpeg, .png, .gif, .bmp, .webp |
| FilePreview.EmptyNameIsNoImage | src/components/HashDoc/FilePreview.tsx:23-27 | The empty name is never an image |
| FilePreview.UpperCaseImage | src/components/HashDoc/FilePreview.tsx:25 | The test ignores ASCII case: "PHOTO.JPG" is an image |
| FilePreview.SuffixesAreDotExtensions | src/components/HashDoc/FilePreview.tsx:10-17 | Every suffix is a dot followed by at least one character and no other dot |
| FilePreview.NoDotIsNoImage | src/components/HashDoc/FilePreview.tsx:10-27 | A name without a dot is never an image |
| FilePreview.BareExtensionIsNoImage | src/components/HashDoc/FilePreview.tsx:25 | "jpeg" alone is not an image for the preview |
| FilePreview.SvgIconButNoImagePreview | src/components/HashDoc/FilePreview.tsx:10-17 | "logo.svg" gets the image icon in the list but no image viewer in the preview |
| FilePreview.SuffixesAreIconExtensions | src/components/HashDoc/FilePreview.tsx:10-17 | Every preview suffix without its dot is one of the icon extensions |
| FilePreview.LastDotTailOfSuffix | src/components/HashDoc/FilePreview.tsx:25 | If the lower-cased name ends with a dot-extension, the dot is the name's last dot and the lower-cased tail after it is the extension |
| FilePreview.ClassificationIgnoresCase | src/components/HashDoc/FilePreview.tsx:25 | Two names that lower-case alike get the same list icon and the same image test |
| FilePreview.ImagePreviewHasImageIcon | src/components/HashDoc/FilePreview.tsx:10-27 | Every file the preview shows as an image also gets the image icon in the list |
| FilePreview.PreviewFor | src/components/HashDoc/FilePreview.tsx:32-60 | The image viewer exactly when online with a URL and an image, showing that URL; the frame exactly when online with a URL and no image, showing that URL titled with the name; the offline notice exactly when offline with a URL; the invalid-URL notice exactly when there is no URL or it is empty |
| FilePreview.OnlinePreview | src/components/HashDoc/FilePreview.tsx:32-54 | Corollary of `PreviewFor`, for a concrete non-empty URL: online, images go to the image viewer; everything else goes to an iframe titled with the file name |
| FilePreview.OfflinePreview | src/components/HashDoc/FilePreview.tsx:55-58 | Corollary of `PreviewFor`, for a concrete non-empty URL: offline, the offline notice, whatever the file |
| FilePreview.MissingUrlPreview | src/components/HashDoc/FilePreview.tsx:55-60 | Corollary of `PreviewFor`: without a URL, or with an empty one, the invalid-URL notice, online or not |
| FilePreview.UnsignedFilePreview | src/components/HashDoc/FilePreview.tsx:32-60 | A listed file whose signing failed carries "#", so online it is framed or viewed at "#", and it never gets the invalid-URL notice |

## Left out

- Content hashing (`src/lib/fileHash.ts`, SHA-256 as defined in FIPS 180-4 section 6.2, read through `FileReader`) is not part of this model. The digest is an uninterpreted function of the bytes fixed when the service is built, and a failed read is an injected outcome.
- The Supabase client, the network and all latency are left out. Each remote call's result is a parameter of the operation.
- `Promise.all` signs the listed files in parallel. The model signs them in order; each signing is independent, so only their ordering is lost.
- The `cacheControl` and `contentType` upload options set the stored object's Cache-Control and Content-Type metadata. The bucket is modelled as a map from name to bytes, which holds no metadata, so both options are left out; `upsert: false` is modelled as refusing an existing name.
- The message returned for a write to an existing name comes from the storage service. The model uses "The resource already exists" for it.
- Console logging and the `try`/`catch` blocks that only log and rethrow are left out.
- Services.OrderNewestFirst: states order and permutation only. The order among rows with equal `created_at` is chosen by the database and is not modelled.
- `(data || [])`, a listing that returns neither data nor an error, is not modelled. The table is always a sequence.
- `created_at` is an integer chosen by the database and passed in through the insert outcome. Ids are a counter.
- Strings.LowerChar: lower-cases ASCII letters only. JavaScript's `toLowerCase` also maps other Unicode letters, and strings are UTF-16 code units there. Neither is modelled.
- FileList.DisplayName: the 25-character limit and the cut count characters (Unicode code points), while JavaScript's `length` and `substring` count UTF-16 code units. The two agree only for names within the Basic Multilingual Plane; a name with characters outside it, such as emoji, is shortened later than JavaScript shortens it, and the model never splits a surrogate pair.
- FileList.DisplayLength: stated only for names without line terminators, where the leftmost match starts at position 0.
- Concurrent uploads, where two clients can both see no duplicate, are not modelled. Operations run one at a time.
- The React rendering is not part of this model: markup, classes, the icon components, the toolbar, and the `navigator.onLine` reading, which is a parameter here. Neither are the other UI files (`HashDoc.tsx`, `ImageViewer.tsx`, `useNetworkStatus.ts`, `NetworkStatusIndicator.tsx`, `UploadSection.tsx`, `App.tsx`).
- When the row insert fails, the code (`src/lib/supabase/services.ts:68-71`) raises the insert error whatever the compensating removal returns. There is no separate warning for an orphaned object and no validation of malformed rows; the model follows the code, and the orphan case is stated in `UploadFile`'s contract.
