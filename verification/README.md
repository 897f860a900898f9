# Form submission service: a Dafny model

This project models the form router of a small Express backend
(`routes/upload.js`). Clients submit a form with an optional résumé file,
and the router lists, updates and deletes those submissions. The model
covers two things:

- **the upload step** run by multer before the POST and PUT handlers: the
  extension allow-list filter, the 2 MiB size limit, and the name the disk
  storage gives an accepted file;
- **the four handlers** (GET, POST, PUT, DELETE). Each is a pure transition
  over a state made of three parts: the record collection in the store's
  natural order, the set of filenames in the upload directory, and the
  next id the store will hand out.

Modules:

- `JsValues`: optional fields (`undefined`/`null` as `None`), the three
  shapes multer gives a text field (missing, a string, an array),
  JavaScript truthiness, and `toLowerCase`.
- `NodePath`: Node's POSIX `path.extname`. `ExtName` states it as "from the
  last dot of the last path component". `ExtNameScan` is Node's own
  right-to-left scan, and it is proved equal to `ExtName`.
- `Upload`: the basename multer's parser takes of a client filename,
  `fileFilter`, the size limit, the `filename` callback, and `Receive`,
  which chains them as multer does.
- `Forms`: the record fields of `models/Form.js`, the request body, the
  `hobbies` normalisation, `resumeUrl`, and the response object.
- `Store`: the record collection as a sequence of `(id, record)` documents,
  and the id-to-record map it stands for. Each edit of the collection is
  proved to be the matching edit of that map.
- `FormService`: the handlers as transitions, plus the `Handle` dispatcher.
- `ServiceProperties`: invariants that every request keeps, the frame
  conditions stated on the map, and the round trips between the handlers.

Two things are not fixed values in the model. Time and randomness in the
generated filename become a caller-supplied `suffix` string. Store ids are
naturals handed out by a counter. `TimestampSuffix` shows that the
source's own `<Date.now()>-<random>` suffix is non-empty and has no `/`,
which is what `StoredNameKeepsExtension` asks of a suffix. The invariant
proofs ask more, as the name-collision note below explains.

Behaviour of the code worth knowing:

- **Order of file operations on update.** On update, multer writes the new
  file before the handler runs; only then does the handler unlink the old
  one.
- **Update on a missing id.** For this reason the new file stays in the
  upload directory even when the id is not found (`UpdateMissingKeepsUpload`).
- **Client filenames.** multer does not see the filename the client sent.
  Its parser runs without `preservePath`, keeps only what follows the last
  `/` or `\`, and turns `.` and `..` into `""`. That result is
  `file.originalname`. A part whose name is then empty (an untouched file
  input, `..`, or `notes.txt/`) is skipped, so the handler sees no file at
  all. `x\.pdf` reaches the filter as `.pdf` and is refused.
- **Name collision.** If the new file's generated name equals the record's
  current resume, that file ends up unlinked
  (`UpdateOntoOwnResumeLosesFile`). The invariant proofs therefore assume
  fresh upload names (`FreshUpload`): the generated name is not already in
  the upload directory. The timestamp and random suffix exist to give this
  uniqueness, but the model does not derive it from `TimestampSuffix`.

## Model

| member | source | states |
|---|---|---|
| JsValues.Truthy | routes/upload.js:117 | the `||` default on a body field: `undefined` and `""` are falsy; every other string and every array, the empty one included, is truthy |
| JsValues.Present | routes/upload.js:69 | the truthiness test on a stored string field (also at :93, :132, :152 and :203): `null`, `undefined` and `""` are falsy |
| JsValues.PresentIsTruthy | routes/upload.js:69-71 | the two truthiness tests agree, and an optional string is falsy exactly when it is missing or `""` |
| JsValues.ToLower | routes/upload.js:26 | lower-casing keeps the length, lowers each ASCII capital on its own, and leaves no capital behind |
| JsValues.ToLowerFixesLower | routes/upload.js:26 | lower-casing is idempotent and leaves already-lower text unchanged |
| Upload.FileFilter | routes/upload.js:24-33 | a name is admitted iff its lower-cased extname is one of `.pdf .doc .docx .txt .jpg .jpeg .png`; an admitted name therefore has a dot-led extname of at least four characters |
| NodePath.ExtName | routes/upload.js:26 | `extname` is either empty or a suffix of the last path component, strictly shorter than it, starting with its only dot and containing no separator |
| NodePath.ExtNameScan | routes/upload.js:26 | Node's right-to-left scan (separator skipping, last dot, the state of what precedes the dot, and the `..` case) returns exactly `ExtName` on every path |
| NodePath.ExtNameOfAppended | routes/upload.js:19 | a non-empty, separator-free prefix followed by `.ext` has extname `.ext`, whatever dots the prefix holds |
| NodePath.LeadingDotExample | routes/upload.js:26 | `.pdf` has an empty extname |
| NodePath.UpperCaseExample | routes/upload.js:26 | `a.PDF` has extname `.PDF`, with its case kept |
| NodePath.LastDotExample | routes/upload.js:26 | only the last dot counts: `archive.tar.gz` gives `.gz` |
| NodePath.DirectoryExample | routes/upload.js:26 | `path.extname` itself ignores a leading directory: `dir/cv.docx` gives `.docx` (multer's names never hold a `/`, so the route does not meet this case) |
| NodePath.TrailingSlashExample | routes/upload.js:26 | `path.extname` itself ignores trailing separators: `notes.txt/` gives `.txt` (the route never meets this case either) |
| Upload.FilterNeedsExtension | routes/upload.js:24-33 | a name with an empty extname is refused; an admitted name has an extname of at least four characters that starts with a dot |
| Upload.FilterIgnoresCase | routes/upload.js:25-28 | for every listed extension, every spelling of it in other cases after a plain stem is admitted, and it is also that name's extname |
| Upload.UpperCaseAccepted | routes/upload.js:24-33 | `CV.PDF` is admitted |
| Upload.MissingExtensionRefused | routes/upload.js:24-33 | `.pdf` and `resume` are refused (the "Invalid file type" branch) |
| Upload.LastSegment | routes/upload.js:35-39 | multer, configured without `preservePath`, keeps only the part of the client filename after its last `/` or `\`: the longest separator-free tail |
| Upload.ClientBasename | routes/upload.js:35-39 | the filename multer reports has no separator and is never `.` or `..` (those become `""`); a non-empty one is the tail that follows the client name's last separator |
| Upload.ClientBasenameKeepsPlainNames | routes/upload.js:35-39 | a plain file name is reported unchanged, and cutting a reported name again changes nothing |
| Upload.DotDotSkipped | routes/upload.js:35-39 | a part named `..` is reported as `""` and skipped like a part with no file |
| Upload.TrailingSeparatorSkipped | routes/upload.js:35-39 | a part named `notes.txt/` is reported as `""` and skipped |
| Upload.BackslashDirectoryRefused | routes/upload.js:24-39 | a part named `x\.pdf` is reported as `.pdf`, whose extname is empty, so it is refused as an invalid file type |
| Upload.GeneratedName | routes/upload.js:17-20 | the stored name is the suffix followed by the original extname, with its case kept |
| Upload.StoredNameKeepsExtension | routes/upload.js:17-28 | for a well-formed suffix, an admitted file's stored name has the same extname and passes the same filter |
| Upload.Decimal | routes/upload.js:18 | a natural prints as a non-empty string of decimal digits with no leading zero (other than `0` itself) |
| Upload.DecimalRoundTrip | routes/upload.js:18 | reading the printed digits back gives the number printed, so the printed string is determined by the number |
| Upload.TimestampSuffix | routes/upload.js:18 | the `<now>-<random>` suffix built from two naturals is non-empty and has no separator |
| Upload.Receive | routes/upload.js:24-39 | the part's filename is first cut to multer's basename, and an empty result counts as no file; an upload is refused iff a named file came whose extension is not allowed or whose size exceeds 2 MiB; a bad type is reported as such, ahead of the size; an accepted request carries a stored name iff it carried a named file, and that name is generated from the basename |
| Forms.NormalizeHobbies | routes/upload.js:117-122 | a non-empty string becomes a one-element list; an array is kept as sent (order and repeats); absent or `""` becomes the empty list |
| Forms.EncodeSelection | routes/upload.js:116-117 | multer delivers no checked hobby as an absent field, one as a string, and several as an array in order |
| Forms.HobbiesRoundTrip | routes/upload.js:176-181 | normalising what multer delivers for a list of checked hobbies gives back exactly that list, except that a single `""` becomes the empty list |
| Forms.ResumeUrl | routes/upload.js:69-71 | there is a URL iff the resume is a non-empty string, and it is `/api/upload/files/` followed by the resume |
| Forms.ServedFile | routes/upload.js:55 | the static route under `/files` serves, for a URL under the files route, the file named by the rest of the URL |
| Forms.ResumeUrlServesResume | routes/upload.js:55-71 | stripping the files route from a record's `resumeUrl` gives back the record's resume filename, i.e. the file the static route serves |
| Forms.ViewOf | routes/upload.js:150-153 | the response object has the record's id and fields unchanged, and a `resumeUrl` iff the resume is present, equal to `/api/upload/files/` followed by the resume |
| Forms.FromBody | routes/upload.js:186-196 | the record built from a request carries the request's seven text fields and its normalised hobbies, and the given resume |
| Store.Find | routes/upload.js:126-127 | lookup by id finds a document with that id, and finds none iff no document has that id |
| Store.FindAgreesWithRecords | routes/upload.js:126 | with unique ids, lookup succeeds iff the id is a key of the record map, and finds the record the map holds |
| Store.RecordsAppend | routes/upload.js:198 | saving a new document adds its id to the map and keeps every other entry |
| Store.RecordsReplace | routes/upload.js:139-148 | saving an overwritten document changes exactly that id's entry |
| Store.RecordsRemove | routes/upload.js:89 | `findByIdAndDelete` removes exactly that id from the map |
| Store.RemoveKeepsUnique | routes/upload.js:89 | after a removal the remaining ids are still distinct, and are the old ids without the removed one |
| FormService.WithUpload | routes/upload.js:10-21 | the disk storage adds the stored name to the upload directory and changes nothing else; with no stored file the directory is unchanged |
| FormService.List | routes/upload.js:58-75 | GET lists one entry per stored record, in store order, with the id and record unchanged and the record's `resumeUrl` (present exactly when the resume is) |
| FormService.Create | routes/upload.js:168-198 | POST with a refused upload changes nothing; otherwise it appends one record under the next id, carrying the body's fields and the stored name (or none) as resume, adds the stored file to the directory, and answers with the record and its `resumeUrl` |
| FormService.Update | routes/upload.js:108-148 | PUT with a refused upload changes nothing; on a missing id it answers not-found and keeps the records, but the new file stays in the directory; on a found id it overwrites that record as `Overwritten` states |
| FormService.Overwrite | routes/upload.js:126-148 | every text field and the hobbies come from the body, even when absent; with a new file, the resume becomes that file and the old resume file leaves the directory; without one, the resume and the directory are unchanged; no other record changes; the answer is the record with its `resumeUrl` |
| FormService.Delete | routes/upload.js:86-97 | on a missing id it answers not-found with no change; otherwise it removes exactly that document, and the directory loses that record's resume file and nothing else |
| FormService.Handle | routes/upload.js:57-216 | GET changes nothing and answers with the listing; no request decreases the next id |
| ServiceProperties.HandlePreservesValid | routes/upload.js:57-216 | every request keeps ids unique and below the next id |
| ServiceProperties.HandlePreservesFiles | routes/upload.js:86-198 | with fresh upload names, every request keeps each present resume naming a file in the directory, with no two records naming the same file |
| ServiceProperties.CreateRecords | routes/upload.js:186-198 | the new id was not in use, and the record map after POST is the old map plus exactly the new record |
| ServiceProperties.CreateThenList | routes/upload.js:58-75 | after POST, GET lists the earlier listing followed by the new record, which carries the request's fields, has a `resumeUrl` iff a named file was attached, and is the only entry with the new id |
| ServiceProperties.UpdateRecords | routes/upload.js:108-148 | PUT with a refused upload changes nothing; with an accepted one, a missing id leaves the record map unchanged and a present id has exactly that id's record replaced |
| ServiceProperties.UpdateMissingKeepsUpload | routes/upload.js:108-127 | PUT with a file on a missing id changes nothing if the upload is refused; otherwise it answers not-found and keeps the records, yet a named file's generated name is in the directory |
| ServiceProperties.DeleteRecords | routes/upload.js:86-97 | DELETE on a missing id changes nothing; on a present id the map loses exactly that id, a later lookup fails, and the record's resume file is gone while every other file stays |
| ServiceProperties.UpdateOntoOwnResumeLosesFile | routes/upload.js:130-136 | if the stored name of the new file equals the current resume of a record, PUT on that record answers updated, keeps that name as resume, and leaves the name out of the upload directory |
| ServiceProperties.SingleHobbyScenario | routes/upload.js:175-204 | POST `{fullName: "Ann", email: "a@x.com", hobbies: "chess"}` with no file stores `["chess"]` and answers with no `resumeUrl` |

## Left out

- Multer internals and disk I/O. This covers creating the upload directory
  (routes/upload.js:11-16) and streaming bytes. A file is the filename the client
  sent and its size. The upload directory is a set of names.
- `Date.now()` and `Math.random()` (routes/upload.js:18): the suffix is a
  parameter. `TimestampSuffix` models how it is built from two naturals,
  but not where those numbers come from.
- `import path from "path"` is the Windows variant on Windows, where `\`
  and drive prefixes such as `C:` change `extname`. The model follows the
  POSIX variant, as on the Linux hosts the server is deployed to.
- JsValues.ToLower: lowers ASCII letters only. The only non-ASCII
  character that JavaScript lowers to an ASCII letter is KELVIN SIGN, which
  becomes `k`. No allowed extension contains `k`, so the filter's decision
  is the same.
- The CORS middleware, the OPTIONS short-circuit (routes/upload.js:42-52)
  and `express.static` byte serving (routes/upload.js:55). `ServedFile`
  only models the mapping from URL to filename, and URL percent-decoding is
  not modelled.
- Logging, and the 500 responses that come from store or filesystem
  failures. These are failures of foreign calls, so no failing step is
  modelled. A refused upload is modelled as `UploadFailed`; in the source
  it reaches the server's error handler and comes back as a 500.
- multer's LIMIT_UNEXPECTED_FILE error, raised by a second file or by a
  file under a field other than `resume`: a request carries at most one
  file, under `resume`.
- Request bodies that are not multipart. server.js also mounts
  `express.json` and `express.urlencoded`, and `upload.single` lets such
  requests through. There `hobbies` can be `null`, `0`, `false`, a number
  or an object. Only multer's three shapes (missing, a string, an array)
  are modelled.
- Mongoose behaviour: ObjectId generation (a counter here), casting, the
  `createdAt`/`updatedAt` timestamps, `__v`, and lookups by a malformed id
  (ids are naturals here, so a malformed id cannot arise).
- `null` and `undefined` are both modelled as `None`. In the response
  JSON they differ only in whether the key is present.
- A text field other than `hobbies` sent several times reaches Mongoose as
  an array and fails the cast. The model types those fields as optional
  strings, so that case cannot be expressed.
- Store order is modelled as insertion order. The store's natural order is
  not guaranteed in general.
- Concurrent requests and the non-atomic file-then-record sequences. Each
  request is one atomic step.
- server.js, config/db.js and controllers/uploadController.js (the
  Cloudinary wrapper, which no route mounts) are not part of this model.
