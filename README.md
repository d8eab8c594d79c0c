# Video upload service: storage consistency model

This project models the core of the Express video-upload service in `Server.js`.
The service keeps two stores: the `uploads` directory, a flat map from stored
file name to bytes, and the MongoDB `Video` collection, a map from document id
to metadata record. The model shows what each request handler does to the two
stores, on every path. These paths are:

- success;
- a rejected request: no file, a non-video type, a file over the size limit;
- a failed library step: the disk write, the collection's find, save or
  delete, or the unlink.

Each library step that can fail (multer's write, `video.save()`, `findById`,
`fs.unlinkSync`, `findByIdAndDelete`, `mkdirSync`) becomes a boolean input
saying whether it succeeded. `Date.now()`, `Math.random()` and the new document
id are passed in as naturals.

Files:

- `names.dfy` (module `Names`) holds the pure helpers:
  - the multer file filter (`FileFilter`);
  - Node's POSIX `path.extname` (`ExtName`);
  - the disk storage's file-name builder (`StoredName`);
  - a parser (`ParseStoredName`) that reads a stored name back into its
    timestamp, random number and extension.
- `videos.dfy` (module `Videos`) holds the `Video` record and the listing order
  (`uploadDate` descending).
- `server.dfy` (module `Server`) holds the class `VideoService`. Its fields are
  `uploadsDir`, `files` and `videos`. Its methods are the startup directory
  creation and the `/upload`, `/videos`, `/video/:id` GET and DELETE
  handlers. It also holds the error-handling middleware (`ErrorHandler`).

The invariants that are stated, and where each is kept:

- `Valid()` is kept by every method:
  - files exist only inside an existing directory;
  - each record is stored under its own id;
  - each record's file name is an entry directly inside `uploads/`: it starts
    with `video-` and has no `/`.
- `Consistent()`: every record's file is in the directory.
  - `Upload` keeps it on every path.
  - `Delete` keeps it on every answer other than 500, provided no two records
    name the same file (`DistinctFilenames()`) before the call.
  - It is broken in two ways. First, the unlink succeeds and the record
    deletion then fails: the record stays and names a file that is gone.
    Second, two records share a file after a name collision on upload, and
    one of them is deleted with a 200 answer: the other record names a file
    that is gone.
- `DistinctFilenames()`: no two records name the same file.
  - `Upload` keeps it only when the generated name is not already a record's
    file name.
  - `Delete` keeps it on every path: removing a record or a file cannot
    make two records share a name.

`Orphans()` is not an invariant but a definition: the set of files that no
record names. A failed save after a successful write adds the new file to it.

Behaviour of the code that the model keeps as it is:

- The extension is kept as written. It is not lower-cased.
- A failed metadata save answers 500 "Upload failed". No upload is reported as
  a success without a record id.
- A non-video file is answered 500 with the filter's message, not 400.
- A failed listing answers 500, not an empty list.
- A second delete of the same id answers 404. It is not a silent no-op.
- Stored names are not checked for collisions. An upload whose generated name
  already exists overwrites that file. `Upload` keeps `DistinctFilenames()`
  only when the generated name is not already a record's file name.
- Delete unlinks the file before it deletes the record. When the unlink
  succeeds and the record deletion fails, the answer is 500 and the record
  is left pointing at a file that no longer exists.
- A name collision on upload leaves two records naming one file. Deleting
  either of them unlinks that file and answers 200, and the other record is
  left pointing at a file that no longer exists.

## Model

| member | source | states |
|---|---|---|
| `Names.FileFilter` | Server.js:52-59 | accepts exactly the mimetypes whose first six characters are "video/"; otherwise rejects with "Only video files are allowed!" |
| `Names.StartsWithIsPrefix` | Server.js:54 | the character-by-character `startsWith` agrees with "the prefix of the right length equals the pattern" |
| `Names.ExtNameOfLastSegment` | Server.js:48 | `path.extname` skips trailing separators and takes the extension of the final path segment only |
| `Names.ExtNameShape` | Server.js:48 | an extension is empty or a dot followed by dot-free text, has no '/', and is a tail of the final segment |
| `Names.ExtNameWithoutDot` | Server.js:48 | a name with no dot has an empty extension |
| `Names.ExtNameOfFileName` | Server.js:48 | a final segment `stem.ext` (stem non-empty, ext dot-free, segment not "..") has extension ".ext", case kept as written |
| `Names.ExtNameOfDotFile` | Server.js:48 | a final segment whose only dot is its first character has an empty extension |
| `Names.DecimalRoundTrip` | Server.js:47 | the decimal rendering of a number used in the stored name reads back as that number |
| `Names.StoredName` | Server.js:46-49 | the stored name starts with "video-", contains no '/', and ends with the original name's extension |
| `Names.StoredNameRoundTrip` | Server.js:46-49 | a stored name parses back to exactly its timestamp, random number and the original name's extension |
| `Names.StoredNameInjective` | Server.js:46-49 | two stored names are equal exactly when their timestamps, random numbers and extensions are; the rest of the original name has no influence |
| `Videos.InsertByDate` | Server.js:110 | inserting a record into a listing adds exactly that record |
| `Videos.InsertKeepsOrder` | Server.js:110 | inserting a record into a newest-first listing keeps it newest-first |
| `Videos.SortNewestFirst` | Server.js:110 | the listing is ordered by `uploadDate` descending and holds every record exactly once (multiset equality) |
| `Server.ErrorHandler` | Server.js:154-161 | a multer LIMIT_FILE_SIZE error answers 400 "File too large"; every other error answers 500 with its own message |
| `Server.VideoService.constructor` | Server.js:17-33 | the service starts on the stores as it finds them, with the store invariant established |
| `Server.VideoService.CreateUploadsDir` | Server.js:35-39 | an existing directory is left alone (idempotent); a missing one is created, and a failed creation stops startup |
| `Server.VideoService.Upload` | Server.js:61-105 | no file: 400 "No video file uploaded". Non-video: 500 filter message. Write failure: 500 with its message. Over 100 MiB: 400 "File too large". All four leave both stores unchanged. Otherwise the file is written under the stored name, and a save adds exactly one record (stored name, original name, mimetype, byte count, description or "") and echoes filename, original name, size and id. A failed save answers 500 "Upload failed", adds no record and leaves the file as an orphan. Non-200 answers never add a record. `Consistent()` is kept |
| `Server.VideoService.Save` | Server.js:92 | the record is inserted under its id when the save succeeds and the id is new; otherwise the collection is unchanged |
| `Server.VideoService.List` | Server.js:108-115 | a failed query answers 500; otherwise 200 with every record exactly once (as many entries as records), newest first, the first at least as recent as every record |
| `Videos.RecordsByIdCount` | Server.js:110 | a collection that stores each record under its own id has as many distinct records as ids, so the listing loses none |
| `Server.VideoService.Get` | Server.js:117-128 | a failed lookup answers 500, an unknown id 404 "Video not found", a known id 200 with its record; nothing changes |
| `Server.VideoService.Delete` | Server.js:130-151 | a failed lookup answers 500 and an unknown id 404, with nothing changed. For a known id the file is unlinked first, if it exists: a failed unlink answers 500 and keeps file and record. Then the record is deleted: success answers 200 with both gone, and a failed deletion answers 500 with the record kept but its file gone. Non-200 answers keep every record. `DistinctFilenames()` is kept on every path, and `Consistent()` on every non-500 answer when no two records shared a file before |
| `Server.VideoService.UploadRoundTrip` | Server.js:77-151 | with every step succeeding: an upload answers 200 with the new id; the listing shows it first when it is the newest; a delete removes its file and record; a later lookup and a second delete answer 404; both stores end as they began |

## Left out

- `public/script.js` is not part of this model. It is browser UI, and its
  size formatting uses floating point.
- `server.js` (lowercase) is not part of this model. It passes three SQL
  statements to PostgreSQL and has no logic of its own.
- Express routing, CORS, static file serving, `app.listen` and the mongoose
  connection are left out. Each handler is one atomic step; concurrent
  requests are not modelled.
- Multer's multipart parsing and streaming are left out. The model sees the
  whole file part at once: its original name, mimetype and bytes.
- Server.VideoService.Upload: on a rejected or failed write (size limit or
  write error) the directory is left unchanged. Whether multer removes a
  partly written file is library behaviour and is not modelled.
- Server.VideoService.Upload: a write failure is checked before the size
  limit. The code streams, so which error comes first depends on when the
  write fails.
- Server.VideoService.Upload: multer errors other than the size limit
  (unexpected field name, malformed body) are not generated. `ErrorHandler`
  answers them 500 with their message.
- Timestamps and the random number are inputs. Nothing is proved about their
  uniqueness, because the code does not check for collisions.
  `StoredNameInjective` says exactly when two names collide.
- `Names.Decimal` renders numbers as plain decimal digits. JavaScript switches
  to exponent notation from 1e21, far above any clock reading or the random
  range.
- `Names.ExtName` follows the POSIX `path.extname`. The Windows variant, with
  `\` separators and drive letters, is not modelled.
- Document ids are naturals. A malformed id, which makes `findById` throw,
  is modelled as the lookup's failure flag.
- Response bodies are datatypes. JSON serialisation, including the `__v`
  field, is left out.
- Server.VideoService.Delete: the model assumes the process runs from the
  script's own directory. Multer writes into `uploads/` relative to the
  working directory, while Delete unlinks under the script's directory. From
  any other working directory the file is not found there, is never
  unlinked, and the record is still deleted with a 200 answer. The model has
  a single uploads directory, so its promise that a 200 answer removes the
  file holds only in the first case.
- Server.VideoService.constructor: the collection is assumed to hold only
  records this service wrote: each is stored under its own id and its file
  name starts with `video-` and has no `/`. The code checks nothing at
  startup. A foreign record whose file name holds `/` or `..` would make
  Delete unlink a file outside `uploads/`, which the model cannot express.
- Server.VideoService.List: records with equal `uploadDate` may come in any
  order. The database does not fix the order of ties, so the contract does
  not either.
