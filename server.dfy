/** The request handlers of the video-upload service, over its two stores:
    the uploads directory (stored name -> bytes) and the `Video` collection
    (id -> record). Every library step (multer's parse, the disk write, the
    collection's find, save and delete, the file system's unlink) becomes a
    step on those maps, and each step that can fail takes a flag saying
    whether it succeeded. Clock readings, the random number and the new
    document id are parameters. */
module Server {
  import opened Names
  import opened Videos

  newtype byte = x: int | 0 <= x < 256

  /** The multer `limits.fileSize`: 100 MiB. */
  const MaxFileSize: nat := 100 * 1024 * 1024

  /** The code multer gives the error raised when a file exceeds the limit. */
  const LimitFileSize: string := "LIMIT_FILE_SIZE"

  const NoFileMessage: string := "No video file uploaded"
  const TooLargeMessage: string := "File too large"
  const UploadedMessage: string := "Video uploaded successfully!"
  const UploadFailedMessage: string := "Upload failed"
  const FetchVideosFailedMessage: string := "Failed to fetch videos"
  const NotFoundMessage: string := "Video not found"
  const FetchVideoFailedMessage: string := "Failed to fetch video"
  const DeletedMessage: string := "Video deleted successfully"
  const DeleteFailedMessage: string := "Failed to delete video"

  /** The `video` file part of a multipart request, as multer reports it. */
  datatype FilePart = FilePart(originalName: string, mimetype: string, content: seq<byte>)

  /** An error passed on to the error-handling middleware. */
  datatype UploadError =
    | MulterError(code: string, message: string)
    | PlainError(message: string)

  /** The JSON body of a response. */
  datatype Body =
    | ErrorBody(error: string)
    | UploadedBody(message: string, filename: string, originalName: string, size: nat, videoId: VideoId)
    | VideosBody(videos: seq<Video>)
    | VideoBody(video: Video)
    | MessageBody(message: string)

  datatype Response = Response(status: nat, body: Body)

  /** The error-handling middleware: a multer size-limit error answers 400,
      every other error answers 500 with the error's own message. */
  function ErrorHandler(e: UploadError): (resp: Response)
    ensures resp.status == 400 <==> e.MulterError? && e.code == "LIMIT_FILE_SIZE"
    ensures resp.status == 400 ==> resp.body == ErrorBody("File too large")
    ensures resp.status != 400 ==> resp == Response(500, ErrorBody(e.message))
  {
    if e.MulterError? && e.code == LimitFileSize then Response(400, ErrorBody(TooLargeMessage))
    else Response(500, ErrorBody(e.message))
  }

  /** The description sent with the upload, or the empty string when the
      request carries none. */
  function DescriptionOrEmpty(description: Option<string>): string
  {
    match description
    case None => ""
    case Some(d) => d
  }

  /** Multer hands the request on with a file written to the uploads
      directory: there is a file part, the filter accepts it, the write
      succeeds and the size stays within the limit. */
  predicate Admitted(part: Option<FilePart>, dirExists: bool, writeOk: bool)
  {
    && part.Some?
    && FileFilter(part.value.mimetype).Accept?
    && dirExists && writeOk
    && |part.value.content| <= MaxFileSize
  }

  class VideoService {
    /** Whether the uploads directory exists. */
    var uploadsDir: bool
    /** The uploads directory: stored name -> file content. */
    var files: map<string, seq<byte>>
    /** The `Video` collection: document id -> record. */
    var videos: map<VideoId, Video>

    /** Files exist only inside an existing directory; each record is
        stored under its own id and names an entry directly inside the
        uploads directory. */
    ghost predicate Valid()
      reads this
    {
      && (files != map[] ==> uploadsDir)
      && forall id :: id in videos ==> videos[id].id == id && IsUploadName(videos[id].filename)
    }

    /** Every record's file is in the directory. */
    ghost predicate Consistent()
      reads this
    {
      forall id :: id in videos ==> videos[id].filename in files
    }

    /** No two records name the same file. */
    ghost predicate DistinctFilenames()
      reads this
    {
      forall i, j :: i in videos && j in videos && i != j ==> videos[i].filename != videos[j].filename
    }

    /** The file names the records refer to. */
    ghost function RecordedNames(): set<string>
      reads this
    {
      set id | id in videos :: videos[id].filename
    }

    /** Files no record refers to. */
    ghost function Orphans(): set<string>
      reads this
    {
      files.Keys - RecordedNames()
    }

    /** The service as it finds its stores when the process starts. */
    constructor (dirExists: bool, storedFiles: map<string, seq<byte>>, records: map<VideoId, Video>)
      requires storedFiles != map[] ==> dirExists
      requires forall id :: id in records ==> records[id].id == id && IsUploadName(records[id].filename)
      ensures Valid()
      ensures uploadsDir == dirExists && files == storedFiles && videos == records
    {
      uploadsDir, files, videos := dirExists, storedFiles, records;
    }

    /** Startup: create the uploads directory unless it exists. `mkdirOk`
        says whether the creation succeeds; `started` is false when it
        throws, which stops the process. */
    method CreateUploadsDir(mkdirOk: bool) returns (started: bool)
      requires Valid()
      modifies this`uploadsDir
      ensures Valid()
      ensures old(uploadsDir) ==> uploadsDir && started
      ensures !old(uploadsDir) ==> uploadsDir == mkdirOk && started == mkdirOk
    {
      if !uploadsDir {
        if !mkdirOk {
          return false;
        }
        uploadsDir := true;
      }
      started := true;
    }

    /** POST /upload: multer (filter, stored name, write, size limit), then
        the handler (missing file, record insert), then the error
        middleware. `timestamp` and `random` name the file, `writeOk` says
        whether writing it succeeds and `writeError` is the message if not;
        `newId` and `uploadDate` are the id and date the new document gets,
        and `saveOk` says whether the collection accepts it. */
    method Upload(part: Option<FilePart>, description: Option<string>,
                  timestamp: nat, random: nat, writeOk: bool, writeError: string,
                  newId: VideoId, uploadDate: nat, saveOk: bool)
      returns (resp: Response)
      requires Valid()
      modifies this
      ensures Valid() && uploadsDir == old(uploadsDir)
      ensures part.None? ==>
        resp == Response(400, ErrorBody(NoFileMessage)) && files == old(files) && videos == old(videos)
      ensures part.Some? && FileFilter(part.value.mimetype).Reject? ==>
        resp == Response(500, ErrorBody(OnlyVideosMessage)) && files == old(files) && videos == old(videos)
      ensures part.Some? && FileFilter(part.value.mimetype).Accept? && !(old(uploadsDir) && writeOk) ==>
        resp == Response(500, ErrorBody(writeError)) && files == old(files) && videos == old(videos)
      ensures part.Some? && FileFilter(part.value.mimetype).Accept? && old(uploadsDir) && writeOk
              && |part.value.content| > MaxFileSize ==>
        resp == Response(400, ErrorBody(TooLargeMessage)) && files == old(files) && videos == old(videos)
      ensures Admitted(part, old(uploadsDir), writeOk) ==>
        var f := part.value;
        var name := StoredName(timestamp, random, f.originalName);
        && files == old(files)[name := f.content]
        && if saveOk && newId !in old(videos) then
             && videos == old(videos)[newId := Video(newId, name, f.originalName, f.mimetype, |f.content|,
                                                     uploadDate, DescriptionOrEmpty(description))]
             && resp == Response(200, UploadedBody(UploadedMessage, name, f.originalName, |f.content|, newId))
           else
             videos == old(videos) && resp == Response(500, ErrorBody(UploadFailedMessage))
      // an upload that is not answered 200 adds no record
      ensures resp.status != 200 ==> videos == old(videos)
      // a failed insert leaves the written file behind, referred to by no new record
      ensures Admitted(part, old(uploadsDir), writeOk) && resp.status != 200 ==>
        var name := StoredName(timestamp, random, part.value.originalName);
        name in files && (name !in old(RecordedNames()) ==> name in Orphans())
      ensures old(Consistent()) ==> Consistent()
      ensures old(DistinctFilenames())
              && (part.Some? ==> StoredName(timestamp, random, part.value.originalName) !in old(RecordedNames()))
              ==> DistinctFilenames()
    {
      if part.None? {
        return Response(400, ErrorBody(NoFileMessage));
      }
      var file := part.value;
      var verdict := FileFilter(file.mimetype);
      if verdict.Reject? {
        return ErrorHandler(PlainError(verdict.message));
      }
      var name := StoredName(timestamp, random, file.originalName);
      if !(uploadsDir && writeOk) {
        return ErrorHandler(PlainError(writeError));
      }
      if |file.content| > MaxFileSize {
        return ErrorHandler(MulterError(LimitFileSize, TooLargeMessage));
      }
      files := files[name := file.content];
      var record := Video(newId, name, file.originalName, file.mimetype, |file.content|,
                          uploadDate, DescriptionOrEmpty(description));
      var saved := Save(record, saveOk);
      if saved {
        resp := Response(200, UploadedBody(UploadedMessage, name, file.originalName, |file.content|, newId));
      } else {
        resp := Response(500, ErrorBody(UploadFailedMessage));
      }
    }

    /** `video.save()`: inserts the record under its id. It fails when the
        collection cannot be written (`saveOk` false) or already holds a
        document with that id (a duplicate-key error). */
    method Save(record: Video, saveOk: bool) returns (saved: bool)
      requires Valid() && IsUploadName(record.filename)
      modifies this`videos
      ensures Valid()
      ensures saved == (saveOk && record.id !in old(videos))
      ensures videos == if saved then old(videos)[record.id := record] else old(videos)
    {
      saved := saveOk && record.id !in videos;
      if saved {
        videos := videos[record.id := record];
      }
    }

    /** GET /videos: every record, newest first. `findOk` says whether the
        query succeeds. */
    method List(findOk: bool) returns (resp: Response)
      requires Valid()
      ensures !findOk ==> resp == Response(500, ErrorBody(FetchVideosFailedMessage))
      ensures findOk ==>
        && resp.status == 200 && resp.body.VideosBody?
        && NewestFirst(resp.body.videos)
        && multiset(resp.body.videos) == multiset(videos.Values)
        && |resp.body.videos| == |videos|
      ensures findOk && videos != map[] ==>
        && resp.body.VideosBody? && resp.body.videos != []
        && forall id :: id in videos ==> resp.body.videos[0].uploadDate >= videos[id].uploadDate
    {
      if !findOk {
        return Response(500, ErrorBody(FetchVideosFailedMessage));
      }
      var sorted := SortNewestFirst(videos.Values);
      RecordsByIdCount(videos);
      forall id | id in videos ensures sorted != [] && sorted[0].uploadDate >= videos[id].uploadDate {
        assert videos[id] in multiset(sorted);
        var k :| 0 <= k < |sorted| && sorted[k] == videos[id];
      }
      resp := Response(200, VideosBody(sorted));
    }

    /** GET /video/:id. `findOk` says whether the lookup succeeds. */
    method Get(id: VideoId, findOk: bool) returns (resp: Response)
      ensures !findOk ==> resp == Response(500, ErrorBody(FetchVideoFailedMessage))
      ensures findOk && id !in videos ==> resp == Response(404, ErrorBody(NotFoundMessage))
      ensures findOk && id in videos ==> resp == Response(200, VideoBody(videos[id]))
    {
      if !findOk {
        return Response(500, ErrorBody(FetchVideoFailedMessage));
      }
      if id !in videos {
        return Response(404, ErrorBody(NotFoundMessage));
      }
      resp := Response(200, VideoBody(videos[id]));
    }

    /** DELETE /video/:id: look the record up, unlink its file if the file
        exists, then delete the record. `findOk`, `unlinkOk` and `removeOk`
        say whether the lookup, the unlink and the record deletion
        succeed. */
    method Delete(id: VideoId, findOk: bool, unlinkOk: bool, removeOk: bool) returns (resp: Response)
      requires Valid()
      modifies this
      ensures Valid() && uploadsDir == old(uploadsDir)
      ensures !findOk ==>
        resp == Response(500, ErrorBody(DeleteFailedMessage)) && files == old(files) && videos == old(videos)
      ensures findOk && id !in old(videos) ==>
        resp == Response(404, ErrorBody(NotFoundMessage)) && files == old(files) && videos == old(videos)
      ensures findOk && id in old(videos) ==>
        var name := old(videos)[id].filename;
        if name in old(files) && !unlinkOk then
          resp == Response(500, ErrorBody(DeleteFailedMessage)) && files == old(files) && videos == old(videos)
        else
          && files == old(files) - {name}
          && if removeOk then
               videos == old(videos) - {id} && resp == Response(200, MessageBody(DeletedMessage))
             else
               videos == old(videos) && resp == Response(500, ErrorBody(DeleteFailedMessage))
      // the record survives every failure, and a success removes file and record
      ensures resp.status != 200 ==> videos == old(videos)
      ensures resp.status == 200 ==>
        id in old(videos) && id !in videos && old(videos)[id].filename !in files
      ensures old(Consistent() && DistinctFilenames()) && resp.status != 500 ==>
        Consistent() && DistinctFilenames()
      ensures old(DistinctFilenames()) ==> DistinctFilenames()
    {
      if !findOk {
        return Response(500, ErrorBody(DeleteFailedMessage));
      }
      if id !in videos {
        return Response(404, ErrorBody(NotFoundMessage));
      }
      var name := videos[id].filename;
      if name in files {
        if !unlinkOk {
          return Response(500, ErrorBody(DeleteFailedMessage));
        }
        files := files - {name};
      }
      if !removeOk {
        return Response(500, ErrorBody(DeleteFailedMessage));
      }
      videos := videos - {id};
      resp := Response(200, MessageBody(DeletedMessage));
    }

    /** The life of one upload with every step succeeding: the upload is
        answered 200, the listing shows it first when it is the newest
        record, the deletion removes both its file and its record, after
        which a lookup and a second deletion of the id both answer 404. The
        stores end as they began. */
    method UploadRoundTrip(file: FilePart, description: Option<string>, timestamp: nat, random: nat,
                           newId: VideoId, uploadDate: nat)
      returns (uploaded: Response, listed: Response, deleted: Response, fetched: Response, again: Response)
      requires Valid() && uploadsDir
      requires FileFilter(file.mimetype).Accept? && |file.content| <= MaxFileSize
      requires newId !in videos && StoredName(timestamp, random, file.originalName) !in files
      requires forall id :: id in videos ==> videos[id].uploadDate < uploadDate
      modifies this
      ensures uploaded.status == 200 && uploaded.body.UploadedBody? && uploaded.body.videoId == newId
      ensures listed.status == 200 && listed.body.VideosBody? && listed.body.videos != []
      ensures listed.body.videos[0].id == newId && listed.body.videos[0].originalName == file.originalName
      ensures deleted == Response(200, MessageBody(DeletedMessage))
      ensures fetched == Response(404, ErrorBody(NotFoundMessage))
      ensures again == Response(404, ErrorBody(NotFoundMessage))
      ensures files == old(files) && videos == old(videos)
    {
      var name := StoredName(timestamp, random, file.originalName);
      assert Admitted(Some(file), uploadsDir, true);
      ghost var files0, videos0 := files, videos;
      uploaded := Upload(Some(file), description, timestamp, random, true, "", newId, uploadDate, true);
      ghost var record := videos[newId];
      assert files == files0[name := file.content] && videos == videos0[newId := record];
      assert record.filename == name;
      listed := List(true);
      ghost var first := listed.body.videos[0];
      assert first in multiset(videos.Values);
      ghost var k :| k in videos && videos[k] == first;
      assert k == newId;
      deleted := Delete(newId, true, true, true);
      assert files == files0[name := file.content] - {name} && videos == videos0[newId := record] - {newId};
      assert files == files0 && videos == videos0;
      fetched := Get(newId, true);
      again := Delete(newId, true, true, true);
    }
  }
}
