/**
 * The three HTTP handlers of the video service -- upload, process, download --
 * over the two directories they share: the upload directory, seen as its
 * listing in the order the file system returns it, and the processed
 * directory, seen as the set of names it holds.
 */
module VideoApi {
  import opened Text
  import opened PathOps
  import opened Naming

  /** A clip length in seconds, as the media library reports it; passed through unchanged. */
  type Seconds = real

  /** An `HTTPException`: status code and detail text. */
  datatype HttpError = HttpError(status: nat, detail: string)

  const UnsupportedFormat: HttpError := HttpError(400, "Only video files are allowed")
  const FileNotFound: HttpError := HttpError(404, "File not found")

  const ProcessingErrorPrefix: string := "Error processing video: "

  /** The 500 a failed transcode becomes: the library's message survives intact after a fixed prefix. */
  function ProcessingFailed(message: string): (e: HttpError)
    ensures e.status == 500
    ensures StartsWith(e.detail, ProcessingErrorPrefix) && e.detail[|ProcessingErrorPrefix|..] == message
  {
    var detail := ProcessingErrorPrefix + message;
    assert detail[..|ProcessingErrorPrefix|] == ProcessingErrorPrefix;
    HttpError(500, detail)
  }

  /** A handler's outcome: its JSON body (or file) on success, the exception otherwise. */
  datatype Response<T> = Ok(body: T) | Err(error: HttpError)

  /** `{"file_id": ..., "original_filename": ...}` */
  datatype UploadBody = UploadBody(fileId: string, originalFilename: string)

  /** `{"status": ..., "original_duration": ..., "processed_file": ...}` */
  datatype ProcessBody = ProcessBody(status: string, originalDuration: Seconds, processedFile: string)

  /** A `FileResponse`: the file streamed and its media type. */
  datatype FileBody = FileBody(path: string, mediaType: string)

  /** What is asked of the media library: read this input, resize to this height (or not), write here. */
  datatype TranscodeRequest = TranscodeRequest(inputPath: string, height: Option<nat>, outputPath: string)

  /**
   * What the media library did: the source's duration on success; on any
   * exception its text, and whether the output file had been created before
   * the failure (a partial file is left where it is).
   */
  datatype TranscodeOutcome = Encoded(duration: Seconds) | Failed(message: string, outputWritten: bool)

  /** The request `process_video` makes for the stored entry `input` it found for `fileId`. */
  function RequestFor(input: string, fileId: string, resolution: Option<string>): (q: TranscodeRequest)
    ensures q.inputPath == Join(UPLOAD_DIR, input)
    ensures q.outputPath == OutputPath(fileId)
    ensures q.height == PresetHeight(EffectiveResolution(resolution))
    ensures q.height.Some? <==> EffectiveResolution(resolution) in {"720p", "480p", "360p"}
    ensures resolution.None? ==> q.height == Some(480)
  {
    TranscodeRequest(Join(UPLOAD_DIR, input), PresetHeight(EffectiveResolution(resolution)), OutputPath(fileId))
  }

  class VideoService {
    /** The names in the upload directory, in listing order. */
    var uploads: seq<string>
    /** The names in the processed directory. */
    var processed: set<string>

    /**
     * A directory listing names each file once. The constructor sets this up
     * and every handler keeps it (`InsertEntry` never duplicates a name); it
     * records a fact about the file system, and no other contract relies on it.
     */
    ghost predicate Valid()
      reads this
    {
      NoDuplicates(uploads)
    }

    /** Start-up: both directories exist (`exist_ok`), with whatever they already hold. */
    constructor (existingUploads: seq<string>, existingProcessed: set<string>)
      requires NoDuplicates(existingUploads)
      ensures Valid()
      ensures uploads == existingUploads && processed == existingProcessed
    {
      uploads := existingUploads;
      processed := existingProcessed;
    }

    /**
     * `POST /upload/`: rejects a name without a video suffix before writing
     * anything; otherwise writes `fileId` + the name's extension into the
     * upload directory and echoes the id and the name.  `fileId` is the fresh
     * uuid and `pos` the place the file system lists a new entry at.
     */
    method UploadVideo(filename: string, fileId: string, pos: nat) returns (r: Response<UploadBody>)
      requires Valid()
      requires IsUuidText(fileId)
      requires pos <= |uploads|
      modifies this
      ensures Valid()
      ensures processed == old(processed)
      ensures r.Ok? <==> IsAcceptedName(filename)
      ensures r.Err? ==> r.error == UnsupportedFormat && uploads == old(uploads)
      ensures r.Ok? ==> r.body == UploadBody(fileId, filename) &&
                        uploads == InsertEntry(old(uploads), StoredName(fileId, filename), pos)
    {
      if !IsAcceptedName(filename) {
        return Err(UnsupportedFormat);
      }
      var fileExtension := SplitExt(filename).1;
      var stored := fileId + fileExtension;
      uploads := InsertEntry(uploads, stored, pos);
      r := Ok(UploadBody(fileId, filename));
    }

    /**
     * `GET /process/{file_id}`: finds the first listed upload starting with
     * `fileId` (404 if there is none), asks the media library to write the
     * artifact `fileId_processed.mp4`, and reports the duration and the
     * download reference, or the library's failure as a 500.
     */
    method ProcessVideo(fileId: string, resolution: Option<string>, transcode: TranscodeRequest -> TranscodeOutcome)
      returns (r: Response<ProcessBody>)
      requires Valid()
      modifies this
      ensures Valid() && uploads == old(uploads)
      ensures r == Err(FileNotFound) <==> FindInput(uploads, fileId).None?
      ensures FindInput(uploads, fileId).None? ==> processed == old(processed)
      ensures FindInput(uploads, fileId).Some? ==>
        var q := RequestFor(FindInput(uploads, fileId).value, fileId, resolution);
        match transcode(q)
        case Encoded(d) =>
          r == Ok(ProcessBody("success", d, DownloadRef(fileId))) &&
          processed == old(processed) + {ArtifactName(fileId)}
        case Failed(msg, written) =>
          r == Err(ProcessingFailed(msg)) &&
          processed == old(processed) + (if written then {ArtifactName(fileId)} else {})
    {
      var files := Matching(uploads, fileId);
      if files == [] {
        return Err(FileNotFound);
      }
      var inputPath := Join(UPLOAD_DIR, files[0]);
      var outputPath := Join(PROCESSED_DIR, ArtifactName(fileId));
      var height := PresetHeight(EffectiveResolution(resolution));
      var outcome := transcode(TranscodeRequest(inputPath, height, outputPath));
      match outcome {
        case Encoded(duration) =>
          processed := processed + {ArtifactName(fileId)};
          r := Ok(ProcessBody("success", duration, DownloadRoute + ArtifactName(fileId)));
        case Failed(message, written) =>
          if written {
            processed := processed + {ArtifactName(fileId)};
          }
          r := Err(ProcessingFailed(message));
      }
    }

    /** `GET /download/{filename}`: the file `processed/filename` as `video/mp4`, or 404. */
    method DownloadFile(filename: string) returns (r: Response<FileBody>)
      ensures r.Ok? <==> filename in processed
      ensures r.Ok? ==> r.body == FileBody(Join(PROCESSED_DIR, filename), "video/mp4")
      ensures r.Err? ==> r.error == FileNotFound
    {
      var filePath := Join(PROCESSED_DIR, filename);
      if filename !in processed {
        return Err(FileNotFound);
      }
      r := Ok(FileBody(filePath, "video/mp4"));
    }
  }

  /**
   * The whole job as a client drives it: an accepted upload is always found
   * by `process`, and when the media library succeeds, following the
   * returned download reference serves exactly the artifact written.
   */
  method UploadProcessDownload(service: VideoService, filename: string, fileId: string, pos: nat,
                               resolution: Option<string>, transcode: TranscodeRequest -> TranscodeOutcome)
    returns (uploaded: Response<UploadBody>, processed: Option<Response<ProcessBody>>,
             downloaded: Option<Response<FileBody>>)
    requires service.Valid() && IsUuidText(fileId) && pos <= |service.uploads|
    modifies service
    ensures service.Valid()
    ensures uploaded.Ok? <==> IsAcceptedName(filename)
    ensures uploaded.Ok? <==> processed.Some?
    ensures processed.Some? ==> processed.value != Err(FileNotFound)
    ensures processed.Some? && processed.value.Ok? ==>
      RouteFilename(processed.value.body.processedFile) == Some(ArtifactName(fileId)) &&
      downloaded == Some(Ok(FileBody(OutputPath(fileId), "video/mp4")))
  {
    uploaded := service.UploadVideo(filename, fileId, pos);
    if uploaded.Err? {
      return uploaded, None, None;
    }
    UploadThenFind(old(service.uploads), fileId, StoredName(fileId, filename), pos);
    ghost var input := FindInput(service.uploads, fileId);
    assert input.Some?;
    var p := service.ProcessVideo(fileId, resolution, transcode);
    processed := Some(p);
    if p.Err? {
      return uploaded, processed, None;
    }
    ghost var q := RequestFor(input.value, fileId, resolution);
    assert transcode(q).Encoded?;
    assert p.body.processedFile == DownloadRef(fileId);
    assert ArtifactName(fileId) in service.processed;
    UuidIsPlainSegment(fileId);
    DownloadRefRoundTrip(fileId);
    var route := RouteFilename(p.body.processedFile);
    var d := service.DownloadFile(route.value);
    downloaded := Some(d);
  }
}
