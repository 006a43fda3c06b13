/** The request handlers both deployments share: a passphrase gate in front
    of upload, transcribe and download, all over one flat upload directory.
    A deployment fixes the size ceiling and the MIME table (`Config`); the
    model call is a function the caller passes in, and the upload timestamp
    is a parameter. */
module Gateway {
  import opened Wrappers
  import opened PyText
  import opened Naming
  import opened ResponseParser

  newtype byte = x: int | 0 <= x < 256

  /** The JSON object `transcribe_audio` writes and `download_transcript`
      reads back. */
  datatype Transcript = Transcript(original: string, english: string, timestamps: bool)

  /** A file of the upload directory: uploaded audio, or a transcript. */
  datatype Content = Audio(bytes: seq<byte>) | TranscriptFile(record: Transcript)

  /** The `HTTPException`s the handlers raise. */
  datatype HttpError = Unauthorized | BadRequest | NotFound | InternalError {
    function Status(): int {
      match this
      case Unauthorized => 401
      case BadRequest => 400
      case NotFound => 404
      case InternalError => 500
    }
  }

  datatype Response<T> = Ok(body: T) | Fail(error: HttpError)

  /** The body of a successful upload: the stored name and the byte count. */
  datatype Uploaded = Uploaded(filename: string, size: nat)

  /** The body of a successful transcription. */
  datatype Transcribed = Transcribed(transcript: Transcript, transcriptFile: string)

  /** What `transcribe_audio` sends to the model: the timestamp marker the
      prompt carries (the rest of the prompt is fixed wording), the file's
      content and the MIME type it is declared with. */
  datatype ModelRequest = ModelRequest(timestampFormat: string, data: Content, mimeType: string)

  /** The model's answer: its text, or any failure of the call (network,
      quota, a reply without text). */
  datatype ModelReply = Answered(text: string) | CallFailed

  /** What tells the two deployments apart: `MAX_FILE_SIZE` and the MIME
      type chosen for a lower-cased extension. */
  datatype Config = Config(maxFileSize: nat, mimeType: string -> string)

  /** `passphrase != PASSPHRASE` fails, with either side possibly `None`:
      an unset passphrase admits a request that sends no header. */
  predicate Admits(configured: Option<string>, supplied: Option<string>)
    ensures Admits(configured, supplied) <==>
      || (configured.None? && supplied.None?)
      || (configured.Some? && supplied.Some? && supplied.value == configured.value)
  {
    supplied == configured
  }

  /** `timestamp_format`: the marker the prompt asks the model to use. */
  function TimestampFormat(timestamps: bool): (r: string)
    ensures Contains(r, "[MM:SS]") <==> timestamps
  {
    if timestamps then "[MM:SS]" else ""
  }

  /** The transcript record built from a reply and the request flag. */
  function TranscriptOf(text: string, includeTimestamps: bool): (t: Transcript)
    ensures t.timestamps == includeTimestamps
    ensures !Marked(text) ==> t.original == text && t.english == text
    ensures Marked(text) ==> Trimmed(t.original) && Trimmed(t.english)
    ensures Marked(text) ==> !Contains(t.english, EnglishMarker)
  {
    var sections := Parse(text);
    Transcript(sections.original, sections.english, includeTimestamps)
  }

  /** One deployment: its configuration and the upload directory. */
  class Service {
    const passphrase: Option<string>
    const config: Config
    var files: map<string, Content>

    constructor (passphrase: Option<string>, config: Config, files: map<string, Content>)
      ensures this.passphrase == passphrase && this.config == config
      ensures this.files == files
    {
      this.passphrase := passphrase;
      this.config := config;
      this.files := files;
    }

    /** `authenticate`: the passphrase is a required form field, so it is
        never absent, and an unset passphrase admits nobody here. */
    method Authenticate(supplied: string) returns (res: Response<()>)
      ensures res.Ok? <==> Admits(passphrase, Some(supplied))
      ensures res.Fail? ==> res.error == Unauthorized
    {
      if Some(supplied) != passphrase {
        return Fail(Unauthorized);
      }
      return Ok(());
    }

    /** `upload_file`. The size check raises inside the handler's own `try`,
        so the generic `except` turns it into a 500 and removes whatever was
        stored under the generated name. */
    method Upload(header: Option<string>, filename: string, content: seq<byte>, timestamp: string)
      returns (res: Response<Uploaded>)
      modifies this
      ensures !Admits(passphrase, header) ==> res == Fail(Unauthorized) && files == old(files)
      ensures Admits(passphrase, header) && !ExtensionAllowed(filename) ==>
        res == Fail(BadRequest) && files == old(files)
      ensures Admits(passphrase, header) && ExtensionAllowed(filename) && |content| > config.maxFileSize ==>
        res == Fail(InternalError) && files == old(files) - {StoredName(timestamp, filename)}
      ensures Admits(passphrase, header) && ExtensionAllowed(filename) && |content| <= config.maxFileSize ==>
        && res == Ok(Uploaded(StoredName(timestamp, filename), |content|))
        && files == old(files)[StoredName(timestamp, filename) := Audio(content)]
    {
      if header != passphrase {
        return Fail(Unauthorized);
      }
      var fileExt := Extension(filename);
      if fileExt !in AllowedExtensions {
        return Fail(BadRequest);
      }
      var uniqueFilename := StoredName(timestamp, filename);
      if |content| > config.maxFileSize {
        if uniqueFilename in files {
          files := files - {uniqueFilename};
        }
        return Fail(InternalError);
      }
      files := files[uniqueFilename := Audio(content)];
      return Ok(Uploaded(uniqueFilename, |content|));
    }

    /** `transcribe_audio`. The audio file is removed whether the model call
        succeeds or fails; on success the transcript is written first. */
    method Transcribe(header: Option<string>, filename: string, includeTimestamps: bool,
                      model: ModelRequest -> ModelReply)
      returns (res: Response<Transcribed>, sent: Option<ModelRequest>)
      modifies this
      ensures !Admits(passphrase, header) ==>
        res == Fail(Unauthorized) && sent == None && files == old(files)
      ensures Admits(passphrase, header) && filename !in old(files) ==>
        res == Fail(NotFound) && sent == None && files == old(files)
      ensures Admits(passphrase, header) && filename in old(files) ==>
        sent == Some(ModelRequest(TimestampFormat(includeTimestamps), old(files)[filename],
                                  config.mimeType(Extension(filename))))
      ensures sent.Some? && model(sent.value).CallFailed? ==>
        res == Fail(InternalError) && files == old(files) - {filename}
      ensures sent.Some? && model(sent.value).Answered? ==>
        && res.Ok?
        && res.body == Transcribed(TranscriptOf(model(sent.value).text, includeTimestamps),
                                   TranscriptName(filename))
        && files == (old(files) - {filename})[TranscriptName(filename) := TranscriptFile(res.body.transcript)]
    {
      if header != passphrase {
        return Fail(Unauthorized), None;
      }
      if filename !in files {
        return Fail(NotFound), None;
      }
      var audio := files[filename];
      var fileExt := Extension(filename);
      var mimeType := config.mimeType(fileExt);
      var request := ModelRequest(TimestampFormat(includeTimestamps), audio, mimeType);
      sent := Some(request);
      var reply := model(request);
      if reply.CallFailed? {
        files := files - {filename};
        return Fail(InternalError), sent;
      }
      var transcript := TranscriptOf(reply.text, includeTimestamps);
      var transcriptFilename := TranscriptName(filename);
      ghost var before := files;
      files := files[transcriptFilename := TranscriptFile(transcript)];
      files := files - {filename};
      assert files == (before - {filename})[transcriptFilename := TranscriptFile(transcript)];
      res := Ok(Transcribed(transcript, transcriptFilename));
    }

    /** `download_transcript`: it has no `modifies` clause, so it changes
        nothing. A stored audio file is not JSON, so reading it fails. */
    method Download(header: Option<string>, transcriptFilename: string)
      returns (res: Response<Transcript>)
      ensures !Admits(passphrase, header) ==> res == Fail(Unauthorized)
      ensures Admits(passphrase, header) && transcriptFilename !in files ==> res == Fail(NotFound)
      ensures Admits(passphrase, header) && transcriptFilename in files ==>
        match files[transcriptFilename]
        case TranscriptFile(t) => res == Ok(t)
        case Audio(_) => res == Fail(InternalError)
    {
      if header != passphrase {
        return Fail(Unauthorized);
      }
      if transcriptFilename !in files {
        return Fail(NotFound);
      }
      match files[transcriptFilename]
      case TranscriptFile(t) =>
        return Ok(t);
      case Audio(_) =>
        return Fail(InternalError);
    }
  }

  /** An unset passphrase admits the header-gated handlers to a client that
      sends no header, yet `authenticate` rejects every passphrase. */
  lemma UnsetPassphrase(supplied: string)
    ensures Admits(None, None)
    ensures !Admits(None, Some(supplied))
  {
  }

  /** A client's whole session against a fresh deployment holding `files`:
      it uploads an accepted file, transcribes what was stored and downloads
      the transcript. The download returns the record the transcription
      returned, and the uploaded audio is gone from the directory whether
      the model answered or not. */
  method Session(config: Config, passphrase: Option<string>, files: map<string, Content>,
                 filename: string, content: seq<byte>, timestamp: string,
                 includeTimestamps: bool, model: ModelRequest -> ModelReply)
    returns (uploaded: Response<Uploaded>, transcribed: Response<Transcribed>,
             downloaded: Response<Transcript>, left: map<string, Content>)
    requires ExtensionAllowed(filename) && |content| <= config.maxFileSize
    ensures uploaded == Ok(Uploaded(StoredName(timestamp, filename), |content|))
    ensures StoredName(timestamp, filename) !in left
    ensures transcribed.Ok? || transcribed == Fail(InternalError)
    ensures transcribed.Ok? ==>
      && transcribed.body.transcriptFile == TranscriptName(StoredName(timestamp, filename))
      && downloaded == Ok(transcribed.body.transcript)
  {
    var service := new Service(passphrase, config, files);
    var stored := StoredName(timestamp, filename);
    uploaded := service.Upload(passphrase, filename, content, timestamp);
    assert stored in service.files;
    var sent;
    transcribed, sent := service.Transcribe(passphrase, stored, includeTimestamps, model);
    var transcriptFile := TranscriptName(stored);
    assert transcribed.Ok? ==>
      && transcribed.body.transcriptFile == transcriptFile
      && service.files[transcriptFile] == TranscriptFile(transcribed.body.transcript);
    downloaded := service.Download(passphrase, transcriptFile);
    left := service.files;
  }
}
