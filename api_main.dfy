/** The deployed service (api/main.py): a 20 MiB ceiling and the standard
    MIME types. */
module ApiMain {
  import opened Wrappers
  import opened PyText
  import opened PosixPath
  import opened Naming
  import opened Gateway

  /** `MAX_FILE_SIZE`: 20 MiB. */
  const MaxFileSize: nat := 20 * 1024 * 1024

  /** The MIME type sent with a lower-cased extension: "audio/mpeg" for
      ".mp3" and for anything unrecognised, "audio/x-m4a" for ".m4a". */
  function MimeType(ext: string): (m: string)
    ensures m == "audio/x-m4a" <==> ext == ".m4a"
    ensures m in {"audio/mpeg", "audio/x-m4a"}
  {
    if ext == ".mp3" then "audio/mpeg"
    else if ext == ".m4a" then "audio/x-m4a"
    else "audio/mpeg"
  }

  const Settings: Config := Config(MaxFileSize, MimeType)

  /** A deployment with this configuration. */
  method Deploy(passphrase: Option<string>, files: map<string, Content>) returns (s: Service)
    ensures fresh(s) && s.passphrase == passphrase && s.files == files
    ensures s.config == Settings
  {
    s := new Service(passphrase, Settings, files);
  }

  /** The MIME type of an accepted upload follows the last four characters
      of the client's file name in any letter case; the timestamp prefix the
      stored name gains does not change it. */
  lemma MimeTypeOfUpload(timestamp: string, filename: string)
    requires ExtensionAllowed(filename)
    ensures MimeType(Extension(StoredName(timestamp, filename)))
         == if Lower(filename[|filename| - 4..]) == ".m4a" then "audio/x-m4a" else "audio/mpeg"
  {
    StoredNameKeepsExtension(timestamp, filename);
    ExtensionAllowedIff(filename);
    var n := |filename|;
    var (root, ext) := SplitExt(filename);
    assert |ext| == 4 by {
      assert |Lower(ext)| == 4;
    }
    assert filename[n - 4..] == ext by {
      assert filename == root + ext;
    }
  }

  /** A file exactly at the ceiling is accepted; one byte more is refused
      with a 500, and nothing stays stored under the generated name. */
  method SizeCeiling(passphrase: Option<string>, files: map<string, Content>,
                     filename: string, timestamp: string, content: seq<byte>)
    returns (atCeiling: Response<Uploaded>, overCeiling: Response<Uploaded>, left: map<string, Content>)
    requires ExtensionAllowed(filename) && |content| == MaxFileSize
    ensures atCeiling == Ok(Uploaded(StoredName(timestamp, filename), 20971520))
    ensures overCeiling == Fail(InternalError) && overCeiling.error.Status() == 500
    ensures left == files - {StoredName(timestamp, filename)}
  {
    var s := Deploy(passphrase, files);
    atCeiling := s.Upload(passphrase, filename, content, timestamp);
    var oneMore := content + [0];
    assert |oneMore| > MaxFileSize;
    var t := Deploy(passphrase, files);
    overCeiling := t.Upload(passphrase, filename, oneMore, timestamp);
    left := t.files;
  }
}
