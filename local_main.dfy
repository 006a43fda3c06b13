/** The local development service (main.py): a 19 MiB ceiling, and a
    two-way MIME choice that sends everything but ".mp3" as "audio/m4a". */
module LocalMain {
  import opened Wrappers
  import opened PyText
  import opened PosixPath
  import opened Naming
  import opened Gateway
  import ApiMain

  /** `MAX_FILE_SIZE`: 19 MiB, although its comment reads 20MB. */
  const MaxFileSize: nat := 19 * 1024 * 1024

  /** The MIME type sent with a lower-cased extension. */
  function MimeType(ext: string): (m: string)
    ensures m == "audio/mp3" <==> ext == ".mp3"
    ensures m in {"audio/mp3", "audio/m4a"}
  {
    if ext == ".mp3" then "audio/mp3" else "audio/m4a"
  }

  const Settings: Config := Config(MaxFileSize, MimeType)

  /** A deployment with this configuration. */
  method Deploy(passphrase: Option<string>, files: map<string, Content>) returns (s: Service)
    ensures fresh(s) && s.passphrase == passphrase && s.files == files
    ensures s.config == Settings
  {
    s := new Service(passphrase, Settings, files);
  }

  /** The MIME type of an accepted upload follows the last four characters
      of the client's file name in any letter case. */
  lemma MimeTypeOfUpload(timestamp: string, filename: string)
    requires ExtensionAllowed(filename)
    ensures MimeType(Extension(StoredName(timestamp, filename)))
         == if Lower(filename[|filename| - 4..]) == ".mp3" then "audio/mp3" else "audio/m4a"
  {
    StoredNameKeepsExtension(timestamp, filename);
    var n := |filename|;
    var (root, ext) := SplitExt(filename);
    assert |ext| == 4 by {
      assert |Lower(ext)| == 4;
    }
    assert filename[n - 4..] == ext by {
      assert filename == root + ext;
    }
  }

  /** The two deployments agree on nothing they send: the same extension
      always gets different MIME types. */
  lemma MimeTypesDiffer(ext: string)
    ensures MimeType(ext) != ApiMain.MimeType(ext)
  {
  }

  /** A file of 19 MiB plus one byte, which the deployed service stores, is
      refused here with a 500. */
  method SizeCeiling(passphrase: Option<string>, files: map<string, Content>,
                     filename: string, timestamp: string, content: seq<byte>)
    returns (local: Response<Uploaded>, deployed: Response<Uploaded>)
    requires ExtensionAllowed(filename) && |content| == MaxFileSize + 1
    ensures local == Fail(InternalError)
    ensures deployed == Ok(Uploaded(StoredName(timestamp, filename), 19922945))
  {
    var s := Deploy(passphrase, files);
    local := s.Upload(passphrase, filename, content, timestamp);
    var t := ApiMain.Deploy(passphrase, files);
    deployed := t.Upload(passphrase, filename, content, timestamp);
  }
}
