/** How both deployments name files in the upload directory: the extension
    test of `upload_file`, the stored name `<timestamp>_<original>` and the
    transcript name `<root>_transcript.txt` of `transcribe_audio`. */
module Naming {
  import opened PyText
  import opened PosixPath

  /** `os.path.splitext(name)[1].lower()`: the lower-cased end of the name,
      empty or starting with '.'. */
  function Extension(name: string): (e: string)
    ensures |e| <= |name|
    ensures e == [] || e[0] == '.'
  {
    Lower(SplitExt(name).1)
  }

  /** The extension is the end of the name, lower-cased. */
  lemma ExtensionIsLoweredTail(name: string)
    ensures Extension(name) == Lower(name[|name| - |Extension(name)|..])
  {
    var (root, ext) := SplitExt(name);
    assert name[|name| - |ext|..] == ext;
  }

  /** `ALLOWED_EXTENSIONS`. */
  const AllowedExtensions: set<string> := {".mp3", ".m4a"}

  /** `file_ext in ALLOWED_EXTENSIONS`; `ExtensionAllowedIff` says which
      names pass without reference to `splitext`. */
  predicate ExtensionAllowed(name: string)
    ensures ExtensionAllowed(name) ==> |name| >= 4
  {
    Extension(name) in AllowedExtensions
  }

  lemma LowerCharKeepsDotAndSlash(c: char)
    ensures LowerChar(c) == '.' <==> c == '.'
    ensures LowerChar(c) == '/' <==> c == '/'
  {
  }

  /** Whatever lowers to an allowed extension is itself an extension. */
  lemma AllowedIsExtension(ext: string)
    requires Lower(ext) in AllowedExtensions
    ensures |ext| == 4 && IsExtension(ext)
  {
    var low := Lower(ext);
    assert |low| == 4;
    assert low[0] == '.';
    assert forall k | 1 <= k < 4 :: low[k] != '.' && low[k] != '/' by {
      if low == ".mp3" {
        assert low[1] == 'm' && low[2] == 'p' && low[3] == '3';
      } else {
        assert low[1] == 'm' && low[2] == '4' && low[3] == 'a';
      }
    }
    forall k | 0 <= k < 4 ensures (k == 0) == (ext[k] == '.') && ext[k] != '/' {
      LowerCharKeepsDotAndSlash(ext[k]);
    }
  }

  /** A name passes the extension test exactly when it ends, in any letter
      case, with ".mp3" or ".m4a" and the rest of its last path component is
      not made of dots alone; so "a.MP3" passes, ".mp3" and "noext" do not. */
  lemma ExtensionAllowedIff(name: string)
    ensures ExtensionAllowed(name) <==>
      && |name| >= 4
      && Lower(name[|name| - 4..]) in AllowedExtensions
      && HasStem(name[..|name| - 4])
  {
    var n := |name|;
    if ExtensionAllowed(name) {
      var (root, ext) := SplitExt(name);
      SplitExtParts(name);
      assert |ext| == 4 && ext != [] by {
        assert |Lower(ext)| == 4;
      }
      assert name[n - 4..] == ext && name[..n - 4] == root by {
        assert name == root + ext;
      }
    }
    if n >= 4 && Lower(name[n - 4..]) in AllowedExtensions && HasStem(name[..n - 4]) {
      var root, ext := name[..n - 4], name[n - 4..];
      AllowedIsExtension(ext);
      assert name == root + ext;
      SplitExtOfJoin(root, ext);
    }
  }

  /** The letter case of the extension does not matter. */
  lemma UpperCaseExtensionAllowed()
    ensures ExtensionAllowed("a.MP3")
  {
    var a := "a.MP3";
    ExtensionAllowedIff(a);
    assert a[..1] == "a" && a[1..] == ".MP3";
    assert LastIndex("a", '/') == -1;
    assert Lower(".MP3") == ".mp3";
  }

  /** A name made of a dot and the extension alone has no extension. */
  lemma BareExtensionRejected()
    ensures !ExtensionAllowed(".mp3")
  {
    ExtensionAllowedIff(".mp3");
    assert ".mp3"[..0] == "";
  }

  /** A name without a dot has no extension. */
  lemma NameWithoutDotRejected()
    ensures !ExtensionAllowed("noext")
  {
    var n := "noext";
    ExtensionAllowedIff(n);
    assert n[1..] == "oext";
  }

  /** Only the last extension counts. */
  lemma LastExtensionDecides()
    ensures !ExtensionAllowed("a.mp3.txt")
  {
    var t := "a.mp3.txt";
    ExtensionAllowedIff(t);
    assert t[5..] == ".txt";
  }

  /** `f"{timestamp}_{filename}"`: the name an upload is stored under. */
  function StoredName(timestamp: string, filename: string): (r: string)
    ensures |r| > |filename| && r[|r| - |filename|..] == filename
  {
    timestamp + "_" + filename
  }

  /** The stored name of an accepted upload has the same extension as the
      client's file name; only the root gains the timestamp prefix. */
  lemma StoredNameKeepsExtension(timestamp: string, filename: string)
    requires ExtensionAllowed(filename)
    ensures SplitExt(StoredName(timestamp, filename))
         == (timestamp + "_" + SplitExt(filename).0, SplitExt(filename).1)
    ensures ExtensionAllowed(StoredName(timestamp, filename))
  {
    assert SplitExt(filename).1 != [] by {
      assert |Lower(SplitExt(filename).1)| == 4;
    }
    SplitExtPrefixed(timestamp + "_", filename);
  }

  /** `f"{os.path.splitext(filename)[0]}_transcript.txt"`: where the transcript
      of an audio file is written. It is never the audio file's own name. */
  function TranscriptName(filename: string): (r: string)
    ensures r != filename
  {
    var (root, ext) := SplitExt(filename);
    assert ext == [] || ext[0] == '.';
    root + "_transcript.txt"
  }

  /** The suffix of every transcript name: a stem-making "_transcript",
      then the extension ".txt", already lower-case. */
  lemma TranscriptSuffixShape()
    ensures "_transcript"[0] != '.'
    ensures forall k | 0 <= k < |"_transcript"| :: "_transcript"[k] != '/'
    ensures IsExtension(".txt") && Lower(".txt") == ".txt"
    ensures "_transcript" + ".txt" == "_transcript.txt"
  {
  }

  /** A transcript name splits into `<root>_transcript` and ".txt". */
  lemma TranscriptNameSplit(filename: string)
    ensures SplitExt(TranscriptName(filename)) == (SplitExt(filename).0 + "_transcript", ".txt")
  {
    var root := SplitExt(filename).0;
    TranscriptSuffixShape();
    assert TranscriptName(filename) == root + "_transcript" + ".txt";
    SplitExtSuffixed(root, "_transcript", ".txt");
  }

  /** A transcript name has the extension ".txt", so it never passes the
      upload extension test and never names an accepted upload. */
  lemma TranscriptNameExtension(filename: string)
    ensures Extension(TranscriptName(filename)) == ".txt"
    ensures !ExtensionAllowed(TranscriptName(filename))
  {
    TranscriptNameSplit(filename);
    TranscriptSuffixShape();
  }

  /** Uploaded audio and transcripts never share a name. */
  lemma TranscriptNeverStoredName(source: string, timestamp: string, filename: string)
    requires ExtensionAllowed(filename)
    ensures TranscriptName(source) != StoredName(timestamp, filename)
  {
    TranscriptNameExtension(source);
    StoredNameKeepsExtension(timestamp, filename);
  }

  /** The transcript of an uploaded file is named after the client's file:
      `<timestamp>_<root>_transcript.txt`. */
  lemma TranscriptOfStoredName(timestamp: string, filename: string)
    requires ExtensionAllowed(filename)
    ensures TranscriptName(StoredName(timestamp, filename))
         == timestamp + "_" + SplitExt(filename).0 + "_transcript.txt"
  {
    StoredNameKeepsExtension(timestamp, filename);
  }
}
