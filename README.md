# Audio transcription gateway, modelled in Dafny

The repository is a small FastAPI service in two near-identical deployments,
`api/main.py` (the deployed one) and `main.py` (local development). A client
authenticates with a passphrase, uploads an `.mp3` or `.m4a` file into a flat
upload directory, asks for it to be transcribed by an external model, and
downloads the resulting transcript. Every handler but `authenticate` reads the
passphrase from a header.

The model keeps the handlers' own shape:

- `PyText` models the Python `str` operations the handlers use on
  `seq<char>`: `in`, `find`, `split`, `join`, `replace`, the argument-less
  `strip` (Python's exact `isspace` set) and `lower`.
- `PosixPath` models `os.path.splitext` as `posixpath` defines it. It keeps
  the rule that leading dots of the last path component do not start an
  extension.
- `Naming` holds the upload extension test, the stored name
  `<timestamp>_<filename>` and the transcript name `<root>_transcript.txt`.
- `ResponseParser` holds the marker split of the model's reply on
  `[ORIGINAL]` / `[ENGLISH]`, including the fallback when a marker is missing.
- `Gateway` holds the passphrase gate and a class `Service` whose field
  `files: map<string, Content>` is the upload directory. `Upload`,
  `Transcribe` and `Download` are methods that change exactly the keys the
  handlers touch. `Authenticate` changes nothing.
- `ApiMain` and `LocalMain` instantiate `Service` with each file's size
  ceiling and MIME table:
  - `ApiMain`: 20 MiB, with `audio/mpeg` / `audio/x-m4a`;
  - `LocalMain`: 19 MiB, with `audio/mp3` / `audio/m4a`.

The external model call is a function parameter
`model: ModelRequest -> ModelReply`. A reply is either text or a failure.
`Transcribe` also returns the request it sent, so a reader can see that no
call is made after a 401 or a 404. The upload timestamp is a parameter.

What the source does and the model keeps:

- **Oversized uploads get 500, not 400.** The `HTTPException(400)` for an
  oversized upload is raised inside the handler's own `try`. The generic
  `except Exception` catches it, so the client gets 500, and any file already
  under the generated name is removed (`api/main.py:78-94`, `main.py:71-87`).
- **The local ceiling is 19 MiB.** `MAX_FILE_SIZE` in `main.py` is
  19·1024·1024, though its comment says 20MB.
- **Text before `[ORIGINAL]` is kept.** The prompt asks for the original
  transcription under `[ORIGINAL]`, before `[ENGLISH]` (`api/main.py:141-146`,
  `main.py:126-130`). The code instead strips the whole prefix before the
  first `[ENGLISH]` after deleting every `[ORIGINAL]`, so text in front of
  `[ORIGINAL]` is kept. The model follows the code
  (`ResponseParser.ParseLaidOut`).
- **Deleting `[ORIGINAL]` can create a new one.** The deletion can bring a
  marker's pieces together, so the original section may still contain a
  marker (`RemovalCanFormOriginalMarker`, `RemovalCanFormEnglishMarker`).
- **An unset passphrase admits a missing header, but not `authenticate`.**
  When `PASSPHRASE` is unset, a request with no header passes the header
  checks (`None != None` is false). The form field of `authenticate` is
  required, so that handler then rejects everyone (`UnsetPassphrase`).

## Model

| member | source | states |
|---|---|---|
| PyText.FindFrom | api/main.py:169 | `find`: the result is an occurrence at or after the start, and no earlier one exists; `in` is "found" |
| PyText.Find | api/main.py:169 | `find` from the start: a result is an occurrence, and no occurrence comes before it (none at all when the result is absent) |
| PyText.Contains | api/main.py:169 | `in`: a pattern is found only when it is no longer than the string, and when it is not found it occurs at no index |
| PyText.OccurrencesApart | api/main.py:169 | two patterns sharing a first character found nowhere else in them, and parting at the second, never overlap |
| PyText.Split | api/main.py:170 | `split`: at least one piece; two or more exactly when the separator occurs; no piece holds the separator |
| PyText.JoinSplit | api/main.py:170 | joining the pieces of `split` with the separator gives back the string |
| PyText.Replace | api/main.py:171 | `replace`: a string without the pattern is returned unchanged |
| PyText.ReplaceIsJoinOfSplit | api/main.py:171 | `replace` equals `split` then `join` with the replacement |
| PyText.RemoveShrinks | api/main.py:171 | deleting a pattern never lengthens the string, and shortens it by at least the pattern's length when it occurs |
| PyText.RemoveIsIdentityIff | api/main.py:171 | deleting a pattern leaves the string unchanged iff the pattern does not occur |
| PyText.StripChars | api/main.py:171-172 | `strip`: the result is no longer than the input, and neither of its ends is a stripped character |
| PyText.StripBounds | api/main.py:171-172 | the stripped string is an infix, with only stripped characters outside it |
| PyText.StripIs | api/main.py:171-172 | any infix with only stripped characters outside it and none at its ends is the result of `strip` |
| PyText.StripIdempotent | api/main.py:171-172 | stripping twice is stripping once |
| PyText.Strip | api/main.py:171-172 | argument-less `strip` over `Whitespace`, Python's exact `isspace` set: no longer than the input, with no whitespace at either end |
| PyText.Lower | api/main.py:66 | `lower` keeps the length and lowers each character |
| PosixPath.LastIndexBelow | api/main.py:66 | `rfind` of one character: the index holds it and no later index does, or -1 |
| PosixPath.LastIndex | api/main.py:66 | the `rfind` that `splitext` uses: the index holds the character and no later index does, or -1 when it is absent |
| PosixPath.LastIndexIs | api/main.py:66 | the `rfind` contract determines the result |
| PosixPath.LastIndexConcat | api/main.py:66 | the last occurrence in `a + b` is the last in `b`, else the last in `a` |
| PosixPath.NonDotFromIff | api/main.py:66 | the leading-dot scan of `splitext` succeeds iff some character in the range is not a dot |
| PosixPath.SplitExt | api/main.py:66 | `splitext`: root and extension concatenate to the path; the extension is empty or starts with '.' |
| PosixPath.SplitExtParts | api/main.py:66 | a non-empty extension has no further '.' or '/', and the root's last component is not dots alone |
| PosixPath.SplitExtOfJoin | api/main.py:66 | `splitext` inverts the concatenation of a root with a stem and an extension |
| PosixPath.SplitExtPrefixed | api/main.py:75 | a prefix joins the root and leaves a non-empty extension in place |
| PosixPath.SplitExtSuffixed | api/main.py:185 | a root with a stem-making suffix and an extension splits just before the extension |
| Naming.Extension | api/main.py:66 | `splitext(name)[1].lower()`: no longer than the name, empty or starting with '.' |
| Naming.ExtensionIsLoweredTail | api/main.py:66 | the extension is the end of the name, lower-cased |
| Naming.ExtensionAllowed | api/main.py:67 | `file_ext in ALLOWED_EXTENSIONS`, with `AllowedExtensions` = {".mp3", ".m4a"} (line 32): an accepted name has at least four characters; `ExtensionAllowedIff` gives the exact test |
| Naming.AllowedIsExtension | api/main.py:32 | whatever lowers to ".mp3" or ".m4a" is a four-character extension |
| Naming.ExtensionAllowedIff | api/main.py:66-67 | a name passes the extension test iff its last four characters lower to ".mp3" or ".m4a" and the rest of its last component is not dots alone |
| Naming.UpperCaseExtensionAllowed | api/main.py:66-67 | "a.MP3" passes the extension test |
| Naming.BareExtensionRejected | api/main.py:66-67 | ".mp3" fails the extension test |
| Naming.NameWithoutDotRejected | api/main.py:66-67 | "noext" fails the extension test |
| Naming.LastExtensionDecides | api/main.py:66-67 | "a.mp3.txt" fails: only the last extension counts |
| Naming.StoredName | api/main.py:75 | the stored name is longer than the client's name and ends with it |
| Naming.StoredNameKeepsExtension | api/main.py:74-75 | the stored name of an accepted file has the same extension, and the root gains the prefix; it passes the test too |
| Naming.TranscriptName | api/main.py:185 | the transcript name is never the audio file's own name |
| Naming.TranscriptSuffixShape | api/main.py:185 | "_transcript" starts a stem and holds no '/'; ".txt" is an extension and already lower-case |
| Naming.TranscriptNameSplit | api/main.py:185 | a transcript name splits into `<root>_transcript` and ".txt" |
| Naming.TranscriptNameExtension | api/main.py:185 | a transcript name has the extension ".txt", so it never passes the upload test |
| Naming.TranscriptNeverStoredName | api/main.py:185 | no transcript name equals the stored name of an accepted upload |
| Naming.TranscriptOfStoredName | api/main.py:185 | the transcript of an upload is `<timestamp>_<root>_transcript.txt` |
| ResponseParser.StripKeepsAbsence | api/main.py:172 | stripping a string free of a pattern leaves it free of it |
| ResponseParser.Marked | api/main.py:169 | both markers occur; they cannot overlap, so a marked reply is at least as long as the two together |
| ResponseParser.MarkersApart | api/main.py:169 | a reply holding both markers holds them side by side, at least 19 characters |
| ResponseParser.Parse | api/main.py:169-176 | without both markers, both sections are the raw reply; with both, both sections are trimmed and the English one holds no "[ENGLISH]" |
| ResponseParser.SectionsByFind | api/main.py:169-172 | with both markers, the original is the stripped prefix before the first "[ENGLISH]" without "[ORIGINAL]"; the English section is the stripped text from there to the next "[ENGLISH]" or the end |
| ResponseParser.SplitLaidOut | api/main.py:170 | in a reply laid out as the prompt asks, `split` cuts just after the original section and just before any second "[ENGLISH]" |
| ResponseParser.ParseLaidOut | api/main.py:169-172 | for `pre [ORIGINAL] orig [ENGLISH] eng [ENGLISH]...`, the sections are `strip(pre + orig)` and `strip(eng)`: text before "[ORIGINAL]" is kept, text after a second "[ENGLISH]" dropped |
| ResponseParser.MarkerIsTrimmed | api/main.py:171-172 | stripping either marker leaves it unchanged |
| ResponseParser.RemovalCanFormOriginalMarker | api/main.py:171 | "[ORIG[ORIGINAL]INAL][ENGLISH]" parses to the original "[ORIGINAL]" |
| ResponseParser.RemovalCanFormEnglishMarker | api/main.py:171 | "[ENG[ORIGINAL]LISH][ENGLISH]" parses to the original "[ENGLISH]" |
| Gateway.TimestampFormat | api/main.py:136 | the prompt carries "[MM:SS]" iff timestamps are requested |
| Gateway.Admits | api/main.py:62-63 | the gate of every protected handler (also lines 52, 108, 210; main.py:45, 55, 101, 191): the supplied value equals the configured one, an absent header counting as equal to an unset passphrase |
| Gateway.TranscriptOf | api/main.py:178-182 | the record's `timestamps` is the request flag; its sections are the raw reply without both markers, trimmed with them |
| Gateway.Service.Authenticate | api/main.py:50-54 | succeeds iff the supplied form value equals the configured passphrase, else 401 |
| Gateway.Service.Upload | api/main.py:56-100 | 401 or 400 leave the directory unchanged; an oversized file gives 500 and removes the generated name; otherwise the content is stored under `<timestamp>_<filename>`, which is returned with the byte count |
| Gateway.Service.Transcribe | api/main.py:102-202 | 401 and 404 leave the directory unchanged and call no model; otherwise the model gets the timestamp marker, the file and its MIME type; a failed call gives 500 and removes the audio; an answer stores the parsed record under the transcript name and removes the audio |
| Gateway.Service.Download | api/main.py:204-223 | 401, then 404 for an absent name; a transcript is returned as stored; it changes nothing |
| Gateway.UnsetPassphrase | api/main.py:50-63 | with the passphrase unset, a missing header is admitted but no `authenticate` form value is |
| Gateway.Session | api/main.py:56-223 | an accepted upload, its transcription and the transcript's download: the upload returns the stored name; the audio is gone afterwards; a transcription either fails with 500 or its record is what the download returns |
| ApiMain.MimeType | api/main.py:123-132 | "audio/x-m4a" exactly for ".m4a", "audio/mpeg" otherwise |
| ApiMain.Deploy | api/main.py:33-34 | a service with the 20 MiB ceiling and this MIME table |
| ApiMain.MimeTypeOfUpload | api/main.py:123-132 | an accepted upload is sent as "audio/x-m4a" iff its name ends in ".m4a" in any case |
| ApiMain.SizeCeiling | api/main.py:78-94 | a file of exactly 20 MiB is stored; one byte more gives 500 and nothing under the generated name |
| LocalMain.MimeType | main.py:116-117 | "audio/mp3" exactly for ".mp3", "audio/m4a" otherwise |
| LocalMain.Deploy | main.py:33-34 | a service with the 19 MiB ceiling and this MIME table |
| LocalMain.MimeTypeOfUpload | main.py:116-117 | an accepted upload is sent as "audio/mp3" iff its name ends in ".mp3" in any case |
| LocalMain.MimeTypesDiffer | main.py:116-117 | the two deployments never send the same MIME type for one extension |
| LocalMain.SizeCeiling | main.py:71-87 | a file of 19 MiB and one byte gives 500 here, while the deployed service stores it |

The handlers of `main.py` (`main.py:43-204`) are the same code as those of
`api/main.py` apart from the ceiling, the MIME table, the prompt wording
(`api/main.py:137-149` against `main.py:121-130`) and the `print` at
`api/main.py:134`, which `main.py` lacks. So `Gateway.Service` models both,
through `LocalMain.Settings` and `ApiMain.Settings`.

## Left out

- The model call (`client.models.generate_content`) is a network API. It is
  the `model` parameter, and the prompt wording is reduced to the timestamp
  marker it carries. A reply whose `text` is missing counts as a failed
  call, since the `in` test on it raises inside the `try`.
- `datetime.now().strftime` is a clock. The timestamp is a parameter, so
  two uploads in the same second under one name are not modelled.
- `json.dumps` / `json.loads` are not modelled. The record is stored as a
  value and read back unchanged.
- Gateway.Service.Download: reading a stored audio file gives 500. The model
  does not decide whether a file's bytes happen to be valid UTF-8 JSON.
- `aiofiles`, real file-system failures (a write or remove that raises), and
  names that `os.path.join` resolves outside the directory's entries are not
  modelled: `..` and `/` (path traversal), and "" or "." (the upload
  directory itself, for which the source answers a transcribe request with
  500, since `os.path.exists` holds but `open` raises, while the model
  answers 404). The directory is a map keyed by name, and every write
  succeeds.
- FastAPI itself is not modelled: routing, request validation (a missing
  `authenticate` form field gives 422 before the handler runs), CORS,
  `load_dotenv`, `os.makedirs`, the `/` liveness route, the `print` calls,
  and the text of error details (including the float-formatted size).
- `str.lower` is modelled on ASCII letters only. Other characters are kept,
  which matters only for names that would lower to ".mp3" or ".m4a" through
  a non-ASCII capital.
- Concurrent requests and file-system races are not modelled.
- PyText.Contains: its own contract states only the length bound and the
  absent direction. The converse, that an occurrence at any index means
  found, is the lemma `ContainsIff`. A quantified statement in the
  predicate's own contract would be carried into every proof that mentions
  `in`.
- Naming.ExtensionAllowed: its own contract only bounds the name's length.
  The exact test is the lemma `ExtensionAllowedIff`, for the same reason.
