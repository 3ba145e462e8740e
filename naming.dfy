/**
 * The service's own naming rules: which uploads are accepted, what name an
 * upload is stored under, how a job id finds its stored upload, what the
 * processed artifact and its download reference are called, and which
 * resolution presets exist.
 */
module Naming {
  import opened Text
  import opened PathOps

  const UPLOAD_DIR: string := "uploads"
  const PROCESSED_DIR: string := "processed"

  /** The accepted extensions, as lower-case suffixes of the file name. */
  const VideoSuffixes: set<string> := {".mp4", ".mov", ".avi"}

  // ---------------------------------------------------------------------
  // Upload acceptance and the stored name
  // ---------------------------------------------------------------------

  /** `lowered.endswith(('.mp4', '.mov', '.avi'))`: the tuple form tries each suffix in turn. */
  predicate EndsWithVideoSuffix(lowered: string) {
    EndsWith(lowered, ".mp4") || EndsWith(lowered, ".mov") || EndsWith(lowered, ".avi")
  }

  /**
   * `filename.lower().endswith(('.mp4', '.mov', '.avi'))`: an upload is
   * accepted exactly when its last four characters, lower-cased, are one of
   * the video suffixes.
   */
  predicate IsAcceptedName(filename: string)
    ensures IsAcceptedName(filename) <==>
      |filename| >= 4 && Lower(filename[|filename| - 4..]) in VideoSuffixes
  {
    AcceptedIffLastFour(filename);
    EndsWithVideoSuffix(Lower(filename))
  }

  /** The suffix test on the lower-cased name is decided by its last four characters. */
  lemma AcceptedIffLastFour(filename: string)
    ensures EndsWithVideoSuffix(Lower(filename)) <==>
      |filename| >= 4 && Lower(filename[|filename| - 4..]) in VideoSuffixes
  {
    var n := |filename|;
    if n >= 4 {
      LowerSlice(filename, n - 4, n);
      assert filename[n - 4..n] == filename[n - 4..];
      var t := Lower(filename)[n - 4..];
      assert t == Lower(filename)[n - 4..n];
      assert t in VideoSuffixes <==> t == ".mp4" || t == ".mov" || t == ".avi";
      assert EndsWith(Lower(filename), ".mp4") <==> t == ".mp4";
      assert EndsWith(Lower(filename), ".mov") <==> t == ".mov";
      assert EndsWith(Lower(filename), ".avi") <==> t == ".avi";
    }
  }

  lemma LowerIdempotent(s: string)
    ensures Lower(Lower(s)) == Lower(s)
  {
    forall i | 0 <= i < |s| ensures Lower(Lower(s))[i] == Lower(s)[i] {
      assert Lower(s)[i] == LowerChar(s[i]);
    }
  }

  /** The check is case-insensitive: a name and its lower-cased form are accepted alike. */
  lemma AcceptanceIgnoresCase(filename: string)
    ensures IsAcceptedName(Lower(filename)) == IsAcceptedName(filename)
  {
    LowerIdempotent(filename);
  }

  /** An accepted name ends in a '.' followed by three characters that are neither '.' nor '/'. */
  lemma AcceptedSuffixShape(filename: string)
    requires IsAcceptedName(filename)
    ensures var n := |filename|;
      n >= 4 && filename[n - 4] == '.' && '.' !in filename[n - 3..] && '/' !in filename[n - 3..] &&
      Lower(filename[n - 4..]) in VideoSuffixes
  {
    var n := |filename|;
    var t := filename[n - 4..];
    VideoSuffixShape(t);
    assert filename[n - 4] == t[0] && filename[n - 3..] == t[1..];
  }

  /** Four characters that lower-case to a video suffix are a '.' and three others, none '.' or '/'. */
  lemma VideoSuffixShape(t: string)
    requires |t| == 4 && Lower(t) in VideoSuffixes
    ensures t[0] == '.' && '.' !in t[1..] && '/' !in t[1..]
  {
    var lt := Lower(t);
    assert lt == ".mp4" || lt == ".mov" || lt == ".avi";
    assert LowerChar(t[0]) == lt[0] == '.';
    forall k | 1 <= k < 4 ensures t[k] != '.' && t[k] != '/' {
      assert LowerChar(t[k]) == lt[k];
    }
  }

  /**
   * What `splitext` yields for an accepted name: either exactly its last four
   * characters, in the case the client sent them, or nothing at all -- the
   * latter exactly when everything in the last segment before the suffix is
   * a dot (`.mp4`, `..MOV`, `dir/.avi`).
   */
  lemma AcceptedExtension(filename: string)
    requires IsAcceptedName(filename)
    ensures var n := |filename|; var ext := SplitExt(filename).1;
      n >= 4 &&
      (ext == "" || ext == filename[n - 4..]) &&
      (ext != "" <==> HasNonDot(LastSegment(filename[..n - 4]))) &&
      (ext != "" ==> Lower(ext) in VideoSuffixes)
  {
    AcceptedSuffixShape(filename);
    SplitExtAt(filename, |filename| - 4);
  }

  /**
   * The name an accepted upload is stored under: the job id followed by the
   * `splitext` extension of the client's file name, characters unchanged.
   */
  function StoredName(fileId: string, filename: string): (r: string)
    ensures StartsWith(r, fileId)
    ensures EndsWith(filename, r[|fileId|..])
    ensures '/' !in r[|fileId|..]
  {
    var ext := SplitExt(filename).1;
    assert fileId + ext == (fileId + ext)[..|fileId|] + (fileId + ext)[|fileId|..];
    assert (fileId + ext)[|fileId|..] == ext;
    assert filename[|filename| - |ext|..] == ext;
    fileId + ext
  }

  /**
   * For an accepted upload the stored name is the id alone, or the id
   * followed by the client's last four characters with their case kept.
   */
  lemma StoredNameOfAccepted(fileId: string, filename: string)
    requires IsAcceptedName(filename)
    ensures var n := |filename|; var stored := StoredName(fileId, filename);
      n >= 4 &&
      (stored == fileId <==> !HasNonDot(LastSegment(filename[..n - 4]))) &&
      (stored != fileId ==> stored == fileId + filename[n - 4..] && Lower(filename[n - 4..]) in VideoSuffixes)
  {
    AcceptedExtension(filename);
    var ext := SplitExt(filename).1;
    assert StoredName(fileId, filename) == fileId + ext;
    if ext != "" {
      assert |fileId + ext| > |fileId|;
    }
  }

  /** An upper-case extension passes the check and is stored as sent. */
  lemma UpperCaseExtensionKept(fileId: string)
    ensures IsAcceptedName("a.MP4")
    ensures StoredName(fileId, "a.MP4") == fileId + ".MP4"
  {
    UpperCaseNameAccepted();
    UpperCaseExtensionSplit();
  }

  lemma UpperCaseNameAccepted()
    ensures IsAcceptedName("a.MP4")
  {
    var f := "a.MP4";
    var lf := Lower(f);
    assert lf[1] == LowerChar(f[1]) == '.' && lf[2] == LowerChar(f[2]) == 'm';
    assert lf[3] == LowerChar(f[3]) == 'p' && lf[4] == LowerChar(f[4]) == '4';
    assert lf[|lf| - 4..] == ".mp4";
  }

  lemma UpperCaseExtensionSplit()
    ensures SplitExt("a.MP4").1 == ".MP4"
  {
    var f := "a.MP4";
    assert f[2..] == "MP4" && f[1..] == ".MP4";
    SimpleNameExtension(f, 1);
  }

  /**
   * A slash-free name that does not start with '.' and has its last '.' at
   * `i` has the extension `name[i..]`.
   */
  lemma SimpleNameExtension(f: string, i: nat)
    requires '/' !in f && 0 < i < |f| && f[0] != '.'
    requires f[i] == '.' && '.' !in f[i + 1..]
    ensures SplitExt(f) == (f[..i], f[i..])
  {
    AbsentAfter(f, 0, '/');
    NoSlashIsLastSegment(f[..i]);
    assert f[..i][0] != '.';
    SplitExtAt(f, i);
  }

  /** A name made only of the suffix passes the check but gets no extension. */
  lemma BareSuffixStoredAsId(fileId: string)
    ensures IsAcceptedName(".mp4")
    ensures StoredName(fileId, ".mp4") == fileId
  {
    BareSuffixAccepted();
    BareSuffixHasNoExtension();
  }

  lemma BareSuffixAccepted()
    ensures IsAcceptedName(".mp4")
  {
    var f := ".mp4";
    var lf := Lower(f);
    assert lf[0] == LowerChar(f[0]) == '.' && lf[1] == LowerChar(f[1]) == 'm';
    assert lf[2] == LowerChar(f[2]) == 'p' && lf[3] == LowerChar(f[3]) == '4';
    assert lf[|lf| - 4..] == ".mp4";
  }

  /** A name that is one dot followed by dot-free, slash-free text has no extension. */
  lemma DotNameHasNoExtension(f: string)
    requires |f| > 0 && f[0] == '.' && '.' !in f[1..] && '/' !in f[1..]
    ensures SplitExt(f).1 == ""
  {
    SplitExtAt(f, 0);
    assert LastSegment(f[..0]) == "";
  }

  lemma BareSuffixHasNoExtension()
    ensures SplitExt(".mp4").1 == ""
  {
    var f := ".mp4";
    assert f[1..] == "mp4";
    DotNameHasNoExtension(f);
  }

  // ---------------------------------------------------------------------
  // Job ids
  // ---------------------------------------------------------------------

  predicate IsLowerHexDigit(c: char) {
    '0' <= c <= '9' || 'a' <= c <= 'f'
  }

  /** The text form of a version-4 uuid, `str(uuid.uuid4())`: 8-4-4-4-12 lower-case hex digits. */
  predicate IsUuidText(s: string) {
    |s| == 36 &&
    forall i :: 0 <= i < |s| ==>
      if i == 8 || i == 13 || i == 18 || i == 23 then s[i] == '-' else IsLowerHexDigit(s[i])
  }

  /** A uuid's text is a plain URL path segment: no '/', and nothing a URL would decode or cut at. */
  lemma UuidIsPlainSegment(s: string)
    requires IsUuidText(s)
    ensures '/' !in s && '?' !in s && '#' !in s && '%' !in s
  {
    forall i | 0 <= i < |s| ensures s[i] != '/' && s[i] != '?' && s[i] != '#' && s[i] != '%' {
    }
  }

  // ---------------------------------------------------------------------
  // The upload directory and the lookup of a job's input
  // ---------------------------------------------------------------------

  /** A directory listing names each entry once. */
  predicate NoDuplicates(entries: seq<string>) {
    forall i, j :: 0 <= i < j < |entries| ==> entries[i] != entries[j]
  }

  /**
   * The listing after writing the file `name`: an existing file is
   * overwritten in place, a new one appears at the position `pos` the file
   * system gives it.
   */
  function InsertEntry(entries: seq<string>, name: string, pos: nat): (r: seq<string>)
    requires pos <= |entries|
    ensures forall e :: e in r <==> e in entries || e == name
    ensures multiset(r) == multiset(entries) + (if name in entries then multiset{} else multiset{name})
    ensures NoDuplicates(entries) ==> NoDuplicates(r)
  {
    if name in entries then entries
    else
      var r := entries[..pos] + [name] + entries[pos..];
      assert entries == entries[..pos] + entries[pos..];
      assert multiset(r) == multiset(entries[..pos]) + multiset{name} + multiset(entries[pos..]);
      assert forall e :: e in r <==> e in entries || e == name;
      NoDuplicatesInsert(entries, name, pos);
      r
  }

  lemma NoDuplicatesInsert(entries: seq<string>, name: string, pos: nat)
    requires pos <= |entries| && name !in entries
    ensures NoDuplicates(entries) ==> NoDuplicates(entries[..pos] + [name] + entries[pos..])
  {
    var r := entries[..pos] + [name] + entries[pos..];
    if NoDuplicates(entries) {
      forall i, j | 0 <= i < j < |r| ensures r[i] != r[j] {
        if i < pos && j == pos {
          assert r[i] == entries[i];
        } else if i == pos {
          assert r[j] == entries[j - 1];
        } else {
          assert r[i] == (if i < pos then entries[i] else entries[i - 1]);
          assert r[j] == (if j < pos then entries[j] else entries[j - 1]);
        }
      }
    }
  }

  /** `[f for f in entries if f.startswith(fileId)]`, in listing order. */
  function Matching(entries: seq<string>, fileId: string): (r: seq<string>)
    ensures |r| <= |entries|
    ensures forall e :: e in r ==> e in entries && StartsWith(e, fileId)
    ensures forall e :: e in entries && StartsWith(e, fileId) ==> e in r
  {
    if entries == [] then []
    else if StartsWith(entries[0], fileId) then [entries[0]] + Matching(entries[1..], fileId)
    else Matching(entries[1..], fileId)
  }

  /** The head of `Matching` is the entry at the least matching index. */
  lemma {:induction false} MatchingHead(entries: seq<string>, fileId: string)
    requires Matching(entries, fileId) != []
    ensures exists k :: 0 <= k < |entries| && entries[k] == Matching(entries, fileId)[0] &&
                        (forall j :: 0 <= j < k ==> !StartsWith(entries[j], fileId))
  {
    if StartsWith(entries[0], fileId) {
      assert entries[0] == Matching(entries, fileId)[0];
    } else {
      var rest := entries[1..];
      MatchingHead(rest, fileId);
      var k :| 0 <= k < |rest| && rest[k] == Matching(rest, fileId)[0] &&
        forall j :: 0 <= j < k ==> !StartsWith(rest[j], fileId);
      assert entries[k + 1] == rest[k];
      forall j | 0 <= j < k + 1 ensures !StartsWith(entries[j], fileId) {
        if j > 0 {
          assert entries[j] == rest[j - 1];
        }
      }
    }
  }

  /**
   * The input `process_video` uses for `fileId`: the first listed entry
   * starting with it, or nothing (the 404 case).
   */
  function FindInput(entries: seq<string>, fileId: string): (r: Option<string>)
    ensures r.None? <==> forall i :: 0 <= i < |entries| ==> !StartsWith(entries[i], fileId)
    ensures r.Some? ==>
              StartsWith(r.value, fileId) &&
              exists k :: 0 <= k < |entries| && entries[k] == r.value &&
                          (forall j :: 0 <= j < k ==> !StartsWith(entries[j], fileId))
  {
    var files := Matching(entries, fileId);
    if files == [] then None
    else
      MatchingHead(entries, fileId);
      Some(files[0])
  }

  /**
   * After an upload stored `name` (which starts with the job id), the id finds
   * an input; if no entry started with the id before, that input is `name`.
   */
  lemma UploadThenFind(entries: seq<string>, fileId: string, name: string, pos: nat)
    requires pos <= |entries| && StartsWith(name, fileId)
    ensures FindInput(InsertEntry(entries, name, pos), fileId).Some?
    ensures (forall e :: e in entries ==> !StartsWith(e, fileId)) ==>
      FindInput(InsertEntry(entries, name, pos), fileId) == Some(name)
  {
    var after := InsertEntry(entries, name, pos);
    assert name in after;
    var i :| 0 <= i < |after| && after[i] == name;
    assert StartsWith(after[i], fileId);
    var found := FindInput(after, fileId);
    if forall e :: e in entries ==> !StartsWith(e, fileId) {
      assert found.value in after;
    }
  }

  /** Any prefix of a stored name, even the empty one, finds some input. */
  lemma AnyPrefixFinds(entries: seq<string>, name: string, prefix: string)
    requires name in entries && StartsWith(name, prefix)
    ensures FindInput(entries, prefix).Some?
  {
    var i :| 0 <= i < |entries| && entries[i] == name;
    assert StartsWith(entries[i], prefix);
  }

  /**
   * The lookup itself does not guard against an empty id: it would take the
   * first listed entry, whatever job that belongs to.  The route
   * `/process/{file_id}` never binds an empty path segment, so no request
   * reaches this case through the HTTP interface.
   */
  lemma EmptyIdTakesFirstEntry(entries: seq<string>)
    requires entries != []
    ensures FindInput(entries, "") == Some(entries[0])
  {
    var found := FindInput(entries, "");
    assert StartsWith(entries[0], "");
    var k :| 0 <= k < |entries| && entries[k] == found.value &&
      forall j :: 0 <= j < k ==> !StartsWith(entries[j], "");
    if k > 0 {
      assert StartsWith(entries[0], "");
    }
  }

  // ---------------------------------------------------------------------
  // The processed artifact and its download reference
  // ---------------------------------------------------------------------

  const ProcessedSuffix: string := "_processed.mp4"
  const DownloadRoute: string := "/download/"

  /** `f"{file_id}_processed.mp4"` */
  function ArtifactName(fileId: string): (r: string)
    ensures |r| == |fileId| + |ProcessedSuffix|
    ensures StartsWith(r, fileId) && EndsWith(r, ProcessedSuffix)
  {
    var r := fileId + ProcessedSuffix;
    assert r[|r| - |ProcessedSuffix|..] == ProcessedSuffix;
    r
  }

  /** Distinct job ids never share an artifact. */
  lemma ArtifactNameInjective(a: string, b: string)
    requires ArtifactName(a) == ArtifactName(b)
    ensures a == b
  {
    assert |a| == |b|;
    assert a == ArtifactName(a)[..|a|];
    assert b == ArtifactName(b)[..|b|];
  }

  /** Where `process_video` writes: depends on the job id only. */
  function OutputPath(fileId: string): (r: string)
    ensures r == Join(PROCESSED_DIR, ArtifactName(fileId))
  {
    PROCESSED_DIR + "/" + fileId + ProcessedSuffix
  }

  /** The `processed_file` field of a successful `process_video` response. */
  function DownloadRef(fileId: string): (r: string)
    ensures StartsWith(r, DownloadRoute)
    ensures r[|DownloadRoute|..] == ArtifactName(fileId)
  {
    var r := DownloadRoute + ArtifactName(fileId);
    assert r[..|DownloadRoute|] == DownloadRoute;
    r
  }

  /**
   * The `filename` the route `/download/{filename}` binds for a request
   * path: the single non-empty segment after `/download/`, if there is one.
   */
  function RouteFilename(path: string): (r: Option<string>)
    ensures r.Some? ==> r.value != "" && '/' !in r.value && path == DownloadRoute + r.value
  {
    if StartsWith(path, DownloadRoute) && |path| > |DownloadRoute| && '/' !in path[|DownloadRoute|..] then
      assert path == path[..|DownloadRoute|] + path[|DownloadRoute|..];
      Some(path[|DownloadRoute|..])
    else None
  }

  /** Every non-empty, slash-free segment after `/download/` is bound, and bound whole. */
  lemma RouteBindsSegment(segment: string)
    requires segment != "" && '/' !in segment
    ensures RouteFilename(DownloadRoute + segment) == Some(segment)
  {
    var path := DownloadRoute + segment;
    assert path[..|DownloadRoute|] == DownloadRoute;
    assert path[|DownloadRoute|..] == segment;
  }

  /**
   * The download reference returned by `process_video` routes back to the
   * artifact name, and `download_file` checks exactly the output path.
   */
  lemma DownloadRefRoundTrip(fileId: string)
    requires '/' !in fileId
    ensures RouteFilename(DownloadRef(fileId)) == Some(ArtifactName(fileId))
    ensures Join(PROCESSED_DIR, RouteFilename(DownloadRef(fileId)).value) == OutputPath(fileId)
  {
    var name := ArtifactName(fileId);
    assert name == fileId + ProcessedSuffix;
    forall i | 0 <= i < |name| ensures name[i] != '/' {
      if i < |fileId| {
        assert name[i] == fileId[i];
      } else {
        assert name[i] == ProcessedSuffix[i - |fileId|];
      }
    }
    assert '/' !in name;
  }

  // ---------------------------------------------------------------------
  // Resolution presets
  // ---------------------------------------------------------------------

  /** The `resolution` query parameter, `"480p"` when it is omitted. */
  function EffectiveResolution(query: Option<string>): (r: string)
    ensures query.Some? ==> r == query.value
    ensures query.None? ==> PresetHeight(r) == Some(480)
  {
    query.GetOr("480p")
  }

  /** The target height of a preset; `None` means the clip is written unresized. */
  function PresetHeight(resolution: string): (h: Option<nat>)
    ensures h.Some? <==> resolution in {"720p", "480p", "360p"}
    ensures h.Some? ==> resolution == DecimalText(h.value) + "p"
  {
    if resolution == "720p" then Some(720)
    else if resolution == "480p" then Some(480)
    else if resolution == "360p" then Some(360)
    else None
  }

  /** Every preset height is selected by its own decimal name followed by `p`. */
  lemma PresetNamesSelectHeights(h: nat)
    requires h in {720, 480, 360}
    ensures PresetHeight(DecimalText(h) + "p") == Some(h)
  {
    var name := DecimalText(h) + "p";
    if h == 720 {
      assert name == "720p";
    } else if h == 480 {
      assert name == "480p";
    } else {
      assert name == "360p";
    }
  }
}
