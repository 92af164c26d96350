/**
 * The attachment store: the data-URL envelope accepted by
 * `saveFileFromBase64`, the choice of the stored file's extension, its
 * storage name, path and public URL, and the directory guard of
 * `deleteFile`. The upload directory's files are a map from normalized
 * path to bytes; base64 decoding is the function `decode`, and the fresh
 * name `uuidv4()` a parameter.
 */
module FileUpload {
  import opened Types
  import opened Text
  import opened PosixPath

  type Byte = bv8

  /** `uploadUrl`: the public URL prefix of stored files. */
  const UploadUrl: string := "/uploads"

  // ---- the data-URL envelope ----

  /** A character of the regex class `[A-Za-z-+\/]`. */
  predicate IsMediaTypeChar(c: char) {
    ('A' <= c <= 'Z') || ('a' <= c <= 'z') || c == '-' || c == '+' || c == '/'
  }

  /** A character the regex `.` does not match. */
  predicate IsLineTerminator(c: char) {
    c == '\n' || c == '\r' || c == '\U{2028}' || c == '\U{2029}'
  }

  predicate NoLineTerminator(s: string) {
    forall i :: 0 <= i < |s| ==> !IsLineTerminator(s[i])
  }

  /** The two capture groups of a successful match. */
  datatype Envelope = Envelope(mimetype: string, payload: string)

  /**
   * Reference reading of `^data:([A-Za-z-+\/]+);base64,(.+)$`: `s` is
   * "data:", a non-empty media type over the class, ";base64," and a
   * non-empty payload without line terminators.
   */
  ghost predicate IsEnvelope(s: string, mimetype: string, payload: string) {
    && s == "data:" + mimetype + ";base64," + payload
    && |mimetype| >= 1 && (forall i :: 0 <= i < |mimetype| ==> IsMediaTypeChar(mimetype[i]))
    && |payload| >= 1 && NoLineTerminator(payload)
  }

  /** The length of the longest prefix of media-type characters. */
  function MediaTypeRun(s: string): (n: nat)
    ensures n <= |s|
    ensures forall i :: 0 <= i < n ==> IsMediaTypeChar(s[i])
    ensures n < |s| ==> !IsMediaTypeChar(s[n])
  {
    if s != [] && IsMediaTypeChar(s[0]) then 1 + MediaTypeRun(s[1..]) else 0
  }

  /**
   * `base64Data.match(/^data:([A-Za-z-+\/]+);base64,(.+)$/)`. The class
   * excludes ';', so the first group ends at the first character outside
   * the class and no backtracking alternative exists.
   */
  function MatchEnvelope(s: string): Option<Envelope> {
    if !StartsWith(s, "data:") then None
    else
      var rest := s[5..];
      var n := MediaTypeRun(rest);
      if n == 0 || !StartsWith(rest[n..], ";base64,") then None
      else
        var payload := rest[n + 8..];
        if payload == [] || !NoLineTerminator(payload) then None
        else Some(Envelope(rest[..n], payload))
  }

  /** The matcher accepts exactly the envelopes, and returns their two parts. */
  lemma MatchEnvelopeIff(s: string, mimetype: string, payload: string)
    ensures MatchEnvelope(s) == Some(Envelope(mimetype, payload)) <==> IsEnvelope(s, mimetype, payload)
  {
    if IsEnvelope(s, mimetype, payload) {
      EnvelopeMatches(s, mimetype, payload);
    }
    if MatchEnvelope(s) == Some(Envelope(mimetype, payload)) {
      MatchIsEnvelope(s, mimetype, payload);
    }
  }

  /** The run of class characters stops at the first character outside the class. */
  lemma {:induction false} MediaTypeRunStops(m: string, t: string)
    requires forall i :: 0 <= i < |m| ==> IsMediaTypeChar(m[i])
    requires t != [] && !IsMediaTypeChar(t[0])
    ensures MediaTypeRun(m + t) == |m|
  {
    if m == [] {
      assert m + t == t;
    } else {
      assert (m + t)[1..] == m[1..] + t;
      MediaTypeRunStops(m[1..], t);
    }
  }

  lemma EnvelopeMatches(s: string, mimetype: string, payload: string)
    requires IsEnvelope(s, mimetype, payload)
    ensures MatchEnvelope(s) == Some(Envelope(mimetype, payload))
  {
    var tail := ";base64," + payload;
    var rest := s[5..];
    assert s[..5] == "data:";
    assert rest == mimetype + tail;
    assert tail[0] == ';';
    MediaTypeRunStops(mimetype, tail);
    assert rest[..|mimetype|] == mimetype;
    assert rest[|mimetype|..] == tail;
    assert tail[8..] == payload;
  }

  lemma MatchIsEnvelope(s: string, mimetype: string, payload: string)
    requires MatchEnvelope(s) == Some(Envelope(mimetype, payload))
    ensures IsEnvelope(s, mimetype, payload)
  {
    var rest := s[5..];
    var n := MediaTypeRun(rest);
    assert s[..5] == "data:" && rest[..n] == mimetype && rest[n + 8..] == payload;
    assert rest[n..n + 8] == ";base64," by {
      assert rest[n..][..8] == rest[n..n + 8];
    }
    assert rest == rest[..n] + rest[n..n + 8] + rest[n + 8..];
    assert s == s[..5] + rest;
  }

  /** A media type containing a character outside the class (a digit, a '.') is rejected. */
  lemma ForeignCharInTypeRejected(mimetype: string, payload: string, k: nat)
    requires k < |mimetype| && !IsMediaTypeChar(mimetype[k]) && ';' !in mimetype
    ensures MatchEnvelope("data:" + mimetype + ";base64," + payload).None?
  {
    var s := "data:" + mimetype + ";base64," + payload;
    assert s[..5] == "data:";
    var rest := s[5..];
    assert rest == mimetype + ";base64," + payload;
    var n := MediaTypeRun(rest);
    assert rest[k] == mimetype[k];
    assert n <= k;
    assert rest[n] == mimetype[n];
    assert rest[n..][0] != ';';
  }

  /** An empty payload, which is what an empty file encodes to, is rejected. */
  lemma EmptyPayloadRejected(mimetype: string)
    requires ';' !in mimetype
    ensures MatchEnvelope("data:" + mimetype + ";base64,").None?
  {
    var s := "data:" + mimetype + ";base64,";
    assert s[..5] == "data:";
    var rest := s[5..];
    assert rest == mimetype + ";base64,";
    var n := MediaTypeRun(rest);
    assert rest[|mimetype|] == ';';
    assert n <= |mimetype|;
    if n < |mimetype| {
      assert rest[n..][0] == mimetype[n];
    }
  }

  // ---- the stored name ----

  /**
   * `filename.split('.').pop() || fileType.split('/')[1] || 'bin'`: the last
   * '.'-segment of the file name unless it is empty, then the second
   * '/'-segment of the media type unless it is absent or empty, then "bin".
   */
  function Extension(filename: string, fileType: string): string {
    var fromName := LastSegment(filename, '.');
    if fromName != "" then fromName
    else
      var parts := Split(fileType, '/');
      if |parts| > 1 && parts[1] != "" then parts[1] else "bin"
  }

  /** The extension is the text after the last '.' of the name, or the whole name if it has no '.'. */
  lemma ExtensionFromName(filename: string, fileType: string)
    requires filename != "" && filename[|filename| - 1] != '.'
    ensures var ext := Extension(filename, fileType);
      && ext != "" && '.' !in ext
      && |ext| <= |filename| && filename[|filename| - |ext|..] == ext
      && (|ext| < |filename| ==> filename[|filename| - |ext| - 1] == '.')
      && ('.' !in filename ==> ext == filename)
  {
    LastSegmentSpec(filename, '.');
  }

  /** The media type's subtype is used only when the name ends with '.'; "bin" only when that is empty too. */
  lemma ExtensionFallback(filename: string, fileType: string)
    requires filename == "" || filename[|filename| - 1] == '.'
    ensures var parts := Split(fileType, '/');
      Extension(filename, fileType) == if |parts| > 1 && parts[1] != "" then parts[1] else "bin"
  {
    LastSegmentSpec(filename, '.');
  }

  /** A media type the envelope admits has no '.', so no extension contains one. */
  lemma ExtensionHasNoDot(filename: string, fileType: string)
    requires '.' !in fileType
    ensures var ext := Extension(filename, fileType); ext != "" && '.' !in ext
  {
    LastSegmentSpec(filename, '.');
    var parts := Split(fileType, '/');
    if |parts| > 1 {
      SplitPartsIn(fileType, '/');
      assert forall c :: c in parts[1] ==> c in fileType;
    }
  }

  /** Every character of a split part is a character of the string. */
  lemma {:induction false} SplitPartsIn(s: string, sep: char)
    ensures forall j, c :: 0 <= j < |Split(s, sep)| && c in Split(s, sep)[j] ==> c in s
    decreases |s|
  {
    if sep in s {
      var i := IndexOf(s, sep);
      SplitPartsIn(s[i + 1..], sep);
      var parts := Split(s, sep);
      assert parts == [s[..i]] + Split(s[i + 1..], sep);
      forall j, c | 0 <= j < |parts| && c in parts[j] ensures c in s {
        if j == 0 {
          assert c in s[..i];
        } else {
          assert parts[j] == Split(s[i + 1..], sep)[j - 1];
          assert c in s[i + 1..];
        }
      }
    }
  }

  /** The form of a `uuidv4()` string: 36 lower-case hex digits and hyphens. */
  predicate IsUuid(u: string) {
    |u| == 36 && forall i :: 0 <= i < |u| ==> ('0' <= u[i] <= '9') || ('a' <= u[i] <= 'f') || u[i] == '-'
  }

  /** `${uuidv4()}.${extension}`. */
  function StoredName(uuid: string, extension: string): string {
    uuid + "." + extension
  }

  /** `path.join(uploadDir, uniqueFilename)`. */
  function StoragePath(uploadDir: string, name: string): string {
    PathJoin([uploadDir, name])
  }

  /** `${uploadUrl}/${uniqueFilename}`. */
  function PublicUrl(name: string): string {
    UploadUrl + "/" + name
  }

  /** `path` names an entry directly inside `dir`: the only directory the store has. */
  predicate IsDirectChild(dir: string, path: string) {
    |path| > |dir| + 1 && path[..|dir| + 1] == dir + "/" && '/' !in path[|dir| + 1..]
  }

  // ---- where the stored file lies ----

  lemma SplitSepFreePrefix(u: string, x: string, sep: char)
    requires sep !in u
    ensures Split(u + x, sep) == [u + Split(x, sep)[0]] + Split(x, sep)[1..]
  {
    if sep in x {
      SplitSepFreePrefixAt(u, x, sep, IndexOf(x, sep));
    } else {
      assert sep !in u + x;
      ConsParts(x, []);
    }
  }

  lemma SplitSepFreePrefixAt(u: string, x: string, sep: char, i: nat)
    requires sep !in u && i < |x| && x[i] == sep && sep !in x[..i]
    ensures Split(u + x, sep) == [u + Split(x, sep)[0]] + Split(x, sep)[1..]
  {
    var s := u + x;
    var rest := Split(x[i + 1..], sep);
    assert Split(s, sep) == [u + x[..i]] + rest by {
      ConcatAround(u, x, i);
      NotInConcat(u, x[..i], sep);
      SplitAt(s, sep, |u| + i);
    }
    assert Split(x, sep) == [x[..i]] + rest by {
      SplitAt(x, sep, i);
    }
    ConsParts(x[..i], rest);
  }

  lemma NotInConcat(a: string, b: string, c: char)
    requires c !in a && c !in b
    ensures c !in a + b
  {
  }

  /** Cutting `u + x` around position `i` of `x`. */
  lemma ConcatAround(u: string, x: string, i: nat)
    requires i < |x|
    ensures (u + x)[|u| + i] == x[i]
    ensures (u + x)[..|u| + i] == u + x[..i] && (u + x)[|u| + i + 1..] == x[i + 1..]
  {
  }

  lemma ConsParts(head: string, rest: seq<string>)
    ensures ([head] + rest)[0] == head && ([head] + rest)[1..] == rest
  {
  }

  /** Every segment is empty or plain; the first one is plain. */
  predicate BlankOrPlain(segs: seq<string>) {
    forall j :: 0 <= j < |segs| ==> segs[j] == "" || IsPlainSegment(segs[j])
  }

  /** The segments of a string without '.' have no '.' either. */
  lemma DotFreeSegments(ext: string)
    requires '.' !in ext
    ensures var e := Split(ext, '/'); forall j :: 0 <= j < |e| ==> '.' !in e[j]
  {
    SplitPartsIn(ext, '/');
  }

  lemma UuidPrefixSlashFree(uuid: string)
    requires IsUuid(uuid)
    ensures '/' !in uuid + "."
  {
    assert forall c :: c in uuid ==> c != '/';
  }

  /** The segments of a stored name: a first one holding the uuid, then segments of the extension. */
  lemma StoredNameSegments(uuid: string, ext: string)
    requires IsUuid(uuid) && '.' !in ext
    ensures var segs := Split(StoredName(uuid, ext), '/');
      IsPlainSegment(segs[0]) && BlankOrPlain(segs)
  {
    var u := uuid + ".";
    UuidPrefixSlashFree(uuid);
    assert StoredName(uuid, ext) == u + ext;
    SplitSepFreePrefix(u, ext, '/');
    var segs := Split(u + ext, '/');
    var e := Split(ext, '/');
    DotFreeSegments(ext);
    SplitPartsSepFree(ext, '/');
    assert segs[0] == u + e[0];
    assert |segs[0]| >= 37;
    forall j | 1 <= j < |segs| ensures segs[j] == "" || IsPlainSegment(segs[j]) {
      assert segs[j] == e[j];
    }
  }

  lemma {:induction false} NonEmptyPlain(segs: seq<string>)
    requires BlankOrPlain(segs)
    ensures AllPlain(NonEmpty(segs))
  {
    if segs != [] {
      assert BlankOrPlain(segs[1..]) by {
        assert forall j :: 0 <= j < |segs| - 1 ==> segs[1..][j] == segs[j + 1];
      }
      NonEmptyPlain(segs[1..]);
    }
  }

  /** `path.join(dir, name)` of two non-empty arguments normalizes their '/'-join. */
  lemma JoinOfTwo(dir: string, name: string)
    requires dir != "" && name != ""
    ensures PathJoin([dir, name]) == Normalize(dir + ['/'] + name)
  {
    assert [dir, name][1..] == [name];
    assert |[name][1..]| == 0;
    assert NonEmpty([name]) == [name];
    assert NonEmpty([dir, name]) == [dir, name];
    assert Join([name], '/') == name;
    assert Join([dir, name], '/') == dir + ['/'] + Join([name], '/');
  }

  lemma SplitBelow(dir: string, name: string)
    requires IsCleanAbsolute(dir)
    ensures Split(dir + ['/'] + name, '/') == [""] + Split(dir[1..], '/') + Split(name, '/')
  {
    CleanAbsoluteShape(dir);
    SplitAppend(dir, name, '/');
  }

  lemma ResolveBelow(d: seq<string>, sn: seq<string>)
    requires AllPlain(d) && BlankOrPlain(sn)
    ensures Resolve([], [""] + d + sn, false) == d + NonEmpty(sn)
  {
    var all := [""] + d + sn;
    assert BlankOrPlain(all) by {
      forall j | 0 <= j < |all| ensures all[j] == "" || IsPlainSegment(all[j]) {
        if j > |d| {
          assert all[j] == sn[j - 1 - |d|];
        }
      }
    }
    ResolveWithoutParent([], all, false);
    NonEmptyAppend([""] + d, sn);
    NonEmptyAppend([""], d);
    NonEmptyOfNonEmpty(d);
  }

  /** "/" and the segments of `dir`, then more segments, is `dir` and '/' and those. */
  lemma PlainPathBelow(dir: string, k: seq<string>, t: bool)
    requires IsCleanAbsolute(dir) && k != []
    ensures PlainPath(Split(dir[1..], '/') + k, t) == dir + "/" + Join(k, '/') + (if t then "/" else "")
  {
    var segs := Split(dir[1..], '/');
    CleanAbsoluteShape(dir);
    JoinAppend(segs, k, '/');
    SlashAssoc(Join(segs, '/'), Join(k, '/'), if t then "/" else "");
  }

  lemma SlashAssoc(a: string, c: string, d: string)
    ensures "/" + (a + ['/'] + c) + d == ("/" + a) + "/" + c + d
  {
  }

  /** The non-empty segments of a name whose first segment is plain. */
  lemma NonEmptyFirst(sn: seq<string>)
    requires sn != [] && IsPlainSegment(sn[0]) && BlankOrPlain(sn)
    ensures NonEmpty(sn) != [] && AllPlain(NonEmpty(sn))
  {
    NonEmptyPlain(sn);
    assert sn == [sn[0]] + sn[1..];
    NonEmptyAppend([sn[0]], sn[1..]);
  }

  /**
   * Joining a clean absolute directory with a name free of dot segments
   * only drops the name's empty segments: the result is the directory, '/',
   * and the name's remaining segments.
   */
  lemma NormalizeBelow(dir: string, name: string)
    requires IsCleanAbsolute(dir) && name != ""
    requires var sn := Split(name, '/'); IsPlainSegment(sn[0]) && BlankOrPlain(sn)
    ensures var k := NonEmpty(Split(name, '/'));
      var t := name[|name| - 1] == '/';
      && k != [] && AllPlain(k)
      && Normalize(dir + ['/'] + name) == PlainPath(Split(dir[1..], '/') + k, t)
      && PlainPath(Split(dir[1..], '/') + k, t) == dir + "/" + Join(k, '/') + (if t then "/" else "")
  {
    var d := Split(dir[1..], '/');
    var sn := Split(name, '/');
    var joined := dir + ['/'] + name;
    SplitBelow(dir, name);
    ResolveBelow(d, sn);
    NonEmptyFirst(sn);
    var k := NonEmpty(sn);
    assert Resolve([], Split(joined, '/'), false) == d + k;
    AbsoluteNormalForm(joined);
    assert joined[|joined| - 1] == name[|name| - 1];
    PlainPathBelow(dir, k, name[|name| - 1] == '/');
  }

  /** The stored file's path is normal and lies below the upload directory. */
  lemma StoragePathInside(dir: string, uuid: string, ext: string)
    requires IsCleanAbsolute(dir) && IsUuid(uuid) && '.' !in ext
    ensures var path := StoragePath(dir, StoredName(uuid, ext));
      StartsWith(path, dir + "/") && Normalize(path) == path
  {
    var k, t := StoragePathShape(dir, uuid, ext);
    var path := StoragePath(dir, StoredName(uuid, ext));
    var rest := Join(k, '/') + (if t then "/" else "");
    assert path == PlainPath(Split(dir[1..], '/') + k, t) && path == dir + "/" + rest;
    PlainBelowNormal(dir, k, t);
    PrefixOfAppend(dir + "/", rest);
  }

  /** Plain segments appended below a clean directory give a normal path. */
  lemma PlainBelowNormal(dir: string, k: seq<string>, t: bool)
    requires IsCleanAbsolute(dir) && k != [] && AllPlain(k)
    ensures var p := PlainPath(Split(dir[1..], '/') + k, t); Normalize(p) == p
  {
    var d := Split(dir[1..], '/');
    AllPlainAppend(d, k);
    NormalizePlain(d + k, t);
  }

  /** The stored file's path: the directory's segments, then the name's non-empty ones. */
  lemma StoragePathShape(dir: string, uuid: string, ext: string) returns (k: seq<string>, t: bool)
    requires IsCleanAbsolute(dir) && IsUuid(uuid) && '.' !in ext
    ensures var name := StoredName(uuid, ext);
      && k == NonEmpty(Split(name, '/')) && t == (name[|name| - 1] == '/')
      && k != [] && AllPlain(k)
      && StoragePath(dir, name) == PlainPath(Split(dir[1..], '/') + k, t)
      && StoragePath(dir, name) == dir + "/" + Join(k, '/') + (if t then "/" else "")
  {
    var name := StoredName(uuid, ext);
    k, t := NonEmpty(Split(name, '/')), name[|name| - 1] == '/';
    JoinOfTwo(dir, name);
    StoredNameSegments(uuid, ext);
    NormalizeBelow(dir, name);
  }

  lemma AllPlainAppend(a: seq<string>, b: seq<string>)
    requires AllPlain(a) && AllPlain(b)
    ensures AllPlain(a + b)
  {
    forall i | 0 <= i < |a + b| ensures IsPlainSegment((a + b)[i]) {
      if i < |a| {
        assert (a + b)[i] == a[i];
      } else {
        assert (a + b)[i] == b[i - |a|];
      }
    }
  }

  lemma PrefixOfAppend(p: string, rest: string)
    ensures StartsWith(p + rest, p)
  {
    assert (p + rest)[..|p|] == p;
  }

  /** A name without '/' is stored directly in the upload directory. */
  lemma StoragePathDirect(dir: string, uuid: string, ext: string)
    requires IsCleanAbsolute(dir) && IsUuid(uuid) && '.' !in ext && '/' !in ext
    ensures StoragePath(dir, StoredName(uuid, ext)) == dir + "/" + StoredName(uuid, ext)
    ensures IsDirectChild(dir, StoragePath(dir, StoredName(uuid, ext)))
  {
    var name := StoredName(uuid, ext);
    assert '/' !in name;
    JoinOfTwo(dir, name);
    StoredNameSegments(uuid, ext);
    NormalizeBelow(dir, name);
    var single: seq<string> := [name];
    assert Split(name, '/') == single;
    assert single[1..] == [];
    assert NonEmpty(single) == single;
    assert name[|name| - 1] in name;
    var path := dir + "/" + name;
    assert path[..|dir| + 1] == dir + "/";
    assert path[|dir| + 1..] == name;
  }

  /** The path "/" + segments with no trailing slash is clean. */
  lemma PlainPathClean(r: seq<string>)
    requires r != [] && AllPlain(r)
    ensures IsCleanAbsolute(PlainPath(r, false))
  {
    var p := PlainPath(r, false);
    PlainPathLast(r);
    assert p[1..] == Join(r, '/');
    JoinSplitPlain(r);
  }

  lemma JoinOfThree(cwd: string)
    requires cwd != ""
    ensures PathJoin([cwd, "public", "uploads"]) == Normalize(cwd + ['/'] + ("public" + ['/'] + "uploads"))
  {
    var args := [cwd, "public", "uploads"];
    assert args[1..] == ["public", "uploads"];
    assert args[1..][1..] == ["uploads"];
    assert |["uploads"][1..]| == 0;
    assert NonEmpty(["uploads"]) == ["uploads"];
    assert NonEmpty(["public", "uploads"]) == ["public", "uploads"];
    assert NonEmpty(args) == args;
    assert Join(["uploads"], '/') == "uploads";
    assert Join(["public", "uploads"], '/') == "public" + ['/'] + "uploads";
  }

  /** Two separator-free parts joined by the separator split back into the two. */
  lemma SplitTwo(a: string, b: string, sep: char)
    requires sep !in a && sep !in b
    ensures Split(a + [sep] + b, sep) == [a, b]
  {
    SplitAppend(a, b, sep);
    SplitOfFree(a, sep);
    SplitOfFree(b, sep);
  }

  lemma SplitPublicUploads()
    ensures Split("public" + ['/'] + "uploads", '/') == ["public", "uploads"]
  {
    SplitTwo("public", "uploads", '/');
  }

  /** `path.join(cwd, 'public', 'uploads')` of an absolute `cwd` is a clean absolute path. */
  lemma UploadDirClean(cwd: string)
    requires cwd != "" && cwd[0] == '/'
    ensures IsCleanAbsolute(PathJoin([cwd, "public", "uploads"]))
  {
    var joined := cwd + ['/'] + ("public" + ['/'] + "uploads");
    JoinOfThree(cwd);
    var r := UploadDirResolve(cwd);
    AbsoluteNormalForm(joined);
    assert joined[|joined| - 1] == 's';
    PlainPathClean(r);
  }

  /** The segments of `<cwd>/public/uploads` resolve to plain segments ending in the two names. */
  lemma UploadDirResolve(cwd: string) returns (r: seq<string>)
    ensures r == Resolve([], Split(cwd, '/'), false) + ["public", "uploads"]
    ensures Resolve([], Split(cwd + ['/'] + ("public" + ['/'] + "uploads"), '/'), false) == r
    ensures r != [] && AllPlain(r)
  {
    var tail := ["public", "uploads"];
    var sc := Split(cwd, '/');
    SplitPublicUploads();
    SplitAppend(cwd, "public" + ['/'] + "uploads", '/');
    SplitPartsSepFree(cwd, '/');
    ResolveAppend([], sc, tail, false);
    var r0 := Resolve([], sc, false);
    ResolveAbsolutePlain([], sc);
    ResolveWithoutParent(r0, tail, false);
    PublicUploadsPlain();
    r := r0 + tail;
    AllPlainAppend(r0, tail);
  }

  lemma PublicUploadsPlain()
    ensures NonEmpty(["public", "uploads"]) == ["public", "uploads"]
    ensures AllPlain(["public", "uploads"])
  {
    assert ["public", "uploads"][1..] == ["uploads"];
    assert |["uploads"][1..]| == 0;
  }

  // ---- the guard of deleteFile ----

  lemma SplitSepFreeSuffix(x: string, y: string, sep: char)
    requires sep !in y
    ensures var p := Split(x, sep);
      Split(x + y, sep) == p[..|p| - 1] + [p[|p| - 1] + y]
  {
    if sep in x {
      var init, last := LastCut(x, sep);
      CutAppend(init, last, y, sep);
      SplitLastFree(init, last, sep);
      SplitLastFree(init, last + y, sep);
      AppendLast(Split(init, sep), last, y);
    } else {
      assert sep !in x + y;
    }
  }

  /** A string holding a separator is the text before its last one, the separator and the rest. */
  lemma LastCut(x: string, sep: char) returns (init: string, last: string)
    requires sep in x
    ensures x == init + [sep] + last && sep !in last
  {
    LastSegmentSpec(x, sep);
    last := LastSegment(x, sep);
    init := x[..|x| - |last| - 1];
    SliceAround(x, |x| - |last| - 1);
  }

  lemma CutAppend(init: string, last: string, y: string, sep: char)
    ensures init + [sep] + last + y == init + [sep] + (last + y)
  {
  }

  /** Splitting at a last separator-free part. */
  lemma SplitLastFree(init: string, last: string, sep: char)
    requires sep !in last
    ensures Split(init + [sep] + last, sep) == Split(init, sep) + [last]
  {
    SplitAppend(init, last, sep);
  }

  lemma AppendLast(p: seq<string>, last: string, y: string)
    ensures var q := p + [last];
      p + [last + y] == q[..|q| - 1] + [q[|q| - 1] + y]
  {
    var q := p + [last];
    assert q[..|q| - 1] == p;
  }

  /** Splitting `x + y + [sep] + f` where neither `y` nor `f` holds the separator. */
  lemma SplitSuffixThenPart(x: string, y: string, f: string, sep: char)
    requires sep !in y && sep !in f
    ensures var p := Split(x, sep);
      Split(x + y + [sep] + f, sep) == p[..|p| - 1] + [p[|p| - 1] + y] + [f]
  {
    SplitSepFreeSuffix(x, y, sep);
    SplitAppend(x + y, f, sep);
    SplitOfFree(f, sep);
  }

  lemma SiblingClean(dir: string, f: string)
    requires IsCleanAbsolute(dir) && IsPlainSegment(f)
    ensures IsCleanAbsolute(dir + "-old/" + f)
  {
    var q := dir + "-old/" + f;
    SiblingPlain(dir, f);
    assert q[|q| - 1] != '/' by {
      assert q[|q| - 1] == f[|f| - 1];
      assert f[|f| - 1] in f;
    }
    assert q[0] == '/';
  }

  lemma SiblingPlain(dir: string, f: string)
    requires IsCleanAbsolute(dir) && IsPlainSegment(f)
    ensures AllPlain(Split((dir + "-old/" + f)[1..], '/'))
  {
    var x := dir[1..];
    var d := Split(x, '/');
    var segs := d[..|d| - 1] + [d[|d| - 1] + "-old"] + [f];
    assert Split((dir + "-old/" + f)[1..], '/') == segs by {
      assert (dir + "-old/" + f)[1..] == x + "-old" + ['/'] + f;
      assert '/' !in "-old";
      SplitSuffixThenPart(x, "-old", f, '/');
    }
    RenamedLastPlain(d, f);
  }

  /** Renaming the last plain segment to `last + "-old"` and appending `f` keeps every segment plain. */
  lemma RenamedLastPlain(d: seq<string>, f: string)
    requires d != [] && AllPlain(d) && IsPlainSegment(f)
    ensures AllPlain(d[..|d| - 1] + [d[|d| - 1] + "-old"] + [f])
  {
    var last := d[|d| - 1] + "-old";
    assert IsPlainSegment(last) by {
      assert |last| >= 5;
      assert '/' !in d[|d| - 1];
      assert '/' !in "-old";
    }
    var segs := d[..|d| - 1] + [last] + [f];
    forall j | 0 <= j < |segs| ensures IsPlainSegment(segs[j]) {
      if j < |d| - 1 {
        assert segs[j] == d[j];
      }
    }
  }

  /**
   * The guard compares strings, not segments: a sibling directory whose name
   * extends the upload directory's last segment passes it.
   */
  lemma SiblingPassesGuard(dir: string, f: string)
    requires IsCleanAbsolute(dir) && IsPlainSegment(f)
    ensures var q := dir + "-old/" + f;
      && StartsWith(Normalize(q), dir)
      && !StartsWith(Normalize(q), dir + "/")
      && Normalize(q) != dir
  {
    var q := dir + "-old/" + f;
    SiblingClean(dir, f);
    NormalizeClean(q);
    assert q[..|dir|] == dir;
    assert q[|dir|] == '-';
  }

  // ---- when the write lands in the upload directory ----

  /** A '/'-join of two or more pieces contains the separator. */
  lemma JoinOfSeveralHasSep(parts: seq<string>, sep: char)
    requires |parts| >= 2
    ensures sep in Join(parts, sep)
  {
    assert Join(parts, sep)[|parts[0]|] == sep;
  }

  lemma {:induction false} NonEmptyFirstAndLast(sn: seq<string>)
    requires |sn| >= 2 && sn[0] != "" && sn[|sn| - 1] != ""
    ensures |NonEmpty(sn)| >= 2
  {
    var mid := sn[1..|sn| - 1];
    assert sn == [sn[0]] + (mid + [sn[|sn| - 1]]);
    NonEmptyAppend([sn[0]], mid + [sn[|sn| - 1]]);
    NonEmptyAppend(mid, [sn[|sn| - 1]]);
    var single: seq<string> := [sn[|sn| - 1]];
    assert single[1..] == [];
    assert NonEmpty(single) == single;
  }

  /** A name with a '/' splits into two or more segments. */
  lemma SplitOfSlashed(name: string)
    requires '/' in name
    ensures |Split(name, '/')| >= 2
  {
  }

  /** The stored file is a direct child of the upload directory exactly when its extension has no '/'. */
  lemma StoragePathDirectIff(dir: string, uuid: string, ext: string)
    requires IsCleanAbsolute(dir) && IsUuid(uuid) && '.' !in ext
    ensures IsDirectChild(dir, StoragePath(dir, StoredName(uuid, ext))) <==> '/' !in ext
  {
    if '/' !in ext {
      StoragePathDirect(dir, uuid, ext);
    } else {
      StoragePathNested(dir, uuid, ext);
    }
  }

  /** With a '/' in the extension the stored file lands in a subdirectory. */
  lemma StoragePathNested(dir: string, uuid: string, ext: string)
    requires IsCleanAbsolute(dir) && IsUuid(uuid) && '.' !in ext && '/' in ext
    ensures !IsDirectChild(dir, StoragePath(dir, StoredName(uuid, ext)))
  {
    var k, t := StoragePathShape(dir, uuid, ext);
    var rest := Join(k, '/') + (if t then "/" else "");
    assert StoragePath(dir, StoredName(uuid, ext)) == dir + "/" + rest;
    NestedNameRest(uuid, ext);
    NotDirectChild(dir, rest);
  }

  /** A path below `dir` whose rest holds a '/' is not a direct child. */
  lemma NotDirectChild(dir: string, rest: string)
    requires '/' in rest
    ensures !IsDirectChild(dir, dir + "/" + rest)
  {
    assert (dir + "/" + rest)[|dir| + 1..] == rest;
  }

  /** With a '/' in the extension, the normalized rest of the stored name holds a '/'. */
  lemma NestedNameRest(uuid: string, ext: string)
    requires IsUuid(uuid) && '.' !in ext && '/' in ext
    ensures var name := StoredName(uuid, ext);
      '/' in Join(NonEmpty(Split(name, '/')), '/') + (if name[|name| - 1] == '/' then "/" else "")
  {
    var name := StoredName(uuid, ext);
    assert name == (uuid + ".") + ext;
    assert '/' in name;
    var sn := Split(name, '/');
    var k := NonEmpty(sn);
    var rest := Join(k, '/') + (if name[|name| - 1] == '/' then "/" else "");
    if name[|name| - 1] == '/' {
      assert rest[|rest| - 1] == '/';
    } else {
      StoredNameSegments(uuid, ext);
      SplitOfSlashed(name);
      LastSegmentSpec(name, '/');
      NonEmptyFirstAndLast(sn);
      JoinOfSeveralHasSep(k, '/');
      assert rest == Join(k, '/');
    }
  }

  /** A stored path passes the guard of `deleteFile` and is its own normal form. */
  lemma StoredPathPassesGuard(dir: string, uuid: string, ext: string)
    requires IsCleanAbsolute(dir) && IsUuid(uuid) && '.' !in ext
    ensures var path := StoragePath(dir, StoredName(uuid, ext));
      StartsWith(Normalize(path), dir) && Normalize(path) == path
  {
    StoragePathInside(dir, uuid, ext);
  }

  /** A media type the envelope admits has no '.'. */
  lemma EnvelopeTypeHasNoDot(s: string)
    requires MatchEnvelope(s).Some?
    ensures '.' !in MatchEnvelope(s).value.mimetype
  {
    var e := MatchEnvelope(s).value;
    MatchEnvelopeIff(s, e.mimetype, e.payload);
  }

  // ---- the store ----

  /** What `saveFileFromBase64` resolves to. */
  datatype SavedFile = SavedFile(path: string, url: string, size: nat)

  /** Why `saveFileFromBase64` rejects: the envelope check fails, or `fs.writeFile` does. */
  datatype SaveError = InvalidBase64String | WriteFailed

  /**
   * The upload directory `path.join(cwd, 'public', 'uploads')` and the
   * files of the file system, keyed by their normal absolute path.
   */
  class FileStore {
    const uploadDir: string
    var files: map<string, seq<Byte>>

    predicate Valid() {
      IsCleanAbsolute(uploadDir)
    }

    constructor(cwd: string, existing: map<string, seq<Byte>>)
      requires cwd != "" && cwd[0] == '/'
      ensures uploadDir == PathJoin([cwd, "public", "uploads"])
      ensures Valid()
      ensures files == existing
    {
      uploadDir := PathJoin([cwd, "public", "uploads"]);
      files := existing;
      UploadDirClean(cwd);
    }

    /**
     * `saveFileFromBase64(base64Data, filename)`, with `uuid` the value of
     * `uuidv4()` and `decode` the base64 decoder. The write succeeds unless
     * the disk fails or the target is not directly in the upload directory
     * (an extension holding '/' names a directory that does not exist).
     */
    method SaveFileFromBase64(base64Data: string, filename: string, uuid: string,
                              decode: string -> seq<Byte>, diskFault: bool)
      returns (r: Result<SavedFile, SaveError>)
      requires Valid() && IsUuid(uuid)
      modifies this
      ensures r == Err(InvalidBase64String) <==> MatchEnvelope(base64Data).None?
      ensures r.Err? ==> files == old(files)
      ensures MatchEnvelope(base64Data).Some? ==>
        var e := MatchEnvelope(base64Data).value;
        var name := StoredName(uuid, Extension(filename, e.mimetype));
        var path := StoragePath(uploadDir, name);
        && (r == Err(WriteFailed) <==> diskFault || '/' in Extension(filename, e.mimetype))
        && (r.Ok? ==> r.value == SavedFile(path, PublicUrl(name), |decode(e.payload)|)
                      && files == old(files)[path := decode(e.payload)])
      ensures r.Ok? ==>
        && IsDirectChild(uploadDir, r.value.path)
        && Normalize(r.value.path) == r.value.path
        && r.value.url == UploadUrl + "/" + r.value.path[|uploadDir| + 1..]
        && r.value.path in files && |files[r.value.path]| == r.value.size
    {
      var matches := MatchEnvelope(base64Data);
      if matches.None? {
        return Err(InvalidBase64String);
      }
      var fileType := matches.value.mimetype;
      var buffer := decode(matches.value.payload);
      var extension := Extension(filename, fileType);
      var uniqueFilename := StoredName(uuid, extension);
      var filePath := StoragePath(uploadDir, uniqueFilename);
      EnvelopeTypeHasNoDot(base64Data);
      ExtensionHasNoDot(filename, fileType);
      StoragePathDirectIff(uploadDir, uuid, extension);
      StoragePathInside(uploadDir, uuid, extension);
      if diskFault || !IsDirectChild(uploadDir, filePath) {
        return Err(WriteFailed);
      }
      StoragePathDirect(uploadDir, uuid, extension);
      files := files[filePath := buffer];
      r := Ok(SavedFile(filePath, PublicUrl(uniqueFilename), |buffer|));
    }

    /**
     * `deleteFile(filePath)`: refuses a path whose normal form does not
     * begin with the upload directory's text; otherwise unlinks it, which
     * fails when no such file exists.
     */
    method DeleteFile(filePath: string) returns (ok: bool)
      modifies this
      ensures ok <==> StartsWith(Normalize(filePath), uploadDir) && Normalize(filePath) in old(files)
      ensures files == if ok then old(files) - {Normalize(filePath)} else old(files)
      ensures ok ==> Normalize(filePath) !in files
    {
      var normalizedPath := Normalize(filePath);
      if !StartsWith(normalizedPath, uploadDir) {
        return false;
      }
      if normalizedPath !in files {
        return false;
      }
      files := files - {normalizedPath};
      ok := true;
    }
  }
}
