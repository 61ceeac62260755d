/**
  The face-image upload middleware: the name under which an uploaded file is
  stored, the MIME-type filter and the size limit.

  The multipart parser hands over the client's file name with any directory
  part already removed, so the names seen here contain no '/'.  The current
  time and the random number of the unique suffix are parameters.
 */
module Upload {
  import opened JsText

  // ---------------------------------------------------------------------------
  // Node's path.extname and path.basename on a bare file name
  // ---------------------------------------------------------------------------

  /** A file name as the multipart parser delivers it: no directory part. */
  predicate IsBareName(s: string) {
    forall k :: 0 <= k < |s| ==> s[k] != '/'
  }

  /** Index of the last '.' in `s`, or -1. */
  function LastDot(s: string): (k: int)
    ensures -1 <= k < |s|
    ensures k >= 0 ==> s[k] == '.'
    ensures forall j :: k < j < |s| ==> s[j] != '.'
  {
    if s == [] then -1
    else if s[|s| - 1] == '.' then |s| - 1
    else LastDot(s[..|s| - 1])
  }

  /** `path.extname`: from the last dot to the end, except that there is no
      extension when the name has no dot, when its only relevant dot is its
      first character (".bashrc") or when the name is "..". */
  function ExtName(name: string): (ext: string)
    requires IsBareName(name)
    // an extension is a proper suffix of the name that starts with a dot
    ensures ext == "" || (0 < |ext| < |name| && ext == name[|name| - |ext|..] && ext[0] == '.')
  {
    var k := LastDot(name);
    if k <= 0 || name == ".." then "" else name[k..]
  }

  /** An extension holds no dot after its first character; it is missing
      exactly when the name has no dot past its first character, or is "..". */
  lemma ExtNameShape(name: string)
    requires IsBareName(name)
    ensures var ext := ExtName(name); forall j :: 0 < j < |ext| ==> ext[j] != '.'
    ensures ExtName(name) == "" <==> LastDot(name) <= 0 || name == ".."
  {
    var k := LastDot(name);
    if k > 0 && name != ".." {
      var ext := name[k..];
      assert forall j :: 0 < j < |ext| ==> ext[j] == name[k + j];
    }
  }

  /** `path.basename(path, suffix)` for a bare name: the suffix is cut off when the
      name ends with it, and the whole name equal to the suffix yields "". */
  function BaseName(path: string, suffix: string): (r: string)
    // the result is a prefix of the path ...
    ensures |r| <= |path| && r == path[..|r|]
    // ... which the suffix completes when the path ends with it ...
    ensures suffix != "" && |suffix| <= |path| && path[|path| - |suffix|..] == suffix ==> r + suffix == path
    // ... and which is the whole path otherwise
    ensures suffix == "" || |suffix| > |path| || path[|path| - |suffix|..] != suffix ==> r == path
  {
    if suffix == "" || |suffix| > |path| then path
    else if path == suffix then ""
    else if path[|path| - |suffix|..] == suffix then
      assert path[..|path| - |suffix|] + suffix == path;
      path[..|path| - |suffix|]
    else path
  }

  /** Splitting a name into base name and extension loses nothing. */
  lemma BaseNameExtNameRoundTrip(name: string)
    requires IsBareName(name)
    ensures BaseName(name, ExtName(name)) + ExtName(name) == name
  {
    ExtNameShape(name);
  }

  // ---------------------------------------------------------------------------
  // The sanitiser
  // ---------------------------------------------------------------------------

  /** The characters `/[a-z0-9_-]/i` matches: ASCII letters, digits, '_' and '-'. */
  predicate IsNameChar(c: char) {
    IsAsciiLetter(c) || IsDigit(c) || c == '_' || c == '-'
  }

  /** The sanitiser: every character outside that class is removed. */
  function Sanitize(s: string): (r: string)
    ensures |r| <= |s|
    ensures forall k :: 0 <= k < |r| ==> IsNameChar(r[k])
  {
    if s == [] then []
    else if IsNameChar(s[0]) then [s[0]] + Sanitize(s[1..])
    else Sanitize(s[1..])
  }

  /** The sanitiser keeps every allowed character as often as it occurs and
      removes every other one. */
  lemma {:induction false} SanitizeCounts(s: string, c: char)
    ensures multiset(Sanitize(s))[c] == if IsNameChar(c) then multiset(s)[c] else 0
  {
    if s != [] {
      SanitizeCounts(s[1..], c);
      assert s == [s[0]] + s[1..];
    }
  }

  /** The sanitiser works character by character, in order. */
  lemma {:induction false} SanitizeConcat(a: string, b: string)
    ensures Sanitize(a + b) == Sanitize(a) + Sanitize(b)
  {
    if a == [] {
      assert a + b == b;
    } else {
      assert (a + b)[0] == a[0];
      assert (a + b)[1..] == a[1..] + b;
      SanitizeConcat(a[1..], b);
    }
  }

  /** A name that is already clean is left alone; sanitising twice is sanitising once. */
  lemma {:induction false} SanitizeKeepsClean(s: string)
    requires forall k :: 0 <= k < |s| ==> IsNameChar(s[k])
    ensures Sanitize(s) == s
  {
    if s != [] {
      SanitizeKeepsClean(s[1..]);
    }
  }

  lemma SanitizeIdempotent(s: string)
    ensures Sanitize(Sanitize(s)) == Sanitize(s)
  {
    SanitizeKeepsClean(Sanitize(s));
  }

  // ---------------------------------------------------------------------------
  // The stored name
  // ---------------------------------------------------------------------------

  /** The base part of the stored name: the sanitised base name of the original
      (of "face" when there is no original name), or "face" when nothing is left. */
  function StoredBase(originalName: string): (base: string)
    requires IsBareName(originalName)
    ensures base != [] && forall k :: 0 <= k < |base| ==> IsNameChar(base[k])
  {
    var base := Sanitize(BaseName(if originalName == "" then "face" else originalName, ExtName(originalName)));
    if base == "" then "face" else base
  }

  /** The extension of the stored name: the original one, or ".jpg". */
  function StoredExt(originalName: string): (ext: string)
    requires IsBareName(originalName)
    ensures ext != [] && ext[0] == '.'
  {
    var ext := ExtName(originalName);
    if ext == "" then ".jpg" else ext
  }

  /** The `filename` callback: the stored base, a dash, the upload time, a
      dash, the random number, then the stored extension.  The result is again a
      bare name; it starts with the base and a dash and ends with the extension. */
  function StoredName(originalName: string, now: nat, random: nat): (r: string)
    requires IsBareName(originalName)
    ensures IsBareName(r)
    ensures var base := StoredBase(originalName);
            |base| < |r| && r[..|base| + 1] == base + "-"
    ensures var ext := StoredExt(originalName);
            |ext| < |r| && r[|r| - |ext|..] == ext
  {
    var base, ext := StoredBase(originalName), StoredExt(originalName);
    var n, m := NatToDecimal(now), NatToDecimal(random);
    StoredPartsBare(originalName, now, random);
    JoinBare(base, n, m, ext);
    JoinEnds(base, n, m, ext);
    base + "-" + n + "-" + m + ext
  }


  lemma BareConcat(a: string, b: string)
    requires IsBareName(a) && IsBareName(b)
    ensures IsBareName(a + b)
  {
    assert forall k :: |a| <= k < |a + b| ==> (a + b)[k] == b[k - |a|];
  }

  /** Neither part of a stored name contains a '/'. */
  lemma StoredPartsBare(originalName: string, now: nat, random: nat)
    requires IsBareName(originalName)
    ensures IsBareName(StoredBase(originalName)) && IsBareName(StoredExt(originalName))
    ensures IsBareName(NatToDecimal(now)) && IsBareName(NatToDecimal(random))
  {
    ExtBare(originalName);
    DigitsBare(now);
    DigitsBare(random);
  }

  /** Joining bare parts with dashes gives a bare name. */
  lemma JoinBare(base: string, n: string, m: string, ext: string)
    requires IsBareName(base) && IsBareName(n) && IsBareName(m) && IsBareName(ext)
    ensures IsBareName(base + "-" + n + "-" + m + ext)
  {
    BareConcat(base, "-");
    BareConcat(base + "-", n);
    BareConcat(base + "-" + n, "-");
    BareConcat(base + "-" + n + "-", m);
    BareConcat(base + "-" + n + "-" + m, ext);
  }

  lemma ExtBare(name: string)
    requires IsBareName(name)
    ensures IsBareName(ExtName(name))
  {
    var ext := ExtName(name);
    if ext != "" {
      assert forall k :: 0 <= k < |ext| ==> ext[k] == name[|name| - |ext| + k];
    }
  }

  lemma DigitsBare(n: nat)
    ensures IsBareName(NatToDecimal(n))
  {
    var s := NatToDecimal(n);
    assert forall k :: 0 <= k < |s| ==> IsDigit(s[k]);
  }

  /** The joined name starts with the base and a dash and ends with the
      extension. */
  lemma JoinEnds(base: string, n: string, m: string, ext: string)
    ensures var r := base + "-" + n + "-" + m + ext;
            && |base| < |r| && r[..|base| + 1] == base + "-"
            && |ext| < |r| && r[|r| - |ext|..] == ext
  {
    var head := base + "-" + n + "-" + m;
    var r := head + ext;
    assert r[..|base| + 1] == head[..|base| + 1];
    assert head[..|base| + 1] == base + "-";
    assert r[|r| - |ext|..] == ext;
  }


  /** The base is never empty and holds only letters, digits, '_' and '-': it is
      the sanitised base name of the original, or "face".  The extension starts
      with a dot and is the original extension exactly as given, or ".jpg" when
      the original has none. */
  lemma StoredNameParts(originalName: string)
    requires IsBareName(originalName)
    ensures var base := StoredBase(originalName);
            var cleaned := Sanitize(BaseName(originalName, ExtName(originalName)));
            && base != [] && (forall k :: 0 <= k < |base| ==> IsNameChar(base[k]))
            && base == if cleaned == "" then "face" else cleaned
    ensures var ext := StoredExt(originalName);
            && ext[0] == '.'
            && (ExtName(originalName) != "" ==> ext == ExtName(originalName))
            && (ExtName(originalName) == "" ==> ext == ".jpg")
  {
    if originalName == "" {
      assert ExtName("") == "";
      assert BaseName("", "") == "";
      SanitizeKeepsClean("face");
    }
  }

  /** A name made only of allowed characters and an extension is kept as it was,
      with the unique suffix between the two. */
  lemma CleanNameKept(base: string, ext: string, now: nat, random: nat)
    requires base != [] && forall k :: 0 <= k < |base| ==> IsNameChar(base[k])
    requires |ext| >= 2 && ext[0] == '.' && forall k :: 0 < k < |ext| ==> IsNameChar(ext[k])
    ensures IsBareName(base + ext)
    ensures StoredName(base + ext, now, random) == base + "-" + NatToDecimal(now) + "-" + NatToDecimal(random) + ext
  {
    CleanParts(base, ext);
    StoredNameJoins(base + ext, now, random);
  }

  /** The stored name is the stored base, the unique suffix and the stored
      extension, in this order. */
  lemma StoredNameJoins(originalName: string, now: nat, random: nat)
    requires IsBareName(originalName)
    ensures StoredName(originalName, now, random)
            == StoredBase(originalName) + "-" + NatToDecimal(now) + "-" + NatToDecimal(random) + StoredExt(originalName)
  {
  }

  /** Such a name keeps its base and its extension. */
  lemma CleanParts(base: string, ext: string)
    requires base != [] && forall k :: 0 <= k < |base| ==> IsNameChar(base[k])
    requires |ext| >= 2 && ext[0] == '.' && forall k :: 0 < k < |ext| ==> IsNameChar(ext[k])
    ensures IsBareName(base + ext)
    ensures StoredBase(base + ext) == base && StoredExt(base + ext) == ext
  {
    var name := base + ext;
    CleanExt(base, ext);
    var b := BaseName(name, ext);
    assert name[|name| - |ext|..] == ext;
    assert b == base by {
      assert b + ext == name;
      assert |b| == |base|;
      assert b == name[..|b|] && base == name[..|base|];
    }
    SanitizeKeepsClean(base);
  }

  /** The extension of such a name is the given one. */
  lemma CleanExt(base: string, ext: string)
    requires base != [] && forall k :: 0 <= k < |base| ==> IsNameChar(base[k])
    requires |ext| >= 2 && ext[0] == '.' && forall k :: 0 < k < |ext| ==> IsNameChar(ext[k])
    ensures IsBareName(base + ext)
    ensures ExtName(base + ext) == ext
  {
    var name := base + ext;
    assert name[|base|] == '.';
    assert LastDot(name) == |base| by {
      assert name[|base|..] == ext;
    }
    assert name[0] == base[0];
  }

  // ---------------------------------------------------------------------------
  // The MIME-type filter and the size limit
  // ---------------------------------------------------------------------------

  datatype Verdict = Accept | Reject(message: string)

  const AllowedMimeTypes: seq<string> := ["image/jpeg", "image/png", "image/jpg"]

  /** `fileFilter`: a whitelist of three MIME types, compared exactly. */
  function FileFilter(mimeType: string): (v: Verdict)
    ensures v.Accept? <==> mimeType == "image/jpeg" || mimeType == "image/png" || mimeType == "image/jpg"
    ensures v.Reject? ==> v.message == "Only JPEG/PNG images are allowed"
  {
    if mimeType in AllowedMimeTypes then Accept else Reject("Only JPEG/PNG images are allowed")
  }

  /** `limits.fileSize`: five mebibytes. */
  const MaxFileSize: nat := 5 * 1024 * 1024

  /** A file is accepted up to and including the limit. */
  function WithinSizeLimit(size: nat): (ok: bool)
    ensures ok <==> size <= 5242880
  {
    size <= MaxFileSize
  }
}
