/**
 * The upload rules of app.py: the extension allow-set, `allowed_file`, and
 * the name a saved photo is stored under.
 */
module Upload {
  import opened Text

  /** `ALLOWED`: the extensions a photo may have, in lower case. */
  const Allowed: set<string> := {"png", "jpg", "jpeg", "gif"}

  /**
   * `name.rsplit('.', 1)` on a name that holds a dot: the text before the
   * last dot and the text after it.
   */
  function RSplitDot(name: string): (r: (string, string))
    requires '.' in name
    ensures name == r.0 + "." + r.1
    ensures '.' !in r.1
  {
    var last := |name| - 1;
    if name[last] == '.' then
      (name[..last], "")
    else
      assert name == name[..last] + [name[last]];
      var (before, after) := RSplitDot(name[..last]);
      (before, after + [name[last]])
  }

  /** The split at the last dot is the only split whose right part has no dot. */
  lemma {:induction false} RSplitDotUnique(before: string, after: string)
    requires '.' !in after
    ensures '.' in before + "." + after
    ensures RSplitDot(before + "." + after) == (before, after)
  {
    var name := before + "." + after;
    assert name[|before|] == '.';
    if after != [] {
      var last := |name| - 1;
      assert name[..last] == before + "." + after[..|after| - 1];
      RSplitDotUnique(before, after[..|after| - 1]);
      assert after == after[..|after| - 1] + [after[|after| - 1]];
    } else {
      assert name[..|name| - 1] == before;
    }
  }

  /** `allowed_file(name)`. */
  predicate AllowedFile(name: string)
    ensures AllowedFile(name) ==> '.' in name && |name| >= 4
  {
    '.' in name && Lower(RSplitDot(name).1) in Allowed
  }

  /**
   * What `allowed_file` decides, stated without the split: a name is allowed
   * exactly when it is `before + "." + ext` with no dot in `ext` and `ext`
   * in lower case is one of the allowed extensions.
   */
  lemma AllowedFileIff(before: string, ext: string)
    requires '.' !in ext
    ensures AllowedFile(before + "." + ext) <==> Lower(ext) in Allowed
  {
    RSplitDotUnique(before, ext);
  }

  /** A name without a dot is never allowed, whatever it ends with. */
  lemma NoDotNotAllowed(name: string)
    requires '.' !in name
    ensures !AllowedFile(name)
  {
  }

  /** Lowering the whole name does not change the decision. */
  lemma AllowedFileOfLower(name: string)
    ensures AllowedFile(Lower(name)) <==> AllowedFile(name)
  {
    LowerKeepsDots(name);
    if '.' in name {
      var (before, ext) := RSplitDot(name);
      LowerConcat(before + ".", ext);
      LowerConcat(before, ".");
      assert Lower(".") == ".";
      LowerKeepsDots(ext);
      AllowedFileIff(Lower(before), Lower(ext));
      LowerIdempotent(ext);
    }
  }

  /** The comparison is case-insensitive: names equal up to case get the same answer. */
  lemma AllowedFileIgnoresCase(a: string, b: string)
    requires Lower(a) == Lower(b)
    ensures AllowedFile(a) <==> AllowedFile(b)
  {
    AllowedFileOfLower(a);
    AllowedFileOfLower(b);
  }

  /** Only the part after the last dot matters, in any case. */
  lemma AllowedFileLastExtension()
    ensures AllowedFile("a.tar.PNG")
  {
    AllowedFileIff("a.tar", "PNG");
    assert "a.tar" + "." + "PNG" == "a.tar.PNG";
    assert Lower("PNG") == "png";
  }

  /** An allowed extension before the last dot does not help. */
  lemma AllowedFileInnerExtension()
    ensures !AllowedFile("photo.png.exe")
  {
    AllowedFileIff("photo.png", "exe");
    assert "photo.png" + "." + "exe" == "photo.png.exe";
    assert Lower("exe") == "exe";
  }

  /** A name that is only a dot and an extension is allowed; a name ending in a dot is not. */
  lemma AllowedFileEdgeNames()
    ensures AllowedFile(".gif")
    ensures !AllowedFile("photo.")
  {
    AllowedFileIff("", "gif");
    assert "" + "." + "gif" == ".gif";
    assert Lower("gif") == "gif";
    AllowedFileIff("photo", "");
    assert "photo" + "." + "" == "photo.";
  }

  /**
   * The name a saved photo gets: the timestamp value `ts` (what
   * `int(datetime.utcnow().timestamp())` yields), an underscore, and the
   * sanitised original name (`secure_filename`, supplied as `sanitize`).
   */
  function StoredName(ts: nat, filename: string, sanitize: string -> string): (r: string)
    ensures var d := Decimal(ts); |r| > |d| && r[..|d|] == d && r[|d|] == '_' && r[|d| + 1..] == sanitize(filename)
  {
    Decimal(ts) + "_" + sanitize(filename)
  }

  /**
   * Names stored with different timestamp values never collide, whatever the
   * original file names were: the digits before the first underscore give
   * back the value.
   */
  lemma StoredNamesDifferAcrossTimestamps(ts1: nat, f1: string, ts2: nat, f2: string, sanitize: string -> string)
    requires StoredName(ts1, f1, sanitize) == StoredName(ts2, f2, sanitize)
    ensures ts1 == ts2
  {
    var d1, d2 := Decimal(ts1), Decimal(ts2);
    var n := StoredName(ts1, f1, sanitize);
    assert n[..|d1|] == d1 && n[|d1|] == '_';
    assert n[..|d2|] == d2 && n[|d2|] == '_';
    assert forall k :: 0 <= k < |d1| ==> IsDigit(n[k]);
    assert forall k :: 0 <= k < |d2| ==> IsDigit(n[k]);
    assert |d1| == |d2|;
    assert d1 == d2;
    DecimalInjective(ts1, ts2);
  }
}
