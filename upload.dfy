/**
 * The upload filter `allowed_file`: a file name is accepted when it contains a
 * dot and the text after its last dot, lower-cased, is one of the allowed image
 * extensions.
 */
module Upload {
  import opened Wrappers

  /** `ALLOWED_EXTENSIONS`. */
  const AllowedExtensions: set<string> := {"png", "jpg", "jpeg", "gif"}

  /** `str.lower` on one character, for the ASCII letters. */
  function LowerChar(ch: char): (r: char)
    ensures 'A' <= ch <= 'Z' ==> r as int == ch as int + 32
    ensures !('A' <= ch <= 'Z') ==> r == ch
  {
    if 'A' <= ch <= 'Z' then (ch as int + 32) as char else ch
  }

  /** `str.lower`, character by character. */
  function Lower(s: string): (r: string)
    ensures |r| == |s| && forall i :: 0 <= i < |s| ==> r[i] == LowerChar(s[i])
  {
    seq(|s|, i requires 0 <= i < |s| => LowerChar(s[i]))
  }

  /** The position of the last `.` in `s`, if there is one. */
  function LastDot(s: string): (r: Option<nat>)
    ensures r.None? <==> '.' !in s
    ensures r.Some? ==> r.value < |s| && s[r.value] == '.' && '.' !in s[r.value + 1..]
  {
    if s == [] then None
    else if s[|s| - 1] == '.' then Some(|s| - 1)
    else
      var r := LastDot(s[..|s| - 1]);
      assert s == s[..|s| - 1] + [s[|s| - 1]];
      if r.Some? then
        assert s[r.value + 1..] == s[..|s| - 1][r.value + 1..] + [s[|s| - 1]];
        r
      else r
  }

  /**
   * `filename.rsplit('.', 1)`, for a name that contains a dot: the text before
   * and after the last dot. Splitting loses nothing, and the extension holds no dot.
   */
  function RSplitDot(s: string): (parts: (string, string))
    requires '.' in s
    ensures parts.0 + "." + parts.1 == s
    ensures '.' !in parts.1
  {
    var i := LastDot(s).value;
    assert s == s[..i] + [s[i]] + s[i + 1..];
    (s[..i], s[i + 1..])
  }

  /**
   * `allowed_file`. An accepted name contains a dot, and it is at least four
   * characters long: the dot and an extension of at least three letters.
   */
  function AllowedFile(filename: string): (ok: bool)
    ensures ok ==> '.' in filename && |filename| >= 4
  {
    if '.' !in filename then false
    else
      var (head, ext) := RSplitDot(filename);
      assert |filename| == |head| + 1 + |ext|;
      Lower(ext) in AllowedExtensions
  }

  /** A split with a dot-free right part is the `rsplit` split. */
  lemma RSplitDotUnique(s: string, head: string, ext: string)
    requires s == head + "." + ext && '.' !in ext
    ensures '.' in s && RSplitDot(s) == (head, ext)
  {
    assert s[|head|] == '.';
    assert s[..|head|] == head;
    assert s[|head| + 1..] == ext;
  }

  /**
   * The accepted names are exactly those of the form `base.ext` where `ext`
   * contains no dot and lower-cases to an allowed extension.
   */
  lemma AllowedFileIff(filename: string)
    ensures AllowedFile(filename) <==>
              exists head, ext :: filename == head + "." + ext && '.' !in ext && Lower(ext) in AllowedExtensions
  {
    if AllowedFile(filename) {
      var (head, ext) := RSplitDot(filename);
      assert filename == head + "." + ext && '.' !in ext && Lower(ext) in AllowedExtensions;
    }
    if exists head, ext :: filename == head + "." + ext && '.' !in ext && Lower(ext) in AllowedExtensions {
      var head, ext :| filename == head + "." + ext && '.' !in ext && Lower(ext) in AllowedExtensions;
      RSplitDotUnique(filename, head, ext);
    }
  }

  /** A name without a dot is refused. */
  lemma NoDotRefused(filename: string)
    requires '.' !in filename
    ensures !AllowedFile(filename)
  {
  }

  /** `str.lower` keeps the dots and only the dots. */
  lemma LowerDots(s: string)
    ensures '.' in Lower(s) <==> '.' in s
  {
    if '.' in s {
      var k :| 0 <= k < |s| && s[k] == '.';
      assert Lower(s)[k] == '.';
    }
    if '.' in Lower(s) {
      var k :| 0 <= k < |s| && Lower(s)[k] == '.';
      assert s[k] == '.';
    }
  }

  /** `str.lower` works character by character, so it distributes over a split at a dot. */
  lemma LowerSplit(head: string, ext: string)
    ensures Lower(head + "." + ext) == Lower(head) + "." + Lower(ext)
  {
  }

  /** The check ignores case: a name is accepted exactly when its lower-case form is. */
  lemma AllowedFileIgnoresCase(filename: string)
    ensures AllowedFile(Lower(filename)) == AllowedFile(filename)
  {
    LowerDots(filename);
    if '.' in filename {
      var (head, ext) := RSplitDot(filename);
      LowerSplit(head, ext);
      LowerDots(ext);
      RSplitDotUnique(Lower(filename), Lower(head), Lower(ext));
      LowerLower(ext);
    }
  }

  /** `str.lower` is idempotent. */
  lemma LowerLower(s: string)
    ensures Lower(Lower(s)) == Lower(s)
  {
  }

  /** Whatever precedes an accepted name, the result is still accepted: only the last extension counts. */
  lemma AllowedFilePrefix(prefix: string, filename: string)
    requires AllowedFile(filename)
    ensures AllowedFile(prefix + filename)
  {
    var (head, ext) := RSplitDot(filename);
    assert prefix + filename == (prefix + head) + "." + ext;
    RSplitDotUnique(prefix + filename, prefix + head, ext);
  }

  /** An upper-case extension is accepted: it is compared after lower-casing. */
  lemma AllowedFileUpperCase()
    ensures AllowedFile("photo.PNG")
  {
    RSplitDotUnique("photo.PNG", "photo", "PNG");
    assert Lower("PNG") == "png";
  }

  /** A name that is only a dot and an extension is accepted. */
  lemma AllowedFileBareExtension()
    ensures AllowedFile(".gif")
  {
    RSplitDotUnique(".gif", "", "gif");
    assert Lower("gif") == "gif";
  }

  /** Refused names: only the last extension counts, and a name needs a dot. */
  lemma AllowedFileRefuses()
    ensures !AllowedFile("archive.tar.gz")
    ensures !AllowedFile("png")
    ensures !AllowedFile("image.")
  {
    RSplitDotUnique("archive.tar.gz", "archive.tar", "gz");
    assert |Lower("gz")| == 2;
    RSplitDotUnique("image.", "image", "");
    assert "png"[0] != '.' && "png"[1] != '.' && "png"[2] != '.';
  }
}
