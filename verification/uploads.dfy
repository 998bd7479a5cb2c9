/**
 Stored names for uploaded files: a random hex token followed by the
 uploaded name's extension, where the extension is what Python's
 `os.path.splitext` returns. The separator set is a parameter: {'/'} for
 posixpath, {'/', '\\'} for ntpath.
 */
module Uploads {
  import opened Common
  import opened Forms
  import opened Models

  /** Index of the last character satisfying `p`, or -1 (Python's `rfind`). */
  function LastIndex(s: string, p: char -> bool): (r: int)
    ensures -1 <= r < |s|
    ensures r >= 0 ==> p(s[r])
    ensures forall j :: r < j < |s| ==> !p(s[j])
  {
    if |s| == 0 then -1
    else if p(s[|s| - 1]) then |s| - 1
    else LastIndex(s[..|s| - 1], p)
  }

  /** The last index is pinned down by a witness with nothing after it. */
  lemma LastIndexAt(s: string, p: char -> bool, d: int)
    requires 0 <= d < |s| && p(s[d])
    requires forall j :: d < j < |s| ==> !p(s[j])
    ensures LastIndex(s, p) == d
  {
  }

  /** The separators of posixpath and of ntpath. */
  predicate PlatformSeps(seps: set<char>)
  {
    seps == {'/'} || seps == {'/', '\\'}
  }

  predicate IsSep(seps: set<char>, c: char)
  {
    c in seps
  }

  /** The basename part of `p` from index `from` up to `upto` has a
      character other than '.'. */
  predicate NonDotBetween(p: string, from: int, upto: int)
  {
    exists i :: from <= i < upto && 0 <= i < |p| && p[i] != '.'
  }

  /** `os.path.splitext(p)`: split at the last '.' of the last path
      component, unless everything before that dot in the component is
      dots too (a leading-dot name such as ".bashrc" has no extension). */
  function Splitext(p: string, seps: set<char>): (r: (string, string))
    requires '.' !in seps
    ensures r.0 + r.1 == p
    ensures r.1 == "" || (r.1[0] == '.' && forall i :: 1 <= i < |r.1| ==> r.1[i] != '.' && !IsSep(seps, r.1[i]))
    ensures r.1 != "" ==> NonDotBetween(p, LastIndex(p, c => IsSep(seps, c)) + 1, |r.0|)
  {
    var sepIndex := LastIndex(p, c => IsSep(seps, c));
    var dotIndex := LastIndex(p, c => c == '.');
    if dotIndex > sepIndex && NonDotBetween(p, sepIndex + 1, dotIndex) then
      (p[..dotIndex], p[dotIndex..])
    else
      (p, "")
  }

  function Extension(p: string, seps: set<char>): string
    requires '.' !in seps
  {
    Splitext(p, seps).1
  }

  /** Converse of the contract above: a component "stem.e" with a
      non-dot character in its stem and no dot or separator in `e` has
      extension ".e". */
  lemma {:induction false} ExtensionOfDottedName(stem: string, e: string, seps: set<char>)
    requires '.' !in seps
    requires forall i :: 0 <= i < |e| ==> e[i] != '.' && !IsSep(seps, e[i])
    requires NonDotBetween(stem, LastIndex(stem, c => IsSep(seps, c)) + 1, |stem|)
    ensures Extension(stem + "." + e, seps) == "." + e
  {
    var p := stem + "." + e;
    var d := |stem|;
    assert p[d] == '.';
    forall j | d < j < |p|
      ensures p[j] != '.' && !IsSep(seps, p[j])
    {
      assert p[j] == e[j - d - 1];
    }
    LastIndexAt(p, c => c == '.', d);
    var sepStem := LastIndex(stem, c => IsSep(seps, c));
    var sepIndex := LastIndex(p, c => IsSep(seps, c));
    if sepStem >= 0 {
      assert p[sepStem] == stem[sepStem];
      forall j | sepStem < j < |p|
        ensures !IsSep(seps, p[j])
      {
        if j < d {
          assert p[j] == stem[j];
        }
      }
      LastIndexAt(p, c => IsSep(seps, c), sepStem);
    } else {
      forall j | 0 <= j < |p|
        ensures !IsSep(seps, p[j])
      {
        if j < d {
          assert p[j] == stem[j];
        }
      }
    }
    assert sepIndex == sepStem;
    var i :| sepStem + 1 <= i < |stem| && 0 <= i < |stem| && stem[i] != '.';
    assert p[i] == stem[i];
    assert NonDotBetween(p, sepIndex + 1, d);
    assert p[..d] == stem;
    assert p[d..] == "." + e;
  }

  /** A name without any '.' has no extension. */
  lemma NoDotNoExtension(p: string, seps: set<char>)
    requires '.' !in seps
    requires forall i :: 0 <= i < |p| ==> p[i] != '.'
    ensures Extension(p, seps) == ""
  {
  }

  /** A leading-dot name such as ".bashrc", with no further dot and no
      separator, has no extension. */
  lemma {:induction false} LeadingDotNameNoExtension(s: string, seps: set<char>)
    requires '.' !in seps
    requires forall i :: 0 <= i < |s| ==> s[i] != '.' && !IsSep(seps, s[i])
    ensures Extension("." + s, seps) == ""
  {
    var p := "." + s;
    assert forall j :: 0 < j < |p| ==> p[j] == s[j - 1];
  }

  predicate IsHexDigit(c: char)
  {
    '0' <= c <= '9' || 'a' <= c <= 'f'
  }

  /** What `secrets.token_hex(8)` returns: 16 lower-case hex digits. */
  predicate IsHexToken(t: string)
  {
    |t| == 16 && forall i :: 0 <= i < |t| ==> IsHexDigit(t[i])
  }

  /** `random_hex + os.path.splitext(filename)[1]`, the stored name of
      every upload; the token is the random part, taken as a parameter. */
  function UploadName(token: string, filename: string, seps: set<char>): (r: string)
    requires '.' !in seps
    ensures StartsWith(r, token)
    ensures r[|token|..] == Extension(filename, seps)
    ensures Extension(filename, seps) == "" || r[|token|] == '.'
  {
    token + Extension(filename, seps)
  }

  /** A stored name is the 16-digit hex token, then the extension with its
      dot, and nothing else. */
  lemma UploadNameShape(token: string, filename: string, seps: set<char>)
    requires '.' !in seps && IsHexToken(token)
    ensures var r := UploadName(token, filename, seps);
      && |r| == 16 + |Extension(filename, seps)|
      && (forall i :: 0 <= i < 16 ==> IsHexDigit(r[i]))
      && (forall i :: 16 < i < |r| ==> r[i] != '.')
  {
    var r := UploadName(token, filename, seps);
    assert r[16..] == Extension(filename, seps);
    forall i | 16 < i < |r|
      ensures r[i] != '.'
    {
      assert r[i] == Extension(filename, seps)[i - 16];
    }
  }

  /** No allowed extension contains a dot or a separator. */
  predicate PlainExtensions(exts: set<string>, seps: set<char>)
  {
    forall e :: e in exts ==> forall i :: 0 <= i < |e| ==> e[i] != '.' && !IsSep(seps, e[i])
  }

  /** A name accepted by `FileAllowed(exts)` keeps one of `exts` as its
      stored extension, or (a name like ".png", all dots before the
      extension) none at all. */
  lemma {:induction false} AcceptedExtension(filename: string, exts: set<string>, seps: set<char>)
    requires '.' !in seps && PlainExtensions(exts, seps)
    requires HasAllowedExtension(filename, exts)
    ensures Extension(filename, seps) == "" || exists e :: e in exts && Extension(filename, seps) == "." + e
  {
    var e :| e in exts && EndsWith(filename, "." + e);
    var d := |filename| - |e| - 1;
    var stem := filename[..d];
    assert filename == stem + "." + e by {
      assert filename[d..] == "." + e;
    }
    var sepStem := LastIndex(stem, c => IsSep(seps, c));
    if NonDotBetween(stem, sepStem + 1, |stem|) {
      ExtensionOfDottedName(stem, e, seps);
    }
  }

  /** Every stored name of an accepted image upload is at most 21
      characters: 16 for the token and at most 5 for ".jpeg". */
  lemma AcceptedImageNameLength(token: string, filename: string, seps: set<char>)
    requires '.' !in seps && IsHexToken(token)
    requires PlainExtensions(ImageExtensions, seps)
    requires HasAllowedExtension(filename, ImageExtensions)
    ensures |UploadName(token, filename, seps)| <= 21
  {
    AcceptedExtension(filename, ImageExtensions, seps);
  }

  /** The declared 20-character `Project.image` / `Certificate.image`
      column is narrower than the name a ".jpeg" upload the form accepts
      is stored under. */
  lemma JpegNameExceedsDeclaredWidth(token: string, seps: set<char>)
    requires PlatformSeps(seps) && IsHexToken(token)
    ensures HasAllowedExtension("photo.jpeg", ImageExtensions)
    ensures |UploadName(token, "photo.jpeg", seps)| == 21 > DeclaredImageWidth
  {
    assert "photo.jpeg" == "photo" + "." + "jpeg";
    assert EndsWith("photo.jpeg", "." + "jpeg");
    assert "photo"[0] != '.';
    assert forall j :: 0 <= j < |"photo"| ==> !IsSep(seps, "photo"[j]);
    ExtensionOfDottedName("photo", "jpeg", seps);
  }

  /** With the image column as wide as the other image-name columns, every
      accepted image upload fits. */
  lemma AcceptedImageNameFits(token: string, filename: string, seps: set<char>)
    requires '.' !in seps && IsHexToken(token)
    requires PlainExtensions(ImageExtensions, seps)
    requires HasAllowedExtension(filename, ImageExtensions)
    ensures |UploadName(token, filename, seps)| <= ImageNameWidth
  {
    AcceptedImageNameLength(token, filename, seps);
  }
}
