/**
 * The file name `save_panorama` derives from the video path: the POSIX
 * basename, without its extension as `os.path.splitext` splits it,
 * followed by "_panorama.jpg". Writing the image is not modelled.
 */
module OutputName {

  /** The text appended to the stem of the video's name. */
  const PanoramaSuffix: string := "_panorama.jpg"

  /** `s.rfind(c)`: the index of the last `c` in `s`, or -1 when there is none. */
  function RFind(s: string, c: char): (k: int)
    ensures -1 <= k < |s|
    ensures k >= 0 ==> s[k] == c
    ensures forall j :: k < j < |s| ==> s[j] != c
  {
    if s == [] then -1
    else if s[|s| - 1] == c then |s| - 1
    else RFind(s[..|s| - 1], c)
  }

  /**
   * `posixpath.basename`: everything after the last '/'. The result is the
   * longest suffix of the path without a '/'.
   */
  function Basename(path: string): (b: string)
    ensures '/' !in b
    ensures |b| <= |path| && path[|path| - |b|..] == b
    ensures |b| < |path| ==> path[|path| - |b| - 1] == '/'
  {
    path[RFind(path, '/') + 1..]
  }

  /** Some '.' of `name` comes after a character other than '.'. */
  ghost predicate HasExtension(name: string) {
    exists i, j :: 0 <= i < j < |name| && name[i] != '.' && name[j] == '.'
  }

  predicate AllDots(s: string) {
    forall i :: 0 <= i < |s| ==> s[i] == '.'
  }

  /**
   * Where `posixpath.splitext` cuts: at the last '.' of the last path
   * component, unless every character before that dot in the component is
   * a dot too (so ".bashrc" and "..x" have no extension); otherwise at the
   * end of the path.
   */
  function ExtensionStart(path: string): (e: nat)
    ensures e <= |path|
    ensures e < |path| ==> path[e] == '.' && forall j :: e < j < |path| ==> path[j] != '.' && path[j] != '/'
  {
    var sep := RFind(path, '/');
    var dot := RFind(path, '.');
    if dot > sep && !AllDots(path[sep + 1..dot]) then dot else |path|
  }

  /**
   * `posixpath.splitext`: the root and the extension concatenate back to
   * the path, and an extension is a '.' followed by neither '.' nor '/'.
   */
  function Splitext(path: string): (parts: (string, string))
    ensures parts.0 + parts.1 == path
    ensures parts.1 == "" || (parts.1[0] == '.' && forall k :: 1 <= k < |parts.1| ==> parts.1[k] != '.' && parts.1[k] != '/')
  {
    var e := ExtensionStart(path);
    (path[..e], path[e..])
  }

  /** The root `splitext` returns is a prefix of its argument. */
  lemma SplitextRootIsPrefix(path: string)
    ensures var root := Splitext(path).0; |root| <= |path| && path[..|root|] == root
  {
  }

  /**
   * For a name without '/': root and extension concatenate back to the
   * name; an extension starts with its only '.'; and there is one exactly
   * when some '.' in the name follows a character other than '.'.
   */
  lemma {:induction false} SplitextOfName(name: string)
    requires '/' !in name
    ensures Splitext(name).0 + Splitext(name).1 == name
    ensures var ext := Splitext(name).1;
      ext == "" || (ext[0] == '.' && '.' !in ext[1..])
    ensures Splitext(name).1 != "" <==> HasExtension(name)
  {
    var dot := RFind(name, '.');
    assert RFind(name, '/') == -1;
    var ext := Splitext(name).1;
    if ext != "" {
      var i :| 0 <= i < dot && name[i] != '.';
      assert name[dot] == '.';
      assert forall k :: 0 <= k < |ext| - 1 ==> ext[1..][k] == name[dot + 1 + k];
    }
  }

  /**
   * `save_panorama`'s output name: the basename's root followed by
   * "_panorama.jpg"; it never contains a '/'.
   */
  function PanoramaName(videoPath: string): (name: string)
    ensures '/' !in name
    ensures |name| >= |PanoramaSuffix| && name[|name| - |PanoramaSuffix|..] == PanoramaSuffix
  {
    var b := Basename(videoPath);
    SplitextRootIsPrefix(b);
    Splitext(b).0 + PanoramaSuffix
  }

  /**
   * The root `splitext` keeps of a name without '/' is the whole name when
   * the name has no extension, and otherwise the name cut just before its
   * last '.'.
   */
  lemma RootOfName(name: string)
    requires '/' !in name
    ensures var root := Splitext(name).0;
      |root| <= |name| && name[..|root|] == root &&
      (root == name <==> !HasExtension(name)) &&
      (root != name ==> name[|root|] == '.' && '.' !in name[|root| + 1..])
  {
    SplitextOfName(name);
    var root, ext := Splitext(name).0, Splitext(name).1;
    assert name[..|root|] == root;
    if ext != "" {
      assert name[|root|..] == ext;
      assert name[|root| + 1..] == ext[1..];
    }
  }

  /**
   * The stem in front of "_panorama.jpg" is the whole basename when the
   * basename has no '.' after a character other than '.'; otherwise it is
   * the basename cut just before its last '.'.
   */
  lemma PanoramaNameStem(videoPath: string)
    ensures var b, name := Basename(videoPath), PanoramaName(videoPath);
      var stem := name[..|name| - |PanoramaSuffix|];
      |stem| <= |b| && b[..|stem|] == stem &&
      (stem == b <==> !HasExtension(b)) &&
      (stem != b ==> b[|stem|] == '.' && '.' !in b[|stem| + 1..])
  {
    var b, name := Basename(videoPath), PanoramaName(videoPath);
    RootOfName(b);
    assert name[..|name| - |PanoramaSuffix|] == Splitext(b).0;
  }

  /** `rfind` is determined by its contract: a `c` at `k` and none after it. */
  lemma RFindIs(s: string, c: char, k: int)
    requires -1 <= k < |s|
    requires k >= 0 ==> s[k] == c
    requires forall j :: k < j < |s| ==> s[j] != c
    ensures RFind(s, c) == k
  {
  }

  /** The output name is the root of the basename followed by the suffix. */
  lemma PanoramaNameOf(path: string, root: string, name: string)
    requires Splitext(Basename(path)).0 == root
    requires root + PanoramaSuffix == name
    ensures PanoramaName(path) == name
  {
  }

  lemma SuffixAfter(root: string, name: string)
    requires |name| == |root| + 13
    requires name[..|root|] == root && name[|root|..] == "_panorama.jpg"
    ensures root + PanoramaSuffix == name
  {
    assert name == name[..|root|] + name[|root|..];
  }

  /** The basename starts after the last '/', at `k + 1` (`k` is -1 when there is none). */
  lemma BasenameAfter(path: string, k: int)
    requires -1 <= k < |path|
    requires k >= 0 ==> path[k] == '/'
    requires forall j :: k < j < |path| ==> path[j] != '/'
    ensures Basename(path) == path[k + 1..]
  {
    RFindIs(path, '/', k);
  }

  /** A name whose last '.' at `dot` follows a non-dot at `i` loses the text from `dot` on. */
  lemma RootBeforeDot(name: string, i: nat, dot: nat)
    requires '/' !in name
    requires i < dot < |name| && name[i] != '.' && name[dot] == '.'
    requires forall j :: dot < j < |name| ==> name[j] != '.'
    ensures Splitext(name).0 == name[..dot]
  {
    RFindIs(name, '/', -1);
    RFindIs(name, '.', dot);
    assert name[0..dot][i] != '.';
  }

  /** A name whose only '.' is its first character has no extension. */
  lemma RootOfDotName(name: string)
    requires '/' !in name
    requires |name| > 0 && name[0] == '.'
    requires forall j :: 0 < j < |name| ==> name[j] != '.'
    ensures Splitext(name).0 == name
  {
    RFindIs(name, '/', -1);
    RFindIs(name, '.', 0);
    assert AllDots(name[0..0]);
  }

  /** "dir/trip.mp4" becomes "trip_panorama.jpg". */
  lemma TripExample(path: string, name: string)
    requires path == "dir/trip.mp4" && name == "trip_panorama.jpg"
    ensures PanoramaName(path) == name
  {
    BasenameAfter(path, 3);
    var b := path[4..];
    RootBeforeDot(b, 0, 4);
    SuffixAfter(b[..4], name);
    PanoramaNameOf(path, b[..4], name);
  }

  /** A name that only starts with a dot keeps it: ".bashrc" becomes ".bashrc_panorama.jpg". */
  lemma HiddenFileExample(path: string, name: string)
    requires path == ".bashrc" && name == ".bashrc_panorama.jpg"
    ensures PanoramaName(path) == name
  {
    BasenameAfter(path, -1);
    RootOfDotName(path);
    SuffixAfter(path, name);
    PanoramaNameOf(path, path, name);
  }

  /** Only the last extension goes: "clips/a.tar.gz" becomes "a.tar_panorama.jpg". */
  lemma DoubleExtensionExample(path: string, name: string)
    requires path == "clips/a.tar.gz" && name == "a.tar_panorama.jpg"
    ensures PanoramaName(path) == name
  {
    BasenameAfter(path, 5);
    var b := path[6..];
    RootBeforeDot(b, 0, 5);
    SuffixAfter(b[..5], name);
    PanoramaNameOf(path, b[..5], name);
  }
}
