/**
 * Node's POSIX `path.basename` and `path.extname`, on which the server relies to
 * pick stored names and multipart extensions.
 */
module NodePath {

  /** `p` without its run of trailing slashes. */
  function TrimTrailingSlashes(p: string): (r: string)
    ensures r <= p
    ensures r == [] || r[|r| - 1] != '/'
    ensures forall i :: |r| <= i < |p| ==> p[i] == '/'
    decreases |p|
  {
    if |p| > 0 && p[|p| - 1] == '/' then TrimTrailingSlashes(p[..|p| - 1]) else p
  }

  /** The part of `p` after its last slash: a suffix of `p` that holds no slash. */
  function LastSegment(p: string): (r: string)
    ensures |r| <= |p| && r == p[|p| - |r|..]
    ensures forall i :: 0 <= i < |r| ==> r[i] != '/'
    ensures |r| == |p| || p[|p| - |r| - 1] == '/'
    decreases |p|
  {
    if |p| == 0 || p[|p| - 1] == '/' then [] else LastSegment(p[..|p| - 1]) + [p[|p| - 1]]
  }

  /** POSIX `path.basename(p)`: trailing slashes are dropped, then everything up to the last slash. */
  function Basename(p: string): (r: string)
    ensures NoSlash(r)
  {
    LastSegment(TrimTrailingSlashes(p))
  }

  predicate NoSlash(s: string) {
    forall i :: 0 <= i < |s| ==> s[i] != '/'
  }

  /** The base name is empty exactly when `p` consists of slashes only (or is empty). */
  lemma {:induction false} BasenameEmptyIffAllSlashes(p: string)
    ensures Basename(p) == [] <==> forall i :: 0 <= i < |p| ==> p[i] == '/'
  {
    var t := TrimTrailingSlashes(p);
    if t != [] {
      assert t[|t| - 1] != '/' && LastSegment(t) != [];
      assert p[|t| - 1] == t[|t| - 1];
    }
  }

  /** A name without slashes is its own base name. */
  lemma {:induction false} BasenameOfPlainName(s: string)
    requires NoSlash(s)
    ensures Basename(s) == s
  {
    PlainLastSegment(s);
  }

  lemma {:induction false} PlainLastSegment(s: string)
    requires NoSlash(s)
    ensures TrimTrailingSlashes(s) == s && LastSegment(s) == s
  {
    if |s| > 0 {
      PlainLastSegment(s[..|s| - 1]);
      assert s[..|s| - 1] + [s[|s| - 1]] == s;
    }
  }

  /** Reducing a name to its base name twice changes nothing more. */
  lemma BasenameIdempotent(p: string)
    ensures Basename(Basename(p)) == Basename(p)
  {
    BasenameOfPlainName(Basename(p));
  }

  /** Position of the last `.` in `b`, or -1 when there is none. */
  function LastDot(b: string): (k: int)
    ensures -1 <= k < |b|
    ensures k >= 0 ==> b[k] == '.'
    ensures forall i :: k < i < |b| ==> b[i] != '.'
    decreases |b|
  {
    if |b| == 0 then -1 else if b[|b| - 1] == '.' then |b| - 1 else LastDot(b[..|b| - 1])
  }

  /**
   * The extension of a base name `b`: from its last `.` to its end, except when `b` has no
   * dot, its last dot is its first character (a dot file such as `.bashrc`), or `b` is `..`.
   */
  function BaseExt(b: string): (e: string)
    ensures e == [] || (e[0] == '.' && |e| < |b| && e == b[|b| - |e|..])
  {
    var k := LastDot(b);
    if k <= 0 || b == ".." then "" else b[k..]
  }

  /** POSIX `path.extname(p)`: the extension of the base name of `p`. */
  function ExtName(p: string): (e: string)
    ensures e == [] || (e[0] == '.' && NoSlash(e))
  {
    BaseExt(Basename(p))
  }

  /**
   * An extension is found exactly when the base name has a dot after its first character
   * and is not `..`.
   */
  lemma ExtNameFound(p: string)
    ensures var b := Basename(p);
      ExtName(p) != [] <==> (exists i :: 0 < i < |b| && b[i] == '.') && b != ".."
  {
    BaseExtFound(Basename(p));
  }

  lemma BaseExtFound(b: string)
    ensures BaseExt(b) != [] <==> (exists i :: 0 < i < |b| && b[i] == '.') && b != ".."
  {
    var k := LastDot(b);
    if exists i :: 0 < i < |b| && b[i] == '.' {
      var i :| 0 < i < |b| && b[i] == '.';
      assert k >= i;
    }
  }

  /**
   * `e` has the shape of a found extension of the base name `b`: it starts with its only dot,
   * holds no slash and is a proper suffix of `b`.
   */
  predicate ExtensionOf(e: string, b: string) {
    IsExtension(e) && |e| < |b| && e == b[|b| - |e|..]
  }

  /** A dot followed by characters that are neither dots nor slashes. */
  predicate IsExtension(e: string) {
    && |e| > 0 && e[0] == '.' && NoSlash(e)
    && forall i :: 0 < i < |e| ==> e[i] != '.'
  }

  /** A non-empty extension has the shape of an extension of the base name. */
  lemma ExtNameShape(p: string)
    requires ExtName(p) != []
    ensures ExtensionOf(ExtName(p), Basename(p))
  {
    BaseExtShape(Basename(p));
  }

  lemma BaseExtShape(b: string)
    requires NoSlash(b) && BaseExt(b) != []
    ensures ExtensionOf(BaseExt(b), b)
  {
    var k := LastDot(b);
    var e := BaseExt(b);
    assert 0 < k && e == b[k..];
    assert forall i :: 0 <= i < |e| ==> e[i] == b[k + i];
  }
}
