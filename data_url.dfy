/**
 * The payload check of `POST /api/upload-base64`: the JavaScript pattern
 * `^data:(image\/\w+);base64,(.+)$` (no flags), and the extension taken from the media
 * type it captures. The prefix is a restriction of the `data:` URL syntax of section 3 of
 * RFC 2397; the data part is any non-empty run of characters other than line terminators,
 * which admits characters that RFC 2397 does not.
 */
module DataUrl {

  import opened Wrappers

  /** `\w`: A-Z a-z 0-9 and the underscore. */
  predicate IsWordChar(c: char) {
    'A' <= c <= 'Z' || 'a' <= c <= 'z' || '0' <= c <= '9' || c == '_'
  }

  /** The line terminators that `.` does not match: LF, CR, U+2028, U+2029. */
  predicate IsLineTerminator(c: char) {
    c == '\n' || c == '\r' || c == '\U{2028}' || c == '\U{2029}'
  }

  const Prefix: string := "data:image/"
  const Marker: string := ";base64,"

  /** What a match captures: group 1 is `image/` + `subtype`, group 2 is `data`. */
  datatype Payload = Payload(subtype: string, data: string) {

    function MediaType(): string {
      "image/" + subtype
    }

    /** The captures the pattern admits: a non-empty `\w+` and a non-empty `.+`. */
    predicate WellFormed() {
      && |subtype| > 0 && (forall i :: 0 <= i < |subtype| ==> IsWordChar(subtype[i]))
      && |data| > 0 && (forall i :: 0 <= i < |data| ==> !IsLineTerminator(data[i]))
    }

    function Format(): string {
      Prefix + subtype + Marker + data
    }
  }

  /** `s` matches the whole pattern with these captures. */
  predicate Matches(s: string, p: Payload) {
    p.WellFormed() && s == p.Format()
  }

  /** End of the run of word characters that starts at `i`. */
  function WordRun(s: string, i: nat): (j: nat)
    requires i <= |s|
    ensures i <= j <= |s|
    ensures forall k :: i <= k < j ==> IsWordChar(s[k])
    ensures j == |s| || !IsWordChar(s[j])
    decreases |s| - i
  {
    if i < |s| && IsWordChar(s[i]) then WordRun(s, i + 1) else i
  }

  /** `image.match(pattern)`: the captures, or None when the string does not match. */
  function Parse(s: string): (r: Option<Payload>)
    ensures r.Some? ==> Matches(s, r.value)
  {
    if !(Prefix <= s) then None
    else
      var j := WordRun(s, |Prefix|);
      if j == |Prefix| || !(Marker <= s[j..]) then None
      else
        var data := s[j + |Marker|..];
        if |data| == 0 || exists i :: 0 <= i < |data| && IsLineTerminator(data[i]) then None
        else
          var p := Payload(s[|Prefix|..j], data);
          assert s == Prefix + s[|Prefix|..j] + Marker + data by {
            assert s[j..j + |Marker|] == Marker;
          }
          Some(p)
  }

  /** In a matching string the subtype is a run of word characters closed by `;`. */
  lemma SubtypeRun(s: string, p: Payload)
    requires Matches(s, p)
    ensures |Prefix| + |p.subtype| < |s| && s[|Prefix| + |p.subtype|] == ';'
    ensures forall k :: |Prefix| <= k < |Prefix| + |p.subtype| ==> IsWordChar(s[k])
  {
    assert forall k :: |Prefix| <= k < |Prefix| + |p.subtype| ==> s[k] == p.subtype[k - |Prefix|];
  }

  /** A string matches the pattern in at most one way: the subtype ends at the first `;`. */
  lemma MatchUnique(s: string, p: Payload, q: Payload)
    requires Matches(s, p) && Matches(s, q)
    ensures p == q
  {
    SubtypeRun(s, p);
    SubtypeRun(s, q);
    assert |p.subtype| == |q.subtype|;
    assert p.subtype == s[|Prefix|..|Prefix| + |p.subtype|] == q.subtype;
    assert p.data == s[|Prefix| + |p.subtype| + |Marker|..] == q.data;
  }

  /** Every string that matches is accepted, with its own captures. */
  lemma ParseComplete(s: string, p: Payload)
    requires Matches(s, p)
    ensures Parse(s) == Some(p)
  {
    var n := |Prefix| + |p.subtype|;
    assert s[..|Prefix|] == Prefix;
    assert forall k :: |Prefix| <= k < n ==> s[k] == p.subtype[k - |Prefix|];
    assert s[n] == ';';
    assert WordRun(s, |Prefix|) == n;
    assert s[n..][..|Marker|] == Marker;
    assert s[n + |Marker|..] == p.data;
    MatchUnique(s, Parse(s).value, p);
  }

  /** The payload is accepted exactly when the whole string matches the pattern. */
  lemma ParseIffMatches(s: string)
    ensures Parse(s).Some? <==> exists p :: Matches(s, p)
  {
    if p :| Matches(s, p) {
      ParseComplete(s, p);
    }
  }

  /** Writing the captures back into the pattern and matching again gives them back. */
  lemma ParseFormat(p: Payload)
    requires p.WellFormed()
    ensures Parse(p.Format()) == Some(p)
  {
    ParseComplete(p.Format(), p);
  }

  /** Position of the first `/` in `s`, or -1. */
  function IndexOfSlash(s: string): (k: int)
    ensures -1 <= k < |s|
    ensures k >= 0 ==> s[k] == '/'
    ensures forall i :: 0 <= i < |s| && (k < 0 || i < k) ==> s[i] != '/'
  {
    if |s| == 0 then -1
    else if s[0] == '/' then 0
    else var k := IndexOfSlash(s[1..]); if k < 0 then -1 else k + 1
  }

  /** `mediaType.split('/')[1]`: the text between the first and the second slash, if any. */
  function SecondField(mediaType: string): (r: Option<string>)
    ensures r.None? <==> forall i :: 0 <= i < |mediaType| ==> mediaType[i] != '/'
    ensures r.Some? ==> forall i :: 0 <= i < |r.value| ==> r.value[i] != '/'
  {
    var i := IndexOfSlash(mediaType);
    if i < 0 then None
    else
      var rest := mediaType[i + 1..];
      var j := IndexOfSlash(rest);
      Some(if j < 0 then rest else rest[..j])
  }

  /** `matches[1].split('/')[1] || 'png'`. */
  function Extension(mediaType: string): (ext: string)
    ensures ext != []
    ensures forall i :: 0 <= i < |ext| ==> ext[i] != '/'
  {
    match SecondField(mediaType)
    case Some(f) => if f == [] then "png" else f
    case None => "png"
  }

  /** The extension of an accepted payload is its subtype: the `png` fallback is never taken. */
  lemma ExtensionIsSubtype(p: Payload)
    requires p.WellFormed()
    ensures Extension(p.MediaType()) == p.subtype
  {
    var m := p.MediaType();
    assert m[5] == '/';
    assert IndexOfSlash(m) == 5;
    assert m[6..] == p.subtype;
    assert IndexOfSlash(p.subtype) == -1;
  }
}
