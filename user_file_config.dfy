/** lib/userFileConfig.js: the directive header a template file may start
    with. The header is recognised by the regular expression
    `^###hopplaconfig((\s|\S)*)hopplaconfig###(\s*\n)?`; its body is parsed
    as Hjson, and the whole match is cut from the file. */
module UserFileConfig {
  import opened Wrappers
  import opened Errors
  import opened JsValues
  import opened NodePath

  const StartMarker: string := "###hopplaconfig"
  const EndMarker: string := "hopplaconfig###"

  /** `\s` in a JavaScript regular expression. */
  predicate IsSpace(c: char) {
    c == '\t' || c == '\n' || c == '\U{000B}' || c == '\U{000C}' || c == '\r' || c == ' '
    || c == '\U{00A0}' || c == '\U{1680}' || ('\U{2000}' <= c <= '\U{200A}')
    || c == '\U{2028}' || c == '\U{2029}' || c == '\U{202F}' || c == '\U{205F}'
    || c == '\U{3000}' || c == '\U{FEFF}'
  }

  /** An end marker starts at position `j` of `s`. */
  predicate EndAt(s: string, j: int) {
    0 <= j && j + |EndMarker| <= |s| && s[j..j + |EndMarker|] == EndMarker
  }

  /** The greedy `(\s|\S)*` backs off to the last end marker: the greatest
      `j` between the end of the start marker and `hi` where one starts. */
  function LastEnd(s: string, hi: int): (r: Option<nat>)
    ensures r.Some? ==> |StartMarker| <= r.value <= hi && EndAt(s, r.value)
    ensures forall j :: (if r.Some? then r.value else |StartMarker| - 1) < j <= hi ==> !EndAt(s, j)
    decreases hi
  {
    if hi < |StartMarker| then None
    else if EndAt(s, hi) then Some(hi)
    else LastEnd(s, hi - 1)
  }

  /** The length of the white space at the start of `t`. */
  function SpaceRun(t: string): (r: nat)
    ensures r <= |t|
    ensures forall i :: 0 <= i < r ==> IsSpace(t[i])
    ensures r < |t| ==> !IsSpace(t[r])
  {
    if t == [] || !IsSpace(t[0]) then 0 else 1 + SpaceRun(t[1..])
  }

  /** What `(\s*\n)?` consumes at the start of `t`: the longest run of white
      space that ends with a line feed, or nothing when the white space at
      the start of `t` holds no line feed. */
  function NewlineRun(t: string): (r: nat)
    ensures r <= SpaceRun(t)
    ensures r > 0 ==> t[r - 1] == '\n'
    ensures forall i :: r <= i < SpaceRun(t) ==> t[i] != '\n'
  {
    if t == [] || !IsSpace(t[0]) then 0
    else
      var rest := NewlineRun(t[1..]);
      if rest > 0 then rest + 1 else if t[0] == '\n' then 1 else 0
  }

  /** A match of the header expression up to the end marker: group 1 and
      where the end marker ends; the match goes on with what `(\s*\n)?`
      consumes after it. */
  datatype HeaderMatch = HeaderMatch(body: string, markerEnd: nat)

  /** `content.match(fileHeaderHopplaConfigRegex)`. */
  function MatchHeader(content: string): (r: Option<HeaderMatch>)
    ensures r.Some? ==> |StartMarker| <= |content| && content[..|StartMarker|] == StartMarker
    ensures r.Some? ==>
      var j := |StartMarker| + |r.value.body|;
      EndAt(content, j) && content[|StartMarker|..j] == r.value.body
      && r.value.markerEnd == j + |EndMarker|
    ensures r.Some? ==> forall j :: |StartMarker| + |r.value.body| < j ==> !EndAt(content, j)
    ensures r.None? ==>
      |content| < |StartMarker| || content[..|StartMarker|] != StartMarker
      || forall j :: |StartMarker| <= j ==> !EndAt(content, j)
  {
    if |content| >= |StartMarker| && content[..|StartMarker|] == StartMarker then
      match LastEnd(content, |content| - |EndMarker|)
      case None => None
      case Some(j) =>
        Some(HeaderMatch(content[|StartMarker|..j], j + |EndMarker|))
    else None
  }

  /** `createWithFileHeader` with `parseConfig`: the header's directives,
      `{}` when there is no header or its body is empty, and the parse
      error, reported for `pathOrig`, when the parser rejects the body. */
  function CreateWithFileHeader(pathOrig: Path, content: string, parse: string -> Option<JsValue>)
    : Result<JsValue, Failure>
  {
    match MatchHeader(content)
    case Some(m) =>
      if m.body == [] then Success(Obj(map[]))
      else if parse(m.body).None? then Failure(InvalidHopplaconfig(pathOrig))
      else Success(parse(m.body).value)
    case None => Success(Obj(map[]))
  }

  /** `cleanFileHeaderContent`: the content with the header match cut off. */
  function CleanFileHeaderContent(content: string): string {
    match MatchHeader(content)
    case Some(m) =>
      var after := content[m.markerEnd..];
      after[NewlineRun(after)..]
    case None => content
  }

  // ----- what the header expression does -----

  /** Without the start marker at the very beginning there is no header. */
  lemma HeaderNeedsStartMarker(pathOrig: Path, content: string, parse: string -> Option<JsValue>)
    requires !(StartMarker <= content)
    ensures CreateWithFileHeader(pathOrig, content, parse) == Success(Obj(map[]))
    ensures CleanFileHeaderContent(content) == content
  {
  }

  /** A file made of the start marker, a body, the end marker and the rest,
      where no end marker starts after the one following the body: the body
      is the header (so it may itself hold end markers, the match running to
      the last one), an empty body gives `{}`, a body the parser rejects is
      an error, and cleaning leaves the rest without the white space up to
      and including its last leading line feed. */
  lemma HeaderParts(pathOrig: Path, body: string, rest: string, parse: string -> Option<JsValue>)
    requires
      var content := StartMarker + body + EndMarker + rest;
      forall j :: |StartMarker| + |body| < j ==> !EndAt(content, j)
    ensures
      var content := StartMarker + body + EndMarker + rest;
      && MatchHeader(content).Some? && MatchHeader(content).value.body == body
      && CleanFileHeaderContent(content) == rest[NewlineRun(rest)..]
      && CreateWithFileHeader(pathOrig, content, parse)
         == if body == [] then Success(Obj(map[]))
            else if parse(body).None? then Failure(InvalidHopplaconfig(pathOrig))
            else Success(parse(body).value)
  {
    var content := StartMarker + body + EndMarker + rest;
    var j := |StartMarker| + |body|;
    assert content[..|StartMarker|] == StartMarker;
    assert content[j..j + |EndMarker|] == EndMarker;
    assert EndAt(content, j);
    MatchAtLastEnd(content, j);
    assert content[|StartMarker|..j] == body;
    assert content[j + |EndMarker|..] == rest;
  }

  /** The header ends at the last end marker after the start marker. */
  lemma MatchAtLastEnd(content: string, j: int)
    requires |StartMarker| <= j && |StartMarker| <= |content| && content[..|StartMarker|] == StartMarker
    requires EndAt(content, j) && forall k :: j < k ==> !EndAt(content, k)
    ensures MatchHeader(content)
         == Some(HeaderMatch(content[|StartMarker|..j], j + |EndMarker|))
  {
    LastEndIs(content, |content| - |EndMarker|, j);
  }

  /** `LastEnd` finds the end marker after which there is none. */
  lemma LastEndIs(s: string, hi: int, j: int)
    requires |StartMarker| <= j <= hi && EndAt(s, j) && forall k :: j < k <= hi ==> !EndAt(s, k)
    ensures LastEnd(s, hi) == Some(j)
  {
    var r := LastEnd(s, hi);
  }

  /** White space after the end marker that holds no line feed stays. */
  lemma SpaceWithoutLineFeedStays(t: string)
    requires forall i :: 0 <= i < SpaceRun(t) ==> t[i] != '\n'
    ensures NewlineRun(t) == 0
  {
  }

  lemma EndAtShift(c: string, a: nat, j: int)
    requires a <= |c| && EndAt(c[a..], j)
    ensures EndAt(c, a + j)
  {
    assert c[a..][j..j + |EndMarker|] == c[a + j..a + j + |EndMarker|];
  }

  /** Cleaning twice cuts nothing more: no end marker is left after the first
      cut, so the rest cannot hold a header. */
  lemma {:induction false} CleanIdempotent(content: string)
    ensures CleanFileHeaderContent(CleanFileHeaderContent(content)) == CleanFileHeaderContent(content)
  {
    var m := MatchHeader(content);
    if m.Some? {
      var after := content[m.value.markerEnd..];
      var e := m.value.markerEnd + NewlineRun(after);
      var c := content[e..];
      assert c == after[NewlineRun(after)..];
      if MatchHeader(c).Some? {
        var j := |StartMarker| + |MatchHeader(c).value.body|;
        EndAtShift(content, e, j);
        assert false;
      }
    }
  }
}
