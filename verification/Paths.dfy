/** The path grammar a/b[c=d]/e of internal/router/path.go: the parser, the printer,
    that each undoes the other, and that the textual "below" test used all over the
    code base is the prefix order on segments. */
module Paths {
  import opened Wrappers
  import opened Text

  datatype Segment = Segment(name: string, key: string, value: string)

  type Path = seq<Segment>

  // ---------------------------------------------------------------- printing

  function FormatSegment(segment: Segment): string {
    if segment.key == "" then segment.name
    else Bracketed(segment.name, segment.key + "=" + segment.value)
  }

  function Bracketed(name: string, body: string): string {
    name + "[" + body + "]"
  }

  function FormatParts(path: Path): (parts: seq<string>)
    ensures |parts| == |path|
    ensures forall i :: 0 <= i < |path| ==> parts[i] == FormatSegment(path[i])
  {
    if path == [] then [] else [FormatSegment(path[0])] + FormatParts(path[1..])
  }

  function Format(path: Path): string {
    Join(FormatParts(path), '/')
  }

  /** `Path.String`: a builder that writes a slash before every segment but the first. */
  method FormatPath(path: Path) returns (text: string)
    ensures text == Format(path)
  {
    hide Format, FormatParts;
    FormatEmpty();
    text := "";
    assert path[..0] == [];
    for i := 0 to |path|
      invariant text == Format(path[..i])
    {
      assert path[..i + 1] == path[..i] + [path[i]];
      FormatExtend(path[..i], path[i]);
      ghost var previous := text;
      if i > 0 { text := text + "/"; }
      text := text + path[i].name;
      if path[i].key != "" {
        text := text + "[" + path[i].key + "=" + path[i].value + "]";
      }
      assert text == previous + (if i > 0 then "/" else "") + FormatSegment(path[i]);
    }
    assert path[..|path|] == path;
  }

  lemma FormatEmpty()
    ensures Format([]) == ""
  {
  }

  lemma FormatPartsConcat(p: Path, q: Path)
    ensures FormatParts(p + q) == FormatParts(p) + FormatParts(q)
  {
  }

  lemma FormatExtend(path: Path, segment: Segment)
    ensures Format(path + [segment]) ==
            (if path == [] then "" else Format(path) + "/") + FormatSegment(segment)
  {
    FormatPartsConcat(path, [segment]);
    assert FormatParts([segment]) == [FormatSegment(segment)];
    if path != [] {
      JoinConcat(FormatParts(path), FormatParts([segment]), '/');
    }
  }

  // ----------------------------------------------------------------- parsing

  /** `parseSegment`: one slash-free component, with at most one key predicate. */
  function ParseSegment(part: string): Option<Segment> {
    var open := IndexOf(part, '[');
    if open < 0 then
      if part == "" then None else Some(Segment(part, "", ""))
    else if !HasSuffix(part, "]") || Count(part, '[') != 1 || Count(part, ']') != 1 then
      None
    else
      assert part[|part| - 1] == part[|part| - 1..][0] == ']';
      ParsePredicate(part[..open], part[open + 1..|part| - 1])
  }

  /** The part of `parseSegment` after the brackets have been located. */
  function ParsePredicate(name: string, body: string): Option<Segment> {
    var eq := IndexOf(body, '=');
    if name == "" || body == "" || eq <= 0 || eq == |body| - 1 then
      None
    else
      var key, value := body[..eq], body[eq + 1..];
      if '[' in key || ']' in key || '[' in value || ']' in value then None
      else Some(Segment(name, key, value))
  }

  function ParseParts(parts: seq<string>): (r: Option<Path>)
    ensures r.Some? ==> |r.value| == |parts|
    ensures r.Some? ==> forall i :: 0 <= i < |parts| ==> ParseSegment(parts[i]) == Some(r.value[i])
    ensures r.None? ==> exists i :: 0 <= i < |parts| && ParseSegment(parts[i]).None?
  {
    if parts == [] then Some([])
    else
      var first, rest := ParseSegment(parts[0]), ParseParts(parts[1..]);
      if first.None? || rest.None? then None else Some([first.value] + rest.value)
  }

  predicate HasEmptySegment(s: string) {
    exists i :: 0 <= i < |s| - 1 && s[i] == '/' && s[i + 1] == '/'
  }

  function Parse(s: string): Option<Path> {
    if s == "" then None
    else if s[0] == '/' || s[|s| - 1] == '/' || HasEmptySegment(s) then None
    else ParseParts(Split(s, '/'))
  }

  /** `Parse`: the loop over the split text. */
  method ParsePath(s: string) returns (r: Option<Path>)
    ensures r.Some? ==> r.value != [] && WellFormed(r.value) && Format(r.value) == s
    ensures r.None? ==> forall path: Path :: path != [] && WellFormed(path) ==> Format(path) != s
    ensures r == Parse(s)
  {
    ParseCharacterised(s);
    if s == "" || s[0] == '/' || s[|s| - 1] == '/' || HasEmptySegment(s) { return None; }
    r := ParseEach(Split(s, '/'));
  }

  method ParseEach(parts: seq<string>) returns (r: Option<Path>)
    ensures r == ParseParts(parts)
  {
    var segments: Path := [];
    for i := 0 to |parts|
      invariant |segments| == i
      invariant forall j :: 0 <= j < i ==> ParseSegment(parts[j]) == Some(segments[j])
    {
      var segment := ParseSegment(parts[i]);
      if segment.None? { return None; }
      segments := segments + [segment.value];
    }
    EachParsed(parts, segments);
    return Some(segments);
  }

  // ------------------------------------------------------------- well-formed

  /** The segments the grammar can spell: no slash anywhere, no bracket in a name or
      predicate, and a predicate either wholly present or wholly absent. */
  predicate WellFormedSegment(segment: Segment) {
    && segment.name != "" && '/' !in segment.name && '[' !in segment.name
    && (if segment.key == "" then segment.value == ""
        else
          && ']' !in segment.name
          && '/' !in segment.key && '=' !in segment.key && '[' !in segment.key && ']' !in segment.key
          && segment.value != "" && '/' !in segment.value && '[' !in segment.value && ']' !in segment.value)
  }

  predicate WellFormed(path: Path) {
    forall segment <- path :: WellFormedSegment(segment)
  }

  // ------------------------------------------------------------- round trips

  lemma ParseFormatSegment(segment: Segment)
    requires WellFormedSegment(segment)
    ensures ParseSegment(FormatSegment(segment)) == Some(segment)
  {
    if segment.key != "" {
      var body := segment.key + "=" + segment.value;
      BracketText(segment.name, body);
      PredicateBody(segment.name, segment.key, segment.value);
      CountZero(segment.name, ']');
      CountZero(body, '[');
      CountZero(body, ']');
      ParseBracketed(segment, body);
    }
  }

  lemma ParseBracketed(segment: Segment, body: string)
    requires var text := Bracketed(segment.name, body);
             && segment.name != "" && IndexOf(text, '[') == |segment.name| && HasSuffix(text, "]")
             && Count(text, '[') == 1 && Count(text, ']') == 1
             && text[..|segment.name|] == segment.name && text[|segment.name| + 1..|text| - 1] == body
    requires ParsePredicate(segment.name, body) == Some(segment)
    ensures ParseSegment(Bracketed(segment.name, body)) == Some(segment)
  {
  }

  lemma SegmentIsPiece(segment: Segment)
    requires WellFormedSegment(segment)
    ensures FormatSegment(segment) != "" && '/' !in FormatSegment(segment)
  {
  }

  lemma BracketText(name: string, body: string)
    requires '[' !in name
    ensures var text := Bracketed(name, body);
            && IndexOf(text, '[') == |name|
            && HasSuffix(text, "]")
            && Count(text, '[') == Count(body, '[') + 1
            && Count(text, ']') == Count(name, ']') + Count(body, ']') + 1
            && text[..|name|] == name && text[|name| + 1..|text| - 1] == body
  {
    var text := Bracketed(name, body);
    assert text == name + ['['] + (body + "]");
    FirstIndex(text, '[', |name|);
    CountConcat(name + "[" + body, "]", '[');
    CountConcat(name + "[" + body, "]", ']');
    CountConcat(name + "[", body, '[');
    CountConcat(name + "[", body, ']');
    CountConcat(name, "[", '[');
    CountConcat(name, "[", ']');
    CountZero(name, '[');
  }

  lemma PredicateBody(name: string, key: string, value: string)
    requires WellFormedSegment(Segment(name, key, value)) && key != ""
    ensures ParsePredicate(name, key + "=" + value) == Some(Segment(name, key, value))
    ensures '[' !in key + "=" + value && ']' !in key + "=" + value
  {
    var body := key + "=" + value;
    FirstIndex(body, '=', |key|);
    assert body[..|key|] == key && body[|key| + 1..] == value;
  }

  lemma FirstIndex(s: string, c: char, i: nat)
    requires i < |s| && s[i] == c && c !in s[..i]
    ensures IndexOf(s, c) == i
  {
    if i > 0 {
      assert s[..i][0] == s[0] && s[1..][..i - 1] == s[..i][1..];
      FirstIndex(s[1..], c, i - 1);
    }
  }

  lemma FormatParsedSegment(part: string)
    requires '/' !in part && ParseSegment(part).Some?
    ensures WellFormedSegment(ParseSegment(part).value)
    ensures FormatSegment(ParseSegment(part).value) == part
  {
    hide IndexOf, ParsePredicate, FormatSegment, Count;
    var open := IndexOf(part, '[');
    if open >= 0 {
      var name, body := part[..open], part[open + 1..|part| - 1];
      assert part[|part| - 1] == part[|part| - 1..][0] == ']';
      assert part == Bracketed(name, body);
      BracketText(name, body);
      CountZero(name, ']');
      assert '/' !in name && '/' !in body;
      FormatParsedPredicate(name, body);
    } else {
      BareSegment(part);
    }
  }

  lemma BareSegment(part: string)
    ensures FormatSegment(Segment(part, "", "")) == part
  {
  }

  lemma FormatParsedPredicate(name: string, body: string)
    requires '/' !in name && '[' !in name && ']' !in name && '/' !in body
    requires ParsePredicate(name, body).Some?
    ensures WellFormedSegment(ParsePredicate(name, body).value)
    ensures FormatSegment(ParsePredicate(name, body).value) == Bracketed(name, body)
  {
    var eq := IndexOf(body, '=');
    assert body == body[..eq] + "=" + body[eq + 1..];
  }

  lemma ParseFormatParts(path: Path)
    requires WellFormed(path)
    ensures ParseParts(FormatParts(path)) == Some(path)
  {
    var parts := FormatParts(path);
    forall i | 0 <= i < |path| ensures ParseSegment(parts[i]) == Some(path[i]) {
      ParseFormatSegment(path[i]);
    }
    EachParsed(parts, path);
  }

  /** A list of parts parses to the list of what each part parses to. */
  lemma EachParsed(parts: seq<string>, path: Path)
    requires |parts| == |path|
    requires forall i :: 0 <= i < |parts| ==> ParseSegment(parts[i]) == Some(path[i])
    ensures ParseParts(parts) == Some(path)
  {
    var parsed := ParseParts(parts).value;
    forall i | 0 <= i < |parts| ensures parsed[i] == path[i] {
      assert ParseSegment(parts[i]) == Some(parsed[i]);
    }
    assert parsed == path;
  }

  lemma FormatPieces(path: Path)
    requires WellFormed(path)
    ensures Pieces(FormatParts(path))
  {
    forall i | 0 <= i < |path|
      ensures FormatParts(path)[i] != "" && '/' !in FormatParts(path)[i]
    {
      SegmentIsPiece(path[i]);
    }
  }

  lemma FormatParsedParts(parts: seq<string>)
    requires forall part <- parts :: '/' !in part
    requires ParseParts(parts).Some?
    ensures WellFormed(ParseParts(parts).value)
    ensures FormatParts(ParseParts(parts).value) == parts
  {
    var path := ParseParts(parts).value;
    forall i | 0 <= i < |parts|
      ensures WellFormedSegment(path[i]) && FormatSegment(path[i]) == parts[i]
    {
      FormatParsedSegment(parts[i]);
    }
  }

  predicate Pieces(parts: seq<string>) {
    forall i :: 0 <= i < |parts| ==> parts[i] != "" && '/' !in parts[i]
  }

  /** Text with no empty piece has no leading, trailing or doubled slash. */
  lemma {:induction false} NoEmptyPieces(parts: seq<string>)
    requires |parts| >= 1 && Pieces(parts)
    ensures var s := Join(parts, '/');
            s != "" && s[0] != '/' && s[|s| - 1] != '/' && !HasEmptySegment(s)
  {
    if |parts| > 1 {
      NoEmptyPieces(parts[1..]);
      var s, first, rest := Join(parts, '/'), parts[0], Join(parts[1..], '/');
      assert s == first + "/" + rest;
      forall i | 0 <= i < |s| - 1 ensures s[i] != '/' || s[i + 1] != '/' {
        if i < |first| {
          assert s[i] == first[i];
        } else if i == |first| {
          assert s[i + 1] == rest[0];
        } else {
          var j := i - |first| - 1;
          assert s[i] == rest[j] && s[i + 1] == rest[j + 1];
        }
      }
    }
  }

  /** Printing and parsing are mutual inverses, on exactly the well-formed lists. */
  lemma ParseFormat(path: Path)
    ensures Parse(Format(path)) == Some(path) <==> path != [] && WellFormed(path)
  {
    if path != [] && WellFormed(path) {
      ParseFormatParts(path);
      FormatPieces(path);
      NoEmptyPieces(FormatParts(path));
      SplitJoin(FormatParts(path), '/');
    } else if Parse(Format(path)) == Some(path) {
      FormatParse(Format(path));
    }
  }

  lemma FormatParse(s: string)
    requires Parse(s).Some?
    ensures Parse(s).value != [] && WellFormed(Parse(s).value)
    ensures Format(Parse(s).value) == s
  {
    SplitPieces(s, '/');
    FormatParsedParts(Split(s, '/'));
    JoinSplit(s, '/');
  }

  lemma ParseCharacterised(s: string)
    ensures Parse(s).Some? ==> Parse(s).value != [] && WellFormed(Parse(s).value) && Format(Parse(s).value) == s
    ensures Parse(s).None? ==> forall path: Path :: path != [] && WellFormed(path) ==> Format(path) != s
  {
    if Parse(s).Some? {
      FormatParse(s);
    } else {
      forall path: Path | path != [] && WellFormed(path)
        ensures Format(path) != s
      {
        ParseFormat(path);
      }
    }
  }

  lemma FormatInjective(p: Path, q: Path)
    requires p != [] && q != [] && WellFormed(p) && WellFormed(q)
    requires Format(p) == Format(q)
    ensures p == q
  {
    ParseFormat(p);
    ParseFormat(q);
  }

  /** HasPrefix(q, p + "/") is "q lies strictly below p". */
  lemma BelowIsProperPrefix(p: Path, q: Path)
    requires p != [] && q != [] && WellFormed(p) && WellFormed(q)
    ensures HasPrefix(Format(q), Format(p) + "/") <==> p < q
  {
    if p < q { BelowHasPrefix(p, q); }
    if HasPrefix(Format(q), Format(p) + "/") { PrefixIsBelow(p, q); }
  }

  lemma BelowHasPrefix(p: Path, q: Path)
    requires p != [] && p < q
    ensures HasPrefix(Format(q), Format(p) + "/")
  {
    assert q == p + q[|p|..];
    FormatPartsConcat(p, q[|p|..]);
    JoinConcat(FormatParts(p), FormatParts(q[|p|..]), '/');
  }

  lemma PrefixIsBelow(p: Path, q: Path)
    requires p != [] && q != [] && WellFormed(p) && WellFormed(q) && HasPrefix(Format(q), Format(p) + "/")
    ensures p < q
  {
    hide Join, Split, FormatParts, ParseSegment, FormatSegment;
    var t := Format(q)[|Format(p)| + 1..];
    assert Format(q) == Format(p) + ['/'] + t;
    SplitConcat(Format(p), t, '/');
    FormatPieces(p);
    FormatPieces(q);
    SplitJoin(FormatParts(p), '/');
    SplitJoin(FormatParts(q), '/');
    assert FormatParts(q) == FormatParts(p) + Split(t, '/');
    forall i | 0 <= i < |p| ensures p[i] == q[i] {
      assert FormatParts(p)[i] == FormatParts(q)[i];
      ParseFormatSegment(p[i]);
      ParseFormatSegment(q[i]);
    }
  }
}
