/**
 * The hand-rolled multipart/form-data reader of the serverless analysis endpoint
 * (api/analyze.ts, `parseMultipartFormData`).
 *
 * The request must declare `multipart/form-data` and a `boundary=` parameter. The body is read
 * one character per byte and cut at every `--` + boundary. Each piece that mentions
 * `Content-Disposition` is a part. The first `name="..."` in it names the field. A `file` part
 * gives bytes and a media type, a `text` part gives text. Both are cut out with index
 * arithmetic on CRLF markers: from after the first blank line to before the last line break.
 * A later part with the same name replaces an earlier one.
 */
module Multipart {
  import opened Results
  import opened JsString

  /** The uploaded file: its bytes (before Base64 encoding) and its declared media type. */
  datatype FilePart = FilePart(data: seq<Byte>, mimeType: string)

  /** The two fields the reader extracts; a field that no part supplies is absent. */
  datatype Form = Form(file: Option<FilePart>, text: Option<string>)

  /**
   * The request body as the platform hands it over: raw bytes, an already decoded string, or
   * any other value (`undefined`, a plain object), which `Buffer.from` rejects.
   */
  datatype Body = Buffer(bytes: seq<Byte>) | Text(text: string) | Unreadable

  const NoFields := Form(None, None)

  const MultipartType := "multipart/form-data"
  const BoundaryParam := "boundary="
  const Disposition := "Content-Disposition"
  const DefaultMediaType := "application/octet-stream"
  const CRLF := "\r\n"
  const BlankLine := "\r\n\r\n"

  const InvalidContentType := "Invalid content type"
  const NoBoundary := "No boundary found in content-type"
  /** The start of the message of the `TypeError` that `Buffer.from` throws for such a value. */
  const UnreadableBody := "The first argument must be of type string or an instance of Buffer, ArrayBuffer, or Array or an Array-like Object."

  // ---------------------------------------------------------------------------------------
  // The byte-per-character view

  /** `buffer.toString('binary')`: one character per byte, whose code is the byte's value. */
  function Binary(bytes: seq<Byte>): (s: string)
    ensures |s| == |bytes|
    ensures forall k :: 0 <= k < |s| ==> s[k] as int == bytes[k] as int
  {
    seq(|bytes|, k requires 0 <= k < |bytes| => bytes[k] as char)
  }

  /** `Buffer.from(s, 'binary')`: one byte per character, the low eight bits of its code. */
  function BinaryBytes(s: string): (bytes: seq<Byte>)
    ensures |bytes| == |s|
    ensures forall k :: 0 <= k < |s| ==> bytes[k] as int == s[k] as int % 256
  {
    seq(|s|, k requires 0 <= k < |s| => (s[k] as int % 256) as Byte)
  }

  /** Every character of `s` has a code below 256, as in any byte-per-character view. */
  predicate Latin1(s: string)
  {
    forall k :: 0 <= k < |s| ==> s[k] as int < 256
  }

  /** Reading bytes as characters and writing them back gives the same bytes. */
  lemma BinaryBytesOfBinary(bytes: seq<Byte>)
    ensures Latin1(Binary(bytes))
    ensures BinaryBytes(Binary(bytes)) == bytes
  {
  }

  /** Writing a byte-per-character text as bytes and reading it back gives the same text. */
  lemma BinaryOfBinaryBytes(s: string)
    requires Latin1(s)
    ensures Binary(BinaryBytes(s)) == s
  {
  }

  /** A piece of a byte-per-character text is again one. */
  lemma Latin1Slice(s: string, i: int, j: int)
    requires Latin1(s) && 0 <= i <= j <= |s|
    ensures Latin1(s[i..j])
  {
  }

  // ---------------------------------------------------------------------------------------
  // The header checks

  /** `req.headers['content-type'] || ''`. */
  function HeaderText(contentType: Option<string>): string
  {
    if contentType.Some? then contentType.value else ""
  }

  /**
   * `contentType.split('boundary=')[1]`, when it is a non-empty string: the text after the
   * first `boundary=` up to the next one, with any quotes kept.
   */
  function BoundaryOf(contentType: string): (r: Option<string>)
    ensures r.Some? ==> r.value != "" && !Contains(r.value, BoundaryParam)
  {
    var pieces := Split(contentType, BoundaryParam);
    SplitPiecesFree(contentType, BoundaryParam);
    if |pieces| >= 2 && pieces[1] != "" then Some(pieces[1]) else None
  }

  /** The bytes of the body: a string body goes through the platform's text encoder. */
  function BodyBytes(body: Body, encode: string -> seq<Byte>): seq<Byte>
    requires !body.Unreadable?
  {
    if body.Buffer? then body.bytes else encode(body.text)
  }

  // ---------------------------------------------------------------------------------------
  // The two regular expressions

  /**
   * A regular expression `lead([^stop]+)`, followed by one character of `stop` when `closed`:
   * `/name="([^"]+)"/` and `/Content-Type: ([^\r\n]+)/`.
   */
  datatype Capture = Capture(lead: string, stop: set<char>, closed: bool)

  const NameLead := "name=\""
  const MediaTypeLead := "Content-Type: "
  const NameCapture := Capture(NameLead, {'"'}, true)
  const MediaTypeCapture := Capture(MediaTypeLead, {'\r', '\n'}, false)

  /** The length of the longest run of characters outside `stop` that starts at `from`. */
  function RunLength(s: string, from: nat, stop: set<char>): (n: nat)
    requires from <= |s|
    ensures from + n <= |s|
    ensures forall k :: from <= k < from + n ==> s[k] !in stop
    ensures from + n < |s| ==> s[from + n] in stop
    decreases |s| - from
  {
    if from == |s| || s[from] in stop then 0 else 1 + RunLength(s, from + 1, stop)
  }

  /**
   * The expression matches at `p`: the lead is there, at least one character outside `stop`
   * follows it, and, when the expression is closed, a character of `stop` ends the run.
   * The greedy run cannot give back characters to help, since each of them is outside `stop`.
   */
  predicate MatchesAt(s: string, c: Capture, p: int)
  {
    OccursAt(s, c.lead, p) &&
    var n := RunLength(s, p + |c.lead|, c.stop);
    n > 0 && (c.closed ==> p + |c.lead| + n < |s|)
  }

  /** The text the group captures when the expression matches at `p`. */
  function CaptureAt(s: string, c: Capture, p: int): (r: string)
    requires MatchesAt(s, c, p)
    ensures r != "" && forall k :: 0 <= k < |r| ==> r[k] !in c.stop
  {
    var from := p + |c.lead|;
    s[from..from + RunLength(s, from, c.stop)]
  }

  /** The leftmost position at or after `from` where the expression matches, or -1. */
  function MatchFrom(s: string, c: Capture, from: nat): (r: int)
    ensures r == -1 || (from <= r && MatchesAt(s, c, r))
    ensures forall p :: from <= p && (r == -1 || p < r) ==> !MatchesAt(s, c, p)
    decreases |s| - from
  {
    if from + |c.lead| > |s| then -1
    else if MatchesAt(s, c, from) then from
    else MatchFrom(s, c, from + 1)
  }

  /** `s.match(re)?.[1]`: the group of the leftmost match, or nothing. */
  function FirstCapture(s: string, c: Capture): (r: Option<string>)
    ensures r.None? <==> forall p :: !MatchesAt(s, c, p)
  {
    var p := MatchFrom(s, c, 0);
    if p == -1 then None else Some(CaptureAt(s, c, p))
  }

  /** The field name of a part: the first `name="..."` in it (which may sit in `filename="..."`). */
  function FieldName(part: string): Option<string>
  {
    FirstCapture(part, NameCapture)
  }

  /** The media type of a file part: the first `Content-Type: ` value, trimmed, or the default. */
  function MediaType(part: string): string
  {
    var m := FirstCapture(part, MediaTypeCapture);
    if m.None? then DefaultMediaType else Trim(m.value)
  }

  /**
   * The payload of a part: from just after its first blank line to just before its last line
   * break, with `substring`'s clamping and swapping when the markers are missing.
   */
  function Payload(part: string): string
  {
    Substring(part, IndexOf(part, BlankLine) + 4, LastIndexOf(part, CRLF))
  }

  // ---------------------------------------------------------------------------------------
  // Reading the parts

  /** The part carries a disposition and names the field `name`. */
  predicate IsField(part: string, name: string)
  {
    Contains(part, Disposition) && FieldName(part) == Some(name)
  }

  /** The form after one more part: a `file` or `text` part replaces that field. */
  function ApplyPart(form: Form, part: string): Form
  {
    if IsField(part, "file") then
      form.(file := Some(FilePart(BinaryBytes(Payload(part)), MediaType(part))))
    else if IsField(part, "text") then
      form.(text := Some(Payload(part)))
    else form
  }

  /** The form after reading the parts in order, starting with no fields. */
  function ApplyParts(parts: seq<string>): Form
  {
    if parts == [] then NoFields
    else ApplyPart(ApplyParts(parts[..|parts| - 1]), parts[|parts| - 1])
  }

  /** The form read from the byte-per-character body `text` cut at `--` + `boundary`. */
  function DecodeText(boundary: string, text: string): Form
  {
    ApplyParts(Split(text, "--" + boundary))
  }

  /** What `parseMultipartFormData` resolves to, or the message it throws. */
  function ParseForm(contentType: Option<string>, body: Body, encode: string -> seq<Byte>)
    : Result<Form, string>
  {
    var ct := HeaderText(contentType);
    if !Contains(ct, MultipartType) then Failure(InvalidContentType)
    else if BoundaryOf(ct).None? then Failure(NoBoundary)
    else if body.Unreadable? then Failure(UnreadableBody)
    else Success(DecodeText(BoundaryOf(ct).value, Binary(BodyBytes(body, encode))))
  }

  /**
   * `parseMultipartFormData`: checks the header, cuts the body and walks the parts, letting
   * each `file` or `text` part overwrite the field read so far.
   */
  method ParseMultipartFormData(contentTypeHeader: Option<string>, body: Body,
                                encode: string -> seq<Byte>)
    returns (r: Result<Form, string>)
    ensures r == ParseForm(contentTypeHeader, body, encode)
  {
    var contentType := if contentTypeHeader.Some? then contentTypeHeader.value else "";
    if !Contains(contentType, MultipartType) {
      return Failure(InvalidContentType);
    }
    var pieces := Split(contentType, BoundaryParam);
    if |pieces| < 2 || pieces[1] == "" {
      return Failure(NoBoundary);
    }
    var boundary := pieces[1];
    if body.Unreadable? {
      return Failure(UnreadableBody);
    }
    var bodyBuffer := if body.Buffer? then body.bytes else encode(body.text);
    var parts := Split(Binary(bodyBuffer), "--" + boundary);
    var fileData: Option<FilePart> := None;
    var textData: Option<string> := None;
    for i := 0 to |parts|
      invariant Form(fileData, textData) == ApplyParts(parts[..i])
    {
      assert parts[..i + 1][..i] == parts[..i];
      var part := parts[i];
      if Contains(part, Disposition) {
        var name := FieldName(part);
        if name == Some("file") {
          var mimeType := MediaType(part);
          var dataStart := IndexOf(part, BlankLine) + 4;
          var dataEnd := LastIndexOf(part, CRLF);
          fileData := Some(FilePart(BinaryBytes(Substring(part, dataStart, dataEnd)), mimeType));
        } else if name == Some("text") {
          var dataStart := IndexOf(part, BlankLine) + 4;
          var dataEnd := LastIndexOf(part, CRLF);
          textData := Some(Substring(part, dataStart, dataEnd));
        }
      }
    }
    assert parts[..|parts|] == parts;
    return Success(Form(fileData, textData));
  }

  // ---------------------------------------------------------------------------------------
  // The header checks decide every error

  /** An absent `Content-Type` header is read as the empty string and rejected. */
  lemma AbsentHeader(body: Body, encode: string -> seq<Byte>)
    ensures ParseForm(None, body, encode) == Failure(InvalidContentType)
  {
    TooShort("", MultipartType);
  }

  /**
   * For a body of bytes or a string, only the header can make the reader fail, with one of its
   * two messages; the body is never rejected, however it is cut.
   */
  lemma HeaderDecides(contentType: Option<string>, body1: Body, body2: Body,
                      encode1: string -> seq<Byte>, encode2: string -> seq<Byte>)
    requires !body1.Unreadable? && !body2.Unreadable?
    ensures ParseForm(contentType, body1, encode1).Failure? <==>
            ParseForm(contentType, body2, encode2).Failure?
    ensures ParseForm(contentType, body1, encode1).Failure? ==>
            ParseForm(contentType, body1, encode1) == ParseForm(contentType, body2, encode2)
    ensures ParseForm(contentType, body1, encode1).Failure? ==>
            ParseForm(contentType, body1, encode1).error in {InvalidContentType, NoBoundary}
  {
  }

  /**
   * The body of a header that passed both checks: a value `Buffer.from` rejects makes the
   * reader throw its `TypeError`; a header that fails a check throws first, whatever the body.
   */
  lemma UnreadableBodyFails(contentType: Option<string>, encode: string -> seq<Byte>, body: Body,
                            encode2: string -> seq<Byte>)
    requires !body.Unreadable?
    ensures ParseForm(contentType, Unreadable, encode).Failure?
    ensures ParseForm(contentType, body, encode2).Success? ==>
            ParseForm(contentType, Unreadable, encode) == Failure(UnreadableBody)
    ensures ParseForm(contentType, body, encode2).Failure? ==>
            ParseForm(contentType, Unreadable, encode) == ParseForm(contentType, body, encode2)
  {
  }

  /**
   * Splitting on `boundary=` cuts first right after `pre` when no `boundary=` starts inside
   * `pre`, that is, when `pre` followed by `boundary` does not contain it.
   */
  lemma SplitAfterPlain(pre: string, rest: string)
    requires !Contains(pre + "boundary", BoundaryParam)
    ensures Split(pre + BoundaryParam + rest, BoundaryParam) == [pre] + Split(rest, BoundaryParam)
  {
    assert BoundaryParam[..|BoundaryParam| - 1] == "boundary";
    SplitFirstAt(pre, BoundaryParam, rest);
  }

  /** A header without `boundary=` has no boundary. */
  lemma NoBoundaryParam(contentType: string)
    requires !Contains(contentType, BoundaryParam)
    ensures BoundaryOf(contentType) == None
  {
  }

  /**
   * The boundary is everything after `boundary=` when nothing follows it, quotes included; an
   * empty one is missing.
   */
  lemma BoundaryAtEnd(pre: string, b: string)
    requires !Contains(pre + "boundary", BoundaryParam) && !Contains(b, BoundaryParam)
    ensures BoundaryOf(pre + BoundaryParam + b) == if b == "" then None else Some(b)
  {
    SplitAfterPlain(pre, b);
    SplitNone(b, BoundaryParam);
  }

  /** The boundary stops at a second `boundary=`. */
  lemma BoundaryBeforeSecond(pre: string, b: string, more: string)
    requires !Contains(pre + "boundary", BoundaryParam) && !Contains(b + "boundary", BoundaryParam)
    ensures BoundaryOf(pre + BoundaryParam + b + BoundaryParam + more) ==
            if b == "" then None else Some(b)
  {
    assert pre + BoundaryParam + b + BoundaryParam + more == pre + BoundaryParam + (b + BoundaryParam + more);
    SplitAfterPlain(pre, b + BoundaryParam + more);
    SplitAfterPlain(b, more);
  }

  /**
   * The header a browser sends, `multipart/form-data; boundary=B`, is accepted, and the body is
   * read with boundary `B`, even one in quotes or holding '='.
   */
  lemma BrowserHeader(b: string, body: Body, encode: string -> seq<Byte>)
    requires b != "" && !Contains(b, BoundaryParam)
    ensures ParseForm(Some(MultipartType + "; " + BoundaryParam + b), body, encode) ==
            if body.Unreadable? then Failure(UnreadableBody)
            else Success(DecodeText(b, Binary(BodyBytes(body, encode))))
  {
    var pre := MultipartType + "; ";
    var ct := pre + BoundaryParam + b;
    assert ct[..|MultipartType|] == MultipartType;
    assert OccursAt(ct, MultipartType, 0);
    assert '=' !in pre + "boundary";
    MissingChar(pre + "boundary", BoundaryParam, '=');
    BoundaryAtEnd(pre, b);
  }

  // ---------------------------------------------------------------------------------------
  // How the parts combine

  /** The part leaves both fields alone: it has no disposition or names another field. */
  predicate Ignored(part: string)
  {
    !IsField(part, "file") && !IsField(part, "text")
  }

  /** Splitting off the last element of the right operand of a concatenation. */
  lemma AppendSnoc<T>(a: seq<T>, t: seq<T>)
    requires t != []
    ensures a + t == (a + t[..|t| - 1]) + [t[|t| - 1]]
  {
  }

  /** Reading one more part at the end. */
  lemma ApplyPartsSnoc(parts: seq<string>, part: string)
    ensures ApplyParts(parts + [part]) == ApplyPart(ApplyParts(parts), part)
  {
    assert (parts + [part])[..|parts|] == parts;
  }

  /** A part with no `Content-Disposition`, or naming a field other than `file` and `text`, changes nothing wherever it sits. */
  lemma {:induction false} IgnoredAnywhere(a: seq<string>, part: string, b: seq<string>)
    requires Ignored(part)
    ensures ApplyParts(a + [part] + b) == ApplyParts(a + b)
    decreases |b|
  {
    if b == [] {
      assert a + [part] + b == a + [part];
      assert a + b == a;
      ApplyPartsSnoc(a, part);
    } else {
      var init, last := b[..|b| - 1], b[|b| - 1];
      IgnoredAnywhere(a, part, init);
      AppendSnoc(a + [part], b);
      AppendSnoc(a, b);
      ApplyPartsSnoc(a + [part] + init, last);
      ApplyPartsSnoc(a + init, last);
    }
  }

  /** Parts that are all ignored, added at the end, change nothing. */
  lemma {:induction false} IgnoredSuffix(a: seq<string>, tail: seq<string>)
    requires forall k :: 0 <= k < |tail| ==> Ignored(tail[k])
    ensures ApplyParts(a + tail) == ApplyParts(a)
    decreases |tail|
  {
    if tail == [] {
      assert a + tail == a;
    } else {
      var init, last := tail[..|tail| - 1], tail[|tail| - 1];
      IgnoredSuffix(a, init);
      AppendSnoc(a, tail);
      ApplyPartsSnoc(a + init, last);
    }
  }

  /** A part names at most one field. */
  lemma OneName(part: string)
    ensures !(IsField(part, "file") && IsField(part, "text"))
  {
  }

  /** No `file` or `text` part at index `k` or later. */
  predicate NoFieldAfter(parts: seq<string>, k: int, name: string)
  {
    forall j :: 0 <= j < |parts| && k < j ==> !IsField(parts[j], name)
  }

  /**
   * The `text` field is the payload of the last `text` part: a later part overwrites an earlier
   * one, and the field is absent when no part names it.
   */
  lemma {:induction false} TextIsLast(parts: seq<string>)
    ensures ApplyParts(parts).text.None? <==> forall k :: 0 <= k < |parts| ==> !IsField(parts[k], "text")
    ensures forall k :: 0 <= k < |parts| && IsField(parts[k], "text") && NoFieldAfter(parts, k, "text") ==>
      ApplyParts(parts).text == Some(Payload(parts[k]))
    decreases |parts|
  {
    if parts != [] {
      var init, last := parts[..|parts| - 1], parts[|parts| - 1];
      TextIsLast(init);
      assert parts == init + [last];
      ApplyPartsSnoc(init, last);
      OneName(last);
      if !IsField(last, "text") {
        assert ApplyParts(parts).text == ApplyParts(init).text;
        forall k | 0 <= k < |init|
          ensures NoFieldAfter(parts, k, "text") ==> NoFieldAfter(init, k, "text")
        {
        }
      }
    }
  }

  /**
   * The `file` field holds the bytes and media type of the last `file` part: a later part
   * overwrites an earlier one, and the field is absent when no part names it.
   */
  lemma {:induction false} FileIsLast(parts: seq<string>)
    ensures ApplyParts(parts).file.None? <==> forall k :: 0 <= k < |parts| ==> !IsField(parts[k], "file")
    ensures forall k :: 0 <= k < |parts| && IsField(parts[k], "file") && NoFieldAfter(parts, k, "file") ==>
      ApplyParts(parts).file == Some(FilePart(BinaryBytes(Payload(parts[k])), MediaType(parts[k])))
    decreases |parts|
  {
    if parts != [] {
      var init, last := parts[..|parts| - 1], parts[|parts| - 1];
      FileIsLast(init);
      assert parts == init + [last];
      ApplyPartsSnoc(init, last);
      if !IsField(last, "file") {
        assert ApplyParts(parts).file == ApplyParts(init).file;
        forall k | 0 <= k < |init|
          ensures NoFieldAfter(parts, k, "file") ==> NoFieldAfter(init, k, "file")
        {
        }
      }
    }
  }

  // ---------------------------------------------------------------------------------------
  // Payloads and captures

  /**
   * The payload of `head`, a blank line, `v` and a line break is exactly `v`, whatever `v`
   * holds (line breaks and blank lines included), when the blank line after `head` is its first.
   */
  lemma PayloadOf(head: string, v: string)
    requires !Contains(head, BlankLine)
    requires head == [] || head[|head| - 1] !in BlankLine
    ensures Payload(head + BlankLine + v + CRLF) == v
  {
    var rest := BlankLine + v + CRLF;
    var s := head + rest;
    assert s == head + BlankLine + v + CRLF;
    assert rest[..4] == BlankLine;
    NoEarlyMatch(head, rest, BlankLine);
    IndexOfAfter(head, rest, BlankLine);
    LastIndexOfEnd(head + BlankLine + v, CRLF);
    assert s[|head| + 4..|head| + 4 + |v|] == v;
  }

  /** Every piece of a split of a byte-per-character text is one. */
  lemma {:induction false} SplitLatin1(s: string, sep: string)
    requires sep != [] && Latin1(s)
    ensures forall k :: 0 <= k < |Split(s, sep)| ==> Latin1(Split(s, sep)[k])
    decreases |s|
  {
    var i := IndexOf(s, sep);
    if i != -1 {
      SplitLatin1(s[i + |sep|..], sep);
    }
  }

  /**
   * No text decoding happens: the file's bytes, read back one character per byte, are exactly
   * the payload cut from a part of the byte-per-character body.
   */
  lemma FileBytesPreserved(part: string)
    requires Latin1(part)
    ensures Binary(BinaryBytes(Payload(part))) == Payload(part)
  {
    BinaryOfBinaryBytes(Payload(part));
  }

  /**
   * The leftmost match of the expression starts right after `x` and captures `v`, when the
   * lead's `j`-th character occurs neither in `x` nor before position `j` of the lead, and `v`
   * is a non-empty run of characters outside `stop` that one of `stop` ends.
   */
  lemma CaptureAfter(x: string, c: Capture, j: int, v: string, rest: string)
    requires 0 <= j < |c.lead|
    requires c.lead[j] !in x && c.lead[j] !in c.lead[..j]
    requires v != [] && forall k :: 0 <= k < |v| ==> v[k] !in c.stop
    requires rest != [] && rest[0] in c.stop
    ensures FirstCapture(x + c.lead + v + rest, c) == Some(v)
  {
    var s := x + c.lead + v + rest;
    var from := |x| + |c.lead|;
    assert s[|x|..from] == c.lead;
    forall k | 0 <= k < |v|
      ensures s[from + k] == v[k] && s[from + k] !in c.stop
    {
    }
    assert s[from + |v|] == rest[0];
    assert RunLength(s, from, c.stop) == |v|;
    assert MatchesAt(s, c, |x|);
    forall k | j <= k < |x| + j
      ensures s[k] != c.lead[j]
    {
      if k < |x| {
        assert s[k] == x[k];
      } else {
        assert s[k] == c.lead[..j][k - |x|];
      }
    }
    NoMatchByChar(s, c.lead, 0, |x|, j);
    assert s[from..from + |v|] == v;
  }

  // ---------------------------------------------------------------------------------------
  // Round trips

  /** The line break that ends a delimiter, then `Content-Disposition: form-data; name="<name>"`. */
  function DispositionLine(name: string): string
  {
    CRLF + Disposition + ": form-data; " + NameLead + name + "\""
  }

  /** A `text` part carrying `v`: the header line, a blank line, `v` and the closing line break. */
  function TextPart(v: string): string
  {
    DispositionLine("text") + BlankLine + v + CRLF
  }

  /** A `file` part: the header line, a `Content-Type` line, a blank line, the bytes and a line break. */
  function FilePartText(mimeType: string, data: seq<Byte>): string
  {
    DispositionLine("file") + CRLF + MediaTypeLead + mimeType + BlankLine + Binary(data) + CRLF
  }

  /** A body with one part: the delimiter, the part and the close delimiter (section 5.1.1 of RFC 2046). */
  function SinglePartBody(boundary: string, part: string): string
  {
    "--" + boundary + part + "--" + boundary + "--" + CRLF
  }

  /** A piece too short to hold `Content-Disposition` is ignored. */
  lemma ShortIgnored(part: string)
    requires |part| < |Disposition|
    ensures Ignored(part)
  {
    TooShort(part, Disposition);
  }

  /** A part that starts with a disposition line carries `Content-Disposition`. */
  lemma DispositionMarks(name: string, rest: string)
    ensures Contains(DispositionLine(name) + rest, Disposition)
  {
    var s := DispositionLine(name) + rest;
    var tail := ": form-data; " + NameLead + name + "\"" + rest;
    assert s == CRLF + Disposition + tail;
    assert s[2..2 + |Disposition|] == Disposition;
    assert OccursAt(s, Disposition, 2);
  }

  /** A disposition line naming `name` gives the part that field name, whatever follows it. */
  lemma DispositionNames(name: string, rest: string)
    requires name != [] && '"' !in name
    ensures FieldName(DispositionLine(name) + rest) == Some(name)
  {
    var x := CRLF + Disposition + ": form-data; ";
    assert DispositionLine(name) + rest == x + NameLead + name + ("\"" + rest);
    CaptureAfter(x, NameCapture, 4, name, "\"" + rest);
  }

  /** A disposition line holds no blank line when the name holds no carriage return. */
  lemma DispositionNoBlankLine(name: string)
    requires '\r' !in name
    ensures !Contains(DispositionLine(name), BlankLine)
  {
    var y := Disposition + ": form-data; " + NameLead + name + "\"";
    assert DispositionLine(name) == CRLF + y;
    MissingChar(y, BlankLine, '\r');
    TooShort(CRLF, BlankLine);
    JoinFree(CRLF, y, BlankLine);
  }

  /** A disposition line holds no `--` when the name holds no '-'. */
  lemma DispositionNoDoubleDash(name: string)
    requires '-' !in name
    ensures !Contains(DispositionLine(name), "--")
  {
    var a := CRLF + Disposition;
    var b := ": form-data; " + NameLead + name + "\"";
    assert DispositionLine(name) == a + b;
    HeadNoDoubleDash();
    ParamsNoDoubleDash(b[|": form-data; "|..]);
    assert b == ": form-data; " + b[|": form-data; "|..];
    JoinFree(a, b, "--");
  }

  /** The line break and `Content-Disposition` hold a single '-'. */
  lemma HeadNoDoubleDash()
    ensures !Contains(CRLF + Disposition, "--")
  {
    var a1, a2 := CRLF + "Content", "Disposition";
    assert CRLF + Disposition == a1 + ['-'] + a2;
    SingleChar(a1, '-', a2);
  }

  /** `: form-data; ` followed by text without '-' holds a single '-'. */
  lemma ParamsNoDoubleDash(more: string)
    requires '-' !in more
    ensures !Contains(": form-data; " + more, "--")
  {
    var b1, b2 := ": form", "data; " + more;
    assert ": form-data; " + more == b1 + ['-'] + b2;
    SingleChar(b1, '-', b2);
  }

  /** A text that starts with the separator splits into an empty piece and the rest's pieces. */
  lemma SplitLeading(pat: string, r: string)
    requires pat != []
    ensures Split(pat + r, pat) == [""] + Split(r, pat)
  {
    var s := pat + r;
    assert s[..|pat|] == pat;
    SplitAt(s, pat, 0);
    assert s[..0] == "" && s[|pat|..] == r;
  }

  /**
   * A piece that holds no separator, and whose last character cannot start one across the cut,
   * is cut out whole.
   */
  lemma SplitPieceThen(piece: string, pat: string, tail: string)
    requires pat != [] && !Contains(piece, pat)
    requires piece != [] && piece[|piece| - 1] !in pat
    ensures Split(piece + (pat + tail), pat) == [piece] + Split(tail, pat)
  {
    NoEarlyMatch(piece, pat + tail, pat);
    assert piece + (pat + tail) == piece + pat + tail;
    SplitCut(piece, pat, tail);
  }

  /**
   * A part that ends with a line break and holds no delimiter is cut out whole: the body splits
   * into the empty preamble, the part, and the pieces of the close delimiter's tail.
   */
  lemma SinglePartSplit(boundary: string, part: string)
    requires '\n' !in boundary
    requires part != [] && part[|part| - 1] == '\n'
    requires !Contains(part, "--" + boundary)
    ensures Split(SinglePartBody(boundary, part), "--" + boundary) ==
            ["", part] + Split("--" + CRLF, "--" + boundary)
  {
    var pat := "--" + boundary;
    var tail := "--" + CRLF;
    assert SinglePartBody(boundary, part) == pat + (part + (pat + tail));
    SplitLeading(pat, part + (pat + tail));
    SplitPieceThen(part, pat, tail);
  }

  /** The pieces of the close delimiter's tail are all ignored. */
  lemma CloseIgnored(boundary: string)
    ensures forall k :: 0 <= k < |Split("--" + CRLF, "--" + boundary)| ==>
      Ignored(Split("--" + CRLF, "--" + boundary)[k])
  {
    var pieces := Split("--" + CRLF, "--" + boundary);
    SplitPiecesShort("--" + CRLF, "--" + boundary);
    forall k | 0 <= k < |pieces|
      ensures Ignored(pieces[k])
    {
      ShortIgnored(pieces[k]);
    }
  }

  /** A body with one part reads as that part alone. */
  lemma SinglePartForm(boundary: string, part: string)
    requires '\n' !in boundary
    requires part != [] && part[|part| - 1] == '\n'
    requires !Contains(part, "--" + boundary)
    ensures DecodeText(boundary, SinglePartBody(boundary, part)) == ApplyPart(NoFields, part)
  {
    SinglePartSplit(boundary, part);
    CloseIgnored(boundary);
    IgnoredSuffix(["", part], Split("--" + CRLF, "--" + boundary));
    ShortIgnored("");
    ApplyPartsSnoc([""], part);
    ApplyPartsSnoc([], "");
    assert [""] + [part] == ["", part];
    assert [] + [""] == [""];
  }

  /**
   * A part `head` + blank line + `v` + line break holds no delimiter when `head` holds no `--`,
   * `v` holds no delimiter and the boundary has no line-break characters.
   */
  lemma PartFree(boundary: string, head: string, v: string)
    requires '\r' !in boundary && '\n' !in boundary
    requires !Contains(head, "--") && !Contains(v, "--" + boundary)
    ensures !Contains(head + BlankLine + v + CRLF, "--" + boundary)
  {
    var pat := "--" + boundary;
    MissingPrefix(head, "--", boundary);
    MissingChar(BlankLine, pat, '-');
    MissingChar(CRLF, pat, '-');
    JoinFree(head, BlankLine, pat);
    JoinFree(head + BlankLine, v, pat);
    JoinFree(head + BlankLine + v, CRLF, pat);
  }

  /**
   * Round trip for a `text` field: a body with one `text` part carrying `v` reads back as
   * exactly `v`, line breaks included, as long as `v` holds no delimiter.
   */
  lemma TextRoundTrip(boundary: string, v: string)
    requires '\r' !in boundary && '\n' !in boundary
    requires !Contains(v, "--" + boundary)
    ensures DecodeText(boundary, SinglePartBody(boundary, TextPart(v))) == Form(None, Some(v))
  {
    DispositionNoDoubleDash("text");
    PartFree(boundary, DispositionLine("text"), v);
    SinglePartForm(boundary, TextPart(v));
    TextPartReads(v);
  }

  /** One `text` part, read on its own, sets the `text` field to its payload. */
  lemma TextPartReads(v: string)
    ensures ApplyPart(NoFields, TextPart(v)) == Form(None, Some(v))
  {
    var head := DispositionLine("text");
    var rest := BlankLine + v + CRLF;
    assert TextPart(v) == head + rest;
    DispositionMarks("text", rest);
    DispositionNames("text", rest);
    DispositionNoBlankLine("text");
    PayloadOf(head, v);
    ReadsAsText(TextPart(v));
  }

  /** A part naming `text` sets only the `text` field. */
  lemma ReadsAsText(part: string)
    requires IsField(part, "text")
    ensures ApplyPart(NoFields, part) == Form(None, Some(Payload(part)))
  {
  }

  /** A part naming `file` sets only the `file` field. */
  lemma ReadsAsFile(part: string)
    requires IsField(part, "file")
    ensures ApplyPart(NoFields, part) ==
            Form(Some(FilePart(BinaryBytes(Payload(part)), MediaType(part))), None)
  {
  }

  /** The header lines of a `file` part: the disposition line and the `Content-Type` line. */
  function FileHead(mimeType: string): string
  {
    DispositionLine("file") + CRLF + MediaTypeLead + mimeType
  }

  /** The header lines of a `file` part hold no `--` when the media type holds none. */
  lemma FileHeadNoDoubleDash(mimeType: string)
    requires !Contains(mimeType, "--")
    ensures !Contains(FileHead(mimeType), "--")
  {
    TypeLineNoDoubleDash();
    JoinFree(CRLF + MediaTypeLead, mimeType, "--");
    DispositionNoDoubleDash("file");
    assert FileHead(mimeType) == DispositionLine("file") + (CRLF + MediaTypeLead + mimeType);
    JoinFree(DispositionLine("file"), CRLF + MediaTypeLead + mimeType, "--");
  }

  /** The line break and `Content-Type: ` hold a single '-'. */
  lemma TypeLineNoDoubleDash()
    ensures !Contains(CRLF + MediaTypeLead, "--")
  {
    var a1, a2 := CRLF + "Content", "Type: ";
    assert CRLF + MediaTypeLead == a1 + ['-'] + a2;
    SingleChar(a1, '-', a2);
  }

  /** The header lines of a `file` part hold no blank line. */
  lemma FileHeadNoBlankLine(mimeType: string)
    requires '\r' !in mimeType
    ensures !Contains(FileHead(mimeType), BlankLine)
  {
    MissingChar(MediaTypeLead + mimeType, BlankLine, '\r');
    TooShort(CRLF, BlankLine);
    JoinFree(CRLF, MediaTypeLead + mimeType, BlankLine);
    DispositionNoBlankLine("file");
    assert CRLF + MediaTypeLead + mimeType == CRLF + (MediaTypeLead + mimeType);
    assert FileHead(mimeType) == DispositionLine("file") + (CRLF + MediaTypeLead + mimeType);
    JoinFree(DispositionLine("file"), CRLF + MediaTypeLead + mimeType, BlankLine);
  }

  /** The media type of a `file` part is its `Content-Type` value, trimmed. */
  lemma FileMediaType(mimeType: string, rest: string)
    requires mimeType != [] && '\r' !in mimeType && '\n' !in mimeType
    requires rest != [] && rest[0] == '\r'
    ensures MediaType(FileHead(mimeType) + rest) == Trim(mimeType)
  {
    var x := DispositionLine("file") + CRLF;
    assert FileHead(mimeType) + rest == x + MediaTypeLead + mimeType + rest;
    assert 'T' !in x;
    MediaTypeAfter(x, mimeType, rest);
  }

  /**
   * The first `Content-Type: ` value after text without a capital T is found, when the value is
   * non-empty and a line break ends it.
   */
  lemma MediaTypeAfter(x: string, mimeType: string, rest: string)
    requires 'T' !in x
    requires mimeType != [] && '\r' !in mimeType && '\n' !in mimeType
    requires rest != [] && rest[0] == '\r'
    ensures MediaType(x + MediaTypeLead + mimeType + rest) == Trim(mimeType)
  {
    assert MediaTypeLead[..8] == "Content-";
    CaptureAfter(x, MediaTypeCapture, 8, mimeType, rest);
  }

  /** One `file` part, read on its own, sets the `file` field to its bytes and media type. */
  lemma FilePartReads(mimeType: string, data: seq<Byte>)
    requires mimeType != [] && '\r' !in mimeType && '\n' !in mimeType
    ensures ApplyPart(NoFields, FilePartText(mimeType, data)) ==
            Form(Some(FilePart(data, Trim(mimeType))), None)
  {
    var head := FileHead(mimeType);
    var part := FilePartText(mimeType, data);
    var rest := BlankLine + Binary(data) + CRLF;
    assert part == head + rest;
    assert head + rest == DispositionLine("file") + (CRLF + MediaTypeLead + mimeType + rest);
    DispositionMarks("file", CRLF + MediaTypeLead + mimeType + rest);
    DispositionNames("file", CRLF + MediaTypeLead + mimeType + rest);
    FileMediaType(mimeType, rest);
    FileHeadNoBlankLine(mimeType);
    PayloadOf(head, Binary(data));
    BinaryBytesOfBinary(data);
    ReadsAsFile(part);
  }

  /**
   * Round trip for a `file` field: a body with one `file` part carrying `data` reads back as
   * exactly those bytes, with the trimmed media type, as long as the bytes hold no delimiter.
   */
  lemma FileRoundTrip(boundary: string, mimeType: string, data: seq<Byte>)
    requires '\r' !in boundary && '\n' !in boundary
    requires mimeType != [] && '\r' !in mimeType && '\n' !in mimeType && !Contains(mimeType, "--")
    requires !Contains(Binary(data), "--" + boundary)
    ensures DecodeText(boundary, SinglePartBody(boundary, FilePartText(mimeType, data))) ==
            Form(Some(FilePart(data, Trim(mimeType))), None)
  {
    FileHeadNoDoubleDash(mimeType);
    PartFree(boundary, FileHead(mimeType), Binary(data));
    assert FilePartText(mimeType, data) == FileHead(mimeType) + BlankLine + Binary(data) + CRLF;
    SinglePartForm(boundary, FilePartText(mimeType, data));
    FilePartReads(mimeType, data);
  }

  // ---------------------------------------------------------------------------------------
  // The text field is not decoded

  /** Two byte-per-character texts joined are one. */
  lemma Latin1Append(a: string, b: string)
    requires Latin1(a) && Latin1(b)
    ensures Latin1(a + b)
  {
    forall k | 0 <= k < |a + b|
      ensures (a + b)[k] as int < 256
    {
      if k < |a| {
        assert (a + b)[k] == a[k];
      } else {
        assert (a + b)[k] == b[k - |a|];
      }
    }
  }

  /** A one-part `text` body over byte-per-character text is byte-per-character text. */
  lemma TextBodyLatin1(boundary: string, v: string)
    requires Latin1(boundary) && Latin1(v)
    ensures Latin1(SinglePartBody(boundary, TextPart(v)))
  {
    var head := DispositionLine("text");
    assert Latin1(head);
    assert Latin1(BlankLine) && Latin1(CRLF) && Latin1("--");
    Latin1Append(head, BlankLine);
    Latin1Append(head + BlankLine, v);
    Latin1Append(head + BlankLine + v, CRLF);
    Latin1Append("--", boundary);
    Latin1Append("--" + boundary, TextPart(v));
    Latin1Append("--" + boundary + TextPart(v), "--");
    Latin1Append("--" + boundary + TextPart(v) + "--", boundary);
    Latin1Append("--" + boundary + TextPart(v) + "--" + boundary, "--");
    Latin1Append("--" + boundary + TextPart(v) + "--" + boundary + "--", CRLF);
  }

  /**
   * Round trip for a `text` field at the byte level: a request whose body bytes hold one `text`
   * part carrying the bytes `data` yields as text the byte-per-character view of `data`. The
   * bytes are never decoded as UTF-8: each becomes the character with that code.
   */
  lemma TextBytesRoundTrip(b: string, data: seq<Byte>, encode: string -> seq<Byte>)
    requires b != "" && !Contains(b, BoundaryParam) && '\r' !in b && '\n' !in b && Latin1(b)
    requires !Contains(Binary(data), "--" + b)
    ensures ParseForm(Some(MultipartType + "; " + BoundaryParam + b),
                      Buffer(BinaryBytes(SinglePartBody(b, TextPart(Binary(data))))), encode) ==
            Success(Form(None, Some(Binary(data))))
  {
    var text := SinglePartBody(b, TextPart(Binary(data)));
    BinaryBytesOfBinary(data);
    TextBodyLatin1(b, Binary(data));
    BinaryOfBinaryBytes(text);
    BrowserHeader(b, Buffer(BinaryBytes(text)), encode);
    TextRoundTrip(b, Binary(data));
  }

  /**
   * The UTF-8 bytes C3 B6 of U+00F6 (o with diaeresis) read back as the two characters
   * U+00C3 U+00B6, not as the one character U+00F6 the client typed.
   */
  lemma TextNotDecoded(b: string, encode: string -> seq<Byte>)
    requires b != "" && !Contains(b, BoundaryParam) && '\r' !in b && '\n' !in b && Latin1(b)
    ensures var body := Buffer(BinaryBytes(SinglePartBody(b, TextPart(Binary([0xC3, 0xB6])))));
      var r := ParseForm(Some(MultipartType + "; " + BoundaryParam + b), body, encode);
      r == Success(Form(None, Some([0xC3 as char, 0xB6 as char]))) &&
      r.value.text != Some([0xF6 as char])
  {
    var data: seq<Byte> := [0xC3, 0xB6];
    assert Binary(data) == [0xC3 as char, 0xB6 as char];
    MissingChar(Binary(data), "--" + b, '-');
    TextBytesRoundTrip(b, data, encode);
  }
}
