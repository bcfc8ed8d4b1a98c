/**
 * The text-armor envelope: a named, compressed, base64-encoded and line-wrapped
 * payload between a free-text prelude and postlude, delimited by `-----` lines,
 * and the parser that reads it back.
 */
module Envelope {
  import opened Wrappers
  import opened Octets
  import opened Text
  import Base64
  import opened Sequences

  /** Width of one line of the armored body. */
  const WrapLength: nat := 64

  /** The literal that separates the five parts of an envelope. */
  const Delimiter: string := "-----"

  const BeginPrefix: string := " BEGIN "

  datatype Error =
    | ZipError                 // compression failed while marshalling
    | PartsError(found: nat)   // the text did not split into five parts
    | DecodeError              // the body is not valid base64
    | UnzipError               // the decoded body is not a valid zlib stream

  /**
   * zlib at best compression (RFC 1950 around RFC 1951). Both directions are
   * foreign code; lemmas that need the round trip take `Inverse` as a hypothesis.
   */
  datatype Zlib = Zlib(zip: Bytes -> Option<Bytes>, unzip: Bytes -> Option<Bytes>)
  {
    ghost predicate Inverse() {
      forall d :: zip(d).Some? ==> unzip(zip(d).value) == Some(d)
    }
  }

  // ---------------------------------------------------------------- wrapping

  /** Every line followed by a line feed. */
  function JoinLines(lines: seq<string>): string {
    if lines == [] then [] else lines[0] + "\n" + JoinLines(lines[1..])
  }

  /**
   * `d` cut into consecutive lines of `WrapLength` characters; only the last
   * line may be shorter, and no line is empty.
   */
  function Chunks(d: string): (lines: seq<string>)
    ensures |lines| == (|d| + WrapLength - 1) / WrapLength
    ensures forall i :: 0 <= i < |lines| ==> 0 < |lines[i]| <= WrapLength
    ensures forall i :: 0 <= i < |lines| - 1 ==> |lines[i]| == WrapLength
    ensures Flatten(lines) == d
    decreases |d|
  {
    if |d| >= WrapLength then
      var rest := Chunks(d[WrapLength..]);
      assert d[..WrapLength] + d[WrapLength..] == d;
      [d[..WrapLength]] + rest
    else if |d| > 0 then [d]
    else []
  }

  /** The body as the envelope lays it out: each chunk on a line of its own. */
  function Wrapped(d: string): string {
    JoinLines(Chunks(d))
  }

  lemma WrappedStep(d: string)
    requires |d| >= WrapLength
    ensures Wrapped(d) == d[..WrapLength] + "\n" + Wrapped(d[WrapLength..])
  {
    var lines := Chunks(d);
    assert lines[0] == d[..WrapLength] && lines[1..] == Chunks(d[WrapLength..]);
  }

  lemma WrappedLast(d: string)
    requires 0 < |d| < WrapLength
    ensures Wrapped(d) == d + "\n"
  {
    assert Chunks(d) == [d];
    assert JoinLines([d]) == d + "\n" + JoinLines([]);
  }

  /** One pass of the wrapping loop: the next full line moves from the input to the output. */
  lemma WrapStepAfter(out: string, rest: string)
    requires |rest| >= WrapLength
    ensures out + Wrapped(rest) == (out + rest[..WrapLength] + "\n") + Wrapped(rest[WrapLength..])
  {
    WrappedStep(rest);
  }

  /** The tail of the wrapping loop: a short remainder becomes the last line, if there is one. */
  lemma WrapRemainder(rest: string)
    requires |rest| < WrapLength
    ensures Wrapped(rest) == if |rest| > 0 then rest + "\n" else []
  {
    if |rest| > 0 {
      WrappedLast(rest);
    }
  }

  /** Go's `wrap`: consume the input 64 characters at a time, ending every line with a line feed. */
  method Wrap(data: string) returns (out: string)
    ensures out == Wrapped(data)
  {
    out := [];
    var rest := data;
    while |rest| >= WrapLength
      invariant out + Wrapped(rest) == Wrapped(data)
    {
      WrapStepAfter(out, rest);
      out := out + rest[..WrapLength] + "\n";
      rest := rest[WrapLength..];
    }
    WrapRemainder(rest);
    if |rest| > 0 {
      out := out + rest + "\n";
    }
  }

  lemma {:induction false} JoinLinesLength(lines: seq<string>)
    ensures |JoinLines(lines)| == |Flatten(lines)| + |lines|
  {
    if lines != [] {
      JoinLinesLength(lines[1..]);
    }
  }

  /** One line feed per started line of 64: `n + ceil(n / 64)` characters, none for empty input. */
  lemma WrappedLength(d: string)
    ensures |Wrapped(d)| == |d| + (|d| + WrapLength - 1) / WrapLength
    ensures d == [] ==> Wrapped(d) == []
  {
    JoinLinesLength(Chunks(d));
  }

  /** Removing the line breaks from the wrapped text removes exactly the ones `wrap` added. */
  lemma {:induction false} WrappedDropLineBreaks(d: string)
    ensures Base64.DropLineBreaks(Wrapped(d)) == Base64.DropLineBreaks(d)
    decreases |d|
  {
    if |d| >= WrapLength {
      WrappedStep(d);
      WrappedDropLineBreaks(d[WrapLength..]);
      Base64.DropLineBreaksAppend(d[..WrapLength] + "\n", Wrapped(d[WrapLength..]));
      Base64.DropLineBreaksAppend(d[..WrapLength], "\n");
      Base64.DropLineBreaksAppend(d[..WrapLength], d[WrapLength..]);
      assert d[..WrapLength] + d[WrapLength..] == d;
    } else if |d| > 0 {
      WrappedLast(d);
      Base64.DropLineBreaksAppend(d, "\n");
    }
  }

  // ---------------------------------------------------------------- the delimiter

  predicate Dashless(s: string) {
    forall i :: 0 <= i < |s| ==> s[i] != '-'
  }

  /** An occurrence of the delimiter is a run of five dashes. */
  lemma DelimiterAt(s: string, k: int)
    ensures OccursAt(s, Delimiter, k) <==> 0 <= k && k + 5 <= |s| && forall m :: k <= m < k + 5 ==> s[m] == '-'
  {
    if 0 <= k && k + 5 <= |s| {
      var w := s[k..k + 5];
      assert forall i :: 0 <= i < 5 ==> w[i] == s[k + i];
      assert forall i :: 0 <= i < 5 ==> Delimiter[i] == '-';
      if forall m :: k <= m < k + 5 ==> s[m] == '-' {
        assert forall i :: 0 <= i < 5 ==> w[i] == Delimiter[i];
        assert w == Delimiter;
      }
    }
  }

  /** Gluing dash-free text onto either side of a delimiter-free text cannot create a delimiter. */
  lemma NoDelimiterPadded(pre: string, s: string, post: string)
    requires Dashless(pre) && Dashless(post) && !Contains(s, Delimiter)
    ensures !Contains(pre + s + post, Delimiter)
  {
    var t := pre + s + post;
    PaddingDashless(pre, s, post);
    forall k | 0 <= k ensures !OccursAt(t, Delimiter, k) {
      DelimiterAt(t, k);
      if |pre| <= k && k + 5 <= |pre| + |s| {
        DelimiterAt(s, k - |pre|);
        assert forall m :: k - |pre| <= m < k - |pre| + 5 ==> s[m] == t[m + |pre|];
      } else if k + 5 <= |t| {
        if k < |pre| {
          assert t[k] != '-';
        } else {
          assert t[k + 4] != '-';
        }
      }
    }
  }

  lemma PaddingDashless(pre: string, s: string, post: string)
    requires Dashless(pre) && Dashless(post)
    ensures forall m :: 0 <= m < |pre| ==> (pre + s + post)[m] != '-'
    ensures forall m :: |pre| + |s| <= m < |pre + s + post| ==> (pre + s + post)[m] != '-'
  {
    var t := pre + s + post;
    forall m | 0 <= m < |pre| ensures t[m] != '-' {
      assert t[m] == pre[m];
    }
    forall m | |pre| + |s| <= m < |t| ensures t[m] != '-' {
      assert t[m] == post[m - |pre| - |s|];
    }
  }

  lemma DashlessHasNoDelimiter(s: string)
    requires Dashless(s)
    ensures !Contains(s, Delimiter)
  {
    NoDelimiterPadded(s, [], []);
    assert s + [] + [] == s;
  }

  /** A delimiter-free part that does not end in a dash is cut exactly at the delimiter that follows it. */
  lemma CutsCleanlyAtDelimiter(p: string)
    requires !Contains(p, Delimiter)
    requires p == [] || p[|p| - 1] != '-'
    ensures CutsCleanly(p, Delimiter)
  {
    var t := p + Delimiter;
    assert t[|p|..|p| + 5] == Delimiter;
    forall k | 0 <= k < |p| ensures !OccursAt(t, Delimiter, k) {
      DelimiterAt(t, k);
      if k + 5 <= |p| {
        DelimiterAt(p, k);
        assert forall m :: k <= m < k + 5 ==> p[m] == t[m];
      } else {
        assert t[|p| - 1] == p[|p| - 1];
      }
    }
    IndexOfFirst(t, Delimiter, |p|);
  }

  lemma UpperKeepsNoDelimiter(s: string)
    requires !Contains(s, Delimiter)
    ensures !Contains(ToUpper(s), Delimiter)
  {
    var u := ToUpper(s);
    forall k | 0 <= k ensures !OccursAt(u, Delimiter, k) {
      DelimiterAt(u, k);
      DelimiterAt(s, k);
    }
  }

  // ---------------------------------------------------------------- the layout

  function BeginLine(name: string): string {
    Delimiter + BeginPrefix + ToUpper(name) + " " + Delimiter + "\n"
  }

  function EndLine(name: string): string {
    Delimiter + " END " + ToUpper(name) + " " + Delimiter + "\n"
  }

  /** The marshalled text for an envelope whose payload compressed to `zipped`. */
  function Armored(prelude: string, name: string, zipped: Bytes, postlude: string): string {
    prelude + "\n" + BeginLine(name) + Wrapped(Base64.Encode(zipped)) + EndLine(name) + postlude + "\n"
  }

  /** The five parts that `Split` finds in well-formed armored text. */
  function ArmoredParts(prelude: string, name: string, zipped: Bytes, postlude: string): seq<string> {
    [ prelude + "\n",
      BeginPrefix + ToUpper(name) + " ",
      "\n" + Wrapped(Base64.Encode(zipped)),
      " END " + ToUpper(name) + " ",
      "\n" + postlude + "\n" ]
  }

  lemma Join5(ps: seq<string>, d: string)
    requires |ps| == 5
    ensures Join(ps, d) == ps[0] + d + ps[1] + d + ps[2] + d + ps[3] + d + ps[4]
  {
    assert ps[3..][1..] == ps[4..];
    assert Join(ps[3..], d) == ps[3] + d + ps[4];
    assert ps[2..][1..] == ps[3..];
    assert Join(ps[2..], d) == ps[2] + d + (ps[3] + d + ps[4]);
    assert ps[1..][1..] == ps[2..];
    assert Join(ps[1..], d) == ps[1] + d + (ps[2] + d + (ps[3] + d + ps[4]));
  }

  /** Regrouping the concatenation: the cuts fall inside the header and footer lines. */
  lemma Regroup(p: string, n: string, d: string, b: string, u: string, sp: string, w: string, e: string, q: string)
    ensures (p + n) + d + (b + u + sp) + d + (n + w) + d + (e + u + sp) + d + (n + q + n)
         == p + n + (d + b + u + sp + d + n) + w + (d + e + u + sp + d + n) + q + n
  {
  }

  lemma ArmoredIsJoin(prelude: string, name: string, zipped: Bytes, postlude: string)
    ensures Armored(prelude, name, zipped, postlude) == Join(ArmoredParts(prelude, name, zipped, postlude), Delimiter)
  {
    Join5(ArmoredParts(prelude, name, zipped, postlude), Delimiter);
    Regroup(prelude, "\n", Delimiter, BeginPrefix, ToUpper(name), " ", Wrapped(Base64.Encode(zipped)), " END ", postlude);
  }

  lemma DashlessConcat(a: string, b: string)
    requires Dashless(a) && Dashless(b)
    ensures Dashless(a + b)
  {
    forall i | 0 <= i < |a + b| ensures (a + b)[i] != '-' {
      if i >= |a| {
        assert (a + b)[i] == b[i - |a|];
      }
    }
  }

  /** Wrapping adds only line feeds, so dash-free text stays dash-free. */
  lemma {:induction false} WrappedDashless(d: string)
    requires Dashless(d)
    ensures Dashless(Wrapped(d))
    decreases |d|
  {
    if |d| >= WrapLength {
      WrappedStep(d);
      WrappedDashless(d[WrapLength..]);
      var head := d[..WrapLength];
      assert Dashless(head) by {
        forall i | 0 <= i < |head| ensures head[i] != '-' {
          assert head[i] == d[i];
        }
      }
      DashlessConcat(head, "\n");
      DashlessConcat(head + "\n", Wrapped(d[WrapLength..]));
    } else if |d| > 0 {
      WrappedLast(d);
      DashlessConcat(d, "\n");
    } else {
      WrappedLength(d);
    }
  }

  lemma {:induction false} JoinLinesEndsInLineFeed(lines: seq<string>)
    ensures JoinLines(lines) == [] || JoinLines(lines)[|JoinLines(lines)| - 1] == '\n'
  {
    if lines != [] {
      JoinLinesEndsInLineFeed(lines[1..]);
      var rest := JoinLines(lines[1..]);
      assert JoinLines(lines) == (lines[0] + "\n") + rest;
    }
  }

  // ---------------------------------------------------------------- reading the layout back

  /** Text that survives a trip through the envelope unchanged: no surrounding space, no delimiter. */
  predicate Transparent(s: string) {
    IsTrimmed(s) && !Contains(s, Delimiter)
  }

  /** A delimiter-free field between dash-free framing, the framing ending in a non-dash, is cut cleanly. */
  lemma FramedCutsCleanly(pre: string, s: string, post: string)
    requires Dashless(pre) && Dashless(post) && !Contains(s, Delimiter)
    requires |post| > 0
    ensures CutsCleanly(pre + s + post, Delimiter)
  {
    NoDelimiterPadded(pre, s, post);
    var t := pre + s + post;
    assert t[|t| - 1] == post[|post| - 1];
    CutsCleanlyAtDelimiter(t);
  }

  /** The body part: a line feed, then the wrapped base64 text. */
  lemma BodyCutsCleanly(zipped: Bytes)
    ensures CutsCleanly("\n" + Wrapped(Base64.Encode(zipped)), Delimiter)
  {
    var w := Wrapped(Base64.Encode(zipped));
    var t := "\n" + w;
    Base64.EncodeHasNoDash(zipped);
    WrappedDashless(Base64.Encode(zipped));
    DashlessConcat("\n", w);
    DashlessHasNoDelimiter(t);
    JoinLinesEndsInLineFeed(Chunks(Base64.Encode(zipped)));
    assert t[|t| - 1] == '\n' by {
      if w != [] {
        assert t[|t| - 1] == w[|w| - 1];
      }
    }
    CutsCleanlyAtDelimiter(t);
  }

  /** The fixed framing around the fields contains no dash. */
  lemma FramingDashless()
    ensures Dashless([]) && Dashless("\n") && Dashless(" ") && Dashless(BeginPrefix) && Dashless(" END ")
  {
  }

  /** When no field holds the delimiter, `Split` finds exactly the five parts the layout was built from. */
  lemma SplitArmored(prelude: string, name: string, zipped: Bytes, postlude: string)
    requires !Contains(prelude, Delimiter) && !Contains(name, Delimiter) && !Contains(postlude, Delimiter)
    ensures Split(Armored(prelude, name, zipped, postlude), Delimiter) == ArmoredParts(prelude, name, zipped, postlude)
  {
    var ps := ArmoredParts(prelude, name, zipped, postlude);
    PartsCutCleanly(prelude, name, zipped, postlude);
    forall i | 0 <= i < |ps| - 1 ensures CutsCleanly(ps[i], Delimiter) {
      assert i == 0 || i == 1 || i == 2 || i == 3;
    }
    ArmoredIsJoin(prelude, name, zipped, postlude);
    SplitJoin(ps, Delimiter);
  }

  /** Every part but the last ends where the first delimiter after it begins; the last holds none. */
  lemma PartsCutCleanly(prelude: string, name: string, zipped: Bytes, postlude: string)
    requires !Contains(prelude, Delimiter) && !Contains(name, Delimiter) && !Contains(postlude, Delimiter)
    ensures CutsCleanly(prelude + "\n", Delimiter)
    ensures CutsCleanly(BeginPrefix + ToUpper(name) + " ", Delimiter)
    ensures CutsCleanly("\n" + Wrapped(Base64.Encode(zipped)), Delimiter)
    ensures CutsCleanly(" END " + ToUpper(name) + " ", Delimiter)
    ensures !Contains("\n" + postlude + "\n", Delimiter)
  {
    var u := ToUpper(name);
    assert CutsCleanly(prelude + "\n", Delimiter) by {
      FramingDashless();
      FramedCutsCleanly([], prelude, "\n");
      EmptyInFront(prelude, "\n");
    }
    assert CutsCleanly(BeginPrefix + u + " ", Delimiter) by {
      FramingDashless();
      UpperKeepsNoDelimiter(name);
      FramedCutsCleanly(BeginPrefix, u, " ");
    }
    BodyCutsCleanly(zipped);
    assert CutsCleanly(" END " + u + " ", Delimiter) by {
      FramingDashless();
      UpperKeepsNoDelimiter(name);
      FramedCutsCleanly(" END ", u, " ");
    }
    assert !Contains("\n" + postlude + "\n", Delimiter) by {
      FramingDashless();
      NoDelimiterPadded("\n", postlude, "\n");
    }
  }

  lemma UpperKeepsTrimmed(s: string)
    requires IsTrimmed(s)
    ensures IsTrimmed(ToUpper(s))
  {
  }

  lemma LinesReadBack(prelude: string, postlude: string)
    requires IsTrimmed(prelude) && IsTrimmed(postlude)
    ensures TrimSpace(prelude + "\n") == prelude
    ensures TrimSpace("\n" + postlude + "\n") == postlude
  {
    EmptyInFront(prelude, "\n");
    TrimSpaceOfPadded([], prelude, "\n");
    TrimSpaceOfPadded("\n", postlude, "\n");
  }

  lemma NameReadBack(name: string)
    requires IsTrimmed(name)
    ensures TrimSpace(TrimPrefix(BeginPrefix + ToUpper(name) + " ", BeginPrefix)) == ToUpper(name)
  {
    var u := ToUpper(name);
    Associative(BeginPrefix, u, " ");
    TrimPrefixOfJoin(BeginPrefix, u + " ");
    EmptyInFront(u, " ");
    UpperKeepsTrimmed(name);
    TrimSpaceOfPadded([], u, " ");
  }

  lemma BodyReadBack(zipped: Bytes)
    ensures Base64.Decode("\n" + Wrapped(Base64.Encode(zipped))) == Success(zipped)
  {
    var e := Base64.Encode(zipped);
    WrappedDropLineBreaks(e);
    Base64.EncodeHasNoDash(zipped);
    Base64.DropLineBreaksAppend("\n", Wrapped(e));
    assert Base64.DropLineBreaks("\n") == [] by {
      assert "\n" == ['\n'] && "\n"[1..] == [];
    }
    Base64.DecodeEncode(zipped, "\n" + Wrapped(e));
  }

  /** The four fields `UnmarshalText` takes from the five parts, before the body is decoded. */
  datatype Reading = Reading(prelude: string, name: string, body: string, postlude: string)

  function ReadParts(parts: seq<string>): (r: Result<Reading, Error>)
    ensures r.Failure? <==> |parts| != 5
  {
    if |parts| != 5 then Failure(PartsError(|parts|))
    else Success(Reading(TrimSpace(parts[0]), TrimSpace(TrimPrefix(parts[1], BeginPrefix)), parts[2], TrimSpace(parts[4])))
  }

  /** The END part is never read: whatever name it carries, the fields come out the same. */
  lemma EndPartIgnored(parts: seq<string>, x: string)
    requires |parts| == 5
    ensures ReadParts(parts[3 := x]) == ReadParts(parts)
  {
  }

  /**
   * Reading armored text back: the prelude and postlude come back as written, the
   * name upper-cased, and the body is the wrapped base64 text.
   */
  lemma ArmoredRoundTrip(prelude: string, name: string, zipped: Bytes, postlude: string)
    requires Transparent(prelude) && Transparent(name) && Transparent(postlude)
    ensures ReadParts(Split(Armored(prelude, name, zipped, postlude), Delimiter))
         == Success(Reading(prelude, ToUpper(name), "\n" + Wrapped(Base64.Encode(zipped)), postlude))
  {
    SplitArmored(prelude, name, zipped, postlude);
    LinesReadBack(prelude, postlude);
    NameReadBack(name);
  }

  /** The body as `UnmarshalText` turns it into data: base64 (line breaks ignored), then zlib. */
  function DecodeBody(body: string, z: Zlib): (r: Result<Bytes, Error>)
    ensures r.Failure? ==> r.error == DecodeError || r.error == UnzipError
    ensures r.Failure? && r.error == DecodeError <==> Base64.Decode(body).Failure?
  {
    match Base64.Decode(body)
    case Failure(_) => Failure(DecodeError)
    case Success(zipped) =>
      match z.unzip(zipped)
      case None => Failure(UnzipError)
      case Some(d) => Success(d)
  }

  /** The armored body decodes to the data that was compressed into it, when zlib round-trips. */
  lemma BodyRoundTrip(data: Bytes, z: Zlib)
    requires z.Inverse() && z.zip(data).Some?
    ensures DecodeBody("\n" + Wrapped(Base64.Encode(z.zip(data).value)), z) == Success(data)
  {
    BodyReadBack(z.zip(data).value);
  }

  // ---------------------------------------------------------------- the envelope object

  class Envelope {
    var name: string
    var prelude: string
    var data: Bytes
    var postlude: string

    constructor (name: string, prelude: string, data: Bytes, postlude: string)
      ensures this.name == name && this.prelude == prelude && this.data == data && this.postlude == postlude
    {
      this.name := name;
      this.prelude := prelude;
      this.data := data;
      this.postlude := postlude;
    }

    /**
     * The armored text: prelude line, BEGIN line with the upper-cased name, the
     * compressed data in base64 wrapped at 64 columns, END line, postlude line.
     */
    method MarshalText(z: Zlib) returns (r: Result<string, Error>)
      ensures z.zip(data).None? ==> r == Failure(ZipError)
      ensures z.zip(data).Some? ==> r == Success(Armored(prelude, name, z.zip(data).value, postlude))
    {
      var buff := prelude + "\n";
      buff := buff + BeginLine(name);
      var zipped := z.zip(data);
      if zipped.None? {
        return Failure(ZipError);
      }
      var encoded := Base64.Encode(zipped.value);
      var wrapped := Wrap(encoded);
      buff := buff + wrapped;
      buff := buff + EndLine(name);
      buff := buff + postlude + "\n";
      return Success(buff);
    }

    /**
     * Parse armored text into this envelope. Prelude and name are overwritten as soon
     * as the text has five parts; data and postlude only once the body has decoded.
     */
    method UnmarshalText(text: string, z: Zlib) returns (err: Option<Error>)
      modifies this
      ensures var rd := ReadParts(Split(text, Delimiter));
        rd.Failure? ==> (err == Some(rd.error)
          && prelude == old(prelude) && name == old(name) && data == old(data) && postlude == old(postlude))
      ensures var rd := ReadParts(Split(text, Delimiter));
        rd.Success? ==> prelude == rd.value.prelude && name == rd.value.name
      ensures var rd := ReadParts(Split(text, Delimiter));
        rd.Success? && DecodeBody(rd.value.body, z).Failure? ==>
          err == Some(DecodeBody(rd.value.body, z).error) && data == old(data) && postlude == old(postlude)
      ensures var rd := ReadParts(Split(text, Delimiter));
        rd.Success? && DecodeBody(rd.value.body, z).Success? ==>
          err == None && data == DecodeBody(rd.value.body, z).value && postlude == rd.value.postlude
    {
      var rd := ReadParts(Split(text, Delimiter));
      if rd.Failure? {
        return Some(rd.error);
      }
      prelude := rd.value.prelude;
      name := rd.value.name;
      var body := DecodeBody(rd.value.body, z);
      if body.Failure? {
        return Some(body.error);
      }
      data := body.value;
      postlude := rd.value.postlude;
      return None;
    }

    /** The payload as a byte stream. */
    function DataReader(): (r: Bytes)
      reads this
      ensures r == data
    {
      data
    }

    /** A writer that appends to this envelope's payload. */
    method DataWriter() returns (w: BuffWriter)
      ensures fresh(w) && w.envelope == this
    {
      w := new BuffWriter(this);
    }
  }

  /** The writer `DataWriter` hands out: every write appends to the envelope's data. */
  class BuffWriter {
    const envelope: Envelope

    constructor (envelope: Envelope)
      ensures this.envelope == envelope
    {
      this.envelope := envelope;
    }

    method Write(b: Bytes) returns (n: nat)
      modifies envelope
      ensures envelope.data == old(envelope.data) + b && n == |b|
      ensures envelope.name == old(envelope.name) && envelope.prelude == old(envelope.prelude)
      ensures envelope.postlude == old(envelope.postlude)
    {
      envelope.data := envelope.data + b;
      n := |b|;
    }
  }

  // ---------------------------------------------------------------- clients

  /**
   * Marshal an envelope and unmarshal the text into a fresh one: every field comes
   * back, the name upper-cased, provided no field holds the delimiter or surrounding space.
   */
  method Transcribe(e: Envelope, z: Zlib) returns (f: Envelope, err: Option<Error>)
    requires z.Inverse()
    requires Transparent(e.prelude) && Transparent(e.name) && Transparent(e.postlude)
    ensures z.zip(e.data).None? ==> err == Some(ZipError)
    ensures z.zip(e.data).Some? ==> (err == None
      && f.prelude == e.prelude && f.name == ToUpper(e.name) && f.data == e.data && f.postlude == e.postlude)
  {
    var text := e.MarshalText(z);
    f := new Envelope([], [], [], []);
    if text.Failure? {
      return f, Some(text.error);
    }
    var zipped := z.zip(e.data).value;
    ArmoredRoundTrip(e.prelude, e.name, zipped, e.postlude);
    BodyRoundTrip(e.data, z);
    err := f.UnmarshalText(text.value, z);
  }

  /** Writing chunks through the data writer and reading the data back yields them in order. */
  method WriteThenRead(e: Envelope, chunks: seq<Bytes>) returns (read: Bytes)
    modifies e
    ensures read == old(e.data) + Flatten(chunks)
    ensures e.name == old(e.name) && e.prelude == old(e.prelude) && e.postlude == old(e.postlude)
  {
    var w := e.DataWriter();
    var i := 0;
    while i < |chunks|
      invariant 0 <= i <= |chunks|
      invariant e.data == old(e.data) + Flatten(chunks[..i])
      invariant e.name == old(e.name) && e.prelude == old(e.prelude) && e.postlude == old(e.postlude)
    {
      var n := w.Write(chunks[i]);
      FlattenSnoc(chunks[..i], chunks[i]);
      assert chunks[..i + 1] == chunks[..i] + [chunks[i]];
      i := i + 1;
    }
    assert chunks[..i] == chunks;
    read := e.DataReader();
  }
}
