/** A parsed mail document and the read-only views a message part gives of it:
    headers, the body of a leaf part, the children of a multipart part, the declared
    character set, and the payloads to be decoded. The parser itself is not modelled:
    a document is given by its header list, the character set attached to it (if any)
    and either a leaf payload or a list of child parts. */
module MessageParts {
  import opened Results
  import opened Strings

  newtype byte = x: int | 0 <= x < 256

  /** A Unicode code point. Python strings may hold lone surrogates, which Dafny's
      `char` excludes, so decoded text is a sequence of code points. */
  type CodePoint = x: int | 0 <= x < 0x11_0000

  /** A leaf's stored payload: raw bytes, or text that the parser produced by
      decoding bytes with the surrogateescape error handler. */
  datatype Payload = Bytes(bytes: seq<byte>) | Text(text: seq<CodePoint>)

  datatype Body = Leaf(payload: Payload) | Multi(parts: seq<Part>)

  datatype Part = Part(headers: seq<(string, string)>, charset: Option<string>, body: Body)

  const DefaultCharset := "utf8"

  /** The word `parse_charset` looks for in the chunks of the Content-type value. */
  const CharsetKey := "charset"

  /** The header matching rule of the email library: names compare case-insensitively. */
  predicate NameIs(header: (string, string), name: string) {
    Lower(header.0) == Lower(name)
  }

  /** `msg.get(name)`: the value of the first header called `name`, if any. */
  function Get(headers: seq<(string, string)>, name: string): (r: Option<string>)
    ensures r.None? <==> forall i :: 0 <= i < |headers| ==> !NameIs(headers[i], name)
    ensures r.Some? ==> exists i :: 0 <= i < |headers| && NameIs(headers[i], name) && r.value == headers[i].1
                          && forall j :: 0 <= j < i ==> !NameIs(headers[j], name)
  {
    if headers == [] then None
    else if NameIs(headers[0], name) then Some(headers[0].1)
    else
      var r := Get(headers[1..], name);
      assert forall j :: 1 <= j < |headers| ==> headers[j] == headers[1..][j - 1];
      r
  }

  /** Looking a header up under a lower-cased name finds the same value. */
  lemma GetLower(headers: seq<(string, string)>, name: string)
    ensures Get(headers, Lower(name)) == Get(headers, name)
  {
    LowerIdempotent(name);
    if headers != [] {
      GetLower(headers[1..], name);
    }
  }

  /** `getHeaders(negate, *names)`. Without `negate`: one entry per requested name,
      keyed by the lower-cased name, holding that header's value or "" when the part
      has none. With `negate`: one entry per header of the part whose upper-cased name
      is not among `names` (compared as given), keyed by its lower-cased name. */
  method GetHeaders(part: Part, negate: bool, names: seq<string>) returns (r: map<string, string>)
    ensures !negate ==> r.Keys == set n | n in names :: Lower(n)
    ensures negate ==> r.Keys == set i | 0 <= i < |part.headers| && Upper(part.headers[i].0) !in names
                                       :: Lower(part.headers[i].0)
    ensures forall k :: k in r ==> r[k] == Get(part.headers, k).GetOr("")
  {
    if negate {
      r := HeadersExcept(part.headers, names);
      KeptNamesMeaning(part.headers, names, |part.headers|);
    } else {
      r := HeadersNamed(part.headers, names);
    }
  }

  /** Every entry of `r` holds the value of the header it names, or "" for none. */
  predicate AllLookedUp(r: map<string, string>, headers: seq<(string, string)>) {
    forall k :: k in r ==> r[k] == Get(headers, k).GetOr("")
  }

  /** Entering a header's value under its lower-cased name keeps `AllLookedUp`. */
  lemma LookUpOne(r: map<string, string>, headers: seq<(string, string)>, name: string)
    requires AllLookedUp(r, headers)
    ensures AllLookedUp(r[Lower(name) := Get(headers, name).GetOr("")], headers)
  {
    GetLower(headers, name);
  }

  /** The lower-cased names of the first `n` headers whose upper-cased name is not
      among `names`, collected one header at a time as `getHeaders` does. */
  ghost function KeptNames(headers: seq<(string, string)>, names: seq<string>, n: nat): set<string>
    requires n <= |headers|
  {
    if n == 0 then {}
    else KeptNames(headers, names, n - 1)
         + if Upper(headers[n - 1].0) !in names then {Lower(headers[n - 1].0)} else {}
  }

  /** `KeptNames` holds exactly the lower-cased names of the kept headers. */
  lemma {:induction false} KeptNamesMeaning(headers: seq<(string, string)>, names: seq<string>, n: nat)
    requires n <= |headers|
    ensures KeptNames(headers, names, n)
         == set j | 0 <= j < n && Upper(headers[j].0) !in names :: Lower(headers[j].0)
  {
    if n > 0 {
      KeptNamesMeaning(headers, names, n - 1);
      assert (set j | 0 <= j < n && Upper(headers[j].0) !in names :: Lower(headers[j].0))
          == (set j | 0 <= j < n - 1 && Upper(headers[j].0) !in names :: Lower(headers[j].0))
             + if Upper(headers[n - 1].0) !in names then {Lower(headers[n - 1].0)} else {};
    }
  }

  /** The loop over the part's header names in `getHeaders` with `negate` set. */
  method HeadersExcept(headers: seq<(string, string)>, names: seq<string>) returns (r: map<string, string>)
    ensures r.Keys == KeptNames(headers, names, |headers|)
    ensures forall k :: k in r ==> r[k] == Get(headers, k).GetOr("")
  {
    r := map[];
    var i := 0;
    while i < |headers|
      invariant 0 <= i <= |headers|
      invariant r.Keys == KeptNames(headers, names, i)
      invariant AllLookedUp(r, headers)
    {
      var header := headers[i].0;
      if Upper(header) !in names {
        LookUpOne(r, headers, header);
        r := r[Lower(header) := Get(headers, header).GetOr("")];
      }
      i := i + 1;
    }
  }

  /** The loop over the requested names in `getHeaders` without `negate`. */
  method HeadersNamed(headers: seq<(string, string)>, names: seq<string>) returns (r: map<string, string>)
    ensures r.Keys == set n | n in names :: Lower(n)
    ensures forall k :: k in r ==> r[k] == Get(headers, k).GetOr("")
  {
    r := map[];
    var i := 0;
    while i < |names|
      invariant 0 <= i <= |names|
      invariant r.Keys == LoweredNames(names[..i])
      invariant AllLookedUp(r, headers)
    {
      LookUpOne(r, headers, names[i]);
      LoweredNamesStep(names, i);
      r := r[Lower(names[i]) := Get(headers, names[i]).GetOr("")];
      i := i + 1;
    }
    assert names[..i] == names;
  }

  /** The lower-cased forms of `names`. */
  ghost function LoweredNames(names: seq<string>): set<string> {
    set n | n in names :: Lower(n)
  }

  /** One more name adds its lower-cased form. */
  lemma LoweredNamesStep(names: seq<string>, i: nat)
    requires i < |names|
    ensures LoweredNames(names[..i + 1]) == LoweredNames(names[..i]) + {Lower(names[i])}
  {
    assert names[..i + 1] == names[..i] + [names[i]];
  }

  /** `isMultipart()`: the test `getBodyFile` and `getSubPart` make before anything
      else. A multipart part has no body file; a leaf part has no sub-parts. */
  function IsMultipart(part: Part): (r: bool)
    ensures r <==> GetBodyFile(part) == Err(TypeError)
    ensures r <==> forall k: nat :: GetSubPart(part, k) != Err(TypeError)
  {
    assert part.body.Leaf? ==> GetSubPart(part, 0) == Err(TypeError);
    part.body.Multi?
  }

  /** Code points the ascii codec with the surrogateescape handler can encode:
      ASCII itself and the escapes U+DC80..U+DCFF (PEP 383). */
  predicate Encodable(c: CodePoint) {
    c < 0x80 || 0xDC80 <= c <= 0xDCFF
  }

  function EncodeCodePoint(c: CodePoint): byte
    requires Encodable(c)
  {
    if c < 0x80 then c as byte else (c - 0xDC00) as byte
  }

  /** `text.encode('ascii', 'surrogateescape')`. */
  function EncodeSurrogateEscape(text: seq<CodePoint>): (r: Result<seq<byte>>)
    ensures r.Ok? <==> forall i :: 0 <= i < |text| ==> Encodable(text[i])
    ensures r.Ok? ==> |r.value| == |text| && forall i :: 0 <= i < |text| ==> r.value[i] == EncodeCodePoint(text[i])
    ensures r.Err? ==> r.error == UnicodeEncodeError
  {
    if text == [] then Ok([])
    else if !Encodable(text[0]) then Err(UnicodeEncodeError)
    else match EncodeSurrogateEscape(text[1..])
      case Err(e) =>
        var i :| 0 <= i < |text| - 1 && !Encodable(text[1..][i]);
        assert !Encodable(text[i + 1]);
        Err(e)
      case Ok(rest) => Ok([EncodeCodePoint(text[0])] + rest)
  }

  /** `data.decode('ascii', 'surrogateescape')`, how an undecodable byte reaches a
      text payload: ASCII bytes stand for themselves, any other byte b for U+DC00 + b. */
  function DecodeSurrogateEscape(data: seq<byte>): (r: seq<CodePoint>)
  {
    seq(|data|, i requires 0 <= i < |data| => if data[i] < 0x80 then data[i] as CodePoint else 0xDC00 + data[i] as CodePoint)
  }

  /** The escape scheme loses nothing: every byte string comes back unchanged. */
  lemma {:induction false} SurrogateEscapeRoundTrip(data: seq<byte>)
    ensures EncodeSurrogateEscape(DecodeSurrogateEscape(data)) == Ok(data)
  {
    var text := DecodeSurrogateEscape(data);
    assert forall i :: 0 <= i < |text| ==> Encodable(text[i]);
    var r := EncodeSurrogateEscape(text);
    assert |r.value| == |data|;
    assert forall i :: 0 <= i < |data| ==> r.value[i] == data[i];
    assert r.value == data;
  }

  /** `getBodyFile()`: the bytes of a leaf part's body. A multipart part has no body
      file; a text payload is turned back into bytes with surrogateescape. */
  function GetBodyFile(part: Part): (r: Result<seq<byte>>)
    ensures r.Err? <==> part.body.Multi? || (part.body.payload.Text? && exists i :: 0 <= i < |part.body.payload.text| && !Encodable(part.body.payload.text[i]))
    ensures part.body.Multi? ==> r == Err(TypeError)
    ensures part.body.Leaf? && part.body.payload.Bytes? ==> r == Ok(part.body.payload.bytes)
    ensures part.body.Leaf? && part.body.payload.Text? ==> r == EncodeSurrogateEscape(part.body.payload.text)
    ensures part.body.Leaf? && part.body.payload.Text? && r.Ok? ==> |r.value| == |part.body.payload.text|
  {
    match part.body
    case Multi(_) => Err(TypeError)
    case Leaf(Bytes(data)) => Ok(data)
    case Leaf(Text(text)) => EncodeSurrogateEscape(text)
  }

  /** A leaf whose bytes the parser escaped with surrogateescape returns the original
      bytes as its body file. */
  lemma BodyFileRoundTrip(headers: seq<(string, string)>, charset: Option<string>, data: seq<byte>)
    ensures GetBodyFile(Part(headers, charset, Leaf(Text(DecodeSurrogateEscape(data))))) == Ok(data)
  {
    SurrogateEscapeRoundTrip(data);
  }

  /** `getSubPart(k)`: the k-th child of a multipart part; a leaf part has none. */
  function GetSubPart(part: Part, k: nat): (r: Result<Part>)
    ensures r.Err? <==> part.body.Leaf? || k >= |part.body.parts|
    ensures part.body.Leaf? ==> r == Err(TypeError)
    ensures part.body.Multi? && k >= |part.body.parts| ==> r == Err(IndexError)
    ensures r.Ok? ==> r.value == part.body.parts[k] && r.value < part
  {
    match part.body
    case Leaf(_) => Err(TypeError)
    case Multi(parts) => if k < |parts| then Ok(parts[k]) else Err(IndexError)
  }

  /** `chunks[i]` is the first chunk containing `p`. */
  predicate IsFirstContaining(chunks: seq<string>, p: string, i: int) {
    0 <= i < |chunks| && Contains(chunks[i], p) && forall j :: 0 <= j < i ==> !Contains(chunks[j], p)
  }

  /** Index of the first chunk that contains `p`, if any. */
  function FirstContaining(chunks: seq<string>, p: string): (r: Option<nat>)
    ensures r.None? <==> forall i :: 0 <= i < |chunks| ==> !Contains(chunks[i], p)
    ensures r.Some? ==> IsFirstContaining(chunks, p, r.value)
  {
    if chunks == [] then None
    else if Contains(chunks[0], p) then Some(0)
    else match FirstContaining(chunks[1..], p)
      case None => None
      case Some(k) => Some(k + 1)
  }

  /** The chunk loop of `parse_charset`: the first chunk that contains `key` decides,
      giving the text between its first '=' and the next '=' (an IndexError when it has
      no '='); with no such chunk the result is `default`. */
  function CharsetFromChunks(chunks: seq<string>, key: string, default: string): (r: Result<string>)
    ensures (forall i :: 0 <= i < |chunks| ==> !Contains(chunks[i], key)) ==> r == Ok(default)
    ensures forall i :: IsFirstContaining(chunks, key, i) ==>
              r == (if '=' in chunks[i] then Ok(Split(chunks[i], '=')[1]) else Err(IndexError))
  {
    match FirstContaining(chunks, key)
    case None => Ok(default)
    case Some(k) =>
      var pieces := Split(chunks[k], '=');
      if |pieces| >= 2 then Ok(pieces[1]) else Err(IndexError)
  }

  /** `parse_charset(default)`. The character set attached to the part wins. Otherwise
      the Content-type value is split at ';' and searched for a chunk containing
      "charset". With no Content-type header at all, `None.split` raises. */
  function ParseCharset(part: Part, default: string): (r: Result<string>)
    ensures part.charset.Some? ==> r == Ok(part.charset.value)
    ensures part.charset.None? && Get(part.headers, "Content-type").None? ==> r == Err(AttributeError)
    ensures part.charset.None? && Get(part.headers, "Content-type").Some? ==>
      r == CharsetFromChunks(Split(Get(part.headers, "Content-type").value, ';'), CharsetKey, default)
  {
    if part.charset.Some? then Ok(part.charset.value)
    else match Get(part.headers, "Content-type")
      case None => Err(AttributeError)
      case Some(contentType) => CharsetFromChunks(Split(contentType, ';'), CharsetKey, default)
  }

  /** The value `parse_charset` takes from a chunk lies between its first two '='. */
  lemma CharsetTextBetweenEquals(chunk: string)
    requires '=' in chunk
    ensures var pieces := Split(chunk, '=');
      && |pieces| >= 2 && '=' !in pieces[0] && '=' !in pieces[1]
      && (|pieces| == 2 ==> chunk == pieces[0] + "=" + pieces[1])
      && (|pieces| > 2 ==> chunk == pieces[0] + "=" + pieces[1] + "=" + Join(pieces[2..], '='))
  {
    var pieces := Split(chunk, '=');
    assert Join(pieces, '=') == chunk;
    assert |pieces| != 1;
    assert Join(pieces, '=') == pieces[0] + "=" + Join(pieces[1..], '=');
    if |pieces| > 2 {
      assert pieces[1..][1..] == pieces[2..];
      assert Join(pieces[1..], '=') == pieces[1] + "=" + Join(pieces[2..], '=');
    }
  }

  /** The leaf parts of a document in the order `walk()` visits them: depth first,
      the part before its children, multipart containers skipped. */
  function Leaves(part: Part): (r: seq<Payload>)
    ensures forall p :: p in r <==> HasLeaf(part, p)
    ensures part.body.Leaf? ==> r == [part.body.payload]
    decreases part, 1
  {
    match part.body
    case Leaf(payload) => [payload]
    case Multi(parts) => LeavesOf(parts)
  }

  /** The leaves of a list of sibling parts, the first sibling's leaves first. */
  function LeavesOf(parts: seq<Part>): (r: seq<Payload>)
    ensures forall p :: p in r <==> exists k :: 0 <= k < |parts| && HasLeaf(parts[k], p)
    decreases parts, 0
  {
    if parts == [] then []
    else
      var r := Leaves(parts[0]) + LeavesOf(parts[1..]);
      assert forall k :: 1 <= k < |parts| ==> parts[1..][k - 1] == parts[k];
      r
  }

  /** `p` is the payload of a leaf somewhere in the tree below `part`, `part` included. */
  predicate HasLeaf(part: Part, p: Payload)
    decreases part
  {
    match part.body
    case Leaf(q) => q == p
    case Multi(parts) => exists k :: 0 <= k < |parts| && HasLeaf(parts[k], p)
  }

  /** The walk visits sibling parts in order: the leaves of two runs of siblings are
      the leaves of the first run followed by those of the second. */
  lemma {:induction false} LeavesOfAppend(a: seq<Part>, b: seq<Part>)
    ensures LeavesOf(a + b) == LeavesOf(a) + LeavesOf(b)
  {
    if a != [] {
      assert (a + b)[0] == a[0] && (a + b)[1..] == a[1..] + b;
      LeavesOfAppend(a[1..], b);
    } else {
      assert a + b == b;
    }
  }

  /** `payloads()`: for every leaf, its payload paired with the character set it is
      decoded with. That character set is the one of the TOP-LEVEL part for every
      leaf, whatever the leaf's own headers say. The charset is only looked up when
      there is a leaf to decode, so a failing lookup surfaces only then. Transfer
      decoding and the codec call itself are not modelled. */
  function Payloads(top: Part): (r: Result<seq<(Payload, string)>>)
    ensures Leaves(top) == [] ==> r == Ok([])
    ensures Leaves(top) != [] ==> (r.Err? <==> ParseCharset(top, DefaultCharset).Err?)
    ensures r.Ok? ==> |r.value| == |Leaves(top)|
    ensures r.Ok? ==> forall i :: 0 <= i < |r.value| ==>
      r.value[i].0 == Leaves(top)[i] && r.value[i].1 == ParseCharset(top, DefaultCharset).value
  {
    var leaves := Leaves(top);
    if leaves == [] then Ok([])
    else match ParseCharset(top, DefaultCharset)
      case Err(e) => Err(e)
      case Ok(charset) => Ok(seq(|leaves|, i requires 0 <= i < |leaves| => (leaves[i], charset)))
  }

  /** A child's own declared character set plays no part in how its payload is decoded. */
  lemma PayloadsIgnoreChildCharsets(top: Part, i: nat, j: nat)
    requires Payloads(top).Ok? && i < |Payloads(top).value| && j < |Payloads(top).value|
    ensures Payloads(top).value[i].1 == Payloads(top).value[j].1
  {
  }

  /** Two documents with the same top-level headers and charset and the same leaf
      payloads yield the same payloads, whatever their inner parts declare. */
  lemma PayloadsIgnoreChildHeaders(top: Part, other: Part)
    requires top.headers == other.headers && top.charset == other.charset
    requires Leaves(top) == Leaves(other)
    ensures Payloads(top) == Payloads(other)
  {
  }
}
