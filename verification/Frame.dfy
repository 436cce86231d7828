/** The RFC 6587 codecs: octet-count framing (section 3.4.1) and delimiter framing
    (section 3.4.2), decoding from and encoding into a mutable byte buffer. */
module Frame {
  import opened Text
  import opened Syslog
  import StructuredData

  /** The errors of the codecs, and `DecoderPanic` for a panic of the parser under `decode`. */
  datatype FrameError =
    | MessageTooLarge(max: nat, got: nat)
    | InvalidOctetCount
    | InvalidUtf8
    | OctetCountPrefixTooLong
    | ParseFailed(error: ParseError)
    | Io
    | DecoderPanic

  const MAX_DIGITS: nat := 20

  datatype Codec =
    | OctetCount(maxSize: nat)
    | Delimiter(delimiter: char, maxSize: nat)

  type Decoded = Result<Option<SyslogMessage>, FrameError>

  /** The growable buffer both codecs work on. */
  class BytesMut {
    var data: Bytes

    constructor ()
      ensures data == []
    {
      data := [];
    }

    method Advance(n: nat)
      requires n <= |data|
      modifies this
      ensures data == old(data)[n..]
    {
      data := data[n..];
    }

    method SplitTo(n: nat) returns (head: Bytes)
      requires n <= |data|
      modifies this
      ensures head == old(data)[..n] && data == old(data)[n..]
    {
      head := data[..n];
      data := data[n..];
    }

    method Put(bytes: Bytes)
      modifies this
      ensures data == old(data) + bytes
    {
      data := data + bytes;
    }

    method Clear()
      modifies this
      ensures data == []
    {
      data := [];
    }
  }

  // ── Decoding, as a function of the buffer ──────────────────────────────────

  /** The UTF-8 check and the parse of one frame's bytes. */
  function DecodeBytes(utf8: Bytes -> bool, bytes: Bytes): Decoded {
    if !utf8(bytes) then Err(InvalidUtf8)
    else
      match Parse(bytes)
      case Ok(m) => Ok(Some(m))
      case Err(Panic) => Err(DecoderPanic)
      case Err(e) => Err(ParseFailed(e))
  }

  /** The outcome of one `decode` call and the buffer it leaves. A prefix that parses as a
      number is ASCII, so the prefix needs no separate UTF-8 check. */
  function Decode(codec: Codec, utf8: Bytes -> bool, buf: Bytes): (r: (Decoded, Bytes))
    ensures r.0 == Ok(None) ==> r.1 == buf
    ensures r.0.Ok? && r.0.value.Some? ==> |r.1| < |buf|
  {
    match codec
    case OctetCount(maxSize) =>
      var sp := IndexOf(buf, ' ');
      if sp == |buf| then
        (if |buf| > MAX_DIGITS then Err(OctetCountPrefixTooLong) else Ok(None), buf)
      else
        var len := ParseUnsigned(buf[..sp], USIZE_MAX);
        if len.None? then (Err(InvalidOctetCount), buf)
        else if len.value > maxSize then (Err(MessageTooLarge(maxSize, len.value)), buf)
        else if |buf| < sp + 1 + len.value then (Ok(None), buf)
        else (DecodeBytes(utf8, buf[sp + 1..sp + 1 + len.value]), buf[sp + 1 + len.value..])
    case Delimiter(delimiter, maxSize) =>
      var pos := IndexOf(buf, delimiter);
      if pos == |buf| then
        (if |buf| > maxSize then Err(MessageTooLarge(maxSize, |buf|)) else Ok(None), buf)
      else if pos > maxSize then (Err(MessageTooLarge(maxSize, pos)), buf)
      else (DecodeBytes(utf8, buf[..pos]), buf[pos + 1..])
  }

  /** The default `decode_eof`: bytes that will never complete a frame are an I/O error. */
  function DecodeEof(codec: Codec, utf8: Bytes -> bool, buf: Bytes): (r: (Decoded, Bytes))
    ensures r.0.Ok? && r.0.value.Some? ==> |r.1| < |buf|
  {
    var d := Decode(codec, utf8, buf);
    if d.0 == Ok(None) && d.1 != [] then (Err(Io), d.1) else d
  }

  /** `OctetCountCodec::decode`. */
  method OctetDecode(maxSize: nat, utf8: Bytes -> bool, buf: BytesMut) returns (r: Decoded)
    modifies buf
    ensures (r, buf.data) == Decode(OctetCount(maxSize), utf8, old(buf.data))
  {
    hide DecodeBytes, ParseUnsigned, IndexOf;
    var spPos := IndexOf(buf.data, ' ');
    if spPos == |buf.data| {
      if |buf.data| > MAX_DIGITS {
        return Err(OctetCountPrefixTooLong);
      }
      return Ok(None);
    }
    var msgLen := ParseUnsigned(buf.data[..spPos], USIZE_MAX);
    if msgLen.None? {
      return Err(InvalidOctetCount);
    }
    if msgLen.value > maxSize {
      return Err(MessageTooLarge(maxSize, msgLen.value));
    }
    var total := spPos + 1 + msgLen.value;
    if |buf.data| < total {
      return Ok(None);
    }
    buf.Advance(spPos + 1);
    var msgBytes := buf.SplitTo(msgLen.value);
    Reslice(old(buf.data), spPos + 1, msgLen.value);
    return DecodeBytes(utf8, msgBytes);
  }

  /** `DelimiterCodec::decode`. */
  method DelimiterDecode(delimiter: char, maxSize: nat, utf8: Bytes -> bool, buf: BytesMut) returns (r: Decoded)
    modifies buf
    ensures (r, buf.data) == Decode(Delimiter(delimiter, maxSize), utf8, old(buf.data))
  {
    hide DecodeBytes, IndexOf;
    var pos := IndexOf(buf.data, delimiter);
    if pos == |buf.data| {
      if |buf.data| > maxSize {
        return Err(MessageTooLarge(maxSize, |buf.data|));
      }
      return Ok(None);
    }
    if pos > maxSize {
      return Err(MessageTooLarge(maxSize, pos));
    }
    var msgBytes := buf.SplitTo(pos);
    buf.Advance(1);
    assert buf.data == old(buf.data)[pos + 1..];
    return DecodeBytes(utf8, msgBytes);
  }

  // ── Encoding ───────────────────────────────────────────────────────────────

  /** The bytes of one frame. */
  function FrameOf(codec: Codec, m: SyslogMessage): (f: Bytes)
    ensures f != []
  {
    match codec
    case OctetCount(_) => Decimal(|Display(m)|) + " " + Display(m)
    case Delimiter(delimiter, _) => Display(m) + [delimiter]
  }

  method PutBoth(dst: BytesMut, a: Bytes, b: Bytes)
    modifies dst
    ensures dst.data == old(dst.data) + (a + b)
  {
    dst.Put(a);
    dst.Put(b);
    assert old(dst.data) + a + b == old(dst.data) + (a + b);
  }

  /** `encode` of either codec: the frame is appended, or the buffer is left alone. */
  method Encode(codec: Codec, item: SyslogMessage, dst: BytesMut) returns (r: Result<(), FrameError>)
    modifies dst
    ensures r == if |Display(item)| <= codec.maxSize then Ok(())
                 else Err(MessageTooLarge(codec.maxSize, |Display(item)|))
    ensures dst.data == if r.Ok? then old(dst.data) + FrameOf(codec, item) else old(dst.data)
  {
    hide Display;
    var msg := Display(item);
    if |msg| > codec.maxSize {
      return Err(MessageTooLarge(codec.maxSize, |msg|));
    }
    match codec {
      case OctetCount(_) =>
        PutBoth(dst, Decimal(|msg|) + " ", msg);
      case Delimiter(delimiter, _) =>
        PutBoth(dst, msg, [delimiter]);
    }
    return Ok(());
  }

  // ── Frames and their prefixes ──────────────────────────────────────────────

  /** The rendering fits the codec's limit, itself a 64-bit number. */
  predicate Fits(codec: Codec, m: SyslogMessage) {
    |Display(m)| <= codec.maxSize <= USIZE_MAX
  }

  /** Delimiter framing is only transparent to renderings without the delimiter. */
  predicate IsTransparent(codec: Codec, m: SyslogMessage) {
    codec.Delimiter? ==> codec.delimiter !in Display(m)
  }

  /** A message that comes through as it was sent. */
  predicate Survives(codec: Codec, utf8: Bytes -> bool, m: SyslogMessage) {
    IsPrintable(m) && utf8(Display(m)) && IsTransparent(codec, m)
  }

  lemma Slices(d: Bytes, c: char, wire: Bytes, rest: Bytes)
    ensures var buf := d + [c] + wire + rest;
            && buf == d + [c] + (wire + rest) && buf[..|d|] == d
            && buf[|d| + 1..|d| + 1 + |wire|] == wire && buf[|d| + 1 + |wire|..] == rest
  {
  }

  /** A length prefix for `wire`, possibly with leading zeros and a `+`. */
  predicate IsPrefixFor(d: Bytes, wire: Bytes) {
    ParseUnsigned(d, 0xFFFF_FFFF_FFFF_FFFF) == Some(|wire|)
  }

  lemma WholeOctetFrame(maxSize: nat, utf8: Bytes -> bool, d: Bytes, wire: Bytes, rest: Bytes)
    requires IsPrefixFor(d, wire) && |wire| <= maxSize
    ensures Decode(OctetCount(maxSize), utf8, d + " " + wire + rest) == (DecodeBytes(utf8, wire), rest)
  {
    hide DecodeBytes, IndexOf, ParseUnsigned;
    IndexOfAfter(d, ' ', wire + rest);
    Slices(d, ' ', wire, rest);
  }

  lemma PartialOctetFrame(maxSize: nat, utf8: Bytes -> bool, d: Bytes, wire: Bytes, p: Bytes)
    requires IsPrefixFor(d, wire) && |wire| <= maxSize && |d| <= MAX_DIGITS
    requires p < d + " " + wire
    ensures Decode(OctetCount(maxSize), utf8, p) == (Ok(None), p)
  {
    hide DecodeBytes, IndexOf, ParseUnsigned;
    if |p| <= |d| {
      assert forall k :: 0 <= k < |p| ==> p[k] == d[k];
    } else {
      var rest := p[|d| + 1..];
      assert p == d + [' '] + rest;
      IndexOfAfter(d, ' ', rest);
      assert p[..|d|] == d;
    }
  }

  lemma WholeDelimitedFrame(c: char, maxSize: nat, utf8: Bytes -> bool, wire: Bytes, rest: Bytes)
    requires |wire| <= maxSize && c !in wire
    ensures Decode(Delimiter(c, maxSize), utf8, wire + [c] + rest) == (DecodeBytes(utf8, wire), rest)
  {
    hide DecodeBytes, IndexOf;
    var buf := wire + [c] + rest;
    IndexOfAfter(wire, c, rest);
    assert buf[..|wire|] == wire;
    assert buf[|wire| + 1..] == rest;
  }

  /** A whole frame at the front has its rendering read, and is consumed exactly. */
  lemma FrameRead(codec: Codec, utf8: Bytes -> bool, m: SyslogMessage, rest: Bytes)
    requires Fits(codec, m) && IsTransparent(codec, m)
    ensures Decode(codec, utf8, FrameOf(codec, m) + rest) == (DecodeBytes(utf8, Display(m)), rest)
  {
    hide Display, DecodeBytes;
    var wire := Display(m);
    match codec {
      case OctetCount(maxSize) =>
        ParseDecimal(|wire|, USIZE_MAX);
        WholeOctetFrame(maxSize, utf8, Decimal(|wire|), wire, rest);
      case Delimiter(delimiter, maxSize) =>
        WholeDelimitedFrame(delimiter, maxSize, utf8, wire, rest);
    }
  }

  /** It decodes to its message if and only if the message is printable and its rendering UTF-8. */
  lemma WholeFrame(codec: Codec, utf8: Bytes -> bool, m: SyslogMessage, rest: Bytes)
    requires Fits(codec, m) && IsTransparent(codec, m)
    ensures Decode(codec, utf8, FrameOf(codec, m) + rest) == (Ok(Some(m)), rest) <==> Survives(codec, utf8, m)
    ensures Decode(codec, utf8, FrameOf(codec, m) + rest).0 != Ok(None)
  {
    hide Display, Parse, IsPrintable, Decode, FrameOf;
    FrameRead(codec, utf8, m, rest);
    DisplayParse(m);
  }

  /** A proper prefix of a frame never decodes, and never fails: more bytes are awaited. */
  lemma PartialFrame(codec: Codec, utf8: Bytes -> bool, m: SyslogMessage, p: Bytes)
    requires Fits(codec, m) && IsTransparent(codec, m)
    requires p < FrameOf(codec, m)
    ensures Decode(codec, utf8, p) == (Ok(None), p)
  {
    hide Display, IndexOf, DecodeBytes;
    var wire := Display(m);
    match codec {
      case OctetCount(maxSize) =>
        DecimalOfUsize(|wire|);
        ParseDecimal(|wire|, USIZE_MAX);
        PartialOctetFrame(maxSize, utf8, Decimal(|wire|), wire, p);
      case Delimiter(delimiter, _) =>
        assert forall k :: 0 <= k < |p| ==> p[k] == wire[k];
    }
  }

  /** When the rendering holds the delimiter, the decoder waits for the first one and then
      produces something other than the message. */
  lemma CutFrame(codec: Codec, utf8: Bytes -> bool, m: SyslogMessage, rest: Bytes, p: Bytes)
    requires Fits(codec, m) && !IsTransparent(codec, m)
    requires p <= FrameOf(codec, m) + rest
    ensures if codec.delimiter in p
            then Decode(codec, utf8, p).0 != Ok(None) && Decode(codec, utf8, p).0 != Ok(Some(m))
            else Decode(codec, utf8, p) == (Ok(None), p)
  {
    hide Display, Parse, IsPrintable;
    var wire, c := Display(m), codec.delimiter;
    var i := IndexOf(wire, c);
    assert forall k :: 0 <= k < |p| && k < |wire| ==> p[k] == wire[k];
    if c in p {
      assert IndexOf(p, c) == i;
      if Parse(p[..i]).Ok? {
        ParsedIsPrintable(p[..i]);
      }
    } else {
      assert |p| <= i;
    }
  }

  /** The two frames of one message in full. */
  lemma FrameExample(m: SyslogMessage, maxSize: nat, c: char)
    requires m == SyslogMessage(Priority(1, 5), None, Some("h"), Some("a"), Some("p"), Some("i"), "-", "x")
    ensures FrameOf(OctetCount(maxSize), m) == "19 <13>1 - h a p i - x"
    ensures FrameOf(Delimiter(c, maxSize), m) == "<13>1 - h a p i - x" + [c]
  {
    WireText(m);
    hide Display;
    assert Decimal(19) == "19" by {
      assert Decimal(1) == "1";
    }
    assert "19" + " " + "<13>1 - h a p i - x" == "19 <13>1 - h a p i - x";
  }

  // ── Decoding arbitrary bytes ───────────────────────────────────────────────

  /** `buf` starts with one complete frame with body `body`, and `rest` follows it. */
  predicate StartsWithFrame(codec: Codec, buf: Bytes, prefix: Bytes, body: Bytes, rest: Bytes) {
    && |body| <= codec.maxSize
    && match codec
       case OctetCount(_) =>
         buf == prefix + " " + body + rest && ' ' !in prefix && IsPrefixFor(prefix, body)
       case Delimiter(c, _) => buf == body + [c] + rest && c !in body && prefix == []
  }

  lemma FrameFound(codec: Codec, utf8: Bytes -> bool, buf: Bytes, prefix: Bytes, body: Bytes, rest: Bytes)
    requires StartsWithFrame(codec, buf, prefix, body, rest)
    ensures Decode(codec, utf8, buf) == (DecodeBytes(utf8, body), rest)
  {
    hide DecodeBytes, IndexOf, ParseUnsigned;
    match codec {
      case OctetCount(maxSize) =>
        IndexOfAfter(prefix, ' ', body + rest);
        Slices(prefix, ' ', body, rest);
      case Delimiter(c, maxSize) =>
        WholeDelimitedFrame(c, maxSize, utf8, body, rest);
    }
  }

  /** The outcomes that are about the body of a complete frame. */
  predicate IsBodyError(e: FrameError) {
    e == InvalidUtf8 || e.ParseFailed? || e == DecoderPanic
  }

  /** Only a complete frame yields a message, or an error about its body. */
  lemma FrameOpened(codec: Codec, utf8: Bytes -> bool, buf: Bytes) returns (prefix: Bytes, body: Bytes)
    requires match Decode(codec, utf8, buf).0
             case Ok(r) => r.Some?
             case Err(e) => IsBodyError(e)
    ensures StartsWithFrame(codec, buf, prefix, body, Decode(codec, utf8, buf).1)
  {
    hide DecodeBytes, IndexOf, ParseUnsigned;
    match codec {
      case OctetCount(maxSize) =>
        var sp := IndexOf(buf, ' ');
        var len := ParseUnsigned(buf[..sp], USIZE_MAX).value;
        prefix, body := buf[..sp], buf[sp + 1..sp + 1 + len];
        assert buf == prefix + " " + body + buf[sp + 1 + len..];
      case Delimiter(c, maxSize) =>
        var pos := IndexOf(buf, c);
        prefix, body := [], buf[..pos];
        assert buf == body + [c] + buf[pos + 1..];
    }
  }

  /** The decoder yields `m` and leaves `rest` if and only if the buffer is one complete frame
      followed by `rest`, within the size limit, whose body is UTF-8 that parses to `m`. */
  lemma DecodeExactly(codec: Codec, utf8: Bytes -> bool, buf: Bytes, m: SyslogMessage, rest: Bytes)
    ensures Decode(codec, utf8, buf) == (Ok(Some(m)), rest)
       <==> exists prefix: Bytes, body: Bytes ::
              StartsWithFrame(codec, buf, prefix, body, rest) && utf8(body) && Parse(body) == Ok(m)
  {
    hide Decode, StartsWithFrame, Parse;
    if Decode(codec, utf8, buf) == (Ok(Some(m)), rest) {
      var prefix, body := FrameOpened(codec, utf8, buf);
      FrameFound(codec, utf8, buf, prefix, body, rest);
    }
    if prefix: Bytes, body: Bytes :|
      StartsWithFrame(codec, buf, prefix, body, rest) && utf8(body) && Parse(body) == Ok(m)
    {
      FrameFound(codec, utf8, buf, prefix, body, rest);
    }
  }

  /** The separator is still to come, and there is room for it; or the length has arrived, and of
      the frame it announces some bytes are missing. */
  ghost predicate IsAwaited(codec: Codec, buf: Bytes) {
    match codec
    case OctetCount(maxSize) =>
      || (' ' !in buf && |buf| <= 20)
      || exists prefix: Bytes, body: Bytes ::
           |prefix| < |buf| && buf < prefix + " " + body && IsPrefixFor(prefix, body) && |body| <= maxSize
    case Delimiter(c, maxSize) => c !in buf && |buf| <= maxSize
  }

  lemma AwaitedFrame(maxSize: nat, buf: Bytes, sp: nat, len: nat)
    requires sp < |buf| < sp + 1 + len && buf[sp] == ' ' && len <= maxSize
    requires ParseUnsigned(buf[..sp], USIZE_MAX) == Some(len)
    ensures IsAwaited(OctetCount(maxSize), buf)
  {
    hide ParseUnsigned;
    var prefix, missing := buf[..sp], seq(sp + 1 + len - |buf|, i => ' ');
    var body := buf[sp + 1..] + missing;
    assert prefix + " " + body == buf + missing;
    assert |prefix| < |buf| && buf < prefix + " " + body && IsPrefixFor(prefix, body) && |body| <= maxSize;
  }

  lemma AwaitedPrefix(buf: Bytes, prefix: Bytes, body: Bytes)
    requires |prefix| < |buf| && buf < prefix + " " + body && IsPrefixFor(prefix, body)
    ensures IndexOf(buf, ' ') == |prefix| && buf[..|prefix|] == prefix
  {
    hide ParseUnsigned, IndexOf;
    var frame := prefix + " " + body;
    assert forall k :: 0 <= k < |buf| ==> buf[k] == frame[k];
    assert buf == prefix + [' '] + buf[|prefix| + 1..];
    IndexOfAfter(prefix, ' ', buf[|prefix| + 1..]);
  }

  /** The decoder asks for more bytes if and only if a frame is still awaited, and then it leaves
      the buffer as it is. */
  lemma DecodeWaitsExactly(codec: Codec, utf8: Bytes -> bool, buf: Bytes)
    ensures Decode(codec, utf8, buf).0 == Ok(None) <==> IsAwaited(codec, buf)
    ensures Decode(codec, utf8, buf).0 == Ok(None) ==> Decode(codec, utf8, buf).1 == buf
  {
    hide Parse, IndexOf, ParseUnsigned;
    if codec.OctetCount? {
      var sp := IndexOf(buf, ' ');
      if Decode(codec, utf8, buf).0 == Ok(None) && sp < |buf| {
        AwaitedFrame(codec.maxSize, buf, sp, ParseUnsigned(buf[..sp], USIZE_MAX).value);
      }
      if prefix: Bytes, body: Bytes :|
        |prefix| < |buf| && buf < prefix + " " + body && IsPrefixFor(prefix, body) && |body| <= codec.maxSize
      {
        AwaitedPrefix(buf, prefix, body);
      }
    }
  }

  /** `p` comes before the first `c`, and `rest` after it. */
  predicate Splits(buf: Bytes, c: char, p: Bytes, rest: Bytes) {
    buf == p + [c] + rest && c !in p
  }

  lemma SplitsAt(buf: Bytes, c: char, p: Bytes, rest: Bytes)
    ensures var i := IndexOf(buf, c);
            Splits(buf, c, p, rest) <==> i < |buf| && p == buf[..i] && rest == buf[i + 1..]
  {
    hide IndexOf;
    if Splits(buf, c, p, rest) {
      IndexOfAfter(p, c, rest);
      assert buf[..|p|] == p && buf[|p| + 1..] == rest;
    }
  }

  /** A size of `got` shows: announced by a length, or as text before the delimiter, if any yet. */
  predicate IsTooLarge(codec: Codec, buf: Bytes, before: Bytes, rest: Bytes, got: nat) {
    match codec
    case OctetCount(_) => Splits(buf, ' ', before, rest) && ParseUnsigned(before, USIZE_MAX) == Some(got)
    case Delimiter(c, _) => buf == before + rest && c !in before && |before| == got && (rest == [] || rest[0] == c)
  }

  /** Why the decoder refuses a buffer, for each of its errors, and when it panics; for UTF-8
      bodies, `ParsePanicsExactly` says when that is. */
  ghost predicate IsRefused(codec: Codec, utf8: Bytes -> bool, buf: Bytes, e: FrameError) {
    match e
    case OctetCountPrefixTooLong => codec.OctetCount? && ' ' !in buf && |buf| > 20
    case InvalidOctetCount =>
      && codec.OctetCount?
      && exists prefix: Bytes, rest: Bytes ::
           Splits(buf, ' ', prefix, rest) && ParseUnsigned(prefix, USIZE_MAX) == None
    case MessageTooLarge(max, got) =>
      && max == codec.maxSize < got
      && exists before: Bytes, rest: Bytes :: IsTooLarge(codec, buf, before, rest, got)
    case InvalidUtf8 =>
      exists prefix: Bytes, body: Bytes, rest: Bytes ::
        StartsWithFrame(codec, buf, prefix, body, rest) && !utf8(body)
    case ParseFailed(error) =>
      exists prefix: Bytes, body: Bytes, rest: Bytes ::
        StartsWithFrame(codec, buf, prefix, body, rest) && utf8(body) && Parse(body) == Err(error) && error != Panic
    case DecoderPanic =>
      exists prefix: Bytes, body: Bytes, rest: Bytes ::
        StartsWithFrame(codec, buf, prefix, body, rest) && utf8(body) && Parse(body) == Err(Panic)
    case Io => false
  }

  lemma BodyRefused(codec: Codec, utf8: Bytes -> bool, buf: Bytes, e: FrameError)
    requires IsBodyError(e)
    ensures Decode(codec, utf8, buf).0 == Err(e) <==> IsRefused(codec, utf8, buf, e)
  {
    hide Decode, StartsWithFrame, Parse;
    if Decode(codec, utf8, buf).0 == Err(e) {
      var prefix, body := FrameOpened(codec, utf8, buf);
      FrameFound(codec, utf8, buf, prefix, body, Decode(codec, utf8, buf).1);
    }
    if prefix: Bytes, body: Bytes, rest: Bytes :|
      StartsWithFrame(codec, buf, prefix, body, rest) && DecodeBytes(utf8, body) == Err(e)
    {
      FrameFound(codec, utf8, buf, prefix, body, rest);
    }
  }

  lemma OctetRefused(maxSize: nat, utf8: Bytes -> bool, buf: Bytes, e: FrameError)
    requires !IsBodyError(e)
    ensures Decode(OctetCount(maxSize), utf8, buf).0 == Err(e) <==> IsRefused(OctetCount(maxSize), utf8, buf, e)
  {
    hide Parse, IndexOf, ParseUnsigned, Splits;
    var sp := IndexOf(buf, ' ');
    if sp < |buf| {
      SplitsAt(buf, ' ', buf[..sp], buf[sp + 1..]);
      var len := ParseUnsigned(buf[..sp], USIZE_MAX);
      assert len.Some? ==> IsTooLarge(OctetCount(maxSize), buf, buf[..sp], buf[sp + 1..], len.value);
    }
    forall p: Bytes, rest: Bytes | Splits(buf, ' ', p, rest) ensures sp < |buf| && p == buf[..sp] {
      SplitsAt(buf, ' ', p, rest);
    }
  }

  lemma DelimiterRefused(c: char, maxSize: nat, utf8: Bytes -> bool, buf: Bytes, e: FrameError)
    requires !IsBodyError(e)
    ensures Decode(Delimiter(c, maxSize), utf8, buf).0 == Err(e)
       <==> IsRefused(Delimiter(c, maxSize), utf8, buf, e)
  {
    hide Parse, IndexOf;
    var pos := IndexOf(buf, c);
    assert buf == buf[..pos] + buf[pos..];
    forall before: Bytes, rest: Bytes, got: nat | IsTooLarge(Delimiter(c, maxSize), buf, before, rest, got)
      ensures got == pos
    {
      if rest != [] {
        assert buf == before + [c] + rest[1..];
        IndexOfAfter(before, c, rest[1..]);
      }
    }
    assert IsTooLarge(Delimiter(c, maxSize), buf, buf[..pos], buf[pos..], pos);
  }

  /** The decoder fails with `e`, or panics, if and only if the buffer is one that `e` names. */
  lemma DecodeFailsExactly(codec: Codec, utf8: Bytes -> bool, buf: Bytes, e: FrameError)
    ensures Decode(codec, utf8, buf).0 == Err(e) <==> IsRefused(codec, utf8, buf, e)
  {
    hide Decode, IsRefused;
    if IsBodyError(e) {
      BodyRefused(codec, utf8, buf, e);
    } else if codec.OctetCount? {
      OctetRefused(codec.maxSize, utf8, buf, e);
    } else {
      DelimiterRefused(codec.delimiter, codec.maxSize, utf8, buf, e);
    }
  }

  /** When the UTF-8 check lets through only texts with continuation bytes in their place, the
      decoder panics if and only if a complete frame within the limit has such a text for its
      body, on which the parser cuts a character. */
  lemma DecodePanicsExactly(codec: Codec, utf8: Bytes -> bool, buf: Bytes)
    requires forall b: Bytes :: utf8(b) ==> StructuredData.IsWellCut(b)
    ensures Decode(codec, utf8, buf).0 == Err(DecoderPanic)
       <==> exists prefix: Bytes, body: Bytes, rest: Bytes ::
              StartsWithFrame(codec, buf, prefix, body, rest) && utf8(body) && CutsInData(body)
  {
    hide Decode, StartsWithFrame, Parse, CutsInData, StructuredData.IsWellCut;
    DecodeFailsExactly(codec, utf8, buf, DecoderPanic);
    forall body: Bytes | utf8(body) ensures Parse(body) == Err(Panic) <==> CutsInData(body) {
      ParsePanicsExactly(body);
    }
  }

  /** An octet-count frame over the limit is refused as soon as its length has arrived. */
  lemma OversizedFrame(maxSize: nat, utf8: Bytes -> bool, m: SyslogMessage, rest: Bytes)
    requires maxSize < |Display(m)| <= USIZE_MAX
    ensures var buf := Decimal(|Display(m)|) + " " + rest;
            Decode(OctetCount(maxSize), utf8, buf) == (Err(MessageTooLarge(maxSize, |Display(m)|)), buf)
  {
    hide Display, DecodeBytes, IndexOf;
    var n := |Display(m)|;
    IndexOfAfter(Decimal(n), ' ', rest);
    ParseDecimal(n, USIZE_MAX);
    assert (Decimal(n) + " " + rest)[..|Decimal(n)|] == Decimal(n);
  }
}
