/**
 * The captive portal's form handler: finding the two fields in the posted
 * body and decoding them in place into fixed buffers.
 */
module FormDecoder {
  import opened Streams

  const PERCENT: byte := 0x25
  const PLUS: byte := 0x2B
  const MINUS: byte := 0x2D
  const SPACE: byte := 0x20
  const AMPERSAND: byte := 0x26
  const EQUALS: byte := 0x3D

  /** "ssid=" and "password=" */
  const SSID_KEY: Bytes := [115, 115, 105, 100, 61]
  const PASSWORD_KEY: Bytes := [112, 97, 115, 115, 119, 111, 114, 100, 61]

  const BODY_MAX := 255
  const FIELD_MAX := 127
  const SSID_SIZE := 33
  const PASSWORD_SIZE := 65

  // ----- hexadecimal

  function HexDigit(c: byte): (r: Option<nat>)
    ensures r.Some? ==> r.value < 16
  {
    if 48 <= c <= 57 then Some(c - 48)
    else if 65 <= c <= 70 then Some(c - 55)
    else if 97 <= c <= 102 then Some(c - 87)
    else None
  }

  predicate IsBlank(c: byte) { c == SPACE || 9 <= c <= 13 }

  /** strtol in base 16 on two characters: blanks and a sign may lead, parsing stops at the first non-digit. */
  function StrtolHex(c1: byte, c2: byte): (r: int)
    ensures -16 < r < 256
  {
    var d1, d2 := HexDigit(c1), HexDigit(c2);
    var last: int := if d2.Some? then d2.value else 0;
    if d1.Some? then (if d2.Some? then 16 * d1.value + last else d1.value)
    else if IsBlank(c1) || c1 == PLUS then last
    else if c1 == MINUS then -last
    else 0
  }

  /** The parsed number as a char, that is modulo 256. */
  function HexByte(c1: byte, c2: byte): (r: byte)
  {
    var v := StrtolHex(c1, c2);
    if v < 0 then v + 256 else v
  }

  // ----- url_decode

  /** What one turn of the decoding loop stores, and where in the source the next one starts. */
  function DecodeOne(src: Bytes, si: nat): (r: (byte, nat))
    requires si < |src|
    ensures si < r.1 <= |src|
  {
    if src[si] == PERCENT && si + 2 < |src| then (HexByte(src[si + 1], src[si + 2]), si + 3)
    else if src[si] == PLUS then (SPACE, si + 1)
    else (src[si], si + 1)
  }

  function DecodeFrom(src: Bytes, si: nat, room: nat): (r: Bytes)
    requires si <= |src|
    ensures |r| <= room
    decreases room
  {
    if si == |src| || room == 0 then []
    else [DecodeOne(src, si).0] + DecodeFrom(src, DecodeOne(src, si).1, room - 1)
  }

  /** The decoded text, cut off after `room` bytes. */
  function Decode(src: Bytes, room: nat): (r: Bytes) { DecodeFrom(src, 0, room) }

  predicate NulFree(s: Bytes) { 0 !in s }

  /** One turn of the loop: the character to store and the next source position. */
  method NextChar(src: Bytes, si: nat) returns (c: byte, next: nat)
    requires si < |src|
    ensures (c, next) == DecodeOne(src, si)
  {
    if src[si] == PERCENT && si + 2 < |src| {
      c, next := HexByte(src[si + 1], src[si + 2]), si + 3;
    } else if src[si] == PLUS {
      c, next := SPACE, si + 1;
    } else {
      c, next := src[si], si + 1;
    }
  }

  /** How far the loop is: from `si` on, the source decodes to what `text` still has from `di` on. */
  ghost predicate Decoding(src: Bytes, si: nat, text: Bytes, di: nat, room: nat)
  {
    si <= |src| && di <= |text| && di <= room && text[di..] == DecodeFrom(src, si, room - di)
  }

  lemma DecodingAdvances(src: Bytes, si: nat, text: Bytes, di: nat, room: nat)
    requires Decoding(src, si, text, di, room) && si < |src| && di < room
    ensures di < |text| && text[di] == DecodeOne(src, si).0
    ensures Decoding(src, DecodeOne(src, si).1, text, di + 1, room)
  {
    var rest := DecodeFrom(src, DecodeOne(src, si).1, room - di - 1);
    assert text[di..] == [DecodeOne(src, si).0] + rest;
    assert text[di] == text[di..][0] && text[di + 1..] == text[di..][1..] == rest;
  }

  lemma DecodingEnds(src: Bytes, si: nat, text: Bytes, di: nat, room: nat)
    requires Decoding(src, si, text, di, room) && (si == |src| || di == room)
    ensures di == |text|
  {
    assert |text[di..]| == 0;
  }

  /** The decoding loop, which leaves room for the terminator. */
  method DecodeInto(dst: array<byte>, src: Bytes) returns (di: nat)
    requires dst.Length > 0 && NulFree(src)
    modifies dst
    ensures di < dst.Length && dst[..di] == Decode(src, dst.Length - 1)
    ensures dst[di..] == old(dst[di..])
  {
    var si := 0;
    di := 0;
    ghost var text := Decode(src, dst.Length - 1);
    assert text[0..] == text;
    while si < |src| && di < dst.Length - 1
      invariant Decoding(src, si, text, di, dst.Length - 1)
      invariant forall i :: 0 <= i < di ==> dst[i] == text[i]
      invariant forall i :: di <= i < dst.Length ==> dst[i] == old(dst[i])
      decreases |src| - si
    {
      DecodingAdvances(src, si, text, di, dst.Length - 1);
      var c, next := NextChar(src, si);
      dst[di] := c;
      di, si := di + 1, next;
    }
    DecodingEnds(src, si, text, di, dst.Length - 1);
  }

  /**
   * url_decode on a C string: for any source it writes the decoded text and a
   * terminator inside the destination and leaves the rest of it alone.
   */
  method UrlDecode(dst: array<byte>, src: Bytes)
    requires dst.Length > 0 && NulFree(src)
    modifies dst
    ensures var text := Decode(src, dst.Length - 1);
            && dst[..|text|] == text
            && dst[|text|] == 0
            && dst[|text| + 1..] == old(dst[|text| + 1..])
  {
    ghost var was := dst[..];
    var di := DecodeInto(dst, src);
    assert dst[di..] == was[di..];
    dst[di] := 0;
    assert dst[di + 1..] == was[di..][1..] == was[di + 1..];
  }

  // ----- the field extraction

  /** strstr: the first place where `needle` occurs. */
  function Find(hay: Bytes, needle: Bytes): (r: Option<nat>)
    ensures r.Some? ==> r.value + |needle| <= |hay|
  {
    if needle <= hay then Some(0)
    else if hay == [] then None
    else
      match Find(hay[1..], needle)
      case None => None
      case Some(p) => Some(p + 1)
  }

  /** The text before the first occurrence of `stop`: strchr, or strlen if there is none. */
  function Until(s: Bytes, stop: byte): (r: Bytes)
    ensures r <= s
  {
    if s == [] || s[0] == stop then [] else [s[0]] + Until(s[1..], stop)
  }

  /** What a C function sees of a buffer: the text before the first NUL. */
  function CString(s: Bytes): (r: Bytes) { Until(s, 0) }

  function Field(body: Bytes, key: Bytes): (r: Option<Bytes>)
  {
    match Find(body, key)
    case None => None
    case Some(p) =>
      var raw := Until(body[p + |key|..], AMPERSAND);
      Some(if |raw| > FIELD_MAX then raw[..FIELD_MAX] else raw)
  }

  /** The text a field leaves in a zeroed buffer of `size` bytes. */
  function Setting(field: Option<Bytes>, size: nat): (r: Bytes)
    requires size > 0
  {
    match field
    case None => []
    case Some(raw) => CString(Decode(raw, size - 1))
  }

  datatype Response = ServerError | BadRequest | Credentials(ssid: Bytes, password: Bytes)

  /** What the handler makes of a posted body. */
  function Handled(posted: Bytes): (r: Response)
  {
    var body := CString(if |posted| > BODY_MAX then posted[..BODY_MAX] else posted);
    if posted == [] then ServerError
    else
      var ssid := Setting(Field(body, SSID_KEY), SSID_SIZE);
      var password := Setting(Field(body, PASSWORD_KEY), PASSWORD_SIZE);
      if ssid == [] then BadRequest else Credentials(ssid, password)
  }

  lemma {:induction false} UntilFree(s: Bytes, stop: byte)
    ensures stop !in Until(s, stop)
  {
    if s != [] && s[0] != stop {
      UntilFree(s[1..], stop);
    }
  }

  lemma {:induction false} UntilStops(text: Bytes, stop: byte, rest: Bytes)
    requires stop !in text && (rest == [] || rest[0] == stop)
    ensures Until(text + rest, stop) == text
  {
    if text != [] {
      assert (text + rest)[1..] == text[1..] + rest;
      UntilStops(text[1..], stop, rest);
    } else {
      assert text + rest == rest;
    }
  }

  /** What is left in a terminated buffer is the decoded text up to its first NUL. */
  lemma {:induction false} CStringOfBuffer(buffer: Bytes, text: Bytes)
    requires |text| < |buffer| && buffer[..|text|] == text && buffer[|text|] == 0
    ensures CString(buffer) == CString(text)
  {
    if text != [] && text[0] != 0 {
      assert buffer[1..][..|text| - 1] == text[1..];
      CStringOfBuffer(buffer[1..], text[1..]);
    }
  }

  lemma {:induction false} CStringOfZeros(buffer: Bytes)
    requires forall i :: 0 <= i < |buffer| ==> buffer[i] == 0
    ensures CString(buffer) == []
  {
  }

  /** One field of the form: find it, copy at most 127 bytes of it, decode it into the buffer. */
  method DecodeField(body: Bytes, key: Bytes, buffer: array<byte>)
    requires NulFree(body) && buffer.Length > 0 && forall i :: 0 <= i < buffer.Length ==> buffer[i] == 0
    modifies buffer
    ensures CString(buffer[..]) == Setting(Field(body, key), buffer.Length)
  {
    var found := Find(body, key);
    if found.None? {
      CStringOfZeros(buffer[..]);
      return;
    }
    var raw := Until(body[found.value + |key|..], AMPERSAND);
    if |raw| > FIELD_MAX {
      raw := raw[..FIELD_MAX];
    }
    UrlDecode(buffer, raw);
    ghost var text := Decode(raw, buffer.Length - 1);
    assert buffer[..][..|text|] == buffer[..|text|] == text;
    CStringOfBuffer(buffer[..], text);
  }

  method HandleConnect(posted: Bytes) returns (r: Response)
    ensures r == Handled(posted)
  {
    if posted == [] {
      return ServerError;
    }
    var body := CString(if |posted| > BODY_MAX then posted[..BODY_MAX] else posted);
    UntilFree(if |posted| > BODY_MAX then posted[..BODY_MAX] else posted, 0);
    var ssid := new byte[SSID_SIZE](_ => 0);
    var password := new byte[PASSWORD_SIZE](_ => 0);
    DecodeField(body, SSID_KEY, ssid);
    DecodeField(body, PASSWORD_KEY, password);
    if CString(ssid[..]) == [] {
      return BadRequest;
    }
    return Credentials(CString(ssid[..]), CString(password[..]));
  }

  // ----- application/x-www-form-urlencoded

  predicate Unreserved(b: byte)
  {
    48 <= b <= 57 || 65 <= b <= 90 || 97 <= b <= 122 || b == 0x2A || b == 0x2D || b == 0x2E || b == 0x5F
  }

  function HexUpper(d: nat): (r: byte)
    requires d < 16
    ensures HexDigit(r) == Some(d)
  {
    if d < 10 then 48 + d else 55 + d
  }

  function EncodeByte(b: byte): (r: Bytes)
  {
    if Unreserved(b) then [b]
    else if b == SPACE then [PLUS]
    else [PERCENT, HexUpper(b / 16), HexUpper(b % 16)]
  }

  function FormEncode(s: Bytes): (r: Bytes)
  {
    if s == [] then [] else EncodeByte(s[0]) + FormEncode(s[1..])
  }

  function FormBody(ssid: Bytes, password: Bytes): (r: Bytes)
  {
    SSID_KEY + FormEncode(ssid) + [AMPERSAND] + PASSWORD_KEY + FormEncode(password)
  }

  lemma HexRoundTrip(b: byte)
    ensures HexByte(HexUpper(b / 16), HexUpper(b % 16)) == b
  {
    var hi, lo := b / 16, b % 16;
    assert HexDigit(HexUpper(hi)) == Some(hi) && HexDigit(HexUpper(lo)) == Some(lo);
  }

  lemma DecodeOneEncoded(src: Bytes, si: nat, b: byte, rest: Bytes)
    requires si <= |src| && src[si..] == EncodeByte(b) + rest
    ensures si < |src| && DecodeOne(src, si) == (b, si + |EncodeByte(b)|)
    ensures src[si + |EncodeByte(b)|..] == rest
  {
    var n := |EncodeByte(b)|;
    HexRoundTrip(b);
    assert forall i :: 0 <= i < n ==> src[si + i] == src[si..][i] == EncodeByte(b)[i];
    assert src[si + n..] == src[si..][n..];
  }

  lemma {:induction false} DecodeEncodedFrom(src: Bytes, si: nat, s: Bytes, room: nat)
    requires si <= |src| && src[si..] == FormEncode(s) && |s| <= room
    ensures DecodeFrom(src, si, room) == s
    decreases |s|
  {
    if s != [] {
      DecodeOneEncoded(src, si, s[0], FormEncode(s[1..]));
      DecodeEncodedFrom(src, DecodeOne(src, si).1, s[1..], room - 1);
    } else {
      assert |src[si..]| == 0;
    }
  }

  /** Decoding inverts encoding for every text that fits the destination. */
  lemma DecodeEncoded(s: Bytes, room: nat)
    requires |s| <= room
    ensures Decode(FormEncode(s), room) == s
  {
    var src := FormEncode(s);
    assert src[0..] == src;
    DecodeEncodedFrom(src, 0, s, room);
  }

  /** An encoded text contains no separator and no NUL. */
  lemma {:induction false} EncodedIsClean(s: Bytes)
    ensures AMPERSAND !in FormEncode(s) && EQUALS !in FormEncode(s) && 0 !in FormEncode(s)
  {
    if s != [] {
      EncodedIsClean(s[1..]);
      EncodeByteClean(s[0]);
    }
  }

  lemma EncodeByteClean(b: byte)
    ensures AMPERSAND !in EncodeByte(b) && EQUALS !in EncodeByte(b) && 0 !in EncodeByte(b)
  {
    var hi, lo := HexUpper(b / 16), HexUpper(b % 16);
    assert hi >= 48 && hi != EQUALS && lo >= 48 && lo != EQUALS;
  }

  lemma {:induction false} FindSkips(before: Bytes, needle: Bytes, rest: Bytes)
    requires forall q :: 0 <= q < |before| ==> !(needle <= (before + rest)[q..])
    requires needle <= rest
    ensures Find(before + rest, needle) == Some(|before|)
  {
    var hay := before + rest;
    if before == [] {
      assert hay == rest;
    } else {
      assert hay[0..] == hay;
      assert !(needle <= hay);
      assert hay[1..] == before[1..] + rest;
      forall q | 0 <= q < |before| - 1
        ensures !(needle <= (before[1..] + rest)[q..])
      {
        assert hay[q + 1..] == (before[1..] + rest)[q..];
      }
      FindSkips(before[1..], needle, rest);
    }
  }

  /** "password=" does not occur before its own field: the only '=' before it is too early, and '&' is in the way. */
  lemma PasswordKeyIsFirst(encoded: Bytes, rest: Bytes, q: nat)
    requires EQUALS !in encoded && q < |SSID_KEY| + |encoded| + 1
    ensures !(PASSWORD_KEY <= (SSID_KEY + encoded + [AMPERSAND] + rest)[q..])
  {
    var before := SSID_KEY + encoded + [AMPERSAND];
    var n := |before|;
    var hay := before + rest;
    var i := if q + 8 < n - 1 then 8 else n - 1 - q;
    if i == 8 && q + 8 < n - 1 {
      assert hay[q + 8] == before[q + 8] == encoded[q + 3];
      assert encoded[q + 3] in encoded;
    } else {
      assert hay[q + i] == AMPERSAND;
    }
    assert hay[q..][i] == hay[q + i];
  }

  lemma FieldAt(body: Bytes, key: Bytes, p: nat, text: Bytes, rest: Bytes)
    requires Find(body, key) == Some(p) && body[p + |key|..] == text + rest
    requires AMPERSAND !in text && (rest == [] || rest[0] == AMPERSAND) && |text| <= FIELD_MAX
    ensures Field(body, key) == Some(text)
  {
    UntilStops(text, AMPERSAND, rest);
  }

  lemma SsidField(ssid: Bytes, password: Bytes)
    requires |FormEncode(ssid)| <= FIELD_MAX
    ensures Field(FormBody(ssid, password), SSID_KEY) == Some(FormEncode(ssid))
  {
    var e := FormEncode(ssid);
    var rest := [AMPERSAND] + PASSWORD_KEY + FormEncode(password);
    EncodedIsClean(ssid);
    SsidFieldAt(FormBody(ssid, password), e, rest);
  }

  lemma SsidFieldAt(body: Bytes, e: Bytes, rest: Bytes)
    requires body == SSID_KEY + e + rest && AMPERSAND !in e && |e| <= FIELD_MAX
    requires rest != [] && rest[0] == AMPERSAND
    ensures Field(body, SSID_KEY) == Some(e)
  {
    assert body[..|SSID_KEY|] == SSID_KEY;
    assert body[0 + |SSID_KEY|..] == e + rest;
    FieldAt(body, SSID_KEY, 0, e, rest);
  }

  lemma PasswordField(ssid: Bytes, password: Bytes)
    requires |FormEncode(password)| <= FIELD_MAX
    ensures Field(FormBody(ssid, password), PASSWORD_KEY) == Some(FormEncode(password))
  {
    EncodedIsClean(ssid);
    EncodedIsClean(password);
    PasswordFieldAt(FormEncode(ssid), FormEncode(password));
    Assoc(SSID_KEY + FormEncode(ssid) + [AMPERSAND], PASSWORD_KEY, FormEncode(password));
  }

  lemma PasswordFieldAt(encoded: Bytes, e: Bytes)
    requires EQUALS !in encoded && AMPERSAND !in e && |e| <= FIELD_MAX
    ensures Field(SSID_KEY + encoded + [AMPERSAND] + (PASSWORD_KEY + e), PASSWORD_KEY) == Some(e)
  {
    var before := SSID_KEY + encoded + [AMPERSAND];
    var rest := PASSWORD_KEY + e;
    var body := before + rest;
    forall q | 0 <= q < |before|
      ensures !(PASSWORD_KEY <= body[q..])
    {
      PasswordKeyIsFirst(encoded, rest, q);
    }
    FindSkips(before, PASSWORD_KEY, rest);
    assert body[|before| + |PASSWORD_KEY|..] == e + [];
    FieldAt(body, PASSWORD_KEY, |before|, e, []);
  }

  /** The two fields of an encoded form decode to the two values. */
  lemma FieldsDecode(ssid: Bytes, password: Bytes) returns (rawSsid: Bytes, rawPassword: Bytes)
    requires |ssid| <= 32 && |password| <= 64
    requires |FormEncode(ssid)| <= FIELD_MAX && |FormEncode(password)| <= FIELD_MAX
    ensures Field(FormBody(ssid, password), SSID_KEY) == Some(rawSsid) && Decode(rawSsid, 32) == ssid
    ensures Field(FormBody(ssid, password), PASSWORD_KEY) == Some(rawPassword) && Decode(rawPassword, 64) == password
  {
    rawSsid, rawPassword := FormEncode(ssid), FormEncode(password);
    SsidField(ssid, password);
    PasswordField(ssid, password);
    DecodeEncoded(ssid, 32);
    DecodeEncoded(password, 64);
  }

  lemma SettingOfText(raw: Bytes, size: nat, text: Bytes)
    requires size > 0 && Decode(raw, size - 1) == text && NulFree(text)
    ensures Setting(Some(raw), size) == text
  {
    CStringOfText(text);
  }

  lemma CStringOfText(text: Bytes)
    requires NulFree(text)
    ensures CString(text) == text
  {
    UntilStops(text, 0, []);
    assert text + [] == text;
  }

  lemma BodyIsText(ssid: Bytes, password: Bytes)
    ensures CString(FormBody(ssid, password)) == FormBody(ssid, password)
  {
    EncodedIsClean(ssid);
    EncodedIsClean(password);
    CStringOfText(FormBody(ssid, password));
  }

  /**
   * Every NUL-free SSID of 1 to 32 bytes and password of up to 64 bytes,
   * form-encoded into a body of at most 255 bytes with fields of at most 127,
   * is recovered exactly; an empty SSID is refused.
   */
  lemma FormRoundTrip(ssid: Bytes, password: Bytes)
    requires NulFree(ssid) && NulFree(password) && |ssid| <= 32 && |password| <= 64
    requires |FormEncode(ssid)| <= 127 && |FormEncode(password)| <= 127
    requires |FormBody(ssid, password)| <= 255
    ensures Handled(FormBody(ssid, password))
         == if ssid == [] then BadRequest else Credentials(ssid, password)
  {
    BodyIsText(ssid, password);
    var rawSsid, rawPassword := FieldsDecode(ssid, password);
    HandledForm(FormBody(ssid, password), rawSsid, rawPassword, ssid, password);
  }

  lemma HandledForm(body: Bytes, rawSsid: Bytes, rawPassword: Bytes, ssid: Bytes, password: Bytes)
    requires 0 < |body| <= BODY_MAX && CString(body) == body && NulFree(ssid) && NulFree(password)
    requires Field(body, SSID_KEY) == Some(rawSsid) && Decode(rawSsid, 32) == ssid
    requires Field(body, PASSWORD_KEY) == Some(rawPassword) && Decode(rawPassword, 64) == password
    ensures Handled(body) == if ssid == [] then BadRequest else Credentials(ssid, password)
  {
    SettingOfText(rawSsid, SSID_SIZE, ssid);
    SettingOfText(rawPassword, PASSWORD_SIZE, password);
  }

  // ----- other bodies

  const DIGITS_UPPER: Bytes := [48, 49, 50, 51, 52, 53, 54, 55, 56, 57, 65, 66, 67, 68, 69, 70]
  const DIGITS_LOWER: Bytes := [48, 49, 50, 51, 52, 53, 54, 55, 56, 57, 97, 98, 99, 100, 101, 102]

  predicate IsDigit(c: byte, d: nat)
  {
    d < 16 && (c == DIGITS_UPPER[d] || c == DIGITS_LOWER[d])
  }

  /** `e` is one of the ways to encode `b`: as itself, as a plus or with two hexadecimal digits of either case. */
  predicate Encodes(e: Bytes, b: byte)
  {
    || (e == [b] && b != PERCENT && b != PLUS)
    || (e == [PLUS] && b == SPACE)
    || (|e| == 3 && e[0] == PERCENT && IsDigit(e[1], b / 16) && IsDigit(e[2], b % 16))
  }

  lemma DigitValue(c: byte, d: nat)
    requires IsDigit(c, d)
    ensures HexDigit(c) == Some(d)
  {
  }

  lemma DecodeOneOfAny(src: Bytes, si: nat, e: Bytes, b: byte, rest: Bytes)
    requires si <= |src| && src[si..] == e + rest && Encodes(e, b)
    ensures si < |src| && DecodeOne(src, si) == (b, si + |e|) && src[si + |e|..] == rest
  {
    assert forall i :: 0 <= i < |e| ==> src[si + i] == src[si..][i] == e[i];
    assert src[si + |e|..] == src[si..][|e|..];
    if |e| == 3 {
      DigitValue(e[1], b / 16);
      DigitValue(e[2], b % 16);
    }
  }

  lemma {:induction false} AnyEncodingDecodesFrom(src: Bytes, si: nat, es: seq<Bytes>, s: Bytes, room: nat)
    requires |es| == |s| <= room && forall i :: 0 <= i < |s| ==> Encodes(es[i], s[i])
    requires si <= |src| && src[si..] == Concat(es)
    ensures DecodeFrom(src, si, room) == s
    decreases |s|
  {
    if s != [] {
      DecodeOneOfAny(src, si, es[0], s[0], Concat(es[1..]));
      AnyEncodingDecodesFrom(src, si + |es[0]|, es[1..], s[1..], room - 1);
    }
  }

  /** Decoding inverts every way of encoding a text, character by character, that fits. */
  lemma AnyEncodingDecodes(es: seq<Bytes>, s: Bytes, room: nat)
    requires |es| == |s| <= room && forall i :: 0 <= i < |s| ==> Encodes(es[i], s[i])
    ensures Decode(Concat(es), room) == s
  {
    assert Concat(es)[0..] == Concat(es);
    AnyEncodingDecodesFrom(Concat(es), 0, es, s, room);
  }

  /** A percent sign without two characters behind it stands for itself. */
  lemma CutEscapeStays(src: Bytes, si: nat)
    requires si < |src| <= si + 2 && src[si] == PERCENT
    ensures DecodeOne(src, si) == (PERCENT, si + 1)
  {
  }

  predicate OccursAt(hay: Bytes, needle: Bytes, q: nat)
  {
    q <= |hay| && needle <= hay[q..]
  }

  lemma OccursLater(hay: Bytes, needle: Bytes, q: nat)
    requires hay != [] && q > 0
    ensures OccursAt(hay, needle, q) <==> OccursAt(hay[1..], needle, q - 1)
  {
    if q <= |hay| {
      assert hay[1..][q - 1..] == hay[q..];
    }
  }

  /** Where the search stops, there is an occurrence. */
  lemma {:induction false} FindOccurs(hay: Bytes, needle: Bytes)
    requires Find(hay, needle).Some?
    ensures OccursAt(hay, needle, Find(hay, needle).value)
  {
    if needle <= hay {
      assert hay[0..] == hay;
    } else {
      FindOccurs(hay[1..], needle);
      OccursLater(hay, needle, Find(hay, needle).value);
    }
  }

  /** It stops no later than at any occurrence. */
  lemma {:induction false} FindIsFirst(hay: Bytes, needle: Bytes, q: nat)
    requires OccursAt(hay, needle, q)
    ensures Find(hay, needle).Some? && Find(hay, needle).value <= q
  {
    if !(needle <= hay) {
      assert hay[0..] == hay;
      OccursLater(hay, needle, q);
      FindIsFirst(hay[1..], needle, q - 1);
    }
  }

  /** A body without "ssid=" is refused, and so is an empty one, as a failed receive. */
  lemma WithoutSsid(posted: Bytes)
    requires |posted| <= 255 && forall q: nat :: !OccursAt(CString(posted), SSID_KEY, q)
    ensures Handled(posted) == if posted == [] then ServerError else BadRequest
  {
    if Find(CString(posted), SSID_KEY).Some? {
      FindOccurs(CString(posted), SSID_KEY);
    }
  }

  lemma NoPasswordKey(e: Bytes, q: nat)
    requires EQUALS !in e
    ensures !OccursAt(SSID_KEY + e, PASSWORD_KEY, q)
  {
    var body := SSID_KEY + e;
    if q + 8 < |body| {
      assert body[q..][8] == body[q + 8] == e[q + 3];
      assert e[q + 3] in e;
    }
  }

  /** A form with an SSID only, for an open network, gives an empty password. */
  lemma SsidAlone(ssid: Bytes)
    requires NulFree(ssid) && 1 <= |ssid| <= 32 && |FormEncode(ssid)| <= 127
    ensures Handled(SSID_KEY + FormEncode(ssid)) == Credentials(ssid, [])
  {
    var e := FormEncode(ssid);
    var body := SSID_KEY + e;
    EncodedIsClean(ssid);
    CStringOfText(body);
    assert body[..|SSID_KEY|] == SSID_KEY && body[0 + |SSID_KEY|..] == e + [];
    FieldAt(body, SSID_KEY, 0, e, []);
    DecodeEncoded(ssid, 32);
    SettingOfText(e, SSID_SIZE, ssid);
    if Find(body, PASSWORD_KEY).Some? {
      FindOccurs(body, PASSWORD_KEY);
      NoPasswordKey(e, Find(body, PASSWORD_KEY).value);
    }
  }

  // ----- the radio configuration

  const RADIO_SSID_SIZE := 32
  const RADIO_PASSWORD_SIZE := 64

  /** A zeroed field after strncpy of at most all but its last byte. */
  function RadioField(text: Bytes, size: nat): (field: Bytes)
    requires size > 0
    ensures |field| == size
  {
    var n := if |text| < size then |text| else size - 1;
    text[..n] + seq(size - n, _ => 0)
  }

  /** The station's fields after a posted form; all zero if the form was refused. */
  function Configured(r: Response): (config: (Bytes, Bytes))
  {
    var (ssid, password) := if r.Credentials? then (r.ssid, r.password) else ([], []);
    (RadioField(ssid, RADIO_SSID_SIZE), RadioField(password, RADIO_PASSWORD_SIZE))
  }

  /** A field holds the text, or what fits before its last byte: the whole text exactly if it is shorter. */
  lemma RadioFieldHolds(text: Bytes, size: nat)
    requires NulFree(text) && size > 0
    ensures CString(RadioField(text, size)) == if |text| < size then text else text[..size - 1]
    ensures CString(RadioField(text, size)) == text <==> |text| < size
  {
    var n := if |text| < size then |text| else size - 1;
    UntilStops(text[..n], 0, seq(size - n, _ => 0));
    assert n == |text| ==> text[..n] == text;
  }

  /**
   * Of the credentials that the form decoder recovers, the radio gets those
   * of at most 31 and 63 bytes unchanged, and no others: a 32-byte SSID or a
   * 64-byte password loses its last byte.
   */
  lemma CredentialsReachRadioIff(ssid: Bytes, password: Bytes)
    requires NulFree(ssid) && NulFree(password) && 1 <= |ssid| <= 32 && |password| <= 64
    requires |FormEncode(ssid)| <= FIELD_MAX && |FormEncode(password)| <= FIELD_MAX
    requires |FormBody(ssid, password)| <= BODY_MAX
    ensures var config := Configured(Handled(FormBody(ssid, password)));
            CString(config.0) == ssid && CString(config.1) == password <==> |ssid| <= 31 && |password| <= 63
  {
    FormRoundTrip(ssid, password);
    RadioFieldHolds(ssid, RADIO_SSID_SIZE);
    RadioFieldHolds(password, RADIO_PASSWORD_SIZE);
  }

  function Letters(n: nat): (r: Bytes) { seq(n, _ => 'a' as int) }

  lemma {:induction false} LettersEncode(n: nat)
    ensures FormEncode(Letters(n)) == Letters(n)
  {
    if n > 0 {
      assert Letters(n)[1..] == Letters(n - 1);
      LettersEncode(n - 1);
    }
  }

  /** A 32-byte SSID that is posted, decoded and saved whole, and reaches the radio with 31 bytes. */
  lemma LongSsidIsCut(ssid: Bytes)
    requires ssid == Letters(32)
    ensures Handled(FormBody(ssid, [])) == Credentials(ssid, [])
    ensures CString(Configured(Handled(FormBody(ssid, []))).0) == ssid[..31]
  {
    LettersEncode(32);
    FormRoundTrip(ssid, []);
    RadioFieldHolds(ssid, RADIO_SSID_SIZE);
  }
}
