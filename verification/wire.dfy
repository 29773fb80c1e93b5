/** The text payloads of the control plane: a DIO advertisement `"<id> <version> <rank> <counter>"`,
    a challenge `"AUTH-REQ <nonce>"` and a response `"AUTH-RESP <nonce> <sig>"`. */
module Wire {
  import opened Uint
  import opened Options
  import opened Decimal
  import opened Scanner

  /** Size of the `char payload[128]` every receive handler copies a datagram into. */
  const RECEIVE_BUFFER: nat := 128

  /** Size of the `char payload[128]` the DIO sender formats an advertisement into with
      `snprintf`. */
  const DIO_SEND_BUFFER: nat := 128

  /** Size of the `char msg[64]` the challenge and response senders format into with
      `snprintf`; text shorter than this is sent whole. */
  const AUTH_SEND_BUFFER: nat := 64

  /** Width of the `%15s` conversion that reads the tag of an authentication message. */
  const TAG_WIDTH: nat := 15

  const REQ_TAG := "AUTH-REQ"
  const RESP_TAG := "AUTH-RESP"

  /** The four numbers a DIO advertisement carries. */
  datatype Dio = Dio(senderId: U32, version: U32, rank: U32, counter: U32)

  datatype AuthMsg = AuthReq(nonce: U32) | AuthResp(nonce: U32, sig: U32)

  /** `"%u %u %u %u"` of the four fields, built from the back. It always fits the
      128-byte send buffer with room for its NUL, so `snprintf` never cuts it, and it
      holds no NUL. */
  function EncodeDio(d: Dio): (r: string)
    ensures 7 <= |r| < DIO_SEND_BUFFER && NoNul(r)
  {
    var r3 := Field(d.counter, []);
    var r2 := Field(d.rank, r3);
    FieldIsPlain(d.counter, []);
    FieldIsPlain(d.rank, r3);
    FieldIsPlain(d.version, r2);
    DecimalIsPlain(d.senderId);
    NoNulAppend(ToDecimal(d.senderId), Field(d.version, r2));
    ToDecimal(d.senderId) + Field(d.version, r2)
  }

  /** `" %u"` of `n`, followed by `rest`. */
  function Field(n: U32, rest: string): string {
    " " + ToDecimal(n) + rest
  }

  /** `sscanf(payload, "%u %u %u %u", ...) == 4`: four numbers, each after optional white
      space; whatever follows the fourth is ignored. */
  function DecodeDio(s: string): (r: Option<Dio>)
    ensures (forall i :: 0 <= i < |s| ==> !IsDigit(s[i])) ==> r.None?
  {
    assert SkipSpaces(s) != [] ==> SkipSpaces(s)[0] == s[|s| - |SkipSpaces(s)|];
    var a :- ScanU32(s);
    var b :- ScanU32(a.1);
    var c :- ScanU32(b.1);
    var e :- ScanU32(c.1);
    Some(Dio(a.0, b.0, c.0, e.0))
  }

  /** The advertisement a DIO handler sees in a datagram. */
  function ReceiveDio(data: string): (r: Option<Dio>)
    ensures |data| < RECEIVE_BUFFER && NoNul(data) ==> r == DecodeDio(data)
    ensures data != [] && data[0] == '\0' ==> r.None?
  {
    assert |data| < RECEIVE_BUFFER && NoNul(data) ==> CString(data, RECEIVE_BUFFER) == data by {
      if |data| < RECEIVE_BUFFER && NoNul(data) {
        CStringOfShort(data, RECEIVE_BUFFER);
      }
    }
    DecodeDio(CString(data, RECEIVE_BUFFER))
  }

  /** The payload of a challenge or a response: it fits the 64-byte send buffer with room
      for its NUL, so `snprintf` never cuts it, and holds no NUL. */
  function EncodeAuth(m: AuthMsg): (r: string)
    ensures |r| < AUTH_SEND_BUFFER && NoNul(r)
  {
    match m
    case AuthReq(n) => ReqText(n)
    case AuthResp(n, sig) => RespText(n, sig)
  }

  /** `"AUTH-REQ %u"` */
  function ReqText(n: U32): (r: string)
    ensures |r| < AUTH_SEND_BUFFER && NoNul(r)
  {
    ReqFormatFits(n);
    REQ_TAG + " " + ToDecimal(n)
  }

  /** `"AUTH-RESP %u %u"` */
  function RespText(n: U32, sig: U32): (r: string)
    ensures |r| < AUTH_SEND_BUFFER && NoNul(r)
  {
    RespFormatFits(n, sig);
    RESP_TAG + " " + ToDecimal(n) + " " + ToDecimal(sig)
  }

  /** The tag is the first token, cut to fifteen characters; the numbers are then read by
      a format that starts with the tag literally, so the payload must begin with it. */
  function DecodeAuth(s: string): (r: Option<AuthMsg>)
    ensures r.Some? && r.value.AuthReq? ==> REQ_TAG <= s
    ensures r.Some? && r.value.AuthResp? ==> RESP_TAG <= s
  {
    var tag :- ScanToken(s, TAG_WIDTH);
    if tag == REQ_TAG then
      if |s| >= |REQ_TAG| && s[..|REQ_TAG|] == REQ_TAG then
        var n :- ScanU32(s[|REQ_TAG|..]);
        Some(AuthReq(n.0))
      else None
    else if tag == RESP_TAG then
      if |s| >= |RESP_TAG| && s[..|RESP_TAG|] == RESP_TAG then
        var n :- ScanU32(s[|RESP_TAG|..]);
        var sig :- ScanU32(n.1);
        Some(AuthResp(n.0, sig.0))
      else None
    else None
  }

  /** The authentication message a handler sees in a datagram. */
  function ReceiveAuth(data: string): (r: Option<AuthMsg>)
    ensures |data| < RECEIVE_BUFFER && NoNul(data) ==> r == DecodeAuth(data)
    ensures data != [] && data[0] == '\0' ==> r.None?
  {
    assert |data| < RECEIVE_BUFFER && NoNul(data) ==> CString(data, RECEIVE_BUFFER) == data by {
      if |data| < RECEIVE_BUFFER && NoNul(data) {
        CStringOfShort(data, RECEIVE_BUFFER);
      }
    }
    DecodeAuth(CString(data, RECEIVE_BUFFER))
  }

  lemma DecimalIsPlain(n: U32)
    ensures NoNul(ToDecimal(n)) && NoSpaces(ToDecimal(n))
    ensures |ToDecimal(n)| <= 10
  {
    DecimalLengthU32(n);
  }

  lemma FieldIsPlain(n: U32, rest: string)
    requires NoNul(rest)
    ensures NoNul(Field(n, rest)) && |Field(n, rest)| <= 11 + |rest|
  {
    DecimalIsPlain(n);
    NoNulAppend(" ", ToDecimal(n));
    NoNulAppend(" " + ToDecimal(n), rest);
  }

  /** `%u` reads back one field and leaves the text after it. */
  lemma ScanField(n: U32, rest: string)
    requires rest == [] || !IsDigit(rest[0])
    ensures ScanU32(Field(n, rest)) == Some((n, rest))
  {
    ScanDecimal(" ", n, rest);
  }

  /** `sscanf` stops after the fourth conversion: whatever text follows an encoded
      advertisement, unless it extends the last numeral, is ignored. */
  lemma DecodeDioIgnoresTrailing(d: Dio, extra: string)
    requires extra == [] || !IsDigit(extra[0])
    ensures DecodeDio(EncodeDio(d) + extra) == Some(d)
  {
    var r3 := Field(d.counter, extra);
    var r2 := Field(d.rank, r3);
    var r1 := Field(d.version, r2);
    var s := EncodeDio(d) + extra;
    EncodeDioAppend(d, extra);
    assert ScanU32(s) == Some((d.senderId, r1)) by {
      assert s == [] + ToDecimal(d.senderId) + r1;
      ScanDecimal([], d.senderId, r1);
    }
    ScanField(d.version, r2);
    ScanField(d.rank, r3);
    ScanField(d.counter, extra);
    DecodeDioSteps(s, r1, r2, r3, d);
  }

  /** Text after an encoded advertisement extends its last field. */
  lemma EncodeDioAppend(d: Dio, extra: string)
    ensures EncodeDio(d) + extra ==
      ToDecimal(d.senderId) + Field(d.version, Field(d.rank, Field(d.counter, extra)))
  {
    var e := EncodeDio(d);
    assert e == ToDecimal(d.senderId) + Field(d.version, Field(d.rank, Field(d.counter, [])));
    AppendField(d.counter, [], extra);
    assert [] + extra == extra;
    AppendField(d.rank, Field(d.counter, []), extra);
    AppendField(d.version, Field(d.rank, Field(d.counter, [])), extra);
  }

  lemma AppendField(n: U32, rest: string, extra: string)
    ensures Field(n, rest) + extra == Field(n, rest + extra)
  {
  }

  lemma DecodeEncodeDio(d: Dio)
    ensures DecodeDio(EncodeDio(d)) == Some(d)
  {
    DecodeDioIgnoresTrailing(d, []);
    assert EncodeDio(d) + [] == EncodeDio(d);
  }

  /** `DecodeDio` is four `%u` conversions in a row. */
  lemma DecodeDioSteps(s: string, r1: string, r2: string, r3: string, d: Dio)
    requires ScanU32(s) == Some((d.senderId, r1))
    requires ScanU32(r1) == Some((d.version, r2))
    requires ScanU32(r2) == Some((d.rank, r3))
    requires ScanU32(r3).Some? && ScanU32(r3).value.0 == d.counter
    ensures DecodeDio(s) == Some(d)
  {
  }

  /** A decoded advertisement is four numerals read from the text in order, each after
      optional white space, whatever follows the fourth. */
  lemma DecodedDioIsFourNumerals(s: string)
    returns (sp0: string, d0: string, r1: string, sp1: string, d1: string, r2: string,
             sp2: string, d2: string, r3: string, sp3: string, d3: string, rest: string)
    requires DecodeDio(s).Some?
    ensures var d := DecodeDio(s).value;
      && NumeralAt(s, sp0, d0, d.senderId, r1)
      && NumeralAt(r1, sp1, d1, d.version, r2)
      && NumeralAt(r2, sp2, d2, d.rank, r3)
      && NumeralAt(r3, sp3, d3, d.counter, rest)
  {
    r1 := ScanU32(s).value.1;
    r2 := ScanU32(r1).value.1;
    r3 := ScanU32(r2).value.1;
    rest := ScanU32(r3).value.1;
    sp0, d0 := ScanU32Split(s);
    sp1, d1 := ScanU32Split(r1);
    sp2, d2 := ScanU32Split(r2);
    sp3, d3 := ScanU32Split(r3);
  }

  /** Conversely, any four numerals that fit in 32 bits, each after optional white space,
      decode as the advertisement of their values. */
  lemma FourNumeralsDecode(s: string, sp0: string, d0: string, r1: string, sp1: string, d1: string,
                           r2: string, sp2: string, d2: string, r3: string, sp3: string, d3: string,
                           rest: string, d: Dio)
    requires NumeralAt(s, sp0, d0, d.senderId, r1)
    requires NumeralAt(r1, sp1, d1, d.version, r2)
    requires NumeralAt(r2, sp2, d2, d.rank, r3)
    requires NumeralAt(r3, sp3, d3, d.counter, rest)
    ensures DecodeDio(s) == Some(d)
  {
    ScanU32OfNumeral(s, sp0, d0, d.senderId, r1);
    ScanU32OfNumeral(r1, sp1, d1, d.version, r2);
    ScanU32OfNumeral(r2, sp2, d2, d.rank, r3);
    ScanU32OfNumeral(r3, sp3, d3, d.counter, rest);
    DecodeDioSteps(s, r1, r2, r3, d);
  }

  /** Every advertisement a node sends is read back, field for field, by its receivers. */
  lemma DioRoundTrip(d: Dio)
    ensures ReceiveDio(EncodeDio(d)) == Some(d)
  {
    DecodeEncodeDio(d);
  }

  lemma TagsArePlain()
    ensures NoSpaces(REQ_TAG) && NoSpaces(RESP_TAG) && REQ_TAG != RESP_TAG
  {
    assert |REQ_TAG| != |RESP_TAG|;
  }

  lemma DecodeReqFormat(n: U32)
    ensures DecodeAuth(REQ_TAG + " " + ToDecimal(n)) == Some(AuthReq(n))
  {
    var s := REQ_TAG + " " + ToDecimal(n);
    var tail := " " + ToDecimal(n);
    TagsArePlain();
    assert s == REQ_TAG + tail;
    ScanWord(REQ_TAG, TAG_WIDTH, tail);
    assert s[..|REQ_TAG|] == REQ_TAG && s[|REQ_TAG|..] == tail;
    assert tail == " " + ToDecimal(n) + [];
    ScanDecimal(" ", n, []);
  }

  lemma SplitRespFormat(n: U32, sig: U32)
    ensures var s := RESP_TAG + " " + ToDecimal(n) + " " + ToDecimal(sig);
      && s == RESP_TAG + (" " + ToDecimal(n) + (" " + ToDecimal(sig)))
      && s[..|RESP_TAG|] == RESP_TAG
      && s[|RESP_TAG|..] == " " + ToDecimal(n) + (" " + ToDecimal(sig))
  {
    SplitAfterFirst(RESP_TAG, " ", ToDecimal(n), " ", ToDecimal(sig));
  }

  /** Five pieces joined, cut after the first. */
  lemma SplitAfterFirst(a: string, b: string, c: string, d: string, e: string)
    ensures var s := a + b + c + d + e;
      && s == a + (b + c + (d + e))
      && s[..|a|] == a
      && s[|a|..] == b + c + (d + e)
  {
    assert a + b + c + d + e == a + (b + c + (d + e));
  }

  lemma ScanRespFormat(n: U32, sig: U32)
    ensures var s := RESP_TAG + " " + ToDecimal(n) + " " + ToDecimal(sig);
      && ScanToken(s, TAG_WIDTH) == Some(RESP_TAG)
      && |s| >= |RESP_TAG| && s[..|RESP_TAG|] == RESP_TAG
      && ScanU32(s[|RESP_TAG|..]) == Some((n, " " + ToDecimal(sig)))
      && ScanU32(" " + ToDecimal(sig)) == Some((sig, []))
  {
    var last := " " + ToDecimal(sig);
    var tail := " " + ToDecimal(n) + last;
    SplitRespFormat(n, sig);
    TagsArePlain();
    ScanWord(RESP_TAG, TAG_WIDTH, tail);
    ScanDecimal(" ", n, last);
    assert last == " " + ToDecimal(sig) + [];
    ScanDecimal(" ", sig, []);
  }

  lemma DecodeRespFormat(n: U32, sig: U32)
    ensures DecodeAuth(RESP_TAG + " " + ToDecimal(n) + " " + ToDecimal(sig)) == Some(AuthResp(n, sig))
  {
    ScanRespFormat(n, sig);
    TagsArePlain();
  }

  /** The payload of every challenge and response decodes as the message. */
  lemma DecodeEncodeAuth(m: AuthMsg)
    ensures DecodeAuth(EncodeAuth(m)) == Some(m)
  {
    match m {
      case AuthReq(n) => DecodeReqFormat(n);
      case AuthResp(n, sig) => DecodeRespFormat(n, sig);
    }
  }

  /** A decoded challenge is the word `AUTH-REQ`, then white space and the numeral of
      its nonce. */
  lemma DecodedReqIsTagAndNumeral(s: string) returns (sp: string, d: string, rest: string)
    requires DecodeAuth(s).Some? && DecodeAuth(s).value.AuthReq?
    ensures |s| >= |REQ_TAG| && s[..|REQ_TAG|] == REQ_TAG
    ensures sp != [] && NumeralAt(s[|REQ_TAG|..], sp, d, DecodeAuth(s).value.nonce, rest)
  {
    var tail := s[|REQ_TAG|..];
    DecodedReqParts(s);
    TagsArePlain();
    rest := ScanU32(tail).value.1;
    sp, d := ScanU32Split(tail);
    TagFollowedBySpace(s, REQ_TAG, sp, d, DecodeAuth(s).value.nonce, rest);
  }

  /** A decoded response is the word `AUTH-RESP`, then white space and the numeral of its
      nonce, then optional white space and the numeral of its tag. */
  lemma DecodedRespIsTagAndNumerals(s: string)
    returns (sp0: string, d0: string, r1: string, sp1: string, d1: string, rest: string)
    requires DecodeAuth(s).Some? && DecodeAuth(s).value.AuthResp?
    ensures |s| >= |RESP_TAG| && s[..|RESP_TAG|] == RESP_TAG
    ensures sp0 != [] && NumeralAt(s[|RESP_TAG|..], sp0, d0, DecodeAuth(s).value.nonce, r1)
    ensures NumeralAt(r1, sp1, d1, DecodeAuth(s).value.sig, rest)
  {
    var tail := s[|RESP_TAG|..];
    DecodedRespParts(s);
    TagsArePlain();
    r1 := ScanU32(tail).value.1;
    rest := ScanU32(r1).value.1;
    sp0, d0 := ScanU32Split(tail);
    sp1, d1 := ScanU32Split(r1);
    TagFollowedBySpace(s, RESP_TAG, sp0, d0, DecodeAuth(s).value.nonce, r1);
  }

  /** The conversions a decoded challenge went through. */
  lemma DecodedReqParts(s: string)
    requires DecodeAuth(s).Some? && DecodeAuth(s).value.AuthReq?
    ensures ScanToken(s, TAG_WIDTH) == Some(REQ_TAG) && |s| >= |REQ_TAG| && s[..|REQ_TAG|] == REQ_TAG
    ensures ScanU32(s[|REQ_TAG|..]).Some? && DecodeAuth(s).value.nonce == ScanU32(s[|REQ_TAG|..]).value.0
  {
    TagsArePlain();
  }

  /** The conversions a decoded response went through. */
  lemma DecodedRespParts(s: string)
    requires DecodeAuth(s).Some? && DecodeAuth(s).value.AuthResp?
    ensures ScanToken(s, TAG_WIDTH) == Some(RESP_TAG) && |s| >= |RESP_TAG| && s[..|RESP_TAG|] == RESP_TAG
    ensures var n := ScanU32(s[|RESP_TAG|..]);
      && n.Some? && DecodeAuth(s).value.nonce == n.value.0
      && ScanU32(n.value.1).Some? && DecodeAuth(s).value.sig == ScanU32(n.value.1).value.0
  {
    TagsArePlain();
    var tag := ScanToken(s, TAG_WIDTH).value;
    assert tag != REQ_TAG;
    assert tag == RESP_TAG;
  }

  /** `%15s` read the whole tag, so a numeral cannot follow it without white space. */
  lemma TagFollowedBySpace(s: string, tag: string, sp: string, d: string, v: nat, rest: string)
    requires |s| >= |tag| && s[..|tag|] == tag
    requires 1 <= |tag| < TAG_WIDTH && !IsSpace(tag[0])
    requires ScanToken(s, TAG_WIDTH) == Some(tag)
    requires NumeralAt(s[|tag|..], sp, d, v, rest)
    ensures sp != []
  {
    var tail := s[|tag|..];
    assert tail == sp + (d + rest);
    TokenEndsAtSpace(s, tag);
    assert IsSpace(tail[0]);
    assert !IsSpace(d[0]);
  }

  /** A token shorter than the width that the text starts with, and that the text goes on
      after, is followed by white space. */
  lemma TokenEndsAtSpace(s: string, tag: string)
    requires |s| > |tag| && s[..|tag|] == tag
    requires 1 <= |tag| < TAG_WIDTH && !IsSpace(tag[0])
    requires ScanToken(s, TAG_WIDTH) == Some(tag)
    ensures IsSpace(s[|tag|])
  {
    assert s[0] == tag[0];
    SkipSpacesPrefix([], s);
    assert [] + s == s;
  }

  /** Conversely, the word `AUTH-REQ` followed by white space and a numeral that fits in
      32 bits decodes as the challenge of that nonce. */
  lemma TagAndNumeralDecode(tail: string, sp: string, d: string, rest: string, n: U32)
    requires sp != [] && NumeralAt(tail, sp, d, n, rest)
    ensures DecodeAuth(REQ_TAG + tail) == Some(AuthReq(n))
  {
    var s := REQ_TAG + tail;
    TagsArePlain();
    assert tail[0] == sp[0];
    ScanWord(REQ_TAG, TAG_WIDTH, tail);
    assert s[..|REQ_TAG|] == REQ_TAG && s[|REQ_TAG|..] == tail;
    ScanU32OfNumeral(tail, sp, d, n, rest);
  }

  /** Conversely, the word `AUTH-RESP` followed by white space and two numerals that fit
      in 32 bits decodes as the response carrying them. */
  lemma TagAndNumeralsDecode(tail: string, sp0: string, d0: string, r1: string, sp1: string,
                             d1: string, rest: string, n: U32, sig: U32)
    requires sp0 != [] && NumeralAt(tail, sp0, d0, n, r1)
    requires NumeralAt(r1, sp1, d1, sig, rest)
    ensures DecodeAuth(RESP_TAG + tail) == Some(AuthResp(n, sig))
  {
    var s := RESP_TAG + tail;
    TagsArePlain();
    assert tail[0] == sp0[0];
    ScanWord(RESP_TAG, TAG_WIDTH, tail);
    assert s[..|RESP_TAG|] == RESP_TAG && s[|RESP_TAG|..] == tail;
    ScanU32OfNumeral(tail, sp0, d0, n, r1);
    ScanU32OfNumeral(r1, sp1, d1, sig, rest);
  }

  lemma TagsHaveNoNul()
    ensures NoNul(REQ_TAG) && NoNul(RESP_TAG) && NoNul(" ")
  {
  }

  lemma NoNulAppend(a: string, b: string)
    requires NoNul(a) && NoNul(b)
    ensures NoNul(a + b)
  {
    assert forall i :: 0 <= i < |a + b| ==> (a + b)[i] == if i < |a| then a[i] else b[i - |a|];
  }

  lemma ReqFormatFits(n: U32)
    ensures var s := REQ_TAG + " " + ToDecimal(n); |s| < AUTH_SEND_BUFFER && NoNul(s)
  {
    TagsHaveNoNul();
    DecimalIsPlain(n);
    NoNulAppend(REQ_TAG, " ");
    NoNulAppend(REQ_TAG + " ", ToDecimal(n));
  }

  lemma RespFormatFits(n: U32, sig: U32)
    ensures var s := RESP_TAG + " " + ToDecimal(n) + " " + ToDecimal(sig); |s| < AUTH_SEND_BUFFER && NoNul(s)
  {
    TagsHaveNoNul();
    DecimalIsPlain(n);
    DecimalIsPlain(sig);
    NoNulAppend(RESP_TAG, " ");
    NoNulAppend(RESP_TAG + " ", ToDecimal(n));
    NoNulAppend(RESP_TAG + " " + ToDecimal(n), " ");
    NoNulAppend(RESP_TAG + " " + ToDecimal(n) + " ", ToDecimal(sig));
  }

  /** Every challenge and response a node sends is read back by its peer. */
  lemma AuthRoundTrip(m: AuthMsg)
    ensures ReceiveAuth(EncodeAuth(m)) == Some(m)
  {
    CStringOfShort(EncodeAuth(m), RECEIVE_BUFFER);
    DecodeEncodeAuth(m);
  }
}
