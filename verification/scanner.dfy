/** The pieces of the C string library the handlers rely on: fixed buffers ended by NUL,
    and the `%u` and `%15s` conversions of `sscanf`. */
module Scanner {
  import opened Uint
  import opened Options
  import opened Decimal

  /** `isspace` in the C locale: space, tab, newline, vertical tab, form feed, carriage return. */
  predicate IsSpace(c: char) {
    c == ' ' || 9 <= c as int <= 13
  }

  predicate AllSpaces(s: string) {
    forall i :: 0 <= i < |s| ==> IsSpace(s[i])
  }

  predicate NoSpaces(s: string) {
    forall i :: 0 <= i < |s| ==> !IsSpace(s[i])
  }

  predicate NoNul(s: string) {
    forall i :: 0 <= i < |s| ==> s[i] != '\0'
  }

  /** What the string functions see of a buffer: everything before the first NUL. */
  function UpToNul(s: string): (t: string)
    ensures t <= s && NoNul(t)
    ensures |t| < |s| ==> s[|t|] == '\0'
  {
    if s == [] || s[0] == '\0' then [] else [s[0]] + UpToNul(s[1..])
  }

  /** The C string left in a `char buf[size]` after copying `data` into it, cut to
      `size - 1` bytes and terminated by NUL. */
  function CString(data: string, size: nat): (t: string)
    requires size >= 1
    ensures |t| < size && t <= data && NoNul(t)
    ensures |t| < |data| ==> |t| == size - 1 || data[|t|] == '\0'
  {
    UpToNul(if |data| < size then data else data[..size - 1])
  }

  /** Leading white space removed, as every `scanf` conversion except `%c` does first. */
  function SkipSpaces(s: string): (t: string)
    ensures |t| <= |s| && t == s[|s| - |t|..]
    ensures AllSpaces(s[..|s| - |t|])
    ensures t == [] || !IsSpace(t[0])
  {
    if s != [] && IsSpace(s[0]) then SkipSpaces(s[1..]) else s
  }

  /** The length of the run of digits `s` starts with. */
  function DigitRun(s: string): (k: nat)
    ensures k <= |s| && AllDigits(s[..k])
    ensures k == |s| || !IsDigit(s[k])
  {
    if s == [] || !IsDigit(s[0]) then 0
    else
      var k := 1 + DigitRun(s[1..]);
      assert forall i :: 1 <= i < k ==> s[..k][i] == s[1..][..k - 1][i - 1];
      k
  }

  /** The length of the run of non-space characters `s` starts with. */
  function TokenRun(s: string): (k: nat)
    ensures k <= |s| && NoSpaces(s[..k])
    ensures k == |s| || IsSpace(s[k])
  {
    if s == [] || IsSpace(s[0]) then 0
    else
      var k := 1 + TokenRun(s[1..]);
      assert forall i :: 1 <= i < k ==> s[..k][i] == s[1..][..k - 1][i - 1];
      k
  }

  /** One `%u` conversion: optional white space, then the longest run of digits, giving
      its value and the unread rest. Fails when there is no digit, or when the value does
      not fit in 32 bits. */
  function ScanU32(s: string): (r: Option<(U32, string)>)
    ensures r.Some? ==>
      var t := SkipSpaces(s);
      && |r.value.1| < |t|
      && var digits := t[..|t| - |r.value.1|];
      && t == digits + r.value.1
      && AllDigits(digits) && ValueOf(digits) == r.value.0
      && (r.value.1 == [] || !IsDigit(r.value.1[0]))
    ensures r.None? <==>
      var t := SkipSpaces(s);
      t == [] || !IsDigit(t[0]) || ValueOf(t[..DigitRun(t)]) >= TWO_TO_THE_32
  {
    ScanNumeral(SkipSpaces(s))
  }

  /** The numeral `t` starts with, once the white space is skipped. */
  function ScanNumeral(t: string): (r: Option<(U32, string)>)
    ensures r.Some? ==>
      && |r.value.1| < |t|
      && var digits := t[..|t| - |r.value.1|];
      && t == digits + r.value.1
      && AllDigits(digits) && ValueOf(digits) == r.value.0
      && (r.value.1 == [] || !IsDigit(r.value.1[0]))
    ensures r.None? <==> t == [] || !IsDigit(t[0]) || ValueOf(t[..DigitRun(t)]) >= TWO_TO_THE_32
  {
    var k := DigitRun(t);
    if k == 0 then None
    else
      DigitSplit(t, k);
      var v := ValueOf(t[..k]);
      if v < TWO_TO_THE_32 then Some((v, t[k..])) else None
  }

  /** `s` is the white space `sp`, then the numeral `d` of value `v`, then `rest`, which
      does not go on with another digit: what one `%u` conversion consumes and leaves. */
  predicate NumeralAt(s: string, sp: string, d: string, v: nat, rest: string) {
    && s == sp + d + rest
    && AllSpaces(sp)
    && d != [] && AllDigits(d) && ValueOf(d) == v
    && (rest == [] || !IsDigit(rest[0]))
  }

  /** What `%u` returns is read from the text: white space, a numeral of that value, and
      the rest. */
  lemma ScanU32Split(s: string) returns (sp: string, d: string)
    requires ScanU32(s).Some?
    ensures NumeralAt(s, sp, d, ScanU32(s).value.0, ScanU32(s).value.1)
  {
    var t := SkipSpaces(s);
    var rest := ScanU32(s).value.1;
    sp := s[..|s| - |t|];
    d := t[..|t| - |rest|];
    assert t == d + rest && d != [] && AllDigits(d) && ValueOf(d) == ScanU32(s).value.0;
    SplitBefore(s, t, d, rest);
  }

  /** `s` cut where its suffix `t = d + rest` starts. */
  lemma SplitBefore(s: string, t: string, d: string, rest: string)
    requires |t| <= |s| && t == s[|s| - |t|..] && t == d + rest
    ensures s == s[..|s| - |t|] + d + rest
  {
    assert s == s[..|s| - |t|] + t;
  }

  /** Conversely, `%u` reads any numeral that fits in 32 bits after white space. */
  lemma ScanU32OfNumeral(s: string, sp: string, d: string, v: U32, rest: string)
    requires NumeralAt(s, sp, d, v, rest)
    ensures ScanU32(s) == Some((v, rest))
  {
    assert s == sp + (d + rest);
    assert (d + rest)[0] == d[0];
    SkipSpacesPrefix(sp, d + rest);
    DigitRunPrefix(d, rest);
    assert (d + rest)[..|d|] == d;
    assert (d + rest)[|d|..] == rest;
  }

  /** A numeral of `k` digits at the head of `t`, and the text after it. */
  lemma DigitSplit(t: string, k: nat)
    requires 0 < k <= |t| && AllDigits(t[..k]) && (k == |t| || !IsDigit(t[k]))
    ensures IsDigit(t[0])
    ensures var rest := t[k..];
      && t[..|t| - |rest|] == t[..k] && t == t[..k] + rest
      && (rest == [] || !IsDigit(rest[0]))
  {
    assert t[..k][0] == t[0];
  }

  /** One `%<width>s` conversion: optional white space, then at most `width` characters
      of the next white-space-delimited token. Fails on a string of white space only. */
  function ScanToken(s: string, width: nat): (r: Option<string>)
    requires width >= 1
    ensures r.Some? ==> 1 <= |r.value| <= width && NoSpaces(r.value)
    ensures r.None? <==> AllSpaces(s)
    ensures r.Some? ==>
      var t := SkipSpaces(s);
      && r.value <= t
      && (|r.value| == width || |r.value| == |t| || IsSpace(t[|r.value|]))
  {
    var t := SkipSpaces(s);
    assert t == [] ==> s[..|s|] == s;
    assert t != [] ==> t[0] == s[|s| - |t|];
    var k := TokenRun(t);
    if k == 0 then None
    else
      var n := if k <= width then k else width;
      ShorterToken(t, k, n);
      Some(t[..n])
  }

  /** Cutting a token shorter leaves a token. */
  lemma ShorterToken(t: string, k: nat, n: nat)
    requires n <= k <= |t| && NoSpaces(t[..k])
    ensures NoSpaces(t[..n])
  {
    assert forall i :: 0 <= i < n ==> t[..n][i] == t[..k][i];
  }

  // Lemmas for reading back what the encoders write.

  lemma {:induction false} UpToNulOfNoNul(s: string)
    requires NoNul(s)
    ensures UpToNul(s) == s
  {
    if s != [] {
      UpToNulOfNoNul(s[1..]);
      assert [s[0]] + s[1..] == s;
    }
  }

  /** A short NUL-free datagram survives the receive buffer unchanged. */
  lemma CStringOfShort(data: string, size: nat)
    requires size >= 1 && |data| < size && NoNul(data)
    ensures CString(data, size) == data
  {
    UpToNulOfNoNul(data);
  }

  lemma {:induction false} SkipSpacesPrefix(sp: string, t: string)
    requires AllSpaces(sp)
    requires t == [] || !IsSpace(t[0])
    ensures SkipSpaces(sp + t) == t
  {
    if sp == [] {
      assert sp + t == t;
    } else {
      assert (sp + t)[1..] == sp[1..] + t;
      SkipSpacesPrefix(sp[1..], t);
    }
  }

  lemma {:induction false} DigitRunPrefix(d: string, rest: string)
    requires AllDigits(d)
    requires rest == [] || !IsDigit(rest[0])
    ensures DigitRun(d + rest) == |d|
  {
    if d == [] {
      assert d + rest == rest;
    } else {
      assert (d + rest)[1..] == d[1..] + rest;
      DigitRunPrefix(d[1..], rest);
    }
  }

  lemma {:induction false} TokenRunPrefix(w: string, rest: string)
    requires NoSpaces(w)
    requires rest == [] || IsSpace(rest[0])
    ensures TokenRun(w + rest) == |w|
  {
    if w == [] {
      assert w + rest == rest;
    } else {
      assert (w + rest)[1..] == w[1..] + rest;
      TokenRunPrefix(w[1..], rest);
    }
  }

  /** `%u` reads back what `%u` printed, stopping where the numeral ends. */
  lemma ScanDecimal(sp: string, n: U32, rest: string)
    requires AllSpaces(sp)
    requires rest == [] || !IsDigit(rest[0])
    ensures ScanU32(sp + ToDecimal(n) + rest) == Some((n, rest))
  {
    var d := ToDecimal(n);
    assert sp + d + rest == sp + (d + rest);
    SkipSpacesPrefix(sp, d + rest);
    DigitRunPrefix(d, rest);
    assert (d + rest)[..|d|] == d;
    assert (d + rest)[|d|..] == rest;
  }

  /** `%s` reads back a token that a space or the end of the string follows. */
  lemma ScanWord(w: string, width: nat, rest: string)
    requires 1 <= |w| <= width && NoSpaces(w)
    requires rest == [] || IsSpace(rest[0])
    ensures ScanToken(w + rest, width) == Some(w)
  {
    SkipSpacesPrefix([], w + rest);
    assert [] + (w + rest) == w + rest;
    TokenRunPrefix(w, rest);
    assert (w + rest)[..|w|] == w;
  }
}
