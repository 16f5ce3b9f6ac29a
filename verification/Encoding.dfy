/**
 The text forms of repository ids and content addresses: lower-case base16
 (section 8 of RFC 4648), read back in either case. A string here holds one
 character for each byte of the Go string.
 */
module Encoding {
  import opened GoStrings
  import opened Tables
  import opened ResourceIds

  type Byte = b: int | 0 <= b < 256

  const ID_BYTES := 16
  const HASH_BYTES := 32
  const CTX_BYTES := 16
  const ADDR_STR_LEN := 97

  datatype Address = Address(hash: seq<Byte>, ctx: seq<Byte>)

  datatype CodecError =
    | NilAddress | HashBytes(got: nat) | ContextBytes(got: nat)
    | TextLength(want: nat, got: nat) | Separator(at: int) | HashDigits | ContextDigits | IdDigits

  // ---------- base16 ----------

  function HexDigit(v: int): char
    requires 0 <= v < 16
  {
    if v < 10 then ('0' as int + v) as char else ('a' as int + (v - 10)) as char
  }

  function DigitValue(c: char): (r: Option<int>)
    ensures r.Some? ==> 0 <= r.value < 16
  {
    if '0' <= c <= '9' then Some(c as int - '0' as int)
    else if 'a' <= c <= 'f' then Some(c as int - 'a' as int + 10)
    else if 'A' <= c <= 'F' then Some(c as int - 'A' as int + 10)
    else None
  }

  predicate HexDigits(s: string) {
    forall i | 0 <= i < |s| :: DigitValue(s[i]).Some?
  }

  function HexPair(v: Byte): string {
    [HexDigit(v / 16), HexDigit(v % 16)]
  }

  function EncodeHex(b: seq<Byte>): string {
    if b == [] then "" else HexPair(b[0]) + EncodeHex(b[1..])
  }

  /** None for an odd length or anything but hex digits. */
  function DecodeHex(s: string): Option<seq<Byte>> {
    if s == "" then Some([])
    else if |s| == 1 || DigitValue(s[0]).None? || DigitValue(s[1]).None? then None
    else
      match DecodeHex(s[2..])
      case None => None
      case Some(rest) => Some([DigitValue(s[0]).value * 16 + DigitValue(s[1]).value] + rest)
  }

  lemma DigitOf(v: int)
    requires 0 <= v < 16
    ensures DigitValue(HexDigit(v)) == Some(v) && HexChar(HexDigit(v))
  {
  }

  /** Each value's digit is its numeral, read in either case; no other character is a digit. */
  lemma DigitsAreNumerals(v: int, c: char)
    requires 0 <= v < 16
    ensures HexDigit(v) == "0123456789abcdef"[v]
    ensures DigitValue("0123456789abcdef"[v]) == Some(v) && DigitValue("0123456789ABCDEF"[v]) == Some(v)
    ensures DigitValue(c).Some? ==>
              c == "0123456789abcdef"[DigitValue(c).value] || c == "0123456789ABCDEF"[DigitValue(c).value]
  {
  }

  /** Each byte of a text is its own two digits, the higher one first. */
  lemma {:induction false} ByteByByte(s: string, i: nat)
    requires HexDigits(s) && |s| % 2 == 0 && 2 * i + 1 < |s|
    ensures DecodeHex(s).Some? && |DecodeHex(s).value| == |s| / 2
    ensures DecodeHex(s).value[i] == 16 * DigitValue(s[2 * i]).value + DigitValue(s[2 * i + 1]).value
  {
    if i > 0 {
      ByteByByte(s[2..], i - 1);
    } else {
      DecodeAcceptsDigits(s);
    }
  }

  lemma LowerIsDigit(c: char)
    requires DigitValue(c).Some?
    ensures HexDigit(DigitValue(c).value) == Lower(c)
  {
  }

  lemma DecodePair(v: Byte, rest: string)
    requires DecodeHex(rest).Some?
    ensures AllHex(HexPair(v)) && DecodeHex(HexPair(v) + rest) == Some([v] + DecodeHex(rest).value)
  {
    DigitOf(v / 16);
    DigitOf(v % 16);
    assert (HexPair(v) + rest)[2..] == rest;
  }

  /** Decoding undoes encoding, and every encoding is in lower case. */
  lemma {:induction false} DecodeUndoesEncode(b: seq<Byte>)
    ensures DecodeHex(EncodeHex(b)) == Some(b) && |EncodeHex(b)| == 2 * |b| && AllHex(EncodeHex(b))
  {
    if b != [] {
      DecodeUndoesEncode(b[1..]);
      DecodePair(b[0], EncodeHex(b[1..]));
      assert b == [b[0]] + b[1..];
    }
  }

  lemma HexDigitsPair(s: string)
    requires |s| >= 2
    ensures HexDigits(s) <==> DigitValue(s[0]).Some? && DigitValue(s[1]).Some? && HexDigits(s[2..])
  {
    assert forall i | 2 <= i < |s| :: s[i] == s[2..][i - 2];
    assert forall i | 0 <= i < |s| - 2 :: s[2..][i] == s[i + 2];
  }

  lemma {:induction false} DecodeAcceptsDigits(s: string)
    ensures DecodeHex(s).Some? <==> |s| % 2 == 0 && HexDigits(s)
    ensures DecodeHex(s).Some? ==> 2 * |DecodeHex(s).value| == |s|
  {
    if |s| >= 2 {
      DecodeAcceptsDigits(s[2..]);
      HexDigitsPair(s);
    }
  }

  lemma EncodePair(c: char, d: char)
    requires DigitValue(c).Some? && DigitValue(d).Some?
    ensures var v := DigitValue(c).value * 16 + DigitValue(d).value;
            HexPair(v) == [Lower(c), Lower(d)]
  {
    LowerIsDigit(c);
    LowerIsDigit(d);
    var hi, lo := DigitValue(c).value, DigitValue(d).value;
    assert (hi * 16 + lo) / 16 == hi && (hi * 16 + lo) % 16 == lo;
  }

  lemma ToLowerPair(s: string)
    requires |s| >= 2
    ensures ToLower(s) == [Lower(s[0]), Lower(s[1])] + ToLower(s[2..])
  {
  }

  lemma EncodeCons(v: Byte, rest: seq<Byte>)
    ensures EncodeHex([v] + rest) == HexPair(v) + EncodeHex(rest)
  {
    assert ([v] + rest)[1..] == rest;
  }

  /** Encoding what was decoded gives the text again, in lower case. */
  lemma {:induction false} EncodeLowercases(s: string)
    requires DecodeHex(s).Some?
    ensures EncodeHex(DecodeHex(s).value) == ToLower(s)
  {
    if s != "" {
      EncodeLowercases(s[2..]);
      EncodePair(s[0], s[1]);
      ToLowerPair(s);
      EncodeCons(DigitValue(s[0]).value * 16 + DigitValue(s[1]).value, DecodeHex(s[2..]).value);
    }
  }

  lemma {:induction false} EncodeConcat(a: seq<Byte>, b: seq<Byte>)
    ensures EncodeHex(a + b) == EncodeHex(a) + EncodeHex(b)
  {
    if a == [] {
      assert a + b == b;
    } else {
      EncodeConcat(a[1..], b);
      calc {
        EncodeHex(a + b);
        { EncodeCons(a[0], a[1..] + b); assert a + b == [a[0]] + (a[1..] + b); }
        HexPair(a[0]) + EncodeHex(a[1..] + b);
        HexPair(a[0]) + (EncodeHex(a[1..]) + EncodeHex(b));
        (HexPair(a[0]) + EncodeHex(a[1..])) + EncodeHex(b);
        EncodeHex(a) + EncodeHex(b);
      }
    }
  }

  // ---------- repository ids ----------

  function IdToHex(id: seq<Byte>): string
    requires |id| == ID_BYTES
  {
    EncodeHex(id)
  }

  function ParseId(s: string): Result<seq<Byte>, CodecError> {
    if |s| != 2 * ID_BYTES then Err(TextLength(2 * ID_BYTES, |s|))
    else
      match DecodeHex(s)
      case None => Err(IdDigits)
      case Some(raw) => Ok(raw)
  }

  lemma ParseIdUndoesIdToHex(id: seq<Byte>)
    requires |id| == ID_BYTES
    ensures ParseId(IdToHex(id)) == Ok(id)
  {
    DecodeUndoesEncode(id);
  }

  lemma IdToHexLowercases(s: string)
    ensures ParseId(s).Ok? <==> |s| == 32 && HexDigits(s)
    ensures ParseId(s).Ok? ==> |ParseId(s).value| == ID_BYTES && IdToHex(ParseId(s).value) == ToLower(s)
  {
    DecodeAcceptsDigits(s);
    if ParseId(s).Ok? { EncodeLowercases(s); }
  }

  // ---------- addresses ----------

  /** The position of the first `c`, or -1. */
  function IndexByte(s: string, c: char): int {
    if s == "" then -1
    else if s[0] == c then 0
    else
      var rest := IndexByte(s[1..], c);
      if rest < 0 then -1 else rest + 1
  }

  lemma {:induction false} IndexByteIsFirst(s: string, c: char)
    ensures var i := IndexByte(s, c);
            if i < 0 then i == -1 && c !in s else i < |s| && s[i] == c && c !in s[..i]
  {
    if s != "" && s[0] != c {
      IndexByteIsFirst(s[1..], c);
      var i := IndexByte(s, c);
      assert s == [s[0]] + s[1..];
      if i >= 0 { assert s[..i] == [s[0]] + s[1..][..i - 1]; }
    }
  }

  /** None is the nil pointer. */
  function AddressString(addr: Option<Address>): Result<string, CodecError> {
    match addr
    case None => Err(NilAddress)
    case Some(a) =>
      if |a.hash| != HASH_BYTES then Err(HashBytes(|a.hash|))
      else if |a.ctx| != CTX_BYTES then Err(ContextBytes(|a.ctx|))
      else Ok(EncodeHex(a.hash) + "-" + EncodeHex(a.ctx))
  }

  function ParseAddress(s: string): Result<Address, CodecError> {
    if |s| != ADDR_STR_LEN then Err(TextLength(ADDR_STR_LEN, |s|))
    else
      var sep := IndexByte(s, '-');
      if sep != 2 * HASH_BYTES then Err(Separator(sep))
      else
        match DecodeHex(s[..sep])
        case None => Err(HashDigits)
        case Some(hash) =>
          match DecodeHex(s[sep + 1..])
          case None => Err(ContextDigits)
          case Some(ctx) => Ok(Address(hash, ctx))
  }

  function AddressBytes(addr: Option<Address>): Result<seq<Byte>, CodecError> {
    match addr
    case None => Err(NilAddress)
    case Some(a) =>
      if |a.hash| != HASH_BYTES then Err(HashBytes(|a.hash|))
      else if |a.ctx| != CTX_BYTES then Err(ContextBytes(|a.ctx|))
      else Ok(a.hash + a.ctx)
  }

  predicate WellFormed(a: Address) {
    |a.hash| == HASH_BYTES && |a.ctx| == CTX_BYTES
  }

  predicate AddressText(s: string) {
    |s| == 97 && HexDigits(s[..64]) && s[64] == '-' && HexDigits(s[65..])
  }

  lemma DashPosition(s: string)
    requires |s| == 97 && HexDigits(s[..64])
    ensures IndexByte(s, '-') == 64 <==> s[64] == '-'
  {
    IndexByteIsFirst(s, '-');
    var i := IndexByte(s, '-');
    assert i > 64 ==> s[64] in s[..i];
  }

  /** The accepted texts are exactly 64 hex digits, a dash and 32 hex digits, and they give well-formed addresses. */
  lemma ParseAddressAcceptsExactly(s: string)
    ensures ParseAddress(s).Ok? <==> AddressText(s)
    ensures ParseAddress(s).Ok? ==> WellFormed(ParseAddress(s).value)
  {
    IndexByteIsFirst(s, '-');
    if |s| == 97 {
      DecodeAcceptsDigits(s[..64]);
      DecodeAcceptsDigits(s[65..]);
    }
    if AddressText(s) { DashPosition(s); }
  }

  /** Parsing undoes printing, for every address that prints. */
  lemma ParseUndoesPrint(a: Address)
    ensures AddressString(Some(a)).Ok? <==> WellFormed(a)
    ensures WellFormed(a) ==> ParseAddress(AddressString(Some(a)).value) == Ok(a)
  {
    if WellFormed(a) {
      DecodeUndoesEncode(a.hash);
      DecodeUndoesEncode(a.ctx);
      var s := AddressString(Some(a)).value;
      DecodeAcceptsDigits(s[..64]);
      assert s[..64] == EncodeHex(a.hash) && s[65..] == EncodeHex(a.ctx) && s[64] == '-';
      DashPosition(s);
    }
  }

  /** Printing what was parsed gives the text again, in lower case. */
  lemma PrintLowercases(s: string)
    requires ParseAddress(s).Ok?
    ensures AddressString(Some(ParseAddress(s).value)) == Ok(ToLower(s))
  {
    ParseAddressAcceptsExactly(s);
    DashPosition(s);
    EncodeLowercases(s[..64]);
    EncodeLowercases(s[65..]);
    assert ToLower(s) == ToLower(s[..64]) + "-" + ToLower(s[65..]);
  }

  /** What is wrong with an address is told in order: it is nil, its hash, its context. */
  lemma AddressErrors(addr: Option<Address>)
    ensures AddressString(addr) == Err(NilAddress) <==> addr == None
    ensures addr.Some? ==>
              && (forall n :: AddressString(addr) == Err(HashBytes(n)) <==> |addr.value.hash| == n && n != 32)
              && (forall n :: AddressString(addr) == Err(ContextBytes(n))
                              <==> |addr.value.hash| == 32 && |addr.value.ctx| == n && n != 16)
  {
  }

  /** And with a text: its length, where its first dash is, the hash's digits, the context's. */
  lemma AddressTextErrors(s: string)
    ensures forall n :: ParseAddress(s) == Err(TextLength(97, n)) <==> |s| == n && n != 97
    ensures forall at :: ParseAddress(s) == Err(Separator(at)) <==> |s| == 97 && IndexByte(s, '-') == at && at != 64
    ensures |s| == 97 && IndexByte(s, '-') == 64 ==>
              && (ParseAddress(s) == Err(HashDigits) <==> !HexDigits(s[..64]))
              && (ParseAddress(s) == Err(ContextDigits) <==> HexDigits(s[..64]) && !HexDigits(s[65..]))
  {
    if |s| == 97 {
      DecodeAcceptsDigits(s[..64]);
      DecodeAcceptsDigits(s[65..]);
    }
  }

  /** And with an id: its length, then its digits. */
  lemma IdErrors(s: string)
    ensures forall n :: ParseId(s) == Err(TextLength(32, n)) <==> |s| == n && n != 32
    ensures ParseId(s) == Err(IdDigits) <==> |s| == 32 && !HexDigits(s)
  {
    DecodeAcceptsDigits(s);
  }

  /** The wire form fails just as the text form does, and is the text form's bytes, which split back. */
  lemma WireAgreesWithText(addr: Option<Address>)
    ensures AddressBytes(addr).Err? <==> AddressString(addr).Err?
    ensures AddressBytes(addr).Err? ==> AddressBytes(addr).error == AddressString(addr).error
    ensures AddressBytes(addr).Ok? ==>
              var (bytes, text) := (AddressBytes(addr).value, AddressString(addr).value);
              && |bytes| == 48 && |text| == 97
              && addr == Some(Address(bytes[..32], bytes[32..]))
              && text[..64] + text[65..] == EncodeHex(bytes)
              && DecodeHex(text[..64] + text[65..]) == Some(bytes)
  {
    if AddressBytes(addr).Ok? {
      var bytes, text := AddressBytes(addr).value, AddressString(addr).value;
      assert bytes[..32] == addr.value.hash && bytes[32..] == addr.value.ctx;
      DecodeUndoesEncode(addr.value.hash);
      DecodeUndoesEncode(addr.value.ctx);
      EncodeConcat(addr.value.hash, addr.value.ctx);
      assert text[..64] == EncodeHex(addr.value.hash) && text[65..] == EncodeHex(addr.value.ctx);
      DecodeUndoesEncode(bytes);
    }
  }

  // ---------- ids and resource ids ----------

  /** The resource AuthzToken asks a token for. */
  function AuthzResource(id: seq<Byte>): string
    requires |id| == ID_BYTES
  {
    PREFIX + IdToHex(id)
  }

  lemma LowerHexKeepsEnds(s: string)
    requires s != "" && HexDigits(s)
    ensures Trimmed(s) && Trimmed(PREFIX + s)
    ensures !(PREFIX <= ToLower(s))
  {
    var _ := DigitValue(s[0]);
    var _ := DigitValue(s[|s| - 1]);
    assert PREFIX[0] == 'u';
    assert ToLower(s)[0] == Lower(s[0]) != 'u';
  }

  lemma LowerHexNormalizes(s: string)
    requires |s| == 32 && HexDigits(s) && AllHex(ToLower(s))
    ensures NormalizeResourceId(s) == Some(PREFIX + ToLower(s))
    ensures NormalizeResourceId(PREFIX + s) == Some(PREFIX + ToLower(s))
  {
    LowerHexKeepsEnds(s);
    TrimSpaceTrims(s);
    TrimSpaceTrims(PREFIX + s);
    LowerPrefixed(s);
  }

  lemma LowerPrefixed(s: string)
    ensures ToLower(PREFIX + s) == PREFIX + ToLower(s)
    ensures TrimPrefix(PREFIX + ToLower(s), PREFIX) == ToLower(s)
  {
  }

  /** Both spellings of an id register the resource AuthzToken asks for, whatever their case. */
  lemma SpellingsNormalizeAlike(s: string)
    requires ParseId(s).Ok?
    ensures |ParseId(s).value| == ID_BYTES
    ensures NormalizeResourceId(s) == Some(AuthzResource(ParseId(s).value))
    ensures NormalizeResourceId(PREFIX + s) == Some(AuthzResource(ParseId(s).value))
  {
    IdToHexLowercases(s);
    DecodeUndoesEncode(ParseId(s).value);
    LowerHexNormalizes(s);
  }

  /** IdToHex's own output, with and without the prefix. */
  lemma PrintedIdsNormalize(id: seq<Byte>)
    requires |id| == ID_BYTES
    ensures NormalizeResourceId(IdToHex(id)) == Some(AuthzResource(id))
    ensures NormalizeResourceId(AuthzResource(id)) == Some(AuthzResource(id))
  {
    ParseIdUndoesIdToHex(id);
    SpellingsNormalizeAlike(IdToHex(id));
  }

  /** The ids a resource row can have are exactly the ones AuthzToken can ask for. */
  lemma CanonicalIffAuthzResource(r: string)
    ensures Canonical(r) <==> exists id: seq<Byte> :: |id| == ID_BYTES && r == AuthzResource(id)
  {
    if Canonical(r) {
      var s := r[4..];
      assert forall i | 0 <= i < |s| :: HexChar(s[i]);
      IdToHexLowercases(s);
      assert ToLower(s) == s;
      assert r == r[..4] + r[4..];
      assert r == AuthzResource(ParseId(s).value);
    }
    forall id: seq<Byte> | |id| == ID_BYTES && r == AuthzResource(id) ensures Canonical(r) {
      PrintedIdsNormalize(id);
    }
  }
}
