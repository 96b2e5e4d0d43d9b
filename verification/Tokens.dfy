/**
 API tokens and web session values: how they are printed and parsed.

 The encodings are base16 and the URL-safe base64 alphabet without padding, sections 8 and 5 of
 RFC 4648. A byte is a number below 256.
 */
module Tokens {

  import opened Wrappers
  import Text
  import opened Sorting

  type Byte = b: nat | b < 256

  // ---------- base16 ----------

  function HexDigit(n: nat): char
    requires n < 16
  {
    if n < 10 then '0' + n as char else 'a' + (n - 10) as char
  }

  function HexValue(c: char): Option<nat> {
    if '0' <= c <= '9' then Some((c - '0') as nat)
    else if 'a' <= c <= 'f' then Some((c - 'a') as nat + 10)
    else if 'A' <= c <= 'F' then Some((c - 'A') as nat + 10)
    else None
  }

  function EncodeHex(bytes: seq<Byte>): string {
    if bytes == [] then ""
    else EncodeHex(bytes[..|bytes| - 1]) + [HexDigit(bytes[|bytes| - 1] / 16), HexDigit(bytes[|bytes| - 1] % 16)]
  }

  function DecodeHex(s: string): Option<seq<Byte>> {
    if s == "" then Some([])
    else if |s| == 1 then None
    else
      var n := |s| - 2;
      var front, hi, lo := DecodeHex(s[..n]), HexValue(s[n]), HexValue(s[n + 1]);
      if front.None? || hi.None? || lo.None? then None
      else Pair(front.value, hi.value, lo.value)
  }

  function Pair(front: seq<Byte>, hi: nat, lo: nat): Option<seq<Byte>> {
    if hi < 16 && lo < 16 then Some(front + [hi * 16 + lo]) else None
  }

  lemma HexDigitValue(n: nat)
    requires n < 16
    ensures HexValue(HexDigit(n)) == Some(n) && HexDigit(n) != '_'
  {
  }

  // Decoding undoes encoding, and no underscore is ever written.
  lemma {:induction false} HexRoundTrip(bytes: seq<Byte>)
    ensures DecodeHex(EncodeHex(bytes)) == Some(bytes)
    ensures |EncodeHex(bytes)| == 2 * |bytes| && '_' !in EncodeHex(bytes)
  {
    if bytes != [] {
      var n := |bytes| - 1;
      var b := bytes[n];
      HexRoundTrip(bytes[..n]);
      HexDigitValue(b / 16);
      HexDigitValue(b % 16);
      var front, s := EncodeHex(bytes[..n]), EncodeHex(bytes);
      assert s[..|s| - 2] == front;
      assert bytes == bytes[..n] + [b];
    }
  }

  // ---------- base64 ----------

  function Digit(n: nat): char
    requires n < 64
  {
    if n < 26 then 'A' + n as char
    else if n < 52 then 'a' + (n - 26) as char
    else if n < 62 then '0' + (n - 52) as char
    else if n == 62 then '-' else '_'
  }

  function Value(c: char): (v: Option<nat>)
    ensures v.Some? ==> v.value < 64
  {
    if 'A' <= c <= 'Z' then Some((c - 'A') as nat)
    else if 'a' <= c <= 'z' then Some((c - 'a') as nat + 26)
    else if '0' <= c <= '9' then Some((c - '0') as nat + 52)
    else if c == '-' then Some(62)
    else if c == '_' then Some(63)
    else None
  }

  predicate Small(ds: seq<nat>) {
    forall i | 0 <= i < |ds| :: ds[i] < 64
  }

  // The four digits of a group of three bytes.
  function First(a: Byte): (d: nat)
    ensures d < 64
  {
    a / 4
  }

  function Second(a: Byte, b: Byte): (d: nat)
    ensures d < 64
  {
    a % 4 * 16 + b / 16
  }

  function Third(b: Byte, c: Byte): (d: nat)
    ensures d < 64
  {
    b % 16 * 4 + c / 64
  }

  function Fourth(c: Byte): (d: nat)
    ensures d < 64
  {
    c % 64
  }

  // One or two bytes left over are padded with zero bits and make two or three digits.
  function DigitsOf(bytes: seq<Byte>): (ds: seq<nat>)
    ensures Small(ds)
  {
    if bytes == [] then []
    else if |bytes| == 1 then [First(bytes[0]), Second(bytes[0], 0)]
    else if |bytes| == 2 then [First(bytes[0]), Second(bytes[0], bytes[1]), Third(bytes[1], 0)]
    else
      [First(bytes[0]), Second(bytes[0], bytes[1]), Third(bytes[1], bytes[2]), Fourth(bytes[2])] + DigitsOf(bytes[3..])
  }

  function Spell(ds: seq<nat>): string
    requires Small(ds)
  {
    seq(|ds|, i requires 0 <= i < |ds| => Digit(ds[i]))
  }

  function Encode64(bytes: seq<Byte>): string {
    Spell(DigitsOf(bytes))
  }

  // The digits of a text, line breaks skipped.
  function Digits(s: string): Option<seq<nat>> {
    if s == "" then Some([])
    else if s[0] == '\r' || s[0] == '\n' then Digits(s[1..])
    else
      var rest := Digits(s[1..]);
      if Value(s[0]).None? || rest.None? then None else Some([Value(s[0]).value] + rest.value)
  }

  // The three bytes of a group of four digits.
  function ByteOne(d0: nat, d1: nat): Byte
    requires d0 < 64 && d1 < 64
  {
    d0 * 4 + d1 / 16
  }

  function ByteTwo(d1: nat, d2: nat): Byte
    requires d1 < 64 && d2 < 64
  {
    d1 % 16 * 16 + d2 / 4
  }

  function ByteThree(d2: nat, d3: nat): Byte
    requires d2 < 64 && d3 < 64
  {
    d2 % 4 * 64 + d3
  }

  // Surplus bits of the last digit are ignored; a single digit left over is an error.
  function Bytes(ds: seq<nat>): Option<seq<Byte>>
    requires Small(ds)
  {
    if ds == [] then Some([])
    else if |ds| == 1 then None
    else if |ds| == 2 then Some([ByteOne(ds[0], ds[1])])
    else if |ds| == 3 then Some([ByteOne(ds[0], ds[1]), ByteTwo(ds[1], ds[2])])
    else
      var rest := Bytes(ds[4..]);
      if rest.None? then None
      else Some([ByteOne(ds[0], ds[1]), ByteTwo(ds[1], ds[2]), ByteThree(ds[2], ds[3])] + rest.value)
  }

  lemma {:induction false} DigitsAreSmall(s: string)
    ensures Digits(s).Some? ==> Small(Digits(s).value)
  {
    if s != "" {
      DigitsAreSmall(s[1..]);
    }
  }

  function Decode64(s: string): Option<seq<Byte>> {
    DigitsAreSmall(s);
    if Digits(s).None? then None else Bytes(Digits(s).value)
  }

  lemma DigitValue(n: nat)
    requires n < 64
    ensures Value(Digit(n)) == Some(n) && Digit(n) != '\r' && Digit(n) != '\n'
  {
  }

  lemma {:induction false} SpellReads(ds: seq<nat>)
    requires Small(ds)
    ensures Digits(Spell(ds)) == Some(ds)
  {
    if ds != [] {
      DigitValue(ds[0]);
      SpellReads(ds[1..]);
      assert Spell(ds)[1..] == Spell(ds[1..]);
      assert ds == [ds[0]] + ds[1..];
    }
  }

  // The digits of a group hold its bytes.
  lemma GroupHolds(a: Byte, b: Byte, c: Byte)
    ensures ByteOne(First(a), Second(a, b)) == a
    ensures ByteTwo(Second(a, b), Third(b, c)) == b
    ensures ByteThree(Third(b, c), Fourth(c)) == c
  {
    assert Second(a, b) / 16 == a % 4 && Second(a, b) % 16 == b / 16;
    assert Third(b, c) / 4 == b % 16 && Third(b, c) % 4 == c / 64;
  }

  lemma BytesOfTwo(d0: nat, d1: nat, a: Byte)
    requires d0 < 64 && d1 < 64 && ByteOne(d0, d1) == a
    ensures Bytes([d0, d1]) == Some([a])
  {
  }

  lemma BytesOfThree(d0: nat, d1: nat, d2: nat, a: Byte, b: Byte)
    requires d0 < 64 && d1 < 64 && d2 < 64 && ByteOne(d0, d1) == a && ByteTwo(d1, d2) == b
    ensures Bytes([d0, d1, d2]) == Some([a, b])
  {
  }

  lemma BytesOfFour(d0: nat, d1: nat, d2: nat, d3: nat, a: Byte, b: Byte, c: Byte, ds: seq<nat>, rest: seq<Byte>)
    requires d0 < 64 && d1 < 64 && d2 < 64 && d3 < 64 && Small(ds) && Bytes(ds) == Some(rest)
    requires ByteOne(d0, d1) == a && ByteTwo(d1, d2) == b && ByteThree(d2, d3) == c
    ensures Small([d0, d1, d2, d3] + ds) && Bytes([d0, d1, d2, d3] + ds) == Some([a, b, c] + rest)
  {
    var all := [d0, d1, d2, d3] + ds;
    assert all[4..] == ds;
  }

  lemma {:induction false} DigitsCarryBytes(bytes: seq<Byte>)
    ensures Bytes(DigitsOf(bytes)) == Some(bytes)
    decreases |bytes|
  {
    if |bytes| == 1 {
      var a := bytes[0];
      assert bytes == [a];
      GroupHolds(a, 0, 0);
      BytesOfTwo(First(a), Second(a, 0), a);
    } else if |bytes| == 2 {
      var a, b := bytes[0], bytes[1];
      assert bytes == [a, b];
      GroupHolds(a, b, 0);
      BytesOfThree(First(a), Second(a, b), Third(b, 0), a, b);
    } else if |bytes| > 2 {
      var a, b, c, rest := bytes[0], bytes[1], bytes[2], bytes[3..];
      assert bytes == [a, b, c] + rest;
      DigitsCarryBytes(rest);
      GroupHolds(a, b, c);
      BytesOfFour(First(a), Second(a, b), Third(b, c), Fourth(c), a, b, c, DigitsOf(rest), rest);
    }
  }

  // Decoding undoes encoding for every sequence of bytes.
  lemma Base64RoundTrip(bytes: seq<Byte>)
    ensures Decode64(Encode64(bytes)) == Some(bytes)
  {
    SpellReads(DigitsOf(bytes));
    DigitsCarryBytes(bytes);
  }

  lemma {:induction false} Base64Length(bytes: seq<Byte>)
    ensures |Encode64(bytes)| == (4 * |bytes| + 2) / 3
    decreases |bytes|
  {
    if |bytes| > 2 {
      Base64Length(bytes[3..]);
    }
  }

  // ---------- the alphabets ----------

  const HEX := "0123456789abcdef"
  const OTHERS := "0123456789-_"

  // The digits are those of the two alphabets, in their order.
  lemma HexIsStandard(n: nat)
    requires n < 16
    ensures |HEX| == 16 && HexDigit(n) == HEX[n]
  {
  }

  lemma CapitalsFirst(n: nat)
    requires n < 26
    ensures |Text.CAPITALS| == 26 && Digit(n) == Text.CAPITALS[n]
  {
  }

  lemma SmallsNext(n: nat)
    requires n < 26
    ensures |Text.SMALLS| == 26 && Digit(26 + n) == Text.SMALLS[n]
  {
  }

  lemma OthersLast(n: nat)
    requires n < 12
    ensures |OTHERS| == 12 && Digit(52 + n) == OTHERS[n]
  {
  }

  lemma AlphabetsAreStandard(n: nat)
    requires n < 64
    ensures n < 16 ==> HexDigit(n) == HEX[n]
    ensures Digit(n) == if n < 26 then Text.CAPITALS[n] else if n < 52 then Text.SMALLS[n - 26] else OTHERS[n - 52]
  {
    if n < 16 {
      HexIsStandard(n);
    }
    if n < 26 {
      CapitalsFirst(n);
    } else if n < 52 {
      SmallsNext(n - 26);
    } else {
      OthersLast(n - 52);
    }
  }

  // Reading a digit: its place in the alphabet; base16 is read in either case.
  lemma DigitsAreStandard(c: char, n: nat)
    ensures Value(c) == Some(n) <==> n < 64 && Digit(n) == c
    ensures HexValue(c) == Some(n) <==>
              n < 16 && (HexDigit(n) == c || (n >= 10 && HexDigit(n) == Text.LowerChar(c) != c))
  {
  }

  /** The bits come in order, the first byte first: three bytes and their four digits are the same
      number. */
  lemma GroupIsNumber(a: Byte, b: Byte, c: Byte)
    ensures ((First(a) * 64 + Second(a, b)) * 64 + Third(b, c)) * 64 + Fourth(c) == (a * 256 + b) * 256 + c
  {
  }

  function WithoutBreaks(s: string): string {
    if s == "" then ""
    else if s[0] == '\r' || s[0] == '\n' then WithoutBreaks(s[1..])
    else [s[0]] + WithoutBreaks(s[1..])
  }

  predicate Spellable(s: string) {
    forall i | 0 <= i < |s| :: Value(s[i]).Some?
  }

  lemma {:induction false} DigitsExactly(s: string)
    ensures Digits(s).Some? <==> Spellable(WithoutBreaks(s))
    ensures Digits(s).Some? ==> |Digits(s).value| == |WithoutBreaks(s)|
    ensures Digits(s) == Digits(WithoutBreaks(s))
  {
    if s != "" {
      DigitsExactly(s[1..]);
      var rest := WithoutBreaks(s[1..]);
      if s[0] != '\r' && s[0] != '\n' {
        assert ([s[0]] + rest)[1..] == rest;
        assert Spellable([s[0]] + rest) <==> Value(s[0]).Some? && Spellable(rest) by {
          assert forall i | 0 <= i < |rest| :: ([s[0]] + rest)[i + 1] == rest[i];
          if Spellable([s[0]] + rest) {
            assert Value(([s[0]] + rest)[0]).Some?;
            forall i | 0 <= i < |rest| ensures Value(rest[i]).Some? {
              assert Value(([s[0]] + rest)[i + 1]).Some?;
            }
          }
        }
      }
    }
  }

  // Three bytes for four digits, and one or two for two or three left over.
  function ByteCount(digits: nat): int {
    digits / 4 * 3 + if digits % 4 == 0 then 0 else digits % 4 - 1
  }

  lemma BytesStep(ds: seq<nat>)
    requires Small(ds) && |ds| > 3
    ensures Bytes(ds).Some? <==> Bytes(ds[4..]).Some?
    ensures Bytes(ds).Some? ==> |Bytes(ds).value| == 3 + |Bytes(ds[4..]).value|
  {
  }

  lemma FourLess(n: nat)
    requires n > 3
    ensures (n - 4) % 4 == n % 4 && ByteCount(n) == 3 + ByteCount(n - 4)
  {
    assert (n - 4) / 4 == n / 4 - 1;
  }

  lemma {:induction false} BytesExactly(ds: seq<nat>)
    requires Small(ds)
    ensures Bytes(ds).Some? <==> |ds| % 4 != 1
    ensures Bytes(ds).Some? ==> |Bytes(ds).value| == ByteCount(|ds|)
    decreases |ds|
  {
    if |ds| > 3 {
      var rest := ds[4..];
      BytesExactly(rest);
      BytesStep(ds);
      FourLess(|ds|);
    } else {
      FewBytes(ds);
    }
  }

  lemma FewBytes(ds: seq<nat>)
    requires Small(ds) && |ds| <= 3
    ensures Bytes(ds).Some? <==> |ds| != 1
    ensures Bytes(ds).Some? ==> |Bytes(ds).value| == if |ds| == 0 then 0 else |ds| - 1
  {
  }

  /** Which texts can be decoded: line breaks aside, only digits of the alphabet, and never a single
      one left over. */
  lemma Decodes64Exactly(s: string)
    ensures Decode64(s).Some? <==> Spellable(WithoutBreaks(s)) && |WithoutBreaks(s)| % 4 != 1
    ensures Decode64(s).Some? ==> |Decode64(s).value| == ByteCount(|WithoutBreaks(s)|)
    ensures Decode64(s) == Decode64(WithoutBreaks(s))
  {
    DigitsExactly(s);
    DigitsAreSmall(s);
    if Digits(s).Some? {
      BytesExactly(Digits(s).value);
    }
  }

  // Base16 needs pairs of digits and nothing else.
  lemma {:induction false} DecodesHexExactly(s: string)
    ensures DecodeHex(s).Some? <==> |s| % 2 == 0 && forall i | 0 <= i < |s| :: HexValue(s[i]).Some?
    ensures DecodeHex(s).Some? ==> 2 * |DecodeHex(s).value| == |s|
  {
    if |s| > 1 {
      var n := |s| - 2;
      DecodesHexExactly(s[..n]);
      assert forall i | 0 <= i < n :: s[..n][i] == s[i];
    }
  }

  // ---------- splitting ----------

  // Where the first underscore is, or the length.
  function Until(s: string): (i: nat)
    ensures i <= |s| && '_' !in s[..i] && (i < |s| ==> s[i] == '_')
  {
    if s == "" || s[0] == '_' then 0
    else
      var i := 1 + Until(s[1..]);
      assert s[..i] == [s[0]] + s[1..][..i - 1];
      i
  }

  datatype Parts = Parts(first: string, second: string, third: string)

  // strings.SplitN with "_" and 3, when there are three parts.
  function Split(s: string): Option<Parts> {
    var i := Until(s);
    if i == |s| then None
    else
      var rest := s[i + 1..];
      var j := Until(rest);
      if j == |rest| then None else Some(Parts(s[..i], rest[..j], rest[j + 1..]))
  }

  function Join(p: Parts): string {
    p.first + "_" + p.second + "_" + p.third
  }

  lemma {:induction false} UntilOf(a: string, b: string)
    requires '_' !in a
    ensures Until(a + "_" + b) == |a|
  {
    if a != "" {
      assert a[0] in a;
      assert forall c | c in a[1..] :: c in a;
      UntilOf(a[1..], b);
      assert (a + "_" + b)[1..] == a[1..] + "_" + b;
    }
  }

  lemma SplitOfJoin(p: Parts)
    requires '_' !in p.first && '_' !in p.second
    ensures Split(Join(p)) == Some(p)
  {
    var s, rest := Join(p), p.second + "_" + p.third;
    assert s == p.first + "_" + rest;
    UntilOf(p.first, rest);
    UntilOf(p.second, p.third);
    assert s[..|p.first|] == p.first && s[|p.first| + 1..] == rest;
    assert rest[..|p.second|] == p.second && rest[|p.second| + 1..] == p.third;
  }

  lemma CutAt(s: string, i: nat)
    requires i < |s| && s[i] == '_'
    ensures s == s[..i] + "_" + s[i + 1..]
  {
  }

  lemma Regroup(a: string, b: string, c: string)
    ensures a + "_" + (b + "_" + c) == Join(Parts(a, b, c))
  {
  }

  lemma JoinOfSplit(s: string)
    requires Split(s).Some?
    ensures var p := Split(s).value; s == Join(p) && '_' !in p.first && '_' !in p.second
  {
    var i := Until(s);
    var first, rest := s[..i], s[i + 1..];
    CutAt(s, i);
    var j := Until(rest);
    var second, third := rest[..j], rest[j + 1..];
    CutAt(rest, j);
    assert Split(s).value == Parts(first, second, third);
    Regroup(first, second, third);
  }

  // Splitting finds exactly the parts that were joined, underscores in the last one included.
  lemma SplitExactly(s: string, p: Parts)
    ensures Split(s) == Some(p) <==> s == Join(p) && '_' !in p.first && '_' !in p.second
  {
    if s == Join(p) && '_' !in p.first && '_' !in p.second {
      SplitOfJoin(p);
    }
    if Split(s) == Some(p) {
      JoinOfSplit(s);
    }
  }

  // ---------- tokens and sessions ----------

  const KEY_BYTES := 12
  const SECRET_BYTES := 32
  const KEY_LENGTH := 24
  const MIN_SECRET := 40
  const TOKEN := "af"
  const SESSION := "afs"

  function Print(prefix: string, key: seq<Byte>, secret: seq<Byte>): string {
    prefix + "_" + EncodeHex(key) + "_" + Encode64(secret)
  }

  predicate Shaped(p: Parts, prefix: string) {
    p.first == prefix && |p.second| == KEY_LENGTH && |p.third| >= MIN_SECRET && DecodeHex(p.second).Some? &&
        Decode64(p.third).Some?
  }

  // tokenKeyFromRaw: the secret must be 32 bytes.
  function ParseToken(raw: string): Option<string> {
    match Split(raw)
    case None => None
    case Some(p) =>
      if Shaped(p, TOKEN) && |Decode64(p.third).value| == SECRET_BYTES then Some(p.second) else None
  }

  // opaqueKey for session values.
  function ParseSession(raw: string): Option<string> {
    match Split(raw)
    case None => None
    case Some(p) => if Shaped(p, SESSION) then Some(p.second) else None
  }

  lemma PrefixesArePlain()
    ensures '_' !in TOKEN && '_' !in SESSION && TOKEN != SESSION
  {
    assert |TOKEN| == 2 && |SESSION| == 3;
  }

  lemma PrintedParts(prefix: string, key: seq<Byte>, secret: seq<Byte>)
    requires '_' !in prefix && |key| == KEY_BYTES && |secret| == SECRET_BYTES
    ensures var p := Parts(prefix, EncodeHex(key), Encode64(secret));
            Split(Print(prefix, key, secret)) == Some(p) && Shaped(p, prefix) && Decode64(p.third) == Some(secret)
  {
    HexRoundTrip(key);
    Base64RoundTrip(secret);
    Base64Length(secret);
    SplitExactly(Print(prefix, key, secret), Parts(prefix, EncodeHex(key), Encode64(secret)));
  }

  /** For every key and secret, parsing what was printed gives back exactly the printed key, and
      neither kind of value parses as the other. */
  lemma ParsePrinted(key: seq<Byte>, secret: seq<Byte>)
    requires |key| == KEY_BYTES && |secret| == SECRET_BYTES
    ensures ParseToken(Print(TOKEN, key, secret)) == Some(EncodeHex(key)) &&
              ParseSession(Print(TOKEN, key, secret)) == None
    ensures ParseSession(Print(SESSION, key, secret)) == Some(EncodeHex(key)) &&
              ParseToken(Print(SESSION, key, secret)) == None
    ensures Print(TOKEN, key, secret) == "af" + "_" + EncodeHex(key) + "_" + Encode64(secret)
    ensures Print(SESSION, key, secret) == "afs" + "_" + EncodeHex(key) + "_" + Encode64(secret)
  {
    PrefixesArePlain();
    PrintedParts(TOKEN, key, secret);
    PrintedParts(SESSION, key, secret);
  }

  // No text at all is both a token and a session value.
  lemma NeverBoth(raw: string)
    ensures ParseToken(raw) == None || ParseSession(raw) == None
  {
    PrefixesArePlain();
  }

  /** A text is accepted as a token for a key exactly when it is that key between the prefix and
      a secret of 32 bytes. */
  lemma TokenExactly(raw: string, key: string)
    ensures ParseToken(raw) == Some(key) <==>
              && |key| == 24 && DecodeHex(key).Some? && '_' !in key
              && exists secret: string ::
                   && raw == Join(Parts("af", key, secret)) && |secret| >= 40
                   && Decode64(secret).Some? && |Decode64(secret).value| == 32
  {
    PrefixesArePlain();
    if ParseToken(raw) == Some(key) {
      SplitExactly(raw, Split(raw).value);
    }
    if secret: string :| raw == Join(Parts(TOKEN, key, secret)) && |secret| >= MIN_SECRET
                         && Decode64(secret).Some? && |Decode64(secret).value| == SECRET_BYTES {
      if '_' !in key {
        SplitExactly(raw, Parts(TOKEN, key, secret));
      }
    }
  }

  /** A text is accepted as a session value for a key exactly when it is that key between the
      prefix and a decodable secret of at least 40 characters, of whatever number of bytes. */
  lemma SessionExactly(raw: string, key: string)
    ensures ParseSession(raw) == Some(key) <==>
              && |key| == 24 && DecodeHex(key).Some? && '_' !in key
              && exists secret: string ::
                   raw == Join(Parts("afs", key, secret)) && |secret| >= 40 && Decode64(secret).Some?
  {
    PrefixesArePlain();
    if ParseSession(raw) == Some(key) {
      SplitExactly(raw, Split(raw).value);
    }
    if secret: string :| raw == Join(Parts(SESSION, key, secret)) && |secret| >= MIN_SECRET && Decode64(secret).Some? {
      if '_' !in key {
        SplitExactly(raw, Parts(SESSION, key, secret));
      }
    }
  }

  // ---------- scopes ----------

  // normalize: the trimmed values, sorted and without blanks or repetition.
  method NormalizeScope(values: seq<string>) returns (out: seq<string>)
    ensures ListOf(out, set i | 0 <= i < |values| && Text.TrimSpace(values[i]) != "" :: Text.TrimSpace(values[i]))
  {
    var trimmed: seq<string> := [];
    for i := 0 to |values|
      invariant |trimmed| == i && forall j | 0 <= j < i :: trimmed[j] == Text.TrimSpace(values[j])
    {
      trimmed := trimmed + [Text.TrimSpace(values[i])];
    }
    var unique := Unique(trimmed);
    out := SortStrings(unique);
    forall i | 0 <= i < |values| && Text.TrimSpace(values[i]) != "" ensures Text.TrimSpace(values[i]) in out {
      assert trimmed[i] in trimmed;
    }
  }
}
