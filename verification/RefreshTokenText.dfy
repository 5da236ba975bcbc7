/**
The text of a refresh token: version, session id, generation and a code over
the three, separated by dots.
*/
module RefreshTokenText {
  import opened Options
  import opened Words
  import opened SessionProtocol

  datatype Parsed = Parsed(session: SessionId, generation: nat)

  predicate InAlphabet(c: char) {
    'A' <= c <= 'Z' || 'a' <= c <= 'z' || '0' <= c <= '9' || c == '-' || c == '_'
  }

  /** Characters whose two low bits are zero; only they end the encoding of 32 bytes. */
  const LAST := "AEIMQUYcgkosw048"

  /** The one unpadded base64url text of some 32 bytes (section 5 of RFC 4648). */
  predicate Encodes32(text: string) {
    |text| == 43 && (forall i :: 0 <= i < |text| ==> InAlphabet(text[i])) && text[42] in LAST
  }

  lemma NoDotInside(text: string)
    requires Encodes32(text)
    ensures '.' !in text
  {
    assert !InAlphabet('.');
  }

  /** A keyed code: an arbitrary function onto encodings of 32 bytes. */
  type Sign = string -> string

  ghost predicate Code(sign: Sign) {
    forall text :: Encodes32(sign(text))
  }

  function Digit(d: nat): char
    requires d < 10
  {
    '0' + d as char
  }

  function Decimal(n: nat): string {
    if n < 10 then [Digit(n)] else Decimal(n / 10) + [Digit(n % 10)]
  }

  predicate IsDigit(c: char) {
    '0' <= c <= '9'
  }

  function Value(text: string): nat
    requires forall i :: 0 <= i < |text| ==> IsDigit(text[i])
  {
    if text == "" then 0
    else
      assert IsDigit(text[|text| - 1]);
      10 * Value(text[..|text| - 1]) + (text[|text| - 1] as int - '0' as int)
  }

  predicate Digits(text: string) {
    text != "" && forall i :: 0 <= i < |text| ==> IsDigit(text[i])
  }

  lemma {:induction false} ValueOfDecimal(n: nat)
    ensures Digits(Decimal(n)) && Value(Decimal(n)) == n
  {
    if n >= 10 {
      ValueOfDecimal(n / 10);
      assert Decimal(n)[..|Decimal(n)| - 1] == Decimal(n / 10);
    } else {
      assert [Digit(n)][..0] == "";
    }
  }

  function PowerOfTen(k: nat): nat {
    if k == 0 then 1 else 10 * PowerOfTen(k - 1)
  }

  lemma {:induction false} DecimalLength(n: nat, k: nat)
    requires k > 0 && n < PowerOfTen(k)
    ensures |Decimal(n)| <= k
  {
    if n >= 10 {
      assert PowerOfTen(k) == 10 * PowerOfTen(k - 1);
      assert k > 1 by {
        assert PowerOfTen(0) == 1;
      }
      DecimalLength(n / 10, k - 1);
    }
  }

  lemma NineteenDigits()
    ensures MAX_INT64 < PowerOfTen(19)
  {
    assert PowerOfTen(6) == 1_000_000;
    assert PowerOfTen(12) == 1_000_000_000_000;
    assert PowerOfTen(18) == 1_000_000_000_000_000_000;
  }

  function Payload(session: SessionId, generation: nat): string {
    "v2." + session + "." + Decimal(generation)
  }

  function TokenText(sign: Sign, session: SessionId, generation: nat): string {
    Payload(session, generation) + "." + sign(Payload(session, generation))
  }

  /** Parsing of a token whose surrounding spaces have been removed. */
  function ParseRefresh(sign: Sign, token: string): Option<Parsed> {
    var parts := Split(token, '.');
    if |token| > 128 || |parts| != 4 || parts[0] != "v2" || !Encodes32(parts[1]) then None
    else if !Digits(parts[2]) || !(0 < Value(parts[2]) <= MAX_INT64) || Decimal(Value(parts[2])) != parts[2] then None
    else if parts[3] != sign(JoinWith(parts[..3], '.')) then None
    else Some(Parsed(parts[1], Value(parts[2])))
  }

  lemma JoinThree(a: string, b: string, c: string)
    ensures JoinWith([a, b, c], '.') == a + "." + b + "." + c
  {
    assert [a, b, c][1..] == [b, c] && [b, c][1..] == [c];
    assert JoinWith([b, c], '.') == b + "." + c;
    assert a + "." + (b + "." + c) == a + "." + b + "." + c;
  }

  lemma JoinFour(a: string, b: string, c: string, d: string)
    ensures JoinWith([a, b, c, d], '.') == a + "." + b + "." + c + "." + d
  {
    JoinThree(b, c, d);
    assert [a, b, c, d][1..] == [b, c, d];
    assert a + "." + (b + "." + c + "." + d) == a + "." + b + "." + c + "." + d;
  }

  lemma DigitsHaveNoDot(text: string)
    requires Digits(text)
    ensures '.' !in text
  {
    assert !IsDigit('.');
  }

  /** What was issued is read back. */
  lemma IssuedTokenIsParsed(sign: Sign, session: SessionId, generation: nat)
    requires Code(sign) && Encodes32(session) && 0 < generation <= MAX_INT64
    ensures ParseRefresh(sign, TokenText(sign, session, generation)) == Some(Parsed(session, generation))
  {
    var number, code := Decimal(generation), sign(Payload(session, generation));
    var parts := ["v2", session, number, code];
    ValueOfDecimal(generation);
    NineteenDigits();
    DecimalLength(generation, 19);
    NoDotInside(session);
    assert Encodes32(code);
    NoDotInside(code);
    DigitsHaveNoDot(number);
    SplitOfJoin(parts, '.');
    JoinFour("v2", session, number, code);
    JoinThree("v2", session, number);
    assert parts[..3] == ["v2", session, number];
    assert "v2" + "." + session + "." + number == Payload(session, generation);
    assert JoinWith(parts, '.') == TokenText(sign, session, generation);
  }

  /** Nothing else is read as that session and generation: the text of a token is unique. */
  lemma ParsedTokenIsTheIssuedOne(sign: Sign, token: string)
    requires ParseRefresh(sign, token).Some?
    ensures var parsed := ParseRefresh(sign, token).value;
            token == TokenText(sign, parsed.session, parsed.generation) && 0 < parsed.generation
  {
    var parts := Split(token, '.');
    JoinOfSplit(token, '.');
    assert parts == [parts[0], parts[1], parts[2], parts[3]];
    JoinFour(parts[0], parts[1], parts[2], parts[3]);
    assert parts[..3] == [parts[0], parts[1], parts[2]];
    JoinThree(parts[0], parts[1], parts[2]);
    assert "v2" + "." + parts[1] + "." + parts[2] == "v2." + parts[1] + "." + parts[2];
  }
}
