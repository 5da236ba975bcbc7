/**
Masking of keyword/value connection strings: keys, '=' and values that may be
quoted and backslash-escaped.
*/
module DsnMasking {
  import opened Options

  predicate IsSpace(c: char) {
    || c in "\t\n\r "
    || c == '\U{0B}' || c == '\U{0C}' || c == '\U{85}' || c == '\U{A0}'
    || c == '\U{1680}' || '\U{2000}' <= c <= '\U{200A}' || c == '\U{2028}' || c == '\U{2029}'
    || c == '\U{202F}' || c == '\U{205F}' || c == '\U{3000}'
  }

  /** The number of characters at the front that are spaces. */
  function Spaces(s: string): (n: nat)
    ensures n <= |s| && (n < |s| ==> !IsSpace(s[n]))
  {
    if s == "" || !IsSpace(s[0]) then 0 else 1 + Spaces(s[1..])
  }

  predicate InKey(c: char) {
    !IsSpace(c) && c != '='
  }

  function KeyLength(s: string): (n: nat)
    ensures n <= |s| && (n < |s| ==> !InKey(s[n]))
  {
    if s == "" || !InKey(s[0]) then 0 else 1 + KeyLength(s[1..])
  }

  /** The decoded text of a value and the number of characters it took. */
  datatype Token = Token(text: string, length: nat)

  function Prefixed(c: char, taken: nat, token: Option<Token>): Option<Token> {
    if token.None? then None else Some(Token([c] + token.value.text, taken + token.value.length))
  }

  /** Up to the next space or the end; a backslash takes the next character as it is. */
  function Unquoted(s: string): (token: Option<Token>)
    ensures token.Some? ==> token.value.length <= |s|
  {
    if s == "" || IsSpace(s[0]) then Some(Token("", 0))
    else if s[0] == '\\' then if |s| == 1 then None else Prefixed(s[1], 2, Unquoted(s[2..]))
    else Prefixed(s[0], 1, Unquoted(s[1..]))
  }

  /** Up to the closing quote, behind an opening one. */
  function Quoted(s: string): (token: Option<Token>)
    ensures token.Some? ==> 0 < token.value.length <= |s|
  {
    if s == "" then None
    else if s[0] == '\'' then Some(Token("", 1))
    else if s[0] == '\\' then if |s| == 1 then None else Prefixed(s[1], 2, Quoted(s[2..]))
    else Prefixed(s[0], 1, Quoted(s[1..]))
  }

  function ValueToken(s: string): (token: Option<Token>)
    ensures token.Some? ==> token.value.length <= |s|
  {
    if s != "" && s[0] == '\'' then
      var inner := Quoted(s[1..]);
      if inner.None? then None else Some(Token(inner.value.text, 1 + inner.value.length))
    else Unquoted(s)
  }

  /** Everything in front of the value: spaces, key, spaces, '=', spaces. */
  datatype Head = Blank | Broken | Head(keyStart: nat, keyEnd: nat, length: nat)

  function ParseHead(s: string): (head: Head)
    ensures head.Head? ==>
              && head.keyStart < head.keyEnd < head.length <= |s|
              && (head.length < |s| ==> !IsSpace(s[head.length]))
  {
    var start := Spaces(s);
    if start == |s| then Blank
    else
      var end := start + KeyLength(s[start..]);
      var equals := end + Spaces(s[end..]);
      if start == end || equals == |s| || s[equals] != '=' then Broken
      else Head(start, end, equals + 1 + Spaces(s[equals + 1..]))
  }

  datatype Setting = Setting(key: string, value: string)

  /** The key/value list, or None for malformed text. */
  function Scan(s: string): Option<seq<Setting>>
    decreases |s|
  {
    match ParseHead(s)
    case Blank => Some([])
    case Broken => None
    case Head(keyStart, keyEnd, length) =>
      var token := ValueToken(s[length..]);
      if token.None? then None
      else
        var rest := Scan(s[length + token.value.length..]);
        if rest.None? then None else Some([Setting(s[keyStart..keyEnd], token.value.text)] + rest.value)
  }

  function Mask(value: string): string {
    if |value| <= 3 then "***"
    else if |value| <= 6 then value[..3] + "***"
    else value[..3] + "***" + value[|value| - 3..]
  }

  function Doubled(mark: char, s: string): string {
    if s == "" then "" else (if s[0] == mark then ['\\', mark] else [s[0]]) + Doubled(mark, s[1..])
  }

  function Escape(s: string): string {
    Doubled('\'', Doubled('\\', s))
  }

  function Quote(s: string): string {
    "'" + Escape(s) + "'"
  }

  type Policy = string -> bool

  /** What stands in place of a value. */
  function Replacement(policy: Policy, key: string, token: Token, raw: string): string {
    if policy(key) then Quote(Mask(token.text)) else raw
  }

  function MaskedText(s: string, policy: Policy): Option<string>
    decreases |s|
  {
    match ParseHead(s)
    case Blank => Some(s)
    case Broken => None
    case Head(keyStart, keyEnd, length) =>
      var token := ValueToken(s[length..]);
      if token.None? then None
      else
        var end := length + token.value.length;
        var rest := MaskedText(s[end..], policy);
        if rest.None? then None
        else Some(s[..length] + Replacement(policy, s[keyStart..keyEnd], token.value, s[length..end]) + rest.value)
  }

  function MaskOptions(s: string, policy: Policy): string {
    var masked := MaskedText(s, policy);
    if masked.None? then "***" else masked.value
  }

  // The loops of the scanner

  method SkipSpaces(runes: string, from: nat) returns (index: nat)
    requires from <= |runes|
    ensures index == from + Spaces(runes[from..])
  {
    index := from;
    while index < |runes| && IsSpace(runes[index])
      invariant from <= index <= |runes|
      invariant index + Spaces(runes[index..]) == from + Spaces(runes[from..])
    {
      assert runes[index..][1..] == runes[index + 1..];
      index := index + 1;
    }
  }

  method SkipKey(runes: string, from: nat) returns (index: nat)
    requires from <= |runes|
    ensures index == from + KeyLength(runes[from..])
  {
    index := from;
    while index < |runes| && !IsSpace(runes[index]) && runes[index] != '='
      invariant from <= index <= |runes|
      invariant index + KeyLength(runes[index..]) == from + KeyLength(runes[from..])
    {
      assert runes[index..][1..] == runes[index + 1..];
      index := index + 1;
    }
  }

  /** The token that a scan still has to add to what it decoded so far. */
  function TokenFrom(s: string, quoted: bool): Option<Token> {
    if quoted then Quoted(s) else Unquoted(s)
  }

  function Continue(decoded: string, taken: nat, token: Option<Token>): Option<Token> {
    if token.None? then None else Some(Token(decoded + token.value.text, taken + token.value.length))
  }

  lemma NothingTaken(token: Option<Token>)
    ensures Continue("", 0, token) == token
  {
    assert token.Some? ==> "" + token.value.text == token.value.text;
  }

  lemma TakeOne(decoded: string, taken: nat, c: char, step: nat, rest: Option<Token>)
    ensures Continue(decoded, taken, Prefixed(c, step, rest)) == Continue(decoded + [c], taken + step, rest)
  {
    assert rest.Some? ==> decoded + ([c] + rest.value.text) == decoded + [c] + rest.value.text;
  }

  method ReadValue(runes: string, start: nat) returns (ok: bool, decoded: string, index: nat)
    requires start <= |runes|
    ensures ok <==> ValueToken(runes[start..]).Some?
    ensures ok ==> start <= index <= |runes| && ValueToken(runes[start..]).value == Token(decoded, index - start)
  {
    index := start;
    var quoted := index < |runes| && runes[index] == '\'';
    if quoted {
      index := index + 1;
      assert runes[start..][1..] == runes[index..];
    }
    decoded := "";
    var closed := !quoted;
    ghost var from := index;
    NothingTaken(TokenFrom(runes[from..], quoted));
    while index < |runes|
      invariant from <= index <= |runes| && closed == !quoted
      invariant Continue(decoded, index - from, TokenFrom(runes[index..], quoted)) == TokenFrom(runes[from..], quoted)
    {
      var current := runes[index];
      ghost var before, rest := index, runes[index..];
      if quoted && current == '\'' {
        index := index + 1;
        closed := true;
        break;
      }
      if !quoted && IsSpace(current) { break; }
      assert rest[1..] == runes[index + 1..];
      if current == '\\' {
        index := index + 1;
        if index == |runes| { return false, decoded, index; }
        current := runes[index];
        assert rest[2..] == runes[index + 1..];
      }
      TakeOne(decoded, before - from, current, index + 1 - before, TokenFrom(runes[index + 1..], quoted));
      decoded := decoded + [current];
      index := index + 1;
    }
    ok := closed;
  }

  datatype Found = NoMore | Malformed | Found(key: string, start: nat, end: nat, decoded: string)

  /** What the scanner finds from an index on decides how the rest is masked. */
  ghost predicate Decides(runes: string, policy: Policy, index: nat, found: Found)
    requires index <= |runes|
  {
    match found
    case NoMore => MaskedText(runes[index..], policy) == Some(runes[index..])
    case Malformed => MaskedText(runes[index..], policy).None?
    case Found(key, start, end, decoded) =>
      && index < start <= end <= |runes|
      && MaskedText(runes[index..], policy)
         == Assembled(runes[index..start] + Replacement(policy, key, Token(decoded, 0), runes[start..end]),
                      MaskedText(runes[end..], policy))
  }

  method NextSetting(runes: string, index: nat, ghost policy: Policy) returns (found: Found)
    requires index <= |runes|
    ensures Decides(runes, policy, index, found)
  {
    hide MaskedText, Spaces, KeyLength, ParseHead, ValueToken, Quote, Mask, IsSpace;
    var keyStart := SkipSpaces(runes, index);
    if keyStart == |runes| {
      BlankSuffix(runes, policy, index);
      return NoMore;
    }
    var keyEnd := SkipKey(runes, keyStart);
    var equals := SkipSpaces(runes, keyEnd);
    HeadOfSuffix(runes, index, keyStart, keyEnd, equals);
    if keyStart == keyEnd || equals == |runes| || runes[equals] != '=' {
      BadSuffix(runes, policy, index);
      return Malformed;
    }
    var start := SkipSpaces(runes, equals + 1);
    var ok, decoded, end := ReadValue(runes, start);
    Slices(runes, index, start, |runes|);
    if !ok {
      BadSuffix(runes, policy, index);
      return Malformed;
    }
    SettingOfSuffix(runes, policy, index, keyStart, keyEnd, start, end, decoded);
    found := Found(runes[keyStart..keyEnd], start, end, decoded);
  }

  method MaskDsnOptions(runes: string, policy: Policy) returns (masked: string)
    ensures masked == MaskOptions(runes, policy)
  {
    hide MaskedText, Quote, Mask;
    var output := "";
    var last: nat, index: nat := 0, 0;
    StartAssembled(runes, policy);
    while index < |runes|
      invariant last <= index <= |runes|
      invariant Assembled(output + runes[last..index], MaskedText(runes[index..], policy)) == MaskedText(runes, policy)
    {
      var found := NextSetting(runes, index, policy);
      if found.NoMore? { break; }
      if found.Malformed? { return "***"; }
      var start, end := found.start, found.end;
      AssembleMore(output, runes[last..index],
                   runes[index..start] + Replacement(policy, found.key, Token(found.decoded, 0), runes[start..end]),
                   MaskedText(runes[end..], policy));
      if policy(found.key) {
        var quoted := Quote(Mask(found.decoded));
        assert output + runes[last..index] + (runes[index..start] + quoted) ==
            output + runes[last..start] + quoted + runes[end..end];
        output := output + runes[last..start] + quoted;
        last := end;
      } else {
        assert output + runes[last..index] + (runes[index..start] + runes[start..end]) == output + runes[last..end];
      }
      index := end;
    }
    if index == |runes| {
      NothingIsBlank(runes, policy);
    }
    assert output + runes[last..index] + runes[index..] == output + runes[last..];
    masked := output + runes[last..];
  }

  lemma BadSuffix(runes: string, policy: Policy, index: nat)
    requires index <= |runes|
    requires var head := ParseHead(runes[index..]);
             head.Broken? || (head.Head? && ValueToken(runes[index..][head.length..]).None?)
    ensures MaskedText(runes[index..], policy).None?
  {
  }

  lemma NothingIsBlank(runes: string, policy: Policy)
    ensures MaskedText(runes[|runes|..], policy) == Some(runes[|runes|..])
  {
    BlankSuffix(runes, policy, |runes|);
  }

  lemma BlankSuffix(runes: string, policy: Policy, index: nat)
    requires index <= |runes| && index + Spaces(runes[index..]) == |runes|
    ensures MaskedText(runes[index..], policy) == Some(runes[index..])
  {
  }

  function Assembled(front: string, rest: Option<string>): Option<string> {
    if rest.None? then None else Some(front + rest.value)
  }

  lemma StartAssembled(runes: string, policy: Policy)
    ensures Assembled("" + runes[0..0], MaskedText(runes[0..], policy)) == MaskedText(runes, policy)
  {
    hide MaskedText;
    assert runes[0..] == runes;
    var whole := MaskedText(runes, policy);
    assert whole.Some? ==> "" + runes[0..0] + whole.value == whole.value;
  }

  lemma Slices(s: string, a: nat, b: nat, c: nat)
    requires a <= b <= c <= |s|
    ensures s[a..][b - a..] == s[b..] && s[a..][b - a..c - a] == s[b..c] && s[a..][..b - a] == s[a..b]
  {
  }

  lemma HeadOfSuffix(runes: string, index: nat, keyStart: nat, keyEnd: nat, equals: nat)
    requires index <= |runes| && keyStart == index + Spaces(runes[index..]) < |runes|
    requires keyEnd == keyStart + KeyLength(runes[keyStart..])
    requires equals == keyEnd + Spaces(runes[keyEnd..])
    ensures ParseHead(runes[index..])
         == if keyStart == keyEnd || equals == |runes| || runes[equals] != '=' then Broken
            else Head(keyStart - index, keyEnd - index, equals + 1 + Spaces(runes[equals + 1..]) - index)
  {
    hide Spaces, KeyLength, IsSpace, InKey;
    SuffixOfSuffix(runes, index, keyStart);
    SuffixOfSuffix(runes, index, keyEnd);
    if equals < |runes| {
      SuffixOfSuffix(runes, index, equals + 1);
    }
  }

  lemma SuffixOfSuffix(runes: string, index: nat, from: nat)
    requires index <= from <= |runes|
    ensures runes[index..][from - index..] == runes[from..]
  {
  }

  lemma SettingOfSuffix(runes: string, policy: Policy, index: nat, keyStart: nat, keyEnd: nat, start: nat, end: nat,
                        decoded: string)
    requires index <= keyStart <= keyEnd < start <= end <= |runes|
    requires ParseHead(runes[index..]) == Head(keyStart - index, keyEnd - index, start - index)
    requires ValueToken(runes[start..]) == Some(Token(decoded, end - start))
    ensures MaskedText(runes[index..], policy)
         == Assembled(runes[index..start] +
                      Replacement(policy, runes[keyStart..keyEnd], Token(decoded, 0), runes[start..end]),
                      MaskedText(runes[end..], policy))
  {
    hide ParseHead, ValueToken, Replacement, Scan, MaskedText;
    Slices(runes, index, start, end);
    Slices(runes, index, end, |runes|);
    Slices(runes, index, keyStart, keyEnd);
    OneStep(runes[index..], policy, ParseHead(runes[index..]), Token(decoded, end - start));
    SameReplacement(policy, runes[keyStart..keyEnd], decoded, end - start, runes[start..end]);
  }

  lemma SameReplacement(policy: Policy, key: string, text: string, length: nat, raw: string)
    ensures Replacement(policy, key, Token(text, length), raw) == Replacement(policy, key, Token(text, 0), raw)
  {
  }

  lemma AssembleMore(output: string, before: string, step: string, rest: Option<string>)
    ensures Assembled(output + before, Assembled(step, rest)) == Assembled(output + before + step, rest)
  {
    assert rest.Some? ==> output + before + (step + rest.value) == output + before + step + rest.value;
  }

  // Scanning what was written

  lemma {:induction false} QuotedReadsEscaped(s: string, rest: string)
    ensures Quoted(Escape(s) + "'" + rest) == Some(Token(s, |Escape(s)| + 1))
  {
    if s == "" {
      assert Escape(s) + "'" + rest == "'" + rest;
    } else {
      EscapeFirst(s[0], s[1..]);
      assert s == [s[0]] + s[1..];
      QuotedReadsEscaped(s[1..], rest);
      var mark := s[0] == '\\' || s[0] == '\'';
      var text := Escape(s) + "'" + rest;
      if mark {
        assert text == ['\\', s[0]] + (Escape(s[1..]) + "'" + rest);
        assert text[2..] == Escape(s[1..]) + "'" + rest;
      } else {
        assert text == [s[0]] + (Escape(s[1..]) + "'" + rest);
        assert text[1..] == Escape(s[1..]) + "'" + rest;
      }
    }
  }

  lemma EscapeFirst(c: char, rest: string)
    ensures Escape([c] + rest) == (if c == '\\' || c == '\'' then ['\\', c] else [c]) + Escape(rest)
  {
    var once := Doubled('\\', rest);
    assert ([c] + rest)[1..] == rest;
    if c == '\\' {
      assert Doubled('\\', [c] + rest) == ['\\', '\\'] + once;
      assert (['\\', '\\'] + once)[1..] == ['\\'] + once;
      assert (['\\'] + once)[1..] == once;
      assert Doubled('\'', ['\\'] + once) == ['\\'] + Doubled('\'', once);
    } else {
      assert Doubled('\\', [c] + rest) == [c] + once;
      assert ([c] + once)[1..] == once;
    }
  }

  /** A quoted replacement is read back as the text that was put in, whatever follows. */
  lemma ReplacementIsRead(text: string, rest: string)
    ensures ValueToken(Quote(text) + rest) == Some(Token(text, |Quote(text)|))
  {
    QuotedReadsEscaped(text, rest);
    var whole := Quote(text) + rest;
    assert whole[1..] == Escape(text) + "'" + rest;
  }

  /** A kept value is read again as long as what follows starts the same way. */
  predicate StartsAlike(a: string, b: string) {
    (a == "" <==> b == "") && (a != "" && IsSpace(a[0]) ==> b != "" && b[0] == a[0])
  }

  lemma {:induction false} QuotedReadAgain(s: string, after: string)
    requires Quoted(s).Some?
    ensures Quoted(s[..Quoted(s).value.length] + after) == Quoted(s)
    decreases |s|
  {
    var n := Quoted(s).value.length;
    var again := s[..n] + after;
    if s[0] == '\'' {
    } else if s[0] == '\\' {
      QuotedReadAgain(s[2..], after);
      assert again[2..] == s[2..][..n - 2] + after;
    } else {
      QuotedReadAgain(s[1..], after);
      assert again[1..] == s[1..][..n - 1] + after;
    }
  }

  lemma CutAndAppend(s: string, k: nat, n: nat, after: string)
    requires k <= n <= |s|
    ensures (s[..n] + after)[k..] == s[k..][..n - k] + after
    ensures s[k..][n - k..] == s[n..]
  {
  }

  lemma {:induction false} UnquotedReadAgain(s: string, after: string)
    requires Unquoted(s).Some?
    requires var n := Unquoted(s).value.length; StartsAlike(s[n..], after)
    ensures Unquoted(s[..Unquoted(s).value.length] + after) == Unquoted(s)
    decreases |s|
  {
    var n := Unquoted(s).value.length;
    if n == 0 {
      UnquotedStops(s);
      assert s[..n] + after == after;
      assert s[n..] == s;
    } else {
      var k := if s[0] == '\\' then 2 else 1;
      CutAndAppend(s, k, n, after);
      UnquotedReadAgain(s[k..], after);
    }
  }

  lemma {:induction false} UnquotedStops(s: string)
    requires Unquoted(s).Some?
    ensures var n := Unquoted(s).value.length; n < |s| ==> IsSpace(s[n])
    decreases |s|
  {
    if s != "" && !IsSpace(s[0]) {
      UnquotedStops(if s[0] == '\\' then s[2..] else s[1..]);
    }
  }

  lemma ValueReadAgain(s: string, after: string)
    requires ValueToken(s).Some?
    requires var n := ValueToken(s).value.length; StartsAlike(s[n..], after)
    ensures ValueToken(s[..ValueToken(s).value.length] + after) == ValueToken(s)
  {
    var n := ValueToken(s).value.length;
    var again := s[..n] + after;
    if s != "" && s[0] == '\'' {
      QuotedReadAgain(s[1..], after);
      assert again[1..] == s[1..][..n - 1] + after;
    } else {
      UnquotedReadAgain(s, after);
      if n == 0 {
        UnquotedStops(s);
        assert again == after;
      }
    }
  }

  lemma {:induction false} SpacesAgain(s: string, n: nat, after: string)
    requires Spaces(s) <= n <= |s|
    requires n == Spaces(s) ==> after == "" || !IsSpace(after[0])
    ensures Spaces(s[..n] + after) == Spaces(s)
    decreases |s|
  {
    var again := s[..n] + after;
    if s != "" && IsSpace(s[0]) {
      assert again[1..] == s[1..][..n - 1] + after;
      SpacesAgain(s[1..], n - 1, after);
    } else if n == 0 {
      assert again == after;
    }
  }

  lemma {:induction false} KeyLengthAgain(s: string, n: nat, after: string)
    requires KeyLength(s) < n <= |s|
    ensures KeyLength(s[..n] + after) == KeyLength(s)
    decreases |s|
  {
    var again := s[..n] + after;
    if InKey(s[0]) {
      assert again[1..] == s[1..][..n - 1] + after;
      KeyLengthAgain(s[1..], n - 1, after);
    }
  }

  ghost predicate HeadAt(s: string, start: nat, end: nat, equals: nat, length: nat) {
    && start < end <= equals < length <= |s|
    && start == Spaces(s)
    && end == start + KeyLength(s[start..])
    && equals == end + Spaces(s[end..])
    && s[equals] == '='
    && length == equals + 1 + Spaces(s[equals + 1..])
  }

  lemma HeadAtAgain(s: string, after: string, start: nat, end: nat, equals: nat, n: nat)
    requires HeadAt(s, start, end, equals, n)
    requires after == "" || !IsSpace(after[0])
    ensures HeadAt(s[..n] + after, start, end, equals, n)
  {
    hide Spaces, KeyLength, IsSpace, InKey;
    var again := s[..n] + after;
    assert Spaces(again) == start by { SpacesAgain(s, n, after); }
    assert KeyLength(again[start..]) == end - start by {
      CutAndAppend(s, start, n, after);
      KeyLengthAgain(s[start..], n - start, after);
    }
    assert Spaces(again[end..]) == equals - end by {
      CutAndAppend(s, end, n, after);
      SpacesAgain(s[end..], n - end, after);
    }
    assert Spaces(again[equals + 1..]) == n - equals - 1 by {
      CutAndAppend(s, equals + 1, n, after);
      SpacesAgain(s[equals + 1..], n - equals - 1, after);
    }
    assert again[equals] == s[equals];
  }

  lemma HeadAtIsParsed(s: string, start: nat, end: nat, equals: nat, length: nat)
    requires HeadAt(s, start, end, equals, length)
    ensures ParseHead(s) == Head(start, end, length)
  {
    hide Spaces, KeyLength, IsSpace, InKey;
  }

  lemma ParsedIsHeadAt(s: string) returns (equals: nat)
    requires ParseHead(s).Head?
    ensures HeadAt(s, ParseHead(s).keyStart, ParseHead(s).keyEnd, equals, ParseHead(s).length)
  {
    hide Spaces, KeyLength, IsSpace, InKey;
    equals := ParseHead(s).keyEnd + Spaces(s[ParseHead(s).keyEnd..]);
  }

  /** The head is read again in front of any text that does not start with a space. */
  lemma HeadReadAgain(s: string, after: string)
    requires ParseHead(s).Head?
    requires after == "" || !IsSpace(after[0])
    ensures ParseHead(s[..ParseHead(s).length] + after) == ParseHead(s)
  {
    hide HeadAt, ParseHead;
    var head := ParseHead(s);
    var equals := ParsedIsHeadAt(s);
    HeadAtAgain(s, after, head.keyStart, head.keyEnd, equals, head.length);
    HeadAtIsParsed(s[..head.length] + after, head.keyStart, head.keyEnd, equals, head.length);
  }

  function MaskedSettings(settings: seq<Setting>, policy: Policy): seq<Setting> {
    if settings == [] then []
    else
      var setting := settings[0];
      [Setting(setting.key, if policy(setting.key) then Mask(setting.value) else setting.value)]
      + MaskedSettings(settings[1..], policy)
  }

  /** How much of a value may be shown: nothing, its first three characters, or also its last three. */
  datatype Extent = Nothing | FirstThree | FirstAndLastThree

  function ExtentOf(value: string): Extent {
    if |value| <= 3 then Nothing else if |value| <= 6 then FirstThree else FirstAndLastThree
  }

  /** All that may be told apart about two values once they are masked. */
  ghost predicate LookAlike(a: string, b: string) {
    && ExtentOf(a) == ExtentOf(b)
    && (!ExtentOf(a).Nothing? ==> a[..3] == b[..3])
    && (ExtentOf(a).FirstAndLastThree? ==> a[|a| - 3..] == b[|b| - 3..])
  }

  ghost predicate StarsAt(s: string, k: nat) {
    k + 3 <= |s| && s[k] == s[k + 1] == s[k + 2] == '*'
  }

  /** A mask has one of three lengths, hides all but the shown characters behind stars, and keeps those in place. */
  ghost predicate Hides(value: string, masked: string) {
    match ExtentOf(value)
    case Nothing => |masked| == 3 && StarsAt(masked, 0)
    case FirstThree => |masked| == 6 && StarsAt(masked, 3) && masked[..3] == value[..3]
    case FirstAndLastThree =>
      && |masked| == 9
      && StarsAt(masked, 3)
      && masked[..3] == value[..3] && masked[6..] == value[|value| - 3..]
  }

  lemma MaskHides(value: string)
    ensures Hides(value, Mask(value))
  {
  }

  /** A mask tells two values apart exactly when the shown characters do. */
  lemma MaskTellsNoMore(a: string, b: string)
    ensures Mask(a) == Mask(b) <==> LookAlike(a, b)
  {
    var m, n := Mask(a), Mask(b);
    if m == n {
      assert |a| > 3 ==> m[..3] == a[..3];
      assert |b| > 3 ==> n[..3] == b[..3];
      assert |a| > 6 ==> m[6..] == a[|a| - 3..];
      assert |b| > 6 ==> n[6..] == b[|b| - 3..];
    }
  }

  lemma MaskIsIdempotent(value: string)
    ensures Mask(Mask(value)) == Mask(value)
  {
    var masked := Mask(value);
    if |value| <= 6 {
      assert |value| > 3 ==> masked[..3] == value[..3];
    } else {
      assert masked[..3] == value[..3] && masked[|masked| - 3..] == value[|value| - 3..];
    }
  }

  /** Masking keeps the beginning of a text. */
  lemma MaskedStartsAlike(s: string, policy: Policy)
    requires MaskedText(s, policy).Some?
    ensures StartsAlike(s, MaskedText(s, policy).value)
  {
    hide ParseHead, ValueToken, Replacement, IsSpace;
    var head := ParseHead(s);
    if head.Head? {
      var masked := MaskedText(s, policy).value;
      assert masked[0] == s[..head.length][0];
    }
  }

  /** The text behind one replaced value. */
  ghost predicate OneMasked(s: string, policy: Policy, head: Head, token: Token, rest: string, masked: string) {
    && ParseHead(s) == head && head.Head?
    && ValueToken(s[head.length..]) == Some(token)
    && StartsAlike(s[head.length + token.length..], rest)
    && masked == s[..head.length] +
          (Replacement(policy, s[head.keyStart..head.keyEnd], token, s[head.length..head.length + token.length]) + rest)
  }

  lemma SpaceFreeStart(s: string, policy: Policy, head: Head, token: Token, rest: string, masked: string)
    requires OneMasked(s, policy, head, token, rest, masked)
    ensures var after := masked[head.length..]; after == "" || !IsSpace(after[0])
    ensures ParseHead(masked) == head && masked[head.keyStart..head.keyEnd] == s[head.keyStart..head.keyEnd]
  {
    hide ParseHead, Mask, Escape;
    var n := head.length;
    var after := masked[n..];
    var raw := s[n..n + token.length];
    assert after == Replacement(policy, s[head.keyStart..head.keyEnd], token, raw) + rest;
    if !policy(s[head.keyStart..head.keyEnd]) && raw == "" {
      assert s[n..][0..] == s[n..];
      EmptyValueIsLast(s[n..]);
      assert s[n + token.length..] == s[n..];
    } else if !policy(s[head.keyStart..head.keyEnd]) {
      assert after[0] == raw[0] == s[n];
    }
    assert masked == s[..n] + after;
    HeadReadAgain(s, after);
    assert masked[..n] == s[..n];
    assert masked[..n][head.keyStart..head.keyEnd] == s[..n][head.keyStart..head.keyEnd];
  }

  lemma EmptyValueIsLast(s: string)
    requires ValueToken(s).Some? && ValueToken(s).value.length == 0
    requires s != "" ==> !IsSpace(s[0])
    ensures s == ""
  {
    hide IsSpace;
  }

  lemma MaskedValueIsRead(s: string, policy: Policy, head: Head, token: Token, rest: string, masked: string)
    requires OneMasked(s, policy, head, token, rest, masked)
    ensures var sensitive := policy(s[head.keyStart..head.keyEnd]);
            var text := if sensitive then Mask(token.text) else token.text;
            var length := if sensitive then |Quote(Mask(token.text))| else token.length;
            && head.length + length <= |masked|
            && ValueToken(masked[head.length..]) == Some(Token(text, length))
            && masked[head.length + length..] == rest
            && (sensitive ==> masked[head.length..head.length + length] == Quote(Mask(token.text)))
            && (!sensitive ==> masked[head.length..head.length + length] == s[head.length..head.length + length])
  {
    hide ParseHead, Mask, Escape, ValueToken;
    var n := head.length;
    var raw := s[n..n + token.length];
    if policy(s[head.keyStart..head.keyEnd]) {
      var quoted := Quote(Mask(token.text));
      ReplacementIsRead(Mask(token.text), rest);
      TwoParts(masked, s[..n], quoted, rest);
    } else {
      TwoParts(masked, s[..n], raw, rest);
      Slices(s, n, n + token.length, |s|);
      assert s[n..][..token.length] == raw;
      ValueReadAgain(s[n..], rest);
    }
  }

  lemma TwoParts(whole: string, front: string, middle: string, rest: string)
    requires whole == front + (middle + rest)
    ensures |front| + |middle| <= |whole|
    ensures whole[|front|..] == middle + rest
    ensures whole[|front|..|front| + |middle|] == middle
    ensures whole[|front| + |middle|..] == rest
  {
  }

  lemma {:induction false} ScanIffMasked(s: string, policy: Policy)
    ensures Scan(s).Some? <==> MaskedText(s, policy).Some?
    decreases |s|
  {
    hide ParseHead, ValueToken, Replacement;
    var head := ParseHead(s);
    if head.Head? && ValueToken(s[head.length..]).Some? {
      ScanIffMasked(s[head.length + ValueToken(s[head.length..]).value.length..], policy);
    }
  }

  function Prepended(setting: Setting, rest: Option<seq<Setting>>): Option<seq<Setting>> {
    if rest.None? then None else Some([setting] + rest.value)
  }

  lemma OneStep(s: string, policy: Policy, head: Head, token: Token)
    requires ParseHead(s) == head && head.Head? && ValueToken(s[head.length..]) == Some(token)
    ensures var key, end := s[head.keyStart..head.keyEnd], head.length + token.length;
            && Scan(s) == Prepended(Setting(key, token.text), Scan(s[end..]))
            && MaskedText(s, policy)
               == Assembled(s[..head.length] + Replacement(policy, key, token, s[head.length..end]),
                            MaskedText(s[end..], policy))
  {
    hide ParseHead, ValueToken, Replacement;
  }

  lemma MaskedSettingsFirst(setting: Setting, rest: seq<Setting>, policy: Policy)
    ensures MaskedSettings([setting] + rest, policy)
         == [Setting(setting.key, if policy(setting.key) then Mask(setting.value) else setting.value)] +
             MaskedSettings(rest, policy)
  {
    assert ([setting] + rest)[1..] == rest;
  }

  lemma SecondReplacement(policy: Policy, key: string, token: Token, raw: string)
    ensures policy(key) ==> Replacement(policy, key, Token(Mask(token.text), 0), raw) == Quote(Mask(token.text))
  {
    MaskIsIdempotent(token.text);
  }

  /** Scanning the masked text gives the old settings with exactly the sensitive values masked. */
  lemma {:induction false} MaskingCommutesWithScanning(s: string, policy: Policy)
    requires Scan(s).Some?
    ensures Scan(MaskOptions(s, policy)) == Some(MaskedSettings(Scan(s).value, policy))
    ensures MaskedText(MaskOptions(s, policy), policy) == Some(MaskOptions(s, policy))
    decreases |s|
  {
    var head := ParseHead(s);
    if head.Head? {
      hide *;
      var token := TokenOfScanned(s);
      OneStep(s, policy, head, token);
      var rest := s[head.length + token.length..];
      ScannedRest(s, head, token);
      MaskingCommutesWithScanning(rest, policy);
      OneSettingCommutes(s, policy, head, token);
    }
  }

  lemma TokenOfScanned(s: string) returns (token: Token)
    requires Scan(s).Some? && ParseHead(s).Head?
    ensures ParseHead(s).length + token.length <= |s|
    ensures ValueToken(s[ParseHead(s).length..]) == Some(token)
  {
    hide ParseHead, ValueToken;
    token := ValueToken(s[ParseHead(s).length..]).value;
  }

  lemma ScannedRest(s: string, head: Head, token: Token)
    requires ParseHead(s) == head && head.Head? && ValueToken(s[head.length..]) == Some(token)
    requires Scan(s).Some?
    ensures Scan(s[head.length + token.length..]).Some?
    ensures |s[head.length + token.length..]| < |s|
  {
    hide ParseHead, ValueToken;
  }

  lemma OneSettingCommutes(s: string, policy: Policy, head: Head, token: Token)
    requires Scan(s).Some? && ParseHead(s) == head && head.Head? && ValueToken(s[head.length..]) == Some(token)
    requires var rest := s[head.length + token.length..];
             && Scan(rest).Some?
             && Scan(MaskOptions(rest, policy)) == Some(MaskedSettings(Scan(rest).value, policy))
             && MaskedText(MaskOptions(rest, policy), policy) == Some(MaskOptions(rest, policy))
    ensures Scan(MaskOptions(s, policy)) == Some(MaskedSettings(Scan(s).value, policy))
    ensures MaskedText(MaskOptions(s, policy), policy) == Some(MaskOptions(s, policy))
  {
    hide ParseHead, ValueToken, Scan, MaskedText, MaskedSettings, Mask, Quote, MaskOptions;
    var rest := s[head.length + token.length..];
    var key := s[head.keyStart..head.keyEnd];
    var masked, tail := MaskOptions(s, policy), MaskOptions(rest, policy);
    SettingIsShown(s, policy, head, token);
    OneStep(s, policy, head, token);
    var shown := Replacement(policy, key, token, s[head.length..head.length + token.length]);
    var again := Token(if policy(key) then Mask(token.text) else token.text, |shown|);
    OneStep(masked, policy, head, again);
    assert masked[..head.length][head.keyStart..head.keyEnd] == masked[head.keyStart..head.keyEnd];
    assert s[..head.length][head.keyStart..head.keyEnd] == key;
    MaskedSettingsFirst(Setting(key, token.text), Scan(rest).value, policy);
    SecondReplacement(policy, key, token, shown);
    assert Replacement(policy, key, again, shown) == shown;
    ThreeParts(masked, head.length, head.length + |shown|);
  }

  /** Every setting keeps its key, every sensitive value is hidden and every other one is as it was. */
  ghost predicate OnlySecretsHidden(settings: seq<Setting>, masked: seq<Setting>, policy: Policy) {
    && |masked| == |settings|
    && forall i :: 0 <= i < |settings| ==>
         && masked[i].key == settings[i].key
         && (policy(settings[i].key) ==> Hides(settings[i].value, masked[i].value))
         && (!policy(settings[i].key) ==> masked[i].value == settings[i].value)
  }

  lemma {:induction false} MaskedSettingsHide(settings: seq<Setting>, policy: Policy)
    ensures OnlySecretsHidden(settings, MaskedSettings(settings, policy), policy)
  {
    if settings != [] {
      hide Hides, Mask;
      MaskedSettingsHide(settings[1..], policy);
      MaskHides(settings[0].value);
      forall i | 1 <= i < |settings|
        ensures MaskedSettings(settings, policy)[i] == MaskedSettings(settings[1..], policy)[i - 1]
      {
      }
    }
  }

  /** A scan of the masked text finds the settings of the original in their order with only the secrets hidden. */
  lemma SecretsAreHidden(s: string, policy: Policy)
    requires Scan(s).Some?
    ensures Scan(MaskOptions(s, policy)).Some?
    ensures OnlySecretsHidden(Scan(s).value, Scan(MaskOptions(s, policy)).value, policy)
  {
    hide *;
    MaskingCommutesWithScanning(s, policy);
    MaskedSettingsHide(Scan(s).value, policy);
  }

  /**
  Two texts that agree in layout, keys and the written form of every value
  that is not sensitive, and whose sensitive values look alike.
  */
  ghost predicate DifferInSecretsOnly(s: string, t: string, policy: Policy)
    decreases |s|
  {
    match ParseHead(s)
    case Blank => t == s
    case Broken => false
    case Head(keyStart, keyEnd, length) =>
      var a := ValueToken(s[length..]);
      && ParseHead(t) == ParseHead(s) && t[..length] == s[..length]
      && var b := ValueToken(t[length..]);
         && a.Some? && b.Some?
         && (policy(s[keyStart..keyEnd]) ==> LookAlike(a.value.text, b.value.text))
         && (!policy(s[keyStart..keyEnd]) ==>
               a == b && s[length..][..a.value.length] == t[length..][..b.value.length])
         && DifferInSecretsOnly(s[length + a.value.length..], t[length + b.value.length..], policy)
  }

  /** What remains to be compared behind equal heads. */
  ghost predicate SameHead(s: string, t: string, head: Head, a: Token, b: Token) {
    && ParseHead(s) == head && ParseHead(t) == head && head.Head?
    && t[..head.length] == s[..head.length]
    && ValueToken(s[head.length..]) == Some(a) && ValueToken(t[head.length..]) == Some(b)
  }

  ghost predicate SameValueShown(s: string, t: string, policy: Policy, head: Head, a: Token, b: Token)
    requires SameHead(s, t, head, a, b)
  {
    if policy(s[head.keyStart..head.keyEnd]) then LookAlike(a.text, b.text)
    else a == b && s[head.length..][..a.length] == t[head.length..][..b.length]
  }

  lemma OneDifference(s: string, t: string, policy: Policy, head: Head, a: Token, b: Token)
    requires SameHead(s, t, head, a, b)
    ensures DifferInSecretsOnly(s, t, policy) <==>
              && SameValueShown(s, t, policy, head, a, b)
              && DifferInSecretsOnly(s[head.length + a.length..], t[head.length + b.length..], policy)
  {
    hide ParseHead, ValueToken, LookAlike;
  }

  /** The masked text of a setting: its head, what stands for its value, and the masked rest. */
  ghost predicate ShownSetting(s: string, policy: Policy, head: Head, token: Token, masked: string) {
    && ParseHead(s) == head && head.Head?
    && ValueToken(s[head.length..]) == Some(token)
    && var key, end := s[head.keyStart..head.keyEnd], head.length + token.length;
       var shown := Replacement(policy, key, token, s[head.length..end]);
       && ParseHead(masked) == head
       && masked[..head.length] == s[..head.length]
       && head.length + |shown| <= |masked|
       && masked[head.length..head.length + |shown|] == shown
       && masked[head.length + |shown|..] == MaskOptions(s[end..], policy)
       && ValueToken(masked[head.length..])
          == Some(Token(if policy(key) then Mask(token.text) else token.text, |shown|))
  }

  lemma SettingIsShown(s: string, policy: Policy, head: Head, token: Token)
    requires Scan(s).Some? && ParseHead(s) == head && head.Head? && ValueToken(s[head.length..]) == Some(token)
    ensures ShownSetting(s, policy, head, token, MaskOptions(s, policy))
  {
    hide ParseHead, ValueToken, MaskOptions, Mask, Quote, IsSpace, Replacement, Scan, OneMasked;
    var masked, tail := MaskOptions(s, policy), MaskOptions(s[head.length + token.length..], policy);
    var shown := OneIsMasked(s, policy, head, token);
    SpaceFreeStart(s, policy, head, token, tail, masked);
    MaskedValueIsRead(s, policy, head, token, tail, masked);
    TwoParts(masked, s[..head.length], shown, tail);
    ReplacementLength(policy, s[head.keyStart..head.keyEnd], token, s[head.length..head.length + token.length]);
  }

  lemma ReplacementLength(policy: Policy, key: string, token: Token, raw: string)
    ensures |Replacement(policy, key, token, raw)| == if policy(key) then |Quote(Mask(token.text))| else |raw|
  {
  }

  lemma OneIsMasked(s: string, policy: Policy, head: Head, token: Token) returns (shown: string)
    requires Scan(s).Some? && ParseHead(s) == head && head.Head? && ValueToken(s[head.length..]) == Some(token)
    ensures var end := head.length + token.length;
            && shown == Replacement(policy, s[head.keyStart..head.keyEnd], token, s[head.length..end])
            && MaskOptions(s, policy) == s[..head.length] + (shown + MaskOptions(s[end..], policy))
            && OneMasked(s, policy, head, token, MaskOptions(s[end..], policy), MaskOptions(s, policy))
  {
    hide ParseHead, ValueToken, Scan, MaskedText, Mask, Quote, StartsAlike, IsSpace, Replacement;
    var end := head.length + token.length;
    var rest := s[end..];
    ScannedRest(s, head, token);
    ScanIffMasked(s, policy);
    ScanIffMasked(rest, policy);
    MaskedStartsAlike(rest, policy);
    OneStep(s, policy, head, token);
    shown := Replacement(policy, s[head.keyStart..head.keyEnd], token, s[head.length..end]);
    assert s[..head.length] + shown + MaskOptions(rest, policy)
        == s[..head.length] + (shown + MaskOptions(rest, policy));
  }

  lemma SettingTells(s: string, t: string, policy: Policy, head: Head, a: Token, b: Token)
    requires SameHead(s, t, head, a, b)
    requires ShownSetting(s, policy, head, a, MaskOptions(s, policy))
    requires ShownSetting(t, policy, head, b, MaskOptions(t, policy))
    ensures MaskOptions(s, policy) == MaskOptions(t, policy) <==>
              && SameValueShown(s, t, policy, head, a, b)
              && MaskOptions(s[head.length + a.length..], policy) == MaskOptions(t[head.length + b.length..], policy)
  {
    hide ParseHead, ValueToken, MaskOptions, Mask, Quote, LookAlike;
    var n := head.length;
    var key := s[head.keyStart..head.keyEnd];
    assert s[..n][head.keyStart..head.keyEnd] == key;
    assert t[..n][head.keyStart..head.keyEnd] == t[head.keyStart..head.keyEnd];
    var shownS := Replacement(policy, key, a, s[n..n + a.length]);
    var shownT := Replacement(policy, key, b, t[n..n + b.length]);
    var m, w := MaskOptions(s, policy), MaskOptions(t, policy);
    assert s[n..][..a.length] == s[n..n + a.length] && t[n..][..b.length] == t[n..n + b.length];
    MaskTellsNoMore(a.text, b.text);
    ThreeParts(m, n, n + |shownS|);
    ThreeParts(w, n, n + |shownT|);
  }

  lemma ThreeParts(whole: string, i: nat, j: nat)
    requires i <= j <= |whole|
    ensures whole == whole[..i] + whole[i..j] + whole[j..]
  {
  }

  lemma OtherHeadTells(s: string, t: string, policy: Policy, a: Token, b: Token)
    requires ShownSetting(s, policy, ParseHead(s), a, MaskOptions(s, policy))
    requires ShownSetting(t, policy, ParseHead(t), b, MaskOptions(t, policy))
    requires ParseHead(s) != ParseHead(t) || t[..ParseHead(s).length] != s[..ParseHead(s).length]
    ensures MaskOptions(s, policy) != MaskOptions(t, policy) && !DifferInSecretsOnly(s, t, policy)
  {
    hide ParseHead, ValueToken, MaskOptions, LookAlike;
  }

  lemma BlankTells(s: string, t: string, policy: Policy)
    requires Scan(s).Some? && Scan(t).Some?
    requires ParseHead(s).Blank? || ParseHead(t).Blank?
    requires forall u | u in {s, t} && ParseHead(u).Head? :: ParseHead(MaskOptions(u, policy)) == ParseHead(u)
    ensures MaskOptions(s, policy) == MaskOptions(t, policy) <==> DifferInSecretsOnly(s, t, policy)
  {
    hide ParseHead, ValueToken, LookAlike;
    assert {s, t} == {t, s} && s in {s, t} && t in {s, t};
  }

  /** Masked texts are equal exactly when the originals differ in the hidden parts of secrets only. */
  lemma {:induction false} MaskedTextTellsNoMore(s: string, t: string, policy: Policy)
    requires Scan(s).Some? && Scan(t).Some?
    ensures MaskOptions(s, policy) == MaskOptions(t, policy) <==> DifferInSecretsOnly(s, t, policy)
    decreases |s|
  {
    hide *;
    ScannedHead(s);
    ScannedHead(t);
    forall u | u in {s, t} && ParseHead(u).Head? ensures ParseHead(MaskOptions(u, policy)) == ParseHead(u) {
      KeepsHead(u, policy);
    }
    if ParseHead(s).Blank? || ParseHead(t).Blank? {
      BlankTells(s, t, policy);
    } else {
      var head := ParseHead(s);
      var a := TokenOfScanned(s);
      var b := TokenOfScanned(t);
      SettingIsShown(s, policy, head, a);
      SettingIsShown(t, policy, ParseHead(t), b);
      if ParseHead(t) == head && t[..head.length] == s[..head.length] {
        ScannedRest(s, head, a);
        ScannedRest(t, head, b);
        MaskedTextTellsNoMore(s[head.length + a.length..], t[head.length + b.length..], policy);
        HeadsAgree(s, t, head, a, b);
        OneDifference(s, t, policy, head, a, b);
        SettingTells(s, t, policy, head, a, b);
      } else {
        OtherHeadTells(s, t, policy, a, b);
      }
    }
  }

  lemma ScannedHead(s: string)
    requires Scan(s).Some?
    ensures ParseHead(s).Blank? || ParseHead(s).Head?
  {
    hide ParseHead, ValueToken;
  }

  lemma KeepsHead(s: string, policy: Policy)
    requires Scan(s).Some? && ParseHead(s).Head?
    ensures ParseHead(MaskOptions(s, policy)) == ParseHead(s)
  {
    hide *;
    var token := TokenOfScanned(s);
    SettingIsShown(s, policy, ParseHead(s), token);
    ShownKeepsHead(s, policy, ParseHead(s), token, MaskOptions(s, policy));
  }

  lemma ShownKeepsHead(s: string, policy: Policy, head: Head, token: Token, masked: string)
    requires ShownSetting(s, policy, head, token, masked)
    ensures ParseHead(masked) == head
  {
    hide ParseHead, ValueToken, MaskOptions;
  }

  lemma HeadsAgree(s: string, t: string, head: Head, a: Token, b: Token)
    requires ParseHead(s) == head && ParseHead(t) == head && head.Head? && t[..head.length] == s[..head.length]
    requires ValueToken(s[head.length..]) == Some(a) && ValueToken(t[head.length..]) == Some(b)
    ensures SameHead(s, t, head, a, b)
  {
    hide ParseHead, ValueToken;
  }

  /** Malformed text is replaced as a whole. */
  lemma MalformedIsHidden(s: string, policy: Policy)
    requires Scan(s).None?
    ensures MaskOptions(s, policy) == "***"
  {
    ScanIffMasked(s, policy);
  }

  /** Masking a masked text changes nothing. */
  lemma MaskOptionsIsIdempotent(s: string, policy: Policy)
    ensures MaskOptions(MaskOptions(s, policy), policy) == MaskOptions(s, policy)
  {
    if Scan(s).Some? {
      MaskingCommutesWithScanning(s, policy);
    } else {
      MalformedIsHidden(s, policy);
      StarsAreMalformed(policy);
    }
  }

  lemma StarsAreMalformed(policy: Policy)
    ensures MaskOptions("***", policy) == "***"
  {
    var s := "***";
    assert Spaces(s) == 0;
    assert s[0..] == s && s[1..] == "**" && s[1..][1..] == "*" && s[1..][1..][1..] == "";
    assert KeyLength(s[0..]) == 3;
    assert s[3..] == "" && Spaces(s[3..]) == 0;
    assert ParseHead(s) == Broken;
  }
}
