/** Lists of permission codes: trimmed, without blanks and without repetitions. */
module ActionCodes {
  /** The white space of the Unicode standard. */
  predicate Space(c: char) {
    || c in " \t\n\r"
    || c as int in {0x0B, 0x0C, 0x85, 0xA0, 0x1680, 0x2028, 0x2029, 0x202F, 0x205F, 0x3000}
    || 0x2000 <= c as int <= 0x200A
  }

  function Trimmed(text: string): string {
    if text == "" then ""
    else if Space(text[0]) then Trimmed(text[1..])
    else if Space(text[|text| - 1]) then Trimmed(text[..|text| - 1])
    else text
  }

  /** What is left has no space at either end, and trimming takes nothing else. */
  lemma {:induction false} TrimmedIsTheMiddle(text: string) returns (left: string, right: string)
    ensures text == left + Trimmed(text) + right
    ensures (forall c :: c in left ==> Space(c)) && (forall c :: c in right ==> Space(c))
    ensures Trimmed(text) != "" ==> !Space(Trimmed(text)[0]) && !Space(Trimmed(text)[|Trimmed(text)| - 1])
    decreases |text|
  {
    left, right := "", "";
    if text != "" && Space(text[0]) {
      left, right := TrimmedIsTheMiddle(text[1..]);
      assert text == [text[0]] + text[1..];
      left := [text[0]] + left;
    } else if text != "" && Space(text[|text| - 1]) {
      left, right := TrimmedIsTheMiddle(text[..|text| - 1]);
      assert text == text[..|text| - 1] + [text[|text| - 1]];
      right := right + [text[|text| - 1]];
    }
  }

  function NormalizedCodes(codes: seq<string>): (result: seq<string>)
    ensures forall i, j :: 0 <= i < j < |result| ==> result[i] != result[j]
  {
    if codes == [] then []
    else
      var before := NormalizedCodes(codes[..|codes| - 1]);
      var code := Trimmed(codes[|codes| - 1]);
      if code == "" || code in before then before else before + [code]
  }

  method NormalizeCodes(codes: seq<string>) returns (result: seq<string>)
    ensures result == NormalizedCodes(codes)
  {
    result := [];
    var seen: set<string> := {};
    for n := 0 to |codes|
      invariant result == NormalizedCodes(codes[..n])
      invariant forall code :: code in seen <==> code in result
    {
      var code := Trimmed(codes[n]);
      assert codes[..n + 1][..n] == codes[..n];
      if code != "" && code !in seen {
        seen := seen + {code};
        result := result + [code];
      }
    }
    assert codes[..|codes|] == codes;
  }

  /** Exactly the given codes apart from surrounding space and blanks. */
  lemma {:induction false} NormalizedAreTheTrimmed(codes: seq<string>, code: string)
    ensures code in NormalizedCodes(codes) <==> code != "" && exists given :: given in codes && Trimmed(given) == code
  {
    if codes != [] {
      var before, last := codes[..|codes| - 1], codes[|codes| - 1];
      NormalizedAreTheTrimmed(before, code);
      assert codes == before + [last];
      assert last in codes && forall given :: given in codes <==> given in before || given == last;
      hide Trimmed;
    }
  }

  predicate Plain(code: string) {
    code != "" && Trimmed(code) == code
  }

  /** Different plain codes stay as they are, in their order. */
  lemma {:induction false} PlainCodesStay(codes: seq<string>)
    requires forall code :: code in codes ==> Plain(code)
    requires forall i, j :: 0 <= i < j < |codes| ==> codes[i] != codes[j]
    ensures NormalizedCodes(codes) == codes
  {
    if codes != [] {
      var before, last := codes[..|codes| - 1], codes[|codes| - 1];
      PlainCodesStay(before);
      assert codes == before + [last] && last !in before;
      assert last in codes && Plain(last);
      hide Trimmed;
    }
  }

  /** Normalizing again changes nothing. */
  lemma NormalizedStays(codes: seq<string>)
    ensures NormalizedCodes(NormalizedCodes(codes)) == NormalizedCodes(codes)
  {
    forall code | code in NormalizedCodes(codes) ensures Plain(code) {
      NormalizedAreTheTrimmed(codes, code);
      var given :| given in codes && Trimmed(given) == code;
      TrimmedIsPlain(given);
    }
    PlainCodesStay(NormalizedCodes(codes));
  }

  lemma {:induction false} TrimmedIsPlain(text: string)
    ensures Trimmed(Trimmed(text)) == Trimmed(text)
    decreases |text|
  {
    if text != "" && Space(text[0]) {
      TrimmedIsPlain(text[1..]);
    } else if text != "" && Space(text[|text| - 1]) {
      TrimmedIsPlain(text[..|text| - 1]);
    }
  }
}
