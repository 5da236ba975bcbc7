/** Shapes of permission words, group keys, page keys and paths. */
module Words {
  import opened ResourceCatalog

  function Split(s: string, separator: char): (parts: seq<string>)
    ensures parts != []
    ensures forall part :: part in parts ==> separator !in part
  {
    if s == "" then [""]
    else
      var rest := Split(s[1..], separator);
      if s[0] == separator then [""] + rest
      else
        assert rest[0] in rest;
        [[s[0]] + rest[0]] + rest[1..]
  }

  function JoinWith(parts: seq<string>, separator: char): string {
    if parts == [] then "" else if |parts| == 1 then parts[0]
        else parts[0] + [separator] + JoinWith(parts[1..], separator)
  }

  /** Splitting undoes joining of texts without separators. */
  lemma {:induction false} SplitOfJoin(parts: seq<string>, separator: char)
    requires parts != [] && forall part :: part in parts ==> separator !in part
    ensures Split(JoinWith(parts, separator), separator) == parts
  {
    assert parts[0] in parts;
    if |parts| == 1 {
      NoSeparator(parts[0], separator);
    } else {
      SplitOfJoin(parts[1..], separator);
      SplitFirst(parts[0], separator, JoinWith(parts[1..], separator));
    }
  }

  lemma {:induction false} NoSeparator(part: string, separator: char)
    requires separator !in part
    ensures Split(part, separator) == [part]
  {
    if part != "" {
      assert part[0] in part && part == [part[0]] + part[1..];
      NoSeparator(part[1..], separator);
    }
  }

  lemma {:induction false} SplitFirst(part: string, separator: char, rest: string)
    requires separator !in part
    ensures Split(part + [separator] + rest, separator) == [part] + Split(rest, separator)
  {
    var text := part + [separator] + rest;
    if part == "" {
      assert text[1..] == rest;
    } else {
      assert part[0] in part && part == [part[0]] + part[1..];
      assert text[0] == part[0] && text[1..] == part[1..] + [separator] + rest;
      SplitFirst(part[1..], separator, rest);
      var parts := [part[1..]] + Split(rest, separator);
      assert [[part[0]] + parts[0]] + parts[1..] == [part] + Split(rest, separator);
    }
  }

  /** Joining undoes splitting of any text. */
  lemma {:induction false} JoinOfSplit(text: string, separator: char)
    ensures JoinWith(Split(text, separator), separator) == text
  {
    if text != "" {
      var rest := Split(text[1..], separator);
      JoinOfSplit(text[1..], separator);
      assert text == [text[0]] + text[1..];
      if text[0] == separator {
        assert ([""] + rest)[1..] == rest;
      } else {
        var parts := [[text[0]] + rest[0]] + rest[1..];
        assert parts[1..] == rest[1..];
      }
    }
  }

  /** The first segment is the scope. */
  lemma {:induction false} FirstSegmentIsScope(key: string)
    ensures Split(key, ':')[0] == Scope(key)
  {
    if key != "" && key[0] != ':' {
      FirstSegmentIsScope(key[1..]);
    }
  }

  predicate LowerCase(c: char) {
    'a' <= c <= 'z'
  }

  predicate SegmentOk(part: string) {
    && part != ""
    && LowerCase(part[0])
    && forall i :: 0 <= i < |part| ==> LowerCase(part[i]) || '0' <= part[i] <= '9' || part[i] == '_' || part[i] == '-'
  }

  predicate SegmentsOk(parts: seq<string>) {
    forall i :: 0 <= i < |parts| ==> SegmentOk(parts[i])
  }

  predicate ValidWord(word: string) {
    var parts := Split(word, ':');
    |parts| >= 4 && |word| <= 128 && SegmentsOk(parts)
  }

  predicate ValidIdentity(word: string, group: string) {
    && ValidWord(word)
    && |group| <= 128
    && var parts := Split(group, ':');
       |parts| >= 3 && parts[0] == Split(word, ':')[0] && SegmentsOk(parts)
  }

  predicate ValidOperation(operation: string) {
    operation in FixedOperations || operation == "*"
  }

  predicate ValidResourceBinding(word: string, binding: ResourceBinding) {
    ValidIdentity(word, binding.resourceKey) && ValidOperation(binding.operation)
  }

  lemma ValidOperationsHaveNoColon(operation: string)
    requires ValidOperation(operation)
    ensures ':' !in operation
  {
    assert operation in ["read", "create", "update", "delete"] || operation == "*";
  }

  predicate ValidUiKey(key: string, scope: string, kind: string) {
    var parts := Split(key, ':');
    && |parts| >= 3
    && parts[0] == scope
    && parts[1] == kind
    && (kind == "btn" ==> |parts| >= 5)
    && SegmentsOk(parts)
  }

  predicate ContainsAny(s: string, chars: string) {
    exists i :: 0 <= i < |s| && s[i] in chars
  }

  predicate ValidPart(part: string, parameters: bool) {
    && part != "."
    && part != ".."
    && (ContainsAny(part, "{}:") ==>
          && parameters
          && |part| >= 3
          && part[0] == '{'
          && part[|part| - 1] == '}'
          && SegmentOk(part[1..|part| - 1]))
  }

  predicate ValidPath(path: string, parameters: bool) {
    && path != ""
    && path[0] == '/'
    && !ContainsAny(path, "*?#\\\n\r\t ")
    && (forall i :: 0 <= i < |path| - 1 ==> !(path[i] == '/' && path[i + 1] == '/'))
    && forall part :: part in Split(path, '/') ==> ValidPart(part, parameters)
  }
}
