/** Field paths as text.  The history prints a path as a JSON Pointer
    (section 3 of RFC 6901); the command line reads one back. */
module Pointer {
  import opened Json
  import opened Text

  // ---------- printing and parsing ----------

  function Escape(key: string): string {
    ReplaceAll(ReplaceAll(key, "~", "~0"), "/", "~1")
  }

  function Child(parent: string, key: string): string {
    parent + "/" + Escape(key)
  }

  function Print(path: Path): string {
    if path == [] then "" else "/" + Escape(path[0]) + Print(path[1..])
  }

  function Decode(token: string): string {
    ReplaceAll(ReplaceAll(token, "~1", "/"), "~0", "~")
  }

  function DecodeAll(tokens: seq<string>): seq<string> {
    seq(|tokens|, i requires 0 <= i < |tokens| => Decode(tokens[i]))
  }

  /** The tokens of a field path; none when the path is rejected. */
  function Tokens(text: string): Option<Path> {
    var path := Trim(text);
    if path == "" then None
    else if path[0] == '/' then Some(DecodeAll(Split(path[1..], '/')))
    else if "" in Split(path, '.') then None
    else Some(Split(path, '.'))
  }

  method PathTokens(text: string) returns (tokens: Option<Path>)
    ensures tokens == Tokens(text)
    ensures tokens.Some? ==> tokens.value != []
    ensures Trim(text) == "" ==> tokens == None
  {
    var path := Trim(text);
    if path == "" { return None; }
    if path[0] == '/' {
      var encoded := Split(path[1..], '/');
      var result: Path := [];
      for i := 0 to |encoded|
        invariant result == DecodeAll(encoded)[..i]
      {
        result := result + [Decode(encoded[i])];
      }
      assert DecodeAll(encoded)[..|encoded|] == DecodeAll(encoded);
      return Some(result);
    }
    var result := Split(path, '.');
    for i := 0 to |result|
      invariant "" !in result[..i]
    {
      if result[i] == "" { return None; }
    }
    return Some(result);
  }

  // ---------- the two undo each other ----------

  function EscapeChar(c: char): string {
    if c == '~' then "~0" else if c == '/' then "~1" else [c]
  }

  lemma ReplaceOne(c: char, rest: string, pattern: char, with: string)
    ensures ReplaceAll([c] + rest, [pattern], with) ==
            (if c == pattern then with else [c]) + ReplaceAll(rest, [pattern], with)
  {
    assert ([c] + rest)[..1] == [c];
    assert ([c] + rest)[1..] == rest;
  }

  lemma EscapeStep(c: char, rest: string)
    ensures Escape([c] + rest) == EscapeChar(c) + Escape(rest)
  {
    ReplaceOne(c, rest, '~', "~0");
    var inner := ReplaceAll(rest, "~", "~0");
    if c == '~' {
      assert "~0" + inner == ['~'] + (['0'] + inner);
      ReplaceOne('~', ['0'] + inner, '/', "~1");
      ReplaceOne('0', inner, '/', "~1");
      assert Escape([c] + rest) == "~" + ("0" + ReplaceAll(inner, "/", "~1"));
    } else {
      ReplaceOne(c, inner, '/', "~1");
    }
  }

  /** A two-character pattern steps over a character it cannot start with. */
  lemma ReplaceSkips(c: char, rest: string, pattern: string, with: string)
    requires |pattern| == 2
    requires c != pattern[0] || (rest != "" && rest[0] != pattern[1])
    ensures ReplaceAll([c] + rest, pattern, with) == [c] + ReplaceAll(rest, pattern, with)
  {
    var text := [c] + rest;
    assert text[1..] == rest;
    if |text| >= 2 {
      assert text[..2][0] == c && text[..2][1] == rest[0];
    }
  }

  lemma ReplaceHits(rest: string, pattern: string, with: string)
    requires |pattern| == 2
    ensures ReplaceAll(pattern + rest, pattern, with) == with + ReplaceAll(rest, pattern, with)
  {
    assert (pattern + rest)[..2] == pattern;
    assert (pattern + rest)[2..] == rest;
  }

  lemma DecodeStep(c: char, rest: string)
    ensures Decode(EscapeChar(c) + rest) == [c] + Decode(rest)
  {
    var inner := ReplaceAll(rest, "~1", "/");
    if c == '~' {
      assert "~0" + rest == ['~'] + (['0'] + rest);
      ReplaceSkips('~', ['0'] + rest, "~1", "/");
      ReplaceSkips('0', rest, "~1", "/");
      assert ['~'] + (['0'] + inner) == "~0" + inner;
      ReplaceHits(inner, "~0", "~");
    } else if c == '/' {
      ReplaceHits(rest, "~1", "/");
      ReplaceSkips('/', inner, "~0", "~");
    } else {
      ReplaceSkips(c, rest, "~1", "/");
      ReplaceSkips(c, inner, "~0", "~");
    }
  }

  lemma {:induction false} DecodeEscape(key: string)
    ensures Decode(Escape(key)) == key
  {
    if key != "" {
      assert key == [key[0]] + key[1..];
      EscapeStep(key[0], key[1..]);
      DecodeStep(key[0], Escape(key[1..]));
      DecodeEscape(key[1..]);
    }
  }

  lemma {:induction false} EscapeHasNoSlash(key: string)
    ensures '/' !in Escape(key)
  {
    if key != "" {
      assert key == [key[0]] + key[1..];
      EscapeStep(key[0], key[1..]);
      EscapeHasNoSlash(key[1..]);
    }
  }

  lemma {:induction false} EscapeAppend(key: string, c: char)
    ensures Escape(key + [c]) == Escape(key) + EscapeChar(c)
  {
    if key == "" {
      assert key + [c] == [c] + "";
      EscapeStep(c, "");
    } else {
      assert key == [key[0]] + key[1..];
      assert key + [c] == [key[0]] + (key[1..] + [c]);
      EscapeStep(key[0], key[1..] + [c]);
      EscapeAppend(key[1..], c);
      EscapeStep(key[0], key[1..]);
    }
  }

  lemma {:induction false} SplitFirst(head: string, tail: string)
    requires '/' !in head
    ensures Split(head, '/') == [head]
    ensures Split(head + "/" + tail, '/') == [head] + Split(tail, '/')
  {
    if head == "" {
      assert head + "/" + tail == "/" + tail;
    } else {
      assert head == [head[0]] + head[1..];
      assert head + "/" + tail == [head[0]] + (head[1..] + "/" + tail);
      SplitFirst(head[1..], tail);
    }
  }

  function EscapeAll(path: Path): seq<string> {
    seq(|path|, i requires 0 <= i < |path| => Escape(path[i]))
  }

  function JoinParts(parts: seq<string>): string {
    if parts == [] then "" else "/" + parts[0] + JoinParts(parts[1..])
  }

  lemma {:induction false} PrintJoins(path: Path)
    ensures Print(path) == JoinParts(EscapeAll(path))
  {
    if path != [] {
      PrintJoins(path[1..]);
      assert EscapeAll(path)[1..] == EscapeAll(path[1..]);
    }
  }

  lemma {:induction false} SplitJoined(parts: seq<string>)
    requires parts != [] && forall part | part in parts :: '/' !in part
    ensures JoinParts(parts) != "" && JoinParts(parts)[0] == '/'
    ensures Split(JoinParts(parts)[1..], '/') == parts
  {
    var head, tail := parts[0], parts[1..];
    assert parts == [head] + tail;
    if tail == [] {
      assert JoinParts(parts)[1..] == head;
      SplitFirst(head, "");
    } else {
      SplitJoined(tail);
      var rest := JoinParts(tail)[1..];
      assert JoinParts(tail) == "/" + rest;
      assert JoinParts(parts)[1..] == head + "/" + rest;
      SplitFirst(head, rest);
    }
  }

  lemma ParsePrint(path: Path)
    requires path != []
    ensures Print(path) != "" && Print(path)[0] == '/'
    ensures DecodeAll(Split(Print(path)[1..], '/')) == path
  {
    PrintJoins(path);
    forall i | 0 <= i < |path| ensures Decode(Escape(path[i])) == path[i] && '/' !in EscapeAll(path)[i] {
      DecodeEscape(path[i]);
      EscapeHasNoSlash(path[i]);
    }
    SplitJoined(EscapeAll(path));
  }

  lemma PrintInjective(one: Path, two: Path)
    requires Print(one) == Print(two)
    ensures one == two
  {
    if one != [] && two != [] {
      ParsePrint(one);
      ParsePrint(two);
    }
  }

  lemma {:induction false} PrintAppend(path: Path, key: string)
    ensures Print(path + [key]) == Child(Print(path), key)
  {
    if path == [] {
      assert path + [key] == [key];
    } else {
      assert path + [key] == [path[0]] + (path[1..] + [key]);
      PrintAppend(path[1..], key);
    }
  }

  lemma {:induction false} TrimEscaped(prefix: string, key: string)
    ensures TrimRight(prefix + "/" + Escape(key)) == prefix + "/" + Escape(TrimRight(key))
  {
    var text := prefix + "/" + Escape(key);
    if key == "" {
      assert text == prefix + "/";
    } else {
      var front, c := key[..|key| - 1], key[|key| - 1];
      assert key == front + [c];
      EscapeAppend(front, c);
      assert text == (prefix + "/" + Escape(front)) + EscapeChar(c);
      if IsSpace(c) {
        assert text[..|text| - 1] == prefix + "/" + Escape(front);
        TrimEscaped(prefix, front);
      }
    }
  }

  /** Reading a printed path gives the keys back, the last one without its
      trailing whitespace; so the two agree exactly when it has none. */
  lemma TokensOfPrint(path: Path)
    requires path != []
    ensures var front, last := path[..|path| - 1], path[|path| - 1];
            Tokens(Print(path)) == Some(front + [TrimRight(last)])
    ensures Tokens(Print(path)) == Some(path) <==>
            var last := path[|path| - 1]; last == "" || !IsSpace(last[|last| - 1])
  {
    var front, last := path[..|path| - 1], path[|path| - 1];
    assert path == front + [last];
    PrintAppend(front, last);
    PrintAppend(front, TrimRight(last));
    TrimEscaped(Print(front), last);
    var trimmed := front + [TrimRight(last)];
    ParsePrint(path);
    ParsePrint(trimmed);
    assert TrimLeft(Print(path)) == Print(path);
    assert Trim(Print(path)) == Print(trimmed);
    TrimRightShortens(last);
    if Tokens(Print(path)) == Some(path) { assert trimmed[|front|] == path[|front|]; }
  }

  /** A key that ends in a space is read back without it. */
  lemma TrailingSpaceIsLost()
    ensures Tokens(Print(["a "])) == Some(["a"])
  {
    assert "a "[..1] == "a";
    assert TrimRight("a") == "a" && TrimRight("a ") == "a";
    assert ["a "][..0] + ["a"] == ["a"];
    TokensOfPrint(["a "]);
  }

  lemma {:induction false} TrimRightShortens(text: string)
    ensures |TrimRight(text)| <= |text|
    ensures TrimRight(text) == text <==> text == "" || !IsSpace(text[|text| - 1])
  {
    if text != "" && IsSpace(text[|text| - 1]) { TrimRightShortens(text[..|text| - 1]); }
  }

  /** The two escapes of section 3 of RFC 6901. */
  lemma EscapesAreStandard()
    ensures Print(["/~"]) == "/~1~0"
  {
    assert "/~" == ['/'] + "~" && "~" == ['~'] + "";
    EscapeStep('/', "~");
    EscapeStep('~', "");
    assert Escape("~") == "~0" && Print([]) == "";
  }

  // ---------- dot paths ----------

  function JoinDots(parts: seq<string>): string {
    if parts == [] then "" else if |parts| == 1 then parts[0] else parts[0] + "." + JoinDots(parts[1..])
  }

  lemma JoinCons(parts: seq<string>, c: char)
    requires parts != []
    ensures JoinDots([[c] + parts[0]] + parts[1..]) == [c] + JoinDots(parts)
  {
    var longer := [[c] + parts[0]] + parts[1..];
    assert longer[1..] == parts[1..];
    if |parts| > 1 {
      assert ([c] + parts[0]) + "." + JoinDots(parts[1..]) == [c] + (parts[0] + "." + JoinDots(parts[1..]));
    }
  }

  lemma {:induction false} JoinOfSplit(text: string)
    ensures JoinDots(Split(text, '.')) == text
  {
    if text != "" {
      var rest := Split(text[1..], '.');
      JoinOfSplit(text[1..]);
      assert text == [text[0]] + text[1..];
      if text[0] == '.' {
        assert ([""] + rest)[1..] == rest;
        assert JoinDots([""] + rest) == "" + "." + JoinDots(rest);
      } else {
        JoinCons(rest, text[0]);
      }
    }
  }

  lemma {:induction false} SplitHasNoDot(text: string)
    ensures forall part | part in Split(text, '.') :: '.' !in part
  {
    if text != "" {
      var rest := Split(text[1..], '.');
      SplitHasNoDot(text[1..]);
      assert rest[0] in rest;
      forall part | part in Split(text, '.') ensures '.' !in part {
        if text[0] != '.' && part != [text[0]] + rest[0] { assert part in rest[1..]; }
      }
    }
  }

  lemma {:induction false} SplitOfJoin(parts: seq<string>)
    requires parts != [] && forall part | part in parts :: '.' !in part
    ensures Split(JoinDots(parts), '.') == parts
  {
    var head := parts[0];
    if |parts| == 1 {
      SplitAtDot(head, "");
    } else {
      SplitOfJoin(parts[1..]);
      SplitAtDot(head, JoinDots(parts[1..]));
      assert parts == [head] + parts[1..];
    }
  }

  lemma {:induction false} SplitAtDot(head: string, tail: string)
    requires '.' !in head
    ensures Split(head, '.') == [head]
    ensures Split(head + "." + tail, '.') == [head] + Split(tail, '.')
  {
    if head == "" {
      assert head + "." + tail == "." + tail;
    } else {
      assert head == [head[0]] + head[1..];
      assert head + "." + tail == [head[0]] + (head[1..] + "." + tail);
      SplitAtDot(head[1..], tail);
    }
  }

  /** A path that does not begin with a slash has tokens `parts` exactly when
      they are non-empty, hold no dot, and joined with dots give the path. */
  lemma DotTokensExact(text: string, parts: Path)
    requires Trim(text) != "" && Trim(text)[0] != '/'
    ensures Tokens(text) == Some(parts) <==>
            parts != [] && JoinDots(parts) == Trim(text) && forall part | part in parts :: part != "" && '.' !in part
  {
    JoinOfSplit(Trim(text));
    SplitHasNoDot(Trim(text));
    if parts != [] && JoinDots(parts) == Trim(text) && forall part | part in parts :: part != "" && '.' !in part {
      SplitOfJoin(parts);
    }
  }
}
