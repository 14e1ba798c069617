/** `specifiersOf` of audit/run-audit.mjs: the literals that follow an import keyword. */
module Specifiers {
  import opened Text

  predicate IsQuote(c: char) { c == '"' || c == '\'' || c == '`' }

  /** `(?<![.\w$])word` at the end of a text. */
  predicate EndsWithWord(s: string, word: string) {
    && EndsWith(s, word)
    && var before := s[..|s| - |word|];
    before == "" || (var c := before[|before| - 1]; c != '.' && c != '$' && !IsWord(c))
  }

  /** `/(?<![.\w$])(?:from|import|require)\s*\(?\s*$/`. */
  predicate ImportPosition(before: string) {
    var t := TrimEnd(before);
    var u := if t != "" && t[|t| - 1] == '(' then TrimEnd(t[..|t| - 1]) else t;
    EndsWithWord(u, "from") || EndsWithWord(u, "import") || EndsWithWord(u, "require")
  }

  predicate IsKeyword(word: string) { word == "from" || word == "import" || word == "require" }

  predicate Boundary(before: string) {
    before == "" || (var c := before[|before| - 1]; c != '.' && c != '$' && !IsWord(c))
  }

  /** A reading of the pattern, part by part. */
  predicate KeyMatch(s: string, before: string, word: string, a: string, paren: string, b: string) {
    && s == before + word + a + paren + b
    && Boundary(before) && IsKeyword(word) && AllSpace(a) && AllSpace(b) && (paren == "" || paren == "(")
  }

  /** A position is an import position exactly when the pattern has a reading there. */
  lemma ImportPositionIff(s: string)
    ensures ImportPosition(s) <==> exists before, word, a, paren, b :: KeyMatch(s, before, word, a, paren, b)
  {
    hide TrimEnd, IsSpace;
    if ImportPosition(s) { ReadingOf(s); }
    forall before, word, a, paren, b | KeyMatch(s, before, word, a, paren, b) ensures ImportPosition(s) {
      ReadingSuffices(s, before, word, a, paren, b);
    }
  }

  lemma ReadingOf(s: string)
    requires ImportPosition(s)
    ensures exists before, word, a, paren, b :: KeyMatch(s, before, word, a, paren, b)
  {
    hide TrimEnd, IsSpace, AllSpace, EndsWithWord, Boundary, IsKeyword, KeyMatch;
    var t := TrimEnd(s);
    TrimEndRest(s);
    if t != "" && t[|t| - 1] == '(' {
      var inner := t[..|t| - 1];
      var u := TrimEnd(inner);
      TrimEndRest(inner);
      var before, word := KeywordOf(u);
      KeyMatchOf(s, t, u, before, word, inner[|u|..], "(", s[|t|..]);
    } else {
      var before, word := KeywordOf(t);
      NoSpace("");
      KeyMatchOf(s, t, t, before, word, "", "", s[|t|..]);
    }
  }

  lemma KeyMatchOf(s: string, t: string, u: string, before: string, word: string, a: string, paren: string, b: string)
    requires s == t + b && t == u + a + paren && u == before + word
    requires Boundary(before) && IsKeyword(word) && AllSpace(a) && AllSpace(b) && (paren == "" || paren == "(")
    ensures KeyMatch(s, before, word, a, paren, b)
  {
    hide AllSpace, Boundary, IsKeyword;
  }

  lemma KeywordOf(u: string) returns (before: string, word: string)
    requires EndsWithWord(u, "from") || EndsWithWord(u, "import") || EndsWithWord(u, "require")
    ensures u == before + word && Boundary(before) && IsKeyword(word)
  {
    word := if EndsWithWord(u, "from") then "from" else if EndsWithWord(u, "import") then "import" else "require";
    before := u[..|u| - |word|];
  }

  lemma NoSpace(s: string)
    ensures s == "" ==> AllSpace(s)
  {
  }

  lemma ReadingSuffices(s: string, before: string, word: string, a: string, paren: string, b: string)
    requires KeyMatch(s, before, word, a, paren, b)
    ensures ImportPosition(s)
  {
    hide TrimEnd, AllSpace;
    var u := before + word;
    LastOfKeyword(before, word);
    if paren == "(" {
      var inner := u + a;
      assert s == (inner + "(") + b;
      assert (inner + "(")[|inner + "("| - 1] == '(' && (inner + "(")[..|inner|] == inner;
      TrimEndOf(inner + "(", b);
      TrimEndOf(u, a);
    } else {
      assert s == u + (a + b);
      SpacesJoin(a, b);
      TrimEndOf(u, a + b);
    }
    assert u[|u| - |word|..] == word && u[..|u| - |word|] == before;
    assert EndsWithWord(u, word);
  }

  lemma SpacesJoin(a: string, b: string)
    requires AllSpace(a) && AllSpace(b)
    ensures AllSpace(a + b)
  {
  }

  lemma LastOfKeyword(before: string, word: string)
    requires IsKeyword(word)
    ensures var u := before + word; u != "" && !IsSpace(u[|u| - 1]) && u[|u| - 1] != '('
  {
  }

  /** Position of the first star followed by a slash, or the length when there is none. */
  function IndexOfBlockEnd(s: string): (i: nat)
    ensures i <= |s|
    ensures i < |s| ==> i + 2 <= |s| && s[i] == '*' && s[i + 1] == '/'
  {
    if s == "" || (|s| >= 2 && s[0] == '*' && s[1] == '/') then 0 else 1 + IndexOfBlockEnd(s[1..])
  }

  /** How far past an opening quote the scan for its partner moves; a backslash at the end moves it past the end. */
  function IndexOfClose(s: string, quote: char): (i: nat)
    ensures i <= |s| + 1
  {
    if s == "" || s[0] == quote then 0
    else if s[0] != '\\' then 1 + IndexOfClose(s[1..], quote)
    else if |s| == 1 then 2
    else 2 + IndexOfClose(s[2..], quote)
  }

  function Clamp(i: nat, s: string): (j: nat)
    ensures j <= |s| && j <= i
  {
    if i <= |s| then i else |s|
  }

  predicate StartsComment(s: string, second: char) { |s| >= 2 && s[0] == '/' && s[1] == second }

  /** How much of the source one turn of the loop consumes: a comment, a literal or one character. */
  function Advance(s: string): (n: nat)
    requires s != ""
    ensures 1 <= n <= |s|
  {
    if StartsComment(s, '/') then IndexOf(s, '\n')
    else if StartsComment(s, '*') then Clamp(IndexOfBlockEnd(s[2..]) + 4, s)
    else if IsQuote(s[0]) then Clamp(IndexOfClose(s[1..], s[0]) + 2, s)
    else 1
  }

  /** What that turn pushes. */
  function Emits(before: string, s: string): seq<string>
    requires s != ""
  {
    if IsQuote(s[0]) && ImportPosition(before)
    then [s[1..Clamp(1 + IndexOfClose(s[1..], s[0]), s)]]
    else []
  }

  /** What the scanner pushes for the rest of a source, given the text before it. */
  function Scan(before: string, s: string): seq<string>
    decreases |s|
  {
    if s == "" then []
    else
      var n := Advance(s);
      Emits(before, s) + Scan(before + s[..n], s[n..])
  }

  method SpecifiersOf(src: string) returns (out: seq<string>)
    ensures out == Scan("", src)
  {
    hide Scan, ImportPosition, IndexOf, IndexOfBlockEnd, IndexOfClose, Advance, Emits;
    out := [];
    var i := 0;
    assert src[..0] == "" && src[0..] == src;
    while i < |src|
      invariant i <= |src|
      invariant out + Scan(src[..i], src[i..]) == Scan("", src)
      decreases |src| - i
    {
      ghost var pushed := out;
      var start, c := i, src[i];
      TurnAt(src, i);
      if c == '/' && i + 1 < |src| && src[i + 1] == '/' {
        i := i + IndexOf(src[i..], '\n');
      } else if c == '/' && i + 1 < |src| && src[i + 1] == '*' {
        var end := i + 2 + IndexOfBlockEnd(src[i + 2..]);
        i := if end == |src| then |src| else end + 2;
      } else if IsQuote(c) {
        i := FindClose(src, i + 1, c);
        var end := if i <= |src| then i else |src|;
        if ImportPosition(src[..start]) {
          out := out + [src[start + 1..end]];
        }
        i := if i + 1 <= |src| then i + 1 else |src|;
      } else {
        i := i + 1;
      }
      Turn(src, start, i);
      ghost var emitted, rest := Emits(src[..start], src[start..]), Scan(src[..i], src[i..]);
      assert out == pushed + emitted;
      assert pushed + (emitted + rest) == out + rest;
    }
    ScanEnd(src[..i], src[i..]);
  }

  /** What the next turn consumes and pushes, told by positions in the whole source. */
  lemma TurnAt(src: string, i: nat)
    requires i < |src|
    ensures var s, before := src[i..], src[..i];
            if StartsComment(s, '/') then Advance(s) == IndexOf(s, '\n') && Emits(before, s) == []
            else if StartsComment(s, '*') then
              var end := i + 2 + IndexOfBlockEnd(src[i + 2..]);
              i + Advance(s) == (if end == |src| then |src| else end + 2) && Emits(before, s) == []
            else if IsQuote(src[i]) then
              var close := i + 1 + IndexOfClose(src[i + 1..], src[i]);
              var end := if close <= |src| then close else |src|;
              && i + Advance(s) == (if close + 1 <= |src| then close + 1 else |src|)
              && Emits(before, s) == if ImportPosition(before) then [src[i + 1..end]] else []
            else Advance(s) == 1 && Emits(before, s) == []
  {
    hide IndexOf, IndexOfBlockEnd, IndexOfClose, ImportPosition;
    var s := src[i..];
    assert s[1..] == src[i + 1..];
    if |s| >= 2 { assert s[2..] == src[i + 2..]; }
    if IsQuote(s[0]) {
      var to := Clamp(1 + IndexOfClose(s[1..], s[0]), s);
      assert s[1..to] == src[i + 1..i + to];
    }
  }

  lemma ScanStep(before: string, s: string)
    requires s != ""
    ensures Scan(before, s) == Emits(before, s) + Scan(before + s[..Advance(s)], s[Advance(s)..])
  {
    hide Advance, Emits;
  }

  lemma ScanEnd(before: string, s: string)
    ensures s == "" ==> Scan(before, s) == []
  {
  }

  /** One turn of the scanner, seen on the whole source. */
  lemma Turn(src: string, i: nat, next: nat)
    requires i < |src| && next == i + Advance(src[i..])
    ensures next <= |src|
    ensures Scan(src[..i], src[i..]) == Emits(src[..i], src[i..]) + Scan(src[..next], src[next..])
  {
    hide Advance, Emits, Scan;
    var s, n := src[i..], next - i;
    ScanStep(src[..i], s);
    assert src[..i] + s[..n] == src[..next] && s[n..] == src[next..];
  }

  /** The inner loop: from just after an opening quote to its partner. */
  method FindClose(src: string, from: nat, quote: char) returns (i: nat)
    requires from <= |src|
    ensures i == from + IndexOfClose(src[from..], quote)
  {
    i := from;
    while i < |src| && src[i] != quote
      invariant i <= |src| + 1
      invariant from + IndexOfClose(src[from..], quote) == if i <= |src| then i + IndexOfClose(src[i..], quote) else i
      decreases |src| + 1 - i
    {
      assert src[i..][1..] == src[i + 1..];
      if src[i] == '\\' {
        if i + 1 < |src| { assert src[i..][2..] == src[i + 2..]; }
        i := i + 1;
      }
      i := i + 1;
    }
  }

  /**
   * An import position: one of the three keywords, not after a letter, digit,
   * underscore, dot or dollar sign; then white space, at most one opening
   * parenthesis and white space again.
   */
  lemma PositionMeans(s: string)
    ensures ImportPosition(s) <==>
            exists before, word, a, paren, b ::
              && s == before + word + a + paren + b
              && (word == "from" || word == "import" || word == "require") && (paren == "" || paren == "(")
              && (before == "" || !InName(before[|before| - 1]))
              && AllSpace(a) && AllSpace(b)
    ensures forall c :: InName(c) <==> 'a' <= c <= 'z' || 'A' <= c <= 'Z' || '0' <= c <= '9' || c in "_.$"
  {
    ImportPositionIff(s);
    hide ImportPosition, AllSpace;
    if ImportPosition(s) {
      var before, word, a, paren, b :| KeyMatch(s, before, word, a, paren, b);
      BoundaryIff(before);
    }
    forall before, word, a, paren, b |
      && s == before + word + a + paren + b
      && (word == "from" || word == "import" || word == "require") && (paren == "" || paren == "(")
      && (before == "" || !InName(before[|before| - 1]))
      && AllSpace(a) && AllSpace(b)
      ensures ImportPosition(s)
    {
      BoundaryIff(before);
      assert KeyMatch(s, before, word, a, paren, b);
    }
  }

  /** A character a keyword may not stand directly after. */
  predicate InName(c: char) { IsWord(c) || c == '.' || c == '$' }

  lemma BoundaryIff(before: string)
    ensures Boundary(before) <==> before == "" || !InName(before[|before| - 1])
  {
  }

  // ── The grammar the scanner is held against ──────────────────────────────

  datatype Unit = Plain(c: char) | Escaped(c: char)

  datatype Token =
    | Code(c: char)
    | Line(text: string)
    | Block(text: string)
    | Literal(quote: char, body: seq<Unit>)

  /** How a source stops: cleanly, or inside something that is never closed. */
  datatype Ending =
    | Clean
    | OpenLine(text: string)
    | OpenBlock(text: string)
    | OpenLiteral(quote: char, body: seq<Unit>, dangling: bool)

  function UnitText(u: Unit): string {
    match u
    case Plain(c) => [c]
    case Escaped(c) => ['\\', c]
  }

  function BodyText(body: seq<Unit>): string {
    if body == [] then "" else UnitText(body[0]) + BodyText(body[1..])
  }

  function TokenText(t: Token): string {
    match t
    case Code(c) => [c]
    case Line(text) => "//" + text + "\n"
    case Block(text) => "/*" + text + "*/"
    case Literal(quote, body) => [quote] + BodyText(body) + [quote]
  }

  function EndingText(end: Ending): string {
    match end
    case Clean => ""
    case OpenLine(text) => "//" + text
    case OpenBlock(text) => "/*" + text
    case OpenLiteral(quote, body, dangling) => [quote] + BodyText(body) + (if dangling then "\\" else "")
  }

  function SourceText(ts: seq<Token>, end: Ending): string {
    if ts == [] then EndingText(end) else TokenText(ts[0]) + SourceText(ts[1..], end)
  }

  predicate ValidBody(body: seq<Unit>, quote: char) {
    forall i :: 0 <= i < |body| && body[i].Plain? ==> body[i].c != quote && body[i].c != '\\'
  }

  predicate NoBlockEnd(s: string) { IndexOfBlockEnd(s + "*/") == |s| }

  predicate ValidToken(t: Token, next: string) {
    match t
    case Code(c) => !IsQuote(c) && (c == '/' && next != "" ==> next[0] != '/' && next[0] != '*')
    case Line(text) => '\n' !in text
    case Block(text) => NoBlockEnd(text)
    case Literal(quote, body) => IsQuote(quote) && ValidBody(body, quote)
  }

  predicate ValidEnding(end: Ending) {
    match end
    case Clean => true
    case OpenLine(text) => '\n' !in text
    case OpenBlock(text) => IndexOfBlockEnd(text) == |text|
    case OpenLiteral(quote, body, _) => IsQuote(quote) && ValidBody(body, quote)
  }

  predicate ValidSource(ts: seq<Token>, end: Ending) {
    if ts == [] then ValidEnding(end)
    else ValidToken(ts[0], SourceText(ts[1..], end)) && ValidSource(ts[1..], end)
  }

  /** The bodies of the literals that stand in an import position, in order. */
  function Imported(before: string, ts: seq<Token>, end: Ending): seq<string>
    decreases |ts|
  {
    if ts == [] then
      if end.OpenLiteral? && ImportPosition(before) then [EndingText(end)[1..]] else []
    else
      (if ts[0].Literal? && ImportPosition(before) then [BodyText(ts[0].body)] else [])
      + Imported(before + TokenText(ts[0]), ts[1..], end)
  }

  lemma CloseSkips(c: char, tail: string, quote: char)
    requires IsQuote(quote)
    ensures c != quote && c != '\\' ==> IndexOfClose([c] + tail, quote) == 1 + IndexOfClose(tail, quote)
    ensures IndexOfClose(['\\', c] + tail, quote) == 2 + IndexOfClose(tail, quote)
  {
    assert ([c] + tail)[1..] == tail && (['\\', c] + tail)[2..] == tail;
  }

  lemma {:induction false} CloseOfBody(body: seq<Unit>, quote: char, rest: string)
    requires ValidBody(body, quote) && IsQuote(quote)
    ensures IndexOfClose(BodyText(body) + rest, quote) == |BodyText(body)| + IndexOfClose(rest, quote)
  {
    hide IndexOfClose;
    var s := BodyText(body) + rest;
    if body == [] {
      assert s == rest;
    } else {
      var tail := BodyText(body[1..]) + rest;
      CloseOfBody(body[1..], quote, rest);
      CloseSkips(body[0].c, tail, quote);
      if body[0].Plain? {
        assert s == [body[0].c] + tail;
      } else {
        assert s == ['\\', body[0].c] + tail;
      }
    }
  }

  lemma {:induction false} BlockEndOf(text: string, rest: string)
    requires NoBlockEnd(text)
    ensures IndexOfBlockEnd(text + "*/" + rest) == |text|
  {
    var s, t := text + "*/" + rest, text + "*/";
    if text != "" {
      assert t[0] == s[0] && t[1] == s[1];
      assert t[1..] == text[1..] + "*/" && s[1..] == text[1..] + "*/" + rest;
      BlockEndOf(text[1..], rest);
    }
  }

  lemma TurnOfBlock(text: string, next: string)
    requires NoBlockEnd(text)
    ensures Advance("/*" + text + "*/" + next) == |text| + 4
    ensures forall before :: Emits(before, "/*" + text + "*/" + next) == []
  {
    hide ImportPosition;
    var s := "/*" + text + "*/" + next;
    assert s[0] == '/' && s[1] == '*' && s[2..] == text + "*/" + next;
    BlockEndOf(text, next);
  }

  /** A literal is consumed up to its quote, or to the end when nothing closes it. */
  lemma TurnOfLiteral(before: string, quote: char, body: seq<Unit>, rest: string)
    requires IsQuote(quote) && ValidBody(body, quote)
    requires rest == "" || rest == "\\" || rest[0] == quote
    ensures var s := [quote] + BodyText(body) + rest;
            var closed := rest != "" && rest[0] == quote;
            && Advance(s) == 1 + |BodyText(body)| + (if closed then 1 else |rest|)
            && Emits(before, s) == if ImportPosition(before)
                                   then [if closed then BodyText(body) else BodyText(body) + rest] else []
  {
    hide ImportPosition, BodyText, IndexOfClose, IndexOf, IndexOfBlockEnd, ValidBody;
    var text := BodyText(body);
    var s := [quote] + text + rest;
    assert s[0] == quote && s[1..] == text + rest;
    CloseOfBody(body, quote, rest);
    CloseOfRest(rest, quote);
    var close := IndexOfClose(s[1..], quote);
    if rest != "" && rest[0] == quote {
      assert s[1..1 + |text|] == text;
    } else {
      assert close >= |s| - 1;
      assert s[1..Clamp(1 + close, s)] == s[1..|s|] == text + rest;
    }
  }

  lemma CloseOfRest(rest: string, quote: char)
    requires IsQuote(quote)
    ensures rest == "" || (rest != "" && rest[0] == quote) ==> IndexOfClose(rest, quote) == 0
    ensures rest == "\\" ==> IndexOfClose(rest, quote) == 2
  {
  }

  /** One turn of the scanner consumes one token and pushes what that token calls for. */
  lemma TurnOfToken(before: string, t: Token, next: string)
    requires ValidToken(t, next) && !t.Line?
    ensures var s := TokenText(t) + next;
            && Advance(s) == |TokenText(t)|
            && Emits(before, s) == if t.Literal? && ImportPosition(before) then [BodyText(t.body)] else []
  {
    hide ImportPosition, IndexOfClose, IndexOfBlockEnd, IndexOf, BodyText, ValidBody, NoBlockEnd;
    match t
    case Code(c) =>
    case Block(text) =>
      TurnOfBlock(text, next);
      assert TokenText(t) + next == "/*" + text + "*/" + next;
    case Literal(quote, body) =>
      TurnOfLiteral(before, quote, body, [quote] + next);
      assert TokenText(t) + next == [quote] + BodyText(body) + ([quote] + next);
  }

  lemma ScanTurn(before: string, text: string, next: string)
    requires text != "" && Advance(text + next) == |text|
    ensures Scan(before, text + next) == Emits(before, text + next) + Scan(before + text, next)
  {
    var s := text + next;
    assert s[..|text|] == text && s[|text|..] == next;
  }

  lemma ScanOfLine(before: string, text: string, next: string)
    requires '\n' !in text
    ensures Scan(before, "//" + text + "\n" + next) == Scan(before + ("//" + text + "\n"), next)
  {
    var open := "//" + text;
    assert "//" + text + "\n" + next == open + ("\n" + next);
    IndexOfFirst(open, '\n', next);
    assert open + ['\n'] + next == open + ("\n" + next);
    ScanTurn(before, open, "\n" + next);
    ScanTurn(before + open, "\n", next);
    assert before + open + "\n" == before + ("//" + text + "\n");
  }

  lemma ScanOfEnding(before: string, end: Ending)
    requires ValidEnding(end)
    ensures Scan(before, EndingText(end)) == Imported(before, [], end)
  {
    hide ImportPosition;
    var s := EndingText(end);
    match end
    case Clean =>
    case OpenLine(text) =>
      assert '\n' !in s;
      IndexOfMissing(s, '\n');
    case OpenBlock(text) =>
      assert s[2..] == text;
    case OpenLiteral(quote, body, dangling) =>
      var rest := if dangling then "\\" else "";
      TurnOfLiteral(before, quote, body, rest);
      assert s == [quote] + BodyText(body) + rest && s[1..] == BodyText(body) + rest;
      assert s + "" == s;
      ScanTurn(before, s, "");
  }

  lemma ScanOfToken(before: string, t: Token, next: string)
    requires ValidToken(t, next)
    ensures Scan(before, TokenText(t) + next)
            == (if t.Literal? && ImportPosition(before) then [BodyText(t.body)] else []) + Scan(before + TokenText(t), next)
  {
    hide ImportPosition, Scan, Advance, Emits, BodyText;
    if t.Line? {
      ScanOfLine(before, t.text, next);
    } else {
      TurnOfToken(before, t, next);
      ScanTurn(before, TokenText(t), next);
    }
  }

  /**
   * Scanning a source gives, in order, exactly the bodies of its literals that
   * stand in an import position; comments and other literals give nothing.
   */
  lemma {:induction false} ScanOfSource(before: string, ts: seq<Token>, end: Ending)
    requires ValidSource(ts, end)
    ensures Scan(before, SourceText(ts, end)) == Imported(before, ts, end)
    decreases |ts|
  {
    hide ImportPosition, Scan, Advance, Emits, TokenText, ValidToken, BodyText;
    if ts == [] {
      ScanOfEnding(before, end);
    } else {
      var next := SourceText(ts[1..], end);
      ScanOfSource(before + TokenText(ts[0]), ts[1..], end);
      ScanOfToken(before, ts[0], next);
    }
  }

  lemma {:induction false} BlockEndBefore(text: string, rest: string)
    requires IndexOfBlockEnd(text + "*/" + rest) == |text|
    ensures NoBlockEnd(text)
  {
    var s, t := text + "*/" + rest, text + "*/";
    if text != "" {
      assert t[0] == s[0] && t[1] == s[1];
      assert t[1..] == text[1..] + "*/" && s[1..] == text[1..] + "*/" + rest;
      BlockEndBefore(text[1..], rest);
    }
  }

  lemma {:induction false} ReadBody(s: string, quote: char) returns (body: seq<Unit>, rest: string)
    requires IsQuote(quote)
    ensures s == BodyText(body) + rest && ValidBody(body, quote)
    ensures rest == "" || rest == "\\" || rest[0] == quote
    decreases |s|
  {
    if s == "" || s == "\\" || s[0] == quote {
      return [], s;
    }
    hide BodyText, ValidBody;
    var tail: seq<Unit>;
    var unit, n := Plain(s[0]), 1;
    if s[0] == '\\' { unit, n := Escaped(s[1]), 2; }
    tail, rest := ReadBody(s[n..], quote);
    body := [unit] + tail;
    BodyCons(unit, tail, quote);
    assert s[..n] == UnitText(unit);
    assert ValidBody([unit], quote) by { OneUnit(unit, quote); }
    assert s == s[..n] + s[n..] == UnitText(unit) + (BodyText(tail) + rest);
  }

  lemma OneUnit(unit: Unit, quote: char)
    ensures ValidBody([unit], quote) <==> unit.Escaped? || (unit.c != quote && unit.c != '\\')
  {
    assert [unit][0] == unit;
  }

  lemma BodyCons(unit: Unit, tail: seq<Unit>, quote: char)
    ensures BodyText([unit] + tail) == UnitText(unit) + BodyText(tail)
    ensures ValidBody(tail, quote) && ValidBody([unit], quote) ==> ValidBody([unit] + tail, quote)
  {
    assert ([unit] + tail)[1..] == tail;
  }

  /** The first token of a source that is not empty, or its ending. */
  lemma ReadToken(s: string) returns (t: Token, next: string, end: Ending, last: bool)
    requires s != ""
    ensures last ==> ValidEnding(end) && EndingText(end) == s
    ensures !last ==> ValidToken(t, next) && TokenText(t) + next == s && |next| < |s|
  {
    hide ValidToken, ValidEnding, TokenText, EndingText;
    if StartsComment(s, '/') {
      t, next, end, last := ReadLine(s);
    } else if StartsComment(s, '*') {
      t, next, end, last := ReadBlock(s);
    } else if IsQuote(s[0]) {
      t, next, end, last := ReadLiteral(s);
    } else {
      t, next, end, last := Code(s[0]), s[1..], Clean, false;
      ReadCode(s);
    }
  }

  lemma ReadCode(s: string)
    requires s != "" && !IsQuote(s[0]) && !StartsComment(s, '/') && !StartsComment(s, '*')
    ensures ValidToken(Code(s[0]), s[1..]) && TokenText(Code(s[0])) + s[1..] == s
  {
  }

  lemma ReadLine(s: string) returns (t: Token, next: string, end: Ending, last: bool)
    requires StartsComment(s, '/')
    ensures last ==> ValidEnding(end) && EndingText(end) == s
    ensures !last ==> ValidToken(t, next) && TokenText(t) + next == s && |next| < |s|
  {
    hide IndexOf;
    var nl := IndexOf(s, '\n');
    t, next, end, last := Line(""), "", OpenLine(s[2..]), true;
    if nl == |s| {
      assert s[..nl] == s;
    } else {
      t, next, last := Line(s[2..nl]), s[nl + 1..], false;
      assert forall c :: c in s[2..nl] ==> c in s[..nl];
      assert s == s[..nl] + ["\n"[0]] + next;
      assert s[..nl] == "//" + s[2..nl];
    }
  }

  lemma ReadBlock(s: string) returns (t: Token, next: string, end: Ending, last: bool)
    requires StartsComment(s, '*')
    ensures last ==> ValidEnding(end) && EndingText(end) == s
    ensures !last ==> ValidToken(t, next) && TokenText(t) + next == s && |next| < |s|
  {
    hide IndexOfBlockEnd, NoBlockEnd;
    var e := IndexOfBlockEnd(s[2..]);
    t, next, end, last := Block(""), "", OpenBlock(s[2..]), true;
    if e < |s| - 2 {
      var text := s[2..2 + e];
      t, next, last := Block(text), s[e + 4..], false;
      assert s[2..] == text + "*/" + next;
      BlockEndBefore(text, next);
      assert s == "/*" + s[2..];
    }
  }

  lemma ReadLiteral(s: string) returns (t: Token, next: string, end: Ending, last: bool)
    requires s != "" && IsQuote(s[0])
    ensures last ==> ValidEnding(end) && EndingText(end) == s
    ensures !last ==> ValidToken(t, next) && TokenText(t) + next == s && |next| < |s|
  {
    hide BodyText, ValidBody;
    var body, rest := ReadBody(s[1..], s[0]);
    assert s == [s[0]] + s[1..] == [s[0]] + BodyText(body) + rest;
    t, next, end, last := Literal(s[0], body), "", OpenLiteral(s[0], body, rest == "\\"), true;
    if rest != "" && rest[0] == s[0] {
      next, last := rest[1..], false;
      assert rest == [s[0]] + next;
    }
  }

  /** Every source is the text of some valid tokens, so the theorem above covers every source. */
  lemma {:induction false} EverySourceHasTokens(s: string)
    ensures exists ts, end :: ValidSource(ts, end) && SourceText(ts, end) == s
    decreases |s|
  {
    hide ValidToken, TokenText;
    if s == "" {
      assert ValidSource([], Clean) && SourceText([], Clean) == s;
      return;
    }
    hide ValidEnding, EndingText;
    var t, next, end, last := ReadToken(s);
    if last {
      assert ValidSource([], end) && SourceText([], end) == s;
    } else {
      EverySourceHasTokens(next);
      var ts, end' :| ValidSource(ts, end') && SourceText(ts, end') == next;
      assert ([t] + ts)[1..] == ts;
      assert ValidSource([t] + ts, end') && SourceText([t] + ts, end') == s;
    }
  }

  /** The audit's answer for any source, in terms of its tokens alone. */
  lemma SpecifiersAreImports(src: string)
    ensures exists ts, end :: ValidSource(ts, end) && SourceText(ts, end) == src && Scan("", src) == Imported("", ts, end)
    ensures forall ts, end :: ValidSource(ts, end) && SourceText(ts, end) == src ==> Scan("", src) == Imported("", ts, end)
  {
    EverySourceHasTokens(src);
    forall ts, end | ValidSource(ts, end) && SourceText(ts, end) == src
      ensures Scan("", src) == Imported("", ts, end)
    {
      ScanOfSource("", ts, end);
    }
  }

  // ── The scanner's answer, piece by piece ─────────────────────────────────

  /** Text with no quote of this kind and no backslash in it. */
  predicate PlainText(text: string, quote: char) { forall i :: 0 <= i < |text| ==> text[i] != quote && text[i] != '\\' }

  function Plains(text: string): (body: seq<Unit>)
    ensures |body| == |text| && forall i :: 0 <= i < |text| ==> body[i] == Plain(text[i])
  {
    seq(|text|, i requires 0 <= i < |text| => Plain(text[i]))
  }

  lemma {:induction false} PlainsText(text: string)
    ensures BodyText(Plains(text)) == text
  {
    if text != "" {
      PlainsText(text[1..]);
      assert Plains(text)[1..] == Plains(text[1..]);
      assert text == [text[0]] + text[1..];
    }
  }

  lemma {:induction false} BodyConcat(a: seq<Unit>, b: seq<Unit>)
    ensures BodyText(a + b) == BodyText(a) + BodyText(b)
  {
    hide BodyText, UnitText, ValidBody;
    if a == [] {
      assert a + b == b;
      EmptyBody();
    } else {
      BodyConcat(a[1..], b);
      BodyCons(a[0], a[1..] + b, '"');
      BodyCons(a[0], a[1..], '"');
      assert [a[0]] + (a[1..] + b) == a + b && [a[0]] + a[1..] == a;
    }
  }

  lemma EmptyBody()
    ensures BodyText([]) == ""
  {
  }

  /** A literal in any of the three quotes is passed over whole, and pushed when an import position is before it. */
  lemma ScanLiteral(before: string, quote: char, text: string, next: string)
    requires (quote == '"' || quote == '\'' || quote == '`') && PlainText(text, quote)
    ensures Scan(before, [quote] + text + [quote] + next)
            == (if ImportPosition(before) then [text] else []) + Scan(before + ([quote] + text + [quote]), next)
  {
    hide ImportPosition, Scan;
    PlainsText(text);
    ScanOfToken(before, Literal(quote, Plains(text)), next);
  }

  /** A backslash takes the character after it, quote or not, into the literal. */
  lemma ScanEscaped(before: string, quote: char, a: string, c: char, b: string, next: string)
    requires (quote == '"' || quote == '\'' || quote == '`') && PlainText(a, quote) && PlainText(b, quote)
    ensures var text := a + ['\\', c] + b;
            Scan(before, [quote] + text + [quote] + next)
            == (if ImportPosition(before) then [text] else []) + Scan(before + ([quote] + text + [quote]), next)
  {
    hide ImportPosition, Scan, BodyText;
    var body := Plains(a) + [Escaped(c)] + Plains(b);
    PlainsText(a);
    PlainsText(b);
    BodyConcat(Plains(a) + [Escaped(c)], Plains(b));
    BodyConcat(Plains(a), [Escaped(c)]);
    OneEscape(c);
    ScanOfToken(before, Literal(quote, body), next);
  }

  lemma OneEscape(c: char)
    ensures BodyText([Escaped(c)]) == ['\\', c]
  {
    assert [Escaped(c)][1..] == [];
    assert BodyText([]) == "";
  }

  /** Comments push nothing and are passed over: to the end of the line, or to the first end mark. */
  lemma ScanComments(before: string, text: string, next: string)
    ensures '\n' !in text ==> Scan(before, "//" + text + "\n" + next) == Scan(before + ("//" + text + "\n"), next)
    ensures (forall i :: 0 <= i < |text| ==> text[i] != '*' || (if i + 1 < |text| then text[i + 1] != '/' else true)) ==>
            Scan(before, "/*" + text + "*/" + next) == Scan(before + ("/*" + text + "*/"), next)
  {
    if '\n' !in text { ScanOfLine(before, text, next); }
    if forall i :: 0 <= i < |text| ==> text[i] != '*' || (if i + 1 < |text| then text[i + 1] != '/' else true) {
      NoEndInside(text);
      ScanOfToken(before, Block(text), next);
    }
  }

  lemma {:induction false} NoEndInside(text: string)
    requires forall i :: 0 <= i < |text| ==> text[i] != '*' || (if i + 1 < |text| then text[i + 1] != '/' else true)
    ensures NoBlockEnd(text)
  {
    var s := text + "*/";
    if text != "" {
      assert s[1..] == text[1..] + "*/";
      assert s[0] == text[0] && s[1] == if |text| > 1 then text[1] else '*';
      forall i | 0 <= i < |text[1..]|
        ensures text[1..][i] != '*' || (if i + 1 < |text[1..]| then text[1..][i + 1] != '/' else true)
      {
        assert text[1..][i] == text[i + 1];
      }
      NoEndInside(text[1..]);
    }
  }

  /** What is never closed runs to the end: a comment pushes nothing, a literal what there is of it. */
  lemma ScanUnclosed(before: string, quote: char, text: string, dangling: bool)
    ensures '\n' !in text ==> Scan(before, "//" + text) == []
    ensures (quote == '"' || quote == '\'' || quote == '`') && PlainText(text, quote) ==>
              var rest := text + if dangling then "\\" else "";
              Scan(before, [quote] + rest) == if ImportPosition(before) then [rest] else []
  {
    hide ImportPosition, Scan, BodyText;
    if '\n' !in text { ScanOfEnding(before, OpenLine(text)); }
    if (quote == '"' || quote == '\'' || quote == '`') && PlainText(text, quote) {
      PlainsText(text);
      var end := OpenLiteral(quote, Plains(text), dangling);
      ScanOfEnding(before, end);
      var rest := text + if dangling then "\\" else "";
      assert EndingText(end) == [quote] + rest;
    }
  }

  /** Any other character is passed over alone, and at the end there is nothing. */
  lemma ScanCode(before: string, c: char, next: string)
    requires c != '"' && c != '\'' && c != '`'
    requires c != '/' || next == "" || (next[0] != '/' && next[0] != '*')
    ensures Scan(before, [c] + next) == Scan(before + [c], next)
    ensures Scan(before, "") == []
  {
    ScanOfToken(before, Code(c), next);
  }

  // ── What the position test makes of comments ─────────────────────────────

  predicate IsComment(t: Token) { t.Line? || t.Block? }

  /** The text of some tokens as it stands, and with a space in place of each comment. */
  function RawText(ts: seq<Token>): string {
    if ts == [] then "" else RawText(ts[..|ts| - 1]) + TokenText(ts[|ts| - 1])
  }

  function CodeOf(t: Token): string { if IsComment(t) then " " else TokenText(t) }

  function CodeText(ts: seq<Token>): string {
    if ts == [] then "" else CodeText(ts[..|ts| - 1]) + CodeOf(ts[|ts| - 1])
  }

  /** How many tokens there are up to the last comment, that one included. */
  function UpToComment(ts: seq<Token>): (k: nat)
    ensures k <= |ts|
    ensures k > 0 ==> IsComment(ts[k - 1])
  {
    if ts == [] then 0 else if IsComment(ts[|ts| - 1]) then |ts| else UpToComment(ts[..|ts| - 1])
  }

  /** The text after the last comment. */
  function Tail(ts: seq<Token>): string {
    if ts == [] || IsComment(ts[|ts| - 1]) then "" else Tail(ts[..|ts| - 1]) + TokenText(ts[|ts| - 1])
  }

  /** The code before this point ends in an import position, comments left out of account. */
  predicate InCode(ts: seq<Token>) { ImportPosition(CodeText(ts)) }

  /** A text without the white space and the opening parenthesis an import position may end in. */
  function Core(s: string): string {
    var t := TrimEnd(s);
    if t != "" && t[|t| - 1] == '(' then TrimEnd(t[..|t| - 1]) else t
  }

  /** `\s*\(?\s*` and nothing else. */
  predicate Gap(s: string) { Core(s) == "" }

  /** A line comment that itself ends in an import keyword is all that makes this an import position. */
  predicate Invented(ts: seq<Token>) {
    var k := UpToComment(ts);
    && k > 0 && ts[k - 1].Line? && Gap(Tail(ts))
    && ImportPosition(ts[k - 1].text + "\n" + Tail(ts)) && !InCode(ts)
  }

  /** A comment stands between the keyword and this point. */
  predicate Missed(ts: seq<Token>) {
    var k := UpToComment(ts);
    && k > 0 && Gap(Tail(ts)) && InCode(ts)
    && (ts[k - 1].Line? ==> !ImportPosition(ts[k - 1].text + "\n" + Tail(ts)))
  }

  lemma {:induction false} TrimEndConcat(x: string, s: string)
    ensures TrimEnd(x + s) == if TrimEnd(s) == "" then TrimEnd(x) else x + TrimEnd(s)
    decreases |s|
  {
    if s == "" {
      assert x + s == x;
    } else {
      var u := x + s;
      assert u[|u| - 1] == s[|s| - 1] && u[..|u| - 1] == x + s[..|s| - 1];
      if IsSpace(s[|s| - 1]) { TrimEndConcat(x, s[..|s| - 1]); }
    }
  }

  lemma CoreConcat(x: string, s: string)
    requires !Gap(s)
    ensures Core(x + s) == x + Core(s)
  {
    hide TrimEnd, IsSpace;
    TrimEndConcat(x, s);
    var t := TrimEnd(s);
    if t != "" {
      var u := x + t;
      assert u[|u| - 1] == t[|t| - 1] && u[..|u| - 1] == x + t[..|t| - 1];
      TrimEndConcat(x, t[..|t| - 1]);
    }
  }

  lemma SlashStays(x: string)
    requires x != "" && x[|x| - 1] == '/'
    ensures TrimEnd(x) == x
  {
  }

  lemma CoreAfterSlash(x: string, s: string)
    requires x != "" && x[|x| - 1] == '/' && Gap(s)
    ensures Core(x + s) == x
  {
    hide TrimEnd, IsSpace;
    SlashStays(x);
    TrimEndConcat(x, s);
    var t := TrimEnd(s);
    if t != "" {
      var u := x + t;
      assert u[|u| - 1] == t[|t| - 1] && u[..|u| - 1] == x + t[..|t| - 1];
      TrimEndConcat(x, t[..|t| - 1]);
    }
  }

  predicate EndsWithKeyword(u: string) {
    EndsWithWord(u, "from") || EndsWithWord(u, "import") || EndsWithWord(u, "require")
  }

  lemma PositionByCore(s: string)
    ensures ImportPosition(s) <==> EndsWithKeyword(Core(s))
  {
  }

  lemma KeywordLetters(word: string)
    requires IsKeyword(word)
    ensures word != "" && forall i :: 0 <= i < |word| ==> IsWord(word[i])
  {
  }

  lemma WordLocal(x: string, u: string, word: string)
    requires x != "" && u != "" && Boundary(x)
    requires IsKeyword(word)
    ensures EndsWithWord(x + u, word) <==> EndsWithWord(u, word)
  {
    hide IsWord, IsKeyword;
    KeywordLetters(word);
    var s := x + u;
    if |u| >= |word| {
      assert s[|s| - |word|..] == u[|u| - |word|..];
      assert s[..|s| - |word|] == x + u[..|u| - |word|];
      if |u| == |word| { assert s[..|s| - |word|] == x; }
    } else if |s| >= |word| {
      var end, at := s[|s| - |word|..], |word| - |u| - 1;
      assert end[at] == s[|x| - 1] == x[|x| - 1];
      assert !IsWord(end[at]);
    }
  }

  /** After anything that bounds a word, text that is not a gap decides by itself. */
  lemma TailDecides(x: string, s: string)
    requires x != "" && Boundary(x) && !Gap(s)
    ensures ImportPosition(x + s) <==> ImportPosition(s)
  {
    hide Core, ImportPosition, EndsWithWord, Boundary;
    CoreConcat(x, s);
    PositionByCore(s);
    PositionByCore(x + s);
    WordLocal(x, Core(s), "from");
    WordLocal(x, Core(s), "import");
    WordLocal(x, Core(s), "require");
  }

  lemma GapDecides(x: string, s: string)
    requires Gap(s) && x != "" && x[|x| - 1] == '/'
    ensures !ImportPosition(s) && !ImportPosition(x + s)
  {
    hide Core, ImportPosition, EndsWithKeyword;
    PositionByCore(s);
    PositionByCore(x + s);
    CoreAfterSlash(x, s);
    NoKeywordThere(x);
  }

  lemma NoKeywordThere(x: string)
    ensures x == "" || x[|x| - 1] == '/' ==> !EndsWithKeyword(x)
    ensures !EndsWithKeyword("")
  {
  }

  /** A slash cuts a position off from what is before it. */
  lemma SlashCuts(x: string, s: string)
    requires x != "" && x[|x| - 1] == '/'
    ensures ImportPosition(x + s) <==> ImportPosition(s)
  {
    if Gap(s) { GapDecides(x, s); } else { TailDecides(x, s); }
  }

  lemma {:induction false} SplitAtComment(ts: seq<Token>)
    ensures var k := UpToComment(ts);
            && RawText(ts) == RawText(ts[..k]) + Tail(ts)
            && CodeText(ts) == CodeText(ts[..k]) + Tail(ts)
  {
    hide TokenText;
    var k := UpToComment(ts);
    if ts == [] || IsComment(ts[|ts| - 1]) {
      assert ts[..k] == ts;
    } else {
      var init := ts[..|ts| - 1];
      SplitAtComment(init);
      assert init[..k] == ts[..k];
    }
  }

  /** What the position test says of a text whose last comment is known. */
  lemma RawVerdict(ts: seq<Token>)
    requires UpToComment(ts) > 0
    ensures var c := ts[UpToComment(ts) - 1];
            ImportPosition(RawText(ts)) <==> ImportPosition(if c.Line? then c.text + "\n" + Tail(ts) else Tail(ts))
  {
    hide ImportPosition, RawText, CodeText, Tail, TokenText, UpToComment;
    var k := UpToComment(ts);
    var c := ts[k - 1];
    var tail := Tail(ts);
    SplitAtComment(ts);
    Grown(ts, k);
    CommentEnds(RawText(ts[..k - 1]), c, tail);
    if c.Line? {
      SlashCuts(RawText(ts[..k - 1]) + "//", c.text + "\n" + tail);
    } else {
      SlashCuts(RawText(ts[..k - 1]) + TokenText(c), tail);
    }
  }

  lemma Grown(ts: seq<Token>, k: nat)
    requires 0 < k <= |ts|
    ensures RawText(ts[..k]) == RawText(ts[..k - 1]) + TokenText(ts[k - 1])
    ensures CodeText(ts[..k]) == CodeText(ts[..k - 1]) + CodeOf(ts[k - 1])
  {
    assert ts[..k][..k - 1] == ts[..k - 1];
  }

  lemma CommentEnds(before: string, c: Token, tail: string)
    requires IsComment(c)
    ensures c.Line? ==> before + TokenText(c) + tail == (before + "//") + (c.text + "\n" + tail)
    ensures c.Block? ==> TokenText(c) != "" && TokenText(c)[|TokenText(c)| - 1] == '/'
  {
  }

  lemma NothingYet()
    ensures RawText([]) == "" && CodeText([]) == ""
  {
  }

  lemma Bounds(s: string, c: char)
    ensures c == ' ' || c == '\n' ==> Boundary(s + [c])
  {
  }

  /**
   * The position test reads comments too. It differs from what the code alone
   * says exactly where only a gap follows the last comment and that comment is a
   * line ending in a keyword, or stands behind the keyword of the code.
   */
  lemma PositionVersusCode(ts: seq<Token>)
    ensures ImportPosition(RawText(ts)) && !InCode(ts) <==> Invented(ts)
    ensures !ImportPosition(RawText(ts)) && InCode(ts) <==> Missed(ts)
  {
    hide ImportPosition, Gap, RawText, CodeText, Tail, UpToComment, Boundary;
    var k := UpToComment(ts);
    var tail := Tail(ts);
    SplitAtComment(ts);
    if k == 0 {
      assert ts[..k] == [];
      assert RawText([]) == CodeText([]) by { NothingYet(); }
    } else {
      RawVerdict(ts);
      Grown(ts, k);
      var code := CodeText(ts[..k]);
      assert code == CodeText(ts[..k - 1]) + " ";
      Bounds(CodeText(ts[..k - 1]), ' ');
      if ts[k - 1].Line? { Bounds(ts[k - 1].text, '\n'); }
      if Gap(tail) {
        GapDecides("/", tail);
      } else {
        TailDecides(code, tail);
        if ts[k - 1].Line? { TailDecides(ts[k - 1].text + "\n", tail); }
      }
    }
  }

  /** The literals the code alone imports, in order. */
  function ImportedByCode(done: seq<Token>, ts: seq<Token>, end: Ending): seq<string>
    decreases |ts|
  {
    if ts == [] then
      if end.OpenLiteral? && InCode(done) then [EndingText(end)[1..]] else []
    else
      (if ts[0].Literal? && InCode(done) then [BodyText(ts[0].body)] else [])
      + ImportedByCode(done + [ts[0]], ts[1..], end)
  }

  /** A literal begins after the first `i` of these tokens. */
  predicate LiteralAt(ts: seq<Token>, end: Ending, i: nat) {
    if i < |ts| then ts[i].Literal? else i == |ts| && end.OpenLiteral?
  }

  lemma Shifted(done: seq<Token>, ts: seq<Token>, i: nat)
    requires i < |ts|
    ensures done + [ts[0]] + ts[1..][..i] == done + ts[..i + 1]
  {
    assert [ts[0]] + ts[1..][..i] == ts[..i + 1];
  }

  lemma {:induction false} SameImports(done: seq<Token>, ts: seq<Token>, end: Ending)
    requires forall i :: 0 <= i <= |ts| && LiteralAt(ts, end, i) ==> !Invented(done + ts[..i]) && !Missed(done + ts[..i])
    ensures Imported(RawText(done), ts, end) == ImportedByCode(done, ts, end)
    decreases |ts|
  {
    hide ImportPosition, Invented, Missed, InCode, TokenText;
    PositionVersusCode(done);
    assert done + ts[..0] == done;
    assert LiteralAt(ts, end, 0) ==> !Invented(done) && !Missed(done);
    if ts != [] {
      var more := done + [ts[0]];
      assert more[..|more| - 1] == done;
      assert RawText(more) == RawText(done) + TokenText(ts[0]);
      forall i | 0 <= i <= |ts[1..]| && LiteralAt(ts[1..], end, i)
        ensures !Invented(more + ts[1..][..i]) && !Missed(more + ts[1..][..i])
      {
        assert LiteralAt(ts, end, i + 1);
        Shifted(done, ts, i);
      }
      SameImports(more, ts[1..], end);
    }
  }

  /**
   * The audit's answer for a source is read from its code alone when no literal of
   * it is one of the two kinds; every literal of those kinds is judged wrongly.
   */
  lemma ReadFromCodeIff(ts: seq<Token>, end: Ending)
    requires ValidSource(ts, end)
    ensures (forall i :: 0 <= i <= |ts| && LiteralAt(ts, end, i) ==> !Invented(ts[..i]) && !Missed(ts[..i])) <==>
            (forall i :: 0 <= i <= |ts| && LiteralAt(ts, end, i) ==> (ImportPosition(RawText(ts[..i])) <==> InCode(ts[..i])))
    ensures (forall i :: 0 <= i <= |ts| && LiteralAt(ts, end, i) ==> !Invented(ts[..i]) && !Missed(ts[..i])) ==>
            Scan("", SourceText(ts, end)) == ImportedByCode([], ts, end)
  {
    hide ImportPosition, InCode, Invented, Missed, Scan, ValidSource;
    forall i | 0 <= i <= |ts|
      ensures (ImportPosition(RawText(ts[..i])) <==> InCode(ts[..i])) <==> !Invented(ts[..i]) && !Missed(ts[..i])
    {
      PositionVersusCode(ts[..i]);
    }
    if forall i :: 0 <= i <= |ts| && LiteralAt(ts, end, i) ==> !Invented(ts[..i]) && !Missed(ts[..i]) {
      forall i | 0 <= i <= |ts| && LiteralAt(ts, end, i) ensures !Invented([] + ts[..i]) && !Missed([] + ts[..i]) {
        assert [] + ts[..i] == ts[..i];
      }
      ScanOfSource("", ts, end);
      SameImports([], ts, end);
    }
  }

  /** Both kinds occur: a specifier is invented by a comment, and one is missed behind a comment. */
  lemma CommentsAreRead()
    ensures Invented([Line(" import")]) && Missed(HIDDEN)
    ensures Scan("", "// import\n\"x\"") == ["x"]
    ensures Scan("", "from/**/\"y\"") == []
  {
    LineInvents();
    BlockHides();
    InventedScan();
    MissedScan();
  }

  lemma OneLetter(c: char)
    requires c != '"' && c != '\\'
    ensures ValidToken(Literal('"', [Plain(c)]), "") && TokenText(Literal('"', [Plain(c)])) == ['"', c, '"']
    ensures BodyText([Plain(c)]) == [c]
  {
    assert [Plain(c)][1..] == [];
    assert BodyText([]) == "";
  }

  lemma InventedScan()
    ensures Scan("", "// import\n\"x\"") == ["x"]
  {
    hide ImportPosition, Scan, BodyText, ValidBody;
    var line, x := Line(" import"), Literal('"', [Plain('x')]);
    var ts := [line, x];
    OneLetter('x');
    var raw := "// import\n";
    assert TokenText(line) == raw;
    assert ts[1..] == [x] && [x][1..] == [] && SourceText([], Clean) == "";
    assert SourceText([x], Clean) == "\"x\"";
    assert SourceText(ts, Clean) == raw + "\"x\"" == "// import\n\"x\"";
    assert ValidSource([], Clean) && ValidSource([x], Clean) && ValidSource(ts, Clean);
    ScanOfSource("", ts, Clean);
    ConcretePositions();
    SlashCuts("//", " import\n");
    assert "//" + " import\n" == raw && "" + raw == raw;
    assert Imported(raw, [x], Clean) == ["x"] + Imported(raw + "\"x\"", [], Clean);
  }

  lemma MissedScan()
    ensures Scan("", "from/**/\"y\"") == []
  {
    hide ImportPosition, Scan, BodyText, ValidBody;
    var y := Literal('"', [Plain('y')]);
    OneLetter('y');
    assert SourceText([], Clean) == "" && [y][1..] == [];
    assert SourceText([y], Clean) == "\"y\"" && ValidSource([], Clean) && ValidSource([y], Clean);
    var block := [Block(""), y];
    assert block[1..] == [y] && NoBlockEnd("") && TokenText(Block("")) == "/**/";
    assert SourceText(block, Clean) == "/**/\"y\"" && ValidSource(block, Clean);
    ScanOfSource("from", block, Clean);
    ConcretePositions();
    SlashCuts("from/**/", "");
    assert "from/**/" + "" == "from/**/" == "from" + "/**/";
    NothingInWord(SourceText(block, Clean));
    assert "from" + SourceText(block, Clean) == "from/**/\"y\"";
    assert Imported("from", block, Clean) == [] + Imported("from/**/", [y], Clean) == [];
  }

  lemma NothingInWord(rest: string)
    ensures Scan("", "from" + rest) == Scan("from", rest)
  {
    hide Scan;
    OneCode("", 'f', "rom" + rest);
    OneCode("f", 'r', "om" + rest);
    OneCode("fr", 'o', "m" + rest);
    OneCode("fro", 'm', rest);
    assert ['f'] + ("rom" + rest) == "from" + rest && ['r'] + ("om" + rest) == "rom" + rest;
    assert ['o'] + ("m" + rest) == "om" + rest && ['m'] + rest == "m" + rest;
    assert "" + ['f'] == "f" && "f" + ['r'] == "fr" && "fr" + ['o'] == "fro" && "fro" + ['m'] == "from";
  }

  lemma OneCode(before: string, c: char, rest: string)
    requires !IsQuote(c) && c != '/'
    ensures Scan(before, [c] + rest) == Scan(before + [c], rest)
  {
    hide Scan;
    ScanTurn(before, [c], rest);
  }

  lemma LineInvents()
    ensures Invented([Line(" import")])
  {
    hide ImportPosition, TrimEnd, KeyMatch;
    var ts, s := [Line(" import")], " import\n";
    assert ts[..0] == [];
    assert CodeText(ts) == " " && Tail(ts) == "" && UpToComment(ts) == 1;
    ConcretePositions();
    assert " import" + "\n" + "" == s;
  }

  lemma ConcretePositions()
    ensures Gap("") && !ImportPosition("") && !ImportPosition(" ")
    ensures ImportPosition(" import\n") && ImportPosition("from ")
  {
    hide ImportPosition, KeyMatch, Gap;
    SpaceIsNoPosition();
    KeywordThenSpace(" ", "import", "\n");
    KeywordThenSpace("", "from", " ");
    assert " " + "import" + "\n" == " import\n" && "" + "from" + " " == "from ";
  }

  lemma KeywordThenSpace(before: string, word: string, space: string)
    requires Boundary(before) && IsKeyword(word) && AllSpace(space)
    ensures ImportPosition(before + word + space)
  {
    hide ImportPosition, Boundary, IsKeyword, AllSpace;
    var s := before + word + space;
    assert s == before + word + space + "" + "";
    NoSpace("");
    assert KeyMatch(s, before, word, space, "", "");
    ReadingSuffices(s, before, word, space, "", "");
  }

  lemma SpaceIsNoPosition()
    ensures Gap("") && !ImportPosition("") && !ImportPosition(" ")
  {
    assert TrimEnd(" ") == TrimEnd("") == "";
  }

  const HIDDEN := [Code('f'), Code('r'), Code('o'), Code('m'), Block("")]

  lemma BlockHides()
    ensures Missed(HIDDEN)
  {
    hide ImportPosition, TrimEnd, CodeText, Gap;
    HiddenCode();
    ConcretePositions();
  }

  lemma HiddenCode()
    ensures CodeText(HIDDEN) == "from "
  {
    hide CodeText, RawText;
    var ts := HIDDEN;
    NothingYet();
    assert ts[..0] == [] && ts[..5] == ts;
    Grown(ts, 1);
    Grown(ts, 2);
    Grown(ts, 3);
    Grown(ts, 4);
    Grown(ts, 5);
    assert CodeText(ts) == "" + "f" + "r" + "o" + "m" + " ";
  }
}
