/**
 * The SPECIFIER pattern of scripts/vendor-fips.mjs, as a scanner: where a source
 * names another module, and the source with those names replaced.
 */
module ImportText {
  import opened Text

  predicate IsQuote(c: char) { c == '"' || c == '\'' }

  predicate IsStop(c: char) { IsQuote(c) || c == ';' }

  /** After these characters `^` holds again. */
  predicate IsLineEnd(c: char) { c as int in {10, 13, 0x2028, 0x2029} }

  function IndexOfStop(s: string): (i: nat)
    ensures i <= |s|
    ensures i < |s| ==> IsStop(s[i])
  {
    if s == "" || IsStop(s[0]) then 0 else 1 + IndexOfStop(s[1..])
  }

  function IndexOfQuote(s: string): (i: nat)
    ensures i <= |s|
    ensures i < |s| ==> IsQuote(s[i])
  {
    if s == "" || IsQuote(s[0]) then 0 else 1 + IndexOfQuote(s[1..])
  }

  /** `\bfrom\s*` at the end of what stands between the keyword and the quote. */
  predicate EndsWithFrom(between: string) {
    var t := TrimEnd(between);
    EndsWith(t, "from") && |t| > 4 && !IsWord(t[|t| - 5])
  }

  /** Position of the quote, or other stop, after a six-letter keyword. */
  function Stop(s: string): (q: nat)
    requires |s| >= 6
    ensures 6 <= q <= |s|
  {
    6 + IndexOfStop(s[6..])
  }

  /** `(?:import|export)\b[^'";]*?\bfrom\s*['"]` from the start of a text. */
  predicate Opens(s: string) {
    && |s| >= 7 && (s[..6] == "import" || s[..6] == "export") && !IsWord(s[6])
    && Stop(s) < |s| && IsQuote(s[Stop(s)]) && EndsWithFrom(s[6..Stop(s)])
  }

  /** `[^'"]+['"]` from the start of a text. */
  predicate Quoted(s: string) { 1 <= IndexOfQuote(s) < |s| }

  /** Whether the whole pattern matches here. */
  predicate Matches(s: string) { Opens(s) && Quoted(s[Stop(s) + 1..]) }

  /** A reading of the pattern, part by part. */
  predicate Reading(s: string, keyword: string, between: string, spaces: string, open: char,
                    spec: string, close: char, rest: string)
  {
    && s == keyword + between + "from" + spaces + [open] + spec + [close] + rest
    && (keyword == "import" || keyword == "export")
    && between != "" && !IsWord(between[0]) && !IsWord(between[|between| - 1])
    && (forall i :: 0 <= i < |between| ==> !IsStop(between[i]))
    && AllSpace(spaces) && IsQuote(open) && GoodSpec(spec) && IsQuote(close)
  }

  lemma {:induction false} IndexOfStopAt(a: string, c: char, b: string)
    requires IsStop(c) && forall i :: 0 <= i < |a| ==> !IsStop(a[i])
    ensures IndexOfStop(a + [c] + b) == |a|
  {
    var s := a + [c] + b;
    if a != "" {
      assert s[1..] == a[1..] + [c] + b;
      IndexOfStopAt(a[1..], c, b);
    }
  }

  lemma {:induction false} NoStopBefore(s: string)
    ensures forall i :: 0 <= i < IndexOfStop(s) ==> !IsStop(s[i])
  {
    if s != "" && !IsStop(s[0]) { NoStopBefore(s[1..]); }
  }

  /** The scanner matches exactly where the pattern has a reading, and then with that specifier. */
  lemma MatchesIff(s: string)
    ensures Matches(s) <==>
            exists keyword, between, spaces, open, spec, close, rest ::
              Reading(s, keyword, between, spaces, open, spec, close, rest)
    ensures Matches(s) ==>
            forall keyword, between, spaces, open, spec, close, rest ::
              Reading(s, keyword, between, spaces, open, spec, close, rest) ==> Spec(s) == spec && Rest(s) == [close] + rest
  {
    hide Matches, Reading, Spec, Rest;
    if Matches(s) { HasReading(s); }
    forall keyword, between, spaces, open, spec, close, rest | Reading(s, keyword, between, spaces, open, spec, close, rest)
      ensures Matches(s) && Spec(s) == spec && Rest(s) == [close] + rest
    {
      ReadingMatches(s, keyword, between, spaces, open, spec, close, rest);
    }
  }

  lemma HasReading(s: string)
    requires Matches(s)
    ensures exists keyword, between, spaces, open, spec, close, rest ::
              Reading(s, keyword, between, spaces, open, spec, close, rest)
  {
    hide TrimEnd, IndexOfStop, IndexOfQuote, AllSpace, GoodSpec, IsWord;
    var q := Stop(s);
    var mid := s[6..q];
    var t := TrimEnd(mid);
    TrimEndRest(mid);
    var between, spaces := t[..|t| - 4], mid[|t|..];
    assert t == between + "from";
    assert between[|between| - 1] == t[|t| - 5] && between[0] == mid[0] == s[6];
    var tail := s[q + 1..];
    var spec, rest := Spec(s), Rest(s);
    assert tail == spec + rest;
    assert |rest| > 0;
    assert rest == [rest[0]] + rest[1..];
    assert s == s[..6] + mid + [s[q]] + tail;
    NoStopBefore(s[6..]);
    forall i | 0 <= i < |between| ensures !IsStop(between[i]) {
      assert between[i] == s[6..][i] && i < IndexOfStop(s[6..]);
    }
    ReadingParts(s, s[..6], between, spaces, s[q], spec, rest[0], rest[1..], mid);
  }

  lemma ReadingParts(s: string, keyword: string, between: string, spaces: string, open: char,
                     spec: string, close: char, rest: string, mid: string)
    requires mid == between + "from" + spaces && s == keyword + mid + [open] + (spec + ([close] + rest))
    requires (keyword == "import" || keyword == "export") && between != "" && !IsWord(between[0]) && !IsWord(between[|between| - 1])
    requires forall i :: 0 <= i < |between| ==> !IsStop(between[i])
    requires AllSpace(spaces) && IsQuote(open) && GoodSpec(spec) && IsQuote(close)
    ensures Reading(s, keyword, between, spaces, open, spec, close, rest)
  {
    hide IsWord, IsStop, AllSpace, GoodSpec, IsQuote;
    assert s == keyword + between + "from" + spaces + [open] + spec + [close] + rest;
  }

  lemma ReadingMatches(s: string, keyword: string, between: string, spaces: string, open: char,
                       spec: string, close: char, rest: string)
    requires Reading(s, keyword, between, spaces, open, spec, close, rest)
    ensures Matches(s) && Spec(s) == spec && Rest(s) == [close] + rest
  {
    hide TrimEnd, IndexOfStop, IndexOfQuote, AllSpace, GoodSpec, IsWord, IsStop, IsQuote, EndsWithFrom, Opens, Stop;
    var mid := between + "from" + spaces;
    var tail := spec + [close] + rest;
    assert s == keyword + mid + [open] + tail;
    MidHasNoStop(between, spaces);
    FromAtEnd(between, spaces);
    StopIsQuote(open);
    assert mid[0] == between[0];
    KeywordOpens(s, keyword, mid, open, tail);
    QuoteAfterSpec(spec, close, rest);
    assert tail[..|spec|] == spec && tail[|spec|..] == [close] + rest;
  }

  lemma KeywordOpens(s: string, keyword: string, mid: string, open: char, tail: string)
    requires s == keyword + mid + [open] + tail && (keyword == "import" || keyword == "export")
    requires mid != "" && !IsWord(mid[0]) && IsQuote(open) && IsStop(open) && EndsWithFrom(mid)
    requires forall i :: 0 <= i < |mid| ==> !IsStop(mid[i])
    ensures Opens(s) && s[Stop(s) + 1..] == tail
  {
    hide IndexOfStop, IsWord, IsStop, IsQuote, EndsWithFrom;
    IndexOfStopAt(mid, open, tail);
    assert s[6..] == mid + [open] + tail;
    var q := Stop(s);
    assert q == 6 + |mid| && s[6..q] == mid && s[q + 1..] == tail && s[q] == open;
    assert s[6] == mid[0] && s[..6] == keyword;
  }

  lemma QuoteAfterSpec(spec: string, close: char, rest: string)
    requires GoodSpec(spec) && IsQuote(close)
    ensures IndexOfQuote(spec + [close] + rest) == |spec| && spec != ""
  {
    IndexOfQuoteAt(spec, close, rest);
  }

  lemma MidHasNoStop(between: string, spaces: string)
    requires AllSpace(spaces) && forall i :: 0 <= i < |between| ==> !IsStop(between[i])
    ensures var mid := between + "from" + spaces; forall i :: 0 <= i < |mid| ==> !IsStop(mid[i])
  {
  }

  lemma FromAtEnd(between: string, spaces: string)
    requires AllSpace(spaces) && between != "" && !IsWord(between[|between| - 1])
    ensures EndsWithFrom(between + "from" + spaces)
  {
    hide AllSpace, TrimEnd;
    var t := between + "from";
    assert t[|t| - 1] == 'm' && t[|t| - 4..] == "from" && t[|t| - 5] == between[|between| - 1];
    TrimEndOf(t, spaces);
  }

  /** The three parts of a match and what follows it. */
  function Head(s: string): string requires Matches(s) { s[..Stop(s) + 1] }

  function Spec(s: string): (r: string)
    requires Matches(s)
    ensures GoodSpec(r)
  {
    var tail := s[Stop(s) + 1..];
    QuoteFreeBefore(tail);
    tail[..IndexOfQuote(tail)]
  }

  function Rest(s: string): (r: string)
    requires Matches(s)
    ensures |r| < |s| && r != "" && IsQuote(r[0])
  {
    var tail := s[Stop(s) + 1..];
    tail[IndexOfQuote(tail)..]
  }

  lemma {:induction false} QuoteFreeBefore(s: string)
    ensures forall i :: 0 <= i < IndexOfQuote(s) ==> !IsQuote(s[i])
  {
    if s != "" && !IsQuote(s[0]) { QuoteFreeBefore(s[1..]); }
  }

  /** A specifier the pattern can read back: not empty, and free of quotes. */
  predicate GoodSpec(s: string) { s != "" && forall i :: 0 <= i < |s| ==> !IsQuote(s[i]) }

  /** `matchAll`: the specifiers in order. `bol` says whether `^` holds here. */
  function Specs(s: string, bol: bool): seq<string>
    decreases |s|
  {
    if s == "" then []
    else if bol && Matches(s) then [Spec(s)] + Specs(Rest(s)[1..], false)
    else Specs(s[1..], IsLineEnd(s[0]))
  }

  /** `replace`: every specifier replaced, everything else kept. `Rest` begins with the closing quote. */
  function Rewrite(s: string, bol: bool, f: string -> string): string
    decreases |s|
  {
    if s == "" then ""
    else if bol && Matches(s) then Head(s) + f(Spec(s)) + Rest(s)[..1] + Rewrite(Rest(s)[1..], false, f)
    else s[..1] + Rewrite(s[1..], IsLineEnd(s[0]), f)
  }

  /** How much of a text is settled before the first specifier: up to its opening quote. */
  function Settled(s: string, bol: bool): (n: nat)
    ensures n <= |s|
    decreases |s|
  {
    if s == "" then 0
    else if bol && Matches(s) then Stop(s) + 1
    else 1 + Settled(s[1..], IsLineEnd(s[0]))
  }

  ghost predicate GoodOn(f: string -> string, specs: seq<string>) {
    forall i :: 0 <= i < |specs| ==> GoodSpec(f(specs[i]))
  }

  lemma {:induction false} IndexOfQuoteAt(a: string, c: char, b: string)
    requires IsQuote(c) && forall i :: 0 <= i < |a| ==> !IsQuote(a[i])
    ensures IndexOfQuote(a + [c] + b) == |a|
  {
    var s := a + [c] + b;
    if a != "" {
      assert s[1..] == a[1..] + [c] + b;
      IndexOfQuoteAt(a[1..], c, b);
    }
  }

  /** Texts that agree up to a stop agree on the first stop. */
  lemma {:induction false} StopIsLocal(s: string, t: string, n: nat)
    requires n <= |s| && n <= |t| && s[..n] == t[..n] && n > 0 && IsStop(s[n - 1])
    ensures IndexOfStop(s) == IndexOfStop(t) < n
  {
    assert s[0] == s[..n][0] == t[..n][0] == t[0];
    assert s[n - 1] == s[..n][n - 1] == t[..n][n - 1] == t[n - 1];
    if !IsStop(s[0]) {
      assert s[1..][..n - 1] == s[..n][1..] == t[..n][1..] == t[1..][..n - 1];
      StopIsLocal(s[1..], t[1..], n - 1);
    }
  }

  lemma {:induction false} QuoteIsLocal(s: string, t: string, n: nat)
    requires n <= |s| && n <= |t| && s[..n] == t[..n] && n > 0 && IsQuote(s[n - 1])
    ensures IndexOfQuote(s) == IndexOfQuote(t) < n
  {
    assert s[0] == s[..n][0] == t[..n][0] == t[0];
    assert s[n - 1] == s[..n][n - 1] == t[..n][n - 1] == t[n - 1];
    if !IsQuote(s[0]) {
      assert s[1..][..n - 1] == s[..n][1..] == t[..n][1..] == t[1..][..n - 1];
      QuoteIsLocal(s[1..], t[1..], n - 1);
    }
  }

  lemma QuotedIsLocal(s: string, t: string, n: nat, k: nat)
    requires k < n <= |s| && n <= |t| && s[..n] == t[..n] && IsQuote(s[n - 1])
    ensures Quoted(s[k..]) == Quoted(t[k..])
  {
    hide IndexOfQuote, IsQuote;
    var u, v, m := s[k..], t[k..], n - k;
    SamePart(s, t, n, k, n);
    assert u[..m] == s[k..n] && v[..m] == t[k..n] && u[m - 1] == s[n - 1];
    QuoteIsLocal(u, v, m);
  }

  lemma OpensIsLocal(s: string, t: string, n: nat)
    requires 7 <= n <= |s| && n <= |t| && s[..n] == t[..n] && IsQuote(s[n - 1])
    ensures Opens(s) == Opens(t) && Stop(s) == Stop(t) < n
  {
    hide EndsWithFrom, IndexOfStop, IsStop;
    assert IsStop(s[6..][n - 7]) by { assert s[6..][n - 7] == s[n - 1]; StopIsQuote(s[n - 1]); }
    assert s[6..][..n - 6] == s[..n][6..] == t[..n][6..] == t[6..][..n - 6];
    StopIsLocal(s[6..], t[6..], n - 6);
    var q := Stop(s);
    SamePart(s, t, n, 0, 6);
    SamePart(s, t, n, 6, q);
    SamePart(s, t, n, 6, 7);
    SamePart(s, t, n, q, q + 1);
    assert s[6..7] == [s[6]] && t[6..7] == [t[6]] && s[q..q + 1] == [s[q]] && t[q..q + 1] == [t[q]];
    assert s[..6] == s[0..6] && t[..6] == t[0..6];
    OpensByParts(s, q);
    OpensByParts(t, q);
  }

  lemma StopIsQuote(c: char)
    ensures IsQuote(c) ==> IsStop(c)
  {
  }

  lemma SamePart(s: string, t: string, n: nat, a: nat, b: nat)
    requires a <= b <= n <= |s| && n <= |t| && s[..n] == t[..n]
    ensures s[a..b] == t[a..b]
  {
    assert s[a..b] == s[..n][a..b] && t[a..b] == t[..n][a..b];
  }

  lemma OpensByParts(s: string, q: nat)
    requires |s| >= 7 && Stop(s) == q < |s|
    ensures Opens(s) <==> (s[..6] == "import" || s[..6] == "export") && !IsWord(s[6]) && IsQuote(s[q]) && EndsWithFrom(s[6..q])
  {
  }

  lemma OpensAtQuote(s: string)
    requires Opens(s)
    ensures |s| >= 7 && Stop(s) < |s| && IsQuote(s[Stop(s)])
  {
    hide EndsWithFrom;
  }

  lemma MatchedParts(s: string)
    requires Matches(s)
    ensures s == Head(s) + Spec(s) + Rest(s)
    ensures Rest(s) != "" && IsQuote(Rest(s)[0])
    ensures |Head(s)| >= 7 && IsQuote(Head(s)[|Head(s)| - 1])
    ensures |Head(s)| == Stop(s) + 1
  {
    hide Opens, IndexOfQuote, Stop, GoodSpec;
    OpensAtQuote(s);
    var q := Stop(s) + 1;
    var head, tail := s[..q], s[q..];
    assert s == head + tail && head[q - 1] == s[q - 1];
    var n := IndexOfQuote(tail);
    assert tail == tail[..n] + tail[n..];
    assert Head(s) == head && Spec(s) == tail[..n] && Rest(s) == tail[n..];
    assert s == head + tail[..n] + tail[n..];
  }

  /** A match with another specifier, and anything at all after it, is still that match. */
  lemma MatchReplaced(s: string, spec: string, after: string)
    requires Matches(s) && GoodSpec(spec)
    ensures var t := Head(s) + spec + Rest(s)[..1] + after;
            && Matches(t) && Head(t) == Head(s) && Spec(t) == spec && Rest(t) == Rest(s)[..1] + after
  {
    hide Opens, Stop, IndexOfQuote;
    MatchedParts(s);
    var head := Head(s);
    var quote := Rest(s)[0];
    var tail := spec + [quote] + after;
    var t := head + spec + Rest(s)[..1] + after;
    assert t == head + tail;
    assert s[..|head|] == t[..|head|] == head;
    assert s[|head| - 1] == head[|head| - 1];
    OpensIsLocal(s, t, |head|);
    assert t[|head|..] == tail;
    IndexOfQuoteAt(spec, quote, after);
    assert tail[..|spec|] == spec && tail[|spec|..] == [quote] + after;
  }

  /** Rewriting leaves alone what is settled, and opens a quoted specifier where one was. */
  lemma {:induction false} RewriteSettled(s: string, bol: bool, f: string -> string)
    requires GoodOn(f, Specs(s, bol))
    ensures var n := Settled(s, bol);
            var t := Rewrite(s, bol, f);
            && n <= |t| && t[..n] == s[..n]
            && if Specs(s, bol) == [] then t == s
               else n >= 7 && IsQuote(s[n - 1]) && Quoted(s[n..]) && Quoted(t[n..])
    decreases |s|
  {
    hide Matches, GoodSpec, Quoted, Head, Spec, Rest, Stop;
    if s == "" {
    } else if bol && Matches(s) {
      assert Specs(s, bol)[0] == Spec(s);
      SettledAtMatch(s, f(Spec(s)), Rewrite(Rest(s)[1..], false, f));
    } else {
      var b := IsLineEnd(s[0]);
      RewriteStep(s, bol, f);
      RewriteSettled(s[1..], b, f);
      hide Rewrite, Settled, Specs;
      Shift(s, Rewrite(s[1..], b, f), Settled(s[1..], b));
      assert s[..1] + s[1..] == s;
    }
  }

  /** One character that begins no match. */
  lemma RewriteStep(s: string, bol: bool, f: string -> string)
    requires s != "" && !(bol && Matches(s))
    ensures var b := IsLineEnd(s[0]);
            && Specs(s, bol) == Specs(s[1..], b)
            && Settled(s, bol) == Settled(s[1..], b) + 1
            && Rewrite(s, bol, f) == s[..1] + Rewrite(s[1..], b, f)
  {
  }

  lemma Shift(s: string, t: string, n: nat)
    requires s != "" && n <= |s| - 1 && n <= |t| && t[..n] == s[1..][..n]
    ensures var whole := s[..1] + t;
            && n + 1 <= |whole| && whole[..n + 1] == s[..n + 1]
            && whole[n + 1..] == t[n..] && s[n + 1..] == s[1..][n..]
            && (n > 0 ==> s[n] == s[1..][n - 1])
  {
    var whole := s[..1] + t;
    assert whole[..n + 1] == s[..1] + t[..n];
  }

  lemma SettledAtMatch(s: string, spec: string, after: string)
    requires Matches(s) && GoodSpec(spec)
    ensures var n := Stop(s) + 1;
            var t := Head(s) + spec + Rest(s)[..1] + after;
            && 7 <= n <= |s| && n <= |t| && t[..n] == s[..n] && IsQuote(s[n - 1])
            && Quoted(s[n..]) && Quoted(t[n..])
  {
    hide Opens, Quoted, IndexOfQuote;
    MatchedParts(s);
    MatchReplaced(s, spec, after);
    var t := Head(s) + spec + Rest(s)[..1] + after;
    MatchedParts(t);
    assert t[..|Head(s)|] == Head(s) == s[..|Head(s)|];
  }

  /** Where the pattern did not match, it does not match after a rewrite further on. */
  lemma NoNewMatch(s: string, f: string -> string)
    requires s != "" && !Matches(s) && GoodOn(f, Specs(s[1..], IsLineEnd(s[0])))
    ensures !Matches(s[..1] + Rewrite(s[1..], IsLineEnd(s[0]), f))
  {
    hide Opens, Settled, Rewrite, Specs, Stop, Quoted, GoodSpec, IsQuote;
    var b := IsLineEnd(s[0]);
    var t := s[..1] + Rewrite(s[1..], b, f);
    RewriteSettled(s[1..], b, f);
    if Specs(s[1..], b) == [] {
      assert t == s;
    } else {
      var n := Settled(s[1..], b) + 1;
      assert t[..n] == s[..1] + Rewrite(s[1..], b, f)[..n - 1] == s[..n];
      assert s[n..] == s[1..][n - 1..];
      OpensIsLocal(s, t, n);
      if Stop(s) < n - 1 { QuotedIsLocal(s, t, n, Stop(s) + 1); }
    }
  }

  function MapSpecs(f: string -> string, specs: seq<string>): (r: seq<string>)
    ensures |r| == |specs| && forall i :: 0 <= i < |specs| ==> r[i] == f(specs[i])
  {
    if specs == [] then [] else [f(specs[0])] + MapSpecs(f, specs[1..])
  }

  /** The pattern finds in the rewritten text the new specifiers, in the old places and order, and no others. */
  lemma {:induction false} SpecsOfRewrite(s: string, bol: bool, f: string -> string)
    requires GoodOn(f, Specs(s, bol))
    ensures Specs(Rewrite(s, bol, f), bol) == MapSpecs(f, Specs(s, bol))
    decreases |s|
  {
    hide Matches, GoodSpec;
    if s == "" {
    } else if bol && Matches(s) {
      var after := Rewrite(Rest(s)[1..], false, f);
      assert Specs(s, bol)[0] == Spec(s) && Specs(s, bol)[1..] == Specs(Rest(s)[1..], false);
      SpecsOfRewrite(Rest(s)[1..], false, f);
      MatchReplaced(s, f(Spec(s)), after);
      MatchedParts(s);
      var t := Rewrite(s, bol, f);
      assert Rest(t)[1..] == after;
    } else {
      var b := IsLineEnd(s[0]);
      SpecsOfRewrite(s[1..], b, f);
      if bol { NoNewMatch(s, f); }
      var t := Rewrite(s, bol, f);
      assert t[0] == s[0] && t[1..] == Rewrite(s[1..], b, f);
    }
  }

  /** Rewriting twice is rewriting once with the two replacements in turn; so a rewrite can be undone. */
  lemma {:induction false} RewriteTwice(s: string, bol: bool, f: string -> string, g: string -> string)
    requires GoodOn(f, Specs(s, bol))
    ensures Rewrite(Rewrite(s, bol, f), bol, g) == Rewrite(s, bol, x => g(f(x)))
    decreases |s|
  {
    hide Matches, GoodSpec;
    if s == "" {
    } else if bol && Matches(s) {
      var after := Rewrite(Rest(s)[1..], false, f);
      assert Specs(s, bol)[0] == Spec(s) && Specs(s, bol)[1..] == Specs(Rest(s)[1..], false);
      RewriteTwice(Rest(s)[1..], false, f, g);
      MatchReplaced(s, f(Spec(s)), after);
      MatchedParts(s);
      var t := Rewrite(s, bol, f);
      assert Rest(t)[1..] == after && Rest(t)[..1] == Rest(s)[..1];
    } else {
      var b := IsLineEnd(s[0]);
      RewriteTwice(s[1..], b, f, g);
      if bol { NoNewMatch(s, f); }
      var t := Rewrite(s, bol, f);
      assert t[0] == s[0] && t[1..] == Rewrite(s[1..], b, f) && t[..1] == s[..1];
    }
  }

  lemma {:induction false} RewriteNothing(s: string, bol: bool, f: string -> string)
    requires forall i :: 0 <= i < |Specs(s, bol)| ==> f(Specs(s, bol)[i]) == Specs(s, bol)[i]
    ensures Rewrite(s, bol, f) == s
    decreases |s|
  {
    hide Matches, GoodSpec, Head, Spec, Rest, Stop;
    if s == "" {
    } else if bol && Matches(s) {
      var after := Rest(s)[1..];
      assert Specs(s, bol)[0] == Spec(s) && Specs(s, bol)[1..] == Specs(after, false);
      RewriteNothing(after, false, f);
      MatchedParts(s);
      assert Rest(s) == Rest(s)[..1] + after;
      assert s == Head(s) + Spec(s) + Rest(s)[..1] + after;
    } else {
      assert Specs(s, bol) == Specs(s[1..], IsLineEnd(s[0]));
      RewriteNothing(s[1..], IsLineEnd(s[0]), f);
      assert s == s[..1] + s[1..];
    }
  }

  // ── The pattern in terms of characters alone ─────────────────────────────

  /**
   * A match: `import` or `export`; text with no quote and no semicolon in it that
   * neither begins nor ends with a letter, digit or underscore; `from`, white
   * space and a quote; text with no quote in it that is not empty; and a quote.
   */
  lemma MatchMeans(s: string)
    ensures Matches(s) <==>
            exists keyword, between, spaces, open, spec, close, rest ::
              && s == keyword + between + "from" + spaces + [open] + spec + [close] + rest
              && (keyword == "import" || keyword == "export")
              && between != "" && !IsWord(between[0]) && !IsWord(between[|between| - 1])
              && (forall i :: 0 <= i < |between| ==> between[i] !in "'\";")
              && AllSpace(spaces) && open in "'\"" && close in "'\""
              && spec != "" && forall i :: 0 <= i < |spec| ==> spec[i] !in "'\""
    ensures forall c :: IsWord(c) <==> 'a' <= c <= 'z' || 'A' <= c <= 'Z' || '0' <= c <= '9' || c == '_'
  {
    MatchesIff(s);
    hide Matches, AllSpace;
    if Matches(s) {
      var keyword, between, spaces, open, spec, close, rest :| Reading(s, keyword, between, spaces, open, spec, close, rest);
    }
    forall keyword, between, spaces, open, spec, close, rest |
      && s == keyword + between + "from" + spaces + [open] + spec + [close] + rest
      && (keyword == "import" || keyword == "export")
      && between != "" && !IsWord(between[0]) && !IsWord(between[|between| - 1])
      && (forall i :: 0 <= i < |between| ==> between[i] !in "'\";")
      && AllSpace(spaces) && open in "'\"" && close in "'\""
      && spec != "" && forall i :: 0 <= i < |spec| ==> spec[i] !in "'\""
      ensures Matches(s)
    {
      assert forall c :: IsStop(c) <==> c in "'\";";
      assert forall c :: IsQuote(c) <==> c in "'\"";
      assert Reading(s, keyword, between, spaces, open, spec, close, rest);
    }
  }

  /**
   * The specifiers of a text: at the start of a line a match gives its specifier,
   * and the search goes on after its closing quote; otherwise it goes on after one
   * character, at the start of a line after a line feed, a carriage return or one
   * of the two Unicode separators.
   */
  lemma SpecsMean(s: string, bol: bool)
    ensures Specs("", bol) == []
    ensures bol && Matches(s) ==>
              Specs(s, bol) == [Spec(s)] + Specs(s[|Head(s)| + |Spec(s)| + 1..], false)
    ensures s != "" && !(bol && Matches(s)) ==>
              Specs(s, bol) == Specs(s[1..], s[0] == '\n' || s[0] == '\r' || s[0] as int == 8232 || s[0] as int == 8233)
  {
    if bol && Matches(s) {
      hide Matches, Head, Spec, Rest;
      MatchedParts(s);
      assert s[|Head(s)| + |Spec(s)| + 1..] == Rest(s)[1..];
    }
  }

  /** What is written in place of a text: at a match the new specifier between what was before and after it, and elsewhere what was there. */
  lemma RewriteMeans(s: string, bol: bool, f: string -> string)
    ensures Rewrite("", bol, f) == ""
    ensures bol && Matches(s) ==>
              var n := |Head(s)| + |Spec(s)|;
              && n < |s| && s[|Head(s)|..n] == Spec(s) && s[..|Head(s)|] == Head(s)
              && Rewrite(s, bol, f) == s[..|Head(s)|] + f(Spec(s)) + [s[n]] + Rewrite(s[n + 1..], false, f)
    ensures s != "" && !(bol && Matches(s)) ==>
              Rewrite(s, bol, f) == [s[0]] + Rewrite(s[1..], s[0] == '\n' || s[0] == '\r' || s[0] as int == 8232 || s[0] as int == 8233, f)
  {
    if bol && Matches(s) {
      hide Matches, Head, Spec, Rest;
      MatchedParts(s);
      var n := |Head(s)| + |Spec(s)|;
      assert s[n + 1..] == Rest(s)[1..] && [s[n]] == Rest(s)[..1];
    } else if s != "" {
      assert s[..1] == [s[0]];
    }
  }
}
