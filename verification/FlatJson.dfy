/** `writeJson` and `readFlatJson` of the Bouncy Castle peer (conformance/interop/peers/BouncyCastlePeer.java). */
module FlatJson {
  import opened Octet
  import opened Text

  /** A map in insertion order. */
  type Pairs = seq<(string, string)>

  /** A map to be written, in iteration order; a value may be null. */
  type Entries = seq<(string, Option<string>)>

  datatype Error = NotObject | ExpectedKey | OutOfRange | Escapes | OutOfFuel

  function Put(m: Pairs, k: string, v: string): Pairs {
    if m == [] then [(k, v)]
    else if m[0].0 == k then [(k, v)] + m[1..]
    else [m[0]] + Put(m[1..], k, v)
  }

  // ── Writing ──────────────────────────────────────────────────────────────

  predicate Bare(k: string, v: Option<string>)
    ensures Bare(k, v) ==> v.Some?
  {
    v.Some? && v.value != "" && (v.value == "true" || v.value == "false" || k == "id")
  }

  /** Double quotes inside a value become single ones. */
  function Unquoted(s: string): (r: string)
    ensures |r| == |s| && forall i :: 0 <= i < |s| ==> r[i] == if s[i] == '"' then '\'' else s[i]
  {
    seq(|s|, i requires 0 <= i < |s| => if s[i] == '"' then '\'' else s[i])
  }

  /** The value a written entry carries: null is written as the empty string. */
  function Carried(k: string, v: Option<string>): string {
    if v.None? then "" else if Bare(k, v) then v.value else Unquoted(v.value)
  }

  function ValueText(k: string, v: Option<string>): string {
    if Bare(k, v) then Carried(k, v) else "\"" + Carried(k, v) + "\""
  }

  function EntryText(k: string, v: Option<string>): string { "\"" + k + "\":" + ValueText(k, v) }

  /** The entries from number `i` on, each but the very first after a comma, and the closing brace. */
  function Body(m: Entries, i: nat): string
    requires i <= |m|
    decreases |m| - i
  {
    if i == |m| then "}"
    else (if i == 0 then "" else ",") + EntryText(m[i].0, m[i].1) + Body(m, i + 1)
  }

  function Written(m: Entries): string { "{" + Body(m, 0) }

  method WriteJson(m: Entries) returns (s: string)
    ensures s == Written(m)
  {
    hide EntryText;
    s := "{";
    var first := true;
    for i := 0 to |m|
      invariant first <==> i == 0
      invariant s + Body(m, i) == Written(m)
    {
      ghost var before := s;
      if !first { s := s + ","; }
      first := false;
      s := AppendEntry(s, m[i].0, m[i].1);
      ghost var comma := if i == 0 then "" else ",";
      ghost var entry := EntryText(m[i].0, m[i].1);
      assert s == before + comma + entry;
      assert before + (comma + entry + Body(m, i + 1)) == before + comma + entry + Body(m, i + 1);
    }
    s := s + "}";
  }

  method AppendEntry(before: string, k: string, v: Option<string>) returns (s: string)
    ensures s == before + EntryText(k, v)
  {
    hide Bare, Unquoted;
    var key := "\"" + k + "\":";
    var value;
    if Bare(k, v) {
      value := v.value;
    } else {
      value := "\"" + (if v.None? then "" else Unquoted(v.value)) + "\"";
    }
    assert value == ValueText(k, v) && EntryText(k, v) == key + value;
    s := before + key + value;
    assert before + key + value == before + (key + value);
  }

  // ── Reading ──────────────────────────────────────────────────────────────

  /** `indexOf(c, from)`: minus one when there is none. */
  function IndexFrom(s: string, c: char, from: nat): (i: int)
    ensures i == -1 || from <= i < |s|
  {
    if from > |s| then -1
    else
      var i := IndexOf(s[from..], c);
      if i == |s| - from then -1 else from + i
  }

  /** How many leading characters satisfy a test the loops of the reader make. */
  function SkipWhile(s: string, test: char -> bool): (n: nat)
    ensures n <= |s|
    ensures n < |s| ==> !test(s[n])
  {
    if s == "" || !test(s[0]) then 0 else 1 + SkipWhile(s[1..], test)
  }

  const SEPARATOR: char -> bool := c => c == ' ' || c == ','
  const BLANK: char -> bool := c => c == ' '
  const IN_BARE: char -> bool := c => c != ',' && c != '}'

  /** `String.trim` of Java: both ends up to and including the space character. */
  function JavaTrim(s: string): string {
    if s != "" && s[0] <= ' ' then JavaTrim(s[1..])
    else if s != "" && s[|s| - 1] <= ' ' then JavaTrim(s[..|s| - 1])
    else s
  }

  datatype Step = End | Read(key: string, value: string, next: nat)

  /** The value at position `i`. */
  function ReadValue(s: string, i: nat): (r: Result<(string, nat), Error>)
    ensures r.Ok? ==> r.value.1 <= |s|
  {
    if i >= |s| then Err(OutOfRange)
    else if s[i] == '"' then
      var valEnd, escape := IndexFrom(s, '"', i + 1), IndexFrom(s, '\\', i + 1);
      if escape != -1 && escape < valEnd then Err(Escapes)
      else if valEnd == -1 then Err(OutOfRange)
      else Ok((s[i + 1..valEnd], valEnd + 1))
    else
      var n := SkipWhile(s[i..], IN_BARE);
      Ok((JavaTrim(s[i..i + n]), i + n))
  }

  /** One turn of the outer loop. A missing colon sends the reader back to the start, as in the source. */
  function ReadEntry(s: string, i: nat): (r: Result<Step, Error>)
    requires i <= |s|
    ensures r.Ok? && r.value.Read? ==> r.value.next <= |s|
  {
    var j := i + SkipWhile(s[i..], SEPARATOR);
    if j < |s| && s[j] == '}' then Ok(End)
    else if j >= |s| then Err(OutOfRange)
    else if s[j] != '"' then Err(ExpectedKey)
    else
      var keyEnd := IndexFrom(s, '"', j + 1);
      if keyEnd == -1 then Err(OutOfRange)
      else
        var k := IndexFrom(s, ':', keyEnd) + 1;
        var at := k + SkipWhile(s[k..], BLANK);
        var value :- ReadValue(s, at);
        Ok(Read(s[j + 1..keyEnd], value.0, value.1))
  }

  function ReadFrom(s: string, i: nat, out: Pairs, fuel: nat): Result<Pairs, Error>
    requires i <= |s|
    decreases fuel
  {
    if i == |s| then Ok(out)
    else if fuel == 0 then Err(OutOfFuel)
    else
      var step :- ReadEntry(s, i);
      if step.End? then Ok(out)
      else ReadFrom(s, step.next, Put(out, step.key, step.value), fuel - 1)
  }

  function ReadText(s: string, fuel: nat): Result<Pairs, Error> {
    var open := IndexFrom(s, '{', 0);
    if open < 0 then Err(NotObject) else ReadFrom(s, open + 1, [], fuel)
  }

  /** The three inner loops of the reader move an index while a test holds. */
  method Skip(s: string, from: nat, test: char -> bool) returns (i: nat)
    requires from <= |s|
    ensures i == from + SkipWhile(s[from..], test)
  {
    i := from;
    while i < |s| && test(s[i])
      invariant from <= i <= |s|
      invariant from + SkipWhile(s[from..], test) == i + SkipWhile(s[i..], test)
    {
      assert s[i..][1..] == s[i + 1..];
      i := i + 1;
    }
  }

  /** One turn of the outer loop, moving the index. */
  method NextEntry(s: string, start: nat) returns (r: Result<Step, Error>)
    requires start <= |s|
    ensures r == ReadEntry(s, start)
  {
    hide ReadValue, IndexFrom, SkipWhile;
    var i := Skip(s, start, SEPARATOR);
    if i < |s| && s[i] == '}' { return Ok(End); }
    if i >= |s| { return Err(OutOfRange); }
    if s[i] != '"' { return Err(ExpectedKey); }
    var keyEnd := IndexFrom(s, '"', i + 1);
    if keyEnd == -1 { return Err(OutOfRange); }
    var key := s[i + 1..keyEnd];
    i := IndexFrom(s, ':', keyEnd) + 1;
    i := Skip(s, i, BLANK);
    var value := ReadValue(s, i);
    if value.Err? { return Err(value.error); }
    return Ok(Read(key, value.value.0, value.value.1));
  }

  method ReadFlatJson(s: string, fuel: nat) returns (r: Result<Pairs, Error>)
    ensures r == ReadText(s, fuel)
  {
    hide ReadEntry, Put;
    var open := IndexFrom(s, '{', 0);
    if open < 0 { return Err(NotObject); }
    var i: nat := open + 1;
    var out: Pairs := [];
    var left := fuel;
    while i < |s|
      invariant i <= |s|
      invariant ReadFrom(s, open + 1, [], fuel) == ReadFrom(s, i, out, left)
      decreases left
    {
      if left == 0 { return Err(OutOfFuel); }
      left := left - 1;
      var step := NextEntry(s, i);
      if step.Err? { return Err(step.error); }
      if step.value.End? { break; }
      out := Put(out, step.value.key, step.value.value);
      i := step.value.next;
    }
    return Ok(out);
  }

  // ── The round trip ───────────────────────────────────────────────────────

  /** A value written without quotes that the reader takes back whole. */
  predicate BareReadable(v: string) {
    && v != "" && v[0] != '"' && v[0] > ' ' && v[|v| - 1] > ' '
    && forall i :: 0 <= i < |v| ==> v[i] != ',' && v[i] != '}'
  }

  /** What an entry must avoid: a quote in its key and, when bare, whatever ends or trims a bare value. */
  predicate Readable(k: string, v: Option<string>) { '"' !in k && (Bare(k, v) ==> BareReadable(v.value)) }

  /** What the reader refuses: a backslash in a quoted value. */
  predicate Refused(k: string, v: Option<string>) { !Bare(k, v) && '\\' in Carried(k, v) }

  function CarriedPairs(m: Entries): (r: Pairs)
    ensures |r| == |m| && forall i :: 0 <= i < |m| ==> r[i] == (m[i].0, Carried(m[i].0, m[i].1))
  {
    seq(|m|, i requires 0 <= i < |m| => (m[i].0, Carried(m[i].0, m[i].1)))
  }

  lemma {:induction false} SkipWhileStops(a: string, b: string, test: char -> bool)
    requires forall i :: 0 <= i < |a| ==> test(a[i])
    requires b == "" || !test(b[0])
    ensures SkipWhile(a + b, test) == |a|
  {
    if a == "" {
      assert a + b == b;
    } else {
      assert (a + b)[1..] == a[1..] + b;
      SkipWhileStops(a[1..], b, test);
    }
  }

  lemma IndexFromFirst(s: string, c: char, from: nat, before: string, after: string)
    requires from <= |s| && s[from..] == before + [c] + after && c !in before
    ensures IndexFrom(s, c, from) == from + |before|
    ensures from + |before| < |s| && s[from..from + |before|] == before && s[from + |before| + 1..] == after
  {
    IndexOfFirst(before, c, after);
    assert s[from..][..|before|] == before && s[from..][|before| + 1..] == after;
  }

  lemma EscapeFound(s: string, from: nat, body: string, after: string)
    requires from <= |s| && s[from..] == body + after && after != "" && after[0] != '\\'
    ensures var e := IndexFrom(s, '\\', from); (e != -1 && e < from + |body|) <==> '\\' in body
  {
    var t := s[from..];
    var i := IndexOf(t, '\\');
    assert forall j :: 0 <= j < |body| ==> t[j] == body[j];
    assert forall j :: 0 <= j < i ==> t[..i][j] == t[j];
  }

  lemma ReadBareAt(s: string, at: nat, v: string, next: string)
    requires at <= |s| && s[at..] == v + next
    requires next != "" && (next[0] == ',' || next[0] == '}') && BareReadable(v)
    ensures ReadValue(s, at) == Ok((v, at + |v|))
  {
    hide IndexFrom, JavaTrim, SkipWhile;
    var t := s[at..];
    assert t[0] == v[0] == s[at];
    SkipWhileStops(v, next, IN_BARE);
    assert s[at..at + |v|] == t[..|v|] == v;
    TrimNothing(v);
  }

  lemma ReadQuotedAt(s: string, at: nat, v: string, next: string)
    requires at <= |s| && s[at..] == ['"'] + v + ['"'] + next && '"' !in v
    ensures ReadValue(s, at) == if '\\' in v then Err(Escapes) else Ok((v, at + |v| + 2))
  {
    hide IndexFrom, JavaTrim, SkipWhile;
    var t := s[at..];
    assert t[0] == '"' == s[at];
    assert s[at + 1..] == t[1..] == v + ['"'] + next;
    IndexFromFirst(s, '"', at + 1, v, next);
    assert v + ['"'] + next == v + (['"'] + next);
    EscapeFound(s, at + 1, v, ['"'] + next);
  }

  /** A value is read back as what it carries, and the reader stops right after it. */
  lemma ReadValueAt(s: string, at: nat, k: string, v: Option<string>, next: string)
    requires at <= |s| && s[at..] == ValueText(k, v) + next
    requires next != "" && (next[0] == ',' || next[0] == '}') && Readable(k, v)
    ensures ReadValue(s, at) == if Refused(k, v) then Err(Escapes) else Ok((Carried(k, v), at + |ValueText(k, v)|))
  {
    hide ReadValue;
    if Bare(k, v) {
      ReadBareAt(s, at, v.value, next);
    } else {
      ReadQuotedAt(s, at, Carried(k, v), next);
    }
  }

  lemma TrimNothing(v: string)
    requires v != "" && v[0] > ' ' && v[|v| - 1] > ' '
    ensures JavaTrim(v) == v
  {
  }

  /** One entry, after a comma or not, is read back in one turn. */
  lemma ReadEntryAt(s: string, i: nat, comma: string, k: string, v: Option<string>, next: string)
    requires comma == "" || comma == ","
    requires i <= |s| && s[i..] == comma + EntryText(k, v) + next
    requires next != "" && (next[0] == ',' || next[0] == '}') && Readable(k, v)
    ensures ReadEntry(s, i) == if Refused(k, v) then Err(Escapes)
                               else Ok(Read(k, Carried(k, v), i + |comma| + |EntryText(k, v)|))
    ensures i + |comma| + |EntryText(k, v)| <= |s| && s[i + |comma| + |EntryText(k, v)|..] == next
  {
    hide ReadEntry, ReadValue, IndexFrom, IndexOf, ValueText, EntryText, SkipWhile, Bare, Carried, Refused, Readable;
    var value := ValueText(k, v);
    EntryShape(k, v, next);
    assert comma + EntryText(k, v) + next == comma + (EntryText(k, v) + next);
    KeyOf(k, v);
    KeyAfter(s, i, comma, k, value + next);
    var j := i + |comma|;
    var at := j + |k| + 3;
    BlankStops(value + next) by { ValueStart(k, v, next); }
    EntryFrom(s, i, j, j + 1 + |k|, at);
    ReadValueAt(s, at, k, v, next);
    Tail(s, at, value, next);
  }

  /** A comma or nothing, then a key: every position the reader works out on its way to the value. */
  lemma KeyAfter(s: string, i: nat, comma: string, k: string, after: string)
    requires comma == "" || comma == ","
    requires i <= |s| && '"' !in k && s[i..] == comma + (['"'] + k + ['"'] + ([':'] + after))
    ensures var j := i + |comma|;
            var keyEnd := j + 1 + |k|;
            && j < |s| && s[j] == '"' && SkipWhile(s[i..], SEPARATOR) == |comma|
            && IndexFrom(s, '"', j + 1) == keyEnd && s[j + 1..keyEnd] == k
            && IndexFrom(s, ':', keyEnd) == keyEnd + 1
            && keyEnd + 2 <= |s| && s[keyEnd + 2..] == after
  {
    hide IndexFrom, IndexOf, SkipWhile;
    var fromQuote := ['"'] + k + ['"'] + ([':'] + after);
    SkipComma(comma, fromQuote);
    Tail(s, i, comma, fromQuote);
    KeyAt(s, i + |comma|, k, after);
  }

  lemma SkipComma(comma: string, t: string)
    requires (comma == "" || comma == ",") && t != "" && t[0] == '"'
    ensures SkipWhile(comma + t, SEPARATOR) == |comma|
  {
    SkipWhileStops(comma, t, SEPARATOR);
  }

  lemma BlankStops(t: string)
    requires t != "" && !BLANK(t[0])
    ensures SkipWhile(t, BLANK) == 0
  {
  }

  /** The turn of the loop, once its positions are known. */
  lemma EntryFrom(s: string, i: nat, j: nat, keyEnd: nat, at: nat)
    requires i <= j < |s| && SkipWhile(s[i..], SEPARATOR) == j - i && s[j] == '"'
    requires IndexFrom(s, '"', j + 1) == keyEnd && IndexFrom(s, ':', keyEnd) == at - 1
    requires at <= |s| && SkipWhile(s[at..], BLANK) == 0
    ensures j + 1 <= keyEnd <= |s|
    ensures var value := ReadValue(s, at);
            ReadEntry(s, i) == if value.Err? then Err(value.error)
                               else Ok(Read(s[j + 1..keyEnd], value.value.0, value.value.1))
  {
    hide ReadValue, IndexFrom, SkipWhile;
  }

  lemma EntryShape(k: string, v: Option<string>, next: string)
    ensures EntryText(k, v) + next == ['"'] + k + ['"'] + ([':'] + (ValueText(k, v) + next))
    ensures |EntryText(k, v)| == |k| + 3 + |ValueText(k, v)|
  {
    hide ValueText;
  }

  lemma Tail(s: string, i: nat, first: string, next: string)
    requires i <= |s| && s[i..] == first + next
    ensures i + |first| <= |s| && s[i + |first|..] == next
  {
    assert s[i..][|first|..] == next;
  }

  lemma KeyOf(k: string, v: Option<string>)
    requires Readable(k, v)
    ensures '"' !in k
  {
  }

  /** A quoted key and its colon: where the reader finds both, and what follows. */
  lemma KeyAt(s: string, j: nat, k: string, after: string)
    requires j <= |s| && '"' !in k && s[j..] == ['"'] + k + ['"'] + ([':'] + after)
    ensures j < |s| && s[j] == '"'
    ensures var keyEnd := j + 1 + |k|;
            && IndexFrom(s, '"', j + 1) == keyEnd && s[j + 1..keyEnd] == k
            && IndexFrom(s, ':', keyEnd) == keyEnd + 1
            && keyEnd + 2 <= |s| && s[keyEnd + 2..] == after
  {
    hide IndexFrom;
    assert s[j] == s[j..][0];
    Tail(s, j, ['"'], k + ['"'] + ([':'] + after)) by {
      assert ['"'] + k + ['"'] + ([':'] + after) == ['"'] + (k + ['"'] + ([':'] + after));
    }
    IndexFromFirst(s, '"', j + 1, k, [':'] + after);
    var keyEnd := j + 1 + |k|;
    Tail(s, j + 1, k, ['"'] + ([':'] + after)) by { assert k + ['"'] + ([':'] + after) == k + (['"'] + ([':'] + after)); }
    assert ['"'] + ([':'] + after) == ['"'] + [':'] + after;
    IndexFromFirst(s, ':', keyEnd, ['"'], after);
  }

  lemma ValueStart(k: string, v: Option<string>, next: string)
    requires Readable(k, v)
    ensures var t := ValueText(k, v) + next; t != "" && !BLANK(t[0])
  {
  }

  lemma {:induction false} PutNew(m: Pairs, k: string, v: string)
    requires forall i :: 0 <= i < |m| ==> m[i].0 != k
    ensures Put(m, k, v) == m + [(k, v)]
  {
    if m != [] { PutNew(m[1..], k, v); }
  }

  predicate DistinctKeys(m: Entries) { forall i, j :: 0 <= i < j < |m| ==> m[i].0 != m[j].0 }

  lemma BodyStarts(m: Entries, i: nat)
    requires 0 < i <= |m|
    ensures Body(m, i) != "" && (Body(m, i)[0] == ',' || Body(m, i)[0] == '}')
  {
  }

  /** From the start of any entry on, the rest of the map is read back. */
  lemma {:induction false} ReadRest(m: Entries, s: string, i: nat, at: nat, fuel: nat)
    requires DistinctKeys(m) && forall j :: 0 <= j < |m| ==> Readable(m[j].0, m[j].1)
    requires i <= |m| && at <= |s| && s[at..] == Body(m, i) && fuel > |m| - i
    ensures ReadFrom(s, at, CarriedPairs(m)[..i], fuel)
            == if exists j :: i <= j < |m| && Refused(m[j].0, m[j].1) then Err(Escapes) else Ok(CarriedPairs(m))
    decreases |m| - i
  {
    hide ReadFrom, ReadEntry, EntryText, Readable, Refused, Put;
    var done := CarriedPairs(m)[..i];
    ReadFromMeans(s, at, done, fuel);
    if i == |m| {
      EndRead(s, at);
      assert done == CarriedPairs(m);
    } else {
      hide Carried;
      var k, v := m[i].0, m[i].1;
      BodyStarts(m, i + 1);
      ReadEntryAt(s, at, if i == 0 then "" else ",", k, v, Body(m, i + 1));
      if !Refused(k, v) {
        forall j | 0 <= j < |done| ensures done[j].0 != k { assert done[j].0 == m[j].0; }
        PutNew(done, k, Carried(k, v));
        assert done + [(k, Carried(k, v))] == CarriedPairs(m)[..i + 1];
        var next := at + |if i == 0 then "" else ","| + |EntryText(k, v)|;
        ReadRest(m, s, i + 1, next, fuel - 1);
      }
    }
  }

  lemma EndRead(s: string, at: nat)
    requires at <= |s| && s[at..] == "}"
    ensures at < |s| && ReadEntry(s, at) == Ok(End)
  {
    assert s[at] == s[at..][0];
    SkipWhileStops("", s[at..], SEPARATOR);
    assert "" + s[at..] == s[at..];
  }

  /**
   * For every ordered map with quote-free keys and readable bare values, reading
   * what was written gives every key with the value it carries, in order; or the
   * refusal of escapes, exactly when some quoted value holds a backslash.
   */
  lemma ReadUndoesWrite(m: Entries, fuel: nat)
    requires DistinctKeys(m) && forall i :: 0 <= i < |m| ==> Readable(m[i].0, m[i].1)
    requires fuel > |m|
    ensures ReadText(Written(m), fuel)
            == if exists i :: 0 <= i < |m| && Refused(m[i].0, m[i].1) then Err(Escapes) else Ok(CarriedPairs(m))
  {
    hide ReadFrom, Body, Refused, Readable;
    var s := Written(m);
    assert "" + ['{'] + Body(m, 0) == s && s[0..] == s;
    IndexFromFirst(s, '{', 0, "", Body(m, 0));
    assert CarriedPairs(m)[..0] == [];
    ReadRest(m, s, 0, 1, fuel);
  }

  /** A value is given back as it was exactly when it was not null and no quote of it had to be replaced. */
  lemma CarriedUnchangedIff(k: string, v: string)
    ensures Carried(k, Some(v)) == v <==> Bare(k, Some(v)) || '"' !in v
  {
    if '"' in v {
      var i :| 0 <= i < |v| && v[i] == '"';
      assert Unquoted(v)[i] != v[i];
    } else {
      assert Unquoted(v) == v;
    }
  }

  // ── Which maps come back ─────────────────────────────────────────────────

  /** What has been read is the map that was written, entry by entry. */
  predicate Gives(p: Pairs, m: Entries) {
    |p| == |m| && forall i :: 0 <= i < |m| ==> m[i] == (p[i].0, Some(p[i].1))
  }

  /** An entry that is read back, and as it was. */
  predicate Survives(k: string, v: Option<string>) {
    Readable(k, v) && !Refused(k, v) && v == Some(Carried(k, v))
  }

  predicate AfterColon(s: string, j: nat) { 0 < j <= |s| && s[j - 1] == ':' }

  predicate IdAt(s: string, j: nat) { j + 4 <= |s| && s[j..j + 4] == "\"id\"" }

  /**
   * Where a written text holds the bare value of its `id`: after that key, and
   * before a comma or a brace. Wherever else the quoted word stands outside that
   * value, it is a value itself and follows a colon.
   */
  ghost predicate Site(s: string, at: nat, v: string) {
    && 5 <= at && at + |v| < |s|
    && s[at - 5..at] == "\"id\":" && s[at..at + |v|] == v
    && (s[at + |v|] == ',' || s[at + |v|] == '}')
    && (at > 5 ==> s[at - 6] == ',' || (at == 6 && s[0] == '{'))
    && forall j :: 0 <= j && IdAt(s, j) ==> j == at - 5 || at <= j < at + |v| || AfterColon(s, j)
  }

  lemma IdShift(a: string, b: string, j: nat)
    ensures IdAt(a + b, |a| + j) <==> IdAt(b, j)
    ensures AfterColon(b, j) ==> AfterColon(a + b, |a| + j)
  {
    if AfterColon(b, j) { assert (a + b)[|a| + j - 1] == b[j - 1]; }
    if j + 4 <= |b| { assert (a + b)[|a| + j..|a| + j + 4] == b[j..j + 4]; }
  }

  lemma IdLetters(s: string, j: nat)
    requires IdAt(s, j)
    ensures j + 4 <= |s|
    ensures s[j] == '"' && s[j + 1] == 'i' && s[j + 2] == 'd' && s[j + 3] == '"'
  {
    var t := s[j..j + 4];
    assert t[0] == s[j] && t[1] == s[j + 1] && t[2] == s[j + 2] && t[3] == s[j + 3];
  }

  /** In the key of another entry the word does not stand. */
  lemma NotInKey(s: string, c: nat, k: string, j: nat)
    requires '"' !in k && k != "id" && c + |k| + 3 <= |s|
    requires s[c] == '"' && s[c + 1..c + 1 + |k|] == k && s[c + 1 + |k|] == '"' && s[c + 2 + |k|] == ':'
    requires c <= j <= c + 2 + |k|
    ensures !IdAt(s, j)
  {
    if j == c {
      if |k| >= 3 {
        assert k[2] == s[c + 3];
      } else if |k| == 2 {
        assert k == [s[c + 1], s[c + 2]];
      }
    } else if j < c + 1 + |k| {
      assert k[j - c - 1] == s[j];
    }
    if IdAt(s, j) { IdLetters(s, j); }
  }

  lemma NotInValue(s: string, at: nat, k: string, v: Option<string>, j: nat)
    requires k != "id" && 0 < at && at + |ValueText(k, v)| < |s|
    requires s[at..at + |ValueText(k, v)|] == ValueText(k, v)
    requires s[at + |ValueText(k, v)|] == ',' || s[at + |ValueText(k, v)|] == '}'
    requires at < j < at + |ValueText(k, v)|
    ensures !IdAt(s, j)
  {
    var t := ValueText(k, v);
    assert t[j - at] == s[j];
    if !Bare(k, v) && j < at + |t| - 1 { assert Carried(k, v)[j - at - 1] == t[j - at]; }
    if IdAt(s, j) { IdLetters(s, j); }
  }

  lemma EntryPositions(comma: string, k: string, v: Option<string>, rest: string)
    ensures var s := comma + EntryText(k, v) + rest;
            var c := |comma|;
            var at := c + |k| + 3;
            && |s| == at + |ValueText(k, v)| + |rest|
            && s[..c] == comma && s[c] == '"' && s[c + 1..c + 1 + |k|] == k
            && s[c + 1 + |k|] == '"' && s[c + 2 + |k|] == ':'
            && s[at..at + |ValueText(k, v)|] == ValueText(k, v) && s[at + |ValueText(k, v)|..] == rest
  {
    hide ValueText;
    var value := ValueText(k, v);
    var s := comma + EntryText(k, v) + rest;
    assert s == comma + ("\"" + k + "\":" + value) + rest;
  }

  /** In another entry the word stands as a value at most. */
  lemma OtherEntry(comma: string, k: string, v: Option<string>, rest: string, j: nat)
    requires comma == "" || comma == ","
    requires '"' !in k && k != "id" && rest != "" && (rest[0] == ',' || rest[0] == '}')
    requires j < |comma + EntryText(k, v)| && IdAt(comma + EntryText(k, v) + rest, j)
    ensures AfterColon(comma + EntryText(k, v) + rest, j)
  {
    hide ValueText, EntryText, IdAt;
    var s := comma + EntryText(k, v) + rest;
    var c, at := |comma|, |comma| + |k| + 3;
    EntryPositions(comma, k, v, rest);
    EntryShape(k, v, rest);
    assert s[at + |ValueText(k, v)|] == s[at + |ValueText(k, v)|..][0];
    IdLetters(s, j);
    assert c == 1 ==> s[0] == s[..1][0];
    if c <= j < at {
      NotInKey(s, c, k, j);
    } else if j > at {
      NotInValue(s, at, k, v, j);
    }
  }

  predicate PlainKeys(m: Entries) { forall i :: 0 <= i < |m| ==> '"' !in m[i].0 }

  function CommaBefore(i: nat): string { if i == 0 then "" else "," }

  lemma BodyStep(m: Entries, i: nat)
    requires i < |m|
    ensures Body(m, i) == CommaBefore(i) + EntryText(m[i].0, m[i].1) + Body(m, i + 1)
    ensures Body(m, i + 1) != "" && (Body(m, i + 1)[0] == ',' || Body(m, i + 1)[0] == '}')
  {
    BodyStarts(m, i + 1);
  }

  /** After the entry of `id` the word stands as a value at most. */
  lemma {:induction false} NoIdAfter(m: Entries, i: nat)
    requires PlainKeys(m) && i <= |m| && forall j :: i <= j < |m| ==> m[j].0 != "id"
    ensures forall j :: 0 <= j && IdAt(Body(m, i), j) ==> AfterColon(Body(m, i), j)
    decreases |m| - i
  {
    hide IdAt, EntryText;
    var s := Body(m, i);
    forall j | 0 <= j && IdAt(s, j) ensures AfterColon(s, j) {
      if i == |m| {
        IdLetters(s, j) by { assert IdAt(s, j); }
      } else {
        hide Body;
        BodyStep(m, i);
        var first, rest := CommaBefore(i) + EntryText(m[i].0, m[i].1), Body(m, i + 1);
        if j < |first| {
          OtherEntry(CommaBefore(i), m[i].0, m[i].1, rest, j);
        } else {
          NoIdAfter(m, i + 1);
          IdShift(first, rest, j - |first|);
        }
      }
    }
  }

  /** The entry of `id` itself, with a bare value. */
  lemma SiteHere(comma: string, v: string, rest: string)
    requires comma == "" || comma == ","
    requires v != "" && rest != "" && (rest[0] == ',' || rest[0] == '}')
    requires forall j :: 0 <= j && IdAt(rest, j) ==> AfterColon(rest, j)
    ensures Site(comma + EntryText("id", Some(v)) + rest, |comma| + 5, v)
  {
    hide IdAt;
    var s := comma + EntryText("id", Some(v)) + rest;
    var first, at := comma + EntryText("id", Some(v)), |comma| + 5;
    EntryPositions(comma, "id", Some(v), rest);
    assert ValueText("id", Some(v)) == v;
    hide EntryText, ValueText;
    assert |first| == at + |v| && s[at + |v|] == s[at + |v|..][0];
    assert s[at - 4..at - 2] == "id" && s[at - 5..at] == [s[at - 5]] + s[at - 4..at - 2] + [s[at - 2], s[at - 1]];
    if comma == "," { assert s[0] == s[..1][0]; }
    forall j | 0 <= j && IdAt(s, j) ensures j == at - 5 || at <= j < at + |v| || AfterColon(s, j) {
      IdLetters(s, j);
      if j < at {
        assert s[at - 4..at - 2][0] == s[at - 4] && s[at - 4..at - 2][1] == s[at - 3];
      } else if j >= |first| {
        IdShift(first, rest, j - |first|);
      }
    }
  }

  lemma SiteLater(first: string, rest: string, at: nat, v: string)
    requires Site(rest, at, v) && at > 5
    requires forall j :: 0 <= j < |first| && IdAt(first + rest, j) ==> AfterColon(first + rest, j)
    requires at == 6 && first != "" ==> rest[0] == ','
    ensures Site(first + rest, |first| + at, v)
  {
    hide IdAt;
    var s := first + rest;
    var n := |first|;
    assert s[n + at - 5..n + at] == rest[at - 5..at] && s[n + at..n + at + |v|] == rest[at..at + |v|];
    forall j | 0 <= j && IdAt(s, j)
      ensures j == n + at - 5 || n + at <= j < n + at + |v| || AfterColon(s, j)
    {
      if j >= n { IdShift(first, rest, j - n); }
    }
  }

  lemma {:induction false} FindSite(m: Entries, i: nat, q: nat, v: string) returns (at: nat)
    requires PlainKeys(m) && DistinctKeys(m) && i <= q < |m| && m[q] == ("id", Some(v)) && v != ""
    ensures Site(Body(m, i), at, v) && (i > 0 ==> at > 5 && Body(m, i)[0] == ',')
    decreases q - i
  {
    hide Site, IdAt, EntryText;
    BodyStep(m, i);
    hide Body;
    var rest := Body(m, i + 1);
    if i == q {
      forall j | i + 1 <= j < |m| ensures m[j].0 != "id" { }
      NoIdAfter(m, i + 1);
      SiteHere(CommaBefore(i), v, rest);
      at := |CommaBefore(i)| + 5;
    } else {
      var first := CommaBefore(i) + EntryText(m[i].0, m[i].1);
      var later := FindSite(m, i + 1, q, v);
      assert m[i].0 != "id";
      forall j | 0 <= j < |first| && IdAt(first + rest, j) ensures AfterColon(first + rest, j) {
        OtherEntry(CommaBefore(i), m[i].0, m[i].1, rest, j);
      }
      SiteLater(first, rest, later, v);
      at := |first| + later;
    }
  }

  /** Where a turn of the reader can begin: at the end, at a comma or brace, or after a quote or the opening brace. */
  predicate TurnStart(s: string, i: nat) {
    i <= |s| && (i == |s| || s[i] == ',' || s[i] == '}' || (i > 0 && (s[i - 1] == '"' || s[i - 1] == '{')))
  }

  lemma {:induction false} SkippedAll(s: string, test: char -> bool)
    ensures forall k :: 0 <= k < SkipWhile(s, test) ==> test(s[k])
  {
    if s != "" && test(s[0]) { SkippedAll(s[1..], test); }
  }

  /** A key is looked for from a turn's start, and never right after a colon. */
  lemma KeyStart(s: string, i: nat)
    requires TurnStart(s, i)
    ensures var j := i + SkipWhile(s[i..], SEPARATOR);
            j < |s| && s[j] == '"' ==> j > 0 && s[j - 1] != ':'
  {
    SkippedAll(s[i..], SEPARATOR);
    var n := SkipWhile(s[i..], SEPARATOR);
    if n > 0 { assert s[i + n - 1] == s[i..][n - 1]; }
  }

  lemma IndexFromNoneBefore(s: string, c: char, from: nat)
    ensures var i := IndexFrom(s, c, from); i != -1 ==> s[i] == c && c !in s[from..i]
  {
    if from <= |s| {
      var n := IndexOf(s[from..], c);
      assert s[from..from + n] == s[from..][..n];
    }
  }

  /** What trimming leaves, and where. */
  lemma {:induction false} TrimShape(s: string) returns (a: nat)
    ensures var r := JavaTrim(s);
            && a + |r| <= |s| && s[a..a + |r|] == r
            && (forall i :: 0 <= i < a || a + |r| <= i < |s| ==> s[i] <= ' ')
            && (r != "" ==> r[0] > ' ' && r[|r| - 1] > ' ')
    decreases |s|
  {
    if s != "" && s[0] <= ' ' {
      a := TrimShape(s[1..]);
      a := a + 1;
    } else if s != "" && s[|s| - 1] <= ' ' {
      a := TrimShape(s[..|s| - 1]);
    } else {
      a := 0;
    }
  }

  /** The end of a bare value: a comma, a brace or the end of the text, with neither before it. */
  predicate BareEnd(s: string, at: nat, b: nat) {
    && at <= b <= |s| && (b < |s| ==> s[b] == ',' || s[b] == '}')
    && forall k :: at <= k < b ==> s[k] != ',' && s[k] != '}'
  }

  /** The two kinds of value there are. */
  lemma ValueKinds(s: string, at: nat)
    requires ReadValue(s, at).Ok?
    ensures var v := ReadValue(s, at).value;
            && at < |s| && TurnStart(s, v.1)
            && if s[at] == '"' then '"' !in v.0 else BareEnd(s, at, v.1) && v.0 == JavaTrim(s[at..v.1])
  {
    hide JavaTrim, IndexFrom, SkipWhile;
    IndexFromNoneBefore(s, '"', at + 1);
    SkippedAll(s[at..], IN_BARE);
    var n := SkipWhile(s[at..], IN_BARE);
    if s[at] != '"' {
      forall k | at <= k < at + n ensures s[k] != ',' && s[k] != '}' { assert s[k] == s[at..][k - at]; }
      assert at + n < |s| ==> s[at + n] == s[at..][n];
    }
  }

  lemma PartOfPart(s: string, at: nat, b: nat, o: nat, n: nat)
    requires at <= b <= |s| && at + o + n <= b
    ensures s[at..b][o..o + n] == s[at + o..at + o + n]
  {
    var x, y := s[at..b][o..o + n], s[at + o..at + o + n];
    forall k | 0 <= k < n ensures x[k] == y[k] { assert x[k] == s[at..b][o + k] == s[at + o + k]; }
  }

  /** A bare value that is `v` is a whole copy of it between its ends, after a control character or more. */
  lemma BareCopy(s: string, at: nat, b: nat, v: string) returns (a: nat)
    requires BareEnd(s, at, b) && at < |s| && s[at] != '"' && JavaTrim(s[at..b]) == v && v != ""
    requires v[0] == '"'
    ensures at < a && a + |v| <= b && s[a..a + |v|] == v && s[a - 1] <= ' '
    ensures forall k :: a + |v| <= k < b ==> s[k] <= ' '
    ensures v[|v| - 1] > ' '
  {
    var t := s[at..b];
    var o := TrimShape(t);
    a := at + o;
    PartOfPart(s, at, b, o, |v|);
    assert s[a] == s[a..a + |v|][0] == v[0];
    assert a > at;
    assert s[a - 1] == t[o - 1];
    forall k | a + |v| <= k < b ensures s[k] <= ' ' { assert s[k] == t[k - at]; }
  }

  /** A value that cannot be read back bare would have to begin with a quote to be a bare value at all. */
  lemma UnreadableBegins(s: string, at: nat, b: nat, v: string)
    requires BareEnd(s, at, b) && JavaTrim(s[at..b]) == v && v != "" && !BareReadable(v)
    ensures v[0] == '"' && forall i :: 0 <= i < |v| ==> v[i] != ',' && v[i] != '}'
  {
    var t := s[at..b];
    var o := TrimShape(t);
    forall i | 0 <= i < |v| ensures v[i] != ',' && v[i] != '}' {
      assert v[i] == t[o..o + |v|][i] == s[at + o + i];
    }
  }

  lemma SiteFacts(s: string, site: nat, v: string)
    requires Site(s, site, v)
    ensures 5 <= site && site + |v| < |s| && s[site - 1] == ':'
    ensures s[site + |v|] == ',' || s[site + |v|] == '}'
    ensures site > 6 ==> s[site - 6] == ','
    ensures forall k :: site <= k < site + |v| ==> s[k] == v[k - site]
  {
    hide IdAt;
    assert s[site - 1] == s[site - 5..site][4];
    forall k | site <= k < site + |v| ensures s[k] == v[k - site] { assert s[k] == s[site..site + |v|][k - site]; }
  }

  lemma SitePlace(s: string, site: nat, v: string, k: nat)
    requires Site(s, site, v) && IdAt(s, k)
    ensures k == site - 5 || site <= k < site + |v| || AfterColon(s, k)
  {
    hide IdAt;
  }

  lemma BlankFirst(s: string, site: nat)
    requires site < |s|
    ensures var n := SkipWhile(s[site..], BLANK);
            (s[site] != ' ' ==> n == 0) && forall k :: site <= k < site + n ==> s[k] == ' '
  {
    SkippedAll(s[site..], BLANK);
    forall k | site <= k < site + SkipWhile(s[site..], BLANK) ensures s[k] == ' ' { assert s[k] == s[site..][k - site]; }
    assert s[site] == s[site..][0];
  }

  /** Its own entry does not give the value back. */
  lemma NotFromItsEntry(s: string, site: nat, v: string, at: nat)
    requires Site(s, site, v) && v != "" && !BareReadable(v)
    requires at == site + SkipWhile(s[site..], BLANK) && ReadValue(s, at).Ok?
    ensures ReadValue(s, at).value.0 != v
  {
    hide ReadValue, JavaTrim, IdAt, SkipWhile, Site, BareEnd, BareReadable;
    SiteFacts(s, site, v);
    BlankFirst(s, site);
    ValueKinds(s, at);
    var val, e := ReadValue(s, at).value, site + |v|;
    assert at <= e;
    assert at < e ==> s[at] == v[at - site];
    if s[at] != '"' && val.0 == v { UnreadableBegins(s, at, val.1, v); }
  }

  /** Nor does any key that is read inside it, as a copy of it elsewhere would hold that key as a value. */
  lemma NotFromInside(s: string, site: nat, v: string, j: nat, at: nat)
    requires Site(s, site, v) && v != "" && !BareReadable(v)
    requires site < j < site + |v| && IdAt(s, j) && s[j - 1] != ':' && ReadValue(s, at).Ok?
    ensures ReadValue(s, at).value.0 != v
  {
    hide ReadValue, JavaTrim, IdAt, Site, BareEnd, BareReadable;
    SiteFacts(s, site, v);
    ValueKinds(s, at);
    var val := ReadValue(s, at).value;
    IdLetters(s, j);
    assert s[j] == v[j - site];
    if s[at] != '"' && val.0 == v {
      UnreadableBegins(s, at, val.1, v);
      var a := BareCopy(s, at, val.1, v);
      NoSecondCopy(s, site, v, j, at, val.1, a);
    }
  }

  /** The key stands in every copy of the value, so every copy is at a place where it may stand. */
  lemma CopyPlace(s: string, site: nat, v: string, j: nat, a: nat)
    requires Site(s, site, v) && site < j < site + |v| && IdAt(s, j) && s[j - 1] != ':'
    requires a + |v| <= |s| && s[a..a + |v|] == v
    ensures a + (j - site) == site - 5 || site <= a + (j - site) < site + |v|
  {
    hide IdAt, Site;
    var e, d := site + |v|, j - site;
    SiteFacts(s, site, v);
    IdLetters(s, j);
    assert s[e] != 'i' && s[e] != 'd' && s[e] != '"';
    assert d + 4 <= |v|;
    CopyAt(s, a, v, d - 1);
    CopyAt(s, a, v, d);
    CopyAt(s, a, v, d + 1);
    CopyAt(s, a, v, d + 2);
    CopyAt(s, a, v, d + 3);
    FromLetters(s, a + d);
    SitePlace(s, site, v, a + d);
  }

  lemma CopyAt(s: string, a: nat, v: string, k: nat)
    requires a + |v| <= |s| && s[a..a + |v|] == v && k < |v|
    ensures s[a + k] == v[k]
  {
    assert s[a + k] == s[a..a + |v|][k];
  }

  lemma FromLetters(s: string, j: nat)
    requires j + 4 <= |s| && s[j] == '"' && s[j + 1] == 'i' && s[j + 2] == 'd' && s[j + 3] == '"'
    ensures IdAt(s, j)
  {
    assert s[j..j + 4] == [s[j], s[j + 1], s[j + 2], s[j + 3]];
  }

  lemma NoSecondCopy(s: string, site: nat, v: string, j: nat, at: nat, b: nat, a: nat)
    requires Site(s, site, v) && BareEnd(s, at, b)
    requires site < j < site + |v| && IdAt(s, j) && s[j - 1] != ':'
    requires v[|v| - 1] > ' ' && forall i :: 0 <= i < |v| ==> v[i] != ',' && v[i] != '}'
    requires at < a && a + |v| <= b && forall k :: a + |v| <= k < b ==> s[k] <= ' '
    ensures s[a..a + |v|] == v ==> s[a - 1] > ' '
  {
    hide Site, IdAt;
    var e := site + |v|;
    SiteFacts(s, site, v);
    assert s[e - 1] == v[|v| - 1];
    if s[a..a + |v|] == v { CopyPlace(s, site, v, j, a); }
  }

  predicate NeverId(p: Pairs, v: string) { forall i :: 0 <= i < |p| && p[i].0 == "id" ==> p[i].1 != v }

  predicate PlainPairs(p: Pairs) { forall i :: 0 <= i < |p| ==> '"' !in p[i].0 }

  lemma {:induction false} PutKeeps(m: Pairs, k: string, x: string, v: string)
    ensures NeverId(m, v) && (k == "id" ==> x != v) ==> NeverId(Put(m, k, x), v)
    ensures PlainPairs(m) && '"' !in k ==> PlainPairs(Put(m, k, x))
  {
    if m != [] && m[0].0 != k {
      PutKeeps(m[1..], k, x, v);
      var p := Put(m, k, x);
      assert p[0] == m[0] && p[1..] == Put(m[1..], k, x);
      forall i | 0 < i < |p| ensures p[i] == Put(m[1..], k, x)[i - 1] { }
      assert forall i :: 0 < i < |m| ==> m[i] == m[1..][i - 1];
      assert NeverId(m, v) ==> NeverId(m[1..], v);
      assert PlainPairs(m) ==> PlainPairs(m[1..]);
    }
  }

  /** The parts of a turn that reads an entry. */
  lemma TurnParts(s: string, i: nat) returns (j: nat, keyEnd: nat, at: nat)
    requires TurnStart(s, i) && ReadEntry(s, i).Ok? && ReadEntry(s, i).value.Read?
    ensures var r := ReadEntry(s, i).value;
            && 0 < j < keyEnd < |s| && s[j] == '"' && s[j - 1] != ':'
            && s[keyEnd] == '"' && r.key == s[j + 1..keyEnd] && '"' !in r.key
            && (var k := IndexFrom(s, ':', keyEnd) + 1; at == k + SkipWhile(s[k..], BLANK))
            && ReadValue(s, at) == Ok((r.value, r.next)) && TurnStart(s, r.next)
  {
    hide ReadValue, SkipWhile, IndexFrom, TurnStart;
    j := i + SkipWhile(s[i..], SEPARATOR);
    KeyStart(s, i);
    keyEnd := IndexFrom(s, '"', j + 1);
    IndexFromNoneBefore(s, '"', j + 1);
    var k := IndexFrom(s, ':', keyEnd) + 1;
    at := k + SkipWhile(s[k..], BLANK);
    ValueKinds(s, at);
  }

  lemma TurnInText(s: string, i: nat)
    requires TurnStart(s, i)
    ensures i <= |s|
  {
  }

  /** What reading from a position is: the end, a failure, or one entry and the rest. */
  lemma ReadStep(s: string, i: nat, out: Pairs, fuel: nat)
    requires i <= |s|
    ensures var all, r := ReadFrom(s, i, out, fuel), ReadEntry(s, i);
            if i < |s| && fuel > 0 && r.Ok? && r.value.Read?
            then all == ReadFrom(s, r.value.next, Put(out, r.value.key, r.value.value), fuel - 1)
            else all.Err? || all == Ok(out)
  {
    hide ReadEntry, Put;
  }

  /** No turn gives `id` the value it cannot be read back with. */
  lemma TurnNever(s: string, site: nat, v: string, i: nat)
    requires TurnStart(s, i) && Site(s, site, v) && v != "" && !BareReadable(v)
    ensures var r := ReadEntry(s, i); r.Ok? && r.value.Read? && r.value.key == "id" ==> r.value.value != v
  {
    hide ReadEntry, ReadValue, SkipWhile, IndexFrom, TurnStart, Site, IdAt, BareReadable;
    TurnInText(s, i);
    var r := ReadEntry(s, i);
    if r.Ok? && r.value.Read? && r.value.key == "id" {
      var j, keyEnd, at := TurnParts(s, i);
      assert s[j + 1..keyEnd][0] == s[j + 1] && s[j + 1..keyEnd][1] == s[j + 2];
      FromLetters(s, j);
      SiteFacts(s, site, v);
      SitePlace(s, site, v, j);
      if j == site - 5 {
        assert s[site - 2..] == "\"" + [':'] + s[site..];
        IndexFromFirst(s, ':', site - 2, "\"", s[site..]);
        NotFromItsEntry(s, site, v, at);
      } else {
        NotFromInside(s, site, v, j, at);
      }
    }
  }

  lemma {:induction false} ReadNever(s: string, site: nat, v: string, i: nat, out: Pairs, fuel: nat)
    requires TurnStart(s, i) && Site(s, site, v) && v != "" && !BareReadable(v) && NeverId(out, v)
    ensures ReadFrom(s, i, out, fuel).Ok? ==> NeverId(ReadFrom(s, i, out, fuel).value, v)
    decreases fuel
  {
    hide ReadFrom, ReadEntry, TurnStart, Site, BareReadable, NeverId, Put;
    TurnInText(s, i);
    ReadStep(s, i, out, fuel);
    if i < |s| && fuel > 0 && ReadEntry(s, i).Ok? && ReadEntry(s, i).value.Read? {
      var r := ReadEntry(s, i).value;
      var j, keyEnd, at := TurnParts(s, i);
      TurnNever(s, site, v, i);
      PutKeeps(out, r.key, r.value, v);
      ReadNever(s, site, v, r.next, Put(out, r.key, r.value), fuel - 1);
    }
  }

  lemma {:induction false} ReadPlain(s: string, i: nat, out: Pairs, fuel: nat)
    requires TurnStart(s, i) && PlainPairs(out)
    ensures ReadFrom(s, i, out, fuel).Ok? ==> PlainPairs(ReadFrom(s, i, out, fuel).value)
    decreases fuel
  {
    hide ReadFrom, ReadEntry, TurnStart, PlainPairs, Put;
    TurnInText(s, i);
    ReadStep(s, i, out, fuel);
    if i < |s| && fuel > 0 && ReadEntry(s, i).Ok? && ReadEntry(s, i).value.Read? {
      var r := ReadEntry(s, i).value;
      var j, keyEnd, at := TurnParts(s, i);
      PutKeeps(out, r.key, r.value, "");
      ReadPlain(s, r.next, Put(out, r.key, r.value), fuel - 1);
    }
  }

  /** Reading begins right after the brace the text begins with. */
  lemma ReadWritten(m: Entries, fuel: nat)
    ensures ReadText(Written(m), fuel) == ReadFrom(Written(m), 1, [], fuel) && TurnStart(Written(m), 1)
  {
    hide ReadFrom, Body;
    var s := Written(m);
    assert "" + ['{'] + Body(m, 0) == s && s[0..] == s;
    IndexFromFirst(s, '{', 0, "", Body(m, 0));
  }

  lemma UnreadableNeverBack(m: Entries, q: nat, fuel: nat)
    requires DistinctKeys(m) && PlainKeys(m) && q < |m| && !Readable(m[q].0, m[q].1)
    ensures ReadText(Written(m), fuel).Ok? ==> !Gives(ReadText(Written(m), fuel).value, m)
  {
    hide ReadText, ReadFrom, Body, Site, TurnStart, IdAt;
    var v := m[q].1.value;
    assert m[q] == ("id", Some(v)) && v != "" && !BareReadable(v);
    var at := FindSite(m, 0, q, v);
    assert Body(m, 0) != "" && Body(m, 0)[0] != '{' by { BodyFirst(m); }
    SiteInText(Body(m, 0), at, v);
    ReadWritten(m, fuel);
    ReadNever(Written(m), at + 1, v, 1, [], fuel);
  }

  lemma BodyFirst(m: Entries)
    ensures Body(m, 0) != "" && Body(m, 0)[0] != '{'
  {
  }

  lemma SiteInText(body: string, at: nat, v: string)
    requires Site(body, at, v) && body[0] != '{'
    ensures Site("{" + body, at + 1, v)
  {
    hide IdAt;
    var s := "{" + body;
    assert s[at - 4..at + 1] == body[at - 5..at] && s[at + 1..at + 1 + |v|] == body[at..at + |v|];
    assert s[at + 1 + |v|] == body[at + |v|] && s[0] == '{' && (at > 5 ==> s[at - 5] == body[at - 6]);
    forall j | 0 <= j && IdAt(s, j) ensures j == at - 4 || at + 1 <= j < at + 1 + |v| || AfterColon(s, j) {
      IdLetters(s, j);
      assert j > 0;
      IdShift("{", body, j - 1);
    }
  }

  /**
   * Of all ordered maps, those come back as they were that have no quote in a key,
   * no bare value the reader would cut or trim, no backslash in a quoted value, and
   * no null and no quote in a value that is quoted.
   */
  lemma ComesBackIff(m: Entries, fuel: nat)
    requires DistinctKeys(m) && fuel > |m|
    ensures (exists p :: ReadText(Written(m), fuel) == Ok(p) && Gives(p, m))
            <==> forall i :: 0 <= i < |m| ==> Survives(m[i].0, m[i].1)
  {
    hide ReadText, Written, Readable, Refused, Carried;
    if forall i :: 0 <= i < |m| ==> Readable(m[i].0, m[i].1) {
      ReadUndoesWrite(m, fuel);
      if forall i :: 0 <= i < |m| ==> Survives(m[i].0, m[i].1) { assert Gives(CarriedPairs(m), m); }
    } else {
      var q :| 0 <= q < |m| && !Readable(m[q].0, m[q].1);
      if PlainKeys(m) {
        UnreadableNeverBack(m, q, fuel);
      } else {
        QuotedKeyNeverBack(m, fuel);
      }
    }
  }

  lemma QuotedKeyNeverBack(m: Entries, fuel: nat)
    requires !PlainKeys(m)
    ensures ReadText(Written(m), fuel).Ok? ==> !Gives(ReadText(Written(m), fuel).value, m)
  {
    hide ReadText, ReadFrom, Written, TurnStart;
    ReadWritten(m, fuel);
    ReadPlain(Written(m), 1, [], fuel);
    var i :| 0 <= i < |m| && '"' in m[i].0;
  }

  // ── The format in terms of characters alone ──────────────────────────────

  /** The text of a map: its entries between braces, with commas between them. */
  lemma WrittenMeans(m: Entries, i: nat)
    requires i < |m|
    ensures Written(m) == "{" + Body(m, 0) && Written([]) == "{}" && Body(m, |m|) == "}"
    ensures Body(m, i) == (if i == 0 then "" else ",") + EntryText(m[i].0, m[i].1) + Body(m, i + 1)
  {
  }

  /**
   * The text of an entry: the key in quotes, a colon, and the value: bare for
   * `true` and `false`, and for anything not empty under `id`; else in quotes, with
   * single quotes for the double ones in it, and empty for null.
   */
  lemma EntryMeans(k: string, v: Option<string>)
    ensures EntryText(k, v)
            == "\"" + k + "\":"
               + if v == Some("true") || v == Some("false") then v.value
                 else if k == "id" && v.Some? && v.value != "" then v.value
                 else if v.None? then "\"\""
                 else "\"" + Unquoted(v.value) + "\""
    ensures v.Some? ==> |Unquoted(v.value)| == |v.value|
                        && forall i :: 0 <= i < |v.value| ==>
                             Unquoted(v.value)[i] == if v.value[i] == '"' then '\'' else v.value[i]
  {
  }

  /** A key is read up to its closing quote, after blanks and commas; its value begins after the next colon and blanks. */
  lemma ReadEntryMeans(s: string, i: nat, skipped: string, k: string, gap: string, blanks: string, after: string)
    requires i <= |s| && s[i..] == skipped + ("\"" + k + "\"" + gap + ":" + (blanks + after))
    requires (forall j :: 0 <= j < |skipped| ==> skipped[j] in " ,") && '"' !in k && ':' !in gap
    requires (forall j :: 0 <= j < |blanks| ==> blanks[j] == ' ') && (after == "" || after[0] != ' ')
    ensures i + |skipped| + |k| + |gap| + 3 + |blanks| <= |s|
    ensures var value := ReadValue(s, i + |skipped| + |k| + |gap| + 3 + |blanks|);
            ReadEntry(s, i) == if value.Err? then Err(value.error) else Ok(Read(k, value.value.0, value.value.1))
  {
    hide ReadEntry, ReadValue, IndexFrom, SkipWhile;
    var fromKey := "\"" + k + "\"" + gap + ":" + (blanks + after);
    assert fromKey[0] == '"';
    var j := i + |skipped|;
    SkipWhileStops(skipped, fromKey, SEPARATOR);
    Tail(s, i, skipped, fromKey);
    KeyAndColon(s, j, k, gap, blanks + after);
    SkipWhileStops(blanks, after, BLANK);
    SpacedEntry(s, i, j, j + 1 + |k|, j + |k| + |gap| + 3, |blanks|);
  }

  lemma KeyAndColon(s: string, j: nat, k: string, gap: string, after: string)
    requires j <= |s| && s[j..] == "\"" + k + "\"" + gap + ":" + after && '"' !in k && ':' !in gap
    ensures j < |s| && s[j] == '"'
    ensures var keyEnd, at := j + 1 + |k|, j + |k| + |gap| + 3;
            && IndexFrom(s, '"', j + 1) == keyEnd && s[j + 1..keyEnd] == k
            && IndexFrom(s, ':', keyEnd) == at - 1 && at <= |s| && s[at..] == after
  {
    hide IndexFrom;
    var afterKey := gap + [':'] + after;
    assert s[j..] == ['"'] + (k + ['"'] + afterKey);
    assert s[j] == s[j..][0];
    Tail(s, j, ['"'], k + ['"'] + afterKey);
    IndexFromFirst(s, '"', j + 1, k, afterKey);
    assert k + ['"'] + afterKey == k + (['"'] + afterKey);
    Tail(s, j + 1, k, ['"'] + afterKey);
    assert ['"'] + afterKey == (['"'] + gap) + [':'] + after;
    IndexFromFirst(s, ':', j + 1 + |k|, ['"'] + gap, after);
  }

  lemma SpacedEntry(s: string, i: nat, j: nat, keyEnd: nat, k: nat, blanks: nat)
    requires i <= j < |s| && SkipWhile(s[i..], SEPARATOR) == j - i && s[j] == '"'
    requires IndexFrom(s, '"', j + 1) == keyEnd && IndexFrom(s, ':', keyEnd) == k - 1
    requires k <= |s| && SkipWhile(s[k..], BLANK) == blanks
    ensures j + 1 <= keyEnd <= |s|
    ensures var value := ReadValue(s, k + blanks);
            ReadEntry(s, i) == if value.Err? then Err(value.error)
                               else Ok(Read(s[j + 1..keyEnd], value.value.0, value.value.1))
  {
    hide ReadValue, IndexFrom, SkipWhile;
  }

  /** A value in quotes is read up to the next one, and refused where a backslash comes before it. */
  lemma ReadQuotedMeans(s: string, at: nat, v: string, next: string)
    requires at <= |s| && s[at..] == "\"" + v + "\"" + next && '"' !in v
    ensures ReadValue(s, at) == if '\\' in v then Err(Escapes) else Ok((v, at + |v| + 2))
  {
    hide ReadValue;
    assert s[at..] == ['"'] + v + ['"'] + next;
    ReadQuotedAt(s, at, v, next);
  }

  /** A bare one up to a comma, a brace or the end, without the blanks and controls at its ends. */
  lemma ReadBareMeans(s: string, at: nat, b: nat)
    requires at < |s| && s[at] != '"' && at <= b <= |s| && (b < |s| ==> s[b] in ",}")
    requires forall k :: at <= k < b ==> s[k] !in ",}"
    ensures ReadValue(s, at) == Ok((JavaTrim(s[at..b]), b))
  {
    hide JavaTrim, IndexFrom;
    assert s[at..] == s[at..b] + s[b..];
    forall i | 0 <= i < |s[at..b]| ensures IN_BARE(s[at..b][i]) { assert s[at..b][i] == s[at + i]; assert s[at + i] !in ",}"; }
    assert b < |s| ==> s[b..][0] == s[b];
    SkipWhileStops(s[at..b], s[b..], IN_BARE);
  }

  /** Trimming takes off everything up to the blank, in the order of characters, at both ends, and nothing else. */
  lemma TrimMeans(s: string, before: string, kept: string, after: string)
    requires s == before + kept + after && kept != "" && kept[0] > ' ' && kept[|kept| - 1] > ' '
    requires (forall i :: 0 <= i < |before| ==> before[i] <= ' ') && forall i :: 0 <= i < |after| ==> after[i] <= ' '
    ensures JavaTrim(s) == kept
    decreases |before| + |after|
  {
    if before != "" {
      assert s[1..] == before[1..] + kept + after && s[0] == before[0];
      TrimMeans(s[1..], before[1..], kept, after);
    } else if after != "" {
      var n := |after| - 1;
      assert s[..|s| - 1] == before + kept + after[..n] && s[|s| - 1] == after[n] && s[0] == kept[0];
      TrimMeans(s[..|s| - 1], before, kept, after[..n]);
    } else {
      assert s == kept;
    }
  }

  /** A key read again takes its new value where the old one was; a new one comes last, as `PutNew` says. */
  lemma {:induction false} PutAgain(m: Pairs, i: nat, k: string, v: string)
    requires i < |m| && m[i].0 == k && forall j :: 0 <= j < i ==> m[j].0 != k
    ensures Put(m, k, v) == m[..i] + [(k, v)] + m[i + 1..]
  {
    if i == 0 {
      assert m[..0] + [(k, v)] == [(k, v)];
    } else {
      var rest := m[1..];
      assert rest[i - 1] == m[i];
      forall j | 0 <= j < i - 1 ensures rest[j].0 != k { assert rest[j] == m[j + 1]; }
      PutAgain(rest, i - 1, k, v);
      assert [m[0]] + rest[..i - 1] == m[..i] && rest[i..] == m[i + 1..];
    }
  }

  /** Reading goes on from entry to entry until a closing brace, or the end of the text. */
  lemma ReadFromMeans(s: string, i: nat, out: Pairs, fuel: nat)
    requires i <= |s|
    ensures i == |s| ==> ReadFrom(s, i, out, fuel) == Ok(out)
    ensures i < |s| && fuel > 0 ==>
              var r := ReadEntry(s, i);
              ReadFrom(s, i, out, fuel)
              == if r.Err? then Err(r.error) else if r.value.End? then Ok(out)
                 else ReadFrom(s, r.value.next, Put(out, r.value.key, r.value.value), fuel - 1)
    ensures ReadText(s, fuel) == if '{' !in s then Err(NotObject) else ReadFrom(s, IndexOf(s, '{') + 1, [], fuel)
  {
    hide ReadEntry, Put;
    assert s[0..] == s;
    if '{' !in s { IndexOfMissing(s, '{'); }
  }

  /** After blanks and commas comes a closing brace, a key, or a refusal. */
  lemma ReadEndMeans(s: string, i: nat, skipped: string, rest: string)
    requires i <= |s| && s[i..] == skipped + rest && forall j :: 0 <= j < |skipped| ==> skipped[j] in " ,"
    ensures rest == "" ==> ReadEntry(s, i) == Err(OutOfRange)
    ensures rest != "" && rest[0] == '}' ==> ReadEntry(s, i) == Ok(End)
    ensures rest != "" && rest[0] !in " ,}\"" ==> ReadEntry(s, i) == Err(ExpectedKey)
  {
    hide ReadValue, IndexFrom;
    if rest == "" || rest[0] !in " ," {
      SkipWhileStops(skipped, rest, SEPARATOR);
      Tail(s, i, skipped, rest);
      assert rest != "" ==> s[i + |skipped|..][0] == rest[0];
    }
  }

  /** An entry survives exactly when its key holds no quote and its value, not null, is written as it is and read as it is written. */
  lemma SurvivesMeans(k: string, v: Option<string>)
    ensures var bare := v == Some("true") || v == Some("false") || (k == "id" && v.Some? && v.value != "");
            Survives(k, v) <==>
              && '"' !in k && v.Some?
              && if bare
                 then v.value[0] != '"' && v.value[0] > ' ' && v.value[|v.value| - 1] > ' ' && ',' !in v.value && '}' !in v.value
                 else '"' !in v.value && '\\' !in v.value
    ensures forall p: Pairs, m: Entries :: Gives(p, m) <==> |p| == |m| && forall i :: 0 <= i < |m| ==> m[i] == (p[i].0, Some(p[i].1))
  {
    if v.Some? {
      CarriedUnchangedIff(k, v.value);
      assert BareReadable(v.value) <==>
               v.value != "" && v.value[0] != '"' && v.value[0] > ' ' && v.value[|v.value| - 1] > ' '
               && ',' !in v.value && '}' !in v.value;
      if v.value == "true" || v.value == "false" { assert BareReadable(v.value) && '"' !in v.value; }
    }
  }
}
