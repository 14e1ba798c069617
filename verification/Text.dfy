/** The string operations of the JavaScript runtime that several modules share. */
module Text {

  /** Position of the first `c`, or the length when there is none. */
  function IndexOf(s: string, c: char): (i: nat)
    ensures i <= |s|
    ensures c !in s[..i]
    ensures i < |s| ==> s[i] == c
  {
    if s == "" || s[0] == c then 0 else 1 + IndexOf(s[1..], c)
  }

  /** The index an occurrence is found at is decided by the text before it. */
  lemma {:induction false} IndexOfFirst(before: string, c: char, after: string)
    requires c !in before
    ensures IndexOf(before + [c] + after, c) == |before|
  {
    var s := before + [c] + after;
    if before != "" {
      IndexOfFirst(before[1..], c, after);
      assert s[1..] == before[1..] + [c] + after;
    }
  }

  lemma {:induction false} IndexOfMissing(s: string, c: char)
    requires c !in s
    ensures IndexOf(s, c) == |s|
  {
    if s != "" { IndexOfMissing(s[1..], c); }
  }

  function Split(s: string, c: char): (parts: seq<string>)
    ensures parts != []
    ensures forall p :: p in parts ==> c !in p
    decreases |s|
  {
    var i := IndexOf(s, c);
    if i == |s| then [s] else [s[..i]] + Split(s[i + 1..], c)
  }

  function Join(parts: seq<string>, c: char): string
    requires parts != []
  {
    if |parts| == 1 then parts[0] else parts[0] + [c] + Join(parts[1..], c)
  }

  lemma SplitFirst(first: string, c: char, rest: string)
    requires c !in first
    ensures Split(first + [c] + rest, c) == [first] + Split(rest, c)
  {
    hide IndexOf;
    IndexOfFirst(first, c, rest);
    var s := first + [c] + rest;
    assert s[..|first|] == first && s[|first| + 1..] == rest;
  }

  lemma {:induction false} SplitJoin(parts: seq<string>, c: char)
    requires parts != [] && forall p :: p in parts ==> c !in p
    ensures Split(Join(parts, c), c) == parts
  {
    hide IndexOf;
    if |parts| == 1 {
      IndexOfMissing(parts[0], c);
      assert parts == [parts[0]];
    } else {
      var rest := Join(parts[1..], c);
      SplitJoin(parts[1..], c);
      SplitFirst(parts[0], c, rest);
      assert parts == [parts[0]] + parts[1..];
    }
  }

  lemma JoinCons(first: string, parts: seq<string>, c: char)
    requires parts != []
    ensures Join([first] + parts, c) == first + [c] + Join(parts, c)
  {
    assert ([first] + parts)[1..] == parts;
  }

  lemma {:induction false} JoinSplit(s: string, c: char)
    ensures Join(Split(s, c), c) == s
    decreases |s|
  {
    hide IndexOf;
    var i := IndexOf(s, c);
    if i < |s| {
      var rest := Split(s[i + 1..], c);
      JoinSplit(s[i + 1..], c);
      JoinCons(s[..i], rest, c);
      assert s == s[..i] + [c] + s[i + 1..];
    }
  }

  /** `\w` of ECMAScript. */
  predicate IsWord(c: char) { 'a' <= c <= 'z' || 'A' <= c <= 'Z' || '0' <= c <= '9' || c == '_' }

  /** The white space of ECMAScript: what `\s` matches and `trim` removes. */
  predicate IsSpace(c: char) {
    var u := c as int;
    || 9 <= u <= 13 || u == 32 || u == 160 || u == 0x1680 || 0x2000 <= u <= 0x200a
    || u == 0x2028 || u == 0x2029 || u == 0x202f || u == 0x205f || u == 0x3000 || u == 0xfeff
  }

  lemma SpacesAre(c: char)
    ensures IsSpace(c) <==>
              c as int in {9, 10, 11, 12, 13, 32, 160, 5760, 8192, 8193, 8194, 8195, 8196, 8197, 8198, 8199, 8200, 8201, 8202,
                           8232, 8233, 8239, 8287, 12288, 65279}
  {
  }

  /** What is trimmed is white space, and what is left has none at its ends. */
  lemma TrimMeans(s: string) returns (before: string, after: string)
    ensures s == before + Trim(s) + after && AllSpace(before) && AllSpace(after)
    ensures Trim(s) != "" ==> !IsSpace(Trim(s)[0]) && !IsSpace(Trim(s)[|Trim(s)| - 1])
  {
    hide IsSpace;
    before := TrimStartRest(s);
    var rest := TrimStart(s);
    var t := TrimEnd(rest);
    after := rest[|t|..];
    TrimEndRest(rest);
    if t != "" { assert t[0] == rest[0]; }
  }

  lemma {:induction false} TrimStartRest(s: string) returns (before: string)
    ensures s == before + TrimStart(s) && AllSpace(before)
    ensures TrimStart(s) != "" ==> !IsSpace(TrimStart(s)[0])
  {
    before := "";
    if s != "" && IsSpace(s[0]) {
      before := TrimStartRest(s[1..]);
      before := [s[0]] + before;
    }
  }

  function TrimStart(s: string): string {
    if s != "" && IsSpace(s[0]) then TrimStart(s[1..]) else s
  }

  function TrimEnd(s: string): (r: string)
    ensures |r| <= |s| && r == s[..|r|]
    ensures r != "" ==> !IsSpace(r[|r| - 1])
    ensures forall i :: |r| <= i < |s| ==> IsSpace(s[i])
  {
    if s != "" && IsSpace(s[|s| - 1]) then TrimEnd(s[..|s| - 1]) else s
  }

  function Trim(s: string): string {
    TrimEnd(TrimStart(s))
  }

  predicate AllSpace(s: string) { forall i :: 0 <= i < |s| ==> IsSpace(s[i]) }

  /** Trimming takes off exactly the white space that was put on. */
  lemma {:induction false} TrimEndOf(s: string, spaces: string)
    requires AllSpace(spaces) && s != "" && !IsSpace(s[|s| - 1])
    ensures TrimEnd(s + spaces) == s
  {
    var t := s + spaces;
    if spaces == "" {
      assert t == s;
    } else {
      var fewer := spaces[..|spaces| - 1];
      assert t[|t| - 1] == spaces[|spaces| - 1] && t[..|t| - 1] == s + fewer;
      TrimEndOf(s, fewer);
    }
  }

  lemma TrimEndRest(s: string)
    ensures AllSpace(s[|TrimEnd(s)|..]) && s == TrimEnd(s) + s[|TrimEnd(s)|..]
  {
  }

  predicate EndsWith(s: string, suffix: string) {
    |suffix| <= |s| && s[|s| - |suffix|..] == suffix
  }
}
