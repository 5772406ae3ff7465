/** The Python `str` built-ins that the dashboard server relies on, written out
    on `seq<char>`: `strip()`, `split(sep)`, `split()`, `lower()`, `in` and
    `startswith`. */
module PyStr {

  /** The characters for which Python's `str.isspace()` holds; they are what
      `strip()` and `split()` without arguments treat as whitespace. */
  predicate IsSpace(c: char) {
    || ('\U{9}' <= c <= '\U{D}')
    || ('\U{1C}' <= c <= ' ')
    || c == '\U{85}' || c == '\U{A0}' || c == '\U{1680}'
    || ('\U{2000}' <= c <= '\U{200A}')
    || c == '\U{2028}' || c == '\U{2029}' || c == '\U{202F}'
    || c == '\U{205F}' || c == '\U{3000}'
  }

  predicate AllSpace(s: string) {
    forall i :: 0 <= i < |s| ==> IsSpace(s[i])
  }

  predicate NoSpace(s: string) {
    forall i :: 0 <= i < |s| ==> !IsSpace(s[i])
  }

  /** `s.lstrip()`: the longest suffix of `s` that does not start with whitespace. */
  function TrimLeft(s: string): (r: string)
    ensures |r| <= |s| && r == s[|s| - |r|..]
    ensures forall i :: 0 <= i < |s| - |r| ==> IsSpace(s[i])
    ensures r != [] ==> !IsSpace(r[0])
    decreases |s|
  {
    if s != [] && IsSpace(s[0]) then TrimLeft(s[1..]) else s
  }

  /** `s.rstrip()`: the longest prefix of `s` that does not end with whitespace. */
  function TrimRight(s: string): (r: string)
    ensures |r| <= |s| && r == s[..|r|]
    ensures forall i :: |r| <= i < |s| ==> IsSpace(s[i])
    ensures r != [] ==> !IsSpace(r[|r| - 1])
    decreases |s|
  {
    if s != [] && IsSpace(s[|s| - 1]) then TrimRight(s[..|s| - 1]) else s
  }

  /** `s.strip()`. */
  function Strip(s: string): (r: string)
    ensures |r| <= |s|
    ensures r != [] ==> !IsSpace(r[0]) && !IsSpace(r[|r| - 1])
    ensures r == [] <==> AllSpace(s)
  {
    var t := TrimLeft(s);
    var r := TrimRight(t);
    assert t != [] ==> s[|s| - |t|] == t[0];
    r
  }

  /** Stripping removes whitespace only: every other character is kept. */
  lemma StripKeeps(s: string, c: char)
    requires !IsSpace(c)
    ensures c in Strip(s) <==> c in s
  {
    TrimLeftKeeps(s, c);
    TrimRightKeeps(TrimLeft(s), c);
  }

  lemma TrimLeftKeeps(s: string, c: char)
    requires !IsSpace(c)
    ensures c in TrimLeft(s) <==> c in s
  {
    var t := TrimLeft(s);
    var lead := |s| - |t|;
    if c in s {
      var i :| 0 <= i < |s| && s[i] == c;
      assert t[i - lead] == c;
    }
  }

  lemma TrimRightKeeps(s: string, c: char)
    requires !IsSpace(c)
    ensures c in TrimRight(s) <==> c in s
  {
    var t := TrimRight(s);
    if c in s {
      var i :| 0 <= i < |s| && s[i] == c;
      assert t[i] == c;
    }
  }

  /** `sub` occurs in `s` at position `i`. */
  predicate OccursAt(s: string, sub: string, i: int) {
    0 <= i && i + |sub| <= |s| && s[i..i + |sub|] == sub
  }

  /** `sub in s` for strings: `sub` occurs at some position of `s`. */
  predicate Contains(s: string, sub: string)
    ensures StartsWith(s, sub) ==> Contains(s, sub)
    ensures Contains(s, sub) ==> |sub| <= |s|
    decreases |s|
  {
    StartsWith(s, sub) || (s != [] && Contains(s[1..], sub))
  }

  /** `s.startswith(prefix)`. */
  predicate StartsWith(s: string, prefix: string)
    ensures StartsWith(s, prefix) <==>
      |prefix| <= |s| && forall i :: 0 <= i < |prefix| ==> s[i] == prefix[i]
  {
    |prefix| <= |s| && s[..|prefix|] == prefix
  }

  /** `Contains` agrees with the positional reading of substring search. */
  lemma {:induction false} ContainsIff(s: string, sub: string)
    ensures Contains(s, sub) <==> exists i :: OccursAt(s, sub, i)
    decreases |s|
  {
    assert OccursAt(s, sub, 0) <==> StartsWith(s, sub) by {
      if |sub| <= |s| { assert s[0..0 + |sub|] == s[..|sub|]; }
    }
    if s != [] {
      ContainsIff(s[1..], sub);
      forall i | 1 <= i
        ensures OccursAt(s, sub, i) <==> OccursAt(s[1..], sub, i - 1)
      {
        if i + |sub| <= |s| {
          assert s[1..][i - 1..i - 1 + |sub|] == s[i..i + |sub|];
        }
      }
      if exists i :: OccursAt(s[1..], sub, i) {
        var i :| OccursAt(s[1..], sub, i);
        assert OccursAt(s, sub, i + 1);
      }
    }
    if exists i :: OccursAt(s, sub, i) {
      var i :| OccursAt(s, sub, i);
      if i > 0 {
        assert OccursAt(s[1..], sub, i - 1);
      }
    }
  }

  /** `s.lower()` on the ASCII letters; every other character is kept. */
  function LowerChar(c: char): (r: char)
    ensures 'A' <= c <= 'Z' ==> 'a' <= r <= 'z' && r as int - c as int == 32
    ensures !('A' <= c <= 'Z') ==> r == c
  {
    if 'A' <= c <= 'Z' then (c as int + 32) as char else c
  }

  function Lower(s: string): (r: string)
    ensures |r| == |s|
    ensures forall i :: 0 <= i < |s| ==> r[i] == LowerChar(s[i])
  {
    seq(|s|, i requires 0 <= i < |s| => LowerChar(s[i]))
  }

  /** The index of the first `c` in `s`, or `|s|` when there is none. */
  function IndexOf(s: string, c: char): (r: nat)
    ensures r <= |s| && c !in s[..r]
    ensures r < |s| ==> s[r] == c
    ensures r == |s| <==> c !in s
    decreases |s|
  {
    if s == [] then 0
    else if s[0] == c then 0
    else
      var k := IndexOf(s[1..], c);
      assert s[..k + 1] == [s[0]] + s[1..][..k];
      assert s == [s[0]] + s[1..];
      k + 1
  }

  /** The first `c` of `a + [c] + t`, when `a` has none, is the one after `a`. */
  lemma FirstAfter(a: string, c: char, t: string)
    requires c !in a
    ensures IndexOf(a + [c] + t, c) == |a|
    ensures var s := a + [c] + t; s[..|a|] == a && s[|a| + 1..] == t
  {
    var s := a + [c] + t;
    assert s[..|a|] == a;
    assert s[|a|] == c;
    assert s[|a| + 1..] == t;
  }

  /** `s.split(c)` for a one-character separator: the pieces between the
      occurrences of `c`, at least one of them. */
  function Split(s: string, c: char): (r: seq<string>)
    ensures |r| >= 1
    ensures forall i :: 0 <= i < |r| ==> c !in r[i]
    decreases |s|
  {
    if s == [] then [[]]
    else
      var rest := Split(s[1..], c);
      if s[0] == c then [[]] + rest
      else [[s[0]] + rest[0]] + rest[1..]
  }

  /** `c.join(parts)`. */
  function Join(parts: seq<string>, c: char): string
    requires |parts| >= 1
    decreases |parts|
  {
    if |parts| == 1 then parts[0] else parts[0] + [c] + Join(parts[1..], c)
  }

  /** Joining the pieces with the separator gives back the string. */
  lemma {:induction false} SplitJoin(s: string, c: char)
    ensures Join(Split(s, c), c) == s
    decreases |s|
  {
    if s != [] {
      var rest := Split(s[1..], c);
      SplitJoin(s[1..], c);
      if s[0] == c {
        assert ([[]] + rest)[1..] == rest;
      } else if |rest| > 1 {
        var r := Split(s, c);
        assert r[1..] == rest[1..];
        assert Join(r, c) == [s[0]] + Join(rest, c);
      }
    }
  }

  /** Splitting separator-free pieces joined by the separator gives back the pieces. */
  lemma {:induction false} JoinSplit(parts: seq<string>, c: char)
    requires |parts| >= 1
    requires forall i :: 0 <= i < |parts| ==> c !in parts[i]
    ensures Split(Join(parts, c), c) == parts
    decreases |parts|, |parts[0]|
  {
    var p := parts[0];
    if |parts| == 1 {
      SplitOfSeparatorFree(p, c);
    } else if p == [] {
      var tail := Join(parts[1..], c);
      assert Join(parts, c) == [c] + tail;
      assert ([c] + tail)[1..] == tail;
      JoinSplit(parts[1..], c);
      assert parts == [[]] + parts[1..];
    } else {
      var shorter := [p[1..]] + parts[1..];
      assert shorter[1..] == parts[1..];
      assert forall i :: 0 <= i < |shorter| ==> c !in shorter[i] by {
        assert forall x :: x in p[1..] ==> x in p;
      }
      JoinSplit(shorter, c);
      var s := Join(parts, c);
      assert s == [p[0]] + Join(shorter, c);
      assert s[1..] == Join(shorter, c);
      assert p == [p[0]] + p[1..];
      assert parts == [p] + parts[1..];
    }
  }

  lemma {:induction false} SplitOfSeparatorFree(s: string, c: char)
    requires c !in s
    ensures Split(s, c) == [s]
    decreases |s|
  {
    if s != [] {
      SplitOfSeparatorFree(s[1..], c);
      assert s == [s[0]] + s[1..];
    }
  }

  /** The string contains the separator exactly when it splits into more than one piece. */
  lemma {:induction false} SplitHasTwoPieces(s: string, c: char)
    ensures |Split(s, c)| >= 2 <==> c in s
    decreases |s|
  {
    if s != [] {
      SplitHasTwoPieces(s[1..], c);
      assert c in s <==> s[0] == c || c in s[1..];
    }
  }

  /** The first piece is the text before the first separator; the later pieces
      are those of the text after it. */
  lemma {:induction false} SplitFields(s: string, c: char)
    ensures Split(s, c)[0] == s[..IndexOf(s, c)]
    ensures c in s ==> Split(s, c)[1..] == Split(s[IndexOf(s, c) + 1..], c)
    decreases |s|
  {
    if s != [] && s[0] != c {
      SplitFields(s[1..], c);
      var k := IndexOf(s[1..], c);
      assert s[..k + 1] == [s[0]] + s[1..][..k];
      if c in s {
        assert c in s[1..] by { assert s == [s[0]] + s[1..]; }
        assert s[k + 1 + 1..] == s[1..][k + 1..];
      }
    }
  }

  /** `s.split()`: the maximal runs of non-whitespace characters. */
  function Word(s: string): (r: string)
    ensures |r| <= |s| && r == s[..|r|] && NoSpace(r)
    ensures |r| < |s| ==> IsSpace(s[|r|])
    decreases |s|
  {
    if s == [] || IsSpace(s[0]) then [] else [s[0]] + Word(s[1..])
  }

  function Tokens(s: string): (r: seq<string>)
    ensures forall i :: 0 <= i < |r| ==> r[i] != [] && NoSpace(r[i])
    ensures r == [] <==> AllSpace(s)
    decreases |s|
  {
    if s == [] then []
    else if IsSpace(s[0]) then
      assert forall i :: 1 <= i < |s| ==> s[i] == s[1..][i - 1];
      Tokens(s[1..])
    else
      var w := Word(s);
      var rest := Tokens(s[|w|..]);
      assert forall i :: 1 <= i < |rest| + 1 ==> ([w] + rest)[i] == rest[i - 1];
      [w] + rest
  }

  /** `s.split()[0]`, when it exists, is the run of non-whitespace characters
      that starts where `s.lstrip()` starts. */
  lemma {:induction false} FirstToken(s: string)
    requires !AllSpace(s)
    ensures Tokens(s)[0] == Word(TrimLeft(s))
    decreases |s|
  {
    if IsSpace(s[0]) {
      assert !AllSpace(s[1..]) by {
        var j :| 0 <= j < |s| && !IsSpace(s[j]);
        assert s[1..][j - 1] == s[j];
      }
      FirstToken(s[1..]);
    }
  }

  /** `s.split()` is the first word after the leading whitespace, followed by
      the tokens of what comes after that word. */
  lemma {:induction false} TokensAreWords(s: string)
    requires !AllSpace(s)
    ensures var u := TrimLeft(s); var w := Word(u);
      Tokens(s) == [w] + Tokens(u[|w|..])
    decreases |s|
  {
    if IsSpace(s[0]) {
      assert !AllSpace(s[1..]) by {
        var j :| 0 <= j < |s| && !IsSpace(s[j]);
        assert s[1..][j - 1] == s[j];
      }
      TokensAreWords(s[1..]);
    }
  }

  /** `s.lstrip()` leaves a string alone that does not start with whitespace. */
  lemma TrimLeftIdle(s: string)
    requires s != [] && !IsSpace(s[0])
    ensures TrimLeft(s) == s
  {
  }

  /** `lstrip()` removes exactly a leading run of whitespace. */
  lemma TrimLeftPad(pad: string, x: string)
    requires AllSpace(pad) && x != [] && !IsSpace(x[0])
    ensures TrimLeft(pad + x) == x
  {
    var s := pad + x;
    var r := TrimLeft(s);
    assert s[|pad|] == x[0];
    assert forall j :: 0 <= j < |pad| ==> s[j] == pad[j];
    assert r[0] == s[|s| - |r|];
    assert r == s[|pad|..];
    assert s[|pad|..] == x;
  }

  /** `s.rstrip()` leaves a string alone that does not end with whitespace. */
  lemma TrimRightIdle(s: string)
    requires s != [] && !IsSpace(s[|s| - 1])
    ensures TrimRight(s) == s
  {
  }

  /** The first word of a prefix of `u` that only leaves whitespace behind
      is a word of `u` too: a prefix of `u` followed by whitespace or the end. */
  lemma WordOfPrefix(u: string, v: string)
    requires |v| <= |u| && v == u[..|v|]
    requires forall i :: |v| <= i < |u| ==> IsSpace(u[i])
    ensures var w := Word(v); StartsWith(u, w) && (|w| < |u| ==> IsSpace(u[|w|]))
  {
    var w := Word(v);
    assert w == u[..|w|];
    if |w| < |v| {
      assert u[|w|] == v[|w|];
    }
  }

  /** `Word` is determined by its contract: a whitespace-free prefix followed
      by whitespace or by the end of the string. */
  lemma {:induction false} WordUnique(s: string, w: string)
    requires StartsWith(s, w) && NoSpace(w)
    requires |w| < |s| ==> IsSpace(s[|w|])
    ensures Word(s) == w
    decreases |s|
  {
    if w != [] {
      assert s[0] == w[0];
      WordUnique(s[1..], w[1..]);
      assert w == [w[0]] + w[1..];
    }
  }
}
