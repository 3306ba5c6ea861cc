/** String and integer helpers: the power-of-two test, the prefix test,
    splitting on a delimiter and splitting into whitespace-separated words. */
module Util {

  // ---------------------------------------------------------------------
  // Powers of two

  function Pow2(n: nat): (r: nat)
    ensures r >= 1
  {
    if n == 0 then 1 else 2 * Pow2(n - 1)
  }

  /** Bitwise AND of two non-negative integers, one binary digit at a time. */
  function BitAnd(a: nat, b: nat): nat
  {
    if a == 0 || b == 0 then 0
    else 2 * BitAnd(a / 2, b / 2) + (if a % 2 == 1 && b % 2 == 1 then 1 else 0)
  }

  lemma {:induction false} BitAndSelf(a: nat)
    ensures BitAnd(a, a) == a
  {
    if a > 0 {
      BitAndSelf(a / 2);
    }
  }

  /** `x & (x - 1)` clears the lowest set bit, so it is zero exactly for
      the powers of two. */
  lemma {:induction false} LowestBitCleared(x: int)
    requires x > 0
    ensures BitAnd(x, x - 1) == 0 <==> exists n: nat :: Pow2(n) == x
    decreases x
  {
    if x == 1 {
      assert Pow2(0) == 1;
    } else if x % 2 == 0 {
      var h := x / 2;
      LowestBitCleared(h);
      assert BitAnd(x, x - 1) == 2 * BitAnd(h, h - 1);
      PowerOfTwoHalf(x);
    } else {
      BitAndSelf(x / 2);
      assert BitAnd(x, x - 1) == 2 * BitAnd(x / 2, x / 2);
      OddNotPowerOfTwo(x);
    }
  }

  /** An even number above one is a power of two exactly when its half is. */
  lemma PowerOfTwoHalf(x: int)
    requires x > 1 && x % 2 == 0
    ensures (exists n: nat :: Pow2(n) == x) <==> (exists n: nat :: Pow2(n) == x / 2)
  {
    if exists n: nat :: Pow2(n) == x {
      var n: nat :| Pow2(n) == x;
      assert n != 0;
      assert Pow2(n) == 2 * Pow2(n - 1);
      assert Pow2(n - 1) == x / 2;
    }
    if exists n: nat :: Pow2(n) == x / 2 {
      var n: nat :| Pow2(n) == x / 2;
      assert Pow2(n + 1) == 2 * Pow2(n);
      assert Pow2(n + 1) == x;
    }
  }

  /** No odd number above one is a power of two. */
  lemma OddNotPowerOfTwo(x: int)
    requires x > 1 && x % 2 == 1
    ensures forall n: nat :: Pow2(n) != x
  {
    forall n: nat
      ensures Pow2(n) != x
    {
      if n > 0 {
        assert Pow2(n) == 2 * Pow2(n - 1);
      }
    }
  }

  /** The source's test `x > 0 && !(x & (x - 1))`. For positive `x` the
      subtraction cannot wrap and two's-complement AND agrees with `BitAnd`. */
  function IsPowerOf2(x: int): (r: bool)
    ensures r <==> exists n: nat :: Pow2(n) == x
  {
    if x > 0 then
      LowestBitCleared(x);
      BitAnd(x, x - 1) == 0
    else
      assert forall n: nat :: Pow2(n) != x;
      false
  }

  lemma PowerOf2IsPowerOf2(n: nat)
    ensures IsPowerOf2(Pow2(n))
  {
  }

  // ---------------------------------------------------------------------
  // Prefix test

  /** `s.compare(0, prefix.length(), prefix) == 0`: compares the first
      `|prefix|` characters of `s` (fewer if `s` is shorter) with `prefix`. */
  function StringBeginsWith(s: string, prefix: string): (r: bool)
    ensures r <==> prefix <= s
  {
    var n := if |prefix| <= |s| then |prefix| else |s|;
    s[..n] == prefix
  }

  lemma BeginsWithEmptyAndSelf(s: string, t: string)
    ensures StringBeginsWith(s, "")
    ensures StringBeginsWith(s + t, s)
  {
    assert (s + t)[..|s|] == s;
  }

  // ---------------------------------------------------------------------
  // Split

  /** The first occurrence of `d` in `s` at or after `pos`, or `|s|` when
      there is none (the source's `npos`). */
  function FindFirstOf(s: string, d: char, pos: nat): (end: nat)
    requires pos <= |s|
    ensures pos <= end <= |s|
    ensures d !in s[pos..end]
    ensures end < |s| ==> s[end] == d
    decreases |s| - pos
  {
    if pos == |s| || s[pos] == d then pos else FindFirstOf(s, d, pos + 1)
  }

  /** The fields of `s[pos..]` between occurrences of `d`. */
  function FieldsFrom(s: string, d: char, pos: nat): (fields: seq<string>)
    requires pos <= |s|
    ensures |fields| >= 1
    decreases |s| - pos
  {
    var end := FindFirstOf(s, d, pos);
    if end == |s| then [s[pos..]] else [s[pos..end]] + FieldsFrom(s, d, end + 1)
  }

  /** What `Split` returns: nothing for the empty string, otherwise the fields. */
  function SplitFields(s: string, d: char): seq<string>
  {
    if |s| == 0 then [] else FieldsFrom(s, d, 0)
  }

  /** One step of `FieldsFrom`: the field up to the next delimiter, then the rest. */
  lemma FieldsUnfold(s: string, d: char, pos: nat)
    requires pos <= |s|
    ensures FindFirstOf(s, d, pos) == |s| ==> FieldsFrom(s, d, pos) == [s[pos..]]
    ensures FindFirstOf(s, d, pos) < |s| ==>
      FieldsFrom(s, d, pos) == [s[pos..FindFirstOf(s, d, pos)]] + FieldsFrom(s, d, FindFirstOf(s, d, pos) + 1)
  {
  }

  method Split(s: string, delimiter: char) returns (tokens: seq<string>)
    ensures tokens == SplitFields(s, delimiter)
  {
    tokens := [];
    if |s| == 0 {
      return;
    }
    var pos := 0;
    var end := FindFirstOf(s, delimiter, pos);
    while end < |s|
      invariant 0 <= pos <= end <= |s|
      invariant end == FindFirstOf(s, delimiter, pos)
      invariant tokens + FieldsFrom(s, delimiter, pos) == FieldsFrom(s, delimiter, 0)
      decreases |s| - pos
    {
      FieldsUnfold(s, delimiter, pos);
      assert tokens + FieldsFrom(s, delimiter, pos)
          == (tokens + [s[pos..end]]) + FieldsFrom(s, delimiter, end + 1);
      tokens := tokens + [s[pos..end]];
      pos := end + 1;
      end := FindFirstOf(s, delimiter, pos);
    }
    FieldsUnfold(s, delimiter, pos);
    tokens := tokens + [s[pos..]];
  }

  /** The fields joined back with the delimiter between them. */
  function Join(parts: seq<string>, d: char): string
  {
    if |parts| == 0 then ""
    else if |parts| == 1 then parts[0]
    else parts[0] + [d] + Join(parts[1..], d)
  }

  function Count(s: string, d: char): nat
  {
    if |s| == 0 then 0 else (if s[0] == d then 1 else 0) + Count(s[1..], d)
  }

  lemma CountAppend(a: string, b: string, d: char)
    ensures Count(a + b, d) == Count(a, d) + Count(b, d)
  {
    if |a| > 0 {
      assert (a + b)[1..] == a[1..] + b;
      CountAppend(a[1..], b, d);
      assert Count(a + b, d) == (if a[0] == d then 1 else 0) + Count(a[1..] + b, d);
    } else {
      assert a + b == b;
    }
  }

  lemma {:induction false} FieldsJoin(s: string, d: char, pos: nat)
    requires pos <= |s|
    ensures Join(FieldsFrom(s, d, pos), d) == s[pos..]
    decreases |s| - pos
  {
    var end := FindFirstOf(s, d, pos);
    FieldsUnfold(s, d, pos);
    if end < |s| {
      var rest := FieldsFrom(s, d, end + 1);
      assert Join(FieldsFrom(s, d, pos), d) == s[pos..end] + [d] + s[end + 1..] by {
        FieldsJoin(s, d, end + 1);
        JoinCons(s[pos..end], rest, d);
      }
      SliceAround(s, pos, end);
    } else {
      assert Join([s[pos..]], d) == s[pos..];
    }
  }

  /** A string cut around one of its characters. */
  lemma SliceAround(s: string, pos: nat, end: nat)
    requires pos <= end < |s|
    ensures s[pos..] == s[pos..end] + [s[end]] + s[end + 1..]
  {
  }

  lemma JoinCons(first: string, rest: seq<string>, d: char)
    requires |rest| >= 1
    ensures Join([first] + rest, d) == first + [d] + Join(rest, d)
  {
    assert ([first] + rest)[1..] == rest;
  }

  lemma {:induction false} FieldsNoDelimiter(s: string, d: char, pos: nat)
    requires pos <= |s|
    ensures forall n :: 0 <= n < |FieldsFrom(s, d, pos)| ==> d !in FieldsFrom(s, d, pos)[n]
    decreases |s| - pos
  {
    var end := FindFirstOf(s, d, pos);
    assert d !in s[pos..end];
    if end < |s| {
      FieldsNoDelimiter(s, d, end + 1);
    }
  }

  lemma {:induction false} FieldsCount(s: string, d: char, pos: nat)
    requires pos <= |s|
    ensures |FieldsFrom(s, d, pos)| == Count(s[pos..], d) + 1
    decreases |s| - pos
  {
    var end := FindFirstOf(s, d, pos);
    var field := s[pos..end];
    CountNone(field, d);
    FieldsUnfold(s, d, pos);
    if end < |s| {
      var tail := s[end + 1..];
      FieldsCount(s, d, end + 1);
      CountDelimiter(field, tail, d);
      assert s[pos..] == field + [d] + tail;
    } else {
      assert field == s[pos..];
    }
  }

  /** A field without the delimiter, the delimiter, then the rest. */
  lemma CountDelimiter(field: string, tail: string, d: char)
    requires Count(field, d) == 0
    ensures Count(field + [d] + tail, d) == 1 + Count(tail, d)
  {
    assert ([d] + tail)[1..] == tail;
    assert field + [d] + tail == field + ([d] + tail);
    CountAppend(field, [d] + tail, d);
  }

  lemma CountNone(s: string, d: char)
    requires d !in s
    ensures Count(s, d) == 0
  {
    if |s| > 0 {
      assert s[1..] <= s[1..];
      assert forall k :: 0 <= k < |s[1..]| ==> s[1..][k] == s[k + 1];
      CountNone(s[1..], d);
    }
  }

  /** Joining the tokens with the delimiter gives back the input, no token
      holds the delimiter, and a non-empty input has one more token than
      delimiters. */
  lemma SplitProperties(s: string, d: char)
    ensures Join(SplitFields(s, d), d) == s
    ensures forall n :: 0 <= n < |SplitFields(s, d)| ==> d !in SplitFields(s, d)[n]
    ensures |s| == 0 <==> SplitFields(s, d) == []
    ensures |s| > 0 ==> |SplitFields(s, d)| == Count(s, d) + 1
  {
    if |s| > 0 {
      FieldsJoin(s, d, 0);
      FieldsNoDelimiter(s, d, 0);
      FieldsCount(s, d, 0);
      assert s[0..] == s;
    }
  }

  /** The examples that document `Split`. */
  lemma SplitExamples()
    ensures SplitFields("ab&c&def", '&') == ["ab", "c", "def"]
    ensures SplitFields("c&", '&') == ["c", ""]
    ensures SplitFields("&c", '&') == ["", "c"]
    ensures SplitFields("&", '&') == ["", ""]
    ensures SplitFields("&&", '&') == ["", "", ""]
    ensures SplitFields("abc", '&') == ["abc"]
    ensures SplitFields("", '&') == []
  {
    SplitExample1();
    SplitExample2();
    SplitExample3();
  }

  lemma SplitExample1()
    ensures SplitFields("ab&c&def", '&') == ["ab", "c", "def"]
  {
    var s := "ab&c&def";
    assert FindFirstOf(s, '&', 5) == 8;
    assert FieldsFrom(s, '&', 5) == [s[5..]] == ["def"];
    assert FindFirstOf(s, '&', 3) == 4;
    assert FieldsFrom(s, '&', 3) == [s[3..4]] + FieldsFrom(s, '&', 5);
    assert s[3..4] == "c";
    assert FindFirstOf(s, '&', 0) == 2;
    assert FieldsFrom(s, '&', 0) == [s[0..2]] + FieldsFrom(s, '&', 3);
    assert s[0..2] == "ab";
  }

  lemma SplitExample2()
    ensures SplitFields("c&", '&') == ["c", ""]
    ensures SplitFields("&c", '&') == ["", "c"]
    ensures SplitFields("&", '&') == ["", ""]
  {
    var s := "c&";
    assert s[2..] == "";
    assert FieldsFrom(s, '&', 2) == [""];
    assert FieldsFrom(s, '&', 0) == [s[0..1]] + FieldsFrom(s, '&', 2);
    assert s[0..1] == "c";
    var t := "&c";
    assert FindFirstOf(t, '&', 1) == 2;
    assert FieldsFrom(t, '&', 1) == [t[1..]] == ["c"];
    assert FieldsFrom(t, '&', 0) == [t[0..0]] + FieldsFrom(t, '&', 1);
    var u := "&";
    assert FieldsFrom(u, '&', 1) == [u[1..]] == [""];
    assert FieldsFrom(u, '&', 0) == [u[0..0]] + FieldsFrom(u, '&', 1);
  }

  lemma SplitExample3()
    ensures SplitFields("&&", '&') == ["", "", ""]
    ensures SplitFields("abc", '&') == ["abc"]
    ensures SplitFields("", '&') == []
  {
    var s := "&&";
    assert s[2..] == "" && s[1..1] == "" && s[0..0] == "";
    assert FieldsFrom(s, '&', 2) == [""];
    assert FieldsFrom(s, '&', 1) == [s[1..1]] + FieldsFrom(s, '&', 2);
    assert FieldsFrom(s, '&', 0) == [s[0..0]] + FieldsFrom(s, '&', 1);
    var t := "abc";
    assert FindFirstOf(t, '&', 0) == 3;
    assert FieldsFrom(t, '&', 0) == [t[0..]];
    assert t[0..] == t;
  }

  // ---------------------------------------------------------------------
  // Tokenize

  /** The characters `operator>>` treats as separators (`isspace`). */
  predicate IsSpace(c: char)
  {
    c == ' ' || c == '\t' || c == '\n' || c == '\r' || c == 11 as char || c == 12 as char
  }

  /** Length of the run of non-space characters at the start of `s`. */
  function WordLength(s: string): (n: nat)
    ensures n <= |s|
    ensures forall k :: 0 <= k < n ==> !IsSpace(s[k])
    ensures n < |s| ==> IsSpace(s[n])
  {
    if |s| == 0 || IsSpace(s[0]) then 0 else 1 + WordLength(s[1..])
  }

  /** The whitespace-separated words of `s`, in order. */
  function Words(s: string): seq<string>
    decreases |s|
  {
    if |s| == 0 then []
    else if IsSpace(s[0]) then Words(s[1..])
    else
      var n := WordLength(s);
      [s[..n]] + Words(s[n..])
  }

  method Tokenize(str: string) returns (tokens: seq<string>)
    ensures tokens == Words(str)
  {
    tokens := [];
    var pos := 0;
    while true
      invariant 0 <= pos <= |str|
      invariant tokens + Words(str[pos..]) == Words(str)
      decreases |str| - pos
    {
      // skip leading whitespace, as extraction does
      while pos < |str| && IsSpace(str[pos])
        invariant 0 <= pos <= |str|
        invariant tokens + Words(str[pos..]) == Words(str)
      {
        WordsSkipSpace(str, pos);
        pos := pos + 1;
      }
      if pos == |str| {
        break;
      }
      var start := pos;
      while pos < |str| && !IsSpace(str[pos])
        invariant start <= pos <= |str|
        invariant forall k :: start <= k < pos ==> !IsSpace(str[k])
      {
        pos := pos + 1;
      }
      WordsTakeWord(str, start, pos);
      tokens := tokens + [str[start..pos]];
    }
  }

  lemma WordsSkipSpace(s: string, pos: nat)
    requires pos < |s| && IsSpace(s[pos])
    ensures Words(s[pos..]) == Words(s[pos + 1..])
  {
    assert s[pos..][1..] == s[pos + 1..];
  }

  lemma WordsTakeWord(s: string, start: nat, end: nat)
    requires start < end <= |s|
    requires forall k :: start <= k < end ==> !IsSpace(s[k])
    requires end < |s| ==> IsSpace(s[end])
    ensures Words(s[start..]) == [s[start..end]] + Words(s[end..])
  {
    WordLengthAt(s, start, end);
    assert s[start..][..end - start] == s[start..end];
    assert s[start..][end - start..] == s[end..];
  }

  lemma WordLengthAt(s: string, start: nat, end: nat)
    requires start < end <= |s|
    requires forall k :: start <= k < end ==> !IsSpace(s[k])
    requires end < |s| ==> IsSpace(s[end])
    ensures WordLength(s[start..]) == end - start
  {
  }

  /** All characters except whitespace, in order. */
  function RemoveSpace(s: string): string
  {
    if |s| == 0 then "" else (if IsSpace(s[0]) then "" else [s[0]]) + RemoveSpace(s[1..])
  }

  function Concat(ws: seq<string>): string
  {
    if |ws| == 0 then "" else ws[0] + Concat(ws[1..])
  }

  lemma RemoveSpaceAppend(a: string, b: string)
    ensures RemoveSpace(a + b) == RemoveSpace(a) + RemoveSpace(b)
  {
    if |a| > 0 {
      assert (a + b)[1..] == a[1..] + b;
      RemoveSpaceAppend(a[1..], b);
      assert RemoveSpace(a + b) == (if IsSpace(a[0]) then "" else [a[0]]) + RemoveSpace(a[1..] + b);
    } else {
      assert a + b == b;
    }
  }

  lemma RemoveSpaceOfWord(w: string)
    requires forall k :: 0 <= k < |w| ==> !IsSpace(w[k])
    ensures RemoveSpace(w) == w
  {
    if |w| > 0 {
      RemoveSpaceOfWord(w[1..]);
    }
  }

  /** Every word is non-empty and free of whitespace, and the words put
      together are the input with its whitespace removed. */
  lemma WordsProperties(s: string)
    ensures forall n :: 0 <= n < |Words(s)| ==>
      |Words(s)[n]| > 0 && forall k :: 0 <= k < |Words(s)[n]| ==> !IsSpace(Words(s)[n][k])
    ensures Concat(Words(s)) == RemoveSpace(s)
  {
    WordsAreWords(s);
    WordsConcat(s);
  }

  lemma {:induction false} WordsAreWords(s: string)
    ensures forall n :: 0 <= n < |Words(s)| ==>
      |Words(s)[n]| > 0 && forall k :: 0 <= k < |Words(s)[n]| ==> !IsSpace(Words(s)[n][k])
    decreases |s|
  {
    if |s| > 0 {
      if IsSpace(s[0]) {
        WordsAreWords(s[1..]);
      } else {
        var n := WordLength(s);
        WordsAreWords(s[n..]);
        var ws := Words(s);
        assert ws == [s[..n]] + Words(s[n..]);
        forall m | 1 <= m < |ws|
          ensures ws[m] == Words(s[n..])[m - 1]
        {
        }
      }
    }
  }

  lemma {:induction false} WordsConcat(s: string)
    ensures Concat(Words(s)) == RemoveSpace(s)
    decreases |s|
  {
    if |s| > 0 {
      if IsSpace(s[0]) {
        WordsConcat(s[1..]);
      } else {
        var n := WordLength(s);
        WordsConcat(s[n..]);
        assert Concat(Words(s)) == s[..n] + Concat(Words(s[n..])) by {
          assert ([s[..n]] + Words(s[n..]))[1..] == Words(s[n..]);
        }
        assert s == s[..n] + s[n..];
        RemoveSpaceAppend(s[..n], s[n..]);
        RemoveSpaceOfWord(s[..n]);
      }
    }
  }

  /** Words joined by single spaces split back into the same words. */
  lemma {:induction false} WordsOfJoin(ws: seq<string>)
    requires forall n :: 0 <= n < |ws| ==>
      |ws[n]| > 0 && forall k :: 0 <= k < |ws[n]| ==> !IsSpace(ws[n][k])
    ensures Words(Join(ws, ' ')) == ws
    decreases |ws|
  {
    if |ws| == 1 {
      WordsOfWord(ws[0], "");
      assert ws[0] + "" == ws[0];
    } else if |ws| > 1 {
      WordsOfJoin(ws[1..]);
      var rest := [' '] + Join(ws[1..], ' ');
      assert Join(ws, ' ') == ws[0] + rest;
      WordsOfWord(ws[0], rest);
      assert Words(rest) == Words(Join(ws[1..], ' '));
    }
  }

  /** A word followed by text that starts with whitespace (or nothing). */
  lemma WordsOfWord(w: string, rest: string)
    requires |w| > 0 && forall k :: 0 <= k < |w| ==> !IsSpace(w[k])
    requires |rest| > 0 ==> IsSpace(rest[0])
    ensures Words(w + rest) == [w] + Words(rest)
  {
    var s := w + rest;
    WordLengthAt(s, 0, |w|);
    assert s[0..] == s;
    assert s[..|w|] == w && s[|w|..] == rest;
  }
}
