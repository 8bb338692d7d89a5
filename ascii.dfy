/**
 * The string methods the two front ends call (`lower`, `title`, `strip`,
 * `replace`, `split` and the `in` substring test), over ASCII.
 */
module Ascii {

  predicate IsUpper(c: char) { 'A' <= c <= 'Z' }
  predicate IsLower(c: char) { 'a' <= c <= 'z' }
  predicate IsLetter(c: char) { IsUpper(c) || IsLower(c) }

  /** Python's `str.isspace` on ASCII: space, tab, line feed, vertical tab, form feed, carriage return and the four separators 0x1C-0x1F. */
  predicate IsSpace(c: char) {
    c == ' ' || '\t' <= c <= '\r' || '\U{1C}' <= c <= '\U{1F}'
  }

  function Lower(c: char): (d: char)
    ensures IsLetter(c) ==> IsLower(d) && (IsLower(c) ==> d == c)
    ensures !IsUpper(c) ==> d == c
  {
    if IsUpper(c) then (c as int + 32) as char else c
  }

  function Upper(c: char): (d: char)
    ensures IsLetter(c) ==> IsUpper(d) && (IsUpper(c) ==> d == c)
    ensures !IsLower(c) ==> d == c
  {
    if IsLower(c) then (c as int - 32) as char else c
  }

  /** `str.lower()`. */
  function LowerStr(s: string): (r: string)
    ensures |r| == |s|
    ensures forall i :: 0 <= i < |s| ==> r[i] == Lower(s[i])
  {
    seq(|s|, i requires 0 <= i < |s| => Lower(s[i]))
  }

  /**
   * `str.title()`: a letter that starts a word (the string start, or after a
   * character that is not a letter) becomes upper case, every other letter
   * lower case; other characters are kept.
   */
  function Title(s: string): (r: string)
    ensures |r| == |s|
    ensures forall i :: 0 <= i < |s| && !IsLetter(s[i]) ==> r[i] == s[i]
    ensures forall i :: 0 <= i < |s| && IsLetter(s[i]) ==>
      if i == 0 || !IsLetter(s[i - 1]) then IsUpper(r[i]) && Lower(r[i]) == Lower(s[i])
      else IsLower(r[i]) && r[i] == Lower(s[i])
  {
    seq(|s|, i requires 0 <= i < |s| =>
      if !IsLetter(s[i]) then s[i]
      else if i == 0 || !IsLetter(s[i - 1]) then Upper(s[i])
      else Lower(s[i]))
  }

  /** `str.replace(old, new)` for single characters. */
  function ReplaceChar(s: string, from: char, to: char): (r: string)
    ensures |r| == |s|
    ensures from != to ==> from !in r
    ensures forall i :: 0 <= i < |s| ==> r[i] == if s[i] == from then to else s[i]
  {
    seq(|s|, i requires 0 <= i < |s| => if s[i] == from then to else s[i])
  }

  /** The number of whitespace characters `s` starts with. */
  function Leading(s: string): (n: nat)
    ensures n <= |s|
    ensures forall j :: 0 <= j < n ==> IsSpace(s[j])
    ensures n < |s| ==> !IsSpace(s[n])
  {
    if |s| > 0 && IsSpace(s[0]) then 1 + Leading(s[1..]) else 0
  }

  /** Drops leading whitespace. */
  function StripStart(s: string): (r: string)
    ensures r == s[Leading(s)..]
  {
    if |s| > 0 && IsSpace(s[0]) then StripStart(s[1..]) else s
  }

  /** Drops trailing whitespace: the result is a prefix, and only whitespace goes. */
  function StripEnd(s: string): (r: string)
    ensures |r| <= |s| && r == s[..|r|]
    ensures forall j :: |r| <= j < |s| ==> IsSpace(s[j])
    ensures |r| > 0 ==> !IsSpace(r[|r| - 1])
  {
    if |s| > 0 && IsSpace(s[|s| - 1]) then StripEnd(s[..|s| - 1]) else s
  }

  /**
   * `str.strip()`: the slice of `s` that starts after its leading whitespace;
   * only whitespace follows the slice, and the slice neither starts nor ends
   * with whitespace.
   */
  function Strip(s: string): (r: string)
    ensures Leading(s) + |r| <= |s| && r == s[Leading(s)..Leading(s) + |r|]
    ensures forall j :: Leading(s) + |r| <= j < |s| ==> IsSpace(s[j])
    ensures |r| > 0 ==> !IsSpace(r[0]) && !IsSpace(r[|r| - 1])
  {
    var t := StripStart(s);
    var r := StripEnd(t);
    TrimmedSlice(s, Leading(s), t, r);
    r
  }

  /** Dropping `n` leading characters and then a whitespace-only suffix leaves a slice followed only by whitespace. */
  lemma TrimmedSlice(s: string, n: nat, t: string, r: string)
    requires n <= |s| && t == s[n..]
    requires |r| <= |t| && r == t[..|r|] && forall j :: |r| <= j < |t| ==> IsSpace(t[j])
    ensures n + |r| <= |s| && r == s[n..n + |r|]
    ensures forall j :: n + |r| <= j < |s| ==> IsSpace(s[j])
  {
    forall j | n + |r| <= j < |s| ensures IsSpace(s[j]) {
      assert s[j] == t[j - n];
    }
  }

  /** Stripping removes whitespace only: every other character keeps its count. */
  lemma StripKeepsOthers(s: string, c: char)
    requires !IsSpace(c)
    ensures multiset(Strip(s))[c] == multiset(s)[c]
  {
    StripStartKeeps(s, c);
    StripEndKeeps(StripStart(s), c);
  }

  lemma {:induction false} StripStartKeeps(s: string, c: char)
    requires !IsSpace(c)
    ensures multiset(StripStart(s))[c] == multiset(s)[c]
  {
    if |s| > 0 && IsSpace(s[0]) {
      var t := s[1..];
      StripStartKeeps(t, c);
      assert StripStart(s) == StripStart(t);
      assert s == [s[0]] + t;
      assert multiset(s)[c] == multiset(t)[c];
    }
  }

  lemma {:induction false} StripEndKeeps(s: string, c: char)
    requires !IsSpace(c)
    ensures multiset(StripEnd(s))[c] == multiset(s)[c]
  {
    if |s| > 0 && IsSpace(s[|s| - 1]) {
      var n := |s| - 1;
      StripEndKeeps(s[..n], c);
      assert s == s[..n] + [s[n]];
    }
  }

  /** Rebuilds a string from its `sep`-separated parts (`sep.join(parts)`). */
  function Join(parts: seq<string>, sep: char): string
    requires |parts| > 0
  {
    if |parts| == 1 then parts[0]
    else Join(parts[..|parts| - 1], sep) + [sep] + parts[|parts| - 1]
  }

  /**
   * `str.split(sep)` with an explicit separator: empty parts are kept, so a
   * string with k separators has k + 1 parts, and no part holds the separator.
   */
  function Split(s: string, sep: char): (parts: seq<string>)
    ensures |parts| == multiset(s)[sep] + 1
    ensures forall i :: 0 <= i < |parts| ==> sep !in parts[i]
    ensures forall i, c :: 0 <= i < |parts| && c in parts[i] ==> c in s
  {
    if |s| == 0 then [""]
    else
      var n := |s| - 1;
      var init := Split(s[..n], sep);
      assert s == s[..n] + [s[n]];
      assert forall c :: c in s[..n] ==> c in s;
      if s[n] == sep then init + [""]
      else init[..|init| - 1] + [init[|init| - 1] + [s[n]]]
  }

  /** Splitting loses nothing: joining the parts with the separator gives back the string. */
  lemma {:induction false} SplitJoin(s: string, sep: char)
    ensures Join(Split(s, sep), sep) == s
  {
    if |s| > 0 {
      var n := |s| - 1;
      var t := s[..n];
      assert s == t + [s[n]];
      SplitJoin(t, sep);
      JoinExtend(Split(t, sep), sep, s[n]);
      if s[n] == sep {
        SplitOpen(t, sep);
      } else {
        SplitExtend(t, s[n], sep);
      }
    }
  }

  /** Appending one character to the split string either opens a new part or extends the last one. */
  lemma JoinExtend(init: seq<string>, sep: char, c: char)
    requires |init| > 0
    ensures c == sep ==> Join(init + [""], sep) == Join(init, sep) + [c]
    ensures c != sep ==>
      Join(init[..|init| - 1] + [init[|init| - 1] + [c]], sep) == Join(init, sep) + [c]
  {
    var m := |init| - 1;
    var parts := init[..m] + [init[m] + [c]];
    assert (init + [""])[..|init|] == init;
    if m > 0 {
      assert parts[..m] == init[..m];
    }
  }

  /** `needle` occurs in `hay` as a contiguous block. */
  ghost predicate IsSubstring(needle: string, hay: string) {
    exists i :: OccursAt(needle, hay, i)
  }

  /** `needle` occurs in `hay` starting at index `i`. */
  ghost predicate OccursAt(needle: string, hay: string, i: int) {
    0 <= i <= |hay| - |needle| && hay[i..i + |needle|] == needle
  }

  /** Python's `needle in hay` for strings. */
  function Contains(hay: string, needle: string): (b: bool)
    ensures b <==> IsSubstring(needle, hay)
  {
    if needle <= hay then
      assert OccursAt(needle, hay, 0);
      true
    else if |hay| == 0 then false
    else
      SubstringOfTail(hay, needle);
      Contains(hay[1..], needle)
  }

  /** When `needle` is not a prefix of `hay`, it occurs in `hay` exactly when it occurs in the tail. */
  lemma SubstringOfTail(hay: string, needle: string)
    requires |hay| > 0 && !(needle <= hay)
    ensures IsSubstring(needle, hay) <==> IsSubstring(needle, hay[1..])
  {
    if IsSubstring(needle, hay[1..]) {
      var i :| OccursAt(needle, hay[1..], i);
      assert hay[i + 1..i + 1 + |needle|] == hay[1..][i..i + |needle|];
      assert OccursAt(needle, hay, i + 1);
    }
    if IsSubstring(needle, hay) {
      var i :| OccursAt(needle, hay, i);
      if i > 0 {
        assert hay[1..][i - 1..i - 1 + |needle|] == hay[i..i + |needle|];
        assert OccursAt(needle, hay[1..], i - 1);
      }
    }
  }

  /** Two strings of equal length with `c` at the same positions hold equally many `c`. */
  lemma {:induction false} SameCount(a: string, b: string, c: char)
    requires |a| == |b|
    requires forall i :: 0 <= i < |a| ==> (a[i] == c <==> b[i] == c)
    ensures multiset(a)[c] == multiset(b)[c]
  {
    if |a| > 0 {
      var n := |a| - 1;
      SameCount(a[..n], b[..n], c);
      assert a == a[..n] + [a[n]] && b == b[..n] + [b[n]];
    }
  }

  /** Title-casing leaves the number of each non-letter unchanged. */
  lemma TitleKeepsCount(s: string, c: char)
    requires !IsLetter(c)
    ensures multiset(Title(s))[c] == multiset(s)[c]
  {
    SameCount(Title(s), s, c);
  }

  /** After replacing `from` by `to`, there are as many `to` as there were `from` and `to` together. */
  lemma {:induction false} ReplaceCount(s: string, from: char, to: char)
    requires from != to
    ensures multiset(ReplaceChar(s, from, to))[to] == multiset(s)[from] + multiset(s)[to]
  {
    if |s| > 0 {
      var n := |s| - 1;
      ReplaceCount(s[..n], from, to);
      assert ReplaceChar(s, from, to) == ReplaceChar(s[..n], from, to) + [ReplaceChar(s, from, to)[n]];
      assert s == s[..n] + [s[n]];
    }
  }

  /** A string without the separator is one part. */
  lemma {:induction false} SplitNoSep(s: string, sep: char)
    requires sep !in s
    ensures Split(s, sep) == [s]
  {
    if |s| > 0 {
      var n := |s| - 1;
      SplitNoSep(s[..n], sep);
      assert s == s[..n] + [s[n]];
    }
  }

  /** A last separator closes the parts before it and opens the last part. */
  lemma {:induction false} SplitAppend(a: string, b: string, sep: char)
    requires sep !in b
    ensures Split(a + [sep] + b, sep) == Split(a, sep) + [b]
  {
    if |b| == 0 {
      assert a + [sep] + b == a + [sep];
      SplitOpen(a, sep);
    } else {
      var k := |b| - 1;
      var t := a + [sep] + b[..k];
      assert b == b[..k] + [b[k]];
      assert a + [sep] + b == t + [b[k]];
      SplitAppend(a, b[..k], sep);
      SplitExtend(t, b[k], sep);
      var parts := Split(a, sep);
      var init := parts + [b[..k]];
      assert init[..|init| - 1] == parts;
    }
  }

  /** A string with exactly one separator splits into the text before it and the text after it. */
  lemma SplitPair(s: string, a: string, b: string, sep: char)
    requires s == a + [sep] + b && sep !in a && sep !in b
    ensures Split(s, sep) == [a, b]
  {
    SplitAppend(a, b, sep);
    SplitNoSep(a, sep);
  }

  /** A separator opens a new, empty last part. */
  lemma SplitOpen(t: string, sep: char)
    ensures Split(t + [sep], sep) == Split(t, sep) + [""]
  {
    assert (t + [sep])[..|t|] == t;
  }

  /** A character that is not the separator extends the last part. */
  lemma SplitExtend(t: string, c: char, sep: char)
    requires c != sep
    ensures var init := Split(t, sep);
      Split(t + [c], sep) == init[..|init| - 1] + [init[|init| - 1] + [c]]
  {
    assert (t + [c])[..|t|] == t;
  }
}
