/** The pieces of java.lang.String and java.lang.StringBuilder behaviour the updater relies on.
    Case mapping is ASCII-only. */
module Strings {

  // ---------------------------------------------------------------------------
  // Case mapping and comparison

  function LowerChar(ch: char): char {
    if 'A' <= ch <= 'Z' then (ch as int + 32) as char else ch
  }

  function UpperChar(ch: char): char {
    if 'a' <= ch <= 'z' then (ch as int - 32) as char else ch
  }

  /** `String.toLowerCase()` restricted to ASCII letters. */
  function Lower(s: string): (r: string)
    ensures |r| == |s|
    ensures forall i :: 0 <= i < |s| ==> r[i] == LowerChar(s[i])
  {
    seq(|s|, i requires 0 <= i < |s| => LowerChar(s[i]))
  }

  /** `String.toUpperCase()` restricted to ASCII letters. */
  function Upper(s: string): (r: string)
    ensures |r| == |s|
    ensures forall i :: 0 <= i < |s| ==> r[i] == UpperChar(s[i])
  {
    seq(|s|, i requires 0 <= i < |s| => UpperChar(s[i]))
  }

  predicate IsLower(s: string) {
    Lower(s) == s
  }

  lemma LowerIsLower(s: string)
    ensures IsLower(Lower(s))
  {
  }

  /** `a.equalsIgnoreCase(b)`. */
  predicate EqualsIgnoreCase(a: string, b: string) {
    Lower(a) == Lower(b)
  }

  /** `s.trim().isEmpty()`: `trim` strips every character up to U+0020 from both ends. */
  predicate IsBlank(s: string) {
    forall i :: 0 <= i < |s| ==> s[i] <= ' '
  }

  // ---------------------------------------------------------------------------
  // Searching

  predicate StartsWith(s: string, prefix: string) {
    |prefix| <= |s| && s[..|prefix|] == prefix
  }

  lemma StartsWithConcat(a: string, b: string)
    ensures StartsWith(a + b, a)
  {
    assert (a + b)[..|a|] == a;
  }

  lemma ConcatAssoc(a: string, b: string, c: string)
    ensures a + (b + c) == a + b + c
  {
  }

  lemma DropPrefix(a: string, b: string)
    ensures (a + b)[|a|..] == b
  {
  }

  /** The two splits of `a + (b + c + d) + e` that the column renderer needs. */
  lemma Regroup(a: string, b: string, c: string, d: string, e: string)
    ensures a + (b + c + d) + e == (a + b) + (c + (d + e))
    ensures a + (b + c + d) + e == (a + b + c) + (d + e)
  {
  }

  /** A text whose middle part opens with `sep + first` starts with `head + sep + first`. */
  lemma StartsWithOuter(head: string, sep: string, first: string, rest: string, x: string, y: string)
    ensures StartsWith(head + (sep + first + rest) + x + y, head + sep + first)
  {
    assert head + (sep + first + rest) + x + y == (head + sep + first) + (rest + x + y);
    StartsWithConcat(head + sep + first, rest + x + y);
  }

  lemma StartsWithLeft3(a: string, b: string, c: string)
    ensures StartsWith(a + b + c, a)
  {
    assert a + b + c == a + (b + c);
    StartsWithConcat(a, b + c);
  }

  lemma StartsWithLeft4(a: string, b: string, c: string, d: string)
    ensures StartsWith(a + b + c + d, a)
  {
    assert a + b + c + d == a + (b + c + d);
    StartsWithConcat(a, b + c + d);
  }

  /** `s.contains(sub)`. */
  predicate Contains(s: string, sub: string)
    decreases |s|
  {
    StartsWith(s, sub) || (|s| > 0 && Contains(s[1..], sub))
  }

  /** `s.replace("c", "")` for a one-character target. */
  function RemoveAll(s: string, c: char): (r: string)
    ensures c !in r
    ensures |r| <= |s|
    decreases |s|
  {
    if |s| == 0 then ""
    else if s[0] == c then RemoveAll(s[1..], c)
    else [s[0]] + RemoveAll(s[1..], c)
  }

  // ---------------------------------------------------------------------------
  // Joining and the StringBuilder loop

  /** `sep + items[0] + sep + items[1] + ...`: every item preceded by the separator. */
  function PrefixEach(sep: string, items: seq<string>): string
    decreases |items|
  {
    if |items| == 0 then "" else sep + items[0] + PrefixEach(sep, items[1..])
  }

  lemma PrefixEachOne(sep: string, item: string)
    ensures PrefixEach(sep, [item]) == sep + item
  {
    assert [item][1..] == [];
    assert PrefixEach(sep, [item]) == sep + item + "";
  }

  /** A single prefixed item `word + g` after `head`, regrouped around the literal parts. */
  lemma PrefixEachSingle(head: string, sep: string, word: string, g: string)
    ensures head + PrefixEach(sep, [word + g]) == head + (sep + word) + g
  {
    PrefixEachOne(sep, word + g);
    assert sep + (word + g) == (sep + word) + g;
  }

  /** `String.join(sep, items)`. */
  function Join(items: seq<string>, sep: string): string {
    if |items| == 0 then "" else items[0] + PrefixEach(sep, items[1..])
  }

  /** The loop shared by the renderers: for each item, append `sep` when the builder is
      already non-empty, then append the item. */
  function AppendEach(builder: string, items: seq<string>, sep: string): string
    decreases |items|
  {
    if |items| == 0 then builder
    else AppendEach(builder + (if |builder| > 0 then sep else "") + items[0], items[1..], sep)
  }

  /** Once the builder holds something, the separator goes before every item, the first included. */
  lemma {:induction false} AppendEachNonEmpty(builder: string, items: seq<string>, sep: string)
    requires |builder| > 0
    ensures AppendEach(builder, items, sep) == builder + PrefixEach(sep, items)
    decreases |items|
  {
    if |items| > 0 {
      var next := builder + sep + items[0];
      AppendEachNonEmpty(next, items[1..], sep);
      assert AppendEach(builder, items, sep) == next + PrefixEach(sep, items[1..]);
    }
  }

  /** Starting from an empty builder with non-empty items, the loop is `String.join`. */
  lemma AppendEachFromEmpty(items: seq<string>, sep: string)
    requires forall i :: 0 <= i < |items| ==> |items[i]| > 0
    ensures AppendEach("", items, sep) == Join(items, sep)
  {
    if |items| > 0 {
      assert "" + "" + items[0] == items[0];
      AppendEachNonEmpty(items[0], items[1..], sep);
    }
  }

  // ---------------------------------------------------------------------------
  // Splitting

  /** Every piece of `s` between occurrences of `c`, empty pieces included. */
  function SplitAll(s: string, c: char): (r: seq<string>)
    ensures |r| > 0
    decreases |s|
  {
    if |s| == 0 then [""]
    else if s[0] == c then [""] + SplitAll(s[1..], c)
    else
      var rest := SplitAll(s[1..], c);
      [[s[0]] + rest[0]] + rest[1..]
  }

  function DropTrailingEmpty(pieces: seq<string>): (r: seq<string>)
    ensures |r| <= |pieces|
    decreases |pieces|
  {
    if |pieces| > 0 && pieces[|pieces| - 1] == "" then DropTrailingEmpty(pieces[..|pieces| - 1])
    else pieces
  }

  /** `s.split(c)` for a separator that is not a regular-expression metacharacter: when `c`
      does not occur the result is `[s]`; otherwise trailing empty pieces are removed. */
  function JavaSplit(s: string, c: char): seq<string> {
    if c !in s then [s] else DropTrailingEmpty(SplitAll(s, c))
  }

  /** Joining the pieces with the separator gives back the original text. */
  lemma {:induction false} JoinSplitAll(s: string, c: char)
    ensures Join(SplitAll(s, c), [c]) == s
    decreases |s|
  {
    if |s| > 0 {
      var rest := SplitAll(s[1..], c);
      JoinSplitAll(s[1..], c);
      if s[0] == c {
        assert SplitAll(s, c) == [""] + rest;
        assert Join(SplitAll(s, c), [c]) == "" + PrefixEach([c], rest);
        assert PrefixEach([c], rest) == [c] + rest[0] + PrefixEach([c], rest[1..]);
        assert s == [s[0]] + s[1..];
      } else {
        assert SplitAll(s, c) == [[s[0]] + rest[0]] + rest[1..];
        assert (([[s[0]] + rest[0]] + rest[1..])[1..]) == rest[1..];
        assert Join(SplitAll(s, c), [c]) == [s[0]] + rest[0] + PrefixEach([c], rest[1..]);
        assert s == [s[0]] + s[1..];
      }
    }
  }

  /** Text without the separator is a single piece. */
  lemma {:induction false} SplitAllNoSeparator(a: string, c: char)
    requires c !in a
    ensures SplitAll(a, c) == [a]
    decreases |a|
  {
    if |a| > 0 {
      SplitAllNoSeparator(a[1..], c);
      assert [a[0]] + a[1..] == a;
    }
  }

  /** Splitting `a + c + b` yields `a` and then the pieces of `b`. */
  lemma {:induction false} SplitAllAtSeparator(a: string, b: string, c: char)
    requires c !in a
    ensures SplitAll(a + [c] + b, c) == [a] + SplitAll(b, c)
    decreases |a|
  {
    if |a| == 0 {
      assert a + [c] + b == [c] + b;
      assert ([c] + b)[1..] == b;
    } else {
      var s := a + [c] + b;
      assert s[0] == a[0];
      assert s[1..] == a[1..] + [c] + b;
      SplitAllAtSeparator(a[1..], b, c);
      assert [a[0]] + a[1..] == a;
    }
  }

  /** Splitting a join of separator-free pieces gives back the pieces. */
  lemma {:induction false} SplitAllJoin(parts: seq<string>, c: char)
    requires |parts| > 0
    requires forall i :: 0 <= i < |parts| ==> c !in parts[i]
    ensures SplitAll(Join(parts, [c]), c) == parts
    decreases |parts|
  {
    if |parts| == 1 {
      assert Join(parts, [c]) == parts[0];
      SplitAllNoSeparator(parts[0], c);
    } else {
      var tail := parts[1..];
      assert Join(tail, [c]) == tail[0] + PrefixEach([c], tail[1..]);
      assert Join(parts, [c]) == parts[0] + [c] + Join(tail, [c]);
      SplitAllAtSeparator(parts[0], Join(tail, [c]), c);
      SplitAllJoin(tail, c);
      assert [parts[0]] + tail == parts;
    }
  }

  /** Dropping trailing empty pieces never drops a non-empty one. */
  lemma {:induction false} DropTrailingEmptyKeeps(pieces: seq<string>, x: string)
    requires x != ""
    ensures x in DropTrailingEmpty(pieces) <==> x in pieces
    decreases |pieces|
  {
    if |pieces| > 0 && pieces[|pieces| - 1] == "" {
      var front := pieces[..|pieces| - 1];
      DropTrailingEmptyKeeps(front, x);
      assert pieces == front + [""];
    }
  }

  /** For a non-empty name, membership in `split` is membership among all the pieces. */
  lemma JavaSplitMembership(s: string, c: char, x: string)
    requires x != ""
    ensures x in JavaSplit(s, c) <==> x in SplitAll(s, c)
  {
    if c in s {
      DropTrailingEmptyKeeps(SplitAll(s, c), x);
    } else {
      SplitAllNoSeparator(s, c);
    }
  }

  // ---------------------------------------------------------------------------
  // Numbers

  function DigitChar(d: nat): (r: char)
    requires d < 10
    ensures '0' <= r <= '9'
  {
    "0123456789"[d]
  }

  function NatToString(n: nat): (r: string)
    ensures |r| > 0
    ensures forall k :: 0 <= k < |r| ==> '0' <= r[k] <= '9'
    decreases n
  {
    if n < 10 then [DigitChar(n)] else NatToString(n / 10) + [DigitChar(n % 10)]
  }

  /** `Long.toString(i)` (and the `"" + i` concatenation the renderers use). */
  function IntToString(i: int): (r: string)
    ensures |r| > 0
    ensures r[0] == '-' <==> i < 0
  {
    if i < 0 then "-" + NatToString(-i) else NatToString(i)
  }
}
