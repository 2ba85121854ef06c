/**
 * The JavaScript string operations the chat plugin's core relies on:
 * `indexOf`, `startsWith`, `trim` (and the leading-whitespace part of
 * it that a `^\s*` pattern removes) and `split` on one character.
 * `indexOf` and the trimming functions carry contracts saying what the
 * built-in returns. What `split` returns is stated by the lemmas about
 * it: `SplitPiecesFree`, `JoinSplit`, `SplitJoin` and `SplitAppend`.
 * `Join` is not a built-in the core calls; it is the inverse that those
 * lemmas state `split` against. `Concat` is the text a run of chunks
 * adds up to (`ConcatAppend`). `Contains` says a pattern occurs somewhere.
 * Strings are sequences of Unicode scalar values here, not UTF-16 units.
 */
module Strings {

  /** `pat` occurs in `s` starting at index `k`. */
  predicate OccursAt(s: string, pat: string, k: int) {
    0 <= k && k + |pat| <= |s| && forall t :: 0 <= t < |pat| ==> s[k + t] == pat[t]
  }


  /** `pat` occurs nowhere in `s` at an index in `[from, to)`. */
  predicate NoneFrom(s: string, pat: string, from: int, to: int) {
    forall k :: from <= k < to ==> !OccursAt(s, pat, k)
  }

  /**
   * `s.indexOf(pat, from)`: the first index at or after `from` where
   * `pat` occurs, or -1 when there is none (see `IndexOfFirst`).
   */
  function IndexOf(s: string, pat: string, from: nat): (r: int)
    requires from <= |s|
    ensures r == -1 || from <= r <= |s| - |pat|
    decreases |s| - from
  {
    if OccursAt(s, pat, from) then from
    else if from == |s| then -1
    else IndexOf(s, pat, from + 1)
  }

  /**
   * `s.indexOf(pat, from)` is the first occurrence: `pat` occurs at the
   * index returned, and nowhere from `from` up to it; when the result is
   * -1, `pat` occurs nowhere from `from` on.
   */
  lemma {:induction false} IndexOfFirst(s: string, pat: string, from: nat)
    requires from <= |s|
    ensures var r := IndexOf(s, pat, from);
      && (r != -1 ==> OccursAt(s, pat, r))
      && NoneFrom(s, pat, from, if r == -1 then |s| + 1 else r)
    decreases |s| - from
  {
    if !OccursAt(s, pat, from) && from < |s| {
      IndexOfFirst(s, pat, from + 1);
    }
  }

  /** `pat` occurs in `s`: searching `s` from its start finds it. */
  predicate Contains(s: string, pat: string) {
    IndexOf(s, pat, 0) != -1
  }

  /** `Contains` holds exactly when `pat` occurs at some index of `s`. */
  lemma ContainsOccurs(s: string, pat: string)
    ensures Contains(s, pat) <==> exists k :: 0 <= k <= |s| && OccursAt(s, pat, k)
  {
    IndexOfFirst(s, pat, 0);
  }

  /** `s.startsWith(prefix)`. */
  predicate StartsWith(s: string, prefix: string) {
    |prefix| <= |s| && s[..|prefix|] == prefix
  }

  /**
   * The characters JavaScript's `trim` and the regular-expression class
   * `\s` both treat as white space: the WhiteSpace and LineTerminator
   * code points of ECMAScript.
   */
  predicate IsWhitespace(c: char) {
    var n := c as int;
    n == 0x09 || n == 0x0A || n == 0x0B || n == 0x0C || n == 0x0D || n == 0x20
    || n == 0xA0 || n == 0x1680 || (0x2000 <= n <= 0x200A) || n == 0x2028
    || n == 0x2029 || n == 0x202F || n == 0x205F || n == 0x3000 || n == 0xFEFF
  }

  /** Every character of `s` is white space. */
  predicate IsBlank(s: string) {
    forall k :: 0 <= k < |s| ==> IsWhitespace(s[k])
  }

  /** `s` with its leading white space removed, as a `^\s*` pattern removes it. */
  function TrimStart(s: string): (r: string)
    ensures |r| <= |s| && r == s[|s| - |r|..]
    ensures IsBlank(s[..|s| - |r|])
    ensures r == [] || !IsWhitespace(r[0])
    decreases |s|
  {
    if s != [] && IsWhitespace(s[0]) then TrimStart(s[1..]) else s
  }

  /** White space followed by text that does not start with white space loses exactly the white space. */
  lemma {:induction false} TrimStartAfterBlank(w: string, d: string)
    requires IsBlank(w)
    requires d == [] || !IsWhitespace(d[0])
    ensures TrimStart(w + d) == d
    decreases |w|
  {
    if w == [] {
      assert w + d == d;
    } else {
      assert (w + d)[0] == w[0];
      assert (w + d)[1..] == w[1..] + d;
      TrimStartAfterBlank(w[1..], d);
    }
  }

  /** `s` with its trailing white space removed. */
  function TrimEnd(s: string): (r: string)
    ensures |r| <= |s| && r == s[..|r|]
    ensures IsBlank(s[|r|..])
    ensures r == [] || !IsWhitespace(r[|r| - 1])
    decreases |s|
  {
    if s != [] && IsWhitespace(s[|s| - 1]) then
      var r := TrimEnd(s[..|s| - 1]);
      assert s[|r|..] == s[..|s| - 1][|r|..] + [s[|s| - 1]];
      r
    else s
  }

  /** `s.trim()`. */
  function Trim(s: string): (r: string) {
    TrimEnd(TrimStart(s))
  }

  /** `s.trim()` is the empty string exactly when `s` is all white space. */
  lemma TrimEmptyIffBlank(s: string)
    ensures Trim(s) == [] <==> IsBlank(s)
  {
    var t := TrimStart(s);
    if Trim(s) == [] {
      assert IsBlank(t[0..]);
      assert t == [];
      assert s[..|s|] == s;
    }
  }

  /**
   * `s.split(sep)`: the pieces of `s` between occurrences of `sep`.
   * There is always at least one piece.
   */
  function Split(s: string, sep: char): (parts: seq<string>)
    ensures |parts| >= 1
    decreases |s|
  {
    if s == [] then [[]]
    else
      var rest := Split(s[1..], sep);
      if s[0] == sep then [[]] + rest
      else [[s[0]] + rest[0]] + rest[1..]
  }

  /** No piece of `s.split(sep)` holds `sep`. */
  lemma {:induction false} SplitPiecesFree(s: string, sep: char)
    ensures forall k :: 0 <= k < |Split(s, sep)| ==> sep !in Split(s, sep)[k]
    decreases |s|
  {
    if s != [] {
      SplitPiecesFree(s[1..], sep);
    }
  }

  /** The last piece of `s.split(sep)`. */
  function LastPiece(s: string, sep: char): (r: string) {
    var parts := Split(s, sep);
    parts[|parts| - 1]
  }

  /** All pieces of `s.split(sep)` but the last one. */
  function LeadingPieces(s: string, sep: char): (r: seq<string>) {
    var parts := Split(s, sep);
    parts[..|parts| - 1]
  }

  /** `parts.join(sep)`. */
  function Join(parts: seq<string>, sep: char): (r: string)
    decreases |parts|
  {
    if |parts| == 0 then []
    else if |parts| == 1 then parts[0]
    else parts[0] + [sep] + Join(parts[1..], sep)
  }

  /** Joining the pieces of a split with the separator gives back the string. */
  lemma {:induction false} JoinSplit(s: string, sep: char)
    ensures Join(Split(s, sep), sep) == s
    decreases |s|
  {
    if s != [] {
      var rest := Split(s[1..], sep);
      JoinSplit(s[1..], sep);
      if s[0] == sep {
        assert Split(s, sep)[1..] == rest;
        assert s == [sep] + s[1..];
      } else if |rest| == 1 {
        assert s == [s[0]] + rest[0];
      } else {
        var parts := Split(s, sep);
        assert parts[1..] == rest[1..];
        assert s == [s[0]] + s[1..];
      }
    }
  }

  /** A string without `sep` splits into itself alone. */
  lemma {:induction false} SplitNoSep(x: string, sep: char)
    requires sep !in x
    ensures Split(x, sep) == [x]
    decreases |x|
  {
    if x != [] {
      assert sep !in x[1..] by {
        forall k | 0 <= k < |x| - 1 ensures x[1..][k] != sep { assert x[1..][k] == x[k + 1]; }
      }
      SplitNoSep(x[1..], sep);
      assert x == [x[0]] + x[1..];
    }
  }

  /** How `split` treats the first character of a non-empty string. */
  lemma SplitCons(c: char, s: string, sep: char)
    ensures var rest := Split(s, sep);
      Split([c] + s, sep) == if c == sep then [[]] + rest else [[c] + rest[0]] + rest[1..]
  {
    assert ([c] + s)[1..] == s;
  }

  /** A separator-free piece followed by `sep` splits off as one piece. */
  lemma {:induction false} SplitAfterPiece(piece: string, z: string, sep: char)
    requires sep !in piece
    ensures Split(piece + [sep] + z, sep) == [piece] + Split(z, sep)
    decreases |piece|
  {
    if piece == [] {
      assert piece + [sep] + z == [sep] + z;
      SplitCons(sep, z, sep);
    } else {
      var c, rest := piece[0], piece[1..];
      assert sep !in rest by {
        forall k | 0 <= k < |rest| ensures rest[k] != sep { assert rest[k] == piece[k + 1]; }
      }
      SplitAfterPiece(rest, z, sep);
      assert piece + [sep] + z == [c] + (rest + [sep] + z);
      SplitCons(c, rest + [sep] + z, sep);
      assert piece == [c] + rest;
    }
  }

  /**
   * Splitting what a join of separator-free pieces `pieces + [last]` is
   * followed by gives the pieces back, and then the split of what `last`
   * continues into.
   */
  lemma {:induction false} SplitJoinAppend(pieces: seq<string>, last: string, z: string, sep: char)
    requires forall k :: 0 <= k < |pieces| ==> sep !in pieces[k]
    ensures Split(Join(pieces + [last], sep) + z, sep) == pieces + Split(last + z, sep)
    decreases |pieces|
  {
    if pieces == [] {
      assert pieces + [last] == [last];
    } else {
      var tail := pieces[1..] + [last];
      assert (pieces + [last])[1..] == tail;
      assert Join(pieces + [last], sep) == pieces[0] + [sep] + Join(tail, sep);
      SplitJoinAppend(pieces[1..], last, z, sep);
      assert Join(pieces + [last], sep) + z == pieces[0] + [sep] + (Join(tail, sep) + z);
      SplitAfterPiece(pieces[0], Join(tail, sep) + z, sep);
      assert pieces == [pieces[0]] + pieces[1..];
    }
  }

  /** Splitting a join of separator-free pieces gives the pieces back. */
  lemma SplitJoin(parts: seq<string>, sep: char)
    requires |parts| >= 1
    requires forall k :: 0 <= k < |parts| ==> sep !in parts[k]
    ensures Split(Join(parts, sep), sep) == parts
  {
    var n := |parts| - 1;
    assert parts == parts[..n] + [parts[n]];
    SplitJoinAppend(parts[..n], parts[n], [], sep);
    assert Join(parts, sep) + [] == Join(parts, sep);
    assert parts[n] + [] == parts[n];
    SplitNoSep(parts[n], sep);
  }

  /**
   * Splitting `x + y` splits `x` first: every piece of `x` but its last
   * is final, and the last piece continues into `y`.
   */
  lemma SplitAppend(x: string, y: string, sep: char)
    ensures Split(x + y, sep) == LeadingPieces(x, sep) + Split(LastPiece(x, sep) + y, sep)
  {
    var parts := Split(x, sep);
    var n := |parts| - 1;
    JoinSplit(x, sep);
    SplitPiecesFree(x, sep);
    assert parts == parts[..n] + [parts[n]];
    SplitJoinAppend(parts[..n], parts[n], y, sep);
  }

  /**
   * The complete and the trailing pieces of `x + y`: the complete pieces
   * of `x`, then those of what `x`'s trailing piece continues into.
   */
  lemma LeadingAppend(x: string, y: string, sep: char)
    ensures LeadingPieces(x + y, sep) == LeadingPieces(x, sep) + LeadingPieces(LastPiece(x, sep) + y, sep)
    ensures LastPiece(x + y, sep) == LastPiece(LastPiece(x, sep) + y, sep)
  {
    var lead, tail := LeadingPieces(x, sep), Split(LastPiece(x, sep) + y, sep);
    SplitAppend(x, y, sep);
    assert Split(x + y, sep) == lead + tail;
    assert (lead + tail)[..|lead + tail| - 1] == lead + tail[..|tail| - 1];
  }

  /** Text without `sep` has no complete piece; all of it is the trailing piece. */
  lemma NoSepPieces(t: string, sep: char)
    requires sep !in t
    ensures LeadingPieces(t, sep) == [] && LastPiece(t, sep) == t
  {
    SplitNoSep(t, sep);
  }

  /** Appending in two steps is appending once. */
  lemma AppendAssoc<T>(a: seq<T>, b: seq<T>, c: seq<T>)
    ensures a + (b + c) == (a + b) + c
  {
  }

  /** The concatenation of a list of strings, in order. */
  function Concat(ss: seq<string>): (r: string)
    decreases |ss|
  {
    if ss == [] then [] else ss[0] + Concat(ss[1..])
  }

  /** Concatenation distributes over appending lists. */
  lemma {:induction false} ConcatAppend(a: seq<string>, b: seq<string>)
    ensures Concat(a + b) == Concat(a) + Concat(b)
    decreases |a|
  {
    if a != [] {
      assert (a + b)[1..] == a[1..] + b;
      ConcatAppend(a[1..], b);
    } else {
      assert a + b == b;
    }
  }

  /** Concatenating one more string appends it at the end. */
  lemma ConcatSnoc(a: seq<string>, s: string)
    ensures Concat(a + [s]) == Concat(a) + s
  {
    ConcatAppend(a, [s]);
    assert Concat([s]) == s + Concat([]);
  }
}
