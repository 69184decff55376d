/**
 * The JavaScript string operations the modelled code relies on, written out:
 * `String.prototype.trim` and `String.prototype.split` with a one-character
 * separator, together with the joining operation that `split` inverts.
 * Both scan by index, as the engine does.
 */
module Text {

  /** The characters `trim` removes: the WhiteSpace and LineTerminator code points of ECMAScript. */
  predicate IsWhitespace(c: char) {
    || c == '\t' || c == '\n' || c == '\U{B}' || c == '\U{C}' || c == '\r'
    || c == ' ' || c == '\U{A0}' || c == '\U{1680}'
    || ('\U{2000}' <= c <= '\U{200A}')
    || c == '\U{2028}' || c == '\U{2029}' || c == '\U{202F}' || c == '\U{205F}'
    || c == '\U{3000}' || c == '\U{FEFF}'
  }

  /** Neither end of `s` is white space (so `trim` leaves it alone). */
  predicate IsTrimmed(s: string) {
    s == [] || (!IsWhitespace(s[0]) && !IsWhitespace(s[|s| - 1]))
  }

  /** The first index from `i` on that does not hold white space (`|s|` if none). */
  function SkipLeading(s: string, i: nat): (j: nat)
    requires i <= |s|
    ensures i <= j <= |s|
    ensures j < |s| ==> !IsWhitespace(s[j])
    decreases |s| - i
  {
    if i < |s| && IsWhitespace(s[i]) then SkipLeading(s, i + 1) else i
  }

  /** Everything `SkipLeading` passes over is white space. */
  lemma {:induction false} SkipLeadingSkips(s: string, i: nat)
    requires i <= |s|
    ensures forall k :: i <= k < SkipLeading(s, i) ==> IsWhitespace(s[k])
    decreases |s| - i
  {
    if i < |s| && IsWhitespace(s[i]) {
      SkipLeadingSkips(s, i + 1);
    }
  }

  /** The end of `s[lo..j]` once its trailing white space is dropped. */
  function SkipTrailing(s: string, lo: nat, j: nat): (e: nat)
    requires lo <= j <= |s|
    ensures lo <= e <= j
    ensures e > lo ==> !IsWhitespace(s[e - 1])
    decreases j
  {
    if j > lo && IsWhitespace(s[j - 1]) then SkipTrailing(s, lo, j - 1) else j
  }

  /** Everything `SkipTrailing` drops is white space. */
  lemma {:induction false} SkipTrailingSkips(s: string, lo: nat, j: nat)
    requires lo <= j <= |s|
    ensures forall k :: SkipTrailing(s, lo, j) <= k < j ==> IsWhitespace(s[k])
    decreases j
  {
    if j > lo && IsWhitespace(s[j - 1]) {
      SkipTrailingSkips(s, lo, j - 1);
    }
  }

  /** `s` without its leading white space (what `parseInt` skips). */
  function TrimStart(s: string): string {
    s[SkipLeading(s, 0)..]
  }

  /** `s.trim()`: white space cut off at both ends (see `TrimIsSlice`). */
  function Trim(s: string): (r: string)
    ensures |r| <= |s|
  {
    var i := SkipLeading(s, 0);
    s[i..SkipTrailing(s, i, |s|)]
  }

  /**
   * `r` is what is left of `s` once the white space at both ends is cut off:
   * the slice `s[i..i + |r|]`, with nothing but white space before and after it.
   */
  predicate IsTrimOf(r: string, s: string, i: int) {
    && 0 <= i <= |s| - |r| && r == s[i..i + |r|] && IsTrimmed(r)
    && (forall k :: 0 <= k < i ==> IsWhitespace(s[k]))
    && (forall k :: i + |r| <= k < |s| ==> IsWhitespace(s[k]))
  }

  /** What `trim` keeps is a slice of its input with only white space around it. */
  lemma TrimIsSlice(s: string) returns (i: nat)
    ensures IsTrimOf(Trim(s), s, i)
  {
    i := SkipLeading(s, 0);
    SkipLeadingSkips(s, 0);
    SkipTrailingSkips(s, i, |s|);
  }

  /** Neither end of what `trim` returns is white space. */
  lemma TrimIsTrimmed(s: string)
    ensures IsTrimmed(Trim(s))
  {
    var i := TrimIsSlice(s);
  }

  /** `trim` yields the empty string exactly when every character is white space. */
  lemma TrimEmptyIff(s: string)
    ensures Trim(s) == [] <==> forall k :: 0 <= k < |s| ==> IsWhitespace(s[k])
  {
    var i := TrimIsSlice(s);
    if Trim(s) != [] {
      assert Trim(s)[0] == s[i];
    }
  }

  /** A string with no white space at either end is its own trim. */
  lemma TrimOfTrimmed(s: string)
    requires IsTrimmed(s)
    ensures Trim(s) == s
  {
    if s != [] {
      assert SkipLeading(s, 0) == 0;
      assert SkipTrailing(s, 0, |s|) == |s|;
    }
  }

  /** Trimming twice is trimming once. */
  lemma TrimIdempotent(s: string)
    ensures Trim(Trim(s)) == Trim(s)
  {
    TrimIsTrimmed(s);
    TrimOfTrimmed(Trim(s));
  }

  /** How often `c` occurs in `s`. */
  function Occurrences(s: string, c: char): nat {
    multiset(s)[c]
  }

  /** The first index from `i` on that holds `c` (`|s|` if none). */
  function IndexOf(s: string, c: char, i: nat): (j: nat)
    requires i <= |s|
    ensures i <= j <= |s|
    ensures j < |s| ==> s[j] == c
    decreases |s| - i
  {
    if i == |s| || s[i] == c then i else IndexOf(s, c, i + 1)
  }

  /** No index the search passes over holds `c`. */
  lemma {:induction false} IndexOfSkips(s: string, c: char, i: nat)
    requires i <= |s|
    ensures forall k :: i <= k < IndexOf(s, c, i) ==> s[k] != c
    decreases |s| - i
  {
    if i < |s| && s[i] != c {
      IndexOfSkips(s, c, i + 1);
    }
  }

  /** The pieces of `s[start..]` between occurrences of `sep`. */
  function SplitFrom(s: string, sep: char, start: nat): (parts: seq<string>)
    requires start <= |s|
    ensures |parts| >= 1
    decreases |s| - start
  {
    var j := IndexOf(s, sep, start);
    if j == |s| then [s[start..]] else [s[start..j]] + SplitFrom(s, sep, j + 1)
  }

  /**
   * `s.split(sep)`: the pieces of `s` between occurrences of `sep`. There is
   * always at least one piece: the empty string splits into one empty piece.
   */
  function Split(s: string, sep: char): (parts: seq<string>)
    ensures |parts| >= 1
  {
    SplitFrom(s, sep, 0)
  }

  /** No piece of a split contains the separator. */
  lemma {:induction false} SplitFromLacksSeparator(s: string, sep: char, start: nat)
    requires start <= |s|
    ensures forall i :: 0 <= i < |SplitFrom(s, sep, start)| ==> sep !in SplitFrom(s, sep, start)[i]
    decreases |s| - start
  {
    var j := IndexOf(s, sep, start);
    IndexOfSkips(s, sep, start);
    assert sep !in s[start..j];
    if j < |s| {
      SplitFromLacksSeparator(s, sep, j + 1);
    }
  }

  lemma SplitLacksSeparator(s: string, sep: char)
    ensures forall i :: 0 <= i < |Split(s, sep)| ==> sep !in Split(s, sep)[i]
  {
    SplitFromLacksSeparator(s, sep, 0);
  }

  /** A slice from `start` is the part before `j`, the element at `j`, and the rest. */
  lemma SliceAround<T>(s: seq<T>, start: nat, j: nat)
    requires start <= j < |s|
    ensures s[start..] == s[start..j] + [s[j]] + s[j + 1..]
  {
  }

  /** Slices of `u + t` past `u` are slices of `t`. */
  lemma SliceOfAppend<T>(u: seq<T>, t: seq<T>, i: nat, j: nat)
    requires i <= j <= |t|
    ensures (u + t)[|u| + i..|u| + j] == t[i..j]
    ensures (u + t)[|u| + i..] == t[i..]
  {
  }

  /** A slice that avoids `x` holds no copy of it. */
  lemma NoneInSlice<T>(s: seq<T>, start: nat, j: nat, x: T)
    requires start <= j <= |s|
    requires forall k :: start <= k < j ==> s[k] != x
    ensures multiset(s[start..j])[x] == 0
  {
    assert x !in s[start..j];
  }

  /** Counting `s[j]` from `start` counts the copies before `j`, then `s[j]`, then those after. */
  lemma CountAround<T>(s: seq<T>, start: nat, j: nat)
    requires start <= j < |s|
    ensures multiset(s[start..])[s[j]] == multiset(s[start..j])[s[j]] + 1 + multiset(s[j + 1..])[s[j]]
  {
    SliceAround(s, start, j);
  }

  /** There is exactly one piece more than there are separators. */
  lemma {:induction false} SplitFromCount(s: string, sep: char, start: nat)
    requires start <= |s|
    ensures |SplitFrom(s, sep, start)| == Occurrences(s[start..], sep) + 1
    decreases |s| - start
  {
    var j := IndexOf(s, sep, start);
    IndexOfSkips(s, sep, start);
    NoneInSlice(s, start, j, sep);
    if j < |s| {
      SplitFromCount(s, sep, j + 1);
      CountAround(s, start, j);
    } else {
      assert s[start..] == s[start..j];
    }
  }

  lemma SplitCount(s: string, sep: char)
    ensures |Split(s, sep)| == Occurrences(s, sep) + 1
  {
    SplitFromCount(s, sep, 0);
    assert s[0..] == s;
  }

  /** `parts.join(sep)`: the pieces in order with one `sep` between neighbours. */
  function Join(parts: seq<string>, sep: char): string {
    if parts == [] then []
    else if |parts| == 1 then parts[0]
    else parts[0] + [sep] + Join(parts[1..], sep)
  }

  /** Joining a first piece onto further pieces puts one separator between them. */
  lemma JoinCons(p: string, rest: seq<string>, sep: char)
    requires |rest| >= 1
    ensures Join([p] + rest, sep) == p + [sep] + Join(rest, sep)
  {
    assert ([p] + rest)[1..] == rest;
  }

  /** The piece before a separator, joined onto pieces that join to what follows it, gives the whole slice. */
  lemma JoinAtSeparator(s: string, sep: char, start: nat, j: nat, rest: seq<string>)
    requires start <= j < |s| && s[j] == sep
    requires |rest| >= 1 && Join(rest, sep) == s[j + 1..]
    ensures Join([s[start..j]] + rest, sep) == s[start..]
  {
    JoinCons(s[start..j], rest, sep);
    SliceAround(s, start, j);
  }

  lemma {:induction false} JoinSplitFrom(s: string, sep: char, start: nat)
    requires start <= |s|
    ensures Join(SplitFrom(s, sep, start), sep) == s[start..]
    decreases |s| - start
  {
    var j := IndexOf(s, sep, start);
    if j < |s| {
      var rest := SplitFrom(s, sep, j + 1);
      assert SplitFrom(s, sep, start) == [s[start..j]] + rest;
      JoinSplitFrom(s, sep, j + 1);
      JoinAtSeparator(s, sep, start, j, rest);
    } else {
      assert SplitFrom(s, sep, start) == [s[start..]];
    }
  }

  /** Joining the pieces of a split restores the original string. */
  lemma JoinSplit(s: string, sep: char)
    ensures Join(Split(s, sep), sep) == s
  {
    JoinSplitFrom(s, sep, 0);
    assert s[0..] == s;
  }

  /** Searching past a prefix is searching the rest, shifted by the prefix's length. */
  lemma {:induction false} IndexOfShift(u: string, t: string, c: char, i: nat)
    requires i <= |t|
    ensures IndexOf(u + t, c, |u| + i) == |u| + IndexOf(t, c, i)
    decreases |t| - i
  {
    if i < |t| && t[i] != c {
      IndexOfShift(u, t, c, i + 1);
    }
  }

  /** Splitting past a prefix is splitting the rest. */
  lemma {:induction false} SplitFromShift(u: string, t: string, sep: char, i: nat)
    requires i <= |t|
    ensures SplitFrom(u + t, sep, |u| + i) == SplitFrom(t, sep, i)
    decreases |t| - i
  {
    IndexOfShift(u, t, sep, i);
    var j := IndexOf(t, sep, i);
    SliceOfAppend(u, t, i, j);
    if j < |t| {
      SplitFromShift(u, t, sep, j + 1);
    }
  }

  /** A piece without the separator, followed by the separator, splits off as one piece. */
  lemma SplitAfterPiece(p: string, t: string, sep: char)
    requires sep !in p
    ensures Split(p + [sep] + t, sep) == [p] + Split(t, sep)
  {
    var s := p + [sep] + t;
    var j := IndexOf(s, sep, 0);
    IndexOfSkips(s, sep, 0);
    assert s[|p|] == sep;
    assert s[0..j] == p;
    assert s == (p + [sep]) + t;
    SplitFromShift(p + [sep], t, sep, 0);
  }

  /** A string without the separator splits into itself alone. */
  lemma SplitWithoutSeparator(p: string, sep: char)
    requires sep !in p
    ensures Split(p, sep) == [p]
  {
    assert p[0..] == p;
  }

  /** Splitting a join of separator-free pieces gives the pieces back. */
  lemma {:induction false} SplitJoin(parts: seq<string>, sep: char)
    requires |parts| >= 1
    requires forall i :: 0 <= i < |parts| ==> sep !in parts[i]
    ensures Split(Join(parts, sep), sep) == parts
  {
    if |parts| == 1 {
      SplitWithoutSeparator(parts[0], sep);
    } else {
      SplitJoin(parts[1..], sep);
      SplitAfterPiece(parts[0], Join(parts[1..], sep), sep);
      assert parts == [parts[0]] + parts[1..];
    }
  }
}
