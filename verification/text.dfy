/** The string primitives the review list is built from: `String.Split(char)`,
    `String.Trim()` and `String.IsNullOrWhiteSpace`. Strings here are sequences of Unicode
    scalar values, whereas C# strings are UTF-16 code units that may hold lone surrogates.
    The separator '|' and every white-space character lie in the Basic Multilingual Plane,
    each one code unit, so on well-formed text splitting and trimming cut at the same places
    in either view. */
module Text {

  /** The characters `Char.IsWhiteSpace` accepts: the space, line and paragraph
      separators, the controls U+0009..U+000D, and U+0085. The proofs below do not
      depend on which characters these are. */
  predicate IsWhiteSpace(c: char)
  {
    || c == ' '
    || ('\t' <= c <= '\r')
    || c == '\U{85}'
    || c == '\U{A0}'
    || c == '\U{1680}'
    || ('\U{2000}' <= c <= '\U{200A}')
    || c == '\U{2028}'
    || c == '\U{2029}'
    || c == '\U{202F}'
    || c == '\U{205F}'
    || c == '\U{3000}'
  }

  /** `String.IsNullOrWhiteSpace` on a non-null string (every piece of a split is non-null). */
  predicate IsBlank(s: string)
  {
    forall i :: 0 <= i < |s| ==> IsWhiteSpace(s[i])
  }

  /** No white space at either end. */
  predicate IsTrimmed(s: string)
  {
    s == [] || (!IsWhiteSpace(s[0]) && !IsWhiteSpace(s[|s| - 1]))
  }

  /** The inverse of `Split`: the pieces with `sep` between neighbours. */
  function Join(pieces: seq<string>, sep: char): string
    requires |pieces| > 0
    decreases |pieces|
  {
    if |pieces| == 1 then pieces[0] else pieces[0] + [sep] + Join(pieces[1..], sep)
  }

  /** `s.Split(sep)`: the maximal separator-free runs of `s`, including empty ones
      before, between and after separators; the empty string splits into one empty piece. */
  function Split(s: string, sep: char): (pieces: seq<string>)
    ensures |pieces| > 0
    ensures forall i :: 0 <= i < |pieces| ==> sep !in pieces[i]
    ensures Join(pieces, sep) == s
    decreases |s|
  {
    if |s| == 0 then [""]
    else
      var rest := Split(s[1..], sep);
      if s[0] == sep then
        assert ([""] + rest)[1..] == rest;
        [""] + rest
      else
        assert s == [s[0]] + s[1..];
        [[s[0]] + rest[0]] + rest[1..]
  }

  /** A string without the separator splits into itself. */
  lemma SplitNoSeparator(a: string, sep: char)
    requires sep !in a
    ensures Split(a, sep) == [a]
    decreases |a|
  {
  }

  /** Splitting at a leading separator-free run peels it off as the first piece. */
  lemma {:induction false} SplitAfterPiece(a: string, sep: char, t: string)
    requires sep !in a
    ensures Split(a + [sep] + t, sep) == [a] + Split(t, sep)
    decreases |a|
  {
    var s := a + [sep] + t;
    if |a| == 0 {
      assert s[1..] == t;
    } else {
      assert s[1..] == a[1..] + [sep] + t;
      SplitAfterPiece(a[1..], sep, t);
      assert [a[0]] + a[1..] == a;
    }
  }

  /** Split undoes Join when no piece contains the separator; with the `Join(Split(s)) == s`
      half of `Split`'s contract, the two are inverse. */
  lemma {:induction false} SplitJoin(pieces: seq<string>, sep: char)
    requires |pieces| > 0
    requires forall i :: 0 <= i < |pieces| ==> sep !in pieces[i]
    ensures Split(Join(pieces, sep), sep) == pieces
    decreases |pieces|
  {
    if |pieces| == 1 {
      SplitNoSeparator(pieces[0], sep);
    } else {
      SplitJoin(pieces[1..], sep);
      SplitAfterPiece(pieces[0], sep, Join(pieces[1..], sep));
      assert [pieces[0]] + pieces[1..] == pieces;
    }
  }

  /** How many characters `TrimStart()` drops. */
  function LeadingWhiteSpace(s: string): (n: nat)
    ensures n <= |s|
    ensures forall i :: 0 <= i < n ==> IsWhiteSpace(s[i])
    ensures n == |s| || !IsWhiteSpace(s[n])
    decreases |s|
  {
    if |s| > 0 && IsWhiteSpace(s[0]) then 1 + LeadingWhiteSpace(s[1..]) else 0
  }

  /** How many characters `TrimEnd()` drops. */
  function TrailingWhiteSpace(s: string): (n: nat)
    ensures n <= |s|
    ensures forall i :: |s| - n <= i < |s| ==> IsWhiteSpace(s[i])
    ensures n == |s| || !IsWhiteSpace(s[|s| - 1 - n])
    decreases |s|
  {
    if |s| > 0 && IsWhiteSpace(s[|s| - 1]) then 1 + TrailingWhiteSpace(s[..|s| - 1]) else 0
  }

  /** `r` is the part of `s` starting at `lead`, and every character of `s` around it is white space. */
  predicate WindowOf(s: string, lead: int, r: string)
  {
    && 0 <= lead <= |s| - |r|
    && r == s[lead..lead + |r|]
    && (forall i :: 0 <= i < lead ==> IsWhiteSpace(s[i]))
    && (forall i :: lead + |r| <= i < |s| ==> IsWhiteSpace(s[i]))
  }

  /** `Trim()`: no white space at the ends of the result, and nothing left of a blank string. */
  function Trim(s: string): (r: string)
    ensures IsTrimmed(r)
    ensures IsBlank(s) <==> r == []
  {
    var lead := LeadingWhiteSpace(s);
    if lead == |s| then
      ""
    else
      var trail := TrailingWhiteSpace(s);
      assert lead <= |s| - 1 - trail;
      s[lead..|s| - trail]
  }

  /** What `Trim()` removes is white space only: its result is a window of the input with
      white space on either side of it. */
  lemma TrimIsWindow(s: string)
    ensures exists lead :: WindowOf(s, lead, Trim(s))
  {
    var lead := LeadingWhiteSpace(s);
    if lead < |s| {
      var trail := TrailingWhiteSpace(s);
      assert lead <= |s| - 1 - trail;
    }
    assert WindowOf(s, lead, Trim(s));
  }
}
