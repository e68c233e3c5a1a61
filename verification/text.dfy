/**
 The two string primitives the row filter is built from, with the semantics of
 JavaScript's `String.prototype.split` (called with a one-character separator)
 and `String.prototype.trim`.
 */
module Text {

  /** JavaScript's WhiteSpace and LineTerminator code points, which `trim`
      strips: TAB, VT, FF, SP, NBSP, ZWNBSP, the Unicode "Zs" space
      separators, LF, CR, LS and PS. */
  predicate IsWhitespace(c: char) {
    || c == '\t' || c == '\U{000B}' || c == '\U{000C}' || c == ' '
    || c == '\U{00A0}' || c == '\U{FEFF}' || c == '\U{1680}'
    || ('\U{2000}' <= c <= '\U{200A}')
    || c == '\U{202F}' || c == '\U{205F}' || c == '\U{3000}'
    || c == '\n' || c == '\r' || c == '\U{2028}' || c == '\U{2029}'
  }

  predicate AllWhitespace(s: string) {
    forall i :: 0 <= i < |s| ==> IsWhitespace(s[i])
  }

  /** `w` neither starts nor ends with whitespace. */
  predicate Trimmed(w: string) {
    w == [] || (!IsWhitespace(w[0]) && !IsWhitespace(w[|w| - 1]))
  }

  /** `s` is `w` with whitespace, and nothing else, on either side. */
  predicate PaddedBy(s: string, w: string) {
    exists i :: && 0 <= i && i + |w| <= |s| && s[i..i + |w|] == w
                && AllWhitespace(s[..i]) && AllWhitespace(s[i + |w|..])
  }

  /** Number of occurrences of `c` in `s`. */
  function Count(s: string, c: char): nat {
    if |s| == 0 then 0 else (if s[0] == c then 1 else 0) + Count(s[1..], c)
  }

  /** Concatenates `parts`, putting `sep` between neighbours (JavaScript's
      `Array.prototype.join`). */
  function Join(parts: seq<string>, sep: char): string {
    if |parts| == 0 then ""
    else if |parts| == 1 then parts[0]
    else parts[0] + [sep] + Join(parts[1..], sep)
  }

  /** `s.split(sep)`: the pieces of `s` between occurrences of `sep`. There is
      always at least one piece, an empty string yields `[""]`, and `k`
      separators give `k + 1` pieces, some of which may be empty. */
  function Split(s: string, sep: char): (parts: seq<string>)
    ensures |parts| == Count(s, sep) + 1
    decreases |s|
  {
    if |s| == 0 then [""]
    else
      var rest := Split(s[1..], sep);
      if s[0] == sep then [""] + rest
      else [[s[0]] + rest[0]] + rest[1..]
  }

  /** The pieces of `s.split(sep)` contain no `sep` and join back to `s`;
      with SplitJoin below this makes Split the inverse of Join. */
  lemma {:induction false} SplitSpec(s: string, sep: char)
    ensures var parts := Split(s, sep);
            && (forall i :: 0 <= i < |parts| ==> sep !in parts[i])
            && Join(parts, sep) == s
    decreases |s|
  {
    if |s| > 0 {
      var rest := Split(s[1..], sep);
      SplitSpec(s[1..], sep);
      if s[0] == sep {
        assert s == [sep] + s[1..];
      } else {
        var parts := [[s[0]] + rest[0]] + rest[1..];
        assert parts[1..] == rest[1..];
        assert s == [s[0]] + s[1..];
      }
    }
  }

  /** Removes leading whitespace. */
  function TrimStart(s: string): string
    decreases |s|
  {
    if |s| > 0 && IsWhitespace(s[0]) then TrimStart(s[1..]) else s
  }

  /** Removes trailing whitespace. */
  function TrimEnd(s: string): string
    decreases |s|
  {
    if |s| > 0 && IsWhitespace(s[|s| - 1]) then TrimEnd(s[..|s| - 1]) else s
  }

  /** `s.trim()`: never longer than `s`, and without whitespace at either
      end. TrimSpec and TrimIsPadded below pin it down completely. */
  function Trim(s: string): (r: string)
    ensures |r| <= |s|
    ensures Trimmed(r)
  {
    TrimStartSpec(s);
    TrimEndSpec(TrimStart(s));
    TrimEnd(TrimStart(s))
  }

  /** TrimStart cuts a whitespace prefix and stops at the first character
      that is not whitespace. */
  lemma {:induction false} TrimStartSpec(s: string)
    ensures var r := TrimStart(s);
            && |r| <= |s| && r == s[|s| - |r|..]
            && AllWhitespace(s[..|s| - |r|])
            && (r == [] || !IsWhitespace(r[0]))
    decreases |s|
  {
    if |s| > 0 && IsWhitespace(s[0]) {
      TrimStartSpec(s[1..]);
      var r := TrimStart(s);
      assert s[..|s| - |r|] == [s[0]] + s[1..][..|s| - 1 - |r|];
    }
  }

  /** TrimEnd cuts a whitespace suffix and stops at the last character that
      is not whitespace. */
  lemma {:induction false} TrimEndSpec(s: string)
    ensures var r := TrimEnd(s);
            && |r| <= |s| && r == s[..|r|]
            && AllWhitespace(s[|r|..])
            && (r == [] || !IsWhitespace(r[|r| - 1]))
    decreases |s|
  {
    if |s| > 0 && IsWhitespace(s[|s| - 1]) {
      var t := s[..|s| - 1];
      TrimEndSpec(t);
      var r := TrimEnd(s);
      assert s[|r|..] == t[|r|..] + [s[|s| - 1]];
    }
  }

  /** `s.trim()` is the infix of `s` left after cutting whitespace from both
      ends: it is empty exactly when `s` is all whitespace, and otherwise
      neither starts nor ends with whitespace. */
  lemma TrimSpec(s: string)
    ensures Trim(s) == [] <==> AllWhitespace(s)
    ensures Trimmed(Trim(s))
    ensures PaddedBy(s, Trim(s))
  {
    var t := TrimStart(s);
    TrimStartSpec(s);
    TrimEndSpec(t);
    var i := |s| - |t|;
    var r := TrimEnd(t);
    assert r == s[i..i + |r|];
    assert s[i + |r|..] == t[|r|..];
    assert r == [] ==> s == s[..i] + t[|r|..];
    if r != [] {
      assert r[0] == t[0];
    }
  }

  /** Splitting a piece free of `sep` that is followed by `sep` peels that
      piece off the front. */
  lemma {:induction false} SplitAfterPiece(a: string, sep: char, t: string)
    requires sep !in a
    ensures Split(a + [sep] + t, sep) == [a] + Split(t, sep)
    decreases |a|
  {
    var s := a + [sep] + t;
    if |a| == 0 {
      assert s[1..] == t;
    } else {
      assert s[1..] == a[1..] + [sep] + t;
      SplitAfterPiece(a[1..], sep, t);
      assert [s[0]] + a[1..] == a;
    }
  }

  /** A string without `sep` splits into itself. */
  lemma {:induction false} SplitWithoutSeparator(a: string, sep: char)
    requires sep !in a
    ensures Split(a, sep) == [a]
    decreases |a|
  {
    if |a| > 0 {
      SplitWithoutSeparator(a[1..], sep);
      assert [a[0]] + a[1..] == a;
    }
  }

  /** Split is the inverse of Join on any non-empty sequence of pieces
      that do not contain the separator. */
  lemma {:induction false} SplitJoin(parts: seq<string>, sep: char)
    requires |parts| >= 1
    requires forall i :: 0 <= i < |parts| ==> sep !in parts[i]
    ensures Split(Join(parts, sep), sep) == parts
    decreases |parts|
  {
    if |parts| == 1 {
      SplitWithoutSeparator(parts[0], sep);
    } else {
      SplitJoin(parts[1..], sep);
      SplitAfterPiece(parts[0], sep, Join(parts[1..], sep));
      assert parts == [parts[0]] + parts[1..];
    }
  }

  /** Leading whitespace before a string that does not start with
      whitespace is exactly what TrimStart removes. */
  lemma {:induction false} TrimStartPadded(pre: string, t: string)
    requires AllWhitespace(pre)
    requires t == [] || !IsWhitespace(t[0])
    ensures TrimStart(pre + t) == t
    decreases |pre|
  {
    if |pre| > 0 {
      assert (pre + t)[1..] == pre[1..] + t;
      TrimStartPadded(pre[1..], t);
    }
  }

  /** Trailing whitespace after a string that does not end with whitespace
      is exactly what TrimEnd removes. */
  lemma {:induction false} TrimEndPadded(t: string, post: string)
    requires AllWhitespace(post)
    requires t == [] || !IsWhitespace(t[|t| - 1])
    ensures TrimEnd(t + post) == t
    decreases |post|
  {
    if |post| > 0 {
      var s := t + post;
      assert s[..|s| - 1] == t + post[..|post| - 1];
      TrimEndPadded(t, post[..|post| - 1]);
    }
  }

  /** Trim is determined by its defining property: whitespace padding around
      a core that neither starts nor ends with whitespace is cut back to that
      core. */
  lemma TrimPadded(pre: string, core: string, post: string)
    requires AllWhitespace(pre) && AllWhitespace(post)
    requires Trimmed(core)
    ensures Trim(pre + core + post) == core
  {
    var s := pre + core + post;
    if core == [] {
      assert AllWhitespace(s);
      TrimSpec(s);
    } else {
      assert s == pre + (core + post);
      TrimStartPadded(pre, core + post);
      TrimEndPadded(core, post);
    }
  }

  /** `s.trim() === w`, for a `w` without whitespace at its ends, holds
      exactly when `s` is `w` padded with whitespace: the exact,
      case-sensitive comparison the row filter makes. */
  lemma TrimIsPadded(s: string, w: string)
    requires Trimmed(w)
    ensures Trim(s) == w <==> PaddedBy(s, w)
  {
    TrimSpec(s);
    if PaddedBy(s, w) {
      var i :| && 0 <= i && i + |w| <= |s| && s[i..i + |w|] == w
               && AllWhitespace(s[..i]) && AllWhitespace(s[i + |w|..]);
      TrimAround(s, w, i);
    }
  }

  /** The witness half of TrimIsPadded: cutting whitespace from around the
      occurrence of `w` at `i` leaves `w`. */
  lemma TrimAround(s: string, w: string, i: nat)
    requires Trimmed(w)
    requires i + |w| <= |s| && s[i..i + |w|] == w
    requires AllWhitespace(s[..i]) && AllWhitespace(s[i + |w|..])
    ensures Trim(s) == w
  {
    var pre, post := s[..i], s[i + |w|..];
    assert s == pre + w + post;
    TrimPadded(pre, w, post);
  }

  /** Trimming twice is trimming once. */
  lemma TrimIdempotent(s: string)
    ensures Trim(Trim(s)) == Trim(s)
  {
    TrimSpec(s);
    TrimPadded("", Trim(s), "");
    assert "" + Trim(s) + "" == Trim(s);
  }
}
