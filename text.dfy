/**
 * The JavaScript string operations the user form relies on: `trim`,
 * `split` on a one-character separator, `join`, ASCII case mapping and
 * `endsWith`. Strings are sequences of characters.
 */
module Text {

  /** ECMAScript WhiteSpace or LineTerminator: the characters `trim` removes. */
  predicate IsWhitespace(c: char) {
    c == '\t' || c == '\n' || c == '\U{B}' || c == '\U{C}' || c == '\r' ||
    c == ' ' || c == '\U{A0}' || c == '\U{1680}' ||
    ('\U{2000}' <= c <= '\U{200A}') ||
    c == '\U{2028}' || c == '\U{2029}' || c == '\U{202F}' || c == '\U{205F}' ||
    c == '\U{3000}' || c == '\U{FEFF}'
  }

  predicate IsAsciiLower(c: char) { 'a' <= c <= 'z' }
  predicate IsAsciiUpper(c: char) { 'A' <= c <= 'Z' }
  predicate IsAsciiDigit(c: char) { '0' <= c <= '9' }

  /** Upper-casing of one character, restricted to ASCII letters. */
  function UpperChar(c: char): (u: char)
    ensures IsWhitespace(u) <==> IsWhitespace(c)
    ensures u == ' ' <==> c == ' '
    ensures IsAsciiLower(c) ==> IsAsciiUpper(u)
    ensures !IsAsciiLower(c) ==> u == c
  {
    if IsAsciiLower(c) then (c as int - 32) as char else c
  }

  /** Lower-casing of one character, restricted to ASCII letters. */
  function LowerChar(c: char): (l: char)
    ensures !IsAsciiUpper(l)
    ensures IsAsciiUpper(c) ==> l != c
    ensures !IsAsciiUpper(c) ==> l == c
  {
    if IsAsciiUpper(c) then (c as int + 32) as char else c
  }

  /** `s.toLowerCase()` over ASCII. */
  function ToLower(s: string): (r: string)
    ensures |r| == |s|
    ensures forall i :: 0 <= i < |r| ==> r[i] == LowerChar(s[i])
  {
    seq(|s|, i requires 0 <= i < |s| => LowerChar(s[i]))
  }

  predicate NoAsciiUpper(s: string) {
    forall i :: 0 <= i < |s| ==> !IsAsciiUpper(s[i])
  }

  /** Lower-casing leaves no upper-case letter and is idempotent. */
  lemma ToLowerIsLower(s: string)
    ensures NoAsciiUpper(ToLower(s))
    ensures ToLower(ToLower(s)) == ToLower(s)
  {
  }

  /** `s.endsWith(suffix)`. */
  predicate EndsWith(s: string, suffix: string) {
    |suffix| <= |s| && s[|s| - |suffix|..] == suffix
  }

  /** A string ends with `suffix` exactly when it is some string followed by `suffix`. */
  lemma EndsWithConcat(s: string, suffix: string)
    ensures EndsWith(s, suffix) <==> exists p :: p + suffix == s
  {
    if EndsWith(s, suffix) {
      assert s[..|s| - |suffix|] + suffix == s;
    }
    if exists p :: p + suffix == s {
      var p :| p + suffix == s;
      assert s[|p|..] == suffix;
    }
  }

  /**
   * `a` is `b` with some of its characters upper-cased: the same length, and
   * each character either kept or replaced by its upper-case form.
   */
  predicate UpcasedFrom(a: string, b: string) {
    |a| == |b| && forall i :: 0 <= i < |a| ==> a[i] == b[i] || a[i] == UpperChar(b[i])
  }

  lemma UpcasedConcat(a1: string, b1: string, a2: string, b2: string)
    requires UpcasedFrom(a1, b1) && UpcasedFrom(a2, b2)
    ensures UpcasedFrom(a1 + a2, b1 + b2)
  {
    forall i | |a1| <= i < |a1| + |a2|
      ensures (a1 + a2)[i] == (b1 + b2)[i] || (a1 + a2)[i] == UpperChar((b1 + b2)[i])
    {
      assert (a1 + a2)[i] == a2[i - |a1|] && (b1 + b2)[i] == b2[i - |a1|];
    }
  }

  // ---------------------------------------------------------------- trim

  /** The number of whitespace characters at the front of `s`. */
  function LeadingSpace(s: string): (n: nat)
    ensures n <= |s|
    ensures forall k :: 0 <= k < n ==> IsWhitespace(s[k])
    ensures n == |s| || !IsWhitespace(s[n])
    decreases |s|
  {
    if |s| > 0 && IsWhitespace(s[0]) then 1 + LeadingSpace(s[1..]) else 0
  }

  /** The number of whitespace characters at the back of `s`. */
  function TrailingSpace(s: string): (n: nat)
    ensures n <= |s|
    ensures forall k :: |s| - n <= k < |s| ==> IsWhitespace(s[k])
    ensures n == |s| || !IsWhitespace(s[|s| - 1 - n])
    decreases |s|
  {
    if |s| > 0 && IsWhitespace(s[|s| - 1]) then 1 + TrailingSpace(s[..|s| - 1]) else 0
  }

  /**
   * `s.trim()`: `s` without its leading and trailing whitespace. When `s` is
   * all whitespace both counts cover all of it, and the result is empty.
   */
  function Trim(s: string): (r: string)
    ensures |r| == 0 || (!IsWhitespace(r[0]) && !IsWhitespace(r[|r| - 1]))
    ensures |r| == 0 <==> forall k :: 0 <= k < |s| ==> IsWhitespace(s[k])
    ensures var lo := LeadingSpace(s);
      lo + |r| <= |s| && s[lo..lo + |r|] == r &&
      forall k :: lo + |r| <= k < |s| ==> IsWhitespace(s[k])
  {
    var lo := LeadingSpace(s);
    var hi := if lo == |s| then lo else |s| - TrailingSpace(s);
    TrimBounds(s, lo, hi);
    s[lo..hi]
  }

  /**
   * `s[lo..hi]` has `Trim`'s properties when the characters before `lo` and
   * from `hi` on are whitespace and the ones at `lo` and `hi - 1` are not.
   */
  lemma TrimBounds(s: string, lo: nat, hi: nat)
    requires lo <= hi <= |s| && (lo < |s| ==> lo < hi)
    requires forall k :: 0 <= k < lo ==> IsWhitespace(s[k])
    requires lo == |s| || !IsWhitespace(s[lo])
    requires forall k :: hi <= k < |s| ==> IsWhitespace(s[k])
    requires hi == lo || !IsWhitespace(s[hi - 1])
    ensures var r := s[lo..hi]; |r| == 0 || (!IsWhitespace(r[0]) && !IsWhitespace(r[|r| - 1]))
    ensures |s[lo..hi]| == 0 <==> forall k :: 0 <= k < |s| ==> IsWhitespace(s[k])
    ensures forall k :: lo + |s[lo..hi]| <= k < |s| ==> IsWhitespace(s[k])
  {
    if lo < hi {
      assert s[lo..hi][0] == s[lo] && s[lo..hi][hi - lo - 1] == s[hi - 1];
    }
  }

  /** A string that already starts and ends with non-whitespace is its own trim. */
  lemma TrimOfTrimmed(s: string)
    requires |s| == 0 || (!IsWhitespace(s[0]) && !IsWhitespace(s[|s| - 1]))
    ensures Trim(s) == s
  {
    if |s| > 0 {
      assert LeadingSpace(s) == 0;
      assert TrailingSpace(s) == 0;
    }
  }

  // ------------------------------------------------------- split and join

  /**
   * `s.split(sep)` for a one-character separator: the pieces between
   * separators, including empty pieces next to a separator at either end
   * or between two adjacent separators. The empty string gives `[""]`.
   */
  function Split(s: string, sep: char): (ws: seq<string>)
    ensures |ws| > 0
    ensures forall i :: 0 <= i < |ws| ==> sep !in ws[i]
    decreases |s|
  {
    if |s| == 0 then [[]]
    else
      var rest := Split(s[1..], sep);
      if s[0] == sep then [[]] + rest
      else [[s[0]] + rest[0]] + rest[1..]
  }

  /** The empty string splits into one empty piece. */
  lemma SplitEmpty(sep: char)
    ensures Split([], sep) == [[]]
  {
  }

  /** `ws.join(sep)`: it starts with the first piece. */
  function Join(ws: seq<string>, sep: char): (r: string)
    ensures |ws| > 0 ==> ws[0] <= r
    decreases |ws|
  {
    if |ws| == 0 then []
    else if |ws| == 1 then ws[0]
    else ws[0] + [sep] + Join(ws[1..], sep)
  }

  /** Joining the pieces of a split gives back the original string. */
  lemma {:induction false} JoinSplit(s: string, sep: char)
    ensures Join(Split(s, sep), sep) == s
    decreases |s|
  {
    if |s| > 0 {
      var rest := Split(s[1..], sep);
      JoinSplit(s[1..], sep);
      if s[0] == sep {
        assert Split(s, sep) == [[]] + rest;
        assert ([[]] + rest)[1..] == rest;
      } else {
        var ws := Split(s, sep);
        assert ws == [[s[0]] + rest[0]] + rest[1..];
        if |rest| > 1 {
          assert ws[1..] == rest[1..];
          assert Join(rest, sep) == rest[0] + [sep] + Join(rest[1..], sep);
        }
      }
    }
  }

  /** Splitting a piece without separators, followed by a separator, peels that piece off. */
  lemma {:induction false} SplitPeel(w: string, sep: char, tail: string)
    requires sep !in w
    ensures Split(w + [sep] + tail, sep) == [w] + Split(tail, sep)
    decreases |w|
  {
    if |w| == 0 {
      assert w + [sep] + tail == [sep] + tail;
      assert ([sep] + tail)[1..] == tail;
    } else {
      var s := w + [sep] + tail;
      assert s[1..] == w[1..] + [sep] + tail;
      SplitPeel(w[1..], sep, tail);
      assert [w[0]] + w[1..] == w;
    }
  }

  /** A string without separators splits into itself alone. */
  lemma {:induction false} SplitWord(w: string, sep: char)
    requires sep !in w
    ensures Split(w, sep) == [w]
    decreases |w|
  {
    if |w| > 0 {
      SplitWord(w[1..], sep);
      assert [w[0]] + w[1..] == w;
    }
  }

  /** Splitting a join of separator-free pieces gives back the pieces. */
  lemma {:induction false} SplitJoin(ws: seq<string>, sep: char)
    requires |ws| > 0
    requires forall i :: 0 <= i < |ws| ==> sep !in ws[i]
    ensures Split(Join(ws, sep), sep) == ws
    decreases |ws|
  {
    if |ws| == 1 {
      SplitWord(ws[0], sep);
    } else {
      SplitJoin(ws[1..], sep);
      SplitPeel(ws[0], sep, Join(ws[1..], sep));
      assert [ws[0]] + ws[1..] == ws;
    }
  }

  /** A joined string starts with the first character of its first piece. */
  lemma JoinFirst(ws: seq<string>, sep: char)
    requires |ws| > 0 && |ws[0]| > 0
    ensures |Join(ws, sep)| > 0 && Join(ws, sep)[0] == ws[0][0]
  {
  }

  /** A joined string ends with the last character of its last piece. */
  lemma {:induction false} JoinLast(ws: seq<string>, sep: char)
    requires |ws| > 0 && |ws[|ws| - 1]| > 0
    ensures var j := Join(ws, sep); |j| > 0 && j[|j| - 1] == ws[|ws| - 1][|ws[|ws| - 1]| - 1]
    decreases |ws|
  {
    if |ws| > 1 {
      JoinLast(ws[1..], sep);
    }
  }

  /** Two adjacent separators produce an empty piece. */
  lemma {:induction false} AdjacentSeparatorsGiveEmptyPiece(s: string, sep: char, k: nat)
    requires k + 1 < |s| && s[k] == sep && s[k + 1] == sep
    ensures exists i :: 1 <= i < |Split(s, sep)| && Split(s, sep)[i] == []
    decreases |s|
  {
    var rest := Split(s[1..], sep);
    if k == 0 {
      assert s[1..][0] == sep && s[1..][1..] == s[2..];
      assert rest == [[]] + Split(s[2..], sep);
      assert Split(s, sep) == [[]] + rest;
      assert Split(s, sep)[1] == [];
    } else {
      AdjacentSeparatorsGiveEmptyPiece(s[1..], sep, k - 1);
      var i :| 1 <= i < |rest| && rest[i] == [];
      if s[0] == sep {
        assert Split(s, sep) == [[]] + rest;
        assert Split(s, sep)[i + 1] == [];
      } else {
        assert Split(s, sep) == [[s[0]] + rest[0]] + rest[1..];
        assert Split(s, sep)[i] == [];
      }
    }
  }
}
