/** String operations the table formatter borrows from JavaScript:
    `trim`, `padEnd` with a one-character fill, `join` and `split` on a
    one-character separator (optionally honouring backslash escapes, as the
    look-behind pattern of the cell splitter does). */
module Text {

  function Max(a: int, b: int): int {
    if a < b then b else a
  }

  /** The characters `String.prototype.trim` removes: the ECMAScript
      WhiteSpace set (tab, vertical tab, form feed, space, no-break space,
      byte order mark and the Unicode space separators) and the
      LineTerminator set (line feed, carriage return, line and paragraph
      separators). */
  predicate IsWhitespace(c: char) {
    || c == '\t' || c == '\n' || c == '\U{000B}' || c == '\U{000C}' || c == '\r'
    || c == ' ' || c == '\U{00A0}' || c == '\U{1680}'
    || ('\U{2000}' <= c <= '\U{200A}')
    || c == '\U{2028}' || c == '\U{2029}' || c == '\U{202F}' || c == '\U{205F}'
    || c == '\U{3000}' || c == '\U{FEFF}'
  }

  predicate AllWhitespace(s: string) {
    forall k :: 0 <= k < |s| ==> IsWhitespace(s[k])
  }

  /** Neither end of `s` is whitespace. */
  predicate IsTrimmed(s: string) {
    s == [] || (!IsWhitespace(s[0]) && !IsWhitespace(s[|s| - 1]))
  }

  /** Length of the longest whitespace prefix of `s`. */
  function LeadingWhitespace(s: string): (n: nat)
    ensures n <= |s|
    ensures AllWhitespace(s[..n])
    ensures n < |s| ==> !IsWhitespace(s[n])
  {
    if |s| > 0 && IsWhitespace(s[0]) then
      var n := 1 + LeadingWhitespace(s[1..]);
      assert s[..n] == [s[0]] + s[1..][..n - 1];
      n
    else
      0
  }

  /** Length of the longest whitespace suffix of `s`. */
  function TrailingWhitespace(s: string): (n: nat)
    ensures n <= |s|
    ensures forall k :: |s| - n <= k < |s| ==> IsWhitespace(s[k])
    ensures n < |s| ==> !IsWhitespace(s[|s| - n - 1])
  {
    if |s| > 0 && IsWhitespace(s[|s| - 1]) then
      var init := s[..|s| - 1];
      1 + TrailingWhitespace(init)
    else
      0
  }

  /** `String.prototype.trim`: the string without its whitespace prefix and
      suffix. */
  function Trim(s: string): (r: string)
    ensures |r| <= |s|
    ensures IsTrimmed(r)
  {
    var i := LeadingWhitespace(s);
    var rest := s[i..];
    rest[..|rest| - TrailingWhitespace(rest)]
  }

  /** What trimming removes is whitespace at either end: the result sits in
      `s` between a whitespace prefix and a whitespace suffix. */
  lemma TrimRemovesWhitespace(s: string)
    ensures var r := Trim(s);
            exists i :: 0 <= i <= |s| - |r| && s[i..i + |r|] == r
                        && AllWhitespace(s[..i]) && AllWhitespace(s[i + |r|..])
  {
    var i := LeadingWhitespace(s);
    TrimSitsAfterLeadingWhitespace(s);
    assert AllWhitespace(s[..i]);
  }

  /** The trimmed string starts where the whitespace prefix ends and is
      followed only by whitespace. */
  lemma TrimSitsAfterLeadingWhitespace(s: string)
    ensures var i := LeadingWhitespace(s);
            var r := Trim(s);
            && i + |r| <= |s| && s[i..i + |r|] == r && AllWhitespace(s[i + |r|..])
  {
    var i := LeadingWhitespace(s);
    var rest := s[i..];
    var j := TrailingWhitespace(rest);
    var r := Trim(s);
    assert r == rest[..|rest| - j];
    assert s[i..i + |r|] == r;
    assert AllWhitespace(s[i + |r|..]) by {
      TrailingWhitespaceSuffix(rest);
      assert s[i + |r|..] == rest[|rest| - j..];
    }
  }

  /** The suffix `TrailingWhitespace` measures is all whitespace. */
  lemma TrailingWhitespaceSuffix(s: string)
    ensures AllWhitespace(s[|s| - TrailingWhitespace(s)..])
  {
    var n := TrailingWhitespace(s);
    var suffix := s[|s| - n..];
    forall k | 0 <= k < |suffix|
      ensures IsWhitespace(suffix[k])
    {
      assert suffix[k] == s[|s| - n + k];
    }
  }

  /** Trimming leaves a string alone exactly when neither end is whitespace;
      in particular trimming twice is trimming once. */
  lemma TrimFixedPoint(s: string)
    ensures Trim(s) == s <==> IsTrimmed(s)
    ensures Trim(Trim(s)) == Trim(s)
  {
    if IsTrimmed(s) {
      assert LeadingWhitespace(s) == 0;
      assert TrailingWhitespace(s) == 0;
      assert s[0..][..|s| - 0] == s;
    }
    var r := Trim(s);
    assert LeadingWhitespace(r) == 0;
    assert TrailingWhitespace(r) == 0;
    assert r[0..][..|r| - 0] == r;
  }

  /** `n` copies of `c`. */
  function Repeat(c: char, n: nat): (r: string)
    ensures |r| == n
    ensures forall k :: 0 <= k < n ==> r[k] == c
  {
    seq(n, _ => c)
  }

  /** `s.padEnd(target, fill)` for a one-character `fill`: appends `fill`
      until the length reaches `target`, and never truncates. */
  function PadEnd(s: string, target: nat, fill: char): (r: string)
    ensures |r| == Max(|s|, target)
    ensures r[..|s|] == s
    ensures forall k :: |s| <= k < |r| ==> r[k] == fill
  {
    if target <= |s| then s else s + Repeat(fill, target - |s|)
  }

  /** `parts.join(sep)` for a one-character separator (the empty list joins
      to the empty string). */
  function Join(parts: seq<string>, sep: char): string {
    if |parts| == 0 then ""
    else if |parts| == 1 then parts[0]
    else Join(parts[..|parts| - 1], sep) + [sep] + parts[|parts| - 1]
  }

  /** Whether `s[i]` is a split point when splitting on `sep`: it is `sep`
      and, when escapes are honoured, it does not follow a backslash. The
      look-behind only sees the character of `s` just before `i`. */
  predicate IsDelimiter(s: string, i: nat, sep: char, escapable: bool)
    requires i < |s|
  {
    s[i] == sep && !(escapable && i > 0 && s[i - 1] == '\\')
  }

  predicate NoDelimiter(part: string, sep: char, escapable: bool) {
    forall k :: 0 <= k < |part| ==> !IsDelimiter(part, k, sep, escapable)
  }

  predicate EndsWithBackslash(s: string) {
    |s| > 0 && s[|s| - 1] == '\\'
  }

  /** `parts` cuts `s` at exactly its delimiters: joining them with `sep`
      gives `s` back, no part holds a delimiter, and (with escapes) no
      joining `sep` follows a backslash, so each joint is itself a
      delimiter of `s`. */
  predicate IsSplitting(parts: seq<string>, s: string, sep: char, escapable: bool) {
    && |parts| >= 1
    && Join(parts, sep) == s
    && (forall k :: 0 <= k < |parts| ==> NoDelimiter(parts[k], sep, escapable))
    && (escapable ==> forall k :: 0 <= k < |parts| - 1 ==> !EndsWithBackslash(parts[k]))
  }

  /** `s.split(sep)` (escapable = false) or `s.split(/(?<!\\)sep/)`
      (escapable = true): the pieces between consecutive delimiters. The
      empty string splits into one empty piece. */
  function SplitOn(s: string, sep: char, escapable: bool): (parts: seq<string>)
    ensures |parts| >= 1
    decreases |s|
  {
    if |s| == 0 then [""]
    else
      var init := SplitOn(s[..|s| - 1], sep, escapable);
      if IsDelimiter(s, |s| - 1, sep, escapable) then init + [""]
      else init[..|init| - 1] + [init[|init| - 1] + [s[|s| - 1]]]
  }

  lemma JoinSnoc(parts: seq<string>, x: string, sep: char)
    requires |parts| >= 1
    ensures Join(parts + [x], sep) == Join(parts, sep) + [sep] + x
  {
    assert (parts + [x])[..|parts|] == parts;
  }

  /** The joined string ends like its last part, or with the separator when
      that part is empty. */
  lemma JoinEnd(parts: seq<string>, sep: char)
    requires |parts| >= 1
    ensures var s := Join(parts, sep); var last := parts[|parts| - 1];
            |last| <= |s| && s[|s| - |last|..] == last
            && (|parts| >= 2 ==> |s| > |last| && s[|s| - |last| - 1] == sep)
  {
  }

  lemma JoinNotEndingInBackslash(parts: seq<string>, sep: char)
    requires |parts| >= 1 && sep != '\\'
    requires !EndsWithBackslash(parts[|parts| - 1])
    ensures !EndsWithBackslash(Join(parts, sep))
  {
    JoinEnd(parts, sep);
    var s := Join(parts, sep);
    var last := parts[|parts| - 1];
    if |last| > 0 {
      assert s[|s| - 1] == last[|last| - 1];
    }
  }

  /** Appending a delimiter to a split string opens a new, empty piece. */
  lemma SplittingAddDelimiter(init: seq<string>, p: string, c: char, sep: char, escapable: bool)
    requires sep != '\\'
    requires IsSplitting(init, p, sep, escapable)
    requires IsDelimiter(p + [c], |p|, sep, escapable)
    ensures IsSplitting(init + [""], p + [c], sep, escapable)
  {
    var last := init[|init| - 1];
    JoinEnd(init, sep);
    JoinSnoc(init, "", sep);
    if escapable && |last| > 0 {
      assert last[|last| - 1] == p[|p| - 1];
    }
  }

  /** Extending the last piece by a character that is not a delimiter of
      the whole string keeps that piece free of delimiters. */
  lemma ExtendedPieceNoDelimiter(init: seq<string>, p: string, c: char, sep: char, escapable: bool)
    requires sep != '\\'
    requires IsSplitting(init, p, sep, escapable)
    requires !IsDelimiter(p + [c], |p|, sep, escapable)
    ensures NoDelimiter(init[|init| - 1] + [c], sep, escapable)
  {
    var m := |init|;
    var last := init[m - 1];
    var cell := last + [c];
    JoinEnd(init, sep);
    forall k | 0 <= k < |cell|
      ensures !IsDelimiter(cell, k, sep, escapable)
    {
      if k < |last| {
        assert !IsDelimiter(last, k, sep, escapable);
      } else if c == sep {
        assert escapable && |p| >= 1 && p[|p| - 1] == '\\';
        assert |last| > 0;
        assert last[|last| - 1] == p[|p| - 1];
      }
    }
  }

  /** Appending a non-delimiter to a split string extends its last piece. */
  lemma SplittingAddChar(init: seq<string>, p: string, c: char, sep: char, escapable: bool)
    requires sep != '\\'
    requires IsSplitting(init, p, sep, escapable)
    requires !IsDelimiter(p + [c], |p|, sep, escapable)
    ensures var m := |init|;
            IsSplitting(init[..m - 1] + [init[m - 1] + [c]], p + [c], sep, escapable)
  {
    var m := |init|;
    var last := init[m - 1];
    var cell := last + [c];
    var parts := init[..m - 1] + [cell];
    if m == 1 {
      assert Join(parts, sep) == p + [c];
    } else {
      assert init == init[..m - 1] + [last];
      JoinSnoc(init[..m - 1], last, sep);
      JoinSnoc(init[..m - 1], cell, sep);
    }
    ExtendedPieceNoDelimiter(init, p, c, sep, escapable);
    assert forall k :: 0 <= k < m - 1 ==> parts[k] == init[k];
  }

  /** What `SplitOn` returns is a splitting of its input. */
  lemma {:induction false} SplitOnIsSplitting(s: string, sep: char, escapable: bool)
    requires sep != '\\'
    ensures IsSplitting(SplitOn(s, sep, escapable), s, sep, escapable)
    decreases |s|
  {
    if |s| == 0 {
      return;
    }
    var p := s[..|s| - 1];
    var c := s[|s| - 1];
    assert s == p + [c];
    var init := SplitOn(p, sep, escapable);
    assert IsSplitting(init, p, sep, escapable) by {
      SplitOnIsSplitting(p, sep, escapable);
    }
    if IsDelimiter(s, |s| - 1, sep, escapable) {
      assert SplitOn(s, sep, escapable) == init + [""];
      SplittingAddDelimiter(init, p, c, sep, escapable);
    } else {
      assert SplitOn(s, sep, escapable) == init[..|init| - 1] + [init[|init| - 1] + [c]];
      SplittingAddChar(init, p, c, sep, escapable);
    }
  }

  /** A piece without delimiters is not cut at all. */
  lemma {:induction false} SplitOnNoDelimiter(s: string, sep: char, escapable: bool)
    requires NoDelimiter(s, sep, escapable)
    ensures SplitOn(s, sep, escapable) == [s]
    decreases |s|
  {
    if |s| > 0 {
      var p := s[..|s| - 1];
      forall k | 0 <= k < |p|
        ensures !IsDelimiter(p, k, sep, escapable)
      {
        assert !IsDelimiter(s, k, sep, escapable);
      }
      SplitOnNoDelimiter(p, sep, escapable);
      assert !IsDelimiter(s, |s| - 1, sep, escapable);
      assert p + [s[|s| - 1]] == s;
    }
  }

  /** Splitting `a + sep + b`, where the joint is a delimiter and `b` has
      none, splits `a` and then adds `b` as the last piece. */
  lemma {:induction false} SplitOnAfterDelimiter(a: string, b: string, sep: char, escapable: bool)
    requires sep != '\\'
    requires escapable ==> !EndsWithBackslash(a)
    requires NoDelimiter(b, sep, escapable)
    ensures SplitOn(a + [sep] + b, sep, escapable) == SplitOn(a, sep, escapable) + [b]
    decreases |b|
  {
    var s := a + [sep] + b;
    if |b| == 0 {
      assert s[..|s| - 1] == a;
      assert IsDelimiter(s, |s| - 1, sep, escapable);
    } else {
      var b' := b[..|b| - 1];
      var c := b[|b| - 1];
      forall k | 0 <= k < |b'|
        ensures !IsDelimiter(b', k, sep, escapable)
      {
        assert !IsDelimiter(b, k, sep, escapable);
      }
      SplitOnAfterDelimiter(a, b', sep, escapable);
      assert s[..|s| - 1] == a + [sep] + b';
      assert !IsDelimiter(b, |b| - 1, sep, escapable);
      assert !IsDelimiter(s, |s| - 1, sep, escapable);
      assert b' + [c] == b;
    }
  }

  /** A splitting of `s` is unique: it is the one `SplitOn` computes. */
  lemma {:induction false} SplittingIsUnique(parts: seq<string>, s: string, sep: char, escapable: bool)
    requires sep != '\\'
    requires IsSplitting(parts, s, sep, escapable)
    ensures parts == SplitOn(s, sep, escapable)
    decreases |parts|
  {
    if |parts| == 1 {
      SplitOnNoDelimiter(s, sep, escapable);
    } else {
      var init := parts[..|parts| - 1];
      var b := parts[|parts| - 1];
      var a := Join(init, sep);
      assert parts == init + [b];
      assert IsSplitting(init, a, sep, escapable);
      SplittingIsUnique(init, a, sep, escapable);
      if escapable {
        JoinNotEndingInBackslash(init, sep);
      }
      SplitOnAfterDelimiter(a, b, sep, escapable);
    }
  }

  /** Splitting and joining are inverse: `SplitOn(s)` joins back to `s`, and
      splitting the join of a list of pieces gives that list back exactly
      when the list is a splitting. */
  lemma SplitJoinRoundTrip(s: string, parts: seq<string>, sep: char, escapable: bool)
    requires sep != '\\'
    ensures Join(SplitOn(s, sep, escapable), sep) == s
    ensures SplitOn(Join(parts, sep), sep, escapable) == parts <==> IsSplitting(parts, Join(parts, sep), sep, escapable)
  {
    SplitOnIsSplitting(s, sep, escapable);
    SplitOnIsSplitting(Join(parts, sep), sep, escapable);
    if IsSplitting(parts, Join(parts, sep), sep, escapable) {
      SplittingIsUnique(parts, Join(parts, sep), sep, escapable);
    }
  }

  /** `c` does not occur in `s`. */
  predicate FreeOf(s: string, c: char) {
    forall k :: 0 <= k < |s| ==> s[k] != c
  }

  /** Without escapes, the delimiters of `s` are its occurrences of `sep`. */
  lemma NoDelimiterIsFreeOf(s: string, sep: char)
    ensures NoDelimiter(s, sep, false) <==> FreeOf(s, sep)
  {
    assert forall k :: 0 <= k < |s| ==> (IsDelimiter(s, k, sep, false) <==> s[k] == sep);
  }

  /** A joined string is free of a character other than the separator
      exactly when every part is. */
  lemma {:induction false} JoinFreeOf(parts: seq<string>, sep: char, c: char)
    requires sep != c
    ensures FreeOf(Join(parts, sep), c) <==> forall k :: 0 <= k < |parts| ==> FreeOf(parts[k], c)
    decreases |parts|
  {
    if |parts| >= 2 {
      var init := parts[..|parts| - 1];
      var last := parts[|parts| - 1];
      var a := Join(init, sep);
      var s := a + [sep] + last;
      JoinFreeOf(init, sep, c);
      assert forall k :: 0 <= k < |init| ==> init[k] == parts[k];
      assert FreeOf(s, c) <==> FreeOf(a, c) && FreeOf(last, c) by {
        assert forall k :: 0 <= k < |a| ==> s[k] == a[k];
        assert forall k :: 0 <= k < |last| ==> s[|a| + 1 + k] == last[k];
      }
    }
  }

  /** Number of occurrences of `c` in `s`. */
  function Count(s: string, c: char): nat {
    if |s| == 0 then 0 else Count(s[..|s| - 1], c) + (if s[|s| - 1] == c then 1 else 0)
  }

  /** Without escapes, `s.split(sep)` has one more piece than `s` has
      occurrences of `sep`. */
  lemma {:induction false} SplitOnCount(s: string, sep: char)
    ensures |SplitOn(s, sep, false)| == Count(s, sep) + 1
    decreases |s|
  {
    if |s| > 0 {
      SplitOnCount(s[..|s| - 1], sep);
    }
  }
}
