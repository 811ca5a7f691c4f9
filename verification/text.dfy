/** The JavaScript string built-ins the driver relies on, with their
    ECMAScript semantics: `split` with a one-character separator, `join`,
    `trim`, `toLowerCase` (on ASCII letters) and the decimal rendering a
    template literal gives a non-negative integer. */
module Text {

  /** `s.split(sep)`: the empty string gives one empty part, and two
      adjacent separators give an empty part between them. */
  function Split(s: string, sep: char): (parts: seq<string>)
    ensures |parts| >= 1
    decreases |s|
  {
    if |s| == 0 then [""]
    else
      var rest := Split(s[1..], sep);
      if s[0] == sep then [""] + rest else rest[0 := [s[0]] + rest[0]]
  }

  /** A split gives the string itself when it holds no separator, at least
      two parts when it does, and no part holds the separator. */
  lemma {:induction false} SplitParts(s: string, sep: char)
    ensures var parts := Split(s, sep);
      && (sep !in s ==> parts == [s])
      && (sep in s ==> |parts| >= 2)
      && forall k :: 0 <= k < |parts| ==> sep !in parts[k]
    decreases |s|
  {
    if |s| > 0 {
      SplitParts(s[1..], sep);
      assert s == [s[0]] + s[1..];
    }
  }

  /** `parts.join(sep)`. */
  function Join(parts: seq<string>, sep: char): string
  {
    if |parts| == 0 then ""
    else if |parts| == 1 then parts[0]
    else parts[0] + [sep] + Join(parts[1..], sep)
  }

  /** `parts.join('')`: the parts one after the other. */
  function Concat(parts: seq<string>): (s: string)
    ensures parts == [] ==> s == ""
  {
    if parts == [] then "" else parts[0] + Concat(parts[1..])
  }

  /** Joining two runs of parts is joining each and concatenating. */
  lemma {:induction false} ConcatAppend(a: seq<string>, b: seq<string>)
    ensures Concat(a + b) == Concat(a) + Concat(b)
    decreases |a|
  {
    if a == [] {
      assert a + b == b;
    } else {
      assert (a + b)[1..] == a[1..] + b;
      ConcatAppend(a[1..], b);
    }
  }

  /** Replacing one part of a `join('')` replaces its text and nothing
      else: the new part sits between the join of the parts before it and
      the join of the parts after it. */
  lemma ConcatReplace(parts: seq<string>, k: nat, s: string)
    requires k < |parts|
    ensures Concat(parts[k := s]) == Concat(parts[..k]) + s + Concat(parts[k + 1..])
  {
    var q := parts[k := s];
    assert q == parts[..k] + ([s] + parts[k + 1..]);
    ConcatAppend(parts[..k], [s] + parts[k + 1..]);
    assert ([s] + parts[k + 1..])[1..] == parts[k + 1..];
  }

  /** Joining the parts of a split with the same separator gives back the
      string that was split. */
  lemma {:induction false} JoinSplit(s: string, sep: char)
    ensures Join(Split(s, sep), sep) == s
    decreases |s|
  {
    if |s| > 0 {
      var rest := Split(s[1..], sep);
      JoinSplit(s[1..], sep);
      if s[0] == sep {
        assert ([""] + rest)[1..] == rest;
      } else {
        JoinConsChar(s[0], rest, sep);
      }
      assert s == [s[0]] + s[1..];
    }
  }

  /** Prefixing the first part with a character prefixes the joined string. */
  lemma JoinConsChar(c: char, parts: seq<string>, sep: char)
    requires |parts| >= 1
    ensures Join(parts[0 := [c] + parts[0]], sep) == [c] + Join(parts, sep)
  {
    var q := parts[0 := [c] + parts[0]];
    assert q[1..] == parts[1..];
  }

  /** Splitting a string that begins with a separator-free part and a
      separator yields that part, then the split of the remainder. */
  lemma {:induction false} SplitAfterPart(p: string, t: string, sep: char)
    requires sep !in p
    ensures Split(p + [sep] + t, sep) == [p] + Split(t, sep)
    decreases |p|
  {
    var s := p + [sep] + t;
    if |p| == 0 {
      assert s[1..] == t;
    } else {
      assert s[1..] == p[1..] + [sep] + t;
      SplitAfterPart(p[1..], t, sep);
      assert [p[0]] + p[1..] == p;
    }
  }

  /** The inverse round trip: a non-empty list of separator-free parts is
      recovered by splitting its join. */
  lemma {:induction false} SplitJoin(parts: seq<string>, sep: char)
    requires |parts| >= 1
    requires forall k :: 0 <= k < |parts| ==> sep !in parts[k]
    ensures Split(Join(parts, sep), sep) == parts
    decreases |parts|
  {
    if |parts| > 1 {
      SplitJoin(parts[1..], sep);
      SplitAfterPart(parts[0], Join(parts[1..], sep), sep);
      assert [parts[0]] + parts[1..] == parts;
    } else {
      SplitParts(parts[0], sep);
    }
  }

  /** A join whose last part is not empty ends with the last character of
      that part. */
  lemma {:induction false} JoinLast(parts: seq<string>, sep: char)
    requires |parts| >= 1 && parts[|parts| - 1] != []
    ensures var s, last := Join(parts, sep), parts[|parts| - 1];
      s != [] && s[|s| - 1] == last[|last| - 1]
    decreases |parts|
  {
    if |parts| > 1 {
      JoinLast(parts[1..], sep);
    }
  }

  /** `t` is a suffix of `s` that is either all of `s` or preceded by
      `sep`. */
  predicate SuffixAfter(s: string, t: string, sep: char)
  {
    |t| <= |s| && t == s[|s| - |t|..] && (|t| == |s| || s[|s| - |t| - 1] == sep)
  }

  /** A suffix of the tail that starts after a separator, or after the first
      character when that is the separator, is such a suffix of the whole. */
  lemma SuffixAfterCons(s: string, t: string, sep: char)
    requires |s| > 0 && SuffixAfter(s[1..], t, sep)
    requires |t| < |s| - 1 || s[0] == sep
    ensures SuffixAfter(s, t, sep)
  {
    assert s[1..][|s| - 1 - |t|..] == s[|s| - |t|..];
  }

  /** The last part of a split of a non-empty string: the whole string
      when it starts with a non-separator and its tail splits into one part,
      the last part of the tail's split otherwise. */
  lemma SplitLastStep(s: string, sep: char)
    requires |s| > 0
    ensures var parts, rest := Split(s, sep), Split(s[1..], sep);
      parts[|parts| - 1] == if s[0] != sep && |rest| == 1 then s else rest[|rest| - 1]
  {
    var parts, rest := Split(s, sep), Split(s[1..], sep);
    if s[0] == sep {
      assert parts == [""] + rest;
    } else if |rest| == 1 {
      SplitParts(s[1..], sep);
      assert parts == [[s[0]] + s[1..]];
      assert s == [s[0]] + s[1..];
    } else {
    }
  }

  /** The last part of a split is the text after the last separator, or the
      whole string when it holds no separator. */
  lemma {:induction false} SplitLast(s: string, sep: char)
    ensures var parts := Split(s, sep); SuffixAfter(s, parts[|parts| - 1], sep)
    decreases |s|
  {
    if |s| > 0 {
      var rest := Split(s[1..], sep);
      var t := rest[|rest| - 1];
      SplitLast(s[1..], sep);
      SplitLastStep(s, sep);
      if s[0] == sep {
        SuffixAfterCons(s, t, sep);
      } else if |rest| > 1 {
        assert |t| < |s| - 1 by {
          SplitParts(s[1..], sep);
        }
        SuffixAfterCons(s, t, sep);
      }
    }
  }

  /** The characters `String.prototype.trim` removes: the WhiteSpace and
      LineTerminator code points of ECMAScript (sections 12.2 and 12.3 of
      ECMA-262), including the Unicode space separators. */
  predicate IsWhitespace(c: char)
  {
    || c == '\t' || c == '\n' || c == '\U{000B}' || c == '\U{000C}' || c == '\r'
    || c == ' ' || c == '\U{00A0}' || c == '\U{1680}'
    || ('\U{2000}' <= c <= '\U{200A}')
    || c == '\U{2028}' || c == '\U{2029}' || c == '\U{202F}' || c == '\U{205F}'
    || c == '\U{3000}' || c == '\U{FEFF}'
  }

  /** No whitespace at either end: what `trim` leaves unchanged. */
  predicate IsTrimmed(s: string)
  {
    s == [] || (!IsWhitespace(s[0]) && !IsWhitespace(s[|s| - 1]))
  }

  /** `r` is `s` with `i` whitespace characters removed at the front and
      the rest of what follows `r` removed at the back, all of it whitespace. */
  predicate CutOutByWhitespace(s: string, i: int, r: string)
  {
    && 0 <= i <= |s| - |r|
    && r == s[i..i + |r|]
    && (forall k :: 0 <= k < i ==> IsWhitespace(s[k]))
    && (forall k :: i + |r| <= k < |s| ==> IsWhitespace(s[k]))
  }

  /** The first index at or after `i` that does not hold whitespace, or the
      length when there is none. */
  function TextStart(s: string, i: nat): (j: nat)
    requires i <= |s|
    ensures i <= j <= |s|
    ensures forall k :: i <= k < j ==> IsWhitespace(s[k])
    ensures j == |s| || !IsWhitespace(s[j])
    decreases |s| - i
  {
    if i < |s| && IsWhitespace(s[i]) then TextStart(s, i + 1) else i
  }

  /** The index just after the last character before `j` and not before
      `lo` that does not hold whitespace, or `lo` when there is none. */
  function TextEnd(s: string, lo: nat, j: nat): (e: nat)
    requires lo <= j <= |s|
    ensures lo <= e <= j
    ensures forall k :: e <= k < j ==> IsWhitespace(s[k])
    ensures e == lo || !IsWhitespace(s[e - 1])
    decreases j
  {
    if j > lo && IsWhitespace(s[j - 1]) then TextEnd(s, lo, j - 1) else j
  }

  /** `s.trim()`: the longest substring of `s` that is cut out of it by
      removing whitespace only, from both ends. */
  function Trim(s: string): (r: string)
    ensures IsTrimmed(r)
    ensures exists i :: CutOutByWhitespace(s, i, r)
    ensures IsTrimmed(s) ==> r == s
    ensures r == [] <==> forall k :: 0 <= k < |s| ==> IsWhitespace(s[k])
  {
    var i := TextStart(s, 0);
    var e := TextEnd(s, i, |s|);
    assert CutOutByWhitespace(s, i, s[i..e]);
    assert e == i ==> i == |s|;
    s[i..e]
  }

  /** Trimming twice is trimming once. */
  lemma TrimIdempotent(s: string)
    ensures Trim(Trim(s)) == Trim(s)
  {
  }

  /** Whitespace after a non-empty trimmed text is all `trim` removes. */
  lemma TrimTrailingWhitespace(body: string, tail: string)
    requires body != [] && IsTrimmed(body)
    requires forall k :: 0 <= k < |tail| ==> IsWhitespace(tail[k])
    ensures Trim(body + tail) == body
  {
    var s := body + tail;
    var r := Trim(s);
    var i :| CutOutByWhitespace(s, i, r);
    assert s[0] == body[0] && s[|body| - 1] == body[|body| - 1];
    assert i == 0;
    assert r != [];
    assert r[|r| - 1] == s[|r| - 1];
    assert forall k :: |body| <= k < |s| ==> s[k] == tail[k - |body|];
  }

  function LowerChar(c: char): char
  {
    if 'A' <= c <= 'Z' then (c as int + 32) as char else c
  }

  /** `s.toLowerCase()` on the ASCII letters: every upper-case letter A-Z is
      replaced by its lower-case form, every other character is kept. */
  function ToLower(s: string): (r: string)
    ensures |r| == |s|
    ensures forall k :: 0 <= k < |r| ==> !('A' <= r[k] <= 'Z')
    ensures forall k :: 0 <= k < |r| && !('A' <= s[k] <= 'Z') ==> r[k] == s[k]
    ensures forall k :: 0 <= k < |s| && 'A' <= s[k] <= 'Z' ==>
      'a' <= r[k] <= 'z' && r[k] as int - 'a' as int == s[k] as int - 'A' as int
  {
    seq(|s|, k requires 0 <= k < |s| => LowerChar(s[k]))
  }

  function DigitChar(d: nat): (c: char)
    requires d < 10
  {
    ('0' as int + d) as char
  }

  predicate IsDigits(s: string)
  {
    forall k :: 0 <= k < |s| ==> '0' <= s[k] <= '9'
  }

  /** The decimal text of a non-negative integer, as a template literal
      prints it: digits only, at least one, and no leading zero. */
  function Decimal(n: nat): (s: string)
    ensures |s| >= 1 && IsDigits(s)
    ensures s[0] == '0' ==> n == 0 && s == "0"
  {
    if n < 10 then [DigitChar(n)] else Decimal(n / 10) + [DigitChar(n % 10)]
  }

  /** Reads a string of decimal digits back as a number. */
  function DecimalValue(s: string): nat
    requires IsDigits(s)
  {
    if s == [] then 0
    else 10 * DecimalValue(s[..|s| - 1]) + (s[|s| - 1] as int - '0' as int)
  }

  /** The decimal rendering loses nothing: reading it back gives the number. */
  lemma {:induction false} DecimalRoundTrip(n: nat)
    ensures DecimalValue(Decimal(n)) == n
  {
    if n >= 10 {
      DecimalRoundTrip(n / 10);
      var s := Decimal(n);
      assert s[..|s| - 1] == Decimal(n / 10);
    }
  }

  predicate EndsWith(s: string, suffix: string)
  {
    |suffix| <= |s| && s[|s| - |suffix|..] == suffix
  }
}
