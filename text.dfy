/**
 * The string operations the scraper applies to feed fields: Python's
 * `str.strip`, `str.lower`, `str.replace`, `str.split`, `s in t` on strings,
 * and the two regular-expression substitutions of the RSS retriever (tag
 * stripping and removal of the trailing arXiv annotation of a title).
 */
module Text {
  import opened Wrappers

  /** Python's `str.isspace` for a single character. */
  predicate IsSpace(c: char) {
    || c == ' '
    || '\t' <= c <= '\r'
    || '\U{1c}' <= c <= '\U{1f}'
    || c == '\U{85}' || c == '\U{a0}' || c == '\U{1680}'
    || '\U{2000}' <= c <= '\U{200a}'
    || c == '\U{2028}' || c == '\U{2029}' || c == '\U{202f}' || c == '\U{205f}' || c == '\U{3000}'
  }

  /** `[0-9]` in a Python regular expression: ASCII digits only. */
  predicate IsDigit(c: char) {
    '0' <= c <= '9'
  }

  /** Drops leading whitespace. */
  function TrimStart(s: string): (r: string)
    ensures |r| <= |s| && r == s[|s| - |r|..]
    ensures forall k :: 0 <= k < |s| - |r| ==> IsSpace(s[k])
    ensures r != [] ==> !IsSpace(r[0])
    decreases |s|
  {
    if s != [] && IsSpace(s[0]) then TrimStart(s[1..]) else s
  }

  /** Drops trailing whitespace. */
  function TrimEnd(s: string): (r: string)
    ensures |r| <= |s| && r == s[..|r|]
    ensures forall k :: |r| <= k < |s| ==> IsSpace(s[k])
    ensures r != [] ==> !IsSpace(r[|r| - 1])
    decreases |s|
  {
    if s != [] && IsSpace(s[|s| - 1]) then TrimEnd(s[..|s| - 1]) else s
  }

  /** Python's `s.strip()`: whitespace cut from both ends. */
  function Trim(s: string): (r: string)
    ensures r != [] ==> !IsSpace(r[0]) && !IsSpace(r[|r| - 1])
  {
    TrimEnd(TrimStart(s))
  }

  /**
   * What `strip()` keeps is one slice of `s`, and everything it cuts on
   * either side is whitespace.
   */
  lemma TrimIsSlice(s: string)
    ensures var r := Trim(s);
            exists i :: && 0 <= i <= |s| - |r|
                        && r <= s[i..]
                        && (forall k | 0 <= k < i :: IsSpace(s[k]))
                        && (forall k | i + |r| <= k < |s| :: IsSpace(s[k]))
  {
    var t := TrimStart(s);
    var r := TrimEnd(t);
    var i := |s| - |t|;
    assert t == s[i..];
    assert r <= s[i..];
    forall k | i + |r| <= k < |s| ensures IsSpace(s[k]) {
      assert s[k] == t[k - i];
    }
  }

  /** A string that neither starts nor ends with whitespace is its own `strip()`. */
  lemma TrimUnchanged(s: string)
    requires s != [] ==> !IsSpace(s[0]) && !IsSpace(s[|s| - 1])
    ensures Trim(s) == s
  {
  }

  /** Leading whitespace does not survive `strip()`. */
  lemma TrimSkipsSpace(c: char, t: string)
    requires IsSpace(c)
    ensures Trim([c] + t) == Trim(t)
  {
    assert ([c] + t)[1..] == t;
  }

  /** Python's `str.lower()` on ASCII letters; other characters are kept. */
  function LowerChar(c: char): char {
    if 'A' <= c <= 'Z' then (c as int + 32) as char else c
  }

  function Lower(s: string): (r: string)
    ensures |r| == |s|
  {
    if s == [] then [] else [LowerChar(s[0])] + Lower(s[1..])
  }

  /** A string without upper-case ASCII letters is its own `lower()`. */
  lemma {:induction false} LowerUnchanged(s: string)
    requires forall k :: 0 <= k < |s| ==> !('A' <= s[k] <= 'Z')
    ensures Lower(s) == s
  {
    if s != [] {
      LowerUnchanged(s[1..]);
    }
  }

  /** Python's `s.replace(c, rep)` for a one-character pattern `c` (also `re.sub(c, rep, s)`). */
  function Replace(s: string, c: char, rep: string): string {
    if s == [] then [] else (if s[0] == c then rep else [s[0]]) + Replace(s[1..], c, rep)
  }

  lemma {:induction false} ReplaceAppend(a: string, b: string, c: char, rep: string)
    ensures Replace(a + b, c, rep) == Replace(a, c, rep) + Replace(b, c, rep)
  {
    if a == [] {
      assert a + b == b;
    } else {
      assert (a + b)[0] == a[0];
      assert (a + b)[1..] == a[1..] + b;
      ReplaceAppend(a[1..], b, c, rep);
    }
  }

  /** After the replacement no `c` is left, provided `rep` does not contain one. */
  lemma {:induction false} ReplaceRemoves(s: string, c: char, rep: string)
    requires c !in rep
    ensures c !in Replace(s, c, rep)
  {
    if s != [] {
      ReplaceRemoves(s[1..], c, rep);
    }
  }

  /** A string without `c` is left as it is. */
  lemma {:induction false} ReplaceAbsent(s: string, c: char, rep: string)
    requires c !in s
    ensures Replace(s, c, rep) == s
  {
    if s != [] {
      ReplaceAbsent(s[1..], c, rep);
      assert s == [s[0]] + s[1..];
    }
  }

  /**
   * Replacing a character by a single character works position by position:
   * the length is kept, each `c` becomes `d` and every other character stays.
   */
  lemma {:induction false} ReplacePointwise(s: string, c: char, d: char)
    ensures var r := Replace(s, c, [d]);
            |r| == |s| && forall k :: 0 <= k < |s| ==> r[k] == if s[k] == c then d else s[k]
  {
    if s != [] {
      ReplacePointwise(s[1..], c, d);
      var r := Replace(s, c, [d]);
      forall k | 1 <= k < |s| ensures r[k] == if s[k] == c then d else s[k] {
        assert s[k] == s[1..][k - 1];
      }
    }
  }

  /** Python's `sep.join(parts)` for a one-character separator. */
  function Join(parts: seq<string>, sep: char): string
    requires |parts| >= 1
  {
    if |parts| == 1 then parts[0] else parts[0] + [sep] + Join(parts[1..], sep)
  }

  /**
   * Python's `s.split(sep)` for a one-character separator: at least one
   * piece, no piece contains `sep`, and joining the pieces with `sep` gives
   * `s` back (so `"".split(",") == [""]` and `"a,,b"` has an empty middle piece).
   */
  function Split(s: string, sep: char): (r: seq<string>)
    ensures |r| >= 1
    ensures forall i :: 0 <= i < |r| ==> sep !in r[i]
    ensures Join(r, sep) == s
    decreases |s|
  {
    if s == [] then [[]]
    else
      var rest := Split(s[1..], sep);
      if s[0] == sep then
        var r := [[]] + rest;
        assert r[1..] == rest;
        r
      else
        var r := [[s[0]] + rest[0]] + rest[1..];
        assert |r| > 1 ==> r[1..] == rest[1..];
        r
  }

  /** Splitting a string whose first piece is `a` (free of `sep`) puts `a` in front of the first piece. */
  lemma {:induction false} SplitPrefix(a: string, t: string, sep: char)
    requires sep !in a
    ensures Split(a + t, sep) == [a + Split(t, sep)[0]] + Split(t, sep)[1..]
    decreases |a|
  {
    var st := Split(t, sep);
    if a == [] {
      assert a + t == t;
      assert a + st[0] == st[0];
      assert st == [st[0]] + st[1..];
    } else {
      assert (a + t)[0] == a[0];
      assert (a + t)[1..] == a[1..] + t;
      SplitPrefix(a[1..], t, sep);
      var rest := Split(a[1..] + t, sep);
      assert rest == [a[1..] + st[0]] + st[1..];
      assert rest[0] == a[1..] + st[0];
      assert rest[1..] == st[1..];
      assert [a[0]] + (a[1..] + st[0]) == a + st[0];
    }
  }

  /** A `sep`-free piece followed by `sep` is split off as a piece of its own. */
  lemma SplitSepPiece(a: string, t: string, sep: char)
    requires sep !in a
    ensures Split(a + ([sep] + t), sep) == [a] + Split(t, sep)
  {
    SplitAfterSep(t, sep);
    SplitPrefix(a, [sep] + t, sep);
    assert a + [] == a;
  }

  /** The converse round trip: pieces free of `sep` are recovered from their join. */
  lemma {:induction false} SplitJoin(parts: seq<string>, sep: char)
    requires |parts| >= 1
    requires forall i :: 0 <= i < |parts| ==> sep !in parts[i]
    ensures Split(Join(parts, sep), sep) == parts
  {
    if |parts| == 1 {
      SplitPrefix(parts[0], [], sep);
      assert parts[0] + [] == parts[0];
    } else {
      var tail := parts[1..];
      var j := Join(tail, sep);
      SplitJoin(tail, sep);
      SplitSepPiece(parts[0], j, sep);
      assert Join(parts, sep) == parts[0] + ([sep] + j);
      assert parts == [parts[0]] + tail;
    }
  }

  /** The first piece is everything before the first separator, or all of a string without one. */
  lemma SplitFirstPiece(p: string, rest: string, sep: char)
    requires sep !in p
    ensures Split(p + [sep] + rest, sep)[0] == p
    ensures Split(p, sep)[0] == p
  {
    SplitAfterSep(rest, sep);
    SplitPrefix(p, [sep] + rest, sep);
    assert p + [sep] + rest == p + ([sep] + rest);
    SplitPrefix(p, [], sep);
    assert p + [] == p;
  }

  /** A leading separator splits off an empty first piece. */
  lemma SplitAfterSep(t: string, sep: char)
    ensures Split([sep] + t, sep) == [[]] + Split(t, sep)
  {
    assert ([sep] + t)[1..] == t;
  }

  /** Python's `s.split(sep)[-1]`. */
  function LastPiece(s: string, sep: char): string {
    var parts := Split(s, sep);
    parts[|parts| - 1]
  }

  /**
   * The last piece is the part of `s` after its last `sep`: a suffix of `s`
   * free of `sep`, which is either all of `s` or preceded by a `sep`.
   */
  lemma {:induction false} LastPieceIsSuffix(s: string, sep: char)
    ensures var r := LastPiece(s, sep);
            && sep !in r
            && |r| <= |s| && r == s[|s| - |r|..]
            && (|r| == |s| || s[|s| - |r| - 1] == sep)
    decreases |s|
  {
    if s != [] {
      var t := s[1..];
      LastPieceIsSuffix(t, sep);
      var rest := Split(t, sep);
      var r := LastPiece(s, sep);
      if s[0] != sep && |rest| == 1 {
        assert rest[0] == Join(rest, sep) == t;
        assert r == [s[0]] + t == s;
      } else {
        assert r == rest[|rest| - 1];
        if s[0] != sep {
          assert t[|rest[0]|] == sep;
        }
        assert s[|s| - |r|..] == t[|t| - |r|..];
      }
    }
  }

  /** `needle` occurs in `hay` starting at index `k`. */
  predicate OccursAt(needle: string, hay: string, k: nat)
    requires k <= |hay|
  {
    needle <= hay[k..]
  }

  /** Python's `needle in hay` on strings: `needle` occurs as a contiguous substring. */
  predicate IsSubstring(needle: string, hay: string) {
    exists k: nat :: k <= |hay| && OccursAt(needle, hay, k)
  }

  lemma SubstringOfItself(s: string)
    ensures IsSubstring(s, s)
  {
    assert OccursAt(s, s, 0);
  }

  /** A needle longer than the haystack never occurs in it. */
  lemma SubstringNotLonger(needle: string, hay: string)
    requires |hay| < |needle|
    ensures !IsSubstring(needle, hay)
  {
  }

  /*
   * Tag stripping: `re.sub("<[^<]+?>", "", s)`. At a `<`, the pattern needs
   * at least one character other than `<`, then stops at the first `>`
   * after it; a `<` met on the way means no match at that position, and the
   * scan moves on by one character. After a match it resumes past the `>`.
   */

  /** Searching from index `j` for the `>` that ends a tag begun at `s[0]`. */
  function TagClose(s: string, j: nat): (r: Option<nat>)
    requires j <= |s|
    ensures r.Some? ==> j <= r.value < |s| && s[r.value] == '>'
    decreases |s| - j
  {
    if j == |s| || s[j] == '<' then None
    else if s[j] == '>' then Some(j)
    else TagClose(s, j + 1)
  }

  /** The index of the `>` closing a tag that starts at `s[0]`, if the pattern matches there. */
  function TagEnd(s: string): (r: Option<nat>)
    ensures r.Some? ==> 2 <= r.value < |s|
  {
    if |s| < 3 || s[0] != '<' || s[1] == '<' then None else TagClose(s, 2)
  }

  function StripTags(s: string): string
    decreases |s|
  {
    if s == [] then []
    else if TagEnd(s).Some? then StripTags(s[TagEnd(s).value + 1..])
    else [s[0]] + StripTags(s[1..])
  }

  /** Text without `<` passes through tag stripping unchanged. */
  lemma {:induction false} StripTagsPlain(s: string)
    requires '<' !in s
    ensures StripTags(s) == s
  {
    if s != [] {
      StripTagsPlain(s[1..]);
      assert s == [s[0]] + s[1..];
    }
  }

  lemma {:induction false} TagCloseFinds(s: string, j: nat, k: nat)
    requires j <= k < |s| && s[k] == '>'
    requires forall m :: j <= m < k ==> s[m] != '<' && s[m] != '>'
    ensures TagClose(s, j) == Some(k)
    decreases k - j
  {
    if j < k {
      TagCloseFinds(s, j + 1, k);
    }
  }

  /** A tag `<t>` with a non-empty body free of `<` and `>` is removed and the scan goes on after it. */
  lemma StripTagsRemovesTag(t: string, q: string)
    requires t != [] && '<' !in t && '>' !in t
    ensures StripTags(['<'] + t + ['>'] + q) == StripTags(q)
  {
    var s := ['<'] + t + ['>'] + q;
    TagCloseFinds(s, 2, |t| + 1);
    assert s[|t| + 2..] == q;
  }

  /*
   * Title cleanup: `re.sub(r"\(arXiv:[0-9]+\.[0-9]+v[0-9]+ \[.*\]\)$", "", title)`.
   * `$` matches at the end of the string or just before a final newline;
   * `.` matches anything but a newline. The leftmost position at which the
   * pattern matches wins, and the match then runs to that `$`.
   */

  /** Number of leading ASCII digits. */
  function DigitRun(s: string): (n: nat)
    ensures n <= |s|
  {
    if s != [] && IsDigit(s[0]) then 1 + DigitRun(s[1..]) else 0
  }

  /** The run is maximal: digits up to it, a non-digit (or the end) at it. */
  lemma {:induction false} DigitRunIsMaximal(s: string)
    ensures var n := DigitRun(s);
            && (forall k :: 0 <= k < n ==> IsDigit(s[k]))
            && (n < |s| ==> !IsDigit(s[n]))
  {
    if s != [] && IsDigit(s[0]) {
      DigitRunIsMaximal(s[1..]);
      forall k | 0 < k < DigitRun(s) ensures IsDigit(s[k]) {
        assert s[k] == s[1..][k - 1];
      }
    }
  }

  /** What follows `[0-9]+` and the literal `c`, if `s` starts that way. */
  function AfterDigits(s: string, c: char): Option<string> {
    var n := DigitRun(s);
    if 1 <= n < |s| && s[n] == c then Some(s[n + 1..]) else None
  }

  /** `\[.*\]\)` as a whole string. */
  predicate IsBracketTail(s: string) {
    |s| >= 3 && s[0] == '[' && s[|s| - 2] == ']' && s[|s| - 1] == ')' && '\n' !in s[1..|s| - 2]
  }

  /** The literal start of the title annotation. */
  const AnnotationStart: string := "(arXiv:"

  /** `t` as a whole is an annotation `(arXiv:<digits>.<digits>v<digits> [<anything>])`. */
  predicate IsArxivAnnotation(t: string) {
    && AnnotationStart <= t
    && match AfterDigits(t[|AnnotationStart|..], '.')
       case None => false
       case Some(a) =>
         match AfterDigits(a, 'v')
         case None => false
         case Some(b) =>
           match AfterDigits(b, ' ')
           case None => false
           case Some(c) => IsBracketTail(c)
  }

  /** What follows the digits and the literal is a tail of `s`, so it ends as `s` does. */
  lemma AfterDigitsKeepsEnd(s: string, c: char)
    requires AfterDigits(s, c).Some? && AfterDigits(s, c).value != []
    ensures var a := AfterDigits(s, c).value; a[|a| - 1] == s[|s| - 1]
  {
  }

  /** An annotation ends with `)`. */
  lemma AnnotationEndsWithParen(t: string)
    requires IsArxivAnnotation(t)
    ensures t != [] && t[|t| - 1] == ')'
  {
    var rest := t[|AnnotationStart|..];
    var a := AfterDigits(rest, '.').value;
    var b := AfterDigits(a, 'v').value;
    var c := AfterDigits(b, ' ').value;
    AfterDigitsKeepsEnd(b, ' ');
    AfterDigitsKeepsEnd(a, 'v');
    AfterDigitsKeepsEnd(rest, '.');
  }

  /** The pattern matches from index `k` of `s` to its end. */
  predicate AnnotationAt(s: string, k: nat)
    requires k <= |s|
  {
    IsArxivAnnotation(s[k..])
  }

  /** An annotation is never empty, so none starts at the very end. */
  lemma NoAnnotationAtEnd(s: string)
    ensures !AnnotationAt(s, |s|)
  {
    assert s[|s|..] == [];
  }

  /** The leftmost index `>= i` from which the rest of `s` is an annotation. */
  function FirstAnnotation(s: string, i: nat): (r: Option<nat>)
    requires i <= |s|
    ensures r.Some? ==> i <= r.value < |s| && AnnotationAt(s, r.value)
    ensures r.Some? ==> forall k :: i <= k < r.value ==> !AnnotationAt(s, k)
    ensures r.None? ==> forall k :: i <= k <= |s| ==> !AnnotationAt(s, k)
    decreases |s| - i
  {
    if i == |s| then NoAnnotationAtEnd(s); None
    else if AnnotationAt(s, i) then Some(i)
    else FirstAnnotation(s, i + 1)
  }

  /** The part of the title before a final newline, where `$` can match. */
  function Chomp(s: string): string {
    if s != [] && s[|s| - 1] == '\n' then s[..|s| - 1] else s
  }

  /** The `re.sub` of the title pattern: the matched annotation is cut, a final newline kept. */
  function CutAnnotation(title: string): string {
    var body := Chomp(title);
    match FirstAnnotation(body, 0)
    case Some(i) => body[..i] + title[|body|..]
    case None => title
  }

  /** The RSS title cleanup: cut the trailing annotation, then `strip()`. */
  function CleanTitle(title: string): string {
    Trim(CutAnnotation(title))
  }

  /**
   * No annotation starts at index `k` of `p` when `p` holds no `(arXiv:`,
   * not even one running on into the annotation `t` that follows: `t` starts
   * with `(`, and `arXiv:` has none.
   */
  lemma NoAnnotationInside(p: string, t: string, k: nat)
    requires k < |p| && !IsSubstring(AnnotationStart, p)
    requires IsArxivAnnotation(t)
    ensures !AnnotationAt(p + t, k)
  {
    var s := p + t;
    if k + |AnnotationStart| <= |p| {
      assert !OccursAt(AnnotationStart, p, k);
      assert s[k..][..|AnnotationStart|] == p[k..][..|AnnotationStart|];
    } else {
      var j := |p| - k;
      assert s[k..][j] == t[0] == '(';
      assert AnnotationStart[j] != '(';
    }
  }

  lemma {:induction false} FirstAnnotationAfterText(p: string, t: string, i: nat)
    requires i <= |p| && !IsSubstring(AnnotationStart, p)
    requires IsArxivAnnotation(t)
    ensures FirstAnnotation(p + t, i) == Some(|p|)
    decreases |p| - i
  {
    if i < |p| {
      NoAnnotationInside(p, t, i);
      FirstAnnotationAfterText(p, t, i + 1);
    } else {
      assert (p + t)[i..] == t;
    }
  }

  /** A text ending in `)` has no final newline for `$` to skip. */
  lemma ChompAfterParen(p: string, t: string)
    requires t != [] && t[|t| - 1] == ')'
    ensures Chomp(p + t) == p + t
  {
    assert (p + t)[|p + t| - 1] == t[|t| - 1];
  }

  /**
   * A title that ends in an annotation, with no `(arXiv:` before it, is
   * cleaned to its stripped text before the annotation, whatever other
   * parentheses that text holds.
   */
  lemma CleanTitleCutsAnnotation(p: string, t: string)
    requires !IsSubstring(AnnotationStart, p)
    requires IsArxivAnnotation(t)
    ensures CleanTitle(p + t) == Trim(p)
  {
    var s := p + t;
    FirstAnnotationAfterText(p, t, 0);
    AnnotationEndsWithParen(t);
    ChompAfterParen(p, t);
    assert s[..|p|] == p;
    assert CutAnnotation(s) == p + s[|s|..];
    assert CutAnnotation(s) == p;
  }

  /** A title without `(` contains no annotation: cleanup is `strip()` alone. */
  lemma CleanTitlePlain(title: string)
    requires '(' !in title
    ensures CleanTitle(title) == Trim(title)
  {
    var body := Chomp(title);
    assert forall c :: c in body ==> c in title;
    forall k | 0 <= k <= |body| ensures !AnnotationAt(body, k) {
      var t := body[k..];
      if k < |body| {
        assert t[0] == body[k];
      }
      NotAnnotationWithoutParen(t);
    }
  }

  /** Every annotation starts with `(`. */
  lemma NotAnnotationWithoutParen(t: string)
    requires t == [] || t[0] != '('
    ensures !IsArxivAnnotation(t)
  {
  }
}
