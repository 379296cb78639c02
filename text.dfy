/** The string operations of Rust's `str` that the package manager relies on:
    substring search, `split`, `replace`, `trim`, single-character search, and the
    text order SQLite uses to compare TEXT values. */
module Text {
  import opened Wrappers

  /** `pat` occurs in `s` at index `i`. */
  predicate StartsAt(s: string, pat: string, i: nat) {
    i + |pat| <= |s| && s[i..i + |pat|] == pat
  }

  /** `str::contains` with a string pattern. */
  predicate Contains(s: string, pat: string) {
    exists i: nat | i <= |s| :: StartsAt(s, pat, i)
  }

  lemma StartsAtShift(s: string, pat: string)
    requires |s| > 0
    ensures forall i: nat :: StartsAt(s[1..], pat, i) <==> StartsAt(s, pat, i + 1)
  {
    forall i: nat ensures StartsAt(s[1..], pat, i) <==> StartsAt(s, pat, i + 1) {
      if i + 1 + |pat| <= |s| {
        assert s[1..][i..i + |pat|] == s[i + 1..i + 1 + |pat|];
      }
    }
  }

  /** The leftmost match of `pat` in `s`, where `str::find` and every matcher of
      `split` and `replace` stop. */
  function IndexOf(s: string, pat: string): (r: Option<nat>)
    ensures r.Some? ==> StartsAt(s, pat, r.value)
    ensures r.Some? ==> forall j: nat :: j < r.value ==> !StartsAt(s, pat, j)
    ensures r.None? <==> !Contains(s, pat)
    decreases |s|
  {
    if |s| < |pat| then None
    else if s[..|pat|] == pat then Some(0)
    else
      StartsAtShift(s, pat);
      match IndexOf(s[1..], pat)
      case None =>
        assert forall j: nat :: !StartsAt(s, pat, j) by {
          forall j: nat ensures !StartsAt(s, pat, j) {
            if j > 0 { assert !StartsAt(s[1..], pat, j - 1); }
          }
        }
        None
      case Some(i) =>
        assert forall j: nat :: j < i + 1 ==> !StartsAt(s, pat, j) by {
          forall j: nat | j < i + 1 ensures !StartsAt(s, pat, j) {
            if j > 0 { assert !StartsAt(s[1..], pat, j - 1); }
          }
        }
        Some(i + 1)
  }

  /** `parts.join(sep)`. */
  function Join(parts: seq<string>, sep: string): string
    decreases |parts|
  {
    if |parts| == 0 then ""
    else if |parts| == 1 then parts[0]
    else parts[0] + sep + Join(parts[1..], sep)
  }

  /** A slice of a string that does not contain `pat` does not contain it either. */
  lemma SliceNotContains(s: string, pat: string, a: nat, b: nat)
    requires a <= b <= |s| && !Contains(s, pat)
    ensures !Contains(s[a..b], pat)
  {
    forall j: nat ensures !StartsAt(s[a..b], pat, j) {
      if j + |pat| <= b - a {
        var w := s[a..b][j..j + |pat|];
        assert forall k :: 0 <= k < |w| ==> w[k] == s[a + j + k];
        assert w == s[a + j..a + j + |pat|];
        assert !StartsAt(s, pat, a + j);
      }
    }
  }

  /** Nothing before the leftmost match is a match. */
  lemma BeforeFirstMatch(s: string, pat: string, i: nat)
    requires |pat| > 0 && i <= |s| && forall j: nat :: j < i ==> !StartsAt(s, pat, j)
    ensures !Contains(s[..i], pat)
  {
    forall j: nat ensures !StartsAt(s[..i], pat, j) {
      if j + |pat| <= i {
        assert s[..i][j..j + |pat|] == s[j..j + |pat|];
        assert j < i && !StartsAt(s, pat, j);
      }
    }
  }

  /** Joining a first piece onto the pieces of the rest. */
  lemma JoinCons(first: string, rest: seq<string>, sep: string)
    requires |rest| >= 1
    ensures Join([first] + rest, sep) == first + sep + Join(rest, sep)
  {
    assert ([first] + rest)[1..] == rest;
  }

  /** Putting the piece before the leftmost match in front of the pieces of
      what follows the match keeps every property `Split` promises. */
  lemma SplitCons(s: string, pat: string, i: nat, rest: seq<string>)
    requires |pat| > 0 && StartsAt(s, pat, i) && forall j: nat :: j < i ==> !StartsAt(s, pat, j)
    requires |rest| >= 1 && Join(rest, pat) == s[i + |pat|..]
    requires forall k :: 0 <= k < |rest| ==> !Contains(rest[k], pat)
    ensures var parts := [s[..i]] + rest;
      && (forall k :: 0 <= k < |parts| ==> !Contains(parts[k], pat))
      && Contains(s, pat) && parts != [s] && Join(parts, pat) == s
  {
    var parts := [s[..i]] + rest;
    forall k | 0 <= k < |parts| ensures !Contains(parts[k], pat) {
      if k == 0 { BeforeFirstMatch(s, pat, i); } else { assert parts[k] == rest[k - 1]; }
    }
    assert i <= |s| && StartsAt(s, pat, i);
    assert |parts[0]| < |s|;
    JoinCons(s[..i], rest, pat);
    assert s == s[..i] + pat + s[i + |pat|..];
  }

  /** `s.split(pat)` for a non-empty pattern: the pieces between the successive
      leftmost non-overlapping matches. */
  function Split(s: string, pat: string): (parts: seq<string>)
    requires |pat| > 0
    ensures |parts| >= 1
    ensures forall k :: 0 <= k < |parts| ==> !Contains(parts[k], pat)
    ensures !Contains(s, pat) <==> parts == [s]
    ensures Join(parts, pat) == s
    decreases |s|
  {
    match IndexOf(s, pat)
    case None => [s]
    case Some(i) =>
      var rest := Split(s[i + |pat|..], pat);
      SplitCons(s, pat, i, rest);
      [s[..i]] + rest
  }

  /** Two non-overlapping matches of `pat` in `s`. */
  predicate TwoMatches(s: string, pat: string) {
    exists i: nat, j: nat | i <= |s| && j <= |s| :: i + |pat| <= j && StartsAt(s, pat, i) && StartsAt(s, pat, j)
  }

  /** A match in a suffix is a match in the whole string, shifted by the cut. */
  lemma SuffixMatch(s: string, pat: string, off: nat, j: nat)
    requires off <= |s|
    ensures StartsAt(s[off..], pat, j) <==> StartsAt(s, pat, off + j)
  {
    if j + |pat| <= |s| - off {
      var w := s[off..][j..j + |pat|];
      forall k | 0 <= k < |w| ensures w[k] == s[off + j + k] {}
      assert w == s[off + j..off + j + |pat|];
    }
  }

  lemma SplitManyHasTwo(s: string, pat: string, i0: nat)
    requires |pat| > 0 && StartsAt(s, pat, i0)
    requires Contains(s[i0 + |pat|..], pat)
    ensures TwoMatches(s, pat)
  {
    var tail := s[i0 + |pat|..];
    var j': nat :| j' <= |tail| && StartsAt(tail, pat, j');
    SuffixMatch(s, pat, i0 + |pat|, j');
    var j := i0 + |pat| + j';
    assert i0 + |pat| <= j && StartsAt(s, pat, i0) && StartsAt(s, pat, j);
  }

  lemma TwoHasSplitMany(s: string, pat: string, i0: nat)
    requires |pat| > 0 && IndexOf(s, pat) == Some(i0) && TwoMatches(s, pat)
    ensures Contains(s[i0 + |pat|..], pat)
  {
    var i: nat, j: nat :| i <= |s| && j <= |s| && i + |pat| <= j && StartsAt(s, pat, i) && StartsAt(s, pat, j);
    assert !(i < i0) by {
      if i < i0 { assert false; }
    }
    var j': nat := j - i0 - |pat|;
    SuffixMatch(s, pat, i0 + |pat|, j');
    assert j' <= |s[i0 + |pat|..]| && StartsAt(s[i0 + |pat|..], pat, j');
  }

  /** `split` yields three or more pieces exactly when the pattern occurs twice without overlap. */
  lemma SplitPieces(s: string, pat: string)
    requires |pat| > 0
    ensures |Split(s, pat)| >= 3 <==> TwoMatches(s, pat)
  {
    match IndexOf(s, pat)
    case None =>
    case Some(i0) =>
      var tail := s[i0 + |pat|..];
      assert Split(s, pat) == [s[..i0]] + Split(tail, pat);
      if |Split(s, pat)| >= 3 {
        assert Split(tail, pat) != [tail];
        SplitManyHasTwo(s, pat, i0);
      }
      if TwoMatches(s, pat) { TwoHasSplitMany(s, pat, i0); }
  }

  /** `s.replace(pat, rep)`: every leftmost non-overlapping match replaced. */
  function ReplaceAll(s: string, pat: string, rep: string): (r: string)
    requires |pat| > 0
    ensures !Contains(s, pat) ==> r == s
  {
    Join(Split(s, pat), rep)
  }

  /** `replace` cuts the text at matches of the pattern and joins the pieces with the
      replacement: the pieces hold no match and rejoined with the pattern give the text. */
  lemma ReplaceAllPieces(s: string, pat: string, rep: string)
    requires |pat| > 0
    ensures exists parts: seq<string> ::
      && |parts| >= 1 && Join(parts, pat) == s
      && (forall k :: 0 <= k < |parts| ==> !Contains(parts[k], pat))
      && ReplaceAll(s, pat, rep) == Join(parts, rep)
  {
    var parts := Split(s, pat);
    assert |parts| >= 1 && Join(parts, pat) == s;
  }

  /** `replace` works left to right: the leftmost match is replaced, and the rest of the
      text after it is replaced in turn. */
  lemma ReplaceLeftmost(s: string, pat: string, rep: string)
    requires |pat| > 0 && Contains(s, pat)
    ensures var i := IndexOf(s, pat).value;
      ReplaceAll(s, pat, rep) == s[..i] + rep + ReplaceAll(s[i + |pat|..], pat, rep)
  {
    var i := IndexOf(s, pat).value;
    var rest := Split(s[i + |pat|..], pat);
    assert Split(s, pat) == [s[..i]] + rest;
    JoinCons(s[..i], rest, rep);
  }

  /** A string without the pattern's first character does not contain the pattern. */
  lemma NoFirstCharNoMatch(s: string, pat: string)
    requires |pat| > 0 && pat[0] !in s
    ensures !Contains(s, pat)
  {
    forall j: nat ensures !StartsAt(s, pat, j) {
      if j + |pat| <= |s| { assert s[j] == s[j..j + |pat|][0]; }
    }
  }

  /** When the text before a match holds no character that could start a match, `split`
      cuts exactly there. */
  lemma {:induction false} SplitAtFirst(a: string, pat: string, b: string)
    requires |pat| > 0 && pat[0] !in a
    ensures Split(a + pat + b, pat) == [a] + Split(b, pat)
  {
    var s := a + pat + b;
    assert StartsAt(s, pat, |a|) by { assert s[|a|..|a| + |pat|] == pat; }
    forall j: nat | j < |a| ensures !StartsAt(s, pat, j) {
      assert s[j] == a[j];
      assert s[j..j + |pat|][0] == s[j];
    }
    var i := IndexOf(s, pat);
    assert i == Some(|a|);
    assert s[..|a|] == a;
    assert s[|a| + |pat|..] == b;
  }

  /** `replace` substitutes the first match when nothing before it can start one. */
  lemma ReplaceAtFirst(a: string, pat: string, rep: string, b: string)
    requires |pat| > 0 && pat[0] !in a
    ensures ReplaceAll(a + pat + b, pat, rep) == a + rep + ReplaceAll(b, pat, rep)
  {
    SplitAtFirst(a, pat, b);
    var rest := Split(b, pat);
    assert Split(a + pat + b, pat) == [a] + rest;
    assert ([a] + rest)[1..] == rest;
  }

  // ---- whitespace and trim ----

  /** Unicode White_Space, the class `char::is_whitespace` tests. */
  predicate IsWhitespace(c: char) {
    ('\U{0009}' <= c <= '\U{000D}') || c == ' ' || c == '\U{0085}' || c == '\U{00A0}'
    || c == '\U{1680}' || ('\U{2000}' <= c <= '\U{200A}') || c == '\U{2028}' || c == '\U{2029}'
    || c == '\U{202F}' || c == '\U{205F}' || c == '\U{3000}'
  }

  /** The number of leading whitespace characters. */
  function LeadingSpace(s: string): (k: nat)
    ensures k <= |s|
    ensures forall j :: 0 <= j < k ==> IsWhitespace(s[j])
    ensures k < |s| ==> !IsWhitespace(s[k])
    decreases |s|
  {
    if |s| > 0 && IsWhitespace(s[0]) then 1 + LeadingSpace(s[1..]) else 0
  }

  /** The index where the trailing run of whitespace begins. */
  function TrailingStart(s: string): (k: nat)
    ensures k <= |s|
    ensures forall j :: k <= j < |s| ==> IsWhitespace(s[j])
    ensures k > 0 ==> !IsWhitespace(s[k - 1])
    decreases |s|
  {
    if |s| > 0 && IsWhitespace(s[|s| - 1]) then TrailingStart(s[..|s| - 1]) else |s|
  }

  /** No whitespace at either end. */
  predicate Trimmed(s: string) {
    |s| == 0 || (!IsWhitespace(s[0]) && !IsWhitespace(s[|s| - 1]))
  }

  /** `str::trim`. */
  function Trim(s: string): (r: string)
    ensures Trimmed(r)
    ensures exists a: nat, b: nat :: a <= b <= |s| && r == s[a..b]
    ensures r == "" <==> forall j :: 0 <= j < |s| ==> IsWhitespace(s[j])
  {
    var a := LeadingSpace(s);
    var t := s[a..];
    var b := TrailingStart(t);
    assert t[..b] == s[a..a + b];
    assert forall j :: a <= j < |s| ==> s[j] == t[j - a];
    assert b > 0 ==> !IsWhitespace(t[0]) && t[0] == t[..b][0];
    t[..b]
  }

  /** A string with a character that is not whitespace does not trim to nothing. */
  lemma NotBlank(s: string, k: nat)
    requires k < |s| && !IsWhitespace(s[k])
    ensures Trim(s) != ""
  {
  }

  /** Trimming a string with no whitespace at its ends leaves it unchanged. */
  lemma TrimTrimmed(s: string)
    requires Trimmed(s)
    ensures Trim(s) == s
  {
    assert LeadingSpace(s) == 0;
    assert TrailingStart(s) == |s| by {
      if |s| > 0 { assert !IsWhitespace(s[|s| - 1]); }
    }
  }

  /** Trimming never introduces a match. */
  lemma TrimNotContains(s: string, pat: string)
    requires !Contains(s, pat)
    ensures !Contains(Trim(s), pat)
  {
    var a: nat, b: nat :| a <= b <= |s| && Trim(s) == s[a..b];
    SliceNotContains(s, pat, a, b);
  }

  // ---- single characters ----

  /** `str::find(c)`: the first index of `c`. */
  function FindChar(s: string, c: char): (r: Option<nat>)
    ensures r.None? <==> c !in s
    ensures r.Some? ==> r.value < |s| && s[r.value] == c && c !in s[..r.value]
    decreases |s|
  {
    if |s| == 0 then None
    else if s[0] == c then Some(0)
    else match FindChar(s[1..], c)
      case None => None
      case Some(i) =>
        assert s[..i + 1] == [s[0]] + s[1..][..i];
        Some(i + 1)
  }

  /** `str::rfind(c)`: the last index of `c`. */
  function RFindChar(s: string, c: char): (r: Option<nat>)
    ensures r.None? <==> c !in s
    ensures r.Some? ==> r.value < |s| && s[r.value] == c && c !in s[r.value + 1..]
    decreases |s|
  {
    if |s| == 0 then None
    else if s[|s| - 1] == c then Some(|s| - 1)
    else
      var init := s[..|s| - 1];
      assert s == init + [s[|s| - 1]];
      match RFindChar(init, c)
      case None => None
      case Some(i) =>
        assert s[i + 1..] == init[i + 1..] + [s[|s| - 1]];
        Some(i)
  }

  // ---- SQLite TEXT comparison ----

  /** SQLite's BINARY collation on UTF-8 TEXT, which is code-point lexicographic order:
      a proper prefix sorts first. */
  predicate TextLe(a: string, b: string)
    decreases |a|
  {
    |a| == 0 || (|b| > 0 && (a[0] < b[0] || (a[0] == b[0] && TextLe(a[1..], b[1..]))))
  }

  predicate TextLt(a: string, b: string) {
    TextLe(a, b) && a != b
  }

  lemma {:induction false} TextLeReflexive(a: string)
    ensures TextLe(a, a)
    decreases |a|
  {
    if |a| > 0 { TextLeReflexive(a[1..]); }
  }

  lemma {:induction false} TextLeTotal(a: string, b: string)
    ensures TextLe(a, b) || TextLe(b, a)
    decreases |a|
  {
    if |a| > 0 && |b| > 0 && a[0] == b[0] { TextLeTotal(a[1..], b[1..]); }
  }

  lemma {:induction false} TextLeTransitive(a: string, b: string, c: string)
    requires TextLe(a, b) && TextLe(b, c)
    ensures TextLe(a, c)
    decreases |a|
  {
    if |a| > 0 && a[0] == b[0] && b[0] == c[0] { TextLeTransitive(a[1..], b[1..], c[1..]); }
  }

  lemma {:induction false} TextLeAntisymmetric(a: string, b: string)
    requires TextLe(a, b) && TextLe(b, a)
    ensures a == b
    decreases |a|
  {
    if |a| > 0 {
      TextLeAntisymmetric(a[1..], b[1..]);
      assert a == [a[0]] + a[1..] && b == [b[0]] + b[1..];
    }
  }
}
