/**
  The JavaScript string operations the article compiler is built from:
  `trim`, `indexOf`, `split` and `replace` with a string pattern, and
  `Array.prototype.join`. Strings are sequences of Unicode scalar values.
 */
module JsStrings {
  import opened Results

  /** StrWhiteSpaceChar of ECMAScript: WhiteSpace (TAB, VT, FF, ZWNBSP and
      every code point of category Zs) or LineTerminator (LF, CR, LS, PS). */
  predicate IsSpace(c: char) {
    || c == '\t' || c == '\n' || c == '\U{B}' || c == '\U{C}' || c == '\r'
    || c == ' ' || c == '\U{A0}' || c == '\U{1680}'
    || ('\U{2000}' <= c <= '\U{200A}')
    || c == '\U{2028}' || c == '\U{2029}' || c == '\U{202F}' || c == '\U{205F}'
    || c == '\U{3000}' || c == '\U{FEFF}'
  }

  predicate Blank(s: string) {
    forall k :: 0 <= k < |s| ==> IsSpace(s[k])
  }

  /** The first position at or after `i` that does not hold white space
      (`|s|` when there is none). */
  function SkipSpace(s: string, i: nat): (n: nat)
    requires i <= |s|
    ensures i <= n <= |s|
    ensures forall k :: i <= k < n ==> IsSpace(s[k])
    ensures n < |s| ==> !IsSpace(s[n])
    decreases |s| - i
  {
    if i < |s| && IsSpace(s[i]) then SkipSpace(s, i + 1) else i
  }

  /** The end of the text before position `j` once the white space just
      before `j` is dropped. */
  function SkipSpaceBack(s: string, j: nat): (n: nat)
    requires j <= |s|
    ensures n <= j
    ensures forall k :: n <= k < j ==> IsSpace(s[k])
    ensures n > 0 ==> !IsSpace(s[n - 1])
  {
    if j > 0 && IsSpace(s[j - 1]) then SkipSpaceBack(s, j - 1) else j
  }

  /** String.prototype.trim: drops the white space at both ends. The result
      is empty exactly for a blank string and otherwise starts and ends with
      a character that is not white space. */
  function Trim(s: string): (r: string)
    ensures |r| <= |s|
    ensures r == [] <==> Blank(s)
    ensures r != [] ==> !IsSpace(r[0]) && !IsSpace(r[|r| - 1])
  {
    var a := SkipSpace(s, 0);
    var e := SkipSpaceBack(s, |s|);
    if a < e then s[a..e] else []
  }

  /** Trimming twice is trimming once. */
  lemma TrimIdempotent(s: string)
    ensures Trim(Trim(s)) == Trim(s)
  {
    var t := Trim(s);
    if t != [] {
      assert SkipSpace(t, 0) == 0;
      assert SkipSpaceBack(t, |t|) == |t|;
      assert t[0..|t|] == t;
    }
  }

  /** Trimming keeps exactly the text from the first to the last character
      that is not white space. */
  lemma TrimKeeps(s: string, a: nat, e: nat)
    requires a < e <= |s| && !IsSpace(s[a]) && !IsSpace(s[e - 1])
    requires forall k :: 0 <= k < a ==> IsSpace(s[k])
    requires forall k :: e <= k < |s| ==> IsSpace(s[k])
    ensures Trim(s) == s[a..e]
  {
    assert SkipSpace(s, 0) == a;
    assert SkipSpaceBack(s, |s|) == e;
  }

  predicate OccursAt(s: string, pat: string, i: nat) {
    i + |pat| <= |s| && s[i..i + |pat|] == pat
  }

  predicate Contains(s: string, pat: string) {
    exists i: nat | i <= |s| :: OccursAt(s, pat, i)
  }

  lemma OccursAtTail(s: string, pat: string, j: nat)
    requires s != []
    ensures OccursAt(s[1..], pat, j) <==> OccursAt(s, pat, j + 1)
  {
    if j + 1 + |pat| <= |s| {
      assert s[1..][j..j + |pat|] == s[j + 1..j + 1 + |pat|];
    }
  }

  lemma OccursAtPrefix(s: string, pat: string, n: nat, j: nat)
    requires n <= |s|
    requires OccursAt(s[..n], pat, j)
    ensures OccursAt(s, pat, j)
  {
    assert s[..n][j..j + |pat|] == s[j..j + |pat|];
  }

  /** String.prototype.indexOf: a position where `pat` occurs (None where
      JavaScript answers -1); IndexOfLeftmost shows it is the leftmost one. */
  function IndexOf(s: string, pat: string): (r: Option<nat>)
    ensures r.Some? ==> OccursAt(s, pat, r.value)
    decreases |s|
  {
    if |s| < |pat| then None
    else if s[..|pat|] == pat then Some(0)
    else
      match IndexOf(s[1..], pat)
      case None => None
      case Some(i) =>
        OccursAtTail(s, pat, i);
        Some(i + 1)
  }

  /** No occurrence precedes the one IndexOf finds, and None means there
      is no occurrence at all. */
  lemma {:induction false} IndexOfLeftmost(s: string, pat: string)
    ensures IndexOf(s, pat).Some? ==>
      forall j: nat :: j < IndexOf(s, pat).value ==> !OccursAt(s, pat, j)
    ensures IndexOf(s, pat).None? ==> forall j: nat :: !OccursAt(s, pat, j)
    decreases |s|
  {
    if |s| < |pat| {
    } else if s[..|pat|] == pat {
    } else {
      IndexOfLeftmost(s[1..], pat);
      assert !OccursAt(s, pat, 0);
      forall j: nat | j > 0 ensures OccursAt(s[1..], pat, j - 1) <==> OccursAt(s, pat, j) {
        OccursAtTail(s, pat, j - 1);
      }
    }
  }

  /** For a one-character pattern, an occurrence is that character. */
  lemma OccursAtChar(s: string, c: char, j: nat)
    ensures OccursAt(s, [c], j) <==> j < |s| && s[j] == c
  {
    if j < |s| { assert s[j..j + 1] == [s[j]]; }
  }

  lemma ContainsChar(s: string, c: char)
    ensures Contains(s, [c]) <==> c in s
  {
    if c in s {
      var j :| 0 <= j < |s| && s[j] == c;
      OccursAtChar(s, c, j);
    }
    if Contains(s, [c]) {
      var j: nat :| OccursAt(s, [c], j);
      OccursAtChar(s, c, j);
    }
  }

  /** String.prototype.split with a non-empty string separator: the pieces
      between the non-overlapping occurrences of `sep`, found left to right.
      There is always at least one piece and no piece contains `sep`. */
  function Split(s: string, sep: string): (parts: seq<string>)
    requires |sep| > 0
    ensures |parts| >= 1
    ensures forall k :: 0 <= k < |parts| ==> !Contains(parts[k], sep)
    decreases |s|
  {
    IndexOfLeftmost(s, sep);
    match IndexOf(s, sep)
    case None => [s]
    case Some(i) =>
      assert !Contains(s[..i], sep) by {
        forall j: nat | OccursAt(s[..i], sep, j) ensures false {
          OccursAtPrefix(s, sep, i, j);
        }
      }
      [s[..i]] + Split(s[i + |sep|..], sep)
  }

  /** Array.prototype.join. */
  function Join(parts: seq<string>, sep: string): string {
    if |parts| == 0 then ""
    else if |parts| == 1 then parts[0]
    else parts[0] + sep + Join(parts[1..], sep)
  }

  /** Joining the pieces of a split with the same separator gives back the string. */
  lemma {:induction false} JoinSplit(s: string, sep: string)
    requires |sep| > 0
    ensures Join(Split(s, sep), sep) == s
    decreases |s|
  {
    var r := IndexOf(s, sep);
    if r.Some? {
      var i := r.value;
      var rest := s[i + |sep|..];
      JoinSplit(rest, sep);
      var parts := Split(rest, sep);
      var all := [s[..i]] + parts;
      assert Split(s, sep) == all;
      assert all[1..] == parts;
      assert Join(all, sep) == s[..i] + sep + Join(parts, sep);
      assert s[i..i + |sep|] == sep;
      assert s == s[..i] + s[i..i + |sep|] + rest;
    }
  }

  /** The first piece of a split is the text before the first separator;
      the remaining pieces are the split of the text after it, and joined
      back they are that text. */
  lemma {:induction false} SplitFirst(s: string, sep: string)
    requires |sep| > 0
    ensures IndexOf(s, sep).None? ==> Split(s, sep) == [s]
    ensures IndexOf(s, sep).Some? ==>
      var i := IndexOf(s, sep).value;
      |Split(s, sep)| >= 2 &&
      Split(s, sep)[0] == s[..i] &&
      Split(s, sep)[1..] == Split(s[i + |sep|..], sep) &&
      Join(Split(s, sep)[1..], sep) == s[i + |sep|..]
  {
    match IndexOf(s, sep)
    case None =>
    case Some(i) =>
      JoinSplit(s[i + |sep|..], sep);
      assert Split(s, sep)[1..] == Split(s[i + |sep|..], sep);
  }

  /** The leftmost occurrence of a character is where it first appears. */
  lemma IndexOfChar(s: string, c: char, i: nat)
    requires i < |s| && s[i] == c && c !in s[..i]
    ensures IndexOf(s, [c]) == Some(i)
  {
    OccursAtChar(s, c, i);
    IndexOfLeftmost(s, [c]);
    var j := IndexOf(s, [c]).value;
    OccursAtChar(s, c, j);
    assert forall k :: 0 <= k < i ==> s[..i][k] == s[k];
  }

  lemma IndexOfNoChar(s: string, c: char)
    requires c !in s
    ensures IndexOf(s, [c]) == None
  {
    var r := IndexOf(s, [c]);
    if r.Some? { OccursAtChar(s, c, r.value); }
  }

  /** Split, one character at a time: a separator at the start closes an
      empty first piece; any other first character joins the first piece. */
  lemma {:induction false} SplitAtStart(s: string, sep: string)
    requires |sep| > 0 && OccursAt(s, sep, 0)
    ensures Split(s, sep) == [""] + Split(s[|sep|..], sep)
  {
    assert IndexOf(s, sep) == Some(0);
  }

  lemma {:induction false} SplitNotAtStart(s: string, sep: string)
    requires |sep| > 0 && s != [] && !OccursAt(s, sep, 0)
    ensures var rest := Split(s[1..], sep);
      Split(s, sep) == [[s[0]] + rest[0]] + rest[1..]
  {
    var t := s[1..];
    IndexOfLeftmost(s, sep);
    IndexOfLeftmost(t, sep);
    var r := IndexOf(s, sep);
    var q := IndexOf(t, sep);
    if r.None? {
      assert Split(t, sep) == [t];
      assert s == [s[0]] + t;
    } else {
      var i := r.value;
      OccursAtTail(s, sep, i - 1);
      var k := q.value;
      OccursAtTail(s, sep, k);
      assert k == i - 1;
      assert t[k + |sep|..] == s[i + |sep|..];
      assert Split(t, sep) == [t[..k]] + Split(s[i + |sep|..], sep);
      assert s[..i] == [s[0]] + t[..k];
    }
  }

  /** String.prototype.replace with a string pattern: only the FIRST
      occurrence is replaced. */
  function ReplaceFirst(s: string, pat: string, rep: string): string {
    match IndexOf(s, pat)
    case None => s
    case Some(i) => s[..i] + rep + s[i + |pat|..]
  }

  /** Putting the pattern back where the first occurrence was removed
      restores the original string; without an occurrence nothing changes. */
  lemma ReplaceFirstInverse(s: string, pat: string)
    ensures IndexOf(s, pat).Some? <==> Contains(s, pat)
    ensures !Contains(s, pat) ==> ReplaceFirst(s, pat, "") == s
    ensures Contains(s, pat) ==>
      var i := IndexOf(s, pat).value;
      var r := ReplaceFirst(s, pat, "");
      |r| + |pat| == |s| && r[..i] + pat + r[i..] == s
  {
    IndexOfLeftmost(s, pat);
    var found := IndexOf(s, pat);
    if found.Some? {
      var i := found.value;
      var r := ReplaceFirst(s, pat, "");
      assert r == s[..i] + s[i + |pat|..];
      assert r[..i] == s[..i];
      assert r[i..] == s[i + |pat|..];
      assert s[i..i + |pat|] == pat;
      assert s == s[..i] + s[i..i + |pat|] + s[i + |pat|..];
    }
  }
}
