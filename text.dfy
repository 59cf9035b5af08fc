/**
  The three Python string operations the pipeline relies on: `str.strip()`,
  `str.split(sep)` with a one-character separator, and `sep.join(parts)`.

  Whitespace is the ASCII part of what Python's `str.isspace()` accepts; the
  non-ASCII whitespace characters are not modelled.
 */
module Text {

  /** Python's `str.isspace()` on ASCII characters: space, \t \n \v \f \r and
      the four separators \x1c..\x1f. */
  predicate IsSpace(c: char) {
    c == ' ' || ('\t' <= c <= '\r') || ('\U{1C}' <= c <= '\U{1F}')
  }

  /** Every character of `s` is whitespace (`s.strip() == ""` in Python). */
  predicate Blank(s: string) {
    forall k :: 0 <= k < |s| ==> IsSpace(s[k])
  }

  /** `s` holds no `c`. */
  predicate Lacks(s: string, c: char) {
    forall k :: 0 <= k < |s| ==> s[k] != c
  }

  /** `s` neither starts nor ends with whitespace. */
  predicate IsStripped(s: string) {
    s == [] || (!IsSpace(s[0]) && !IsSpace(s[|s| - 1]))
  }

  /** `s.lstrip()`: what is left of `s` once its leading whitespace is gone. */
  function StripLeft(s: string): (r: string)
    ensures |r| <= |s|
    ensures r == [] || !IsSpace(r[0])
  {
    if s != [] && IsSpace(s[0]) then StripLeft(s[1..]) else s
  }

  /** `s.rstrip()`: what is left of `s` once its trailing whitespace is gone. */
  function StripRight(s: string): (r: string)
    ensures |r| <= |s|
    ensures r == [] || !IsSpace(r[|r| - 1])
  {
    if s != [] && IsSpace(s[|s| - 1]) then StripRight(s[..|s| - 1]) else s
  }

  /** `lstrip` keeps a suffix of the string. */
  lemma {:induction false} StripLeftSuffix(s: string)
    ensures StripLeft(s) == s[|s| - |StripLeft(s)|..]
  {
    if s != [] && IsSpace(s[0]) {
      StripLeftSuffix(s[1..]);
    }
  }

  /** `rstrip` keeps a prefix of the string. */
  lemma {:induction false} StripRightPrefix(s: string)
    ensures StripRight(s) == s[..|StripRight(s)|]
  {
    if s != [] && IsSpace(s[|s| - 1]) {
      StripRightPrefix(s[..|s| - 1]);
    }
  }

  /** `lstrip` removes whitespace only. */
  lemma {:induction false} StripLeftRemovesSpace(s: string)
    ensures Blank(s[..|s| - |StripLeft(s)|])
  {
    if s != [] && IsSpace(s[0]) {
      var r := StripLeft(s[1..]);
      StripLeftRemovesSpace(s[1..]);
      assert s[..|s| - |r|] == [s[0]] + s[1..][..|s| - 1 - |r|];
    }
  }

  /** `rstrip` removes whitespace only. */
  lemma {:induction false} StripRightRemovesSpace(s: string)
    ensures Blank(s[|StripRight(s)|..])
  {
    if s != [] && IsSpace(s[|s| - 1]) {
      var r := StripRight(s[..|s| - 1]);
      StripRightRemovesSpace(s[..|s| - 1]);
      assert s[|r|..] == s[..|s| - 1][|r|..] + [s[|s| - 1]];
    }
  }

  /** `strip` cuts `s` into leading whitespace, the result, and trailing
      whitespace. */
  lemma StripRemovesSpace(s: string)
    ensures var i := |s| - |StripLeft(s)|;
      i + |Strip(s)| <= |s| && Strip(s) == s[i..i + |Strip(s)|]
      && Blank(s[..i]) && Blank(s[i + |Strip(s)|..])
  {
    var l := StripLeft(s);
    StripLeftSuffix(s);
    StripRightPrefix(l);
    StripLeftRemovesSpace(s);
    StripRightRemovesSpace(l);
    TrimmedSuffix(s, l, Strip(s));
  }

  /** A prefix `r` of the suffix `l` of `s`, followed in `l` by whitespace
      only, is a slice of `s` followed in `s` by whitespace only. */
  lemma TrimmedSuffix(s: string, l: string, r: string)
    requires |l| <= |s| && l == s[|s| - |l|..]
    requires |r| <= |l| && r == l[..|r|] && Blank(l[|r|..])
    ensures var i := |s| - |l|; r == s[i..i + |r|] && Blank(s[i + |r|..])
  {
    SliceOfSuffix(s, |s| - |l|, |r|);
  }

  /** Slicing the suffix of `s` from `i` is slicing `s` itself, shifted by `i`. */
  lemma SliceOfSuffix(s: string, i: nat, m: nat)
    requires i + m <= |s|
    ensures s[i..][..m] == s[i..i + m] && s[i..][m..] == s[i + m..]
  {
  }

  /** `s.strip()`: `s` without its leading and trailing whitespace. */
  function Strip(s: string): (r: string)
    ensures IsStripped(r)
  {
    var l := StripLeft(s);
    var r := StripRight(l);
    StripRightPrefix(l);
    assert r != [] ==> r[0] == l[0];
    r
  }

  /** `s.strip()` is empty exactly when `s` is blank. */
  lemma StripEmpty(s: string)
    ensures Strip(s) == [] <==> Blank(s)
  {
    var l := StripLeft(s);
    StripLeftBlank(s);
    StripRightBlank(l);
    assert l == [] <==> Blank(l);
  }

  /** `lstrip` leaves nothing exactly when the string is blank. */
  lemma {:induction false} StripLeftBlank(s: string)
    ensures StripLeft(s) == [] <==> Blank(s)
  {
    if s != [] {
      if IsSpace(s[0]) {
        StripLeftBlank(s[1..]);
        assert forall k :: 1 <= k < |s| ==> s[k] == s[1..][k - 1];
      } else {
        assert !IsSpace(s[0]);
      }
    }
  }

  /** `rstrip` leaves nothing exactly when the string is blank. */
  lemma {:induction false} StripRightBlank(s: string)
    ensures StripRight(s) == [] <==> Blank(s)
  {
    if s != [] {
      var n := |s| - 1;
      if IsSpace(s[n]) {
        StripRightBlank(s[..n]);
        assert forall k :: 0 <= k < n ==> s[k] == s[..n][k];
      } else {
        assert !IsSpace(s[n]);
      }
    }
  }

  /** Stripping a string that is already stripped changes nothing, so `strip`
      is idempotent. */
  lemma StripStripped(s: string)
    requires IsStripped(s)
    ensures Strip(s) == s
  {
  }

  /** Number of occurrences of `c` in `s`. */
  function Count(s: string, c: char): nat {
    if s == [] then 0 else (if s[0] == c then 1 else 0) + Count(s[1..], c)
  }

  /** Index of the first `c` in `s`, or `|s|` when there is none. */
  function LineEnd(s: string, c: char): (n: nat)
    ensures n <= |s|
    ensures n < |s| ==> s[n] == c
  {
    if s == [] || s[0] == c then 0 else 1 + LineEnd(s[1..], c)
  }

  /** No `c` comes before `LineEnd(s, c)`, so it is the first one, and it is
      `|s|` exactly when there is none. */
  lemma {:induction false} LineEndFirst(s: string, c: char)
    ensures Lacks(s[..LineEnd(s, c)], c)
    ensures LineEnd(s, c) == |s| <==> Lacks(s, c)
  {
    if s != [] && s[0] != c {
      LineEndFirst(s[1..], c);
      assert s[..LineEnd(s, c)] == [s[0]] + s[1..][..LineEnd(s[1..], c)];
    }
  }

  /** `s.split(c)` in Python: the pieces of `s` between occurrences of `c`.
      There is always one piece more than there are separators, so the list is
      never empty, and no piece contains the separator. */
  function Split(s: string, c: char): (r: seq<string>)
    ensures |r| == Count(s, c) + 1
  {
    if s == [] then [[]]
    else
      var rest := Split(s[1..], c);
      if s[0] == c then [[]] + rest else [[s[0]] + rest[0]] + rest[1..]
  }

  /** The total length of the pieces. */
  function TotalLength(parts: seq<string>): nat {
    if parts == [] then 0 else |parts[0]| + TotalLength(parts[1..])
  }

  /** `sep.join(parts)` in Python: every piece once, with one separator
      between each two neighbours and none elsewhere. */
  function Join(parts: seq<string>, sep: string): (r: string)
    ensures parts != [] ==> |r| == TotalLength(parts) + |sep| * (|parts| - 1)
  {
    if |parts| == 0 then []
    else if |parts| == 1 then parts[0]
    else parts[0] + sep + Join(parts[1..], sep)
  }

  /** A join starts with the first piece and ends with the last one: there is
      no separator before the first piece or after the last. */
  lemma {:induction false} JoinEnds(parts: seq<string>, sep: string)
    requires parts != []
    ensures var r := Join(parts, sep); var last := parts[|parts| - 1];
      |parts[0]| <= |r| && r[..|parts[0]|] == parts[0]
      && |last| <= |r| && r[|r| - |last|..] == last
  {
    if |parts| > 1 {
      JoinEnds(parts[1..], sep);
      var r := Join(parts, sep);
      var tail := Join(parts[1..], sep);
      assert r == parts[0] + sep + tail;
      assert r[|r| - |tail|..] == tail;
    }
  }

  /** No piece of a split holds the separator. */
  lemma {:induction false} SplitPieces(s: string, c: char)
    ensures forall k :: 0 <= k < |Split(s, c)| ==> Lacks(Split(s, c)[k], c)
  {
    if s != [] {
      SplitPieces(s[1..], c);
    }
  }

  /** The first piece of a split is the text before the first separator. */
  lemma {:induction false} SplitFirst(s: string, c: char)
    ensures Split(s, c)[0] == s[..LineEnd(s, c)]
  {
    if s != [] && s[0] != c {
      SplitFirst(s[1..], c);
    }
  }

  /** The text after the first separator. */
  function Rest(s: string, c: char): string
    requires LineEnd(s, c) < |s|
  {
    s[LineEnd(s, c) + 1..]
  }

  /** The pieces after the first are the split of the text after the first
      separator, which holds one separator less. */
  lemma {:induction false} SplitRest(s: string, c: char)
    requires LineEnd(s, c) < |s|
    ensures Split(s, c)[1..] == Split(Rest(s, c), c)
    ensures Count(Rest(s, c), c) == Count(s, c) - 1
  {
    if s[0] != c {
      SplitRest(s[1..], c);
      assert Rest(s, c) == Rest(s[1..], c);
    }
  }

  /** Joining the pieces of a split with the separator gives back the string. */
  lemma {:induction false} JoinSplit(s: string, c: char)
    ensures Join(Split(s, c), [c]) == s
  {
    if s != [] {
      var rest := Split(s[1..], c);
      JoinSplit(s[1..], c);
      if s[0] == c {
        JoinCons([], rest, [c]);
      } else {
        JoinExtendFirst([s[0]], rest, [c]);
      }
      assert s == [s[0]] + s[1..];
    }
  }

  /** Joining one more part at the front adds it and one separator. */
  lemma JoinCons(x: string, parts: seq<string>, sep: string)
    requires parts != []
    ensures Join([x] + parts, sep) == x + sep + Join(parts, sep)
  {
    assert ([x] + parts)[1..] == parts;
  }

  /** Extending the first part extends the join at the front. */
  lemma JoinExtendFirst(a: string, parts: seq<string>, sep: string)
    requires parts != []
    ensures Join([a + parts[0]] + parts[1..], sep) == a + Join(parts, sep)
  {
    var q := [a + parts[0]] + parts[1..];
    assert q[1..] == parts[1..];
    if |parts| > 1 {
      assert Join(q, sep) == (a + parts[0]) + sep + Join(parts[1..], sep);
    }
  }

  /** Splitting pieces joined by the separator gives back every piece but the
      last, which is split in turn, provided none of the others holds the
      separator. */
  lemma {:induction false} SplitJoinFront(parts: seq<string>, c: char)
    requires parts != []
    requires forall k :: 0 <= k < |parts| - 1 ==> Lacks(parts[k], c)
    ensures Split(Join(parts, [c]), c) == parts[..|parts| - 1] + Split(parts[|parts| - 1], c)
  {
    if |parts| > 1 {
      LacksInTail(parts, c);
      SplitJoinFront(parts[1..], c);
      SplitJoinStep(parts, c);
      Regroup(parts);
      CombineFront(parts, Split(parts[|parts| - 1], c));
    }
  }

  /** The first element, then the middle of the others, then `last`, is every
      element but the last, then `last`. */
  lemma CombineFront(parts: seq<string>, last: seq<string>)
    requires |parts| > 1
    ensures [parts[0]] + (parts[1..][..|parts| - 2] + last) == parts[..|parts| - 1] + last
  {
    Regroup(parts);
  }

  /** What the precondition of `SplitJoinFront` says of the first piece and
      of the pieces after it. */
  lemma LacksInTail(parts: seq<string>, c: char)
    requires |parts| > 1
    requires forall k :: 0 <= k < |parts| - 1 ==> Lacks(parts[k], c)
    ensures Lacks(parts[0], c)
    ensures forall k :: 0 <= k < |parts[1..]| - 1 ==> Lacks(parts[1..][k], c)
  {
    assert forall k :: 0 <= k < |parts| - 2 ==> parts[1..][k] == parts[k + 1];
  }

  /** Dropping the last element commutes with taking off the first. */
  lemma Regroup(parts: seq<string>)
    requires |parts| > 1
    ensures parts[..|parts| - 1] == [parts[0]] + parts[1..][..|parts| - 2]
    ensures parts[1..][|parts| - 2] == parts[|parts| - 1]
  {
  }

  /** The first of several joined pieces splits off on its own. */
  lemma SplitJoinStep(parts: seq<string>, c: char)
    requires |parts| > 1 && Lacks(parts[0], c)
    ensures Split(Join(parts, [c]), c) == [parts[0]] + Split(Join(parts[1..], [c]), c)
  {
    SplitAfterPiece(parts[0], Join(parts[1..], [c]), c);
  }

  /** Splitting separator-free pieces joined by the separator gives back the
      pieces. */
  lemma SplitJoin(parts: seq<string>, c: char)
    requires parts != []
    requires forall k :: 0 <= k < |parts| ==> Lacks(parts[k], c)
    ensures Split(Join(parts, [c]), c) == parts
  {
    SplitJoinFront(parts, c);
    SplitNoSeparator(parts[|parts| - 1], c);
    ReplaceLast(parts, Split(parts[|parts| - 1], c));
  }

  /** Putting back the last element after the others gives the sequence. */
  lemma ReplaceLast(parts: seq<string>, tail: seq<string>)
    requires parts != [] && tail == [parts[|parts| - 1]]
    ensures parts[..|parts| - 1] + tail == parts
  {
  }

  /** A separator-free piece followed by the separator splits off as one piece. */
  lemma {:induction false} SplitAfterPiece(a: string, b: string, c: char)
    requires Lacks(a, c)
    ensures Split(a + [c] + b, c) == [a] + Split(b, c)
  {
    if a == [] {
      assert a + [c] + b == [c] + b;
      assert ([c] + b)[1..] == b;
    } else {
      SplitAfterPiece(a[1..], b, c);
      assert (a + [c] + b)[1..] == a[1..] + [c] + b;
      assert [a[0]] + a[1..] == a;
    }
  }

  /** A string without the separator splits into itself alone. */
  lemma {:induction false} SplitNoSeparator(s: string, c: char)
    requires Lacks(s, c)
    ensures Split(s, c) == [s]
  {
    if s != [] {
      SplitNoSeparator(s[1..], c);
      assert [s[0]] + s[1..] == s;
    }
  }

  /** The text left after dropping the first `k` lines of `s` ("" once there
      are no more lines). */
  function DropLines(s: string, c: char, k: nat): string {
    if k == 0 then s
    else if LineEnd(s, c) == |s| then []
    else DropLines(Rest(s, c), c, k - 1)
  }

  /** Re-joining the pieces from index `k` on gives the text after the first
      `k` lines. */
  lemma {:induction false} JoinSplitFrom(s: string, c: char, k: nat)
    requires k <= Count(s, c)
    ensures Join(Split(s, c)[k..], [c]) == DropLines(s, c, k)
  {
    if k == 0 {
      JoinSplit(s, c);
    } else {
      CountPositive(s, c);
      SplitRest(s, c);
      assert Split(s, c)[k..] == Split(Rest(s, c), c)[k - 1..];
      JoinSplitFrom(Rest(s, c), c, k - 1);
    }
  }

  /** A string with a positive count of `c` holds `c`. */
  lemma {:induction false} CountPositive(s: string, c: char)
    requires Count(s, c) > 0
    ensures LineEnd(s, c) < |s|
  {
    if s[0] != c {
      CountPositive(s[1..], c);
    }
  }

  /** The first line of what is left after dropping `k` lines is the piece at
      index `k` of the split. */
  lemma {:induction false} SplitAt(s: string, c: char, k: nat)
    requires k <= Count(s, c)
    ensures Split(s, c)[k] == DropLines(s, c, k)[..LineEnd(DropLines(s, c, k), c)]
  {
    if k == 0 {
      SplitFirst(s, c);
    } else {
      CountPositive(s, c);
      var t := Rest(s, c);
      SplitRest(s, c);
      assert DropLines(s, c, k) == DropLines(t, c, k - 1);
      assert Split(s, c)[k] == Split(t, c)[k - 1];
      SplitAt(t, c, k - 1);
    }
  }
}
