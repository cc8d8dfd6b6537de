/** The two string operations the guess check relies on: trimming white
    space off both ends of a message, and comparing two strings without
    regard to letter case. */
module Text {

  /** The characters counted as white space when a message is trimmed:
      the ASCII controls TAB..CR, SPACE, NEL, NO-BREAK SPACE and the
      Unicode space, line and paragraph separators. */
  predicate IsSpace(c: char)
    ensures IsSpace(c) ==> !IsFoldedCapital(c)
  {
    c == ' ' || ('\t' <= c <= '\r') || c == '\U{85}' || c == '\U{A0}' ||
    c == '\U{1680}' || ('\U{2000}' <= c <= '\U{200A}') ||
    c == '\U{2028}' || c == '\U{2029}' || c == '\U{202F}' || c == '\U{205F}' ||
    c == '\U{3000}'
  }

  predicate AllSpace(s: string) {
    forall i :: 0 <= i < |s| ==> IsSpace(s[i])
  }

  /** The first index at or after `i` that does not hold white space, or
      the length of the text when there is none. */
  function SkipLeadingSpace(s: string, i: nat): (k: nat)
    requires i <= |s|
    ensures i <= k <= |s|
    ensures forall j :: i <= j < k ==> IsSpace(s[j])
    ensures k < |s| ==> !IsSpace(s[k])
    decreases |s| - i
  {
    if i < |s| && IsSpace(s[i]) then SkipLeadingSpace(s, i + 1) else i
  }

  /** Walking back from `end` but not past `start`, the end of the last
      character that is not white space, or `start` when there is none. */
  function SkipTrailingSpace(s: string, start: nat, end: nat): (k: nat)
    requires start <= end <= |s|
    ensures start <= k <= end
    ensures forall j :: k <= j < end ==> IsSpace(s[j])
    ensures k > start ==> !IsSpace(s[k - 1])
    decreases end - start
  {
    if end > start && IsSpace(s[end - 1]) then SkipTrailingSpace(s, start, end - 1) else end
  }

  /** The message with white space removed from both ends. It is empty
      exactly when the message is nothing but white space; otherwise it
      starts and ends with a visible character. */
  function Trimmed(s: string): (r: string)
    ensures |r| <= |s|
    ensures r == [] <==> AllSpace(s)
    ensures r != [] ==> !IsSpace(r[0]) && !IsSpace(r[|r| - 1])
  {
    var start := SkipLeadingSpace(s, 0);
    var end := SkipTrailingSpace(s, start, |s|);
    s[start..end]
  }

  /** Trimming cuts the message into white space, the kept text, and white
      space: the kept text is the slice of the message that starts at the
      returned index. */
  lemma TrimmedSlice(s: string) returns (i: nat, n: nat)
    ensures i + n <= |s| && n == |Trimmed(s)|
    ensures Trimmed(s) == s[i..i + n]
    ensures forall j :: 0 <= j < i ==> IsSpace(s[j])
    ensures forall j :: i + n <= j < |s| ==> IsSpace(s[j])
    ensures n > 0 ==> !IsSpace(s[i]) && !IsSpace(s[i + n - 1])
  {
    i := SkipLeadingSpace(s, 0);
    n := |Trimmed(s)|;
  }

  /** The trimmed message is fully determined by where the visible text
      lies: if the message is white space up to index `i`, white space from
      `i + n` on, and the `n` characters from `i` (if any) start and end
      with visible characters, then trimming keeps exactly those. */
  lemma TrimmedIs(s: string, i: nat, n: nat)
    requires i + n <= |s|
    requires forall j :: 0 <= j < i ==> IsSpace(s[j])
    requires forall j :: i + n <= j < |s| ==> IsSpace(s[j])
    requires n > 0 ==> !IsSpace(s[i]) && !IsSpace(s[i + n - 1])
    ensures Trimmed(s) == s[i..i + n]
  {
    var start := SkipLeadingSpace(s, 0);
    var end := SkipTrailingSpace(s, start, |s|);
    if n > 0 {
      assert start == i;
      assert end == i + n;
    } else {
      assert start == |s|;
    }
  }

  /** White space around a message does not change the trimmed message. */
  lemma TrimmedIgnoresPadding(pre: string, s: string, post: string)
    requires AllSpace(pre) && AllSpace(post)
    ensures Trimmed(pre + s + post) == Trimmed(s)
  {
    var i, n := TrimmedSlice(s);
    PaddedTrimmed(pre, s, post, i, n);
  }

  /** Trimming a padded message keeps the same slice of the message. */
  lemma PaddedTrimmed(pre: string, s: string, post: string, i: nat, n: nat)
    requires AllSpace(pre) && AllSpace(post)
    requires i + n <= |s|
    requires forall j :: 0 <= j < i ==> IsSpace(s[j])
    requires forall j :: i + n <= j < |s| ==> IsSpace(s[j])
    requires n > 0 ==> !IsSpace(s[i]) && !IsSpace(s[i + n - 1])
    ensures Trimmed(pre + s + post) == s[i..i + n]
  {
    var x := pre + s + post;
    PaddedSpace(pre, s, post, i, n);
    if n > 0 {
      assert x[|pre| + i] == s[i] && x[|pre| + i + n - 1] == s[i + n - 1];
    }
    TrimmedIs(x, |pre| + i, n);
  }

  /** The white space that surrounds the kept text of `s` is still white
      space once more of it is added on either side, and the kept text
      itself is unchanged. */
  lemma PaddedSpace(pre: string, s: string, post: string, i: nat, n: nat)
    requires AllSpace(pre) && AllSpace(post)
    requires i + n <= |s|
    requires forall j :: 0 <= j < i ==> IsSpace(s[j])
    requires forall j :: i + n <= j < |s| ==> IsSpace(s[j])
    ensures |pre| + i + n <= |pre + s + post|
    ensures forall j :: 0 <= j < |pre| + i ==> IsSpace((pre + s + post)[j])
    ensures forall j :: |pre| + i + n <= j < |pre + s + post| ==> IsSpace((pre + s + post)[j])
    ensures forall j :: i <= j < i + n ==> (pre + s + post)[|pre| + j] == s[j]
    ensures (pre + s + post)[|pre| + i..|pre| + i + n] == s[i..i + n]
  {
    var x := pre + s + post;
    forall j | 0 <= j < |pre| + i
      ensures IsSpace(x[j])
    {
      if j >= |pre| {
        assert x[j] == s[j - |pre|];
      }
    }
    forall j | |pre| + i + n <= j < |x|
      ensures IsSpace(x[j])
    {
      if j < |pre| + |s| {
        assert x[j] == s[j - |pre|];
      } else {
        assert x[j] == post[j - |pre| - |s|];
      }
    }
    assert x[|pre| + i..|pre| + i + n] == s[i..i + n] by {
      assert forall j :: i <= j < i + n ==> x[|pre| + j] == s[j];
    }
  }

  /** Trimming twice is the same as trimming once. */
  lemma TrimmedIdempotent(s: string)
    ensures Trimmed(Trimmed(s)) == Trimmed(s)
  {
    var r := Trimmed(s);
    TrimmedIs(r, 0, |r|);
    assert r[0..|r|] == r;
  }

  /** The capitals the model folds: A-Z, U+00C0-U+00DE except U+00D7,
      and the Cyrillic capitals U+0400-U+042F. */
  predicate IsFoldedCapital(c: char) {
    'A' <= c <= 'Z' || ('\U{C0}' <= c <= '\U{DE}' && c != '\U{D7}') || ('\U{400}' <= c <= '\U{42F}')
  }

  /** The simple case folding of one character: each capital of
      `IsFoldedCapital` maps to its small letter, every other character to
      itself. The result is never such a capital. */
  function FoldChar(c: char): (f: char)
    ensures f != c <==> IsFoldedCapital(c)
    ensures !IsFoldedCapital(f)
    ensures IsFoldedCapital(c) ==> c < f
  {
    if !IsFoldedCapital(c) then c
    else if '\U{400}' <= c <= '\U{40F}' then (c as int + 80) as char
    else (c as int + 32) as char
  }

  /** Two different capitals never fold to the same small letter. */
  lemma FoldCharDistinguishesCapitals(c: char, d: char)
    requires IsFoldedCapital(c) && IsFoldedCapital(d) && c != d
    ensures FoldChar(c) != FoldChar(d)
  {
  }

  /** Two characters are the same letter up to case: equal, or one is the
      capital whose small letter is the other. */
  predicate SameLetter(c: char, d: char) {
    c == d || FoldChar(c) == d || FoldChar(d) == c
  }

  /** Folding matches exactly the case pairs: two characters fold alike
      if and only if they are the same letter up to case. */
  lemma FoldCharAlike(c: char, d: char)
    ensures FoldChar(c) == FoldChar(d) <==> SameLetter(c, d)
  {
    if IsFoldedCapital(c) && IsFoldedCapital(d) && c != d {
      FoldCharDistinguishesCapitals(c, d);
    }
  }

  /** A string folded character by character: same length, no capital left,
      and every character that is not a capital kept in place. */
  function FoldCase(s: string): (r: string)
    ensures |r| == |s|
    ensures forall i :: 0 <= i < |r| ==> !IsFoldedCapital(r[i])
    ensures forall i :: 0 <= i < |s| && !IsFoldedCapital(s[i]) ==> r[i] == s[i]
  {
    seq(|s|, i requires 0 <= i < |s| => FoldChar(s[i]))
  }

  /** Case-insensitive equality: both strings fold to the same text. Strings
      of different lengths never compare equal. */
  predicate EqualsIgnoringCase(a: string, b: string)
    ensures EqualsIgnoringCase(a, b) ==> |a| == |b|
  {
    FoldCase(a) == FoldCase(b)
  }

  /** Two strings are equal ignoring case exactly when they have the same
      length and their characters fold alike position by position. */
  lemma EqualsIgnoringCaseByChar(a: string, b: string)
    ensures EqualsIgnoringCase(a, b) <==>
      |a| == |b| && forall i :: 0 <= i < |a| ==> FoldChar(a[i]) == FoldChar(b[i])
  {
    if |a| == |b| && forall i :: 0 <= i < |a| ==> FoldChar(a[i]) == FoldChar(b[i]) {
      assert forall i :: 0 <= i < |a| ==> FoldCase(a)[i] == FoldCase(b)[i];
    }
    if EqualsIgnoringCase(a, b) {
      forall i | 0 <= i < |a|
        ensures FoldChar(a[i]) == FoldChar(b[i])
      {
        assert FoldCase(a)[i] == FoldCase(b)[i];
      }
    }
  }

  /** The guess check is an exact match ignoring case: two strings compare
      equal exactly when they have the same length and each position holds
      the same letter up to case. */
  lemma EqualsIgnoringCaseExactly(a: string, b: string)
    ensures EqualsIgnoringCase(a, b) <==>
      |a| == |b| && forall i :: 0 <= i < |a| ==> SameLetter(a[i], b[i])
  {
    EqualsIgnoringCaseByChar(a, b);
    if |a| == |b| {
      forall i | 0 <= i < |a|
        ensures FoldChar(a[i]) == FoldChar(b[i]) <==> SameLetter(a[i], b[i])
      {
        FoldCharAlike(a[i], b[i]);
      }
    }
  }

  /** Folding a folded string changes nothing, so a string compares equal,
      ignoring case, to its own folded form. */
  lemma FoldCaseIdempotent(s: string)
    ensures FoldCase(FoldCase(s)) == FoldCase(s)
    ensures EqualsIgnoringCase(s, FoldCase(s))
  {
    forall i | 0 <= i < |s|
      ensures FoldCase(FoldCase(s))[i] == FoldCase(s)[i]
    {
      FoldCharIdempotent(s[i]);
    }
  }

  lemma FoldCharIdempotent(c: char)
    ensures FoldChar(FoldChar(c)) == FoldChar(c)
  {
  }

  lemma FoldCharKeepsSpace(c: char)
    ensures IsSpace(FoldChar(c)) == IsSpace(c)
  {
  }

  /** Folding never turns white space into a visible character or the other
      way round, so trimming and folding commute. */
  lemma TrimmedFoldCase(s: string)
    ensures Trimmed(FoldCase(s)) == FoldCase(Trimmed(s))
  {
    var i, n := TrimmedSlice(s);
    FoldedTrimmed(s, i, n);
  }

  /** Trimming a folded message keeps the folded slice. */
  lemma FoldedTrimmed(s: string, i: nat, n: nat)
    requires i + n <= |s|
    requires forall j :: 0 <= j < i ==> IsSpace(s[j])
    requires forall j :: i + n <= j < |s| ==> IsSpace(s[j])
    requires n > 0 ==> !IsSpace(s[i]) && !IsSpace(s[i + n - 1])
    ensures Trimmed(FoldCase(s)) == FoldCase(s[i..i + n])
  {
    var f := FoldCase(s);
    FoldedSpace(s, i, n);
    TrimmedIs(f, i, n);
  }

  /** Folding keeps white space where it was and folds the kept text. */
  lemma FoldedSpace(s: string, i: nat, n: nat)
    requires i + n <= |s|
    requires forall j :: 0 <= j < i ==> IsSpace(s[j])
    requires forall j :: i + n <= j < |s| ==> IsSpace(s[j])
    requires n > 0 ==> !IsSpace(s[i]) && !IsSpace(s[i + n - 1])
    ensures |FoldCase(s)| == |s|
    ensures forall j :: 0 <= j < i ==> IsSpace(FoldCase(s)[j])
    ensures forall j :: i + n <= j < |s| ==> IsSpace(FoldCase(s)[j])
    ensures n > 0 ==> !IsSpace(FoldCase(s)[i]) && !IsSpace(FoldCase(s)[i + n - 1])
    ensures FoldCase(s)[i..i + n] == FoldCase(s[i..i + n])
  {
    forall j | 0 <= j < |s|
      ensures IsSpace(FoldCase(s)[j]) == IsSpace(s[j])
    {
      FoldCharKeepsSpace(s[j]);
    }
  }
}
