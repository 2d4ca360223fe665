/** The activity pattern of the feed reader,
      `<a href=.*</a> (?P<activity>[a-zA-Z]+) <a href=.*</a>`
    applied with Python's `re.match`: the match is anchored at the start of
    the content but not at its end, `.` matches any character except a
    newline, and the first `.*` is greedy, so when several ways of splitting
    the content fit, the activity word is the one of the split whose first
    `.*` is longest.

    The pattern is stated as a predicate over splits of the content
    (`Split`, `Captures`); `MatchActivity` computes the captured word and
    `MatchActivityCorrect` proves that the two agree. */
module ActivityPattern {
  import opened Wrappers

  const Open: string := "<a href="          // 8 characters
  const Close: string := "</a>"             // 4 characters
  const BeforeWord: string := "</a> "       // 5 characters
  const AfterWord: string := " <a href="    // 9 characters

  predicate IsLetter(c: char) {
    'a' <= c <= 'z' || 'A' <= c <= 'Z'
  }

  /** `w` is matched by `[a-zA-Z]+`. */
  predicate IsWord(w: string) {
    |w| > 0 && forall k :: 0 <= k < |w| ==> IsLetter(w[k])
  }

  /** The literal `lit` occurs in `s` at position `p`. */
  predicate At(s: string, p: int, lit: string) {
    0 <= p && p + |lit| <= |s| && s[p..p + |lit|] == lit
  }

  predicate NoNewline(s: string, a: int, b: int)
    requires 0 <= a <= b <= |s|
  {
    forall t :: a <= t < b ==> s[t] != '\n'
  }

  predicate Letters(s: string, a: int, b: int)
    requires 0 <= a <= b <= |s|
  {
    forall t :: a <= t < b ==> IsLetter(s[t])
  }

  /** `.*</a>` matches `s` from position `p` on. */
  ghost predicate Tail(s: string, p: int)
    requires 0 <= p <= |s|
  {
    exists k :: p <= k && At(s, k, Close) && NoNewline(s, p, k)
  }

  /** What follows the first `.*` when it ends at `i`, with the activity
      word `s[i + 5..j]`. */
  ghost predicate SplitRest(s: string, i: int, j: int) {
    && At(s, i, BeforeWord)
    && i + 5 < j
    && At(s, j, AfterWord)
    && Letters(s, i + 5, j)
    && Tail(s, j + 9)
  }

  /** The whole pattern matches a prefix of `s`, its first `.*` spanning
      `s[8..i]` and its activity word being `s[i + 5..j]`. */
  ghost predicate Split(s: string, i: int, j: int) {
    && At(s, 0, Open)
    && 8 <= i
    && SplitRest(s, i, j)
    && NoNewline(s, 8, i)
  }

  ghost predicate Matches(s: string) {
    exists i, j :: Split(s, i, j)
  }

  /** `w` is the activity word `re.match` captures: the word of the split
      whose first `.*` is longest. */
  ghost predicate Captures(s: string, w: string) {
    exists i, j :: Split(s, i, j) && w == s[i + 5..j] && Longest(s, i)
  }

  /** No split has a longer first `.*` than the one ending at `i`. */
  ghost predicate Longest(s: string, i: int) {
    forall i', j' :: Split(s, i', j') ==> i' <= i
  }

  /** End of the longest run of letters that starts at `p`. */
  function LetterRunEnd(s: string, p: nat): (e: nat)
    requires p <= |s|
    ensures p <= e <= |s| && Letters(s, p, e)
    ensures e == |s| || !IsLetter(s[e])
    decreases |s| - p
  {
    if p < |s| && IsLetter(s[p]) then LetterRunEnd(s, p + 1) else p
  }

  /** Position of the first newline at or after `p`, or `|s|`. */
  function NewlineFrom(s: string, p: nat): (e: nat)
    requires p <= |s|
    ensures p <= e <= |s| && NoNewline(s, p, e)
    ensures e == |s| || s[e] == '\n'
    decreases |s| - p
  {
    if p < |s| && s[p] != '\n' then NewlineFrom(s, p + 1) else p
  }

  /** Whether `.*</a>` matches from `p`: a `</a>` occurs before the next newline. */
  function CloseFrom(s: string, p: nat): bool
    requires p <= |s|
    decreases |s| - p
  {
    if At(s, p, Close) then true
    else if p < |s| && s[p] != '\n' then CloseFrom(s, p + 1)
    else false
  }

  /** The activity word when the first `.*` ends at `i`, if the rest of the
      pattern matches there. */
  function WordAt(s: string, i: nat): Option<string>
    requires i <= |s|
  {
    if !At(s, i, BeforeWord) then None
    else
      var j := LetterRunEnd(s, i + 5);
      if i + 5 < j && At(s, j, AfterWord) && CloseFrom(s, j + 9) then Some(s[i + 5..j])
      else None
  }

  /** The largest end `i` in `8..hi` of the first `.*` at which the rest of
      the pattern matches: the order in which backtracking tries them. */
  function LastSplit(s: string, hi: nat): (r: Option<nat>)
    requires 8 <= hi <= |s|
    ensures r.Some? ==> 8 <= r.value <= hi && WordAt(s, r.value).Some?
    ensures r.Some? ==> forall i :: r.value < i <= hi ==> WordAt(s, i).None?
    ensures r.None? ==> forall i :: 8 <= i <= hi ==> WordAt(s, i).None?
    decreases hi
  {
    if WordAt(s, hi).Some? then Some(hi)
    else if hi == 8 then None
    else LastSplit(s, hi - 1)
  }

  /** `regex.match(content)` followed by `match.group('activity')`;
      `None` when there is no match. */
  function MatchActivity(s: string): Option<string> {
    if !At(s, 0, Open) then None
    else
      match LastSplit(s, NewlineFrom(s, 8))
      case None => None
      case Some(i) => WordAt(s, i)
  }

  lemma {:induction false} CloseFromTail(s: string, p: nat)
    requires p <= |s|
    ensures CloseFrom(s, p) <==> Tail(s, p)
    decreases |s| - p
  {
    if At(s, p, Close) {
      assert NoNewline(s, p, p);
    } else if p < |s| && s[p] != '\n' {
      CloseFromTail(s, p + 1);
      if Tail(s, p) {
        var k :| p <= k && At(s, k, Close) && NoNewline(s, p, k);
        assert k != p;
        assert NoNewline(s, p + 1, k);
      }
      if Tail(s, p + 1) {
        var k :| p + 1 <= k && At(s, k, Close) && NoNewline(s, p + 1, k);
        assert NoNewline(s, p, k);
      }
    } else {
      assert !Tail(s, p);
    }
  }

  /** Given where the first `.*` ends, the activity word is determined:
      it must be followed by a space, which is not a letter. */
  lemma SplitRestUnique(s: string, i: nat, j: int)
    requires SplitRest(s, i, j)
    ensures j == LetterRunEnd(s, i + 5)
    ensures WordAt(s, i) == Some(s[i + 5..j])
  {
    var e := LetterRunEnd(s, i + 5);
    assert s[j] == AfterWord[0] == ' ';
    assert !IsLetter(s[j]);
    assert e < |s| ==> !IsLetter(s[e]);
    CloseFromTail(s, j + 9);
  }

  lemma WordAtSplit(s: string, i: nat)
    requires i <= |s| && WordAt(s, i).Some?
    ensures SplitRest(s, i, LetterRunEnd(s, i + 5))
    ensures WordAt(s, i).value == s[i + 5..LetterRunEnd(s, i + 5)]
  {
    CloseFromTail(s, LetterRunEnd(s, i + 5) + 9);
  }

  /** A split's first `.*` cannot run past the first newline after `<a href=`. */
  lemma SplitBeforeNewline(s: string, i: int, j: int)
    requires Split(s, i, j)
    ensures i <= NewlineFrom(s, 8)
  {
    var l := NewlineFrom(s, 8);
    assert l < |s| ==> s[l] == '\n';
  }

  lemma SplitWordUnique(s: string, i: nat, j1: int, j2: int)
    requires Split(s, i, j1) && Split(s, i, j2)
    ensures j1 == j2
  {
    SplitRestUnique(s, i, j1);
    SplitRestUnique(s, i, j2);
  }

  lemma CapturesUnique(s: string, w1: string, w2: string)
    requires Captures(s, w1) && Captures(s, w2)
    ensures w1 == w2
  {
    var i1, j1 :| Split(s, i1, j1) && w1 == s[i1 + 5..j1] && Longest(s, i1);
    var i2, j2 :| Split(s, i2, j2) && w2 == s[i2 + 5..j2] && Longest(s, i2);
    assert i1 == i2;
    SplitWordUnique(s, i1, j1, j2);
  }

  lemma MatchActivitySome(s: string)
    requires MatchActivity(s).Some?
    ensures Captures(s, MatchActivity(s).value)
  {
    var l := NewlineFrom(s, 8);
    var i := LastSplit(s, l).value;
    var j := LetterRunEnd(s, i + 5);
    WordAtSplit(s, i);
    assert NoNewline(s, 8, i);
    assert Split(s, i, j);
    forall i', j' | Split(s, i', j') ensures i' <= i {
      SplitBeforeNewline(s, i', j');
      SplitRestUnique(s, i', j');
    }
  }

  lemma MatchesHasWord(s: string)
    requires Matches(s)
    ensures MatchActivity(s).Some?
  {
    var i, j :| Split(s, i, j);
    SplitBeforeNewline(s, i, j);
    SplitRestUnique(s, i, j);
  }

  /** `MatchActivity` computes exactly what `re.match` captures, and finds
      no word exactly when the pattern does not match. */
  lemma MatchActivityCorrect(s: string, w: string)
    ensures MatchActivity(s) == Some(w) <==> Captures(s, w)
    ensures MatchActivity(s).None? <==> !Matches(s)
  {
    if MatchActivity(s).Some? {
      MatchActivitySome(s);
      if Captures(s, w) {
        CapturesUnique(s, w, MatchActivity(s).value);
      }
      var i, j :| Split(s, i, j) && MatchActivity(s).value == s[i + 5..j] && Longest(s, i);
      assert Matches(s);
    } else if Matches(s) {
      MatchesHasWord(s);
    }
  }

  /** The captured word is non-empty and made of ASCII letters only; the
      content starts with `<a href=`, and the word sits between `</a> ` and
      ` <a href=`. */
  lemma ActivityWordShape(s: string, w: string)
    requires MatchActivity(s) == Some(w)
    ensures IsWord(w)
    ensures At(s, 0, Open)
    ensures exists i :: At(s, i, BeforeWord) && At(s, i + 5, w) && At(s, i + 5 + |w|, AfterWord)
  {
    var i := LastSplit(s, NewlineFrom(s, 8)).value;
    var j := LetterRunEnd(s, i + 5);
    WordAtSplit(s, i);
    assert forall k :: 0 <= k < |w| ==> w[k] == s[i + 5 + k];
    assert At(s, i + 5, w);
    assert i + 5 + |w| == j;
  }

  /** Appending text never undoes a match: `re.match` anchors at the start
      of the content only. */
  lemma SplitExtends(s: string, t: string, i: int, j: int)
    requires Split(s, i, j)
    ensures Split(s + t, i, j)
  {
    var u := s + t;
    forall p: int, lit: string | At(s, p, lit) ensures At(u, p, lit) {
      assert u[p..p + |lit|] == s[p..p + |lit|];
    }
    var k :| j + 9 <= k && At(s, k, Close) && NoNewline(s, j + 9, k);
    assert At(u, k, Close) && NoNewline(u, j + 9, k);
    assert Letters(u, i + 5, j) && NoNewline(u, 8, i);
  }

  lemma MatchIgnoresTrailing(s: string, t: string)
    requires Matches(s)
    ensures MatchActivity(s + t).Some?
  {
    var i, j :| Split(s, i, j);
    SplitExtends(s, t, i, j);
    MatchesHasWord(s + t);
  }

  /** Text without `<` and without a newline, such as the attribute value
      and the label of a link the platform writes into an activity. */
  predicate Plain(x: string) {
    forall k :: 0 <= k < |x| ==> x[k] != '<' && x[k] != '\n'
  }

  /** The content `<a href=X</a> WORD <a href=Y</a>`. */
  function ActivityText(x: string, w: string, y: string): string {
    Open + x + BeforeWord + w + AfterWord + y + Close
  }

  /** Where the pieces of an `ActivityText` lie. */
  lemma ActivityTextParts(x: string, w: string, y: string)
    ensures var s, i := ActivityText(x, w, y), 8 + |x|;
      var j := i + 5 + |w|;
      var k := j + 9 + |y|;
      && |s| == k + 4
      && s[..8] == Open && s[8..i] == x && s[i..i + 5] == BeforeWord && s[i + 5..j] == w
      && s[j..j + 9] == AfterWord && s[j + 9..k] == y && s[k..] == Close
  {
  }

  lemma ActivityTextSplit(x: string, w: string, y: string)
    requires Plain(x) && Plain(y) && IsWord(w)
    ensures Split(ActivityText(x, w, y), 8 + |x|, 13 + |x| + |w|)
    ensures ActivityText(x, w, y)[8 + |x| + 5..13 + |x| + |w|] == w
  {
    var s := ActivityText(x, w, y);
    var i := 8 + |x|;
    var j := i + 5 + |w|;
    var k := j + 9 + |y|;
    ActivityTextParts(x, w, y);
    forall t | 8 <= t < i ensures s[t] != '\n' {
      assert s[t] == s[8..i][t - 8];
    }
    forall t | j + 9 <= t < k ensures s[t] != '\n' {
      assert s[t] == s[j + 9..k][t - j - 9];
    }
    forall t | i + 5 <= t < j ensures IsLetter(s[t]) {
      assert s[t] == s[i + 5..j][t - i - 5];
    }
    assert At(s, k, Close);
  }

  /** Between the end of a plain link label at `i` and the closing `</a>`
      at `k`, no `<` is followed by `/`. */
  lemma NoClosingTagBetween(s: string, i: nat, j: nat, k: nat, t: int)
    requires i + 5 < j && j + 9 <= k < |s|
    requires s[i..i + 5] == BeforeWord && s[j..j + 9] == AfterWord
    requires Letters(s, i + 5, j) && Plain(s[j + 9..k])
    requires i < t < k
    ensures s[t] == '<' ==> s[t + 1] != '/'
  {
    if t < i + 5 {
      assert s[t] == s[i..i + 5][t - i];
    } else if t < j {
      assert IsLetter(s[t]);
    } else if t < j + 9 {
      assert s[t] == s[j..j + 9][t - j];
      assert t == j + 1 ==> s[t + 1] == s[j..j + 9][2];
    } else {
      assert s[t] == s[j + 9..k][t - j - 9];
    }
  }

  /** After the link label, the only `</` is the closing one at the end. */
  lemma NoLaterSplit(s: string, i: nat, j: nat, k: nat, i': int, j': int)
    requires i + 5 < j && j + 9 <= k && k + 4 == |s|
    requires s[i..i + 5] == BeforeWord && s[j..j + 9] == AfterWord
    requires Letters(s, i + 5, j) && Plain(s[j + 9..k])
    requires Split(s, i', j')
    ensures i' <= i
  {
    assert s[i'] == s[i'..i' + 5][0] == '<';
    assert s[i' + 1] == s[i'..i' + 5][1] == '/';
    if i < i' {
      NoClosingTagBetween(s, i, j, k, i');
    }
  }

  lemma ActivityTextNoLaterSplit(x: string, w: string, y: string, i': int, j': int)
    requires Plain(x) && Plain(y) && IsWord(w)
    requires Split(ActivityText(x, w, y), i', j')
    ensures i' <= 8 + |x|
  {
    ActivityTextSplit(x, w, y);
    ActivityTextParts(x, w, y);
    NoLaterSplit(ActivityText(x, w, y), 8 + |x|, 13 + |x| + |w|, 22 + |x| + |w| + |y|, i', j');
  }

  /** An activity whose two links have plain targets and labels yields its
      middle word. */
  lemma ActivityOfLinks(x: string, w: string, y: string)
    requires Plain(x) && Plain(y) && IsWord(w)
    ensures MatchActivity(ActivityText(x, w, y)) == Some(w)
  {
    var s := ActivityText(x, w, y);
    ActivityTextSplit(x, w, y);
    forall i', j' | Split(s, i', j') ensures i' <= 8 + |x| {
      ActivityTextNoLaterSplit(x, w, y, i', j');
    }
    assert Captures(s, w);
    MatchActivityCorrect(s, w);
  }
}
