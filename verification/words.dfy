/**
 * Word counting as done by `Translation.wordcount` (transifex/happix/models.py),
 * which returns the length of `string.split(None)`: Python's split on runs of
 * whitespace, with leading and trailing whitespace ignored.
 */
module Words {

  /** Python 2.7's `unicode.isspace` (Unicode 5.2 character database). */
  predicate IsSpace(c: char) {
    var n := c as int;
    (0x09 <= n <= 0x0d) || (0x1c <= n <= 0x20) || n == 0x85 || n == 0xa0
    || n == 0x1680 || n == 0x180e || (0x2000 <= n <= 0x200a)
    || n == 0x2028 || n == 0x2029 || n == 0x202f || n == 0x205f || n == 0x3000
  }

  /** The first index at or after i that is not whitespace (or |s|). */
  function SkipSpace(s: string, i: nat): (j: nat)
    requires i <= |s|
    ensures i <= j <= |s|
    ensures forall k :: i <= k < j ==> IsSpace(s[k])
    ensures j < |s| ==> !IsSpace(s[j])
    decreases |s| - i
  {
    if i == |s| || !IsSpace(s[i]) then i else SkipSpace(s, i + 1)
  }

  /** The first index at or after i that is whitespace (or |s|). */
  function SkipWord(s: string, i: nat): (j: nat)
    requires i <= |s|
    ensures i <= j <= |s|
    ensures forall k :: i <= k < j ==> !IsSpace(s[k])
    ensures j < |s| ==> IsSpace(s[j])
    decreases |s| - i
  {
    if i == |s| || IsSpace(s[i]) then i else SkipWord(s, i + 1)
  }

  /** The tokens of s[i..], split on whitespace runs. */
  function TokensFrom(s: string, i: nat): (ws: seq<string>)
    requires i <= |s|
    ensures forall w :: w in ws ==> w != [] && forall c :: c in w ==> !IsSpace(c)
    decreases |s| - i
  {
    var j := SkipSpace(s, i);
    if j == |s| then []
    else
      var k := SkipWord(s, j);
      [s[j..k]] + TokensFrom(s, k)
  }

  /** `s.split(None)` */
  function Split(s: string): (ws: seq<string>)
  {
    TokensFrom(s, 0)
  }

  /**
   * `Translation.wordcount`: the number of tokens of `s.split(None)`. It is 0
   * exactly when the text is empty or all whitespace.
   */
  function WordCount(s: string): (n: nat)
    ensures n == 0 <==> forall k :: 0 <= k < |s| ==> IsSpace(s[k])
  {
    assert SkipSpace(s, 0) < |s| ==> |Split(s)| >= 1;
    |Split(s)|
  }

  /** Position k begins a maximal run of non-whitespace characters. */
  predicate RunStart(s: string, k: nat)
    requires k < |s|
  {
    !IsSpace(s[k]) && (k == 0 || IsSpace(s[k - 1]))
  }

  /** The number of run starts at positions i, i+1, ..., |s|-1. */
  function RunStartsFrom(s: string, i: nat): nat
    requires i <= |s|
    decreases |s| - i
  {
    if i == |s| then 0
    else (if RunStart(s, i) then 1 else 0) + RunStartsFrom(s, i + 1)
  }

  lemma {:induction false} NoRunStartsInSpace(s: string, i: nat, j: nat)
    requires i <= j <= |s|
    requires forall k :: i <= k < j ==> IsSpace(s[k])
    ensures RunStartsFrom(s, i) == RunStartsFrom(s, j)
    decreases j - i
  {
    if i < j {
      NoRunStartsInSpace(s, i + 1, j);
    }
  }

  lemma {:induction false} NoRunStartsInsideWord(s: string, i: nat, j: nat)
    requires 0 < i <= j <= |s|
    requires forall k :: i - 1 <= k < j ==> !IsSpace(s[k])
    ensures RunStartsFrom(s, i) == RunStartsFrom(s, j)
    decreases j - i
  {
    if i < j {
      NoRunStartsInsideWord(s, i + 1, j);
    }
  }

  /** Splitting from a token boundary yields one token per run start. */
  lemma {:induction false} TokensAreRuns(s: string, i: nat)
    requires i <= |s|
    requires i == 0 || i == |s| || IsSpace(s[i - 1]) || IsSpace(s[i])
    ensures |TokensFrom(s, i)| == RunStartsFrom(s, i)
    decreases |s| - i
  {
    var j := SkipSpace(s, i);
    NoRunStartsInSpace(s, i, j);
    if j < |s| {
      assert RunStart(s, j);
      var k := SkipWord(s, j);
      NoRunStartsInsideWord(s, j + 1, k);
      TokensAreRuns(s, k);
    }
  }

  /**
   * The word count is the number of maximal non-whitespace runs, so a run of
   * several whitespace characters separates words exactly like one does.
   */
  lemma WordCountIsRunCount(s: string)
    ensures WordCount(s) == RunStartsFrom(s, 0)
  {
    TokensAreRuns(s, 0);
  }
}
