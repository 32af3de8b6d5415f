/** Word counting as `count_words` does it: the number of tokens that
    Python's `str.split()` (no separator argument) yields. */
module Words {

  /** The characters Python's `str.isspace()` accepts, which are the ones
      `str.split()` treats as whitespace: the ASCII controls TAB..CR and
      FS..US, space, NEL, NO-BREAK SPACE and the Unicode space separators. */
  predicate IsSpace(c: char) {
    var n := c as int;
    || (0x09 <= n <= 0x0D)
    || (0x1C <= n <= 0x20)
    || n == 0x85 || n == 0xA0 || n == 0x1680
    || (0x2000 <= n <= 0x200A)
    || n == 0x2028 || n == 0x2029 || n == 0x202F || n == 0x205F || n == 0x3000
  }

  /** A token of `str.split()`: non-empty, without whitespace. */
  predicate IsWord(w: string) {
    w != [] && forall i :: 0 <= i < |w| ==> !IsSpace(w[i])
  }

  /** Length of the leading run of non-whitespace characters of `s`. */
  function TokenLength(s: string): (n: nat)
    ensures n <= |s|
    ensures forall i :: 0 <= i < n ==> !IsSpace(s[i])
    ensures n < |s| ==> IsSpace(s[n])
  {
    if s == [] || IsSpace(s[0]) then 0 else 1 + TokenLength(s[1..])
  }

  /** `s.split()`: skip whitespace, take the maximal run that follows, repeat.
      Runs of whitespace separate tokens and whitespace at either end gives
      no empty token. */
  function Split(s: string): (r: seq<string>)
    ensures forall k :: 0 <= k < |r| ==> IsWord(r[k])
    decreases |s|
  {
    if s == [] then []
    else if IsSpace(s[0]) then Split(s[1..])
    else
      var n := TokenLength(s);
      [s[..n]] + Split(s[n..])
  }

  /** `count_words(text)` is `len(text.split())`: the number of maximal
      runs of non-whitespace characters. */
  function CountWords(text: string): (n: nat)
    ensures n == Runs(text)
  {
    SplitIsRuns(text);
    |Split(text)|
  }

  /** Position `i` is the last character of a maximal non-whitespace run. */
  predicate EndsRun(s: string, i: nat)
    requires i < |s|
  {
    !IsSpace(s[i]) && (i + 1 == |s| || IsSpace(s[i + 1]))
  }

  /** Independent reference: count, character by character, the positions
      that end a maximal non-whitespace run. */
  function Runs(s: string): nat {
    if s == [] then 0
    else (if EndsRun(s, 0) then 1 else 0) + Runs(s[1..])
  }

  /** The words joined by single spaces, `" ".join(ws)`. */
  function Join(ws: seq<string>): string {
    if ws == [] then []
    else if |ws| == 1 then ws[0]
    else ws[0] + [' '] + Join(ws[1..])
  }

  /** Skipping a leading token removes exactly one run end. */
  lemma {:induction false} RunsSkipToken(s: string)
    requires s != [] && !IsSpace(s[0])
    ensures Runs(s) == 1 + Runs(s[TokenLength(s)..])
    decreases |s|
  {
    if |s| == 1 || IsSpace(s[1]) {
      assert TokenLength(s[1..]) == 0;
    } else {
      assert !EndsRun(s, 0);
      RunsSkipToken(s[1..]);
      assert s[1..][TokenLength(s[1..])..] == s[TokenLength(s)..];
    }
  }

  /** `str.split()` yields one token per maximal non-whitespace run. */
  lemma {:induction false} SplitIsRuns(s: string)
    ensures |Split(s)| == Runs(s)
    decreases |s|
  {
    if s == [] {
    } else if IsSpace(s[0]) {
      assert !EndsRun(s, 0);
      SplitIsRuns(s[1..]);
    } else {
      RunsSkipToken(s);
      SplitIsRuns(s[TokenLength(s)..]);
    }
  }

  /** No words exactly when every character is whitespace (the empty string
      included). */
  lemma {:induction false} CountWordsZero(s: string)
    ensures CountWords(s) == 0 <==> forall i :: 0 <= i < |s| ==> IsSpace(s[i])
    decreases |s|
  {
    if s != [] && IsSpace(s[0]) {
      CountWordsZero(s[1..]);
      assert (forall i :: 0 <= i < |s| ==> IsSpace(s[i]))
         <==> (forall i :: 0 <= i < |s[1..]| ==> IsSpace(s[1..][i]));
    }
  }

  /** Run ends of a text made of two texts separated by one whitespace
      character add up. */
  lemma {:induction false} RunsJoin(a: string, c: char, b: string)
    requires IsSpace(c)
    ensures Runs(a + [c] + b) == Runs(a) + Runs(b)
    decreases |a|
  {
    var s := a + [c] + b;
    if a == [] {
      assert s[1..] == b;
      assert !EndsRun(s, 0);
    } else {
      assert s[1..] == a[1..] + [c] + b;
      assert EndsRun(s, 0) == EndsRun(a, 0);
      RunsJoin(a[1..], c, b);
    }
  }

  /** Joining two texts with a whitespace character adds their word counts. */
  lemma JoinAddsCounts(a: string, c: char, b: string)
    requires IsSpace(c)
    ensures CountWords(a + [c] + b) == CountWords(a) + CountWords(b)
  {
    RunsJoin(a, c, b);
  }

  /** A word followed by nothing or by whitespace is one whole token. */
  lemma {:induction false} TokenLengthOfWord(w: string, rest: string)
    requires forall i :: 0 <= i < |w| ==> !IsSpace(w[i])
    requires rest == [] || IsSpace(rest[0])
    ensures TokenLength(w + rest) == |w|
    decreases |w|
  {
    if w != [] {
      assert (w + rest)[1..] == w[1..] + rest;
      TokenLengthOfWord(w[1..], rest);
    }
  }

  /** `" ".join(ws).split() == ws` for a list of words. */
  lemma {:induction false} SplitJoin(ws: seq<string>)
    requires forall k :: 0 <= k < |ws| ==> IsWord(ws[k])
    ensures Split(Join(ws)) == ws
    decreases |ws|
  {
    if ws == [] {
    } else {
      var w := ws[0];
      var rest := if |ws| == 1 then [] else [' '] + Join(ws[1..]);
      assert Join(ws) == w + rest;
      TokenLengthOfWord(w, rest);
      assert (w + rest)[..|w|] == w;
      assert (w + rest)[|w|..] == rest;
      if |ws| > 1 {
        assert rest[1..] == Join(ws[1..]);
        SplitJoin(ws[1..]);
      }
    }
  }
}
