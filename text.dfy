/** Character classes, decimal numbers and the leftmost-match search that stand in for
    the Ruby regular expressions and conversions used by the scan parser and the
    descriptor grammar. */
module Text {
  import opened Wrappers

  /** Ruby's `\d`: an ASCII decimal digit. */
  predicate IsDigit(c: char) { '0' <= c <= '9' }

  predicate AllDigits(s: string) { forall i :: 0 <= i < |s| ==> IsDigit(s[i]) }

  /** White space as Ruby's `String#split(' ')` understands it. */
  predicate IsSpace(c: char) { c == ' ' || c == '\t' || c == '\n' || c == '\U{000B}' || c == '\U{000C}' || c == '\r' }

  function DigitValue(c: char): nat
    requires IsDigit(c)
  {
    c as int - '0' as int
  }

  /** `String#to_i` of a run of decimal digits (leading zeros allowed). */
  function DigitsValue(s: string): nat
    requires AllDigits(s)
  {
    if s == [] then 0 else DigitsValue(s[..|s| - 1]) * 10 + DigitValue(s[|s| - 1])
  }

  /** Length of the maximal run of digits starting at position i: what a greedy `\d+`
      or `\d*` consumes there. */
  function DigitRun(s: string, i: nat): (n: nat)
    requires i <= |s|
    ensures i + n <= |s|
    ensures forall k :: i <= k < i + n ==> IsDigit(s[k])
    ensures i + n < |s| ==> !IsDigit(s[i + n])
    decreases |s| - i
  {
    if i < |s| && IsDigit(s[i]) then 1 + DigitRun(s, i + 1) else 0
  }

  /** A run of n digits from i that no digit follows is the maximal run: greedy `\d+`
      has only one way to stop before a non-digit. */
  lemma {:induction false} DigitRunUnique(s: string, i: nat, n: nat)
    requires i + n <= |s|
    requires forall k :: i <= k < i + n ==> IsDigit(s[k])
    requires i + n == |s| || !IsDigit(s[i + n])
    ensures DigitRun(s, i) == n
    decreases n
  {
    if n > 0 {
      DigitRunUnique(s, i + 1, n - 1);
    }
  }

  /** `Integer#to_s` for a non-negative integer. */
  function NatStr(n: nat): (s: string)
    ensures |s| >= 1 && AllDigits(s)
    ensures DigitsValue(s) == n
    ensures n > 0 ==> s[0] != '0'
  {
    if n < 10 then [('0' as int + n) as char]
    else
      var d := ('0' as int + n % 10) as char;
      var r := NatStr(n / 10) + [d];
      assert r[..|r| - 1] == NatStr(n / 10);
      r
  }

  /** The leftmost position at or after p where the matcher m matches, with its result:
      how Ruby's unanchored `=~`, `String#[]` and `Regexp#match` pick a match. */
  function FindFirst<T>(s: string, p: nat, m: (string, nat) -> Option<T>): Option<T>
    decreases |s| - p
  {
    if p > |s| then None
    else if m(s, p).Some? then m(s, p)
    else FindFirst(s, p + 1, m)
  }

  /** Whatever matches first, scanning from the left, is what FindFirst reports. */
  lemma {:induction false} FindFirstAt<T>(s: string, p: nat, m: (string, nat) -> Option<T>, q: nat)
    requires p <= q <= |s| && m(s, q).Some?
    requires forall k :: p <= k < q ==> m(s, k).None?
    ensures FindFirst(s, p, m) == m(s, q)
    decreases q - p
  {
    if p < q {
      FindFirstAt(s, p + 1, m, q);
    }
  }

  /** FindFirst finds nothing exactly when nothing matches. */
  lemma {:induction false} FindFirstNone<T>(s: string, p: nat, m: (string, nat) -> Option<T>)
    ensures FindFirst(s, p, m).None? <==> forall q :: p <= q <= |s| ==> m(s, q).None?
    decreases |s| - p
  {
    if p <= |s| {
      FindFirstNone(s, p + 1, m);
    }
  }

  /** What FindFirst reports is a match with no match to its left. */
  lemma {:induction false} FindFirstSome<T>(s: string, p: nat, m: (string, nat) -> Option<T>) returns (q: nat)
    requires FindFirst(s, p, m).Some?
    ensures p <= q <= |s| && m(s, q) == FindFirst(s, p, m)
    ensures forall k :: p <= k < q ==> m(s, k).None?
    decreases |s| - p
  {
    if m(s, p).Some? {
      q := p;
    } else {
      q := FindFirstSome(s, p + 1, m);
    }
  }

  /** Length of the maximal prefix of s without white space. */
  function WordLength(s: string): (n: nat)
    ensures n <= |s|
    ensures forall k :: 0 <= k < n ==> !IsSpace(s[k])
    ensures n < |s| ==> IsSpace(s[n])
  {
    if s == [] || IsSpace(s[0]) then 0 else 1 + WordLength(s[1..])
  }

  /** Ruby's `String#split(' ')`: the maximal runs of non-white-space characters, in order. */
  function Words(s: string): (ws: seq<string>)
    ensures forall i :: 0 <= i < |ws| ==> IsWord(ws[i])
    decreases |s|
  {
    if s == [] then []
    else if IsSpace(s[0]) then Words(s[1..])
    else
      var n := WordLength(s);
      [s[..n]] + Words(s[n..])
  }

  predicate NoSpace(w: string) { forall k :: 0 <= k < |w| ==> !IsSpace(w[k]) }

  /** Ruby's `Array#join(' ')`. */
  function Join(ws: seq<string>): string
  {
    if ws == [] then "" else if |ws| == 1 then ws[0] else ws[0] + " " + Join(ws[1..])
  }

  /** Splitting a space-joined list of non-empty words gives the words back. */
  lemma {:induction false} WordsJoin(ws: seq<string>)
    requires forall i :: 0 <= i < |ws| ==> IsWord(ws[i])
    ensures Words(Join(ws)) == ws
  {
    if |ws| == 1 {
      WordsOfWord(ws[0], "");
      assert ws[0] + "" == ws[0];
    } else if |ws| > 1 {
      WordsJoin(ws[1..]);
      WordsJoinStep(ws[0], ws[1..]);
      assert ws == [ws[0]] + ws[1..];
    }
  }

  predicate IsWord(w: string) { |w| >= 1 && NoSpace(w) }

  lemma WordsJoinStep(w: string, rest: seq<string>)
    requires IsWord(w) && rest != []
    ensures Words(Join([w] + rest)) == [w] + Words(Join(rest))
  {
    var tail := " " + Join(rest);
    assert ([w] + rest)[1..] == rest;
    assert Join([w] + rest) == w + tail;
    WordsOfWord(w, tail);
    SpaceThenWords(Join(rest));
  }

  lemma SpaceThenWords(rest: string)
    ensures Words(" " + rest) == Words(rest)
  {
    assert (" " + rest)[1..] == rest;
  }

  /** A word followed by nothing or by white space is split off whole. */
  lemma WordsOfWord(w: string, tail: string)
    requires IsWord(w)
    requires tail == [] || IsSpace(tail[0])
    ensures Words(w + tail) == [w] + Words(tail)
  {
    var s := w + tail;
    WordLengthOf(w, tail);
    assert s[..|w|] == w && s[|w|..] == tail;
  }

  lemma {:induction false} WordLengthOf(w: string, tail: string)
    requires NoSpace(w)
    requires tail == [] || IsSpace(tail[0])
    ensures WordLength(w + tail) == |w|
  {
    if w != [] {
      assert (w + tail)[1..] == w[1..] + tail;
      WordLengthOf(w[1..], tail);
    }
  }

  /** The decimal text of a number reads back as that number. */
}
