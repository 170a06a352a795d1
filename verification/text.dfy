/**
  Characters, case and word tokens. Python's `\w` and `str.lower()` are
  Unicode-aware; here they are taken over the ASCII range: a word character
  is a letter, a digit or `_`, and lower-casing maps `A`..`Z` to `a`..`z`.
 */
module Text {

  predicate IsUpper(c: char) {
    'A' <= c <= 'Z'
  }

  /** A character matched by the regular-expression class `\w`. */
  predicate IsWordChar(c: char) {
    'a' <= c <= 'z' || IsUpper(c) || '0' <= c <= '9' || c == '_'
  }

  function LowerChar(c: char): (d: char)
    ensures !IsUpper(d)
    ensures IsWordChar(d) <==> IsWordChar(c)
    ensures !IsUpper(c) ==> d == c
  {
    if IsUpper(c) then (c as int + 32) as char else c
  }

  /** `str.lower()` */
  function Lower(s: string): (r: string)
    ensures |r| == |s|
    ensures forall i :: 0 <= i < |s| ==> r[i] == LowerChar(s[i])
  {
    seq(|s|, i requires 0 <= i < |s| => LowerChar(s[i]))
  }

  /** Lower-casing twice is lower-casing once. */
  lemma LowerIdempotent(s: string)
    ensures Lower(Lower(s)) == Lower(s)
  {
  }

  /** Lower-casing works character by character, so it distributes over concatenation. */
  lemma LowerAppend(a: string, b: string)
    ensures Lower(a + b) == Lower(a) + Lower(b)
  {
    assert forall i :: 0 <= i < |a + b| ==> Lower(a + b)[i] == (Lower(a) + Lower(b))[i];
  }

  /** Length of the run of word characters that `s` starts with. */
  function RunLength(s: string): (n: nat)
    ensures n <= |s|
    ensures forall i :: 0 <= i < n ==> IsWordChar(s[i])
    ensures n < |s| ==> !IsWordChar(s[n])
  {
    if |s| == 0 || !IsWordChar(s[0]) then 0 else 1 + RunLength(s[1..])
  }

  /** The word characters of `s`, in order. */
  function WordChars(s: string): seq<char> {
    if |s| == 0 then []
    else (if IsWordChar(s[0]) then [s[0]] else []) + WordChars(s[1..])
  }

  function Concat(ws: seq<string>): string {
    if |ws| == 0 then [] else ws[0] + Concat(ws[1..])
  }

  /**
    `re.findall(r'\b\w+\b', s)`: the maximal runs of word characters of `s`,
    left to right. Each token is non-empty, made of word characters only,
    and every one of its characters occurs in `s`.
   */
  function Words(s: string): (ws: seq<string>)
    ensures forall i :: 0 <= i < |ws| ==> |ws[i]| > 0
    ensures forall i, j :: 0 <= i < |ws| && 0 <= j < |ws[i]| ==> IsWordChar(ws[i][j]) && ws[i][j] in s
    decreases |s|
  {
    if |s| == 0 then []
    else if !IsWordChar(s[0]) then Words(s[1..])
    else
      var n := RunLength(s);
      [s[..n]] + Words(s[n..])
  }

  lemma {:induction false} ConcatAppend(a: seq<string>, b: seq<string>)
    ensures Concat(a + b) == Concat(a) + Concat(b)
    decreases |a|
  {
    if |a| == 0 {
      assert a + b == b;
    } else {
      assert (a + b)[1..] == a[1..] + b;
      ConcatAppend(a[1..], b);
    }
  }

  lemma {:induction false} WordCharsAppend(a: string, b: string)
    ensures WordChars(a + b) == WordChars(a) + WordChars(b)
    decreases |a|
  {
    if |a| == 0 {
      assert a + b == b;
    } else {
      var h := if IsWordChar(a[0]) then [a[0]] else [];
      assert (a + b)[0] == a[0];
      assert (a + b)[1..] == a[1..] + b;
      WordCharsAppend(a[1..], b);
      calc {
        WordChars(a + b);
        h + WordChars(a[1..] + b);
        h + (WordChars(a[1..]) + WordChars(b));
        (h + WordChars(a[1..])) + WordChars(b);
      }
    }
  }

  lemma {:induction false} WordCharsOfRun(s: string)
    requires forall i :: 0 <= i < |s| ==> IsWordChar(s[i])
    ensures WordChars(s) == s
    decreases |s|
  {
    if |s| > 0 {
      WordCharsOfRun(s[1..]);
    }
  }

  /**
    Tokenizing loses exactly the separators: the tokens laid end to end are
    the word characters of the input, in order.
   */
  lemma {:induction false} WordsCoverWordChars(s: string)
    ensures Concat(Words(s)) == WordChars(s)
    decreases |s|
  {
    if |s| == 0 {
    } else if !IsWordChar(s[0]) {
      WordsCoverWordChars(s[1..]);
    } else {
      var n := RunLength(s);
      assert s == s[..n] + s[n..];
      WordsCoverWordChars(s[n..]);
      ConcatAppend([s[..n]], Words(s[n..]));
      assert Concat([s[..n]]) == s[..n];
      WordCharsOfRun(s[..n]);
      WordCharsAppend(s[..n], s[n..]);
    }
  }

  lemma {:induction false} RunLengthStopsAtSeparator(a: string, sep: char, b: string)
    requires !IsWordChar(sep)
    ensures RunLength(a + [sep] + b) == RunLength(a)
    decreases |a|
  {
    if |a| == 0 {
    } else {
      assert (a + [sep] + b)[1..] == a[1..] + [sep] + b;
      RunLengthStopsAtSeparator(a[1..], sep, b);
    }
  }

  /**
    A non-word character always ends a token: the tokens of `a + [sep] + b`
    are the tokens of `a` followed by the tokens of `b`.
   */
  lemma {:induction false} WordsSplitAtSeparator(a: string, sep: char, b: string)
    requires !IsWordChar(sep)
    ensures Words(a + [sep] + b) == Words(a) + Words(b)
    decreases |a|
  {
    var s := a + [sep] + b;
    if |a| == 0 {
      assert s[1..] == b;
    } else if !IsWordChar(a[0]) {
      assert s[1..] == a[1..] + [sep] + b;
      WordsSplitAtSeparator(a[1..], sep, b);
    } else {
      RunLengthStopsAtSeparator(a, sep, b);
      var n := RunLength(a);
      assert s[..n] == a[..n];
      assert s[n..] == a[n..] + [sep] + b;
      WordsSplitAtSeparator(a[n..], sep, b);
    }
  }

  lemma {:induction false} RunLengthOfRun(w: string)
    requires forall i :: 0 <= i < |w| ==> IsWordChar(w[i])
    ensures RunLength(w) == |w|
    decreases |w|
  {
    if |w| > 0 {
      RunLengthOfRun(w[1..]);
    }
  }

  /** A single run of word characters is a single token. */
  lemma WordsOfRun(w: string)
    requires |w| > 0
    requires forall i :: 0 <= i < |w| ==> IsWordChar(w[i])
    ensures Words(w) == [w]
  {
    RunLengthOfRun(w);
    assert w[..|w|] == w;
    assert Words(w[|w|..]) == [];
  }
}
