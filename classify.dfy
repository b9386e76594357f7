/** The text/binary heuristic applied to every buffer before it is stored
    (hooks/useIndexedDB.ts, inside addFile). The buffer is decoded as UTF-8
    and counted as text when U+0000 makes up less than 5% of the decoded
    string. */
module ContentClassifier {
  import opened Types

  /** The UTF-8 decoder; decoding never fails, it substitutes invalid input. */
  type Decoder = seq<byte> -> string

  /** Number of U+0000 characters in `s`. */
  function NullCount(s: string): (n: nat)
    ensures n <= |s|
  {
    if s == [] then 0
    else (if s[0] == '\0' then 1 else 0) + NullCount(s[1..])
  }

  /** The count above is the multiplicity of U+0000 in the string. */
  lemma {:induction false} NullCountIsMultiplicity(s: string)
    ensures NullCount(s) == multiset(s)['\0']
  {
    if s != [] {
      NullCountIsMultiplicity(s[1..]);
      assert s == [s[0]] + s[1..];
      assert multiset(s) == multiset([s[0]]) + multiset(s[1..]);
    }
  }

  /** Counting distributes over concatenation. */
  lemma {:induction false} NullCountAppend(s: string, t: string)
    ensures NullCount(s + t) == NullCount(s) + NullCount(t)
  {
    if s == [] {
      assert s + t == t;
    } else {
      assert (s + t)[1..] == s[1..] + t;
      NullCountAppend(s[1..], t);
    }
  }

  /** The threshold `nulls < length * 0.05`, stated on integers. */
  predicate IsText(decoded: string)
  {
    20 * NullCount(decoded) < |decoded|
  }

  /** The `textContent` chosen for a decoded buffer: the whole decoded
      string when it is text, nothing when it is binary. */
  function Classify(decoded: string): (r: Option<string>)
    ensures r.Some? <==> 20 * multiset(decoded)['\0'] < |decoded|
    ensures r.Some? ==> r.value == decoded
    ensures decoded == [] ==> r == None
  {
    NullCountIsMultiplicity(decoded);
    if IsText(decoded) then Some(decoded) else None
  }

  /** A non-empty string without any U+0000 is text. */
  lemma {:induction false} NoNullsIsText(s: string)
    requires s != []
    requires forall i :: 0 <= i < |s| ==> s[i] != '\0'
    ensures Classify(s) == Some(s)
  {
    NoNullsCountZero(s);
  }

  lemma {:induction false} NoNullsCountZero(s: string)
    requires forall i :: 0 <= i < |s| ==> s[i] != '\0'
    ensures NullCount(s) == 0
  {
    if s != [] {
      NoNullsCountZero(s[1..]);
    }
  }

  /** Appending one more U+0000 can only turn text into binary, never the
      reverse: the verdict is monotone in the number of nulls. */
  lemma {:induction false} ExtraNullNeverMakesText(s: string)
    requires Classify(s + ['\0']).Some?
    ensures Classify(s).Some?
  {
    NullCountAppend(s, ['\0']);
    assert NullCount(['\0']) == 1;
    NullCountIsMultiplicity(s);
    NullCountIsMultiplicity(s + ['\0']);
  }
}
